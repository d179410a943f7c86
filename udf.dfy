/** The two MySQL user-defined functions of mysql_udf_ipv6.c:
    INET6_PTON (presentation text to a 4- or 16-byte binary string) and
    INET6_NTOP (a 4- or 16-byte binary string to presentation text).

    A SQL argument is `Option<seq<...>>`: `None` is a NULL argument, and
    the sequence holds the argument's bytes (`args->lengths[0]` of them).
    A text argument is a `seq<char>` with one character per byte. The
    functions `Pton` and `Ntop` state what each UDF computes; the methods
    `InetPton` and `InetNtop` follow the C bodies step by step over arrays
    and are proved to compute exactly that. */
module Udf {
  import opened Common
  import opened Ipv4Text
  import opened Ipv6Text

  /** sizeof(struct in_addr) and sizeof(struct in6_addr). */
  const INET_ADDRLEN: nat := 4
  const INET6_ADDRLEN: nat := 16
  /** The platform's INET6_ADDRSTRLEN. */
  const INET6_ADDRSTRLEN: nat := 46
  /** The number of values of inet6_pton's 32-bit `uint length`. */
  const UINT_MODULUS: nat := 0x1_0000_0000

  datatype Family = AfInet | AfInet6

  /** strlen: the index of the first NUL, or the whole length when there
      is none. */
  function Strlen(s: seq<char>): (n: nat)
    ensures n <= |s|
    ensures forall k :: 0 <= k < n ==> s[k] != '\0'
    ensures n < |s| ==> s[n] == '\0'
    decreases |s|
  {
    if |s| == 0 || s[0] == '\0' then 0 else 1 + Strlen(s[1..])
  }

  /** The C string a buffer holds: its characters before the first NUL. */
  function CString(s: seq<char>): seq<char>
  {
    s[..Strlen(s)]
  }

  /** An argument length stored in inet6_pton's `uint length`: the
      `unsigned long` length taken modulo 2^32. */
  function Uint32(len: nat): (m: nat)
    ensures m < UINT_MODULUS && m <= len
    ensures len < UINT_MODULUS ==> m == len
    ensures (len - m) % UINT_MODULUS == 0
  {
    len % UINT_MODULUS
  }

  /** The number of argument bytes inet6_pton copies into its working
      buffer `temp` of INET6_ADDRSTRLEN + 1 characters. */
  function CopiedLength(len: nat): (n: nat)
  {
    if len >= INET6_ADDRSTRLEN + 1 then INET6_ADDRSTRLEN else len
  }

  /** The text inet6_pton hands to the parser: the copied bytes up to the
      first NUL (the terminator it writes, or an earlier one in the data).
      The number of bytes copied comes from the 32-bit length. */
  function WorkingText(a: seq<char>): (t: seq<char>)
    ensures |t| <= INET6_ADDRSTRLEN && |t| <= Uint32(|a|) && t == a[..|t|]
    ensures '\0' !in t
    ensures |t| < Uint32(|a|) && |t| < INET6_ADDRSTRLEN ==> a[|t|] == '\0'
  {
    CString(a[..CopiedLength(Uint32(|a|))])
  }

  /** The family inet6_pton chooses for its text: any '.' selects IPv4.
      No dotted-decimal address is lost to the IPv6 side, since every
      dotted-decimal text holds a '.'. */
  function TextFamily(t: seq<char>): (f: Family)
    ensures f == AfInet <==> '.' in t
    ensures f == AfInet6 ==> Parse4(t) == None
  {
    if '.' in t then AfInet
    else
      Parse4RejectsDotless(t);
      AfInet6
  }

  /** The family inet6_ntop chooses for a binary argument of `len` bytes. */
  function LengthFamily(len: nat): (f: Option<Family>)
    ensures f == Some(AfInet) <==> len == INET_ADDRLEN
    ensures f == Some(AfInet6) <==> len == INET6_ADDRLEN
    ensures f.None? <==> len != INET_ADDRLEN && len != INET6_ADDRLEN
  {
    if len == INET_ADDRLEN then Some(AfInet)
    else if len == INET6_ADDRLEN then Some(AfInet6)
    else None
  }

  /** The result of INET6_PTON(arg); None is SQL NULL. */
  function Pton(arg: Option<seq<char>>): (r: Option<seq<byte>>)
    ensures r.Some? ==> arg.Some? && Uint32(|arg.value|) > 0
    ensures r.Some? ==>
      |r.value| == (if TextFamily(WorkingText(arg.value)) == AfInet then INET_ADDRLEN else INET6_ADDRLEN)
  {
    if arg.None? || Uint32(|arg.value|) == 0 then None
    else
      var text := WorkingText(arg.value);
      match TextFamily(text)
      case AfInet => Parse4(text)
      case AfInet6 => Parse6(text)
  }

  /** inet_ntop's text for an address of the given family. */
  function Presentation(af: Family, b: seq<byte>): (t: seq<char>)
    requires |b| == (if af == AfInet then INET_ADDRLEN else INET6_ADDRLEN)
    ensures |t| < INET6_ADDRSTRLEN && '\0' !in t
    ensures af == AfInet ==> Parse4(t) == Some(b)
    ensures af == AfInet6 ==> Parse6(t) == Some(b)
  {
    match af
    case AfInet =>
      Parse4Format4(b);
      Format4(b)
    case AfInet6 =>
      Parse6Format6(b);
      Format6(b)
  }

  /** The result of INET6_NTOP(arg); None is SQL NULL. */
  function Ntop(arg: Option<seq<byte>>): (r: Option<seq<char>>)
    ensures r.None? <==> arg.None? || (|arg.value| != INET_ADDRLEN && |arg.value| != INET6_ADDRLEN)
    ensures r.Some? ==> |r.value| < INET6_ADDRSTRLEN && '\0' !in r.value
  {
    if arg.None? || |arg.value| == 0 then None
    else
      match LengthFamily(|arg.value|)
      case None => None
      case Some(af) => Some(Presentation(af, arg.value))
  }

  /** strlen over a buffer that holds a NUL. */
  method CStringLength(buf: array<char>) returns (n: nat)
    requires '\0' in buf[..]
    ensures n < buf.Length && n == Strlen(buf[..])
  {
    ghost var end := Strlen(buf[..]);
    n := 0;
    while buf[n] != '\0'
      invariant n <= end < buf.Length
      invariant forall k :: 0 <= k < n ==> buf[k] != '\0'
      decreases end - n
    {
      n := n + 1;
    }
  }

  /** strpbrk(buf, "c") for a single character: the index of the first `c`
      in the C string `buf` holds, or None. */
  method Strpbrk(buf: array<char>, c: char) returns (r: Option<nat>)
    requires '\0' in buf[..] && c != '\0'
    ensures r.Some? ==> r.value < Strlen(buf[..]) && buf[r.value] == c && c !in buf[..r.value]
    ensures r.None? <==> c !in CString(buf[..])
  {
    ghost var end := Strlen(buf[..]);
    var i := 0;
    while buf[i] != '\0' && buf[i] != c
      invariant i <= end < buf.Length
      invariant forall k :: 0 <= k < i ==> buf[k] != '\0' && buf[k] != c
      decreases end - i
    {
      i := i + 1;
    }
    if buf[i] == c {
      assert buf[..i] == CString(buf[..])[..i];
      r := Some(i);
    } else {
      r := None;
    }
  }

  /** A buffer holding `data` and then a NUL holds the C string of `data`. */
  lemma TerminatedCString(buf: seq<char>, data: seq<char>)
    requires |data| < |buf| && buf[..|data|] == data && buf[|data|] == '\0'
    ensures Strlen(buf) == Strlen(data) && CString(buf) == CString(data)
  {
    var n := Strlen(data);
    assert n < |data| ==> buf[n] == data[n];
    assert forall k :: 0 <= k < n ==> buf[k] == data[k];
  }

  /** The working copy of inet6_pton: a fresh buffer of INET6_ADDRSTRLEN + 1
      characters holding the first `length` (at most INET6_ADDRSTRLEN)
      argument bytes and then a NUL, so that its C string is the working
      text. */
  method CopyTruncated(input: seq<char>, length: nat) returns (temp: array<char>)
    requires length == Uint32(|input|)
    ensures fresh(temp) && temp.Length == INET6_ADDRSTRLEN + 1
    ensures '\0' in temp[..] && CString(temp[..]) == WorkingText(input)
  {
    temp := new char[INET6_ADDRSTRLEN + 1];
    var length := length;
    if length >= temp.Length {
      length := temp.Length - 1;
    }
    var i := 0;
    while i < length
      invariant i <= length && temp[..i] == input[..i]
    {
      temp[i] := input[i];
      i := i + 1;
    }
    temp[length] := '\0';
    assert temp[..length] == input[..length];
    TerminatedCString(temp[..], input[..length]);
  }

  /** Store `bytes` at the start of `result`, as inet_pton does on success. */
  method WriteBytes(result: array<byte>, bytes: seq<byte>)
    requires |bytes| <= result.Length
    modifies result
    ensures result[..|bytes|] == bytes
    ensures result[|bytes|..] == old(result[|bytes|..])
  {
    var j := 0;
    while j < |bytes|
      invariant j <= |bytes| && result[..j] == bytes[..j]
      invariant result[j..] == old(result[j..])
    {
      result[j] := bytes[j];
      j := j + 1;
    }
  }

  /** inet6_pton: copy at most INET6_ADDRSTRLEN argument bytes into a
      NUL-terminated working buffer, choose the family by the presence of
      '.', and parse into `result`, which is left untouched on NULL. */
  method InetPton(arg: Option<seq<char>>, result: array<byte>) returns (resLength: Option<nat>)
    requires result.Length >= INET6_ADDRLEN
    modifies result
    ensures resLength.None? <==> Pton(arg).None?
    ensures resLength.Some? ==>
      resLength.value == |Pton(arg).value| && result[..resLength.value] == Pton(arg).value
    ensures resLength.Some? ==> result[resLength.value..] == old(result[resLength.value..])
    ensures resLength.None? ==> result[..] == old(result[..])
  {
    if arg.None? {
      return None;
    }
    var length: nat := |arg.value| % UINT_MODULUS;
    if length == 0 {
      return None;
    }
    var temp := CopyTruncated(arg.value, length);
    var dot := Strpbrk(temp, '.');
    var n := CStringLength(temp);
    var text := temp[..n];
    var parsed: Option<seq<byte>>;
    if dot.Some? {
      length := INET_ADDRLEN;
      parsed := Parse4(text);
    } else {
      length := INET6_ADDRLEN;
      parsed := Parse6(text);
    }
    if parsed.None? {
      return None;
    }
    WriteBytes(result, parsed.value);
    resLength := Some(length);
  }

  /** Store `text` and a terminating NUL at the start of `buf`, as inet_ntop
      does with its result. */
  method WriteCString(buf: array<char>, text: seq<char>)
    requires |text| < buf.Length && '\0' !in text
    modifies buf
    ensures buf[..|text|] == text && buf[|text|] == '\0'
    ensures buf[|text| + 1..] == old(buf[|text| + 1..])
    ensures Strlen(buf[..]) == |text|
  {
    var i := 0;
    while i < |text|
      invariant i <= |text| && buf[..i] == text[..i]
      invariant forall k :: i <= k < buf.Length ==> buf[k] == old(buf[k])
    {
      buf[i] := text[i];
      i := i + 1;
    }
    buf[|text|] := '\0';
    assert buf[..|text|] == text;
    TerminatedCString(buf[..], text);
  }

  /** inet6_ntop: NULL for a NULL or empty argument and for any length but
      4 and 16; otherwise write the address's text and a NUL into `result`
      (inet_ntop's buffer size is INET6_ADDRSTRLEN + 1) and report strlen. */
  method InetNtop(arg: Option<seq<byte>>, result: array<char>) returns (resLength: Option<nat>)
    requires result.Length >= INET6_ADDRSTRLEN + 1
    modifies result
    ensures resLength.None? <==> Ntop(arg).None?
    ensures resLength.Some? ==>
      resLength.value < INET6_ADDRSTRLEN && result[..resLength.value] == Ntop(arg).value &&
      result[resLength.value] == '\0'
    ensures resLength.Some? ==> result[resLength.value + 1..] == old(result[resLength.value + 1..])
    ensures resLength.None? ==> result[..] == old(result[..])
  {
    if arg.None? || |arg.value| == 0 {
      return None;
    }
    var src := arg.value;
    var af := LengthFamily(|src|);
    if af.None? {
      return None;
    }
    var text := Presentation(af.value, src);
    WriteCString(result, text);
    var n := CStringLength(result);
    resLength := Some(n);
  }

  /** inet6_pton reads no argument byte past the first INET6_ADDRSTRLEN:
      the result depends only on that prefix. */
  lemma PtonReadsBoundedPrefix(a: seq<char>)
    requires Uint32(|a|) > INET6_ADDRSTRLEN
    ensures Pton(Some(a)) == Pton(Some(a[..INET6_ADDRSTRLEN]))
  {
    assert a[..INET6_ADDRSTRLEN][..CopiedLength(INET6_ADDRSTRLEN)] == a[..CopiedLength(Uint32(|a|))];
  }

  /** The length inet6_pton works with is the argument length modulo 2^32:
      an argument of a multiple of 2^32 bytes is NULL, and a longer one
      reads as its first `length % 2^32` bytes. */
  lemma PtonLengthWraps(a: seq<char>)
    requires |a| >= UINT_MODULUS
    ensures Uint32(|a|) == 0 ==> Pton(Some(a)) == None
    ensures Uint32(|a|) > 0 ==> Pton(Some(a)) == Pton(Some(a[..Uint32(|a|)]))
  {
    var m := Uint32(|a|);
    if m > 0 {
      assert a[..m][..CopiedLength(Uint32(m))] == a[..CopiedLength(m)];
    }
  }

  /** Truncation and NUL termination change no text of at most
      INET6_ADDRSTRLEN characters that holds no NUL. */
  lemma WorkingTextOfShortText(a: seq<char>)
    requires |a| <= INET6_ADDRSTRLEN && '\0' !in a
    ensures WorkingText(a) == a
  {
    assert a[..CopiedLength(Uint32(|a|))] == a;
  }

  /** Text with both ':' and '.', the IPv6 form with a dotted-decimal tail
      that the IPv6 grammar accepts, is always NULL: the '.' sends it to
      the IPv4 grammar, which refuses every ':'. */
  lemma PtonRejectsDottedIpv6(a: seq<char>)
    requires ':' in WorkingText(a) && '.' in WorkingText(a)
    ensures Pton(Some(a)) == None
  {
    Parse4RejectsColon(WorkingText(a));
  }

  /** Dotted-decimal text is canonical: whenever inet6_pton accepts text as
      IPv4, inet6_ntop gives that very text back. */
  lemma NtopPtonIpv4(a: seq<char>)
    requires Pton(Some(a)).Some? && TextFamily(WorkingText(a)) == AfInet
    ensures Ntop(Pton(Some(a))) == Some(WorkingText(a))
  {
    var q := Pton(Some(a)).value;
    Parse4Canonical(WorkingText(a), q);
  }

  /** Every 4-byte address survives INET6_PTON(INET6_NTOP(b)). */
  lemma RoundTripIpv4(b: seq<byte>)
    requires |b| == INET_ADDRLEN
    ensures Pton(Ntop(Some(b))) == Some(b)
  {
    var t := Format4(b);
    Parse4Format4(b);
    WorkingTextOfShortText(t);
  }

  /** A 16-byte address survives INET6_PTON(INET6_NTOP(b)) exactly when it
      is neither IPv4-mapped nor IPv4-compatible; for those two, inet_ntop
      writes a dotted-decimal tail and inet6_pton returns NULL. */
  lemma RoundTripIpv6(b: seq<byte>)
    requires |b| == INET6_ADDRLEN
    ensures !(Ipv4Mapped(b) || Ipv4Compatible(b)) ==> Pton(Ntop(Some(b))) == Some(b)
    ensures Ipv4Mapped(b) || Ipv4Compatible(b) ==> Pton(Ntop(Some(b))) == None
  {
    var t := Format6(b);
    Parse6Format6(b);
    MixedFormIff(b);
    WorkingTextOfShortText(t);
    if '.' in t {
      Parse4RejectsColon(t);
    }
  }
}
