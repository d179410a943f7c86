/** IPv6 text, the AF_INET6 grammar that inet6_pton and inet6_ntop delegate
    to inet_pton/inet_ntop.

    Input (section 2.2 of RFC 4291): eight groups of 1 to 4 hexadecimal
    digits separated by ':'; at most one "::" standing for one or more
    zero groups; the last 32 bits may be written as dotted-decimal IPv4.

    Output (section 4 of RFC 5952, as glibc's inet_ntop writes it): groups
    in lower-case hexadecimal without leading zeros, the longest run of two
    or more zero groups written as "::" (the first such run on ties), and
    the dotted-decimal tail of section 5 of RFC 5952 for IPv4-mapped and
    IPv4-compatible addresses. */
module Ipv6Text {
  import opened Common
  import opened Numerals
  import opened Ipv4Text

  /** The group made of a high and a low byte. */
  function Word(hi: byte, lo: byte): word
  {
    hi as int * 256 + lo as int
  }

  /** The eight 16-bit groups of a 16-byte address in network byte order. */
  function Words(b: seq<byte>): (w: seq<word>)
    requires |b| == 16
    ensures |w| == 8
  {
    seq(8, i requires 0 <= i < 8 => Word(b[2 * i], b[2 * i + 1]))
  }

  /** The bytes of a sequence of 16-bit groups in network byte order. */
  function WordBytes(w: seq<word>): (b: seq<byte>)
    ensures |b| == 2 * |w|
  {
    seq(2 * |w|, i requires 0 <= i < 2 * |w| => if i % 2 == 0 then w[i / 2] / 256 else w[i / 2] % 256)
  }

  function Zeros(n: nat): (z: seq<word>)
  {
    seq(n, _ => 0)
  }

  /** Grouping bytes into words loses nothing. */
  lemma WordBytesWords(b: seq<byte>)
    requires |b| == 16
    ensures WordBytes(Words(b)) == b
  {
    var w := Words(b);
    forall i | 0 <= i < 16
      ensures WordBytes(w)[i] == b[i]
    {
      var k := i / 2;
      assert w[k] == Word(b[2 * k], b[2 * k + 1]);
    }
  }

  /** The number of consecutive zero groups starting at group `i`. */
  function ZeroRunAt(w: seq<word>, i: nat): (n: nat)
    requires i <= |w|
    ensures i + n <= |w|
    ensures forall k :: i <= k < i + n ==> w[k] == 0
    ensures i + n < |w| ==> w[i + n] != 0
    decreases |w| - i
  {
    if i == |w| || w[i] != 0 then 0 else 1 + ZeroRunAt(w, i + 1)
  }

  /** A run of zero groups: where it starts and how many groups it spans. */
  datatype Run = Run(base: nat, len: nat)

  /** The longest run of zero groups starting at or after group `i`; of
      several equally long runs, the first. */
  function LongestZeroRun(w: seq<word>, i: nat): (r: Run)
    requires i <= |w|
    ensures i <= r.base <= |w| && r.len == ZeroRunAt(w, r.base)
    ensures forall j :: i <= j <= |w| ==> ZeroRunAt(w, j) <= r.len
    ensures forall j :: i <= j < r.base ==> ZeroRunAt(w, j) < r.len
    decreases |w| - i
  {
    if i == |w| then Run(i, 0)
    else
      var rest := LongestZeroRun(w, i + 1);
      var here := ZeroRunAt(w, i);
      if here >= rest.len then Run(i, here) else rest
  }

  /** The condition under which inet_ntop writes the last 32 bits in
      dotted-decimal: the longest zero run starts the address and spans
      six groups, or five groups followed by ffff. */
  predicate MixedForm(w: seq<word>, run: Run)
    requires |w| == 8
  {
    run.base == 0 && (run.len == 6 || (run.len == 5 && w[5] == 0xffff))
  }

  /** IPv4-mapped address ::ffff:a.b.c.d (section 2.5.5.2 of RFC 4291). */
  predicate Ipv4Mapped(b: seq<byte>)
    requires |b| == 16
  {
    (forall i :: 0 <= i < 10 ==> b[i] == 0) && b[10] == 0xff && b[11] == 0xff
  }

  /** IPv4-compatible address ::a.b.c.d (section 2.5.5.1 of RFC 4291) as
      inet_ntop recognises it: the first 96 bits are zero and the seventh
      group is not, so that "::" and "::1" stay hexadecimal. */
  predicate Ipv4Compatible(b: seq<byte>)
    requires |b| == 16
  {
    (forall i :: 0 <= i < 12 ==> b[i] == 0) && (b[12] != 0 || b[13] != 0)
  }

  function HexGroups(ws: seq<word>): seq<seq<char>>
  {
    seq(|ws|, i requires 0 <= i < |ws| => Hex(ws[i]))
  }

  /** Groups in hexadecimal separated by ':'. */
  function JoinHex(ws: seq<word>): seq<char>
  {
    Join(HexGroups(ws), ':')
  }

  /** inet_ntop(AF_INET6, ...) for a 16-byte address. The text has a ':'
      and no NUL, fits in 39 characters, and holds a '.' exactly when the
      last 32 bits are written in dotted-decimal. */
  function Format6(b: seq<byte>): (s: seq<char>)
    requires |b| == 16
    ensures ':' in s && '\0' !in s && |s| <= 39
    ensures '.' in s <==> MixedForm(Words(b), LongestZeroRun(Words(b), 0))
  {
    var w := Words(b);
    var run := LongestZeroRun(w, 0);
    if MixedForm(w, run) then
      var rest := MixedRest(run.len == 5, w[5], b[12..]);
      MixedRestShape(run.len == 5, w[5], b[12..]);
      assert ("::" + rest)[0] == ':';
      "::" + rest
    else if run.len >= 2 then
      CompressedShape(w, run.base, run.len);
      JoinHex(w[..run.base]) + "::" + JoinHex(w[run.base + run.len..])
    else
      UncompressedShape(w);
      JoinHex(w)
  }

  /** Fields of IPv6 text as groups; when `v4Tail` holds, a last field
      containing '.' is dotted-decimal and stands for two groups. */
  function ParseGroups(fields: seq<seq<char>>, v4Tail: bool): (r: Option<seq<word>>)
    decreases |fields|
  {
    if |fields| == 0 then Some([])
    else if |fields| == 1 && v4Tail && '.' in fields[0] then
      match Parse4(fields[0])
      case Some(q) => Some([Word(q[0], q[1]), Word(q[2], q[3])])
      case None => None
    else
      match ParseGroup(fields[0])
      case None => None
      case Some(g) =>
        match ParseGroups(fields[1..], v4Tail)
        case None => None
        case Some(rest) => Some([g] + rest)
  }

  /** One side of a "::": empty, or ':'-separated fields. */
  function ParsePart(t: seq<char>, v4Tail: bool): Option<seq<word>>
  {
    if t == [] then Some([]) else ParseGroups(Split(t, ':'), v4Tail)
  }

  /** The address written as `head::tail`: "::" stands for at least one
      zero group. */
  function Expand(head: Option<seq<word>>, tail: Option<seq<word>>): (r: Option<seq<byte>>)
    ensures r.Some? ==> |r.value| == 16
  {
    if head.Some? && tail.Some? && |head.value| + |tail.value| <= 7 then
      Some(WordBytes(head.value + Zeros(8 - |head.value| - |tail.value|) + tail.value))
    else None
  }

  /** inet_pton(AF_INET6, ...): the 16 bytes of IPv6 text, or None when the
      text is not an IPv6 address. With a "::", the groups before and
      after it number at most seven and the "::" fills the rest with
      zeros; without one, there are exactly eight groups. */
  function Parse6(s: seq<char>): (r: Option<seq<byte>>)
    ensures r.Some? ==> |r.value| == 16
  {
    match FirstSepPair(s, ':', 0)
    case Some(i) => Expand(ParsePart(s[..i], false), ParsePart(s[i + 2..], true))
    case None =>
      var groups := ParseGroups(Split(s, ':'), true);
      if groups.Some? && |groups.value| == 8 then Some(WordBytes(groups.value)) else None
  }

  lemma HexGroupsProper(ws: seq<word>)
    ensures ProperFields(HexGroups(ws), ':')
    ensures forall i :: 0 <= i < |ws| ==> '.' !in HexGroups(ws)[i] && '\0' !in HexGroups(ws)[i]
    ensures forall i :: 0 <= i < |ws| ==> |HexGroups(ws)[i]| <= 4
  {
    forall i | 0 <= i < |ws|
      ensures ':' !in Hex(ws[i]) && '.' !in Hex(ws[i]) && '\0' !in Hex(ws[i])
    {
      NumeralChars(Hex(ws[i]));
    }
  }

  /** Hexadecimal groups parse back to the groups. */
  lemma {:induction false} ParseGroupsHex(ws: seq<word>, v4Tail: bool)
    ensures ParseGroups(HexGroups(ws), v4Tail) == Some(ws)
    decreases |ws|
  {
    if |ws| > 0 {
      var gs := HexGroups(ws);
      assert gs[0] == Hex(ws[0]);
      NumeralChars(gs[0]);
      ParseGroupHex(ws[0]);
      assert gs[1..] == HexGroups(ws[1..]);
      ParseGroupsHex(ws[1..], v4Tail);
      ParseGroupsCons(gs, v4Tail, ws[0], ws[1..]);
      assert [ws[0]] + ws[1..] == ws;
    }
  }

  /** A group in front of parsed groups adds itself in front. */
  lemma ParseGroupsCons(fields: seq<seq<char>>, v4Tail: bool, g: word, rest: seq<word>)
    requires |fields| > 0 && '.' !in fields[0]
    requires ParseGroup(fields[0]) == Some(g) && ParseGroups(fields[1..], v4Tail) == Some(rest)
    ensures ParseGroups(fields, v4Tail) == Some([g] + rest)
  {
  }

  lemma ParsePartJoinHex(ws: seq<word>, v4Tail: bool)
    ensures ParsePart(JoinHex(ws), v4Tail) == Some(ws)
  {
    HexGroupsProper(ws);
    if ws != [] {
      JoinProper(HexGroups(ws), ':');
      SplitJoin(HexGroups(ws), ':');
      ParseGroupsHex(ws, v4Tail);
    }
  }

  /** The "::" that the formatter writes after the head is the first one
      in the text. */
  lemma FirstPairAfterHead(h: seq<char>, t: seq<char>)
    requires NoSepPair(h, ':') && (h == [] || h[|h| - 1] != ':')
    ensures FirstSepPair(h + "::" + t, ':', 0) == Some(|h|)
  {
    var s := h + "::" + t;
    assert SepPairAt(s, ':', |h|);
    forall k | 0 <= k < |h|
      ensures !SepPairAt(s, ':', k)
    {
      assert s[k] == h[k];
      if k < |h| - 1 {
        assert s[k + 1] == h[k + 1];
        assert !SepPairAt(h, ':', k);
      }
    }
  }

  /** The head of compressed text: no "::" in it and no ':' at its end. */
  lemma HeadProper(ws: seq<word>)
    ensures var h := JoinHex(ws); NoSepPair(h, ':') && (h == [] || h[|h| - 1] != ':')
  {
    HexGroupsProper(ws);
    if ws != [] {
      JoinProper(HexGroups(ws), ':');
    }
  }

  /** Text whose first "::" follows `h` is split there. */
  lemma Parse6AtPair(h: seq<char>, t: seq<char>)
    requires FirstSepPair(h + "::" + t, ':', 0) == Some(|h|)
    ensures Parse6(h + "::" + t) == Expand(ParsePart(h, false), ParsePart(t, true))
  {
    var s := h + "::" + t;
    assert s[..|h|] == h && s[|h| + 2..] == t;
  }

  /** Filling a zero run back in between the groups around it. */
  lemma ExpandAroundRun(w: seq<word>, base: nat, len: nat)
    requires |w| == 8 && 2 <= len && base + len <= 8
    requires forall k :: base <= k < base + len ==> w[k] == 0
    ensures Expand(Some(w[..base]), Some(w[base + len..])) == Some(WordBytes(w))
  {
    assert w[..base] + Zeros(len) + w[base + len..] == w;
  }

  /** Text with the zero run at `base` compressed parses back to the groups. */
  lemma CompressedRoundTrip(w: seq<word>, base: nat, len: nat)
    requires |w| == 8 && 2 <= len && base + len <= 8
    requires forall k :: base <= k < base + len ==> w[k] == 0
    ensures Parse6(JoinHex(w[..base]) + "::" + JoinHex(w[base + len..])) == Some(WordBytes(w))
  {
    var h := JoinHex(w[..base]);
    var t := JoinHex(w[base + len..]);
    HeadProper(w[..base]);
    FirstPairAfterHead(h, t);
    Parse6AtPair(h, t);
    ParsePartJoinHex(w[..base], false);
    ParsePartJoinHex(w[base + len..], true);
    ExpandAroundRun(w, base, len);
  }

  /** Text without compression parses back to the groups. */
  lemma UncompressedRoundTrip(w: seq<word>)
    requires |w| == 8
    ensures Parse6(JoinHex(w)) == Some(WordBytes(w))
  {
    HexGroupsProper(w);
    JoinProper(HexGroups(w), ':');
    SplitJoin(HexGroups(w), ':');
    ParseGroupsHex(w, true);
  }

  /** A dotted-decimal last field stands for two groups. */
  lemma V4TailParse(q: seq<byte>)
    requires |q| == 4
    ensures ParsePart(Format4(q), true) == Some([Word(q[0], q[1]), Word(q[2], q[3])])
  {
    var v4 := Format4(q);
    Parse4Format4(q);
    SplitNoSep(v4, ':');
  }

  /** A group followed by a dotted-decimal last field stands for three groups. */
  lemma GroupV4TailParse(x: word, q: seq<byte>)
    requires |q| == 4
    ensures ParsePart(Hex(x) + ":" + Format4(q), true) == Some([x, Word(q[0], q[1]), Word(q[2], q[3])])
  {
    var v4 := Format4(q);
    var g := Hex(x);
    var t := g + [':'] + v4;
    assert g + ":" + v4 == t;
    NumeralChars(g);
    SplitPrefix(g, ':', v4);
    SplitNoSep(v4, ':');
    var fields := [g, v4];
    assert Split(t, ':') == fields;
    V4TailParse(q);
    var tail2 := [Word(q[0], q[1]), Word(q[2], q[3])];
    assert ParseGroups(fields[1..], true) == Some(tail2);
    ParseGroupHex(x);
    assert ParseGroup(fields[0]) == Some(x);
    assert ParseGroups(fields, true) == Some([x] + tail2);
    assert t != [];
    assert ParsePart(t, true) == ParseGroups(fields, true);
    assert [x] + tail2 == [x, Word(q[0], q[1]), Word(q[2], q[3])];
  }

  /** Text starting with "::" is zeros followed by its tail. */
  lemma ExpandEmptyHead(tail: seq<word>)
    requires |tail| <= 7
    ensures Expand(Some([]), Some(tail)) == Some(WordBytes(Zeros(8 - |tail|) + tail))
  {
    assert [] + Zeros(8 - |tail|) + tail == Zeros(8 - |tail|) + tail;
  }

  /** Text starting with "::" has an empty head. */
  lemma Parse6LeadingPair(r: seq<char>)
    ensures Parse6("::" + r) == Expand(Some([]), ParsePart(r, true))
  {
    var s := "::" + r;
    assert SepPairAt(s, ':', 0);
    assert [] + "::" + r == s;
    Parse6AtPair([], r);
  }

  /** What inet_ntop writes after the leading "::" of the mixed form: the
      ffff group when the address is IPv4-mapped, then the IPv4 tail. */
  function MixedRest(mapped: bool, w5: word, q: seq<byte>): seq<char>
    requires |q| == 4
  {
    (if mapped then Hex(w5) + ":" else "") + Format4(q)
  }

  /** The groups that follow the zero run in the mixed form. */
  function MixedTail(mapped: bool, w5: word, q: seq<byte>): seq<word>
    requires |q| == 4
  {
    (if mapped then [w5] else []) + [Word(q[0], q[1]), Word(q[2], q[3])]
  }

  lemma MixedRestParse(mapped: bool, w5: word, q: seq<byte>)
    requires |q| == 4
    ensures ParsePart(MixedRest(mapped, w5, q), true) == Some(MixedTail(mapped, w5, q))
  {
    if mapped {
      assert MixedRest(mapped, w5, q) == Hex(w5) + ":" + Format4(q);
      GroupV4TailParse(w5, q);
      assert MixedTail(mapped, w5, q) == [w5, Word(q[0], q[1]), Word(q[2], q[3])];
    } else {
      assert MixedRest(mapped, w5, q) == Format4(q);
      V4TailParse(q);
      assert MixedTail(mapped, w5, q) == [Word(q[0], q[1]), Word(q[2], q[3])];
    }
  }

  /** In the mixed form the groups are the zero run followed by the tail. */
  lemma MixedWords(b: seq<byte>)
    requires |b| == 16
    requires MixedForm(Words(b), LongestZeroRun(Words(b), 0))
    ensures var w := Words(b); var tail := MixedTail(LongestZeroRun(w, 0).len == 5, w[5], b[12..]);
      |tail| <= 7 && Zeros(8 - |tail|) + tail == w
  {
    var w := Words(b);
    var n := LongestZeroRun(w, 0).len;
    var tail := MixedTail(n == 5, w[5], b[12..]);
    assert n == ZeroRunAt(w, 0);
    assert |tail| == 8 - n;
    var z := Zeros(8 - |tail|) + tail;
    forall k | 0 <= k < 8
      ensures z[k] == w[k]
    {
      if k < n {
        assert w[k] == 0;
      }
    }
  }

  /** Text with a dotted-decimal tail parses back to the address. */
  lemma MixedRoundTrip(b: seq<byte>)
    requires |b| == 16
    requires MixedForm(Words(b), LongestZeroRun(Words(b), 0))
    ensures Parse6("::" + MixedRest(LongestZeroRun(Words(b), 0).len == 5, Words(b)[5], b[12..])) == Some(b)
  {
    var w := Words(b);
    var mapped := LongestZeroRun(w, 0).len == 5;
    var rest := MixedRest(mapped, w[5], b[12..]);
    var tail := MixedTail(mapped, w[5], b[12..]);
    Parse6LeadingPair(rest);
    MixedRestParse(mapped, w[5], b[12..]);
    MixedWords(b);
    ExpandEmptyHead(tail);
    WordBytesWords(b);
  }

  /** Parsing what inet_ntop writes for a 16-byte address gives the
      address back, for every address: the IPv6 grammar and the formatter
      are inverse. */
  lemma Parse6Format6(b: seq<byte>)
    requires |b| == 16
    ensures Parse6(Format6(b)) == Some(b)
  {
    var w := Words(b);
    var run := LongestZeroRun(w, 0);
    WordBytesWords(b);
    if MixedForm(w, run) {
      MixedFormat(b);
      MixedRoundTrip(b);
    } else if run.len >= 2 {
      CompressedRoundTrip(w, run.base, run.len);
    } else {
      UncompressedRoundTrip(w);
    }
  }

  /** Every field of accepted IPv6 text is non-empty. */
  lemma {:induction false} ParseGroupsNonEmpty(fields: seq<seq<char>>, v4Tail: bool)
    requires ParseGroups(fields, v4Tail).Some?
    ensures forall i :: 0 <= i < |fields| ==> |fields[i]| > 0
    decreases |fields|
  {
    if |fields| > 0 && !(|fields| == 1 && v4Tail && '.' in fields[0]) {
      ParseGroupsNonEmpty(fields[1..], v4Tail);
      assert forall i :: 1 <= i < |fields| ==> fields[i] == fields[1..][i - 1];
    }
  }

  /** An accepted side of a "::" neither starts nor ends with ':' and holds
      no further "::". */
  lemma PartProper(t: seq<char>, v4Tail: bool)
    requires t != [] && ParsePart(t, v4Tail).Some?
    ensures t[0] != ':' && t[|t| - 1] != ':' && NoSepPair(t, ':')
  {
    var fields := Split(t, ':');
    ParseGroupsNonEmpty(fields, v4Tail);
    JoinSplit(t, ':');
    JoinProper(fields, ':');
  }

  /** Accepted IPv6 text holds "::" at most once, and never ":::"
      (section 2.2 of RFC 4291). */
  lemma Parse6SingleElision(s: seq<char>)
    requires Parse6(s).Some?
    ensures forall j, k :: 0 <= j < |s| - 1 && 0 <= k < |s| - 1 && SepPairAt(s, ':', j) && SepPairAt(s, ':', k) ==> j == k
  {
    match FirstSepPair(s, ':', 0)
    case None =>
    case Some(i) =>
      var t := s[i + 2..];
      forall k | i < k < |s| - 1
        ensures !SepPairAt(s, ':', k)
      {
        assert t != [] && ParsePart(t, true).Some?;
        PartProper(t, true);
        if k == i + 1 {
          assert s[k + 1] == t[0];
        } else {
          assert s[k] == t[k - i - 2] && s[k + 1] == t[k - i - 1];
          assert !SepPairAt(t, ':', k - i - 2);
        }
      }
  }

  /** The text of the mixed form: "::" and then the dotted tail, after
      ffff for an IPv4-mapped address. */
  lemma MixedFormat(b: seq<byte>)
    requires |b| == 16 && MixedForm(Words(b), LongestZeroRun(Words(b), 0))
    ensures Format6(b) == "::" + MixedRest(LongestZeroRun(Words(b), 0).len == 5, Words(b)[5], b[12..])
  {
  }

  /** An IPv4-mapped address is written "::ffff:" and then its IPv4 address
      in dotted-decimal (section 5 of RFC 5952). */
  lemma MappedText(b: seq<byte>)
    requires |b| == 16 && Ipv4Mapped(b)
    ensures Format6(b) == "::ffff:" + Format4(b[12..])
  {
    var w := Words(b);
    var q := b[12..];
    MappedRun(b);
    MixedFormat(b);
    MappedRest(w[5], q);
    assert "::" + ("ffff:" + Format4(q)) == "::ffff:" + Format4(q);
  }

  /** The zero run of an IPv4-mapped address spans its first five groups,
      and ffff follows it. */
  lemma MappedRun(b: seq<byte>)
    requires |b| == 16 && Ipv4Mapped(b)
    ensures MixedForm(Words(b), LongestZeroRun(Words(b), 0))
    ensures LongestZeroRun(Words(b), 0).len == 5 && Words(b)[5] == 0xffff
  {
    MappedIsMixed(b);
    WordsZero(b, 5);
  }

  lemma MappedRest(w5: word, q: seq<byte>)
    requires w5 == 0xffff && |q| == 4
    ensures MixedRest(true, w5, q) == "ffff:" + Format4(q)
  {
    HexFfff(w5);
  }

  /** Hexadecimal groups joined by ':' hold no '.' and no NUL, and take at
      most five characters per group. */
  lemma JoinHexShape(ws: seq<word>)
    ensures var s := JoinHex(ws); '.' !in s && '\0' !in s
    ensures ws == [] ==> JoinHex(ws) == []
    ensures ws != [] ==> |JoinHex(ws)| + 1 <= 5 * |ws|
  {
    var gs := HexGroups(ws);
    HexGroupsProper(ws);
    JoinExcludes(gs, ':', '.');
    JoinExcludes(gs, ':', '\0');
    JoinLength(gs, ':', 4);
  }

  lemma MixedRestShape(mapped: bool, w5: word, q: seq<byte>)
    requires |q| == 4
    ensures var r := MixedRest(mapped, w5, q); '\0' !in r && |r| <= 20 && '.' in r
  {
    NumeralChars(Hex(w5));
  }

  lemma CompressedShape(w: seq<word>, base: nat, len: nat)
    requires |w| == 8 && 2 <= len && base + len <= 8
    ensures var s := JoinHex(w[..base]) + "::" + JoinHex(w[base + len..]);
      ':' in s && '\0' !in s && '.' !in s && |s| <= 32
  {
    var h := JoinHex(w[..base]);
    JoinHexShape(w[..base]);
    JoinHexShape(w[base + len..]);
    assert (h + "::" + JoinHex(w[base + len..]))[|h|] == ':';
  }

  lemma UncompressedShape(w: seq<word>)
    requires |w| == 8
    ensures var s := JoinHex(w);
      ':' in s && '\0' !in s && '.' !in s && |s| <= 39
  {
    var gs := HexGroups(w);
    JoinHexShape(w);
    assert JoinHex(w) == gs[0] + [':'] + Join(gs[1..], ':');
    assert JoinHex(w)[|gs[0]|] == ':';
  }

  /** A group is zero exactly when both its bytes are. */
  lemma WordsZero(b: seq<byte>, k: nat)
    requires |b| == 16 && k < 8
    ensures Words(b)[k] == 0 <==> b[2 * k] == 0 && b[2 * k + 1] == 0
    ensures Words(b)[k] == 0xffff <==> b[2 * k] == 0xff && b[2 * k + 1] == 0xff
  {
  }

  /** Each group is zero, or ffff, exactly when both its bytes are. */
  lemma WordsBytes(b: seq<byte>)
    requires |b| == 16
    ensures forall k :: 0 <= k < 8 ==> (Words(b)[k] == 0 <==> b[2 * k] == 0 && b[2 * k + 1] == 0)
    ensures forall k :: 0 <= k < 8 ==> (Words(b)[k] == 0xffff <==> b[2 * k] == 0xff && b[2 * k + 1] == 0xff)
  {
    forall k | 0 <= k < 8
      ensures Words(b)[k] == 0 <==> b[2 * k] == 0 && b[2 * k + 1] == 0
      ensures Words(b)[k] == 0xffff <==> b[2 * k] == 0xff && b[2 * k + 1] == 0xff
    {
      WordsZero(b, k);
    }
  }

  /** A leading run of at least four zero groups is the longest run: what
      follows it is too short to hold a longer one. */
  lemma LeadingRun(w: seq<word>, n: nat)
    requires |w| == 8 && 4 <= n < 8
    requires forall k :: 0 <= k < n ==> w[k] == 0
    requires w[n] != 0
    ensures LongestZeroRun(w, 0) == Run(0, n)
  {
    assert ZeroRunAt(w, 0) == n;
    forall j | 1 <= j <= 8
      ensures ZeroRunAt(w, j) < n
    {
      if j <= n {
        assert j + ZeroRunAt(w, j) <= n;
      }
    }
  }

  /** The dotted tail is written only for IPv4-mapped and IPv4-compatible
      addresses. */
  lemma MixedFormOnlyIpv4(b: seq<byte>)
    requires |b| == 16 && MixedForm(Words(b), LongestZeroRun(Words(b), 0))
    ensures Ipv4Mapped(b) || Ipv4Compatible(b)
  {
    var w := Words(b);
    var run := LongestZeroRun(w, 0);
    WordsBytes(b);
    var n := ZeroRunAt(w, 0);
    assert forall k :: 0 <= k < n ==> w[k] == 0;
    if run.len == 6 {
      assert w[6] != 0;
      forall i | 0 <= i < 12 ensures b[i] == 0 {
        assert w[i / 2] == 0;
      }
    } else {
      forall i | 0 <= i < 10 ensures b[i] == 0 {
        assert w[i / 2] == 0;
      }
    }
  }

  /** Every IPv4-mapped address is written with a dotted tail. */
  lemma MappedIsMixed(b: seq<byte>)
    requires |b| == 16 && Ipv4Mapped(b)
    ensures MixedForm(Words(b), LongestZeroRun(Words(b), 0))
  {
    var w := Words(b);
    WordsBytes(b);
    forall k | 0 <= k < 5 ensures w[k] == 0 {
      assert b[2 * k] == 0 && b[2 * k + 1] == 0;
    }
    LeadingRun(w, 5);
  }

  /** Every IPv4-compatible address is written with a dotted tail. */
  lemma CompatibleIsMixed(b: seq<byte>)
    requires |b| == 16 && Ipv4Compatible(b)
    ensures MixedForm(Words(b), LongestZeroRun(Words(b), 0))
  {
    var w := Words(b);
    WordsBytes(b);
    forall k | 0 <= k < 6 ensures w[k] == 0 {
      assert b[2 * k] == 0 && b[2 * k + 1] == 0;
    }
    LeadingRun(w, 6);
  }

  /** inet_ntop writes a dotted-decimal tail exactly for the IPv4-mapped and
      the IPv4-compatible addresses. */
  lemma MixedFormIff(b: seq<byte>)
    requires |b| == 16
    ensures MixedForm(Words(b), LongestZeroRun(Words(b), 0)) <==> Ipv4Mapped(b) || Ipv4Compatible(b)
  {
    if MixedForm(Words(b), LongestZeroRun(Words(b), 0)) {
      MixedFormOnlyIpv4(b);
    }
    if Ipv4Mapped(b) {
      MappedIsMixed(b);
    }
    if Ipv4Compatible(b) {
      CompatibleIsMixed(b);
    }
  }
}
