/** Dotted-decimal IPv4 text, the AF_INET grammar that inet6_pton and
    inet6_ntop delegate to inet_pton/inet_ntop: exactly four decimal
    fields separated by '.', each 0..255 with no leading zero. */
module Ipv4Text {
  import opened Common
  import opened Numerals

  /** The four fields written by inet_ntop for a 4-byte address. */
  function Fields4(q: seq<byte>): (fields: seq<seq<char>>)
    requires |q| == 4
    ensures |fields| == 4
  {
    [Dec(q[0]), Dec(q[1]), Dec(q[2]), Dec(q[3])]
  }

  /** No field of dotted-decimal text holds a separator or a NUL. */
  lemma Fields4Chars(q: seq<byte>)
    requires |q| == 4
    ensures forall i :: 0 <= i < 4 ==> '.' !in Fields4(q)[i] && ':' !in Fields4(q)[i] && '\0' !in Fields4(q)[i]
  {
    forall i | 0 <= i < 4
      ensures '.' !in Fields4(q)[i] && ':' !in Fields4(q)[i] && '\0' !in Fields4(q)[i]
    {
      NumeralChars(Fields4(q)[i]);
    }
  }

  /** inet_ntop(AF_INET, ...): "a.b.c.d" in decimal. The text has 7 to 15
      characters, decimal digits and three dots, and no ':' and no NUL. */
  function Format4(q: seq<byte>): (s: seq<char>)
    requires |q| == 4
    ensures 7 <= |s| <= 15 && '.' in s && ':' !in s && '\0' !in s
  {
    var f := Fields4(q);
    JoinFour(f, '.');
    Fields4Chars(q);
    JoinExcludes(f, '.', ':');
    JoinExcludes(f, '.', '\0');
    assert Join(f, '.')[|f[0]|] == '.';
    Join(f, '.')
  }

  /** inet_pton(AF_INET, ...): the four bytes of dotted-decimal text, or
      None when the text is not exactly four valid decimal fields. */
  function Parse4(s: seq<char>): (r: Option<seq<byte>>)
    ensures r.Some? ==> |r.value| == 4
  {
    var fields := Split(s, '.');
    if |fields| != 4 then None
    else
      match (ParseOctet(fields[0]), ParseOctet(fields[1]), ParseOctet(fields[2]), ParseOctet(fields[3]))
      case (Some(a), Some(b), Some(c), Some(d)) => Some([a, b, c, d])
      case _ => None
  }

  /** Parsing the formatted text gives back the address. */
  lemma Parse4Format4(q: seq<byte>)
    requires |q| == 4
    ensures Parse4(Format4(q)) == Some(q)
  {
    var f := Fields4(q);
    Fields4Chars(q);
    SplitJoin(f, '.');
    ParseOctetDec(q[0]);
    ParseOctetDec(q[1]);
    ParseOctetDec(q[2]);
    ParseOctetDec(q[3]);
    assert [q[0], q[1], q[2], q[3]] == q;
  }

  /** Dotted-decimal text is canonical: the only text accepted as `q` is
      the text inet_ntop writes for `q`. */
  lemma {:induction false} Parse4Canonical(s: seq<char>, q: seq<byte>)
    requires Parse4(s) == Some(q)
    ensures s == Format4(q)
  {
    var fields := Split(s, '.');
    assert fields == Fields4(q);
    JoinSplit(s, '.');
  }

  /** Both directions at once: `s` is accepted as `q` exactly when it is
      the formatted text of `q`. */
  lemma Parse4Iff(s: seq<char>, q: seq<byte>)
    requires |q| == 4
    ensures Parse4(s) == Some(q) <==> s == Format4(q)
  {
    if Parse4(s) == Some(q) {
      Parse4Canonical(s, q);
    }
    if s == Format4(q) {
      Parse4Format4(q);
    }
  }

  /** No text containing ':' is dotted-decimal. */
  lemma Parse4RejectsColon(s: seq<char>)
    requires ':' in s
    ensures Parse4(s) == None
  {
    if Parse4(s).Some? {
      Parse4Canonical(s, Parse4(s).value);
    }
  }

  /** No text without '.' is dotted-decimal. */
  lemma Parse4RejectsDotless(s: seq<char>)
    requires '.' !in s
    ensures Parse4(s) == None
  {
    if Parse4(s).Some? {
      Parse4Canonical(s, Parse4(s).value);
    }
  }
}
