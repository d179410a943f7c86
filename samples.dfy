/** Worked instances: the examples of the UDFs' own documentation
    (INET6_PTON('1.2.3.4'), INET6_NTOP of fe80::219:e3ff:1:9317) and an
    IPv4-mapped address, whose text is valid IPv6 and yet is refused by
    INET6_PTON because it contains a '.'. The texts and bytes are passed as
    parameters so that the verifier reasons from the lemmas below instead of
    evaluating the grammar on literal text. */
module Samples {
  import opened Common
  import opened Numerals
  import opened Ipv4Text
  import opened Ipv6Text
  import opened Udf

  /** The dotted-decimal text of 1.2.3.4. */
  lemma Format4Sample(q: seq<byte>)
    requires q == [1, 2, 3, 4]
    ensures Format4(q) == "1.2.3.4"
  {
    assert Dec(1) == "1" && Dec(2) == "2" && Dec(3) == "3" && Dec(4) == "4";
    JoinFour(Fields4(q), '.');
  }

  /** INET6_PTON('1.2.3.4') is the 4-byte string 0x01020304, and
      INET6_NTOP gives the text back. */
  lemma DocExampleIpv4(s: seq<char>, b: seq<byte>)
    requires s == "1.2.3.4" && b == [1, 2, 3, 4]
    ensures Pton(Some(s)) == Some(b)
    ensures Ntop(Some(b)) == Some(s)
  {
    Format4Sample(b);
    RoundTripIpv4(b);
  }

  lemma MappedFormat(s: seq<char>, b: seq<byte>)
    requires s == "::ffff:1.2.3.4"
    requires |b| == 16 && Ipv4Mapped(b) && b[12..] == [1, 2, 3, 4]
    ensures Format6(b) == s
  {
    var q := b[12..];
    MappedText(b);
    Format4Sample(q);
    MappedConcat(Format4(q), s);
  }

  lemma MappedConcat(x: seq<char>, s: seq<char>)
    requires x == "1.2.3.4" && s == "::ffff:1.2.3.4"
    ensures "::ffff:" + x == s
  {
  }

  /** ::ffff:1.2.3.4 is what INET6_NTOP writes for the IPv4-mapped address
      of 1.2.3.4, and the IPv6 grammar accepts it, but INET6_PTON returns
      NULL for it: its '.' selects the IPv4 parser. */
  lemma MappedSample(s: seq<char>, b: seq<byte>)
    requires s == "::ffff:1.2.3.4"
    requires b == [0, 0, 0, 0, 0, 0, 0, 0, 0, 0, 0xff, 0xff, 1, 2, 3, 4]
    ensures Ntop(Some(b)) == Some(s)
    ensures Parse6(s) == Some(b)
    ensures Pton(Some(s)) == None
  {
    assert Ipv4Mapped(b) && b[12..] == [1, 2, 3, 4];
    MappedFormat(s, b);
    Parse6Format6(b);
    RoundTripIpv6(b);
  }

  lemma LinkLocalWords(b: seq<byte>)
    requires b == [0xfe, 0x80, 0, 0, 0, 0, 0, 0, 0x02, 0x19, 0xe3, 0xff, 0, 0x01, 0x93, 0x17]
    ensures Words(b) == [0xfe80, 0, 0, 0, 0x219, 0xe3ff, 1, 0x9317]
  {
    var w := Words(b);
    assert w[0] == Word(b[0], b[1]);
    assert w[4] == Word(b[8], b[9]);
    assert w[5] == Word(b[10], b[11]);
    assert w[6] == Word(b[12], b[13]);
    assert w[7] == Word(b[14], b[15]);
  }

  lemma LinkLocalRun(w: seq<word>)
    requires w == [0xfe80, 0, 0, 0, 0x219, 0xe3ff, 1, 0x9317]
    ensures LongestZeroRun(w, 0) == Run(1, 3)
  {
    assert ZeroRunAt(w, 4) == 0;
    assert ZeroRunAt(w, 3) == 1;
    assert ZeroRunAt(w, 2) == 2;
    assert ZeroRunAt(w, 1) == 3;
    var r := LongestZeroRun(w, 0);
    assert r.base != 0 && r.base < 4;
  }

  lemma HexFe80(n: nat)
    requires n == 0xfe80
    ensures Hex(n) == "fe80"
  {
    HexFourDigits(n);
    HexDigitNames();
    var s := Hex(n);
    assert s[0] == 'f' by { assert n / 0x1000 == 15; }
    assert s[1] == 'e' by { assert n / 0x100 % 16 == 14; }
    assert s[2] == '8' by { assert n / 16 % 16 == 8; }
    assert s[3] == '0' by { assert n % 16 == 0; }
  }

  lemma HexE3ff(n: nat)
    requires n == 0xe3ff
    ensures Hex(n) == "e3ff"
  {
    HexFourDigits(n);
    HexDigitNames();
    var s := Hex(n);
    assert s[0] == 'e' by { assert n / 0x1000 == 14; }
    assert s[1] == '3' by { assert n / 0x100 % 16 == 3; }
    assert s[2] == 'f' by { assert n / 16 % 16 == 15; }
    assert s[3] == 'f' by { assert n % 16 == 15; }
  }

  lemma Hex9317(n: nat)
    requires n == 0x9317
    ensures Hex(n) == "9317"
  {
    HexFourDigits(n);
    HexDigitNames();
    var s := Hex(n);
    assert s[0] == '9' by { assert n / 0x1000 == 9; }
    assert s[1] == '3' by { assert n / 0x100 % 16 == 3; }
    assert s[2] == '1' by { assert n / 16 % 16 == 1; }
    assert s[3] == '7' by { assert n % 16 == 7; }
  }

  lemma Hex219(n: nat)
    requires n == 0x219
    ensures Hex(n) == "219"
  {
    HexDigitNames();
    var m := n / 16;
    assert m == 0x21 && n % 16 == 9;
    assert Hex(n) == Hex(m) + [HexDigitChar(9)];
    assert Hex(m) == Hex(2) + [HexDigitChar(1)];
  }

  lemma LinkLocalGroups(w: seq<word>)
    requires w == [0xfe80, 0, 0, 0, 0x219, 0xe3ff, 1, 0x9317]
    ensures HexGroups(w[..1]) == ["fe80"]
    ensures HexGroups(w[4..]) == ["219", "e3ff", "1", "9317"]
  {
    var g := HexGroups(w[4..]);
    assert g[0] == "219" by { Hex219(w[4]); }
    assert g[1] == "e3ff" by { HexE3ff(w[5]); }
    assert g[2] == "1";
    assert g[3] == "9317" by { Hex9317(w[7]); }
    assert HexGroups(w[..1])[0] == "fe80" by { HexFe80(w[0]); }
  }

  lemma LinkLocalText(w: seq<word>)
    requires w == [0xfe80, 0, 0, 0, 0x219, 0xe3ff, 1, 0x9317]
    ensures JoinHex(w[..1]) + "::" + JoinHex(w[4..]) == "fe80::219:e3ff:1:9317"
  {
    LinkLocalGroups(w);
    JoinFour(HexGroups(w[4..]), ':');
  }

  lemma LinkLocalFormat(b: seq<byte>)
    requires |b| == 16
    requires Words(b) == [0xfe80, 0, 0, 0, 0x219, 0xe3ff, 1, 0x9317]
    ensures Format6(b) == "fe80::219:e3ff:1:9317"
  {
    var w := Words(b);
    LinkLocalRun(w);
    LinkLocalText(w);
  }

  /** INET6_PTON('fe80::219:e3ff:1:9317') is the 16-byte link-local
      address, and INET6_NTOP writes that same text for it. */
  lemma DocExampleIpv6(s: seq<char>, b: seq<byte>)
    requires s == "fe80::219:e3ff:1:9317"
    requires b == [0xfe, 0x80, 0, 0, 0, 0, 0, 0, 0x02, 0x19, 0xe3, 0xff, 0, 0x01, 0x93, 0x17]
    ensures Pton(Some(s)) == Some(b)
    ensures Ntop(Some(b)) == Some(s)
  {
    LinkLocalWords(b);
    LinkLocalFormat(b);
    RoundTripIpv6(b);
  }
}
