/** Shared vocabulary of the address codec: optional results, byte and
    16-bit word types, and splitting/joining text on a separator
    character (the '.' of dotted-decimal and the ':' of IPv6 text). */
module Common {

  /** A result that may be absent; `None` is the SQL NULL of a UDF. */
  datatype Option<T> = None | Some(value: T)

  /** An octet of a binary address. */
  type byte = x: int | 0 <= x < 0x100

  /** A 16-bit group of an IPv6 address. */
  type word = x: int | 0 <= x < 0x1_0000

  /** The fields of `s` between occurrences of `sep`. There is always at
      least one field, and no field contains the separator. */
  function Split(s: seq<char>, sep: char): (fields: seq<seq<char>>)
    ensures |fields| >= 1
    ensures forall i :: 0 <= i < |fields| ==> sep !in fields[i]
    decreases |s|
  {
    if |s| == 0 then [[]]
    else
      var rest := Split(s[1..], sep);
      if s[0] == sep then [[]] + rest
      else [[s[0]] + rest[0]] + rest[1..]
  }

  /** The fields written one after the other with `sep` between them. */
  function Join(fields: seq<seq<char>>, sep: char): seq<char>
    decreases |fields|
  {
    if |fields| == 0 then []
    else if |fields| == 1 then fields[0]
    else fields[0] + [sep] + Join(fields[1..], sep)
  }

  /** Two separators next to each other at position `i` of `s`. */
  predicate SepPairAt(s: seq<char>, sep: char, i: int)
    requires 0 <= i < |s| - 1
  {
    s[i] == sep && s[i + 1] == sep
  }

  predicate NoSepPair(s: seq<char>, sep: char)
  {
    forall i :: 0 <= i < |s| - 1 ==> !SepPairAt(s, sep, i)
  }

  /** Every field non-empty and free of the separator. */
  predicate ProperFields(fields: seq<seq<char>>, sep: char)
  {
    forall i :: 0 <= i < |fields| ==> |fields[i]| > 0 && sep !in fields[i]
  }

  /** The index of the first pair of adjacent separators at or after `i`. */
  function FirstSepPair(s: seq<char>, sep: char, i: nat): (r: Option<nat>)
    requires i <= |s|
    ensures r.Some? ==> i <= r.value < |s| - 1 && SepPairAt(s, sep, r.value)
    ensures r.Some? ==> forall k :: i <= k < r.value ==> !SepPairAt(s, sep, k)
    ensures r.None? ==> forall k :: i <= k < |s| - 1 ==> !SepPairAt(s, sep, k)
    decreases |s| - i
  {
    if i + 1 >= |s| then None
    else if s[i] == sep && s[i + 1] == sep then Some(i)
    else FirstSepPair(s, sep, i + 1)
  }

  lemma {:induction false} SplitNoSep(f: seq<char>, sep: char)
    requires sep !in f
    ensures Split(f, sep) == [f]
    decreases |f|
  {
    if |f| > 0 {
      SplitNoSep(f[1..], sep);
      assert [f[0]] + f[1..] == f;
    }
  }

  /** A separator closes the field before it. */
  lemma {:induction false} SplitPrefix(f: seq<char>, sep: char, r: seq<char>)
    requires sep !in f
    ensures Split(f + [sep] + r, sep) == [f] + Split(r, sep)
    decreases |f|
  {
    var s := f + [sep] + r;
    if |f| == 0 {
      assert s[1..] == r;
    } else {
      assert s[1..] == f[1..] + [sep] + r;
      SplitPrefix(f[1..], sep, r);
      assert [f[0]] + f[1..] == f;
    }
  }

  /** Splitting undoes joining when no field holds the separator. */
  lemma {:induction false} SplitJoin(fields: seq<seq<char>>, sep: char)
    requires |fields| >= 1
    requires forall i :: 0 <= i < |fields| ==> sep !in fields[i]
    ensures Split(Join(fields, sep), sep) == fields
    decreases |fields|
  {
    if |fields| == 1 {
      SplitNoSep(fields[0], sep);
    } else {
      SplitJoin(fields[1..], sep);
      SplitPrefix(fields[0], sep, Join(fields[1..], sep));
      assert [fields[0]] + fields[1..] == fields;
    }
  }

  /** Joining undoes splitting, for every text. */
  lemma {:induction false} JoinSplit(s: seq<char>, sep: char)
    ensures Join(Split(s, sep), sep) == s
    decreases |s|
  {
    if |s| > 0 {
      var rest := Split(s[1..], sep);
      JoinSplit(s[1..], sep);
      if s[0] == sep {
        assert Join([[]] + rest, sep) == [] + [sep] + Join(rest, sep);
      } else if |rest| == 1 {
        assert Join(rest, sep) == rest[0];
      } else {
        assert Join(rest, sep) == rest[0] + [sep] + Join(rest[1..], sep);
        assert Split(s, sep) == [[s[0]] + rest[0]] + rest[1..];
      }
      assert [s[0]] + s[1..] == s;
    }
  }

  /** A character that is neither the separator nor in any field does not
      occur in the joined text. */
  lemma {:induction false} JoinExcludes(fields: seq<seq<char>>, sep: char, x: char)
    requires x != sep
    requires forall i :: 0 <= i < |fields| ==> x !in fields[i]
    ensures x !in Join(fields, sep)
    decreases |fields|
  {
    if |fields| > 1 {
      JoinExcludes(fields[1..], sep, x);
    }
  }

  /** Joined proper fields never hold two adjacent separators, and neither
      start nor end with one. */
  lemma {:induction false} JoinProper(fields: seq<seq<char>>, sep: char)
    requires |fields| >= 1 && ProperFields(fields, sep)
    ensures var s := Join(fields, sep);
      |s| > 0 && s[0] != sep && s[|s| - 1] != sep && NoSepPair(s, sep)
    decreases |fields|
  {
    var s := Join(fields, sep);
    var f := fields[0];
    assert f[0] in f;
    if |fields| == 1 {
      assert s[|s| - 1] in f;
      forall i | 0 <= i < |s| - 1
        ensures !SepPairAt(s, sep, i)
      {
        assert s[i] in f;
      }
    } else {
      var j := Join(fields[1..], sep);
      JoinProper(fields[1..], sep);
      assert s == f + [sep] + j;
      assert s[|s| - 1] == j[|j| - 1];
      forall i | 0 <= i < |s| - 1
        ensures !SepPairAt(s, sep, i)
      {
        if i < |f| {
          assert s[i] == f[i] && f[i] in f;
        } else if i == |f| {
          assert s[i + 1] == j[0];
        } else {
          assert s[i] == j[i - |f| - 1] && s[i + 1] == j[i - |f|];
          assert !SepPairAt(j, sep, i - |f| - 1);
        }
      }
    }
  }

  /** The length of joined fields is the sum of theirs plus one separator
      between each two; here bounded by a per-field maximum. */
  lemma {:induction false} JoinLength(fields: seq<seq<char>>, sep: char, max: nat)
    requires forall i :: 0 <= i < |fields| ==> |fields[i]| <= max
    ensures |fields| > 0 ==> |Join(fields, sep)| + 1 <= (max + 1) * |fields|
    ensures |fields| == 0 ==> Join(fields, sep) == []
    decreases |fields|
  {
    if |fields| > 1 {
      JoinLength(fields[1..], sep, max);
    }
  }

  /** Four fields joined. */
  lemma JoinFour(g: seq<seq<char>>, sep: char)
    requires |g| == 4
    ensures Join(g, sep) == g[0] + [sep] + g[1] + [sep] + g[2] + [sep] + g[3]
  {
    assert Join(g[3..], sep) == g[3];
    assert Join(g[2..], sep) == g[2] + [sep] + g[3] by { assert g[2..][1..] == g[3..]; }
    assert Join(g[1..], sep) == g[1] + [sep] + Join(g[2..], sep) by { assert g[1..][1..] == g[2..]; }
  }
}
