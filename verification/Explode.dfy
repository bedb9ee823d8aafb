/** PHP's explode: splitting a text at every occurrence of a separator, from left to right. */
module Explode {
  import opened Bytes

  /** `sep` occurs in `s`. */
  predicate Has(sep: Text, s: Text)
    decreases |s|
  {
    |s| >= |sep| && s != [] && (sep <= s || Has(sep, s[1..]))
  }

  function Split(sep: Text, s: Text): (r: seq<Text>)
    requires sep != []
    ensures |r| >= 1
    decreases |s|
  {
    if s == [] then [[]]
    else if sep <= s then [[]] + Split(sep, s[|sep|..])
    else
      var rest := Split(sep, s[1..]);
      [[s[0]] + rest[0]] + rest[1..]
  }

  /** No proper prefix of the separator is also its suffix, so its occurrences never overlap. */
  predicate Borderless(sep: Text) {
    sep != [] && forall k :: 0 < k < |sep| ==> sep[..k] != sep[|sep| - k..]
  }

  lemma {:induction false} SplitOnce(sep: Text, s: Text)
    requires sep != []
    ensures !Has(sep, s) ==> Split(sep, s) == [s]
    ensures Has(sep, s) ==> |Split(sep, s)| > 1
    decreases |s|
  {
    if s == [] {
    } else if !(sep <= s) {
      SplitOnce(sep, s[1..]);
      assert [s[0]] + s[1..] == s;
      if |s| < |sep| {
        Shorter(sep, s[1..]);
      }
    }
  }

  lemma {:induction false} Shorter(sep: Text, s: Text)
    requires |s| < |sep|
    ensures !Has(sep, s)
  {
  }

  lemma NotAcross(sep: Text, a: Text, b: Text)
    requires Borderless(sep) && a != [] && !(sep <= a)
    ensures !(sep <= a + sep + b)
  {
    var t := a + sep + b;
    if |a| >= |sep| {
      assert t[..|sep|] == a[..|sep|];
    } else {
      var k := |sep| - |a|;
      assert sep[..k] != sep[|sep| - k..];
      var j :| 0 <= j < k && sep[..k][j] != sep[|sep| - k..][j];
      assert t[|a| + j] == sep[j];
    }
  }

  /** Splitting a text around one of its separators splits both sides. */
  lemma {:induction false} SplitConcat(sep: Text, a: Text, b: Text)
    requires Borderless(sep)
    ensures Split(sep, a + sep + b) == Split(sep, a) + Split(sep, b)
    decreases |a|
  {
    var t := a + sep + b;
    if a == [] {
      assert t[|sep|..] == b && t[..|sep|] == sep;
    } else if sep <= a {
      assert t[..|sep|] == a[..|sep|];
      assert t[|sep|..] == a[|sep|..] + sep + b;
      SplitConcat(sep, a[|sep|..], b);
    } else {
      NotAcross(sep, a, b);
      assert t[1..] == a[1..] + sep + b;
      SplitConcat(sep, a[1..], b);
    }
  }

  lemma {:induction false} HasCharacter(sep: Text, s: Text)
    requires sep != [] && sep[0] !in s
    ensures !Has(sep, s)
    decreases |s|
  {
    if s != [] {
      HasCharacter(sep, s[1..]);
    }
  }

  /** Characters the separator does not start with cannot start an occurrence. */
  lemma {:induction false} HasAfter(sep: Text, a: Text, b: Text)
    requires sep != [] && sep[0] !in a
    ensures Has(sep, a + b) <==> Has(sep, b)
    decreases |a|
  {
    var t := a + b;
    if a == [] {
      assert t == b;
    } else {
      assert t[1..] == a[1..] + b;
      assert t[0] == a[0] && t[0] in a;
      HasAfter(sep, a[1..], b);
      if |t| < |sep| {
        Shorter(sep, b);
      }
    }
  }
}
