/** Lexicographic order of strings, and sorting by it. */
module StringOrder {

  /** String order, character by character. */
  predicate Less(s: string, t: string) {
    if t == "" then false
    else if s == "" then true
    else s[0] < t[0] || (s[0] == t[0] && Less(s[1..], t[1..]))
  }

  lemma {:induction false} LessTotal(s: string, t: string)
    ensures Less(s, t) || Less(t, s) || s == t
    ensures !(Less(s, t) && Less(t, s)) && !Less(s, s)
    decreases |s|
  {
    if s != "" && t != "" {
      LessTotal(s[1..], t[1..]);
      assert s == [s[0]] + s[1..] && t == [t[0]] + t[1..];
    }
    if s != "" {
      LessTotal(s[1..], s[1..]);
    }
  }

  lemma {:induction false} LessTransitive(s: string, t: string, u: string)
    requires Less(s, t) && Less(t, u)
    ensures Less(s, u)
    decreases |s|
  {
    if s != "" && s[0] == t[0] && t[0] == u[0] {
      LessTransitive(s[1..], t[1..], u[1..]);
    }
  }

  ghost predicate SortedStrings(s: seq<string>) {
    forall i, j :: 0 <= i < j < |s| ==> Less(s[i], s[j])
  }

  function InsertString(s: seq<string>, x: string): seq<string> {
    if s == [] || Less(x, s[0]) then [x] + s else [s[0]] + InsertString(s[1..], x)
  }

  /** `sort` */
  function SortStrings(s: seq<string>): seq<string> {
    if s == [] then [] else InsertString(SortStrings(s[..|s| - 1]), s[|s| - 1])
  }

  lemma {:induction false} InsertStringSorts(s: seq<string>, x: string)
    requires SortedStrings(s) && x !in s
    ensures SortedStrings(InsertString(s, x))
    ensures forall y :: y in InsertString(s, x) <==> y in s || y == x
  {
    if s == [] {
    } else if Less(x, s[0]) {
      forall i | 1 <= i < |s|
        ensures Less(x, s[i])
      {
        LessTransitive(x, s[0], s[i]);
      }
    } else {
      InsertStringSorts(s[1..], x);
      LessTotal(x, s[0]);
      assert s == [s[0]] + s[1..];
      assert forall y :: y in InsertString(s[1..], x) ==> Less(s[0], y);
    }
  }

  /** Sorting distinct strings lists the same strings in strictly increasing order. */
  lemma {:induction false} SortStringsSorts(s: seq<string>)
    requires forall i, j :: 0 <= i < j < |s| ==> s[i] != s[j]
    ensures SortedStrings(SortStrings(s))
    ensures forall y :: y in SortStrings(s) <==> y in s
  {
    if s != [] {
      var n := |s| - 1;
      SortStringsSorts(s[..n]);
      assert s[n] !in s[..n];
      InsertStringSorts(SortStrings(s[..n]), s[n]);
      assert s == s[..n] + [s[n]];
    }
  }

  lemma TailOfSorted(s: seq<string>, x: string)
    requires SortedStrings(s) && s != []
    ensures x in s[1..] <==> x in s && x != s[0]
  {
    LessTotal(s[0], s[0]);
    assert s == [s[0]] + s[1..];
  }

  lemma HasString(s: seq<string>)
    requires s != []
    ensures exists x :: x in s
  {
    assert s[0] in s;
  }

  /** A strictly sorted list is determined by its elements. */
  lemma {:induction false} SortedStringsUnique(a: seq<string>, b: seq<string>)
    requires SortedStrings(a) && SortedStrings(b) && forall x :: x in a <==> x in b
    ensures a == b
  {
    if a == [] {
      if b != [] {
        HasString(b);
      }
    } else {
      assert a[0] in b && b[0] in a;
      LessTotal(a[0], b[0]);
      forall x
        ensures x in a[1..] <==> x in b[1..]
      {
        TailOfSorted(a, x);
        TailOfSorted(b, x);
      }
      SortedStringsUnique(a[1..], b[1..]);
      assert a == [a[0]] + a[1..] && b == [b[0]] + b[1..];
    }
  }
}
