/** Hierarchical resource identifiers of the Manager: validation, and when two of them overlap. */
module ResourcePaths {
  import Text

  /** `str::split`: always at least one piece. */
  function Split(s: string, sep: char): (pieces: seq<string>)
    ensures pieces != []
  {
    if s == "" then [""]
    else
      var rest := Split(s[1..], sep);
      if s[0] == sep then [""] + rest else [[s[0]] + rest[0]] + rest[1..]
  }

  function Join(pieces: seq<string>, sep: char): string
    requires pieces != []
  {
    if |pieces| == 1 then pieces[0] else pieces[0] + [sep] + Join(pieces[1..], sep)
  }

  predicate IsSegmentChar(c: char) {
    'a' <= c <= 'z' || 'A' <= c <= 'Z' || '0' <= c <= '9' || c == '.' || c == '_' || c == '-'
  }

  predicate IsSegment(segment: string) {
    segment != "" && segment != "." && segment != ".." && forall c :: c in segment ==> IsSegmentChar(c)
  }

  /** `validate_resource_id` */
  predicate IsCanonical(id: string) {
    && Text.Trim(id) == id && id != "" && id[0] != '/' && id[|id| - 1] != '/'
    && forall segment :: segment in Split(id, '/') ==> IsSegment(segment)
  }

  predicate StartsBelow(longer: string, shorter: string) {
    shorter <= longer && longer[|shorter|..] != "" && longer[|shorter|] == '/'
  }

  /** `resource_scopes_overlap` */
  predicate Overlap(left: string, right: string) {
    left == right || StartsBelow(left, right) || StartsBelow(right, left)
  }

  lemma {:induction false} JoinSplit(s: string, sep: char)
    ensures Join(Split(s, sep), sep) == s
  {
    if s != "" {
      JoinSplit(s[1..], sep);
      var rest := Split(s[1..], sep);
      if s[0] == sep {
        assert ([""] + rest)[1..] == rest;
      } else {
        assert ([[s[0]] + rest[0]] + rest[1..])[1..] == rest[1..];
        assert |rest| > 1 ==> [s[0]] + rest[0] + [sep] + Join(rest[1..], sep) == [s[0]] + Join(rest, sep);
      }
    }
  }

  lemma {:induction false} SplitAtSeparator(a: string, b: string, sep: char)
    ensures Split(a + [sep] + b, sep) == Split(a, sep) + Split(b, sep)
  {
    var s := a + [sep] + b;
    if a == "" {
      assert s[0] == sep && s[1..] == b;
      assert Split(a, sep) == [""];
    } else {
      assert s[0] == a[0] && s[1..] == a[1..] + [sep] + b;
      SplitAtSeparator(a[1..], b, sep);
      PrependPiece(a[0], Split(a[1..], sep), Split(b, sep), sep);
    }
  }

  // The piece rule of Split acts on the first piece only, so it commutes with appending pieces.
  lemma PrependPiece(c: char, x: seq<string>, y: seq<string>, sep: char)
    requires x != []
    ensures (if c == sep then [""] + (x + y) else [[c] + (x + y)[0]] + (x + y)[1..])
            == (if c == sep then [""] + x else [[c] + x[0]] + x[1..]) + y
  {
    assert (x + y)[1..] == x[1..] + y;
  }

  lemma {:induction false} JoinAppend(p: seq<string>, q: seq<string>, sep: char)
    requires p != [] && q != []
    ensures Join(p + q, sep) == Join(p, sep) + [sep] + Join(q, sep)
  {
    if |p| > 1 {
      assert (p + q)[1..] == p[1..] + q;
      JoinAppend(p[1..], q, sep);
    } else {
      assert (p + q)[1..] == q;
    }
  }

  lemma BelowIsPrefix(longer: string, shorter: string)
    ensures StartsBelow(longer, shorter) || longer == shorter <==> Split(shorter, '/') <= Split(longer, '/')
  {
    hide Split, Join;
    var p, q := Split(shorter, '/'), Split(longer, '/');
    if StartsBelow(longer, shorter) {
      var rest := longer[|shorter| + 1..];
      assert longer == shorter + ['/'] + rest;
      SplitAtSeparator(shorter, rest, '/');
    }
    if p <= q {
      JoinSplit(shorter, '/');
      JoinSplit(longer, '/');
      if p == q {
      } else {
        var rest := q[|p|..];
        assert q == p + rest;
        JoinAppend(p, rest, '/');
      }
    }
  }

  /** Two resources overlap exactly when the segments of one are a prefix of the segments of the other. */
  lemma OverlapIsSegmentPrefix(left: string, right: string)
    ensures Overlap(left, right) <==> Split(left, '/') <= Split(right, '/') || Split(right, '/') <= Split(left, '/')
  {
    BelowIsPrefix(left, right);
    BelowIsPrefix(right, left);
  }

  /** Distinct children of one parent never overlap, and both overlap the parent. */
  lemma SiblingsAreApart(parent: string, a: string, b: string)
    requires IsSegment(a) && IsSegment(b) && a != b
    ensures !Overlap(parent + "/" + a, parent + "/" + b)
    ensures Overlap(parent, parent + "/" + a)
  {
    SplitAtSeparator(parent, a, '/');
    SplitAtSeparator(parent, b, '/');
    SegmentSplits(a);
    SegmentSplits(b);
    OverlapIsSegmentPrefix(parent + "/" + a, parent + "/" + b);
    OverlapIsSegmentPrefix(parent, parent + "/" + a);
    var p := Split(parent, '/');
    assert (p + [a])[|p|] == a && (p + [b])[|p|] == b;
  }

  lemma {:induction false} SegmentSplits(s: string)
    requires '/' !in s
    ensures Split(s, '/') == [s]
  {
    if s != "" {
      assert '/' !in s[1..];
      SegmentSplits(s[1..]);
      assert [s[0]] + s[1..] == s;
    }
  }

  lemma {:induction false} SplitJoin(segments: seq<string>)
    requires segments != [] && forall segment :: segment in segments ==> '/' !in segment
    ensures Split(Join(segments, '/'), '/') == segments
  {
    SegmentSplits(segments[0]);
    if |segments| > 1 {
      assert forall segment :: segment in segments[1..] ==> segment in segments;
      SplitJoin(segments[1..]);
      SplitAtSeparator(segments[0], Join(segments[1..], '/'), '/');
      assert segments == [segments[0]] + segments[1..];
    }
  }

  ghost predicate IsPath(id: string) {
    exists segments :: segments != [] && (forall s :: s in segments ==> IsSegment(s)) && id == Join(segments, '/')
  }

  lemma SegmentHasNoSlash(s: string)
    requires IsSegment(s)
    ensures s != "" && '/' !in s && !Text.IsWhitespace(s[0]) && !Text.IsWhitespace(s[|s| - 1])
  {
    assert IsSegmentChar(s[0]) && IsSegmentChar(s[|s| - 1]);
  }

  lemma {:induction false} PathEnds(segments: seq<string>)
    requires segments != [] && forall s :: s in segments ==> IsSegment(s)
    ensures var id := Join(segments, '/');
      && id != "" && id[0] != '/' && id[|id| - 1] != '/'
      && !Text.IsWhitespace(id[0]) && !Text.IsWhitespace(id[|id| - 1])
  {
    SegmentHasNoSlash(segments[0]);
    hide IsSegment, Text.IsWhitespace;
    if |segments| > 1 {
      assert forall s :: s in segments[1..] ==> s in segments;
      PathEnds(segments[1..]);
    }
  }

  /** The identifiers taken are exactly those made of segments with single slashes between them. */
  lemma CanonicalIff(id: string)
    ensures IsCanonical(id) <==> IsPath(id)
  {
    hide Split, Join, IsSegment;
    if IsCanonical(id) {
      JoinSplit(id, '/');
    }
    if segments :| segments != [] && (forall s :: s in segments ==> IsSegment(s)) && id == Join(segments, '/') {
      forall s | s in segments
        ensures '/' !in s
      {
        SegmentHasNoSlash(s);
      }
      SplitJoin(segments);
      PathEnds(segments);
      Text.TrimmedIsFixed(id);
    }
  }

  /** Where the segments lead when they are walked as directories. */
  function Walked(segments: seq<string>): seq<string> {
    if segments == [] then []
    else
      var before, last := Walked(segments[..|segments| - 1]), segments[|segments| - 1];
      if last == "" || last == "." then before
      else if last == ".." then if before == [] then [] else before[..|before| - 1]
      else before + [last]
  }

  /** An identifier taken names one place: walking its segments leads to themselves. */
  lemma {:induction false} CanonicalIsWalked(segments: seq<string>)
    requires forall s :: s in segments ==> IsSegment(s)
    ensures Walked(segments) == segments
  {
    if segments != [] {
      var n := |segments| - 1;
      assert segments[n] in segments;
      CanonicalIsWalked(segments[..n]);
      assert segments[..n] + [segments[n]] == segments;
    }
  }
}
