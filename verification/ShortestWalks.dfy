/** Shortest walks over the resolved edges: reversed, cut and joined. */
module ShortestWalks {
  import opened RigidTransforms
  import opened TransformResolution
  import opened TransformGraph
  import opened TransformConsistency

  // ----- reversing

  lemma {:induction false} AlongReverse(edges: set<ResolvedEdge>, source: string, w: seq<Arc>, target: string)
    requires IsWalk(edges, source, w, target)
    ensures Along(ReverseWalk(w)) == Inverse(Along(w))
    decreases |w|
  {
    hide Compose, Inverse, ReverseArc, ReverseWalk, IsArc;
    ReverseParts(w);
    if w == [] {
      ComposeInverse(IDENTITY);
      ComposeIdentity(Inverse(IDENTITY));
    } else {
      var n := |w| - 1;
      PrefixWalk(edges, source, w, target, n);
      AlongReverse(edges, source, w[..n], w[n].step.fromFrame);
      assert IsArc(edges, w[n]);
      ReverseTransform(edges, w[n]);
      var r := ReverseArc(w[n]);
      AlongJoin([r], ReverseWalk(w[..n]));
      AlongOne(r);
      InverseCompose(w[n].transformToFrom, Along(w[..n]));
    }
  }

  lemma ReverseParts(w: seq<Arc>)
    ensures ReverseWalk([]) == []
    ensures w != [] ==> var n := |w| - 1; ReverseWalk(w) == [ReverseArc(w[n])] + ReverseWalk(w[..n])
  {
    hide ReverseArc;
  }

  lemma AlongOne(a: Arc)
    ensures Along([a]) == a.transformToFrom
  {
    assert [a][..0] == [];
    ComposeIdentity(a.transformToFrom);
    hide Compose;
  }

  lemma ReverseTransform(edges: set<ResolvedEdge>, a: Arc)
    requires IsArc(edges, a)
    ensures ReverseArc(a).transformToFrom == Inverse(a.transformToFrom)
  {
    InverseInverse(a.step.edge.parentFromChild);
    hide Inverse;
  }

  lemma ReverseIsShortest(edges: set<ResolvedEdge>, a: string, w: seq<Arc>, b: string)
    requires Shortest(edges, a, w, b)
    ensures Shortest(edges, b, ReverseWalk(w), a)
  {
    ReverseIsWalk(edges, a, w, b);
    forall x | IsWalk(edges, b, x, a)
      ensures |w| <= |x|
    {
      ReverseIsWalk(edges, b, x, a);
      assert |ReverseWalk(x)| == |x|;
    }
    hide IsWalk;
  }

  // ----- shortest walks

  lemma {:induction false} SomeShortest(edges: set<ResolvedEdge>, a: string, x: seq<Arc>, b: string)
    returns (w: seq<Arc>)
    requires IsWalk(edges, a, x, b)
    ensures Shortest(edges, a, w, b)
    decreases |x|
  {
    hide IsWalk;
    if y :| IsWalk(edges, a, y, b) && |y| < |x| {
      w := SomeShortest(edges, a, y, b);
    } else {
      w := x;
    }
  }

  /** A shortest walk visits no frame twice: the part between would be a detour. */
  lemma ShortestHasNoRepeats(edges: set<ResolvedEdge>, a: string, w: seq<Arc>, b: string)
    requires Shortest(edges, a, w, b)
    ensures NoRepeats(FramesOf(a, w))
  {
    hide IsWalk, FramesOf;
    forall i, j | 0 <= i < j < |FramesOf(a, w)|
      ensures FramesOf(a, w)[i] != FramesOf(a, w)[j]
    {
      if FramesOf(a, w)[i] == FramesOf(a, w)[j] {
        CutWalk(edges, a, w, b, i, j);
      }
    }
  }

  lemma CutWalk(edges: set<ResolvedEdge>, a: string, w: seq<Arc>, b: string, i: nat, j: nat)
    requires IsWalk(edges, a, w, b) && i < j < |FramesOf(a, w)| && FramesOf(a, w)[i] == FramesOf(a, w)[j]
    ensures IsWalk(edges, a, w[..i] + w[j..], b) && |w[..i] + w[j..]| < |w|
  {
    WalkUpTo(edges, a, w, b, i);
    SuffixWalk(edges, a, w, b, j);
    hide IsWalk;
    JoinIsWalk(edges, a, w[..i], FramesOf(a, w)[i], w[j..], b);
  }

  lemma WalkUpTo(edges: set<ResolvedEdge>, a: string, w: seq<Arc>, b: string, i: nat)
    requires IsWalk(edges, a, w, b) && i <= |w|
    ensures IsWalk(edges, a, w[..i], FramesOf(a, w)[i])
  {
  }

  lemma SuffixWalk(edges: set<ResolvedEdge>, a: string, w: seq<Arc>, b: string, j: nat)
    requires IsWalk(edges, a, w, b) && j <= |w|
    ensures IsWalk(edges, FramesOf(a, w)[j], w[j..], b)
  {
  }

  /** A part of a shortest walk is a shortest walk between its ends. */
  lemma PartIsShortest(edges: set<ResolvedEdge>, a: string, w: seq<Arc>, b: string, i: nat, j: nat)
    requires Shortest(edges, a, w, b) && i <= j <= |w|
    ensures Shortest(edges, FramesOf(a, w)[i], w[i..j], FramesOf(a, w)[j])
  {
    hide IsWalk, FramesOf;
    var f, g := FramesOf(a, w)[i], FramesOf(a, w)[j];
    WalkUpTo(edges, a, w, b, j);
    assert w[..j][i..] == w[i..j];
    FramesUpTo(a, w, j);
    SuffixWalk(edges, a, w[..j], g, i);
    WalkUpTo(edges, a, w, b, i);
    SuffixWalk(edges, a, w, b, j);
    forall x | IsWalk(edges, f, x, g)
      ensures j - i <= |x|
    {
      JoinIsWalk(edges, a, w[..i], f, x, g);
      JoinIsWalk(edges, a, w[..i] + x, g, w[j..], b);
      assert |w| <= |w[..i] + x + w[j..]|;
    }
  }

  lemma FramesUpTo(a: string, w: seq<Arc>, j: nat)
    requires j <= |w|
    ensures forall i :: 0 <= i <= j ==> FramesOf(a, w[..j])[i] == FramesOf(a, w)[i]
  {
  }
}
