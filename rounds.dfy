/** The success path of the prescription protocol: an act is prescribed,
    then, round after round, the primitive act just enacted updates its
    prescriber and the act returned is prescribed in turn. When every step
    succeeds, the rounds enact the act's primitive steps (Acts.Leaves) in
    order, and the round after the last one returns null: there are exactly
    getLength rounds.

    The proof follows a path from the top act down to the primitive act
    being enacted. Along it, every composite is at the step the path takes
    (0 into its pre-act, 1 into its post-act) and every act points to the one
    above it; updatePrescriber climbs that path and prescribe extends it. */
module Rounds {
  import opened Optional
  import opened Acts
  import opened Prescription

  /** A path down an act: false goes to the pre-act, true to the post-act. */
  type Path = seq<bool>

  /** The part of act x that one path step goes to; a primitive act has no
      part, and the step stays where it is. */
  function Child(acts: seq<Act>, x: ActId, b: bool): (c: ActId)
    requires Ordered(acts) && x < |acts|
    ensures c <= x && (acts[x].shape.Composite? ==> c < x)
  {
    match acts[x].shape
    case Atomic(_, _) => x
    case Composite(pre, post) => if b then post else pre
  }

  /** The acts a path passes through, from x down. */
  function Nodes(acts: seq<Act>, x: ActId, p: Path): (ns: seq<ActId>)
    requires Ordered(acts) && x < |acts|
    ensures |ns| == |p| + 1 && ns[0] == x
    ensures forall j :: 0 <= j < |ns| ==> ns[j] <= x
    decreases |p|
  {
    if p == [] then [x]
    else
      var ns := Nodes(acts, x, p[..|p| - 1]);
      ns + [Child(acts, ns[|ns| - 1], p[|p| - 1])]
  }

  /** The act at the end of a path. */
  function NodeAt(acts: seq<Act>, x: ActId, p: Path): ActId
    requires Ordered(acts) && x < |acts|
  {
    var ns := Nodes(acts, x, p);
    ns[|ns| - 1]
  }

  /** The path prescribe() takes: pre-acts down to a primitive act. */
  function LeftPath(acts: seq<Act>, x: ActId): (l: Path)
    requires Ordered(acts) && x < |acts|
    ensures forall n :: 0 <= n < |l| ==> !l[n]
    decreases x
  {
    match acts[x].shape
    case Atomic(_, _) => []
    case Composite(pre, _) => [false] + LeftPath(acts, pre)
  }

  /** The path from x to its k-th primitive step. */
  function PathOf(acts: seq<Act>, x: ActId, k: nat): Path
    requires WellFormed(acts) && x < |acts| && k < |Leaves(acts, x)|
    decreases x
  {
    match acts[x].shape
    case Atomic(_, _) => []
    case Composite(pre, post) =>
      var n := |Leaves(acts, pre)|;
      assert Leaves(acts, x) == Leaves(acts, pre) + Leaves(acts, post);
      if k < n then [false] + PathOf(acts, pre, k) else [true] + PathOf(acts, post, k - n)
  }

  /** Where updatePrescriber() leaves the path: up past every act whose
      post-act the path took, then over to the post-act of the lowest act
      whose pre-act it took; nowhere when there is no such act. */
  function Climb(p: Path): Option<Path>
    decreases |p|
  {
    if p == [] then None
    else if !p[|p| - 1] then Some(p[..|p| - 1] + [true])
    else Climb(p[..|p| - 1])
  }

  // ---------------------------------------------------------------------------
  // Paths

  /** Following p then l is following p, then l from where p ends. */
  lemma {:induction false} NodesAppend(acts: seq<Act>, x: ActId, p: Path, l: Path)
    requires Ordered(acts) && x < |acts|
    ensures NodeAt(acts, x, p) < |acts|
    ensures Nodes(acts, x, p + l) == Nodes(acts, x, p) + Nodes(acts, NodeAt(acts, x, p), l)[1..]
    decreases |l|
  {
    var y := NodeAt(acts, x, p);
    if l == [] {
      assert p + l == p;
    } else {
      var l' := l[..|l| - 1];
      assert (p + l)[..|p + l| - 1] == p + l';
      NodesAppend(acts, x, p, l');
      var ms := Nodes(acts, y, l');
      assert Nodes(acts, y, l) == ms + [Child(acts, ms[|ms| - 1], l[|l| - 1])];
    }
  }

  lemma NodeAtAppend(acts: seq<Act>, x: ActId, p: Path, l: Path)
    requires Ordered(acts) && x < |acts|
    ensures NodeAt(acts, x, p) < |acts|
    ensures NodeAt(acts, x, p + l) == NodeAt(acts, NodeAt(acts, x, p), l)
  {
    NodesAppend(acts, x, p, l);
  }

  /** Following [b] + l is one step to a part, then l from there. */
  lemma {:induction false} NodesCons(acts: seq<Act>, x: ActId, b: bool, l: Path)
    requires Ordered(acts) && x < |acts|
    ensures Nodes(acts, x, [b] + l) == [x] + Nodes(acts, Child(acts, x, b), l)
    decreases |l|
  {
    if l == [] {
      assert [b][..0] == [];
    } else {
      var l' := l[..|l| - 1];
      assert ([b] + l)[..|l|] == [b] + l';
      NodesCons(acts, x, b, l');
    }
  }

  lemma NodeAtCons(acts: seq<Act>, x: ActId, b: bool, l: Path)
    requires Ordered(acts) && x < |acts|
    ensures NodeAt(acts, x, [b] + l) == NodeAt(acts, Child(acts, x, b), l)
  {
    NodesCons(acts, x, b, l);
  }

  /** The nodes of a path through composites descend strictly. */
  lemma {:induction false} NodesDescend(acts: seq<Act>, x: ActId, p: Path)
    requires Ordered(acts) && x < |acts|
    requires forall j :: 0 <= j < |p| ==> acts[Nodes(acts, x, p)[j]].shape.Composite?
    ensures forall j, k :: 0 <= j < k <= |p| ==> Nodes(acts, x, p)[k] < Nodes(acts, x, p)[j]
    decreases |p|
  {
    if p != [] {
      var p' := p[..|p| - 1];
      var ns, ns' := Nodes(acts, x, p), Nodes(acts, x, p');
      assert ns == ns' + [Child(acts, ns'[|ns'| - 1], p[|p| - 1])];
      forall j | 0 <= j < |p'| ensures acts[ns'[j]].shape.Composite? {
        assert ns'[j] == ns[j];
      }
      NodesDescend(acts, x, p');
    }
  }

  /** The k-th primitive step is where the k-th path ends. */
  lemma {:induction false} PathOfLeaf(acts: seq<Act>, x: ActId, k: nat)
    requires WellFormed(acts) && x < |acts| && k < |Leaves(acts, x)|
    ensures NodeAt(acts, x, PathOf(acts, x, k)) == Leaves(acts, x)[k]
    decreases x
  {
    match acts[x].shape
    case Atomic(_, _) =>
    case Composite(pre, post) =>
      var n := |Leaves(acts, pre)|;
      assert Leaves(acts, x) == Leaves(acts, pre) + Leaves(acts, post);
      if k < n {
        PathOfLeaf(acts, pre, k);
        NodeAtCons(acts, x, false, PathOf(acts, pre, k));
      } else {
        PathOfLeaf(acts, post, k - n);
        NodeAtCons(acts, x, true, PathOf(acts, post, k - n));
      }
  }

  /** The first path is the one prescribe() takes. */
  lemma {:induction false} PathOfFirst(acts: seq<Act>, x: ActId)
    requires WellFormed(acts) && x < |acts|
    ensures PathOf(acts, x, 0) == LeftPath(acts, x)
    decreases x
  {
    if acts[x].shape.Composite? {
      PathOfFirst(acts, acts[x].shape.pre);
    }
  }

  /** The acts of prescribe()'s path are its spine. */
  lemma {:induction false} LeftSpineNodes(acts: seq<Act>, x: ActId)
    requires Ordered(acts) && x < |acts|
    ensures LeftSpine(acts, x) == Nodes(acts, x, LeftPath(acts, x))
    decreases x
  {
    match acts[x].shape
    case Atomic(_, _) =>
    case Composite(pre, _) =>
      LeftSpineNodes(acts, pre);
      NodesCons(acts, x, false, LeftPath(acts, pre));
  }

  lemma {:induction false} ClimbCons(b: bool, p: Path)
    ensures Climb(p).Some? ==> Climb([b] + p) == Some([b] + Climb(p).value)
    ensures Climb(p).None? ==> Climb([b] + p) == Climb([b])
    decreases |p|
  {
    if p != [] {
      var p' := p[..|p| - 1];
      assert ([b] + p)[..|p|] == [b] + p';
      ClimbCons(b, p');
      if !p[|p| - 1] {
        assert [b] + p' + [true] == [b] + (p' + [true]);
      }
    }
  }

  /** Climbing from the k-th path and going down the pre-acts from there gives
      the next path; climbing from the last path goes nowhere. */
  ghost predicate NextOf(acts: seq<Act>, x: ActId, k: nat)
    requires WellFormed(acts) && x < |acts| && k < |Leaves(acts, x)|
  {
    && (k + 1 < |Leaves(acts, x)| ==>
          && Climb(PathOf(acts, x, k)).Some?
          && PathOf(acts, x, k + 1) ==
             Climb(PathOf(acts, x, k)).value + LeftPath(acts, NodeAt(acts, x, Climb(PathOf(acts, x, k)).value)))
    && (k + 1 == |Leaves(acts, x)| ==> Climb(PathOf(acts, x, k)).None?)
  }

  lemma {:induction false} NextPath(acts: seq<Act>, x: ActId, k: nat)
    requires WellFormed(acts) && x < |acts| && k < |Leaves(acts, x)|
    ensures NextOf(acts, x, k)
    decreases x
  {
    match acts[x].shape
    case Atomic(_, _) =>
    case Composite(pre, post) =>
      var n := |Leaves(acts, pre)|;
      assert Leaves(acts, x) == Leaves(acts, pre) + Leaves(acts, post);
      if k < n {
        NextPath(acts, pre, k);
        NextPathPre(acts, x, k);
      } else {
        NextPath(acts, post, k - n);
        NextPathPost(acts, x, k);
      }
  }

  /** The step of NextPath for a primitive step inside the pre-act. */
  lemma NextPathPre(acts: seq<Act>, x: ActId, k: nat)
    requires WellFormed(acts) && x < |acts| && acts[x].shape.Composite?
    requires k < |Leaves(acts, acts[x].shape.pre)|
    requires NextOf(acts, acts[x].shape.pre, k)
    ensures k < |Leaves(acts, x)| && NextOf(acts, x, k)
  {
    var pre, post := acts[x].shape.pre, acts[x].shape.post;
    assert Leaves(acts, x) == Leaves(acts, pre) + Leaves(acts, post);
    if k + 1 < |Leaves(acts, pre)| {
      NextWithinPre(acts, x, k);
    } else {
      NextOutOfPre(acts, x, k);
    }
  }

  /** The next primitive step is still inside the pre-act. */
  lemma NextWithinPre(acts: seq<Act>, x: ActId, k: nat)
    requires WellFormed(acts) && x < |acts| && acts[x].shape.Composite?
    requires k + 1 < |Leaves(acts, acts[x].shape.pre)| < |Leaves(acts, x)|
    requires NextOf(acts, acts[x].shape.pre, k)
    ensures Climb(PathOf(acts, x, k)).Some?
    ensures PathOf(acts, x, k + 1) ==
            Climb(PathOf(acts, x, k)).value + LeftPath(acts, NodeAt(acts, x, Climb(PathOf(acts, x, k)).value))
  {
    var pre := acts[x].shape.pre;
    var p' := PathOf(acts, pre, k);
    var q' := Climb(p').value;
    var l := LeftPath(acts, NodeAt(acts, pre, q'));
    assert PathOf(acts, x, k) == [false] + p';
    assert PathOf(acts, x, k + 1) == [false] + (q' + l);
    ClimbCons(false, p');
    NodeAtCons(acts, x, false, q');
    assert [false] + (q' + l) == ([false] + q') + l;
  }

  /** The pre-act's last primitive step is followed by the post-act's first. */
  lemma NextOutOfPre(acts: seq<Act>, x: ActId, k: nat)
    requires WellFormed(acts) && x < |acts| && acts[x].shape.Composite?
    requires k + 1 == |Leaves(acts, acts[x].shape.pre)| < |Leaves(acts, x)|
    requires NextOf(acts, acts[x].shape.pre, k)
    ensures Climb(PathOf(acts, x, k)).Some?
    ensures PathOf(acts, x, k + 1) ==
            Climb(PathOf(acts, x, k)).value + LeftPath(acts, NodeAt(acts, x, Climb(PathOf(acts, x, k)).value))
  {
    var pre, post := acts[x].shape.pre, acts[x].shape.post;
    var p' := PathOf(acts, pre, k);
    assert PathOf(acts, x, k) == [false] + p';
    assert PathOf(acts, x, k + 1) == [true] + PathOf(acts, post, 0);
    ClimbCons(false, p');
    var one: Path := [false];
    assert one[..0] + [true] == [true];
    assert Climb(one) == Some([true]);
    PathOfFirst(acts, post);
    NodeAtCons(acts, x, true, []);
    assert NodeAt(acts, post, []) == post;
  }

  /** The step of NextPath for a primitive step inside the post-act. */
  lemma NextPathPost(acts: seq<Act>, x: ActId, k: nat)
    requires WellFormed(acts) && x < |acts| && acts[x].shape.Composite?
    requires |Leaves(acts, acts[x].shape.pre)| <= k < |Leaves(acts, x)|
    requires NextOf(acts, acts[x].shape.post, k - |Leaves(acts, acts[x].shape.pre)|)
    ensures NextOf(acts, x, k)
  {
    var pre, post := acts[x].shape.pre, acts[x].shape.post;
    assert Leaves(acts, x) == Leaves(acts, pre) + Leaves(acts, post);
    if k + 1 < |Leaves(acts, x)| {
      NextWithinPost(acts, x, k);
    } else {
      LastOfPost(acts, x, k);
    }
  }

  /** The next primitive step is still inside the post-act. */
  lemma NextWithinPost(acts: seq<Act>, x: ActId, k: nat)
    requires WellFormed(acts) && x < |acts| && acts[x].shape.Composite?
    requires |Leaves(acts, acts[x].shape.pre)| <= k && k + 1 < |Leaves(acts, x)|
    requires |Leaves(acts, x)| == |Leaves(acts, acts[x].shape.pre)| + |Leaves(acts, acts[x].shape.post)|
    requires NextOf(acts, acts[x].shape.post, k - |Leaves(acts, acts[x].shape.pre)|)
    ensures Climb(PathOf(acts, x, k)).Some?
    ensures PathOf(acts, x, k + 1) ==
            Climb(PathOf(acts, x, k)).value + LeftPath(acts, NodeAt(acts, x, Climb(PathOf(acts, x, k)).value))
  {
    var pre, post := acts[x].shape.pre, acts[x].shape.post;
    var n := |Leaves(acts, pre)|;
    var p' := PathOf(acts, post, k - n);
    var q' := Climb(p').value;
    var l := LeftPath(acts, NodeAt(acts, post, q'));
    assert PathOf(acts, x, k) == [true] + p';
    assert PathOf(acts, x, k + 1) == [true] + (q' + l);
    ClimbCons(true, p');
    NodeAtCons(acts, x, true, q');
    assert [true] + (q' + l) == ([true] + q') + l;
  }

  /** Climbing from the path to the last primitive step goes nowhere. */
  lemma LastOfPost(acts: seq<Act>, x: ActId, k: nat)
    requires WellFormed(acts) && x < |acts| && acts[x].shape.Composite?
    requires |Leaves(acts, acts[x].shape.pre)| <= k && k + 1 == |Leaves(acts, x)|
    requires |Leaves(acts, x)| == |Leaves(acts, acts[x].shape.pre)| + |Leaves(acts, acts[x].shape.post)|
    requires NextOf(acts, acts[x].shape.post, k - |Leaves(acts, acts[x].shape.pre)|)
    ensures Climb(PathOf(acts, x, k)).None?
  {
    var p' := PathOf(acts, acts[x].shape.post, k - |Leaves(acts, acts[x].shape.pre)|);
    assert PathOf(acts, x, k) == [true] + p';
    ClimbCons(true, p');
    var one: Path := [true];
    assert one[..0] == [];
  }

  // ---------------------------------------------------------------------------
  // The execution fields along a path

  /** The execution fields of r follow the acts ns down path p: every act on
      it above the last is a composite at the step the path takes, every act
      below the first has the one above as its prescriber, and the first has
      none. */
  ghost predicate AlongNodes(acts: seq<Act>, r: seq<Act>, ns: seq<ActId>, p: Path)
    requires |r| == |acts| && |ns| == |p| + 1
    requires forall j :: 0 <= j < |ns| ==> ns[j] < |acts|
  {
    && (forall j :: 0 <= j < |p| ==>
          acts[ns[j]].shape.Composite? && r[ns[j]].step == if p[j] then 1 else 0)
    && (forall j :: 0 < j <= |p| ==> r[ns[j]].prescriber == Some(ns[j - 1]))
    && r[ns[0]].prescriber.None?
  }

  /** The execution fields of r follow path p from the top act i. */
  ghost predicate Along(acts: seq<Act>, r: seq<Act>, i: ActId, p: Path)
    requires Ordered(acts) && i < |acts| && |r| == |acts|
  {
    AlongNodes(acts, r, Nodes(acts, i, p), p)
  }

  /** prescribe() on the act where the path ends extends the path with the
      pre-acts down to a primitive act, and returns that act. */
  lemma PrescribeAlong(acts: seq<Act>, r: seq<Act>, i: ActId, q: Path)
    requires Ordered(acts) && Structured(r) && SameActs(acts, r) && i < |acts|
    requires Along(acts, r, i, q)
    ensures NodeAt(acts, i, q) < |acts|
    ensures Prescribed(r, NodeAt(acts, i, q)) == NodeAt(acts, i, q + LeftPath(acts, NodeAt(acts, i, q)))
    ensures Along(acts, PrescribeState(r, NodeAt(acts, i, q)), i, q + LeftPath(acts, NodeAt(acts, i, q)))
  {
    var y := NodeAt(acts, i, q);
    var l := LeftPath(acts, y);
    var ns, ms := Nodes(acts, i, q), Nodes(acts, y, l);
    PrescribeEffect(r, y);
    LeftSpineFrame(acts, r, y);
    LeftSpineNodes(acts, y);
    assert LeftSpine(r, y) == ms;
    NodesAppend(acts, i, q, l);
    NodesDescend(acts, i, q);
    AlongJoin(acts, r, PrescribeState(r, y), ns, q, ms, l, Nodes(acts, i, q + l));
  }

  /** prescribe() walks down the spine ms from where the acts ns of path q
      end: the fields that followed q in r follow q + l in r'. */
  lemma AlongJoin(acts: seq<Act>, r: seq<Act>, r': seq<Act>, ns: seq<ActId>, q: Path,
                  ms: seq<ActId>, l: Path, nl: seq<ActId>)
    requires |r| == |acts| && |r'| == |acts|
    requires |ns| == |q| + 1 && |ms| == |l| + 1 && ms[0] == ns[|q|] && nl == ns + ms[1..]
    requires forall j :: 0 <= j < |ns| ==> ns[j] < |acts|
    requires forall n :: 0 <= n < |ms| ==> ms[n] < |acts|
    requires forall j :: 0 <= j < |nl| ==> nl[j] < |acts|
    requires forall j :: 0 <= j < |q| ==> ns[|q|] < ns[j]
    requires forall n :: 0 <= n < |ms| ==> ms[n] <= ms[0]
    requires forall n :: 0 <= n < |l| ==> !l[n] && acts[ms[n]].shape.Composite?
    requires AlongNodes(acts, r, ns, q)
    requires PrescribedAlong(r, r', ms)
    ensures AlongNodes(acts, r', nl, q + l)
  {
    var p := q + l;
    forall j | 0 <= j < |q| ensures r'[ns[j]] == r[ns[j]] {
      assert ns[j] !in ms;
    }
    forall j | 0 <= j < |p|
      ensures acts[nl[j]].shape.Composite? && r'[nl[j]].step == if p[j] then 1 else 0
    {
      if j < |q| {
        assert nl[j] == ns[j] && p[j] == q[j];
      } else {
        assert nl[j] == ms[j - |q|] && p[j] == l[j - |q|];
      }
    }
    forall j | 0 < j <= |p| ensures r'[nl[j]].prescriber == Some(nl[j - 1]) {
      if j < |q| {
        assert nl[j] == ns[j] && nl[j - 1] == ns[j - 1];
      } else if j == |q| {
        assert nl[j] == ms[0] && nl[j - 1] == ns[j - 1];
      } else {
        assert nl[j] == ms[j - |q|] && nl[j - 1] == ms[j - 1 - |q|];
      }
    }
    assert nl[0] == ns[0];
  }

  /** What updatePrescriber() on the act where path p ends does when the
      execution fields follow p: it returns null exactly when the path climbs
      nowhere; otherwise it returns the act where the climbed path ends, and
      the fields follow that path. */
  ghost predicate Climbed(acts: seq<Act>, r: seq<Act>, i: ActId, p: Path)
    requires Ordered(acts) && Structured(r) && SameActs(acts, r) && i < |acts|
  {
    var res := UpdateState(r, NodeAt(acts, i, p));
    && (res.1.None? <==> Climb(p).None?)
    && (Climb(p).Some? ==>
          && res.1 == Some(NodeAt(acts, i, Climb(p).value))
          && Along(acts, res.0, i, Climb(p).value))
  }

  lemma {:induction false} UpdateAlong(acts: seq<Act>, r: seq<Act>, i: ActId, p: Path)
    requires Ordered(acts) && Structured(r) && SameActs(acts, r) && i < |acts|
    requires Along(acts, r, i, p)
    ensures Climbed(acts, r, i, p)
    decreases |p|
  {
    var ns := Nodes(acts, i, p);
    var m := |p|;
    var leaf := ns[m];
    if m == 0 {
      assert UpdateState(r, leaf).1 == None;
    } else {
      NodesDescend(acts, i, p);
      var p' := p[..m - 1];
      var q := ns[m - 1];
      assert Nodes(acts, i, p') == ns[..m];
      assert PartOf(r, leaf, q);
      if !p[m - 1] {
        UpdateAdvanceAlong(acts, r, i, p);
      } else {
        var cleared := SetPrescriber(r, leaf, None);
        assert UpdateState(r, leaf) == UpdateState(cleared, q);
        assert Climb(p) == Climb(p');
        AlongDrop(acts, r, cleared, ns, p);
        UpdateAlong(acts, cleared, i, p');
      }
    }
  }

  /** Clearing the prescriber of the last act of a path through composites
      leaves the fields following the path without its last step. */
  lemma AlongDrop(acts: seq<Act>, r: seq<Act>, r': seq<Act>, ns: seq<ActId>, p: Path)
    requires |r| == |acts| && |r'| == |acts| && |ns| == |p| + 1 && |p| > 0
    requires forall j :: 0 <= j < |ns| ==> ns[j] < |acts|
    requires forall j :: 0 <= j < |p| ==> ns[|p|] < ns[j]
    requires forall k :: 0 <= k < |acts| && k != ns[|p|] ==> r'[k] == r[k]
    requires AlongNodes(acts, r, ns, p)
    ensures AlongNodes(acts, r', ns[..|p|], p[..|p| - 1])
  {
    forall j | 0 <= j < |p| ensures r'[ns[j]] == r[ns[j]] {
      assert ns[|p|] < ns[j];
    }
  }

  /** The case where the act above the end of the path took its pre-act: it
      moves to step 1 and prescribes its post-act. */
  lemma UpdateAdvanceAlong(acts: seq<Act>, r: seq<Act>, i: ActId, p: Path)
    requires Ordered(acts) && Structured(r) && SameActs(acts, r) && i < |acts|
    requires Along(acts, r, i, p) && |p| > 0 && !p[|p| - 1]
    requires forall j, k :: 0 <= j < k <= |p| ==> Nodes(acts, i, p)[k] < Nodes(acts, i, p)[j]
    ensures Climbed(acts, r, i, p)
  {
    var ns := Nodes(acts, i, p);
    var m := |p|;
    var leaf, q := ns[m], ns[m - 1];
    var post := acts[q].shape.post;
    ClimbToPost(acts, i, p);
    assert Nodes(acts, i, p[..m - 1]) == ns[..m];
    assert PartOf(r, leaf, q);
    var cleared := SetPrescriber(r, leaf, None);
    var advanced := SetStep(cleared, q, 1);
    var r' := SetPrescriber(advanced, post, Some(q));
    assert UpdateState(r, leaf) == (r', Some(post));
    AlongAdvance(acts, r, r', ns, p, post);
  }

  /** A path whose last step took a pre-act climbs to the post-act instead. */
  lemma ClimbToPost(acts: seq<Act>, i: ActId, p: Path)
    requires Ordered(acts) && i < |acts| && |p| > 0 && !p[|p| - 1]
    requires acts[Nodes(acts, i, p)[|p| - 1]].shape.Composite?
    ensures Climb(p) == Some(p[..|p| - 1] + [true])
    ensures Nodes(acts, i, p[..|p| - 1] + [true]) ==
            Nodes(acts, i, p)[..|p|] + [acts[Nodes(acts, i, p)[|p| - 1]].shape.post]
  {
    var m := |p|;
    var p', c := p[..m - 1], p[..m - 1] + [true];
    assert c[..m - 1] == p';
    assert Nodes(acts, i, p') == Nodes(acts, i, p)[..m];
  }

  /** The act above the last of the path moves from its pre-act to its
      post-act, which now points to it. */
  lemma AlongAdvance(acts: seq<Act>, r: seq<Act>, r': seq<Act>, ns: seq<ActId>, p: Path, post: ActId)
    requires |r| == |acts| && |r'| == |acts| && |ns| == |p| + 1 && |p| > 0 && !p[|p| - 1]
    requires forall j :: 0 <= j < |ns| ==> ns[j] < |acts|
    requires post < ns[|p| - 1] && ns[|p|] < ns[|p| - 1]
    requires forall j :: 0 <= j < |p| - 1 ==> ns[|p| - 1] < ns[j]
    requires forall k :: 0 <= k < |acts| && k != post && k != ns[|p| - 1] && k != ns[|p|] ==> r'[k] == r[k]
    requires r'[ns[|p| - 1]].prescriber == r[ns[|p| - 1]].prescriber && r'[ns[|p| - 1]].step == 1
    requires r'[post].prescriber == Some(ns[|p| - 1])
    requires AlongNodes(acts, r, ns, p)
    ensures AlongNodes(acts, r', ns[..|p|] + [post], p[..|p| - 1] + [true])
  {
    var m := |p|;
    var nc, c := ns[..m] + [post], p[..m - 1] + [true];
    forall j | 0 <= j < m - 1 ensures r'[ns[j]] == r[ns[j]] {
      assert ns[m - 1] < ns[j];
    }
    forall j | 0 <= j < m
      ensures acts[nc[j]].shape.Composite? && r'[nc[j]].step == if c[j] then 1 else 0
    {
      assert nc[j] == ns[j];
    }
    forall j | 0 < j <= m ensures r'[nc[j]].prescriber == Some(nc[j - 1]) {
      if j < m {
        assert nc[j] == ns[j] && nc[j - 1] == ns[j - 1];
      }
    }
    assert nc[0] == ns[0];
  }

  // ---------------------------------------------------------------------------
  // The rounds

  /** One round of the success path: the primitive act just enacted updates
      its prescriber, and the act returned, if any, is prescribed; the round
      gives the arena and the next primitive act to enact. */
  function Round(acts: seq<Act>, leaf: ActId): (res: (seq<Act>, Option<ActId>))
    requires Structured(acts) && leaf < |acts|
    ensures Structured(res.0) && SameActs(acts, res.0)
    ensures res.1.Some? ==> res.1.value < |acts|
  {
    var (r, next) := UpdateState(acts, leaf);
    match next
    case None => (r, None)
    case Some(n) =>
      LeftSpineFrame(acts, r, n);
      (PrescribeState(r, n), Some(Prescribed(r, n)))
  }

  /** The arena and the primitive act to enact after prescribe() on act i and
      k rounds in which every step succeeds; none once a round has returned
      null. */
  function Rounds(acts: seq<Act>, i: ActId, k: nat): (res: (seq<Act>, Option<ActId>))
    requires Structured(acts) && i < |acts|
    ensures Structured(res.0) && SameActs(acts, res.0)
    ensures res.1.Some? ==> res.1.value < |acts|
  {
    if k == 0 then (PrescribeState(acts, i), Some(Prescribed(acts, i)))
    else Continue(Rounds(acts, i, k - 1))
  }

  /** The next round after res, unless a round has already returned null. */
  function Continue(res: (seq<Act>, Option<ActId>)): (res': (seq<Act>, Option<ActId>))
    requires Structured(res.0) && (res.1.Some? ==> res.1.value < |res.0|)
    ensures Structured(res'.0) && SameActs(res.0, res'.0)
    ensures res'.1.Some? ==> res.1.Some? && res'.1.value < |res.0|
  {
    match res.1
    case None => (res.0, None)
    case Some(leaf) => Round(res.0, leaf)
  }

  /** After a round, the fields follow path p from act i and the act to enact
      is where p ends. */
  ghost predicate RoundedTo(acts: seq<Act>, i: ActId, res: (seq<Act>, Option<ActId>), p: Path)
    requires Ordered(acts) && i < |acts| && |res.0| == |acts|
  {
    res.1 == Some(NodeAt(acts, i, p)) && Along(acts, res.0, i, p)
  }

  /** Round k, from the primitive step before the k-th, all of whose steps
      succeeded, reaches the k-th. */
  lemma RoundStep(acts: seq<Act>, i: ActId, k: nat, res: (seq<Act>, Option<ActId>))
    requires WellFormed(acts) && i < |acts| && 0 < k < |Leaves(acts, i)|
    ensures Structured(res.0) && SameActs(acts, res.0) && RoundedTo(acts, i, res, PathOf(acts, i, k - 1)) ==>
            RoundedTo(acts, i, Continue(res), PathOf(acts, i, k))
  {
    if Structured(res.0) && SameActs(acts, res.0) && RoundedTo(acts, i, res, PathOf(acts, i, k - 1)) {
      var p := PathOf(acts, i, k - 1);
      UpdateAlong(acts, res.0, i, p);
      NextPath(acts, i, k - 1);
      var r1 := UpdateState(res.0, NodeAt(acts, i, p)).0;
      PrescribeAlong(acts, r1, i, Climb(p).value);
    }
  }

  /** prescribe() on an act without a prescriber starts at its first
      primitive step. */
  lemma FirstRound(acts: seq<Act>, i: ActId)
    requires WellFormed(acts) && i < |acts| && acts[i].prescriber.None?
    ensures RoundedTo(acts, i, Rounds(acts, i, 0), PathOf(acts, i, 0))
  {
    assert Nodes(acts, i, []) == [i];
    assert Along(acts, acts, i, []);
    PrescribeAlong(acts, acts, i, []);
    assert [] + LeftPath(acts, i) == LeftPath(acts, i);
    PathOfFirst(acts, i);
  }

  /** Before round k, the fields follow the path to the k-th primitive step,
      which is the act to enact. */
  lemma {:induction false} RoundsAlong(acts: seq<Act>, i: ActId, k: nat, res: (seq<Act>, Option<ActId>))
    requires WellFormed(acts) && i < |acts| && acts[i].prescriber.None? && k < acts[i].length
    requires res == Rounds(acts, i, k)
    ensures RoundedTo(acts, i, res, PathOf(acts, i, k))
  {
    if k == 0 {
      FirstRound(acts, i);
    } else {
      var prev := Rounds(acts, i, k - 1);
      RoundsAlong(acts, i, k - 1, prev);
      RoundStep(acts, i, k, prev);
    }
  }

  /** The success path of an act without a prescriber: round k enacts its
      k-th primitive step, for every k below getLength, and the round after
      the last one returns null. */
  lemma SuccessPath(acts: seq<Act>, i: ActId)
    requires WellFormed(acts) && i < |acts| && acts[i].prescriber.None?
    ensures |Leaves(acts, i)| == acts[i].length
    ensures forall k :: 0 <= k < acts[i].length ==> Rounds(acts, i, k).1 == Some(Leaves(acts, i)[k])
    ensures Rounds(acts, i, acts[i].length).1.None?
  {
    assert |Leaves(acts, i)| == acts[i].length;
    forall k | 0 <= k < acts[i].length ensures Rounds(acts, i, k).1 == Some(Leaves(acts, i)[k]) {
      RoundsAlong(acts, i, k, Rounds(acts, i, k));
      PathOfLeaf(acts, i, k);
    }
    LastRound(acts, i);
  }

  /** The round after the one that enacts the last primitive step returns
      null. */
  lemma LastRound(acts: seq<Act>, i: ActId)
    requires WellFormed(acts) && i < |acts| && acts[i].prescriber.None?
    ensures |Leaves(acts, i)| == acts[i].length
    ensures Rounds(acts, i, acts[i].length).1.None?
  {
    assert |Leaves(acts, i)| == acts[i].length;
    var last := acts[i].length - 1;
    var prev := Rounds(acts, i, last);
    RoundsAlong(acts, i, last, prev);
    var p := PathOf(acts, i, last);
    UpdateAlong(acts, prev.0, i, p);
    NextPath(acts, i, last);
    assert Rounds(acts, i, acts[i].length) == Continue(prev);
  }
}
