/** The prescription protocol of ActImpl (prescribe, updatePrescriber and
    terminate, the same code in the imos2 and the eca.ss.enaction versions) as
    functions from the arena before a call to the arena after it, with lemmas
    that say what each call does to the fields m_step and m_prescriber.

    A prescriber link always points to a composite that has the act as a part
    (Acts.Linked), and a composite is created after its parts (Acts.Ordered),
    so every prescriber chain climbs strictly upwards in the arena and every
    recursion of the protocol terminates. */
module Prescription {
  import opened Optional
  import opened Acts

  // ---------------------------------------------------------------------------
  // Field updates

  /** setStep on act k. */
  function SetStep(acts: seq<Act>, k: ActId, s: int): (r: seq<Act>)
    requires Structured(acts) && k < |acts|
    ensures Structured(r) && SameActs(acts, r)
  {
    acts[k := acts[k].(step := s)]
  }

  /** setPrescriber on act k; a link may only point to a composite having k as a part. */
  function SetPrescriber(acts: seq<Act>, k: ActId, p: Option<ActId>): (r: seq<Act>)
    requires Structured(acts) && k < |acts|
    requires p.Some? ==> PartOf(acts, k, p.value)
    ensures Structured(r) && SameActs(acts, r)
  {
    acts[k := acts[k].(prescriber := p)]
  }

  /** Changing only execution fields keeps the derived attributes of a
      well-formed arena. */
  lemma WellFormedFrame(a: seq<Act>, b: seq<Act>)
    requires WellFormed(a) && Structured(b) && SameActs(a, b)
    ensures WellFormed(b)
  {
    forall i | 0 <= i < |b| ensures DerivedAt(b, i) {
      assert DerivedAt(a, i);
      match a[i].shape
      case Atomic(_, _) =>
      case Composite(pre, post) =>
        LabelFrame(a, b, pre);
        LabelFrame(a, b, post);
    }
  }

  // ---------------------------------------------------------------------------
  // prescribe

  /** The acts prescribe() passes through: the act, its pre-act, that act's
      pre-act, and so on down to a primitive act. */
  function LeftSpine(acts: seq<Act>, i: ActId): (sp: seq<ActId>)
    requires Ordered(acts) && i < |acts|
    ensures |sp| >= 1 && sp[0] == i
    ensures forall n :: 0 <= n < |sp| ==> sp[n] <= i
    ensures forall n :: 0 <= n < |sp| - 1 ==>
      acts[sp[n]].shape.Composite? && acts[sp[n]].shape.pre == sp[n + 1]
    ensures acts[sp[|sp| - 1]].shape.Atomic?
    decreases i
  {
    match acts[i].shape
    case Atomic(_, _) => [i]
    case Composite(pre, _) => [i] + LeftSpine(acts, pre)
  }

  /** The spine follows pre-acts, which never change. */
  lemma {:induction false} LeftSpineFrame(a: seq<Act>, b: seq<Act>, i: ActId)
    requires Ordered(a) && Ordered(b) && SameActs(a, b) && i < |a|
    ensures LeftSpine(a, i) == LeftSpine(b, i)
    decreases i
  {
    if a[i].shape.Composite? {
      LeftSpineFrame(a, b, a[i].shape.pre);
    }
  }

  /** The spine ends at the first primitive step of the act. */
  lemma {:induction false} LeftSpineEndsAtFirstLeaf(acts: seq<Act>, i: ActId)
    requires WellFormed(acts) && i < |acts|
    ensures var sp := LeftSpine(acts, i); sp[|sp| - 1] == Leaves(acts, i)[0]
    decreases i
  {
    match acts[i].shape
    case Atomic(_, _) =>
    case Composite(pre, post) =>
      LeftSpineEndsAtFirstLeaf(acts, pre);
      assert Leaves(acts, i) == Leaves(acts, pre) + Leaves(acts, post);
  }

  /** The act prescribe() returns. */
  function Prescribed(acts: seq<Act>, i: ActId): ActId
    requires Ordered(acts) && i < |acts|
  {
    var sp := LeftSpine(acts, i);
    sp[|sp| - 1]
  }

  /** The arena after prescribe() on act i: a composite sets its step to 0,
      makes itself its pre-act's prescriber and prescribes its pre-act. */
  function PrescribeState(acts: seq<Act>, i: ActId): (r: seq<Act>)
    requires Structured(acts) && i < |acts|
    ensures Structured(r) && SameActs(acts, r)
    decreases i
  {
    match acts[i].shape
    case Atomic(_, _) => acts
    case Composite(pre, _) =>
      PrescribeState(SetPrescriber(SetStep(acts, i, 0), pre, Some(i)), pre)
  }

  /** What prescribe() does along a spine `sp` of the arena: every composite
      on it is left at step 0 with the act below it pointing back to it; the
      first act keeps its prescriber, the last its step, and every act off the
      spine is unchanged. */
  ghost predicate PrescribedAlong(acts: seq<Act>, r: seq<Act>, sp: seq<ActId>)
    requires |r| == |acts| && |sp| >= 1
    requires forall n :: 0 <= n < |sp| ==> sp[n] < |acts|
  {
    && (forall n :: 0 <= n < |sp| - 1 ==> r[sp[n]].step == 0)
    && (forall n :: 0 < n < |sp| ==> r[sp[n]].prescriber == Some(sp[n - 1]))
    && r[sp[0]].prescriber == acts[sp[0]].prescriber
    && r[sp[|sp| - 1]].step == acts[sp[|sp| - 1]].step
    && (forall k :: 0 <= k < |acts| && k !in sp ==> r[k] == acts[k])
  }

  /** prescribe() returns the first primitive step of the act; every composite
      on the way down is left at step 0 with its pre-act's prescriber pointing
      to it; the act's own prescriber, the primitive's step and every act off
      the spine are unchanged. */
  lemma {:induction false} PrescribeEffect(acts: seq<Act>, i: ActId)
    requires Structured(acts) && i < |acts|
    ensures acts[Prescribed(acts, i)].shape.Atomic?
    ensures PrescribedAlong(acts, PrescribeState(acts, i), LeftSpine(acts, i))
    decreases i
  {
    match acts[i].shape
    case Atomic(_, _) =>
    case Composite(pre, _) =>
      var a2 := SetPrescriber(SetStep(acts, i, 0), pre, Some(i));
      PrescribeEffect(a2, pre);
      LeftSpineFrame(acts, a2, pre);
      var sp' := LeftSpine(acts, pre);
      assert LeftSpine(acts, i) == [i] + sp';
      PrescribeHead(acts, a2, PrescribeState(a2, pre), i, sp');
  }

  /** One level of prescribe(): a spine below i, already prescribed in the
      arena where i is at step 0 and i's pre-act points to i. */
  lemma PrescribeHead(acts: seq<Act>, a2: seq<Act>, r: seq<Act>, i: ActId, sp: seq<ActId>)
    requires |a2| == |acts| && |r| == |acts| && i < |acts| && |sp| >= 1
    requires forall n :: 0 <= n < |sp| ==> sp[n] < i
    requires a2 == acts[i := acts[i].(step := 0)][sp[0] := acts[sp[0]].(prescriber := Some(i))]
    requires PrescribedAlong(a2, r, sp)
    ensures PrescribedAlong(acts, r, [i] + sp)
  {
    var sp2 := [i] + sp;
    assert i !in sp;
    forall n | 0 < n < |sp2| ensures r[sp2[n]].prescriber == Some(sp2[n - 1]) {
      if n > 1 {
        assert sp2[n] == sp[n - 1] && sp2[n - 1] == sp[n - 2];
      }
    }
    forall n | 0 <= n < |sp2| - 1 ensures r[sp2[n]].step == 0 {
      if n > 0 {
        assert sp2[n] == sp[n - 1];
      }
    }
  }

  // ---------------------------------------------------------------------------
  // The prescriber chain

  /** The chain of prescribers above act i: i, its prescriber, that act's
      prescriber, and so on up to an act without one. */
  function Chain(acts: seq<Act>, i: ActId): (ch: seq<ActId>)
    requires Structured(acts) && i < |acts|
    ensures |ch| >= 1 && ch[0] == i
    ensures forall n :: 0 < n < |ch| ==> i < ch[n] < |acts|
    ensures acts[ch[|ch| - 1]].prescriber.None?
    decreases |acts| - i
  {
    match acts[i].prescriber
    case None => [i]
    case Some(p) =>
      assert PartOf(acts, i, p);
      [i] + Chain(acts, p)
  }

  /** Each act of the chain but the last has the next one as its prescriber. */
  lemma {:induction false} ChainLinks(acts: seq<Act>, i: ActId, n: nat)
    requires Structured(acts) && i < |acts| && n + 1 < |Chain(acts, i)|
    ensures acts[Chain(acts, i)[n]].prescriber == Some(Chain(acts, i)[n + 1])
    decreases |acts| - i
  {
    var p := acts[i].prescriber.value;
    assert PartOf(acts, i, p);
    assert Chain(acts, i) == [i] + Chain(acts, p);
    if n > 0 {
      ChainLinks(acts, p, n - 1);
    }
  }

  /** The chain above i only reads the links of acts from i upwards. */
  lemma {:induction false} ChainFrame(a: seq<Act>, b: seq<Act>, i: ActId)
    requires Structured(a) && Structured(b) && |a| == |b| && i < |a|
    requires forall k :: i <= k < |a| ==> a[k].prescriber == b[k].prescriber
    ensures Chain(a, i) == Chain(b, i)
    decreases |a| - i
  {
    match a[i].prescriber
    case None =>
    case Some(p) =>
      assert PartOf(a, i, p);
      ChainFrame(a, b, p);
  }

  // ---------------------------------------------------------------------------
  // updatePrescriber

  /** The arena after updatePrescriber() on act i, and the act it returns:
      i's link is consumed; a prescriber at step 0 moves to step 1 and
      prescribes its post-act; a prescriber at another step is updated in turn. */
  function UpdateState(acts: seq<Act>, i: ActId): (res: (seq<Act>, Option<ActId>))
    requires Structured(acts) && i < |acts|
    ensures Structured(res.0) && SameActs(acts, res.0)
    ensures res.1.Some? ==> res.1.value < |acts|
    decreases |acts| - i
  {
    var p := acts[i].prescriber;
    var cleared := SetPrescriber(acts, i, None);
    match p
    case None => (cleared, None)
    case Some(q) =>
      assert PartOf(acts, i, q);
      if cleared[q].step == 0 then
        var advanced := SetStep(cleared, q, 1);
        var next := advanced[q].shape.post;
        (SetPrescriber(advanced, next, Some(q)), Some(next))
      else
        UpdateState(cleared, q)
  }

  /** Every prescriber above the first act of the chain `ch` has already
      moved past its pre-act (its step is not 0). */
  ghost predicate AllPastPreAct(acts: seq<Act>, ch: seq<ActId>)
    requires forall m :: 0 <= m < |ch| ==> ch[m] < |acts|
  {
    forall n :: 0 < n < |ch| ==> acts[ch[n]].step != 0
  }

  /** r is acts with the prescriber link of every act on `ch` consumed. */
  ghost predicate ClearedAlong(acts: seq<Act>, r: seq<Act>, ch: seq<ActId>)
    requires |r| == |acts|
  {
    forall k :: 0 <= k < |acts| ==>
      r[k] == if k in ch then acts[k].(prescriber := None) else acts[k]
  }

  /** The climb of updatePrescriber along the chain `ch` stops at ch[n]: the
      first prescriber at step 0, which moves to step 1 and becomes the
      prescriber of its post-act `next`; every link below it is consumed;
      nothing else changes. */
  ghost predicate AdvancedAt(acts: seq<Act>, r: seq<Act>, ch: seq<ActId>, n: nat, next: ActId)
    requires |r| == |acts|
    requires forall m :: 0 <= m < |ch| ==> ch[m] < |acts|
  {
    && 0 < n < |ch|
    && acts[ch[n]].step == 0
    && (forall m :: 0 < m < n ==> acts[ch[m]].step != 0)
    && acts[ch[n]].shape.Composite? && next == acts[ch[n]].shape.post
    && (forall k :: 0 <= k < |acts| ==>
          r[k] == if k == next then acts[k].(prescriber := Some(ch[n]))
                  else if k == ch[n] then acts[k].(step := 1)
                  else if k in ch[..n] then acts[k].(prescriber := None)
                  else acts[k])
  }

  /** What updatePrescriber leaves along the prescriber chain `ch`: it
      returns null exactly when no prescriber on the chain is at step 0, and
      then every link on the chain is consumed and nothing else changes;
      otherwise the first prescriber at step 0 has advanced. */
  ghost predicate UpdatedAlong(acts: seq<Act>, r: seq<Act>, next: Option<ActId>, ch: seq<ActId>)
    requires |r| == |acts|
    requires forall m :: 0 <= m < |ch| ==> ch[m] < |acts|
  {
    && (next.None? <==> AllPastPreAct(acts, ch))
    && (next.None? ==> ClearedAlong(acts, r, ch))
    && (next.Some? ==> exists n :: AdvancedAt(acts, r, ch, n, next.value))
  }

  /** updatePrescriber returns null exactly when no prescriber on the chain is
      at step 0; then it has consumed every link on the chain and changed
      nothing else. Otherwise it advances the first prescriber at step 0. */
  lemma {:induction false} UpdateEffect(acts: seq<Act>, i: ActId)
    requires Structured(acts) && i < |acts|
    ensures UpdatedAlong(acts, UpdateState(acts, i).0, UpdateState(acts, i).1, Chain(acts, i))
    decreases |acts| - i, 1
  {
    match acts[i].prescriber
    case None =>
      assert Chain(acts, i) == [i];
    case Some(q) =>
      if acts[q].step == 0 {
        assert PartOf(acts, i, q);
        var cleared := SetPrescriber(acts, i, None);
        var ch' := Chain(acts, q);
        assert forall m :: 0 <= m < |ch'| ==> i < ch'[m] < |acts|;
        assert cleared == acts[i := acts[i].(prescriber := None)];
        assert Chain(acts, i) == [i] + ch';
        var advanced := SetStep(cleared, q, 1);
        var post := acts[q].shape.post;
        var r := SetPrescriber(advanced, post, Some(q));
        assert UpdateState(acts, i) == (r, Some(post));
        UpdateAdvance(acts, r, i, q, ch');
      } else {
        UpdatePast(acts, i, q);
      }
  }

  /** updatePrescriber where i's own prescriber q is past its pre-act: the
      update goes on from q once i's prescriber is cleared. */
  lemma {:induction false} UpdatePast(acts: seq<Act>, i: ActId, q: ActId)
    requires Structured(acts) && i < |acts| && acts[i].prescriber == Some(q) && acts[q].step != 0
    ensures UpdatedAlong(acts, UpdateState(acts, i).0, UpdateState(acts, i).1, Chain(acts, i))
    decreases |acts| - i, 0
  {
    assert PartOf(acts, i, q);
    var cleared := SetPrescriber(acts, i, None);
    var ch' := Chain(acts, q);
    assert forall m :: 0 <= m < |ch'| ==> i < ch'[m] < |acts|;
    assert cleared == acts[i := acts[i].(prescriber := None)];
    assert Chain(acts, i) == [i] + ch';
    var res := UpdateState(cleared, q);
    assert UpdateState(acts, i) == res;
    UpdateEffect(cleared, q);
    ChainFrame(acts, cleared, q);
    assert UpdatedAlong(cleared, res.0, res.1, ch');
    UpdateHead(acts, cleared, res.0, res.1, i, ch');
  }

  /** updatePrescriber where i's own prescriber q is at step 0. */
  lemma UpdateAdvance(acts: seq<Act>, r: seq<Act>, i: ActId, q: ActId, ch: seq<ActId>)
    requires |r| == |acts| && i < q < |acts| && |ch| >= 1 && ch[0] == q
    requires forall m :: 0 <= m < |ch| ==> ch[m] < |acts|
    requires acts[q].step == 0 && acts[q].shape.Composite? && acts[q].shape.post < q
    requires var cleared := acts[i := acts[i].(prescriber := None)];
      var advanced := cleared[q := cleared[q].(step := 1)];
      r == advanced[acts[q].shape.post := advanced[acts[q].shape.post].(prescriber := Some(q))]
    ensures AdvancedAt(acts, r, [i] + ch, 1, acts[q].shape.post)
  {
    var ch2 := [i] + ch;
    assert ch2[1] == q && ch2[..1] == [i];
  }

  /** One level of updatePrescriber past a prescriber that is not at step 0. */
  lemma UpdateHead(acts: seq<Act>, cleared: seq<Act>, r: seq<Act>, next: Option<ActId>,
                   i: ActId, ch: seq<ActId>)
    requires |cleared| == |acts| && |r| == |acts| && i < |acts| && |ch| >= 1
    requires forall m :: 0 <= m < |ch| ==> i < ch[m] < |acts|
    requires cleared == acts[i := acts[i].(prescriber := None)]
    requires acts[ch[0]].step != 0
    requires UpdatedAlong(cleared, r, next, ch)
    ensures UpdatedAlong(acts, r, next, [i] + ch)
  {
    var ch2 := [i] + ch;
    assert i !in ch;
    assert AllPastPreAct(cleared, ch) <==> AllPastPreAct(acts, ch2) by {
      if AllPastPreAct(cleared, ch) {
        forall n | 0 < n < |ch2| ensures acts[ch2[n]].step != 0 {
          assert ch2[n] == ch[n - 1];
        }
      }
      if AllPastPreAct(acts, ch2) {
        forall n | 0 < n < |ch| ensures cleared[ch[n]].step != 0 {
          assert ch[n] == ch2[n + 1];
        }
      }
    }
    if next.None? {
      forall k | 0 <= k < |acts|
        ensures r[k] == if k in ch2 then acts[k].(prescriber := None) else acts[k]
      {
        assert k in ch2 <==> k == i || k in ch;
      }
    } else {
      var n': nat :| AdvancedAt(cleared, r, ch, n', next.value);
      var n := n' + 1;
      assert ch2[n] == ch[n'];
      forall m | 0 < m < n ensures acts[ch2[m]].step != 0 {
        assert ch2[m] == ch[m - 1];
      }
      assert ch2[..n] == [i] + ch[..n'];
      forall k | 0 <= k < |acts|
        ensures r[k] == if k == next.value then acts[k].(prescriber := Some(ch2[n]))
                        else if k == ch2[n] then acts[k].(step := 1)
                        else if k in ch2[..n] then acts[k].(prescriber := None)
                        else acts[k]
      {
        assert k in ch2[..n] <==> k == i || k in ch[..n'];
      }
      assert AdvancedAt(acts, r, ch2, n, next.value);
    }
  }

  // ---------------------------------------------------------------------------
  // terminate

  /** The arena after terminate() on act i: the prescriber is terminated
      first, then i's link is cleared and its step reset to 0. */
  function TerminateState(acts: seq<Act>, i: ActId): (r: seq<Act>)
    requires Structured(acts) && i < |acts|
    ensures Structured(r) && SameActs(acts, r)
    decreases |acts| - i
  {
    var above :=
      match acts[i].prescriber
      case None => acts
      case Some(p) =>
        assert PartOf(acts, i, p);
        SetPrescriber(TerminateState(acts, p), i, None);
    SetStep(above, i, 0)
  }

  /** r is acts with every act on `ch` back at step 0 without a prescriber. */
  ghost predicate ResetAlong(acts: seq<Act>, r: seq<Act>, ch: seq<ActId>)
    requires |r| == |acts|
  {
    forall k :: 0 <= k < |acts| ==>
      r[k] == if k in ch then acts[k].(step := 0, prescriber := None) else acts[k]
  }

  /** terminate() leaves every act on the prescriber chain at step 0 without a
      prescriber, and every other act as it was. */
  lemma {:induction false} TerminateEffect(acts: seq<Act>, i: ActId)
    requires Structured(acts) && i < |acts|
    ensures ResetAlong(acts, TerminateState(acts, i), Chain(acts, i))
    decreases |acts| - i
  {
    match acts[i].prescriber
    case None =>
      assert Chain(acts, i) == [i];
    case Some(p) =>
      assert PartOf(acts, i, p);
      var ch := Chain(acts, p);
      assert Chain(acts, i) == [i] + ch;
      assert i !in ch;
      var t := TerminateState(acts, p);
      assert TerminateState(acts, i) == t[i := t[i].(prescriber := None)][i := t[i].(step := 0, prescriber := None)];
      TerminateEffect(acts, p);
      ResetHead(acts, t, i, ch);
  }

  /** Resetting act i in front of a chain already reset. */
  lemma ResetHead(acts: seq<Act>, t: seq<Act>, i: ActId, ch: seq<ActId>)
    requires |t| == |acts| && i < |acts| && i !in ch
    requires ResetAlong(acts, t, ch)
    ensures ResetAlong(acts, t[i := t[i].(prescriber := None)][i := t[i].(step := 0, prescriber := None)], [i] + ch)
  {
    forall k | 0 <= k < |acts| ensures k in [i] + ch <==> k == i || k in ch { }
  }
}
