/** The static registry ACTS of ActImpl and the acts' execution fields, as a
    class whose state is the arena of acts and the map from key to act.

    createOrGetPrimitiveAct and createOrGetCompositeAct intern an act under
    its key; prescribe, updatePrescriber and terminate change the fields
    m_step and m_prescriber of the acts in place. Each method is proved to
    leave the state that the matching function of modules Acts and
    Prescription describes, and the lemmas of those modules say what that
    state is. */
module Registry {
  import opened Optional
  import opened Acts
  import opened Prescription

  class ActRegistry {
    /** Every act created so far, in order of creation (the order in which
        the eca version's LinkedHashMap lists them). */
    var acts: seq<Act>
    /** ACTS: from key to act. */
    var index: map<string, ActId>

    ghost predicate Valid()
      reads this
    {
      WellFormed(acts) && Indexed(acts, index)
    }

    constructor ()
      ensures Valid() && acts == [] && index == map[]
    {
      acts := [];
      index := map[];
    }

    /** createOrGetPrimitiveAct */
    method CreateOrGetPrimitiveAct(interaction: Interaction, area: Area) returns (r: ActId)
      requires Valid()
      modifies this
      ensures Valid()
      ensures (acts, index, r) == Intern(old(acts), old(index), NewPrimitive(interaction, area))
    {
      InternPrimitive(acts, index, interaction, area);
      var key := PrimitiveKey(interaction, area);
      if key !in index {
        index := index[key := |acts|];
        acts := acts + [NewPrimitive(interaction, area)];
      }
      r := index[key];
    }

    /** createOrGetCompositeAct */
    method CreateOrGetCompositeAct(pre: ActId, post: ActId) returns (r: ActId)
      requires Valid() && pre < |acts| && post < |acts|
      modifies this
      ensures Valid()
      ensures (acts, index, r) == Intern(old(acts), old(index), NewComposite(old(acts), pre, post))
    {
      InternComposite(acts, index, pre, post);
      var candidate := NewComposite(acts, pre, post);
      if candidate.key !in index {
        index := index[candidate.key := |acts|];
        acts := acts + [candidate];
      }
      r := index[candidate.key];
    }

    /** prescribe: returns the primitive act to enact first. */
    method Prescribe(i: ActId) returns (r: ActId)
      requires Valid() && i < |acts|
      modifies this
      ensures Valid() && index == old(index)
      ensures acts == PrescribeState(old(acts), i)
      ensures r == Prescribed(old(acts), i)
      decreases i
    {
      match acts[i].shape
      case Atomic(_, _) =>
        r := i;
      case Composite(pre, _) =>
        ghost var before := acts;
        acts := SetPrescriber(SetStep(acts, i, 0), pre, Some(i));
        ExecutionFrame(before, acts, index);
        LeftSpineFrame(before, acts, pre);
        r := Prescribe(pre);
    }

    /** updatePrescriber: consumes act i's prescriber link and returns the act
        to prescribe next, if any. */
    method UpdatePrescriber(i: ActId) returns (next: Option<ActId>)
      requires Valid() && i < |acts|
      modifies this
      ensures Valid() && index == old(index)
      ensures (acts, next) == UpdateState(old(acts), i)
      decreases |acts| - i
    {
      ghost var before := acts;
      var prescriber := acts[i].prescriber;
      acts := SetPrescriber(acts, i, None);
      ExecutionFrame(before, acts, index);
      match prescriber
      case None =>
        next := None;
      case Some(q) =>
        assert PartOf(before, i, q);
        var step := acts[q].step;
        if step == 0 {
          ghost var cleared := acts;
          acts := SetStep(acts, q, step + 1);
          var post := acts[q].shape.post;
          acts := SetPrescriber(acts, post, Some(q));
          ExecutionFrame(cleared, acts, index);
          next := Some(post);
        } else {
          next := UpdatePrescriber(q);
        }
    }

    /** terminate: resets act i and, first, every prescriber above it. */
    method Terminate(i: ActId)
      requires Valid() && i < |acts|
      modifies this
      ensures Valid() && index == old(index)
      ensures acts == TerminateState(old(acts), i)
      decreases |acts| - i
    {
      if acts[i].prescriber.Some? {
        var p := acts[i].prescriber.value;
        assert PartOf(acts, i, p);
        Terminate(p);
        ghost var above := acts;
        acts := SetPrescriber(acts, i, None);
        ExecutionFrame(above, acts, index);
      }
      ghost var reset := acts;
      acts := SetStep(acts, i, 0);
      ExecutionFrame(reset, acts, index);
    }
  }

  /** Changing only the execution fields keeps the registry valid. */
  lemma ExecutionFrame(a: seq<Act>, b: seq<Act>, index: map<string, ActId>)
    requires WellFormed(a) && Indexed(a, index) && Structured(b) && SameActs(a, b)
    ensures WellFormed(b) && Indexed(b, index)
  {
    WellFormedFrame(a, b);
  }
}
