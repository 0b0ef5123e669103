/** AttentionalSystem: the controller that keeps the working-memory lists,
    follows the current intention through its hierarchy of schemas, asks
    episodic memory to learn when a decision cycle ends and chooses the next
    primitive intention.

    The structure of acts and schemas (Memory) belongs to episodic memory and
    is fixed for the life of the object here; the control fields of the acts
    and schemas (Control) are changed in place by nextAct and
    spreadActivation. Episodic memory's answers during a step (the enacted
    act it constructs, the failing act it adds, what record returns and the
    act it selects) come in as an Answers value, and the record calls the
    step makes are logged in order. */
module Attentional {
  import opened Optional
  import opened Attention
  import opened WorkingMemory
  import opened Selection
  import opened Learning

  /** The answers of episodic memory and of the random generator during one
      step. */
  datatype Answers = Answers(
    enacted: Option<NodeId>,  // enactedAct(primitive intention's schema, primitive enaction)
    failing: NodeId,          // addFailingInteraction(intended schema, satisfaction)
    first: Pass,              // record(context list, performed act)
    second: Pass,             // record(context list, enacted act)
    choice: NodeId,           // episodic memory's selectAct(activation list)
    draw: nat)                // m_rand.nextInt in selectAct

  /** Every act the answers name is in the arena. */
  predicate AnswersFit(m: Memory, ans: Answers) {
    && (ans.enacted.Some? ==> ans.enacted.value < |m.acts|)
    && ans.failing < |m.acts| && ans.choice < |m.acts|
    && (forall i :: 0 <= i < |ans.first.stream| ==> ans.first.stream[i] < |m.acts|)
  }

  /** The intention act of act x's schema, when that schema is composite. */
  function IntentionOf(m: Memory, x: NodeId): (r: Option<NodeId>)
    requires Layered(m) && x < |m.acts|
    ensures r.Some? <==> m.schemas[m.acts[x].schema].kind.Composite?
    ensures r.Some? ==> r.value < |m.acts|
  {
    match m.schemas[m.acts[x].schema].kind
    case Primitive => None
    case Composite(_, i) => Some(i)
  }

  /** The control fields and the next sub-intention after nextAct on the
      primitive intention, if there is one. */
  function Resume(m: Memory, c: Control, primitive: Option<NodeId>, enaction: Option<NodeId>)
    : (res: (Control, Option<NodeId>))
    requires Coherent(m, c) && (primitive.Some? ==> primitive.value < |m.acts|)
    ensures Coherent(m, res.0) && (res.1.Some? ==> res.1.value < |m.acts|)
  {
    if primitive.None? then (c, None) else NextState(m, c, primitive.value, enaction)
  }

  class AttentionalSystem {
    const memory: Memory
    /** Ernest.ACTIVATION_THRESH, whose value is not part of this model. */
    const activationThresh: int
    var control: Control

    var contextList: seq<NodeId>
    var baseContextList: seq<NodeId>
    var activationList: seq<NodeId>
    /** m_intentionAct: the decided intention. */
    var intentionAct: Option<NodeId>
    /** m_primitiveIntention: the primitive act intended in the current loop. */
    var primitiveIntention: Option<NodeId>
    /** The calls to episodic memory's record, in order. */
    var recorded: seq<Record>

    ghost predicate Valid()
      reads this
    {
      && Coherent(memory, control)
      && (forall i :: 0 <= i < |contextList| ==> contextList[i] < |memory.acts|)
      && (forall i :: 0 <= i < |baseContextList| ==> baseContextList[i] < |memory.acts|)
      && NoDup(contextList) && NoDup(activationList)
      && (forall x :: x in activationList ==> x in contextList)
      && (intentionAct.Some? ==> intentionAct.value < |memory.acts|)
      && (primitiveIntention.Some? ==> primitiveIntention.value < |memory.acts| && intentionAct.Some?)
    }

    constructor (m: Memory, c: Control, thresh: int)
      requires Coherent(m, c)
      ensures Valid()
      ensures memory == m && control == c && activationThresh == thresh
      ensures contextList == [] && baseContextList == [] && activationList == []
      ensures intentionAct.None? && primitiveIntention.None? && recorded == []
    {
      memory := m;
      activationThresh := thresh;
      control := c;
      contextList := [];
      baseContextList := [];
      activationList := [];
      intentionAct := None;
      primitiveIntention := None;
      recorded := [];
    }

    /** addContextList: each act of the list, in order, joins the context
        list unless it is there already. */
    method AddContextList(actList: seq<NodeId>)
      requires Valid() && forall i :: 0 <= i < |actList| ==> actList[i] < |memory.acts|
      modifies this
      ensures Valid()
      ensures contextList == AppendNew(old(contextList), actList)
      ensures unchanged(this`control, this`baseContextList, this`activationList, this`intentionAct,
                        this`primitiveIntention, this`recorded)
    {
      ghost var start := contextList;
      var i := 0;
      while i < |actList|
        invariant 0 <= i <= |actList|
        invariant contextList == AppendNew(start, actList[..i])
        invariant Valid()
        invariant unchanged(this`control, this`baseContextList, this`activationList, this`intentionAct,
                            this`primitiveIntention, this`recorded)
      {
        var act := actList[i];
        assert actList[..i + 1][..i] == actList[..i];
        if act !in contextList {
          contextList := contextList + [act];
        }
        i := i + 1;
      }
      assert actList[..|actList|] == actList;
    }

    /** addActivationAct: a non-null act joins the context list and the
        activation list, each unless it is there already. */
    method AddActivationAct(act: Option<NodeId>)
      requires Valid() && (act.Some? ==> act.value < |memory.acts|)
      modifies this
      ensures Valid()
      ensures (contextList, activationList) == AddActivation(old(contextList), old(activationList), act)
      ensures unchanged(this`control, this`baseContextList, this`intentionAct, this`primitiveIntention, this`recorded)
    {
      AddActivationSpec(contextList, activationList, act);
      var context, activation := contextList, activationList;
      if act.Some? {
        if act.value !in context {
          context := context + [act.value];
        }
        if act.value !in activation {
          activation := activation + [act.value];
        }
      }
      contextList, activationList := context, activation;
    }

    /** shiftDecisionCycle: the context list becomes the base context list,
        and the lists are reseeded from the enacted act, the performed act,
        the enacted act's intention act and the stream list. */
    method ShiftDecisionCycle(enacted: NodeId, performed: NodeId, stream: seq<NodeId>)
      requires Valid() && enacted < |memory.acts| && performed < |memory.acts|
      requires forall i :: 0 <= i < |stream| ==> stream[i] < |memory.acts|
      modifies this
      ensures Valid()
      ensures (baseContextList, contextList, activationList)
           == Shift(old(contextList), enacted, performed, IntentionOf(memory, enacted), stream)
      ensures unchanged(this`control, this`intentionAct, this`primitiveIntention, this`recorded)
    {
      baseContextList := contextList;
      contextList := [];
      activationList := [];
      AddActivationAct(Some(enacted));
      if enacted != performed {
        AddActivationAct(Some(performed));
      }
      AddActivationAct(IntentionOf(memory, enacted));
      AddContextList(stream);
    }

    /** nextAct, changing the control fields in place. */
    method NextAct(prescribed: NodeId, enacted: Option<NodeId>) returns (next: Option<NodeId>)
      requires Valid() && prescribed < |memory.acts|
      modifies this
      ensures Valid()
      ensures (control, next) == NextState(memory, old(control), prescribed, enacted)
      ensures unchanged(this`contextList, this`baseContextList, this`activationList, this`intentionAct,
                        this`primitiveIntention, this`recorded)
      decreases |memory.schemas| - memory.acts[prescribed].schema
    {
      var prescriberSchema := control.acts[prescribed].prescriberSchema;
      var activation := control.acts[prescribed].activation;
      control := SetLink(memory, control, prescribed, None, 0);
      if prescriberSchema.None? {
        next := None;
      } else {
        var s := prescriberSchema.value;
        assert PartOf(memory, prescribed, s);
        var prescriberAct := control.schemas[s].prescriberAct.value;
        if enacted == Some(prescribed) {
          if control.schemas[s].pointer == 0 {
            control := SetPointer(memory, control, s, 1);
            var n := memory.schemas[s].kind.intentionAct;
            control := SetLink(memory, control, n, Some(s), activation);
            next := Some(n);
          } else {
            next := NextAct(prescriberAct, memory.schemas[s].succeedingAct);
          }
        } else {
          next := NextAct(prescriberAct, memory.schemas[s].failingAct);
        }
      }
    }

    /** spreadActivation, changing the control fields in place. */
    method SpreadActivation(a: NodeId) returns (primitiveAct: NodeId)
      requires Valid() && a < |memory.acts|
      modifies this
      ensures Valid()
      ensures (control, primitiveAct) == SpreadState(memory, old(control), a)
      ensures unchanged(this`contextList, this`baseContextList, this`activationList, this`intentionAct,
                        this`primitiveIntention, this`recorded)
      decreases memory.acts[a].schema
    {
      SpreadCoherent(memory, control, a);
      var s := memory.acts[a].schema;
      if memory.schemas[s].kind.Primitive? {
        control := control.(schemas := control.schemas[s := control.schemas[s].(prescriberAct := Some(a))]);
        primitiveAct := a;
      } else {
        var subact := memory.schemas[s].kind.contextAct;
        control := Control(control.acts[subact := ActControl(Some(s), control.acts[a].activation)],
                           control.schemas[s := SchemaControl(0, Some(a))]);
        assert PartOf(memory, subact, s);
        primitiveAct := SpreadActivation(subact);
      }
    }

    /** The learning part of step, once the enaction of an intention is
        over: the performed act is the enacted act if it belongs to the
        intended schema and the failing act otherwise; it is learned, then
        the enacted act if it differs, each followed by its cascade on the
        base context list; then the decision cycle shifts. */
    method Learn(e: NodeId, ans: Answers)
      requires Valid() && AnswersFit(memory, ans) && ans.enacted == Some(e) && intentionAct.Some?
      modifies this
      ensures Valid()
      ensures Learned(old(contextList), old(baseContextList), old(recorded), old(intentionAct).value, ans)
      ensures unchanged(this`control, this`intentionAct, this`primitiveIntention)
    {
      var intendedSchema := memory.acts[intentionAct.value].schema;
      var performed := if intendedSchema == memory.acts[e].schema then e else ans.failing;
      var log := [Record(Current, contextList, performed)];
      if |ans.first.stream| > 0 {
        var streamAct := ans.first.stream[0];
        if ans.first.weight > activationThresh {
          log := log + [Record(Base, baseContextList, streamAct)];
        }
      }
      if e != performed {
        ghost var firstPass := log;
        log := log + [Record(Current, contextList, e)];
        if |ans.second.stream| > 0 {
          var streamAct := ans.second.stream[0];
          if ans.second.weight > activationThresh {
            log := log + [Record(Base, baseContextList, streamAct)];
          }
        }
        assert log == firstPass + ([Record(Current, contextList, e)] + Cascade(baseContextList, ans.second, activationThresh));
      }
      assert log == LearningCalls(contextList, baseContextList, e, performed, ans.first, ans.second, activationThresh);
      recorded := recorded + log;
      ShiftDecisionCycle(e, performed, ans.first.stream);
    }

    /** The first part of step: nextAct on the primitive intention, if there
        is one, gives the ongoing intention; none means the enaction of the
        decided intention is over. */
    method FollowUp(primitiveEnaction: Option<NodeId>) returns (intention: Option<NodeId>)
      requires Valid() && (primitiveEnaction.Some? ==> primitiveEnaction.value < |memory.acts|)
      modifies this
      ensures Valid()
      ensures (control, intention) == Resume(memory, old(control), primitiveIntention, primitiveEnaction)
      ensures unchanged(this`contextList, this`baseContextList, this`activationList, this`intentionAct,
                        this`primitiveIntention, this`recorded)
    {
      intention := None;
      if primitiveIntention.Some? {
        intention := NextAct(primitiveIntention.value, primitiveEnaction);
      }
    }

    /** The last part of step: spread the intention down to its primitive
        act, select it and make it the primitive intention; its schema is
        primitive. */
    method Enact(intention: NodeId, draw: nat) returns (schema: SchemaId)
      requires Valid() && intention < |memory.acts| && intentionAct.Some?
      modifies this
      ensures Valid()
      ensures control == SpreadState(memory, old(control), intention).0
      ensures primitiveIntention == Some(SpreadState(memory, old(control), intention).1)
      ensures schema == memory.acts[primitiveIntention.value].schema
      ensures memory.schemas[schema].kind.Primitive?
      ensures unchanged(this`contextList, this`baseContextList, this`activationList, this`intentionAct, this`recorded)
    {
      var activePrimitiveAct := SpreadActivation(intention);
      SpreadResult(memory, old(control), intention);
      DescentShape(memory, intention);
      var nextPrimitiveAct := SelectAct(control, [activePrimitiveAct], draw);
      primitiveIntention := Some(nextPrimitiveAct);
      schema := memory.acts[nextPrimitiveAct].schema;
    }

    /** step: follow up the current enaction; when it is over, learn and
        shift the context; when there is no ongoing intention, take the one
        episodic memory selects; spread it down to a primitive act and make
        that the next primitive intention, whose schema is returned. */
    method Step(primitiveEnaction: Option<NodeId>, ans: Answers) returns (schema: SchemaId)
      requires Valid() && AnswersFit(memory, ans)
      requires primitiveEnaction.Some? ==> primitiveEnaction.value < |memory.acts|
      modifies this
      ensures Valid()
      ensures Learns(old(primitiveIntention), Resume(memory, old(control), old(primitiveIntention), primitiveEnaction).1, ans)
          ==> Learned(old(contextList), old(baseContextList), old(recorded), old(intentionAct).value, ans)
      ensures !Learns(old(primitiveIntention), Resume(memory, old(control), old(primitiveIntention), primitiveEnaction).1, ans)
          ==> contextList == old(contextList) && baseContextList == old(baseContextList)
              && activationList == old(activationList) && recorded == old(recorded)
      ensures intentionAct == Decided(old(intentionAct), Resume(memory, old(control), old(primitiveIntention), primitiveEnaction).1, ans)
      ensures control == SpreadState(memory, Resume(memory, old(control), old(primitiveIntention), primitiveEnaction).0,
                                     Top(Resume(memory, old(control), old(primitiveIntention), primitiveEnaction).1, ans)).0
      ensures primitiveIntention == Some(SpreadState(memory, Resume(memory, old(control), old(primitiveIntention), primitiveEnaction).0,
                                                     Top(Resume(memory, old(control), old(primitiveIntention), primitiveEnaction).1, ans)).1)
      ensures schema == memory.acts[primitiveIntention.value].schema
      ensures memory.schemas[schema].kind.Primitive?
    {
      var enacted: Option<NodeId> := None;
      if primitiveIntention.Some? {
        enacted := ans.enacted;
      }
      var intention := FollowUp(primitiveEnaction);
      if intention.None? && enacted.Some? {
        Learn(enacted.value, ans);
      }
      if intention.None? {
        intention := Some(ans.choice);
        intentionAct := intention;
      }
      schema := Enact(intention.value, ans.draw);
    }

    /** What the learning part of step leaves: the record calls it made,
        with the performed act the intended schema decides, and the lists
        shifted to the next decision cycle. */
    ghost predicate Learned(context: seq<NodeId>, base: seq<NodeId>, calls: seq<Record>,
                            intended: NodeId, ans: Answers)
      requires Layered(memory) && AnswersFit(memory, ans) && ans.enacted.Some? && intended < |memory.acts|
      reads this
    {
      var e := ans.enacted.value;
      var performed := if memory.acts[intended].schema == memory.acts[e].schema then e else ans.failing;
      && recorded == calls + LearningCalls(context, base, e, performed, ans.first, ans.second, activationThresh)
      && (baseContextList, contextList, activationList) == Shift(context, e, performed, IntentionOf(memory, e), ans.first.stream)
    }
  }

  /** step learns when there was a primitive intention, episodic memory
      constructed the enacted act and nextAct found no ongoing intention. */
  predicate Learns(primitive: Option<NodeId>, resumed: Option<NodeId>, ans: Answers) {
    primitive.Some? && ans.enacted.Some? && resumed.None?
  }

  /** The decided intention after step: kept while an intention is ongoing,
      otherwise the act episodic memory selects. */
  function Decided(intention: Option<NodeId>, resumed: Option<NodeId>, ans: Answers): (r: Option<NodeId>)
    ensures r.Some? || (resumed.Some? && intention.None?)
  {
    if resumed.Some? then intention else Some(ans.choice)
  }

  /** The act step spreads activation from: the ongoing intention, or the
      newly selected one. */
  function Top(resumed: Option<NodeId>, ans: Answers): NodeId {
    if resumed.Some? then resumed.value else ans.choice
  }
}
