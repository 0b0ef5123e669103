/** The acts and schemas that AttentionalSystem steers (interfaces IAct and
    ISchema), and the pure specification of nextAct and spreadActivation.

    Acts and schemas are shared objects that refer to each other, so they
    live in an arena and are named by their index. Their fields fall in two
    groups: the structure that episodic memory builds (an act's schema; a
    schema's context and intention acts, succeeding and failing acts), which nextAct and spreadActivation only read,
    and the control fields those two methods set (an act's prescriber schema
    and activation; a schema's pointer and prescriber act). The arena keeps
    the two groups apart: a Memory and a Control of the same size.

    A composite schema is made of acts of schemas created before it. The
    prescriber schema of an act is a composite schema having the act as its
    context or intention act, and that schema's prescriber act is one of its
    own acts. Every climb along prescribers therefore goes to a later schema
    and ends, and every descent along context acts to an earlier one. */
module Attention {
  import opened Optional

  type NodeId = nat
  type SchemaId = nat

  /** The structure of an IAct: its schema. An act's satisfaction is only
      passed on to episodic memory, whose answer the model takes as given. */
  datatype ActInfo = ActInfo(schema: SchemaId)

  datatype SchemaKind = Primitive | Composite(contextAct: NodeId, intentionAct: NodeId)

  /** The structure of an ISchema: its parts and the acts that report its
      success and its failure. Its weight is read only after episodic memory
      has updated it, so the model takes it from that call's answer
      (Learning.Pass). */
  datatype SchemaInfo = SchemaInfo(kind: SchemaKind, succeedingAct: Option<NodeId>,
                                   failingAct: Option<NodeId>)

  datatype Memory = Memory(acts: seq<ActInfo>, schemas: seq<SchemaInfo>)

  /** The control fields of an IAct. */
  datatype ActControl = ActControl(prescriberSchema: Option<SchemaId>, activation: int)

  /** The control fields of an ISchema: its pointer (0 while its context act
      is being enacted, 1 during its intention act) and its prescriber act. */
  datatype SchemaControl = SchemaControl(pointer: int, prescriberAct: Option<NodeId>)

  datatype Control = Control(acts: seq<ActControl>, schemas: seq<SchemaControl>)

  // ---------------------------------------------------------------------------
  // Invariants

  /** Every reference in the structure is in the arena, and a composite
      schema is made of acts of earlier schemas. */
  ghost predicate Layered(m: Memory) {
    && (forall x :: 0 <= x < |m.acts| ==> m.acts[x].schema < |m.schemas|)
    && (forall s :: 0 <= s < |m.schemas| ==>
          && (m.schemas[s].kind.Composite? ==>
                && m.schemas[s].kind.contextAct < |m.acts|
                && m.schemas[s].kind.intentionAct < |m.acts|
                && m.acts[m.schemas[s].kind.contextAct].schema < s
                && m.acts[m.schemas[s].kind.intentionAct].schema < s)
          && (m.schemas[s].succeedingAct.Some? ==> m.schemas[s].succeedingAct.value < |m.acts|)
          && (m.schemas[s].failingAct.Some? ==> m.schemas[s].failingAct.value < |m.acts|))
  }

  /** The control fields cover exactly the acts and schemas of m. */
  predicate Fits(m: Memory, c: Control) {
    |c.acts| == |m.acts| && |c.schemas| == |m.schemas|
  }

  /** s is a composite schema having act x as its context or intention act. */
  ghost predicate PartOf(m: Memory, x: NodeId, s: SchemaId) {
    s < |m.schemas| && m.schemas[s].kind.Composite? &&
    (m.schemas[s].kind.contextAct == x || m.schemas[s].kind.intentionAct == x)
  }

  /** A schema's prescriber act is one of its own acts; an act's prescriber
      schema has the act as a part and has a prescriber act. */
  ghost predicate Coherent(m: Memory, c: Control) {
    && Layered(m) && Fits(m, c)
    && (forall s :: 0 <= s < |c.schemas| && c.schemas[s].prescriberAct.Some? ==>
          c.schemas[s].prescriberAct.value < |m.acts| &&
          m.acts[c.schemas[s].prescriberAct.value].schema == s)
    && (forall x :: 0 <= x < |c.acts| && c.acts[x].prescriberSchema.Some? ==>
          PartOf(m, x, c.acts[x].prescriberSchema.value) &&
          c.schemas[c.acts[x].prescriberSchema.value].prescriberAct.Some?)
  }

  // ---------------------------------------------------------------------------
  // Field updates

  /** setPrescriberSchema(s) and setActivation(v) on act x. */
  function SetLink(m: Memory, c: Control, x: NodeId, s: Option<SchemaId>, v: int): (r: Control)
    requires Coherent(m, c) && x < |m.acts|
    requires s.Some? ==> PartOf(m, x, s.value) && c.schemas[s.value].prescriberAct.Some?
    ensures Coherent(m, r)
  {
    c.(acts := c.acts[x := ActControl(s, v)])
  }

  /** setPointer(v) on schema s. */
  function SetPointer(m: Memory, c: Control, s: SchemaId, v: int): (r: Control)
    requires Coherent(m, c) && s < |m.schemas|
    ensures Coherent(m, r)
  {
    c.(schemas := c.schemas[s := c.schemas[s].(pointer := v)])
  }

  // ---------------------------------------------------------------------------
  // nextAct

  /** The control fields after nextAct(x, e), and the act it returns. The
      prescribed act x loses its prescriber schema and its activation.
      Without a prescriber schema the hierarchy is complete. If x is the
      enacted act and its prescriber is at its context act, the prescriber
      moves to its intention act, which inherits the prescriber and x's
      activation. If x is the enacted act and the prescriber was at its
      intention act, the prescriber act is resolved against the schema's
      succeeding act; otherwise against its failing act. */
  function NextState(m: Memory, c: Control, x: NodeId, e: Option<NodeId>): (res: (Control, Option<NodeId>))
    requires Coherent(m, c) && x < |m.acts|
    ensures Coherent(m, res.0)
    ensures res.1.Some? ==> res.1.value < |m.acts|
    decreases |m.schemas| - m.acts[x].schema
  {
    var activation := c.acts[x].activation;
    var c1 := SetLink(m, c, x, None, 0);
    match c.acts[x].prescriberSchema
    case None => (c1, None)
    case Some(s) =>
      var p := c.schemas[s].prescriberAct.value;
      if e == Some(x) then
        if c.schemas[s].pointer == 0 then
          var n := m.schemas[s].kind.intentionAct;
          (SetLink(m, SetPointer(m, c1, s, 1), n, Some(s), activation), Some(n))
        else
          NextState(m, c1, p, m.schemas[s].succeedingAct)
      else
        NextState(m, c1, p, m.schemas[s].failingAct)
  }

  /** nextAct without a prescriber schema: x is cleared and null is returned. */
  lemma NextActTop(m: Memory, c: Control, x: NodeId, e: Option<NodeId>)
    requires Coherent(m, c) && x < |m.acts| && c.acts[x].prescriberSchema.None?
    ensures NextState(m, c, x, e).1.None?
    ensures NextState(m, c, x, e).0 == c.(acts := c.acts[x := ActControl(None, 0)])
  {
  }

  /** nextAct on a match at pointer 0: the prescriber moves to pointer 1 and
      its intention act, returned, now has that prescriber and x's
      activation; x is cleared unless it is that intention act, and nothing
      else changes. */
  lemma NextActAdvance(m: Memory, c: Control, x: NodeId)
    requires Coherent(m, c) && x < |m.acts| && c.acts[x].prescriberSchema.Some?
    requires c.schemas[c.acts[x].prescriberSchema.value].pointer == 0
    ensures PartOf(m, x, c.acts[x].prescriberSchema.value)
    ensures NextState(m, c, x, Some(x)).1 ==
      Some(m.schemas[c.acts[x].prescriberSchema.value].kind.intentionAct)
    ensures NextAdvanced(m, c, x, NextState(m, c, x, Some(x)).0)
  {
    assert PartOf(m, x, c.acts[x].prescriberSchema.value);
  }

  /** The control fields after nextAct advanced x's prescriber schema s from
      its context act to its intention act n. */
  ghost predicate NextAdvanced(m: Memory, c: Control, x: NodeId, r: Control)
    requires Coherent(m, c) && x < |m.acts| && c.acts[x].prescriberSchema.Some?
    requires PartOf(m, x, c.acts[x].prescriberSchema.value) && Fits(m, r)
  {
    var s := c.acts[x].prescriberSchema.value;
    var n := m.schemas[s].kind.intentionAct;
    && r.schemas == c.schemas[s := c.schemas[s].(pointer := 1)]
    && r.acts[n] == ActControl(Some(s), c.acts[x].activation)
    && (n != x ==> r.acts[x] == ActControl(None, 0))
    && (forall y :: 0 <= y < |m.acts| && y != x && y != n ==> r.acts[y] == c.acts[y])
  }

  /** nextAct past the prescriber: on a match at pointer 1 the prescriber act
      is resolved against the succeeding act, on a mismatch at any pointer
      against the failing act, once x has been cleared. */
  lemma NextActClimb(m: Memory, c: Control, x: NodeId, e: Option<NodeId>)
    requires Coherent(m, c) && x < |m.acts| && c.acts[x].prescriberSchema.Some?
    ensures ClimbsTo(m, c, x, e)
  {
  }

  /** nextAct(x, e) is nextAct(p, e') on the cleared control fields, where p
      is the prescriber act and e' the succeeding or the failing act. */
  ghost predicate ClimbsTo(m: Memory, c: Control, x: NodeId, e: Option<NodeId>)
    requires Coherent(m, c) && x < |m.acts| && c.acts[x].prescriberSchema.Some?
  {
    var s := c.acts[x].prescriberSchema.value;
    var c1 := SetLink(m, c, x, None, 0);
    var p := c.schemas[s].prescriberAct.value;
    && p < |m.acts| && m.acts[p].schema == s
    && (e == Some(x) && c.schemas[s].pointer != 0 ==>
          NextState(m, c, x, e) == NextState(m, c1, p, m.schemas[s].succeedingAct))
    && (e != Some(x) ==>
          NextState(m, c, x, e) == NextState(m, c1, p, m.schemas[s].failingAct))
  }

  /** Whatever the depth of the climb, an act nextAct returns is the intention
      act of a schema now at pointer 1, and it has that schema as its
      prescriber schema. */
  lemma {:induction false} NextActResult(m: Memory, c: Control, x: NodeId, e: Option<NodeId>)
    requires Coherent(m, c) && x < |m.acts|
    ensures NextState(m, c, x, e).1.Some? ==> ResumesAt(m, NextState(m, c, x, e).0, NextState(m, c, x, e).1.value)
    decreases |m.schemas| - m.acts[x].schema
  {
    match c.acts[x].prescriberSchema
    case None =>
    case Some(s) =>
      assert PartOf(m, x, s);
      var p := c.schemas[s].prescriberAct.value;
      var c1 := SetLink(m, c, x, None, 0);
      if e == Some(x) && c.schemas[s].pointer == 0 {
      } else {
        var e' := if e == Some(x) then m.schemas[s].succeedingAct else m.schemas[s].failingAct;
        assert NextState(m, c, x, e) == NextState(m, c1, p, e');
        NextActResult(m, c1, p, e');
      }
  }

  /** n has a prescriber schema, at pointer 1, whose intention act is n. */
  ghost predicate ResumesAt(m: Memory, r: Control, n: NodeId)
    requires Fits(m, r) && n < |m.acts|
  {
    && r.acts[n].prescriberSchema.Some?
    && var s := r.acts[n].prescriberSchema.value;
       s < |m.schemas| && r.schemas[s].pointer == 1 &&
       m.schemas[s].kind.Composite? && m.schemas[s].kind.intentionAct == n
  }

  /** The act nextAct was called on is left cleared unless it is returned. */
  lemma NextActClears(m: Memory, c: Control, x: NodeId, e: Option<NodeId>)
    requires Coherent(m, c) && x < |m.acts|
    ensures NextState(m, c, x, e).1 != Some(x) ==> NextState(m, c, x, e).0.acts[x] == ActControl(None, 0)
  {
    match c.acts[x].prescriberSchema
    case None =>
    case Some(s) =>
      assert PartOf(m, x, s);
      var p := c.schemas[s].prescriberAct.value;
      var c1 := SetLink(m, c, x, None, 0);
      if e == Some(x) && c.schemas[s].pointer == 0 {
      } else {
        var e' := if e == Some(x) then m.schemas[s].succeedingAct else m.schemas[s].failingAct;
        assert NextState(m, c, x, e) == NextState(m, c1, p, e');
        NextActKeeps(m, c1, p, e', x);
      }
  }

  /** An act of a schema earlier than the climb's starting act's, that is
      not returned, keeps its control fields: the climb only touches acts of
      later schemas. */
  lemma {:induction false} NextActKeeps(m: Memory, c: Control, x: NodeId, e: Option<NodeId>, y: NodeId)
    requires Coherent(m, c) && x < |m.acts| && y < |m.acts|
    requires m.acts[y].schema < m.acts[x].schema
    ensures NextState(m, c, x, e).1 != Some(y) ==> NextState(m, c, x, e).0.acts[y] == c.acts[y]
    decreases |m.schemas| - m.acts[x].schema
  {
    match c.acts[x].prescriberSchema
    case None =>
    case Some(s) =>
      assert PartOf(m, x, s);
      var p := c.schemas[s].prescriberAct.value;
      var c1 := SetLink(m, c, x, None, 0);
      if e == Some(x) && c.schemas[s].pointer == 0 {
      } else {
        var e' := if e == Some(x) then m.schemas[s].succeedingAct else m.schemas[s].failingAct;
        assert NextState(m, c, x, e) == NextState(m, c1, p, e');
        NextActKeeps(m, c1, p, e', y);
      }
  }

  // ---------------------------------------------------------------------------
  // spreadActivation

  /** The acts spreadActivation passes through: the act, the context act of
      its schema, that act's schema's context act, and so on down to an act
      of a primitive schema. */
  function Descent(m: Memory, a: NodeId): (d: seq<NodeId>)
    requires Layered(m) && a < |m.acts|
    ensures |d| >= 1 && d[0] == a
    ensures forall n :: 0 <= n < |d| ==> d[n] < |m.acts|
    decreases m.acts[a].schema
  {
    match m.schemas[m.acts[a].schema].kind
    case Primitive => [a]
    case Composite(ctx, _) => [a] + Descent(m, ctx)
  }

  /** The descent goes down to schemas earlier than a's and ends at an act
      of a primitive schema. */
  lemma {:induction false} DescentShape(m: Memory, a: NodeId)
    requires Layered(m) && a < |m.acts|
    ensures forall n :: 0 < n < |Descent(m, a)| ==> m.acts[Descent(m, a)[n]].schema < m.acts[a].schema
    ensures m.schemas[m.acts[Descent(m, a)[|Descent(m, a)| - 1]].schema].kind.Primitive?
    decreases m.acts[a].schema
  {
    var s := m.acts[a].schema;
    if m.schemas[s].kind.Composite? {
      var ctx := m.schemas[s].kind.contextAct;
      DescentShape(m, ctx);
      var d := Descent(m, ctx);
      assert Descent(m, a) == [a] + d;
      forall n | 0 < n < |d| + 1 ensures ([a] + d)[n] == d[n - 1] { }
    }
  }

  /** Each act of the descent but the last is of a composite schema whose
      context act is the next act of the descent. */
  lemma {:induction false} DescentStep(m: Memory, a: NodeId, n: nat)
    requires Layered(m) && a < |m.acts| && n + 1 < |Descent(m, a)|
    ensures m.schemas[m.acts[Descent(m, a)[n]].schema].kind.Composite?
    ensures m.schemas[m.acts[Descent(m, a)[n]].schema].kind.contextAct == Descent(m, a)[n + 1]
    decreases m.acts[a].schema
  {
    if n > 0 {
      DescentStep(m, m.schemas[m.acts[a].schema].kind.contextAct, n - 1);
    }
  }

  /** One level of spreadActivation at the composite act a: its schema gets
      a as prescriber act and pointer 0, and its context act gets that
      schema as prescriber schema and a's activation. */
  function SpreadLevel(m: Memory, c: Control, a: NodeId): (r: Control)
    requires Layered(m) && Fits(m, c) && a < |m.acts|
    requires m.schemas[m.acts[a].schema].kind.Composite?
    ensures Fits(m, r)
  {
    var s := m.acts[a].schema;
    var ctx := m.schemas[s].kind.contextAct;
    Control(c.acts[ctx := ActControl(Some(s), c.acts[a].activation)],
            c.schemas[s := SchemaControl(0, Some(a))])
  }

  /** The control fields after spreadActivation(a), and the act it returns. */
  function SpreadState(m: Memory, c: Control, a: NodeId): (res: (Control, NodeId))
    requires Layered(m) && Fits(m, c) && a < |m.acts|
    ensures Fits(m, res.0) && res.1 < |m.acts|
    decreases m.acts[a].schema
  {
    var s := m.acts[a].schema;
    match m.schemas[s].kind
    case Primitive => (c.(schemas := c.schemas[s := c.schemas[s].(prescriberAct := Some(a))]), a)
    case Composite(ctx, _) => SpreadState(m, SpreadLevel(m, c, a), ctx)
  }

  /** spreadActivation returns the act at the bottom of the descent, an act
      of a primitive schema. */
  lemma {:induction false} SpreadResult(m: Memory, c: Control, a: NodeId)
    requires Layered(m) && Fits(m, c) && a < |m.acts|
    ensures SpreadState(m, c, a).1 == Descent(m, a)[|Descent(m, a)| - 1]
    decreases m.acts[a].schema
  {
    var s := m.acts[a].schema;
    match m.schemas[s].kind
    case Primitive =>
    case Composite(ctx, _) =>
      var d := Descent(m, ctx);
      assert Descent(m, a) == [a] + d;
      SpreadResult(m, SpreadLevel(m, c, a), ctx);
  }

  /** spreadActivation from a changes no act of a's schema or a later one,
      and no schema later than a's. */
  lemma {:induction false} SpreadAbove(m: Memory, c: Control, a: NodeId, y: NodeId, t: SchemaId)
    requires Layered(m) && Fits(m, c) && a < |m.acts| && y < |m.acts| && t < |m.schemas|
    ensures m.acts[y].schema >= m.acts[a].schema ==> SpreadState(m, c, a).0.acts[y] == c.acts[y]
    ensures t > m.acts[a].schema ==> SpreadState(m, c, a).0.schemas[t] == c.schemas[t]
    decreases m.acts[a].schema
  {
    var s := m.acts[a].schema;
    match m.schemas[s].kind
    case Primitive =>
    case Composite(ctx, _) =>
      SpreadAbove(m, SpreadLevel(m, c, a), ctx, y, t);
  }

  /** spreadActivation changes no act off the descent. */
  lemma {:induction false} SpreadOffActs(m: Memory, c: Control, a: NodeId, y: NodeId)
    requires Layered(m) && Fits(m, c) && a < |m.acts| && y < |m.acts| && y !in Descent(m, a)
    ensures SpreadState(m, c, a).0.acts[y] == c.acts[y]
    decreases m.acts[a].schema
  {
    var s := m.acts[a].schema;
    match m.schemas[s].kind
    case Primitive =>
    case Composite(ctx, _) =>
      assert Descent(m, a) == [a] + Descent(m, ctx);
      SpreadOffActs(m, SpreadLevel(m, c, a), ctx, y);
  }

  /** spreadActivation changes no schema but those of the acts of the descent. */
  lemma {:induction false} SpreadOffSchemas(m: Memory, c: Control, a: NodeId, t: SchemaId)
    requires Layered(m) && Fits(m, c) && a < |m.acts| && t < |m.schemas|
    requires forall n :: 0 <= n < |Descent(m, a)| ==> m.acts[Descent(m, a)[n]].schema != t
    ensures SpreadState(m, c, a).0.schemas[t] == c.schemas[t]
    decreases m.acts[a].schema
  {
    var s := m.acts[a].schema;
    assert m.acts[Descent(m, a)[0]].schema != t;
    match m.schemas[s].kind
    case Primitive =>
    case Composite(ctx, _) =>
      var d := Descent(m, ctx);
      assert Descent(m, a) == [a] + d;
      forall n | 0 <= n < |d| ensures m.acts[d[n]].schema != t {
        assert Descent(m, a)[n + 1] == d[n];
      }
      SpreadOffSchemas(m, SpreadLevel(m, c, a), ctx, t);
  }

  /** The n-th act of the descent d in r: its schema has it as prescriber
      act, and is at pointer 0 unless the act is the last of d; below the
      first act, it has the schema of the act above it as prescriber schema
      and the first act's activation in c. */
  ghost predicate PrescribedAt(m: Memory, c: Control, r: Control, d: seq<NodeId>, n: nat)
    requires Layered(m) && Fits(m, c) && Fits(m, r)
    requires n < |d| && forall k :: 0 <= k < |d| ==> d[k] < |m.acts|
  {
    && r.schemas[m.acts[d[n]].schema].prescriberAct == Some(d[n])
    && (n < |d| - 1 ==> r.schemas[m.acts[d[n]].schema].pointer == 0)
    && (n > 0 ==> r.acts[d[n]] == ActControl(Some(m.acts[d[n - 1]].schema), c.acts[d[0]].activation))
  }

  /** After spreadActivation(a), every act of the descent from a is
      prescribed as PrescribedAt says. */
  lemma {:induction false} SpreadAt(m: Memory, c: Control, a: NodeId, n: nat)
    requires Layered(m) && Fits(m, c) && a < |m.acts| && n < |Descent(m, a)|
    ensures PrescribedAt(m, c, SpreadState(m, c, a).0, Descent(m, a), n)
    decreases m.acts[a].schema
  {
    var s := m.acts[a].schema;
    match m.schemas[s].kind
    case Primitive =>
    case Composite(ctx, _) =>
      var c3 := SpreadLevel(m, c, a);
      var d := Descent(m, ctx);
      assert Descent(m, a) == [a] + d;
      if n == 0 {
        SpreadAbove(m, c3, ctx, a, s);
      } else {
        SpreadAt(m, c3, ctx, n - 1);
        assert Descent(m, a)[n] == d[n - 1];
        if n == 1 {
          SpreadAbove(m, c3, ctx, ctx, s);
        } else {
          assert Descent(m, a)[n - 1] == d[n - 2];
        }
      }
  }

  /** spreadActivation keeps the control fields coherent: a schema it
      prescribes gets one of its own acts as prescriber act before its
      context act gets it as prescriber schema. */
  lemma {:induction false} SpreadCoherent(m: Memory, c: Control, a: NodeId)
    requires Coherent(m, c) && a < |m.acts|
    ensures Coherent(m, SpreadState(m, c, a).0)
    decreases m.acts[a].schema
  {
    var s := m.acts[a].schema;
    match m.schemas[s].kind
    case Primitive =>
    case Composite(ctx, _) =>
      var c3 := SpreadLevel(m, c, a);
      assert PartOf(m, ctx, s);
      assert Coherent(m, c3);
      SpreadCoherent(m, c3, ctx);
  }
}
