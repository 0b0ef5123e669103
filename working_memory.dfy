/** The working-memory lists of AttentionalSystem (the context list, the
    activation list and the base context list) and the pure specification of
    the operations that fill them: addContextList, addActivationAct and
    shiftDecisionCycle. Acts are compared by identity, so an act is its
    arena index. */
module WorkingMemory {
  import opened Optional
  import opened Attention

  predicate NoDup(s: seq<NodeId>) {
    forall i, j :: 0 <= i < j < |s| ==> s[i] != s[j]
  }

  /** `if (!list.contains(act)) list.add(act)` */
  function Add(list: seq<NodeId>, a: NodeId): (r: seq<NodeId>)
    ensures a in r
    ensures NoDup(list) ==> NoDup(r)
    ensures |list| <= |r| <= |list| + 1 && r[..|list|] == list
    ensures forall x :: x in r <==> x in list || x == a
  {
    if a in list then list else list + [a]
  }

  /** addContextList: each act of `acts`, in order, appended unless present. */
  function AppendNew(list: seq<NodeId>, acts: seq<NodeId>): seq<NodeId>
    decreases |acts|
  {
    if acts == [] then list else Add(AppendNew(list, acts[..|acts| - 1]), acts[|acts| - 1])
  }

  /** addContextList keeps the list as it was at the front, adds exactly the
      acts of `acts` that were missing and never creates a duplicate. */
  lemma {:induction false} AppendNewSpec(list: seq<NodeId>, acts: seq<NodeId>)
    ensures var r := AppendNew(list, acts);
      && |list| <= |r| <= |list| + |acts| && r[..|list|] == list
      && (forall x :: x in r <==> x in list || x in acts)
      && (NoDup(list) ==> NoDup(r))
    decreases |acts|
  {
    if acts != [] {
      var front := acts[..|acts| - 1];
      AppendNewSpec(list, front);
      var r0 := AppendNew(list, front);
      assert r0[..|list|] == list;
      assert forall x :: x in acts <==> x in front || x == acts[|acts| - 1];
      var r := Add(r0, acts[|acts| - 1]);
      assert r[..|r0|] == r0;
      assert r[..|list|] == r0[..|list|];
    }
  }

  /** Appending acts that are all present already changes nothing. */
  lemma {:induction false} AppendNewPresent(list: seq<NodeId>, acts: seq<NodeId>)
    requires forall x :: x in acts ==> x in list
    ensures AppendNew(list, acts) == list
    decreases |acts|
  {
    if acts != [] {
      AppendNewPresent(list, acts[..|acts| - 1]);
    }
  }

  /** Adding the same acts a second time changes nothing. */
  lemma AppendNewIdempotent(list: seq<NodeId>, acts: seq<NodeId>)
    ensures AppendNew(AppendNew(list, acts), acts) == AppendNew(list, acts)
  {
    AppendNewSpec(list, acts);
    AppendNewPresent(AppendNew(list, acts), acts);
  }

  /** addActivationAct: a non-null act goes into both lists, each unless present. */
  function AddActivation(context: seq<NodeId>, activation: seq<NodeId>, a: Option<NodeId>)
    : (seq<NodeId>, seq<NodeId>)
  {
    match a
    case None => (context, activation)
    case Some(x) => (Add(context, x), Add(activation, x))
  }

  /** addActivationAct ignores null; otherwise the act ends up in both lists,
      which keep their order and gain no duplicate. */
  lemma AddActivationSpec(context: seq<NodeId>, activation: seq<NodeId>, a: Option<NodeId>)
    requires NoDup(context) && NoDup(activation)
    ensures var (c, v) := AddActivation(context, activation, a);
      && NoDup(c) && NoDup(v)
      && (a.None? ==> c == context && v == activation)
      && (a.Some? ==> a.value in c && a.value in v)
      && c[..|context|] == context && v[..|activation|] == activation
      && (forall x :: x in c <==> x in context || a == Some(x))
      && (forall x :: x in v <==> x in activation || a == Some(x))
  {
  }

  /** The lists after shiftDecisionCycle, as (base context, context, activation):
      the old context list becomes the base context list; the activation list
      is rebuilt from the enacted act, the performed act if it is another
      object, and the intention of the enacted act when that act is composite;
      the stream context list is then added to the context list. */
  function Shift(context: seq<NodeId>, enacted: NodeId, performed: NodeId,
                 intention: Option<NodeId>, stream: seq<NodeId>)
    : (seq<NodeId>, seq<NodeId>, seq<NodeId>)
  {
    var (c1, v1) := AddActivation([], [], Some(enacted));
    var (c2, v2) := if enacted != performed then AddActivation(c1, v1, Some(performed)) else (c1, v1);
    var (c3, v3) := AddActivation(c2, v2, intention);
    (context, AppendNew(c3, stream), v3)
  }

  /** The acts shiftDecisionCycle puts in the activation list, in order. */
  function ActivationSeed(enacted: NodeId, performed: NodeId, intention: Option<NodeId>): (v: seq<NodeId>)
    ensures NoDup(v)
  {
    var v2 := if enacted != performed then [enacted, performed] else [enacted];
    if intention.Some? && intention.value !in v2 then v2 + [intention.value] else v2
  }

  /** After shiftDecisionCycle the base context list is the old context list;
      the activation list starts with the enacted act, holds the performed
      act and the composite's intention, and nothing else, without
      duplicates; the context list is the activation list followed by the
      acts of the stream list not already in it, so the activation list is a
      part of the context list. */
  lemma ShiftSpec(context: seq<NodeId>, enacted: NodeId, performed: NodeId,
                  intention: Option<NodeId>, stream: seq<NodeId>)
    ensures var (base, c, v) := Shift(context, enacted, performed, intention, stream);
      && base == context
      && v == ActivationSeed(enacted, performed, intention)
      && v[0] == enacted && performed in v
      && (intention.Some? ==> intention.value in v)
      && (forall x :: x in v ==> x == enacted || x == performed || intention == Some(x))
      && c == AppendNew(v, stream)
      && |v| <= |c| && c[..|v|] == v && NoDup(c)
      && (forall x :: x in c <==> x in v || x in stream)
  {
    ShiftSeed(context, enacted, performed, intention, stream);
    AppendNewSpec(ActivationSeed(enacted, performed, intention), stream);
  }

  /** The activation list and the context list are seeded with the same acts. */
  lemma ShiftSeed(context: seq<NodeId>, enacted: NodeId, performed: NodeId,
                  intention: Option<NodeId>, stream: seq<NodeId>)
    ensures Shift(context, enacted, performed, intention, stream)
         == (context, AppendNew(ActivationSeed(enacted, performed, intention), stream),
             ActivationSeed(enacted, performed, intention))
  {
    var v2 := if enacted != performed then [enacted, performed] else [enacted];
    assert AddActivation([], [], Some(enacted)) == ([enacted], [enacted]);
    if enacted != performed {
      assert performed !in [enacted] && [enacted] + [performed] == v2;
      assert AddActivation([enacted], [enacted], Some(performed)) == (v2, v2);
    }
    assert AddActivation(v2, v2, intention) == (ActivationSeed(enacted, performed, intention),
                                                ActivationSeed(enacted, performed, intention));
  }
}
