/** Acts of the enaction layer (class ActImpl, which exists in two versions:
    package imos2 and package eca.ss.enaction) as records in an arena.

    An act is named by its position in the arena, and the arena is the order in
    which the registry created the acts, so an object reference becomes an
    `ActId` and the back-pointer `m_prescriber` becomes an `Option<ActId>`.
    The functions here are the pure part of ActImpl (getLabel, equals,
    getLength, getEnactionValue, and the eca version's recursive getValue and
    getArea) and the pure specification of the registry and of the
    prescription protocol that module Registry runs in place. */
module Acts {
  import opened Optional

  type ActId = nat

  /** PRIMITIVE_WEIGHT: the weight every primitive act starts with. */
  const PrimitiveWeight: int := 100

  /** The primitive interaction an atomic act is made of: only its label and
      its value are used by ActImpl. */
  datatype Interaction = Interaction(name: string, value: int)

  /** The area of space in which an atomic act is enacted: only its label is used. */
  datatype Area = Area(name: string)

  datatype Shape =
    | Atomic(interaction: Interaction, area: Area)
    | Composite(pre: ActId, post: ActId)

  /** One act. `key` is the string it was registered under (ActImpl's `label`
      field), `value` its enaction value, `length` its number of primitive
      steps, `weight` its enaction weight; `step` and `prescriber` are the
      mutable execution fields m_step and m_prescriber. */
  datatype Act = Act(key: string, shape: Shape, value: int, length: int,
                     weight: int, step: int, prescriber: Option<ActId>)

  /** The argument of Java's equals(Object): null, an object of another class, or an act. */
  datatype Ref = Null | Foreign | ActRef(id: ActId)

  // ---------------------------------------------------------------------------
  // Arena invariants

  /** A composite act is made of acts created before it. */
  ghost predicate Ordered(acts: seq<Act>) {
    forall i :: 0 <= i < |acts| && acts[i].shape.Composite? ==>
      acts[i].shape.pre < i && acts[i].shape.post < i
  }

  /** p is a composite act that has k as its pre-act or its post-act. */
  ghost predicate PartOf(acts: seq<Act>, k: nat, p: nat) {
    p < |acts| && acts[p].shape.Composite? &&
    (acts[p].shape.pre == k || acts[p].shape.post == k)
  }

  /** Every prescriber link points to a composite of which the act is a part. */
  ghost predicate Linked(acts: seq<Act>) {
    forall i :: 0 <= i < |acts| && acts[i].prescriber.Some? ==>
      PartOf(acts, i, acts[i].prescriber.value)
  }

  /** The attributes the constructor derives when an act is created. */
  ghost predicate DerivedAt(acts: seq<Act>, i: nat)
    requires Ordered(acts) && i < |acts|
  {
    match acts[i].shape
    case Atomic(interaction, area) =>
      && acts[i].key == PrimitiveKey(interaction, area)
      && acts[i].length == 1
      && acts[i].value == interaction.value
    case Composite(pre, post) =>
      && acts[i].key == Label(acts, pre) + Label(acts, post)
      && acts[i].length == acts[pre].length + acts[post].length
      && acts[i].value == acts[pre].value + acts[post].value
  }

  /** The shape of the arena that the prescription protocol relies on. */
  ghost predicate Structured(acts: seq<Act>) {
    Ordered(acts) && Linked(acts)
  }

  ghost predicate WellFormed(acts: seq<Act>) {
    && Structured(acts)
    && forall i :: 0 <= i < |acts| ==> DerivedAt(acts, i)
  }

  /** b holds the acts of a with the same identity, structure and weight; only
      the execution fields step and prescriber may differ. */
  ghost predicate SameActs(a: seq<Act>, b: seq<Act>) {
    |a| == |b| &&
    forall k :: 0 <= k < |a| ==>
      a[k].key == b[k].key && a[k].shape == b[k].shape && a[k].value == b[k].value &&
      a[k].length == b[k].length && a[k].weight == b[k].weight
  }

  // ---------------------------------------------------------------------------
  // Labels and equality

  /** createPrimitiveKey: the interaction's label followed by the area's label. */
  function PrimitiveKey(interaction: Interaction, area: Area): string {
    interaction.name + area.name
  }

  /** getLabel: the key of a primitive act; for a composite, its parts' labels
      in parentheses. */
  function Label(acts: seq<Act>, i: ActId): string
    requires Ordered(acts) && i < |acts|
    decreases i
  {
    match acts[i].shape
    case Atomic(_, _) => acts[i].key
    case Composite(pre, post) => "(" + Label(acts, pre) + Label(acts, post) + ")"
  }

  /** createCompositeKey: the two labels, with no separator between them. */
  function CompositeKey(acts: seq<Act>, pre: ActId, post: ActId): string
    requires Ordered(acts) && pre < |acts| && post < |acts|
  {
    Label(acts, pre) + Label(acts, post)
  }

  /** Labels depend only on keys and shapes. */
  lemma {:induction false} LabelFrame(a: seq<Act>, b: seq<Act>, i: ActId)
    requires Ordered(a) && Ordered(b) && i < |a| && i < |b|
    requires forall k :: 0 <= k <= i ==> a[k].key == b[k].key && a[k].shape == b[k].shape
    ensures Label(a, i) == Label(b, i)
    decreases i
  {
    match a[i].shape
    case Atomic(_, _) =>
    case Composite(pre, post) =>
      LabelFrame(a, b, pre);
      LabelFrame(a, b, post);
  }

  /** In a well-formed arena a label is the act's key, in parentheses for a
      composite: getLabel never needs more than the stored key. */
  lemma LabelIsKey(acts: seq<Act>, i: ActId)
    requires WellFormed(acts) && i < |acts|
    ensures Label(acts, i) == if acts[i].shape.Atomic? then acts[i].key else "(" + acts[i].key + ")"
  {
    assert DerivedAt(acts, i);
  }

  /** ActImpl.equals: the same object, or another act with an equal label. */
  function Equals(acts: seq<Act>, i: ActId, o: Ref): bool
    requires Ordered(acts) && i < |acts|
    requires o.ActRef? ==> o.id < |acts|
  {
    if o == ActRef(i) then true
    else if o.Null? then false
    else if o.Foreign? then false
    else Label(acts, o.id) == Label(acts, i)
  }

  /** Two acts are equal exactly when their labels are; null and objects of
      other classes never are. Equality is thus an equivalence on acts. */
  lemma EqualsIsLabelEquality(acts: seq<Act>, i: ActId, j: ActId, k: ActId)
    requires Ordered(acts) && i < |acts| && j < |acts| && k < |acts|
    ensures Equals(acts, i, ActRef(j)) <==> Label(acts, i) == Label(acts, j)
    ensures !Equals(acts, i, Null) && !Equals(acts, i, Foreign)
    ensures Equals(acts, i, ActRef(i))
    ensures Equals(acts, i, ActRef(j)) == Equals(acts, j, ActRef(i))
    ensures Equals(acts, i, ActRef(j)) && Equals(acts, j, ActRef(k)) ==> Equals(acts, i, ActRef(k))
  {
  }

  // ---------------------------------------------------------------------------
  // Leaves, length and value

  /** The primitive acts a composite is made of, left to right: the acts that
      are enacted when every step of it succeeds (Rounds.SuccessPath). There
      are getLength of them. */
  function Leaves(acts: seq<Act>, i: ActId): (ls: seq<ActId>)
    requires WellFormed(acts) && i < |acts|
    ensures |ls| == acts[i].length >= 1
    ensures forall n :: 0 <= n < |ls| ==> ls[n] <= i && acts[ls[n]].shape.Atomic?
    decreases i
  {
    assert DerivedAt(acts, i);
    match acts[i].shape
    case Atomic(_, _) => [i]
    case Composite(pre, post) => Leaves(acts, pre) + Leaves(acts, post)
  }

  function SumValues(acts: seq<Act>, ls: seq<ActId>): int
    requires forall n :: 0 <= n < |ls| ==> ls[n] < |acts| && acts[ls[n]].shape.Atomic?
  {
    if ls == [] then 0
    else acts[ls[0]].shape.interaction.value + SumValues(acts, ls[1..])
  }

  lemma {:induction false} SumValuesAppend(acts: seq<Act>, a: seq<ActId>, b: seq<ActId>)
    requires forall n :: 0 <= n < |a| ==> a[n] < |acts| && acts[a[n]].shape.Atomic?
    requires forall n :: 0 <= n < |b| ==> b[n] < |acts| && acts[b[n]].shape.Atomic?
    ensures SumValues(acts, a + b) == SumValues(acts, a) + SumValues(acts, b)
    decreases |a|
  {
    if a != [] {
      assert (a + b)[1..] == a[1..] + b;
      SumValuesAppend(acts, a[1..], b);
    } else {
      assert a + b == b;
    }
  }

  /** The eca version's getValue: a primitive act's interaction value, or the
      sum of the parts' getValue. It always agrees with the enaction value
      stored when the act was created. */
  function GetValue(acts: seq<Act>, i: ActId): (v: int)
    requires WellFormed(acts) && i < |acts|
    ensures v == acts[i].value
    decreases i
  {
    assert DerivedAt(acts, i);
    match acts[i].shape
    case Atomic(interaction, _) => interaction.value
    case Composite(pre, post) => GetValue(acts, pre) + GetValue(acts, post)
  }

  /** The enaction value of an act is the sum of its primitive steps' values. */
  lemma {:induction false} ValueIsSumOfLeaves(acts: seq<Act>, i: ActId)
    requires WellFormed(acts) && i < |acts|
    ensures acts[i].value == SumValues(acts, Leaves(acts, i))
    decreases i
  {
    assert DerivedAt(acts, i);
    match acts[i].shape
    case Atomic(_, _) =>
      assert Leaves(acts, i) == [i];
    case Composite(pre, post) =>
      ValueIsSumOfLeaves(acts, pre);
      ValueIsSumOfLeaves(acts, post);
      SumValuesAppend(acts, Leaves(acts, pre), Leaves(acts, post));
  }

  /** The eca version's getArea: a primitive act's area; a composite's is its
      post-act's, so it is the area of the last primitive step. */
  function GetArea(acts: seq<Act>, i: ActId): (a: Area)
    requires WellFormed(acts) && i < |acts|
    ensures var ls := Leaves(acts, i); a == acts[ls[|ls| - 1]].shape.area
    decreases i
  {
    match acts[i].shape
    case Atomic(_, area) => area
    case Composite(pre, post) =>
      var ls, all := Leaves(acts, post), Leaves(acts, i);
      assert all == Leaves(acts, pre) + ls;
      assert all[|all| - 1] == ls[|ls| - 1];
      GetArea(acts, post)
  }

  // ---------------------------------------------------------------------------
  // The registry: createOrGetPrimitiveAct and createOrGetCompositeAct

  /** The map ACTS from key to act agrees with the arena: each act is
      registered under its own key and under no other. */
  ghost predicate Indexed(acts: seq<Act>, index: map<string, ActId>) {
    && (forall key :: key in index ==> index[key] < |acts| && acts[index[key]].key == key)
    && (forall i :: 0 <= i < |acts| ==> acts[i].key in index && index[acts[i].key] == i)
  }

  /** `if (!ACTS.containsKey(key)) ACTS.put(key, candidate); return ACTS.get(key);`
      over the arena and the map; the result is the new arena, the new map and
      the act returned. */
  function Intern(acts: seq<Act>, index: map<string, ActId>, candidate: Act)
    : (seq<Act>, map<string, ActId>, ActId)
  {
    if candidate.key in index then (acts, index, index[candidate.key])
    else (acts + [candidate], index[candidate.key := |acts|], |acts|)
  }

  /** The act the private constructor builds for a primitive interaction. */
  function NewPrimitive(interaction: Interaction, area: Area): Act {
    Act(PrimitiveKey(interaction, area), Atomic(interaction, area), interaction.value, 1,
        PrimitiveWeight, 0, None)
  }

  /** The act the private constructor builds for a composite. */
  function NewComposite(acts: seq<Act>, pre: ActId, post: ActId): Act
    requires Ordered(acts) && pre < |acts| && post < |acts|
  {
    Act(CompositeKey(acts, pre, post), Composite(pre, post),
        acts[pre].value + acts[post].value, acts[pre].length + acts[post].length, 0, 0, None)
  }

  /** Interning returns the act registered under the key, registering the
      candidate first when there is none: the registry grows by at most one
      act, keeps every existing act in place (the order of creation, which the
      eca version's LinkedHashMap lists) and keeps one act per key. */
  lemma InternRegisters(acts: seq<Act>, index: map<string, ActId>, candidate: Act)
    requires Indexed(acts, index)
    ensures var (acts', index', r) := Intern(acts, index, candidate);
      && Indexed(acts', index')
      && r < |acts'| && acts'[r].key == candidate.key && index'[candidate.key] == r
      && index'.Keys == index.Keys + {candidate.key}
      && |acts'| <= |acts| + 1 && acts'[..|acts|] == acts
      && (candidate.key in index ==> acts' == acts && index' == index && r == index[candidate.key])
      && (candidate.key !in index ==> acts' == acts + [candidate] && r == |acts|)
  {
    var (acts', index', r) := Intern(acts, index, candidate);
    if candidate.key !in index {
      forall key | key in index'
        ensures index'[key] < |acts'| && acts'[index'[key]].key == key
      {
        if key != candidate.key {
          assert index'[key] == index[key];
        }
      }
      forall i | 0 <= i < |acts'|
        ensures acts'[i].key in index' && index'[acts'[i].key] == i
      {
        if i < |acts| {
          assert acts'[i] == acts[i];
          assert acts[i].key != candidate.key;
        }
      }
    }
  }

  /** A second request for the same key returns the same act and changes nothing. */
  lemma InternIdempotent(acts: seq<Act>, index: map<string, ActId>, c1: Act, c2: Act)
    requires Indexed(acts, index)
    requires c1.key == c2.key
    ensures var (acts1, index1, r1) := Intern(acts, index, c1);
      var (acts2, index2, r2) := Intern(acts1, index1, c2);
      r2 == r1 && acts2 == acts1 && index2 == index1
  {
  }

  /** Appending an act keeps the invariants of the acts already there. */
  lemma AppendKeepsWellFormed(acts: seq<Act>, a: Act)
    requires WellFormed(acts)
    requires a.prescriber.None?
    requires a.shape.Composite? ==> a.shape.pre < |acts| && a.shape.post < |acts|
    requires Ordered(acts + [a]) ==> DerivedAt(acts + [a], |acts|)
    ensures WellFormed(acts + [a])
  {
    var b := acts + [a];
    assert Ordered(b);
    forall i | 0 <= i < |b| ensures DerivedAt(b, i) {
      if i < |acts| {
        assert DerivedAt(acts, i);
        match acts[i].shape
        case Atomic(_, _) =>
        case Composite(pre, post) =>
          LabelFrame(acts, b, pre);
          LabelFrame(acts, b, post);
      }
    }
  }

  /** createOrGetPrimitiveAct: a new primitive act has length 1, weight
      PRIMITIVE_WEIGHT and its interaction's value; in every case the act
      returned is the one registered under interaction.name + area.name. */
  lemma InternPrimitive(acts: seq<Act>, index: map<string, ActId>, interaction: Interaction, area: Area)
    requires WellFormed(acts) && Indexed(acts, index)
    ensures var (acts', index', r) := Intern(acts, index, NewPrimitive(interaction, area));
      && WellFormed(acts') && Indexed(acts', index')
      && r < |acts'| && acts'[r].key == PrimitiveKey(interaction, area)
      && (PrimitiveKey(interaction, area) !in index ==>
            && acts'[r].shape == Atomic(interaction, area)
            && acts'[r].length == 1 && acts'[r].weight == PrimitiveWeight
            && acts'[r].value == interaction.value
            && Label(acts', r) == PrimitiveKey(interaction, area))
  {
    var candidate := NewPrimitive(interaction, area);
    InternRegisters(acts, index, candidate);
    if candidate.key !in index {
      AppendKeepsWellFormed(acts, candidate);
    }
  }

  /** createOrGetCompositeAct: a new composite has the sum of its parts' values
      and lengths and the label "(" + pre label + post label + ")"; an act
      already registered under the key is returned unchanged, and if it is a
      composite its label is that same string, whatever its parts are. */
  lemma InternComposite(acts: seq<Act>, index: map<string, ActId>, pre: ActId, post: ActId)
    requires WellFormed(acts) && Indexed(acts, index)
    requires pre < |acts| && post < |acts|
    ensures var (acts', index', r) := Intern(acts, index, NewComposite(acts, pre, post));
      && WellFormed(acts') && Indexed(acts', index')
      && r < |acts'| && acts'[r].key == CompositeKey(acts, pre, post)
      && (CompositeKey(acts, pre, post) in index ==> acts' == acts)
      && (CompositeKey(acts, pre, post) !in index ==>
            && acts'[r].shape == Composite(pre, post)
            && acts'[r].value == acts[pre].value + acts[post].value
            && acts'[r].length == acts[pre].length + acts[post].length)
      && (acts'[r].shape.Composite? ==>
            Label(acts', r) == "(" + Label(acts, pre) + Label(acts, post) + ")")
  {
    var candidate := NewComposite(acts, pre, post);
    InternRegisters(acts, index, candidate);
    var res := Intern(acts, index, candidate);
    if candidate.key !in index {
      AppendComposite(acts, pre, post);
      assert res.0 == acts + [candidate] && res.2 == |acts|;
    } else {
      assert res.0 == acts && res.2 == index[candidate.key];
      RegisteredLabel(acts, index, pre, post);
    }
  }

  /** An act already registered under a composite key has, if it is a
      composite, the label of the requested parts. */
  lemma RegisteredLabel(acts: seq<Act>, index: map<string, ActId>, pre: ActId, post: ActId)
    requires WellFormed(acts) && Indexed(acts, index)
    requires pre < |acts| && post < |acts| && CompositeKey(acts, pre, post) in index
    ensures index[CompositeKey(acts, pre, post)] < |acts|
    ensures acts[index[CompositeKey(acts, pre, post)]].shape.Composite? ==>
      Label(acts, index[CompositeKey(acts, pre, post)]) == "(" + Label(acts, pre) + Label(acts, post) + ")"
  {
    var r := index[CompositeKey(acts, pre, post)];
    if acts[r].shape.Composite? {
      LabelIsKey(acts, r);
      Parenthesised(Label(acts, r), Label(acts, pre), Label(acts, post));
    }
  }

  lemma Parenthesised(l: string, lp: string, lq: string)
    requires l == "(" + (lp + lq) + ")"
    ensures l == "(" + lp + lq + ")"
  {
    assert "(" + (lp + lq) + ")" == "(" + lp + lq + ")";
  }

  /** Appending a new composite keeps the arena well formed and gives it the
      parenthesised label of its parts. */
  lemma AppendComposite(acts: seq<Act>, pre: ActId, post: ActId)
    requires WellFormed(acts) && pre < |acts| && post < |acts|
    ensures var b := acts + [NewComposite(acts, pre, post)];
      WellFormed(b) && Label(b, |acts|) == "(" + Label(acts, pre) + Label(acts, post) + ")"
  {
    var candidate := NewComposite(acts, pre, post);
    var b := acts + [candidate];
    assert Ordered(b);
    LabelFrame(acts, b, pre);
    LabelFrame(acts, b, post);
    assert DerivedAt(b, |acts|);
    AppendKeepsWellFormed(acts, candidate);
  }

  /** Equal labels identify an act among acts of the same kind: two
      composites, or two primitive acts, with equal labels have equal keys and
      so are one registered act. equals is then identity on them. */
  lemma LabelsIdentifyActs(acts: seq<Act>, index: map<string, ActId>, i: ActId, j: ActId)
    requires WellFormed(acts) && Indexed(acts, index) && i < |acts| && j < |acts|
    requires acts[i].shape.Composite? == acts[j].shape.Composite?
    ensures Equals(acts, i, ActRef(j)) <==> i == j
  {
    LabelIsKey(acts, i);
    LabelIsKey(acts, j);
    if Label(acts, i) == Label(acts, j) && acts[i].shape.Composite? {
      assert acts[i].key == Label(acts, i)[1..|Label(acts, i)| - 1];
      assert acts[j].key == Label(acts, j)[1..|Label(acts, j)| - 1];
    }
  }

  /** Composite keys have no separator, so two different pairs of parts can
      share a key; the registry then answers the second request with the act
      registered by the first, made of the first pair's parts. */
  lemma KeyCollision(acts: seq<Act>, index: map<string, ActId>, p1: ActId, q1: ActId, p2: ActId, q2: ActId)
    requires WellFormed(acts) && Indexed(acts, index)
    requires p1 < |acts| && q1 < |acts| && p2 < |acts| && q2 < |acts|
    requires CompositeKey(acts, p1, q1) == CompositeKey(acts, p2, q2)
    requires CompositeKey(acts, p1, q1) !in index
    ensures var first := Intern(acts, index, NewComposite(acts, p1, q1));
      && p2 < |first.0| && q2 < |first.0| && Ordered(first.0)
      && Intern(first.0, first.1, NewComposite(first.0, p2, q2)) == first
      && first.0[first.2].shape == Composite(p1, q1)
  {
    var c1 := NewComposite(acts, p1, q1);
    InternRegisters(acts, index, c1);
    AppendComposite(acts, p1, q1);
    var first := Intern(acts, index, c1);
    LabelFrame(acts, first.0, p2);
    LabelFrame(acts, first.0, q2);
    assert NewComposite(first.0, p2, q2).key == c1.key;
  }

  /** Labels "ab" and "c" make the same key as labels "a" and "bc". */
  lemma KeyCollisionExample(acts: seq<Act>, index: map<string, ActId>, p1: ActId, q1: ActId, p2: ActId, q2: ActId)
    requires WellFormed(acts) && Indexed(acts, index)
    requires p1 < |acts| && q1 < |acts| && p2 < |acts| && q2 < |acts|
    requires Label(acts, p1) == "ab" && Label(acts, q1) == "c"
    requires Label(acts, p2) == "a" && Label(acts, q2) == "bc"
    requires "abc" !in index
    ensures p1 != p2
    ensures var first := Intern(acts, index, NewComposite(acts, p1, q1));
      && p2 < |first.0| && q2 < |first.0| && Ordered(first.0)
      && Intern(first.0, first.1, NewComposite(first.0, p2, q2)) == first
      && first.0[first.2].shape == Composite(p1, q1)
  {
    assert CompositeKey(acts, p1, q1) == "abc" == CompositeKey(acts, p2, q2);
    KeyCollision(acts, index, p1, q1, p2, q2);
  }

  /** A primitive key can equal a composite key too: a composite request whose
      key is already held by a primitive act returns that primitive act, whose
      length 1 is not the sum of the requested parts' lengths, and registers
      nothing. */
  lemma PrimitiveAnswersComposite(acts: seq<Act>, index: map<string, ActId>, pre: ActId, post: ActId, x: ActId)
    requires WellFormed(acts) && Indexed(acts, index)
    requires pre < |acts| && post < |acts| && x < |acts| && acts[x].shape.Atomic?
    requires acts[x].key == CompositeKey(acts, pre, post)
    ensures Intern(acts, index, NewComposite(acts, pre, post)) == (acts, index, x)
    ensures acts[x].length == 1 < acts[pre].length + acts[post].length
  {
    assert DerivedAt(acts, x);
    assert |Leaves(acts, pre)| >= 1 && |Leaves(acts, post)| >= 1;
  }

  /** Primitive acts labelled "a" and "b", and the primitive act of
      interaction "a" in area "b", whose key is "ab": a composite request for
      the first two returns the third. */
  lemma PrimitiveAnswersCompositeExample(acts: seq<Act>, index: map<string, ActId>, pre: ActId, post: ActId, x: ActId)
    requires WellFormed(acts) && Indexed(acts, index)
    requires pre < |acts| && post < |acts| && x < |acts|
    requires Label(acts, pre) == "a" && Label(acts, post) == "b"
    requires acts[x].shape == Atomic(Interaction("a", 5), Area("b"))
    ensures Intern(acts, index, NewComposite(acts, pre, post)).2 == x
    ensures acts[x].shape.Atomic? && acts[x].value == 5 && acts[x].length == 1
  {
    assert DerivedAt(acts, x);
    assert acts[x].key == "ab" == CompositeKey(acts, pre, post);
    PrimitiveAnswersComposite(acts, index, pre, post, x);
  }
}
