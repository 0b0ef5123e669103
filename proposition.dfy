/** ActPropositionImpl: a proposition to enact an act, with a weight that
    votes for it. Propositions are equal when they propose the same act,
    whatever their weights, and they sort by descending weight. */
module Proposition {
  import Acts

  class ActProposition {
    /** The proposed act, compared by identity only: its arena index. */
    var act: Acts.ActId
    var weight: int

    constructor (a: Acts.ActId, w: int)
      ensures act == a && weight == w
    {
      act := a;
      weight := w;
    }

    /** compareTo: `Integer(o.weight).compareTo(weight)`, so a proposition
        with a larger weight comes first. */
    function CompareTo(o: ActProposition): (c: int)
      reads this, o
      ensures -1 <= c <= 1
      ensures c < 0 <==> weight > o.weight
      ensures c == 0 <==> weight == o.weight
      ensures c > 0 <==> weight < o.weight
    {
      Compare(o.weight, weight)
    }

    /** addWeight: one more vote of weight w for the same act. */
    method AddWeight(w: int)
      modifies this
      ensures weight == old(weight) + w && act == old(act)
    {
      weight := weight + w;
    }

    /** equals(Object): the same object, or another proposition of the same act. */
    function Equals(o: Obj): (r: bool)
      reads this, if o.Prop? then {o.p} else {}
      ensures r <==> o.Prop? && o.p.act == act
    {
      if o == Prop(this) then true
      else if o.Null? then false
      else if o.Foreign? then false
      else o.p.act == act
    }
  }

  /** The argument of equals(Object): null, an object of another class, or a proposition. */
  datatype Obj = Null | Foreign | Prop(p: ActProposition)

  /** Integer.compareTo: the sign of x - y, as -1, 0 or 1. */
  function Compare(x: int, y: int): (c: int)
    ensures c == -1 <==> x < y
    ensures c == 0 <==> x == y
    ensures c == 1 <==> x > y
  {
    if x < y then -1 else if x == y then 0 else 1
  }

  /** compareTo is antisymmetric, and it is 0 exactly for equal weights:
      the order it defines is the total order of descending weight. */
  lemma CompareToIsDescendingOrder(a: ActProposition, b: ActProposition, c: ActProposition)
    ensures a.CompareTo(b) == -b.CompareTo(a)
    ensures a.CompareTo(a) == 0
    ensures a.CompareTo(b) <= 0 && b.CompareTo(c) <= 0 ==> a.CompareTo(c) <= 0
    ensures a.CompareTo(b) <= 0 <==> a.weight >= b.weight
  {
  }

  /** equals is reflexive and symmetric, false for null and for objects of
      other classes, and ignores weights. */
  lemma EqualsIsSameAct(a: ActProposition, b: ActProposition)
    ensures a.Equals(Prop(a))
    ensures !a.Equals(Null) && !a.Equals(Foreign)
    ensures a.Equals(Prop(b)) == b.Equals(Prop(a))
    ensures a.Equals(Prop(b)) <==> a.act == b.act
  {
  }
}
