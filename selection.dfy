/** selectAct of AttentionalSystem: among a non-empty list of acts, in the
    order Collections.sort leaves them, count the leading run of acts whose
    activation equals the first act's, and pick one of that run at random.
    The random index m_rand.nextInt(count) is the injected draw taken
    modulo the run's length. */
module Selection {
  import opened Attention

  /** Every act of the list is in the arena. */
  predicate InArena(c: Control, acts: seq<NodeId>) {
    forall i :: 0 <= i < |acts| ==> acts[i] < |c.acts|
  }

  /** The length of the leading run of acts whose activation is w. */
  function TiedRun(c: Control, acts: seq<NodeId>, w: int): (n: nat)
    requires InArena(c, acts)
    ensures n <= |acts|
  {
    if acts == [] || c.acts[acts[0]].activation != w then 0
    else 1 + TiedRun(c, acts[1..], w)
  }

  /** The run holds exactly the leading acts of activation w: all of them
      before it ends, and the act that ends it, if any, has another one. */
  lemma {:induction false} TiedRunSpec(c: Control, acts: seq<NodeId>, w: int)
    requires InArena(c, acts)
    ensures forall i :: 0 <= i < TiedRun(c, acts, w) ==> c.acts[acts[i]].activation == w
    ensures TiedRun(c, acts, w) < |acts| ==> c.acts[acts[TiedRun(c, acts, w)]].activation != w
  {
    if acts != [] && c.acts[acts[0]].activation == w {
      TiedRunSpec(c, acts[1..], w);
      forall i | 0 < i < TiedRun(c, acts, w) ensures c.acts[acts[i]].activation == w {
        assert acts[i] == acts[1..][i - 1];
      }
      if TiedRun(c, acts, w) < |acts| {
        assert acts[TiedRun(c, acts, w)] == acts[1..][TiedRun(c, acts[1..], w)];
      }
    }
  }

  /** The number of acts tied with the first one. */
  function Tied(c: Control, acts: seq<NodeId>): nat
    requires |acts| > 0 && InArena(c, acts)
  {
    TiedRun(c, acts, c.acts[acts[0]].activation)
  }

  /** The act selectAct returns for a given draw. */
  function Selected(c: Control, acts: seq<NodeId>, draw: nat): NodeId
    requires |acts| > 0 && InArena(c, acts)
  {
    TiedPositive(c, acts);
    acts[draw % Tied(c, acts)]
  }

  /** The first act is always tied with itself. */
  lemma TiedPositive(c: Control, acts: seq<NodeId>)
    requires |acts| > 0 && InArena(c, acts)
    ensures 1 <= Tied(c, acts) <= |acts|
  {
  }

  /** selectAct: sorts nothing itself (the list comes in the order of the
      sort), counts the tied run as the source's loop does, and picks. */
  method SelectAct(c: Control, acts: seq<NodeId>, draw: nat) returns (a: NodeId)
    requires |acts| > 0 && InArena(c, acts)
    ensures a == Selected(c, acts, draw)
  {
    var count := 0;
    var wp := c.acts[acts[0]].activation;
    while count < |acts|
      invariant count <= |acts|
      invariant TiedRun(c, acts, wp) == count + TiedRun(c, acts[count..], wp)
    {
      if c.acts[acts[count]].activation != wp {
        break;
      }
      assert acts[count..][1..] == acts[count + 1..];
      count := count + 1;
    }
    a := acts[draw % count];
  }

  /** The selected act is one of the leading acts tied with the first one,
      and it has the first act's activation. */
  lemma SelectedIsTied(c: Control, acts: seq<NodeId>, draw: nat)
    requires |acts| > 0 && InArena(c, acts)
    ensures exists i :: 0 <= i < Tied(c, acts) && Selected(c, acts, draw) == acts[i]
    ensures c.acts[Selected(c, acts, draw)].activation == c.acts[acts[0]].activation
  {
    TiedPositive(c, acts);
    TiedRunSpec(c, acts, c.acts[acts[0]].activation);
    var i := draw % Tied(c, acts);
    assert Selected(c, acts, draw) == acts[i];
  }

  /** Every act of the tied run is selected by some draw. */
  lemma TiedIsReachable(c: Control, acts: seq<NodeId>, i: nat)
    requires |acts| > 0 && InArena(c, acts) && i < Tied(c, acts)
    ensures Selected(c, acts, i) == acts[i]
  {
    TiedPositive(c, acts);
    assert i % Tied(c, acts) == i;
  }

  /** Sorted by descending activation, as the list is when IAct orders acts
      that way. */
  predicate Descending(c: Control, acts: seq<NodeId>)
    requires InArena(c, acts)
  {
    forall i, j :: 0 <= i < j < |acts| ==> c.acts[acts[i]].activation >= c.acts[acts[j]].activation
  }

  /** On a list sorted by descending activation, the selected act has the
      highest activation of the list, and every act outside the tied run has
      a strictly lower one, so it is never selected. */
  lemma SelectedIsHighest(c: Control, acts: seq<NodeId>, draw: nat)
    requires |acts| > 0 && InArena(c, acts) && Descending(c, acts)
    ensures forall j :: 0 <= j < |acts| ==>
      c.acts[Selected(c, acts, draw)].activation >= c.acts[acts[j]].activation
    ensures forall j :: Tied(c, acts) <= j < |acts| ==>
      c.acts[acts[j]].activation < c.acts[Selected(c, acts, draw)].activation
  {
    SelectedIsTied(c, acts, draw);
    var w := c.acts[acts[0]].activation;
    TiedRunSpec(c, acts, w);
    var t := Tied(c, acts);
    forall j | t <= j < |acts| ensures c.acts[acts[j]].activation < w {
      if t < j {
        assert c.acts[acts[t]].activation >= c.acts[acts[j]].activation;
      }
    }
  }

  /** Three acts of activations 5, 5 and 3: the two first are tied, each is
      selected by some draw, and the third never is. */
  lemma SelectionExample(c: Control, a: NodeId, b: NodeId, x: NodeId, draw: nat)
    requires a < |c.acts| && b < |c.acts| && x < |c.acts|
    requires c.acts[a].activation == 5 && c.acts[b].activation == 5 && c.acts[x].activation == 3
    ensures Tied(c, [a, b, x]) == 2
    ensures Selected(c, [a, b, x], 0) == a && Selected(c, [a, b, x], 1) == b
    ensures Selected(c, [a, b, x], draw) in {a, b}
  {
    var acts := [a, b, x];
    assert acts[1..] == [b, x] && acts[1..][1..] == [x];
    assert TiedRun(c, [x], 5) == 0;
    assert TiedRun(c, [b, x], 5) == 1;
  }
}
