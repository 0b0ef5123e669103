/** The learning that AttentionalSystem.step asks of episodic memory when a
    decision cycle ends: which calls to record it makes, on which context
    list and with which act, and when the base-context cascade runs. What
    record learns is episodic memory's business; the controller only sees
    the stream list it returns and the weight of the streamed act's schema. */
module Learning {
  import opened Attention

  /** The list a record call learns from: the context list, or the base
      context list of the previous cycle. */
  datatype ContextKind = Current | Base

  /** One call record(context, act). */
  datatype Record = Record(list: ContextKind, context: seq<NodeId>, act: NodeId)

  /** What a record call answers: the stream context list, and the weight of
      the schema of its first act. */
  datatype Pass = Pass(stream: seq<NodeId>, weight: int)

  /** The base-context cascade after a pass: the streamed act is learned
      from the base context list only when the stream list is not empty and
      the streamed act's weight is strictly above the threshold. */
  function Cascade(base: seq<NodeId>, p: Pass, thresh: int): seq<Record> {
    if |p.stream| > 0 && p.weight > thresh then [Record(Base, base, p.stream[0])] else []
  }

  /** The record calls of one step, in order: the performed act is learned
      from the context list, then its cascade; when the enacted act is not
      the performed one, the enacted act is learned as well, then its
      cascade. */
  function LearningCalls(context: seq<NodeId>, base: seq<NodeId>, enacted: NodeId, performed: NodeId,
                         first: Pass, second: Pass, thresh: int): seq<Record>
  {
    [Record(Current, context, performed)] + Cascade(base, first, thresh)
    + (if enacted != performed then [Record(Current, context, enacted)] + Cascade(base, second, thresh) else [])
  }

  /** Learning always starts from the performed act on the context list, and
      every call on the context list learns the performed act or, only when
      it differs, the enacted act. */
  lemma LearningFromContext(context: seq<NodeId>, base: seq<NodeId>, enacted: NodeId, performed: NodeId,
                            first: Pass, second: Pass, thresh: int)
    ensures var calls := LearningCalls(context, base, enacted, performed, first, second, thresh);
      && calls[0] == Record(Current, context, performed)
      && (forall k :: 0 <= k < |calls| && calls[k].list == Current ==>
            calls[k].context == context &&
            (calls[k].act == performed || (calls[k].act == enacted && enacted != performed)))
  {
    var calls := LearningCalls(context, base, enacted, performed, first, second, thresh);
    var c1 := [Record(Current, context, performed)] + Cascade(base, first, thresh);
    forall k | 0 <= k < |calls| && calls[k].list == Current
      ensures calls[k].context == context
      ensures calls[k].act == performed || (calls[k].act == enacted && enacted != performed)
    {
      if k >= |c1| {
        assert enacted != performed;
        assert calls[k] == ([Record(Current, context, enacted)] + Cascade(base, second, thresh))[k - |c1|];
      }
    }
  }

  /** The second learning pass runs if and only if the enacted act differs
      from the performed one. */
  lemma SecondPassGate(context: seq<NodeId>, base: seq<NodeId>, enacted: NodeId, performed: NodeId,
                       first: Pass, second: Pass, thresh: int)
    ensures var calls := LearningCalls(context, base, enacted, performed, first, second, thresh);
      (exists k :: 0 < k < |calls| && calls[k].list == Current) <==> enacted != performed
  {
    var calls := LearningCalls(context, base, enacted, performed, first, second, thresh);
    var c1 := [Record(Current, context, performed)] + Cascade(base, first, thresh);
    if enacted != performed {
      assert calls[|c1|].list == Current;
    } else {
      forall k | 0 < k < |calls| ensures calls[k].list == Base {
        assert calls[k] == Cascade(base, first, thresh)[k - 1];
      }
    }
  }

  /** A call on the base context list learns a streamed act whose weight is
      strictly above the threshold, and every such streamed act of a pass
      that runs is learned: the cascade runs exactly when a weight is
      strictly above the threshold. */
  lemma CascadeGate(context: seq<NodeId>, base: seq<NodeId>, enacted: NodeId, performed: NodeId,
                    first: Pass, second: Pass, thresh: int)
    ensures var calls := LearningCalls(context, base, enacted, performed, first, second, thresh);
      && (forall k :: 0 <= k < |calls| && calls[k].list == Base ==>
            calls[k].context == base &&
            ((|first.stream| > 0 && first.weight > thresh && calls[k].act == first.stream[0]) ||
             (enacted != performed && |second.stream| > 0 && second.weight > thresh &&
              calls[k].act == second.stream[0])))
      && (|first.stream| > 0 && first.weight > thresh ==> Record(Base, base, first.stream[0]) in calls)
      && (enacted != performed && |second.stream| > 0 && second.weight > thresh ==>
            Record(Base, base, second.stream[0]) in calls)
  {
    var calls := LearningCalls(context, base, enacted, performed, first, second, thresh);
    var c1 := [Record(Current, context, performed)] + Cascade(base, first, thresh);
    var c2 := if enacted != performed then [Record(Current, context, enacted)] + Cascade(base, second, thresh) else [];
    assert calls == c1 + c2;
    forall k | 0 <= k < |calls| && calls[k].list == Base
      ensures calls[k].context == base
      ensures (|first.stream| > 0 && first.weight > thresh && calls[k].act == first.stream[0]) ||
              (enacted != performed && |second.stream| > 0 && second.weight > thresh &&
               calls[k].act == second.stream[0])
    {
      if k < |c1| {
        assert calls[k] == c1[k];
      } else {
        assert calls[k] == c2[k - |c1|];
      }
    }
    if |first.stream| > 0 && first.weight > thresh {
      assert calls[1] == Record(Base, base, first.stream[0]);
    }
    if enacted != performed && |second.stream| > 0 && second.weight > thresh {
      assert calls[|c1| + 1] == Record(Base, base, second.stream[0]);
    }
  }
}
