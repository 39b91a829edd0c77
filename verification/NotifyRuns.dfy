/**
 * Exactness over runs, both ways: the bitmap is exact in every state of a run
 * exactly when every request that succeeds keeps it so, and what that takes is
 * told from the request and the tables before it.
 */
module NotifyRuns {
  import opened Outcomes
  import opened NotifySpec
  import opened NotifyBatch
  import opened NotifyExact
  import opened NotifyAssign
  import opened NotifyConditions

  /**
   * If it succeeds, a Setup or Add asks for no id 0 and an Assign is balanced.
   * Releases, Unassigns and requests that fail need nothing.
   */
  ghost predicate KeepsExact(s: State, req: Request) {
    var msg, ts := MessageOf(req.msgInfo), Tuples(req);
    var found := FindEntry(s.entries, req.receiverUuid);
    msg.Some? && Handle(s, msg.value, req).1 == Ok ==>
      match KindOf(msg.value)
      case Register => forall i | 0 <= i < |ts| :: ts[i].id >= 1
      case Reassign => found.Some? && Balanced(s.entries[found.value].mappings, ts)
      case _ => true
  }

  /** One request keeps the bitmap exact exactly when it is of that kind. */
  lemma StepExactIff(s: State, req: Request)
    requires Shape(s) && Exact(s, 1)
    ensures Exact(Step(s, req).0, 1) <==> KeepsExact(s, req)
  {
    var msg := MessageOf(req.msgInfo);
    if msg.Some? {
      if Handle(s, msg.value, req).1 != Ok {
        FailureIsAtomic(s, msg.value, req);
        OpenedKeepsExact(s, msg.value, req, 1);
      } else if KindOf(msg.value) == Register {
        RegisterExactIff(s, msg.value, req);
      } else if KindOf(msg.value) == Reassign {
        AssignExactIff(s, req);
      } else {
        StepKeepsExact(s, req, 1);
      }
    }
  }

  /** The bitmap is exact in every state of the run. */
  ghost predicate ExactThroughout(s: State, reqs: seq<Request>)
    decreases |reqs|
  {
    Exact(s, 1) && (reqs == [] || ExactThroughout(Step(s, reqs[0]).0, reqs[1..]))
  }

  ghost predicate AllKeepExact(s: State, reqs: seq<Request>)
    decreases |reqs|
  {
    reqs == [] || (KeepsExact(s, reqs[0]) && AllKeepExact(Step(s, reqs[0]).0, reqs[1..]))
  }

  /** Over every run, from any exact state. */
  lemma {:induction false} RunExactIff(s: State, reqs: seq<Request>)
    requires Shape(s) && Exact(s, 1)
    ensures ExactThroughout(s, reqs) <==> AllKeepExact(s, reqs)
    decreases |reqs|
  {
    if reqs != [] {
      var next := Step(s, reqs[0]).0;
      StepKeepsShape(s, reqs[0]);
      StepExactIff(s, reqs[0]);
      if KeepsExact(s, reqs[0]) {
        RunExactIff(next, reqs[1..]);
      }
    }
  }
}
