/** In-memory database transactions. The state machine takes one step per lock section,
    so that calls on one transaction may overlap. Module `Database` holds the classes, whose
    calls run one at a time. */
module Transactions {
  import opened Results

  type Statement = string

  datatype LogEntry = LogEntry(id: nat, committed: bool, rolledBack: bool, statements: seq<Statement>)

  /** How far a transaction is. Its flag is set from `Closing` on; the finishing call holds
      the flag's lock during `Closing` and `Cloned`. */
  datatype Stage = Open | Closing(committed: bool) | Cloned(committed: bool, snapshot: seq<Statement>) | Done

  datatype Transaction = Transaction(pending: seq<Statement>, stage: Stage)

  /** `checked` holds the calls that have found their transaction open and not yet
      appended their statement. */
  datatype State = State(
    nextId: nat, transactions: map<nat, Transaction>, checked: multiset<(nat, Statement)>, log: seq<LogEntry>)

  const INITIAL := State(0, map[], multiset{}, [])

  datatype Step =
    | Begin
    | Check(id: nat, statement: Statement)
    | Push(id: nat, statement: Statement)
    | Finish(id: nat, committed: bool)
    | Clone(id: nat)
    | Log(id: nat)

  /** The step's lock is free, and the call it belongs to has got that far. */
  predicate Enabled(s: State, step: Step)
  {
    match step
    case Begin => true
    case Push(id, statement) => id in s.transactions && (id, statement) in s.checked
    case Check(id, _) => id in s.transactions && !s.transactions[id].stage.Closing? && !s.transactions[id].stage.Cloned?
    case Finish(id, _) => id in s.transactions && !s.transactions[id].stage.Closing? &&
      !s.transactions[id].stage.Cloned?
    case Clone(id) => id in s.transactions && s.transactions[id].stage.Closing?
    case Log(id) => id in s.transactions && s.transactions[id].stage.Cloned?
  }

  /** A check or a finish that finds the transaction done is refused and changes nothing. */
  function Next(s: State, step: Step): State
    requires Enabled(s, step)
  {
    match step
    case Begin =>
      s.(nextId := s.nextId + 1, transactions := s.transactions[s.nextId + 1 := Transaction([], Open)])
    case Check(id, statement) =>
      if s.transactions[id].stage.Open? then s.(checked := s.checked + multiset{(id, statement)}) else s
    case Push(id, statement) =>
      var t := s.transactions[id];
      s.(transactions := s.transactions[id := t.(pending := t.pending + [statement])],
         checked := s.checked - multiset{(id, statement)})
    case Finish(id, committed) =>
      if s.transactions[id].stage.Open? then WithStage(s, id, Closing(committed)) else s
    case Clone(id) =>
      WithStage(s, id, Cloned(s.transactions[id].stage.committed, s.transactions[id].pending))
    case Log(id) =>
      var stage := s.transactions[id].stage;
      WithStage(s, id, Done).(log := s.log + [LogEntry(id, stage.committed, !stage.committed, stage.snapshot)])
  }

  function WithStage(s: State, id: nat, stage: Stage): State
    requires id in s.transactions
  {
    s.(transactions := s.transactions[id := s.transactions[id].(stage := stage)])
  }

  /** The state after a run, or nothing when some step was not enabled. */
  function Exec(steps: seq<Step>): Option<State>
  {
    if steps == [] then Some(INITIAL)
    else
      var before := Exec(steps[..|steps| - 1]);
      var last := steps[|steps| - 1];
      if before.Some? && Enabled(before.value, last) then Some(Next(before.value, last)) else None
  }

  // ----- What the steps alone say

  /** The statements that calls on the transaction reported as accepted, in order. */
  function Accepted(steps: seq<Step>, id: nat): seq<Statement>
  {
    if steps == [] then []
    else
      var before, last := Accepted(steps[..|steps| - 1], id), steps[|steps| - 1];
      if last.Push? && last.id == id then before + [last.statement] else before
  }

  /** What the first call to finish the transaction asked for. */
  function FirstFinish(steps: seq<Step>, id: nat): Option<bool>
  {
    if steps == [] then None
    else
      var before, last := FirstFinish(steps[..|steps| - 1], id), steps[|steps| - 1];
      if before.None? && last.Finish? && last.id == id then Some(last.committed) else before
  }

  /** What had been accepted when the pending statements were copied. */
  function AtClone(steps: seq<Step>, id: nat): Option<seq<Statement>>
  {
    if steps == [] then None
    else if steps[|steps| - 1] == Clone(id) then Some(Accepted(steps[..|steps| - 1], id))
    else AtClone(steps[..|steps| - 1], id)
  }

  ghost predicate PushedAfterClone(steps: seq<Step>, id: nat)
  {
    exists i, j :: 0 <= i < j < |steps| && steps[i] == Clone(id) && steps[j].Push? && steps[j].id == id
  }

  // ----- The invariant

  ghost predicate TransactionOk(s: State, steps: seq<Step>, id: nat)
    requires id in s.transactions
  {
    && s.transactions[id].pending == Accepted(steps, id)
    && match s.transactions[id].stage
       case Open => FirstFinish(steps, id) == None && AtClone(steps, id) == None
       case Closing(committed) => FirstFinish(steps, id) == Some(committed) && AtClone(steps, id) == None
       case Cloned(committed, snapshot) =>
         FirstFinish(steps, id) == Some(committed) && AtClone(steps, id) == Some(snapshot)
       case Done => exists k :: 0 <= k < |s.log| && s.log[k].id == id
  }

  ghost predicate EntryOk(s: State, steps: seq<Step>, e: LogEntry)
  {
    && e.id in s.transactions && s.transactions[e.id].stage == Done
    && e.rolledBack == !e.committed
    && FirstFinish(steps, e.id) == Some(e.committed)
    && AtClone(steps, e.id) == Some(e.statements)
  }

  ghost predicate Untouched(steps: seq<Step>, id: nat)
  {
    Accepted(steps, id) == [] && FirstFinish(steps, id) == None && AtClone(steps, id) == None
  }

  ghost predicate Inv(s: State, steps: seq<Step>)
  {
    && (forall id :: id in s.transactions <==> 1 <= id <= s.nextId)
    && (forall id :: id in s.transactions ==> TransactionOk(s, steps, id))
    && (forall id :: id !in s.transactions ==> Untouched(steps, id))
    && (forall k :: 0 <= k < |s.log| ==> EntryOk(s, steps, s.log[k]))
    && (forall j, k :: 0 <= j < k < |s.log| ==> s.log[j].id != s.log[k].id)
  }

  /** A step that concerns one transaction tells nothing new about another. */
  lemma OthersUnchanged(steps: seq<Step>, step: Step, id: nat)
    requires step.Begin? || step.id != id
    ensures Accepted(steps + [step], id) == Accepted(steps, id)
    ensures FirstFinish(steps + [step], id) == FirstFinish(steps, id)
    ensures AtClone(steps + [step], id) == AtClone(steps, id)
  {
    assert (steps + [step])[..|steps|] == steps;
  }

  lemma OneUnfolding(steps: seq<Step>, step: Step, id: nat)
    requires !step.Begin? && step.id == id
    ensures Accepted(steps + [step], id) == Accepted(steps, id) + if step.Push? then [step.statement] else []
    ensures FirstFinish(steps + [step], id)
         == if step.Finish? && FirstFinish(steps, id).None? then Some(step.committed) else FirstFinish(steps, id)
    ensures AtClone(steps + [step], id) == if step.Clone? then Some(Accepted(steps, id)) else AtClone(steps, id)
  {
    assert (steps + [step])[..|steps|] == steps;
  }

  lemma OtherFacts(s: State, steps: seq<Step>, step: Step, id: nat)
    requires Inv(s, steps) && Enabled(s, step) && (step.Begin? || step.id != id)
    ensures id in Next(s, step).transactions ==> TransactionOk(Next(s, step), steps + [step], id)
    ensures id !in Next(s, step).transactions ==> Untouched(steps + [step], id)
  {
    hide Accepted, FirstFinish, AtClone;
    OthersUnchanged(steps, step, id);
    var t := Next(s, step);
    if id in s.transactions {
      assert TransactionOk(s, steps, id) && t.transactions[id] == s.transactions[id];
      assert s.log <= t.log;
      if s.transactions[id].stage == Done {
        var k :| 0 <= k < |s.log| && s.log[k].id == id;
        assert t.log[k] == s.log[k];
      }
    } else {
      assert Untouched(steps, id);
    }
  }

  lemma OwnFacts(s: State, steps: seq<Step>, step: Step, id: nat)
    requires Inv(s, steps) && Enabled(s, step) && !step.Begin? && step.id == id
    ensures id in Next(s, step).transactions && TransactionOk(Next(s, step), steps + [step], id)
  {
    hide Accepted, FirstFinish, AtClone;
    OneUnfolding(steps, step, id);
    assert TransactionOk(s, steps, id);
    var t := Next(s, step);
    if s.transactions[id].stage == Done {
      var k :| 0 <= k < |s.log| && s.log[k].id == id;
      assert t.log[k] == s.log[k];
    }
    if step == Log(id) {
      assert t.log[|s.log|].id == id;
    }
  }

  lemma EntryFacts(s: State, steps: seq<Step>, step: Step, e: LogEntry)
    requires Inv(s, steps) && Enabled(s, step) && e in Next(s, step).log
    ensures EntryOk(Next(s, step), steps + [step], e)
    ensures e !in s.log ==> step == Log(e.id)
  {
    hide Accepted, FirstFinish, AtClone;
    if step.Begin? || step.id != e.id {
      OthersUnchanged(steps, step, e.id);
    } else {
      OneUnfolding(steps, step, e.id);
    }
    if e in s.log {
      assert EntryOk(s, steps, e);
    }
  }

  lemma StepKeeps(s: State, steps: seq<Step>, step: Step)
    requires Inv(s, steps) && Enabled(s, step)
    ensures Inv(Next(s, step), steps + [step])
  {
    var t := Next(s, step);
    forall id ensures id in t.transactions ==> TransactionOk(t, steps + [step], id)
      ensures id !in t.transactions ==> Untouched(steps + [step], id)
    {
      if step.Begin? || step.id != id {
        OtherFacts(s, steps, step, id);
      } else {
        OwnFacts(s, steps, step, id);
      }
    }
    forall k | 0 <= k < |t.log| ensures EntryOk(t, steps + [step], t.log[k]) {
      EntryFacts(s, steps, step, t.log[k]);
    }
    forall j, k | 0 <= j < k < |t.log| ensures t.log[j].id != t.log[k].id {
      assert EntryOk(s, steps, s.log[j]);
    }
  }

  lemma {:induction false} RunKeeps(steps: seq<Step>)
    requires Exec(steps).Some?
    ensures Inv(Exec(steps).value, steps)
  {
    if steps != [] {
      var front, last := steps[..|steps| - 1], steps[|steps| - 1];
      RunKeeps(front);
      StepKeeps(Exec(front).value, front, last);
      assert front + [last] == steps;
    }
  }

  // ----- Main results

  /** In every interleaving a transaction has at most one log entry, which is either
      committed or rolled back, as the first call to finish it asked; it has one exactly
      when some call to finish it has returned. */
  lemma OneEntryPerTransaction(steps: seq<Step>, id: nat)
    requires Exec(steps).Some? && id in Exec(steps).value.transactions
    ensures
      var s := Exec(steps).value;
      && (s.transactions[id].stage == Done <==> exists k :: 0 <= k < |s.log| && s.log[k].id == id)
      && (forall j, k :: 0 <= j < |s.log| && 0 <= k < |s.log| && s.log[j].id == id == s.log[k].id ==> j == k)
      && (forall k :: 0 <= k < |s.log| && s.log[k].id == id ==>
            && s.log[k].committed != s.log[k].rolledBack
            && FirstFinish(steps, id) == Some(s.log[k].committed))
  {
    RunKeeps(steps);
    var s := Exec(steps).value;
    forall k | 0 <= k < |s.log| ensures EntryOk(s, steps, s.log[k]) {
    }
  }

  /** The id that `Begin` hands out has never been in use: no step so far named it. */
  lemma IdsAreFresh(steps: seq<Step>)
    requires Exec(steps).Some?
    ensures
      var id := Exec(steps).value.nextId + 1;
      && id !in Exec(steps).value.transactions
      && (forall step :: step in steps && !step.Begin? ==> step.id != id)
      && (forall e :: e in Exec(steps).value.log ==> e.id != id)
  {
    RunKeeps(steps);
    forall i | 0 <= i < |steps| && !steps[i].Begin? ensures steps[i].id <= Exec(steps).value.nextId {
      StepsNameKnown(steps, i);
    }
    forall e | e in Exec(steps).value.log ensures EntryOk(Exec(steps).value, steps, e) {
    }
  }

  lemma NextIdGrows(s: State, step: Step)
    requires Enabled(s, step)
    ensures s.nextId <= Next(s, step).nextId
  {
  }

  lemma {:induction false} StepsNameKnown(steps: seq<Step>, i: nat)
    requires Exec(steps).Some? && i < |steps| && !steps[i].Begin?
    ensures steps[i].id <= Exec(steps).value.nextId
  {
    hide Next;
    var front := steps[..|steps| - 1];
    NextIdGrows(Exec(front).value, steps[|steps| - 1]);
    if i < |steps| - 1 {
      StepsNameKnown(front, i);
      assert front[i] == steps[i];
    } else {
      RunKeeps(front);
    }
  }

  /** An entry once written is never changed or dropped. */
  lemma {:induction false} LogOnlyGrows(steps: seq<Step>, more: seq<Step>)
    requires Exec(steps + more).Some?
    ensures Exec(steps).Some? && Exec(steps).value.log <= Exec(steps + more).value.log
    decreases |more|
  {
    if more == [] {
      assert steps + more == steps;
    } else {
      assert (steps + more)[..|steps + more| - 1] == steps + more[..|more| - 1];
      LogOnlyGrows(steps, more[..|more| - 1]);
    }
  }

  /** Copying happens at most once. */
  lemma {:induction false} CloneIsLast(steps: seq<Step>, id: nat)
    ensures AtClone(steps, id) == None <==> Clone(id) !in steps
  {
    if steps != [] {
      var front, last := steps[..|steps| - 1], steps[|steps| - 1];
      assert steps == front + [last];
      CloneIsLast(front, id);
    }
  }

  lemma PushedLater(steps: seq<Step>, step: Step, id: nat)
    ensures PushedAfterClone(steps + [step], id)
       <==> PushedAfterClone(steps, id) || (Clone(id) in steps && step.Push? && step.id == id)
  {
    var all := steps + [step];
    if Clone(id) in steps && step.Push? && step.id == id {
      var i :| 0 <= i < |steps| && steps[i] == Clone(id);
      assert all[i] == Clone(id) && all[|steps|] == step;
    } else if PushedAfterClone(steps, id) {
      var i, j :| 0 <= i < j < |steps| && steps[i] == Clone(id) && steps[j].Push? && steps[j].id == id;
      assert all[i] == steps[i] && all[j] == steps[j];
    }
  }

  lemma {:induction false} ExactlyWhatWasCloned(steps: seq<Step>, id: nat)
    requires Exec(steps).Some? && AtClone(steps, id).Some?
    ensures AtClone(steps, id).value <= Accepted(steps, id)
    ensures AtClone(steps, id).value == Accepted(steps, id) <==> !PushedAfterClone(steps, id)
  {
    hide PushedAfterClone, Next, Inv;
    var front, last := steps[..|steps| - 1], steps[|steps| - 1];
    assert steps == front + [last];
    PushedLater(front, last, id);
    CloneIsLast(front, id);
    if last == Clone(id) {
      NotClonedYet(front, id);
    } else {
      ExactlyWhatWasCloned(front, id);
    }
  }

  lemma NotClonedYet(steps: seq<Step>, id: nat)
    requires Exec(steps).Some? && Enabled(Exec(steps).value, Clone(id))
    ensures Clone(id) !in steps && !PushedAfterClone(steps, id)
  {
    RunKeeps(steps);
    assert TransactionOk(Exec(steps).value, steps, id);
    CloneIsLast(steps, id);
  }

  /** A log entry lists an initial part of the statements accepted for its transaction, in
      order. It lists all of them exactly when none was appended after the copy. */
  lemma EntryIsCompleteIff(steps: seq<Step>, e: LogEntry)
    requires Exec(steps).Some? && e in Exec(steps).value.log
    ensures e.statements <= Accepted(steps, e.id)
    ensures e.statements == Accepted(steps, e.id) <==> !PushedAfterClone(steps, e.id)
  {
    RunKeeps(steps);
    assert EntryOk(Exec(steps).value, steps, e);
    ExactlyWhatWasCloned(steps, e.id);
  }

  ghost predicate Quiet(s: State, id: nat)
  {
    forall call :: call in s.checked ==> call.0 != id
  }

  ghost predicate QuietlyFinishing(s: State, id: nat)
  {
    id in s.transactions && !s.transactions[id].stage.Open? && Quiet(s, id)
  }

  lemma QuietStep(s: State, steps: seq<Step>, step: Step, id: nat)
    requires Inv(s, steps) && QuietlyFinishing(s, id) && Enabled(s, step)
    ensures QuietlyFinishing(Next(s, step), id) && !(step.Push? && step.id == id)
  {
    var t := Next(s, step);
    forall call | call in t.checked ensures call.0 != id {
      if call !in s.checked {
        assert step.Check? && call == (step.id, step.statement);
      }
    }
  }

  /** Once a transaction is being finished with no call under way on it, no statement is
      ever accepted for it again. */
  lemma {:induction false} QuietStaysQuiet(steps: seq<Step>, more: seq<Step>, id: nat)
    requires Exec(steps + more).Some? && Exec(steps).Some?
    requires QuietlyFinishing(Exec(steps).value, id)
    ensures QuietlyFinishing(Exec(steps + more).value, id)
    ensures Accepted(steps + more, id) == Accepted(steps, id)
    decreases |more|
  {
    hide Next, QuietlyFinishing, Inv, Enabled;
    if more == [] {
      assert steps + more == steps;
    } else {
      var front := more[..|more| - 1];
      assert (steps + more)[..|steps + more| - 1] == steps + front;
      QuietStaysQuiet(steps, front, id);
      RunKeeps(steps + front);
      QuietStep(Exec(steps + front).value, steps + front, more[|more| - 1], id);
    }
  }

  /** A caller that awaits its calls before it commits or rolls back gets a complete entry:
      when nothing is under way on a transaction as the call that finishes it begins, the
      entry lists exactly the statements accepted until then, whatever other transactions
      and later calls do. */
  lemma QuietFinishIsComplete(steps: seq<Step>, id: nat, committed: bool, more: seq<Step>, e: LogEntry)
    requires Exec(steps).Some? && id in Exec(steps).value.transactions
    requires Exec(steps).value.transactions[id].stage.Open? && Quiet(Exec(steps).value, id)
    requires Exec(steps + [Finish(id, committed)] + more).Some?
    requires e in Exec(steps + [Finish(id, committed)] + more).value.log && e.id == id
    ensures e.committed == committed
    ensures e.statements == Accepted(steps, id) == Accepted(steps + [Finish(id, committed)] + more, id)
  {
    var finished := steps + [Finish(id, committed)];
    var all := finished + more;
    assert finished[..|steps|] == steps;
    RunKeeps(steps);
    LogOnlyGrows(finished, more);
    assert Exec(finished).value == WithStage(Exec(steps).value, id, Closing(committed));
    QuietStaysQuiet(finished, more, id);
    OneUnfolding(steps, Finish(id, committed), id);
    FirstFinishWins(finished, more, id);
    RunKeeps(finished);
    RunKeeps(all);
    assert EntryOk(Exec(all).value, all, e);
    AcceptedAtCloneIsQuiet(finished, more, id);
  }

  lemma {:induction false} FirstFinishWins(steps: seq<Step>, more: seq<Step>, id: nat)
    requires FirstFinish(steps, id).Some?
    ensures FirstFinish(steps + more, id) == FirstFinish(steps, id)
    decreases |more|
  {
    if more == [] {
      assert steps + more == steps;
    } else {
      assert (steps + more)[..|steps + more| - 1] == steps + more[..|more| - 1];
      FirstFinishWins(steps, more[..|more| - 1], id);
    }
  }

  lemma {:induction false} AcceptedAtCloneIsQuiet(steps: seq<Step>, more: seq<Step>, id: nat)
    requires Exec(steps + more).Some? && Exec(steps).Some?
    requires QuietlyFinishing(Exec(steps).value, id)
    requires AtClone(steps, id) == None && AtClone(steps + more, id).Some?
    ensures AtClone(steps + more, id) == Some(Accepted(steps, id))
    decreases |more|
  {
    assert steps + [] == steps;
    if more == [] {
      assert false;
    } else {
      var front := more[..|more| - 1];
      assert (steps + more)[..|steps + more| - 1] == steps + front;
      if more[|more| - 1] == Clone(id) {
        QuietStaysQuiet(steps, front, id);
      } else {
        AcceptedAtCloneIsQuiet(steps, front, id);
      }
    }
  }

  lemma LosingSteps(s: State, id: nat, committed: bool, statement: Statement)
    requires id in s.transactions && s.transactions[id].stage.Open? && (id, statement) in s.checked
    ensures
      && Enabled(s, Finish(id, committed))
      && var s1 := Next(s, Finish(id, committed));
         && Enabled(s1, Clone(id))
         && var s2 := Next(s1, Clone(id));
            && Enabled(s2, Push(id, statement))
            && var s3 := Next(s2, Push(id, statement));
               && Enabled(s3, Log(id))
               && Next(s3, Log(id)).log
                  == s.log + [LogEntry(id, committed, !committed, s.transactions[id].pending)]
  {
  }

  /** Without that, whatever call is under way can have its statement accepted and lost: it
      has found the flag unset and appends after the copy. */
  lemma UnquietFinishCanLose(steps: seq<Step>, id: nat, committed: bool, statement: Statement)
    requires Exec(steps).Some? && id in Exec(steps).value.transactions
    requires Exec(steps).value.transactions[id].stage.Open? && (id, statement) in Exec(steps).value.checked
    ensures
      var all := steps + [Finish(id, committed)] + [Clone(id)] + [Push(id, statement)] + [Log(id)];
      && Exec(all).Some?
      && Exec(all).value.log == Exec(steps).value.log + [LogEntry(id, committed, !committed, Accepted(steps, id))]
      && Accepted(all, id) == Accepted(steps, id) + [statement]
  {
    RunKeeps(steps);
    assert TransactionOk(Exec(steps).value, steps, id);
    hide Accepted, FirstFinish, AtClone, TransactionOk, Inv, Exec, Next, Enabled;
    LosingSteps(Exec(steps).value, id, committed, statement);
    var s1 := ExecStep(steps, Finish(id, committed));
    var s2 := ExecStep(s1, Clone(id));
    var s3 := ExecStep(s2, Push(id, statement));
    var s4 := ExecStep(s3, Log(id));
    assert Accepted(s4, id) == Accepted(steps, id) + [statement] by {
      OneUnfolding(steps, Finish(id, committed), id);
      OneUnfolding(s1, Clone(id), id);
      OneUnfolding(s2, Push(id, statement), id);
      OneUnfolding(s3, Log(id), id);
    }
  }

  /** A concrete run in which a committed transaction misses its only statement. */
  lemma AcceptedStatementCanBeLost()
    ensures
      var steps := [Begin] + [Check(1, "insert")] + [Finish(1, true)] + [Clone(1)] + [Push(1, "insert")] + [Log(1)];
      && Exec(steps).Some? && Exec(steps).value.log == [LogEntry(1, true, false, [])]
      && Accepted(steps, 1) == ["insert"]
  {
    hide Exec, Accepted, Next, Enabled;
    OneCallUnderWay();
    UnquietFinishCanLose([Begin] + [Check(1, "insert")], 1, true, "insert");
  }

  lemma OneCallUnderWay()
    ensures Exec([Begin] + [Check(1, "insert")])
         == Some(State(1, map[1 := Transaction([], Open)], multiset{(1, "insert")}, []))
    ensures Accepted([Begin] + [Check(1, "insert")], 1) == []
  {
    var first := State(1, map[1 := Transaction([], Open)], multiset{}, []);
    assert [Begin][..0] == [];
    assert Exec([Begin]) == Some(first);
    assert Accepted([Begin], 1) == [];
    hide Exec, Accepted;
    var steps := ExecStep([Begin], Check(1, "insert"));
    assert multiset{} + multiset{(1, "insert")} == multiset{(1, "insert")};
    assert Next(first, Check(1, "insert")) == first.(checked := multiset{} + multiset{(1, "insert")});
    OneUnfolding([Begin], Check(1, "insert"), 1);
  }

  lemma ExecStep(steps: seq<Step>, step: Step) returns (all: seq<Step>)
    requires Exec(steps).Some? && Enabled(Exec(steps).value, step)
    ensures all == steps + [step] && Exec(all) == Some(Next(Exec(steps).value, step))
  {
    all := steps + [step];
    assert all[..|steps|] == steps;
  }

  /** What `Database::transaction` ends with: its own call to finish the transaction. When
      that call finds the transaction open, then once it has returned there is exactly one
      entry, with this call's outcome; otherwise the entry has the outcome of an earlier
      call made by the callback, and this one is refused. */
  lemma FinishDecides(steps: seq<Step>, id: nat, committed: bool, more: seq<Step>)
    requires Exec(steps).Some? && Enabled(Exec(steps).value, Finish(id, committed))
    requires Exec(steps + [Finish(id, committed)] + more).Some?
    requires id in Exec(steps + [Finish(id, committed)] + more).value.transactions
    requires Exec(steps + [Finish(id, committed)] + more).value.transactions[id].stage == Done
    ensures Exec(steps).value.transactions[id].stage.Open? <==> FirstFinish(steps, id).None?
    ensures
      var log := Exec(steps + [Finish(id, committed)] + more).value.log;
      var outcome := if FirstFinish(steps, id).None? then committed else FirstFinish(steps, id).value;
      exists k :: 0 <= k < |log| && log[k].id == id && log[k].committed == outcome
                     && forall j :: 0 <= j < |log| && log[j].id == id ==> j == k
  {
    var finished := steps + [Finish(id, committed)];
    var all := finished + more;
    RunKeeps(steps);
    RunKeeps(all);
    assert TransactionOk(Exec(steps).value, steps, id);
    if Exec(steps).value.transactions[id].stage == Done {
      OneEntryPerTransaction(steps, id);
    }
    OneUnfolding(steps, Finish(id, committed), id);
    FirstFinishWins(finished, more, id);
    OneEntryPerTransaction(all, id);
  }
}
