/** The in-memory database and its transactions as objects. Each call carries out its lock
    sections one after the other, and the run of the state machine that it amounts to is
    kept in the ghost field `steps`. */
module Database {
  import opened Results
  import opened Transactions

  const FINISHED := Internal("database transaction is already finished")

  // ----- The runs that the calls amount to

  ghost predicate Between(steps: seq<Step>)
  {
    Exec(steps).Some? && Exec(steps).value.checked == multiset{}
  }

  lemma PushSteps(steps: seq<Step>, id: nat, statement: Statement) returns (all: seq<Step>)
    requires Between(steps) && id in Exec(steps).value.transactions
    requires Exec(steps).value.transactions[id].stage.Open?
    ensures
      var s := Exec(steps).value;
      Exec(all) == Some(
        s.(transactions := s.transactions[id := Transaction(s.transactions[id].pending + [statement], Open)]))
    ensures Between(all) && Accepted(all, id) == Accepted(steps, id) + [statement]
  {
    hide Exec, Accepted;
    var s := Exec(steps).value;
    var checking := ExecStep(steps, Check(id, statement));
    OneUnfolding(steps, Check(id, statement), id);
    all := ExecStep(checking, Push(id, statement));
    OneUnfolding(checking, Push(id, statement), id);
    assert s.checked + multiset{(id, statement)} - multiset{(id, statement)} == s.checked;
  }

  lemma FinishSteps(steps: seq<Step>, id: nat, committed: bool) returns (all: seq<Step>)
    requires Between(steps) && id in Exec(steps).value.transactions
    requires Exec(steps).value.transactions[id].stage.Open?
    ensures
      var s := Exec(steps).value;
      var pending := s.transactions[id].pending;
      Exec(all) == Some(
        s.(transactions := s.transactions[id := Transaction(pending, Done)],
           log := s.log + [LogEntry(id, committed, !committed, pending)]))
    ensures Between(all) && Accepted(all, id) == Accepted(steps, id)
  {
    hide Exec, Accepted;
    var s := Exec(steps).value;
    var closing := ExecStep(steps, Finish(id, committed));
    OneUnfolding(steps, Finish(id, committed), id);
    var cloned := ExecStep(closing, Clone(id));
    OneUnfolding(closing, Clone(id), id);
    all := ExecStep(cloned, Log(id));
    OneUnfolding(cloned, Log(id), id);
    assert Exec(all).value.transactions == s.transactions[id := Transaction(s.transactions[id].pending, Done)];
  }

  lemma RefusedStep(steps: seq<Step>, id: nat, step: Step) returns (all: seq<Step>)
    requires Between(steps) && id in Exec(steps).value.transactions
    requires Exec(steps).value.transactions[id].stage.Done?
    requires step.Check? || step.Finish?
    requires step.id == id
    ensures Exec(all) == Exec(steps) && Between(all) && Accepted(all, id) == Accepted(steps, id)
  {
    all := ExecStep(steps, step);
    OneUnfolding(steps, step, id);
  }

  // ----- The objects

  class InMemoryDatabase {
    var nextId: nat
    var log: seq<LogEntry>
    ghost var steps: seq<Step>

    ghost predicate Valid()
      reads this
    {
      && Between(steps)
      && Exec(steps).value.nextId == nextId && Exec(steps).value.log == log
    }

    /** The transactions of the run so far. */
    ghost function Transactions(): map<nat, Transaction>
      reads this
      requires Valid()
    {
      Exec(steps).value.transactions
    }

    constructor ()
      ensures Valid() && nextId == 0 && log == [] && steps == []
    {
      nextId, log, steps := 0, [], [];
    }

    method BeginTransaction() returns (t: InMemoryTransaction)
      requires Valid()
      modifies this
      ensures Valid() && fresh(t) && t.db == this && t.Valid()
      ensures t.id == nextId == old(nextId) + 1 && t.pending == [] && !t.finished
      ensures t.id !in old(Transactions()) && Transactions() == old(Transactions())[t.id := Transaction([], Open)]
      ensures log == old(log) && steps == old(steps) + [Begin]
    {
      RunKeeps(steps);
      steps := ExecStep(steps, Begin);
      nextId := nextId + 1;
      t := new InMemoryTransaction(this, nextId);
    }
  }

  class InMemoryTransaction {
    const db: InMemoryDatabase
    const id: nat
    var pending: seq<Statement>
    var finished: bool

    ghost predicate Valid()
      reads this, db
    {
      && db.Valid()
      && id in db.Transactions()
      && db.Transactions()[id].pending == pending
      && db.Transactions()[id].stage == if finished then Done else Open
    }

    constructor (db: InMemoryDatabase, id: nat)
      requires db.Valid() && id in db.Transactions() && db.Transactions()[id] == Transaction([], Open)
      ensures Valid() && this.db == db && this.id == id && pending == [] && !finished
    {
      this.db, this.id, pending, finished := db, id, [], false;
    }

    /** `execute` and `query` alike: refused once the transaction is finished. */
    method PushPending(statement: Statement) returns (r: Result<()>)
      requires Valid()
      modifies this, db`steps
      ensures Valid() && db.Valid() && db.nextId == old(db.nextId) && finished == old(finished)
      ensures r == if old(finished) then Err(FINISHED) else Ok(())
      ensures pending == old(pending) + if r.Ok? then [statement] else []
      ensures db.Transactions() == old(db.Transactions())[id := db.Transactions()[id]]
      ensures Accepted(db.steps, id) == Accepted(old(db.steps), id) + if r.Ok? then [statement] else []
    {
      hide Exec, Accepted;
      if finished {
        db.steps := RefusedStep(db.steps, id, Check(id, statement));
        return Err(FINISHED);
      }
      db.steps := PushSteps(db.steps, id, statement);
      pending := pending + [statement];
      return Ok(());
    }

    /** Commit or roll back, at most once; the entry lists what is pending. */
    method Finish(committed: bool) returns (r: Result<()>)
      requires Valid()
      modifies this, db`steps, db`log
      ensures Valid() && db.Valid() && finished && pending == old(pending)
      ensures r == if old(finished) then Err(FINISHED) else Ok(())
      ensures db.log == old(db.log) + if r.Ok? then [LogEntry(id, committed, !committed, old(pending))] else []
      ensures db.Transactions() == old(db.Transactions())[id := db.Transactions()[id]]
      ensures Accepted(db.steps, id) == Accepted(old(db.steps), id)
    {
      hide Exec, Accepted;
      if finished {
        db.steps := RefusedStep(db.steps, id, Step.Finish(id, committed));
        return Err(FINISHED);
      }
      finished := true;
      var statements := pending;
      db.steps := FinishSteps(db.steps, id, committed);
      db.log := db.log + [LogEntry(id, committed, !committed, statements)];
      return Ok(());
    }
  }

  // ----- Transactions around a callback

  /** What a callback may do with the transaction it is handed. */
  datatype Call = Execute(statement: Statement) | Commit | Rollback

  /** How the callback itself ended the transaction, if it did. */
  function Ended(script: seq<Call>): Option<bool>
  {
    if script == [] then None
    else
      match script[0]
      case Execute(_) => Ended(script[1..])
      case Commit => Some(true)
      case Rollback => Some(false)
  }

  /** The statements executed before that. */
  function Kept(script: seq<Call>): seq<Statement>
  {
    if script == [] || !script[0].Execute? then [] else [script[0].statement] + Kept(script[1..])
  }

  function EntryFor(id: nat, script: seq<Call>): LogEntry
    requires Ended(script).Some?
  {
    LogEntry(id, Ended(script).value, !Ended(script).value, Kept(script))
  }

  method MakeCall(t: InMemoryTransaction, call: Call) returns (ghost entries: seq<LogEntry>)
    requires t.Valid()
    modifies t, t.db`steps, t.db`log
    ensures t.Valid() && t.db.Valid() && t.db.nextId == old(t.db.nextId)
    ensures t.finished == (old(t.finished) || !call.Execute?)
    ensures t.pending == if call.Execute? && !old(t.finished) then old(t.pending) + [call.statement] else old(t.pending)
    ensures t.db.log == old(t.db.log) + entries
    ensures entries == if call.Execute? || old(t.finished) then []
                       else [LogEntry(t.id, call.Commit?, !call.Commit?, old(t.pending))]
  {
    hide InMemoryDatabase.Valid, InMemoryTransaction.Valid;
    entries := if call.Execute? || t.finished then [] else [LogEntry(t.id, call.Commit?, !call.Commit?, t.pending)];
    match call
    case Execute(statement) =>
      var _ := t.PushPending(statement);
    case Commit =>
      var _ := t.Finish(true);
    case Rollback =>
      var _ := t.Finish(false);
  }

  /** What the callback has done with the transaction after `done` of its calls. */
  ghost predicate Progress(
    script: seq<Call>, done: nat, finished: bool, pending: seq<Statement>, id: nat, added: seq<LogEntry>)
    requires done <= |script|
  {
    if finished then Ended(script).Some? && added == [EntryFor(id, script)]
    else
      && added == [] && Ended(script) == Ended(script[done..])
      && Kept(script) == pending + Kept(script[done..])
  }

  lemma ProgressStep(script: seq<Call>, done: nat, pending: seq<Statement>, id: nat)
    requires done < |script| && Progress(script, done, false, pending, id, [])
    ensures
      match script[done]
      case Execute(statement) => Progress(script, done + 1, false, pending + [statement], id, [])
      case Commit => Progress(script, done + 1, true, pending, id, [LogEntry(id, true, false, pending)])
      case Rollback => Progress(script, done + 1, true, pending, id, [LogEntry(id, false, true, pending)])
  {
    var rest := script[done..];
    assert rest[0] == script[done] && rest[1..] == script[done + 1..];
    if script[done].Execute? {
      var statement := script[done].statement;
      assert pending + ([statement] + Kept(rest[1..])) == pending + [statement] + Kept(rest[1..]);
    } else {
      assert pending + [] == pending;
    }
  }

  /** `Database::transaction`: the callback makes the calls of `script` and ends with
      `outcome`. An Ok result means that exactly one entry was written, committed, and that
      it lists every statement of the callback in order; an error result means a rollback,
      unless the callback had committed on its own. */
  method RunTransaction<T>(db: InMemoryDatabase, script: seq<Call>, outcome: Result<T>) returns (r: Result<T>)
    requires db.Valid()
    modifies db
    ensures db.Valid() && db.nextId == old(db.nextId) + 1
    ensures r == if Ended(script).None? then outcome else Err(FINISHED)
    ensures
      var committed := if Ended(script).None? then outcome.Ok? else Ended(script).value;
      db.log == old(db.log) + [LogEntry(db.nextId, committed, !committed, Kept(script))]
  {
    hide InMemoryDatabase.Valid, InMemoryTransaction.Valid, Progress, Ended, Kept;
    var t := db.BeginTransaction();
    ghost var added: seq<LogEntry> := [];
    NoProgress(script, t.id);
    for i := 0 to |script|
      invariant t.Valid() && fresh(t) && t.db == db && t.id == db.nextId == old(db.nextId) + 1
      invariant Progress(script, i, t.finished, t.pending, t.id, added) && db.log == old(db.log) + added
    {
      if t.finished {
        ProgressStays(script, i, t.pending, t.id, added);
      } else {
        NothingAdded(script, i, t.pending, t.id, added);
        ProgressStep(script, i, t.pending, t.id);
      }
      ghost var entries := MakeCall(t, script[i]);
      assert added + [] == added && [] + entries == entries;
      added := added + entries;
    }
    AllDone(script, t.finished, t.pending, t.id, added);
    var ended := t.Finish(outcome.Ok?);
    if ended.Err? {
      return Err(ended.error);
    }
    return outcome;
  }

  lemma NoProgress(script: seq<Call>, id: nat)
    ensures Progress(script, 0, false, [], id, [])
  {
    assert script[0..] == script;
    assert [] + Kept(script) == Kept(script);
  }

  lemma NothingAdded(script: seq<Call>, done: nat, pending: seq<Statement>, id: nat, added: seq<LogEntry>)
    requires done <= |script| && Progress(script, done, false, pending, id, added)
    ensures added == []
  {
  }

  lemma ProgressStays(script: seq<Call>, done: nat, pending: seq<Statement>, id: nat, added: seq<LogEntry>)
    requires done < |script| && Progress(script, done, true, pending, id, added)
    ensures Progress(script, done + 1, true, pending, id, added)
  {
  }

  lemma AllDone(script: seq<Call>, finished: bool, pending: seq<Statement>, id: nat, added: seq<LogEntry>)
    requires Progress(script, |script|, finished, pending, id, added)
    ensures finished == Ended(script).Some?
    ensures added == if finished then [EntryFor(id, script)] else []
    ensures !finished ==> Kept(script) == pending
  {
    assert pending + [] == pending;
  }
}
