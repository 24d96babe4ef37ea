/** Backup-code replacement as transactions that overlap (auth/mfa_repository.go, auth/provider_store.go,
    storage/postgres_store.go).

    At the default isolation level every statement works on the rows committed when it began.  A delete
    then waits, row by row, for the transactions that hold these rows, and skips rows that are gone by the
    time it gets them; it never sees rows committed since it began.  An insert waits for, or fails on, a
    row with the same user and hash.  Disabling is a transaction of one delete; consuming is one update. */
module BackupCodes {
  import opened Wrappers
  import Mfa

  type UserId = Mfa.UserId
  type Hash = Mfa.Hash
  type RowId = nat
  type TxId = nat

  datatype Row = Row(user: UserId, hash: Hash, used: bool)

  datatype Job = Replacing(raw: seq<Hash>) | Disabling

  datatype Phase = Opened | Working | Committed | RolledBack

  /** `seen` are the rows the delete began with and `todo` those it has not reached; `locked` are the rows
      it has deleted so far, `added` the rows inserted so far.  `snapAt` is history: the number of the
      user's writers that had committed when the delete began. */
  datatype Tx = Tx(user: UserId, job: Job, phase: Phase, seen: set<RowId>, todo: set<RowId>, locked: set<RowId>, added: map<RowId, Row>, next: nat, snapAt: nat)

  /** A committed replacement or disable. */
  datatype Entry = Entry(installed: set<Hash>, ids: set<RowId>, snapAt: nat)

  /** `rows` are the committed rows and `ids` all row ids handed out so far.  `log` (per user) and
      `history` record what committed, in order. */
  datatype State = State(
    users: set<UserId>,
    rows: map<RowId, Row>,
    txs: map<TxId, Tx>,
    ids: set<RowId>,
    log: map<UserId, seq<Entry>>,
    history: seq<Mfa.Op>)

  /** `Abort` stands for every failure inside a transaction: an error of a statement, a violated
      constraint, a missing user, a deadlock, a cancelled context or a panic. */
  datatype Step =
    | Open(t: TxId, user: UserId, job: Job)
    | BeginDelete(t: TxId)
    | DeleteRow(t: TxId, id: RowId)
    | InsertRow(t: TxId, id: RowId)
    | Commit(t: TxId)
    | Abort(t: TxId)
    | Consume(id: RowId)

  function LogOf(s: State, u: UserId): seq<Entry> {
    if u in s.log then s.log[u] else []
  }

  function RowsOf(s: State, u: UserId): set<RowId> {
    set id | id in s.rows && s.rows[id].user == u
  }

  function Installed(job: Job): set<Hash> {
    match job case Replacing(raw) => Mfa.Elements(raw) case Disabling => {}
  }

  predicate Same(r: Row, q: Row) {
    r.user == q.user && r.hash == q.hash
  }

  predicate HeldByOther(s: State, t: TxId, id: RowId) {
    exists o | o in s.txs :: o != t && id in s.txs[o].locked
  }

  /** The unique constraint stands in the way of inserting r, for now or for good. */
  predicate Clashes(s: State, t: TxId, r: Row)
    requires t in s.txs
  {
    || (exists id | id in s.rows :: Same(s.rows[id], r) && id !in s.txs[t].locked)
    || (exists o | o in s.txs :: AddsSame(s.txs[o], r))
  }

  predicate AddsSame(tx: Tx, r: Row) {
    exists id | id in tx.added :: Same(tx.added[id], r)
  }

  predicate In(s: State, t: TxId, phase: Phase) {
    t in s.txs && s.txs[t].phase == phase
  }

  function NextRow(tx: Tx): Row
    requires tx.job.Replacing? && tx.next < |tx.job.raw|
  {
    Row(tx.user, tx.job.raw[tx.next], false)
  }

  predicate Enabled(s: State, step: Step) {
    match step
    case Open(t, _, job) => t !in s.txs && (job.Replacing? ==> Mfa.NoRepeats(job.raw))
    case BeginDelete(t) => In(s, t, Opened)
    case DeleteRow(t, id) => In(s, t, Working) && id in s.txs[t].todo && !HeldByOther(s, t, id)
    case InsertRow(t, id) =>
      && In(s, t, Working) && s.txs[t].todo == {} && id !in s.ids
      && s.txs[t].job.Replacing? && s.txs[t].next < |s.txs[t].job.raw|
      && s.txs[t].user in s.users && !Clashes(s, t, NextRow(s.txs[t]))
    case Commit(t) =>
      In(s, t, Working) && s.txs[t].todo == {} && (s.txs[t].job.Replacing? ==> s.txs[t].next == |s.txs[t].job.raw|)
    case Abort(t) => In(s, t, Opened) || In(s, t, Working)
    case Consume(id) => id in s.rows && !s.rows[id].used && forall o | o in s.txs :: id !in s.txs[o].locked
  }

  function OpOf(tx: Tx): Mfa.Op {
    match tx.job
    case Replacing(raw) => Mfa.Replace(tx.user, raw, Mfa.NoFault)
    case Disabling => Mfa.Disable(tx.user)
  }

  function Close(tx: Tx, phase: Phase): Tx {
    tx.(phase := phase, locked := {}, added := map[])
  }

  function Apply(s: State, step: Step): State
    requires Enabled(s, step)
  {
    match step
    case Open(t, user, job) => s.(txs := s.txs[t := Tx(user, job, Opened, {}, {}, {}, map[], 0, 0)])
    case BeginDelete(t) =>
      var tx := s.txs[t];
      var seen := RowsOf(s, tx.user);
      s.(txs := s.txs[t := tx.(phase := Working, seen := seen, todo := seen, snapAt := |LogOf(s, tx.user)|)])
    case DeleteRow(t, id) =>
      var tx := s.txs[t];
      s.(txs := s.txs[t := tx.(todo := tx.todo - {id}, locked := if id in s.rows then tx.locked + {id} else tx.locked)])
    case InsertRow(t, id) =>
      var tx := s.txs[t];
      s.(txs := s.txs[t := tx.(added := tx.added[id := NextRow(tx)], next := tx.next + 1)], ids := s.ids + {id})
    case Commit(t) =>
      var tx := s.txs[t];
      State(s.users, (s.rows - tx.locked) + tx.added, s.txs[t := Close(tx, Committed)], s.ids,
            s.log[tx.user := LogOf(s, tx.user) + [Entry(Installed(tx.job), tx.added.Keys, tx.snapAt)]],
            s.history + [OpOf(tx)])
    case Abort(t) => s.(txs := s.txs[t := Close(s.txs[t], RolledBack)])
    case Consume(id) =>
      var r := s.rows[id];
      s.(rows := s.rows[id := r.(used := true)], history := s.history + [Mfa.Consume(r.user, r.hash)])
  }

  predicate ValidRun(s: State, steps: seq<Step>)
    decreases |steps|, 0
  {
    steps == [] || (ValidRun(s, steps[..|steps| - 1]) && Enabled(Run(s, steps[..|steps| - 1]), steps[|steps| - 1]))
  }

  function Run(s: State, steps: seq<Step>): State
    requires ValidRun(s, steps)
    decreases |steps|, 1
  {
    if steps == [] then s else Apply(Run(s, steps[..|steps| - 1]), steps[|steps| - 1])
  }

  lemma RunSnoc(s: State, steps: seq<Step>, step: Step)
    requires ValidRun(s, steps) && Enabled(Run(s, steps), step)
    ensures ValidRun(s, steps + [step]) && Run(s, steps + [step]) == Apply(Run(s, steps), step)
  {
    assert (steps + [step])[..|steps|] == steps;
  }

  // ----- Starting from a database -----

  /** The rows of u are the codes m. */
  ghost predicate Shows(rows: map<RowId, Row>, u: UserId, m: map<Hash, bool>) {
    && (forall id | id in rows && rows[id].user == u :: rows[id].hash in m && m[rows[id].hash] == rows[id].used)
    && (forall h | h in m :: HasHash(rows, u, h))
  }

  ghost predicate HasHash(rows: map<RowId, Row>, u: UserId, h: Hash) {
    exists id | id in rows :: rows[id].user == u && rows[id].hash == h
  }

  ghost predicate Unique(rows: map<RowId, Row>) {
    forall i, j | i in rows && j in rows && i != j :: !Same(rows[i], rows[j])
  }

  /** Nothing is under way and the rows are those of db. */
  ghost predicate Starts(s: State, db: Mfa.Db) {
    && s.users == db.users.Keys && s.txs == map[] && s.log == map[] && s.history == []
    && s.rows.Keys <= s.ids && Unique(s.rows)
    && (forall id | id in s.rows :: s.rows[id].user in s.users)
    && Mfa.ForeignKeys(db)
    && (forall u :: Shows(s.rows, u, Mfa.CodesOf(db, u)))
  }

  // ----- Invariant -----

  ghost predicate RowsOk(s: State) {
    && Unique(s.rows) && s.rows.Keys <= s.ids
    && (forall id | id in s.rows :: s.rows[id].user in s.users)
  }

  /** A transaction holds only rows its delete began with, all still there; the rows the delete has passed
      are held or gone. */
  ghost predicate Holds(rows: map<RowId, Row>, tx: Tx) {
    && tx.locked <= tx.seen && tx.todo <= tx.seen && tx.locked <= rows.Keys
    && (forall id | id in tx.seen && id in rows :: rows[id].user == tx.user)
    && (tx.phase == Working ==> forall id | id in tx.seen && id !in tx.todo :: id in tx.locked || id !in rows)
  }

  /** The rows it adds are new, unused and its user's, and break no constraint once it commits. */
  ghost predicate Adds(rows: map<RowId, Row>, users: set<UserId>, tx: Tx) {
    && tx.added.Keys !! rows.Keys && tx.added.Keys !! tx.seen
    && (forall id | id in tx.added :: tx.added[id].user == tx.user && tx.user in users && !tx.added[id].used)
    && (forall id, q | id in tx.added && q in rows && Same(tx.added[id], rows[q]) :: q in tx.locked)
    && Unique(tx.added)
  }

  /** The rows inserted are those of the first `next` hashes. */
  ghost predicate Written(tx: Tx) {
    if tx.job.Disabling? then tx.added == map[]
    else
      && tx.next <= |tx.job.raw|
      && (forall id | id in tx.added :: tx.added[id].hash in tx.job.raw[..tx.next])
      && (forall k | 0 <= k < tx.next :: AddsSame(tx, Row(tx.user, tx.job.raw[k], false)))
  }

  ghost predicate PhaseOk(ids: set<RowId>, tx: Tx) {
    && tx.seen <= ids && tx.added.Keys <= ids
    && (tx.phase != Working ==> tx.locked == {} && tx.added == map[])
    && (tx.phase == Opened ==> tx.next == 0 && tx.seen == {})
    && (tx.phase == Working ==> Written(tx))
  }

  /** A row of the user that the delete does not know was committed after it began. */
  ghost predicate Since(s: State, tx: Tx) {
    var log := LogOf(s, tx.user);
    tx.phase == Working ==>
      && tx.snapAt <= |log|
      && (tx.snapAt == |log| ==> RowsOf(s, tx.user) <= tx.seen)
      && (forall i | tx.snapAt <= i < |log| :: log[i].ids !! tx.seen)
  }

  ghost predicate TxOk(s: State, tx: Tx) {
    Holds(s.rows, tx) && Adds(s.rows, s.users, tx) && PhaseOk(s.ids, tx) && Since(s, tx)
  }

  /** Two transactions hold and add different rows, and neither has seen what the other adds. */
  ghost predicate Apart(tx: Tx, other: Tx) {
    && tx.locked !! other.locked && tx.added.Keys !! other.added.Keys
    && tx.added.Keys !! other.seen && other.added.Keys !! tx.seen
    && (forall id, q | id in tx.added && q in other.added :: !Same(tx.added[id], other.added[q]))
  }

  /** The user's rows still include those of the last writer. */
  ghost predicate LogOk(s: State, u: UserId) {
    var log := LogOf(s, u);
    && (forall i | 0 <= i < |log| :: log[i].ids <= s.ids && (log[i].ids == {} <==> log[i].installed == {}))
    && (log != [] ==> log[|log| - 1].ids <= RowsOf(s, u))
  }

  ghost predicate Inv(s: State) {
    && RowsOk(s)
    && (forall t | t in s.txs :: TxOk(s, s.txs[t]))
    && (forall t, o | t in s.txs && o in s.txs && t != o :: Apart(s.txs[t], s.txs[o]))
    && (forall u :: LogOk(s, u))
  }

  // ----- What a commit does to the rows -----

  function AfterCommit(rows: map<RowId, Row>, tx: Tx): map<RowId, Row> {
    (rows - tx.locked) + tx.added
  }

  lemma CommitKeepsUnique(rows: map<RowId, Row>, users: set<UserId>, tx: Tx)
    requires Unique(rows) && Adds(rows, users, tx)
    ensures Unique(AfterCommit(rows, tx))
  {
    var rows' := AfterCommit(rows, tx);
    forall i, j | i in rows' && j in rows' && i != j ensures !Same(rows'[i], rows'[j]) {
      assert i in tx.added || (i in rows && i !in tx.locked);
      assert j in tx.added || (j in rows && j !in tx.locked);
    }
  }

  lemma CommitKeepsHolds(rows: map<RowId, Row>, tx: Tx, other: Tx)
    requires Holds(rows, other) && Apart(tx, other)
    ensures Holds(AfterCommit(rows, tx), other)
  {
  }

  lemma CommitKeepsAdds(rows: map<RowId, Row>, users: set<UserId>, tx: Tx, other: Tx)
    requires Adds(rows, users, other) && Apart(tx, other)
    ensures Adds(AfterCommit(rows, tx), users, other)
  {
    var rows' := AfterCommit(rows, tx);
    forall id, q | id in other.added && q in rows' && Same(other.added[id], rows'[q]) ensures q in other.locked {
      assert q !in tx.added;
    }
  }

  lemma CommitKeepsSince(s: State, t: TxId, other: Tx)
    requires Enabled(s, Commit(t)) && Since(s, other) && Apart(s.txs[t], other)
    requires Holds(s.rows, s.txs[t]) && Adds(s.rows, s.users, s.txs[t])
    ensures Since(Apply(s, Commit(t)), other)
  {
    if s.txs[t].user != other.user {
      CommitElsewhere(s, t, other.user);
    }
  }

  /** A commit leaves the rows and the log of other users alone. */
  lemma CommitElsewhere(s: State, t: TxId, u: UserId)
    requires Enabled(s, Commit(t)) && s.txs[t].user != u && Holds(s.rows, s.txs[t]) && Adds(s.rows, s.users, s.txs[t])
    ensures var s' := Apply(s, Commit(t)); LogOf(s', u) == LogOf(s, u) && RowsOf(s', u) == RowsOf(s, u)
    ensures forall id | id in RowsOf(s, u) :: Apply(s, Commit(t)).rows[id] == s.rows[id]
  {
  }

  // ----- Every step keeps the invariant -----

  lemma StepKeepsRows(s: State, step: Step)
    requires Inv(s) && Enabled(s, step)
    ensures RowsOk(Apply(s, step))
  {
    if step.Commit? {
      assert TxOk(s, s.txs[step.t]);
      CommitKeepsUnique(s.rows, s.users, s.txs[step.t]);
    }
  }

  lemma InsertedRowOk(s: State, t: TxId, id: RowId)
    requires Enabled(s, InsertRow(t, id)) && RowsOk(s) && TxOk(s, s.txs[t])
    ensures var tx' := Apply(s, InsertRow(t, id)).txs[t]; Adds(s.rows, s.users, tx') && Written(tx')
  {
    var tx := s.txs[t];
    var tx' := Apply(s, InsertRow(t, id)).txs[t];
    var r := NextRow(tx);
    assert !AddsSame(tx, r);
    assert tx.job.raw[..tx'.next] == tx.job.raw[..tx.next] + [r.hash];
    assert tx'.added[id] == r;
    forall k | 0 <= k < tx'.next ensures AddsSame(tx', Row(tx'.user, tx'.job.raw[k], false)) {
      if k < tx.next {
        AddsMore(tx, id, r, Row(tx.user, tx.job.raw[k], false));
      }
    }
  }

  lemma AddsMore(tx: Tx, id: RowId, r: Row, q: Row)
    requires AddsSame(tx, q) && id !in tx.added
    ensures AddsSame(tx.(added := tx.added[id := r], next := tx.next + 1), q)
  {
    var k :| k in tx.added && Same(tx.added[k], q);
    assert Same(tx.added[id := r][k], q);
  }

  lemma BegunTxOk(s: State, t: TxId)
    requires Enabled(s, BeginDelete(t)) && RowsOk(s) && TxOk(s, s.txs[t])
    ensures TxOk(Apply(s, BeginDelete(t)), Apply(s, BeginDelete(t)).txs[t])
  {
    assert RowsOf(Apply(s, BeginDelete(t)), s.txs[t].user) == RowsOf(s, s.txs[t].user);
  }

  lemma DeletedTxOk(s: State, t: TxId, id: RowId)
    requires Enabled(s, DeleteRow(t, id)) && TxOk(s, s.txs[t])
    ensures TxOk(Apply(s, DeleteRow(t, id)), Apply(s, DeleteRow(t, id)).txs[t])
  {
    assert RowsOf(Apply(s, DeleteRow(t, id)), s.txs[t].user) == RowsOf(s, s.txs[t].user);
  }

  lemma InsertedTxOk(s: State, t: TxId, id: RowId)
    requires Enabled(s, InsertRow(t, id)) && RowsOk(s) && TxOk(s, s.txs[t])
    ensures TxOk(Apply(s, InsertRow(t, id)), Apply(s, InsertRow(t, id)).txs[t])
  {
    InsertedRowOk(s, t, id);
    assert RowsOf(Apply(s, InsertRow(t, id)), s.txs[t].user) == RowsOf(s, s.txs[t].user);
  }

  lemma ClosedTxOk(s: State, tx: Tx, phase: Phase)
    requires tx.seen <= s.ids && tx.todo <= tx.seen && phase in {Committed, RolledBack} && (forall id | id in tx.seen && id in s.rows :: s.rows[id].user == tx.user)
    ensures TxOk(s, Close(tx, phase))
  {
  }

  lemma OwnStepKeepsTx(s: State, step: Step, t: TxId)
    requires Inv(s) && Enabled(s, step) && !step.Consume? && step.t == t
    ensures TxOk(Apply(s, step), Apply(s, step).txs[t])
  {
    assert t in s.txs ==> TxOk(s, s.txs[t]);
    match step
    case Open(_, _, _) =>
    case BeginDelete(_) => BegunTxOk(s, t);
    case DeleteRow(_, id) => DeletedTxOk(s, t, id);
    case InsertRow(_, id) => InsertedTxOk(s, t, id);
    case Commit(_) => ClosedTxOk(Apply(s, step), s.txs[t], Committed);
    case Abort(_) => ClosedTxOk(Apply(s, step), s.txs[t], RolledBack);
  }

  /** Rows that differ at most in their use. */
  ghost predicate SameRows(rows: map<RowId, Row>, rows': map<RowId, Row>) {
    rows.Keys == rows'.Keys && forall id | id in rows :: Same(rows[id], rows'[id])
  }

  lemma QuietKeepsTx(s: State, s': State, tx: Tx)
    requires TxOk(s, tx) && SameRows(s.rows, s'.rows) && s'.log == s.log && s.ids <= s'.ids && s'.users == s.users
    ensures TxOk(s', tx)
  {
    assert RowsOf(s', tx.user) == RowsOf(s, tx.user);
  }

  lemma QuietStep(s: State, step: Step)
    requires Enabled(s, step) && !step.Commit?
    ensures var s' := Apply(s, step); SameRows(s.rows, s'.rows) && s'.log == s.log && s.ids <= s'.ids && s'.users == s.users
  {
  }

  lemma OtherStepKeepsTx(s: State, step: Step, o: TxId)
    requires Inv(s) && Enabled(s, step) && o in s.txs && (step.Consume? || step.t != o)
    ensures Apply(s, step).txs[o] == s.txs[o] && TxOk(Apply(s, step), s.txs[o])
  {
    assert TxOk(s, s.txs[o]);
    if step.Commit? {
      var tx := s.txs[step.t];
      assert TxOk(s, tx) && Apart(tx, s.txs[o]);
      CommitKeepsHolds(s.rows, tx, s.txs[o]);
      CommitKeepsAdds(s.rows, s.users, tx, s.txs[o]);
      CommitKeepsSince(s, step.t, s.txs[o]);
    } else {
      QuietStep(s, step);
      QuietKeepsTx(s, Apply(s, step), s.txs[o]);
    }
  }

  lemma OwnStepKeepsApart(s: State, step: Step, o: TxId)
    requires Inv(s) && Enabled(s, step) && !step.Consume? && o in s.txs && step.t != o
    ensures Apart(Apply(s, step).txs[step.t], s.txs[o]) && Apart(s.txs[o], Apply(s, step).txs[step.t])
  {
    assert TxOk(s, s.txs[o]);
    if step.t in s.txs {
      assert Apart(s.txs[step.t], s.txs[o]) && TxOk(s, s.txs[step.t]);
    }
    match step
    case InsertRow(t, id) => assert !AddsSame(s.txs[o], NextRow(s.txs[t]));
    case DeleteRow(t, id) => assert id !in s.txs[o].locked;
    case _ =>
  }

  lemma StepKeepsLog(s: State, step: Step, u: UserId)
    requires Inv(s) && Enabled(s, step)
    ensures LogOk(Apply(s, step), u)
  {
    assert LogOk(s, u);
    if step.Commit? {
      assert TxOk(s, s.txs[step.t]);
      if s.txs[step.t].user != u {
        CommitElsewhere(s, step.t, u);
      } else {
        CommitLogs(s, step.t);
      }
    } else {
      QuietStep(s, step);
      assert RowsOf(Apply(s, step), u) == RowsOf(s, u);
    }
  }

  lemma CommitLogs(s: State, t: TxId)
    requires Enabled(s, Commit(t)) && TxOk(s, s.txs[t]) && LogOk(s, s.txs[t].user)
    ensures LogOk(Apply(s, Commit(t)), s.txs[t].user)
  {
    var tx, s' := s.txs[t], Apply(s, Commit(t));
    AddedIsInstalled(tx);
    assert tx.added.Keys <= RowsOf(s', tx.user);
  }

  /** At commit the rows written are exactly the new set. */
  lemma AddedIsInstalled(tx: Tx)
    requires Written(tx) && (tx.job.Replacing? ==> tx.next == |tx.job.raw|)
    ensures tx.added.Keys == {} <==> Installed(tx.job) == {}
    ensures forall id | id in tx.added :: tx.added[id].hash in Installed(tx.job)
    ensures forall h | h in Installed(tx.job) :: AddsSame(tx, Row(tx.user, h, false))
  {
    if tx.job.Replacing? {
      assert tx.job.raw[..tx.next] == tx.job.raw;
      if tx.job.raw != [] {
        assert tx.job.raw[0] in Installed(tx.job) && AddsSame(tx, Row(tx.user, tx.job.raw[0], false));
      }
    }
  }

  lemma StepKeepsInv(s: State, step: Step)
    requires Inv(s) && Enabled(s, step)
    ensures Inv(Apply(s, step))
  {
    var s' := Apply(s, step);
    StepKeepsRows(s, step);
    forall t | t in s'.txs ensures TxOk(s', s'.txs[t]) {
      if !step.Consume? && step.t == t {
        OwnStepKeepsTx(s, step, t);
      } else {
        OtherStepKeepsTx(s, step, t);
      }
    }
    StepKeepsAparts(s, step);
    forall u ensures LogOk(s', u) {
      StepKeepsLog(s, step, u);
    }
  }

  lemma StepKeepsAparts(s: State, step: Step)
    requires Inv(s) && Enabled(s, step)
    ensures var s' := Apply(s, step); forall t, o | t in s'.txs && o in s'.txs && t != o :: Apart(s'.txs[t], s'.txs[o])
  {
    var s' := Apply(s, step);
    forall t, o | t in s'.txs && o in s'.txs && t != o ensures Apart(s'.txs[t], s'.txs[o]) {
      if !step.Consume? && step.t == t {
        OwnStepKeepsApart(s, step, o);
      } else if !step.Consume? && step.t == o {
        OwnStepKeepsApart(s, step, t);
      }
    }
  }

  lemma {:induction false} RunKeepsInv(s: State, db: Mfa.Db, steps: seq<Step>)
    requires Starts(s, db) && ValidRun(s, steps)
    ensures Inv(Run(s, steps))
    decreases |steps|
  {
    if steps != [] {
      RunKeepsInv(s, db, steps[..|steps| - 1]);
      StepKeepsInv(Run(s, steps[..|steps| - 1]), steps[|steps| - 1]);
    }
  }

  // ----- The serial history -----

  /** The database after the same commits and consumptions, one atomic operation after the other. */
  function Serial(db: Mfa.Db, s: State): Mfa.Db {
    Mfa.Run(db, s.history)
  }

  /** The stored codes of u are those of the serial history. */
  ghost predicate Agrees(db: Mfa.Db, s: State, u: UserId) {
    Shows(s.rows, u, Mfa.CodesOf(Serial(db, s), u))
  }

  function Fresh(hashes: set<Hash>): map<Hash, bool> {
    map h | h in hashes :: false
  }

  lemma SerialSnoc(db: Mfa.Db, ops: seq<Mfa.Op>, op: Mfa.Op)
    ensures Mfa.Run(db, ops + [op]) == Mfa.Step(Mfa.Run(db, ops), op).0
  {
    assert (ops + [op])[..|ops|] == ops;
  }

  /** The serial database has the same users, and holds the set of the user's last writer. */
  ghost predicate Replayed(db: Mfa.Db, s: State) {
    var d := Serial(db, s);
    && d.users.Keys == s.users && Mfa.ForeignKeys(d)
    && (forall u :: HoldsLast(d, LogOf(s, u), u))
  }

  ghost predicate HoldsLast(d: Mfa.Db, log: seq<Entry>, u: UserId) {
    log != [] ==> Mfa.CodesOf(d, u).Keys == log[|log| - 1].installed
  }

  lemma SerialWrite(d: Mfa.Db, tx: Tx)
    requires Mfa.ForeignKeys(d) && (Installed(tx.job) != {} ==> tx.user in d.users)
    ensures var d' := Mfa.Step(d, OpOf(tx)).0;
            && d'.users.Keys == d.users.Keys && Mfa.ForeignKeys(d')
            && Mfa.CodesOf(d', tx.user) == Fresh(Installed(tx.job))
            && forall u | u != tx.user :: Mfa.CodesOf(d', u) == Mfa.CodesOf(d, u)
  {
  }

  lemma SerialConsume(d: Mfa.Db, user: UserId, hash: Hash)
    requires Mfa.ForeignKeys(d)
    ensures var d' := Mfa.Step(d, Mfa.Consume(user, hash)).0;
            var codes := Mfa.CodesOf(d, user);
            && d'.users.Keys == d.users.Keys && Mfa.ForeignKeys(d')
            && Mfa.CodesOf(d', user).Keys == codes.Keys
            && (hash in codes && !codes[hash] ==> Mfa.CodesOf(d', user) == codes[hash := true])
            && forall u | u != user :: Mfa.CodesOf(d', u) == Mfa.CodesOf(d, u)
  {
  }

  lemma WriterExists(s: State, t: TxId)
    requires Enabled(s, Commit(t)) && TxOk(s, s.txs[t]) && Installed(s.txs[t].job) != {}
    ensures s.txs[t].user in s.users
  {
    AddedIsInstalled(s.txs[t]);
    assert s.txs[t].added.Keys != {};
    var id :| id in s.txs[t].added.Keys;
    assert s.txs[t].added[id].user == s.txs[t].user;
  }

  /** What a commit does to the serial database. */
  lemma CommitSerial(db: Mfa.Db, s: State, t: TxId)
    requires Enabled(s, Commit(t)) && TxOk(s, s.txs[t]) && Serial(db, s).users.Keys == s.users && Mfa.ForeignKeys(Serial(db, s))
    ensures var tx := s.txs[t];
            var d, d' := Serial(db, s), Serial(db, Apply(s, Commit(t)));
            && d'.users.Keys == s.users && Mfa.ForeignKeys(d')
            && Mfa.CodesOf(d', tx.user) == Fresh(Installed(tx.job))
            && forall u | u != tx.user :: Mfa.CodesOf(d', u) == Mfa.CodesOf(d, u)
  {
    var tx := s.txs[t];
    if Installed(tx.job) != {} { WriterExists(s, t); }
    SerialSnoc(db, s.history, OpOf(tx));
    SerialWrite(Serial(db, s), tx);
  }

  lemma CommitKeepsReplayed(db: Mfa.Db, s: State, t: TxId)
    requires Enabled(s, Commit(t)) && TxOk(s, s.txs[t]) && Replayed(db, s)
    ensures Replayed(db, Apply(s, Commit(t)))
  {
    var tx, s' := s.txs[t], Apply(s, Commit(t));
    CommitSerial(db, s, t);
    forall u ensures HoldsLast(Serial(db, s'), LogOf(s', u), u) {
      if u != tx.user {
        assert LogOf(s', u) == LogOf(s, u);
        assert HoldsLast(Serial(db, s), LogOf(s, u), u);
      } else {
        assert Fresh(Installed(tx.job)).Keys == Installed(tx.job);
      }
    }
  }

  lemma ConsumeKeepsReplayed(db: Mfa.Db, s: State, id: RowId)
    requires Replayed(db, s) && Enabled(s, Consume(id))
    ensures Replayed(db, Apply(s, Consume(id)))
  {
    var r, s' := s.rows[id], Apply(s, Consume(id));
    SerialSnoc(db, s.history, Mfa.Consume(r.user, r.hash));
    SerialConsume(Serial(db, s), r.user, r.hash);
    assert forall u :: LogOf(s', u) == LogOf(s, u);
  }

  lemma StepKeepsReplayed(db: Mfa.Db, s: State, step: Step)
    requires Inv(s) && Replayed(db, s) && Enabled(s, step)
    ensures Replayed(db, Apply(s, step))
  {
    match step
    case Commit(t) =>
      assert TxOk(s, s.txs[t]);
      CommitKeepsReplayed(db, s, t);
    case Consume(id) => ConsumeKeepsReplayed(db, s, id);
    case _ =>
      var s' := Apply(s, step);
      forall u ensures HoldsLast(Serial(db, s'), LogOf(s', u), u) {
        assert HoldsLast(Serial(db, s), LogOf(s, u), u);
      }
  }

  lemma {:induction false} RunKeepsReplayed(s: State, db: Mfa.Db, steps: seq<Step>)
    requires Starts(s, db) && ValidRun(s, steps)
    ensures Inv(Run(s, steps)) && Replayed(db, Run(s, steps))
    decreases |steps|
  {
    RunKeepsInv(s, db, steps);
    if steps != [] {
      RunKeepsReplayed(s, db, steps[..|steps| - 1]);
      StepKeepsReplayed(db, Run(s, steps[..|steps| - 1]), steps[|steps| - 1]);
    }
  }

  // ----- Overlap -----

  /** A writer that began its delete after `before` commits may follow the log without disturbing it: it
      began after the last writer committed, or that one left nothing behind. */
  predicate Follows(log: seq<Entry>, before: nat) {
    |log| <= before || log[|log| - 1].installed == {}
  }

  /** No two writers of the user that commit one after the other overlap, unless the first installed
      nothing. */
  predicate NoOverlap(log: seq<Entry>) {
    forall i | 0 <= i < |log| :: Follows(log[..i], log[i].snapAt)
  }

  lemma NoOverlapSnoc(log: seq<Entry>, e: Entry)
    ensures NoOverlap(log + [e]) <==> NoOverlap(log) && Follows(log, e.snapAt)
  {
    var more := log + [e];
    assert more[..|log|] == log && more[|log|] == e;
    assert forall i | 0 <= i < |log| :: more[..i] == log[..i] && more[i] == log[i];
    if NoOverlap(more) {
      assert Follows(more[..|log|], more[|log|].snapAt);
      forall i | 0 <= i < |log| ensures Follows(log[..i], log[i].snapAt) {
        assert Follows(more[..i], more[i].snapAt);
      }
    }
  }

  /** A commit that follows the log holds every row of its user. */
  lemma FollowerHoldsAll(db: Mfa.Db, s: State, t: TxId)
    requires Inv(s) && Replayed(db, s) && Enabled(s, Commit(t)) && Agrees(db, s, s.txs[t].user)
    requires Follows(LogOf(s, s.txs[t].user), s.txs[t].snapAt)
    ensures RowsOf(s, s.txs[t].user) <= s.txs[t].locked
  {
    var tx := s.txs[t];
    assert TxOk(s, tx);
    var log := LogOf(s, tx.user);
    if tx.snapAt < |log| {
      assert Mfa.CodesOf(Serial(db, s), tx.user).Keys == {};
    }
  }

  lemma FollowerAgrees(db: Mfa.Db, s: State, t: TxId)
    requires Inv(s) && Replayed(db, s) && Enabled(s, Commit(t)) && RowsOf(s, s.txs[t].user) <= s.txs[t].locked
    ensures Agrees(db, Apply(s, Commit(t)), s.txs[t].user)
  {
    var tx, s' := s.txs[t], Apply(s, Commit(t));
    assert TxOk(s, tx);
    CommitSerial(db, s, t);
    AddedIsInstalled(tx);
    assert forall id | id in s'.rows && s'.rows[id].user == tx.user :: id in tx.added by {
      assert forall id | id in s.rows && s.rows[id].user == tx.user :: id in RowsOf(s, tx.user);
    }
    forall h | h in Fresh(Installed(tx.job)) ensures HasHash(s'.rows, tx.user, h) {
      assert AddsSame(tx, Row(tx.user, h, false));
      var id :| id in tx.added && Same(tx.added[id], Row(tx.user, h, false));
      assert s'.rows[id] == tx.added[id];
    }
  }

  /** A row of the writer that committed since the delete began survives it, and is not of the new set. */
  lemma OverlapLeavesRow(s: State, t: TxId) returns (id: RowId)
    requires Inv(s) && Enabled(s, Commit(t)) && !Follows(LogOf(s, s.txs[t].user), s.txs[t].snapAt)
    ensures var s' := Apply(s, Commit(t));
            id in s'.rows && s'.rows[id].user == s.txs[t].user && s'.rows[id].hash !in Installed(s.txs[t].job)
  {
    var tx, s' := s.txs[t], Apply(s, Commit(t));
    var log := LogOf(s, tx.user);
    assert TxOk(s, tx) && LogOk(s, tx.user);
    var last := log[|log| - 1];
    assert last.ids != {} && last.ids !! tx.seen;
    id :| id in last.ids;
    assert id in RowsOf(s, tx.user) && id !in tx.locked && id !in tx.added;
    assert s'.rows[id] == s.rows[id];
    StepKeepsRows(s, Commit(t));
    AddedIsInstalled(tx);
    var h := s'.rows[id].hash;
    assert h in Installed(tx.job) ==> AddsSame(tx, Row(tx.user, h, false));
    assert forall q | q in tx.added :: s'.rows[q] == tx.added[q] && !Same(s'.rows[q], s'.rows[id]);
  }

  lemma OverlapDisagrees(db: Mfa.Db, s: State, t: TxId)
    requires Inv(s) && Replayed(db, s) && Enabled(s, Commit(t))
    requires !Follows(LogOf(s, s.txs[t].user), s.txs[t].snapAt)
    ensures !Agrees(db, Apply(s, Commit(t)), s.txs[t].user)
  {
    assert TxOk(s, s.txs[t]);
    CommitSerial(db, s, t);
    var id := OverlapLeavesRow(s, t);
    assert Apply(s, Commit(t)).rows[id].hash !in Fresh(Installed(s.txs[t].job));
  }

  lemma OtherStepAgrees(db: Mfa.Db, s: State, step: Step, u: UserId)
    requires Inv(s) && Replayed(db, s) && Enabled(s, step) && Agrees(db, s, u)
    requires step.Commit? ==> s.txs[step.t].user != u
    ensures Agrees(db, Apply(s, step), u) && LogOf(Apply(s, step), u) == LogOf(s, u)
  {
    var s' := Apply(s, step);
    match step
    case Commit(t) =>
      var tx := s.txs[t];
      assert TxOk(s, tx);
      CommitSerial(db, s, t);
      CommitElsewhere(s, t, u);
      assert forall id | id in s'.rows && s'.rows[id].user == u :: id in RowsOf(s', u);
      assert forall id | id in s.rows && s.rows[id].user == u :: id in RowsOf(s, u);
      SameShows(s.rows, s'.rows, u, Mfa.CodesOf(Serial(db, s), u));
    case Consume(id) => ConsumeAgrees(db, s, id, u);
    case _ =>
  }

  lemma SameShows(rows: map<RowId, Row>, rows': map<RowId, Row>, u: UserId, m: map<Hash, bool>)
    requires Shows(rows, u, m)
    requires forall id | id in rows && rows[id].user == u :: id in rows' && rows'[id] == rows[id]
    requires forall id | id in rows' && rows'[id].user == u :: id in rows && rows[id].user == u
    ensures Shows(rows', u, m)
  {
    forall h | h in m ensures HasHash(rows', u, h) {
      assert HasHash(rows, u, h);
    }
  }

  lemma ConsumeAgrees(db: Mfa.Db, s: State, id: RowId, u: UserId)
    requires Inv(s) && Replayed(db, s) && Enabled(s, Consume(id)) && Agrees(db, s, u)
    ensures Agrees(db, Apply(s, Consume(id)), u)
  {
    var r := s.rows[id];
    SerialSnoc(db, s.history, Mfa.Consume(r.user, r.hash));
    SerialConsume(Serial(db, s), r.user, r.hash);
    ConsumeShows(s.rows, id, u, Mfa.CodesOf(Serial(db, s), u));
  }

  lemma ConsumeShows(rows: map<RowId, Row>, id: RowId, u: UserId, m: map<Hash, bool>)
    requires Unique(rows) && Shows(rows, u, m) && id in rows && !rows[id].used
    ensures var r := rows[id];
            var rows' := rows[id := r.(used := true)];
            if r.user == u then r.hash in m && !m[r.hash] && Shows(rows', u, m[r.hash := true]) else Shows(rows', u, m)
  {
    var r := rows[id];
    var rows' := rows[id := r.(used := true)];
    forall h | h in m ensures HasHash(rows', u, h) {
      assert HasHash(rows, u, h);
      var q :| q in rows && rows[q].user == u && rows[q].hash == h;
      assert rows'[q].user == u && rows'[q].hash == h;
    }
    assert forall q | q in rows && q != id :: !Same(rows[q], r);
  }

  /** The stored codes of u agree with the serial history at every point of the run. */
  ghost predicate AgreesThroughout(db: Mfa.Db, s: State, steps: seq<Step>, u: UserId)
    requires ValidRun(s, steps)
  {
    Agrees(db, Run(s, steps), u) && (steps != [] ==> AgreesThroughout(db, s, steps[..|steps| - 1], u))
  }

  /** Exactly the runs in which no two consecutive writers of the user overlap store, at every point, what
      the same commits and consumptions would have stored one after the other. */
  lemma {:induction false} SerialIffNoOverlap(db: Mfa.Db, s: State, steps: seq<Step>, u: UserId)
    requires Starts(s, db) && ValidRun(s, steps)
    ensures AgreesThroughout(db, s, steps, u) <==> NoOverlap(LogOf(Run(s, steps), u))
    decreases |steps|
  {
    if steps == [] {
      assert Serial(db, s) == db;
    } else {
      var init, step := steps[..|steps| - 1], steps[|steps| - 1];
      SerialIffNoOverlap(db, s, init, u);
      RunKeepsReplayed(s, db, init);
      LastStepSerial(db, Run(s, init), step, u);
      if !AgreesThroughout(db, s, init, u) {
        LogGrows(Run(s, init), step, u);
      } else {
        AgreesNow(db, s, init, u);
      }
    }
  }

  lemma AgreesNow(db: Mfa.Db, s: State, steps: seq<Step>, u: UserId)
    requires ValidRun(s, steps) && AgreesThroughout(db, s, steps, u)
    ensures Agrees(db, Run(s, steps), u)
  {
  }

  lemma LogGrows(s: State, step: Step, u: UserId)
    requires Enabled(s, step)
    ensures NoOverlap(LogOf(Apply(s, step), u)) ==> NoOverlap(LogOf(s, u))
  {
    if step.Commit? && s.txs[step.t].user == u {
      var tx := s.txs[step.t];
      NoOverlapSnoc(LogOf(s, u), Entry(Installed(tx.job), tx.added.Keys, tx.snapAt));
    }
  }

  lemma LastStepSerial(db: Mfa.Db, s: State, step: Step, u: UserId)
    requires Inv(s) && Replayed(db, s) && Enabled(s, step)
    ensures Agrees(db, s, u) && NoOverlap(LogOf(s, u)) ==>
              (Agrees(db, Apply(s, step), u) <==> NoOverlap(LogOf(Apply(s, step), u)))
  {
    if Agrees(db, s, u) && NoOverlap(LogOf(s, u)) {
      if step.Commit? && s.txs[step.t].user == u {
        var tx := s.txs[step.t];
        NoOverlapSnoc(LogOf(s, u), Entry(Installed(tx.job), tx.added.Keys, tx.snapAt));
        if Follows(LogOf(s, u), tx.snapAt) {
          FollowerHoldsAll(db, s, step.t);
          FollowerAgrees(db, s, step.t);
        } else {
          OverlapDisagrees(db, s, step.t);
        }
      } else {
        OtherStepAgrees(db, s, step, u);
      }
    }
  }

  /** The stored set of u is what its last committed replacement or disable installed. */
  ghost predicate StoresLast(s: State, u: UserId) {
    var log := LogOf(s, u);
    log != [] ==> forall h :: HasHash(s.rows, u, h) <==> h in log[|log| - 1].installed
  }

  ghost predicate StoresLastThroughout(s: State, steps: seq<Step>, u: UserId)
    requires ValidRun(s, steps)
  {
    StoresLast(Run(s, steps), u) && (steps != [] ==> StoresLastThroughout(s, steps[..|steps| - 1], u))
  }

  lemma AgreeingStoresLast(db: Mfa.Db, s: State, u: UserId)
    requires Replayed(db, s) && Agrees(db, s, u)
    ensures StoresLast(s, u)
  {
    assert HoldsLast(Serial(db, s), LogOf(s, u), u);
  }

  lemma {:induction false} AgreeingStoresLastThroughout(db: Mfa.Db, s: State, steps: seq<Step>, u: UserId)
    requires Starts(s, db) && ValidRun(s, steps) && AgreesThroughout(db, s, steps, u)
    ensures StoresLastThroughout(s, steps, u)
    decreases |steps|
  {
    RunKeepsReplayed(s, db, steps);
    AgreeingStoresLast(db, Run(s, steps), u);
    if steps != [] {
      AgreeingStoresLastThroughout(db, s, steps[..|steps| - 1], u);
    }
  }

  lemma {:induction false} StoringLastIsNoOverlap(db: Mfa.Db, s: State, steps: seq<Step>, u: UserId)
    requires Starts(s, db) && ValidRun(s, steps) && StoresLastThroughout(s, steps, u)
    ensures NoOverlap(LogOf(Run(s, steps), u))
    decreases |steps|
  {
    if steps != [] {
      var init, step := steps[..|steps| - 1], steps[|steps| - 1];
      StoringLastIsNoOverlap(db, s, init, u);
      RunKeepsInv(s, db, init);
      LastStepStores(Run(s, init), step, u);
    }
  }

  lemma LastStepStores(s: State, step: Step, u: UserId)
    requires Inv(s) && Enabled(s, step) && NoOverlap(LogOf(s, u)) && StoresLast(Apply(s, step), u)
    ensures NoOverlap(LogOf(Apply(s, step), u))
  {
    if step.Commit? && s.txs[step.t].user == u {
      var tx, s' := s.txs[step.t], Apply(s, step);
      var e := Entry(Installed(tx.job), tx.added.Keys, tx.snapAt);
      NoOverlapSnoc(LogOf(s, u), e);
      assert LogOf(s', u) == LogOf(s, u) + [e];
      if !Follows(LogOf(s, u), tx.snapAt) {
        var id := OverlapLeavesRow(s, step.t);
        assert HasHash(s'.rows, u, s'.rows[id].hash);
      }
    }
  }

  /** At every point the stored set is the one the last committed writer installed, exactly when no two
      consecutive writers of the user overlap. */
  lemma LastSetIffNoOverlap(db: Mfa.Db, s: State, steps: seq<Step>, u: UserId)
    requires Starts(s, db) && ValidRun(s, steps)
    ensures StoresLastThroughout(s, steps, u) <==> NoOverlap(LogOf(Run(s, steps), u))
  {
    SerialIffNoOverlap(db, s, steps, u);
    if StoresLastThroughout(s, steps, u) {
      StoringLastIsNoOverlap(db, s, steps, u);
    } else if AgreesThroughout(db, s, steps, u) {
      AgreeingStoresLastThroughout(db, s, steps, u);
    }
  }

  // ----- Failures leave no trace -----

  /** The steps of everybody but transaction t. */
  function Without(steps: seq<Step>, t: TxId): seq<Step> {
    if steps == [] then []
    else
      var step := steps[|steps| - 1];
      Without(steps[..|steps| - 1], t) + (if !step.Consume? && step.t == t then [] else [step])
  }

  /** The same committed rows, history and other transactions. */
  predicate SameButFor(s: State, s': State, t: TxId) {
    && s'.users == s.users && s'.rows == s.rows && s'.log == s.log && s'.history == s.history
    && s'.txs == s.txs - {t} && s'.ids <= s.ids
  }

  lemma OthersGoOn(s: State, s': State, step: Step, t: TxId)
    requires SameButFor(s, s', t) && Enabled(s, step) && (step.Consume? || step.t != t)
    ensures Enabled(s', step) && SameButFor(Apply(s, step), Apply(s', step), t)
  {
    if step.InsertRow? {
      assert s'.txs[step.t] == s.txs[step.t];
      assert forall o | o in s'.txs :: o in s.txs && s'.txs[o] == s.txs[o];
    }
  }

  /** A transaction that has not committed, rolled back or not, might as well never have run: everybody
      else's steps are possible without it and leave the same committed rows and the same history. */
  lemma {:induction false} UncommittedLeavesNoTrace(s: State, steps: seq<Step>, t: TxId)
    requires ValidRun(s, steps) && t !in s.txs && !In(Run(s, steps), t, Committed)
    ensures ValidRun(s, Without(steps, t)) && SameButFor(Run(s, steps), Run(s, Without(steps, t)), t)
    decreases |steps|
  {
    if steps == [] {
      assert s.txs - {t} == s.txs;
    } else {
      var init, step := steps[..|steps| - 1], steps[|steps| - 1];
      CommittedStays(Run(s, init), step, t);
      UncommittedLeavesNoTrace(s, init, t);
      if step.Consume? || step.t != t {
        OthersGoOn(Run(s, init), Run(s, Without(init, t)), step, t);
        RunSnoc(s, Without(init, t), step);
      } else {
        assert Without(steps, t) == Without(init, t);
        OwnStepHidden(Run(s, init), step, t);
      }
    }
  }

  lemma CommittedStays(s: State, step: Step, t: TxId)
    requires Enabled(s, step)
    ensures In(s, t, Committed) ==> In(Apply(s, step), t, Committed)
  {
  }

  lemma OwnStepHidden(s: State, step: Step, t: TxId)
    requires Enabled(s, step) && !step.Consume? && step.t == t && !step.Commit?
    ensures var s' := Apply(s, step);
            && s'.users == s.users && s'.rows == s.rows && s'.log == s.log && s'.history == s.history
            && s'.txs - {t} == s.txs - {t} && s.ids <= s'.ids
  {
  }

  // ----- Two overlapping replacements -----

  lemma Then(s0: State, steps: seq<Step>, step: Step, s': State) returns (steps': seq<Step>)
    requires ValidRun(s0, steps) && Enabled(Run(s0, steps), step) && s' == Apply(Run(s0, steps), step)
    ensures steps' == steps + [step] && ValidRun(s0, steps') && Run(s0, steps') == s'
  {
    RunSnoc(s0, steps, step);
    steps' := steps + [step];
  }

  lemma ThenThree(s0: State, steps: seq<Step>, a: Step, b: Step, c: Step) returns (steps': seq<Step>)
    requires ValidRun(s0, steps) && Enabled(Run(s0, steps), a) && Enabled(Apply(Run(s0, steps), a), b)
    requires Enabled(Apply(Apply(Run(s0, steps), a), b), c)
    ensures ValidRun(s0, steps') && Run(s0, steps') == Apply(Apply(Apply(Run(s0, steps), a), b), c)
  {
    RunSnoc(s0, steps, a);
    RunSnoc(s0, steps + [a], b);
    RunSnoc(s0, steps + [a] + [b], c);
    steps' := steps + [a] + [b] + [c];
  }

  /** One user with one code, and nothing under way. */
  function OneCode(u: UserId, h: Hash): State {
    State({u}, map[0 := Row(u, h, false)], map[], {0}, map[], [])
  }

  function Begun(u: UserId, h: Hash): Tx {
    Tx(u, Replacing([h]), Working, {0}, {0}, {}, map[], 0, 0)
  }

  /** The first replacement has committed, the second has only begun its delete. */
  function HalfWay(u: UserId, h1: Hash, h2: Hash): State {
    var done := Tx(u, Replacing([h1]), Committed, {0}, {}, {}, map[], 1, 0);
    State({u}, map[1 := Row(u, h1, false)], map[1 := done, 2 := Begun(u, h2)], {0, 1}, map[u := [Entry({h1}, {1}, 0)]], [Mfa.Replace(u, [h1], Mfa.NoFault)])
  }

  lemma BothBegin(u: UserId, h0: Hash, h1: Hash, h2: Hash) returns (steps: seq<Step>)
    ensures ValidRun(OneCode(u, h0), steps)
    ensures Run(OneCode(u, h0), steps) == OneCode(u, h0).(txs := map[1 := Begun(u, h1), 2 := Begun(u, h2)])
  {
    var s := OneCode(u, h0);
    var open1 := Tx(u, Replacing([h1]), Opened, {}, {}, {}, map[], 0, 0);
    var open2 := Tx(u, Replacing([h2]), Opened, {}, {}, {}, map[], 0, 0);
    steps := Then(s, [], Open(1, u, Replacing([h1])), s.(txs := map[1 := open1]));
    steps := Then(s, steps, Open(2, u, Replacing([h2])), s.(txs := map[1 := open1, 2 := open2]));
    assert RowsOf(Run(s, steps), u) == {0};
    assert Run(s, steps).txs[1 := Begun(u, h1)] == map[1 := Begun(u, h1), 2 := open2];
    steps := Then(s, steps, BeginDelete(1), s.(txs := map[1 := Begun(u, h1), 2 := open2]));
    assert RowsOf(Run(s, steps), u) == {0};
    assert Run(s, steps).txs[2 := Begun(u, h2)] == map[1 := Begun(u, h1), 2 := Begun(u, h2)];
    steps := Then(s, steps, BeginDelete(2), s.(txs := map[1 := Begun(u, h1), 2 := Begun(u, h2)]));
  }

  /** Both have begun; the first holds the old row and has written its new one. */
  function FirstWritten(u: UserId, h0: Hash, h1: Hash, h2: Hash): State {
    var tx := Tx(u, Replacing([h1]), Working, {0}, {}, {0}, map[1 := Row(u, h1, false)], 1, 0);
    State({u}, map[0 := Row(u, h0, false)], map[1 := tx, 2 := Begun(u, h2)], {0, 1}, map[], [])
  }

  function FirstHolds(u: UserId, h0: Hash, h1: Hash, h2: Hash): State {
    var tx := Tx(u, Replacing([h1]), Working, {0}, {}, {0}, map[], 0, 0);
    OneCode(u, h0).(txs := map[1 := tx, 2 := Begun(u, h2)])
  }

  lemma FirstDeletes(u: UserId, h0: Hash, h1: Hash, h2: Hash)
    ensures var s := OneCode(u, h0).(txs := map[1 := Begun(u, h1), 2 := Begun(u, h2)]);
            Enabled(s, DeleteRow(1, 0)) && Apply(s, DeleteRow(1, 0)) == FirstHolds(u, h0, h1, h2)
  {
    var s := OneCode(u, h0).(txs := map[1 := Begun(u, h1), 2 := Begun(u, h2)]);
    var s1 := Apply(s, DeleteRow(1, 0));
    assert s1.txs[1].todo == {} && s1.txs[1].locked == {0};
    assert s1.txs[1] == FirstHolds(u, h0, h1, h2).txs[1];
    assert s1.txs == FirstHolds(u, h0, h1, h2).txs;
  }

  lemma FirstInserts(u: UserId, h0: Hash, h1: Hash, h2: Hash)
    ensures var s := FirstHolds(u, h0, h1, h2); Enabled(s, InsertRow(1, 1)) && Apply(s, InsertRow(1, 1)) == FirstWritten(u, h0, h1, h2)
  {
    var s2 := Apply(FirstHolds(u, h0, h1, h2), InsertRow(1, 1));
    assert s2.txs[1] == FirstWritten(u, h0, h1, h2).txs[1];
    assert s2.txs == FirstWritten(u, h0, h1, h2).txs && s2.ids == {0, 1};
  }

  lemma FirstCommits(u: UserId, h0: Hash, h1: Hash, h2: Hash)
    ensures var s := FirstWritten(u, h0, h1, h2); Enabled(s, Commit(1)) && Apply(s, Commit(1)) == HalfWay(u, h1, h2)
  {
    var s, half := FirstWritten(u, h0, h1, h2), HalfWay(u, h1, h2);
    var s' := Apply(s, Commit(1));
    assert Installed(Replacing([h1])) == {h1};
    assert (s.rows - {0}) + map[1 := Row(u, h1, false)] == half.rows;
    assert s.txs[1].added.Keys == {1};
    assert s'.log[u] == [Entry({h1}, {1}, 0)];
    assert s'.log == half.log;
    assert s'.txs[1] == half.txs[1];
    assert s'.txs == half.txs;
  }

  lemma SecondWrites(u: UserId, h1: Hash, h2: Hash) returns (s': State)
    requires h1 != h2
    ensures var s := HalfWay(u, h1, h2);
            && Enabled(s, DeleteRow(2, 0)) && Enabled(Apply(s, DeleteRow(2, 0)), InsertRow(2, 2))
            && s' == Apply(Apply(s, DeleteRow(2, 0)), InsertRow(2, 2))
            && Enabled(s', Commit(2)) && Apply(s', Commit(2)).rows == map[1 := Row(u, h1, false), 2 := Row(u, h2, false)]
            && Apply(s', Commit(2)).history == [Mfa.Replace(u, [h1], Mfa.NoFault), Mfa.Replace(u, [h2], Mfa.NoFault)]
  {
    var s1 := Apply(HalfWay(u, h1, h2), DeleteRow(2, 0));
    assert s1.txs[2] == Begun(u, h2).(todo := {});
    s' := Apply(s1, InsertRow(2, 2));
    assert s'.txs[2] == Begun(u, h2).(todo := {}, added := map[2 := Row(u, h2, false)], next := 1);
  }

  /** Two replacements begin on the user's one code and both commit: the second finds the old row gone and
      does not know the first one's, so both new sets end up stored. */
  lemma OverlapStoresBoth(u: UserId, h0: Hash, h1: Hash, h2: Hash) returns (db: Mfa.Db, s: State, steps: seq<Step>)
    requires h1 != h2
    ensures Starts(s, db) && ValidRun(s, steps)
    ensures Shows(Run(s, steps).rows, u, map[h1 := false, h2 := false])
    ensures Run(s, steps).history == [Mfa.Replace(u, [h1], Mfa.NoFault), Mfa.Replace(u, [h2], Mfa.NoFault)]
  {
    db := Mfa.Db(map[u := Mfa.User("", 1, false)], map[], map[u := map[h0 := false]]);
    s := OneCode(u, h0);
    OneCodeStarts(u, h0, db);
    steps := BothBegin(u, h0, h1, h2);
    FirstDeletes(u, h0, h1, h2);
    FirstInserts(u, h0, h1, h2);
    FirstCommits(u, h0, h1, h2);
    steps := ThenThree(s, steps, DeleteRow(1, 0), InsertRow(1, 1), Commit(1));
    var s2 := SecondWrites(u, h1, h2);
    steps := ThenThree(s, steps, DeleteRow(2, 0), InsertRow(2, 2), Commit(2));
    TwoRowsShow(u, h1, h2);
  }

  lemma OneCodeStarts(u: UserId, h: Hash, db: Mfa.Db)
    requires db.users.Keys == {u} && db.totp == map[] && db.codes == map[u := map[h := false]]
    ensures Starts(OneCode(u, h), db)
  {
    var rows := OneCode(u, h).rows;
    assert rows[0] == Row(u, h, false);
    assert HasHash(rows, u, h);
  }

  lemma TwoRowsShow(u: UserId, h1: Hash, h2: Hash)
    requires h1 != h2
    ensures Shows(map[1 := Row(u, h1, false), 2 := Row(u, h2, false)], u, map[h1 := false, h2 := false])
  {
    var rows: map<RowId, Row> := map[1 := Row(u, h1, false), 2 := Row(u, h2, false)];
    assert rows[1] == Row(u, h1, false) && rows[2] == Row(u, h2, false);
    assert HasHash(rows, u, h1) && HasHash(rows, u, h2);
  }

  // ----- Single use, overlapping or not -----

  /** How often the code was consumed. */
  function Spent(history: seq<Mfa.Op>, u: UserId, h: Hash): nat {
    if history == [] then 0
    else Spent(history[..|history| - 1], u, h) + (if history[|history| - 1] == Mfa.Consume(u, h) then 1 else 0)
  }

  /** How often a set with the code was installed. */
  function Installs(log: seq<Entry>, h: Hash): nat {
    if log == [] then 0 else Installs(log[..|log| - 1], h) + (if h in log[|log| - 1].installed then 1 else 0)
  }

  ghost predicate StoredUnused(rows: map<RowId, Row>, u: UserId, h: Hash) {
    exists id | id in rows :: rows[id].user == u && rows[id].hash == h && !rows[id].used
  }

  /** 1 if the code is stored unused. */
  ghost function Unspent(rows: map<RowId, Row>, u: UserId, h: Hash): nat {
    if StoredUnused(rows, u, h) then 1 else 0
  }

  lemma SpentSnoc(history: seq<Mfa.Op>, op: Mfa.Op, u: UserId, h: Hash)
    ensures Spent(history + [op], u, h) == Spent(history, u, h) + if op == Mfa.Consume(u, h) then 1 else 0
  {
    assert (history + [op])[..|history|] == history;
  }

  lemma InstallsSnoc(log: seq<Entry>, e: Entry, h: Hash)
    ensures Installs(log + [e], h) == Installs(log, h) + if h in e.installed then 1 else 0
  {
    assert (log + [e])[..|log|] == log;
  }

  lemma CommitUnspent(rows: map<RowId, Row>, tx: Tx, u: UserId, h: Hash)
    requires (tx.user != u || h !in Installed(tx.job)) && (forall id | id in tx.added :: tx.added[id].user == tx.user)
    requires forall id | id in tx.added :: tx.added[id].hash in Installed(tx.job)
    ensures StoredUnused(AfterCommit(rows, tx), u, h) ==> StoredUnused(rows, u, h)
  {
    if StoredUnused(AfterCommit(rows, tx), u, h) {
      var rows' := AfterCommit(rows, tx);
      var id :| id in rows' && rows'[id].user == u && rows'[id].hash == h && !rows'[id].used;
      assert id in rows && rows[id] == rows'[id];
    }
  }

  lemma CommitInstalls(s: State, t: TxId, u: UserId, h: Hash)
    requires Enabled(s, Commit(t))
    ensures Installs(LogOf(Apply(s, Commit(t)), u), h) ==
            Installs(LogOf(s, u), h) + if s.txs[t].user == u && h in Installed(s.txs[t].job) then 1 else 0
  {
    var tx := s.txs[t];
    if tx.user == u {
      InstallsSnoc(LogOf(s, u), Entry(Installed(tx.job), tx.added.Keys, tx.snapAt), h);
    }
  }

  lemma CommitSpends(s: State, t: TxId, u: UserId, h: Hash)
    requires Enabled(s, Commit(t)) && Written(s.txs[t]) && Adds(s.rows, s.users, s.txs[t])
    ensures var s' := Apply(s, Commit(t));
            && Spent(s'.history, u, h) == Spent(s.history, u, h)
            && Unspent(s'.rows, u, h) + Installs(LogOf(s, u), h) <= Unspent(s.rows, u, h) + Installs(LogOf(s', u), h)
  {
    var tx := s.txs[t];
    SpentSnoc(s.history, OpOf(tx), u, h);
    CommitInstalls(s, t, u, h);
    if tx.user != u || h !in Installed(tx.job) {
      AddedIsInstalled(tx);
      CommitUnspent(s.rows, tx, u, h);
    }
  }

  lemma ConsumeUnspent(rows: map<RowId, Row>, id: RowId, u: UserId, h: Hash)
    requires Unique(rows) && id in rows && !rows[id].used
    ensures var r := rows[id];
            var rows' := rows[id := r.(used := true)];
            if r.user == u && r.hash == h then StoredUnused(rows, u, h) && !StoredUnused(rows', u, h)
            else StoredUnused(rows', u, h) ==> StoredUnused(rows, u, h)
  {
    var r := rows[id];
    var rows' := rows[id := r.(used := true)];
    assert forall q | q in rows && q != id :: !Same(rows[q], r) && rows'[q] == rows[q];
  }

  lemma StepSpends(s: State, step: Step, u: UserId, h: Hash)
    requires Inv(s) && Enabled(s, step)
    ensures var s' := Apply(s, step);
            Spent(s'.history, u, h) + Unspent(s'.rows, u, h) + Installs(LogOf(s, u), h)
            <= Spent(s.history, u, h) + Unspent(s.rows, u, h) + Installs(LogOf(s', u), h)
  {
    match step
    case Commit(t) =>
      assert TxOk(s, s.txs[t]);
      CommitSpends(s, t, u, h);
    case Consume(id) =>
      SpentSnoc(s.history, Mfa.Consume(s.rows[id].user, s.rows[id].hash), u, h);
      ConsumeUnspent(s.rows, id, u, h);
    case _ =>
  }

  /** Whatever overlaps, a code is consumed at most once for each time it was installed. */
  lemma {:induction false} SpendsWithinInstalls(db: Mfa.Db, s: State, steps: seq<Step>, u: UserId, h: Hash)
    requires Starts(s, db) && ValidRun(s, steps)
    ensures var s' := Run(s, steps);
            Spent(s'.history, u, h) + Unspent(s'.rows, u, h) <= Unspent(s.rows, u, h) + Installs(LogOf(s', u), h)
    decreases |steps|
  {
    if steps != [] {
      var init := steps[..|steps| - 1];
      SpendsWithinInstalls(db, s, init, u, h);
      RunKeepsInv(s, db, init);
      StepSpends(Run(s, init), steps[|steps| - 1], u, h);
    }
  }
}
