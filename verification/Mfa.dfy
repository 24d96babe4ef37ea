/** TOTP and backup-code persistence: the SQL statements (db/sqlcgen/auth_mfa.sql.go,
    auth_users.sql.go), the repository over them (auth/mfa_repository.go) and the in-memory repository
    (auth/authtest/authtest.go).  Every statement is one atomic step, and so is a replacement that has the
    database to itself; BackupCodes says when overlapping ones behave like that. */
module Mfa {
  import opened Wrappers

  type UserId = nat
  type Ciphertext = seq<bv8>
  type Hash = seq<bv8>

  datatype User = User(status: string, version: int, totpEnabled: bool)
  datatype Totp = Totp(secret: Ciphertext, verified: bool, counter: int)

  /** Backup codes map each stored hash to whether it has been used. */
  datatype Db = Db(users: map<UserId, User>, totp: map<UserId, Totp>, codes: map<UserId, map<Hash, bool>>)

  /** The foreign keys. */
  predicate ForeignKeys(db: Db) {
    db.totp.Keys <= db.users.Keys && db.codes.Keys <= db.users.Keys
  }

  datatype Op =
    | Upsert(user: UserId, secret: Ciphertext)
    | MarkVerified(user: UserId)
    | Advance(user: UserId, counter: int)
    | RotateSecret(user: UserId, prev: Ciphertext, next: Ciphertext)
    | Disable(user: UserId)
    | Replace(user: UserId, hashes: seq<Hash>, fault: Fault)
    | Consume(user: UserId, hash: Hash)
    | SetStatus(user: UserId, status: string)

  /** What goes wrong with a replacement attempt, if anything. */
  datatype Fault = NoFault | NoTransaction | DeleteFails | InsertFails

  datatype Reply = Done | NotFound | NotAdvanced | Matched(yes: bool) | TransactionRequired | StatementFailed

  function Bit(b: bool): int {
    if b then 1 else 0
  }

  function SetEnabled(u: User, enabled: bool): User {
    u.(totpEnabled := enabled, version := u.version + Bit(u.totpEnabled != enabled))
  }

  function CodesOf(db: Db, user: UserId): map<Hash, bool> {
    if user in db.codes then db.codes[user] else map[]
  }

  function Elements(hashes: seq<Hash>): set<Hash> {
    set h | h in hashes
  }

  function Unused(hashes: seq<Hash>): map<Hash, bool> {
    map h | h in Elements(hashes) :: false
  }

  /** What each operation does and answers. */
  function Step(db: Db, op: Op): (Db, Reply) {
    match op
    case Upsert(user, secret) =>
      if user !in db.users then (db, NotFound)
      else
        var row := if user in db.totp then db.totp[user].(secret := secret) else Totp(secret, false, 0);
        (db.(totp := db.totp[user := row], users := db.users[user := SetEnabled(db.users[user], row.verified)]), Done)
    case MarkVerified(user) =>
      if user !in db.users || user !in db.totp then (db, NotFound)
      else (db.(totp := db.totp[user := db.totp[user].(verified := true)]), Done)
    case Advance(user, counter) =>
      if user !in db.users || user !in db.totp || db.totp[user].counter >= counter then (db, NotAdvanced)
      else (db.(totp := db.totp[user := db.totp[user].(counter := counter)]), Done)
    case RotateSecret(user, prev, next) =>
      if user !in db.users || user !in db.totp || db.totp[user].secret != prev then (db, Matched(false))
      else (db.(totp := db.totp[user := db.totp[user].(secret := next)]), Matched(true))
    case Disable(user) =>
      if user !in db.users then (db, NotFound)
      else (Db(db.users[user := SetEnabled(db.users[user], false)], db.totp - {user}, db.codes - {user}), Done)
    case Replace(user, hashes, fault) =>
      if fault == NoTransaction then (db, TransactionRequired)
      else if fault != NoFault then (db, StatementFailed)
      else if user !in db.users then (db, if hashes == [] then Done else NotFound)
      else (db.(codes := db.codes[user := Unused(hashes)]), Done)
    case Consume(user, hash) =>
      var codes := CodesOf(db, user);
      if user !in db.users || hash !in codes || codes[hash] then (db, Matched(false))
      else (db.(codes := db.codes[user := codes[hash := true]]), Matched(true))
    case SetStatus(user, status) =>
      if user !in db.users then (db, NotFound)
      else (db.(users := db.users[user := db.users[user].(status := status, version := db.users[user].version + 1)]), Done)
  }

  function Run(db: Db, ops: seq<Op>): Db {
    if ops == [] then db else Step(Run(db, ops[..|ops| - 1]), ops[|ops| - 1]).0
  }

  /** The reply to the last operation of a run. */
  function LastReply(db: Db, ops: seq<Op>): Reply
    requires ops != []
  {
    Step(Run(db, ops[..|ops| - 1]), ops[|ops| - 1]).1
  }

  // ----- Statements -----

  class Store {
    var users: map<UserId, User>
    var totp: map<UserId, Totp>
    var codes: map<UserId, map<Hash, bool>>

    ghost function Rows(): Db
      reads this
    {
      Db(users, totp, codes)
    }

    constructor (db: Db)
      ensures Rows() == db
    {
      users, totp, codes := db.users, db.totp, db.codes;
    }

    /** One statement: upsert the secret, then sync the user's flag to the row's verified flag. */
    method UpsertTotpSecret(user: UserId, secret: Ciphertext) returns (r: Reply)
      modifies this
      ensures (Rows(), r) == Step(old(Rows()), Upsert(user, secret))
    {
      if user !in users {
        return NotFound;
      }
      if user in totp {
        totp := totp[user := totp[user].(secret := secret)];
      } else {
        totp := totp[user := Totp(secret, false, 0)];
      }
      var u := users[user];
      if u.totpEnabled != totp[user].verified {
        u := u.(version := u.version + 1);
      }
      users := users[user := u.(totpEnabled := totp[user].verified)];
      return Done;
    }

    method MarkTotpVerified(user: UserId) returns (r: Reply)
      modifies this
      ensures (Rows(), r) == Step(old(Rows()), MarkVerified(user))
    {
      if user !in users || user !in totp {
        return NotFound;
      }
      totp := totp[user := totp[user].(verified := true)];
      return Done;
    }

    method AdvanceTotpCounter(user: UserId, counter: int) returns (r: Reply)
      modifies this
      ensures (Rows(), r) == Step(old(Rows()), Advance(user, counter))
    {
      if user in users && user in totp && totp[user].counter < counter {
        totp := totp[user := totp[user].(counter := counter)];
        return Done;
      }
      return NotAdvanced;
    }

    method RotateTotpSecret(user: UserId, prev: Ciphertext, next: Ciphertext) returns (r: Reply)
      modifies this
      ensures (Rows(), r) == Step(old(Rows()), RotateSecret(user, prev, next))
    {
      if user in users && user in totp && totp[user].secret == prev {
        totp := totp[user := totp[user].(secret := next)];
        return Matched(true);
      }
      return Matched(false);
    }

    method DisableTotp(user: UserId) returns (r: Reply)
      modifies this
      ensures (Rows(), r) == Step(old(Rows()), Disable(user))
    {
      if user !in users {
        return NotFound;
      }
      totp := totp - {user};
      codes := codes - {user};
      var u := users[user];
      users := users[user := u.(totpEnabled := false, version := u.version + (if u.totpEnabled then 1 else 0))];
      return Done;
    }

    method ConsumeBackupCode(user: UserId, hash: Hash) returns (r: Reply)
      modifies this
      ensures (Rows(), r) == Step(old(Rows()), Consume(user, hash))
    {
      if user in users && user in codes && hash in codes[user] && !codes[user][hash] {
        codes := codes[user := codes[user][hash := true]];
        return Matched(true);
      }
      return Matched(false);
    }

    method UpdateStatus(user: UserId, status: string) returns (r: Reply)
      modifies this
      ensures (Rows(), r) == Step(old(Rows()), SetStatus(user, status))
    {
      if user !in users {
        return NotFound;
      }
      users := users[user := users[user].(status := status, version := users[user].version + 1)];
      return Done;
    }

    method DeleteBackupCodes(user: UserId)
      modifies `codes
      ensures codes == if user in users then old(codes) - {user} else old(codes)
    {
      if user in users {
        codes := codes - {user};
      }
    }

    /** Inserts one unused row per hash, or nothing at all: the unique constraint refuses a hash that the
        user already has or that occurs twice. */
    method InsertBackupCodes(user: UserId, raw: seq<Hash>) returns (inserted: nat, ok: bool)
      modifies `codes
      ensures user !in users ==> ok && inserted == 0
      ensures user in users ==> (ok <==> NoRepeats(raw) && Elements(raw) !! CodesOf(old(Rows()), user).Keys)
      ensures user in users && ok ==> inserted == |raw| && codes == old(codes)[user := CodesOf(old(Rows()), user) + Unused(raw)]
      ensures user !in users || !ok ==> codes == old(codes)
    {
      inserted, ok := 0, true;
      if user in users {
        var rows;
        rows, ok := AddRows(if user in codes then codes[user] else map[], raw);
        if ok {
          inserted := |raw|;
          codes := codes[user := rows];
        }
      }
    }

    /** The two statements of a replacement.  A failure between them leaves the user without codes: the
        reason why the repository refuses to run outside a transaction. */
    method ReplaceBackupCodes(user: UserId, hashes: seq<Hash>, fault: Fault) returns (r: Reply)
      modifies `codes
      ensures r == Step(old(Rows()), Replace(user, hashes, fault)).1
      ensures r == Done ==> Rows() == Step(old(Rows()), Replace(user, hashes, fault)).0
      ensures fault == InsertFails ==> CodesOf(Rows(), user) == if user in users then map[] else CodesOf(old(Rows()), user)
      ensures fault in {NoTransaction, DeleteFails} ==> codes == old(codes)
    {
      if fault == NoTransaction {
        return TransactionRequired;
      }
      var raw := Deduplicate(hashes);
      if fault == DeleteFails {
        return StatementFailed;
      }
      DeleteBackupCodes(user);
      if fault == InsertFails {
        return StatementFailed;
      }
      var inserted, ok := InsertBackupCodes(user, raw);
      if !ok {
        return StatementFailed;
      }
      if inserted != |raw| {
        return NotFound;
      }
      if user in users {
        assert map[] + Unused(raw) == Unused(hashes);
        assert codes == old(codes)[user := Unused(hashes)];
      }
      return Done;
    }

    /** The provider's call: the repository inside a transaction, rolled back on any error. */
    method ReplaceInTransaction(user: UserId, hashes: seq<Hash>, fault: Fault) returns (r: Reply)
      modifies `codes
      ensures (Rows(), r) == Step(old(Rows()), Replace(user, hashes, fault))
    {
      var saved := codes;
      r := ReplaceBackupCodes(user, hashes, fault);
      if r != Done {
        codes := saved;
      }
    }
  }

  predicate NoRepeats(s: seq<Hash>) {
    forall i, j | 0 <= i < j < |s| :: s[i] != s[j]
  }

  lemma NoRepeatsSnoc(s: seq<Hash>, h: Hash)
    requires NoRepeats(s)
    ensures NoRepeats(s + [h]) <==> h !in s
  {
    var t := s + [h];
    assert forall i | 0 <= i < |s| :: t[i] == s[i];
    if h in s {
      var i :| 0 <= i < |s| && s[i] == h;
      assert t[i] == t[|s|];
    }
  }

  /** Row by row under the unique constraint. */
  method AddRows(start: map<Hash, bool>, raw: seq<Hash>) returns (rows: map<Hash, bool>, ok: bool)
    ensures ok <==> NoRepeats(raw) && Elements(raw) !! start.Keys
    ensures ok ==> rows == start + Unused(raw)
  {
    rows := start;
    for n := 0 to |raw|
      invariant NoRepeats(raw[..n]) && Elements(raw[..n]) !! start.Keys
      invariant rows == start + Unused(raw[..n])
    {
      var h := raw[n];
      assert raw[..n + 1] == raw[..n] + [h];
      ElementsSnoc(raw[..n], h);
      NoRepeatsSnoc(raw[..n], h);
      if h in rows {
        NotAddable(start, raw, n);
        return rows, false;
      }
      AddsOne(start, raw[..n], h);
      rows := rows[h := false];
    }
    assert raw[..|raw|] == raw;
    return rows, true;
  }

  lemma AddsOne(start: map<Hash, bool>, s: seq<Hash>, h: Hash)
    ensures (start + Unused(s))[h := false] == start + Unused(s + [h])
  {
    ElementsSnoc(s, h);
  }

  lemma NotAddable(start: map<Hash, bool>, raw: seq<Hash>, n: nat)
    requires n < |raw| && (raw[n] in start || raw[n] in Elements(raw[..n]))
    ensures !(NoRepeats(raw) && Elements(raw) !! start.Keys)
  {
    assert raw[n] in Elements(raw);
    if raw[n] in raw[..n] {
      var i :| 0 <= i < n && raw[..n][i] == raw[n];
      assert raw[i] == raw[n];
    }
  }

  /** The repository's loop over the new set: a code appearing twice is one code. */
  method Deduplicate(hashes: seq<Hash>) returns (raw: seq<Hash>)
    ensures NoRepeats(raw) && Elements(raw) == Elements(hashes) && (raw == [] <==> hashes == [])
  {
    var seen: set<Hash> := {};
    raw := [];
    for n := 0 to |hashes|
      invariant seen == Elements(raw) == Elements(hashes[..n])
      invariant NoRepeats(raw)
      invariant (raw == []) == (n == 0)
    {
      assert hashes[..n + 1] == hashes[..n] + [hashes[n]];
      ElementsSnoc(hashes[..n], hashes[n]);
      ElementsSnoc(raw, hashes[n]);
      if hashes[n] !in seen {
        seen := seen + {hashes[n]};
        raw := raw + [hashes[n]];
      }
    }
    assert hashes[..|hashes|] == hashes;
  }

  // ----- Invariants of every run -----

  /** TOTP is required at login only when a verified secret is stored. */
  predicate EnabledHasVerifiedSecret(db: Db) {
    forall u | u in db.users && db.users[u].totpEnabled :: u in db.totp && db.totp[u].verified
  }

  lemma StepKeepsEnabledSound(db: Db, op: Op)
    requires ForeignKeys(db) && EnabledHasVerifiedSecret(db)
    ensures ForeignKeys(Step(db, op).0) && EnabledHasVerifiedSecret(Step(db, op).0)
  {
  }

  lemma {:induction false} RunsKeepEnabledSound(db: Db, ops: seq<Op>)
    requires ForeignKeys(db) && EnabledHasVerifiedSecret(db)
    ensures ForeignKeys(Run(db, ops)) && EnabledHasVerifiedSecret(Run(db, ops))
  {
    if ops != [] {
      RunsKeepEnabledSound(db, ops[..|ops| - 1]);
      StepKeepsEnabledSound(Run(db, ops[..|ops| - 1]), ops[|ops| - 1]);
    }
  }

  predicate EnabledFor(db: Db, u: UserId) {
    u in db.users && db.users[u].totpEnabled
  }

  /** How often a run flips the user's totp_enabled. */
  function Flips(db: Db, ops: seq<Op>, u: UserId): nat {
    if ops == [] then 0
    else
      var before := Run(db, ops[..|ops| - 1]);
      Flips(db, ops[..|ops| - 1], u) + (if EnabledFor(before, u) != EnabledFor(Run(db, ops), u) then 1 else 0)
  }

  /** How many status updates a run addresses to the user. */
  function StatusUpdates(ops: seq<Op>, u: UserId): nat {
    if ops == [] then 0
    else StatusUpdates(ops[..|ops| - 1], u) + (if ops[|ops| - 1].SetStatus? && ops[|ops| - 1].user == u then 1 else 0)
  }

  lemma StepCounts(db: Db, op: Op, u: UserId)
    requires u in db.users
    ensures var db' := Step(db, op).0;
            && u in db'.users
            && db'.users[u].version == db.users[u].version + Bit(EnabledFor(db, u) != EnabledFor(db', u)) + Bit(op.SetStatus? && op.user == u)
  {
  }

  /** The account version counts exactly the flips of totp_enabled and the status updates. */
  lemma {:induction false} VersionCountsTransitions(db: Db, ops: seq<Op>, u: UserId)
    requires u in db.users
    ensures u in Run(db, ops).users
    ensures Run(db, ops).users[u].version == db.users[u].version + Flips(db, ops, u) + StatusUpdates(ops, u)
  {
    if ops != [] {
      VersionCountsTransitions(db, ops[..|ops| - 1], u);
      StepCounts(Run(db, ops[..|ops| - 1]), ops[|ops| - 1], u);
    }
  }

  // ----- Single use -----

  predicate Disables(op: Op, u: UserId) {
    op.Disable? && op.user == u
  }

  /** The counters accepted for the user along a run. */
  function AcceptedCounters(db: Db, ops: seq<Op>, u: UserId): seq<int> {
    if ops == [] then []
    else
      var op := ops[|ops| - 1];
      AcceptedCounters(db, ops[..|ops| - 1], u) +
      (if op.Advance? && op.user == u && LastReply(db, ops) == Done then [op.counter] else [])
  }

  ghost predicate Increasing(s: seq<int>) {
    forall i, j | 0 <= i < j < |s| :: s[i] < s[j]
  }

  function CounterOf(db: Db, u: UserId): int {
    if u in db.totp then db.totp[u].counter else 0
  }

  lemma StepRaisesCounter(db: Db, op: Op, u: UserId)
    requires !Disables(op, u)
    ensures var (db', reply) := Step(db, op);
            && CounterOf(db, u) <= CounterOf(db', u) && (u in db.totp ==> u in db'.totp)
            && (op.Advance? && op.user == u && reply == Done ==> CounterOf(db, u) < op.counter == CounterOf(db', u))
  {
  }

  lemma IncreasingSnoc(s: seq<int>, x: int)
    requires Increasing(s) && forall i | 0 <= i < |s| :: s[i] < x
    ensures Increasing(s + [x])
  {
  }

  /** Between two disables the accepted counters increase strictly, starting above the stored one:
      no code is accepted twice, whatever else happens in between, re-enrolment included. */
  lemma {:induction false} AcceptedCountersIncrease(db: Db, ops: seq<Op>, u: UserId)
    requires forall i | 0 <= i < |ops| :: !Disables(ops[i], u)
    ensures var acc := AcceptedCounters(db, ops, u);
            && Increasing(acc)
            && (forall i | 0 <= i < |acc| :: CounterOf(db, u) < acc[i] <= CounterOf(Run(db, ops), u))
            && CounterOf(db, u) <= CounterOf(Run(db, ops), u)
    ensures u in db.totp ==> u in Run(db, ops).totp
  {
    if ops != [] {
      var init, op := ops[..|ops| - 1], ops[|ops| - 1];
      AcceptedCountersIncrease(db, init, u);
      StepRaisesCounter(Run(db, init), op, u);
      var acc := AcceptedCounters(db, init, u);
      if op.Advance? && op.user == u && LastReply(db, ops) == Done {
        IncreasingSnoc(acc, op.counter);
        assert AcceptedCounters(db, ops, u) == acc + [op.counter];
      } else {
        assert AcceptedCounters(db, ops, u) == acc;
      }
    }
  }

  /** A disable followed by a new enrolment starts the counter over: any positive counter is accepted
      again, also one already used. */
  lemma CounterRestartsAfterDisable(db: Db, u: UserId, secret: Ciphertext, counter: int)
    requires u in db.users && counter > 0
    ensures LastReply(db, [Disable(u), Upsert(u, secret), Advance(u, counter)]) == Done
  {
    var ops := [Disable(u), Upsert(u, secret), Advance(u, counter)];
    assert Run(db, []) == db;
    var one := [Disable(u)];
    assert one[..|one| - 1] == [] && one[|one| - 1] == Disable(u);
    var db1 := Run(db, one);
    assert db1 == Step(db, Disable(u)).0;
    assert u in db1.users && u !in db1.totp;
    var two := [Disable(u), Upsert(u, secret)];
    assert two[..|two| - 1] == one && two[|two| - 1] == Upsert(u, secret);
    var db2 := Run(db, two);
    assert db2 == Step(db1, Upsert(u, secret)).0;
    assert ops[..|ops| - 1] == two;
    assert u in db2.users && u in db2.totp && db2.totp[u].counter == 0;
  }

  /** The operations that install or remove the user's set of codes: the successful ones. */
  predicate TouchesSet(op: Op, reply: Reply, u: UserId) {
    (op.Disable? || op.Replace?) && op.user == u && reply == Done
  }

  /** The reply to the i-th operation of a run. */
  function ReplyAt(db: Db, ops: seq<Op>, i: nat): Reply
    requires i < |ops|
  {
    LastReply(db, ops[..i + 1])
  }

  predicate NoneTouches(db: Db, ops: seq<Op>, u: UserId) {
    forall i | 0 <= i < |ops| :: !TouchesSet(ops[i], ReplyAt(db, ops, i), u)
  }

  /** The codes consumed for the user along a run. */
  function Consumed(db: Db, ops: seq<Op>, u: UserId): seq<Hash> {
    if ops == [] then []
    else
      var op := ops[|ops| - 1];
      Consumed(db, ops[..|ops| - 1], u) + (if Spends(op, LastReply(db, ops), u) then [op.hash] else [])
  }

  function UsedSet(codes: map<Hash, bool>): set<Hash> {
    set h | h in codes && codes[h]
  }

  predicate Spends(op: Op, reply: Reply, u: UserId) {
    op.Consume? && op.user == u && reply == Matched(true)
  }

  lemma StepSpends(db: Db, op: Op, u: UserId)
    requires !TouchesSet(op, Step(db, op).1, u)
    ensures var (db', reply) := Step(db, op);
            var codes := CodesOf(db, u);
            if Spends(op, reply, u) then op.hash in codes && !codes[op.hash] && CodesOf(db', u) == codes[op.hash := true]
            else CodesOf(db', u) == codes
  {
  }

  lemma UsedGrows(codes: map<Hash, bool>, h: Hash)
    requires h in codes
    ensures UsedSet(codes[h := true]) == UsedSet(codes) + {h} && codes[h := true].Keys == codes.Keys
  {
  }

  lemma ElementsSnoc(s: seq<Hash>, h: Hash)
    ensures Elements(s + [h]) == Elements(s) + {h}
  {
  }

  lemma NoneTouchesInit(db: Db, ops: seq<Op>, u: UserId)
    requires ops != [] && NoneTouches(db, ops, u)
    ensures NoneTouches(db, ops[..|ops| - 1], u) && !TouchesSet(ops[|ops| - 1], LastReply(db, ops), u)
  {
    var init := ops[..|ops| - 1];
    forall i | 0 <= i < |init| ensures !TouchesSet(init[i], ReplyAt(db, init, i), u) {
      assert init[..i + 1] == ops[..i + 1];
      assert !TouchesSet(ops[i], ReplyAt(db, ops, i), u);
    }
    assert ops[..|ops| - 1 + 1] == ops;
    assert !TouchesSet(ops[|ops| - 1], ReplyAt(db, ops, |ops| - 1), u);
  }

  /** From one replacement to the next the set stays the installed one, each code is consumed at most
      once, and the used codes are exactly the consumed ones and those used before. */
  lemma {:induction false} CodesAreSingleUse(db: Db, ops: seq<Op>, u: UserId)
    requires NoneTouches(db, ops, u)
    ensures var spent := Consumed(db, ops, u);
            var codes, codes' := CodesOf(db, u), CodesOf(Run(db, ops), u);
            && codes'.Keys == codes.Keys
            && UsedSet(codes') == UsedSet(codes) + Elements(spent)
            && Elements(spent) <= codes.Keys && Elements(spent) !! UsedSet(codes)
            && NoRepeats(spent)
  {
    if ops != [] {
      var init, op := ops[..|ops| - 1], ops[|ops| - 1];
      NoneTouchesInit(db, ops, u);
      CodesAreSingleUse(db, init, u);
      StepSpends(Run(db, init), op, u);
      var spent := Consumed(db, init, u);
      if Spends(op, LastReply(db, ops), u) {
        assert Consumed(db, ops, u) == spent + [op.hash];
        ElementsSnoc(spent, op.hash);
        UsedGrows(CodesOf(Run(db, init), u), op.hash);
        assert op.hash !in Elements(spent);
      } else {
        assert Consumed(db, ops, u) == spent;
      }
    }
  }

  lemma {:induction false} RunSplits(db: Db, ops: seq<Op>, k: nat)
    requires k <= |ops|
    ensures Run(db, ops) == Run(Run(db, ops[..k]), ops[k..])
    ensures k < |ops| ==> LastReply(db, ops) == LastReply(Run(db, ops[..k]), ops[k..])
    decreases |ops|
  {
    if k == |ops| {
      assert ops[..k] == ops && ops[k..] == [];
    } else {
      var init := ops[..|ops| - 1];
      RunSplits(db, init, k);
      assert init[..k] == ops[..k] && init[k..] == ops[k..][..|ops| - k - 1];
    }
  }

  lemma RestTouchesNothing(db: Db, ops: seq<Op>, u: UserId, k: nat)
    requires k <= |ops| && forall i | k <= i < |ops| :: !TouchesSet(ops[i], ReplyAt(db, ops, i), u)
    ensures NoneTouches(Run(db, ops[..k]), ops[k..], u)
  {
    var mid, rest := Run(db, ops[..k]), ops[k..];
    forall i | 0 <= i < |rest| ensures !TouchesSet(rest[i], ReplyAt(mid, rest, i), u) {
      var upto := ops[..k + i + 1];
      RunSplits(db, upto, k);
      assert upto[..k] == ops[..k] && upto[k..] == rest[..i + 1];
      assert !TouchesSet(ops[k + i], ReplyAt(db, ops, k + i), u);
    }
  }

  /** What a successful replacement or disable leaves. */
  lemma TouchingInstalls(db: Db, op: Op, u: UserId)
    requires u in db.users && TouchesSet(op, Step(db, op).1, u)
    ensures CodesOf(Step(db, op).0, u) == if op.Replace? then Unused(op.hashes) else map[]
  {
  }

  /** Whole runs: the stored set is what the last successful replacement or disable left, and its used
      codes are exactly those consumed since, each once. */
  lemma StoredIsLastInstalled(db: Db, ops: seq<Op>, u: UserId, k: nat)
    requires u in db.users
    requires k < |ops| && TouchesSet(ops[k], ReplyAt(db, ops, k), u)
    requires forall i | k < i < |ops| :: !TouchesSet(ops[i], ReplyAt(db, ops, i), u)
    ensures var codes := CodesOf(Run(db, ops), u);
            var spent := Consumed(Run(db, ops[..k + 1]), ops[k + 1..], u);
            && codes.Keys == (if ops[k].Replace? then Elements(ops[k].hashes) else {})
            && UsedSet(codes) == Elements(spent) && NoRepeats(spent)
  {
    RunNext(db, ops, k);
    VersionCountsTransitions(db, ops[..k], u);
    TouchingInstalls(Run(db, ops[..k]), ops[k], u);
    RunSplits(db, ops, k + 1);
    RestTouchesNothing(db, ops, u, k + 1);
    CodesAreSingleUse(Run(db, ops[..k + 1]), ops[k + 1..], u);
  }

  lemma RunNext(db: Db, ops: seq<Op>, k: nat)
    requires k < |ops|
    ensures (Run(db, ops[..k + 1]), ReplyAt(db, ops, k)) == Step(Run(db, ops[..k]), ops[k])
  {
    assert ops[..k + 1][..k] == ops[..k] && ops[..k + 1][k] == ops[k];
  }

  // ----- The in-memory repository -----

  /** The test double's statement of the same operations. */
  function MemoryStep(db: Db, op: Op): (Db, Reply) {
    match op
    case Upsert(user, secret) =>
      if user !in db.users then (db, NotFound)
      else
        var st := (if user in db.totp then db.totp[user] else Totp([], false, 0)).(secret := secret);
        (db.(totp := db.totp[user := st], users := db.users[user := SetEnabled(db.users[user], st.verified)]), Done)
    case MarkVerified(user) =>
      if user !in db.users then (db, NotFound)
      else if user !in db.totp then (db, NotFound)
      else (db.(totp := db.totp[user := db.totp[user].(verified := true)]), Done)
    case Advance(user, counter) =>
      if user !in db.users || user !in db.totp || db.totp[user].counter >= counter then (db, NotAdvanced)
      else (db.(totp := db.totp[user := db.totp[user].(counter := counter)]), Done)
    case RotateSecret(user, prev, next) =>
      if user !in db.users then (db, NotFound)
      else if user !in db.totp || db.totp[user].secret != prev then (db, Matched(false))
      else (db.(totp := db.totp[user := db.totp[user].(secret := next)]), Matched(true))
    case Disable(user) =>
      if user !in db.users then (db, NotFound)
      else (Db(db.users[user := SetEnabled(db.users[user], false)], db.totp - {user}, db.codes - {user}), Done)
    case Replace(user, hashes, fault) =>
      if user !in db.users then (db, NotFound)
      else (db.(codes := db.codes[user := Unused(hashes)]), Done)
    case Consume(user, hash) =>
      if user !in db.users then (db, Matched(false))
      else
        var codes := CodesOf(db, user);
        if hash !in codes || codes[hash] then (db, Matched(false))
        else (db.(codes := db.codes[user := codes[hash := true]]), Matched(true))
    case SetStatus(user, status) =>
      if user !in db.users then (db, NotFound)
      else
        var u := db.users[user];
        (db.(users := db.users[user := u.(status := status, version := u.version + 1)]), Done)
  }

  /** Where the two disagree: a rotation or an empty replacement for a user that does not exist, and the
      transaction rules, which only the relational store has. */
  predicate DoublesDiffer(db: Db, op: Op) {
    match op
    case RotateSecret(user, _, _) => user !in db.users
    case Replace(user, hashes, fault) =>
      fault != NoFault || (user !in db.users && hashes == [])
    case _ => false
  }

  /** The in-memory repository gives the same reply and the same rows exactly outside those cases. */
  lemma MemoryAgreesExactly(db: Db, op: Op)
    ensures MemoryStep(db, op) == Step(db, op) <==> !DoublesDiffer(db, op)
  {
    if op.Replace? && op.user in db.users && op.fault == NoFault {
      assert MemoryStep(db, op) == Step(db, op);
    }
  }
}
