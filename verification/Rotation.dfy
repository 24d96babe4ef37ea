/** Re-encryption of stored TOTP secrets under the active key: the batch command
    (cmd/rotatetotpkey/main.go), the lazy rotation at login (auth/provider_store.go) and the
    compare-and-swap they share (db/sqlcgen/auth_mfa.sql.go). */
module Rotation {
  import opened Wrappers
  import opened SecretCipher

  type Table = map<UserId, Bytes>

  // ----- The writers of the table -----

  /** One statement against the table.  `Swap` is the write of a rotator, batch or lazy, that read the
      ciphertext `prev` at any earlier time. */
  datatype Write =
    | Enrol(ring: Cipher, user: UserId, plain: Bytes, nonce: Bytes)
    | Disable(user: UserId)
    | Swap(ring: Cipher, user: UserId, prev: Bytes, nonce: Bytes)

  /** Replaces the ciphertext only if it still equals prev. */
  function Cas(t: Table, user: UserId, prev: Bytes, next: Bytes): Table {
    if user in t && t[user] == prev then t[user := next] else t
  }

  predicate WriteOk(w: Write) {
    w.Disable? || (ValidCipher(w.ring) && |w.nonce| == NONCE_SIZE)
  }

  function ApplyWrite(a: Aead, t: Table, w: Write): Table
    requires WriteOk(w)
  {
    match w
    case Enrol(ring, user, plain, nonce) => t[user := Seal(a, ring, user, plain, Some(nonce)).value]
    case Disable(user) => t - {user}
    case Swap(ring, user, prev, nonce) =>
      if !NeedsRotation(ring, prev) then t
      else
        match Open(a, ring, user, prev)
        case Err(_) => t
        case Ok(plain) => Cas(t, user, prev, Seal(a, ring, user, plain, Some(nonce)).value)
  }

  predicate WritesOk(ws: seq<Write>) {
    forall i | 0 <= i < |ws| :: WriteOk(ws[i])
  }

  function ApplyWrites(a: Aead, t: Table, ws: seq<Write>): Table
    requires WritesOk(ws)
    decreases |ws|
  {
    if ws == [] then t else ApplyWrites(a, ApplyWrite(a, t, ws[0]), ws[1..])
  }

  /** What the table means: for every user, what its ciphertext opens to under the full ring m. */
  function View(a: Aead, m: Cipher, t: Table): map<UserId, Result<Bytes, OpenError>> {
    map u | u in t :: Open(a, m, u, t[u])
  }

  /** The same history with every rotation erased. */
  function Replay(v: map<UserId, Result<Bytes, OpenError>>, ws: seq<Write>): map<UserId, Result<Bytes, OpenError>>
    decreases |ws|
  {
    if ws == [] then v
    else
      match ws[0]
      case Enrol(_, user, plain, _) => Replay(v[user := Ok(plain)], ws[1..])
      case Disable(user) => Replay(v - {user}, ws[1..])
      case Swap(_, _, _, _) => Replay(v, ws[1..])
  }

  /** Every writer's ring is part of the full ring. */
  predicate WithinRing(m: Cipher, w: Write) {
    w.Disable? || SubRing(w.ring, m)
  }

  /** A swap that takes effect installs a ciphertext with the same meaning. */
  lemma SwapKeepsView(a: Aead, m: Cipher, ring: Cipher, t: Table, user: UserId, prev: Bytes, nonce: Bytes)
    requires Lawful(a) && ValidCipher(ring) && |nonce| == NONCE_SIZE && SubRing(ring, m)
    requires Open(a, ring, user, prev).Ok?
    ensures var next := Seal(a, ring, user, Open(a, ring, user, prev).value, Some(nonce)).value;
            && Open(a, m, user, next) == Open(a, m, user, prev) == Open(a, ring, user, prev)
            && View(a, m, Cas(t, user, prev, next)) == View(a, m, t)
  {
    var plain := Open(a, ring, user, prev).value;
    OpenUndoesSeal(a, ring, m, user, plain, nonce);
    SubRingOpensAlike(a, ring, m, user, prev);
  }

  lemma WriteView(a: Aead, m: Cipher, t: Table, w: Write)
    requires Lawful(a) && WriteOk(w) && WithinRing(m, w)
    ensures View(a, m, ApplyWrite(a, t, w)) == Replay(View(a, m, t), [w])
  {
    assert [w][1..] == [];
    match w
    case Enrol(ring, user, plain, nonce) => OpenUndoesSeal(a, ring, m, user, plain, nonce);
    case Disable(user) =>
    case Swap(ring, user, prev, nonce) =>
      if Open(a, ring, user, prev).Ok? {
        SwapKeepsView(a, m, ring, t, user, prev, nonce);
      }
  }

  /** In every interleaving of enrolments, disables, batch and lazy rotations, the table of decrypted
      secrets is what it would have been with no rotation at all. */
  lemma {:induction false} RotationsInvisible(a: Aead, m: Cipher, t: Table, ws: seq<Write>)
    requires Lawful(a) && WritesOk(ws)
    requires forall i | 0 <= i < |ws| :: WithinRing(m, ws[i])
    ensures View(a, m, ApplyWrites(a, t, ws)) == Replay(View(a, m, t), ws)
    decreases |ws|
  {
    if ws != [] {
      var t1 := ApplyWrite(a, t, ws[0]);
      WriteView(a, m, t, ws[0]);
      RotationsInvisible(a, m, t1, ws[1..]);
      assert [ws[0]][1..] == [];
    }
  }

  // ----- The keyset scan -----

  datatype Row = Row(user: UserId, ct: Bytes)

  lemma LeastOf(s: set<UserId>) returns (m: UserId)
    requires s != {}
    ensures m in s && forall v | v in s :: m <= v
    decreases |s|
  {
    var x :| x in s;
    m := x;
    if s != {x} {
      var rest := LeastOf(s - {x});
      m := if rest < x then rest else x;
      assert forall v | v in s :: v == x || v in s - {x};
    }
  }

  predicate IsNext(t: Table, after: int, u: UserId) {
    u in t && u > after && forall v | v in t && v > after :: u <= v
  }

  lemma NextExists(t: Table, after: int)
    requires exists u | u in t :: u > after
    ensures exists u | u in t :: IsNext(t, after, u)
  {
    var above := set v | v in t && v > after;
    var w :| w in t && w > after;
    assert w in above;
    var u := LeastOf(above);
    assert forall v | v in t && v > after :: v in above;
    assert IsNext(t, after, u);
  }

  predicate SomeoneAfter(t: Table, after: int) {
    exists u | u in t :: u > after
  }

  function NextUser(t: Table, after: int): (u: UserId)
    requires SomeoneAfter(t, after)
    ensures IsNext(t, after, u)
  {
    NextExists(t, after);
    var u :| u in t && IsNext(t, after, u);
    u
  }

  /** Up to limit rows with a user id above `after`, in user id order (-1 selects the first page). */
  function ListRows(t: Table, after: int, limit: nat): seq<Row>
    decreases limit
  {
    if limit == 0 || !SomeoneAfter(t, after) then []
    else
      var u := NextUser(t, after);
      [Row(u, t[u])] + ListRows(t, u, limit - 1)
  }

  ghost predicate Within(rows: seq<Row>, u: UserId) {
    exists i | 0 <= i < |rows| :: rows[i].user == u
  }

  /** The page is in strict order, holds only current rows, and skips nobody up to its last row. */
  ghost predicate IsPage(t: Table, after: int, rows: seq<Row>) {
    && (forall i | 0 <= i < |rows| :: rows[i].user in t && rows[i].ct == t[rows[i].user] && rows[i].user > after)
    && (forall i, j | 0 <= i < j < |rows| :: rows[i].user < rows[j].user)
    && (forall u | u in t && rows != [] && after < u <= rows[|rows| - 1].user :: Within(rows, u))
  }

  lemma PageCons(t: Table, after: int, u: UserId, rest: seq<Row>)
    requires IsNext(t, after, u) && IsPage(t, u, rest)
    ensures IsPage(t, after, [Row(u, t[u])] + rest)
  {
    var rows := [Row(u, t[u])] + rest;
    forall v | v in t && after < v <= rows[|rows| - 1].user ensures Within(rows, v) {
      if v == u {
        assert rows[0].user == v;
      } else {
        assert rest != [] && rest[|rest| - 1] == rows[|rows| - 1];
        var i :| 0 <= i < |rest| && rest[i].user == v;
        assert rows[i + 1].user == v;
      }
    }
  }

  lemma {:induction false} ListRowsIsPage(t: Table, after: int, limit: nat)
    ensures IsPage(t, after, ListRows(t, after, limit)) && |ListRows(t, after, limit)| <= limit
    ensures limit > 0 && ListRows(t, after, limit) == [] ==> forall u | u in t :: u <= after
    decreases limit
  {
    if limit != 0 && SomeoneAfter(t, after) {
      var u := NextUser(t, after);
      ListRowsIsPage(t, u, limit - 1);
      PageCons(t, after, u, ListRows(t, u, limit - 1));
    }
  }

  /** A page that is not full leaves nobody out. */
  lemma {:induction false} ShortPageIsLast(t: Table, after: int, limit: nat, v: UserId)
    requires |ListRows(t, after, limit)| < limit && v in t && v > after
    ensures Within(ListRows(t, after, limit), v)
    decreases limit
  {
    assert SomeoneAfter(t, after);
    var u := NextUser(t, after);
    var rows, rest := ListRows(t, after, limit), ListRows(t, u, limit - 1);
    if v == u {
      assert rows[0].user == v;
    } else {
      ShortPageIsLast(t, u, limit - 1, v);
      var i :| 0 <= i < |rest| && rest[i].user == v;
      assert rows[i + 1].user == v;
    }
  }

  // ----- The repository, with everybody else at work in between -----

  /** When a statement fails, it may have done nothing or have taken effect before the error. */
  datatype Fault = NoFault | LostRequest | LostReply

  /** What the surroundings do at the k-th repository call: the writes of others since the previous
      call, whether the call fails, what the random source delivers, and whether the run is cancelled. */
  datatype World = World(writes: nat -> seq<Write>, faults: nat -> Fault, nonces: nat -> Option<Bytes>, cancelled: nat -> bool)

  ghost predicate WorldOk(w: World) {
    && (forall k: nat :: WritesOk(w.writes(k)))
    && (forall k: nat :: w.nonces(k).Some? ==> |w.nonces(k).value| == NONCE_SIZE)
  }

  /** Others hold part of the ring and seal under the same active key. */
  ghost predicate SharesKeys(c: Cipher, w: World) {
    forall k: nat, i | 0 <= i < |w.writes(k)| ::
      WithinRing(c, w.writes(k)[i]) && (w.writes(k)[i].Disable? || w.writes(k)[i].ring.active == c.active)
  }

  class Repository {
    var table: Table

    constructor (t: Table)
      ensures table == t
    {
      table := t;
    }

    method Settle(a: Aead, ws: seq<Write>)
      requires WritesOk(ws)
      modifies this
      ensures table == ApplyWrites(a, old(table), ws)
    {
      var i := 0;
      while i < |ws|
        invariant 0 <= i <= |ws|
        invariant ApplyWrites(a, table, ws[i..]) == ApplyWrites(a, old(table), ws)
      {
        assert ws[i..][1..] == ws[i + 1..];
        table := ApplyWrite(a, table, ws[i]);
        i := i + 1;
      }
    }

    method ListTotpSecrets(a: Aead, w: World, k: nat, after: int, limit: int) returns (rows: Option<seq<Row>>)
      requires WorldOk(w)
      modifies this
      ensures table == ApplyWrites(a, old(table), w.writes(k))
      ensures rows.None? <==> limit >= 1 && w.faults(k) != NoFault
      ensures rows.Some? ==> rows.value == if limit < 1 then [] else ListRows(table, after, if limit < 1_000_000 then limit else 1_000_000)
    {
      Settle(a, w.writes(k));
      if limit < 1 {
        return Some([]);
      }
      if w.faults(k) != NoFault {
        return None;
      }
      rows := Some(ListRows(table, after, if limit < 1_000_000 then limit else 1_000_000));
    }

    method RotateTotpSecret(a: Aead, w: World, k: nat, user: UserId, prev: Bytes, next: Bytes) returns (swapped: Option<bool>, ghost before: Table)
      requires WorldOk(w)
      modifies this
      ensures before == ApplyWrites(a, old(table), w.writes(k))
      ensures table == if w.faults(k) == LostRequest then before else Cas(before, user, prev, next)
      ensures swapped == if w.faults(k) != NoFault then None else Some(user in before && before[user] == prev)
    {
      Settle(a, w.writes(k));
      before := table;
      if w.faults(k) == LostRequest {
        return None, before;
      }
      var match_ := user in table && table[user] == prev;
      if match_ {
        table := table[user := next];
      }
      swapped := if w.faults(k) == NoFault then Some(match_) else None;
    }
  }

  // ----- The batch command -----

  datatype Outcome = Current | Rotated | Skipped | OpenFailed | WriteFailed

  datatype Visit = Visit(user: UserId, ct: Bytes, outcome: Outcome)

  datatype Tally = Tally(scanned: nat, current: nat, rotated: nat, skipped: nat, failed: nat, failures: seq<UserId>)

  function Count(log: seq<Visit>, o: Outcome): nat {
    if log == [] then 0 else Count(log[..|log| - 1], o) + (if log[|log| - 1].outcome == o then 1 else 0)
  }

  function FailuresOf(log: seq<Visit>): seq<UserId> {
    if log == [] then []
    else
      var v := log[|log| - 1];
      FailuresOf(log[..|log| - 1]) + (if v.outcome in {OpenFailed, WriteFailed} then [v.user] else [])
  }

  /** What the command reports for the visits it made. */
  function TallyOf(log: seq<Visit>): Tally {
    Tally(|log|, Count(log, Current), Count(log, Rotated), Count(log, Skipped), Count(log, OpenFailed) + Count(log, WriteFailed), FailuresOf(log))
  }

  function Record(t: Tally, v: Visit): Tally {
    match v.outcome
    case Current => t.(scanned := t.scanned + 1, current := t.current + 1)
    case Rotated => t.(scanned := t.scanned + 1, rotated := t.rotated + 1)
    case Skipped => t.(scanned := t.scanned + 1, skipped := t.skipped + 1)
    case _ => t.(scanned := t.scanned + 1, failed := t.failed + 1, failures := t.failures + [v.user])
  }

  lemma TallySnoc(log: seq<Visit>, v: Visit)
    ensures TallyOf(log + [v]) == Record(TallyOf(log), v)
  {
    assert (log + [v])[..|log|] == log;
  }

  lemma {:induction false} TallyAddsUp(log: seq<Visit>)
    ensures var t := TallyOf(log); t.scanned == t.current + t.rotated + t.skipped + t.failed
  {
    if log != [] {
      TallyAddsUp(log[..|log| - 1]);
      TallySnoc(log[..|log| - 1], log[|log| - 1]);
      assert log[..|log| - 1] + [log[|log| - 1]] == log;
    }
  }

  ghost predicate InOrder(log: seq<Visit>, cursor: int) {
    && (forall i, j | 0 <= i < j < |log| :: log[i].user < log[j].user)
    && (forall i | 0 <= i < |log| :: log[i].user <= cursor)
  }

  ghost predicate Visited(log: seq<Visit>, u: UserId) {
    exists i | 0 <= i < |log| :: log[i].user == u
  }

  /** The visit to u failed on exactly this ciphertext; an OpenFailed one because it does not open. */
  ghost predicate FailedOn(a: Aead, c: Cipher, log: seq<Visit>, u: UserId, ct: Bytes) {
    exists i | 0 <= i < |log| ::
      && log[i].user == u && log[i].ct == ct
      && (log[i].outcome == WriteFailed || (log[i].outcome == OpenFailed && Open(a, c, u, ct).Err?))
  }

  /** Up to the cursor, only failed rows still need rotation. */
  ghost predicate DoneUpTo(a: Aead, c: Cipher, t: Table, log: seq<Visit>, cursor: int) {
    forall u | u in t && u <= cursor && NeedsRotation(c, t[u]) :: FailedOn(a, c, log, u, t[u])
  }

  /** From t to t' no row came to need rotation: what needs it now is an unchanged row. */
  ghost predicate Calm(c: Cipher, t: Table, t': Table) {
    forall u | u in t' && NeedsRotation(c, t'[u]) :: u in t && t[u] == t'[u]
  }

  lemma WriteCalm(a: Aead, c: Cipher, t: Table, w: Write)
    requires Lawful(a) && ValidCipher(c) && WriteOk(w)
    requires w.Disable? || w.ring.active == c.active
    ensures Calm(c, t, ApplyWrite(a, t, w))
  {
    match w
    case Enrol(ring, user, plain, nonce) => OpenUndoesSeal(a, ring, ring, user, plain, nonce);
    case Disable(_) =>
    case Swap(ring, user, prev, nonce) =>
      if Open(a, ring, user, prev).Ok? {
        OpenUndoesSeal(a, ring, ring, user, Open(a, ring, user, prev).value, nonce);
      }
  }

  lemma {:induction false} WritesCalm(a: Aead, c: Cipher, t: Table, ws: seq<Write>)
    requires Lawful(a) && ValidCipher(c) && WritesOk(ws)
    requires forall i | 0 <= i < |ws| :: ws[i].Disable? || ws[i].ring.active == c.active
    ensures Calm(c, t, ApplyWrites(a, t, ws))
    decreases |ws|
  {
    if ws != [] {
      WriteCalm(a, c, t, ws[0]);
      WritesCalm(a, c, ApplyWrite(a, t, ws[0]), ws[1..]);
    }
  }

  lemma CalmKeepsDone(a: Aead, c: Cipher, t: Table, t': Table, log: seq<Visit>, cursor: int)
    requires Calm(c, t, t') && DoneUpTo(a, c, t, log, cursor)
    ensures DoneUpTo(a, c, t', log, cursor)
  {
  }

  lemma FailedOnSnoc(a: Aead, c: Cipher, log: seq<Visit>, v: Visit, u: UserId, ct: Bytes)
    requires FailedOn(a, c, log, u, ct)
    ensures FailedOn(a, c, log + [v], u, ct)
  {
    var i :| 0 <= i < |log| && log[i].user == u && log[i].ct == ct &&
             (log[i].outcome == WriteFailed || (log[i].outcome == OpenFailed && Open(a, c, u, ct).Err?));
    assert (log + [v])[i] == log[i];
  }

  /** Handling the next listed row moves the cursor to it: nobody listed lies in between. */
  lemma DoneAdvances(a: Aead, c: Cipher, listed: Table, t: Table, log: seq<Visit>, v: Visit, cursor: int)
    requires Calm(c, listed, t) && DoneUpTo(a, c, t, log, cursor)
    requires forall u | u in listed && cursor < u <= v.user :: u == v.user
    requires v.user in t && NeedsRotation(c, t[v.user]) ==> FailedOn(a, c, log + [v], v.user, t[v.user])
    ensures DoneUpTo(a, c, t, log + [v], v.user)
  {
    forall u | u in t && u <= v.user && NeedsRotation(c, t[u]) ensures FailedOn(a, c, log + [v], u, t[u]) {
      if u <= cursor {
        FailedOnSnoc(a, c, log, v, u, t[u]);
      }
    }
  }

  /** The tables the run passes through: after the others' writes and after the own statement, call by
      call.  An own statement changes nothing or swaps one ciphertext for another with its meaning. */
  ghost predicate TraceOk(a: Aead, c: Cipher, w: World, trace: seq<Table>)
    requires WorldOk(w)
  {
    && |trace| % 2 == 1
    && (forall k: nat | 2 * k + 2 < |trace| :: trace[2 * k + 1] == ApplyWrites(a, trace[2 * k], w.writes(k)))
    && (forall k: nat | 2 * k + 2 < |trace| :: View(a, c, trace[2 * k + 2]) == View(a, c, trace[2 * k + 1]))
  }

  ghost predicate AlwaysPresent(trace: seq<Table>, u: UserId) {
    forall i | 0 <= i < |trace| :: u in trace[i]
  }

  lemma TraceSnoc(a: Aead, c: Cipher, w: World, trace: seq<Table>, mid: Table, last: Table)
    requires WorldOk(w) && TraceOk(a, c, w, trace)
    requires mid == ApplyWrites(a, trace[|trace| - 1], w.writes(|trace| / 2))
    requires View(a, c, last) == View(a, c, mid)
    ensures TraceOk(a, c, w, trace + [mid, last])
  {
    var more := trace + [mid, last];
    forall k: nat | 2 * k + 2 < |more|
      ensures more[2 * k + 1] == ApplyWrites(a, more[2 * k], w.writes(k)) && View(a, c, more[2 * k + 2]) == View(a, c, more[2 * k + 1])
    {
      if 2 * k + 2 < |trace| {
        assert more[2 * k] == trace[2 * k] && more[2 * k + 1] == trace[2 * k + 1] && more[2 * k + 2] == trace[2 * k + 2];
      } else {
        assert k == |trace| / 2;
      }
    }
  }

  /** If the visited row still needs rotation, then it is unchanged and the visit failed on it. */
  ghost predicate Handled(a: Aead, c: Cipher, t: Table, v: Visit) {
    v.user in t && NeedsRotation(c, t[v.user]) ==>
      v.ct == t[v.user] && (v.outcome == WriteFailed || (v.outcome == OpenFailed && Open(a, c, v.user, v.ct).Err?))
  }

  ghost predicate TraceAt(a: Aead, c: Cipher, w: World, trace: seq<Table>, t: Table, k: nat)
    requires WorldOk(w)
  {
    TraceOk(a, c, w, trace) && |trace| == 2 * k + 1 && trace[2 * k] == t
  }

  ghost predicate NoErrors(w: World) {
    forall k: nat :: w.faults(k) == NoFault && w.nonces(k).Some? && !w.cancelled(k)
  }

  ghost predicate Quiet(w: World) {
    forall k: nat :: w.writes(k) == []
  }

  lemma CalmTransitive(c: Cipher, t0: Table, t1: Table, t2: Table)
    requires Calm(c, t0, t1) && Calm(c, t1, t2)
    ensures Calm(c, t0, t2)
  {
  }

  /** One row of a batch: `listed` is the table the batch was read from, k the number of repository
      calls made so far. */
  method VisitRow(a: Aead, c: Cipher, repo: Repository, row: Row, dryRun: bool, w: World, k: nat, ghost listed: Table, ghost trace: seq<Table>)
    returns (outcome: Outcome, k': nat, ghost trace': seq<Table>)
    requires Lawful(a) && ValidCipher(c) && WorldOk(w)
    requires TraceAt(a, c, w, trace, repo.table, k)
    requires row.user in listed && listed[row.user] == row.ct
    modifies repo
    ensures TraceAt(a, c, w, trace', repo.table, k') && trace <= trace'
    ensures dryRun ==> trace' == trace
    ensures SharesKeys(c, w) ==> Calm(c, old(repo.table), repo.table)
    ensures !dryRun && SharesKeys(c, w) && Calm(c, listed, old(repo.table)) ==> Handled(a, c, repo.table, Visit(row.user, row.ct, outcome))
    ensures NoErrors(w) ==> outcome != WriteFailed
    ensures !NeedsRotation(c, row.ct) || Open(a, c, row.user, row.ct).Err? ==> outcome in {Current, OpenFailed} && trace' == trace
  {
    k', trace' := k, trace;
    if !NeedsRotation(c, row.ct) {
      return Current, k', trace';
    }
    var plain := Open(a, c, row.user, row.ct);
    if plain.Err? {
      return OpenFailed, k', trace';
    }
    if dryRun {
      return Rotated, k', trace';
    }
    var sealed := Seal(a, c, row.user, plain.value, w.nonces(k));
    if sealed.None? {
      return WriteFailed, k', trace';
    }
    var swapped, mid := repo.RotateTotpSecret(a, w, k, row.user, row.ct, sealed.value);
    SwapKeepsView(a, c, c, mid, row.user, row.ct, w.nonces(k).value);
    OpenUndoesSeal(a, c, c, row.user, plain.value, w.nonces(k).value);
    k', trace' := k + 1, trace + [mid, repo.table];
    TraceSnoc(a, c, w, trace, mid, repo.table);
    if SharesKeys(c, w) {
      WritesCalm(a, c, old(repo.table), w.writes(k));
      assert Calm(c, mid, repo.table);
      CalmTransitive(c, old(repo.table), mid, repo.table);
    }
    outcome := if swapped.None? then WriteFailed else if swapped.value then Rotated else Skipped;
  }

  /** The run's own statements changed nothing. */
  ghost predicate OwnIdle(trace: seq<Table>) {
    forall k: nat | 2 * k + 2 < |trace| :: trace[2 * k + 2] == trace[2 * k + 1]
  }

  /** Nothing is left to do: what opens needs no rotation. */
  ghost predicate AllCurrent(a: Aead, c: Cipher, t: Table) {
    forall u | u in t && Open(a, c, u, t[u]).Ok? :: !NeedsRotation(c, t[u])
  }

  ghost predicate NoneRewritten(log: seq<Visit>) {
    forall i | 0 <= i < |log| :: log[i].outcome in {Current, OpenFailed}
  }

  ghost predicate Progress(a: Aead, c: Cipher, w: World, dryRun: bool, t: Table, log: seq<Visit>, trace: seq<Table>, cursor: int) {
    && trace != []
    && InOrder(log, cursor)
    && (forall u: UserId | AlwaysPresent(trace, u) && u <= cursor :: Visited(log, u))
    && (SharesKeys(c, w) && !dryRun ==> DoneUpTo(a, c, t, log, cursor))
    && (NoErrors(w) ==> forall i | 0 <= i < |log| :: log[i].outcome != WriteFailed)
    && (dryRun ==> OwnIdle(trace))
    && (Quiet(w) && AllCurrent(a, c, trace[0]) ==> t == trace[0] && NoneRewritten(log))
  }

  lemma AlwaysPresentPrefix(trace: seq<Table>, trace': seq<Table>, u: UserId)
    requires trace <= trace' && AlwaysPresent(trace', u)
    ensures AlwaysPresent(trace, u)
  {
    assert forall i | 0 <= i < |trace| :: trace[i] == trace'[i];
  }

  /** One row handled: the cursor moves from `cursor` to the row. */
  lemma ProgressAdvances(a: Aead, c: Cipher, w: World, dryRun: bool, listed: Table, t: Table, t': Table, log: seq<Visit>, v: Visit, trace: seq<Table>, trace': seq<Table>, cursor: int)
    requires Progress(a, c, w, dryRun, t, log, trace, cursor)
    requires cursor < v.user && listed in trace && trace <= trace'
    requires forall u | u in listed && cursor < u <= v.user :: u == v.user
    requires SharesKeys(c, w) ==> Calm(c, listed, t) && Calm(c, t, t')
    requires SharesKeys(c, w) && !dryRun ==> Handled(a, c, t', v)
    requires NoErrors(w) ==> v.outcome != WriteFailed
    requires dryRun ==> trace' == trace
    requires Quiet(w) && AllCurrent(a, c, trace[0]) ==> t' == t && v.outcome in {Current, OpenFailed}
    ensures Progress(a, c, w, dryRun, t', log + [v], trace', v.user)
  {
    var more := log + [v];
    forall u: UserId | AlwaysPresent(trace', u) && u <= v.user ensures Visited(more, u) {
      AlwaysPresentPrefix(trace, trace', u);
      if u <= cursor {
        var i :| 0 <= i < |log| && log[i].user == u;
        assert more[i].user == u;
      } else {
        var j :| 0 <= j < |trace| && trace[j] == listed;
        assert u in listed;
        assert more[|log|].user == u;
      }
    }
    if SharesKeys(c, w) && !dryRun {
      CalmKeepsDone(a, c, t, t', log, cursor);
      CalmTransitive(c, listed, t, t');
      if v.user in t' && NeedsRotation(c, t'[v.user]) {
        assert more[|log|] == v;
        assert FailedOn(a, c, more, v.user, t'[v.user]);
      }
      DoneAdvances(a, c, listed, t', log, v, cursor);
    }
  }

  /** Between two rows of a page there is nobody else. */
  lemma PageGap(t: Table, after: int, rows: seq<Row>, j: nat)
    requires IsPage(t, after, rows) && j < |rows|
    ensures Cursor(after, rows, j) < rows[j].user
    ensures forall u | u in t && Cursor(after, rows, j) < u <= rows[j].user :: u == rows[j].user
  {
    forall u | u in t && Cursor(after, rows, j) < u <= rows[j].user ensures u == rows[j].user {
      assert after <= Cursor(after, rows, j);
      assert rows[j].user <= rows[|rows| - 1].user;
      assert Within(rows, u);
      var i :| 0 <= i < |rows| && rows[i].user == u;
      assert forall i' | 0 <= i' < j :: rows[i'].user <= Cursor(after, rows, j);
    }
  }

  function Cursor(after: int, rows: seq<Row>, j: nat): int
    requires j <= |rows|
  {
    if j == 0 then after else rows[j - 1].user
  }

  /** One row of the batch, with its bookkeeping. */
  method VisitNext(a: Aead, c: Cipher, repo: Repository, row: Row, cursor: int, dryRun: bool, w: World, k: nat, res: Tally, ghost listed: Table, ghost log: seq<Visit>, ghost trace: seq<Table>)
    returns (k': nat, res': Tally, ghost log': seq<Visit>, ghost trace': seq<Table>)
    requires Lawful(a) && ValidCipher(c) && WorldOk(w)
    requires TraceAt(a, c, w, trace, repo.table, k) && res == TallyOf(log)
    requires Progress(a, c, w, dryRun, repo.table, log, trace, cursor)
    requires listed in trace && (Quiet(w) && AllCurrent(a, c, trace[0]) ==> listed == trace[0])
    requires SharesKeys(c, w) ==> Calm(c, listed, repo.table)
    requires row.user in listed && listed[row.user] == row.ct && cursor < row.user
    requires forall u | u in listed && cursor < u <= row.user :: u == row.user
    modifies repo
    ensures TraceAt(a, c, w, trace', repo.table, k') && trace <= trace' && res' == TallyOf(log')
    ensures Progress(a, c, w, dryRun, repo.table, log', trace', row.user)
    ensures SharesKeys(c, w) ==> Calm(c, listed, repo.table)
  {
    ghost var t := repo.table;
    var outcome;
    outcome, k', trace' := VisitRow(a, c, repo, row, dryRun, w, k, listed, trace);
    ghost var v := Visit(row.user, row.ct, outcome);
    res' := Record(res, Visit(row.user, row.ct, outcome));
    log' := log + [v];
    TallySnoc(log, v);
    if SharesKeys(c, w) {
      CalmTransitive(c, listed, t, repo.table);
    }
    ProgressAdvances(a, c, w, dryRun, listed, t, repo.table, log, v, trace, trace', cursor);
  }

  /** One batch. */
  method RotateBatch(a: Aead, c: Cipher, repo: Repository, rows: seq<Row>, after: int, dryRun: bool, w: World, k: nat, res: Tally, ghost log: seq<Visit>, ghost trace: seq<Table>)
    returns (k': nat, res': Tally, ghost log': seq<Visit>, ghost trace': seq<Table>)
    requires Lawful(a) && ValidCipher(c) && WorldOk(w)
    requires TraceAt(a, c, w, trace, repo.table, k) && res == TallyOf(log)
    requires IsPage(repo.table, after, rows)
    requires Progress(a, c, w, dryRun, repo.table, log, trace, after)
    modifies repo
    ensures TraceAt(a, c, w, trace', repo.table, k') && trace <= trace' && res' == TallyOf(log')
    ensures Progress(a, c, w, dryRun, repo.table, log', trace', Cursor(after, rows, |rows|))
  {
    ghost var listed := repo.table;
    k', res', log', trace' := k, res, log, trace;
    for j := 0 to |rows|
      invariant TraceAt(a, c, w, trace', repo.table, k') && trace <= trace' && res' == TallyOf(log')
      invariant Progress(a, c, w, dryRun, repo.table, log', trace', Cursor(after, rows, j))
      invariant SharesKeys(c, w) ==> Calm(c, listed, repo.table)
    {
      PageGap(listed, after, rows, j);
      assert trace'[2 * k] == listed;
      k', res', log', trace' := VisitNext(a, c, repo, rows[j], Cursor(after, rows, j), dryRun, w, k', res', listed, log', trace');
    }
  }

  const LAST_USER: UserId := 0xFFFF_FFFF_FFFF_FFFF_FFFF_FFFF_FFFF_FFFF

  /** Reads the next page; an empty page of a non-empty request means that everyone has been passed. */
  method NextPage(a: Aead, c: Cipher, repo: Repository, after: int, batchSize: int, dryRun: bool, w: World, k: nat, ghost log: seq<Visit>, ghost trace: seq<Table>)
    returns (rows: Option<seq<Row>>, ghost trace': seq<Table>)
    requires Lawful(a) && ValidCipher(c) && WorldOk(w)
    requires TraceAt(a, c, w, trace, repo.table, k) && after <= LAST_USER
    requires Progress(a, c, w, dryRun, repo.table, log, trace, after)
    modifies repo
    ensures TraceAt(a, c, w, trace', repo.table, k + 1) && trace <= trace'
    ensures Progress(a, c, w, dryRun, repo.table, log, trace', after)
    ensures rows.Some? ==> IsPage(repo.table, after, rows.value)
    ensures rows == Some([]) && batchSize >= 1 ==> Progress(a, c, w, dryRun, repo.table, log, trace', LAST_USER)
    ensures NoErrors(w) ==> rows.Some?
  {
    ghost var t := repo.table;
    rows := repo.ListTotpSecrets(a, w, k, after, batchSize);
    trace' := trace + [repo.table, repo.table];
    TraceSnoc(a, c, w, trace, repo.table, repo.table);
    ProgressStable(a, c, w, dryRun, t, repo.table, log, trace, trace', after);
    if rows.Some? && batchSize >= 1 {
      ListRowsIsPage(repo.table, after, if batchSize < 1_000_000 then batchSize else 1_000_000);
      if rows.value == [] {
        ProgressToEnd(a, c, w, dryRun, repo.table, log, trace', after);
      }
    }
  }

  lemma ProgressToEnd(a: Aead, c: Cipher, w: World, dryRun: bool, t: Table, log: seq<Visit>, trace: seq<Table>, after: int)
    requires Progress(a, c, w, dryRun, t, log, trace, after) && after <= LAST_USER
    requires trace[|trace| - 1] == t && forall u | u in t :: u <= after
    ensures Progress(a, c, w, dryRun, t, log, trace, LAST_USER)
  {
    forall u: UserId | AlwaysPresent(trace, u) ensures Visited(log, u) {
      assert u in trace[|trace| - 1];
    }
  }

  lemma ProgressInit(a: Aead, c: Cipher, w: World, dryRun: bool, t: Table)
    requires WorldOk(w)
    ensures Progress(a, c, w, dryRun, t, [], [t], -1) && TraceAt(a, c, w, [t], t, 0)
    ensures TallyOf([]) == Tally(0, 0, 0, 0, 0, [])
  {
  }

  datatype Status = More | Done | Broken

  /** One turn of the batch loop: `after'` is the new cursor. */
  method Turn(a: Aead, c: Cipher, repo: Repository, after: int, batchSize: int, dryRun: bool, w: World, k: nat, res: Tally, ghost log: seq<Visit>, ghost trace: seq<Table>)
    returns (status: Status, after': int, k': nat, res': Tally, ghost log': seq<Visit>, ghost trace': seq<Table>)
    requires Lawful(a) && ValidCipher(c) && WorldOk(w)
    requires TraceAt(a, c, w, trace, repo.table, k) && after <= LAST_USER && res == TallyOf(log)
    requires Progress(a, c, w, dryRun, repo.table, log, trace, after)
    modifies repo
    ensures TraceAt(a, c, w, trace', repo.table, k') && trace <= trace' && res' == TallyOf(log')
    ensures Progress(a, c, w, dryRun, repo.table, log', trace', after') && after' <= LAST_USER
    ensures status == More ==> after < after'
    ensures status == Done && batchSize >= 1 ==> after' == LAST_USER
    ensures NoErrors(w) ==> status != Broken
  {
    status, after', k', res', log', trace' := Broken, after, k, res, log, trace;
    if w.cancelled(k) {
      return;
    }
    var rows;
    rows, trace' := NextPage(a, c, repo, after, batchSize, dryRun, w, k, log, trace);
    k' := k + 1;
    if rows.None? {
      return;
    }
    if |rows.value| == 0 {
      status := Done;
      after' := if batchSize >= 1 then LAST_USER else after;
      return;
    }
    status := More;
    after' := rows.value[|rows.value| - 1].user;
    k', res', log', trace' := RotateBatch(a, c, repo, rows.value, after, dryRun, w, k', res', log', trace');
  }

  /** The loop over batches. */
  method Scan(a: Aead, c: Cipher, repo: Repository, batchSize: int, dryRun: bool, w: World)
    returns (res: Tally, failed: bool, ghost log: seq<Visit>, ghost trace: seq<Table>, ghost calls: nat, ghost cursor: int)
    requires Lawful(a) && ValidCipher(c) && WorldOk(w)
    modifies repo
    ensures TraceAt(a, c, w, trace, repo.table, calls) && trace[0] == old(repo.table) && res == TallyOf(log)
    ensures Progress(a, c, w, dryRun, repo.table, log, trace, cursor) && cursor <= LAST_USER
    ensures !failed && batchSize >= 1 ==> cursor == LAST_USER
    ensures NoErrors(w) ==> !failed
  {
    var after, k, status := -1, 0, More;
    res, log, trace := Tally(0, 0, 0, 0, 0, []), [], [repo.table];
    ProgressInit(a, c, w, dryRun, repo.table);
    while status == More
      invariant TraceAt(a, c, w, trace, repo.table, k) && trace[0] == old(repo.table) && res == TallyOf(log)
      invariant Progress(a, c, w, dryRun, repo.table, log, trace, after) && after <= LAST_USER
      invariant status == Done && batchSize >= 1 ==> after == LAST_USER
      invariant NoErrors(w) ==> status != Broken
      decreases status == More, LAST_USER - after
    {
      status, after, k, res, log, trace := Turn(a, c, repo, after, batchSize, dryRun, w, k, res, log, trace);
    }
    failed, calls, cursor := status == Broken, k, after;
  }

  /** The batch command.  `failed` reports a run cut short by cancellation or an unreadable batch; `log`
      lists its visits and `trace` the tables it passed through. */
  method Rotate(a: Aead, c: Cipher, repo: Repository, batchSize: int, dryRun: bool, w: World)
    returns (res: Tally, failed: bool, ghost log: seq<Visit>, ghost trace: seq<Table>)
    requires Lawful(a) && ValidCipher(c) && WorldOk(w)
    modifies repo
    // The visits: in strict user order, each accounted for once.
    ensures res == TallyOf(log) && InOrder(log, LAST_USER)
    ensures res.scanned == res.current + res.rotated + res.skipped + res.failed
    // No statement of the run changes what the table means; a dry run changes nothing at all.
    ensures TraceOk(a, c, w, trace) && trace[0] == old(repo.table) && trace[|trace| - 1] == repo.table
    ensures dryRun ==> OwnIdle(trace)
    // A complete run visits everyone who was there all along ...
    ensures !failed && batchSize >= 1 ==> forall u: UserId | AlwaysPresent(trace, u) :: Visited(log, u)
    // ... and leaves only failed rows needing rotation.
    ensures !failed && batchSize >= 1 && !dryRun && SharesKeys(c, w) ==> DoneUpTo(a, c, repo.table, log, LAST_USER)
    ensures NoErrors(w) ==> !failed && forall i | 0 <= i < |log| :: log[i].outcome != WriteFailed
    // Where nothing is left to do and nobody interferes, nothing is rewritten.
    ensures Quiet(w) && AllCurrent(a, c, old(repo.table)) ==> repo.table == old(repo.table) && NoneRewritten(log)
  {
    ghost var calls, cursor;
    res, failed, log, trace, calls, cursor := Scan(a, c, repo, batchSize, dryRun, w);
    TallyAddsUp(log);
  }

  /** Listing is not a change: only the others' writes happen. */
  lemma ProgressStable(a: Aead, c: Cipher, w: World, dryRun: bool, t: Table, t': Table, log: seq<Visit>, trace: seq<Table>, trace': seq<Table>, cursor: int)
    requires Lawful(a) && ValidCipher(c) && WorldOk(w)
    requires Progress(a, c, w, dryRun, t, log, trace, cursor) && |trace| % 2 == 1
    requires t' == ApplyWrites(a, t, w.writes(|trace| / 2)) && trace' == trace + [t', t']
    ensures Progress(a, c, w, dryRun, t', log, trace', cursor)
  {
    forall u: UserId | AlwaysPresent(trace', u) && u <= cursor ensures Visited(log, u) {
      AlwaysPresentPrefix(trace, trace', u);
    }
    if SharesKeys(c, w) {
      WritesCalm(a, c, t, w.writes(|trace| / 2));
      if !dryRun { CalmKeepsDone(a, c, t, t', log, cursor); }
    }
    if dryRun {
      forall k: nat | 2 * k + 2 < |trace'| ensures trace'[2 * k + 2] == trace'[2 * k + 1] {
        if 2 * k + 2 < |trace| {
          assert trace'[2 * k + 2] == trace[2 * k + 2] && trace'[2 * k + 1] == trace[2 * k + 1];
        }
      }
    }
  }

  // ----- After the run -----

  /** u is gone, or its secret opens. */
  ghost predicate GoneOrOpens(v: map<UserId, Result<Bytes, OpenError>>, u: UserId) {
    u in v ==> v[u].Ok?
  }

  lemma {:induction false} ReplayKeepsOpening(v: map<UserId, Result<Bytes, OpenError>>, ws: seq<Write>, u: UserId)
    requires GoneOrOpens(v, u)
    ensures GoneOrOpens(Replay(v, ws), u)
    decreases |ws|
  {
    if ws != [] {
      match ws[0]
      case Enrol(_, user, plain, _) => ReplayKeepsOpening(v[user := Ok(plain)], ws[1..], u);
      case Disable(user) => ReplayKeepsOpening(v - {user}, ws[1..], u);
      case Swap(_, _, _, _) => ReplayKeepsOpening(v, ws[1..], u);
    }
  }

  /** A secret that opened at the start opens at every later point at which its row is there. */
  lemma {:induction false} RunKeepsOpening(a: Aead, c: Cipher, w: World, trace: seq<Table>, u: UserId, k: nat)
    requires Lawful(a) && WorldOk(w) && SharesKeys(c, w) && TraceOk(a, c, w, trace)
    requires 2 * k < |trace| && GoneOrOpens(View(a, c, trace[0]), u)
    ensures GoneOrOpens(View(a, c, trace[2 * k]), u)
    decreases k
  {
    if k > 0 {
      var i: nat := k - 1;
      RunKeepsOpening(a, c, w, trace, u, i);
      assert 2 * i + 2 < |trace|;
      RotationsInvisible(a, c, trace[2 * i], w.writes(i));
      ReplayKeepsOpening(View(a, c, trace[2 * i]), w.writes(i), u);
    }
  }

  lemma {:induction false} NoneRewrittenCounts(log: seq<Visit>)
    requires NoneRewritten(log)
    ensures Count(log, Rotated) == 0 && Count(log, Skipped) == 0
  {
    if log != [] {
      NoneRewrittenCounts(log[..|log| - 1]);
    }
  }

  /** Two runs without errors, the second undisturbed.  After the first, every secret that opened before
      and is still there opens under the active key alone; the second rewrites nothing. */
  method RotateThenCheck(a: Aead, c: Cipher, repo: Repository, batchSize: int, w: World, w2: World) returns (first: Tally, second: Tally, ghost after: Table)
    requires Lawful(a) && ValidCipher(c) && WorldOk(w) && WorldOk(w2) && batchSize >= 1
    requires SharesKeys(c, w) && NoErrors(w) && Quiet(w2)
    modifies repo
    ensures forall u | u in after && (u in old(repo.table) ==> Open(a, c, u, old(repo.table)[u]).Ok?) ::
              Open(a, c, u, after[u]).Ok? && Open(a, ActiveOnly(c), u, after[u]) == Open(a, c, u, after[u])
    ensures second.rotated == 0 && second.skipped == 0 && repo.table == after
  {
    ghost var log, trace, log2, trace2;
    var failed;
    first, failed, log, trace := Rotate(a, c, repo, batchSize, false, w);
    after := repo.table;
    assert AllCurrent(a, c, after);
    forall u | u in after && (u in old(repo.table) ==> Open(a, c, u, old(repo.table)[u]).Ok?)
      ensures Open(a, c, u, after[u]).Ok? && Open(a, ActiveOnly(c), u, after[u]) == Open(a, c, u, after[u])
    {
      RunKeepsOpening(a, c, w, trace, u, |trace| / 2);
      OpensUnrotatedIffActiveAlone(a, c, u, after[u]);
    }
    second, failed, log2, trace2 := Rotate(a, c, repo, batchSize, false, w2);
    NoneRewrittenCounts(log2);
  }

  // ----- Lazy rotation at login -----

  datatype ReadError = RepositoryFailed | CannotOpen(error: OpenError)

  /** Reads the secret and re-encrypts it on the way if it needs it; calls k and k + 1 are the read and
      the swap.  The answer is what the row meant when it was read, whatever becomes of the swap; a failed
      read or an unreadable secret ends the call with nothing written. */
  method GetTotpSecret(a: Aead, c: Cipher, repo: Repository, user: UserId, w: World, k: nat) returns (secret: Result<Option<Bytes>, ReadError>, ghost seen: Table, ghost mid: Table)
    requires Lawful(a) && ValidCipher(c) && WorldOk(w)
    modifies repo
    ensures seen == ApplyWrites(a, old(repo.table), w.writes(k))
    ensures secret == (if w.faults(k) != NoFault then Err(RepositoryFailed)
                       else if user !in seen then Ok(None)
                       else match Open(a, c, user, seen[user]) case Ok(plain) => Ok(Some(plain)) case Err(e) => Err(CannotOpen(e)))
    ensures secret.Err? ==> repo.table == seen
    ensures mid in {seen, ApplyWrites(a, seen, w.writes(k + 1))}
    ensures View(a, c, repo.table) == View(a, c, mid)
    ensures repo.table != mid ==> user in mid && user in repo.table && repo.table == mid[user := repo.table[user]] && !NeedsRotation(c, repo.table[user])
  {
    repo.Settle(a, w.writes(k));
    seen, mid := repo.table, repo.table;
    if w.faults(k) != NoFault {
      return Err(RepositoryFailed), seen, mid;
    }
    if user !in repo.table {
      return Ok(None), seen, mid;
    }
    var current := repo.table[user];
    var plain := Open(a, c, user, current);
    if plain.Err? {
      return Err(CannotOpen(plain.error)), seen, mid;
    }
    secret := Ok(Some(plain.value));
    if !NeedsRotation(c, current) {
      return;
    }
    var next := Seal(a, c, user, plain.value, w.nonces(k));
    if next.None? {
      return;
    }
    var swapped;
    swapped, mid := repo.RotateTotpSecret(a, w, k + 1, user, current, next.value);
    SwapKeepsView(a, c, c, mid, user, current, w.nonces(k).value);
    OpenUndoesSeal(a, c, c, user, plain.value, w.nonces(k).value);
  }
}
