/** The response cache shared by many API processes (policy/cache.go, cache/manager.go).

    Redis holds one version counter per tag and the cached responses; every process also keeps a
    short-lived copy of the version vectors it fetched.  A reader fixes its key (including the tag
    versions) before its handler touches the data; a writer commits before it bumps a tag.  Each
    Redis command, each database access and each local token operation is one step, and the steps
    of all requests and processes interleave freely.

    Data is modelled by what has been written to it: `committed` is the set of writes already
    visible, and a handler that saw the data records the set it saw. */
module ResponseCache {

  type Tag = string
  type Id = nat
  type Time = nat
  type Snapshot = set<Id>

  /** A read key before hashing: the request dimensions, the resolved tags and their versions. */
  datatype Key = Key(base: string, tags: seq<Tag>, versions: seq<nat>)

  /** A process-local token.  `fetchedAt` is history: when the versions were read from Redis. */
  datatype Token = Token(versions: seq<nat>, expiresAt: int, fetchedAt: Time)

  datatype Bump = Bump(writer: Id, at: Time)

  datatype ReadPhase = Keying | Fetched | Keyed | Handling | Finished(hit: bool)

  /** A cached read.  `fetchedAt`, `keyedAt` and `seen` are history. */
  datatype Reader = Reader(phase: ReadPhase, proc: Id, key: Key, fetchedAt: Time, keyedAt: Time, seen: seq<Snapshot>)

  datatype WritePhase = Writing | Bumping | Ended

  datatype Writer = Writer(phase: WritePhase, proc: Id, pending: seq<Tag>)

  /** `tokenTtl` is the token lifetime (not positive: no local tokens); `lag` bounds the time between
      a version fetch and the moment the fetched versions are put to use. */
  datatype Config = Config(tokenTtl: int, lag: nat)

  datatype State = State(
    now: Time,
    versions: map<Tag, nat>,
    bumps: map<(Tag, nat), Bump>,
    committed: Snapshot,
    tokens: map<(Id, seq<Tag>), Token>,
    entries: map<Key, seq<Snapshot>>,
    readers: map<Id, Reader>,
    writers: map<Id, Writer>)

  datatype Step =
    | Tick(to: Time)
    | BeginRead(r: Id, proc: Id, base: string, tags: seq<Tag>)
    | NoTags(r: Id)
    | UseToken(r: Id)
    | FetchVersions(r: Id)
    | KeepToken(r: Id)
    | DropToken(proc: Id, tags: seq<Tag>)
    | GetHit(r: Id)
    | GetMiss(r: Id)
    | ReadData(r: Id)
    | StoreResponse(r: Id)
    | SkipStore(r: Id)
    | ExpireEntry(key: Key)
    | BeginWrite(w: Id, proc: Id, tags: seq<Tag>)
    | Commit(w: Id)
    | Reply(w: Id, success: bool)
    | Incr(w: Id)
    | AbandonBumps(w: Id)

  const INIT := State(0, map[], map[], {}, map[], map[], map[], map[])

  /** A version key that Redis does not hold counts as version 0. */
  function Version(s: State, g: Tag): nat {
    if g in s.versions then s.versions[g] else 0
  }

  function VersionsOf(s: State, tags: seq<Tag>): seq<nat> {
    seq(|tags|, i requires 0 <= i < |tags| => Version(s, tags[i]))
  }

  predicate ReaderIn(s: State, r: Id, phase: ReadPhase) {
    r in s.readers && s.readers[r].phase == phase
  }

  predicate WriterIn(s: State, w: Id, phase: WritePhase) {
    w in s.writers && s.writers[w].phase == phase
  }

  predicate TokenLive(c: Config, s: State, proc: Id, tags: seq<Tag>) {
    c.tokenTtl > 0 && (proc, tags) in s.tokens && s.now <= s.tokens[(proc, tags)].expiresAt
  }

  predicate Enabled(c: Config, s: State, step: Step) {
    match step
    case Tick(to) => s.now <= to
    case BeginRead(r, _, _, _) => r !in s.readers
    case NoTags(r) => ReaderIn(s, r, Keying) && s.readers[r].key.tags == []
    case UseToken(r) => ReaderIn(s, r, Keying) && TokenLive(c, s, s.readers[r].proc, s.readers[r].key.tags)
    case FetchVersions(r) => ReaderIn(s, r, Keying)
    case KeepToken(r) => ReaderIn(s, r, Fetched) && s.now <= s.readers[r].fetchedAt + c.lag
    case DropToken(proc, tags) => (proc, tags) in s.tokens
    case GetHit(r) => ReaderIn(s, r, Keyed) && s.readers[r].key in s.entries
    case GetMiss(r) => ReaderIn(s, r, Keyed)  // a miss, or a failed lookup that fails open
    case ReadData(r) => ReaderIn(s, r, Handling)
    case StoreResponse(r) => ReaderIn(s, r, Handling)
    case SkipStore(r) => ReaderIn(s, r, Handling)  // response not cacheable, or the store failed
    case ExpireEntry(key) => key in s.entries
    case BeginWrite(w, _, _) => w !in s.writers
    case Commit(w) => WriterIn(s, w, Writing)
    case Reply(w, success) => WriterIn(s, w, Writing) && (success ==> w in s.committed)
    case Incr(w) => WriterIn(s, w, Bumping) && s.writers[w].pending != []
    case AbandonBumps(w) => WriterIn(s, w, Bumping)
  }

  function WithReader(s: State, r: Id, rd: Reader): State {
    s.(readers := s.readers[r := rd])
  }

  function WithWriter(s: State, w: Id, wr: Writer): State {
    s.(writers := s.writers[w := wr])
  }

  function Apply(c: Config, s: State, step: Step): State
    requires Enabled(c, s, step)
  {
    match step
    case Tick(to) => s.(now := to)
    case BeginRead(r, proc, base, tags) =>
      WithReader(s, r, Reader(Keying, proc, Key(base, tags, []), s.now, s.now, []))
    case NoTags(r) =>
      WithReader(s, r, s.readers[r].(phase := Keyed, fetchedAt := s.now, keyedAt := s.now))
    case UseToken(r) =>
      var rd := s.readers[r];
      var token := s.tokens[(rd.proc, rd.key.tags)];
      WithReader(s, r, rd.(phase := Keyed, key := rd.key.(versions := token.versions), fetchedAt := token.fetchedAt, keyedAt := s.now))
    case FetchVersions(r) =>
      var rd := s.readers[r];
      WithReader(s, r, rd.(phase := Fetched, key := rd.key.(versions := VersionsOf(s, rd.key.tags)), fetchedAt := s.now))
    case KeepToken(r) =>
      var rd := s.readers[r];
      var s1 := WithReader(s, r, rd.(phase := Keyed, keyedAt := s.now));
      if c.tokenTtl > 0 then
        s1.(tokens := s1.tokens[(rd.proc, rd.key.tags) := Token(rd.key.versions, s.now + c.tokenTtl, rd.fetchedAt)])
      else s1
    case DropToken(proc, tags) => s.(tokens := s.tokens - {(proc, tags)})
    case GetHit(r) =>
      var rd := s.readers[r];
      WithReader(s, r, rd.(phase := Finished(true), seen := s.entries[rd.key]))
    case GetMiss(r) => WithReader(s, r, s.readers[r].(phase := Handling, seen := []))
    case ReadData(r) =>
      var rd := s.readers[r];
      WithReader(s, r, rd.(seen := rd.seen + [s.committed]))
    case StoreResponse(r) =>
      var rd := s.readers[r];
      WithReader(s, r, rd.(phase := Finished(false))).(entries := s.entries[rd.key := rd.seen])
    case SkipStore(r) => WithReader(s, r, s.readers[r].(phase := Finished(false)))
    case ExpireEntry(key) => s.(entries := s.entries - {key})
    case BeginWrite(w, proc, tags) => WithWriter(s, w, Writer(Writing, proc, tags))
    case Commit(w) => s.(committed := s.committed + {w})
    case Reply(w, success) => WithWriter(s, w, s.writers[w].(phase := if success then Bumping else Ended))
    case Incr(w) =>
      var wr := s.writers[w];
      var g := wr.pending[0];
      var v := Version(s, g) + 1;
      WithWriter(s, w, wr.(pending := wr.pending[1..])).(versions := s.versions[g := v], bumps := s.bumps[(g, v) := Bump(w, s.now)])
    case AbandonBumps(w) => WithWriter(s, w, s.writers[w].(phase := Ended))
  }

  predicate ValidRun(c: Config, s: State, steps: seq<Step>)
    decreases |steps|
  {
    steps == [] || (Enabled(c, s, steps[0]) && ValidRun(c, Apply(c, s, steps[0]), steps[1..]))
  }

  function Run(c: Config, s: State, steps: seq<Step>): State
    requires ValidRun(c, s, steps)
    decreases |steps|
  {
    if steps == [] then s else Run(c, Apply(c, s, steps[0]), steps[1..])
  }

  // ----- Invariant -----

  /** Tag g was taken to versions 1..Version(g), once each, by writes that had already committed. */
  ghost predicate LogOk(s: State) {
    && (forall g, v :: (g, v) in s.bumps <==> 1 <= v <= Version(s, g))
    && (forall b | b in s.bumps :: s.bumps[b].writer in s.committed && s.bumps[b].at <= s.now)
  }

  /** Every bump the version vector accounts for belongs to a write in `snap`. */
  ghost predicate Covers(s: State, key: Key, snap: Snapshot) {
    |key.tags| == |key.versions| &&
    forall i, v | 0 <= i < |key.tags| && 1 <= v <= key.versions[i] ::
      (key.tags[i], v) in s.bumps && s.bumps[(key.tags[i], v)].writer in snap
  }

  ghost predicate AllCover(s: State, key: Key, snaps: seq<Snapshot>) {
    forall snap | snap in snaps :: Covers(s, key, snap)
  }

  /** The version vector accounts for every bump that happened before time `at`. */
  ghost predicate Accounts(s: State, tags: seq<Tag>, versions: seq<nat>, at: Time) {
    && |tags| == |versions|
    && at <= s.now
    && forall i, v | 0 <= i < |tags| && (tags[i], v) in s.bumps && s.bumps[(tags[i], v)].at < at :: v <= versions[i]
  }

  ghost predicate Reached(s: State, tags: seq<Tag>, versions: seq<nat>) {
    |tags| == |versions| && forall i | 0 <= i < |tags| :: versions[i] <= Version(s, tags[i])
  }

  function Staleness(c: Config): nat {
    (if c.tokenTtl > 0 then c.tokenTtl else 0) + c.lag
  }

  ghost predicate TokenOk(c: Config, s: State, tags: seq<Tag>, t: Token) {
    && c.tokenTtl > 0
    && Reached(s, tags, t.versions)
    && Accounts(s, tags, t.versions, t.fetchedAt)
    && t.expiresAt <= t.fetchedAt + Staleness(c)
  }

  ghost predicate ReaderOk(c: Config, s: State, rd: Reader) {
    && (rd.phase == Keying ==> rd.key.versions == [] && rd.seen == [])
    && (rd.phase == Fetched ==> rd.seen == [])
    && (rd.phase != Keying ==>
          && Reached(s, rd.key.tags, rd.key.versions)
          && Accounts(s, rd.key.tags, rd.key.versions, rd.fetchedAt))
    && (rd.phase != Keying && rd.phase != Fetched ==> rd.keyedAt <= rd.fetchedAt + Staleness(c))
    && AllCover(s, rd.key, rd.seen)
  }

  ghost predicate WriterOk(s: State, w: Id, wr: Writer) {
    wr.phase == Bumping ==> w in s.committed
  }

  ghost predicate Inv(c: Config, s: State) {
    && LogOk(s)
    && (forall p | p in s.tokens :: TokenOk(c, s, p.1, s.tokens[p]))
    && (forall r | r in s.readers :: ReaderOk(c, s, s.readers[r]))
    && (forall key | key in s.entries :: AllCover(s, key, s.entries[key]))
    && (forall w | w in s.writers :: WriterOk(s, w, s.writers[w]))
  }

  /** What no step undoes: the clock, the commits, the versions and the bump log only grow, and new
      bumps are not dated before the state they were made in. */
  ghost predicate Grows(s: State, s': State) {
    && s.now <= s'.now
    && s.committed <= s'.committed
    && (forall g :: Version(s, g) <= Version(s', g))
    && (forall b | b in s.bumps :: b in s'.bumps && s'.bumps[b] == s.bumps[b])
    && (forall b | b in s'.bumps && b !in s.bumps :: s.now <= s'.bumps[b].at)
  }

  lemma QuietStep(c: Config, s: State, step: Step)
    requires Enabled(c, s, step) && !step.Tick? && !step.Commit? && !step.Incr?
    ensures var s' := Apply(c, s, step);
            s'.now == s.now && s'.committed == s.committed && s'.versions == s.versions && s'.bumps == s.bumps
  {
  }

  lemma IncrGrows(c: Config, s: State, w: Id)
    requires LogOk(s) && Enabled(c, s, Incr(w))
    ensures Grows(s, Apply(c, s, Incr(w)))
  {
    var g := s.writers[w].pending[0];
    assert (g, Version(s, g) + 1) !in s.bumps;
  }

  lemma StepGrows(c: Config, s: State, step: Step)
    requires LogOk(s) && Enabled(c, s, step)
    ensures Grows(s, Apply(c, s, step))
  {
    match step
    case Tick(_) =>
    case Commit(_) =>
    case Incr(w) => IncrGrows(c, s, w);
    case _ => QuietStep(c, s, step);
  }

  lemma AllCoverStable(s: State, s': State, key: Key, snaps: seq<Snapshot>)
    requires Grows(s, s') && AllCover(s, key, snaps)
    ensures AllCover(s', key, snaps)
  {
  }

  lemma AccountsStable(s: State, s': State, tags: seq<Tag>, versions: seq<nat>, at: Time)
    requires Grows(s, s') && Accounts(s, tags, versions, at)
    ensures Accounts(s', tags, versions, at)
  {
    forall i, v | 0 <= i < |tags| && (tags[i], v) in s'.bumps && s'.bumps[(tags[i], v)].at < at
      ensures v <= versions[i]
    {
      assert (tags[i], v) in s.bumps;
    }
  }

  lemma ReaderStable(c: Config, s: State, s': State, rd: Reader)
    requires Grows(s, s') && ReaderOk(c, s, rd)
    ensures ReaderOk(c, s', rd)
  {
    if rd.phase != Keying {
      AccountsStable(s, s', rd.key.tags, rd.key.versions, rd.fetchedAt);
    }
    AllCoverStable(s, s', rd.key, rd.seen);
  }

  lemma TokenStable(c: Config, s: State, s': State, tags: seq<Tag>, t: Token)
    requires Grows(s, s') && TokenOk(c, s, tags, t)
    ensures TokenOk(c, s', tags, t)
  {
    AccountsStable(s, s', tags, t.versions, t.fetchedAt);
  }

  /** A snapshot taken now covers every version vector Redis has already reached. */
  lemma CommittedCovers(s: State, key: Key)
    requires LogOk(s) && Reached(s, key.tags, key.versions)
    ensures Covers(s, key, s.committed)
  {
    forall i, v | 0 <= i < |key.tags| && 1 <= v <= key.versions[i]
      ensures (key.tags[i], v) in s.bumps && s.bumps[(key.tags[i], v)].writer in s.committed
    {
      assert v <= Version(s, key.tags[i]);
    }
  }

  /** Versions read from Redis now account for every bump made so far. */
  lemma FetchAccounts(s: State, tags: seq<Tag>)
    requires LogOk(s)
    ensures Reached(s, tags, VersionsOf(s, tags))
    ensures Accounts(s, tags, VersionsOf(s, tags), s.now)
  {
  }

  lemma IncrKeepsLog(c: Config, s: State, w: Id)
    requires LogOk(s) && Enabled(c, s, Incr(w)) && w in s.committed
    ensures LogOk(Apply(c, s, Incr(w)))
  {
    var s' := Apply(c, s, Incr(w));
    forall h, u ensures (h, u) in s'.bumps <==> 1 <= u <= Version(s', h) {
      assert (h, u) in s.bumps <==> 1 <= u <= Version(s, h);
    }
  }

  lemma StepKeepsLog(c: Config, s: State, step: Step)
    requires LogOk(s) && Enabled(c, s, step)
    requires step.Incr? ==> step.w in s.committed
    ensures LogOk(Apply(c, s, step))
  {
    if step.Incr? {
      IncrKeepsLog(c, s, step.w);
    } else {
      var s' := Apply(c, s, step);
      assert s'.bumps == s.bumps && s'.versions == s.versions;
      assert forall g :: Version(s', g) == Version(s, g);
    }
  }

  /** The reader that a step advances, judged by what is known before the step. */
  lemma AdvancedReaderOk(c: Config, s: State, step: Step, r: Id)
    requires LogOk(s) && Enabled(c, s, step)
    requires r in s.readers && r in Apply(c, s, step).readers && Apply(c, s, step).readers[r] != s.readers[r]
    requires ReaderOk(c, s, s.readers[r])
    requires step.UseToken? ==> (s.readers[r].proc, s.readers[r].key.tags) in s.tokens && TokenOk(c, s, s.readers[r].key.tags, s.tokens[(s.readers[r].proc, s.readers[r].key.tags)])
    requires step.GetHit? ==> s.readers[r].key in s.entries && AllCover(s, s.readers[r].key, s.entries[s.readers[r].key])
    ensures ReaderOk(c, s, Apply(c, s, step).readers[r])
  {
    match step
    case UseToken(q) => TokenReaderOk(c, s, q);
    case FetchVersions(q) => FetchingReaderOk(c, s, q);
    case ReadData(q) => ReadingReaderOk(c, s, q);
    case GetHit(q) => HitReaderOk(c, s, q);
    case NoTags(q) => UntaggedReaderOk(c, s, q);
    case KeepToken(q) => KeepingReaderOk(c, s, q);
    case GetMiss(q) => FinishingReaderOk(c, s, step);
    case StoreResponse(q) => FinishingReaderOk(c, s, step);
    case SkipStore(q) => FinishingReaderOk(c, s, step);
    case _ =>
  }

  lemma TokenReaderOk(c: Config, s: State, r: Id)
    requires Enabled(c, s, UseToken(r)) && ReaderOk(c, s, s.readers[r])
    requires (s.readers[r].proc, s.readers[r].key.tags) in s.tokens
    requires TokenOk(c, s, s.readers[r].key.tags, s.tokens[(s.readers[r].proc, s.readers[r].key.tags)])
    ensures var s' := Apply(c, s, UseToken(r)); r in s'.readers && ReaderOk(c, s, s'.readers[r])
  {
  }

  lemma HitReaderOk(c: Config, s: State, r: Id)
    requires Enabled(c, s, GetHit(r)) && ReaderOk(c, s, s.readers[r])
    requires s.readers[r].key in s.entries && AllCover(s, s.readers[r].key, s.entries[s.readers[r].key])
    ensures var s' := Apply(c, s, GetHit(r)); r in s'.readers && ReaderOk(c, s, s'.readers[r])
  {
  }

  lemma UntaggedReaderOk(c: Config, s: State, r: Id)
    requires Enabled(c, s, NoTags(r)) && ReaderOk(c, s, s.readers[r])
    ensures var s' := Apply(c, s, NoTags(r)); r in s'.readers && ReaderOk(c, s, s'.readers[r])
  {
  }

  lemma KeepingReaderOk(c: Config, s: State, r: Id)
    requires Enabled(c, s, KeepToken(r)) && ReaderOk(c, s, s.readers[r])
    ensures var s' := Apply(c, s, KeepToken(r)); r in s'.readers && ReaderOk(c, s, s'.readers[r])
  {
  }

  lemma FinishingReaderOk(c: Config, s: State, step: Step)
    requires step.GetMiss? || step.StoreResponse? || step.SkipStore?
    requires Enabled(c, s, step) && ReaderOk(c, s, s.readers[step.r])
    ensures var s' := Apply(c, s, step); step.r in s'.readers && ReaderOk(c, s, s'.readers[step.r])
  {
  }

  lemma FetchingReaderOk(c: Config, s: State, r: Id)
    requires LogOk(s) && Enabled(c, s, FetchVersions(r)) && ReaderOk(c, s, s.readers[r])
    ensures var s' := Apply(c, s, FetchVersions(r)); r in s'.readers && ReaderOk(c, s, s'.readers[r])
  {
    FetchAccounts(s, s.readers[r].key.tags);
  }

  lemma ReadingReaderOk(c: Config, s: State, r: Id)
    requires LogOk(s) && Enabled(c, s, ReadData(r)) && ReaderOk(c, s, s.readers[r])
    ensures var s' := Apply(c, s, ReadData(r)); r in s'.readers && ReaderOk(c, s, s'.readers[r])
  {
    CommittedReadCovers(s, s.readers[r].key, s.readers[r].seen);
  }

  lemma CommittedReadCovers(s: State, key: Key, seen: seq<Snapshot>)
    requires LogOk(s) && Reached(s, key.tags, key.versions) && AllCover(s, key, seen)
    ensures AllCover(s, key, seen + [s.committed])
  {
    CommittedCovers(s, key);
  }

  lemma StepKeepsReaders(c: Config, s: State, step: Step)
    requires Inv(c, s) && Enabled(c, s, step) && Grows(s, Apply(c, s, step))
    ensures var s' := Apply(c, s, step); forall r | r in s'.readers :: ReaderOk(c, s', s'.readers[r])
  {
    var s' := Apply(c, s, step);
    forall r | r in s'.readers ensures ReaderOk(c, s', s'.readers[r]) {
      if r in s.readers {
        if s'.readers[r] != s.readers[r] {
          AdvancedReaderOk(c, s, step, r);
        }
        ReaderStable(c, s, s', s'.readers[r]);
      }
    }
  }

  lemma StepKeepsTokens(c: Config, s: State, step: Step)
    requires Inv(c, s) && Enabled(c, s, step) && Grows(s, Apply(c, s, step))
    ensures var s' := Apply(c, s, step); forall p | p in s'.tokens :: TokenOk(c, s', p.1, s'.tokens[p])
  {
    var s' := Apply(c, s, step);
    forall p | p in s'.tokens ensures TokenOk(c, s', p.1, s'.tokens[p]) {
      if p !in s.tokens || s'.tokens[p] != s.tokens[p] {
        assert step.KeepToken? && ReaderOk(c, s, s.readers[step.r]);
        assert TokenOk(c, s, p.1, s'.tokens[p]);
      }
      TokenStable(c, s, s', p.1, s'.tokens[p]);
    }
  }

  lemma StepKeepsEntries(c: Config, s: State, step: Step)
    requires Inv(c, s) && Enabled(c, s, step) && Grows(s, Apply(c, s, step))
    ensures var s' := Apply(c, s, step); forall key | key in s'.entries :: AllCover(s', key, s'.entries[key])
  {
    var s' := Apply(c, s, step);
    forall key | key in s'.entries ensures AllCover(s', key, s'.entries[key]) {
      if key !in s.entries || s'.entries[key] != s.entries[key] {
        assert step.StoreResponse? && ReaderOk(c, s, s.readers[step.r]);
      }
      AllCoverStable(s, s', key, s'.entries[key]);
    }
  }

  lemma StepKeepsInv(c: Config, s: State, step: Step)
    requires Inv(c, s) && Enabled(c, s, step)
    ensures Inv(c, Apply(c, s, step))
  {
    assert step.Incr? ==> WriterOk(s, step.w, s.writers[step.w]);
    StepGrows(c, s, step);
    StepKeepsLog(c, s, step);
    StepKeepsReaders(c, s, step);
    StepKeepsTokens(c, s, step);
    StepKeepsEntries(c, s, step);
    StepKeepsWriters(c, s, step);
  }

  lemma StepKeepsWriters(c: Config, s: State, step: Step)
    requires Inv(c, s) && Enabled(c, s, step)
    ensures var s' := Apply(c, s, step); forall w | w in s'.writers :: WriterOk(s', w, s'.writers[w])
  {
    var s' := Apply(c, s, step);
    forall w | w in s'.writers ensures WriterOk(s', w, s'.writers[w]) {
      if w in s.writers {
        assert WriterOk(s, w, s.writers[w]);
      }
    }
  }

  lemma {:induction false} RunKeepsInv(c: Config, s: State, steps: seq<Step>)
    requires Inv(c, s) && ValidRun(c, s, steps)
    ensures Inv(c, Run(c, s, steps))
    decreases |steps|
  {
    if steps != [] {
      StepKeepsInv(c, s, steps[0]);
      RunKeepsInv(c, Apply(c, s, steps[0]), steps[1..]);
    }
  }

  // ----- Main results -----

  /** Coherence.  In every interleaving, every snapshot behind a stored response contains every write
      whose bump took one of the entry's tags to a version the entry's key already counts. */
  lemma EntriesIncludeCountedWrites(c: Config, steps: seq<Step>, key: Key, snap: Snapshot, i: nat, v: nat)
    requires ValidRun(c, INIT, steps)
    requires key in Run(c, INIT, steps).entries && snap in Run(c, INIT, steps).entries[key]
    requires i < |key.tags|
    ensures |key.versions| == |key.tags|
    ensures 1 <= v <= key.versions[i] ==>
              var s := Run(c, INIT, steps);
              (key.tags[i], v) in s.bumps && s.bumps[(key.tags[i], v)].writer in snap
  {
    RunKeepsInv(c, INIT, steps);
    assert Covers(Run(c, INIT, steps), key, snap);
  }

  /** Bounded staleness.  A hit whose key was built at time t is served from data that includes every
      write whose bump of one of its tags was made before t - tokenTtl - lag. */
  lemma HitsAreFresh(c: Config, steps: seq<Step>, r: Id, g: Tag, v: nat)
    requires ValidRun(c, INIT, steps)
    requires ReaderIn(Run(c, INIT, steps), r, Finished(true))
    requires (g, v) in Run(c, INIT, steps).bumps
    requires g in Run(c, INIT, steps).readers[r].key.tags
    requires Run(c, INIT, steps).bumps[(g, v)].at + Staleness(c) < Run(c, INIT, steps).readers[r].keyedAt
    ensures var s := Run(c, INIT, steps);
            forall snap | snap in s.readers[r].seen :: s.bumps[(g, v)].writer in snap
  {
    RunKeepsInv(c, INIT, steps);
    var s := Run(c, INIT, steps);
    var rd := s.readers[r];
    assert ReaderOk(c, s, rd);
    var i :| 0 <= i < |rd.key.tags| && rd.key.tags[i] == g;
    assert v <= rd.key.versions[i];
    assert 1 <= v <= Version(s, g);
    forall snap | snap in rd.seen ensures s.bumps[(g, v)].writer in snap {
      assert Covers(s, rd.key, snap);
    }
  }

  /** The versions of a tag never go back, and a bump is never re-dated or reassigned, in any run. */
  lemma {:induction false} RunGrows(c: Config, s: State, steps: seq<Step>)
    requires Inv(c, s) && ValidRun(c, s, steps)
    ensures Grows(s, Run(c, s, steps))
    decreases |steps|
  {
    if steps != [] {
      var s1 := Apply(c, s, steps[0]);
      StepGrows(c, s, steps[0]);
      StepKeepsInv(c, s, steps[0]);
      RunGrows(c, s1, steps[1..]);
    }
  }

  // ----- Freshness in run order -----

  lemma {:induction false} RunAppends(c: Config, s: State, a: seq<Step>, b: seq<Step>)
    requires ValidRun(c, s, a + b)
    ensures ValidRun(c, s, a) && ValidRun(c, Run(c, s, a), b) && Run(c, s, a + b) == Run(c, Run(c, s, a), b)
    decreases |a|
  {
    if a == [] {
      assert a + b == b;
    } else {
      assert (a + b)[1..] == a[1..] + b && (a + b)[0] == a[0];
      RunAppends(c, Apply(c, s, a[0]), a[1..], b);
    }
  }

  lemma StepKeepsKey(c: Config, s: State, step: Step, r: Id)
    requires Enabled(c, s, step) && r in s.readers && s.readers[r].phase != Keying
    ensures var s' := Apply(c, s, step);
            r in s'.readers && s'.readers[r].key == s.readers[r].key && s'.readers[r].phase != Keying
  {
    match step
    case BeginRead(_, _, _, _) =>
    case KeepToken(_) =>
    case GetHit(_) =>
    case GetMiss(_) =>
    case ReadData(_) =>
    case StoreResponse(_) =>
    case SkipStore(_) =>
    case _ => assert Apply(c, s, step).readers[r] == s.readers[r];
  }

  /** Once the versions are fetched, a reader's key is fixed. */
  lemma {:induction false} RunKeepsKey(c: Config, s: State, steps: seq<Step>, r: Id)
    requires ValidRun(c, s, steps) && r in s.readers && s.readers[r].phase != Keying
    ensures var s' := Run(c, s, steps); r in s'.readers && s'.readers[r].key == s.readers[r].key
    decreases |steps|
  {
    if steps != [] {
      StepKeepsKey(c, s, steps[0], r);
      RunKeepsKey(c, Apply(c, s, steps[0]), steps[1..], r);
    }
  }

  /** A hit whose reader fetched the versions itself is served from data that includes every write whose
      bump of one of its tags came earlier in the run than the fetch, whatever the clock said. */
  lemma FetchedHitsSeeEarlierBumps(c: Config, before: seq<Step>, after: seq<Step>, r: Id, g: Tag, v: nat)
    requires ValidRun(c, INIT, before + ([FetchVersions(r)] + after))
    requires ReaderIn(Run(c, INIT, before + ([FetchVersions(r)] + after)), r, Finished(true))
    requires g in Run(c, INIT, before + ([FetchVersions(r)] + after)).readers[r].key.tags
    requires ValidRun(c, INIT, before) && (g, v) in Run(c, INIT, before).bumps
    ensures var s := Run(c, INIT, before + ([FetchVersions(r)] + after));
            && (g, v) in s.bumps && s.bumps[(g, v)] == Run(c, INIT, before).bumps[(g, v)]
            && forall snap | snap in s.readers[r].seen :: s.bumps[(g, v)].writer in snap
  {
    var steps := before + ([FetchVersions(r)] + after);
    var s0 := Run(c, INIT, before);
    RunAppends(c, INIT, before, [FetchVersions(r)] + after);
    var rest := [FetchVersions(r)] + after;
    assert rest[0] == FetchVersions(r) && rest[1..] == after;
    RunKeepsInv(c, INIT, before);
    RunGrows(c, s0, rest);
    FetchedKeyCounts(c, s0, after, r, g, v);
    RunKeepsInv(c, INIT, steps);
    HitCovers(c, Run(c, INIT, steps), r, g, v);
  }

  /** The key then counts the bump at every later point. */
  lemma FetchedKeyCounts(c: Config, s: State, after: seq<Step>, r: Id, g: Tag, v: nat)
    requires LogOk(s) && Enabled(c, s, FetchVersions(r)) && ValidRun(c, Apply(c, s, FetchVersions(r)), after) && (g, v) in s.bumps
    ensures var s' := Run(c, Apply(c, s, FetchVersions(r)), after);
            && r in s'.readers && |s'.readers[r].key.tags| == |s'.readers[r].key.versions|
            && forall i | 0 <= i < |s'.readers[r].key.tags| && s'.readers[r].key.tags[i] == g :: v <= s'.readers[r].key.versions[i]
  {
    var s1 := Apply(c, s, FetchVersions(r));
    RunKeepsKey(c, s1, after, r);
    assert s1.readers[r].key.versions == VersionsOf(s, s1.readers[r].key.tags);
  }

  lemma HitCovers(c: Config, s: State, r: Id, g: Tag, v: nat)
    requires LogOk(s) && r in s.readers && ReaderOk(c, s, s.readers[r]) && g in s.readers[r].key.tags && (g, v) in s.bumps
    requires |s.readers[r].key.tags| == |s.readers[r].key.versions|
    requires forall i | 0 <= i < |s.readers[r].key.tags| && s.readers[r].key.tags[i] == g :: v <= s.readers[r].key.versions[i]
    ensures forall snap | snap in s.readers[r].seen :: s.bumps[(g, v)].writer in snap
  {
    var rd := s.readers[r];
    var i :| 0 <= i < |rd.key.tags| && rd.key.tags[i] == g;
    assert 1 <= v <= Version(s, g);
    forall snap | snap in rd.seen ensures s.bumps[(g, v)].writer in snap {
      assert Covers(s, rd.key, snap);
    }
  }

  /** Without a token cache nobody uses a token, so every hit on a tagged key fetched its versions itself. */
  lemma {:induction false} NoTokensWithoutCache(c: Config, steps: seq<Step>)
    requires c.tokenTtl <= 0 && ValidRun(c, INIT, steps)
    ensures Run(c, INIT, steps).tokens == map[]
    ensures forall r | r in Run(c, INIT, steps).readers && Run(c, INIT, steps).readers[r].phase != Keying ::
              Run(c, INIT, steps).readers[r].key.tags == [] || FetchedIn(steps, r)
    decreases |steps|
  {
    if steps != [] {
      var init, step := steps[..|steps| - 1], steps[|steps| - 1];
      assert steps == init + [step];
      RunAppends(c, INIT, init, [step]);
      assert [step][1..] == [];
      NoTokensWithoutCache(c, init);
      var s, s' := Run(c, INIT, init), Run(c, INIT, steps);
      assert s' == Apply(c, s, step);
      forall r | r in s'.readers && s'.readers[r].phase != Keying ensures s'.readers[r].key.tags == [] || FetchedIn(steps, r) {
        if step != FetchVersions(r) && !step.NoTags? {
          assert r in s.readers && s.readers[r].phase != Keying && s'.readers[r].key == s.readers[r].key;
          if FetchedIn(init, r) {
            var k :| 0 <= k < |init| && init[k] == FetchVersions(r);
            assert steps[k] == FetchVersions(r);
          }
        } else if step == FetchVersions(r) {
          assert steps[|steps| - 1] == FetchVersions(r);
        }
      }
    }
  }

  ghost predicate FetchedIn(steps: seq<Step>, r: Id) {
    exists k | 0 <= k < |steps| :: steps[k] == FetchVersions(r)
  }

  /** Without a token cache a hit includes every write bumped earlier in the run than its own fetch. */
  lemma HitsSeeEarlierBumps(c: Config, steps: seq<Step>, r: Id) returns (k: nat)
    requires c.tokenTtl <= 0 && ValidRun(c, INIT, steps)
    requires ReaderIn(Run(c, INIT, steps), r, Finished(true)) && Run(c, INIT, steps).readers[r].key.tags != []
    ensures k < |steps| && steps[k] == FetchVersions(r) && ValidRun(c, INIT, steps[..k])
    ensures var s, early := Run(c, INIT, steps), Run(c, INIT, steps[..k]);
            forall g, v, snap | g in s.readers[r].key.tags && (g, v) in early.bumps && snap in s.readers[r].seen ::
              early.bumps[(g, v)].writer in snap
  {
    NoTokensWithoutCache(c, steps);
    k :| 0 <= k < |steps| && steps[k] == FetchVersions(r);
    var before, after := steps[..k], steps[k + 1..];
    assert steps == before + ([FetchVersions(r)] + after);
    RunAppends(c, INIT, before, [FetchVersions(r)] + after);
    var s, early := Run(c, INIT, steps), Run(c, INIT, before);
    forall g, v, snap | g in s.readers[r].key.tags && (g, v) in early.bumps && snap in s.readers[r].seen
      ensures early.bumps[(g, v)].writer in snap
    {
      FetchedHitsSeeEarlierBumps(c, before, after, r, g, v);
    }
  }
}
