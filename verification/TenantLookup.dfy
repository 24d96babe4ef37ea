/** Tenant lookups through the validation cache (lookupTenant in tenancy/resolver.go).

    Many lookups run at once; each operation on a segment happens under that segment's lock and is one
    step.  The directory may answer differently at every instant. */
module TenantLookup {
  import opened Wrappers
  import opened TtlLru
  import TenantCache

  type Time = nat

  const HEADER := "header"
  const SUBDOMAIN := "subdomain"

  predicate IsResolver(resolver: string) {
    resolver == HEADER || resolver == SUBDOMAIN
  }

  function CacheKey(resolver: string, value: string): string {
    resolver + ":" + value
  }

  /** A resolver name has no colon, so keys of different resolvers or values never coincide. */
  lemma CacheKeyInjective(r: string, v: string, r': string, v': string)
    requires ':' !in r && ':' !in r'
    requires CacheKey(r, v) == CacheKey(r', v')
    ensures r == r' && v == v'
  {
    var whole, whole' := CacheKey(r, v), CacheKey(r', v');
    assert whole[|r|] == ':' && whole'[|r'|] == ':';
    assert forall i | 0 <= i < |r| :: whole[i] == r[i] && r[i] in r;
    assert forall i | 0 <= i < |r'| :: whole'[i] == r'[i] && r'[i] in r';
    assert |r| == |r'|;
    assert whole[..|r|] == r && whole'[..|r'|] == r';
    assert whole[|r| + 1..] == v && whole'[|r'| + 1..] == v';
  }

  datatype DirAnswer = Found(id: string, active: bool) | Missing | Failed

  /** What the directory says about a resolver's value at a time. */
  type Directory = (Time, string, string) -> DirAnswer

  /** A remembered result; `asked` is history: when the directory gave it. */
  datatype Memo = Memo(id: string, asked: Time)

  datatype Phase =
    | TryActive
    | TryInactive
    | Ask
    | Forget(id: string, active: bool, asked: Time)
    | Store(id: string, active: bool, asked: Time)
    | Answered(id: string, active: bool, at: Time)
    | Errored

  datatype Lookup = Lookup(resolver: string, value: string, phase: Phase)

  /** `ttl` not positive means that there is no cache; `lag` bounds the time from the directory's answer
      to its being remembered. */
  datatype Config = Config(dir: Directory, ttl: int, lag: nat)

  datatype State = State(now: Time, active: Lru<Memo>, inactive: Lru<Memo>, lookups: seq<Lookup>)

  datatype Step = Tick(to: Time) | Begin(resolver: string, value: string) | Advance(i: nat)

  function Lifetime(c: Config, active: bool): nat {
    if c.ttl <= 0 then 0 else if active then c.ttl else TenantCache.NegativeTtl(c.ttl)
  }

  function Init(c: Config, maxActive: int, maxInactive: int): State {
    State(0, Empty(maxActive, Lifetime(c, true)), Empty(maxInactive, Lifetime(c, false)), [])
  }

  predicate Enabled(c: Config, s: State, step: Step) {
    match step
    case Tick(to) => s.now <= to
    case Begin(resolver, _) => IsResolver(resolver)
    case Advance(i) =>
      && i < |s.lookups|
      && !s.lookups[i].phase.Answered? && !s.lookups[i].phase.Errored?
      && (s.lookups[i].phase.Store? ==> s.now <= s.lookups[i].phase.asked + c.lag)
  }

  function Move(s: State, i: nat, phase: Phase): State
    requires i < |s.lookups|
  {
    s.(lookups := s.lookups[i := s.lookups[i].(phase := phase)])
  }

  /** An answer of the directory: remembered if there is a cache, given as it is otherwise. */
  function Take(c: Config, s: State, i: nat, id: string, active: bool): State
    requires i < |s.lookups|
  {
    Move(s, i, if c.ttl > 0 then Forget(id, active, s.now) else Answered(id, active, s.now))
  }

  function Apply(c: Config, s: State, step: Step): State
    requires Enabled(c, s, step)
  {
    match step
    case Tick(to) => s.(now := to)
    case Begin(resolver, value) =>
      s.(lookups := s.lookups + [Lookup(resolver, value, if c.ttl > 0 then TryActive else Ask)])
    case Advance(i) =>
      var l := s.lookups[i];
      var key := CacheKey(l.resolver, l.value);
      match l.phase {
        case TryActive =>
          var (active, hit) := Get(s.active, key, s.now);
          Move(s.(active := active), i, if hit.Some? then Answered(hit.value.id, true, s.now) else TryInactive)
        case TryInactive =>
          var (inactive, hit) := Get(s.inactive, key, s.now);
          Move(s.(inactive := inactive), i, if hit.Some? then Answered(hit.value.id, false, s.now) else Ask)
        case Ask =>
          (match c.dir(s.now, l.resolver, l.value)
           case Failed => Move(s, i, Errored)
           case Missing => Take(c, s, i, "", false)
           case Found(id, active) => Take(c, s, i, id, active))
        case Forget(id, active, asked) =>
          var s1 := if active then s.(inactive := Remove(s.inactive, key)) else s.(active := Remove(s.active, key));
          Move(s1, i, Store(id, active, asked))
        case Store(id, active, asked) =>
          var s1 := if active then s.(active := Put(s.active, key, Memo(id, asked), s.now))
                    else s.(inactive := Put(s.inactive, key, Memo(id, asked), s.now));
          Move(s1, i, Answered(id, active, s.now))
      }
  }

  predicate ValidRun(c: Config, s: State, steps: seq<Step>)
    decreases |steps|
  {
    steps == [] || (Enabled(c, s, steps[0]) && ValidRun(c, Apply(c, s, steps[0]), steps[1..]))
  }

  function Run(c: Config, s: State, steps: seq<Step>): State
    requires ValidRun(c, s, steps)
    decreases |steps|
  {
    if steps == [] then s else Run(c, Apply(c, s, steps[0]), steps[1..])
  }

  // ----- Every answer is a recent answer of the directory -----

  /** At `asked` the directory said that this value names tenant `id`, active or not; an unknown value
      is reported as inactive with an empty id, and an error says nothing. */
  predicate Said(c: Config, resolver: string, value: string, asked: Time, id: string, active: bool) {
    match c.dir(asked, resolver, value)
    case Found(i, a) => i == id && a == active
    case Missing => id == "" && !active
    case Failed => false
  }

  ghost predicate EntryOk(c: Config, now: Time, key: string, e: Entry<Memo>, active: bool) {
    && e.value.asked <= now
    && e.expires <= e.value.asked + c.lag + Lifetime(c, active)
    && (forall r, v | IsResolver(r) && CacheKey(r, v) == key :: Said(c, r, v, e.value.asked, e.value.id, active))
  }

  ghost predicate SegmentOk(c: Config, now: Time, l: Lru<Memo>, active: bool) {
    && Wellformed(l) && l.ttl == Lifetime(c, active)
    && (forall k | k in l.items :: EntryOk(c, now, k, l.items[k], active))
  }

  /** Some answer of the directory within the lifetime before `at`. */
  ghost predicate Recent(c: Config, l: Lookup, id: string, active: bool, at: Time) {
    exists asked: Time | asked <= at <= asked + c.lag + Lifetime(c, active) :: Said(c, l.resolver, l.value, asked, id, active)
  }

  ghost predicate LookupOk(c: Config, now: Time, l: Lookup) {
    IsResolver(l.resolver) &&
    match l.phase
    case Forget(id, active, asked) => c.ttl > 0 && asked <= now && Said(c, l.resolver, l.value, asked, id, active)
    case Store(id, active, asked) => c.ttl > 0 && asked <= now && Said(c, l.resolver, l.value, asked, id, active)
    case Answered(id, active, at) => at <= now && Recent(c, l, id, active, at)
    case _ => true
  }

  ghost predicate Inv(c: Config, s: State) {
    && SegmentOk(c, s.now, s.active, true)
    && SegmentOk(c, s.now, s.inactive, false)
    && (forall l | l in s.lookups :: LookupOk(c, s.now, l))
  }

  lemma GetSegmentOk(c: Config, now: Time, l: Lru<Memo>, active: bool, key: string)
    requires SegmentOk(c, now, l, active)
    ensures SegmentOk(c, now, Get(l, key, now).0, active)
  {
    GetKeepsWellformed(l, key, now);
  }

  lemma RemoveSegmentOk(c: Config, now: Time, l: Lru<Memo>, active: bool, key: string)
    requires SegmentOk(c, now, l, active)
    ensures SegmentOk(c, now, Remove(l, key), active)
  {
    RemoveKeepsWellformed(l, key);
  }

  lemma PutSegmentOk(c: Config, now: Time, l: Lru<Memo>, active: bool, resolver: string, value: string, id: string, asked: Time)
    requires SegmentOk(c, now, l, active) && IsResolver(resolver)
    requires asked <= now <= asked + c.lag && Said(c, resolver, value, asked, id, active)
    ensures SegmentOk(c, now, Put(l, CacheKey(resolver, value), Memo(id, asked), now), active)
  {
    var key, memo := CacheKey(resolver, value), Memo(id, asked);
    PutKeepsWellformed(l, key, memo, now);
    TenantCache.PutItems(l, key, memo, now);
    forall r, v | IsResolver(r) && CacheKey(r, v) == key ensures Said(c, r, v, asked, id, active) {
      ResolverHasNoColon(r);
      ResolverHasNoColon(resolver);
      CacheKeyInjective(r, v, resolver, value);
    }
    assert EntryOk(c, now, key, Entry(memo, now + l.ttl), active);
    if key !in l.items { PutNew(l, key, memo, now); }
  }

  lemma ResolverHasNoColon(resolver: string)
    requires IsResolver(resolver)
    ensures ':' !in resolver
  {
  }

  lemma HitIsRecent(c: Config, now: Time, l: Lru<Memo>, active: bool, lk: Lookup)
    requires SegmentOk(c, now, l, active) && IsResolver(lk.resolver)
    requires Get(l, CacheKey(lk.resolver, lk.value), now).1.Some?
    ensures Recent(c, lk, Get(l, CacheKey(lk.resolver, lk.value), now).1.value.id, active, now)
  {
    var key := CacheKey(lk.resolver, lk.value);
    assert EntryOk(c, now, key, l.items[key], active);
  }

  lemma AdvanceKeepsSegments(c: Config, s: State, i: nat)
    requires Inv(c, s) && Enabled(c, s, Advance(i))
    ensures var s' := Apply(c, s, Advance(i)); SegmentOk(c, s.now, s'.active, true) && SegmentOk(c, s.now, s'.inactive, false)
  {
    var l := s.lookups[i];
    assert l in s.lookups && LookupOk(c, s.now, l);
    var key := CacheKey(l.resolver, l.value);
    match l.phase {
      case TryActive => GetSegmentOk(c, s.now, s.active, true, key);
      case TryInactive => GetSegmentOk(c, s.now, s.inactive, false, key);
      case Forget(_, active, _) =>
        if active { RemoveSegmentOk(c, s.now, s.inactive, false, key); } else { RemoveSegmentOk(c, s.now, s.active, true, key); }
      case Store(id, active, asked) =>
        if active { PutSegmentOk(c, s.now, s.active, true, l.resolver, l.value, id, asked); }
        else { PutSegmentOk(c, s.now, s.inactive, false, l.resolver, l.value, id, asked); }
      case _ =>
    }
  }

  lemma AdvanceKeepsLookup(c: Config, s: State, i: nat)
    requires Inv(c, s) && Enabled(c, s, Advance(i))
    ensures LookupOk(c, s.now, Apply(c, s, Advance(i)).lookups[i])
  {
    var l := s.lookups[i];
    assert l in s.lookups && LookupOk(c, s.now, l);
    var key := CacheKey(l.resolver, l.value);
    var l' := Apply(c, s, Advance(i)).lookups[i];
    match l.phase {
      case TryActive => if Get(s.active, key, s.now).1.Some? { HitIsRecent(c, s.now, s.active, true, l'); }
      case TryInactive => if Get(s.inactive, key, s.now).1.Some? { HitIsRecent(c, s.now, s.inactive, false, l'); }
      case Ask => assert l'.phase.Answered? ==> Said(c, l'.resolver, l'.value, s.now, l'.phase.id, l'.phase.active);
      case Store(id, active, asked) => assert Said(c, l'.resolver, l'.value, asked, id, active);
      case _ =>
    }
  }

  lemma StepKeepsInv(c: Config, s: State, step: Step)
    requires Inv(c, s) && Enabled(c, s, step)
    ensures Inv(c, Apply(c, s, step))
  {
    var s' := Apply(c, s, step);
    if step.Advance? {
      AdvanceKeepsSegments(c, s, step.i);
      AdvanceKeepsLookup(c, s, step.i);
    }
    forall l | l in s'.lookups ensures LookupOk(c, s'.now, l) {
      var j :| 0 <= j < |s'.lookups| && s'.lookups[j] == l;
      assert j < |s.lookups| ==> s.lookups[j] in s.lookups;
    }
  }

  lemma {:induction false} RunKeepsInv(c: Config, s: State, steps: seq<Step>)
    requires Inv(c, s) && ValidRun(c, s, steps)
    ensures Inv(c, Run(c, s, steps))
    decreases |steps|
  {
    if steps != [] {
      StepKeepsInv(c, s, steps[0]);
      RunKeepsInv(c, Apply(c, s, steps[0]), steps[1..]);
    }
  }

  /** However lookups and segment operations interleave, an answer given at time t is the directory's
      answer for that resolver and value at some time at most the lifetime earlier (plus the lag):
      the full lifetime for an active tenant, the negative one otherwise.  An error is never the source
      of an answer. */
  lemma AnswersAreRecent(c: Config, maxActive: int, maxInactive: int, steps: seq<Step>, i: nat)
    requires ValidRun(c, Init(c, maxActive, maxInactive), steps)
    requires i < |Run(c, Init(c, maxActive, maxInactive), steps).lookups|
    requires Run(c, Init(c, maxActive, maxInactive), steps).lookups[i].phase.Answered?
    ensures var l := Run(c, Init(c, maxActive, maxInactive), steps).lookups[i];
            exists asked: Time | asked <= l.phase.at <= asked + c.lag + Lifetime(c, l.phase.active) ::
              Said(c, l.resolver, l.value, asked, l.phase.id, l.phase.active)
  {
    RunKeepsInv(c, Init(c, maxActive, maxInactive), steps);
    var s := Run(c, Init(c, maxActive, maxInactive), steps);
    assert s.lookups[i] in s.lookups && LookupOk(c, s.now, s.lookups[i]);
  }
}
