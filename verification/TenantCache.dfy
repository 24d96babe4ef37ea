/** The two-segment tenant validation cache (validationCache in tenancy/cache.go). */
module TenantCache {
  import opened Wrappers
  import opened TtlLru

  const SECOND: int := 1_000_000_000

  /** Lifetime of an "unknown or inactive" result: a quarter of the positive one, at least a second,
      never longer than the positive one. */
  function NegativeTtl(positive: int): (ttl: int)
    requires positive > 0
    ensures 0 < ttl <= positive
    ensures ttl < SECOND ==> ttl == positive
    ensures positive >= 4 * SECOND ==> ttl == positive / 4
  {
    var quarter := positive / 4;
    var raised := if quarter < SECOND then SECOND else quarter;
    if raised > positive then positive else raised
  }

  datatype Tenant = Tenant(id: string, active: bool)

  datatype VCache = VCache(active: Lru<string>, inactive: Lru<string>)

  function NewCache(ttl: int, maxActive: int, maxInactive: int): VCache
    requires ttl > 0
  {
    VCache(Empty(maxActive, ttl), Empty(maxInactive, NegativeTtl(ttl)))
  }

  /** The active segment answers first; the inactive one is asked only on a miss. */
  function VGet(c: VCache, key: string, now: int): (VCache, Option<Tenant>) {
    var (active, hit) := Get(c.active, key, now);
    if hit.Some? then (c.(active := active), Some(Tenant(hit.value, true)))
    else
      var (inactive, hit') := Get(c.inactive, key, now);
      (VCache(active, inactive), if hit'.Some? then Some(Tenant(hit'.value, false)) else None)
  }

  /** The other segment's entry is dropped. */
  function VPut(c: VCache, key: string, v: Tenant, now: int): VCache {
    if v.active then VCache(Put(c.active, key, v.id, now), Remove(c.inactive, key))
    else VCache(Remove(c.active, key), Put(c.inactive, key, v.id, now))
  }

  class ValidationCache {
    const active: Segment<string>
    const inactive: Segment<string>

    ghost predicate Valid()
      reads this, active, inactive
    {
      active != inactive && active.Valid() && inactive.Valid()
    }

    ghost function Contents(): VCache
      reads this, active, inactive
    {
      VCache(active.Contents(), inactive.Contents())
    }

    constructor (ttl: int, maxActive: int, maxInactive: int)
      requires ttl > 0
      ensures Valid() && fresh(active) && fresh(inactive) && Contents() == NewCache(ttl, maxActive, maxInactive)
    {
      active := new Segment(maxActive, ttl);
      inactive := new Segment(maxInactive, NegativeTtl(ttl));
    }

    method Lookup(key: string, now: int) returns (hit: Option<Tenant>)
      requires Valid()
      modifies active, inactive
      ensures Valid() && (Contents(), hit) == VGet(old(Contents()), key, now)
    {
      var id := active.Lookup(key, now);
      if id.Some? {
        return Some(Tenant(id.value, true));
      }
      id := inactive.Lookup(key, now);
      if id.Some? {
        return Some(Tenant(id.value, false));
      }
      return None;
    }

    method Store(key: string, v: Tenant, now: int)
      requires Valid()
      modifies active, inactive
      ensures Valid() && Contents() == VPut(old(Contents()), key, v, now)
    {
      if v.active {
        inactive.Drop(key);
        active.Store(key, v.id, now);
        return;
      }
      active.Drop(key);
      inactive.Store(key, v.id, now);
    }
  }

  // ----- Serial runs -----

  datatype Op = Find(key: string, now: int) | Remember(key: string, v: Tenant, now: int)

  function Step(c: VCache, op: Op): VCache {
    match op
    case Find(key, now) => VGet(c, key, now).0
    case Remember(key, v, now) => VPut(c, key, v, now)
  }

  function Run(c: VCache, ops: seq<Op>): VCache {
    if ops == [] then c else Step(Run(c, ops[..|ops| - 1]), ops[|ops| - 1])
  }

  /** The result most recently remembered for a key. */
  function Latest(ops: seq<Op>, key: string): Option<Tenant> {
    if ops == [] then None
    else
      var op := ops[|ops| - 1];
      if op.Remember? && op.key == key then Some(op.v) else Latest(ops[..|ops| - 1], key)
  }

  ghost predicate Consistent(c: VCache, ops: seq<Op>) {
    && Wellformed(c.active) && Wellformed(c.inactive)
    && (forall k | k in c.active.items :: k !in c.inactive.items && Latest(ops, k) == Some(Tenant(c.active.items[k].value, true)))
    && (forall k | k in c.inactive.items :: Latest(ops, k) == Some(Tenant(c.inactive.items[k].value, false)))
  }

  /** What the segment operations do to the entries. */
  lemma PutItems<V>(l: Lru<V>, key: string, value: V, now: int)
    requires Wellformed(l)
    ensures var l' := Put(l, key, value, now);
            forall k | k in l'.items :: if k == key then l'.items[k] == Entry(value, now + l.ttl) else k in l.items && l'.items[k] == l.items[k]
  {
    if key !in l.items { PutNew(l, key, value, now); }
  }

  lemma FindConsistent(c: VCache, ops: seq<Op>, key: string, now: int)
    requires Consistent(c, ops)
    ensures Consistent(Step(c, Find(key, now)), ops + [Find(key, now)])
  {
    assert (ops + [Find(key, now)])[..|ops|] == ops;
    GetKeepsWellformed(c.active, key, now);
    GetKeepsWellformed(c.inactive, key, now);
  }

  lemma RememberConsistent(c: VCache, ops: seq<Op>, key: string, v: Tenant, now: int)
    requires Consistent(c, ops)
    ensures Consistent(Step(c, Remember(key, v, now)), ops + [Remember(key, v, now)])
  {
    assert (ops + [Remember(key, v, now)])[..|ops|] == ops;
    PutKeepsWellformed(c.active, key, v.id, now);
    PutKeepsWellformed(c.inactive, key, v.id, now);
    RemoveKeepsWellformed(c.active, key);
    RemoveKeepsWellformed(c.inactive, key);
    PutItems(c.active, key, v.id, now);
    PutItems(c.inactive, key, v.id, now);
  }

  lemma StepConsistent(c: VCache, ops: seq<Op>, op: Op)
    requires Consistent(c, ops)
    ensures Consistent(Step(c, op), ops + [op])
  {
    match op
    case Find(key, now) => FindConsistent(c, ops, key, now);
    case Remember(key, v, now) => RememberConsistent(c, ops, key, v, now);
  }

  lemma {:induction false} RunConsistent(ttl: int, maxActive: int, maxInactive: int, ops: seq<Op>)
    requires ttl > 0
    ensures Consistent(Run(NewCache(ttl, maxActive, maxInactive), ops), ops)
  {
    if ops != [] {
      RunConsistent(ttl, maxActive, maxInactive, ops[..|ops| - 1]);
      StepConsistent(Run(NewCache(ttl, maxActive, maxInactive), ops[..|ops| - 1]), ops[..|ops| - 1], ops[|ops| - 1]);
      assert ops[..|ops| - 1] + [ops[|ops| - 1]] == ops;
    }
  }

  /** With serial calls no key is in both segments, and a hit is the result most recently remembered. */
  lemma HitIsLatest(ttl: int, maxActive: int, maxInactive: int, ops: seq<Op>, key: string, now: int)
    requires ttl > 0
    ensures var c := Run(NewCache(ttl, maxActive, maxInactive), ops);
            && c.active.items.Keys !! c.inactive.items.Keys
            && (VGet(c, key, now).1.Some? ==> VGet(c, key, now).1 == Latest(ops, key))
  {
    RunConsistent(ttl, maxActive, maxInactive, ops);
  }

  // ----- Flood isolation -----

  /** What an operation does to the active segment alone. */
  function ActiveStep(l: Lru<string>, op: Op): Lru<string> {
    match op
    case Find(key, now) => Get(l, key, now).0
    case Remember(key, v, now) => if v.active then Put(l, key, v.id, now) else Remove(l, key)
  }

  /** The run without the operations on flood keys. */
  function Filtered(ops: seq<Op>, flood: set<string>): seq<Op> {
    if ops == [] then []
    else
      var op := ops[|ops| - 1];
      Filtered(ops[..|ops| - 1], flood) + (if op.key in flood then [] else [op])
  }

  /** The answers the active segment gave to the lookups of other keys. */
  function ActiveAnswers(c: VCache, ops: seq<Op>, flood: set<string>): seq<Option<string>> {
    if ops == [] then []
    else
      var op := ops[|ops| - 1];
      ActiveAnswers(c, ops[..|ops| - 1], flood) +
      (if op.Find? && op.key !in flood then [Get(Run(c, ops[..|ops| - 1]).active, op.key, op.now).1] else [])
  }

  ghost predicate NeverActive(ops: seq<Op>, flood: set<string>) {
    forall i | 0 <= i < |ops| && ops[i].Remember? && ops[i].v.active :: ops[i].key !in flood
  }

  lemma StepOnActive(c: VCache, op: Op)
    ensures Step(c, op).active == ActiveStep(c.active, op)
  {
  }

  lemma FloodStepHarmless(l: Lru<string>, op: Op, flood: set<string>)
    requires Wellformed(l) && l.items.Keys !! flood
    requires op.Remember? && op.v.active ==> op.key !in flood
    ensures Wellformed(ActiveStep(l, op)) && ActiveStep(l, op).items.Keys !! flood
    ensures op.key in flood ==> ActiveStep(l, op) == l
  {
    WithoutCorrect(l.order, op.key);
    match op
    case Find(key, now) => GetKeepsWellformed(l, key, now);
    case Remember(key, v, now) =>
      if v.active {
        PutKeepsWellformed(l, key, v.id, now);
        PutItems(l, key, v.id, now);
      } else {
        RemoveKeepsWellformed(l, key);
        if key in flood {
          WithoutAbsent(l.order, key);
          assert l.items - {key} == l.items;
        }
      }
  }

  lemma RunSnoc(c: VCache, ops: seq<Op>, op: Op)
    ensures Run(c, ops + [op]) == Step(Run(c, ops), op)
  {
    assert (ops + [op])[..|ops|] == ops;
  }

  lemma AnswersSnoc(c: VCache, ops: seq<Op>, op: Op, flood: set<string>)
    requires op.key !in flood
    ensures ActiveAnswers(c, ops + [op], flood) ==
            ActiveAnswers(c, ops, flood) + (if op.Find? then [Get(Run(c, ops).active, op.key, op.now).1] else [])
  {
    assert (ops + [op])[..|ops|] == ops;
  }

  /** Adding lookups and inactive results for keys never stored as active leaves the active segment's
      entries, order and answers exactly as they would have been. */
  lemma {:induction false} FloodIsolation(c: VCache, ops: seq<Op>, flood: set<string>)
    requires Wellformed(c.active) && c.active.items.Keys !! flood && NeverActive(ops, flood)
    ensures Run(c, ops).active == Run(c, Filtered(ops, flood)).active
    ensures ActiveAnswers(c, ops, flood) == ActiveAnswers(c, Filtered(ops, flood), flood)
    ensures Wellformed(Run(c, ops).active) && Run(c, ops).active.items.Keys !! flood
  {
    if ops != [] {
      var init, op := ops[..|ops| - 1], ops[|ops| - 1];
      FloodIsolation(c, init, flood);
      FloodStepHarmless(Run(c, init).active, op, flood);
      StepOnActive(Run(c, init), op);
      if op.key !in flood {
        StepOnActive(Run(c, Filtered(init, flood)), op);
        RunSnoc(c, Filtered(init, flood), op);
        AnswersSnoc(c, Filtered(init, flood), op, flood);
      } else {
        assert Filtered(ops, flood) == Filtered(init, flood);
      }
    }
  }
}
