/** A fixed-capacity cache segment with a lifetime per entry (ttlLRU in tenancy/cache.go). */
module TtlLru {
  import opened Wrappers

  datatype Entry<V> = Entry(value: V, expires: int)

  /** `order` lists the keys from most to least recently used; `items` holds their entries. */
  datatype Lru<V> = Lru(max: nat, ttl: int, order: seq<string>, items: map<string, Entry<V>>)

  /** An empty segment; at least one entry always fits. */
  function Empty<V>(max: int, ttl: int): Lru<V> {
    Lru(if max < 1 then 1 else max, ttl, [], map[])
  }

  function Without(order: seq<string>, key: string): seq<string> {
    if order == [] then []
    else if order[0] == key then Without(order[1..], key)
    else [order[0]] + Without(order[1..], key)
  }

  function MoveToFront(order: seq<string>, key: string): seq<string> {
    [key] + Without(order, key)
  }

  function Remove<V>(l: Lru<V>, key: string): Lru<V> {
    l.(order := Without(l.order, key), items := l.items - {key})
  }

  predicate Live<V>(l: Lru<V>, key: string, now: int) {
    key in l.items && now <= l.items[key].expires
  }

  /** A live entry is returned and becomes the most recent; an expired one is removed. */
  function Get<V>(l: Lru<V>, key: string, now: int): (Lru<V>, Option<V>) {
    if key !in l.items then (l, None)
    else if now > l.items[key].expires then (Remove(l, key), None)
    else (l.(order := MoveToFront(l.order, key)), Some(l.items[key].value))
  }

  /** Drops the least recently used entries beyond the capacity. */
  function Trimmed<V>(l: Lru<V>): (r: Lru<V>)
    ensures r.max == l.max && r.ttl == l.ttl && |r.order| <= r.max
    decreases |l.order|
  {
    if |l.order| <= l.max then l
    else
      var last := l.order[|l.order| - 1];
      Trimmed(l.(order := l.order[..|l.order| - 1], items := l.items - {last}))
  }

  function Put<V>(l: Lru<V>, key: string, value: V, now: int): Lru<V> {
    var stored := l.(items := l.items[key := Entry(value, now + l.ttl)]);
    if key in l.items then stored.(order := MoveToFront(l.order, key))
    else Trimmed(stored.(order := [key] + l.order))
  }

  // ----- The class -----

  class Segment<V> {
    const max: nat
    const ttl: int
    var order: seq<string>
    var items: map<string, Entry<V>>

    ghost function Contents(): Lru<V>
      reads this
    {
      Lru(max, ttl, order, items)
    }

    ghost predicate Valid()
      reads this
    {
      Wellformed(Contents())
    }

    constructor (max: int, ttl: int)
      ensures Valid() && Contents() == Empty(max, ttl)
    {
      this.max, this.ttl := if max < 1 then 1 else max, ttl;
      order, items := [], map[];
    }

    method Lookup(key: string, now: int) returns (value: Option<V>)
      requires Valid()
      modifies this
      ensures Valid() && (Contents(), value) == Get(old(Contents()), key, now)
    {
      GetKeepsWellformed(Contents(), key, now);
      if key !in items {
        return None;
      }
      if now > items[key].expires {
        order := Without(order, key);
        items := items - {key};
        return None;
      }
      order := MoveToFront(order, key);
      return Some(items[key].value);
    }

    method Store(key: string, value: V, now: int)
      requires Valid()
      modifies this
      ensures Valid() && Contents() == Put(old(Contents()), key, value, now)
    {
      PutKeepsWellformed(Contents(), key, value, now);
      if key in items {
        items := items[key := Entry(value, now + ttl)];
        order := MoveToFront(order, key);
        return;
      }
      items := items[key := Entry(value, now + ttl)];
      order := [key] + order;
      EvictOverflow();
    }

    /** The loop that drops list tails until the segment fits again. */
    method EvictOverflow()
      modifies this
      ensures Contents() == Trimmed(old(Contents()))
    {
      while |order| > max
        invariant Trimmed(Contents()) == Trimmed(old(Contents()))
      {
        items := items - {order[|order| - 1]};
        order := order[..|order| - 1];
      }
    }

    method Drop(key: string)
      requires Valid()
      modifies this
      ensures Valid() && Contents() == Remove(old(Contents()), key)
    {
      RemoveKeepsWellformed(Contents(), key);
      if key in items {
        order := Without(order, key);
        items := items - {key};
      } else {
        WithoutAbsent(order, key);
        assert items == items - {key};
      }
    }
  }

  // ----- The list and the map always agree -----

  ghost predicate Distinct(s: seq<string>) {
    forall i, j | 0 <= i < j < |s| :: s[i] != s[j]
  }

  ghost predicate Wellformed<V>(l: Lru<V>) {
    && l.max >= 1
    && |l.order| <= l.max
    && Distinct(l.order)
    && (forall k :: k in l.items <==> k in l.order)
  }

  lemma {:induction false} WithoutCorrect(order: seq<string>, key: string)
    requires Distinct(order)
    ensures Distinct(Without(order, key))
    ensures forall k :: k in Without(order, key) <==> k in order && k != key
    ensures |Without(order, key)| == |order| - (if key in order then 1 else 0)
  {
    if order != [] {
      WithoutCorrect(order[1..], key);
      assert forall k :: k in order <==> k == order[0] || k in order[1..];
      if order[0] != key {
        assert order[0] !in Without(order[1..], key);
      }
    }
  }

  lemma {:induction false} WithoutAbsent(order: seq<string>, key: string)
    requires key !in order
    ensures Without(order, key) == order
  {
    if order != [] {
      WithoutAbsent(order[1..], key);
      assert order == [order[0]] + order[1..];
    }
  }

  lemma RemoveKeepsWellformed<V>(l: Lru<V>, key: string)
    requires Wellformed(l)
    ensures Wellformed(Remove(l, key))
  {
    WithoutCorrect(l.order, key);
  }

  lemma GetKeepsWellformed<V>(l: Lru<V>, key: string, now: int)
    requires Wellformed(l)
    ensures Wellformed(Get(l, key, now).0)
  {
    WithoutCorrect(l.order, key);
  }

  /** Storing a new key into a full segment drops exactly the last key of the list. */
  lemma PutNew<V>(l: Lru<V>, key: string, value: V, now: int)
    requires Wellformed(l) && key !in l.items
    ensures var full := |l.order| == l.max;
            var l' := Put(l, key, value, now);
            && l'.order == (if full then [key] + l.order[..|l.order| - 1] else [key] + l.order)
            && l'.items == l.items[key := Entry(value, now + l.ttl)] - (if full then {l.order[|l.order| - 1]} else {})
  {
    var stored := l.(items := l.items[key := Entry(value, now + l.ttl)], order := [key] + l.order);
    assert Put(l, key, value, now) == Trimmed(stored);
    if |l.order| == l.max {
      var last := l.order[|l.order| - 1];
      assert stored.order[|stored.order| - 1] == last;
      assert stored.order[..|stored.order| - 1] == [key] + l.order[..|l.order| - 1];
      var cut := stored.(order := [key] + l.order[..|l.order| - 1], items := stored.items - {last});
      assert Trimmed(cut) == cut;
      assert Trimmed(stored) == Trimmed(cut);
    } else {
      assert Trimmed(stored) == stored;
    }
  }

  lemma PutKeepsWellformed<V>(l: Lru<V>, key: string, value: V, now: int)
    requires Wellformed(l)
    ensures Wellformed(Put(l, key, value, now))
  {
    WithoutCorrect(l.order, key);
    if key !in l.items {
      PutNew(l, key, value, now);
      var l' := Put(l, key, value, now);
      if |l.order| == l.max {
        var last := l.order[|l.order| - 1];
        forall k ensures k in l'.items <==> k in l'.order {
          assert k in l.order[..|l.order| - 1] <==> k in l.order && k != last by {
            assert l.order == l.order[..|l.order| - 1] + [last];
          }
        }
      }
    }
  }

  // ----- Runs and recency -----

  datatype Op<V> = DoGet(key: string, now: int) | DoPut(key: string, value: V, now: int) | DoRemove(key: string)

  function Step<V>(l: Lru<V>, op: Op<V>): Lru<V> {
    match op
    case DoGet(key, now) => Get(l, key, now).0
    case DoPut(key, value, now) => Put(l, key, value, now)
    case DoRemove(key) => Remove(l, key)
  }

  /** The key an operation uses: it stores it or hits it. */
  function Uses<V>(l: Lru<V>, op: Op<V>): seq<string> {
    match op
    case DoGet(key, now) => if Live(l, key, now) then [key] else []
    case DoPut(key, _, _) => [key]
    case DoRemove(_) => []
  }

  function Run<V>(l: Lru<V>, ops: seq<Op<V>>): Lru<V> {
    if ops == [] then l else Step(Run(l, ops[..|ops| - 1]), ops[|ops| - 1])
  }

  /** All uses along a run, oldest first. */
  function UsesOf<V>(l: Lru<V>, ops: seq<Op<V>>): seq<string> {
    if ops == [] then []
    else UsesOf(l, ops[..|ops| - 1]) + Uses(Run(l, ops[..|ops| - 1]), ops[|ops| - 1])
  }

  /** The position of the last use of a key, or -1. */
  function LastUse(uses: seq<string>, key: string): (i: int)
    ensures -1 <= i < |uses|
    ensures i >= 0 ==> uses[i] == key
  {
    if uses == [] then -1
    else if uses[|uses| - 1] == key then |uses| - 1
    else LastUse(uses[..|uses| - 1], key)
  }

  lemma {:induction false} NoLaterUse(uses: seq<string>, key: string)
    ensures forall j | LastUse(uses, key) < j < |uses| :: uses[j] != key
  {
    if uses != [] && uses[|uses| - 1] != key {
      NoLaterUse(uses[..|uses| - 1], key);
    }
  }

  /** The distinct keys used after the last use of a key. */
  function UsedSince(uses: seq<string>, key: string): set<string> {
    set i | LastUse(uses, key) < i < |uses| :: uses[i]
  }

  /** The list is ordered by last use, most recent first. */
  ghost predicate ByRecency(order: seq<string>, uses: seq<string>) {
    && (forall k | k in order :: LastUse(uses, k) >= 0)
    && (forall i, j | 0 <= i < j < |order| :: LastUse(uses, order[i]) > LastUse(uses, order[j]))
  }

  lemma LastUseSnoc(uses: seq<string>, key: string, k: string)
    ensures LastUse(uses + [key], k) == if k == key then |uses| else LastUse(uses, k)
  {
    assert (uses + [key])[..|uses|] == uses;
  }

  lemma ConsByRecency(k: string, order: seq<string>, uses: seq<string>)
    requires ByRecency(order, uses) && LastUse(uses, k) >= 0
    requires forall x | x in order :: LastUse(uses, k) > LastUse(uses, x)
    ensures ByRecency([k] + order, uses)
  {
    var order' := [k] + order;
    assert forall j | 0 < j < |order'| :: order'[j] == order[j - 1] && order[j - 1] in order;
  }

  lemma {:induction false} WithoutByRecency(order: seq<string>, uses: seq<string>, key: string)
    requires Distinct(order) && ByRecency(order, uses)
    ensures ByRecency(Without(order, key), uses)
  {
    if order != [] {
      var tail := order[1..];
      assert forall k | k in tail :: k in order && LastUse(uses, order[0]) > LastUse(uses, k);
      assert forall i | 0 <= i < |tail| :: tail[i] == order[i + 1];
      WithoutByRecency(tail, uses, key);
      WithoutCorrect(tail, key);
      if order[0] != key {
        assert order[0] in order;
        ConsByRecency(order[0], Without(tail, key), uses);
      }
    }
  }

  lemma FrontByRecency(order: seq<string>, uses: seq<string>, key: string)
    requires ByRecency(order, uses) && key !in order
    ensures ByRecency([key] + order, uses + [key])
  {
    forall k ensures LastUse(uses + [key], k) == if k == key then |uses| else LastUse(uses, k) {
      LastUseSnoc(uses, key, k);
    }
    var order' := [key] + order;
    forall i, j | 0 <= i < j < |order'| ensures LastUse(uses + [key], order'[i]) > LastUse(uses + [key], order'[j]) {
      assert order'[j] == order[j - 1] && order[j - 1] in order;
      if i > 0 {
        assert order'[i] == order[i - 1] && order[i - 1] in order;
      }
    }
  }

  lemma PrefixByRecency(order: seq<string>, n: nat, uses: seq<string>)
    requires n <= |order| && ByRecency(order, uses)
    ensures ByRecency(order[..n], uses)
  {
    assert forall k | k in order[..n] :: k in order;
  }

  lemma PutByRecency<V>(l: Lru<V>, key: string, value: V, now: int, uses: seq<string>)
    requires Wellformed(l) && ByRecency(l.order, uses)
    ensures ByRecency(Put(l, key, value, now).order, uses + [key])
  {
    if key in l.items {
      WithoutCorrect(l.order, key);
      WithoutByRecency(l.order, uses, key);
      FrontByRecency(Without(l.order, key), uses, key);
    } else {
      PutNew(l, key, value, now);
      FrontByRecency(l.order, uses, key);
      var all, order' := [key] + l.order, Put(l, key, value, now).order;
      assert order' == all[..|order'|];
      PrefixByRecency(all, |order'|, uses + [key]);
    }
  }

  lemma StepByRecency<V>(l: Lru<V>, op: Op<V>, uses: seq<string>)
    requires Wellformed(l) && ByRecency(l.order, uses)
    ensures Wellformed(Step(l, op)) && ByRecency(Step(l, op).order, uses + Uses(l, op))
  {
    match op
    case DoGet(key, now) =>
      GetKeepsWellformed(l, key, now);
      WithoutCorrect(l.order, key);
      WithoutByRecency(l.order, uses, key);
      if Live(l, key, now) {
        FrontByRecency(Without(l.order, key), uses, key);
      } else {
        assert uses + Uses(l, op) == uses;
      }
    case DoPut(key, value, now) =>
      PutKeepsWellformed(l, key, value, now);
      PutByRecency(l, key, value, now, uses);
    case DoRemove(key) =>
      RemoveKeepsWellformed(l, key);
      WithoutByRecency(l.order, uses, key);
      assert uses + Uses(l, op) == uses;
  }

  /** In every run the map and the list hold the same keys without repetition, the capacity is never
      exceeded, and the list is in order of last use. */
  lemma {:induction false} RunStaysOrdered<V>(max: int, ttl: int, ops: seq<Op<V>>)
    ensures var l := Run(Empty<V>(max, ttl), ops);
            Wellformed(l) && l.max == (if max < 1 then 1 else max) && ByRecency(l.order, UsesOf(Empty<V>(max, ttl), ops))
  {
    if ops != [] {
      var e := Empty<V>(max, ttl);
      RunStaysOrdered<V>(max, ttl, ops[..|ops| - 1]);
      StepByRecency(Run(e, ops[..|ops| - 1]), ops[|ops| - 1], UsesOf(e, ops[..|ops| - 1]));
      StepKeepsBounds(Run(e, ops[..|ops| - 1]), ops[|ops| - 1]);
    }
  }

  lemma StepKeepsBounds<V>(l: Lru<V>, op: Op<V>)
    ensures Step(l, op).max == l.max && Step(l, op).ttl == l.ttl
  {
  }

  lemma {:induction false} SizeOfDistinct(s: seq<string>)
    requires Distinct(s)
    ensures |set k | k in s| == |s|
  {
    if s != [] {
      SizeOfDistinct(s[1..]);
      assert (set k | k in s) == {s[0]} + (set k | k in s[1..]);
      assert s[0] !in s[1..];
    }
  }

  lemma SubsetSize(a: set<string>, b: set<string>)
    requires a <= b
    ensures |a| <= |b|
  {
    assert b == a + (b - a);
  }

  lemma EvictionFromOrdered<V>(l: Lru<V>, uses: seq<string>, key: string, value: V, now: int, victim: string)
    requires Wellformed(l) && ByRecency(l.order, uses)
    requires victim in l.items && victim !in Put(l, key, value, now).items
    ensures var since := UsedSince(uses + [key], victim); victim !in since && |since| >= l.max
  {
    assert key !in l.items;
    PutNew(l, key, value, now);
    PutKeepsWellformed(l, key, value, now);
    var kept := Put(l, key, value, now).order;
    assert |l.order| == l.max && victim == l.order[|l.order| - 1] && kept == [key] + l.order[..|l.order| - 1];
    var all := uses + [key];
    NoLaterUse(all, victim);
    forall k | k in kept ensures k in UsedSince(all, victim) {
      KeptIsRecent(l.order, uses, key, k);
    }
    SizeOfDistinct(kept);
    SubsetSize((set k | k in kept), UsedSince(all, victim));
  }

  lemma KeptIsRecent(order: seq<string>, uses: seq<string>, key: string, k: string)
    requires order != [] && key !in order && ByRecency(order, uses) && k in [key] + order[..|order| - 1]
    ensures k in UsedSince(uses + [key], order[|order| - 1])
  {
    var victim, all := order[|order| - 1], uses + [key];
    LastUseSnoc(uses, key, victim);
    LastUseSnoc(uses, key, k);
    if k != key {
      var i :| 0 <= i < |order| - 1 && order[i] == k;
      assert LastUse(uses, order[i]) > LastUse(uses, order[|order| - 1]);
      assert k in order;
    }
    assert LastUse(all, victim) < LastUse(all, k) && all[LastUse(all, k)] == k;
  }

  /** A store evicts a key only if at least max distinct other keys were stored or hit since that key was
      last used. */
  lemma EvictionNeedsMaxOthers<V>(max: int, ttl: int, ops: seq<Op<V>>, key: string, value: V, now: int, victim: string)
    requires victim in Run(Empty<V>(max, ttl), ops).items
    requires victim !in Put(Run(Empty<V>(max, ttl), ops), key, value, now).items
    ensures var since := UsedSince(UsesOf(Empty<V>(max, ttl), ops) + [key], victim);
            victim !in since && |since| >= Run(Empty<V>(max, ttl), ops).max
  {
    RunStaysOrdered<V>(max, ttl, ops);
    EvictionFromOrdered(Run(Empty<V>(max, ttl), ops), UsesOf(Empty<V>(max, ttl), ops), key, value, now, victim);
  }
}
