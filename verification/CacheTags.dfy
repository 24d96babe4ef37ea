/** Tag normalisation, the version token and the process-local token cache (cache/manager.go). */
module CacheTags {
  import opened Wrappers
  import opened Strings

  /** The tag names a request ends up with: trimmed and not empty. */
  ghost predicate Names(tags: seq<string>, name: string) {
    name != "" && exists i | 0 <= i < |tags| :: Trim(tags[i]) == name
  }

  lemma NamesSnoc(tags: seq<string>, tag: string)
    ensures forall name :: Names(tags + [tag], name) <==> Names(tags, name) || (name != "" && name == Trim(tag))
  {
    var more := tags + [tag];
    assert more[|tags|] == tag;
    assert forall i | 0 <= i < |tags| :: more[i] == tags[i];
  }

  /** Drops blank and repeated tags and sorts the rest. */
  method NormalizeResolvedTags(tags: seq<string>) returns (out: seq<string>)
    ensures Ascending(out)
    ensures forall name :: name in out <==> Names(tags, name)
  {
    var seen: set<string> := {};
    var kept: seq<string> := [];
    for n := 0 to |tags|
      invariant forall name :: name in seen <==> name in kept
      invariant forall name :: name in kept <==> Names(tags[..n], name)
    {
      var trimmed := Trim(tags[n]);
      NamesSnoc(tags[..n], tags[n]);
      assert tags[..n + 1] == tags[..n] + [tags[n]];
      if trimmed != "" && trimmed !in seen {
        seen := seen + {trimmed};
        kept := kept + [trimmed];
      }
    }
    assert tags[..|tags|] == tags;
    SortCorrect(kept);
    out := Sort(kept);
  }

  /** Readers and writers that resolve the same names agree on the normalised list, whatever the
      order and repetitions they started from. */
  lemma NormalFormUnique(tags: seq<string>, tags': seq<string>, out: seq<string>, out': seq<string>)
    requires forall name :: Names(tags, name) <==> Names(tags', name)
    requires Ascending(out) && forall name :: name in out <==> Names(tags, name)
    requires Ascending(out') && forall name :: name in out' <==> Names(tags', name)
    ensures out == out'
  {
    AscendingUnique(out, out');
  }

  // ----- The version token -----

  function Digit(d: nat): char
    requires d < 10
  {
    ('0' as int + d) as char
  }

  /** strconv.FormatInt(n, 10). */
  function Decimal(n: nat): (s: string)
    ensures s != "" && forall ch | ch in s :: '0' <= ch <= '9'
  {
    if n < 10 then [Digit(n)] else Decimal(n / 10) + [Digit(n % 10)]
  }

  function Part(tag: string, version: nat): string {
    tag + "=" + Decimal(version)
  }

  /** strings.Join of "tag=version" parts with commas. */
  function VersionToken(tags: seq<string>, versions: seq<nat>): string
    requires |tags| == |versions|
  {
    if tags == [] then ""
    else if |tags| == 1 then Part(tags[0], versions[0])
    else Part(tags[0], versions[0]) + "," + VersionToken(tags[1..], versions[1..])
  }

  lemma {:induction false} DecimalInjective(m: nat, n: nat)
    requires Decimal(m) == Decimal(n)
    ensures m == n
    decreases m + n
  {
    if m >= 10 && n >= 10 {
      assert Decimal(m)[..|Decimal(m)| - 1] == Decimal(m / 10);
      assert Decimal(n)[..|Decimal(n)| - 1] == Decimal(n / 10);
      DecimalInjective(m / 10, n / 10);
      assert Decimal(m)[|Decimal(m)| - 1] == Digit(m % 10);
      assert Decimal(n)[|Decimal(n)| - 1] == Digit(n % 10);
    }
  }

  /** Text up to the first comma is determined. */
  lemma CutAtComma(a: string, r: string, a': string, r': string)
    requires ',' !in a && ',' !in a'
    requires a + "," + r == a' + "," + r'
    ensures a == a' && r == r'
  {
    var whole, whole' := a + "," + r, a' + "," + r';
    assert whole[|a|] == ',' && whole'[|a'|] == ',';
    assert forall i | 0 <= i < |a| :: whole[i] == a[i] && a[i] in a;
    assert forall i | 0 <= i < |a'| :: whole'[i] == a'[i] && a'[i] in a';
    assert |a| == |a'|;
    assert whole[..|a|] == a && whole'[..|a'|] == a';
    assert whole[|a| + 1..] == r && whole'[|a'| + 1..] == r';
  }

  /** Text after the last equals sign is determined. */
  lemma CutAtEquals(a: string, d: string, a': string, d': string)
    requires '=' !in d && '=' !in d'
    requires a + "=" + d == a' + "=" + d'
    ensures a == a' && d == d'
  {
    var whole, whole' := a + "=" + d, a' + "=" + d';
    assert whole[|a|] == '=' && whole'[|a'|] == '=';
    assert forall i | |a| < i < |whole| :: whole[i] == d[i - |a| - 1] && d[i - |a| - 1] in d;
    assert forall i | |a'| < i < |whole'| :: whole'[i] == d'[i - |a'| - 1] && d'[i - |a'| - 1] in d';
    assert |a| == |a'|;
    assert whole[..|a|] == a && whole'[..|a'|] == a';
    assert whole[|a| + 1..] == d && whole'[|a'| + 1..] == d';
  }

  /** For one tag list, different version vectors give different tokens. */
  lemma {:induction false} TokenDeterminesVersions(tags: seq<string>, vs: seq<nat>, vs': seq<nat>)
    requires |tags| == |vs| == |vs'|
    requires VersionToken(tags, vs) == VersionToken(tags, vs')
    ensures vs == vs'
  {
    if tags != [] {
      var lead := tags[0] + "=";
      var d, d' := Decimal(vs[0]), Decimal(vs'[0]);
      if |tags| == 1 {
        assert VersionToken(tags, vs)[|lead|..] == d && VersionToken(tags, vs')[|lead|..] == d';
        DecimalInjective(vs[0], vs'[0]);
      } else {
        var r, r' := VersionToken(tags[1..], vs[1..]), VersionToken(tags[1..], vs'[1..]);
        assert VersionToken(tags, vs) == lead + (d + "," + r);
        assert VersionToken(tags, vs') == lead + (d' + "," + r');
        assert VersionToken(tags, vs)[|lead|..] == d + "," + r;
        assert VersionToken(tags, vs')[|lead|..] == d' + "," + r';
        CutAtComma(d, r, d', r');
        DecimalInjective(vs[0], vs'[0]);
        TokenDeterminesVersions(tags[1..], vs[1..], vs'[1..]);
      }
      assert vs == [vs[0]] + vs[1..] && vs' == [vs'[0]] + vs'[1..];
    }
  }

  lemma PartDetermines(tag: string, v: nat, tag': string, v': nat)
    requires Part(tag, v) == Part(tag', v')
    ensures tag == tag' && v == v'
  {
    CutAtEquals(tag, Decimal(v), tag', Decimal(v'));
    DecimalInjective(v, v');
  }

  // ----- Across tag lists -----

  predicate SplitsInto(tag: string, a: string, n: nat, b: string) {
    tag == Part(a, n) + "," + b
  }

  /** The tag contains what reads like the end of a part: "=", a version in decimal and ",". */
  ghost predicate Ambiguous(tag: string) {
    exists a, n, b :: SplitsInto(tag, a, n, b)
  }

  /** A part that continues past another part and a comma has an ambiguous tag. */
  lemma LongerPartIsAmbiguous(tag: string, v: nat, tag': string, v': nat, token: string)
    requires |Part(tag, v)| < |Part(tag', v')| <= |token|
    requires token[..|Part(tag, v)|] == Part(tag, v) && token[|Part(tag, v)|] == ',' && token[..|Part(tag', v')|] == Part(tag', v')
    ensures Ambiguous(tag')
  {
    var p, p' := Part(tag, v), Part(tag', v');
    var d := Decimal(v');
    assert p'[|p|] == ',' && p'[|tag'|] == '=';
    assert forall i | |tag'| < i < |p'| :: p'[i] == d[i - |tag'| - 1] && d[i - |tag'| - 1] in d;
    assert |p| < |tag'|;
    assert p'[..|tag'|] == tag';
    assert tag'[..|p|] == p;
    assert tag' == p + "," + tag'[|p| + 1..];
    assert SplitsInto(tag', tag, v, tag'[|p| + 1..]);
  }

  lemma TokenCons(tags: seq<string>, vs: seq<nat>)
    requires |tags| == |vs| > 0
    ensures var p, token := Part(tags[0], vs[0]), VersionToken(tags, vs);
            && |p| <= |token| && token[..|p|] == p && (|tags| == 1 <==> token == p)
            && (|tags| > 1 ==> |p| < |token| && token[|p|] == ',' && token[|p| + 1..] == VersionToken(tags[1..], vs[1..]))
  {
  }

  /** Lists of unambiguous tags with one token start with the same part. */
  lemma SameFirstPart(tags: seq<string>, vs: seq<nat>, tags': seq<string>, vs': seq<nat>)
    requires |tags| == |vs| > 0 && |tags'| == |vs'| > 0 && VersionToken(tags, vs) == VersionToken(tags', vs')
    requires !Ambiguous(tags[0]) && !Ambiguous(tags'[0])
    ensures Part(tags[0], vs[0]) == Part(tags'[0], vs'[0])
  {
    TokenCons(tags, vs);
    TokenCons(tags', vs');
    var p, p', token := Part(tags[0], vs[0]), Part(tags'[0], vs'[0]), VersionToken(tags, vs);
    if |p| < |p'| {
      LongerPartIsAmbiguous(tags[0], vs[0], tags'[0], vs'[0], token);
    } else if |p'| < |p| {
      LongerPartIsAmbiguous(tags'[0], vs'[0], tags[0], vs[0], token);
    }
  }

  /** Across lists of unambiguous tags, the token determines both the tags and their versions. */
  lemma {:induction false} TokenDeterminesTags(tags: seq<string>, vs: seq<nat>, tags': seq<string>, vs': seq<nat>)
    requires |tags| == |vs| && |tags'| == |vs'|
    requires (forall i | 0 <= i < |tags| :: !Ambiguous(tags[i])) && forall i | 0 <= i < |tags'| :: !Ambiguous(tags'[i])
    requires VersionToken(tags, vs) == VersionToken(tags', vs')
    ensures tags == tags' && vs == vs'
  {
    if tags != [] { TokenCons(tags, vs); }
    if tags' != [] { TokenCons(tags', vs'); }
    if tags != [] && tags' != [] {
      SameFirstPart(tags, vs, tags', vs');
      PartDetermines(tags[0], vs[0], tags'[0], vs'[0]);
      assert tags == [tags[0]] + tags[1..] && tags' == [tags'[0]] + tags'[1..];
      assert vs == [vs[0]] + vs[1..] && vs' == [vs'[0]] + vs'[1..];
      if |tags| > 1 {
        TokenDeterminesTags(tags[1..], vs[1..], tags'[1..], vs'[1..]);
      }
    }
  }

  /** A list without commas in its tags has no ambiguous ones. */
  lemma CommaFreeIsUnambiguous(tag: string)
    requires ',' !in tag
    ensures !Ambiguous(tag)
  {
    assert forall a, n, b | SplitsInto(tag, a, n, b) :: tag[|Part(a, n)|] == ',';
  }

  lemma {:induction false} TokenSplits(tags: seq<string>, vs: seq<nat>, i: nat, a: string, n: nat, b: string)
    requires |tags| == |vs| && i < |tags| && SplitsInto(tags[i], a, n, b)
    ensures VersionToken(tags[..i] + [a, b] + tags[i + 1..], vs[..i] + [n, vs[i]] + vs[i + 1..]) == VersionToken(tags, vs)
    decreases i
  {
    var more, moreVs := tags[..i] + [a, b] + tags[i + 1..], vs[..i] + [n, vs[i]] + vs[i + 1..];
    if i == 0 {
      var rest, restVs := [b] + tags[1..], [vs[0]] + vs[1..];
      assert more == [a] + rest && moreVs == [n] + restVs && more[1..] == rest && moreVs[1..] == restVs;
      assert Part(tags[0], vs[0]) == Part(a, n) + "," + Part(b, vs[0]);
      assert VersionToken(more, moreVs) == Part(a, n) + "," + VersionToken(rest, restVs);
      if |tags| > 1 {
        assert rest[1..] == tags[1..] && restVs[1..] == vs[1..];
        var tail := VersionToken(tags[1..], vs[1..]);
        assert VersionToken(rest, restVs) == Part(b, vs[0]) + "," + tail;
        assert Part(a, n) + "," + (Part(b, vs[0]) + "," + tail) == (Part(a, n) + "," + Part(b, vs[0])) + "," + tail;
      }
    } else {
      TokenSplits(tags[1..], vs[1..], i - 1, a, n, b);
      assert more[1..] == tags[1..][..i - 1] + [a, b] + tags[1..][i..];
      assert moreVs[1..] == vs[1..][..i - 1] + [n, vs[i]] + vs[1..][i..];
    }
  }

  /** Every list that holds an ambiguous tag shares its token with a longer list. */
  lemma AmbiguousTagsCollide(tags: seq<string>, vs: seq<nat>, i: nat) returns (tags': seq<string>, vs': seq<nat>)
    requires |tags| == |vs| && i < |tags| && Ambiguous(tags[i])
    ensures |tags'| == |vs'| == |tags| + 1 && VersionToken(tags', vs') == VersionToken(tags, vs)
    ensures TotalLength(tags') < TotalLength(tags)
  {
    var a, n, b :| SplitsInto(tags[i], a, n, b);
    TokenSplits(tags, vs, i, a, n, b);
    tags', vs' := tags[..i] + [a, b] + tags[i + 1..], vs[..i] + [n, vs[i]] + vs[i + 1..];
    LengthAround(tags[..i], [a, b], tags[i + 1..]);
    LengthAround(tags[..i], [tags[i]], tags[i + 1..]);
    assert tags == tags[..i] + [tags[i]] + tags[i + 1..];
    assert [a, b][1..] == [b] && [b][1..] == [] && TotalLength([b]) == |b|;
    assert TotalLength([a, b]) == |a| + |b| && TotalLength([tags[i]]) == |tags[i]|;
  }

  function TotalLength(tags: seq<string>): nat {
    if tags == [] then 0 else |tags[0]| + TotalLength(tags[1..])
  }

  lemma {:induction false} LengthAppend(a: seq<string>, b: seq<string>)
    ensures TotalLength(a + b) == TotalLength(a) + TotalLength(b)
  {
    if a == [] {
      assert a + b == b;
    } else {
      LengthAppend(a[1..], b);
      assert (a + b)[1..] == a[1..] + b;
    }
  }

  lemma LengthAround(a: seq<string>, b: seq<string>, c: seq<string>)
    ensures TotalLength(a + b + c) == TotalLength(a) + TotalLength(b) + TotalLength(c)
  {
    LengthAppend(a + b, c);
    LengthAppend(a, b);
  }

  /** Splitting until no tag is ambiguous. */
  lemma {:induction false} FullSplit(tags: seq<string>, vs: seq<nat>) returns (tags': seq<string>, vs': seq<nat>)
    requires |tags| == |vs|
    ensures |tags'| == |vs'| >= |tags| && VersionToken(tags', vs') == VersionToken(tags, vs)
    ensures forall i | 0 <= i < |tags'| :: !Ambiguous(tags'[i])
    decreases TotalLength(tags)
  {
    tags', vs' := tags, vs;
    if i :| 0 <= i < |tags| && Ambiguous(tags[i]) {
      tags', vs' := AmbiguousTagsCollide(tags, vs, i);
      tags', vs' := FullSplit(tags', vs');
    }
  }

  /** No tag of the list is ambiguous exactly when no longer list shares its token. */
  lemma UnambiguousIffLongest(tags: seq<string>, vs: seq<nat>)
    requires |tags| == |vs|
    ensures (forall i | 0 <= i < |tags| :: !Ambiguous(tags[i])) <==>
            forall tags', vs' | |tags'| == |vs'| && VersionToken(tags', vs') == VersionToken(tags, vs) :: |tags'| <= |tags|
  {
    if forall i | 0 <= i < |tags| :: !Ambiguous(tags[i]) {
      forall tags', vs' | |tags'| == |vs'| && VersionToken(tags', vs') == VersionToken(tags, vs) ensures |tags'| <= |tags| {
        var split, splitVs := FullSplit(tags', vs');
        TokenDeterminesTags(tags, vs, split, splitVs);
      }
    } else {
      var i: nat :| i < |tags| && Ambiguous(tags[i]);
      var tags', vs' := AmbiguousTagsCollide(tags, vs, i);
      assert |tags'| == |vs'| && |tags'| > |tags|;
    }
  }

  // ----- The process-local token cache -----

  datatype TokenEntry = TokenEntry(token: string, expiresAt: int)

  /** What a lookup at time `now` answers. */
  function LiveToken(entries: map<string, TokenEntry>, ttl: int, key: string, now: int): Option<string> {
    if ttl > 0 && Trim(key) != "" && key in entries && now <= entries[key].expiresAt
    then Some(entries[key].token) else None
  }

  class TagTokenCache {
    const ttl: int
    var entries: map<string, TokenEntry>

    /** A negative lifetime is raised to zero, which switches the cache off. */
    constructor (configured: int)
      ensures ttl == (if configured < 0 then 0 else configured) && entries == map[]
    {
      ttl := if configured < 0 then 0 else configured;
      entries := map[];
    }

    /** A live token is returned; an expired one is deleted; nothing else changes. */
    method FromCache(key: string, now: int) returns (token: Option<string>)
      modifies this
      ensures token == LiveToken(old(entries), ttl, key, now)
      ensures entries == if token.None? && ttl > 0 && Trim(key) != "" then old(entries) - {key} else old(entries)
    {
      if ttl <= 0 || Trim(key) == "" {
        return None;
      }
      if key !in entries {
        assert entries == entries - {key};
        return None;
      }
      if now > entries[key].expiresAt {
        entries := entries - {key};
        return None;
      }
      return Some(entries[key].token);
    }

    /** From now until `now + ttl` exactly the stored token is found under the key; other keys keep theirs. */
    method StoreToken(key: string, token: string, now: int)
      modifies this
      ensures forall k, t | k != key :: LiveToken(entries, ttl, k, t) == LiveToken(old(entries), ttl, k, t)
      ensures forall t :: LiveToken(entries, ttl, key, t) ==
                          (if ttl > 0 && Trim(key) != "" && t <= now + ttl then Some(token) else None)
    {
      if ttl <= 0 || Trim(key) == "" {
        return;
      }
      entries := entries[key := TokenEntry(token, now + ttl)];
    }

    /** After a successful bump the process forgets every token. */
    method Clear()
      modifies this
      ensures forall k, t :: LiveToken(entries, ttl, k, t) == None
    {
      while entries != map[]
        decreases |entries|
      {
        var key :| key in entries;
        entries := entries - {key};
      }
    }
  }
}
