/** The TOTP key settings (config/totp_keys.go, DecodeKey32 in config/config.go). */
module TotpKeyring {
  import opened Wrappers
  import opened Strings
  import opened SecretCipher

  const DEFAULT_KEY_ID := "default"

  /** The base64 variants tried in turn; each is an arbitrary partial decoder. */
  type Decoders = seq<string -> Option<Bytes>>

  /** The first variant that decodes decides; the key must then have 32 bytes. */
  function DecodeKey32(ds: Decoders, raw: string): (r: Option<Bytes>)
    ensures r.Some? ==> |r.value| == KEY_SIZE
  {
    DecodeTrimmed(ds, Trim(raw))
  }

  function DecodeTrimmed(ds: Decoders, raw: string): (r: Option<Bytes>)
    ensures r.Some? ==> |r.value| == KEY_SIZE
  {
    if ds == [] then None
    else
      match ds[0](raw)
      case None => DecodeTrimmed(ds[1..], raw)
      case Some(key) => if |key| == KEY_SIZE then Some(key) else None
  }

  /** A key decodes exactly if some variant yields it with 32 bytes and no earlier variant decodes at all. */
  lemma {:induction false} DecodesFirst(ds: Decoders, raw: string, key: Bytes)
    ensures DecodeTrimmed(ds, raw) == Some(key) <==> exists i | 0 <= i < |ds| :: FirstYields(ds, raw, i, key)
  {
    if ds != [] {
      DecodesFirst(ds[1..], raw, key);
      if ds[0](raw).None? {
        assert forall i | 0 <= i < |ds[1..]| :: FirstYields(ds[1..], raw, i, key) <==> FirstYields(ds, raw, i + 1, key) by {
          forall i | 0 <= i < |ds[1..]| ensures FirstYields(ds[1..], raw, i, key) <==> FirstYields(ds, raw, i + 1, key) {
            LaterYields(ds, raw, i, key);
          }
        }
        if exists i | 0 <= i < |ds| :: FirstYields(ds, raw, i, key) {
          var i :| 0 <= i < |ds| && FirstYields(ds, raw, i, key);
          assert FirstYields(ds[1..], raw, i - 1, key);
        }
      } else {
        assert FirstYields(ds, raw, 0, key) <==> DecodeTrimmed(ds, raw) == Some(key);
      }
    }
  }

  lemma LaterYields(ds: Decoders, raw: string, i: nat, key: Bytes)
    requires i + 1 < |ds| && ds[0](raw).None?
    ensures FirstYields(ds[1..], raw, i, key) <==> FirstYields(ds, raw, i + 1, key)
  {
    var rest := ds[1..];
    assert forall j | 0 <= j <= i :: rest[j] == ds[j + 1];
    assert forall j | 0 < j <= i + 1 :: ds[j] == rest[j - 1];
  }

  ghost predicate FirstYields(ds: Decoders, raw: string, i: nat, key: Bytes)
    requires i < |ds|
  {
    ds[i](raw) == Some(key) && |key| == KEY_SIZE && forall j | 0 <= j < i :: ds[j](raw).None?
  }

  function Split(s: string, sep: char): (parts: seq<string>)
    ensures |parts| >= 1
  {
    if s == "" then [""]
    else if s[0] == sep then [""] + Split(s[1..], sep)
    else var rest := Split(s[1..], sep); [[s[0]] + rest[0]] + rest[1..]
  }

  /** strings.Cut at the first separator. */
  function Cut(s: string, sep: char): Option<(string, string)> {
    if s == "" then None
    else if s[0] == sep then Some(("", s[1..]))
    else
      match Cut(s[1..], sep)
      case None => None
      case Some((before, after)) => Some(([s[0]] + before, after))
  }

  datatype Entry = Entry(kid: string, key: Bytes)

  /** The id and the encoded key of a "kid:base64key" item, if it has that shape. */
  function ParseItem(item: string): (p: Option<(string, string)>)
    ensures p.Some? ==> ValidKeyId(p.value.0)
  {
    match Cut(Trim(item), ':')
    case None => None
    case Some((k, v)) =>
      var kid, encoded := Trim(k), Trim(v);
      if kid == "" || encoded == "" || !ValidKeyId(kid) then None else Some((kid, encoded))
  }

  /** A well-formed item whose key decodes. */
  function ParseEntry(ds: Decoders, item: string): (e: Option<Entry>)
    ensures e.Some? ==> ValidKeyId(e.value.kid) && |e.value.key| == KEY_SIZE
  {
    match ParseItem(item)
    case None => None
    case Some((kid, encoded)) =>
      match DecodeKey32(ds, encoded)
      case None => None
      case Some(key) => Some(Entry(kid, key))
  }

  datatype Settings = Settings(single: string, list: string, active: string)

  ghost predicate WellFormed(ds: Decoders, items: seq<string>) {
    forall i | 0 <= i < |items| :: ParseEntry(ds, items[i]).Some?
  }

  function KidOf(ds: Decoders, item: string): string
    requires ParseEntry(ds, item).Some?
  {
    ParseEntry(ds, item).value.kid
  }

  ghost predicate DistinctIds(ds: Decoders, items: seq<string>)
    requires WellFormed(ds, items)
  {
    forall i, j | 0 <= i < j < |items| :: KidOf(ds, items[i]) != KidOf(ds, items[j])
  }

  ghost predicate Listed(ds: Decoders, items: seq<string>, kid: string)
    requires WellFormed(ds, items)
  {
    exists i | 0 <= i < |items| :: KidOf(ds, items[i]) == kid
  }

  /** The id the single key occupies next to a list. */
  predicate Taken(single: string, kid: string) {
    single != "" && kid == DEFAULT_KEY_ID
  }

  /** The settings the server accepts. */
  ghost predicate Acceptable(ds: Decoders, s: Settings) {
    var single, list, active := Trim(s.single), Trim(s.list), Trim(s.active);
    var items := Split(list, ',');
    && (single == "" ==> list != "")
    && (single != "" ==> DecodeKey32(ds, single).Some?)
    && (list == "" ==> active == "" || active == DEFAULT_KEY_ID)
    && (list != "" ==>
          && ListOk(ds, single, items)
          && (Taken(single, active) || Listed(ds, items, active)))
  }

  /** The ring holds the listed keys under their ids, and nothing else but the single key. */
  ghost predicate Lists(ds: Decoders, single: string, items: seq<string>, keys: map<string, Bytes>)
    requires WellFormed(ds, items)
  {
    && (forall kid :: kid in keys <==> Taken(single, kid) || Listed(ds, items, kid))
    && (forall i | 0 <= i < |items| :: KidOf(ds, items[i]) in keys && keys[KidOf(ds, items[i])] == ParseEntry(ds, items[i]).value.key)
    && (single != "" ==> DecodeKey32(ds, single).Some? && DEFAULT_KEY_ID in keys && keys[DEFAULT_KEY_ID] == DecodeKey32(ds, single).value)
  }

  datatype KeyringError = NothingConfigured | BadSingleKey | ActiveWithoutList | BadEntry | BadListedKey | DuplicateId | NoActive | UnknownActive

  lemma DefaultIdValid()
    ensures ValidKeyId(DEFAULT_KEY_ID)
  {
  }

  lemma ListedSnoc(ds: Decoders, items: seq<string>, item: string)
    requires WellFormed(ds, items) && ParseEntry(ds, item).Some?
    ensures WellFormed(ds, items + [item])
    ensures forall kid :: Listed(ds, items + [item], kid) <==> Listed(ds, items, kid) || kid == KidOf(ds, item)
  {
    var more := items + [item];
    assert more[|items|] == item;
    forall kid ensures Listed(ds, more, kid) <==> Listed(ds, items, kid) || kid == KidOf(ds, item) {
      if Listed(ds, items, kid) {
        var i :| 0 <= i < |items| && KidOf(ds, items[i]) == kid;
        assert KidOf(ds, more[i]) == kid;
      }
    }
  }

  lemma ListsSnoc(ds: Decoders, single: string, items: seq<string>, item: string, keys: map<string, Bytes>)
    requires WellFormed(ds, items) && Lists(ds, single, items, keys)
    requires ParseEntry(ds, item).Some? && KidOf(ds, item) !in keys
    ensures WellFormed(ds, items + [item])
    ensures Lists(ds, single, items + [item], keys[KidOf(ds, item) := ParseEntry(ds, item).value.key])
  {
    ListedSnoc(ds, items, item);
    var more := items + [item];
    var keys' := keys[KidOf(ds, item) := ParseEntry(ds, item).value.key];
    forall i | 0 <= i < |more|
      ensures KidOf(ds, more[i]) in keys' && keys'[KidOf(ds, more[i])] == ParseEntry(ds, more[i]).value.key
    {
      if i < |items| {
        assert more[i] == items[i] && KidOf(ds, items[i]) in keys;
      }
    }
  }

  ghost predicate ListOk(ds: Decoders, single: string, items: seq<string>) {
    && WellFormed(ds, items)
    && DistinctIds(ds, items)
    && (forall i | 0 <= i < |items| :: !Taken(single, KidOf(ds, items[i])))
  }

  ghost predicate KeysOk(keys: map<string, Bytes>) {
    forall kid | kid in keys :: ValidKeyId(kid) && |keys[kid]| == KEY_SIZE
  }

  /** The loop over the comma-separated items, starting from the single key if there is one. */
  method ReadList(ds: Decoders, single: string, items: seq<string>, start: map<string, Bytes>) returns (r: Result<map<string, Bytes>, KeyringError>)
    requires Lists(ds, single, [], start) && KeysOk(start)
    ensures r.Ok? <==> ListOk(ds, single, items)
    ensures r.Ok? ==> Lists(ds, single, items, r.value) && KeysOk(r.value)
  {
    var keys := start;
    for n := 0 to |items|
      invariant ListOk(ds, single, items[..n])
      invariant Lists(ds, single, items[..n], keys) && KeysOk(keys)
    {
      var item := ParseItem(items[n]);
      BadItem(ds, single, items, n);
      if item.None? {
        return Err(BadEntry);
      }
      var (kid, encoded) := item.value;
      if kid in keys {
        if ParseEntry(ds, items[n]).Some? {
          RepeatedId(ds, single, items, n, keys);
        }
        return Err(DuplicateId);
      }
      var key := DecodeKey32(ds, encoded);
      if key.None? {
        return Err(BadListedKey);
      }
      ListsSnoc(ds, single, items[..n], items[n], keys);
      ListOkSnoc(ds, single, items[..n], items[n], keys);
      assert items[..n + 1] == items[..n] + [items[n]];
      keys := keys[kid := key.value];
    }
    assert items[..|items|] == items;
    return Ok(keys);
  }

  lemma BadItem(ds: Decoders, single: string, items: seq<string>, n: nat)
    requires n < |items|
    ensures ParseEntry(ds, items[n]).None? ==> !ListOk(ds, single, items)
  {
  }

  lemma ListOkSnoc(ds: Decoders, single: string, items: seq<string>, item: string, keys: map<string, Bytes>)
    requires ListOk(ds, single, items) && Lists(ds, single, items, keys)
    requires ParseEntry(ds, item).Some? && KidOf(ds, item) !in keys
    ensures ListOk(ds, single, items + [item])
  {
    var more := items + [item];
    forall i | 0 <= i < |items| ensures KidOf(ds, more[i]) != KidOf(ds, item) {
      assert more[i] == items[i] && KidOf(ds, items[i]) in keys;
    }
  }

  /** Accepts exactly the acceptable settings, and every ring it returns builds a cipher. */
  method Keyring(ds: Decoders, s: Settings) returns (r: Result<KeyRing, KeyringError>)
    ensures r.Ok? <==> Acceptable(ds, s)
    ensures r.Ok? ==> ValidRing(r.value)
    ensures r.Ok? ==> r.value.legacyKey == (if Trim(s.single) == "" then None else DecodeKey32(ds, Trim(s.single)))
    ensures r.Ok? && Trim(s.list) == "" ==>
              r.value.activeKid == DEFAULT_KEY_ID && r.value.keys == map[DEFAULT_KEY_ID := DecodeKey32(ds, Trim(s.single)).value]
    ensures r.Ok? && Trim(s.list) != "" ==>
              r.value.activeKid == Trim(s.active) && Lists(ds, Trim(s.single), Split(Trim(s.list), ','), r.value.keys)
  {
    var single, list, active := Trim(s.single), Trim(s.list), Trim(s.active);
    if single == "" && list == "" {
      return Err(NothingConfigured);
    }
    var keys: map<string, Bytes>, legacy := map[], None;
    if single != "" {
      var key := DecodeKey32(ds, single);
      if key.None? {
        return Err(BadSingleKey);
      }
      keys, legacy := map[DEFAULT_KEY_ID := key.value], key;
    }
    DefaultIdValid();
    if list == "" {
      if active != "" && active != DEFAULT_KEY_ID {
        return Err(ActiveWithoutList);
      }
      return Ok(KeyRing(keys, DEFAULT_KEY_ID, legacy));
    }
    var listed := ReadList(ds, single, Split(list, ','), keys);
    if listed.Err? {
      return Err(listed.error);
    }
    if active == "" {
      assert "" !in listed.value;
      return Err(NoActive);
    }
    if active !in listed.value {
      return Err(UnknownActive);
    }
    return Ok(KeyRing(listed.value, active, legacy));
  }

  /** An id already present is a repetition or the single key's. */
  lemma RepeatedId(ds: Decoders, single: string, items: seq<string>, n: nat, keys: map<string, Bytes>)
    requires n < |items| && WellFormed(ds, items[..n]) && Lists(ds, single, items[..n], keys)
    requires ParseEntry(ds, items[n]).Some? && KidOf(ds, items[n]) in keys
    ensures WellFormed(ds, items) && DistinctIds(ds, items) ==> exists i | 0 <= i < |items| :: Taken(single, KidOf(ds, items[i]))
  {
    var kid := KidOf(ds, items[n]);
    if !Taken(single, kid) {
      var i :| 0 <= i < n && KidOf(ds, items[..n][i]) == kid;
      assert items[i] == items[..n][i];
    }
  }

  /** Every accepted setting yields a working cipher: sealing under it and opening again returns the
      plaintext, and the sealed text needs no rotation. */
  method KeyringBuildsCipher(ds: Decoders, s: Settings, a: Aead, user: UserId, plain: Bytes, nonce: Bytes) returns (c: Cipher)
    requires Lawful(a) && |nonce| == NONCE_SIZE && Acceptable(ds, s)
    ensures ValidCipher(c)
    ensures var ct := Seal(a, c, user, plain, Some(nonce)).value; Open(a, c, user, ct) == Ok(plain) && !NeedsRotation(c, ct)
  {
    var ring := Keyring(ds, s);
    var r := NewKeyRingCipher(ring.value);
    c := r.value;
    OpenUndoesSeal(a, c, c, user, plain, nonce);
  }
}
