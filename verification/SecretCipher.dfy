/** Encryption of TOTP seeds at rest (auth/secret_cipher.go).

    The block cipher itself is a parameter: an `Aead` is any pair of functions that satisfies `Lawful`,
    that is, opening undoes sealing under the same key, nonce and additional data.  A Go string that
    holds arbitrary bytes is a `string` of characters below 256. */
module SecretCipher {
  import opened Wrappers

  type Byte = x: int | 0 <= x < 256
  type Bytes = seq<Byte>

  /** A user id: the 128-bit value of its UUID, ordered as the database orders it. */
  type UserId = x: nat | x < 0x1_0000_0000_0000_0000_0000_0000_0000_0000

  /** The additional data: a format-specific prefix followed by the user id. */
  datatype Aad = AadV1(user: UserId) | AadV2(user: UserId)

  const NONCE_SIZE: nat := 12
  const OVERHEAD: nat := 16
  const KEY_SIZE: nat := 32
  const FORMAT_V1: Byte := 1
  const FORMAT_V2: Byte := 2
  const MAX_KEY_ID_LENGTH: nat := 32

  datatype Aead = Aead(
    seal: (Bytes, Bytes, Bytes, Aad) -> Bytes,
    open: (Bytes, Bytes, Bytes, Aad) -> Option<Bytes>)

  /** Sealing adds the tag, and opening undoes sealing. */
  ghost predicate Lawful(a: Aead) {
    forall key, nonce, plain, aad ::
      && |a.seal(key, nonce, plain, aad)| == |plain| + OVERHEAD
      && a.open(key, nonce, a.seal(key, nonce, plain, aad), aad) == Some(plain)
  }

  /** There are lawful pairs, so nothing below holds vacuously. */
  lemma LawfulExists() returns (a: Aead)
    ensures Lawful(a)
  {
    var tag: Bytes := seq(OVERHEAD, i => 0);
    a := Aead((k, n, p, d) => p + tag, (k, n, c: Bytes, d) => if |c| < OVERHEAD then None else Some(c[..|c| - OVERHEAD]));
    forall key: Bytes, nonce: Bytes, plain: Bytes, aad: Aad
      ensures |a.seal(key, nonce, plain, aad)| == |plain| + OVERHEAD
      ensures a.open(key, nonce, a.seal(key, nonce, plain, aad), aad) == Some(plain)
    {
      assert (plain + tag)[..|plain|] == plain;
    }
  }

  predicate KeyIdChar(ch: char) {
    'A' <= ch <= 'Z' || 'a' <= ch <= 'z' || '0' <= ch <= '9' || ch == '.' || ch == '_' || ch == '-'
  }

  /** 1-32 characters from [A-Za-z0-9._-]. */
  predicate ValidKeyId(kid: string) {
    1 <= |kid| <= MAX_KEY_ID_LENGTH && forall i | 0 <= i < |kid| :: KeyIdChar(kid[i])
  }

  datatype KeyRing = KeyRing(keys: map<string, Bytes>, activeKid: string, legacyKey: Option<Bytes>)

  datatype Cipher = Cipher(active: string, keys: map<string, Bytes>, legacy: Option<Bytes>)

  ghost predicate ValidRing(ring: KeyRing) {
    && (forall kid | kid in ring.keys :: ValidKeyId(kid) && |ring.keys[kid]| == KEY_SIZE)
    && ring.activeKid in ring.keys
    && (ring.legacyKey.Some? ==> |ring.legacyKey.value| == KEY_SIZE)
  }

  /** What NewKeyRingCipher returns: the active id is configured and every id fits the v2 header. */
  predicate ValidCipher(c: Cipher) {
    c.active in c.keys && forall kid | kid in c.keys :: ValidKeyId(kid)
  }

  datatype CipherError = NoKeys | InvalidKeyId | BadKey | ActiveMissing | BadLegacyKey

  /** Builds a cipher from exactly the valid rings, with the ring's keys. */
  method NewKeyRingCipher(ring: KeyRing) returns (r: Result<Cipher, CipherError>)
    ensures r.Ok? <==> ValidRing(ring)
    ensures r.Ok? ==> r.value == Cipher(ring.activeKid, ring.keys, ring.legacyKey) && ValidCipher(r.value)
  {
    if |ring.keys| == 0 {
      assert ring.keys == map[];
      return Err(NoKeys);
    }
    var aeads: map<string, Bytes> := map[];
    var todo := ring.keys.Keys;
    while todo != {}
      invariant todo <= ring.keys.Keys
      invariant aeads.Keys == ring.keys.Keys - todo
      invariant forall kid | kid in aeads :: aeads[kid] == ring.keys[kid] && ValidKeyId(kid) && |ring.keys[kid]| == KEY_SIZE
      decreases |todo|
    {
      var kid :| kid in todo;
      if !ValidKeyId(kid) {
        return Err(InvalidKeyId);
      }
      if |ring.keys[kid]| != KEY_SIZE {
        return Err(BadKey);
      }
      aeads := aeads[kid := ring.keys[kid]];
      todo := todo - {kid};
    }
    assert aeads == ring.keys;
    if ring.activeKid !in aeads {
      return Err(ActiveMissing);
    }
    if ring.legacyKey.Some? && |ring.legacyKey.value| != KEY_SIZE {
      return Err(BadLegacyKey);
    }
    return Ok(Cipher(ring.activeKid, aeads, ring.legacyKey));
  }

  function ToBytes(s: string): Bytes {
    seq(|s|, i requires 0 <= i < |s| => s[i] as int % 256)
  }

  function ToText(b: Bytes): string {
    seq(|b|, i requires 0 <= i < |b| => b[i] as char)
  }

  lemma KeyIdRoundTrip(kid: string)
    requires ValidKeyId(kid)
    ensures ToText(ToBytes(kid)) == kid
  {
    assert forall i | 0 <= i < |kid| :: KeyIdChar(kid[i]);
  }

  /** The v2 header in front of a nonce and sealed payload. */
  function FrameV2(kid: string, rest: Bytes): Bytes {
    [FORMAT_V2, |kid| % 256] + ToBytes(kid) + rest
  }

  datatype SplitV2Result = SplitV2Result(kid: string, rest: Bytes)

  function SplitV2(ct: Bytes): Option<SplitV2Result> {
    if |ct| < 2 then None
    else
      var n := ct[1];
      if n == 0 || n > MAX_KEY_ID_LENGTH || |ct| < 2 + n then None
      else Some(SplitV2Result(ToText(ct[2..2 + n]), ct[2 + n..]))
  }

  /** Seals under the active key; `nonce` is what the random source delivered, if it did. */
  function Seal(a: Aead, c: Cipher, user: UserId, plain: Bytes, nonce: Option<Bytes>): Option<Bytes>
    requires ValidCipher(c)
  {
    if nonce.None? then None
    else Some(FrameV2(c.active, nonce.value + a.seal(c.keys[c.active], nonce.value, plain, AadV2(user))))
  }

  datatype OpenError = Undecryptable | KeyNotConfigured(kid: string)

  function OpenWith(a: Aead, key: Bytes, rest: Bytes, aad: Aad): Result<Bytes, OpenError> {
    if |rest| < NONCE_SIZE + OVERHEAD then Err(Undecryptable)
    else
      match a.open(key, rest[..NONCE_SIZE], rest[NONCE_SIZE..], aad)
      case Some(plain) => Ok(plain)
      case None => Err(Undecryptable)
  }

  function Open(a: Aead, c: Cipher, user: UserId, ct: Bytes): Result<Bytes, OpenError> {
    if |ct| == 0 then Err(Undecryptable)
    else if ct[0] == FORMAT_V1 then
      if c.legacy.None? then Err(KeyNotConfigured(""))
      else OpenWith(a, c.legacy.value, ct[1..], AadV1(user))
    else if ct[0] == FORMAT_V2 then
      match SplitV2(ct)
      case None => Err(Undecryptable)
      case Some(parts) =>
        if parts.kid in c.keys then OpenWith(a, c.keys[parts.kid], parts.rest, AadV2(user))
        else Err(KeyNotConfigured(parts.kid))
    else Err(Undecryptable)
  }

  predicate NeedsRotation(c: Cipher, ct: Bytes) {
    |ct| != 0 && (ct[0] == FORMAT_V1 || (ct[0] == FORMAT_V2 && SplitV2(ct).Some? && SplitV2(ct).value.kid != c.active))
  }

  // ----- The format -----

  /** Splitting recovers the key id and the payload that were framed, and only framed text splits. */
  lemma SplitUndoesFrame(kid: string, rest: Bytes)
    requires ValidKeyId(kid)
    ensures SplitV2(FrameV2(kid, rest)) == Some(SplitV2Result(kid, rest))
  {
    var ct := FrameV2(kid, rest);
    assert ct[1] == |kid|;
    assert ct[2..2 + |kid|] == ToBytes(kid);
    assert ct[2 + |kid|..] == rest;
    KeyIdRoundTrip(kid);
  }

  lemma FrameUndoesSplit(ct: Bytes)
    requires |ct| > 0 && ct[0] == FORMAT_V2 && SplitV2(ct).Some?
    ensures FrameV2(SplitV2(ct).value.kid, SplitV2(ct).value.rest) == ct
  {
    var n := ct[1];
    assert ToBytes(ToText(ct[2..2 + n])) == ct[2..2 + n];
    assert ct == [ct[0], ct[1]] + ct[2..2 + n] + ct[2 + n..];
  }

  /** A ring in which `kid` still names `key`. */
  predicate Holds(c: Cipher, kid: string, key: Bytes) {
    kid in c.keys && c.keys[kid] == key
  }

  /** A sealed secret opens to the same plaintext, for the same user, under every cipher that still maps
      the sealing key id to the sealing key, whatever its active key; and it needs no rotation. */
  lemma OpenUndoesSeal(a: Aead, c: Cipher, c': Cipher, user: UserId, plain: Bytes, nonce: Bytes)
    requires Lawful(a) && ValidCipher(c) && |nonce| == NONCE_SIZE
    requires Holds(c', c.active, c.keys[c.active])
    ensures var ct := Seal(a, c, user, plain, Some(nonce)).value;
            && Open(a, c', user, ct) == Ok(plain)
            && !NeedsRotation(c, ct)
            && (NeedsRotation(c', ct) <==> c'.active != c.active)
  {
    var sealed := a.seal(c.keys[c.active], nonce, plain, AadV2(user));
    var rest := nonce + sealed;
    SplitUndoesFrame(c.active, rest);
    assert rest[..NONCE_SIZE] == nonce && rest[NONCE_SIZE..] == sealed;
  }

  /** Only the active key of c: what remains once every older key is retired. */
  function ActiveOnly(c: Cipher): Cipher
    requires c.active in c.keys
  {
    Cipher(c.active, map[c.active := c.keys[c.active]], None)
  }

  /** A ciphertext that opens needs no rotation exactly when the active key alone opens it, and then
      to the same plaintext. */
  lemma OpensUnrotatedIffActiveAlone(a: Aead, c: Cipher, user: UserId, ct: Bytes)
    requires ValidCipher(c) && Open(a, c, user, ct).Ok?
    ensures !NeedsRotation(c, ct) <==> Open(a, ActiveOnly(c), user, ct).Ok?
    ensures !NeedsRotation(c, ct) ==> Open(a, ActiveOnly(c), user, ct) == Open(a, c, user, ct)
    ensures !NeedsRotation(c, ct) ==> ct[0] == FORMAT_V2 && SplitV2(ct).Some? && SplitV2(ct).value.kid == c.active
  {
  }

  /** A ring whose keys c' all has: whatever c opens, c' opens to the same plaintext. */
  predicate SubRing(c: Cipher, c': Cipher) {
    && (forall kid | kid in c.keys :: Holds(c', kid, c.keys[kid]))
    && (c.legacy.Some? ==> c'.legacy == c.legacy)
  }

  lemma SubRingOpensAlike(a: Aead, c: Cipher, c': Cipher, user: UserId, ct: Bytes)
    requires SubRing(c, c') && Open(a, c, user, ct).Ok?
    ensures Open(a, c', user, ct) == Open(a, c, user, ct)
  {
  }
}
