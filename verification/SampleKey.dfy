/** The sampling key of a request id (internal/core/httpx/accesslog.go): its leading hexadecimal digits, or a
    mix of its first bytes and its length. Go strings are bytes; uint64 arithmetic wraps at 2^64. */
module SampleKey {
  import opened Wrappers

  // ----- 64-bit words -----

  const WORD := 0x1_0000_0000_0000_0000

  type Word = x: int | 0 <= x < 0x1_0000_0000_0000_0000

  type Byte = x: int | 0 <= x < 256

  /** Exclusive or, bit by bit. */
  function Xor(a: nat, b: nat): nat
    decreases a + b
  {
    if a == 0 && b == 0 then 0 else 2 * Xor(a / 2, b / 2) + (a + b) % 2
  }

  /** Inclusive or, bit by bit. */
  function Or(a: nat, b: nat): nat
    decreases a + b
  {
    if a == 0 && b == 0 then 0 else 2 * Or(a / 2, b / 2) + (if a % 2 == 1 || b % 2 == 1 then 1 else 0)
  }

  function ShiftRight(a: nat, k: nat): nat {
    if k == 0 then a else ShiftRight(a / 2, k - 1)
  }

  function Pow2(k: nat): nat {
    if k == 0 then 1 else 2 * Pow2(k - 1)
  }

  function ShiftLeft(a: Word, k: nat): Word {
    (a * Pow2(k)) % WORD
  }

  function Times(a: Word, c: Word): Word {
    (a * c) % WORD
  }

  lemma XorHalves(a: nat, b: nat)
    ensures Xor(a, b) / 2 == Xor(a / 2, b / 2) && Xor(a, b) % 2 == (a + b) % 2
  {
  }

  lemma ParityTwice(a: nat, b: nat, x: nat)
    requires x % 2 == (a + b) % 2
    ensures (x + b) % 2 == a % 2
  {
  }

  lemma SameHalves(x: nat, y: nat)
    requires x / 2 == y / 2 && x % 2 == y % 2
    ensures x == y
  {
  }

  lemma {:induction false} XorTwice(a: nat, b: nat)
    ensures Xor(Xor(a, b), b) == a
    decreases a + b
  {
    if a + b > 0 {
      var x := Xor(a, b);
      XorHalves(a, b);
      XorHalves(x, b);
      XorTwice(a / 2, b / 2);
      ParityTwice(a, b, x);
      SameHalves(Xor(x, b), a);
    }
  }

  lemma {:induction false} XorZero(a: nat)
    ensures Xor(a, 0) == a
  {
    if a > 0 {
      XorZero(a / 2);
    }
  }

  lemma {:induction false} XorBelow(a: nat, b: nat, k: nat)
    requires a < Pow2(k) && b < Pow2(k)
    ensures Xor(a, b) < Pow2(k)
  {
    if k > 0 {
      XorBelow(a / 2, b / 2, k - 1);
    }
  }

  lemma {:induction false} ShiftedXor(a: nat, b: nat, k: nat)
    ensures ShiftRight(Xor(a, b), k) == Xor(ShiftRight(a, k), ShiftRight(b, k))
  {
    if k > 0 {
      assert Xor(a, b) / 2 == Xor(a / 2, b / 2);
      ShiftedXor(a / 2, b / 2, k - 1);
    }
  }

  lemma {:induction false} ShiftedOut(a: nat, k: nat)
    requires a < Pow2(k)
    ensures ShiftRight(a, k) == 0
  {
    if k > 0 {
      ShiftedOut(a / 2, k - 1);
    }
  }

  lemma {:induction false} ShiftRightBelow(a: nat, k: nat)
    ensures ShiftRight(a, k) <= a
  {
    if k > 0 {
      ShiftRightBelow(a / 2, k - 1);
    }
  }

  lemma {:induction false} ShiftRightAdds(a: nat, j: nat, k: nat)
    ensures ShiftRight(ShiftRight(a, j), k) == ShiftRight(a, j + k)
  {
    if j > 0 {
      ShiftRightAdds(a / 2, j - 1, k);
    }
  }

  lemma {:induction false} OrZero(a: nat)
    ensures Or(a, 0) == a
  {
    if a > 0 {
      OrZero(a / 2);
    }
  }

  /** Or with digits below the shifted part is addition. */
  lemma {:induction false} OrBelow(a: nat, b: nat, k: nat)
    requires b < Pow2(k)
    ensures Or(a * Pow2(k), b) == a * Pow2(k) + b
  {
    if k == 0 {
      OrZero(a);
    } else {
      var half := a * Pow2(k - 1);
      assert a * Pow2(k) == 2 * half;
      OrBelow(a, b / 2, k - 1);
    }
  }

  lemma WordIsPow2()
    ensures Pow2(64) == WORD
  {
    assert Pow2(8) == 256;
    Pow2Adds(8, 8);
    Pow2Adds(16, 16);
    Pow2Adds(32, 32);
  }

  lemma {:induction false} Pow2Adds(j: nat, k: nat)
    ensures Pow2(j + k) == Pow2(j) * Pow2(k)
  {
    if j > 0 {
      Pow2Adds(j - 1, k);
      Regroup(2, Pow2(j - 1), Pow2(k));
    }
  }

  lemma Regroup(a: nat, b: nat, c: nat)
    ensures a * (b * c) == (a * b) * c
  {
  }

  // ----- The mixer is one-to-one -----

  lemma XorOfWords(a: Word, b: Word)
    ensures Xor(a, b) < WORD
  {
    WordIsPow2();
    XorBelow(a, b, 64);
  }

  function XorWord(a: Word, b: Word): Word {
    XorOfWords(a, b);
    Xor(a, b)
  }

  function ShiftRightWord(a: Word, k: nat): Word {
    ShiftRightBelow(a, k);
    ShiftRight(a, k)
  }

  function FoldHigh(x: Word): Word {
    XorWord(x, ShiftRightWord(x, 33))
  }

  lemma FoldHighTwice(x: Word)
    ensures FoldHigh(FoldHigh(x)) == x
  {
    var s := ShiftRight(x, 33);
    ShiftedXor(x, s, 33);
    ShiftRightAdds(x, 33, 33);
    ShiftRightAdds(x, 64, 2);
    WordIsPow2();
    ShiftedOut(x, 64);
    assert ShiftRight(0, 2) == 0;
    XorZero(s);
    XorTwice(x, s);
  }

  const FIRST: Word := 0xff51afd7ed558ccd
  const SECOND: Word := 0xc4ceb9fe1a85ec53
  /** The inverses of the two odd factors modulo 2^64. */
  const FIRST_INVERSE: Word := 0x4f74430c22a54005
  const SECOND_INVERSE: Word := 0x9cb4b2f8129337db

  lemma SameWord(x: Word, y: Word, t: int)
    requires y == x + WORD * t
    ensures x == y
  {
  }

  lemma TimesUndone(x: Word, c: Word, inverse: Word)
    requires (c * inverse) % WORD == 1
    ensures Times(Times(x, c), inverse) == x
  {
    var q := (x * c) / WORD;
    var r := Times(x, c);
    var p := (r * inverse) / WORD;
    var k := (c * inverse) / WORD;
    assert x * c == WORD * q + r && r * inverse == WORD * p + Times(r, inverse) && c * inverse == WORD * k + 1;
    calc {
      Times(r, inverse);
      (x * c - WORD * q) * inverse - WORD * p;
      x * (c * inverse) - WORD * (q * inverse) - WORD * p;
      x * (WORD * k + 1) - WORD * (q * inverse) - WORD * p;
      x + WORD * (x * k - q * inverse - p);
    }
    SameWord(x, Times(r, inverse), x * k - q * inverse - p);
  }

  function Mix(x: Word): Word {
    FoldHigh(Times(FoldHigh(Times(FoldHigh(x), FIRST)), SECOND))
  }

  function Unmix(y: Word): Word {
    FoldHigh(Times(FoldHigh(Times(FoldHigh(y), SECOND_INVERSE)), FIRST_INVERSE))
  }

  method MixUint64(value: Word) returns (r: Word)
    ensures r == Mix(value) && Unmix(r) == value
  {
    UnmixUndoesMix(value);
    r := value;
    r := XorWord(r, ShiftRightWord(r, 33));
    r := Times(r, 0xff51afd7ed558ccd);
    r := XorWord(r, ShiftRightWord(r, 33));
    r := Times(r, 0xc4ceb9fe1a85ec53);
    r := XorWord(r, ShiftRightWord(r, 33));
  }

  lemma FirstUndone(x: Word)
    ensures Times(Times(x, FIRST), FIRST_INVERSE) == x && Times(Times(x, FIRST_INVERSE), FIRST) == x
  {
    assert (0xff51afd7ed558ccd * 0x4f74430c22a54005) % WORD == 1;
    TimesUndone(x, FIRST, FIRST_INVERSE);
    TimesUndone(x, FIRST_INVERSE, FIRST);
  }

  lemma SecondUndone(x: Word)
    ensures Times(Times(x, SECOND), SECOND_INVERSE) == x && Times(Times(x, SECOND_INVERSE), SECOND) == x
  {
    assert (0xc4ceb9fe1a85ec53 * 0x9cb4b2f8129337db) % WORD == 1;
    TimesUndone(x, SECOND, SECOND_INVERSE);
    TimesUndone(x, SECOND_INVERSE, SECOND);
  }

  lemma UnmixUndoesMix(x: Word)
    ensures Unmix(Mix(x)) == x
  {
    var a := FoldHigh(x);
    var b := FoldHigh(Times(a, FIRST));
    FoldHighTwice(x);
    FoldHighTwice(Times(a, FIRST));
    FoldHighTwice(Times(b, SECOND));
    FirstUndone(a);
    SecondUndone(b);
  }

  lemma MixUndoesUnmix(y: Word)
    ensures Mix(Unmix(y)) == y
  {
    var b := FoldHigh(y);
    var a := FoldHigh(Times(b, SECOND_INVERSE));
    FoldHighTwice(y);
    FoldHighTwice(Times(b, SECOND_INVERSE));
    FoldHighTwice(Times(a, FIRST_INVERSE));
    FirstUndone(a);
    SecondUndone(b);
  }

  // ----- Numbers from digits -----

  predicate DigitsBelow(ds: seq<nat>, base: nat) {
    forall i | 0 <= i < |ds| :: ds[i] < base
  }

  /** The number the digits stand for, most significant first. */
  function Number(ds: seq<nat>, base: nat): nat {
    if ds == [] then 0 else Number(ds[..|ds| - 1], base) * base + ds[|ds| - 1]
  }

  function Power(base: nat, n: nat): nat {
    if n == 0 then 1 else base * Power(base, n - 1)
  }

  lemma NextBound(p: nat, d: nat, base: nat, bound: nat)
    requires p < bound && d < base
    ensures p * base + d < base * bound
  {
    var r := bound - 1 - p;
    assert base * (p + 1 + r) == base * p + base + base * r;
    assert base * r >= 0;
  }

  lemma {:induction false} NumberBound(ds: seq<nat>, base: nat)
    requires base > 0 && DigitsBelow(ds, base)
    ensures Number(ds, base) < Power(base, |ds|)
  {
    if ds != [] {
      var n := |ds| - 1;
      NumberBound(ds[..n], base);
      NextBound(Number(ds[..n], base), ds[n], base, Power(base, n));
    }
  }

  lemma {:induction false} PowerGrows(base: nat, m: nat, n: nat)
    requires base > 0 && m <= n
    ensures Power(base, m) <= Power(base, n)
  {
    if m < n {
      PowerGrows(base, m, n - 1);
      assert Power(base, n) >= Power(base, n - 1);
    }
  }

  lemma FirstDiffers(p: nat, d: nat, q: nat, e: nat, base: nat)
    requires d < base && p < q
    ensures p * base + d < q * base + e
  {
    NextBound(p, d, base, q);
  }

  lemma LastDigit(p: nat, d: nat, q: nat, e: nat, base: nat)
    requires d < base && e < base && p * base + d == q * base + e
    ensures p == q && d == e
  {
    if p < q {
      FirstDiffers(p, d, q, e, base);
    } else if q < p {
      FirstDiffers(q, e, p, d, base);
    }
  }

  /** Digit sequences of one length are told apart by their numbers. */
  lemma {:induction false} NumberInjective(a: seq<nat>, b: seq<nat>, base: nat)
    requires |a| == |b| && DigitsBelow(a, base) && DigitsBelow(b, base)
    ensures Number(a, base) == Number(b, base) <==> a == b
  {
    if |a| > 0 && Number(a, base) == Number(b, base) {
      var n := |a| - 1;
      LastDigit(Number(a[..n], base), a[n], Number(b[..n], base), b[n], base);
      NumberInjective(a[..n], b[..n], base);
      assert a == a[..n] + [a[n]] && b == b[..n] + [b[n]];
    }
  }

  lemma PushWord(a: Word, d: nat, k: nat)
    requires d < Pow2(k) && a * Pow2(k) + d < WORD
    ensures Or(ShiftLeft(a, k), d) == a * Pow2(k) + d
  {
    var shifted := a * Pow2(k);
    assert shifted >= 0;
    SmallMod(shifted);
    OrBelow(a, d, k);
  }

  lemma SmallMod(x: nat)
    requires x < WORD
    ensures x % WORD == x
  {
  }

  /** One turn of either loop, (key << k) | digit, extends the number while it still fits. */
  lemma PushDigit(ds: seq<nat>, i: nat, k: nat, limit: nat)
    requires i < |ds| && i < limit && k > 0 && DigitsBelow(ds, Pow2(k)) && Power(Pow2(k), limit) == WORD
    ensures Number(ds[..i], Pow2(k)) < WORD && Number(ds[..i + 1], Pow2(k)) < WORD
    ensures Or(ShiftLeft(Number(ds[..i], Pow2(k)), k), ds[i]) == Number(ds[..i + 1], Pow2(k))
  {
    var base := Pow2(k);
    NumberBound(ds[..i], base);
    NumberBound(ds[..i + 1], base);
    PowerGrows(base, i, limit);
    PowerGrows(base, i + 1, limit);
    assert ds[..i + 1][..i] == ds[..i];
    PushWord(Number(ds[..i], base), ds[i], k);
  }

  lemma EightBytes()
    ensures Pow2(8) == 256 && Power(256, 8) == WORD
  {
    assert Power(256, 4) == 0x1_0000_0000;
  }

  lemma SixteenNibbles()
    ensures Pow2(4) == 16 && Power(16, 16) == WORD
  {
    assert Power(16, 8) == 0x1_0000_0000;
  }

  // ----- Hexadecimal prefixes -----

  function HexNibble(ch: Byte): (d: Option<nat>)
    ensures d.Some? ==> d.value < 16
  {
    if 48 <= ch <= 57 then Some(ch - 48)
    else if 97 <= ch <= 102 then Some(ch - 97 + 10)
    else if 65 <= ch <= 70 then Some(ch - 65 + 10)
    else None
  }

  predicate HexPrefixed(s: seq<Byte>) {
    |s| >= 16 && forall i | 0 <= i < 16 :: HexNibble(s[i]).Some?
  }

  /** The values of the first sixteen characters. */
  function Nibbles(s: seq<Byte>): (ds: seq<nat>)
    requires HexPrefixed(s)
    ensures |ds| == 16 && DigitsBelow(ds, 16)
  {
    seq(16, i requires 0 <= i < 16 => HexNibble(s[i]).value)
  }

  /** Succeeds exactly on sixteen leading hexadecimal digits, with the number they spell. */
  method ParseHexPrefix64(value: seq<Byte>) returns (r: Option<Word>)
    ensures r.Some? <==> HexPrefixed(value)
    ensures r.Some? ==> r.value == Number(Nibbles(value), 16)
  {
    if |value| < 16 { return None; }
    var out: Word := 0;
    ghost var ds: seq<nat> := [];
    for i := 0 to 16
      invariant forall j | 0 <= j < i :: HexNibble(value[j]).Some?
      invariant |ds| == i && DigitsBelow(ds, 16) && forall j | 0 <= j < i :: ds[j] == HexNibble(value[j]).value
      invariant out == Number(ds, 16)
    {
      var nibble := HexNibble(value[i]);
      if nibble == None { return None; }
      ghost var longer := ds + [nibble.value];
      assert longer[..i] == ds && longer[..i + 1] == longer;
      SixteenNibbles();
      PushDigit(longer, i, 4, 16);
      out := Or(ShiftLeft(out, 4), nibble.value);
      ds := longer;
    }
    assert ds == Nibbles(value);
    return Some(out);
  }

  // ----- The key -----

  function Leading(s: seq<Byte>): seq<Byte> {
    s[..if |s| > 8 then 8 else |s|]
  }

  function Digits(s: seq<Byte>): (ds: seq<nat>)
    ensures |ds| == |s| && DigitsBelow(ds, 256) && forall i | 0 <= i < |s| :: ds[i] == s[i]
  {
    seq(|s|, i requires 0 <= i < |s| => s[i])
  }

  /** The first bytes read as a big-endian number. */
  function Packed(s: seq<Byte>): Word {
    PackedFits(s);
    Number(Digits(Leading(s)), 256)
  }

  lemma PackedFits(s: seq<Byte>)
    ensures Number(Digits(Leading(s)), 256) < WORD
  {
    var ds := Digits(Leading(s));
    NumberBound(ds, 256);
    PowerGrows(256, |ds|, 8);
    EightBytes();
  }

  /** The length times a constant, in 64 bits. */
  function LengthWord(n: nat): Word {
    Times(n % WORD, 0x9e3779b97f4a7c15)
  }

  function Mixed(id: seq<Byte>): Word {
    Mix(XorWord(Packed(id), LengthWord(|id|)))
  }

  /** A hexadecimal prefix is the key itself; any other id is packed, salted with its length and mixed. */
  method SampleKeyFromRequestID(id: seq<Byte>) returns (key: Word)
    ensures key == Key(id)
  {
    var parsed := ParseHexPrefix64(id);
    if parsed.Some? { return parsed.value; }
    var limit := |id|;
    if limit > 8 {
      limit := 8;
    }
    key := 0;
    ghost var ds := Digits(Leading(id));
    for i := 0 to limit
      invariant key == Number(ds[..i], 256)
    {
      EightBytes();
      PushDigit(ds, i, 8, 8);
      key := Or(ShiftLeft(key, 8), id[i]);
    }
    assert ds[..limit] == ds;
    key := XorWord(key, LengthWord(|id|));
    key := MixUint64(key);
  }

  function Key(id: seq<Byte>): Word {
    if HexPrefixed(id) then HexFits(id); Number(Nibbles(id), 16) else Mixed(id)
  }

  lemma HexFits(id: seq<Byte>)
    requires HexPrefixed(id)
    ensures Number(Nibbles(id), 16) < WORD
  {
    NumberBound(Nibbles(id), 16);
    SixteenNibbles();
  }

  /** Mixed keys of ids of one length agree exactly when their leading eight bytes do. */
  lemma SameLengthKeys(a: seq<Byte>, b: seq<Byte>)
    requires |a| == |b| && !HexPrefixed(a) && !HexPrefixed(b)
    ensures Key(a) == Key(b) <==> Leading(a) == Leading(b)
  {
    var w := LengthWord(|a|);
    UnmixUndoesMix(XorWord(Packed(a), w));
    UnmixUndoesMix(XorWord(Packed(b), w));
    XorTwice(Packed(a), w);
    XorTwice(Packed(b), w);
    NumberInjective(Digits(Leading(a)), Digits(Leading(b)), 256);
    SameDigits(Leading(a), Leading(b));
  }

  lemma SameDigits(a: seq<Byte>, b: seq<Byte>)
    ensures Digits(a) == Digits(b) <==> a == b
  {
    if Digits(a) == Digits(b) {
      assert forall i | 0 <= i < |a| :: a[i] == Digits(a)[i] && b[i] == Digits(b)[i];
    }
  }

  /** Different ids of one length up to eight bytes never share a key. */
  lemma ShortIdsNeverCollide(a: seq<Byte>, b: seq<Byte>)
    requires |a| == |b| <= 8 && a != b
    ensures Key(a) != Key(b)
  {
    assert Leading(a) == a && Leading(b) == b;
    SameLengthKeys(a, b);
  }

  /** Ids that start with sixteen hexadecimal digits share a key exactly when those digits agree in value. */
  lemma HexKeys(a: seq<Byte>, b: seq<Byte>)
    requires HexPrefixed(a) && HexPrefixed(b)
    ensures Key(a) == Key(b) <==> forall i | 0 <= i < 16 :: HexNibble(a[i]) == HexNibble(b[i])
  {
    NumberInjective(Nibbles(a), Nibbles(b), 16);
    assert forall i | 0 <= i < 16 :: Some(Nibbles(a)[i]) == HexNibble(a[i]) && Some(Nibbles(b)[i]) == HexNibble(b[i]);
    if forall i | 0 <= i < 16 :: HexNibble(a[i]) == HexNibble(b[i]) {
      assert Nibbles(a) == Nibbles(b);
    }
  }
}
