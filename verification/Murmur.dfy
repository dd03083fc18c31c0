// MurmurHash3 for 32-bit results, on 32-bit registers. Words are read in
// little-endian order.
module Murmur {
  function TimesKey1(x: bv32): bv32 {
    x * 0xcc9e2d51
  }

  function TimesKey2(x: bv32): bv32 {
    x * 0x1b873593
  }

  function TimesFinal1(x: bv32): bv32 {
    x * 0x85ebca6b
  }

  function TimesFinal2(x: bv32): bv32 {
    x * 0xc2b2ae35
  }

  function Rotl13(x: bv32): bv32 {
    (x << 13) | (x >> 19)
  }

  function Rotr13(x: bv32): bv32 {
    (x >> 13) | (x << 19)
  }

  function Rotl15(x: bv32): bv32 {
    (x << 15) | (x >> 17)
  }

  function Rotr15(x: bv32): bv32 {
    (x >> 15) | (x << 17)
  }

  function Xor(x: bv32, y: bv32): bv32 {
    x ^ y
  }

  function XorShift16(x: bv32): bv32 {
    x ^ (x >> 16)
  }

  function XorShift13(x: bv32): bv32 {
    x ^ (x >> 13)
  }

  function Word(data: seq<bv8>): bv32
    requires |data| >= 4
  {
    (data[0] as bv32) | ((data[1] as bv32) << 8) | ((data[2] as bv32) << 16) | ((data[3] as bv32) << 24)
  }

  function MixKey(k: bv32): bv32 {
    TimesKey2(Rotl15(TimesKey1(k)))
  }

  function Scale(x: bv32): bv32 {
    x * 5 + 0xe6546b64
  }

  function Round(h: bv32, k: bv32): bv32 {
    Scale(Rotl13(Xor(h, MixKey(k))))
  }

  function Tail1(x: bv8): bv32 {
    Xor(0, x as bv32)
  }

  function Tail2(x: bv8, y: bv8): bv32 {
    Xor(Xor(0, (y as bv32) << 8), x as bv32)
  }

  function Tail3(x: bv8, y: bv8, z: bv8): bv32 {
    Xor(Xor(Xor(0, (z as bv32) << 16), (y as bv32) << 8), x as bv32)
  }

  /** The one to three bytes after the last word, as the switch gathers them. */
  function TailWord(data: seq<bv8>): bv32
    requires |data| < 4
  {
    if |data| == 3 then Tail3(data[0], data[1], data[2])
    else if |data| == 2 then Tail2(data[0], data[1])
    else if |data| == 1 then Tail1(data[0])
    else 0
  }

  /** The hash state after all the bytes, before the final mix. */
  function Absorb(data: seq<bv8>, h: bv32): bv32 {
    if |data| >= 4 then Absorb(data[4..], Round(h, Word(data)))
    else if |data| == 0 then h
    else Xor(h, MixKey(TailWord(data)))
  }

  function Finish(h: bv32, len: bv32): bv32 {
    XorShift16(TimesFinal2(XorShift13(TimesFinal1(XorShift16(Xor(h, len))))))
  }

  function Append(x: bv32, bit: bool): bv32 {
    if bit then (x << 1) | 1 else x << 1
  }

  /** The low 32 bits of a length: its binary digits shifted into a register. */
  function Length32(n: nat): bv32 {
    if n == 0 then 0 else Append(Length32(n / 2), n % 2 == 1)
  }

  function Hash(data: seq<bv8>, seed: bv32): bv32 {
    Finish(Absorb(data, seed), Length32(|data|))
  }

  method Murmurhash3(key: seq<bv8>, seed: bv32) returns (h: bv32)
    ensures h == Hash(key, seed)
  {
    var data, len := key, |key|;
    h := seed;
    while len >= 4
      invariant len == |data|
      invariant Absorb(data, h) == Absorb(key, seed)
    {
      var k := Word(data);
      k := TimesKey1(k);
      k := Rotl15(k);
      k := TimesKey2(k);
      h := Xor(h, k);
      h := Rotl13(h);
      h := Scale(h);
      data := data[4..];
      len := len - 4;
    }
    var k: bv32 := 0;
    if len == 3 {
      k := Xor(k, (data[2] as bv32) << 16);
    }
    if len >= 2 {
      k := Xor(k, (data[1] as bv32) << 8);
    }
    if len >= 1 {
      k := Xor(k, data[0] as bv32);
      k := TimesKey1(k);
      k := Rotl15(k);
      k := TimesKey2(k);
      h := Xor(h, k);
    }
    h := Xor(h, Length32(|key|));
    h := XorShift16(h);
    h := TimesFinal1(h);
    h := XorShift13(h);
    h := TimesFinal2(h);
    h := XorShift16(h);
  }

  // ---- Running it backwards; the multipliers are inverses modulo 2^32 ----

  function UndoKey1(x: bv32): bv32 {
    x * 0xdee13bb1
  }

  function UndoKey2(x: bv32): bv32 {
    x * 0x56ed309b
  }

  function UndoFinal1(x: bv32): bv32 {
    x * 0xa5cb9243
  }

  function UndoFinal2(x: bv32): bv32 {
    x * 0x7ed1b41d
  }

  function UnmixKey(x: bv32): bv32 {
    UndoKey1(Rotr15(UndoKey2(x)))
  }

  function Unscale(x: bv32): bv32 {
    (x - 0xe6546b64) * 0xcccccccd
  }

  /** The word that takes state h to state h'. */
  function Unround(h: bv32, h': bv32): bv32 {
    UnmixKey(Xor(h, Rotr13(Unscale(h'))))
  }

  function UnxorShift13(x: bv32): bv32 {
    x ^ (x >> 13) ^ (x >> 26)
  }

  function Unfinish(x: bv32, len: bv32): bv32 {
    Xor(XorShift16(UndoFinal1(UnxorShift13(UndoFinal2(XorShift16(x))))), len)
  }

  function Bytes(w: bv32): (data: seq<bv8>)
    ensures |data| == 4
  {
    [(w & 0xff) as bv8, ((w >> 8) & 0xff) as bv8, ((w >> 16) & 0xff) as bv8, ((w >> 24) & 0xff) as bv8]
  }

  /** The 4-byte key that has hash x. */
  function KeyOf(x: bv32, seed: bv32): (data: seq<bv8>)
    ensures |data| == 4
  {
    Bytes(Unround(seed, Unfinish(x, 4)))
  }

  lemma MultiplierKey1(x: bv32)
    ensures UndoKey1(TimesKey1(x)) == x && TimesKey1(UndoKey1(x)) == x
  {
    assert UndoKey1(x * 0xcc9e2d51) == x;
    assert TimesKey1(x * 0xdee13bb1) == x;
  }

  lemma MultiplierKey2(x: bv32)
    ensures UndoKey2(TimesKey2(x)) == x && TimesKey2(UndoKey2(x)) == x
  {
    assert UndoKey2(x * 0x1b873593) == x;
    assert TimesKey2(x * 0x56ed309b) == x;
  }

  lemma MultiplierFinal1(x: bv32)
    ensures UndoFinal1(TimesFinal1(x)) == x && TimesFinal1(UndoFinal1(x)) == x
  {
    assert UndoFinal1(x * 0x85ebca6b) == x;
    assert TimesFinal1(x * 0xa5cb9243) == x;
  }

  lemma MultiplierFinal2(x: bv32)
    ensures UndoFinal2(TimesFinal2(x)) == x && TimesFinal2(UndoFinal2(x)) == x
  {
    assert UndoFinal2(x * 0xc2b2ae35) == x;
    assert TimesFinal2(x * 0x7ed1b41d) == x;
  }

  lemma RotateInverse(x: bv32)
    ensures Rotr13(Rotl13(x)) == x && Rotl13(Rotr13(x)) == x
    ensures Rotr15(Rotl15(x)) == x && Rotl15(Rotr15(x)) == x
  {
  }

  lemma ScaleInverse(x: bv32)
    ensures Unscale(Scale(x)) == x && Scale(Unscale(x)) == x
  {
  }

  lemma XorInverse(x: bv32, y: bv32)
    ensures Xor(x, Xor(x, y)) == y && Xor(Xor(x, y), y) == x
  {
  }

  lemma XorShiftInverse(x: bv32)
    ensures XorShift16(XorShift16(x)) == x
    ensures UnxorShift13(XorShift13(x)) == x && XorShift13(UnxorShift13(x)) == x
  {
    assert XorShift16(x ^ (x >> 16)) == x;
    assert UnxorShift13(x ^ (x >> 13)) == x;
    assert XorShift13(x ^ (x >> 13) ^ (x >> 26)) == x;
  }

  lemma MixKeyInverse(k: bv32)
    ensures UnmixKey(MixKey(k)) == k && MixKey(UnmixKey(k)) == k
  {
    var a := TimesKey1(k);
    MultiplierKey1(k);
    RotateInverse(a);
    MultiplierKey2(Rotl15(a));
    var b := UndoKey2(k);
    MultiplierKey2(k);
    RotateInverse(b);
    MultiplierKey1(Rotr15(b));
  }

  lemma RoundInverse(h: bv32, k: bv32, h': bv32)
    ensures Unround(h, Round(h, k)) == k && Round(h, Unround(h, h')) == h'
  {
    var x := Xor(h, MixKey(k));
    MixKeyInverse(k);
    XorInverse(h, MixKey(k));
    RotateInverse(x);
    ScaleInverse(Rotl13(x));
    var y := Rotr13(Unscale(h'));
    MixKeyInverse(Xor(h, y));
    XorInverse(h, y);
    RotateInverse(Unscale(h'));
    ScaleInverse(h');
  }

  lemma FinishInverse(h: bv32, len: bv32)
    ensures Unfinish(Finish(h, len), len) == h
  {
    var a := Xor(h, len);
    var b := XorShift16(a);
    var d := XorShift13(TimesFinal1(b));
    XorInverse(h, len);
    XorShiftInverse(a);
    MultiplierFinal1(b);
    XorShiftInverse(TimesFinal1(b));
    MultiplierFinal2(d);
    XorShiftInverse(TimesFinal2(d));
  }

  lemma UnfinishInverse(x: bv32, len: bv32)
    ensures Finish(Unfinish(x, len), len) == x
  {
    var a := XorShift16(x);
    var b := UndoFinal2(a);
    var d := UndoFinal1(UnxorShift13(b));
    XorInverse(XorShift16(d), len);
    XorShiftInverse(d);
    MultiplierFinal1(UnxorShift13(b));
    XorShiftInverse(b);
    MultiplierFinal2(a);
    XorShiftInverse(x);
  }

  lemma BytesInverse(w: bv32, data: seq<bv8>)
    requires |data| == 4
    ensures Word(Bytes(w)) == w && Bytes(Word(data)) == data
  {
    ByteOfWord(data[0], data[1], data[2], data[3]);
  }

  lemma ByteOfWord(a: bv8, b: bv8, c: bv8, d: bv8)
    ensures var w := (a as bv32) | ((b as bv32) << 8) | ((c as bv32) << 16) | ((d as bv32) << 24);
      && (w & 0xff) as bv8 == a && ((w >> 8) & 0xff) as bv8 == b
      && ((w >> 16) & 0xff) as bv8 == c && ((w >> 24) & 0xff) as bv8 == d
  {
  }

  lemma FourByteHash(data: seq<bv8>, seed: bv32)
    requires |data| == 4
    ensures Hash(data, seed) == Finish(Round(seed, Word(data)), 4)
  {
    LengthOfFour();
    OneBlock(data, seed);
  }

  lemma LengthOfFour()
    ensures Length32(4) == 4
  {
    assert Length32(2) == 2 by {
      assert Length32(1) == 1;
    }
  }

  lemma OneBlock(data: seq<bv8>, seed: bv32)
    requires |data| == 4
    ensures Absorb(data, seed) == Round(seed, Word(data))
  {
    assert data[4..] == [];
  }

  /** For every seed, hashing is a bijection between 4-byte keys and 32-bit
      hashes: KeyOf undoes it from both sides. */
  lemma HashIsBijectiveOnFourBytes(data: seq<bv8>, x: bv32, seed: bv32)
    requires |data| == 4
    ensures KeyOf(Hash(data, seed), seed) == data
    ensures Hash(KeyOf(x, seed), seed) == x
  {
    FourByteHash(data, seed);
    FinishInverse(Round(seed, Word(data)), 4);
    RoundInverse(seed, Word(data), Unfinish(x, 4));
    BytesInverse(Unround(seed, Unfinish(x, 4)), data);
    FourByteHash(KeyOf(x, seed), seed);
    UnfinishInverse(x, 4);
  }

  /** Two different 4-byte keys never have the same hash. */
  lemma HashIsInjectiveOnFourBytes(a: seq<bv8>, b: seq<bv8>, seed: bv32)
    requires |a| == |b| == 4 && Hash(a, seed) == Hash(b, seed)
    ensures a == b
  {
    HashIsBijectiveOnFourBytes(a, 0, seed);
    HashIsBijectiveOnFourBytes(b, 0, seed);
  }

  // ---- Keys of any length ----

  lemma XorInjective(x: bv32, y: bv32, z: bv32)
    ensures Xor(x, z) == Xor(y, z) ==> x == y
    ensures Xor(z, x) == Xor(z, y) ==> x == y
  {
  }

  /** A round loses nothing: not of the state, for a given word, nor of the word,
      for a given state. */
  lemma RoundInjective(h: bv32, h': bv32, k: bv32, k': bv32)
    ensures Round(h, k) == Round(h', k) ==> h == h'
    ensures Round(h, k) == Round(h, k') ==> k == k'
  {
    if Round(h, k) == Round(h', k) {
      var x, x' := Xor(h, MixKey(k)), Xor(h', MixKey(k));
      ScaleInverse(Rotl13(x));
      ScaleInverse(Rotl13(x'));
      RotateInverse(x);
      RotateInverse(x');
      XorInjective(h, h', MixKey(k));
    }
    RoundInverse(h, k, h');
    RoundInverse(h, k', h');
  }

  /** Absorbing the same bytes keeps different states apart. */
  lemma {:induction false} AbsorbInjective(data: seq<bv8>, h: bv32, h': bv32)
    requires Absorb(data, h) == Absorb(data, h')
    ensures h == h'
  {
    if |data| >= 4 {
      AbsorbInjective(data[4..], Round(h, Word(data)), Round(h', Word(data)));
      RoundInjective(h, h', Word(data), 0);
    } else if |data| > 0 {
      XorInjective(h, h', MixKey(TailWord(data)));
    }
  }

  lemma WordInjective(a: seq<bv8>, b: seq<bv8>)
    requires |a| >= 4 && |b| >= 4 && Word(a) == Word(b)
    ensures a[..4] == b[..4]
  {
    ByteOfWord(a[0], a[1], a[2], a[3]);
    ByteOfWord(b[0], b[1], b[2], b[3]);
  }

  /** A tail is read as the word it makes with zeros after it. */
  lemma TailOf3(x: bv8, y: bv8, z: bv8)
    ensures Tail3(x, y, z)
         == (x as bv32) | ((y as bv32) << 8) | ((z as bv32) << 16) | ((0 as bv8 as bv32) << 24)
  {
  }

  lemma TailOf2(x: bv8, y: bv8)
    ensures Tail2(x, y)
         == (x as bv32) | ((y as bv32) << 8) | ((0 as bv8 as bv32) << 16) | ((0 as bv8 as bv32) << 24)
  {
  }

  lemma TailOf1(x: bv8)
    ensures Tail1(x)
         == (x as bv32) | ((0 as bv8 as bv32) << 8) | ((0 as bv8 as bv32) << 16) | ((0 as bv8 as bv32) << 24)
  {
  }

  lemma TailBytes3(x: bv8, y: bv8, z: bv8, x': bv8, y': bv8, z': bv8)
    requires Tail3(x, y, z) == Tail3(x', y', z')
    ensures x == x' && y == y' && z == z'
  {
    TailOf3(x, y, z);
    TailOf3(x', y', z');
    ByteOfWord(x, y, z, 0);
    ByteOfWord(x', y', z', 0);
  }

  lemma TailBytes2(x: bv8, y: bv8, x': bv8, y': bv8)
    requires Tail2(x, y) == Tail2(x', y')
    ensures x == x' && y == y'
  {
    TailOf2(x, y);
    TailOf2(x', y');
    ByteOfWord(x, y, 0, 0);
    ByteOfWord(x', y', 0, 0);
  }

  lemma TailBytes1(x: bv8, x': bv8)
    requires Tail1(x) == Tail1(x')
    ensures x == x'
  {
    TailOf1(x);
    TailOf1(x');
    ByteOfWord(x, 0, 0, 0);
    ByteOfWord(x', 0, 0, 0);
  }

  lemma TailWordInjective(a: seq<bv8>, b: seq<bv8>)
    requires |a| == |b| < 4 && TailWord(a) == TailWord(b)
    ensures a == b
  {
    if |a| == 3 {
      TailBytes3(a[0], a[1], a[2], b[0], b[1], b[2]);
    } else if |a| == 2 {
      TailBytes2(a[0], a[1], b[0], b[1]);
    } else if |a| == 1 {
      TailBytes1(a[0], b[0]);
    }
  }

  /** Keys of one length that differ in exactly one block leave different states. */
  lemma {:induction false} OneBlockAbsorbed(a: seq<bv8>, b: seq<bv8>, i: nat, h: bv32)
    requires |a| == |b| && a != b && forall p :: 0 <= p < |a| && p / 4 != i ==> a[p] == b[p]
    ensures Absorb(a, h) != Absorb(b, h)
  {
    if |a| >= 4 {
      if i > 0 {
        SameFirstBlock(a, b, i);
        OneBlockAbsorbed(a[4..], b[4..], i - 1, Round(h, Word(a)));
      } else {
        FirstBlockAbsorbed(a, b, h);
      }
    } else {
      LastBlockAbsorbed(a, b, h);
    }
  }

  lemma SameFirstBlock(a: seq<bv8>, b: seq<bv8>, i: nat)
    requires |a| == |b| >= 4 && a != b && i > 0 && forall p :: 0 <= p < |a| && p / 4 != i ==> a[p] == b[p]
    ensures Word(a) == Word(b) && a[4..] != b[4..]
    ensures forall p :: 0 <= p < |a[4..]| && p / 4 != i - 1 ==> a[4..][p] == b[4..][p]
  {
    assert a[..4] == b[..4];
    assert a == a[..4] + a[4..] && b == b[..4] + b[4..];
    forall p | 0 <= p < |a[4..]| && p / 4 != i - 1
      ensures a[4..][p] == b[4..][p]
    {
      assert (p + 4) / 4 == p / 4 + 1;
    }
  }

  lemma FirstBlockAbsorbed(a: seq<bv8>, b: seq<bv8>, h: bv32)
    requires |a| == |b| >= 4 && a != b && forall p :: 4 <= p < |a| ==> a[p] == b[p]
    ensures Absorb(a, h) != Absorb(b, h)
  {
    assert a[4..] == b[4..];
    assert a == a[..4] + a[4..] && b == b[..4] + b[4..];
    if Absorb(a, h) == Absorb(b, h) {
      AbsorbInjective(a[4..], Round(h, Word(a)), Round(h, Word(b)));
      RoundInjective(h, h, Word(a), Word(b));
      WordInjective(a, b);
    }
  }

  lemma LastBlockAbsorbed(a: seq<bv8>, b: seq<bv8>, h: bv32)
    requires |a| == |b| < 4 && a != b
    ensures Absorb(a, h) != Absorb(b, h)
  {
    if Absorb(a, h) == Absorb(b, h) {
      XorInjective(MixKey(TailWord(a)), MixKey(TailWord(b)), h);
      MixKeyInverse(TailWord(a));
      MixKeyInverse(TailWord(b));
      TailWordInjective(a, b);
    }
  }

  /** Two keys of one length that differ in exactly one block, a word of four
      aligned bytes or the one to three bytes after the last word, never have the
      same hash. */
  lemma OneBlockDecides(a: seq<bv8>, b: seq<bv8>, i: nat, seed: bv32)
    requires |a| == |b| && a != b && forall p :: 0 <= p < |a| && p / 4 != i ==> a[p] == b[p]
    ensures Hash(a, seed) != Hash(b, seed)
  {
    OneBlockAbsorbed(a, b, i, seed);
    FinishInverse(Absorb(a, seed), Length32(|a|));
    FinishInverse(Absorb(b, seed), Length32(|b|));
  }

  /** A key has different hashes under different seeds. */
  lemma SeedDecides(data: seq<bv8>, seed: bv32, seed': bv32)
    requires seed != seed'
    ensures Hash(data, seed) != Hash(data, seed')
  {
    if Absorb(data, seed) == Absorb(data, seed') {
      AbsorbInjective(data, seed, seed');
    }
    FinishInverse(Absorb(data, seed), Length32(|data|));
    FinishInverse(Absorb(data, seed'), Length32(|data|));
  }

  // ---- The length ----

  lemma Shifted(x: bv32)
    ensures (x << 1) as int == 2 * ((x & 0x7fff_ffff) as int)
    ensures ((x << 1) | 1) as int == 2 * ((x & 0x7fff_ffff) as int) + 1
  {
  }

  lemma AppendValue(x: bv32, bit: bool)
    ensures Append(x, bit) as int == 2 * ((x & 0x7fff_ffff) as int) + if bit then 1 else 0
  {
    Shifted(x);
  }

  lemma WithTopBit(x: bv32)
    ensures ((x & 0x7fff_ffff) | 0x8000_0000) as int == (x & 0x7fff_ffff) as int + 0x8000_0000
  {
  }

  lemma TopBit(x: bv32)
    ensures x as int == (x & 0x7fff_ffff) as int + if x & 0x8000_0000 == 0 then 0 else 0x8000_0000
  {
    if x & 0x8000_0000 == 0 {
      assert x == x & 0x7fff_ffff;
    } else {
      assert x == (x & 0x7fff_ffff) | 0x8000_0000;
      WithTopBit(x);
    }
  }

  lemma LowBound(x: bv32)
    ensures (x & 0x7fff_ffff) as int < 0x8000_0000
  {
    Shifted(x);
  }

  lemma DoubleModulo(x: nat, low: nat, top: nat, b: nat)
    requires x == low + top && low < 0x8000_0000 && b < 2 && (top == 0 || top == 0x8000_0000)
    ensures (2 * x + b) % 0x1_0000_0000 == 2 * low + b
  {
    if top != 0 {
      assert 2 * x + b == 0x1_0000_0000 + (2 * low + b);
    }
  }

  lemma Doubled(x: bv32, bit: bool)
    ensures Append(x, bit) as int == (2 * (x as int) + if bit then 1 else 0) % 0x1_0000_0000
  {
    LowBound(x);
    AppendValue(x, bit);
    TopBit(x);
    DoubleModulo(x as int, (x & 0x7fff_ffff) as int, if x & 0x8000_0000 == 0 then 0 else 0x8000_0000,
        if bit then 1 else 0);
  }

  lemma HalfModulo(n: nat)
    ensures (2 * (n / 2 % 0x1_0000_0000) + n % 2) % 0x1_0000_0000 == n % 0x1_0000_0000
  {
    var q, r := n / 2 / 0x1_0000_0000, n / 2 % 0x1_0000_0000;
    assert n == 2 * q * 0x1_0000_0000 + (2 * r + n % 2);
    WholeTurns(2 * r + n % 2, 2 * q);
  }

  lemma WholeTurns(x: nat, k: nat)
    ensures (k * 0x1_0000_0000 + x) % 0x1_0000_0000 == x % 0x1_0000_0000
  {
  }

  /** The length enters the hash modulo 2^32. */
  lemma {:induction false} LengthIs(n: nat)
    ensures Length32(n) as int == n % 0x1_0000_0000
  {
    if n > 0 {
      LengthIs(n / 2);
      Doubled(Length32(n / 2), n % 2 == 1);
      HalfModulo(n);
    }
  }

  // ---- Published results of MurmurHash3_x86_32 ----

  /** Four bytes in front of the rest, read as word k, take state h to h'. */
  lemma AbsorbFour(data: seq<bv8>, a: bv8, b: bv8, c: bv8, d: bv8, rest: seq<bv8>, h: bv32, k: bv32, h': bv32)
    requires data == [a, b, c, d] + rest
    requires (a as bv32) | ((b as bv32) << 8) | ((c as bv32) << 16) | ((d as bv32) << 24) == k && Round(h, k) == h'
    ensures Absorb(data, h) == Absorb(rest, h')
  {
    assert data[4..] == rest;
  }

  lemma AbsorbTail(data: seq<bv8>, h: bv32, k: bv32, h': bv32)
    requires 0 < |data| < 4 && TailWord(data) == k && Xor(h, MixKey(k)) == h'
    ensures Absorb(data, h) == h'
  {
  }

  /** "hello world": two words and a tail of three bytes. */
  lemma HashOfHelloWorld(key: seq<bv8>)
    requires key == [0x68, 0x65, 0x6c, 0x6c, 0x6f, 0x20, 0x77, 0x6f, 0x72, 0x6c, 0x64]
    ensures Hash(key, 0) == 0x5e928f0f
  {
    var second, tail := key[4..], key[8..];
    AbsorbFour(key, 0x68, 0x65, 0x6c, 0x6c, second, 0, 0x6c6c6568, 0xef13efcd);
    AbsorbFour(second, 0x6f, 0x20, 0x77, 0x6f, tail, 0xef13efcd, 0x6f77206f, 0xda5f6aad);
    AbsorbTail(tail, 0xda5f6aad, 0x646c72, 0xffff5c76);
    ShortLengths();
    FinishedHash(key, 0, 0xffff5c76, 11, 11, 0x5e928f0f);
  }

  /** "Hello, world!" under another seed: three words and a tail of one byte. */
  lemma HashOfGreeting(key: seq<bv8>)
    requires key == [0x48, 0x65, 0x6c, 0x6c, 0x6f, 0x2c, 0x20, 0x77, 0x6f, 0x72, 0x6c, 0x64, 0x21]
    ensures Hash(key, 0x9747b28c) == 0x24884cba
  {
    var second, third, tail := key[4..], key[8..], key[12..];
    AbsorbFour(key, 0x48, 0x65, 0x6c, 0x6c, second, 0x9747b28c, 0x6c6c6548, 0xdae4c92e);
    AbsorbFour(second, 0x6f, 0x2c, 0x20, 0x77, third, 0xdae4c92e, 0x77202c6f, 0x71c6b43c);
    AbsorbFour(third, 0x6f, 0x72, 0x6c, 0x64, tail, 0x71c6b43c, 0x646c726f, 0x3bd692af);
    AbsorbTail(tail, 0x3bd692af, 0x21, 0x9788c38c);
    ShortLengths();
    FinishedHash(key, 0x9747b28c, 0x9788c38c, 13, 13, 0x24884cba);
  }

  lemma FinishedHash(data: seq<bv8>, seed: bv32, h: bv32, n: nat, len: bv32, hash: bv32)
    requires Absorb(data, seed) == h && |data| == n && Length32(n) == len && Finish(h, len) == hash
    ensures Hash(data, seed) == hash
  {
  }

  /** A tail of two bytes alone, and no bytes at all. */
  lemma HashOfShortKeys()
    ensures Hash([0x21, 0x43], 0) == 0xa0f7b07a && Hash([], 1) == 0x514e28b7
  {
    AbsorbTail([0x21, 0x43], 0, 0x4321, 0xec900b60);
    ShortLengths();
    assert Finish(0xec900b60, 2) == 0xa0f7b07a;
    assert Finish(1, 0) == 0x514e28b7;
  }

  lemma ShortLengths()
    ensures Length32(2) == 2 && Length32(11) == 11 && Length32(13) == 13
  {
    assert Length32(1) == 1;
    assert Length32(2) == 2;
    assert Length32(5) == 5;
    LengthOfSix();
  }

  lemma LengthOfSix()
    ensures Length32(6) == 6
  {
    assert Length32(3) == 3;
  }
}
