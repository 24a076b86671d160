/**
  Inputs on which the hash differs from the published one: for every level some
  24 bytes bring the state to any words at all, hence to a third word that
  overflows when the length is added (pwndbg/aglib/macho.py:196-203).
 */
module Lookup8Overflow {
  import opened PyBits
  import opened Lookup8
  import opened Lookup8Hash

  // ----- Every state is reached by one block -----

  function WordBytes(w: nat): (bs: seq<Byte>)
    ensures |bs| == 8
  {
    [w % 0x100, w / 0x100 % 0x100, w / 0x1_0000 % 0x100, w / 0x100_0000 % 0x100,
     w / 0x1_0000_0000 % 0x100, w / 0x100_0000_0000 % 0x100,
     w / 0x1_0000_0000_0000 % 0x100, w / 0x100_0000_0000_0000 % 0x100]
  }

  /** Splitting off the lowest byte, again and again. */
  lemma Quotients(w: nat)
    requires w < MODULUS
    ensures w / 0x100 / 0x100 == w / 0x1_0000
    ensures w / 0x1_0000 / 0x100 == w / 0x100_0000
    ensures w / 0x100_0000 / 0x100 == w / 0x1_0000_0000
    ensures w / 0x1_0000_0000 / 0x100 == w / 0x100_0000_0000
    ensures w / 0x100_0000_0000 / 0x100 == w / 0x1_0000_0000_0000
    ensures w / 0x1_0000_0000_0000 / 0x100 == w / 0x100_0000_0000_0000
    ensures w / 0x100_0000_0000_0000 < 0x100
  {
  }

  lemma WordBytesRead(w: nat, before: seq<Byte>, after: seq<Byte>)
    requires w < MODULUS
    ensures Bytes8(before + WordBytes(w) + after, |before|) == w
  {
    hide WordBytes;
    var bs := before + WordBytes(w) + after;
    forall i | 0 <= i < 8 ensures bs[|before| + i] == WordBytes(w)[i] {
    }
    BytesSum(w);
    BytesAt(bs, |before|, WordBytes(w));
  }

  lemma BytesAt(bs: seq<Byte>, at: nat, word: seq<Byte>)
    requires at + 8 <= |bs| && |word| == 8
    requires forall i | 0 <= i < 8 :: bs[at + i] == word[i]
    ensures Bytes8(bs, at) == Bytes8(word, 0)
  {
    assert bs[at + 0] == word[0];
  }

  /** Each of `qs` has its lowest byte in `bs`, and the rest in the next one. */
  lemma SumOfBytes(qs: seq<nat>, bs: seq<Byte>)
    requires |qs| == |bs| == 8 && qs[7] == bs[7]
    requires forall i | 0 <= i < 7 :: qs[i] == bs[i] + 0x100 * qs[i + 1]
    ensures Bytes8(bs, 0) == qs[0]
  {
    assert qs[6] == bs[6] + 0x100 * qs[7] && qs[5] == bs[5] + 0x100 * qs[6] && qs[4] == bs[4] + 0x100 * qs[5];
    assert qs[3] == bs[3] + 0x100 * qs[4] && qs[2] == bs[2] + 0x100 * qs[3] && qs[1] == bs[1] + 0x100 * qs[2];
    assert qs[0] == bs[0] + 0x100 * qs[1];
  }

  lemma BytesSum(w: nat)
    requires w < MODULUS
    ensures Bytes8(WordBytes(w), 0) == w
  {
    Quotients(w);
    hide MODULUS;
    SumOfBytes([w, w / 0x100, w / 0x1_0000, w / 0x100_0000, w / 0x1_0000_0000, w / 0x100_0000_0000,
                w / 0x1_0000_0000_0000, w / 0x100_0000_0000_0000], WordBytes(w));
  }

  /** What has to be added to `x` to get `y`. */
  lemma AddsTo(x: int, y: int)
    requires IsWord(y)
    ensures Word(x + Word(y - x)) == y
  {
    AddLow(y - x, x);
    WordOfWord(y);
    hide Word;
    assert Word(y - x) + x == x + Word(y - x) && y - x + x == y;
  }

  /** The block of three words. */
  function BlockOf(a: nat, b: nat, c: nat): (block: seq<Byte>)
    ensures |block| == 24
  {
    WordBytes(a) + WordBytes(b) + WordBytes(c)
  }

  lemma BlockReads(a: nat, b: nat, c: nat)
    requires a < MODULUS && b < MODULUS && c < MODULUS
    ensures Bytes8(BlockOf(a, b, c), 0) == a && Bytes8(BlockOf(a, b, c), 8) == b && Bytes8(BlockOf(a, b, c), 16) == c
  {
    hide Bytes8;
    hide WordBytes;
    var block := BlockOf(a, b, c);
    WordBytesRead(a, [], WordBytes(b) + WordBytes(c));
    WordBytesRead(b, WordBytes(a), WordBytes(c));
    WordBytesRead(c, WordBytes(a) + WordBytes(b), []);
    assert block == [] + WordBytes(a) + (WordBytes(b) + WordBytes(c));
    assert block == (WordBytes(a) + WordBytes(b)) + WordBytes(c) + [];
  }

  lemma BlockAdds(t: Triple, a: nat, b: nat, c: nat)
    requires a < MODULUS && b < MODULUS && c < MODULUS
    ensures AddBlock(t, BlockOf(a, b, c)) == Triple(Word(t.a + a), Word(t.b + b), Word(t.c + c))
  {
    hide Bytes8;
    hide Word;
    hide BlockOf;
    BlockReads(a, b, c);
  }

  /** The block that takes state `t` to state `u`. */
  lemma BlockTo(t: Triple, u: Triple) returns (block: seq<Byte>)
    requires Words(u)
    ensures |block| == 24 && AddBlock(t, block) == u
  {
    hide Pow2;
    hide Word;
    Pow2Modulus();
    var a, b, c := Word(u.a - t.a), Word(u.b - t.b), Word(u.c - t.c);
    AddsTo(t.a, u.a);
    AddsTo(t.b, u.b);
    AddsTo(t.c, u.c);
    BlockAdds(t, a, b, c);
    block := BlockOf(a, b, c);
    hide AddBlock;
    hide BlockOf;
  }

  /** From every level, 24 bytes lead to any given words. */
  lemma EveryStateReached(level: int, u: Triple) returns (blob: seq<Byte>)
    requires Words(u)
    ensures |blob| == 24 && FullBlocks(Start(level), blob) == u
  {
    var t := Start(level);
    MixIsReversible(u);
    blob := BlockTo(t, UnMix(u));
    MixIsWordMix(UnMix(u));
    OneBlock(t, blob);
  }

  lemma OneBlock(t: Triple, blob: seq<Byte>)
    requires |blob| == 24
    ensures FullBlocks(t, blob) == WordMix(AddBlock(t, blob))
  {
    hide WordMix;
    hide AddBlock;
    assert blob[..24] == blob && |blob[24..]| == 0;
  }

  // ----- Exclusive or, byte by byte -----

  function Xor8(u: Byte, v: Byte): Byte { ((u as bv8) ^ (v as bv8)) as int }

  lemma XorZero()
    ensures Xor(0, 0) == 0
  {
  }

  function Value(u: bv8): nat { u as nat }

  function Upper(u: bv8): bv8 { u >> 1 }

  function Lowest(u: bv8): bv8 { u & 1 }

  function BitsXor(u: bv8, v: bv8): bv8 { u ^ v }

  function HalfOf(x: nat): nat { x / 2 }

  function BitOf(x: nat): nat { x % 2 }

  lemma Half(u: bv8)
    ensures Value(Upper(u)) == HalfOf(Value(u)) && Value(Lowest(u)) == BitOf(Value(u))
  {
  }

  lemma LowBits(u: bv8, v: bv8)
    ensures Value(BitsXor(Lowest(u), Lowest(v))) == BitOf(Value(Lowest(u)) + Value(Lowest(v)))
  {
  }

  lemma XorSplits(u: bv8, v: bv8)
    ensures Upper(BitsXor(u, v)) == BitsXor(Upper(u), Upper(v))
    ensures Lowest(BitsXor(u, v)) == BitsXor(Lowest(u), Lowest(v))
  {
  }

  lemma UpperOfXor(u: bv8, v: bv8)
    ensures HalfOf(Value(BitsXor(u, v))) == Value(BitsXor(Upper(u), Upper(v)))
  {
    hide *;
    Half(BitsXor(u, v));
    XorSplits(u, v);
  }

  lemma LowestOfXor(u: bv8, v: bv8)
    ensures BitOf(Value(BitsXor(u, v))) == BitOf(BitOf(Value(u)) + BitOf(Value(v)))
  {
    hide *;
    Half(u);
    Half(v);
    Half(BitsXor(u, v));
    XorSplits(u, v);
    LowBits(u, v);
  }

  /** The upper bits and the lowest one, in both readings. */
  lemma SplitBits(u: bv8, v: bv8)
    ensures Value(BitsXor(u, v)) == 2 * Value(BitsXor(Upper(u), Upper(v))) + BitOf(Value(u) + Value(v))
  {
    hide *;
    UpperOfXor(u, v);
    LowestOfXor(u, v);
    JoinHalves(Value(u), Value(v), Value(BitsXor(u, v)), Value(BitsXor(Upper(u), Upper(v))));
  }

  lemma JoinHalves(x: nat, y: nat, r: nat, h: nat)
    requires HalfOf(r) == h && BitOf(r) == BitOf(BitOf(x) + BitOf(y))
    ensures r == 2 * h + BitOf(x + y)
  {
    Parity(x, y);
  }

  lemma ZeroBits(u: bv8, v: bv8)
    requires Value(u) == 0 && Value(v) == 0
    ensures Value(BitsXor(u, v)) == 0
  {
  }

  lemma HalvesOf(x: nat, y: nat, p: nat)
    ensures HalfOf(x) == x / 2 && HalfOf(y) == y / 2 && BitOf(x + y) == (x + y) % 2
    ensures x < 2 * p ==> HalfOf(x) < p
    ensures y < 2 * p ==> HalfOf(y) < p
  {
  }

  lemma {:induction false} XorBits(u: bv8, v: bv8, k: nat)
    requires Value(u) < Pow2(k) && Value(v) < Pow2(k)
    ensures Xor(Value(u), Value(v)) == Value(BitsXor(u, v))
    decreases k
  {
    hide *;
    if k == 0 {
      Pow2Step(0);
      XorZero();
      ZeroBits(u, v);
    } else {
      Pow2Step(k - 1);
      Half(u);
      Half(v);
      SplitBits(u, v);
      HalvesOf(Value(u), Value(v), Pow2(k - 1));
      XorBits(Upper(u), Upper(v), k - 1);
      XorStep(Value(u), Value(v));
    }
  }

  lemma {:induction false} BitsOf(u: nat) returns (b: bv8)
    requires u < 0x100
    ensures b as nat == u
    decreases u
  {
    if u == 0 {
      b := 0;
    } else {
      b := BitsOf(u - 1);
      NextBits(b, u);
      b := b + 1;
    }
  }

  lemma NextBits(b: bv8, u: nat)
    requires b as nat == u - 1 && 1 <= u < 0x100
    ensures (b + 1) as nat == u
  {
    assert b < 255;
  }

  lemma BitsBack(b: bv8)
    ensures (b as nat) as bv8 == b
  {
  }

  lemma Bits(u: Byte)
    ensures (u as bv8) as int == u
  {
    var b := BitsOf(u);
    BitsBack(b);
  }

  lemma XorByte(u: Byte, v: Byte)
    ensures Xor(u, v) == Xor8(u, v)
  {
    hide Xor;
    Bits(u);
    Bits(v);
    ByteBound();
    XorBits(u as bv8, v as bv8, 8);
  }

  lemma ByteBound()
    ensures Pow2(8) == 0x100
  {
    Powers();
  }

  lemma Pow2Step(k: nat)
    ensures Pow2(0) == 1 && Pow2(k + 1) == 2 * Pow2(k)
  {
  }

  lemma {:induction false} XorConcat(x: nat, y: nat, u: nat, v: nat, k: nat)
    requires u < Pow2(k) && v < Pow2(k)
    ensures Xor(Pow2(k) * x + u, Pow2(k) * y + v) == Pow2(k) * Xor(x, y) + Xor(u, v)
    decreases k
  {
    hide *;
    if k == 0 {
      Pow2Step(0);
      XorZero();
    } else {
      Pow2Step(k - 1);
      var p := Pow2(k - 1);
      HalfBelow(u, p);
      HalfBelow(v, p);
      XorConcat(x, y, u / 2, v / 2, k - 1);
      XorConcatStep(x, y, u, v, p);
    }
  }

  lemma XorConcatStep(x: nat, y: nat, u: nat, v: nat, p: nat)
    requires u < 2 * p && v < 2 * p
    requires Xor(p * x + u / 2, p * y + v / 2) == p * Xor(x, y) + Xor(u / 2, v / 2)
    ensures Xor(2 * p * x + u, 2 * p * y + v) == 2 * p * Xor(x, y) + Xor(u, v)
  {
    hide *;
    Regroup(p, x);
    Regroup(p, y);
    Regroup(p, Xor(x, y));
    XorDoubled(p * x, p * y, u, v, p * Xor(x, y));
  }

  lemma XorDoubled(a: int, b: int, u: nat, v: nat, e: int)
    requires Xor(a + u / 2, b + v / 2) == e + Xor(u / 2, v / 2)
    ensures Xor(2 * a + u, 2 * b + v) == 2 * e + Xor(u, v)
  {
    hide *;
    XorStep(2 * a + u, 2 * b + v);
    XorStep(u, v);
    Halved(a, u);
    Halved(b, v);
    Parity(2 * a + u, 2 * b + v);
    Parity(u, v);
  }

  lemma Halved(a: int, u: nat)
    ensures (2 * a + u) / 2 == a + u / 2 && (2 * a + u) % 2 == u % 2
  {
  }

  lemma HalfBelow(u: nat, p: nat)
    requires u < 2 * p
    ensures u / 2 < p
  {
  }

  /** The bytes of a word, lowest first. */
  datatype Octets = Octets(b0: Byte, b1: Byte, b2: Byte, b3: Byte, b4: Byte, b5: Byte, b6: Byte, b7: Byte) {
    function Value(): (w: nat)
      ensures w < MODULUS
    {
      b0 as nat + 0x100 * (b1 as nat + 0x100 * (b2 as nat + 0x100 * (b3 as nat
      + 0x100 * (b4 as nat + 0x100 * (b5 as nat + 0x100 * (b6 as nat + 0x100 * (b7 as nat)))))))
    }

    function Xor(o: Octets): Octets {
      Octets(Xor8(b0, o.b0), Xor8(b1, o.b1), Xor8(b2, o.b2), Xor8(b3, o.b3),
             Xor8(b4, o.b4), Xor8(b5, o.b5), Xor8(b6, o.b6), Xor8(b7, o.b7))
    }
  }

  /** One more byte below. */
  lemma XorMore(x: nat, y: nat, r: nat, u: Byte, v: Byte)
    requires Xor(x, y) == r
    ensures Xor(u + 0x100 * x, v + 0x100 * y) == Xor8(u, v) + 0x100 * r
  {
    Powers();
    hide *;
    XorConcat(x, y, u, v, 8);
    XorByte(u, v);
  }

  lemma XorOctets(p: Octets, q: Octets)
    ensures Xor(p.Value(), q.Value()) == p.Xor(q).Value()
  {
    hide Xor;
    hide Xor8;
    XorByte(p.b7, q.b7);
    XorMore(p.b7, q.b7, Xor8(p.b7, q.b7), p.b6, q.b6);
    var x6, y6 := p.b6 as nat + 0x100 * p.b7 as nat, q.b6 as nat + 0x100 * q.b7 as nat;
    XorMore(x6, y6, Xor(x6, y6), p.b5, q.b5);
    var x5, y5 := p.b5 as nat + 0x100 * x6, q.b5 as nat + 0x100 * y6;
    XorMore(x5, y5, Xor(x5, y5), p.b4, q.b4);
    var x4, y4 := p.b4 as nat + 0x100 * x5, q.b4 as nat + 0x100 * y5;
    XorMore(x4, y4, Xor(x4, y4), p.b3, q.b3);
    var x3, y3 := p.b3 as nat + 0x100 * x4, q.b3 as nat + 0x100 * y4;
    XorMore(x3, y3, Xor(x3, y3), p.b2, q.b2);
    var x2, y2 := p.b2 as nat + 0x100 * x3, q.b2 as nat + 0x100 * y3;
    XorMore(x2, y2, Xor(x2, y2), p.b1, q.b1);
    var x1, y1 := p.b1 as nat + 0x100 * x2, q.b1 as nat + 0x100 * y2;
    XorMore(x1, y1, Xor(x1, y1), p.b0, q.b0);
  }

  // ----- One state, mixed as the code does -----

  lemma Powers()
    ensures Pow2(64) == MODULUS && Pow2(5) == 0x20 && Pow2(8) == 0x100 && Pow2(9) == 0x200 && Pow2(11) == 0x800
    ensures Pow2(12) == 0x1000 && Pow2(18) == 0x4_0000 && Pow2(21) == 0x20_0000 && Pow2(22) == 0x40_0000 && Pow2(23) == 0x80_0000
    ensures Pow2(35) == 0x8_0000_0000 && Pow2(38) == 0x40_0000_0000 && Pow2(43) == 0x800_0000_0000
    ensures Pow2(49) == 0x2_0000_0000_0000
  {
    Pow2Modulus();
    Pow2Small();
    Pow2Add(4, 4);
    Pow2Add(8, 1);
    Pow2Add(8, 3);
    Pow2Add(8, 4);
    Pow2Add(9, 9);
    Pow2Add(18, 4);
    Pow2Add(18, 5);
    Pow2Add(12, 23);
    Pow2Add(35, 3);
    Pow2Add(38, 11);
    assert Pow2(1) == 2;
    hide Pow2;
  }

  lemma WordIs(x: int, q: int, r: nat)
    requires x == MODULUS * q + r && r < MODULUS
    ensures Word(x) == r
  {
    Pow2Modulus();
    ModUnique(x, MODULUS, q, r);
  }

  /** One step on given words: the bytes of the difference, of the shifted word, and of the result. */
  lemma StepIs(x: nat, y: nat, z: nat, s: nat, q: int, d: Octets, ss: Octets, rs: Octets)
    requires d.Value() == x - y - z + q * MODULUS && ss.Value() == s && d.Xor(ss) == rs
    ensures WordStep(x, y, z, s) == rs.Value()
  {
    hide *;
    XorOctets(d, ss);
    WordIs(x - y - z, -q, d.Value());
    WordIs(s, 0, s);
    WordIs(rs.Value(), 0, rs.Value());
    StepOf(x, y, z, s);
  }

  lemma StepOf(x: int, y: int, z: int, s: int)
    ensures WordStep(x, y, z, s) == Word(Xor(Word(x - y - z), Word(s)))
  {
    hide Word;
    hide Xor;
  }

  lemma FirstRoundA()
    ensures WordStep(0x0, 0x0, 0x0, 0x20_0000) == 0x20_0000
  {
    StepIs(0x0, 0x0, 0x0, 0x20_0000, 0,
      Octets(0x00, 0x00, 0x00, 0x00, 0x00, 0x00, 0x00, 0x00),
      Octets(0x00, 0x00, 0x20, 0x00, 0x00, 0x00, 0x00, 0x00),
      Octets(0x00, 0x00, 0x20, 0x00, 0x00, 0x00, 0x00, 0x00));
  }

  lemma FirstRoundB()
    ensures WordStep(0x0, 0x0, 0x20_0000, 0x4000_0000) == 0xFFFF_FFFF_BFE0_0000
  {
    StepIs(0x0, 0x0, 0x20_0000, 0x4000_0000, 1,
      Octets(0x00, 0x00, 0xE0, 0xFF, 0xFF, 0xFF, 0xFF, 0xFF),
      Octets(0x00, 0x00, 0x00, 0x40, 0x00, 0x00, 0x00, 0x00),
      Octets(0x00, 0x00, 0xE0, 0xBF, 0xFF, 0xFF, 0xFF, 0xFF));
  }

  lemma FirstRoundC()
    ensures WordStep(0x0, 0x20_0000, 0xFFFF_FFFF_BFE0_0000, 0xFF_FFFF_FFBF_E000) == 0xFF_FFFF_BFBF_E000
  {
    StepIs(0x0, 0x20_0000, 0xFFFF_FFFF_BFE0_0000, 0xFF_FFFF_FFBF_E000, 1,
      Octets(0x00, 0x00, 0x00, 0x40, 0x00, 0x00, 0x00, 0x00),
      Octets(0x00, 0xE0, 0xBF, 0xFF, 0xFF, 0xFF, 0xFF, 0x00),
      Octets(0x00, 0xE0, 0xBF, 0xBF, 0xFF, 0xFF, 0xFF, 0x00));
  }

  lemma FirstRound()
    ensures AfterFirst(WordStep(0, 0, 0, 0x20_0000), 0, 0, 9, 8) ==
            Triple(0x20_0000, 0xFFFF_FFFF_BFE0_0000, 0xFF_FFFF_BFBF_E000)
  {
    Powers();
    hide Pow2;
    hide Word;
    hide WordStep;
    FirstRoundA();
    WordIs(0x4000_0000, 0x0, 0x4000_0000);
    assert Shl(0x20_0000, 9) == 0x4000_0000;
    FirstRoundB();
    assert Shr(0xFFFF_FFFF_BFE0_0000, 8) == 0xFF_FFFF_FFBF_E000;
    FirstRoundC();
  }

  lemma SecondRoundA()
    ensures WordStep(0x20_0000, 0xFFFF_FFFF_BFE0_0000, 0xFF_FFFF_BFBF_E000, 0x3_FFFF) == 0xFF00_0000_8083_DFFF
  {
    StepIs(0x20_0000, 0xFFFF_FFFF_BFE0_0000, 0xFF_FFFF_BFBF_E000, 0x3_FFFF, 2,
      Octets(0x00, 0x20, 0x80, 0x80, 0x00, 0x00, 0x00, 0xFF),
      Octets(0xFF, 0xFF, 0x03, 0x00, 0x00, 0x00, 0x00, 0x00),
      Octets(0xFF, 0xDF, 0x83, 0x80, 0x00, 0x00, 0x00, 0xFF));
  }

  lemma SecondRoundB()
    ensures WordStep(0xFFFF_FFFF_BFE0_0000, 0xFF_FFFF_BFBF_E000, 0xFF00_0000_8083_DFFF, 0x40_41EF_FF80_0000) == 0xFFBF_BE10_801C_4001
  {
    StepIs(0xFFFF_FFFF_BFE0_0000, 0xFF_FFFF_BFBF_E000, 0xFF00_0000_8083_DFFF, 0x40_41EF_FF80_0000, 1,
      Octets(0x01, 0x40, 0x9C, 0x7F, 0xFF, 0xFF, 0xFF, 0xFF),
      Octets(0x00, 0x00, 0x80, 0xFF, 0xEF, 0x41, 0x40, 0x00),
      Octets(0x01, 0x40, 0x1C, 0x80, 0x10, 0xBE, 0xBF, 0xFF));
  }

  lemma SecondRoundC()
    ensures WordStep(0xFF_FFFF_BFBF_E000, 0xFF00_0000_8083_DFFF, 0xFFBF_BE10_801C_4001, 0x7FD_FDF0_8400_E200) == 0x5BD_BC1E_3B1F_2200
  {
    StepIs(0xFF_FFFF_BFBF_E000, 0xFF00_0000_8083_DFFF, 0xFFBF_BE10_801C_4001, 0x7FD_FDF0_8400_E200, 2,
      Octets(0x00, 0xC0, 0x1F, 0xBF, 0xEE, 0x41, 0x40, 0x02),
      Octets(0x00, 0xE2, 0x00, 0x84, 0xF0, 0xFD, 0xFD, 0x07),
      Octets(0x00, 0x22, 0x1F, 0x3B, 0x1E, 0xBC, 0xBD, 0x05));
  }

  lemma SecondRound()
    ensures WordRound(Triple(0x20_0000, 0xFFFF_FFFF_BFE0_0000, 0xFF_FFFF_BFBF_E000), 38, 23, 5) ==
            Triple(0xFF00_0000_8083_DFFF, 0xFFBF_BE10_801C_4001, 0x5BD_BC1E_3B1F_2200)
  {
    Powers();
    hide Pow2;
    hide Word;
    hide WordStep;
    assert Shr(0xFF_FFFF_BFBF_E000, 38) == 0x3_FFFF;
    SecondRoundA();
    WordIs(0x7F_8000_0040_41EF_FF80_0000, 0x7F_8000, 0x40_41EF_FF80_0000);
    assert Shl(0xFF00_0000_8083_DFFF, 23) == 0x7F_8000_0040_41EF_FF80_0000;
    SecondRoundB();
    assert Shr(0xFFBF_BE10_801C_4001, 5) == 0x7FD_FDF0_8400_E200;
    SecondRoundC();
  }

  lemma ThirdRoundA()
    ensures WordStep(0xFF00_0000_8083_DFFF, 0xFFBF_BE10_801C_4001, 0x5BD_BC1E_3B1F_2200, 0xB7_B783) == 0xF982_85D1_C5FF_CA7D
  {
    StepIs(0xFF00_0000_8083_DFFF, 0xFFBF_BE10_801C_4001, 0x5BD_BC1E_3B1F_2200, 0xB7_B783, 1,
      Octets(0xFE, 0x7D, 0x48, 0xC5, 0xD1, 0x85, 0x82, 0xF9),
      Octets(0x83, 0xB7, 0xB7, 0x00, 0x00, 0x00, 0x00, 0x00),
      Octets(0x7D, 0xCA, 0xFF, 0xC5, 0xD1, 0x85, 0x82, 0xF9));
  }

  lemma ThirdRoundB()
    ensures WordStep(0xFFBF_BE10_801C_4001, 0x5BD_BC1E_3B1F_2200, 0xF982_85D1_C5FF_CA7D, 0x94FA_0000_0000_0000) == 0x9485_7C20_7EFD_5384
  {
    StepIs(0xFFBF_BE10_801C_4001, 0x5BD_BC1E_3B1F_2200, 0xF982_85D1_C5FF_CA7D, 0x94FA_0000_0000_0000, 0,
      Octets(0x84, 0x53, 0xFD, 0x7E, 0x20, 0x7C, 0x7F, 0x00),
      Octets(0x00, 0x00, 0x00, 0x00, 0x00, 0x00, 0xFA, 0x94),
      Octets(0x84, 0x53, 0xFD, 0x7E, 0x20, 0x7C, 0x85, 0x94));
  }

  lemma ThirdRoundC()
    ensures WordStep(0x5BD_BC1E_3B1F_2200, 0xF982_85D1_C5FF_CA7D, 0x9485_7C20_7EFD_5384, 0x12_90AF_840F_DFAA) == 0x77A7_2A84_722D_DC55
  {
    StepIs(0x5BD_BC1E_3B1F_2200, 0xF982_85D1_C5FF_CA7D, 0x9485_7C20_7EFD_5384, 0x12_90AF_840F_DFAA, 2,
      Octets(0xFF, 0x03, 0x22, 0xF6, 0x2B, 0xBA, 0xB5, 0x77),
      Octets(0xAA, 0xDF, 0x0F, 0x84, 0xAF, 0x90, 0x12, 0x00),
      Octets(0x55, 0xDC, 0x2D, 0x72, 0x84, 0x2A, 0xA7, 0x77));
  }

  lemma ThirdRound()
    ensures WordRound(Triple(0xFF00_0000_8083_DFFF, 0xFFBF_BE10_801C_4001, 0x5BD_BC1E_3B1F_2200), 35, 49, 11) ==
            Triple(0xF982_85D1_C5FF_CA7D, 0x9485_7C20_7EFD_5384, 0x77A7_2A84_722D_DC55)
  {
    Powers();
    hide Pow2;
    hide Word;
    hide WordStep;
    assert Shr(0x5BD_BC1E_3B1F_2200, 35) == 0xB7_B783;
    ThirdRoundA();
    WordIs(0x1_F305_0BA3_8BFF_94FA_0000_0000_0000, 0x1_F305_0BA3_8BFF, 0x94FA_0000_0000_0000);
    assert Shl(0xF982_85D1_C5FF_CA7D, 49) == 0x1_F305_0BA3_8BFF_94FA_0000_0000_0000;
    ThirdRoundB();
    assert Shr(0x9485_7C20_7EFD_5384, 11) == 0x12_90AF_840F_DFAA;
    ThirdRoundC();
  }

  lemma FourthRoundA()
    ensures WordStep(0xF982_85D1_C5FF_CA7D, 0x9485_7C20_7EFD_5384, 0x77A7_2A84_722D_DC55, 0x7_7A72_A847_22DD) == 0xED52_A55E_7C93_B879
  {
    StepIs(0xF982_85D1_C5FF_CA7D, 0x9485_7C20_7EFD_5384, 0x77A7_2A84_722D_DC55, 0x7_7A72_A847_22DD, 1,
      Octets(0xA4, 0x9A, 0xD4, 0xD4, 0x2C, 0xDF, 0x55, 0xED),
      Octets(0xDD, 0x22, 0x47, 0xA8, 0x72, 0x7A, 0x07, 0x00),
      Octets(0x79, 0xB8, 0x93, 0x7C, 0x5E, 0xA5, 0x52, 0xED));
  }

  lemma FourthRoundB()
    ensures WordStep(0x9485_7C20_7EFD_5384, 0x77A7_2A84_722D_DC55, 0xED52_A55E_7C93_B879, 0x9579_F24E_E1E4_0000) == 0xBAF2_5E73_71DF_BEB6
  {
    StepIs(0x9485_7C20_7EFD_5384, 0x77A7_2A84_722D_DC55, 0xED52_A55E_7C93_B879, 0x9579_F24E_E1E4_0000, 1,
      Octets(0xB6, 0xBE, 0x3B, 0x90, 0x3D, 0xAC, 0x8B, 0x2F),
      Octets(0x00, 0x00, 0xE4, 0xE1, 0x4E, 0xF2, 0x79, 0x95),
      Octets(0xB6, 0xBE, 0xDF, 0x71, 0x73, 0x5E, 0xF2, 0xBA));
  }

  lemma FourthRoundC()
    ensures WordStep(0x77A7_2A84_722D_DC55, 0xED52_A55E_7C93_B879, 0xBAF2_5E73_71DF_BEB6, 0x2EB_C979_CDC7) == 0xCF62_2459_4AC3_A8E1
  {
    StepIs(0x77A7_2A84_722D_DC55, 0xED52_A55E_7C93_B879, 0xBAF2_5E73_71DF_BEB6, 0x2EB_C979_CDC7, 2,
      Octets(0x26, 0x65, 0xBA, 0x83, 0xB2, 0x26, 0x62, 0xCF),
      Octets(0xC7, 0xCD, 0x79, 0xC9, 0xEB, 0x02, 0x00, 0x00),
      Octets(0xE1, 0xA8, 0xC3, 0x4A, 0x59, 0x24, 0x62, 0xCF));
  }

  lemma FourthRound()
    ensures WordRound(Triple(0xF982_85D1_C5FF_CA7D, 0x9485_7C20_7EFD_5384, 0x77A7_2A84_722D_DC55), 12, 18, 22) ==
            Triple(0xED52_A55E_7C93_B879, 0xBAF2_5E73_71DF_BEB6, 0xCF62_2459_4AC3_A8E1)
  {
    Powers();
    hide Pow2;
    hide Word;
    hide WordStep;
    assert Shr(0x77A7_2A84_722D_DC55, 12) == 0x7_7A72_A847_22DD;
    FourthRoundA();
    WordIs(0x3_B54A_9579_F24E_E1E4_0000, 0x3_B54A, 0x9579_F24E_E1E4_0000);
    assert Shl(0xED52_A55E_7C93_B879, 18) == 0x3_B54A_9579_F24E_E1E4_0000;
    FourthRoundB();
    assert Shr(0xBAF2_5E73_71DF_BEB6, 22) == 0x2EB_C979_CDC7;
    FourthRoundC();
  }

  /** With two zero words and a third of 2^64, the unreduced mixing does not return zero. */
  lemma UnreducedReturns()
    ensures Mix(Triple(0, 0, 0x1_0000_0000_0000_0000)).c == 0xCF62_2459_4AC3_A8E1
  {
    FirstUnreduced();
    FirstRound();
    SecondRound();
    ThirdRound();
    FourthRound();
    MixAfterFirst(Triple(0, 0, MODULUS));
    hide Mix;
    hide Round;
    hide WordRound;
    hide AfterFirst;
    hide WordStep;
  }

  lemma MixAfterFirst(t: Triple)
    ensures Mix(t) == Rest(Round(t, 43, 9, 8))
  {
    RoundIsWordRound(t, 43, 9, 8);
    RestIsWord(Round(t, 43, 9, 8));
    hide Round;
    hide Rest;
  }

  /** The overflow shows as bit 21 of what the first step is combined with. */
  lemma FirstUnreduced()
    ensures Round(Triple(0, 0, MODULUS), 43, 9, 8) == AfterFirst(WordStep(0, 0, 0, 0x20_0000), 0, 0, 9, 8)
  {
    hide *;
    RoundIsWordRound(Triple(0, 0, MODULUS), 43, 9, 8);
    SmallWords();
    ShiftedModulus();
  }

  lemma SmallWords()
    ensures Word(0) == 0 && Word(MODULUS) == 0 && Word(0x20_0000) == 0x20_0000
  {
    WordIs(0, 0, 0);
    WordIs(MODULUS, 1, 0);
    WordIs(0x20_0000, 0, 0x20_0000);
  }

  lemma ShiftedModulus()
    ensures Shr(MODULUS, 43) == 0x20_0000
  {
    Powers();
    hide Pow2;
  }

  /** The word algorithm returns zero there. */
  lemma ReducedReturns()
    ensures WordMix(Triple(0, 0, 0)) == Triple(0, 0, 0)
  {
    ZeroStep();
    hide *;
    ZeroRound(43, 9, 8);
    ZeroRound(38, 23, 5);
    ZeroRound(35, 49, 11);
    ZeroRound(12, 18, 22);
    MixOfRounds(Triple(0, 0, 0));
  }

  lemma MixOfRounds(t: Triple)
    ensures WordMix(t) == WordRound(WordRound(WordRound(WordRound(t, 43, 9, 8), 38, 23, 5), 35, 49, 11), 12, 18, 22)
  {
    hide WordRound;
  }

  lemma ZeroStep()
    ensures WordStep(0, 0, 0, 0) == 0
  {
    WordIs(0, 0, 0);
    XorZero();
    hide Word;
    hide Xor;
  }

  lemma ZeroRound(k1: nat, k2: nat, k3: nat)
    requires WordStep(0, 0, 0, 0) == 0
    ensures WordRound(Triple(0, 0, 0), k1, k2, k3) == Triple(0, 0, 0)
  {
    hide *;
    SmallWords();
    ZeroShifts(k1);
    ZeroShifts(k2);
    ZeroShifts(k3);
    RoundOf(Triple(0, 0, 0), k1, k2, k3, 0, 0);
  }

  lemma RoundOf(t: Triple, k1: nat, k2: nat, k3: nat, a: int, b: int)
    requires a == WordStep(t.a, t.b, t.c, Shr(t.c, k1)) && b == WordStep(t.b, t.c, a, Word(Shl(a, k2)))
    ensures WordRound(t, k1, k2, k3) == Triple(a, b, WordStep(t.c, a, b, Shr(b, k3)))
  {
    hide WordStep;
    hide Word;
    hide Shl;
    hide Shr;
  }

  lemma ZeroShifts(k: nat)
    ensures Shr(0, k) == 0 && Shl(0, k) == 0
  {
    ModUnique(0, Pow2(k), 0, 0);
  }

  /**
    For every level there are 24 bytes whose hash, as the code returns it, is not
    the published one, which is 0: adding their length overflows the third word.
   */
  lemma SomeHashDiffers(level: int) returns (blob: seq<Byte>)
    ensures |blob| == 24
    ensures var t := FullBlocks(Start(level), blob);
            && t.c + |blob| >= Pow2(64)
            && Mix(t.(c := t.c + |blob|)).c == 0xCF62_2459_4AC3_A8E1
            && Reference(Start(level), blob, |blob|).c == 0
  {
    Pow2Modulus();
    var u := Triple(0, 0, MODULUS - 24);
    GoldenIsWord();
    hide Mix;
    hide WordMix;
    hide Pow2;
    StartIsWords(level);
    blob := EveryStateReached(level, u);
    ReferenceAfterBlocks(Start(level), blob, |blob|);
    WordIs(MODULUS, 1, 0);
    WordIs(0, 0, 0);
    UnreducedReturns();
    ReducedReturns();
  }

  lemma StartIsWords(level: int)
    ensures Words(Start(level))
  {
    GoldenIsWord();
  }
}
