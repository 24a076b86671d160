/**
  The 64-bit hash of the shared cache's hash sets, written with unbounded
  integers (pwndbg/aglib/macho.py:186-327), against the same algorithm on
  64-bit words.
 */
module Lookup8 {
  import opened PyBits

  type Byte = x: nat | x < 256

  const MODULUS: nat := 0x1_0000_0000_0000_0000

  lemma Squared(k: nat, v: nat, n: nat)
    requires Pow2(k) == v && n == k + k
    ensures Pow2(n) == v * v
  {
    Pow2Add(k, k);
  }

  lemma Pow2Modulus()
    ensures Pow2(64) == MODULUS && Pow2(43) == 0x800_0000_0000 && Pow2(21) == 0x20_0000
  {
    Pow2Small();
    hide Pow2;
    Squared(4, 16, 8);
    Squared(8, 0x100, 16);
    Squared(16, 0x1_0000, 32);
    Squared(32, 0x1_0000_0000, 64);
    Pow2Add(16, 5);
    Pow2Add(32, 8);
    Pow2Add(40, 3);
    assert 0x1_0000 * 32 == 0x20_0000;
    assert 0x1_0000_0000 * 0x100 * 8 == 0x800_0000_0000;
  }

  lemma Pow2Small()
    ensures Pow2(3) == 8 && Pow2(4) == 16 && Pow2(5) == 32
  {
    assert Pow2(0) == 1;
    assert Pow2(1) == 2 * Pow2(0);
    assert Pow2(2) == 2 * Pow2(1);
    assert Pow2(3) == 2 * Pow2(2);
    assert Pow2(4) == 2 * Pow2(3);
    assert Pow2(5) == 2 * Pow2(4);
  }

  datatype Triple = Triple(a: int, b: int, c: int)

  // ----- Words -----

  predicate IsWord(x: int) { 0 <= x < Pow2(64) }

  ghost predicate Words(t: Triple) { IsWord(t.a) && IsWord(t.b) && IsWord(t.c) }

  function Word(x: int): (r: nat)
    ensures r < Pow2(64)
  {
    Low(x, 64)
  }

  /** Subtract, subtract, xor on words: one step of the reference. */
  function WordStep(x: int, y: int, z: int, s: int): (r: int)
    ensures IsWord(r)
  {
    Word(Xor(Word(x - y - z), Word(s)))
  }

  function WordRound(t: Triple, k1: nat, k2: nat, k3: nat): Triple {
    var a := WordStep(t.a, t.b, t.c, Shr(t.c, k1));
    var b := WordStep(t.b, t.c, a, Word(Shl(a, k2)));
    var c := WordStep(t.c, a, b, Shr(b, k3));
    Triple(a, b, c)
  }

  function WordMix(t: Triple): Triple {
    WordRound(WordRound(WordRound(WordRound(t, 43, 9, 8), 38, 23, 5), 35, 49, 11), 12, 18, 22)
  }

  // ----- The Python code -----

  /** x -= y; x -= z; x ^= s; x %= 2^64 */
  function Step(x: int, y: int, z: int, s: int): (r: int)
    ensures IsWord(r)
  {
    Word(Xor(x - y - z, s))
  }

  function Round(t: Triple, k1: nat, k2: nat, k3: nat): Triple {
    var a := Step(t.a, t.b, t.c, Shr(t.c, k1));
    var b := Step(t.b, t.c, a, Shl(a, k2));
    var c := Step(t.c, a, b, Shr(b, k3));
    Triple(a, b, c)
  }

  function Mix(t: Triple): Triple {
    Round(Round(Round(Round(t, 43, 9, 8), 38, 23, 5), 35, 49, 11), 12, 18, 22)
  }

  method Mix64(a0: int, b0: int, c0: int) returns (a: int, b: int, c: int)
    ensures Triple(a, b, c) == Mix(Triple(a0, b0, c0))
  {
    hide Xor;
    hide Word;
    hide Shl;
    hide Shr;
    a, b, c := a0, b0, c0;
    ghost var t := Triple(a, b, c);

    a := a - b;  a := a - c;  a := Xor(a, Shr(c, 43));  a := Word(a);
    b := b - c;  b := b - a;  b := Xor(b, Shl(a, 9));  b := Word(b);
    c := c - a;  c := c - b;  c := Xor(c, Shr(b, 8));  c := Word(c);
    assert Triple(a, b, c) == Round(t, 43, 9, 8);
    t := Triple(a, b, c);

    a := a - b;  a := a - c;  a := Xor(a, Shr(c, 38));  a := Word(a);
    b := b - c;  b := b - a;  b := Xor(b, Shl(a, 23));  b := Word(b);
    c := c - a;  c := c - b;  c := Xor(c, Shr(b, 5));  c := Word(c);
    assert Triple(a, b, c) == Round(t, 38, 23, 5);
    t := Triple(a, b, c);

    a := a - b;  a := a - c;  a := Xor(a, Shr(c, 35));  a := Word(a);
    b := b - c;  b := b - a;  b := Xor(b, Shl(a, 49));  b := Word(b);
    c := c - a;  c := c - b;  c := Xor(c, Shr(b, 11));  c := Word(c);
    assert Triple(a, b, c) == Round(t, 35, 49, 11);
    t := Triple(a, b, c);

    a := a - b;  a := a - c;  a := Xor(a, Shr(c, 12));  a := Word(a);
    b := b - c;  b := b - a;  b := Xor(b, Shl(a, 18));  b := Word(b);
    c := c - a;  c := c - b;  c := Xor(c, Shr(b, 22));  c := Word(c);
    assert Triple(a, b, c) == Round(t, 12, 18, 22);
    t := Triple(a, b, c);
  }

  // ----- Late reduction is word arithmetic -----

  lemma WordOfWord(x: int)
    requires IsWord(x)
    ensures Word(x) == x
  {
    ModUnique(x, Pow2(64), 0, x);
  }

  lemma WordShift(x: int, m: int)
    ensures Word(x + Pow2(64) * m) == Word(x)
  {
    hide Pow2;
    ShiftMod(x, m, Pow2(64));
  }

  lemma ShiftMod(x: int, m: int, p: nat)
    requires p > 0
    ensures (x + p * m) % p == x % p
  {
    assert x == p * (x / p) + x % p;
    ModUnique(x + p * m, p, x / p + m, x % p);
  }

  /** Subtraction of words and of what they stand for agree in the low bits. */
  lemma WordSub(x: int, y: int, z: int)
    ensures Word(x - y - z) == Word(Word(x) - Word(y) - Word(z))
  {
    var p := Pow2(64);
    var m := -(x / p) + y / p + z / p;
    assert Word(x) - Word(y) - Word(z) == x - y - z + p * m;
    WordShift(x - y - z, m);
  }

  lemma StepIsWordStep(x: int, y: int, z: int, s: int)
    ensures Step(x, y, z, s) == WordStep(Word(x), Word(y), Word(z), Word(s))
  {
    hide Pow2;
    hide Xor;
    hide IsWord;
    XorLow(x - y - z, s, 64);
    WordSub(x, y, z);
    var low := Xor(Word(x - y - z), Word(s));
    assert Word(Xor(x - y - z, s)) == low;
    WordOfWord(low);
    WordOfWord(Word(s));
  }

  lemma DivShrinks(x: nat, p: nat)
    requires p >= 1
    ensures 0 <= x / p <= x
  {
    var q := x / p;
    assert x == p * q + x % p;
    Product(p - 1, q);
    assert p * q == (p - 1) * q + q;
  }

  lemma ShrIsWord(x: int, k: nat)
    requires IsWord(x)
    ensures IsWord(Shr(x, k))
  {
    DivShrinks(x, Pow2(k));
  }

  /** All of a round after the first step, which is where an unreduced c is still seen. */
  function AfterFirst(a: int, b: int, c: int, k2: nat, k3: nat): Triple {
    var b' := WordStep(b, c, a, Word(Shl(a, k2)));
    Triple(a, b', WordStep(c, a, b', Shr(b', k3)))
  }

  lemma RoundIsWordRound(t: Triple, k1: nat, k2: nat, k3: nat)
    ensures Round(t, k1, k2, k3)
         == AfterFirst(WordStep(Word(t.a), Word(t.b), Word(t.c), Word(Shr(t.c, k1))), Word(t.b), Word(t.c), k2, k3)
    ensures Words(Round(t, k1, k2, k3))
    ensures Words(t) ==> Round(t, k1, k2, k3) == WordRound(t, k1, k2, k3)
  {
    var a := Step(t.a, t.b, t.c, Shr(t.c, k1));
    var b := Step(t.b, t.c, a, Shl(a, k2));
    StepIsWordStep(t.a, t.b, t.c, Shr(t.c, k1));
    StepIsWordStep(t.b, t.c, a, Shl(a, k2));
    StepIsWordStep(t.c, a, b, Shr(b, k3));
    WordOfWord(a);
    WordOfWord(b);
    ShrIsWord(b, k3);
    WordOfWord(Shr(b, k3));
    if Words(t) {
      WordOfWord(t.a);
      WordOfWord(t.b);
      WordOfWord(t.c);
      ShrIsWord(t.c, k1);
      WordOfWord(Shr(t.c, k1));
    }
  }

  /** On words, mixing with unbounded integers reduced late is mixing with 64-bit words. */
  lemma MixIsWordMix(t: Triple)
    requires Words(t)
    ensures Mix(t) == WordMix(t) && Words(Mix(t))
  {
    hide Round;
    hide WordRound;
    RoundIsWordRound(t, 43, 9, 8);
    var t1 := Round(t, 43, 9, 8);
    RoundIsWordRound(t1, 38, 23, 5);
    var t2 := Round(t1, 38, 23, 5);
    RoundIsWordRound(t2, 35, 49, 11);
    RoundIsWordRound(Round(t2, 35, 49, 11), 12, 18, 22);
  }

  // ----- Mixing is reversible -----

  function UnStep(r: int, y: int, z: int, s: int): (x: int)
    ensures IsWord(x)
  {
    Word(Xor(r, s) + y + z)
  }

  function UnRound(t: Triple, k1: nat, k2: nat, k3: nat): Triple {
    var c := UnStep(t.c, t.a, t.b, Shr(t.b, k3));
    var b := UnStep(t.b, c, t.a, Word(Shl(t.a, k2)));
    Triple(UnStep(t.a, b, c, Shr(c, k1)), b, c)
  }

  function UnMix(t: Triple): Triple {
    UnRound(UnRound(UnRound(UnRound(t, 12, 18, 22), 35, 49, 11), 38, 23, 5), 43, 9, 8)
  }

  lemma XorWord(x: int, y: int)
    requires IsWord(x) && IsWord(y)
    ensures IsWord(Xor(x, y))
  {
    XorLow(x, y, 64);
    WordOfWord(x);
    WordOfWord(y);
  }

  lemma WordOffset(x: int) returns (m: int)
    ensures Word(x) == x + Pow2(64) * m
  {
    hide Pow2;
    m := OffsetMod(x, Pow2(64));
  }

  lemma OffsetMod(x: int, p: nat) returns (m: int)
    requires p > 0
    ensures x % p == x + p * m
  {
    m := -(x / p);
  }

  lemma StepUndone(x: int, y: int, z: int, s: int)
    requires IsWord(x) && IsWord(s)
    ensures UnStep(WordStep(x, y, z, s), y, z, s) == x
    ensures WordStep(UnStep(x, y, z, s), y, z, s) == x
  {
    WordOfWord(s);
    WordOfWord(x);
    UndoAfterDo(x, y, z, s);
    DoAfterUndo(x, y, z, s);
  }

  lemma UndoAfterDo(x: int, y: int, z: int, s: int)
    requires IsWord(x) && IsWord(s) && Word(s) == s && Word(x) == x
    ensures UnStep(WordStep(x, y, z, s), y, z, s) == x
  {
    var d := Word(x - y - z);
    XorWord(d, s);
    WordOfWord(Xor(d, s));
    XorCancel(d, s);
    assert UnStep(WordStep(x, y, z, s), y, z, s) == Word(d + y + z) by {
      hide Word;
      hide Xor;
      hide Pow2;
    }
    DifferenceBack(x, y, z);
  }

  lemma DifferenceBack(x: int, y: int, z: int)
    ensures Word(Word(x - y - z) + y + z) == Word(x)
  {
    var m := WordOffset(x - y - z);
    hide Word;
    hide Pow2;
    assert Word(x - y - z) + y + z == x + Pow2(64) * m;
    WordShift(x, m);
  }

  lemma DoAfterUndo(x: int, y: int, z: int, s: int)
    requires IsWord(x) && IsWord(s) && Word(s) == s && Word(x) == x
    ensures WordStep(UnStep(x, y, z, s), y, z, s) == x
  {
    hide Word;
    hide Xor;
    hide Pow2;
    hide IsWord;
    var e := Xor(x, s);
    XorWord(x, s);
    WordOfWord(e);
    XorCancel(x, s);
    var m := WordOffset(e + y + z);
    assert UnStep(x, y, z, s) - y - z == e + Pow2(64) * m;
    WordShift(e, m);
  }

  lemma RoundUndone(t: Triple, k1: nat, k2: nat, k3: nat)
    requires Words(t)
    ensures Words(WordRound(t, k1, k2, k3)) && Words(UnRound(t, k1, k2, k3))
    ensures UnRound(WordRound(t, k1, k2, k3), k1, k2, k3) == t
    ensures WordRound(UnRound(t, k1, k2, k3), k1, k2, k3) == t
  {
    var r := WordRound(t, k1, k2, k3);
    ShrIsWord(r.b, k3);
    StepUndone(t.c, r.a, r.b, Shr(r.b, k3));
    StepUndone(t.b, t.c, r.a, Word(Shl(r.a, k2)));
    ShrIsWord(t.c, k1);
    StepUndone(t.a, t.b, t.c, Shr(t.c, k1));

    var u := UnRound(t, k1, k2, k3);
    ShrIsWord(t.b, k3);
    StepUndone(t.c, t.a, t.b, Shr(t.b, k3));
    StepUndone(t.b, u.c, t.a, Word(Shl(t.a, k2)));
    ShrIsWord(u.c, k1);
    StepUndone(t.a, u.b, u.c, Shr(u.c, k1));
  }

  /** The mixing is a bijection on triples of words; `UnMix` is its inverse. */
  lemma MixIsReversible(t: Triple)
    requires Words(t)
    ensures Words(UnMix(t)) && UnMix(Mix(t)) == t && Mix(UnMix(t)) == t
  {
    hide WordRound;
    hide UnRound;
    MixIsWordMix(t);
    var t1 := WordRound(t, 43, 9, 8);
    var t2 := WordRound(t1, 38, 23, 5);
    var t3 := WordRound(t2, 35, 49, 11);
    RoundUndone(t, 43, 9, 8);
    RoundUndone(t1, 38, 23, 5);
    RoundUndone(t2, 35, 49, 11);
    RoundUndone(t3, 12, 18, 22);
    var u1 := UnRound(t, 12, 18, 22);
    var u2 := UnRound(u1, 35, 49, 11);
    var u3 := UnRound(u2, 38, 23, 5);
    RoundUndone(t, 12, 18, 22);
    RoundUndone(u1, 35, 49, 11);
    RoundUndone(u2, 38, 23, 5);
    RoundUndone(u3, 43, 9, 8);
    MixIsWordMix(UnMix(t));
  }

  // ----- Where an unreduced c shows -----

  /**
    With c not reduced beforehand, as after adding the length on line 199, the
    mixed triple is the word result exactly when c did not overflow.
   */
  lemma UnreducedMix(a: int, b: int, c: nat)
    requires c < 2 * Pow2(64)
    ensures Mix(Triple(a, b, c)) == WordMix(Triple(Word(a), Word(b), Word(c))) <==> c < Pow2(64)
  {
    hide Round;
    hide WordRound;
    hide WordStep;
    hide AfterFirst;
    var t := Triple(a, b, c);
    var w := Triple(Word(a), Word(b), Word(c));
    var m1, w1 := Round(t, 43, 9, 8), WordRound(w, 43, 9, 8);
    RoundIsWordRound(t, 43, 9, 8);
    RoundUndone(w, 43, 9, 8);
    RestIsWord(m1);
    FirstRoundDiffers(a, b, c);
    if m1 != w1 {
      RestInjective(m1, w1);
    }
  }

  function Rest(t: Triple): Triple {
    WordRound(WordRound(WordRound(t, 38, 23, 5), 35, 49, 11), 12, 18, 22)
  }

  lemma RestIsWord(t: Triple)
    requires Words(t)
    ensures Round(Round(Round(t, 38, 23, 5), 35, 49, 11), 12, 18, 22) == Rest(t)
  {
    hide Round;
    hide WordRound;
    RoundIsWordRound(t, 38, 23, 5);
    var t2 := Round(t, 38, 23, 5);
    RoundIsWordRound(t2, 35, 49, 11);
    RoundIsWordRound(Round(t2, 35, 49, 11), 12, 18, 22);
  }

  lemma RestInjective(t: Triple, u: Triple)
    requires Words(t) && Words(u) && t != u
    ensures Rest(t) != Rest(u)
  {
    hide WordRound;
    hide UnRound;
    RoundUndone(t, 38, 23, 5);
    RoundUndone(u, 38, 23, 5);
    var t2, u2 := WordRound(t, 38, 23, 5), WordRound(u, 38, 23, 5);
    RoundUndone(t2, 35, 49, 11);
    RoundUndone(u2, 35, 49, 11);
    RoundUndone(WordRound(t2, 35, 49, 11), 12, 18, 22);
    RoundUndone(WordRound(u2, 35, 49, 11), 12, 18, 22);
  }

  lemma FirstRoundDiffers(a: int, b: int, c: nat)
    requires c < 2 * Pow2(64)
    ensures Round(Triple(a, b, c), 43, 9, 8) == WordRound(Triple(Word(a), Word(b), Word(c)), 43, 9, 8) <==> c < Pow2(64)
  {
    var w := Triple(Word(a), Word(b), Word(c));
    RoundIsWordRound(Triple(a, b, c), 43, 9, 8);
    if c < Pow2(64) {
      WordOfWord(c);
      ShrIsWord(c, 43);
      WordOfWord(Shr(c, 43));
    } else {
      OverflowShows(c);
      ShrIsWord(w.c, 43);
      var s, s' := Word(Shr(c, 43)), Shr(w.c, 43);
      hide Word;
      hide WordStep;
      StepDiffers(w.a, w.b, w.c, s, s');
    }
  }

  lemma StepDiffers(x: int, y: int, z: int, s: int, s': int)
    requires IsWord(x) && IsWord(s) && IsWord(s') && s != s'
    ensures WordStep(x, y, z, s) != WordStep(x, y, z, s')
  {
    var d := Word(x - y - z);
    WordOfWord(s);
    WordOfWord(s');
    XorWord(d, s);
    XorWord(d, s');
    WordOfWord(Xor(d, s));
    WordOfWord(Xor(d, s'));
    XorCommutes(d, s);
    XorCommutes(d, s');
    XorCancel(s, d);
    XorCancel(s', d);
  }

  lemma {:induction false} XorCommutes(x: int, y: int)
    ensures Xor(x, y) == Xor(y, x)
    decreases Abs(x) + Abs(y)
  {
    if !(x in {0, -1} && y in {0, -1}) {
      XorCommutes(x / 2, y / 2);
    }
  }

  lemma OverflowShows(c: nat)
    requires Pow2(64) <= c < 2 * Pow2(64)
    ensures Word(Shr(c, 43)) != Shr(Word(c), 43)
  {
    Pow2Modulus();
    var l := c - Pow2(64);
    ModUnique(c, Pow2(64), 1, l);
    var q, r := l / Pow2(43), l % Pow2(43);
    ModUnique(c, Pow2(43), q + Pow2(21), r);
    WordOfWord(q + Pow2(21));
  }
}
