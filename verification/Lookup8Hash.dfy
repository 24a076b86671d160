/**
  The hash of a byte string: 24-byte blocks and the padded tail
  (pwndbg/aglib/macho.py:186-257).
 */
module Lookup8Hash {
  import opened PyBits
  import opened Lookup8

  const GOLDEN: nat := 0x9E37_79B9_7F4A_7C13

  /** Eight bytes, least significant first. */
  function Bytes8(bs: seq<Byte>, at: nat): nat
    requires at + 8 <= |bs|
  {
    var v := (i: nat) requires at + i < |bs| => bs[at + i] as nat;
    v(0) + v(1) * 0x100 + v(2) * 0x1_0000 + v(3) * 0x100_0000
    + v(4) * 0x1_0000_0000 + v(5) * 0x100_0000_0000
    + v(6) * 0x1_0000_0000_0000 + v(7) * 0x100_0000_0000_0000
  }

  // ----- The algorithm on words, as published -----

  function AddBlock(t: Triple, block: seq<Byte>): Triple
    requires |block| == 24
  {
    Triple(Word(t.a + Bytes8(block, 0)), Word(t.b + Bytes8(block, 8)), Word(t.c + Bytes8(block, 16)))
  }

  /** The last bytes, zero-padded; the lowest byte of c is kept for the length. */
  function TailBlock(rest: seq<Byte>): (block: seq<Byte>)
    requires |rest| < 24
    ensures |block| == 24
  {
    seq(24, i requires 0 <= i < 24 =>
      if i < 16 then (if i < |rest| then rest[i] else 0)
      else if i == 16 then 0
      else if i - 1 < |rest| then rest[i - 1] else 0)
  }

  /** Mix the full blocks, then the tail together with the length. */
  function Reference(t: Triple, rest: seq<Byte>, len: nat): Triple
    decreases |rest|
  {
    if |rest| >= 24 then Reference(WordMix(AddBlock(t, rest[..24])), rest[24..], len)
    else WordMix(AddBlock(t.(c := Word(t.c + len)), TailBlock(rest)))
  }

  /** The state after the full blocks. */
  function FullBlocks(t: Triple, rest: seq<Byte>): Triple
    decreases |rest|
  {
    if |rest| >= 24 then FullBlocks(WordMix(AddBlock(t, rest[..24])), rest[24..]) else t
  }

  function Start(level: int): Triple {
    Triple(Word(level), Word(level), GOLDEN)
  }

  // ----- The Python loop -----

  lemma AddBlockLow(t: Triple, block: seq<Byte>)
    requires |block| == 24
    ensures AddBlock(t, block) == AddBlock(Triple(Word(t.a), Word(t.b), Word(t.c)), block)
    ensures Words(AddBlock(t, block))
  {
    AddLow(t.a, Bytes8(block, 0));
    AddLow(t.b, Bytes8(block, 8));
    AddLow(t.c, Bytes8(block, 16));
  }

  lemma AddLow(x: int, y: int)
    ensures Word(Word(x) + y) == Word(x + y)
  {
    var m := WordOffset(x);
    hide Word;
    hide Pow2;
    assert Word(x) + y == x + y + Pow2(64) * m;
    WordShift(x + y, m);
  }

  /** Extending with zeros and inserting one at index 16 makes the reference's tail. */
  lemma PaddedIsTail(rest: seq<Byte>)
    requires |rest| < 24
    ensures var e := rest + seq(23 - |rest|, _ => 0); e[..16] + [0] + e[16..] == TailBlock(rest)
  {
  }

  lemma MixLow(a: int, b: int, c: int)
    ensures Mix(Triple(a, b, c)) == Mix(Triple(Word(a), Word(b), c))
  {
    RoundIsWordRound(Triple(a, b, c), 43, 9, 8);
    RoundIsWordRound(Triple(Word(a), Word(b), c), 43, 9, 8);
    WordOfWord(Word(a));
    WordOfWord(Word(b));
  }

  method Hash(blob0: seq<Byte>, level: int) returns (h: int)
    ensures |blob0| % 24 != 0 ==>
              h == Reference(Triple(Word(level), Word(level), 0x9E37_79B9_7F4A_7C13), blob0, |blob0|).c
    ensures |blob0| % 24 == 0 ==>
              var t := FullBlocks(Triple(Word(level), Word(level), 0x9E37_79B9_7F4A_7C13), blob0);
              h == Mix(t.(c := t.c + |blob0|)).c
  {
    hide Mix;
    hide WordMix;
    hide Word;
    hide Bytes8;
    hide TailBlock;
    var blob := blob0;
    var a, b, c := level, level, GOLDEN;
    var padded := false;
    GoldenIsWord();
    while true
      invariant IsWord(c)
      invariant padded ==> blob == [] && |blob0| % 24 != 0 && Triple(a, b, c) == Reference(Start(level), blob0, |blob0|)
      invariant !padded ==> |blob| % 24 == |blob0| % 24
      invariant !padded ==> FullBlocks(Start(level), blob0) == FullBlocks(Triple(Word(a), Word(b), c), blob)
      invariant !padded ==> Reference(Start(level), blob0, |blob0|) == Reference(Triple(Word(a), Word(b), c), blob, |blob0|)
      decreases |blob|
    {
      if |blob| == 0 {
        if !padded {
          c := c + |blob0|;
          MixLow(a, b, c);
          a, b, c := Mix64(a, b, c);
        }
        break;
      }
      ghost var before := Triple(Word(a), Word(b), c);
      ghost var rest := blob;
      if |blob| < 24 {
        c := c + |blob0|;
        blob := blob + seq(23 - |blob|, _ => 0);
        blob := blob[..16] + [0] + blob[16..];
        PaddedIsTail(rest);
        padded := true;
      }
      assert blob[..24] == if |rest| < 24 then TailBlock(rest) else rest[..24];
      WordOfWord(before.c);
      ghost var sum := AddBlock(Triple(a, b, c), blob[..24]);
      AddBlockLow(Triple(a, b, c), blob[..24]);
      a := a + Bytes8(blob[..24], 0);
      b := b + Bytes8(blob[..24], 8);
      c := c + Bytes8(blob[..24], 16);
      a, b, c := Word(a), Word(b), Word(c);
      MixIsWordMix(sum);
      a, b, c := Mix64(a, b, c);
      WordsFixed(Triple(a, b, c));
      BlockStep(before, rest, sum, |blob0|);
      blob := blob[24..];
    }
    h := c;
  }

  lemma GoldenIsWord()
    ensures IsWord(GOLDEN)
  {
    Pow2Modulus();
  }

  lemma WordsFixed(t: Triple)
    requires Words(t)
    ensures Triple(Word(t.a), Word(t.b), Word(t.c)) == t
  {
    WordOfWord(t.a);
    WordOfWord(t.b);
    WordOfWord(t.c);
  }

  /** One turn of the loop against the reference. */
  lemma BlockStep(t: Triple, rest: seq<Byte>, sum: Triple, len: nat)
    requires rest != [] && Words(t)
    requires |rest| >= 24 ==> sum == AddBlock(t, rest[..24])
    requires |rest| < 24 ==> sum == AddBlock(t.(c := Word(t.c + len)), TailBlock(rest))
    ensures |rest| >= 24 ==> FullBlocks(t, rest) == FullBlocks(WordMix(sum), rest[24..])
    ensures |rest| >= 24 ==> Reference(t, rest, len) == Reference(WordMix(sum), rest[24..], len)
    ensures |rest| < 24 ==> Reference(t, rest, len) == WordMix(sum)
  {
    hide WordMix;
    hide AddBlock;
    hide Word;
    hide TailBlock;
  }

  // ----- When the length is a multiple of 24 -----

  lemma {:induction false} ReferenceAfterBlocks(t: Triple, blob: seq<Byte>, len: nat)
    requires Words(t) && |blob| % 24 == 0
    ensures var u := FullBlocks(t, blob);
            && Words(u)
            && Reference(t, blob, len) == WordMix(Triple(Word(u.a), Word(u.b), Word(u.c + len)))
    decreases |blob|
  {
    hide WordMix;
    hide Mix;
    hide AddBlock;
    hide Word;
    hide TailBlock;
    if |blob| >= 24 {
      AddBlockLow(t, blob[..24]);
      MixIsWordMix(AddBlock(t, blob[..24]));
      ReferenceAfterBlocks(WordMix(AddBlock(t, blob[..24])), blob[24..], len);
    } else {
      EmptyTail(t.(c := Word(t.c + len)));
      WordOfWord(Word(t.c + len));
    }
  }

  lemma EmptyTail(t: Triple)
    ensures AddBlock(t, TailBlock([])) == Triple(Word(t.a), Word(t.b), Word(t.c))
  {
    var z := TailBlock([]);
    assert forall i | 0 <= i < 24 :: z[i] == 0;
    assert Bytes8(z, 0) == 0 && Bytes8(z, 8) == 0 && Bytes8(z, 16) == 0;
  }

  /**
    For a length divisible by 24 the length is added without reduction: the final
    state is the reference's exactly when that addition does not overflow.
   */
  lemma WholeBlocksAgreeExactly(blob: seq<Byte>, level: int)
    requires |blob| % 24 == 0 && |blob| < Pow2(64)
    ensures var t := FullBlocks(Start(level), blob);
            Mix(t.(c := t.c + |blob|)) == Reference(Start(level), blob, |blob|) <==> t.c + |blob| < Pow2(64)
  {
    GoldenIsWord();
    hide WordMix;
    hide Mix;
    hide Word;
    hide FullBlocks;
    hide Reference;
    ReferenceAfterBlocks(Start(level), blob, |blob|);
    var t := FullBlocks(Start(level), blob);
    UnreducedMix(t.a, t.b, t.c + |blob|);
  }

  // ----- The words that are added -----

  /** The number that bytes stand for, least significant first. */
  function LittleEndian(s: seq<Byte>): nat {
    if s == [] then 0 else s[0] + 256 * LittleEndian(s[1..])
  }

  /** s[from:to], which ends where `s` ends. */
  function Part(s: seq<Byte>, from: nat, to: nat): (r: seq<Byte>)
    requires from <= to
    ensures |r| <= to - from
  {
    if |s| <= from then [] else if |s| <= to then s[from..] else s[from..to]
  }

  lemma LittleEndianNext(s: seq<Byte>, k: nat)
    requires k < |s|
    ensures LittleEndian(s[k..]) == s[k] + 256 * LittleEndian(s[k + 1..])
  {
    assert s[k..][1..] == s[k + 1..];
  }

  lemma Bytes8Is(bs: seq<Byte>, at: nat)
    requires at + 8 <= |bs|
    ensures Bytes8(bs, at) == LittleEndian(bs[at..at + 8])
  {
    var s := bs[at..at + 8];
    hide LittleEndian;
    LittleEndianNext(s, 0);
    LittleEndianNext(s, 1);
    LittleEndianNext(s, 2);
    LittleEndianNext(s, 3);
    LittleEndianNext(s, 4);
    LittleEndianNext(s, 5);
    LittleEndianNext(s, 6);
    LittleEndianNext(s, 7);
    LittleEndianNone(s[8..]);
    assert s[0..] == s;
  }

  lemma LittleEndianNone(s: seq<Byte>)
    requires s == []
    ensures LittleEndian(s) == 0
  {
  }

  /** Zeros at the end do not count. */
  lemma {:induction false} LittleEndianPadded(s: seq<Byte>, z: seq<Byte>)
    requires forall x | x in z :: x == 0
    ensures LittleEndian(s + z) == LittleEndian(s)
    decreases |s| + |z|
  {
    if s != [] {
      assert (s + z)[1..] == s[1..] + z;
      LittleEndianPadded(s[1..], z);
    } else if z != [] {
      assert z[0] in z && s + z == z && [] + z[1..] == z[1..];
      assert forall x | x in z[1..] :: x in z;
      LittleEndianPadded([], z[1..]);
    }
  }

  lemma TailWord(rest: seq<Byte>, at: nat)
    requires |rest| < 24 && (at == 0 || at == 8)
    ensures Bytes8(TailBlock(rest), at) == LittleEndian(Part(rest, at, at + 8))
  {
    var part := Part(rest, at, at + 8);
    var zeros: seq<Byte> := seq(8 - |part|, _ => 0);
    Bytes8Is(TailBlock(rest), at);
    LittleEndianPadded(part, zeros);
    assert TailBlock(rest)[at..at + 8] == part + zeros;
  }

  lemma TailLast(rest: seq<Byte>)
    requires |rest| < 24
    ensures Bytes8(TailBlock(rest), 16) == 256 * LittleEndian(Part(rest, 16, 24))
  {
    var part := Part(rest, 16, 24);
    var zeros: seq<Byte> := seq(7 - |part|, _ => 0);
    Bytes8Is(TailBlock(rest), 16);
    LittleEndianPadded(part, zeros);
    var word := [0] + (part + zeros);
    assert TailBlock(rest)[16..24] == word;
    assert word[1..] == part + zeros;
  }

  /**
    What each turn adds: three little-endian words of the block, and at the end
    the words of what is left, the third one shifted by a byte for the length.
   */
  lemma ReferenceAdds(t: Triple, rest: seq<Byte>, len: nat)
    ensures |rest| >= 24 ==>
              Reference(t, rest, len) ==
              Reference(WordMix(Triple(Word(t.a + LittleEndian(rest[..8])), Word(t.b + LittleEndian(rest[8..16])),
                                       Word(t.c + LittleEndian(rest[16..24])))), rest[24..], len)
    ensures |rest| < 24 ==>
              Reference(t, rest, len) ==
              WordMix(Triple(Word(t.a + LittleEndian(Part(rest, 0, 8))), Word(t.b + LittleEndian(Part(rest, 8, 16))),
                             Word(t.c + len + 256 * LittleEndian(Part(rest, 16, 24)))))
  {
    hide Word;
    hide WordMix;
    hide TailBlock;
    hide Bytes8;
    hide LittleEndian;
    if |rest| >= 24 {
      Bytes8Is(rest[..24], 0);
      Bytes8Is(rest[..24], 8);
      Bytes8Is(rest[..24], 16);
      assert rest[..24][0..8] == rest[..8] && rest[..24][8..16] == rest[8..16] && rest[..24][16..24] == rest[16..24];
    } else {
      TailWord(rest, 0);
      TailWord(rest, 8);
      TailLast(rest);
      AddLow(t.c + len, Bytes8(TailBlock(rest), 16));
    }
  }
}
