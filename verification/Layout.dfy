/**
  Two struct layout algorithms: compute_offsets for Go types
  (pwndbg/aglib/godbg.py:96-119) and the constructor of CStruct
  (pwndbg/aglib/dynamic.py:746-782).
 */
module Layout {
  import PyBits

  type Pos = n: int | 1 <= n witness 1

  /** A field's size and alignment, and the name by which CStruct knows it. */
  datatype Field = Field(name: string, size: nat, align: Pos)

  /** _align */
  function Align(offset: int, n: Pos): int {
    var ret := offset + n - 1;
    ret - ret % n
  }

  /** The padding of CStruct. */
  function Pad(offset: nat, n: Pos): nat {
    if offset % n != 0 then offset + (n - offset % n) else offset
  }

  function Max(a: Pos, b: Pos): Pos { if a < b then b else a }

  function MaxAlign(fields: seq<Field>): (m: Pos)
    ensures forall f | f in fields :: f.align <= m
  {
    if fields == [] then 1 else Max(MaxAlign(fields[..|fields| - 1]), fields[|fields| - 1].align)
  }

  /** Where the last field ends. */
  function End(fields: seq<Field>): (end: nat) {
    if fields == [] then 0
    else AlignNat(End(fields[..|fields| - 1]), fields[|fields| - 1].align) + fields[|fields| - 1].size
  }

  /** The offset of a field placed after `fields`. */
  function Next(fields: seq<Field>, f: Field): nat { AlignNat(End(fields), f.align) }

  function AlignNat(offset: nat, n: Pos): (r: nat)
    ensures r == Align(offset, n)
  {
    AlignLeast(offset, n);
    Align(offset, n)
  }

  function FieldOffsets(fields: seq<Field>): (r: seq<nat>)
    ensures |r| == |fields|
  {
    if fields == [] then []
    else FieldOffsets(fields[..|fields| - 1]) + [Next(fields[..|fields| - 1], fields[|fields| - 1])]
  }

  function Size(fields: seq<Field>): nat { AlignNat(End(fields), MaxAlign(fields)) }

  /** The result of compute_offsets: every field's offset, then the size. */
  function Offsets(fields: seq<Field>): seq<nat> { FieldOffsets(fields) + [Size(fields)] }

  method ComputeOffsets(fields: seq<Field>) returns (ret: seq<nat>)
    ensures ret == Offsets(fields)
  {
    hide Align;
    var cur: nat := 0;
    var maxAlign: Pos := 1;
    ret := [];
    for i := 0 to |fields|
      invariant cur == End(fields[..i]) && ret == FieldOffsets(fields[..i]) && maxAlign == MaxAlign(fields[..i])
    {
      var f := fields[i];
      assert fields[..i + 1][..i] == fields[..i];
      cur := AlignNat(cur, f.align);
      ret := ret + [cur];
      cur := cur + f.size;
      maxAlign := Max(maxAlign, f.align);
    }
    assert fields[..|fields|] == fields;
    cur := AlignNat(cur, maxAlign);
    ret := ret + [cur];
  }

  // ----- Divisibility -----

  predicate Divides(n: Pos, x: int) { x % n == 0 }

  lemma DividesMeans(n: Pos, x: int, q: int)
    requires x == n * q
    ensures Divides(n, x)
  {
    PyBits.ModUnique(x, n, q, 0);
  }

  lemma DividesSum(n: Pos, x: int, y: int)
    requires Divides(n, x)
    ensures Divides(n, x + y) <==> Divides(n, y)
  {
    var q, p, r := x / n, y / n, y % n;
    assert x + y == n * (q + p) + r;
    PyBits.ModUnique(x + y, n, q + p, r);
  }

  lemma DividesProduct(n: Pos, x: int, k: int)
    requires Divides(n, x)
    ensures Divides(n, k * x)
  {
    var q := x / n;
    assert x == n * q;
    assert k * x == n * (k * q);
    DividesMeans(n, k * x, k * q);
  }

  lemma DividesTrans(n: Pos, m: Pos, x: int)
    requires Divides(n, m) && Divides(m, x)
    ensures Divides(n, x)
  {
    var q := x / m;
    assert x == q * m;
    DividesProduct(n, m, q);
  }

  /** `_align` gives the least multiple that is not below the offset. */
  lemma AlignLeast(offset: int, n: Pos)
    ensures var r := Align(offset, n); Divides(n, r) && offset <= r < offset + n
    ensures forall m | Divides(n, m) && m >= offset :: Align(offset, n) <= m
  {
    var ret := offset + n - 1;
    var r := Align(offset, n);
    var q := ret / n;
    assert r == n * q;
    DividesMeans(n, r, q);
    forall m | Divides(n, m) && m >= offset ensures r <= m {
      var p := m / n;
      assert m == n * p;
      if p < q {
        Below(n, p, q);
      }
    }
  }

  lemma Below(n: Pos, p: int, q: int)
    requires p < q
    ensures n * p + n <= n * q
  {
    PyBits.Product(n, q - p - 1);
    assert n * q == n * p + n + n * (q - p - 1);
  }

  /** CStruct's padding is the same rounding. */
  lemma PadIsAlign(offset: nat, n: Pos)
    ensures Pad(offset, n) == Align(offset, n)
  {
    var q, r := offset / n, offset % n;
    assert offset == n * q + r;
    var ret := offset + n - 1;
    if r == 0 {
      PyBits.ModUnique(ret, n, q, n - 1);
    } else {
      assert ret == n * (q + 1) + (r - 1) by {
        assert n * (q + 1) == n * q + n;
      }
      PyBits.ModUnique(ret, n, q + 1, r - 1);
    }
  }

  // ----- The least layout -----

  /** Offsets that keep the fields in order, aligned and apart. */
  ghost predicate IsLayout(fields: seq<Field>, offs: seq<nat>) {
    && |offs| == |fields|
    && (forall i | 0 <= i < |fields| :: Divides(fields[i].align, offs[i]))
    && (forall i | 0 <= i < |fields| - 1 :: offs[i] + fields[i].size <= offs[i + 1])
  }

  function EndOf(fields: seq<Field>, offs: seq<nat>): nat
    requires |offs| == |fields|
  {
    if fields == [] then 0 else offs[|offs| - 1] + fields[|fields| - 1].size
  }

  lemma LayoutFront(fields: seq<Field>, offs: seq<nat>)
    requires IsLayout(fields, offs) && fields != []
    ensures var n := |fields| - 1;
            && IsLayout(fields[..n], offs[..n]) && Divides(fields[n].align, offs[n])
            && EndOf(fields[..n], offs[..n]) <= offs[n]
  {
    hide Divides;
  }

  lemma LayoutBack(fields: seq<Field>, offs: seq<nat>)
    requires fields != [] && |offs| == |fields|
    requires var n := |fields| - 1;
             && IsLayout(fields[..n], offs[..n]) && Divides(fields[n].align, offs[n])
             && EndOf(fields[..n], offs[..n]) <= offs[n]
    ensures IsLayout(fields, offs)
  {
    hide Divides;
    var n := |fields| - 1;
    assert forall i | 0 <= i < n :: offs[..n][i] == offs[i] && fields[..n][i] == fields[i];
  }

  lemma OffsetsStep(fields: seq<Field>)
    requires fields != []
    ensures var n := |fields| - 1;
            && FieldOffsets(fields)[..n] == FieldOffsets(fields[..n])
            && FieldOffsets(fields)[n] == Align(End(fields[..n]), fields[n].align)
            && End(fields) == FieldOffsets(fields)[n] + fields[n].size
  {
    hide Align;
  }

  lemma {:induction false} LayoutExists(fields: seq<Field>)
    ensures IsLayout(fields, FieldOffsets(fields))
    ensures EndOf(fields, FieldOffsets(fields)) == End(fields)
    decreases |fields|
  {
    if fields != [] {
      var n := |fields| - 1;
      LayoutExists(fields[..n]);
      OffsetsStep(fields);
      AlignLeast(End(fields[..n]), fields[n].align);
      hide FieldOffsets;
      hide End;
      hide Align;
      hide IsLayout;
      hide Divides;
      LayoutBack(fields, FieldOffsets(fields));
    }
  }

  /** No layout puts any field lower than compute_offsets does, or ends earlier. */
  lemma {:induction false} LeastLayout(fields: seq<Field>, offs: seq<nat>)
    requires IsLayout(fields, offs)
    ensures forall i | 0 <= i < |fields| :: FieldOffsets(fields)[i] <= offs[i]
    ensures End(fields) <= EndOf(fields, offs)
    decreases |fields|
  {
    if fields != [] {
      var n := |fields| - 1;
      LayoutFront(fields, offs);
      LeastLayout(fields[..n], offs[..n]);
      OffsetsStep(fields);
      AlignLeast(End(fields[..n]), fields[n].align);
      hide *;
      forall i | 0 <= i < |fields| ensures FieldOffsets(fields)[i] <= offs[i] {
        assert i < n ==> FieldOffsets(fields)[i] == FieldOffsets(fields)[..n][i] && offs[i] == offs[..n][i];
      }
      EndOfLast(fields, offs);
    }
  }

  lemma EndOfLast(fields: seq<Field>, offs: seq<nat>)
    requires fields != [] && |offs| == |fields|
    ensures EndOf(fields, offs) == offs[|fields| - 1] + fields[|fields| - 1].size
  {
  }

  /** The size is the least multiple of the largest alignment that any layout could have. */
  lemma LeastSize(fields: seq<Field>, offs: seq<nat>, size: nat)
    requires IsLayout(fields, offs) && Divides(MaxAlign(fields), size) && EndOf(fields, offs) <= size
    ensures Divides(MaxAlign(fields), Size(fields)) && End(fields) <= Size(fields) <= size
  {
    LeastLayout(fields, offs);
    AlignLeast(End(fields), MaxAlign(fields));
  }

  // ----- Arrays -----

  /** Every field is aligned in every element of an array of the struct. */
  ghost predicate ArrayAligned(fields: seq<Field>) {
    forall i, k: nat | 0 <= i < |fields| :: AlignedAt(fields, i, k)
  }

  ghost predicate AlignedAt(fields: seq<Field>, i: nat, k: nat)
    requires i < |fields|
  {
    Divides(fields[i].align, k * Size(fields) + FieldOffsets(fields)[i])
  }

  /** Arrays are aligned exactly when every alignment divides the size. */
  lemma ArrayAlignedExactly(fields: seq<Field>)
    ensures ArrayAligned(fields) <==> forall i | 0 <= i < |fields| :: Divides(fields[i].align, Size(fields))
  {
    LayoutExists(fields);
    var size, offs := Size(fields), FieldOffsets(fields);
    hide Size;
    hide Divides;
    hide FieldOffsets;
    if ArrayAligned(fields) {
      forall i | 0 <= i < |fields| ensures Divides(fields[i].align, size) {
        assert AlignedAt(fields, i, 1);
        assert 1 * size == size;
        DividesSum(fields[i].align, offs[i], size);
      }
    }
    if forall i | 0 <= i < |fields| :: Divides(fields[i].align, size) {
      forall i, k: nat | 0 <= i < |fields| ensures AlignedAt(fields, i, k) {
        DividesProduct(fields[i].align, size, k);
        DividesSum(fields[i].align, k * size, offs[i]);
      }
    }
  }

  ghost predicate PowerOfTwo(n: Pos) { exists k :: n == PyBits.Pow2(k) }

  lemma PowersDivide(a: Pos, b: Pos)
    requires PowerOfTwo(a) && PowerOfTwo(b) && a <= b
    ensures Divides(a, b)
  {
    var i: nat :| a == PyBits.Pow2(i);
    var j: nat :| b == PyBits.Pow2(j);
    if j < i {
      Pow2Grows(j, i);
    } else {
      PyBits.Pow2Add(i, j - i);
      DividesMeans(a, b, PyBits.Pow2(j - i));
    }
  }

  lemma {:induction false} Pow2Grows(j: nat, i: nat)
    requires j < i
    ensures PyBits.Pow2(j) < PyBits.Pow2(i)
    decreases i
  {
    if j < i - 1 {
      Pow2Grows(j, i - 1);
    }
  }

  lemma {:induction false} MaxIsOne(fields: seq<Field>)
    ensures MaxAlign(fields) == 1 || exists f :: f in fields && f.align == MaxAlign(fields)
    decreases |fields|
  {
    if fields != [] {
      MaxIsOne(fields[..|fields| - 1]);
      assert fields[|fields| - 1] in fields;
    }
  }

  /** With power-of-two alignments, arrays of the struct are aligned. */
  lemma PowersOfTwoAligned(fields: seq<Field>)
    requires forall f | f in fields :: PowerOfTwo(f.align)
    ensures ArrayAligned(fields)
  {
    MaxIsOne(fields);
    var m := MaxAlign(fields);
    assert PowerOfTwo(m) by {
      assert 1 == PyBits.Pow2(0);
    }
    AlignLeast(End(fields), m);
    forall i | 0 <= i < |fields| ensures Divides(fields[i].align, Size(fields)) {
      assert fields[i] in fields;
      PowersDivide(fields[i].align, m);
      DividesTrans(fields[i].align, m, Size(fields));
    }
    ArrayAlignedExactly(fields);
  }

  lemma SmallAligns()
    ensures Align(0, 2) == 0 && Align(1, 3) == 3 && Align(3, 3) == 3
    ensures !Divides(2, 3)
  {
    hide *;
    AlignIs(0, 2, 0, 1);
    AlignIs(1, 3, 1, 0);
    AlignIs(3, 3, 1, 2);
    NotDivides(2, 3, 1, 1);
  }

  lemma AlignIs(offset: int, n: Pos, q: int, r: int)
    requires offset + n - 1 == n * q + r && 0 <= r < n
    ensures Align(offset, n) == n * q
  {
    PyBits.ModUnique(offset + n - 1, n, q, r);
  }

  lemma NotDivides(n: Pos, x: int, q: int, r: int)
    requires x == n * q + r && 0 < r < n
    ensures !Divides(n, x)
  {
    PyBits.ModUnique(x, n, q, r);
  }

  lemma AddField(front: seq<Field>, f: Field)
    ensures End(front + [f]) == Align(End(front), f.align) + f.size
    ensures MaxAlign(front + [f]) == Max(MaxAlign(front), f.align)
  {
    assert (front + [f])[..|front|] == front;
  }

  lemma NoFields()
    ensures End([]) == 0 && MaxAlign([]) == 1
  {
  }

  lemma SizeMeans(fields: seq<Field>)
    ensures Size(fields) == Align(End(fields), MaxAlign(fields))
  {
    hide Align;
  }

  lemma MaxThree()
    ensures Max(Max(1, 2), 3) == 3
  {
  }

  lemma MixedSize(a: Field, b: Field)
    requires a.size == 1 && a.align == 2 && b.size == 0 && b.align == 3
    ensures Size([a, b]) == 3
  {
    hide *;
    NoFields();
    SmallAligns();
    MaxThree();
    AddField([], a);
    AddField([a], b);
    assert [] + [a] == [a] && [a] + [b] == [a, b];
    SizeMeans([a, b]);
  }

  /** With other alignments they need not be: a struct of alignments 2 and 3 has size 3. */
  lemma MixedAlignmentsMisaligned(name: string)
    ensures !ArrayAligned([Field(name, 1, 2), Field(name, 0, 3)])
  {
    hide *;
    var fields := [Field(name, 1, 2), Field(name, 0, 3)];
    SmallAligns();
    MixedSize(fields[0], fields[1]);
    ArrayAlignedExactly(fields);
    assert fields[0].align == 2;
  }

  // ----- CStruct -----

  /** The offsets dictionary: a repeated name keeps its last offset. */
  function NamedOffsets(fields: seq<Field>): map<string, nat> {
    if fields == [] then map[]
    else
      var front, last := fields[..|fields| - 1], fields[|fields| - 1];
      NamedOffsets(front)[last.name := Next(front, last)]
  }

  /** The size of a CStruct: an empty one counts as one byte before padding. */
  function CSize(fields: seq<Field>): nat {
    Pad(if End(fields) == 0 then 1 else End(fields), MaxAlign(fields))
  }

  class CStruct {
    var offsets: map<string, nat>
    var size: nat
    var align: Pos

    constructor (fields: seq<Field>)
      ensures offsets == NamedOffsets(fields) && size == CSize(fields) && align == MaxAlign(fields)
    {
      var currentOffset := 0;
      var alignment: Pos := 1;
      var named: map<string, nat> := map[];
      for i := 0 to |fields|
        invariant currentOffset == End(fields[..i]) && alignment == MaxAlign(fields[..i]) && named == NamedOffsets(fields[..i])
      {
        var f := fields[i];
        assert fields[..i + 1][..i] == fields[..i];
        PadIsAlign(currentOffset, f.align);
        if currentOffset % f.align != 0 {
          currentOffset := currentOffset + (f.align - currentOffset % f.align);
        }
        if f.align > alignment {
          alignment := f.align;
        }
        named := named[f.name := currentOffset];
        currentOffset := currentOffset + f.size;
      }
      assert fields[..|fields|] == fields;
      if currentOffset == 0 {
        currentOffset := 1;
      }
      if currentOffset % alignment != 0 {
        currentOffset := currentOffset + (alignment - currentOffset % alignment);
      }
      offsets, size, align := named, currentOffset, alignment;
    }
  }

  /** The two algorithms agree on the offset of every field whose name no later field takes. */
  lemma {:induction false} OffsetsAgree(fields: seq<Field>, i: nat)
    requires i < |fields| && forall j | i < j < |fields| :: fields[j].name != fields[i].name
    ensures fields[i].name in NamedOffsets(fields)
    ensures NamedOffsets(fields)[fields[i].name] == Offsets(fields)[i]
    decreases |fields|
  {
    var n := |fields| - 1;
    if i < n {
      OffsetsAgree(fields[..n], i);
    }
  }

  lemma {:induction false} EndZero(fields: seq<Field>)
    ensures End(fields) == 0 <==> forall f | f in fields :: f.size == 0
    decreases |fields|
  {
    if fields != [] {
      var n := |fields| - 1;
      var front, last := fields[..n], fields[n];
      EndZero(front);
      AlignLeast(End(front), last.align);
      assert Align(0, last.align) == 0 by {
        AlignLeast(0, last.align);
        DividesMeans(last.align, 0, 0);
      }
      hide Align;
      assert fields == front + [last];
    }
  }

  lemma OnePads(n: Pos)
    ensures Pad(1, n) == n
  {
  }

  /** They agree on the size exactly when some field has one; otherwise CStruct reserves one unit of alignment. */
  lemma SizesAgreeExactly(fields: seq<Field>)
    ensures CSize(fields) == Offsets(fields)[|fields|] <==> exists f :: f in fields && f.size > 0
    ensures (forall f | f in fields :: f.size == 0) ==> CSize(fields) == MaxAlign(fields) && Offsets(fields)[|fields|] == 0
  {
    EndZero(fields);
    var m := MaxAlign(fields);
    PadIsAlign(End(fields), m);
    OnePads(m);
    assert Align(0, m) == 0 by {
      AlignLeast(0, m);
      DividesMeans(m, 0, 0);
    }
    hide Align;
    hide Pad;
  }
}
