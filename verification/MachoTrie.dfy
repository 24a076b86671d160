/**
  The Mach-O prefix trie and its ULEB128 numbers, read byte by byte from the
  inferior's memory (pwndbg/aglib/macho.py:15-112, pwndbg/aglib/memory.py:136-154).
 */
module MachoTrie {
  import opened Options
  import opened PyBits

  type Byte = x: nat | x < 256

  /** Readable memory; reading any other address raises an error. */
  type Memory = map<int, Byte>

  type Name = seq<Byte>

  // ----- ULEB128 -----

  ghost function From(mem: Memory, p: int): set<int> {
    set a | a in mem && a >= p
  }

  /** The number at `p` and its length in bytes; None if memory ends first. */
  function Uleb(mem: Memory, p: int): (r: Option<(nat, nat)>)
    ensures r.Some? ==> r.value.1 >= 1
    decreases From(mem, p)
  {
    if p !in mem then None
    else if mem[p] < 128 then Some((mem[p], 1))
    else
      assert p in From(mem, p) && p !in From(mem, p + 1);
      var rest := Uleb(mem, p + 1);
      if rest.None? then None else Some((mem[p] - 128 + 128 * rest.value.0, rest.value.1 + 1))
  }

  lemma Pow2Seven(i: nat)
    ensures Pow2(7 * (i + 1)) == 128 * Pow2(7 * i)
  {
    Pow2Add(7, 7 * i);
    assert Pow2(3) == 8;
    Pow2Add(3, 3);
    assert Pow2(7) == 2 * Pow2(6);
  }

  /** A value read after `i` bytes, as seen from the first one. */
  function Shifted(acc: nat, i: nat, rest: Option<(nat, nat)>): Option<(nat, nat)> {
    if rest.None? then None else Some((acc + rest.value.0 * Pow2(7 * i), i + rest.value.1))
  }

  /** `byte & 0x7F` is byte % 128, and `byte & 0x80` is zero below 128. */
  lemma UlebStep(mem: Memory, p: int, acc: nat, i: nat)
    requires p in mem && acc < Pow2(7 * i)
    ensures var next := Or(acc, Shl(mem[p] % 128, 7 * i));
            && next < Pow2(7 * (i + 1))
            && (mem[p] < 128 ==> Shifted(acc, i, Uleb(mem, p)) == Some((next, i + 1)))
            && (mem[p] >= 128 ==> Shifted(acc, i, Uleb(mem, p)) == Shifted(next, i + 1, Uleb(mem, p + 1)))
  {
    hide Pow2;
    hide Or;
    hide Shl;
    var low := mem[p] % 128;
    OrStep(acc, low, i);
    if mem[p] < 128 {
      assert Uleb(mem, p) == Some((low, 1));
      ShiftedLast(acc, i, low);
    } else {
      var rest := Uleb(mem, p + 1);
      assert rest.None? ==> Uleb(mem, p) == None;
      if rest.Some? {
        assert Uleb(mem, p) == Some((low + 128 * rest.value.0, rest.value.1 + 1));
        ShiftedMore(acc, i, low, rest.value.0, rest.value.1);
      }
    }
  }

  lemma OrStep(acc: nat, low: nat, i: nat)
    requires low < 128 && acc < Pow2(7 * i)
    ensures Or(acc, Shl(low, 7 * i)) == acc + low * Pow2(7 * i) < Pow2(7 * (i + 1))
  {
    OrDisjoint(acc, low, 7 * i);
    Pow2Seven(i);
    hide Pow2;
    hide Or;
    UlebArithmetic(acc, low, 0, Pow2(7 * i));
  }

  lemma ShiftedLast(acc: nat, i: nat, low: nat)
    ensures Shifted(acc, i, Some((low, 1))) == Some((acc + low * Pow2(7 * i), i + 1))
  {
  }

  lemma ShiftedMore(acc: nat, i: nat, low: nat, v: nat, len: nat)
    requires low < 128 && acc < Pow2(7 * i)
    ensures Shifted(acc, i, Some((low + 128 * v, len + 1))) == Shifted(acc + low * Pow2(7 * i), i + 1, Some((v, len)))
  {
    Pow2Seven(i);
    UlebArithmetic(acc, low, v, Pow2(7 * i));
    hide Pow2;
    assert (low + 128 * v) * Pow2(7 * i) == low * Pow2(7 * i) + v * Pow2(7 * (i + 1));
  }

  lemma UlebArithmetic(acc: nat, low: nat, v: nat, power: nat)
    requires low < 128 && acc < power
    ensures acc + low * power < 128 * power
    ensures (low + 128 * v) * power == low * power + v * (128 * power)
  {
    Product(power, 127 - low);
    assert low * power == 127 * power - power * (127 - low);
  }

  lemma FromTheStart(mem: Memory, ptr: int)
    ensures 0 < Pow2(7 * 0) && Uleb(mem, ptr) == Shifted(0, 0, Uleb(mem, ptr))
  {
  }

  method Uleb128(mem: Memory, ptr: int) returns (r: Option<(nat, nat)>)
    ensures r == Uleb(mem, ptr)
  {
    hide Pow2;
    hide Or;
    hide Shl;
    var acc: nat := 0;
    var i: nat := 0;
    FromTheStart(mem, ptr);
    while true
      invariant acc < Pow2(7 * i)
      invariant Uleb(mem, ptr) == Shifted(acc, i, Uleb(mem, ptr + i))
      decreases From(mem, ptr + i)
    {
      if ptr + i !in mem {
        return None;
      }
      var byte := mem[ptr + i];
      UlebStep(mem, ptr + i, acc, i);
      acc := Or(acc, Shl(byte % 128, 7 * i));
      if byte < 128 {
        break;
      }
      assert ptr + i in From(mem, ptr + i) && ptr + i !in From(mem, ptr + i + 1);
      i := i + 1;
    }
    r := Some((acc, i + 1));
  }

  /** Bytes that encode `n`: seven bits each, low group first, high bit set on all but the last. */
  predicate IsUleb(bs: seq<Byte>, n: nat) {
    bs != [] &&
    if |bs| == 1 then bs[0] < 128 && n == bs[0]
    else bs[0] >= 128 && n % 128 == bs[0] - 128 && IsUleb(bs[1..], n / 128)
  }

  ghost predicate Holds(mem: Memory, p: int, bs: seq<Byte>) {
    forall i | 0 <= i < |bs| :: HoldsAt(mem, p, bs, i)
  }

  ghost predicate HoldsAt(mem: Memory, p: int, bs: seq<Byte>, i: nat)
    requires i < |bs|
  {
    p + i in mem && mem[p + i] == bs[i]
  }

  lemma HoldsSplit(mem: Memory, p: int, s: seq<Byte>, t: seq<Byte>)
    ensures Holds(mem, p, s + t) <==> Holds(mem, p, s) && Holds(mem, p + |s|, t)
  {
    if Holds(mem, p, s + t) {
      forall i | 0 <= i < |s| ensures HoldsAt(mem, p, s, i) {
        assert HoldsAt(mem, p, s + t, i);
      }
      var q := p + |s|;
      forall i | 0 <= i < |t| ensures HoldsAt(mem, q, t, i) {
        assert HoldsAt(mem, p, s + t, |s| + i);
      }
    }
    if Holds(mem, p, s) && Holds(mem, p + |s|, t) {
      forall i | 0 <= i < |s + t| ensures HoldsAt(mem, p, s + t, i) {
        if i < |s| {
          assert HoldsAt(mem, p, s, i);
        } else {
          assert HoldsAt(mem, p + |s|, t, i - |s|);
        }
      }
    }
  }

  /** The shortest encoding (DWARF 5, section 7.6). */
  function UlebEncode(n: nat): (bs: seq<Byte>)
    decreases n
  {
    if n < 128 then [n] else [n % 128 + 128] + UlebEncode(n / 128)
  }

  lemma {:induction false} EncodeIsUleb(n: nat)
    ensures IsUleb(UlebEncode(n), n)
    decreases n
  {
    if n >= 128 {
      EncodeIsUleb(n / 128);
      assert UlebEncode(n)[1..] == UlebEncode(n / 128);
    }
  }

  /** Decoding inverts every encoding, padded ones included. */
  lemma {:induction false} UlebDecodes(mem: Memory, p: int, bs: seq<Byte>, n: nat)
    requires Holds(mem, p, bs) && IsUleb(bs, n)
    ensures Uleb(mem, p) == Some((n, |bs|))
    decreases |bs|
  {
    assert HoldsAt(mem, p, bs, 0);
    if |bs| > 1 {
      assert bs == bs[..1] + bs[1..];
      HoldsSplit(mem, p, bs[..1], bs[1..]);
      UlebDecodes(mem, p + 1, bs[1..], n / 128);
    }
  }

  /** Decoding accepts nothing else. */
  lemma {:induction false} UlebExact(mem: Memory, p: int) returns (bs: seq<Byte>)
    requires Uleb(mem, p).Some?
    ensures Holds(mem, p, bs) && IsUleb(bs, Uleb(mem, p).value.0) && |bs| == Uleb(mem, p).value.1
    decreases From(mem, p)
  {
    if mem[p] < 128 {
      bs := [mem[p]];
    } else {
      assert p in From(mem, p) && p !in From(mem, p + 1);
      var rest := UlebExact(mem, p + 1);
      bs := [mem[p]] + rest;
      assert bs[1..] == rest;
      HoldsSplit(mem, p, [mem[p]], rest);
    }
  }

  // ----- Labels -----

  const MAX_STRING := 4096

  /** The position of the first zero byte at or after offset `k`, within the bytes that can be read. */
  function ZeroAt(mem: Memory, p: int, k: nat): Option<nat>
    decreases MAX_STRING - k
  {
    if k >= MAX_STRING || p + k !in mem then None
    else if mem[p + k] == 0 then Some(k)
    else ZeroAt(mem, p, k + 1)
  }

  /** memory.string: empty when there is no terminator. */
  function CString(mem: Memory, p: int): Name {
    var z := ZeroAt(mem, p, 0);
    if z.None? then [] else BytesAt(mem, p, z.value)
  }

  function BytesAt(mem: Memory, p: int, n: nat): (bs: seq<Byte>)
    ensures |bs| == n
  {
    seq(n, i requires 0 <= i < n => if p + i in mem then mem[p + i] else 0)
  }

  predicate IsLabel(name: Name) {
    |name| < 4096 && 0 !in name
  }

  lemma {:induction false} ZeroFound(mem: Memory, p: int, name: Name, k: nat)
    requires Holds(mem, p, name + [0]) && IsLabel(name) && k <= |name|
    ensures ZeroAt(mem, p, k) == Some(|name|)
    decreases |name| - k
  {
    assert HoldsAt(mem, p, name + [0], k);
    if k < |name| {
      assert name[k] in name;
      ZeroFound(mem, p, name, k + 1);
    }
  }

  lemma LabelRead(mem: Memory, p: int, name: Name)
    requires Holds(mem, p, name + [0]) && IsLabel(name)
    ensures CString(mem, p) == name
  {
    ZeroFound(mem, p, name, 0);
    forall i | 0 <= i < |name| ensures p + i in mem && mem[p + i] == name[i] {
      assert HoldsAt(mem, p, name + [0], i);
    }
  }

  predicate NonZero(mem: Memory, p: int, i: nat) { p + i in mem && mem[p + i] != 0 }

  /** `n` bytes other than zero, all readable, and a zero behind them, within the first 4096 bytes. */
  ghost predicate EndsAt(mem: Memory, p: int, n: nat) {
    n < 4096 && p + n in mem && mem[p + n] == 0 && forall i | 0 <= i < n :: NonZero(mem, p, i)
  }

  lemma {:induction false} ZeroExact(mem: Memory, p: int, k: nat)
    requires forall i | 0 <= i < k :: NonZero(mem, p, i)
    ensures ZeroAt(mem, p, k).Some? ==> EndsAt(mem, p, ZeroAt(mem, p, k).value)
    ensures ZeroAt(mem, p, k).None? ==> forall n: nat :: !EndsAt(mem, p, n)
    decreases MAX_STRING - k
  {
    if k < MAX_STRING && NonZero(mem, p, k) {
      ZeroExact(mem, p, k + 1);
    } else {
      assert forall n: nat | n > k && EndsAt(mem, p, n) :: NonZero(mem, p, k);
      assert forall n: nat | n < k && EndsAt(mem, p, n) :: NonZero(mem, p, n);
    }
  }

  /** A string is the bytes before its zero, and empty without one. */
  lemma StringExactly(mem: Memory, p: int, n: nat)
    ensures EndsAt(mem, p, n) ==> |CString(mem, p)| == n && Holds(mem, p, CString(mem, p))
    ensures (forall j: nat :: !EndsAt(mem, p, j)) ==> CString(mem, p) == []
  {
    ZeroExact(mem, p, 0);
    var z := ZeroAt(mem, p, 0);
    if EndsAt(mem, p, n) && z.Some? {
      assert z.value < n ==> NonZero(mem, p, z.value);
      assert n < z.value ==> NonZero(mem, p, n);
      assert z.value == n;
      forall i | 0 <= i < n ensures HoldsAt(mem, p, CString(mem, p), i) {
        assert NonZero(mem, p, i);
      }
    }
  }

  // ----- The walk -----

  datatype Entry = Entry(name: Name, ptr: int, len: nat)

  /** How a generator ends: normally, on unreadable memory, or on the recursion limit. */
  datatype End = Finished | Unreadable | TooDeep

  /** Everything a generator yields, and its end. */
  datatype Walk = Walk(items: seq<Entry>, end: End)

  /** The callbacks that pick edges to explore and nodes to yield. */
  datatype Select = Select(edge: (Name, Name) -> bool, node: Name -> bool)

  function Then(first: Walk, second: Walk): Walk {
    if first.end != Finished then first else Walk(first.items + second.items, second.end)
  }

  function WalkNode(mem: Memory, ptr: int, offset: nat, acc: Name, sel: Select, depth: nat): Walk
    decreases depth, 256
  {
    if depth == 0 then Walk([], TooDeep)
    else
      var base := ptr + offset;
      match Uleb(mem, base)
      case None => Walk([], Unreadable)
      case Some((len, size)) =>
        var own := if len != 0 && sel.node(acc) then [Entry(acc, base + size, len)] else [];
        var cursor := base + size + len;
        if cursor !in mem then Walk(own, Unreadable)
        else Then(Walk(own, Finished), WalkEdges(mem, ptr, mem[cursor], cursor + 1, acc, sel, depth))
  }

  function WalkEdges(mem: Memory, ptr: int, n: nat, cursor: int, acc: Name, sel: Select, depth: nat): Walk
    requires depth > 0 && n < 256
    decreases depth, n
  {
    if n == 0 then Walk([], Finished)
    else
      var name := CString(mem, cursor);
      match Uleb(mem, cursor + |name| + 1)
      case None => Walk([], Unreadable)
      case Some((child, size)) =>
        var sub := if sel.edge(acc, name) then WalkNode(mem, ptr, child, acc + name, sel, depth - 1) else Walk([], Finished);
        Then(sub, WalkEdges(mem, ptr, n - 1, cursor + |name| + 1 + size, acc, sel, depth))
  }

  /** One edge, after `items` were yielded. */
  lemma EdgeStep(mem: Memory, ptr: int, n: nat, cursor: int, acc: Name, sel: Select, depth: nat, items: seq<Entry>)
    requires depth > 0 && 0 < n < 256
    ensures var name := CString(mem, cursor);
            var edge := Uleb(mem, cursor + |name| + 1);
            var all := Then(Walk(items, Finished), WalkEdges(mem, ptr, n, cursor, acc, sel, depth));
            if edge.None? then all == Walk(items, Unreadable)
            else
              var next := cursor + |name| + 1 + edge.value.1;
              var rest := WalkEdges(mem, ptr, n - 1, next, acc, sel, depth);
              if sel.edge(acc, name) then
                var sub := WalkNode(mem, ptr, edge.value.0, acc + name, sel, depth - 1);
                if sub.end != Finished then all == Walk(items + sub.items, sub.end)
                else all == Then(Walk(items + sub.items, Finished), rest)
              else all == Then(Walk(items, Finished), rest)
  {
    hide CString;
    hide Uleb;
    hide WalkNode;
    var name := CString(mem, cursor);
    var edge := Uleb(mem, cursor + |name| + 1);
    if edge.Some? && sel.edge(acc, name) {
      var sub := WalkNode(mem, ptr, edge.value.0, acc + name, sel, depth - 1);
      var rest := WalkEdges(mem, ptr, n - 1, cursor + |name| + 1 + edge.value.1, acc, sel, depth);
      assert items + (sub.items + rest.items) == items + sub.items + rest.items;
    }
  }

  lemma NoEdges(mem: Memory, ptr: int, cursor: int, acc: Name, sel: Select, depth: nat, items: seq<Entry>)
    requires depth > 0
    ensures Then(Walk(items, Finished), WalkEdges(mem, ptr, 0, cursor, acc, sel, depth)) == Walk(items, Finished)
  {
  }

  /** _walk with its cursor; the generator's output is collected. */
  method WalkCursor(mem: Memory, ptr: int, offset: nat, acc: Name, sel: Select, depth: nat) returns (w: Walk)
    ensures w == WalkNode(mem, ptr, offset, acc, sel, depth)
    decreases depth, 1
  {
    hide WalkEdges;
    hide CString;
    hide Uleb;
    if depth == 0 {
      return Walk([], TooDeep);
    }
    var base := ptr + offset;
    var dataLen := Uleb128(mem, base);
    if dataLen.None? {
      return Walk([], Unreadable);
    }
    var (len, size) := dataLen.value;
    var items := [];
    if len != 0 && sel.node(acc) {
      items := items + [Entry(acc, base + size, len)];
    }
    var cursor := base + size + len;
    if cursor !in mem {
      return Walk(items, Unreadable);
    }
    w := WalkChildren(mem, ptr, mem[cursor], cursor + 1, acc, sel, depth, items);
  }

  /** The loop over the children, after `yielded` was yielded. */
  method WalkChildren(mem: Memory, ptr: int, children: Byte, start: int, acc: Name, sel: Select, depth: nat, yielded: seq<Entry>)
    returns (w: Walk)
    requires depth > 0
    ensures w == Then(Walk(yielded, Finished), WalkEdges(mem, ptr, children, start, acc, sel, depth))
    decreases depth, 0
  {
    hide WalkEdges;
    hide WalkNode;
    hide CString;
    hide Uleb;
    hide Then;
    var items, cursor := yielded, start;
    for i := 0 to children
      invariant Then(Walk(yielded, Finished), WalkEdges(mem, ptr, children, start, acc, sel, depth))
             == Then(Walk(items, Finished), WalkEdges(mem, ptr, children - i, cursor, acc, sel, depth))
    {
      EdgeStep(mem, ptr, children - i, cursor, acc, sel, depth, items);
      var name := CString(mem, cursor);
      cursor := cursor + |name| + 1;
      var childOffset := Uleb128(mem, cursor);
      if childOffset.None? {
        return Walk(items, Unreadable);
      }
      cursor := cursor + childOffset.value.1;
      if sel.edge(acc, name) {
        var sub := WalkCursor(mem, ptr, childOffset.value.0, acc + name, sel, depth - 1);
        items := items + sub.items;
        if sub.end != Finished {
          return Walk(items, sub.end);
        }
      }
    }
    NoEdges(mem, ptr, cursor, acc, sel, depth, items);
    w := Walk(items, Finished);
  }

  /** No selection: _entries_raw. */
  const ALL := Select((_, _) => true, _ => true)

  /** name[n:], which is empty beyond the end. */
  function Drop(name: Name, n: nat): Name {
    if n <= |name| then name[n..] else []
  }

  /** _get_raw's selection: only edges that continue a prefix of `name`. */
  function Only(name: Name): Select {
    Select((acc, candidate) => candidate <= Drop(name, |acc|), candidate => candidate == name)
  }

  function Entries(mem: Memory, ptr: int, depth: nat): Walk {
    WalkNode(mem, ptr, 0, [], ALL, depth)
  }

  datatype Lookup = Found(entry: Entry) | Absent | Error

  /** next(walk, None): stops at the first yield. */
  function Get(mem: Memory, ptr: int, name: Name, depth: nat): Lookup {
    var w := WalkNode(mem, ptr, 0, [], Only(name), depth);
    if w.items != [] then Found(w.items[0])
    else if w.end == Finished then Absent
    else Error
  }
}
