/**
  The hexdump generator: lines, groups and the run-skipping state machine
  (pwndbg/hexdump.py:23-24, 70-151).
 */
module Hexdump {
  import opened Options
  import PyBits

  type Byte = b: int | 0 <= b < 256

  /** What pads the last line; it prints as blanks. */
  const BLANK := -1

  /** Python's None, which has no colour: the lookup is a KeyError. */
  const NO_VALUE := -2

  datatype Cell = Cell(value: int, highlighted: bool)

  /** One yielded string, without colours and separators. */
  datatype Item =
    | Empty(offset: int, address: int)
    | Marker(lines: int, bytes: int)
    | Line(offset: int, address: int, hex: seq<seq<Cell>>, text: seq<seq<int>>)

  datatype Config = Config(address: int, offset: int, width: int, groupWidth: int, flip: bool, skip: bool)

  /** The strings yielded, and whether an exception ended the iteration. */
  datatype Run = Run(items: seq<Item>, failed: bool)

  // ----- groupby -----

  function Repeat<T>(x: T, n: nat): (r: seq<T>)
    ensures |r| == n
  {
    seq(n, _ => x)
  }

  function Chunks(n: nat, xs: seq<int>, fill: int): seq<seq<int>>
    requires n > 0
    decreases |xs|
  {
    if xs == [] then []
    else if |xs| <= n then [xs + Repeat(fill, n - |xs|)]
    else [xs[..n]] + Chunks(n, xs[n..], fill)
  }

  /** groupby: a step of zero is a ValueError, a negative one yields nothing. */
  function Group(n: int, xs: seq<int>, fill: int): Option<seq<seq<int>>> {
    if n == 0 then None else if n < 0 then Some([]) else Some(Chunks(n, xs, fill))
  }

  // ----- One line -----

  function Reversed<T>(s: seq<T>): (r: seq<T>)
    ensures |r| == |s| && forall i | 0 <= i < |s| :: r[i] == s[|s| - 1 - i]
  {
    seq(|s|, i requires 0 <= i < |s| => s[|s| - 1 - i])
  }

  function HexGroup(group: seq<int>, c: Config): seq<Cell> {
    var g := if c.flip then Reversed(group) else group;
    seq(|g|, i requires 0 <= i < |g| => Cell(g[i], c.flip && i == c.groupWidth - 1))
  }

  function HexGroups(groups: seq<seq<int>>, c: Config): (r: seq<seq<Cell>>)
    ensures |r| == |groups| && forall i | 0 <= i < |r| :: r[i] == HexGroup(groups[i], c)
  {
    seq(|groups|, i requires 0 <= i < |groups| => HexGroup(groups[i], c))
  }

  predicate Coloured(groups: seq<seq<int>>) {
    forall i, j | 0 <= i < |groups| && 0 <= j < |groups[i]| :: groups[i][j] != NO_VALUE
  }

  function Show(line: seq<int>, i: nat, c: Config): Option<Item> {
    var groups := Group(c.groupWidth, line, NO_VALUE);
    if groups.None? || !Coloured(groups.value) then None
    else Some(Line(c.offset + i * c.width, c.address + i * c.width, HexGroups(groups.value, c), groups.value))
  }

  // ----- Skipping -----

  function Yield(item: Option<Item>, rest: Run): Run {
    if item.None? then Run([], true) else Run([item.value] + rest.items, rest.failed)
  }

  predicate SameAsNext(lines: seq<seq<int>>, i: nat)
    requires i < |lines|
  {
    i <= |lines| - 2 && lines[i] == lines[i + 1]
  }

  /** The loop from line `i` on, with the counter at `skipLines`. */
  function Rest(lines: seq<seq<int>>, i: nat, skipLines: int, c: Config): Run
    requires i <= |lines|
    decreases |lines| - i
  {
    if i == |lines| then Run([], false)
    else if c.skip && SameAsNext(lines, i) then
      if skipLines + 1 != 0 then Rest(lines, i + 1, skipLines + 1, c)
      else Yield(Show(lines[i], i, c), Rest(lines, i + 1, 0, c))
    else if c.skip && skipLines > 0 then
      Yield(Some(Marker(skipLines, skipLines * c.width)), Yield(Show(lines[i], i, c), Rest(lines, i + 1, -1, c)))
    else Yield(Show(lines[i], i, c), Rest(lines, i + 1, skipLines, c))
  }

  function Dump(data: seq<Byte>, c: Config): Run {
    if data == [] then Run([Empty(c.offset, c.address)], false)
    else
      var lines := Group(c.width, data, BLANK);
      if lines.None? then Run([], true) else Rest(lines.value, 0, -1, c)
  }

  lemma YieldMore(out: seq<Item>, item: Item, rest: Run)
    ensures Run(out + Yield(Some(item), rest).items, Yield(Some(item), rest).failed) == Run((out + [item]) + rest.items, rest.failed)
  {
    assert out + ([item] + rest.items) == (out + [item]) + rest.items;
  }

  /** The generator loop; `out` collects what it yields. */
  method Generate(data: seq<Byte>, c: Config) returns (r: Run)
    ensures r == Dump(data, c)
  {
    if data == [] {
      return Run([Empty(c.offset, c.address)], false);
    }
    hide Show;
    var groupped := Group(c.width, data, BLANK);
    if groupped.None? {
      return Run([], true);
    }
    var lines := groupped.value;
    var skipLines := -1;
    var beforeLastIdx := |lines| - 2;
    var out: seq<Item> := [];
    var i := 0;
    ghost var all := Rest(lines, 0, -1, c);
    assert out + all.items == all.items;
    while i < |lines|
      invariant i <= |lines|
      invariant all == var rest := Rest(lines, i, skipLines, c); Run(out + rest.items, rest.failed)
    {
      var line := lines[i];
      if c.skip {
        if i <= beforeLastIdx && line == lines[i + 1] {
          skipLines := skipLines + 1;
          if skipLines != 0 {
            i := i + 1;
            continue;
          }
        } else if skipLines > 0 {
          YieldMore(out, Marker(skipLines, skipLines * c.width), Yield(Show(line, i, c), Rest(lines, i + 1, -1, c)));
          out := out + [Marker(skipLines, skipLines * c.width)];
          skipLines := -1;
        }
      }
      var shown := Show(line, i, c);
      if shown.None? {
        assert out + [] == out;
        return Run(out, true);
      }
      YieldMore(out, shown.value, Rest(lines, i + 1, skipLines, c));
      out := out + [shown.value];
      i := i + 1;
    }
    assert out + [] == out;
    r := Run(out, false);
  }

  // ----- Reading a dump back -----

  function Flatten<T>(xs: seq<seq<T>>): seq<T> {
    if xs == [] then [] else xs[0] + Flatten(xs[1..])
  }

  /** The line that the text columns show. */
  function TextOf(item: Item): seq<int>
    requires item.Line?
  {
    Flatten(item.text)
  }

  function Values(cells: seq<Cell>): seq<int> {
    seq(|cells|, i requires 0 <= i < |cells| => cells[i].value)
  }

  function Unflipped(groups: seq<seq<Cell>>, flip: bool): seq<seq<int>> {
    seq(|groups|, i requires 0 <= i < |groups| => if flip then Reversed(Values(groups[i])) else Values(groups[i]))
  }

  /** The line that the hexadecimal columns show. */
  function HexOf(item: Item, flip: bool): seq<int>
    requires item.Line?
  {
    Flatten(Unflipped(item.hex, flip))
  }

  /**
    The lines a dump stands for: a marker stands for copies of the line after it.
    None if a marker is not followed by a line, or a line shows the wrong place:
    `at` is the number of lines before.
   */
  function Expand(items: seq<Item>, at: nat, c: Config): Option<seq<seq<int>>> {
    if items == [] then Some([])
    else match items[0]
      case Empty(_, _) => None
      case Line(offset, address, hex, text) =>
        if offset != c.offset + at * c.width || address != c.address + at * c.width || HexOf(items[0], c.flip) != TextOf(items[0]) then None
        else
          var rest := Expand(items[1..], at + 1, c);
          if rest.None? then None else Some([TextOf(items[0])] + rest.value)
      case Marker(n, bytes) =>
        if n <= 0 || bytes != n * c.width || |items| < 2 || !items[1].Line? then None
        else
          var rest := Expand(items[1..], at + n, c);
          if rest.None? then None else Some(Repeat(TextOf(items[1]), n) + rest.value)
  }

  ghost predicate Proper(lines: seq<seq<int>>, c: Config) {
    && c.width > 0 && c.groupWidth > 0 && c.width % c.groupWidth == 0
    && forall line | line in lines :: |line| == c.width && NO_VALUE !in line
  }

  lemma {:induction false} ChunksExact(n: nat, xs: seq<int>, fill: int)
    requires n > 0 && |xs| % n == 0 && fill !in xs
    ensures Flatten(Chunks(n, xs, fill)) == xs
    ensures forall g | g in Chunks(n, xs, fill) :: |g| == n && fill !in g
    decreases |xs|
  {
    if xs == [] {
    } else if |xs| <= n {
      LengthIsMultiple(|xs|, n);
      assert Repeat(fill, n - |xs|) == [];
      assert xs + [] == xs;
      assert [xs][1..] == [];
      assert Flatten([xs]) == xs + Flatten([xs][1..]);
    } else {
      ModStep(|xs|, n);
      ChunksExact(n, xs[n..], fill);
      var rest := Chunks(n, xs[n..], fill);
      assert ([xs[..n]] + rest)[1..] == rest;
      assert xs == xs[..n] + xs[n..];
    }
  }

  lemma LengthIsMultiple(m: nat, n: nat)
    requires 0 < m <= n && m % n == 0
    ensures m == n
  {
  }

  lemma ModStep(m: nat, n: nat)
    requires 0 < n <= m
    ensures (m - n) % n == m % n
  {
    var q, r := m / n, m % n;
    assert m == n * q + r && n * (q - 1) == n * q - n;
    PyBits.ModUnique(m - n, n, q - 1, r);
  }

  lemma {:induction false} HexShowsLine(groups: seq<seq<int>>, c: Config)
    ensures Unflipped(HexGroups(groups, c), c.flip) == groups
  {
    var u := Unflipped(HexGroups(groups, c), c.flip);
    forall i | 0 <= i < |groups| ensures u[i] == groups[i] {
      var g := if c.flip then Reversed(groups[i]) else groups[i];
      assert Values(HexGroup(groups[i], c)) == g;
      assert Reversed(Reversed(groups[i])) == groups[i];
    }
  }

  /** A shown line shows the same bytes twice, and its place. */
  lemma ShowFaithful(line: seq<int>, i: nat, c: Config)
    requires Proper([line], c)
    ensures Show(line, i, c).Some?
    ensures var s := Show(line, i, c).value;
            s.Line? && TextOf(s) == line && HexOf(s, c.flip) == line && s.offset == c.offset + i * c.width && s.address == c.address + i * c.width
  {
    assert line in [line];
    ChunksExact(c.groupWidth, line, NO_VALUE);
    var groups := Chunks(c.groupWidth, line, NO_VALUE);
    forall k, j | 0 <= k < |groups| && 0 <= j < |groups[k]| ensures groups[k][j] != NO_VALUE {
      assert groups[k] in groups;
      assert groups[k][j] in groups[k];
    }
    HexShowsLine(groups, c);
  }

  /** With flipped groups, the highlighted byte of a group is its first one in memory. */
  lemma HighlightsFirst(group: seq<int>, c: Config, i: nat)
    requires |group| == c.groupWidth && i < |group|
    ensures HexGroup(group, c)[i].highlighted ==> HexGroup(group, c)[i].value == group[0]
    ensures c.flip ==> HexGroup(group, c)[|group| - 1].highlighted
  {
  }

  lemma ExpandLine(item: Item, items: seq<Item>, at: nat, c: Config)
    requires item.Line? && item.offset == c.offset + at * c.width && item.address == c.address + at * c.width
    requires HexOf(item, c.flip) == TextOf(item) && Expand(items, at + 1, c).Some?
    ensures Expand([item] + items, at, c) == Some([TextOf(item)] + Expand(items, at + 1, c).value)
  {
    assert ([item] + items)[1..] == items;
  }

  lemma ExpandMarker(n: nat, item: Item, items: seq<Item>, at: nat, c: Config)
    requires n > 0 && item.Line? && Expand([item] + items, at + n, c).Some?
    ensures Expand([Marker(n, n * c.width)] + ([item] + items), at, c)
         == Some(Repeat(TextOf(item), n) + Expand([item] + items, at + n, c).value)
  {
    assert ([Marker(n, n * c.width)] + ([item] + items))[1..] == [item] + items;
  }

  function Pending(skipLines: int): nat { if skipLines > 0 then skipLines else 0 }

  /** The last `skipLines` lines were passed over and equal the next one. */
  ghost predicate Waiting(lines: seq<seq<int>>, i: nat, skipLines: int) {
    && Pending(skipLines) <= i <= |lines|
    && skipLines >= -1
    && (skipLines > 0 ==> i < |lines| && forall j | i - skipLines <= j < i :: lines[j] == lines[i])
  }

  /** Whatever the counter holds, the rest of the output stands for exactly the lines not yet shown. */
  lemma {:induction false} RestExpands(lines: seq<seq<int>>, i: nat, skipLines: int, c: Config)
    requires Proper(lines, c) && Waiting(lines, i, skipLines)
    requires !c.skip ==> skipLines == -1
    ensures !Rest(lines, i, skipLines, c).failed
    ensures Expand(Rest(lines, i, skipLines, c).items, i - Pending(skipLines), c) == Some(lines[i - Pending(skipLines)..])
    decreases |lines| - i
  {
    hide Show;
    hide Expand;
    hide TextOf;
    hide HexOf;
    if i == |lines| {
      ExpandNothing(i, c);
      assert lines[i..] == [];
    } else if c.skip && SameAsNext(lines, i) && skipLines + 1 != 0 {
      RestExpands(lines, i + 1, skipLines + 1, c);
    } else {
      var line := lines[i];
      assert Proper([line], c);
      ShowFaithful(line, i, c);
      var item := Show(line, i, c).value;
      var next := if c.skip && SameAsNext(lines, i) then 0 else if c.skip && skipLines > 0 then -1 else skipLines;
      RestExpands(lines, i + 1, next, c);
      LineExpands(lines, i, skipLines, item, Rest(lines, i + 1, next, c).items, c);
    }
  }

  /** A line, with a marker for the lines passed over, in front of the rest. */
  lemma LineExpands(lines: seq<seq<int>>, i: nat, skipLines: int, item: Item, rest: seq<Item>, c: Config)
    requires i < |lines| && Waiting(lines, i, skipLines)
    requires item.Line? && item.offset == c.offset + i * c.width && item.address == c.address + i * c.width
    requires HexOf(item, c.flip) == TextOf(item) == lines[i] && Expand(rest, i + 1, c) == Some(lines[i + 1..])
    ensures Expand([item] + rest, i, c) == Some(lines[i..])
    ensures skipLines > 0 ==>
              Expand([Marker(skipLines, skipLines * c.width)] + ([item] + rest), i - skipLines, c) == Some(lines[i - skipLines..])
  {
    hide Expand;
    hide TextOf;
    hide HexOf;
    ExpandLine(item, rest, i, c);
    assert lines[i..] == [lines[i]] + lines[i + 1..];
    if skipLines > 0 {
      ExpandMarker(skipLines, item, rest, i - skipLines, c);
      assert lines[i - skipLines..] == Repeat(lines[i], skipLines) + lines[i..];
    }
  }

  lemma ExpandNothing(at: nat, c: Config)
    ensures Expand([], at, c) == Some([])
  {
  }

  // ----- The data comes back -----

  /** The bytes of a sequence of lines: everything but the padding. */
  function Bytes(xs: seq<int>): seq<int> {
    if xs == [] then [] else (if xs[0] == BLANK then [] else [xs[0]]) + Bytes(xs[1..])
  }

  lemma {:induction false} BytesThenBlanks(data: seq<int>, n: nat)
    requires BLANK !in data
    ensures Bytes(data + Repeat(BLANK, n)) == data
    decreases |data| + n
  {
    var all := data + Repeat(BLANK, n);
    if data != [] {
      assert all[1..] == data[1..] + Repeat(BLANK, n);
      BytesThenBlanks(data[1..], n);
    } else if n > 0 {
      assert all[1..] == [] + Repeat(BLANK, n - 1);
      BytesThenBlanks([], n - 1);
    }
  }

  lemma FlattenCons<T>(x: seq<T>, xs: seq<seq<T>>)
    ensures Flatten([x] + xs) == x + Flatten(xs)
    ensures Flatten([x]) == x
  {
    assert ([x] + xs)[1..] == xs && [x][1..] == [];
    assert x + [] == x;
  }

  /** The lines hold the data followed by padding short of a line. */
  lemma {:induction false} ChunksPadded(n: nat, xs: seq<int>, fill: int) returns (pad: nat)
    requires n > 0
    ensures pad < n && Flatten(Chunks(n, xs, fill)) == xs + Repeat(fill, pad)
    decreases |xs|
  {
    hide Flatten;
    if xs == [] {
      pad := 0;
      FlattenNone<int>();
      assert xs + Repeat(fill, 0) == [];
    } else if |xs| <= n {
      pad := n - |xs|;
      FlattenCons(xs + Repeat(fill, pad), []);
    } else {
      pad := ChunksPadded(n, xs[n..], fill);
      FlattenCons(xs[..n], Chunks(n, xs[n..], fill));
      assert xs[..n] + (xs[n..] + Repeat(fill, pad)) == xs + Repeat(fill, pad);
    }
  }

  lemma FlattenNone<T>()
    ensures Flatten<T>([]) == []
  {
  }

  /** Lines are full, of data and padding. */
  lemma {:induction false} ChunksFull(n: nat, xs: seq<int>, fill: int)
    requires n > 0
    ensures forall g | g in Chunks(n, xs, fill) :: |g| == n && forall x | x in g :: x == fill || x in xs
    decreases |xs|
  {
    if |xs| > n {
      ChunksFull(n, xs[n..], fill);
      forall g | g in Chunks(n, xs[n..], fill), x | x in g ensures x == fill || x in xs {
        assert x == fill || x in xs[n..];
      }
    }
  }

  /**
    Nothing is lost: for groups that divide the line, the dump succeeds, every
    marker precedes a line, and reading markers as copies of the line after them
    gives back the lines at their true offsets, hence the data.
   */
  lemma Lossless(data: seq<Byte>, c: Config)
    requires data != [] && c.width > 0 && c.groupWidth > 0 && c.width % c.groupWidth == 0
    ensures !Dump(data, c).failed
    ensures Expand(Dump(data, c).items, 0, c) == Some(Chunks(c.width, data, BLANK))
    ensures Bytes(Flatten(Expand(Dump(data, c).items, 0, c).value)) == data
  {
    var lines := Chunks(c.width, data, BLANK);
    var pad := ChunksPadded(c.width, data, BLANK);
    ChunksFull(c.width, data, BLANK);
    forall line | line in lines ensures |line| == c.width && NO_VALUE !in line {
      assert forall x | x in line :: x == BLANK || x in data;
    }
    RestExpands(lines, 0, -1, c);
    assert lines[0..] == lines;
    BytesThenBlanks(data, pad);
  }

  // ----- When it fails -----

  lemma ShortMod(m: nat, n: nat)
    requires 0 < m <= n
    ensures m % n == 0 <==> m == n
  {
  }

  lemma LastChunkColoured(n: nat, xs: seq<int>)
    requires 0 < |xs| <= n && NO_VALUE !in xs
    ensures Coloured([xs + Repeat(NO_VALUE, n - |xs|)]) <==> |xs| == n
  {
    var groups := [xs + Repeat(NO_VALUE, n - |xs|)];
    if |xs| < n {
      assert groups[0][|xs|] == NO_VALUE;
    }
  }

  lemma {:induction false} ChunksColoured(n: nat, xs: seq<int>)
    requires n > 0 && NO_VALUE !in xs
    ensures Coloured(Chunks(n, xs, NO_VALUE)) <==> |xs| % n == 0
    decreases |xs|
  {
    hide Coloured;
    if xs == [] {
      NoGroupsColoured();
    } else if |xs| <= n {
      ShortMod(|xs|, n);
      LastChunkColoured(n, xs);
    } else {
      ModStep(|xs|, n);
      ChunksColoured(n, xs[n..]);
      ColouredCons(xs[..n], Chunks(n, xs[n..], NO_VALUE));
    }
  }

  lemma NoGroupsColoured()
    ensures Coloured([])
  {
  }

  lemma ColouredCons(group: seq<int>, groups: seq<seq<int>>)
    requires NO_VALUE !in group
    ensures Coloured([group] + groups) <==> Coloured(groups)
  {
    var all := [group] + groups;
    forall i | 0 <= i < |groups| ensures all[i + 1] == groups[i] {
    }
    if Coloured(all) {
      forall i, j | 0 <= i < |groups| && 0 <= j < |groups[i]| ensures groups[i][j] != NO_VALUE {
        assert all[i + 1][j] != NO_VALUE;
      }
    }
  }

  /** The first line is shown, or the dump yields nothing at all. */
  lemma FirstLine(lines: seq<seq<int>>, c: Config)
    requires lines != [] && Show(lines[0], 0, c).None?
    ensures Rest(lines, 0, -1, c) == Run([], true)
  {
  }

  /**
    For positive widths, dumping data fails exactly when the groups do not divide
    the line, and then before anything is yielded.
   */
  lemma FailsExactly(data: seq<Byte>, c: Config)
    requires data != [] && c.width > 0 && c.groupWidth > 0
    ensures Dump(data, c).failed <==> c.width % c.groupWidth != 0
    ensures Dump(data, c).failed ==> Dump(data, c).items == []
  {
    if c.width % c.groupWidth == 0 {
      Lossless(data, c);
    } else {
      var lines := Chunks(c.width, data, BLANK);
      ChunksFull(c.width, data, BLANK);
      assert lines != [] && lines[0] in lines;
      assert NO_VALUE !in lines[0] by {
        assert forall x | x in lines[0] :: x == BLANK || x in data;
      }
      ChunksColoured(c.groupWidth, lines[0]);
      FirstLine(lines, c);
    }
  }

  lemma RestStep(lines: seq<seq<int>>, i: nat, skipLines: int, c: Config)
    requires i < |lines|
    ensures Rest(lines, i, skipLines, c) ==
            if c.skip && SameAsNext(lines, i) then
              if skipLines + 1 != 0 then Rest(lines, i + 1, skipLines + 1, c)
              else Yield(Show(lines[i], i, c), Rest(lines, i + 1, 0, c))
            else if c.skip && skipLines > 0 then
              Yield(Some(Marker(skipLines, skipLines * c.width)), Yield(Show(lines[i], i, c), Rest(lines, i + 1, -1, c)))
            else Yield(Show(lines[i], i, c), Rest(lines, i + 1, skipLines, c))
  {
  }
}
