/**
  Exactly what a dump yields: the lines by their runs, and what each line looks
  like (pwndbg/hexdump.py:88-151).
 */
module HexdumpItems {
  import opened Options
  import opened Hexdump
  import opened HexdumpRuns

  // ----- The output by runs -----

  /** The end of the run of equal lines that begins at `i`. */
  function EndOfRun(lines: seq<seq<int>>, i: nat): (n: nat)
    requires i < |lines|
    ensures HexdumpRuns.Run(lines, i, n) && Fresh(lines, n)
    decreases |lines| - i
  {
    if i + 1 < |lines| && lines[i + 1] == lines[i] then EndOfRun(lines, i + 1) else i + 1
  }

  /**
    The output, run by run.  A single line is shown.  Of a longer run the first
    and the last line are shown, with a marker for the others between them, if
    there are any.  But after a run of two, the next longer run is `stale`: its
    first line is counted as skipped as well, and not shown.
   */
  function ByRuns(lines: seq<seq<int>>, i: nat, stale: bool, c: Config): seq<Item>
    requires i <= |lines| && forall k | i <= k < |lines| :: Show(lines[k], k, c).Some?
    decreases |lines| - i
  {
    if i == |lines| then []
    else
      var n := EndOfRun(lines, i);
      var last := Shown(lines, n - 1, c);
      if n - i == 1 then [last] + ByRuns(lines, n, stale, c)
      else if stale then [Marker(n - i - 1, (n - i - 1) * c.width)] + ([last] + ByRuns(lines, n, false, c))
      else if n - i == 2 then [Shown(lines, i, c)] + ([last] + ByRuns(lines, n, true, c))
      else [Shown(lines, i, c)] + ([Marker(n - i - 2, (n - i - 2) * c.width)] + ([last] + ByRuns(lines, n, false, c)))
  }

  lemma AllShown(lines: seq<seq<int>>, c: Config)
    requires Proper(lines, c)
    ensures forall k | 0 <= k < |lines| :: Show(lines[k], k, c).Some?
  {
    hide Show;
    hide Proper;
    forall k | 0 <= k < |lines| ensures Show(lines[k], k, c).Some? {
      ShownIs(lines, k, c);
    }
  }

  lemma StaleRun(lines: seq<seq<int>>, i: nat, n: nat, c: Config)
    requires Proper(lines, c) && c.skip && HexdumpRuns.Run(lines, i, n)
    ensures Show(lines[n - 1], n - 1, c).Some?
    ensures Rest(lines, i, 0, c).items ==
            if n - i == 1 then [Shown(lines, n - 1, c)] + Rest(lines, n, 0, c).items
            else [Marker(n - i - 1, (n - i - 1) * c.width)] + ([Shown(lines, n - 1, c)] + Rest(lines, n, -1, c).items)
  {
    RunBounds(lines, i, n);
    hide *;
    InsideRun(lines, i, n, 0, c);
    LastOfRun(lines, i, n, n - 1 - i, c);
  }

  lemma FreshRun(lines: seq<seq<int>>, i: nat, n: nat, c: Config)
    requires Proper(lines, c) && c.skip && HexdumpRuns.Run(lines, i, n)
    ensures Show(lines[i], i, c).Some? && Show(lines[n - 1], n - 1, c).Some?
    ensures Rest(lines, i, -1, c).items ==
            if n - i == 1 then [Shown(lines, n - 1, c)] + Rest(lines, n, -1, c).items
            else if n - i == 2 then [Shown(lines, i, c)] + ([Shown(lines, n - 1, c)] + Rest(lines, n, 0, c).items)
            else [Shown(lines, i, c)] + ([Marker(n - i - 2, (n - i - 2) * c.width)] + ([Shown(lines, n - 1, c)] + Rest(lines, n, -1, c).items))
  {
    RunBounds(lines, i, n);
    hide *;
    if n - i == 1 {
      LastOfRun(lines, i, n, -1, c);
    } else {
      FirstOfRun(lines, i, n, c);
      StaleRun(lines, i + 1, n, c);
    }
  }

  lemma {:induction false} RestByRuns(lines: seq<seq<int>>, i: nat, stale: bool, c: Config)
    requires Proper(lines, c) && c.skip && i <= |lines|
    requires forall k | 0 <= k < |lines| :: Show(lines[k], k, c).Some?
    ensures Rest(lines, i, if stale then 0 else -1, c).items == ByRuns(lines, i, stale, c)
    decreases |lines| - i
  {
    hide *;
    if i == |lines| {
      RestNone(lines, if stale then 0 else -1, c);
      ByRunsNone(lines, stale, c);
    } else {
      var n := EndOfRun(lines, i);
      RunBounds(lines, i, n);
      ByRunsStep(lines, i, stale, c);
      if stale {
        StaleRun(lines, i, n, c);
        RestByRuns(lines, n, n - i == 1, c);
      } else {
        FreshRun(lines, i, n, c);
        RestByRuns(lines, n, n - i == 2, c);
      }
    }
  }

  lemma ByRunsNone(lines: seq<seq<int>>, stale: bool, c: Config)
    ensures ByRuns(lines, |lines|, stale, c) == []
  {
  }

  lemma ByRunsStep(lines: seq<seq<int>>, i: nat, stale: bool, c: Config)
    requires i < |lines| && forall k | 0 <= k < |lines| :: Show(lines[k], k, c).Some?
    ensures var n := EndOfRun(lines, i);
            && i < n <= |lines|
            && ByRuns(lines, i, stale, c) ==
               var last := Shown(lines, n - 1, c);
               if n - i == 1 then [last] + ByRuns(lines, n, stale, c)
               else if stale then [Marker(n - i - 1, (n - i - 1) * c.width)] + ([last] + ByRuns(lines, n, false, c))
               else if n - i == 2 then [Shown(lines, i, c)] + ([last] + ByRuns(lines, n, true, c))
               else [Shown(lines, i, c)] + ([Marker(n - i - 2, (n - i - 2) * c.width)] + ([last] + ByRuns(lines, n, false, c)))
  {
    hide Show;
    hide EndOfRun;
    hide Shown;
  }

  lemma RunBounds(lines: seq<seq<int>>, i: nat, n: nat)
    requires HexdumpRuns.Run(lines, i, n)
    ensures i < n <= |lines|
  {
  }

  // ----- What the lines look like -----

  /**
    A group holds its bytes twice: as they are, and in cells, which run backwards
    if groups are flipped; the last cell of a flipped group is highlighted.
   */
  ghost predicate GroupLooks(text: seq<int>, hex: seq<Cell>, c: Config) {
    && |text| == |hex| == c.groupWidth
    && forall b | 0 <= b < c.groupWidth ::
         && hex[b].value == text[if c.flip then c.groupWidth - 1 - b else b]
         && (hex[b].highlighted <==> c.flip && b == c.groupWidth - 1)
  }

  /** The groups of a line are the line, cut up. */
  ghost predicate Looks(item: Item, line: seq<int>, k: nat, c: Config) {
    && item.Line?
    && item.offset == c.offset + k * c.width && item.address == c.address + k * c.width
    && Flatten(item.text) == line
    && |item.hex| == |item.text|
    && forall g | 0 <= g < |item.text| :: GroupLooks(item.text[g], item.hex[g], c)
  }

  lemma HexGroupLooks(group: seq<int>, c: Config)
    requires |group| == c.groupWidth
    ensures GroupLooks(group, HexGroup(group, c), c)
  {
  }

  lemma GroupsLook(groups: seq<seq<int>>, c: Config)
    requires forall g | 0 <= g < |groups| :: |groups[g]| == c.groupWidth
    ensures |HexGroups(groups, c)| == |groups|
    ensures forall g | 0 <= g < |groups| :: GroupLooks(groups[g], HexGroups(groups, c)[g], c)
  {
    hide HexGroup;
    hide GroupLooks;
    forall g | 0 <= g < |groups| ensures GroupLooks(groups[g], HexGroups(groups, c)[g], c) {
      HexGroupLooks(groups[g], c);
    }
  }

  lemma LineGroups(line: seq<int>, c: Config) returns (groups: seq<seq<int>>)
    requires Proper([line], c)
    ensures Group(c.groupWidth, line, NO_VALUE) == Some(groups)
    ensures Flatten(groups) == line && forall g | 0 <= g < |groups| :: |groups[g]| == c.groupWidth
  {
    assert line in [line];
    groups := Chunks(c.groupWidth, line, NO_VALUE);
    ChunksExact(c.groupWidth, line, NO_VALUE);
    hide Chunks;
    hide Flatten;
  }

  lemma ShownGroups(lines: seq<seq<int>>, k: nat, c: Config, groups: seq<seq<int>>)
    requires k < |lines| && Show(lines[k], k, c).Some? && Group(c.groupWidth, lines[k], NO_VALUE) == Some(groups)
    ensures Shown(lines, k, c) == Line(c.offset + k * c.width, c.address + k * c.width, HexGroups(groups, c), groups)
  {
    hide HexGroups;
    hide Group;
    hide Coloured;
  }

  lemma OneProper(lines: seq<seq<int>>, k: nat, c: Config)
    requires Proper(lines, c) && k < |lines|
    ensures Proper([lines[k]], c)
  {
  }

  lemma ShownLooks(lines: seq<seq<int>>, k: nat, c: Config)
    requires Proper(lines, c) && k < |lines|
    ensures Show(lines[k], k, c).Some?
    ensures Looks(Shown(lines, k, c), lines[k], k, c)
  {
    hide *;
    ShownIs(lines, k, c);
    OneProper(lines, k, c);
    var groups := LineGroups(lines[k], c);
    ShownGroups(lines, k, c, groups);
    GroupsLook(groups, c);
    LooksLine(Shown(lines, k, c), groups, lines[k], k, c);
  }

  lemma LooksLine(item: Item, groups: seq<seq<int>>, line: seq<int>, k: nat, c: Config)
    requires item == Line(c.offset + k * c.width, c.address + k * c.width, HexGroups(groups, c), groups)
    requires Flatten(groups) == line && |HexGroups(groups, c)| == |groups|
    requires forall g | 0 <= g < |groups| :: GroupLooks(groups[g], HexGroups(groups, c)[g], c)
    ensures Looks(item, line, k, c)
  {
    hide HexGroups;
    hide GroupLooks;
    hide Flatten;
  }

  /** The lines of the data: full, except that the last one is filled up with blanks. */
  ghost predicate Cuts(lines: seq<seq<int>>, data: seq<Byte>, width: nat) {
    && |data| <= |lines| * width < |data| + width
    && forall k | 0 <= k < |lines| :: CutAt(lines[k], k, data, width)
  }

  ghost predicate CutAt(line: seq<int>, k: nat, data: seq<Byte>, width: nat) {
    var at := k * width;
    && |line| == width
    && forall b | 0 <= b < width :: 0 <= at + b && line[b] == if at + b < |data| then data[at + b] else -1
  }

  lemma {:induction false} ChunksCut(width: nat, data: seq<Byte>)
    requires width > 0
    ensures Cuts(Chunks(width, data, BLANK), data, width)
    decreases |data|
  {
    if |data| > width {
      ChunksCut(width, data[width..]);
      CutMore(width, data, Chunks(width, data[width..], BLANK));
    }
  }

  lemma CutMore(width: nat, data: seq<Byte>, rest: seq<seq<int>>)
    requires |data| > width > 0 && Cuts(rest, data[width..], width)
    ensures Cuts([data[..width]] + rest, data, width)
  {
    var lines: seq<seq<int>> := [data[..width]] + rest;
    OneMore(|rest|, width);
    forall k | 0 <= k < |lines| ensures CutAt(lines[k], k, data, width) {
      if k > 0 {
        OneMore(k - 1, width);
        assert lines[k] == rest[k - 1];
        assert CutAt(rest[k - 1], k - 1, data[width..], width);
      }
    }
  }

  lemma OneMore(k: nat, width: nat)
    ensures (1 + k) * width == width + k * width && k * width >= 0
  {
  }

  /**
    Everything a dump yields, for groups that divide the line.  No data is one item
    with offset and address.  Otherwise the data is cut into lines, every line is
    shown as it should look, all of them without skipping, and by their runs with it.
   */
  lemma DumpIs(data: seq<Byte>, c: Config) returns (lines: seq<seq<int>>)
    requires c.width > 0 && c.groupWidth > 0 && c.width % c.groupWidth == 0
    ensures !Dump(data, c).failed
    ensures data == [] ==> Dump(data, c).items == [Empty(c.offset, c.address)]
    ensures Cuts(lines, data, c.width)
    ensures forall k | 0 <= k < |lines| :: Show(lines[k], k, c).Some? && Looks(Shown(lines, k, c), lines[k], k, c)
    ensures data != [] && !c.skip ==>
              |Dump(data, c).items| == |lines| && forall k | 0 <= k < |lines| :: Dump(data, c).items[k] == Shown(lines, k, c)
    ensures data != [] && c.skip ==> Dump(data, c).items == ByRuns(lines, 0, false, c)
  {
    lines := Chunks(c.width, data, BLANK);
    ChunksCut(c.width, data);
    if data == [] {
      assert lines == [];
    } else {
      DumpLines(data, c);
      Lossless(data, c);
      hide *;
      LinesAre(lines, c);
    }
  }

  lemma LinesAre(lines: seq<seq<int>>, c: Config)
    requires Proper(lines, c)
    ensures forall k | 0 <= k < |lines| :: Show(lines[k], k, c).Some? && Looks(Shown(lines, k, c), lines[k], k, c)
    ensures !c.skip ==>
              |Rest(lines, 0, -1, c).items| == |lines| && forall k | 0 <= k < |lines| :: Rest(lines, 0, -1, c).items[k] == Shown(lines, k, c)
    ensures c.skip ==> Rest(lines, 0, -1, c).items == ByRuns(lines, 0, false, c)
  {
    hide *;
    AllShown(lines, c);
    forall k | 0 <= k < |lines| ensures Looks(Shown(lines, k, c), lines[k], k, c) {
      ShownLooks(lines, k, c);
    }
    if c.skip {
      RestByRuns(lines, 0, false, c);
    } else {
      RestWhole(lines, 0, c);
    }
  }

  lemma {:induction false} RestWhole(lines: seq<seq<int>>, i: nat, c: Config)
    requires Proper(lines, c) && !c.skip && i <= |lines|
    requires forall k | 0 <= k < |lines| :: Show(lines[k], k, c).Some?
    ensures |Rest(lines, i, -1, c).items| == |lines| - i
    ensures forall k | i <= k < |lines| :: Rest(lines, i, -1, c).items[k - i] == Shown(lines, k, c)
    decreases |lines| - i
  {
    hide Show;
    hide Proper;
    if i < |lines| {
      RestStep(lines, i, -1, c);
      RestWhole(lines, i + 1, c);
      var rest := Rest(lines, i + 1, -1, c).items;
      assert Rest(lines, i, -1, c).items == [Shown(lines, i, c)] + rest;
      hide Rest;
      forall k | i < k < |lines| ensures ([Shown(lines, i, c)] + rest)[k - i] == Shown(lines, k, c) {
        assert rest[k - (i + 1)] == Shown(lines, k, c);
      }
    }
  }
}
