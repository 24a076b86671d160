/**
  What the "skipped" markers of a hexdump refer to (pwndbg/hexdump.py:93-125):
  the line above a marker is the line it counts, unless the counter was left at
  zero by an earlier run of two lines.
 */
module HexdumpRuns {
  import opened Options
  import opened Hexdump

  // ----- Markers and the lines around them -----

  /** Marker `p` stands between two lines with the same text. */
  ghost predicate MarkerBetween(items: seq<Item>, p: nat)
    requires p < |items|
  {
    && 0 < p && items[p - 1].Line? && p + 1 < |items| && items[p + 1].Line?
    && TextOf(items[p - 1]) == TextOf(items[p + 1])
  }

  ghost predicate MarkersBetween(items: seq<Item>) {
    forall p: nat | p < |items| && items[p].Marker? :: MarkerBetween(items, p)
  }

  /** Lines `i` and `i + 1` are a maximal run of equal lines. */
  predicate Pair(lines: seq<seq<int>>, i: nat) {
    && i + 1 < |lines| && lines[i] == lines[i + 1]
    && (i == 0 || lines[i - 1] != lines[i])
    && (i + 2 == |lines| || lines[i + 2] != lines[i])
  }

  predicate EqualAt(lines: seq<seq<int>>, j: nat) {
    j + 1 < |lines| && lines[j] == lines[j + 1]
  }

  /** From line `from` on, a line equals the next one. */
  ghost predicate SomeEqual(lines: seq<seq<int>>, from: nat) {
    exists j: nat :: from <= j && EqualAt(lines, j)
  }

  /** From line `from` on there is a run of exactly two with equal neighbours somewhere behind it. */
  ghost predicate PairThenEqual(lines: seq<seq<int>>, from: nat) {
    exists i: nat :: from <= i && Pair(lines, i) && SomeEqual(lines, i + 2)
  }

  /** Every marker of `items` is good if the line before them shows `prev`. */
  predicate Follows(prev: Option<seq<int>>, items: seq<Item>)
    decreases |items|
  {
    if items == [] then true
    else
      match items[0]
      case Empty(_, _) => Follows(None, items[1..])
      case Line(_, _, _, _) => Follows(Some(TextOf(items[0])), items[1..])
      case Marker(_, _) =>
        && prev.Some? && |items| > 1 && items[1].Line? && TextOf(items[1]) == prev.value
        && Follows(None, items[1..])
  }

  /** The text that item `p - 1` shows, if it is a line. */
  function Above(items: seq<Item>, p: nat): Option<seq<int>>
    requires p <= |items|
  {
    if p > 0 && items[p - 1].Line? then Some(TextOf(items[p - 1])) else None
  }

  lemma {:induction false} FollowsMeans(items: seq<Item>, p: nat)
    requires p <= |items|
    ensures Follows(Above(items, p), items[p..]) <==> forall q: nat | p <= q < |items| && items[q].Marker? :: MarkerBetween(items, q)
    decreases |items| - p
  {
    hide TextOf;
    if p < |items| {
      assert items[p..][0] == items[p] && items[p..][1..] == items[p + 1..];
      assert p + 1 < |items| ==> items[p..][1] == items[p + 1];
      FollowsMeans(items, p + 1);
      assert (forall q: nat | p <= q < |items| && items[q].Marker? :: MarkerBetween(items, q)) <==>
        (items[p].Marker? ==> MarkerBetween(items, p)) && forall q: nat | p + 1 <= q < |items| && items[q].Marker? :: MarkerBetween(items, q);
    }
  }

  // ----- Runs -----

  /** All of lines `i` to `n - 1` are equal, and `n` begins another run. */
  ghost predicate Run(lines: seq<seq<int>>, i: nat, n: nat) {
    && i < n <= |lines|
    && (forall j | i <= j < n :: lines[j] == lines[i])
    && (n == |lines| || lines[n] != lines[i])
  }

  /** Line `i` does not continue the line before. */
  predicate Fresh(lines: seq<seq<int>>, i: nat) {
    i <= |lines| && (i == 0 || i == |lines| || lines[i - 1] != lines[i])
  }

  lemma {:induction false} RunEnd(lines: seq<seq<int>>, i: nat) returns (n: nat)
    requires i < |lines|
    ensures Run(lines, i, n) && Fresh(lines, n)
    decreases |lines| - i
  {
    if i + 1 < |lines| && lines[i + 1] == lines[i] {
      n := RunEnd(lines, i + 1);
    } else {
      n := i + 1;
    }
  }

  lemma RunHasNoPair(lines: seq<seq<int>>, i: nat, n: nat)
    requires Fresh(lines, i) && Run(lines, i, n) && n != i + 2
    ensures PairThenEqual(lines, i) <==> PairThenEqual(lines, n)
  {
    forall a: nat | i <= a < n ensures !Pair(lines, a) {
      NotPairInside(lines, i, n, a);
    }
    hide Pair;
    hide SomeEqual;
  }

  lemma NotPairInside(lines: seq<seq<int>>, i: nat, n: nat, a: nat)
    requires Fresh(lines, i) && Run(lines, i, n) && n != i + 2 && i <= a < n
    ensures !Pair(lines, a)
  {
    assert lines[a] == lines[i];
    assert a > i ==> lines[a - 1] == lines[i];
    assert a + 1 < n ==> lines[a + 1] == lines[i];
    assert a + 2 < n ==> lines[a + 2] == lines[i];
  }

  lemma RunIsPair(lines: seq<seq<int>>, i: nat)
    requires Fresh(lines, i) && Run(lines, i, i + 2)
    ensures PairThenEqual(lines, i) <==> SomeEqual(lines, i + 2)
  {
    assert lines[i + 1] == lines[i];
    assert Pair(lines, i);
    hide Pair;
    hide SomeEqual;
    if PairThenEqual(lines, i) {
      var a: nat :| i <= a && Pair(lines, a) && SomeEqual(lines, a + 2);
      Later(lines, i + 2, a + 2);
    }
  }

  lemma Later(lines: seq<seq<int>>, i: nat, k: nat)
    requires i <= k && SomeEqual(lines, k)
    ensures SomeEqual(lines, i)
  {
    var j: nat :| k <= j && EqualAt(lines, j);
    assert i <= j;
  }

  lemma RunEqual(lines: seq<seq<int>>, i: nat, n: nat)
    requires Run(lines, i, n)
    ensures SomeEqual(lines, i) <==> n > i + 1 || SomeEqual(lines, n)
  {
    if n > i + 1 {
      assert lines[i + 1] == lines[i];
      assert EqualAt(lines, i);
    } else {
      EqualFrom(lines, i);
    }
  }

  lemma EqualFrom(lines: seq<seq<int>>, i: nat)
    ensures SomeEqual(lines, i) <==> EqualAt(lines, i) || SomeEqual(lines, i + 1)
  {
    hide EqualAt;
    if SomeEqual(lines, i) {
      var j: nat :| i <= j && EqualAt(lines, j);
      assert j == i || i + 1 <= j;
    }
    if SomeEqual(lines, i + 1) {
      Later(lines, i, i + 1);
    }
  }

  // ----- What the loop yields for one run -----

  /** The run of equal lines from `i` to `n - 1`, entered inside with the counter at `skipLines >= 0`. */
  lemma {:induction false} InsideRun(lines: seq<seq<int>>, i: nat, n: nat, skipLines: int, c: Config)
    requires c.skip && Run(lines, i, n) && skipLines >= 0
    ensures Rest(lines, i, skipLines, c) == Rest(lines, n - 1, skipLines + (n - 1 - i), c)
    decreases n - i
  {
    hide Show;
    if i + 1 < n {
      assert lines[i + 1] == lines[i];
      assert SameAsNext(lines, i);
      RestStep(lines, i, skipLines, c);
      assert Run(lines, i + 1, n);
      InsideRun(lines, i + 1, n, skipLines + 1, c);
    }
  }

  /** The shown line `i`. */
  function Shown(lines: seq<seq<int>>, i: nat, c: Config): Item
    requires i < |lines| && Show(lines[i], i, c).Some?
  {
    Show(lines[i], i, c).value
  }

  lemma ShownIs(lines: seq<seq<int>>, i: nat, c: Config)
    requires Proper(lines, c) && i < |lines|
    ensures Show(lines[i], i, c).Some? && Shown(lines, i, c).Line? && TextOf(Shown(lines, i, c)) == lines[i]
  {
    assert lines[i] in lines;
    ShowFaithful(lines[i], i, c);
  }

  /** The last line of a run, where the counter decides about the marker. */
  lemma LastOfRun(lines: seq<seq<int>>, i: nat, n: nat, skipLines: int, c: Config)
    requires Proper(lines, c) && c.skip && Run(lines, i, n) && skipLines >= -1
    ensures Show(lines[n - 1], n - 1, c).Some?
    ensures Rest(lines, n - 1, skipLines, c).items ==
            if skipLines > 0 then [Marker(skipLines, skipLines * c.width)] + ([Shown(lines, n - 1, c)] + Rest(lines, n, -1, c).items)
            else [Shown(lines, n - 1, c)] + Rest(lines, n, skipLines, c).items
  {
    ShownIs(lines, n - 1, c);
    RestStep(lines, n - 1, skipLines, c);
    assert lines[n - 1] == lines[i];
    assert !SameAsNext(lines, n - 1);
    hide Show;
  }

  /** The first line of a longer run, with the counter reset. */
  lemma FirstOfRun(lines: seq<seq<int>>, i: nat, n: nat, c: Config)
    requires Proper(lines, c) && c.skip && Run(lines, i, n) && n > i + 1
    ensures Show(lines[i], i, c).Some?
    ensures Rest(lines, i, -1, c).items == [Shown(lines, i, c)] + Rest(lines, i + 1, 0, c).items
    ensures Run(lines, i + 1, n)
  {
    ShownIs(lines, i, c);
    assert lines[i + 1] == lines[i];
    RestStep(lines, i, -1, c);
    hide Show;
  }

  lemma FollowsLine(prev: Option<seq<int>>, item: Item, items: seq<Item>)
    requires item.Line?
    ensures Follows(prev, [item] + items) <==> Follows(Some(TextOf(item)), items)
  {
    hide TextOf;
    assert ([item] + items)[1..] == items;
  }

  lemma FollowsMarker(prev: Option<seq<int>>, n: int, bytes: int, item: Item, items: seq<Item>)
    requires item.Line?
    ensures Follows(prev, [Marker(n, bytes)] + ([item] + items)) <==>
            prev == Some(TextOf(item)) && Follows(Some(TextOf(item)), items)
  {
    hide TextOf;
    assert ([Marker(n, bytes)] + ([item] + items))[1..] == [item] + items;
    FollowsLine(None, item, items);
  }

  /** With a counter left at zero, the next run of equal lines puts a marker in the wrong place, and nothing else does. */
  lemma {:induction false} StaleRest(lines: seq<seq<int>>, i: nat, c: Config, prev: Option<seq<int>>)
    requires Proper(lines, c) && c.skip && Fresh(lines, i)
    requires prev == if i == 0 then None else Some(lines[i - 1])
    ensures Follows(prev, Rest(lines, i, 0, c).items) <==> !SomeEqual(lines, i)
    decreases |lines| - i
  {
    hide TextOf;
    hide Follows;
    if i == |lines| {
      NothingFollows(prev);
      RestNone(lines, 0, c);
    } else {
      var n := RunEnd(lines, i);
      InsideRun(lines, i, n, 0, c);
      LastOfRun(lines, i, n, n - 1 - i, c);
      ShownIs(lines, n - 1, c);
      assert lines[n - 1] == lines[i];
      RunEqual(lines, i, n);
      hide Rest;
      hide Proper;
      hide Shown;
      hide SomeEqual;
      hide Run;
      hide Show;
      if n == i + 1 {
        FollowsLine(prev, Shown(lines, i, c), Rest(lines, n, 0, c).items);
        StaleRest(lines, n, c, Some(lines[i]));
      } else {
        FollowsMarker(prev, n - 1 - i, (n - 1 - i) * c.width, Shown(lines, n - 1, c), Rest(lines, n, -1, c).items);
      }
    }
  }

  lemma NothingFollows(prev: Option<seq<int>>)
    ensures Follows(prev, [])
  {
  }

  lemma RestNone(lines: seq<seq<int>>, skipLines: int, c: Config)
    ensures Rest(lines, |lines|, skipLines, c).items == []
  {
  }

  /** With the counter reset, markers stay in place exactly until a run of two is followed by equal lines. */
  lemma {:induction false} FreshRest(lines: seq<seq<int>>, i: nat, c: Config, prev: Option<seq<int>>)
    requires Proper(lines, c) && c.skip && Fresh(lines, i)
    ensures Follows(prev, Rest(lines, i, -1, c).items) <==> !PairThenEqual(lines, i)
    decreases |lines| - i
  {
    hide TextOf;
    hide Follows;
    if i == |lines| {
      NothingFollows(prev);
      RestNone(lines, -1, c);
    } else {
      var n := RunEnd(lines, i);
      if n == i + 1 {
        OneLine(lines, i, c, prev);
        FreshRest(lines, n, c, Some(lines[i]));
        RunHasNoPair(lines, i, n);
      } else {
        LongRun(lines, i, n, c, prev);
        if n == i + 2 {
          StaleRest(lines, n, c, Some(lines[i]));
          RunIsPair(lines, i);
        } else {
          FreshRest(lines, n, c, Some(lines[i]));
          RunHasNoPair(lines, i, n);
        }
      }
    }
  }

  lemma OneLine(lines: seq<seq<int>>, i: nat, c: Config, prev: Option<seq<int>>)
    requires Proper(lines, c) && c.skip && Run(lines, i, i + 1)
    ensures Follows(prev, Rest(lines, i, -1, c).items) <==> Follows(Some(lines[i]), Rest(lines, i + 1, -1, c).items)
  {
    hide Follows;
    hide TextOf;
    LastOfRun(lines, i, i + 1, -1, c);
    ShownIs(lines, i, c);
    hide Rest;
    FollowsLine(prev, Shown(lines, i, c), Rest(lines, i + 1, -1, c).items);
  }

  lemma LongRun(lines: seq<seq<int>>, i: nat, n: nat, c: Config, prev: Option<seq<int>>)
    requires Proper(lines, c) && c.skip && Run(lines, i, n) && n > i + 1
    ensures Follows(prev, Rest(lines, i, -1, c).items) <==>
            Follows(Some(lines[i]), Rest(lines, n, if n == i + 2 then 0 else -1, c).items)
    ensures lines[n - 1] == lines[i]
  {
    FirstOfRun(lines, i, n, c);
    ShownIs(lines, i, c);
    assert lines[n - 1] == lines[i] == lines[i + 1];
    RestOfRun(lines, i + 1, n, c);
    hide *;
    FollowsLine(prev, Shown(lines, i, c), Rest(lines, i + 1, 0, c).items);
  }

  /** The lines of a run after its first. */
  lemma RestOfRun(lines: seq<seq<int>>, i: nat, n: nat, c: Config)
    requires Proper(lines, c) && c.skip && Run(lines, i, n)
    ensures Follows(Some(lines[i]), Rest(lines, i, 0, c).items) <==>
            Follows(Some(lines[i]), Rest(lines, n, if n == i + 1 then 0 else -1, c).items)
  {
    InsideRun(lines, i, n, 0, c);
    LastOfRun(lines, i, n, n - 1 - i, c);
    ShownIs(lines, n - 1, c);
    assert lines[n - 1] == lines[i];
    hide *;
    if n == i + 1 {
      FollowsLine(Some(lines[i]), Shown(lines, n - 1, c), Rest(lines, n, 0, c).items);
    } else {
      FollowsMarker(Some(lines[i]), n - 1 - i, (n - 1 - i) * c.width, Shown(lines, n - 1, c), Rest(lines, n, -1, c).items);
    }
  }

  lemma DumpLines(data: seq<Byte>, c: Config)
    requires data != [] && c.width > 0 && c.groupWidth > 0 && c.width % c.groupWidth == 0
    ensures Proper(Chunks(c.width, data, BLANK), c)
    ensures Dump(data, c) == Rest(Chunks(c.width, data, BLANK), 0, -1, c)
  {
    ChunksFull(c.width, data, BLANK);
    forall line | line in Chunks(c.width, data, BLANK) ensures |line| == c.width && NO_VALUE !in line {
      assert forall x | x in line :: x == BLANK || x in data;
    }
  }

  /**
    With skipping, every marker stands between two lines with the text it counts
    if and only if no run of exactly two equal lines is followed, anywhere, by
    two equal neighbours.
   */
  lemma MarkersBetweenExactly(data: seq<Byte>, c: Config)
    requires c.skip && c.width > 0 && c.groupWidth > 0 && c.width % c.groupWidth == 0
    ensures MarkersBetween(Dump(data, c).items) <==> !PairThenEqual(Chunks(c.width, data, BLANK), 0)
  {
    if data != [] {
      var lines := Chunks(c.width, data, BLANK);
      DumpLines(data, c);
      FreshRest(lines, 0, c, None);
      hide Rest;
      hide Dump;
      hide Chunks;
      var items := Dump(data, c).items;
      FollowsMeans(items, 0);
      assert items[0..] == items;
      assert MarkersBetween(items) <==> forall q: nat | 0 <= q < |items| && items[q].Marker? :: MarkerBetween(items, q);
    }
  }

  /** Two lines `a` and two lines `b`: the marker counts the line below it, not the one above. */
  lemma SecondRunSkipsItsFirst(a: seq<Byte>, b: seq<Byte>, c: Config)
    requires c.skip && c.width > 0 && c.groupWidth > 0 && c.width % c.groupWidth == 0
    requires |a| == |b| == c.width && a != b
    ensures !MarkersBetween(Dump(a + a + b + b, c).items)
  {
    var data := a + a + b + b;
    FourChunks(a, a, b, b, c.width);
    var lines := Chunks(c.width, data, BLANK);
    assert lines == [a, a, b, b];
    assert Pair(lines, 0);
    assert EqualAt(lines, 2);
    MarkersBetweenExactly(data, c);
  }

  lemma FourChunks(a: seq<int>, b: seq<int>, d: seq<int>, e: seq<int>, n: nat)
    requires n > 0 && |a| == |b| == |d| == |e| == n
    ensures Chunks(n, a + b + d + e, BLANK) == [a, b, d, e]
  {
    assert a + b + d + e == a + (b + (d + e));
    LastChunk(e, n);
    OneChunk(d, e, n);
    OneChunk(b, d + e, n);
    OneChunk(a, b + (d + e), n);
    hide Chunks;
    assert [a] + ([b] + ([d] + [e])) == [a, b, d, e];
  }

  lemma OneChunk(a: seq<int>, rest: seq<int>, n: nat)
    requires n > 0 && |a| == n && rest != []
    ensures Chunks(n, a + rest, BLANK) == [a] + Chunks(n, rest, BLANK)
  {
    assert (a + rest)[..n] == a && (a + rest)[n..] == rest;
  }

  lemma LastChunk(a: seq<int>, n: nat)
    requires n > 0 && |a| == n
    ensures Chunks(n, a, BLANK) == [a]
  {
    assert a + Repeat(BLANK, 0) == a;
  }
}
