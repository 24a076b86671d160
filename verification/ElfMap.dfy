/**
  The rest of an ELF module's memory map: rebase, sort, merge, fill gaps
  (pwndbg/aglib/elf.py:466-497).
 */
module ElfMap {
  import opened Options
  import opened ElfOverlay

  // ----- Sorting -----

  ghost predicate Increasing(s: seq<Info>) {
    forall i, j | 0 <= i < j < |s| :: s[i].vaddr < s[j].vaddr
  }

  ghost predicate DistinctStarts(s: seq<Info>) {
    forall i, j | 0 <= i < j < |s| :: s[i].vaddr != s[j].vaddr
  }

  function Insert(s: seq<Info>, p: Info): (r: seq<Info>)
    ensures |r| == |s| + 1
  {
    if s == [] || p.vaddr < s[0].vaddr then [p] + s else [s[0]] + Insert(s[1..], p)
  }

  /** list.sort by address: insertion keeps the order of equal keys. */
  function Sort(s: seq<Info>): (r: seq<Info>)
    ensures |r| == |s|
  {
    if s == [] then [] else Insert(Sort(s[..|s| - 1]), s[|s| - 1])
  }

  lemma {:induction false} InsertElements(s: seq<Info>, p: Info)
    ensures multiset(Insert(s, p)) == multiset(s) + multiset{p}
    ensures forall q :: q in Insert(s, p) <==> q == p || q in s
    decreases |s|
  {
    if s != [] && p.vaddr >= s[0].vaddr {
      assert s == [s[0]] + s[1..];
      InsertElements(s[1..], p);
    }
  }

  lemma {:induction false} InsertIncreasing(s: seq<Info>, p: Info)
    requires Increasing(s) && forall q | q in s :: q.vaddr != p.vaddr
    ensures Increasing(Insert(s, p))
    decreases |s|
  {
    if s != [] && p.vaddr >= s[0].vaddr {
      InsertIncreasing(s[1..], p);
      InsertElements(s[1..], p);
      var rest := Insert(s[1..], p);
      forall q | q in rest ensures s[0].vaddr < q.vaddr {
        assert q == p || q in s[1..];
      }
    }
  }

  lemma SortKeeps(s: seq<Info>)
    ensures multiset(Sort(s)) == multiset(s)
    ensures DistinctStarts(s) ==> Increasing(Sort(s))
  {
    SortElements(s);
    if DistinctStarts(s) {
      SortIncreasing(s);
    }
  }

  lemma {:induction false} SortElements(s: seq<Info>)
    ensures multiset(Sort(s)) == multiset(s)
    decreases |s|
  {
    if s != [] {
      var front, p := s[..|s| - 1], s[|s| - 1];
      SortElements(front);
      InsertElements(Sort(front), p);
      hide Insert;
      LastAdds(s);
    }
  }

  lemma LastAdds(s: seq<Info>)
    requires s != []
    ensures multiset(s) == multiset(s[..|s| - 1]) + multiset{s[|s| - 1]}
  {
    assert s == s[..|s| - 1] + [s[|s| - 1]];
  }

  lemma {:induction false} SortIncreasing(s: seq<Info>)
    requires DistinctStarts(s)
    ensures Increasing(Sort(s))
    decreases |s|
  {
    if s != [] {
      var front, p := s[..|s| - 1], s[|s| - 1];
      SortIncreasing(front);
      SortElements(front);
      SameElements(Sort(front), front);
      hide Insert;
      hide Increasing;
      InsertIncreasing(Sort(front), p);
    }
  }

  lemma SameElements(s: seq<Info>, t: seq<Info>)
    requires multiset(s) == multiset(t)
    ensures |s| == |t| && forall p :: p in s <==> p in t
  {
    assert |multiset(s)| == |s| && |multiset(t)| == |t|;
    forall p ensures p in s <==> p in t {
      assert p in s <==> p in multiset(s);
      assert p in t <==> p in multiset(t);
    }
  }

  lemma SameTails(s: seq<Info>, t: seq<Info>)
    requires s != [] && t != [] && s[0] == t[0] && multiset(s) == multiset(t)
    ensures multiset(s[1..]) == multiset(t[1..])
  {
    assert s == [s[0]] + s[1..] && t == [t[0]] + t[1..];
    assert multiset(s[1..]) == multiset(s) - multiset{s[0]};
    assert multiset(t[1..]) == multiset(t) - multiset{t[0]};
  }

  /** There is one increasing arrangement. */
  lemma {:induction false} IncreasingUnique(s: seq<Info>, t: seq<Info>)
    requires Increasing(s) && Increasing(t) && multiset(s) == multiset(t)
    ensures s == t
    decreases |s|
  {
    SameElements(s, t);
    if s != [] {
      assert s[0] in t && t[0] in s;
      assert s[0] == t[0];
      SameTails(s, t);
      IncreasingUnique(s[1..], t[1..]);
      assert s == [s[0]] + s[1..] && t == [t[0]] + t[1..];
    }
  }

  // ----- Merging contiguous pages with the same write flag -----

  function Writable(p: Info): bv32 { p.flags & PF_W }

  predicate Mergeable(prev: Info, page: Info) {
    Writable(prev) == Writable(page) && End(prev) == page.vaddr
  }

  function MergeFrom(prev: Info, rest: seq<Info>): (r: seq<Info>)
    ensures r != []
    decreases |rest|
  {
    if rest == [] then [prev]
    else if Mergeable(prev, rest[0]) then MergeFrom(Grown(prev, rest[0]), rest[1..])
    else [prev] + MergeFrom(rest[0], rest[1..])
  }

  /** In order, non-empty, not overlapping. */
  ghost predicate Laid(s: seq<Info>) {
    && (forall i | 0 <= i < |s| :: s[i].memsz > 0)
    && (forall i | 0 <= i < |s| - 1 :: End(s[i]) <= s[i + 1].vaddr)
  }

  /** The first page that contains address `x`. */
  function Owner(s: seq<Info>, x: int): Option<Info> {
    if s == [] then None
    else if s[0].vaddr <= x < End(s[0]) then Some(s[0])
    else Owner(s[1..], x)
  }

  /** Whether `x` is mapped, and with which write flag. */
  function WriteFlag(s: seq<Info>, x: int): Option<bv32> {
    var o := Owner(s, x);
    if o.None? then None else Some(Writable(o.value))
  }

  ghost predicate NoMergeable(s: seq<Info>) {
    forall i | 0 <= i < |s| - 1 :: !Mergeable(s[i], s[i + 1])
  }

  lemma LaidTail(s: seq<Info>)
    requires Laid(s) && s != []
    ensures Laid(s[1..])
  {
    forall i | 0 <= i < |s[1..]| - 1 ensures End(s[1..][i]) <= s[1..][i + 1].vaddr {
      assert s[1..][i] == s[i + 1] && s[1..][i + 1] == s[i + 2];
    }
  }

  lemma LaidCons(p: Info, s: seq<Info>)
    requires Laid(s) && p.memsz > 0 && (s != [] ==> End(p) <= s[0].vaddr)
    ensures Laid([p] + s)
  {
    var t := [p] + s;
    forall i | 0 <= i < |t| - 1 ensures End(t[i]) <= t[i + 1].vaddr {
      if i > 0 {
        assert t[i] == s[i - 1] && t[i + 1] == s[i];
      }
    }
  }

  lemma OwnerCons(p: Info, s: seq<Info>, x: int)
    ensures Owner([p] + s, x) == if p.vaddr <= x < End(p) then Some(p) else Owner(s, x)
  {
    assert ([p] + s)[1..] == s;
  }

  /** `r` is `s` merged: same addresses with the same write flag, nothing left to merge. */
  ghost predicate Merged(r: seq<Info>, s: seq<Info>, x: int) {
    && r != [] && s != []
    && Laid(r) && NoMergeable(r)
    && WriteFlag(r, x) == WriteFlag(s, x)
    && r[0].vaddr == s[0].vaddr && Writable(r[0]) == Writable(s[0])
    && End(r[|r| - 1]) == End(s[|s| - 1])
  }

  lemma MergedSkip(prev: Info, rest: seq<Info>, r: seq<Info>, x: int)
    requires rest != [] && Merged(r, rest, x) && prev.memsz > 0 && End(prev) <= rest[0].vaddr
    requires !Mergeable(prev, rest[0])
    ensures Merged([prev] + r, [prev] + rest, x)
  {
    LaidCons(prev, r);
    OwnerCons(prev, r, x);
    OwnerCons(prev, rest, x);
    MergeableFirst(prev, rest[0], r[0]);
    hide Writable;
    hide Mergeable;
    var all := [prev] + r;
    forall i | 0 <= i < |all| - 1 ensures !Mergeable(all[i], all[i + 1]) {
      if i > 0 {
        assert all[i] == r[i - 1] && all[i + 1] == r[i];
      }
    }
  }

  lemma MergedGrow(prev: Info, page: Info, tail: seq<Info>, r: seq<Info>, x: int)
    requires Mergeable(prev, page) && prev.memsz > 0 && page.memsz > 0
    requires Merged(r, [Grown(prev, page)] + tail, x)
    ensures Merged(r, [prev] + ([page] + tail), x)
  {
    GrownFlags(prev, page);
    OwnerCons(Grown(prev, page), tail, x);
    OwnerCons(page, tail, x);
    OwnerCons(prev, [page] + tail, x);
  }

  function Grown(prev: Info, page: Info): Info {
    prev.(memsz := prev.memsz + page.memsz)
  }

  /** Merging keeps which addresses are mapped and their write flag, and leaves nothing to merge. */
  lemma {:induction false} MergeKeeps(prev: Info, rest: seq<Info>, x: int)
    requires Laid([prev] + rest)
    ensures Merged(MergeFrom(prev, rest), [prev] + rest, x)
    decreases |rest|
  {
    if rest != [] {
      var tail := rest[1..];
      assert rest == [rest[0]] + tail;
      LaidTail([prev] + rest);
      assert ([prev] + rest)[1..] == rest;
      assert ([prev] + rest)[0] == prev && ([prev] + rest)[1] == rest[0];
      hide Merged;
      hide Writable;
      if Mergeable(prev, rest[0]) {
        LaidTail(rest);
        assert tail != [] ==> End(rest[0]) <= tail[0].vaddr by {
          assert tail != [] ==> rest[1] == tail[0];
        }
        LaidCons(Grown(prev, rest[0]), tail);
        hide Laid;
        MergeKeeps(Grown(prev, rest[0]), tail, x);
        MergedGrow(prev, rest[0], tail, MergeFrom(Grown(prev, rest[0]), tail), x);
      } else {
        MergeKeeps(rest[0], tail, x);
        MergedSkip(prev, rest, MergeFrom(rest[0], tail), x);
      }
    } else {
      assert [prev] + rest == [prev];
    }
  }

  lemma GrownFlags(prev: Info, page: Info)
    ensures Writable(Grown(prev, page)) == Writable(prev)
  {
  }

  lemma MergeableFirst(prev: Info, p: Info, q: Info)
    requires p.vaddr == q.vaddr && Writable(p) == Writable(q)
    ensures Mergeable(prev, p) == Mergeable(prev, q)
  {
  }

  // ----- Filling gaps -----

  /** The no-access page between two pages, if they are not contiguous. */
  function Gap(a: Info, b: Info): seq<Info> {
    if End(a) != b.vaddr then [Info(End(a), b.vaddr - End(a), 0, b.offset)] else []
  }

  function Gaps(s: seq<Info>): seq<Info> {
    if |s| < 2 then [] else Gap(s[0], s[1]) + Gaps(s[1..])
  }

  /** Pages and gaps in address order. */
  function Filled(s: seq<Info>): seq<Info> {
    if |s| < 2 then s else [s[0]] + Gap(s[0], s[1]) + Filled(s[1..])
  }

  /** The pages follow each other without gap or overlap. */
  ghost predicate Tiles(s: seq<Info>) {
    && s != []
    && (forall i | 0 <= i < |s| :: s[i].memsz > 0)
    && (forall i | 0 <= i < |s| - 1 :: End(s[i]) == s[i + 1].vaddr)
  }

  lemma {:induction false} FilledIsPermutation(s: seq<Info>)
    ensures multiset(Filled(s)) == multiset(s + Gaps(s))
    decreases |s|
  {
    if |s| >= 2 {
      var tail, gap := s[1..], Gap(s[0], s[1]);
      FilledIsPermutation(tail);
      assert s == [s[0]] + tail;
      assert Filled(s) == [s[0]] + gap + Filled(tail) && Gaps(s) == gap + Gaps(tail);
      hide Filled;
      hide Gaps;
      hide Gap;
      assert multiset(Filled(s)) == multiset{s[0]} + multiset(gap) + multiset(Filled(tail));
      assert multiset(s + Gaps(s)) == multiset{s[0]} + multiset(tail) + multiset(gap) + multiset(Gaps(tail));
      assert multiset(tail + Gaps(tail)) == multiset(tail) + multiset(Gaps(tail));
    } else {
      assert s + Gaps(s) == s;
    }
  }

  lemma TilesCons(p: Info, s: seq<Info>)
    requires Tiles(s) && p.memsz > 0 && End(p) == s[0].vaddr
    ensures Tiles([p] + s)
  {
    var t := [p] + s;
    forall i | 0 <= i < |t| - 1 ensures End(t[i]) == t[i + 1].vaddr {
      if i > 0 {
        assert t[i] == s[i - 1] && t[i + 1] == s[i];
      }
    }
  }

  /** `r` is `s` filled up, as far as address `x` can tell. */
  ghost predicate FilledUp(r: seq<Info>, s: seq<Info>, x: int) {
    && s != [] && Tiles(r) && r[0].vaddr == s[0].vaddr && End(r[|r| - 1]) == End(s[|s| - 1])
    && (Owner(s, x).Some? ==> Owner(r, x) == Owner(s, x))
    && (Owner(s, x).None? && s[0].vaddr <= x < End(s[|s| - 1]) ==> Owner(r, x).Some? && Owner(r, x).value.flags == 0)
  }

  /** `tail` fills up what lies behind address `from`: a gap, if any, and then `s`. */
  ghost predicate FillsBehind(tail: seq<Info>, from: int, s: seq<Info>, x: int) {
    && s != [] && from <= s[0].vaddr && Tiles(tail) && tail[0].vaddr == from && End(tail[|tail| - 1]) == End(s[|s| - 1])
    && (Owner(s, x).Some? ==> Owner(tail, x) == Owner(s, x))
    && (Owner(s, x).None? && from <= x < End(s[|s| - 1]) ==> Owner(tail, x).Some? && Owner(tail, x).value.flags == 0)
  }

  lemma GapFills(p: Info, s: seq<Info>, r: seq<Info>, x: int)
    requires s != [] && FilledUp(r, s, x) && End(p) <= s[0].vaddr
    requires x < s[0].vaddr ==> Owner(s, x).None?
    ensures FillsBehind(Gap(p, s[0]) + r, End(p), s, x)
  {
    GapIs(p, s[0]);
    hide *;
    if End(p) == s[0].vaddr {
      NoGap(s, r, x);
      assert [] + r == r;
    } else {
      GapThen(Info(End(p), s[0].vaddr - End(p), 0, s[0].offset), s, r, x);
    }
  }

  lemma GapIs(a: Info, b: Info)
    ensures End(a) == b.vaddr ==> Gap(a, b) == []
    ensures End(a) != b.vaddr ==> Gap(a, b) == [Info(End(a), b.vaddr - End(a), 0, b.offset)]
    ensures End(Info(End(a), b.vaddr - End(a), 0, b.offset)) == b.vaddr
  {
  }

  lemma NoGap(s: seq<Info>, r: seq<Info>, x: int)
    requires s != [] && FilledUp(r, s, x)
    ensures FillsBehind(r, s[0].vaddr, s, x)
  {
    hide Tiles;
    hide Owner;
  }

  lemma GapThen(gap: Info, s: seq<Info>, r: seq<Info>, x: int)
    requires FilledUp(r, s, x) && gap.memsz > 0 && gap.flags == 0 && End(gap) == s[0].vaddr
    requires x < s[0].vaddr ==> Owner(s, x).None?
    ensures FillsBehind([gap] + r, gap.vaddr, s, x)
  {
    TilesCons(gap, r);
    OwnerCons(gap, r, x);
    assert r != [];
    hide Tiles;
    hide Owner;
  }

  lemma FrontFills(p: Info, s: seq<Info>, tail: seq<Info>, x: int)
    requires FillsBehind(tail, End(p), s, x) && p.memsz > 0
    ensures FilledUp([p] + tail, [p] + s, x)
  {
    TilesCons(p, tail);
    assert tail != [];
    hide Tiles;
    OwnerCons(p, s, x);
    OwnerCons(p, tail, x);
    hide Owner;
  }

  lemma FilledCons(p: Info, s: seq<Info>, r: seq<Info>, x: int)
    requires Laid(s) && FilledUp(r, s, x) && p.memsz > 0 && End(p) <= s[0].vaddr
    ensures FilledUp([p] + Gap(p, s[0]) + r, [p] + s, x)
  {
    OwnerBefore(s, x);
    GapFills(p, s, r, x);
    hide *;
    FrontFills(p, s, Gap(p, s[0]) + r, x);
    assert [p] + Gap(p, s[0]) + r == [p] + (Gap(p, s[0]) + r);
  }

  /** The filled map tiles from the first start to the last end; an address keeps its page, or is in a page with no flags. */
  lemma {:induction false} FilledTiles(s: seq<Info>, x: int)
    requires Laid(s) && s != []
    ensures FilledUp(Filled(s), s, x)
    decreases |s|
  {
    if |s| == 1 {
      OwnerCons(s[0], [], x);
      assert s == [s[0]];
    } else {
      LaidTail(s);
      assert s == [s[0]] + s[1..] && s[1..][0] == s[1] && End(s[0]) <= s[1].vaddr;
      hide FilledUp;
      FilledTiles(s[1..], x);
      FilledCons(s[0], s[1..], Filled(s[1..]), x);
    }
  }

  /** No page contains an address below the first one. */
  lemma {:induction false} OwnerBefore(s: seq<Info>, x: int)
    requires Laid(s) && s != []
    ensures x < s[0].vaddr ==> Owner(s, x).None?
    decreases |s|
  {
    if |s| > 1 && x < s[0].vaddr {
      LaidTail(s);
      assert s[1..][0] == s[1] && End(s[0]) <= s[1].vaddr;
      OwnerBefore(s[1..], x);
    }
  }

  lemma {:induction false} TilesIncreasing(s: seq<Info>)
    requires Tiles(s)
    ensures Increasing(s)
    decreases |s|
  {
    if |s| > 1 {
      var t := s[1..];
      forall i | 0 <= i < |t| - 1 ensures End(t[i]) == t[i + 1].vaddr {
        assert t[i] == s[i + 1] && t[i + 1] == s[i + 2];
      }
      TilesIncreasing(t);
      assert s[0].vaddr < s[1].vaddr == t[0].vaddr;
      forall i, j | 0 <= i < j < |s| ensures s[i].vaddr < s[j].vaddr {
        assert s[j] == t[j - 1];
        if i > 0 {
          assert s[i] == t[i - 1];
        } else if j > 1 {
          assert t[0].vaddr < t[j - 1].vaddr;
        }
      }
    }
  }

  // ----- The whole map -----

  function Rebased(pages: seq<Info>, base: int): (r: seq<Info>)
    ensures |r| == |pages|
  {
    seq(|pages|, i requires 0 <= i < |pages| => pages[i].(vaddr := pages[i].vaddr + base))
  }

  function SortedPages(phdrs: seq<Phdr>, base: int): seq<Info> {
    Sort(Rebased(Overlay(phdrs), base))
  }

  function MergedPages(phdrs: seq<Phdr>, base: int): seq<Info>
    requires Overlay(phdrs) != []
  {
    var s := SortedPages(phdrs, base);
    MergeFrom(s[0], s[1..])
  }

  /** map_inner; None is the IndexError for a module without any memory to load. */
  function Map(phdrs: seq<Phdr>, base: int): Option<seq<Info>> {
    if Overlay(phdrs) == [] then None
    else
      var merged := MergedPages(phdrs, base);
      Some(Sort(merged + Gaps(merged)))
  }

  /** Where the page holding `x` was before rebasing. */
  function PageOf(x: int, base: int): (r: int)
    ensures r <= x - base < r + PAGE_SIZE && r % PAGE_SIZE == 0
  {
    (x - base) - (x - base) % PAGE_SIZE
  }

  ghost predicate SingleFrom(s: seq<Info>, base: int) {
    && (forall p | p in s :: p.memsz == PAGE_SIZE && (p.vaddr - base) % PAGE_SIZE == 0)
    && DistinctStarts(s)
  }

  lemma {:induction false} OwnerFound(s: seq<Info>, x: int)
    ensures Owner(s, x).Some? ==> Owner(s, x).value in s && Owner(s, x).value.vaddr <= x < End(Owner(s, x).value)
    ensures Owner(s, x).None? ==> forall p | p in s :: !(p.vaddr <= x < End(p))
    decreases |s|
  {
    if s != [] {
      OwnerFound(s[1..], x);
      assert s == [s[0]] + s[1..];
    }
  }

  lemma OwnerOfSingle(s: seq<Info>, base: int, x: int)
    requires SingleFrom(s, base)
    ensures Owner(s, x).Some? ==> Owner(s, x).value in s && Owner(s, x).value.vaddr == PageOf(x, base) + base
    ensures forall p | p in s && p.vaddr == PageOf(x, base) + base :: Owner(s, x) == Some(p)
  {
    OwnerFound(s, x);
    if Owner(s, x).Some? {
      var p := Owner(s, x).value;
      SamePage(p.vaddr - base, x - base);
    }
  }

  lemma SamePage(v: int, y: int)
    requires v % PAGE_SIZE == 0 && v <= y < v + PAGE_SIZE
    ensures v == y - y % PAGE_SIZE
  {
  }

  lemma RebasedSingle(pages: seq<Info>, base: int)
    requires Single(pages)
    ensures SingleFrom(Rebased(pages, base), base)
  {
    var r := Rebased(pages, base);
    forall p | p in r ensures p.memsz == PAGE_SIZE && (p.vaddr - base) % PAGE_SIZE == 0 {
      var i :| 0 <= i < |r| && r[i] == p;
      assert pages[i].vaddr == p.vaddr - base;
    }
  }

  lemma {:induction false} IncreasingPagesLaid(s: seq<Info>, base: int)
    requires SingleFrom(s, base) && Increasing(s)
    ensures Laid(s)
  {
    forall i | 0 <= i < |s| - 1 ensures End(s[i]) <= s[i + 1].vaddr {
      assert s[i] in s && s[i + 1] in s;
      NextPage(s[i].vaddr - base, s[i + 1].vaddr - base);
    }
    forall i | 0 <= i < |s| ensures s[i].memsz > 0 {
      assert s[i] in s;
    }
  }

  lemma NextPage(v: int, w: int)
    requires v % PAGE_SIZE == 0 && w % PAGE_SIZE == 0 && v < w
    ensures v + PAGE_SIZE <= w
  {
  }

  lemma SortedIsSingle(phdrs: seq<Phdr>, base: int)
    ensures var s, r := SortedPages(phdrs, base), Rebased(Overlay(phdrs), base);
            SingleFrom(s, base) && Laid(s) && forall p :: p in s <==> p in r
  {
    var r := Rebased(Overlay(phdrs), base);
    OverlaySingle(phdrs);
    RebasedSingle(Overlay(phdrs), base);
    SortKeeps(r);
    SameElements(Sort(r), r);
    IncreasingPagesLaid(Sort(r), base);
  }

  /** Sorting and rebasing lose nothing: an address is mapped as the page it belongs to. */
  lemma SortedEffect(phdrs: seq<Phdr>, base: int, x: int)
    ensures var s := SortedPages(phdrs, base);
            var f := FlagsAt(Overlay(phdrs), PageOf(x, base));
            && Laid(s)
            && WriteFlag(s, x) == if f.None? then None else Some(f.value & PF_W)
  {
    var pages := Overlay(phdrs);
    var r := Rebased(pages, base);
    var s := SortedPages(phdrs, base);
    var a := PageOf(x, base);
    SortedIsSingle(phdrs, base);
    hide SortedPages;
    hide Overlay;
    hide Laid;
    OwnerOfSingle(s, base, x);
    hide SingleFrom;
    hide Owner;
    var i := At(pages, a);
    if i.Some? {
      assert r[i.value] in r;
      assert r[i.value].vaddr == a + base;
      assert Owner(s, x) == Some(r[i.value]);
    } else {
      forall p | p in r ensures p.vaddr != a + base {
        var j :| 0 <= j < |r| && r[j] == p;
        assert pages[j].vaddr == p.vaddr - base;
      }
    }
  }

  /** The merged pages: every address keeps its write flag, and no two contiguous neighbours have the same. */
  lemma MergedEffect(phdrs: seq<Phdr>, base: int, x: int)
    requires Overlay(phdrs) != []
    ensures var m := MergedPages(phdrs, base);
            var last := LastFlags(phdrs, PageOf(x, base));
            && Laid(m) && NoMergeable(m)
            && WriteFlag(m, x) == if last.None? then None else Some(last.value & PF_W)
  {
    var s := SortedPages(phdrs, base);
    SortedEffect(phdrs, base, x);
    assert s == [s[0]] + s[1..];
    MergeKeeps(s[0], s[1..], x);
    var a := PageOf(x, base);
    OverlayEffect(phdrs, a);
    var f := FlagsAt(Overlay(phdrs), a);
    if f.Some? {
      WritableOfNonX(f.value);
      WritableOfNonX(LastFlags(phdrs, a).value);
    }
  }

  /**
    What the finished map says of address `x`: a described one has the write flag
    of the last header describing it, any other inside is in a page without flags.
   */
  ghost predicate Tells(pages: seq<Info>, last: Option<bv32>, x: int)
    requires pages != []
  {
    var o := Owner(pages, x);
    && (last.Some? ==> o.Some? && Writable(o.value) == last.value & PF_W)
    && (last.None? && pages[0].vaddr <= x < End(pages[|pages| - 1]) ==> o.Some? && o.value.flags == 0)
    && (o.Some? ==> pages[0].vaddr <= x < End(pages[|pages| - 1]))
  }

  lemma FilledTells(m: seq<Info>, pages: seq<Info>, last: Option<bv32>, x: int)
    requires FilledUp(pages, m, x) && m != []
    requires WriteFlag(m, x) == if last.None? then None else Some(last.value & PF_W)
    ensures Tiles(pages)
    ensures Tells(pages, last, x)
  {
    OwnerInside(pages, x);
    hide Tiles;
    hide Owner;
  }

  /**
    The map exists exactly when some header has memory, it tiles from its first
    start to its last end, and it tells every address as `Tells` says.
   */
  lemma MapEffect(phdrs: seq<Phdr>, base: int, x: int)
    ensures Map(phdrs, base).Some? <==> exists i :: 0 <= i < |phdrs| && phdrs[i].memsz > 0
    ensures Map(phdrs, base).Some? ==>
              var pages := Map(phdrs, base).value;
              Tiles(pages) && Tells(pages, LastFlags(phdrs, PageOf(x, base)), x)
  {
    OverlaySingle(phdrs);
    if Overlay(phdrs) != [] {
      MapSome(phdrs, base, x);
    }
  }

  lemma MapSome(phdrs: seq<Phdr>, base: int, x: int)
    requires Overlay(phdrs) != []
    ensures var pages := Sort(MergedPages(phdrs, base) + Gaps(MergedPages(phdrs, base)));
            Tiles(pages) && Tells(pages, LastFlags(phdrs, PageOf(x, base)), x)
  {
    var m := MergedPages(phdrs, base);
    MergedEffect(phdrs, base, x);
    FilledIsSorted(m);
    FilledTiles(m, x);
    hide *;
    FilledTells(m, Filled(m), LastFlags(phdrs, PageOf(x, base)), x);
  }

  /** Sorting the pages together with the gaps puts every gap where it belongs. */
  lemma FilledIsSorted(m: seq<Info>)
    requires Laid(m) && m != []
    ensures Sort(m + Gaps(m)) == Filled(m)
  {
    FilledTiles(m, 0);
    TilesIncreasing(Filled(m));
    FilledIsPermutation(m);
    SortKeeps(m + Gaps(m));
    DistinctPermutation(Filled(m), m + Gaps(m));
    IncreasingUnique(Sort(m + Gaps(m)), Filled(m));
  }

  lemma DistinctPermutation(s: seq<Info>, t: seq<Info>)
    requires Increasing(s) && multiset(s) == multiset(t)
    ensures DistinctStarts(t)
  {
    forall i, j | 0 <= i < j < |t| ensures t[i].vaddr != t[j].vaddr {
      if t[i] == t[j] {
        TwiceInMultiset(t, i, j);
        OnceInIncreasing(s, t[i]);
      } else {
        SameElements(s, t);
        assert t[i] in s && t[j] in s;
      }
    }
  }

  lemma TwiceInMultiset(t: seq<Info>, i: nat, j: nat)
    requires i < j < |t| && t[i] == t[j]
    ensures multiset(t)[t[i]] >= 2
  {
    assert t == t[..j] + t[j..];
    assert t[i] in t[..j] && t[j] in t[j..];
    assert t[..j][i] == t[i] && t[j..][0] == t[j];
  }

  lemma {:induction false} OnceInIncreasing(s: seq<Info>, p: Info)
    requires Increasing(s)
    ensures multiset(s)[p] <= 1
    decreases |s|
  {
    if s != [] {
      assert s == [s[0]] + s[1..];
      OnceInIncreasing(s[1..], p);
      if p == s[0] {
        assert p !in s[1..];
      }
    }
  }

  lemma {:induction false} OwnerInside(s: seq<Info>, x: int)
    requires Tiles(s)
    ensures Owner(s, x).Some? ==> s[0].vaddr <= x < End(s[|s| - 1])
    decreases |s|
  {
    assert s == [s[0]] + s[1..];
    OwnerCons(s[0], s[1..], x);
    if |s| > 1 {
      var t := s[1..];
      forall i | 0 <= i < |t| - 1 ensures End(t[i]) == t[i + 1].vaddr {
        assert t[i] == s[i + 1] && t[i + 1] == s[i + 2];
      }
      OwnerInside(t, x);
      assert t[0] == s[1] && t[|t| - 1] == s[|s| - 1];
      TilesIncreasing(s);
      assert s[0].vaddr < s[1].vaddr <= s[|s| - 1].vaddr;
    }
  }

  // ----- No-access pages -----

  ghost predicate SomeFlags(s: seq<Info>) {
    forall p | p in s :: p.flags != 0
  }

  lemma KeepNonZero(earlier: bv32, flags: bv32)
    requires flags != 0
    ensures Keep(earlier, flags) != 0
  {
    assert flags | 1 != 0;
  }

  lemma {:induction false} OverlayFromSomeFlags(pages: seq<Info>, addr: nat, n: nat, flags: bv32, offset: int)
    requires SomeFlags(pages) && flags != 0
    ensures SomeFlags(OverlayFrom(pages, addr, n, flags, offset))
    decreases n
  {
    if n > 0 {
      match At(pages, addr)
      case Some(i) =>
        var f := Keep(pages[i].flags, flags);
        KeepNonZero(pages[i].flags, flags);
        OverlayFromSomeFlags(pages[i := pages[i].(flags := f)], addr + PAGE_SIZE, n - 1, f, offset + PAGE_SIZE);
      case None =>
        OverlayFromSomeFlags(pages + [Info(addr, PAGE_SIZE, flags, offset)], addr + PAGE_SIZE, n - 1, flags, offset + PAGE_SIZE);
    }
  }

  lemma {:induction false} OverlaySomeFlags(phdrs: seq<Phdr>)
    requires forall i | 0 <= i < |phdrs| && phdrs[i].memsz > 0 :: phdrs[i].flags != 0
    ensures SomeFlags(Overlay(phdrs))
    decreases |phdrs|
  {
    if phdrs != [] {
      var front, h := phdrs[..|phdrs| - 1], phdrs[|phdrs| - 1];
      OverlaySomeFlags(front);
      if h.memsz > 0 {
        OverlayFromSomeFlags(Overlay(front), FirstPage(h), PageCount(h), h.flags, PageAlign(h.offset));
      }
    }
  }

  lemma {:induction false} MergeSomeFlags(prev: Info, rest: seq<Info>)
    requires prev.flags != 0 && SomeFlags(rest)
    ensures SomeFlags(MergeFrom(prev, rest))
    decreases |rest|
  {
    if rest != [] {
      MergeSomeFlags(if Mergeable(prev, rest[0]) then Grown(prev, rest[0]) else rest[0], rest[1..]);
    }
  }

  /** If every header with memory grants something, the pages without flags are exactly where no header is. */
  lemma NoAccessExactlyInGaps(phdrs: seq<Phdr>, base: int, x: int)
    requires forall i | 0 <= i < |phdrs| && phdrs[i].memsz > 0 :: phdrs[i].flags != 0
    requires Map(phdrs, base).Some? && Owner(Map(phdrs, base).value, x).Some?
    ensures Owner(Map(phdrs, base).value, x).value.flags == 0 <==> !Described(phdrs, PageOf(x, base))
  {
    var pages := Overlay(phdrs);
    var r := Rebased(pages, base);
    var s := SortedPages(phdrs, base);
    OverlaySomeFlags(phdrs);
    forall p | p in r ensures p.flags != 0 {
      var i :| 0 <= i < |r| && r[i] == p;
      assert pages[i] in pages;
    }
    SortKeeps(r);
    SameElements(s, r);
    assert SomeFlags(s);
    MergeSomeFlags(s[0], s[1..]);
    var m := MergedPages(phdrs, base);
    OverlayEffect(phdrs, PageOf(x, base));
    MergedEffect(phdrs, base, x);
    FilledTiles(m, x);
    FilledIsSorted(m);
    OwnerInside(Filled(m), x);
    OwnerFound(m, x);
  }
}
