/**
  What the finished map of a module says, from the program headers to the pages
  (pwndbg/aglib/elf.py:414-497), with pages, bits and offsets written out.
 */
module ElfLaw {
  import opened Options
  import opened ElfOverlay
  import opened ElfMap
  import opened ElfOffsets

  // ----- What the headers say -----

  /** The page of 4096 bytes at `a` has a byte of the header's segment. */
  predicate PageIn(h: Phdr, a: int) {
    a % 4096 == 0 && h.vaddr < a + 4096 && a < h.vaddr + h.memsz && h.memsz > 0
  }

  /** Header `i` is the last one with something on page `a`. */
  ghost predicate Latest(phdrs: seq<Phdr>, a: int, i: nat) {
    i < |phdrs| && PageIn(phdrs[i], a) && forall j | i < j < |phdrs| :: !PageIn(phdrs[j], a)
  }

  /** Header `i` is the first one. */
  ghost predicate Earliest(phdrs: seq<Phdr>, a: int, i: nat) {
    i < |phdrs| && PageIn(phdrs[i], a) && forall j | 0 <= j < i :: !PageIn(phdrs[j], a)
  }

  ghost predicate OnSome(phdrs: seq<Phdr>, a: int) {
    exists i :: 0 <= i < |phdrs| && PageIn(phdrs[i], a)
  }

  /** Page `a` has the execute bit after the first `n` headers: header `n - 1` grants it, or found it on this or an earlier page of its own, or left the page alone. */
  ghost predicate Executable(phdrs: seq<Phdr>, n: nat, a: int)
    requires n <= |phdrs|
    decreases n
  {
    n > 0 &&
    var h := phdrs[n - 1];
    if PageIn(h, a) then h.flags & 1 != 0 || exists b | b <= a :: PageIn(h, b) && Executable(phdrs, n - 1, b)
    else Executable(phdrs, n - 1, a)
  }

  // ----- What a page of the map says -----

  /** The page begins at page `a`: all bits as the headers have it, and the place in the file of the first header there. */
  ghost predicate BeginsPage(phdrs: seq<Phdr>, p: Info, a: int) {
    FlagsOf(phdrs, p.flags, a) && PlaceOf(phdrs, p.offset, a)
  }

  /** All bits but the lowest are the last header's. */
  ghost predicate FlagsOf(phdrs: seq<Phdr>, flags: bv32, a: int) {
    && (forall i: nat | Latest(phdrs, a, i) :: flags & 0xFFFF_FFFE == phdrs[i].flags & 0xFFFF_FFFE)
    && (flags & 1 != 0 <==> Executable(phdrs, |phdrs|, a))
  }

  ghost predicate PlaceOf(phdrs: seq<Phdr>, offset: int, a: int) {
    forall i: nat | Earliest(phdrs, a, i) :: offset == PlaceIn(phdrs[i], a)
  }

  /** Where page `a` of the segment is in the file, counting from the page of the segment's start. */
  function PlaceIn(h: Phdr, a: int): int {
    (h.offset - h.offset % 4096) + (a - (h.vaddr - h.vaddr % 4096))
  }

  /** A page without bits in front of the described page `a`, with that page's place in the file. */
  ghost predicate FillsBefore(phdrs: seq<Phdr>, p: Info, a: int) {
    p.flags == 0 && OnSome(phdrs, a) && PlaceOf(phdrs, p.offset, a)
  }

  /** Every page of the map is one or the other, by whether a header has something where it begins. */
  ghost predicate PageRight(phdrs: seq<Phdr>, base: int, p: Info) {
    if OnSome(phdrs, p.vaddr - base) then BeginsPage(phdrs, p, p.vaddr - base)
    else FillsBefore(phdrs, p, p.vaddr + p.memsz - base)
  }

  /** Address `x` lies in page `p` of the map. */
  predicate Contains(p: Info, x: int) {
    p.vaddr <= x < p.vaddr + p.memsz
  }

  /** The page that holds `x`, before the module was moved. */
  function PageAt(x: int, base: int): int {
    (x - base) - (x - base) % 4096
  }

  /** What the page that holds address `x` says of it. */
  ghost predicate AddressRight(phdrs: seq<Phdr>, base: int, p: Info, x: int) {
    && (forall i: nat | Latest(phdrs, PageAt(x, base), i) :: p.flags & 2 == phdrs[i].flags & 2)
    && (!OnSome(phdrs, PageAt(x, base)) ==> p.flags == 0)
  }

  /** The pages follow each other without gap or overlap. */
  ghost predicate InTurn(pages: seq<Info>) {
    && pages != []
    && (forall p | p in pages :: p.memsz > 0)
    && (forall i | 0 < i < |pages| :: pages[i].vaddr == pages[i - 1].vaddr + pages[i - 1].memsz)
  }

  // ----- The same in the terms of the code -----

  lemma CoversIsPageIn(h: Phdr, a: int)
    ensures Covers(h, a) <==> PageIn(h, a)
  {
    if a >= 0 {
      CoversIsRounded(h, a);
      if h.memsz > 0 && a % 4096 == 0 {
        Overlaps(h.vaddr, h.memsz, a);
      }
    } else {
      assert !Covers(h, a);
      assert a % 4096 == 0 ==> a + 4096 <= 0;
    }
    hide Covers;
  }

  lemma Overlaps(vaddr: nat, memsz: nat, a: nat)
    requires memsz > 0 && a % 4096 == 0
    ensures PageAlign(vaddr) <= a < PageSizeAlign(vaddr + memsz) <==> vaddr < a + 4096 && a < vaddr + memsz
  {
  }

  lemma {:induction false} LastIs(phdrs: seq<Phdr>, a: int)
    ensures LastFlags(phdrs, a).Some? <==> OnSome(phdrs, a)
    ensures forall i: nat | Latest(phdrs, a, i) :: LastFlags(phdrs, a) == Some(phdrs[i].flags)
    decreases |phdrs|
  {
    if phdrs != [] {
      var n := |phdrs| - 1;
      var front := phdrs[..n];
      LastIs(front, a);
      CoversIsPageIn(phdrs[n], a);
      hide Covers;
      hide PageIn;
      OnSomeFront(phdrs, a);
      forall i: nat | Latest(phdrs, a, i) ensures LastFlags(phdrs, a) == Some(phdrs[i].flags) {
        if i < n {
          assert Latest(front, a, i);
        }
      }
    }
  }

  lemma OnSomeFront(phdrs: seq<Phdr>, a: int)
    requires phdrs != []
    ensures OnSome(phdrs, a) <==> OnSome(phdrs[..|phdrs| - 1], a) || PageIn(phdrs[|phdrs| - 1], a)
  {
    hide PageIn;
    var front := phdrs[..|phdrs| - 1];
    if OnSome(front, a) {
      var i :| 0 <= i < |front| && PageIn(front[i], a);
      assert PageIn(phdrs[i], a);
    }
    if OnSome(phdrs, a) && !PageIn(phdrs[|phdrs| - 1], a) {
      var i :| 0 <= i < |phdrs| && PageIn(phdrs[i], a);
      assert front[i] == phdrs[i];
    }
  }

  lemma {:induction false} FirstIs(phdrs: seq<Phdr>, a: int)
    ensures FirstOffset(phdrs, a).Some? <==> OnSome(phdrs, a)
    ensures forall i: nat | Earliest(phdrs, a, i) :: FirstOffset(phdrs, a) == Some(PlaceIn(phdrs[i], a))
    decreases |phdrs|
  {
    if phdrs != [] {
      var n := |phdrs| - 1;
      var front := phdrs[..n];
      FirstIs(front, a);
      CoversIsPageIn(phdrs[n], a);
      hide Covers;
      hide PageIn;
      OnSomeFront(phdrs, a);
      forall i: nat | Earliest(phdrs, a, i) ensures FirstOffset(phdrs, a) == Some(PlaceIn(phdrs[i], a)) {
        if i < n {
          assert Earliest(front, a, i);
        } else {
          assert forall j | 0 <= j < n :: front[j] == phdrs[j];
          assert !OnSome(front, a);
        }
      }
    }
  }

  lemma {:induction false} ExecutableIs(phdrs: seq<Phdr>, n: nat, a: int)
    requires n <= |phdrs|
    ensures Executable(phdrs, n, a) <==> ExecAt(phdrs[..n], a)
    decreases n
  {
    if n > 0 {
      var h := phdrs[n - 1];
      assert phdrs[..n][..n - 1] == phdrs[..n - 1] && phdrs[..n][n - 1] == h;
      forall b ensures Covers(h, b) <==> PageIn(h, b) {
        CoversIsPageIn(h, b);
      }
      var front := phdrs[..n - 1];
      forall b ensures Executable(phdrs, n - 1, b) <==> ExecAt(front, b) {
        ExecutableIs(phdrs, n - 1, b);
      }
      hide Covers;
      hide PageIn;
    }
  }

  // ----- Pages -----

  lemma BeginsBits(phdrs: seq<Phdr>, p: Info, a: int)
    requires FlagsAt(Overlay(phdrs), a) == Some(p.flags) && FirstOffset(phdrs, a) == Some(p.offset)
    ensures OnSome(phdrs, a) && BeginsPage(phdrs, p, a)
  {
    SameBits(phdrs, p.flags, a);
    SameExecute(phdrs, p.flags, a);
    PlaceIs(phdrs, p.offset, a);
    hide Latest;
    hide Executable;
    hide PlaceOf;
    hide OnSome;
    hide Overlay;
    hide FirstOffset;
  }

  lemma PlaceIs(phdrs: seq<Phdr>, offset: int, a: int)
    requires FirstOffset(phdrs, a) == Some(offset)
    ensures OnSome(phdrs, a) && PlaceOf(phdrs, offset, a)
  {
    FirstIs(phdrs, a);
    hide FirstOffset;
    hide OnSome;
    hide Earliest;
  }

  lemma SameBits(phdrs: seq<Phdr>, f: bv32, a: int)
    requires FlagsAt(Overlay(phdrs), a) == Some(f)
    ensures forall i: nat | Latest(phdrs, a, i) :: f & 0xFFFF_FFFE == phdrs[i].flags & 0xFFFF_FFFE
  {
    OverlayEffect(phdrs, a);
    LastIs(phdrs, a);
    hide Overlay;
    hide Latest;
    hide LastFlags;
    hide FlagsAt;
  }

  lemma SameExecute(phdrs: seq<Phdr>, f: bv32, a: int)
    requires FlagsAt(Overlay(phdrs), a) == Some(f)
    ensures f & 1 != 0 <==> Executable(phdrs, |phdrs|, a)
  {
    OverlayExecutable(phdrs, a);
    ExecutableIs(phdrs, |phdrs|, a);
    assert phdrs[..|phdrs|] == phdrs;
    hide Overlay;
    hide ExecAt;
    hide Executable;
    hide FlagsAt;
  }

  /** A page of the merged list begins as the overlaid page there. */
  lemma MergedBegins(phdrs: seq<Phdr>, base: int, p: Info)
    requires Overlay(phdrs) != [] && p in MergedPages(phdrs, base)
    ensures OnSome(phdrs, p.vaddr - base) && BeginsPage(phdrs, p, p.vaddr - base)
  {
    hide *;
    MergedStarts(phdrs, base);
    StartIs(phdrs, base, p);
    var q := MergedAsSorted(phdrs, base, p);
    SortedAsOverlaid(phdrs, base, q);
    BeginsBits(phdrs, p, p.vaddr - base);
  }

  lemma StartIs(phdrs: seq<Phdr>, base: int, p: Info)
    requires FromHeaders(phdrs, base, p)
    ensures FirstOffset(phdrs, p.vaddr - base) == Some(p.offset)
  {
  }

  lemma MergedAsSorted(phdrs: seq<Phdr>, base: int, p: Info) returns (q: Info)
    requires Overlay(phdrs) != [] && p in MergedPages(phdrs, base)
    ensures q in SortedPages(phdrs, base) && q.vaddr == p.vaddr && q.flags == p.flags
  {
    hide Overlay;
    var s := SortedPages(phdrs, base);
    SortedNotEmpty(phdrs, base);
    hide SortedPages;
    assert s[0] in s;
    assert BeginsAs(s[0], s);
    MergedBegin(s[0], s[1..], s);
    hide MergeFrom;
    q :| q in s && q.vaddr == p.vaddr && q.flags == p.flags && q.offset == p.offset;
  }

  lemma SortedNotEmpty(phdrs: seq<Phdr>, base: int)
    requires Overlay(phdrs) != []
    ensures SortedPages(phdrs, base) != []
  {
    hide Overlay;
  }

  lemma SortedAsOverlaid(phdrs: seq<Phdr>, base: int, q: Info)
    requires q in SortedPages(phdrs, base)
    ensures FlagsAt(Overlay(phdrs), q.vaddr - base) == Some(q.flags)
  {
    SortedIsSingle(phdrs, base);
    hide SortedPages;
    OverlaySingle(phdrs);
    hide Overlay;
    var pages := Overlay(phdrs);
    var r := Rebased(pages, base);
    assert q in r;
    var i :| 0 <= i < |r| && r[i] == q;
    var j := At(pages, pages[i].vaddr);
    assert j == Some(i);
  }

  /** A page of the finished map that was not merged from others lies where no header is. */
  lemma FilledOwner(m: seq<Info>, p: Info)
    requires Laid(m) && m != [] && p in Filled(m)
    ensures Owner(m, p.vaddr).Some? ==> p in m
  {
    FilledTiles(m, p.vaddr);
    HolderStarts(Filled(m), p);
    OwnerIsHolder(Filled(m), p, p.vaddr);
    OwnerFound(m, p.vaddr);
    hide Filled;
    hide Owner;
    hide Laid;
  }

  lemma HolderStarts(s: seq<Info>, p: Info)
    requires Tiles(s) && p in s
    ensures Contains(p, p.vaddr)
  {
  }

  lemma MergedNotEmpty(phdrs: seq<Phdr>, base: int)
    requires Overlay(phdrs) != []
    ensures MergedPages(phdrs, base) != []
  {
  }

  lemma GapBegins(phdrs: seq<Phdr>, base: int, p: Info)
    requires Overlay(phdrs) != [] && p in Filled(MergedPages(phdrs, base)) && p !in MergedPages(phdrs, base)
    ensures !OnSome(phdrs, p.vaddr - base) && FillsBefore(phdrs, p, p.vaddr + p.memsz - base)
  {
    hide *;
    GapOffPages(phdrs, base, p);
    MergedStarts(phdrs, base);
    FilledParts(MergedPages(phdrs, base));
    GapIsFromHeaders(phdrs, base, p, MergedPages(phdrs, base));
    GapFillsBefore(phdrs, p, End(p) - base);
    EndIs(p);
  }

  lemma GapOffPages(phdrs: seq<Phdr>, base: int, p: Info)
    requires Overlay(phdrs) != [] && p in Filled(MergedPages(phdrs, base)) && p !in MergedPages(phdrs, base)
    ensures !OnSome(phdrs, p.vaddr - base)
  {
    hide *;
    MergedNotEmpty(phdrs, base);
    DescribedOwned(phdrs, base, p.vaddr);
    FilledOwner(MergedPages(phdrs, base), p);
  }

  lemma DescribedOwned(phdrs: seq<Phdr>, base: int, x: int)
    requires Overlay(phdrs) != []
    ensures Laid(MergedPages(phdrs, base))
    ensures OnSome(phdrs, x - base) ==> Owner(MergedPages(phdrs, base), x).Some?
  {
    MergedEffect(phdrs, base, x);
    hide *;
    var m := MergedPages(phdrs, base);
    if Owner(m, x).None? {
      NotOnPage(phdrs, base, x, m);
    }
  }

  lemma EndIs(p: Info)
    ensures End(p) == p.vaddr + p.memsz
  {
  }

  lemma NotOnPage(phdrs: seq<Phdr>, base: int, x: int, m: seq<Info>)
    requires WriteFlag(m, x) == var last := LastFlags(phdrs, PageOf(x, base)); if last.None? then None else Some(last.value & PF_W)
    requires Owner(m, x).None?
    ensures !OnSome(phdrs, PageOf(x, base)) && !OnSome(phdrs, x - base)
  {
    LastIs(phdrs, PageOf(x, base));
    hide LastFlags;
    hide Owner;
  }

  lemma GapFillsBefore(phdrs: seq<Phdr>, p: Info, a: int)
    requires p.flags == 0 && FirstOffset(phdrs, a) == Some(p.offset)
    ensures FillsBefore(phdrs, p, a)
  {
    PlaceIs(phdrs, p.offset, a);
    hide FirstOffset;
    hide OnSome;
    hide PlaceOf;
  }

  // ----- The whole map -----

  lemma EveryPageRight(phdrs: seq<Phdr>, base: int, p: Info)
    requires Overlay(phdrs) != [] && p in Filled(MergedPages(phdrs, base))
    ensures PageRight(phdrs, base, p)
  {
    hide *;
    var m := MergedPages(phdrs, base);
    if p in m {
      MergedBegins(phdrs, base, p);
    } else {
      GapBegins(phdrs, base, p);
    }
    RightMeans(phdrs, base, p);
  }

  lemma RightMeans(phdrs: seq<Phdr>, base: int, p: Info)
    ensures OnSome(phdrs, p.vaddr - base) && BeginsPage(phdrs, p, p.vaddr - base) ==> PageRight(phdrs, base, p)
    ensures !OnSome(phdrs, p.vaddr - base) && FillsBefore(phdrs, p, p.vaddr + p.memsz - base) ==> PageRight(phdrs, base, p)
  {
    hide OnSome;
    hide BeginsPage;
    hide FillsBefore;
  }

  lemma TilesInTurn(s: seq<Info>)
    requires Tiles(s)
    ensures InTurn(s)
  {
    forall i | 0 < i < |s| ensures s[i].vaddr == s[i - 1].vaddr + s[i - 1].memsz {
      assert End(s[i - 1]) == s[i - 1 + 1].vaddr;
    }
  }

  /** Neighbours that both begin where headers have something differ in the write bit, or they would have been merged. */
  lemma NeighboursDiffer(phdrs: seq<Phdr>, base: int, i: nat)
    requires Overlay(phdrs) != [] && i + 1 < |Filled(MergedPages(phdrs, base))|
    ensures var pages := Filled(MergedPages(phdrs, base));
            OnSome(phdrs, pages[i].vaddr - base) && OnSome(phdrs, pages[i + 1].vaddr - base)
            ==> pages[i].flags & 2 != pages[i + 1].flags & 2
  {
    hide MergedPages;
    hide Overlay;
    hide Filled;
    hide OnSome;
    var m := MergedPages(phdrs, base);
    var pages := Filled(m);
    var p, q := pages[i], pages[i + 1];
    MergedNotEmpty(phdrs, base);
    MergedEffect(phdrs, base, 0);
    FilledTiles(m, 0);
    assert End(p) == q.vaddr;
    if OnSome(phdrs, p.vaddr - base) && OnSome(phdrs, q.vaddr - base) {
      FromMerged(phdrs, base, p);
      FromMerged(phdrs, base, q);
      MergedNeighbours(m, p, q);
    }
  }

  lemma FromMerged(phdrs: seq<Phdr>, base: int, p: Info)
    requires Overlay(phdrs) != [] && p in Filled(MergedPages(phdrs, base)) && OnSome(phdrs, p.vaddr - base)
    ensures p in MergedPages(phdrs, base)
  {
    hide *;
    if p !in MergedPages(phdrs, base) {
      GapBegins(phdrs, base, p);
    }
  }

  lemma MergedNeighbours(m: seq<Info>, p: Info, q: Info)
    requires Laid(m) && NoMergeable(m) && p in m && q in m && End(p) == q.vaddr
    ensures p.flags & 2 != q.flags & 2
  {
    var j :| 0 <= j < |m| && m[j] == p;
    var k :| 0 <= k < |m| && m[k] == q;
    LaidIncreasing(m, j, k);
    LaidIncreasing(m, k, j);
    if j + 1 < k {
      LaidIncreasing(m, j + 1, k);
    }
    assert !Mergeable(m[j], m[j + 1]);
  }

  lemma {:induction false} LaidIncreasing(m: seq<Info>, j: nat, k: nat)
    requires Laid(m) && j < |m| && k < |m|
    ensures j < k ==> End(m[j]) <= m[k].vaddr && m[j].vaddr < m[k].vaddr
    decreases k
  {
    if j < k {
      assert End(m[k - 1]) <= m[k - 1 + 1].vaddr;
      if j < k - 1 {
        LaidIncreasing(m, j, k - 1);
      }
    }
  }

  /** The page that holds an address has the write bit that the headers give the address. */
  lemma HolderRight(phdrs: seq<Phdr>, base: int, p: Info, x: int)
    requires Overlay(phdrs) != [] && p in Filled(MergedPages(phdrs, base)) && Contains(p, x)
    ensures AddressRight(phdrs, base, p, x)
  {
    hide MergedPages;
    hide Overlay;
    hide Filled;
    var m := MergedPages(phdrs, base);
    MergedNotEmpty(phdrs, base);
    MergedEffect(phdrs, base, x);
    FilledTiles(m, x);
    FilledTells(m, Filled(m), LastFlags(phdrs, PageOf(x, base)), x);
    OwnerIsHolder(Filled(m), p, x);
    LastIs(phdrs, PageOf(x, base));
    hide Owner;
    hide LastFlags;
    hide OnSome;
    hide Latest;
    hide Tiles;
    hide FilledUp;
  }

  lemma OwnerIsHolder(s: seq<Info>, p: Info, x: int)
    requires Tiles(s) && p in s && Contains(p, x)
    ensures Owner(s, x) == Some(p)
  {
    TilesIncreasing(s);
    OwnerFound(s, x);
    var o := Owner(s, x);
    hide Owner;
    assert o.Some?;
    var i :| 0 <= i < |s| && s[i] == p;
    var j :| 0 <= j < |s| && s[j] == o.value;
    TilesTogether(s, i, j, x);
  }

  lemma TilesTogether(s: seq<Info>, i: nat, j: nat, x: int)
    requires Tiles(s) && Increasing(s) && i < |s| && j < |s|
    requires s[i].vaddr <= x < End(s[i]) && s[j].vaddr <= x < End(s[j])
    ensures i == j
  {
    TilesBelow(s, i, j);
    TilesBelow(s, j, i);
    hide Tiles;
    hide Increasing;
  }

  lemma TilesBelow(s: seq<Info>, i: nat, j: nat)
    requires Tiles(s) && Increasing(s) && i < |s| && j < |s|
    ensures i < j ==> End(s[i]) <= s[j].vaddr
  {
    if i < j {
      assert End(s[i]) == s[i + 1].vaddr;
      assert i + 1 == j || s[i + 1].vaddr < s[j].vaddr;
    }
  }

  /** A described address lies in some page. */
  lemma DescribedHeld(phdrs: seq<Phdr>, base: int, x: int) returns (p: Info)
    requires Overlay(phdrs) != [] && OnSome(phdrs, PageAt(x, base))
    ensures p in Filled(MergedPages(phdrs, base)) && Contains(p, x)
  {
    hide MergedPages;
    hide Overlay;
    hide Filled;
    var m := MergedPages(phdrs, base);
    MergedNotEmpty(phdrs, base);
    MergedEffect(phdrs, base, x);
    FilledTiles(m, x);
    FilledTells(m, Filled(m), LastFlags(phdrs, PageOf(x, base)), x);
    LastIs(phdrs, PageOf(x, base));
    OwnerFound(Filled(m), x);
    hide Owner;
    p := Owner(Filled(m), x).value;
  }

  ghost predicate PagesRight(phdrs: seq<Phdr>, base: int, pages: seq<Info>) {
    forall p | p in pages :: PageRight(phdrs, base, p)
  }

  ghost predicate AddressesRight(phdrs: seq<Phdr>, base: int, pages: seq<Info>) {
    forall p, x | p in pages && Contains(p, x) :: AddressRight(phdrs, base, p, x)
  }

  ghost predicate HoldsDescribed(phdrs: seq<Phdr>, base: int, pages: seq<Info>) {
    forall x | OnSome(phdrs, PageAt(x, base)) :: exists p :: p in pages && Contains(p, x)
  }

  ghost predicate WritingDiffers(phdrs: seq<Phdr>, base: int, pages: seq<Info>) {
    forall i | 0 <= i < |pages| - 1 && OnSome(phdrs, pages[i].vaddr - base) && OnSome(phdrs, pages[i + 1].vaddr - base) ::
      pages[i].flags & 2 != pages[i + 1].flags & 2
  }

  /**
    The map of a module exists if and only if some header has memory.  Its pages
    follow each other, the first where a header has something; every page is
    right about where it begins, and every address about its write bit; described
    addresses are all in it, and neighbours that are no fillers differ in writing.
   */
  lemma MapIsRight(phdrs: seq<Phdr>, base: int)
    ensures Map(phdrs, base).Some? <==> exists i :: 0 <= i < |phdrs| && phdrs[i].memsz > 0
    ensures Map(phdrs, base).Some? ==>
              var pages := Map(phdrs, base).value;
              && InTurn(pages) && OnSome(phdrs, pages[0].vaddr - base)
              && PagesRight(phdrs, base, pages) && AddressesRight(phdrs, base, pages)
              && HoldsDescribed(phdrs, base, pages) && WritingDiffers(phdrs, base, pages)
  {
    MapEffect(phdrs, base, 0);
    if Map(phdrs, base).Some? {
      MapIsFilled(phdrs, base);
      hide *;
      var pages := Map(phdrs, base).value;
      TilesInTurn(pages);
      FirstDescribed(phdrs, base);
      AllPagesRight(phdrs, base);
      AllAddressesRight(phdrs, base);
      AllDescribedHeld(phdrs, base);
      AllWritingDiffers(phdrs, base);
    }
  }

  lemma AllPagesRight(phdrs: seq<Phdr>, base: int)
    requires Overlay(phdrs) != []
    ensures PagesRight(phdrs, base, Filled(MergedPages(phdrs, base)))
  {
    hide PageRight;
    hide Filled;
    forall p | p in Filled(MergedPages(phdrs, base)) ensures PageRight(phdrs, base, p) {
      EveryPageRight(phdrs, base, p);
    }
  }

  lemma AllAddressesRight(phdrs: seq<Phdr>, base: int)
    requires Overlay(phdrs) != []
    ensures AddressesRight(phdrs, base, Filled(MergedPages(phdrs, base)))
  {
    hide AddressRight;
    hide Contains;
    hide Filled;
    forall p, x | p in Filled(MergedPages(phdrs, base)) && Contains(p, x) ensures AddressRight(phdrs, base, p, x) {
      HolderRight(phdrs, base, p, x);
    }
  }

  lemma AllDescribedHeld(phdrs: seq<Phdr>, base: int)
    requires Overlay(phdrs) != []
    ensures HoldsDescribed(phdrs, base, Filled(MergedPages(phdrs, base)))
  {
    hide OnSome;
    hide Contains;
    hide Filled;
    forall x | OnSome(phdrs, PageAt(x, base)) ensures exists p :: p in Filled(MergedPages(phdrs, base)) && Contains(p, x) {
      var p := DescribedHeld(phdrs, base, x);
    }
  }

  lemma AllWritingDiffers(phdrs: seq<Phdr>, base: int)
    requires Overlay(phdrs) != []
    ensures WritingDiffers(phdrs, base, Filled(MergedPages(phdrs, base)))
  {
    hide OnSome;
    hide Filled;
    var pages := Filled(MergedPages(phdrs, base));
    forall i | 0 <= i < |pages| - 1 && OnSome(phdrs, pages[i].vaddr - base) && OnSome(phdrs, pages[i + 1].vaddr - base)
      ensures pages[i].flags & 2 != pages[i + 1].flags & 2
    {
      NeighboursDiffer(phdrs, base, i);
    }
  }

  lemma FirstDescribed(phdrs: seq<Phdr>, base: int)
    requires Overlay(phdrs) != []
    ensures var pages := Filled(MergedPages(phdrs, base)); pages != [] && OnSome(phdrs, pages[0].vaddr - base)
  {
    hide *;
    MergedNotEmpty(phdrs, base);
    var m := MergedPages(phdrs, base);
    FirstOfFilled(m);
    MergedBegins(phdrs, base, m[0]);
  }

  lemma FirstOfFilled(m: seq<Info>)
    requires m != []
    ensures Filled(m) != [] && Filled(m)[0] == m[0]
  {
  }
}
