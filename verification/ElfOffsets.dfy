/**
  Where the pages of a finished map come from: their starts and file offsets
  (pwndbg/aglib/elf.py:429-497).
 */
module ElfOffsets {
  import opened Options
  import opened ElfOverlay
  import opened ElfMap

  function OffsetAt(pages: seq<Info>, a: int): Option<int> {
    var r := At(pages, a);
    if r.None? then None else Some(pages[r.value].offset)
  }

  /** The file offset of page `a` according to the first header describing it. */
  function FirstOffset(phdrs: seq<Phdr>, a: int): Option<int> {
    if phdrs == [] then None
    else
      var front, h := phdrs[..|phdrs| - 1], phdrs[|phdrs| - 1];
      var first := FirstOffset(front, a);
      if first.Some? then first
      else if Covers(h, a) then Some(PageAlign(h.offset) + (a - FirstPage(h)))
      else None
  }

  lemma {:induction false} OffsetAppend(pages: seq<Info>, p: Info, a: int)
    ensures OffsetAt(pages + [p], a) ==
            if OffsetAt(pages, a).Some? then OffsetAt(pages, a) else if a == p.vaddr then Some(p.offset) else None
    decreases |pages|
  {
    if pages == [] {
      assert [p][1..] == [];
    } else {
      assert (pages + [p])[1..] == pages[1..] + [p];
      OffsetAppend(pages[1..], p, a);
    }
  }

  /** Rewriting a page keeps its offset; a new page has the running one. */
  lemma StepOffset(pages: seq<Info>, addr: nat, flags: bv32, offset: int, a: int)
    ensures OffsetAt(OverlayStep(pages, addr, flags, offset).0, a) ==
            if OffsetAt(pages, a).Some? then OffsetAt(pages, a) else if a == addr then Some(offset) else None
  {
    var r := At(pages, addr);
    if r.Some? {
      var pages1 := OverlayStep(pages, addr, flags, offset).0;
      SameStarts(pages, pages1, a);
      hide Keep;
    } else {
      OffsetAppend(pages, Info(addr, PAGE_SIZE, flags, offset), a);
    }
  }

  lemma {:induction false} HeaderOffsets(pages: seq<Info>, addr: nat, n: nat, flags: bv32, offset: int, a: int)
    ensures OffsetAt(OverlayFrom(pages, addr, n, flags, offset), a) ==
            if OffsetAt(pages, a).Some? then OffsetAt(pages, a)
            else if InRange(addr, n, a) then Some(offset + (a - addr)) else None
    decreases n
  {
    if n > 0 {
      OverlayFromStep(pages, addr, n, flags, offset);
      StepOffset(pages, addr, flags, offset, a);
      RangeStep(addr, n, a);
      var (pages1, f) := OverlayStep(pages, addr, flags, offset);
      hide *;
      HeaderOffsets(pages1, addr + PAGE_SIZE, n - 1, f, offset + PAGE_SIZE, a);
    }
  }

  /** A page keeps the file offset that its first header gave it, counted from that header's rounded start. */
  lemma {:induction false} OverlayOffsets(phdrs: seq<Phdr>, a: int)
    ensures OffsetAt(Overlay(phdrs), a) == FirstOffset(phdrs, a)
    decreases |phdrs|
  {
    if phdrs != [] {
      var front, h := phdrs[..|phdrs| - 1], phdrs[|phdrs| - 1];
      OverlayOffsets(front, a);
      if h.memsz > 0 {
        HeaderOffsets(Overlay(front), FirstPage(h), PageCount(h), h.flags, PageAlign(h.offset), a);
      }
      hide FirstPage;
      hide PageCount;
      hide InRange;
    }
  }

  /** `p` begins where a page of `s` begins, with that page's flags and offset. */
  ghost predicate BeginsAs(p: Info, s: seq<Info>) {
    exists q :: q in s && q.vaddr == p.vaddr && q.flags == p.flags && q.offset == p.offset
  }

  /** A merged page begins as its first part does. */
  lemma {:induction false} MergedBegin(prev: Info, rest: seq<Info>, s: seq<Info>)
    requires BeginsAs(prev, s) && forall q | q in rest :: q in s
    ensures forall p | p in MergeFrom(prev, rest) :: BeginsAs(p, s)
    decreases |rest|
  {
    if rest != [] {
      assert rest[0] in s;
      MergedBegin(if Mergeable(prev, rest[0]) then Grown(prev, rest[0]) else rest[0], rest[1..], s);
    }
  }

  /** A gap page ends where a page begins, and has that page's offset and no flags. */
  ghost predicate GapBefore(p: Info, s: seq<Info>) {
    p.flags == 0 && exists q :: q in s && q.vaddr == End(p) && q.offset == p.offset
  }

  lemma {:induction false} FilledParts(s: seq<Info>)
    ensures forall p | p in Filled(s) :: p in s || GapBefore(p, s)
    decreases |s|
  {
    if |s| >= 2 {
      FilledParts(s[1..]);
      assert s == [s[0]] + s[1..];
      forall p | p in Filled(s) ensures p in s || GapBefore(p, s) {
        if p in Gap(s[0], s[1]) {
          assert s[1] in s && s[1].vaddr == End(p) && s[1].offset == p.offset;
        } else if p in Filled(s[1..]) && p !in s[1..] {
          var q :| q in s[1..] && q.vaddr == End(p) && q.offset == p.offset;
          assert q in s;
        }
      }
    }
  }

  /** `p` begins at a described page, with the offset of the first header describing it. */
  ghost predicate FromHeaders(phdrs: seq<Phdr>, base: int, p: Info) {
    FirstOffset(phdrs, p.vaddr - base) == Some(p.offset)
  }

  lemma SortedFromHeaders(phdrs: seq<Phdr>, base: int)
    ensures forall q | q in SortedPages(phdrs, base) :: FromHeaders(phdrs, base, q)
  {
    var pages := Overlay(phdrs);
    var r := Rebased(pages, base);
    SortKeeps(r);
    SameElements(SortedPages(phdrs, base), r);
    hide Sort;
    hide Overlay;
    forall q | q in r ensures FromHeaders(phdrs, base, q) {
      var i :| 0 <= i < |r| && r[i] == q;
      OwnOffset(phdrs, i);
    }
  }

  lemma OwnOffset(phdrs: seq<Phdr>, i: nat)
    requires i < |Overlay(phdrs)|
    ensures FirstOffset(phdrs, Overlay(phdrs)[i].vaddr) == Some(Overlay(phdrs)[i].offset)
  {
    var pages := Overlay(phdrs);
    OverlaySingle(phdrs);
    OverlayOffsets(phdrs, pages[i].vaddr);
    hide Overlay;
    var j := At(pages, pages[i].vaddr);
    assert j == Some(i);
  }

  /**
    Every page of the finished map begins at a described page with its file
    offset, or fills the gap in front of such a page and repeats its offset.
   */
  lemma MapOffsets(phdrs: seq<Phdr>, base: int, p: Info)
    requires Map(phdrs, base).Some? && p in Map(phdrs, base).value
    ensures FromHeaders(phdrs, base, p)
         || (p.flags == 0 && FirstOffset(phdrs, End(p) - base) == Some(p.offset))
  {
    MapIsFilled(phdrs, base);
    MergedStarts(phdrs, base);
    hide *;
    var m := MergedPages(phdrs, base);
    FilledParts(m);
    if p !in m {
      GapIsFromHeaders(phdrs, base, p, m);
    }
  }

  lemma MapIsFilled(phdrs: seq<Phdr>, base: int)
    requires Map(phdrs, base).Some?
    ensures Overlay(phdrs) != [] && Map(phdrs, base).value == Filled(MergedPages(phdrs, base))
  {
    MergedEffect(phdrs, base, 0);
    hide MergedPages;
    hide Overlay;
    FilledIsSorted(MergedPages(phdrs, base));
  }

  lemma GapIsFromHeaders(phdrs: seq<Phdr>, base: int, p: Info, m: seq<Info>)
    requires GapBefore(p, m) && forall q | q in m :: FromHeaders(phdrs, base, q)
    ensures p.flags == 0 && FirstOffset(phdrs, End(p) - base) == Some(p.offset)
  {
    hide FirstOffset;
  }

  lemma MergedStarts(phdrs: seq<Phdr>, base: int)
    requires Overlay(phdrs) != []
    ensures forall q | q in MergedPages(phdrs, base) :: FromHeaders(phdrs, base, q)
  {
    var s := SortedPages(phdrs, base);
    SortedFromHeaders(phdrs, base);
    assert s[0] in s;
    assert BeginsAs(s[0], s);
    MergedBegin(s[0], s[1..], s);
    hide MergeFrom;
    hide SortedPages;
    forall q | q in MergeFrom(s[0], s[1..]) ensures FromHeaders(phdrs, base, q) {
      assert BeginsAs(q, s);
    }
  }
}
