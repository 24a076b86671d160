/**
  map_inner on Page objects: the loops append to, rewrite, sort and shrink one
  list of objects in place (pwndbg/aglib/elf.py:414-497, pwndbg/lib/memory.py:64-220).
 */
module ElfPages {
  import opened Options
  import opened ElfOverlay
  import opened ElfMap

  /** Pages compare by address: equality, order and list membership use `vaddr`. */
  class Page {
    var vaddr: int
    var memsz: int
    var flags: bv32
    var offset: int
    var objfile: string

    constructor (vaddr: int, memsz: int, flags: bv32, offset: int)
      ensures Value() == Info(vaddr, memsz, flags, offset)
    {
      this.vaddr, this.memsz, this.flags, this.offset, objfile := vaddr, memsz, flags, offset, "";
    }

    function Value(): Info
      reads this
    {
      Info(vaddr, memsz, flags, offset)
    }
  }

  function Values(pages: seq<Page>): (vs: seq<Info>)
    reads pages
    ensures |vs| == |pages|
  {
    seq(|pages|, i requires 0 <= i < |pages| reads pages => pages[i].Value())
  }

  ghost predicate DistinctObjects(pages: seq<Page>) {
    forall i, j | 0 <= i < j < |pages| :: pages[i] != pages[j]
  }

  /** `page_addr in pages` and `pages.index(page_addr)`. */
  method FindPage(pages: seq<Page>, addr: int) returns (r: Option<nat>)
    ensures r == At(Values(pages), addr)
  {
    var vs := Values(pages);
    assert vs[0..] == vs;
    for i := 0 to |pages|
      invariant At(vs, addr) == var r := At(vs[i..], addr); if r.None? then None else Some(r.value + i)
    {
      assert vs[i..][0] == vs[i] && vs[i..][1..] == vs[i + 1..];
      if pages[i].vaddr == addr {
        return Some(i);
      }
    }
    r := None;
  }

  /** One page of a header: rewrite its flags, or append it. */
  method OverlayPage(pages0: seq<Page>, pageAddr: nat, flags0: bv32, offset: int) returns (pages: seq<Page>, flags: bv32)
    requires DistinctObjects(pages0)
    modifies pages0
    ensures (Values(pages), flags) == OverlayStep(old(Values(pages0)), pageAddr, flags0, offset)
    ensures DistinctObjects(pages) && forall i | 0 <= i < |pages| :: pages[i] in pages0 || fresh(pages[i])
  {
    pages, flags := pages0, flags0;
    ghost var before := Values(pages);
    var found := FindPage(pages, pageAddr);
    if found.Some? {
      var page := pages[found.value];
      if page.flags & PF_X != 0 {
        flags := flags | PF_X;
      }
      page.flags := flags;
      assert Values(pages) == before[found.value := before[found.value].(flags := flags)];
    } else {
      var page := new Page(pageAddr, PAGE_SIZE, flags, offset);
      pages := pages + [page];
      assert Values(pages) == before + [page.Value()];
    }
  }

  /** The pages of one header. */
  method OverlayPages(pages0: seq<Page>, h: Phdr) returns (pages: seq<Page>)
    requires DistinctObjects(pages0) && h.memsz > 0
    modifies pages0
    ensures Values(pages) == OverlayHeader(old(Values(pages0)), h)
    ensures DistinctObjects(pages) && forall i | 0 <= i < |pages| :: pages[i] in pages0 || fresh(pages[i])
  {
    pages := pages0;
    hide OverlayStep;
    hide OverlayFrom;
    hide Values;
    hide DistinctObjects;
    hide FirstPage;
    hide PageCount;
    hide PageAlign;
    var flags, left := h.flags, PageCount(h);
    var vaddr, offset := FirstPage(h), PageAlign(h.offset);
    var pageAddr := vaddr;
    ghost var all := OverlayFrom(Values(pages), vaddr, left, flags, offset);
    while left > 0
      invariant vaddr <= pageAddr
      invariant DistinctObjects(pages) && forall i | 0 <= i < |pages| :: pages[i] in pages0 || fresh(pages[i])
      invariant OverlayFrom(Values(pages), pageAddr, left, flags, offset + (pageAddr - vaddr)) == all
    {
      OverlayFromStep(Values(pages), pageAddr, left, flags, offset + (pageAddr - vaddr));
      pages, flags := OverlayPage(pages, pageAddr, flags, offset + (pageAddr - vaddr));
      pageAddr := pageAddr + PAGE_SIZE;
      left := left - 1;
    }
    OverlayFromNone(Values(pages), pageAddr, flags, offset + (pageAddr - vaddr));
  }

  lemma OverlayFromNone(pages: seq<Info>, addr: nat, flags: bv32, offset: int)
    ensures OverlayFrom(pages, addr, 0, flags, offset) == pages
  {
  }

  /** The loop over the headers. */
  method OverlayAll(phdrs: seq<Phdr>) returns (pages: seq<Page>)
    ensures Values(pages) == Overlay(phdrs)
    ensures DistinctObjects(pages) && forall i | 0 <= i < |pages| :: fresh(pages[i])
  {
    pages := [];
    for i := 0 to |phdrs|
      invariant DistinctObjects(pages) && forall i | 0 <= i < |pages| :: fresh(pages[i])
      invariant Values(pages) == Overlay(phdrs[..i])
    {
      assert phdrs[..i + 1][..i] == phdrs[..i];
      if phdrs[i].memsz != 0 {
        pages := OverlayPages(pages, phdrs[i]);
      }
    }
    assert phdrs[..|phdrs|] == phdrs;
  }

  /** Move every page to where the module was loaded. */
  method Rebase(pages: seq<Page>, base: int)
    requires DistinctObjects(pages)
    modifies pages
    ensures Values(pages) == Rebased(old(Values(pages)), base)
  {
    ghost var vs := Values(pages);
    for i := 0 to |pages|
      invariant forall j | 0 <= j < i :: pages[j].Value() == vs[j].(vaddr := vs[j].vaddr + base)
      invariant forall j | i <= j < |pages| :: pages[j].Value() == vs[j]
    {
      var page := pages[i];
      page.vaddr := page.vaddr + base;
    }
  }

  lemma SortStep(vs: seq<Info>, i: nat)
    requires i < |vs|
    ensures Sort(vs[..i + 1]) == Insert(Sort(vs[..i]), vs[i])
  {
    assert vs[..i + 1][..i] == vs[..i];
  }

  lemma NothingSorted(vs: seq<Info>, sorted: seq<Page>)
    requires vs == [] && sorted == []
    ensures Sort(vs) == [] && DistinctObjects(sorted)
  {
  }

  lemma NotBefore(pages: seq<Page>, sorted: seq<Page>, i: nat)
    requires DistinctObjects(pages) && i < |pages| && forall p | p in sorted :: p in pages[..i]
    ensures pages[i] !in sorted
  {
    forall p | p in sorted ensures p != pages[i] {
      var j :| 0 <= j < i && pages[j] == p;
    }
  }

  /** list.sort */
  method SortPages(pages: seq<Page>) returns (sorted: seq<Page>)
    requires DistinctObjects(pages)
    ensures Values(sorted) == Sort(Values(pages))
    ensures DistinctObjects(sorted) && |sorted| == |pages| && forall i | 0 <= i < |sorted| :: sorted[i] in pages
  {
    hide Sort;
    hide Insert;
    hide DistinctObjects;
    sorted := [];
    var vs := Values(pages);
    NothingSorted(vs[..0], sorted);
    for i := 0 to |pages|
      invariant |sorted| == i && Values(sorted) == Sort(vs[..i])
      invariant DistinctObjects(sorted) && forall p | p in sorted :: p in pages[..i]
    {
      SortStep(vs, i);
      NotBefore(pages, sorted, i);
      assert pages[..i + 1] == pages[..i] + [pages[i]];
      sorted := InsertPage(sorted, pages[i]);
    }
    assert vs[..|pages|] == vs && pages[..|pages|] == pages;
  }

  method InsertPage(sorted: seq<Page>, page: Page) returns (r: seq<Page>)
    requires DistinctObjects(sorted) && page !in sorted
    ensures Values(r) == Insert(Values(sorted), page.Value())
    ensures DistinctObjects(r) && |r| == |sorted| + 1 && forall p | p in r :: p == page || p in sorted
  {
    if sorted == [] || page.vaddr < sorted[0].vaddr {
      r := [page] + sorted;
    } else {
      assert Values(sorted)[1..] == Values(sorted[1..]);
      r := InsertPage(sorted[1..], page);
      assert sorted[0] !in r;
      r := [sorted[0]] + r;
    }
  }

  /** list.remove: the first page that compares equal, that is, with the same address. */
  method RemovePage(pages: seq<Page>, page: Page) returns (r: seq<Page>, ghost at: nat)
    requires page in pages
    ensures at < |pages| && pages[at].vaddr == page.vaddr && forall j | 0 <= j < at :: pages[j].vaddr != page.vaddr
    ensures r == pages[..at] + pages[at + 1..]
  {
    var i := 0;
    while pages[i].vaddr != page.vaddr
      invariant 0 <= i < |pages|
      invariant forall j | 0 <= j < i :: pages[j].vaddr != page.vaddr
      invariant page in pages[i..]
      decreases |pages| - i
    {
      i := i + 1;
    }
    r, at := pages[..i] + pages[i + 1..], i;
  }

  /** After smaller addresses, the page removed is the page meant. */
  method RemoveAfter(pages: seq<Page>, page: Page, ghost kept: seq<Page>, ghost tail: seq<Page>) returns (r: seq<Page>)
    requires pages == kept + ([page] + tail)
    requires forall i | 0 <= i < |kept| :: kept[i].vaddr < page.vaddr
    ensures r == kept + tail
  {
    assert pages[|kept|] == page;
    assert forall i | 0 <= i < |kept| :: pages[i] == kept[i];
    ghost var at: nat;
    r, at := RemovePage(pages, page);
    assert at == |kept|;
    assert pages[..at] == kept && pages[at + 1..] == tail;
  }

  lemma MergeFromStep(prev: Info, rest: seq<Info>)
    ensures MergeFrom(prev, rest) ==
            if rest == [] then [prev]
            else if Mergeable(prev, rest[0]) then MergeFrom(Grown(prev, rest[0]), rest[1..])
            else [prev] + MergeFrom(rest[0], rest[1..])
  {
  }

  /** The merging branch: enlarge `prev` and drop `page`. */
  method MergeInto(pages: seq<Page>, prev: Page, page: Page, ghost others: seq<Page>, ghost tail: seq<Page>) returns (r: seq<Page>)
    requires pages == others + [prev] + ([page] + tail) && DistinctObjects(pages)
    requires prev.vaddr < page.vaddr && forall i | 0 <= i < |others| :: others[i].vaddr < page.vaddr
    modifies prev
    ensures r == others + [prev] + tail
    ensures prev.Value() == Grown(old(prev.Value()), old(page.Value()))
    ensures Values(others) == old(Values(others)) && Values(tail) == old(Values(tail))
    ensures prev.vaddr == old(prev.vaddr) && forall i | 0 <= i < |others| :: others[i].vaddr == old(others[i].vaddr)
  {
    assert pages[|others|] == prev;
    assert forall i | 0 <= i < |others| :: pages[i] == others[i];
    assert forall i | 0 <= i < |tail| :: pages[|others| + 2 + i] == tail[i];
    r := RemoveAfter(pages, page, others + [prev], tail);
    prev.memsz := prev.memsz + page.memsz;
  }

  lemma Dropped(before: seq<Page>, after: seq<Page>, others: seq<Page>, prev: Page, page: Page, tail: seq<Page>)
    requires before == others + [prev] + ([page] + tail) && after == others + [prev] + tail
    ensures forall p | p in after :: p in before
  {
  }

  lemma ValuesCons(pages: seq<Page>, page: Page, tail: seq<Page>)
    requires pages != [] && page == pages[0] && tail == pages[1..]
    ensures pages == [page] + tail && Values(pages) == [page.Value()] + Values(tail)
  {
  }

  lemma SplitDistinct(others: seq<Page>, prev: Page, page: Page, tail: seq<Page>)
    requires DistinctObjects(others + [prev] + ([page] + tail))
    ensures DistinctObjects(others + [prev] + tail) && DistinctObjects(others + [prev] + [page] + tail)
    ensures others + [prev] + ([page] + tail) == others + [prev] + [page] + tail
  {
    var all := others + [prev] + ([page] + tail);
    var less := others + [prev] + tail;
    assert others + [prev] + [page] + tail == all;
    forall i, j | 0 <= i < j < |less| ensures less[i] != less[j] {
      assert less[i] == all[if i <= |others| then i else i + 1];
      assert less[j] == all[if j <= |others| then j else j + 1];
    }
  }

  /** One page of the merging loop. */
  method MergePage(pages0: seq<Page>, prev0: Page, page: Page, ghost others0: seq<Page>, ghost tail: seq<Page>)
    returns (pages: seq<Page>, prev: Page, ghost others: seq<Page>)
    requires pages0 == others0 + [prev0] + ([page] + tail) && DistinctObjects(pages0)
    requires prev0.vaddr < page.vaddr && forall i | 0 <= i < |others0| :: others0[i].vaddr < page.vaddr
    modifies prev0
    ensures pages == others + [prev] + tail && DistinctObjects(pages)
    ensures prev in pages0 && forall p | p in pages :: p in pages0
    ensures Values(tail) == old(Values(tail))
    ensures prev.vaddr <= old(page.vaddr) && forall i | 0 <= i < |others| :: others[i].vaddr <= old(page.vaddr)
    ensures Values(others) + MergeFrom(prev.Value(), Values(tail))
            == old(Values(others0) + MergeFrom(prev0.Value(), [page.Value()] + Values(tail)))
  {
    hide MergeFrom;
    hide Mergeable;
    pages, prev, others := pages0, prev0, others0;
    SplitDistinct(others, prev, page, tail);
    ghost var rest := [page.Value()] + Values(tail);
    assert rest[1..] == Values(tail);
    MergeFromStep(prev.Value(), rest);
    MergeableMeans(prev.Value(), page.Value());
    if prev.flags & PF_W == page.flags & PF_W && prev.vaddr + prev.memsz == page.vaddr {
      pages := MergeInto(pages, prev, page, others, tail);
      Dropped(pages0, pages, others, prev, page, tail);
    } else {
      ValuesAppend(others, prev);
      Associative(Values(others), [prev.Value()], MergeFrom(page.Value(), Values(tail)));
      others := others + [prev];
      prev := page;
    }
  }

  /**
    Merge contiguous pages with the same write flag, in place: `others` are done,
    `prev` may still grow, the rest is as it was.
   */
  method MergePages(pages0: seq<Page>) returns (pages: seq<Page>)
    requires DistinctObjects(pages0) && pages0 != [] && Increasing(Values(pages0))
    modifies pages0
    ensures Values(pages) == MergeFrom(old(Values(pages0))[0], old(Values(pages0))[1..])
    ensures DistinctObjects(pages) && forall i | 0 <= i < |pages| :: pages[i] in pages0
  {
    hide MergeFrom;
    hide Mergeable;
    ghost var vs := Values(pages0);
    pages := pages0;
    var prev := pages0[0];
    ghost var others: seq<Page> := [];
    assert pages == others + [prev] + pages0[1..];
    assert Values(others) + MergeFrom(vs[0], vs[1..]) == MergeFrom(vs[0], vs[1..]);
    for i := 1 to |pages0|
      invariant pages == others + [prev] + pages0[i..] && DistinctObjects(pages)
      invariant prev in pages0 && forall p | p in pages :: p in pages0
      invariant Values(pages0[i..]) == vs[i..]
      invariant prev.vaddr <= vs[i - 1].vaddr && forall j | 0 <= j < |others| :: others[j].vaddr <= vs[i - 1].vaddr
      invariant MergeFrom(vs[0], vs[1..]) == Values(others) + MergeFrom(prev.Value(), vs[i..])
    {
      var page := pages0[i];
      ghost var tail := pages0[i + 1..];
      assert pages0[i..][1..] == tail;
      assert vs[i..][0] == vs[i] && vs[i..][1..] == vs[i + 1..];
      ValuesCons(pages0[i..], page, tail);
      assert vs[i - 1].vaddr < vs[i].vaddr;
      pages, prev, others := MergePage(pages, prev, page, others, tail);
    }
    assert pages == others + [prev] && vs[|vs|..] == [];
    MergeFromStep(prev.Value(), []);
    ValuesAppend(others, prev);
  }

  lemma Associative(a: seq<Info>, b: seq<Info>, c: seq<Info>)
    ensures a + (b + c) == (a + b) + c
  {
  }

  lemma MergeableMeans(prev: Info, page: Info)
    ensures Mergeable(prev, page) <==> prev.flags & PF_W == page.flags & PF_W && prev.vaddr + prev.memsz == page.vaddr
  {
  }

  lemma ValuesAppend(pages: seq<Page>, page: Page)
    ensures Values(pages + [page]) == Values(pages) + [page.Value()]
  {
  }

  /** The no-access pages for the gaps. */
  method GapPages(pages: seq<Page>) returns (gaps: seq<Page>)
    ensures Values(gaps) == Gaps(Values(pages))
    ensures DistinctObjects(gaps) && forall i | 0 <= i < |gaps| :: fresh(gaps[i])
  {
    hide Gaps;
    gaps := [];
    var vs := Values(pages);
    assert vs[0..] == vs;
    for i := 0 to if |pages| == 0 then 0 else |pages| - 1
      invariant DistinctObjects(gaps) && forall i | 0 <= i < |gaps| :: fresh(gaps[i])
      invariant Gaps(vs) == Values(gaps) + Gaps(vs[i..])
      invariant forall j | 0 <= j < |pages| :: pages[j].Value() == vs[j]
    {
      ghost var known := Values(gaps);
      var a, b := pages[i], pages[i + 1];
      assert vs[i..][0] == vs[i] && vs[i..][1] == vs[i + 1] && vs[i..][1..] == vs[i + 1..];
      GapsStep(vs[i..]);
      var aEnd := a.vaddr + a.memsz;
      if aEnd != b.vaddr {
        var page := new Page(aEnd, b.vaddr - aEnd, 0, b.offset);
        gaps := gaps + [page];
        assert Values(gaps) == known + [page.Value()];
      }
    }
    NoGaps(vs[if |pages| == 0 then 0 else |pages| - 1..]);
  }

  lemma GapsStep(s: seq<Info>)
    requires |s| >= 2
    ensures Gaps(s) == Gap(s[0], s[1]) + Gaps(s[1..])
  {
  }

  lemma NoGaps(s: seq<Info>)
    requires |s| < 2
    ensures Gaps(s) == []
  {
  }

  /** Add the gaps, name the file, and sort. */
  method Finish(pages0: seq<Page>, objfile: string) returns (sorted: seq<Page>)
    requires DistinctObjects(pages0)
    modifies pages0
    ensures Values(sorted) == Sort(old(Values(pages0)) + Gaps(old(Values(pages0))))
    ensures forall p | p in sorted :: p.objfile == objfile
  {
    var gaps := GapPages(pages0);
    var pages := pages0 + gaps;
    ghost var before := Values(pages);
    assert before == Values(pages0) + Values(gaps);
    for i := 0 to |pages|
      invariant forall j | 0 <= j < |pages| :: pages[j].Value() == before[j]
      invariant forall j | 0 <= j < i :: pages[j].objfile == objfile
    {
      pages[i].objfile := objfile;
    }
    assert Values(pages) == before;
    sorted := SortPages(pages);
  }

  lemma SortedIncreasing(phdrs: seq<Phdr>, base: int)
    ensures Increasing(SortedPages(phdrs, base))
    ensures SortedPages(phdrs, base) == [] <==> Overlay(phdrs) == []
  {
    OverlaySingle(phdrs);
    RebasedSingle(Overlay(phdrs), base);
    SortKeeps(Rebased(Overlay(phdrs), base));
  }

  /** map_inner for a present header: None is the IndexError when there is no page at all. */
  method MapInner(phdrs: seq<Phdr>, isDyn: bool, base: int, objfile: string) returns (r: Option<seq<Page>>)
    ensures match Map(phdrs, if isDyn then base else 0)
            case None => r.None?
            case Some(vs) => r.Some? && Values(r.value) == vs && forall p | p in r.value :: p.objfile == objfile
  {
    ghost var shift := if isDyn then base else 0;
    SortedIncreasing(phdrs, shift);
    var pages := OverlayAll(phdrs);
    if isDyn {
      Rebase(pages, base);
    }
    assert Values(pages) == Rebased(Overlay(phdrs), shift);
    pages := SortPages(pages);
    if pages == [] {
      return None;
    }
    hide Overlay;
    hide Sort;
    hide Gaps;
    hide MergeFrom;
    hide Rebased;
    pages := MergePages(pages);
    var sorted := Finish(pages, objfile);
    r := Some(sorted);
  }
}
