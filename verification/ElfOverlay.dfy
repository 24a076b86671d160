/**
  Overlaying an ELF module's program headers page by page
  (pwndbg/aglib/elf.py:414-464).  Pages are values here; ElfPages has the objects.
 */
module ElfOverlay {
  import opened Options

  const PAGE_SIZE: nat := 4096
  const PF_X: bv32 := 1
  const PF_W: bv32 := 2

  datatype Phdr = Phdr(vaddr: nat, memsz: nat, offset: nat, flags: bv32)

  datatype Info = Info(vaddr: int, memsz: int, flags: bv32, offset: int)

  function End(p: Info): int { p.vaddr + p.memsz }

  // ----- Page rounding -----

  function PageAlign(x: nat): (r: nat)
    ensures r <= x < r + PAGE_SIZE && r % PAGE_SIZE == 0
  {
    x - x % PAGE_SIZE
  }

  function PageSizeAlign(x: nat): nat { PageAlign(x + PAGE_SIZE - 1) }

  function PageOffset(x: nat): nat { x % PAGE_SIZE }

  function FirstPage(h: Phdr): nat { PageAlign(h.vaddr) }

  /** How many pages a header describes. */
  function PageCount(h: Phdr): nat {
    PageSizeAlign(h.memsz + PageOffset(h.vaddr)) / PAGE_SIZE
  }

  /** The `k`-th page address from `addr` on. */
  function Nth(addr: nat, k: nat): nat { addr + k * PAGE_SIZE }

  predicate InRange(addr: nat, n: nat, a: int) {
    exists k | 0 <= k < n :: Nth(addr, k) == a
  }

  /** `a` is the address of a page that header `h` describes. */
  predicate Covers(h: Phdr, a: int) {
    h.memsz > 0 && InRange(FirstPage(h), PageCount(h), a)
  }

  /** The pages of a header are those between its start rounded down and its end rounded up. */
  lemma CoversIsRounded(h: Phdr, a: nat)
    ensures Covers(h, a) <==>
            h.memsz > 0 && a % PAGE_SIZE == 0 && PageAlign(h.vaddr) <= a < PageSizeAlign(h.vaddr + h.memsz)
  {
    var first := FirstPage(h);
    assert h.vaddr == first + PageOffset(h.vaddr);
    SizeIsRounded(first, h.memsz + PageOffset(h.vaddr));
    RangeIsInterval(first, PageCount(h), a);
    hide InRange;
    hide PageAlign;
  }

  lemma RangeIsInterval(first: nat, n: nat, a: nat)
    requires first % PAGE_SIZE == 0
    ensures InRange(first, n, a) <==> a % PAGE_SIZE == 0 && first <= a < first + n * PAGE_SIZE
  {
    if a % PAGE_SIZE == 0 && first <= a < first + n * PAGE_SIZE {
      var k := (a - first) / PAGE_SIZE;
      assert Nth(first, k) == a && k < n;
    }
    if InRange(first, n, a) {
      var k :| 0 <= k < n && Nth(first, k) == a;
    }
  }

  lemma SizeIsRounded(first: nat, size: nat)
    requires first % PAGE_SIZE == 0
    ensures PageSizeAlign(size) == PageSizeAlign(size) / PAGE_SIZE * PAGE_SIZE
    ensures PageSizeAlign(first + size) == first + PageSizeAlign(size)
  {
  }

  // ----- Overlay -----

  /** The first page starting at `a`, as list membership and index find it. */
  function At(pages: seq<Info>, a: int): (r: Option<nat>)
    ensures r.Some? ==> r.value < |pages| && pages[r.value].vaddr == a
    ensures r.None? ==> forall i | 0 <= i < |pages| :: pages[i].vaddr != a
  {
    if pages == [] then None
    else if pages[0].vaddr == a then Some(0)
    else
      var r := At(pages[1..], a);
      if r.None? then None else Some(r.value + 1)
  }

  function FlagsAt(pages: seq<Info>, a: int): Option<bv32> {
    var r := At(pages, a);
    if r.None? then None else Some(pages[r.value].flags)
  }

  /** The flags written to a page that already exists: execute is never removed. */
  function Keep(earlier: bv32, flags: bv32): bv32 {
    if earlier & PF_X != 0 then flags | PF_X else flags
  }

  /** The loop over a header's pages; a kept execute flag stays for the rest of the header. */
  function OverlayFrom(pages: seq<Info>, addr: nat, n: nat, flags: bv32, offset: int): seq<Info>
    decreases n
  {
    if n == 0 then pages
    else
      match At(pages, addr)
      case Some(i) =>
        var f := Keep(pages[i].flags, flags);
        OverlayFrom(pages[i := pages[i].(flags := f)], addr + PAGE_SIZE, n - 1, f, offset + PAGE_SIZE)
      case None =>
        OverlayFrom(pages + [Info(addr, PAGE_SIZE, flags, offset)], addr + PAGE_SIZE, n - 1, flags, offset + PAGE_SIZE)
  }

  function OverlayHeader(pages: seq<Info>, h: Phdr): seq<Info> {
    if h.memsz == 0 then pages
    else OverlayFrom(pages, FirstPage(h), PageCount(h), h.flags, PageAlign(h.offset))
  }

  function Overlay(phdrs: seq<Phdr>): seq<Info> {
    if phdrs == [] then [] else OverlayHeader(Overlay(phdrs[..|phdrs| - 1]), phdrs[|phdrs| - 1])
  }

  /** Page lists as the overlay builds them: single pages at distinct page addresses. */
  ghost predicate Single(pages: seq<Info>) {
    && (forall i | 0 <= i < |pages| :: pages[i].memsz == PAGE_SIZE && pages[i].vaddr % PAGE_SIZE == 0)
    && (forall i, j | 0 <= i < j < |pages| :: pages[i].vaddr != pages[j].vaddr)
  }

  function NonX(f: bv32): bv32 { f & 0xFFFF_FFFE }

  predicate HasX(f: bv32) { f & PF_X != 0 }

  lemma KeepBits(earlier: bv32, flags: bv32)
    ensures NonX(Keep(earlier, flags)) == NonX(flags)
    ensures HasX(Keep(earlier, flags)) == (HasX(flags) || HasX(earlier))
    ensures Keep(earlier, flags) & PF_W == flags & PF_W
  {
    assert (flags | 1) & 0xFFFF_FFFE == flags & 0xFFFF_FFFE;
    assert (flags | 1) & 1 != 0;
    assert (flags | 1) & 2 == flags & 2;
  }

  lemma WritableOfNonX(f: bv32)
    ensures NonX(f) & PF_W == f & PF_W
  {
  }

  lemma AtUpdate(pages: seq<Info>, i: nat, f: bv32, a: int)
    requires i < |pages| && At(pages, pages[i].vaddr) == Some(i)
    ensures FlagsAt(pages[i := pages[i].(flags := f)], a) == if a == pages[i].vaddr then Some(f) else FlagsAt(pages, a)
  {
    var after := pages[i := pages[i].(flags := f)];
    SameStarts(pages, after, a);
    SameStarts(pages, after, pages[i].vaddr);
  }

  lemma {:induction false} SameStarts(s: seq<Info>, t: seq<Info>, a: int)
    requires |s| == |t| && forall i | 0 <= i < |s| :: s[i].vaddr == t[i].vaddr
    ensures At(s, a) == At(t, a)
    decreases |s|
  {
    if s != [] {
      SameStarts(s[1..], t[1..], a);
    }
  }

  lemma {:induction false} AtAppend(pages: seq<Info>, p: Info, a: int)
    requires At(pages, p.vaddr).None?
    ensures FlagsAt(pages + [p], a) == if a == p.vaddr then Some(p.flags) else FlagsAt(pages, a)
    decreases |pages|
  {
    if pages == [] {
      assert [p][1..] == [];
    } else {
      assert (pages + [p])[1..] == pages[1..] + [p];
      AtAppend(pages[1..], p, a);
    }
  }

  /** A page of the header, or an earlier one of the same header, was executable before. */
  predicate XBefore(pages: seq<Info>, addr: nat, n: nat, a: int) {
    exists k | 0 <= k < n :: Nth(addr, k) <= a && FlagsAt(pages, Nth(addr, k)).Some? && HasX(FlagsAt(pages, Nth(addr, k)).value)
  }

  /**
    One header: it creates or rewrites exactly its pages.  All flags but execute
    are the header's; execute is set if the header has it or one of its pages up
    to this one had it.
   */
  ghost predicate OverlaidAt(pages: seq<Info>, after: seq<Info>, addr: nat, n: nat, flags: bv32, a: int) {
    var got := FlagsAt(after, a);
    if InRange(addr, n, a) then
      && got.Some? && NonX(got.value) == NonX(flags)
      && (HasX(got.value) <==> HasX(flags) || XBefore(pages, addr, n, a))
    else got == FlagsAt(pages, a)
  }

  lemma {:induction false} OverlayFromEffect(pages: seq<Info>, addr: nat, n: nat, flags: bv32, offset: int, a: int)
    ensures OverlaidAt(pages, OverlayFrom(pages, addr, n, flags, offset), addr, n, flags, a)
    decreases n
  {
    if n > 0 {
      var (pages1, f) := OverlayStep(pages, addr, flags, offset);
      var after := OverlayFrom(pages1, addr + PAGE_SIZE, n - 1, f, offset + PAGE_SIZE);
      assert OverlayFrom(pages, addr, n, flags, offset) == after;
      OverlayFromEffect(pages1, addr + PAGE_SIZE, n - 1, f, offset + PAGE_SIZE, a);
      OverlaidStep(pages, after, addr, n, flags, offset, a);
    }
  }

  lemma OverlaidStep(pages: seq<Info>, after: seq<Info>, addr: nat, n: nat, flags: bv32, offset: int, a: int)
    requires n > 0
    requires var (pages1, f) := OverlayStep(pages, addr, flags, offset);
             OverlaidAt(pages1, after, addr + PAGE_SIZE, n - 1, f, a)
    ensures OverlaidAt(pages, after, addr, n, flags, a)
  {
    var (pages1, f) := OverlayStep(pages, addr, flags, offset);
    OverlayStepFlags(pages, addr, flags, offset);
    hide NonX;
    hide HasX;
    hide InRange;
    hide XBefore;
    hide FlagsAt;
    hide OverlayStep;
    RangeStep(addr, n, a);
    if InRange(addr, n, a) {
      RangeAbove(addr, n, a);
      XBeforeStep(pages, pages1, addr, n, a);
      XBeforeNone(pages1, addr + PAGE_SIZE, n - 1, addr);
    }
  }

  /** One page of a header: the new list, and the flags carried on. */
  function OverlayStep(pages: seq<Info>, addr: nat, flags: bv32, offset: int): (seq<Info>, bv32) {
    match At(pages, addr)
    case Some(i) =>
      var f := Keep(pages[i].flags, flags);
      (pages[i := pages[i].(flags := f)], f)
    case None => (pages + [Info(addr, PAGE_SIZE, flags, offset)], flags)
  }

  lemma OverlayFromStep(pages: seq<Info>, addr: nat, n: nat, flags: bv32, offset: int)
    requires n > 0
    ensures var (pages1, f) := OverlayStep(pages, addr, flags, offset);
            OverlayFrom(pages, addr, n, flags, offset) == OverlayFrom(pages1, addr + PAGE_SIZE, n - 1, f, offset + PAGE_SIZE)
  {
  }

  lemma OverlayStepFlags(pages: seq<Info>, addr: nat, flags: bv32, offset: int)
    ensures var (pages1, f) := OverlayStep(pages, addr, flags, offset);
            && (forall b :: FlagsAt(pages1, b) == if b == addr then Some(f) else FlagsAt(pages, b))
            && NonX(f) == NonX(flags)
            && HasX(f) == (HasX(flags) || (FlagsAt(pages, addr).Some? && HasX(FlagsAt(pages, addr).value)))
  {
    hide At;
    hide NonX;
    hide HasX;
    hide Keep;
    var (pages1, f) := OverlayStep(pages, addr, flags, offset);
    var r := At(pages, addr);
    forall b ensures FlagsAt(pages1, b) == if b == addr then Some(f) else FlagsAt(pages, b) {
      if r.Some? {
        AtUpdate(pages, r.value, f, b);
      } else {
        AtAppend(pages, Info(addr, PAGE_SIZE, flags, offset), b);
      }
    }
    if r.Some? {
      KeepBits(pages[r.value].flags, flags);
    }
  }

  lemma RangeAbove(addr: nat, n: nat, a: int)
    requires InRange(addr, n, a)
    ensures a >= addr
  {
  }

  lemma XBeforeNone(pages: seq<Info>, addr: nat, n: nat, a: int)
    ensures a < addr ==> !XBefore(pages, addr, n, a)
  {
  }

  lemma RangeStep(addr: nat, n: nat, a: int)
    requires n > 0
    ensures InRange(addr, n, a) <==> a == addr || InRange(addr + PAGE_SIZE, n - 1, a)
    ensures !InRange(addr + PAGE_SIZE, n - 1, addr)
  {
    if InRange(addr, n, a) {
      var k :| 0 <= k < n && Nth(addr, k) == a;
      if k > 0 {
        assert Nth(addr + PAGE_SIZE, k - 1) == a;
      }
    }
    if InRange(addr + PAGE_SIZE, n - 1, a) {
      var k :| 0 <= k < n - 1 && Nth(addr + PAGE_SIZE, k) == a;
      assert Nth(addr, k + 1) == a;
    }
    assert Nth(addr, 0) == addr;
  }

  lemma XBeforeStep(pages: seq<Info>, pages1: seq<Info>, addr: nat, n: nat, a: int)
    requires n > 0 && a >= addr
    requires forall b | b != addr :: FlagsAt(pages1, b) == FlagsAt(pages, b)
    ensures XBefore(pages, addr, n, a) <==>
            (FlagsAt(pages, addr).Some? && HasX(FlagsAt(pages, addr).value)) || XBefore(pages1, addr + PAGE_SIZE, n - 1, a)
  {
    if XBefore(pages, addr, n, a) {
      var k :| 0 <= k < n && Nth(addr, k) <= a && FlagsAt(pages, Nth(addr, k)).Some? && HasX(FlagsAt(pages, Nth(addr, k)).value);
      if k > 0 {
        assert Nth(addr + PAGE_SIZE, k - 1) == Nth(addr, k);
      }
    }
    if XBefore(pages1, addr + PAGE_SIZE, n - 1, a) {
      var k :| 0 <= k < n - 1 && Nth(addr + PAGE_SIZE, k) <= a && FlagsAt(pages1, Nth(addr + PAGE_SIZE, k)).Some?
               && HasX(FlagsAt(pages1, Nth(addr + PAGE_SIZE, k)).value);
      assert Nth(addr, k + 1) == Nth(addr + PAGE_SIZE, k);
    }
    assert Nth(addr, 0) == addr;
  }

  lemma {:induction false} OverlayFromSingle(pages: seq<Info>, addr: nat, n: nat, flags: bv32, offset: int)
    requires Single(pages) && addr % PAGE_SIZE == 0
    ensures Single(OverlayFrom(pages, addr, n, flags, offset))
    ensures |OverlayFrom(pages, addr, n, flags, offset)| >= |pages|
    ensures n > 0 ==> |OverlayFrom(pages, addr, n, flags, offset)| > 0
    decreases n
  {
    if n > 0 {
      match At(pages, addr)
      case Some(i) =>
        var f := Keep(pages[i].flags, flags);
        OverlayFromSingle(pages[i := pages[i].(flags := f)], addr + PAGE_SIZE, n - 1, f, offset + PAGE_SIZE);
      case None =>
        OverlayFromSingle(pages + [Info(addr, PAGE_SIZE, flags, offset)], addr + PAGE_SIZE, n - 1, flags, offset + PAGE_SIZE);
    }
  }

  /** The flags of the last header that describes page `a`. */
  function LastFlags(phdrs: seq<Phdr>, a: int): Option<bv32> {
    if phdrs == [] then None
    else if Covers(phdrs[|phdrs| - 1], a) then Some(phdrs[|phdrs| - 1].flags)
    else LastFlags(phdrs[..|phdrs| - 1], a)
  }

  lemma {:induction false} OverlaySingle(phdrs: seq<Phdr>)
    ensures Single(Overlay(phdrs))
    ensures (exists i :: 0 <= i < |phdrs| && phdrs[i].memsz > 0) <==> Overlay(phdrs) != []
    decreases |phdrs|
  {
    if phdrs != [] {
      var front, h := phdrs[..|phdrs| - 1], phdrs[|phdrs| - 1];
      OverlaySingle(front);
      assert forall i | 0 <= i < |front| :: front[i] == phdrs[i];
      if h.memsz > 0 {
        PagesForMemory(h);
        OverlayFromSingle(Overlay(front), FirstPage(h), PageCount(h), h.flags, PageAlign(h.offset));
      }
    }
  }

  lemma PagesForMemory(h: Phdr)
    requires h.memsz > 0
    ensures PageCount(h) > 0
  {
    SizeIsRounded(0, h.memsz + PageOffset(h.vaddr));
  }

  predicate Described(phdrs: seq<Phdr>, a: int) {
    exists i :: 0 <= i < |phdrs| && Covers(phdrs[i], a)
  }

  predicate DescribedX(phdrs: seq<Phdr>, a: int) {
    exists i :: 0 <= i < |phdrs| && Covers(phdrs[i], a) && HasX(phdrs[i].flags)
  }

  lemma DescribedLast(front: seq<Phdr>, h: Phdr, a: int)
    ensures Described(front + [h], a) <==> Described(front, a) || Covers(h, a)
    ensures DescribedX(front + [h], a) <==> DescribedX(front, a) || (Covers(h, a) && HasX(h.flags))
  {
    var all := front + [h];
    assert all[|front|] == h;
    assert forall i | 0 <= i < |front| :: all[i] == front[i];
    if Described(front, a) {
      var i :| 0 <= i < |front| && Covers(front[i], a);
      assert Covers(all[i], a);
    }
    if DescribedX(front, a) {
      var i :| 0 <= i < |front| && Covers(front[i], a) && HasX(front[i].flags);
      assert Covers(all[i], a);
    }
  }

  /**
    After the header loop the pages are exactly those some header describes.  All
    flags of a page but execute are those of the last such header; execute is set
    if any of them had it.
   */
  lemma {:induction false} OverlayEffect(phdrs: seq<Phdr>, a: int)
    ensures var got := FlagsAt(Overlay(phdrs), a);
            var last := LastFlags(phdrs, a);
            && (got.Some? <==> Described(phdrs, a))
            && (got.Some? <==> last.Some?)
            && (got.Some? ==> NonX(got.value) == NonX(last.value))
            && (got.Some? && DescribedX(phdrs, a) ==> HasX(got.value))
    decreases |phdrs|
  {
    hide NonX;
    hide HasX;
    hide OverlayFrom;
    if phdrs != [] {
      var front, h := phdrs[..|phdrs| - 1], phdrs[|phdrs| - 1];
      assert phdrs == front + [h];
      OverlayEffect(front, a);
      DescribedLast(front, h, a);
      hide Described;
      hide DescribedX;
      var pages := Overlay(front);
      if h.memsz > 0 {
        var addr, n := FirstPage(h), PageCount(h);
        OverlayFromEffect(pages, addr, n, h.flags, PageAlign(h.offset), a);
        assert OverlaidAt(pages, Overlay(phdrs), addr, n, h.flags, a);
        hide FirstPage;
        hide PageCount;
        if Covers(h, a) && FlagsAt(pages, a).Some? && HasX(FlagsAt(pages, a).value) {
          var k :| 0 <= k < n && Nth(addr, k) == a;
          assert XBefore(pages, addr, n, a);
        }
      }
    }
  }

  // ----- The execute flag, exactly -----

  /**
    Whether page `a` ends executable: the last header describing it is, or one
    of that header's pages up to `a` was before.
   */
  ghost predicate ExecAt(phdrs: seq<Phdr>, a: int)
    decreases |phdrs|
  {
    phdrs != [] &&
    var front, h := phdrs[..|phdrs| - 1], phdrs[|phdrs| - 1];
    if Covers(h, a) then HasX(h.flags) || exists b | b <= a :: Covers(h, b) && ExecAt(front, b)
    else ExecAt(front, a)
  }

  ghost predicate ExecFlag(pages: seq<Info>, a: int) {
    FlagsAt(pages, a).Some? && HasX(FlagsAt(pages, a).value)
  }

  /** A page of the overlay is executable exactly when `ExecAt` says so. */
  lemma {:induction false} OverlayExecutable(phdrs: seq<Phdr>, a: int)
    ensures ExecFlag(Overlay(phdrs), a) <==> ExecAt(phdrs, a)
    decreases |phdrs|
  {
    if phdrs != [] {
      var front, h := phdrs[..|phdrs| - 1], phdrs[|phdrs| - 1];
      var pages := Overlay(front);
      forall b ensures ExecFlag(pages, b) <==> ExecAt(front, b) {
        OverlayExecutable(front, b);
      }
      hide Overlay;
      HeaderExecutable(pages, h, a);
      LastHeader(phdrs);
      hide ExecFlag;
      hide Covers;
      hide HasX;
    }
  }

  lemma LastHeader(phdrs: seq<Phdr>)
    requires phdrs != []
    ensures Overlay(phdrs) == OverlayHeader(Overlay(phdrs[..|phdrs| - 1]), phdrs[|phdrs| - 1])
  {
    hide OverlayHeader;
  }

  /** One header: its pages are executable if it is, or if an earlier one of them was. */
  lemma HeaderExecutable(pages: seq<Info>, h: Phdr, a: int)
    ensures ExecFlag(OverlayHeader(pages, h), a) <==>
            if Covers(h, a) then HasX(h.flags) || exists b | b <= a :: Covers(h, b) && ExecFlag(pages, b)
            else ExecFlag(pages, a)
  {
    if h.memsz > 0 {
      var addr, n := FirstPage(h), PageCount(h);
      OverlayFromEffect(pages, addr, n, h.flags, PageAlign(h.offset), a);
      hide OverlayFrom;
      hide FirstPage;
      hide PageCount;
      hide PageAlign;
      hide FlagsAt;
      hide HasX;
      if XBefore(pages, addr, n, a) {
        var k :| 0 <= k < n && Nth(addr, k) <= a && FlagsAt(pages, Nth(addr, k)).Some? && HasX(FlagsAt(pages, Nth(addr, k)).value);
        assert Covers(h, Nth(addr, k)) && ExecFlag(pages, Nth(addr, k));
      }
    }
  }

  /** An executable page and a larger read-only header over it: the second page is in no executable header, yet executable. */
  const EXECUTE_CARRIED: seq<Phdr> := [Phdr(0, 0x1000, 0, 5), Phdr(0, 0x2000, 0, 4)]

  lemma ExecuteCarriesOver()
    ensures !DescribedX(EXECUTE_CARRIED, 0x1000) && ExecFlag(Overlay(EXECUTE_CARRIED), 0x1000)
  {
    var first, second := EXECUTE_CARRIED[0], EXECUTE_CARRIED[1];
    var front := [first];
    assert EXECUTE_CARRIED[..1] == front && front[..0] == [];
    CoversIsRounded(first, 0);
    CoversIsRounded(first, 0x1000);
    CoversIsRounded(second, 0);
    CoversIsRounded(second, 0x1000);
    assert HasX(first.flags) && !HasX(second.flags);
    assert Covers(first, 0) && !Covers(first, 0x1000) && Covers(second, 0) && Covers(second, 0x1000);
    hide Covers;
    hide HasX;
    hide Overlay;
    assert ExecAt(front, 0);
    OverlayExecutable(EXECUTE_CARRIED, 0x1000);
  }
}
