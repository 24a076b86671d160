/**
  Tagging the memory map with the images of the Darwin shared cache
  (pwndbg/aglib/vmmap.py:53-131) and the sorted image table it splits pages by
  (pwndbg/aglib/macho.py:611-632).
 */
module SharedCache {
  import opened Options

  type Byte = b: int | 0 <= b < 256

  datatype Image = Image(name: seq<Byte>, base: int)

  datatype Cache = Cache(start: int, size: nat, images: seq<Image>)

  datatype Page = Page(start: int, size: int, flags: int, offset: int, objfile: string, inSharedCache: bool) {
    function End(): int { start + size }

    predicate Has(x: int) { start <= x < End() }
  }

  /** The refined pages, the failed assertion about partial overlaps, or the UnicodeDecodeError of an image name. */
  datatype Outcome = Pages(pages: seq<Page>) | PartialOverlap | NotAscii

  const HEADER := "[SharedCacheHeader]"

  /** bytes.decode("ascii") */
  function Decode(name: seq<Byte>): Option<string> {
    if forall i | 0 <= i < |name| :: name[i] < 128 then
      Some(seq(|name|, i requires 0 <= i < |name| && name[i] < 128 => name[i] as char))
    else None
  }

  function Max(a: int, b: int): int { if a < b then b else a }

  function Min(a: int, b: int): int { if b < a then b else a }

  // ----- bisect.bisect_right -----

  function BisectFrom(images: seq<Image>, x: int, lo: nat, hi: nat): (k: nat)
    requires lo <= hi <= |images|
    ensures lo <= k <= hi
    decreases hi - lo
  {
    if lo == hi then lo
    else
      var mid := (lo + hi) / 2;
      if x < images[mid].base then BisectFrom(images, x, lo, mid) else BisectFrom(images, x, mid + 1, hi)
  }

  method BisectRight(images: seq<Image>, x: int) returns (k: nat)
    ensures k <= |images| && k == BisectFrom(images, x, 0, |images|)
  {
    var lo, hi := 0, |images|;
    while lo < hi
      invariant 0 <= lo <= hi <= |images|
      invariant BisectFrom(images, x, lo, hi) == BisectFrom(images, x, 0, |images|)
    {
      var mid := (lo + hi) / 2;
      if x < images[mid].base {
        hi := mid;
      } else {
        lo := mid + 1;
      }
    }
    k := lo;
  }

  ghost predicate Sorted(images: seq<Image>) {
    forall i, j | 0 <= i < j < |images| :: images[i].base <= images[j].base
  }

  /** `k` separates the bases up to `x` from those above. */
  ghost predicate Splits(images: seq<Image>, x: int, k: nat) {
    && k <= |images|
    && (forall i | 0 <= i < k :: images[i].base <= x)
    && (forall i | k <= i < |images| :: x < images[i].base)
  }

  lemma {:induction false} BisectSplits(images: seq<Image>, x: int, lo: nat, hi: nat)
    requires Sorted(images) && lo <= hi <= |images|
    requires forall i | 0 <= i < lo :: images[i].base <= x
    requires forall i | hi <= i < |images| :: x < images[i].base
    ensures Splits(images, x, BisectFrom(images, x, lo, hi))
    decreases hi - lo
  {
    if lo < hi {
      var mid := (lo + hi) / 2;
      if x < images[mid].base {
        BisectSplits(images, x, lo, mid);
      } else {
        BisectSplits(images, x, mid + 1, hi);
      }
    }
  }

  // ----- Splitting one page -----

  function Cons(q: Page, rest: Outcome): Outcome {
    if rest.Pages? then Pages([q] + rest.pages) else rest
  }

  /** The while loop, from `one_past_index == k` and `curr_base == curr` on. */
  function Pieces(cache: Cache, page: Page, k: nat, curr: int): Outcome
    decreases |cache.images| + 1 - k
  {
    var images := cache.images;
    if k > |images| || (k > 0 && images[k - 1].base >= page.End()) then Pages([])
    else
      var name := if k == 0 then Some(HEADER) else Decode(images[k - 1].name);
      if name.None? then NotAscii
      else
        var base := if k == 0 then curr else Max(images[k - 1].base, page.start);
        var end := if k == |images| then page.End() else Min(page.End(), images[k].base);
        Cons(Page(base, end - base, page.flags, base - cache.start, name.value, true), Pieces(cache, page, k + 1, base))
  }

  predicate Outside(cache: Cache, page: Page) {
    page.End() < cache.start || page.start >= cache.start + cache.size
  }

  predicate Inside(cache: Cache, page: Page) {
    cache.start <= page.start && page.End() <= cache.start + cache.size
  }

  function RefinePage(cache: Cache, page: Page): Outcome {
    if Outside(cache, page) then Pages([page])
    else if !Inside(cache, page) then PartialOverlap
    else Pieces(cache, page, BisectFrom(cache.images, page.start, 0, |cache.images|), page.start)
  }

  function RefineAll(cache: Cache, pages: seq<Page>): Outcome {
    if pages == [] then Pages([])
    else
      var front := RefineAll(cache, pages[..|pages| - 1]);
      if !front.Pages? then front
      else
        var last := RefinePage(cache, pages[|pages| - 1]);
        if last.Pages? then Pages(front.pages + last.pages) else last
  }

  function Refine(cache: Option<Cache>, pages: seq<Page>): Outcome {
    if cache.None? then Pages(pages) else RefineAll(cache.value, pages)
  }

  lemma PiecesStep(cache: Cache, page: Page, k: nat, curr: int, final: seq<Page>, q: Page, rest: Outcome)
    requires rest.Pages?
    ensures Prepend(final, Cons(q, rest)) == Prepend(final + [q], rest)
  {
    assert final + ([q] + rest.pages) == (final + [q]) + rest.pages;
  }

  function Prepend(final: seq<Page>, rest: Outcome): Outcome {
    if rest.Pages? then Pages(final + rest.pages) else rest
  }

  /** The loop that splits a page inside the cache, appending to `final_pages`. */
  method SplitPage(cache: Cache, page: Page, final0: seq<Page>) returns (r: Outcome)
    ensures r == Prepend(final0, Pieces(cache, page, BisectFrom(cache.images, page.start, 0, |cache.images|), page.start))
  {
    var images := cache.images;
    var onePastIndex := BisectRight(images, page.start);
    var currBase := page.start;
    var final := final0;
    ghost var all := Prepend(final, Pieces(cache, page, onePastIndex, currBase));
    while true
      invariant all == Prepend(final, Pieces(cache, page, onePastIndex, currBase))
      decreases |images| + 1 - onePastIndex
    {
      if onePastIndex > |images| {
        break;
      }
      var objfile;
      if onePastIndex == 0 {
        objfile := HEADER;
      } else if images[onePastIndex - 1].base >= page.End() {
        break;
      } else {
        var name := Decode(images[onePastIndex - 1].name);
        if name.None? {
          return NotAscii;
        }
        objfile := name.value;
        currBase := Max(images[onePastIndex - 1].base, page.start);
      }
      var end;
      if onePastIndex == |images| {
        end := page.End();
      } else {
        end := Min(page.End(), images[onePastIndex].base);
      }
      var q := Page(currBase, end - currBase, page.flags, currBase - cache.start, objfile, true);
      ghost var rest := Pieces(cache, page, onePastIndex + 1, currBase);
      if rest.Pages? {
        PiecesStep(cache, page, onePastIndex, currBase, final, q, rest);
      }
      final := final + [q];
      onePastIndex := onePastIndex + 1;
    }
    assert final + [] == final;
    r := Pages(final);
  }

  method RefineMemoryMap(cache: Option<Cache>, pages: seq<Page>) returns (r: Outcome)
    ensures r == Refine(cache, pages)
  {
    if cache.None? {
      return Pages(pages);
    }
    hide Pieces;
    hide BisectFrom;
    var c := cache.value;
    var final := [];
    for i := 0 to |pages|
      invariant RefineAll(c, pages[..i]) == Pages(final)
    {
      var page := pages[i];
      assert pages[..i + 1][..i] == pages[..i];
      if page.End() < c.start || page.start >= c.start + c.size {
        final := final + [page];
      } else {
        if !(page.start >= c.start && page.End() <= c.start + c.size) {
          RefineAllFails(c, pages, i + 1);
          return PartialOverlap;
        }
        var split := SplitPage(c, page, final);
        if !split.Pages? {
          RefineAllFails(c, pages, i + 1);
          return split;
        }
        final := split.pages;
      }
    }
    assert pages[..|pages|] == pages;
    r := Pages(final);
  }

  /** The first failure is the outcome. */
  lemma {:induction false} RefineAllFails(cache: Cache, pages: seq<Page>, n: nat)
    requires n <= |pages| && !RefineAll(cache, pages[..n]).Pages?
    ensures RefineAll(cache, pages) == RefineAll(cache, pages[..n])
    decreases |pages|
  {
    if n < |pages| {
      var front := pages[..|pages| - 1];
      assert front[..n] == pages[..n];
      RefineAllFails(cache, front, n);
    } else {
      assert pages[..n] == pages;
    }
  }

  // ----- What the pieces are -----

  /** The last image whose base is at most `x`. */
  function LastImage(images: seq<Image>, x: int): Option<Image> {
    if images == [] then None
    else if images[|images| - 1].base <= x then Some(images[|images| - 1])
    else LastImage(images[..|images| - 1], x)
  }

  function NameAt(images: seq<Image>, x: int): Option<string> {
    var image := LastImage(images, x);
    if image.None? then Some(HEADER) else Decode(image.value.name)
  }

  /** The pages follow each other from `a` to `b`; some may be empty. */
  predicate Tiles(pages: seq<Page>, a: int, b: int) {
    if pages == [] then a == b
    else pages[0].start == a && pages[0].size >= 0 && Tiles(pages[1..], pages[0].End(), b)
  }

  ghost predicate Fine(cache: Cache, page: Page, q: Page) {
    && q.flags == page.flags && q.inSharedCache && q.offset == q.start - cache.start
    && forall x | q.Has(x) :: NameAt(cache.images, x) == Some(q.objfile)
  }

  ghost predicate AllFine(cache: Cache, page: Page, pieces: seq<Page>) {
    forall q | q in pieces :: Fine(cache, page, q)
  }

  lemma {:induction false} LastOfSplit(images: seq<Image>, x: int, k: nat)
    requires Splits(images, x, k)
    ensures LastImage(images, x) == if k == 0 then None else Some(images[k - 1])
    decreases |images|
  {
    if images != [] && images[|images| - 1].base > x {
      LastOfSplit(images[..|images| - 1], x, k);
    }
  }

  /** A piece that starts with image `k - 1` and ends before image `k` has that image's name. */
  lemma PieceNamed(cache: Cache, k: nat, q: Page)
    requires Sorted(cache.images) && k <= |cache.images|
    requires Some(q.objfile) == if k == 0 then Some(HEADER) else Decode(cache.images[k - 1].name)
    requires k > 0 ==> cache.images[k - 1].base <= q.start
    requires k < |cache.images| ==> q.End() <= cache.images[k].base
    ensures forall x | q.Has(x) :: NameAt(cache.images, x) == Some(q.objfile)
  {
    forall x | q.Has(x) ensures NameAt(cache.images, x) == Some(q.objfile) {
      assert Splits(cache.images, x, k);
      LastOfSplit(cache.images, x, k);
    }
  }

  /**
    From the image in force at `at` on, the pieces tile what is left of the page
    and carry the names of their addresses.
   */
  lemma {:induction false} PiecesTile(cache: Cache, page: Page, k: nat, curr: int, at: int)
    requires Sorted(cache.images) && k <= |cache.images| + 1
    requires page.start <= at <= page.End()
    requires k == 0 ==> curr == at
    requires 0 < k <= |cache.images| ==> Max(cache.images[k - 1].base, page.start) == at || (cache.images[k - 1].base >= page.End() && at == page.End())
    requires k < |cache.images| ==> at <= cache.images[k].base
    requires k == |cache.images| + 1 ==> at == page.End()
    requires Pieces(cache, page, k, curr).Pages?
    ensures var r := Pieces(cache, page, k, curr).pages;
            Tiles(r, at, page.End()) && AllFine(cache, page, r)
    decreases |cache.images| + 1 - k
  {
    var images := cache.images;
    var r := Pieces(cache, page, k, curr).pages;
    if k > |images| || (k > 0 && images[k - 1].base >= page.End()) {
      assert r == [];
    } else {
      var end := if k == |images| then page.End() else Min(page.End(), images[k].base);
      var rest := Pieces(cache, page, k + 1, at).pages;
      assert r == [r[0]] + rest && r[0].start == at && r[0].End() == end;
      if k < |images| && images[k].base < page.End() {
        assert Max(images[k].base, page.start) == end;
      }
      PiecesTile(cache, page, k + 1, at, end);
      PieceNamed(cache, k, r[0]);
      assert r[1..] == rest;
    }
  }

  /** A page inside the cache is replaced by pieces that tile it, in order, with its flags, each address under its image's name. */
  lemma PageTiled(cache: Cache, page: Page)
    requires Sorted(cache.images) && page.size >= 0
    requires !Outside(cache, page) && RefinePage(cache, page).Pages?
    ensures var r := RefinePage(cache, page).pages;
            Tiles(r, page.start, page.End()) && AllFine(cache, page, r)
  {
    var k := BisectFrom(cache.images, page.start, 0, |cache.images|);
    BisectSplits(cache.images, page.start, 0, |cache.images|);
    PiecesTile(cache, page, k, page.start, page.start);
  }

  // ----- What the refined map says of an address -----

  function Owner(pages: seq<Page>, x: int): Option<Page> {
    if pages == [] then None
    else if pages[0].Has(x) then Some(pages[0])
    else Owner(pages[1..], x)
  }

  lemma {:induction false} OwnerOfConcat(a: seq<Page>, b: seq<Page>, x: int)
    ensures Owner(a + b, x) == if Owner(a, x).Some? then Owner(a, x) else Owner(b, x)
    decreases |a|
  {
    if a == [] {
      assert a + b == b;
    } else {
      OwnerOfConcat(a[1..], b, x);
      assert (a + b)[1..] == a[1..] + b;
    }
  }

  lemma {:induction false} OwnerOfTiles(pages: seq<Page>, a: int, b: int, x: int)
    requires Tiles(pages, a, b)
    ensures a <= b
    ensures Owner(pages, x).Some? <==> a <= x < b
    ensures Owner(pages, x).Some? ==> Owner(pages, x).value in pages && Owner(pages, x).value.Has(x)
    decreases |pages|
  {
    if pages != [] {
      OwnerOfTiles(pages[1..], pages[0].End(), b, x);
    }
  }

  /** How the page holding `x` after refinement relates to the one before. */
  ghost predicate Refines(cache: Cache, before: Option<Page>, after: Option<Page>, x: int) {
    match before
    case None => after.None?
    case Some(page) =>
      && after.Some? && after.value.Has(x)
      && if Outside(cache, page) then after.value == page
         else Fine(cache, page, after.value) && page.start <= after.value.start && after.value.End() <= page.End()
  }

  lemma {:induction false} PieceInTiles(pages: seq<Page>, a: int, b: int, q: Page)
    requires Tiles(pages, a, b) && q in pages
    ensures a <= q.start && q.End() <= b
    decreases |pages|
  {
    OwnerOfTiles(pages[1..], pages[0].End(), b, 0);
    if q != pages[0] {
      PieceInTiles(pages[1..], pages[0].End(), b, q);
    }
  }

  lemma PageRefines(cache: Cache, page: Page, x: int)
    requires Sorted(cache.images) && page.size >= 0 && RefinePage(cache, page).Pages?
    ensures Refines(cache, Owner([page], x), Owner(RefinePage(cache, page).pages, x), x)
  {
    assert [page][1..] == [];
    assert Owner([page], x) == if page.Has(x) then Some(page) else None;
    if !Outside(cache, page) {
      var r := RefinePage(cache, page).pages;
      PageTiled(cache, page);
      OwnerOfTiles(r, page.start, page.End(), x);
      if Owner(r, x).Some? {
        PieceInTiles(r, page.start, page.End(), Owner(r, x).value);
      }
    }
  }

  /**
    Refinement keeps which addresses are mapped and the flags of each; addresses
    outside the cache keep their page, addresses in it get the name of the last
    image that starts at or below them and their offset in the cache.
   */
  lemma {:induction false} MapRefines(cache: Cache, pages: seq<Page>, x: int)
    requires Sorted(cache.images) && forall p | p in pages :: p.size >= 0
    requires RefineAll(cache, pages).Pages?
    ensures Refines(cache, Owner(pages, x), Owner(RefineAll(cache, pages).pages, x), x)
    decreases |pages|
  {
    if pages != [] {
      var front, last := pages[..|pages| - 1], pages[|pages| - 1];
      assert pages == front + [last];
      MapRefines(cache, front, x);
      PageRefines(cache, last, x);
      OwnerOfConcat(front, [last], x);
      OwnerOfConcat(RefineAll(cache, front).pages, RefinePage(cache, last).pages, x);
      hide Owner;
    }
  }

  // ----- When it fails -----

  /** The images whose names the loop decodes: from the one in force at the start to the end of the page. */
  ghost predicate Readable(cache: Cache, page: Page, k: nat) {
    forall i | k - 1 <= i < |cache.images| && i >= 0 && cache.images[i].base < page.End() :: Decode(cache.images[i].name).Some?
  }

  lemma {:induction false} PiecesFail(cache: Cache, page: Page, k: nat, curr: int)
    requires Sorted(cache.images) && k <= |cache.images| + 1
    ensures Pieces(cache, page, k, curr) == NotAscii <==> !Readable(cache, page, k)
    decreases |cache.images| + 1 - k
  {
    var images := cache.images;
    if k <= |images| && !(k > 0 && images[k - 1].base >= page.End()) {
      var base := if k == 0 then curr else Max(images[k - 1].base, page.start);
      PiecesFail(cache, page, k + 1, base);
      hide Decode;
    }
  }

  /** Whatever the table, the loop raises nothing but a decoding error, and not that if every name is readable. */
  lemma {:induction false} PiecesOutcome(cache: Cache, page: Page, k: nat, curr: int)
    ensures !Pieces(cache, page, k, curr).PartialOverlap?
    ensures (forall i | 0 <= i < |cache.images| :: Decode(cache.images[i].name).Some?) ==> Pieces(cache, page, k, curr).Pages?
    decreases |cache.images| + 1 - k
  {
    var images := cache.images;
    if k <= |images| && !(k > 0 && images[k - 1].base >= page.End()) {
      PiecesOutcome(cache, page, k + 1, if k == 0 then curr else Max(images[k - 1].base, page.start));
      hide Decode;
    }
  }

  /** A page is refused for its position exactly when it neither lies in the cache nor is recognised as outside. */
  lemma PageFails(cache: Cache, page: Page)
    ensures RefinePage(cache, page) == PartialOverlap <==> !Outside(cache, page) && !Inside(cache, page)
    ensures Sorted(cache.images) ==>
              (RefinePage(cache, page) == NotAscii <==>
              !Outside(cache, page) && Inside(cache, page) && exists k :: Splits(cache.images, page.start, k) && !Readable(cache, page, k))
  {
    var k := BisectFrom(cache.images, page.start, 0, |cache.images|);
    PiecesOutcome(cache, page, k, page.start);
    if Sorted(cache.images) {
      BisectSplits(cache.images, page.start, 0, |cache.images|);
      PiecesFail(cache, page, k, page.start);
      forall j: nat | Splits(cache.images, page.start, j) ensures j == k {
        assert j < |cache.images| ==> page.start < cache.images[j].base;
        assert k < |cache.images| ==> page.start < cache.images[k].base;
      }
    }
  }

  /**
    Of the pages that share no address with the cache, the assertion fails for
    exactly the ones that end where the cache starts: the first comparison is strict.
   */
  lemma DisjointPageFails(cache: Cache, page: Page)
    requires page.size > 0 && cache.size > 0
    requires page.End() <= cache.start || cache.start + cache.size <= page.start
    ensures RefinePage(cache, page) == PartialOverlap <==> page.End() == cache.start
  {
    PageFails(cache, page);
  }

  /** With readable image names, the whole map is refined exactly when every page is outside or inside. */
  lemma {:induction false} MapFails(cache: Cache, pages: seq<Page>)
    requires forall i | 0 <= i < |cache.images| :: Decode(cache.images[i].name).Some?
    ensures RefineAll(cache, pages).Pages? <==> forall p | p in pages :: Outside(cache, p) || Inside(cache, p)
    ensures !RefineAll(cache, pages).Pages? ==> RefineAll(cache, pages) == PartialOverlap
    decreases |pages|
  {
    if pages != [] {
      var front, last := pages[..|pages| - 1], pages[|pages| - 1];
      assert pages == front + [last];
      MapFails(cache, front);
      PageFails(cache, last);
      PiecesOutcome(cache, last, BisectFrom(cache.images, last.start, 0, |cache.images|), last.start);
      hide Decode;
    }
  }

  // ----- The sorted image table -----

  function Insert(images: seq<Image>, image: Image): (r: seq<Image>)
    ensures |r| == |images| + 1
  {
    if images == [] || image.base < images[0].base then [image] + images else [images[0]] + Insert(images[1..], image)
  }

  /** list.sort by base: images with equal bases keep their order. */
  function Sort(images: seq<Image>): seq<Image> {
    if images == [] then [] else Insert(Sort(images[..|images| - 1]), images[|images| - 1])
  }

  function WithBase(images: seq<Image>, base: int): seq<Image> {
    if images == [] then []
    else Selected(images[0], base) + WithBase(images[1..], base)
  }

  function Selected(image: Image, base: int): seq<Image> {
    if image.base == base then [image] else []
  }

  lemma {:induction false} WithBaseOfConcat(a: seq<Image>, b: seq<Image>, base: int)
    ensures WithBase(a + b, base) == WithBase(a, base) + WithBase(b, base)
    decreases |a|
  {
    hide Selected;
    if a == [] {
      assert a + b == b;
    } else {
      WithBaseOfConcat(a[1..], b, base);
      WithBaseCons(a[0], a[1..], base);
      WithBaseCons(a[0], a[1..] + b, base);
      hide WithBase;
      assert a + b == [a[0]] + (a[1..] + b) && a == [a[0]] + a[1..];
    }
  }

  lemma WithBaseCons(image: Image, images: seq<Image>, base: int)
    ensures WithBase([image] + images, base) == Selected(image, base) + WithBase(images, base)
  {
    assert ([image] + images)[1..] == images;
  }

  lemma {:induction false} NoneWithBase(images: seq<Image>, base: int)
    requires forall i | 0 <= i < |images| :: images[i].base > base
    ensures WithBase(images, base) == []
    decreases |images|
  {
    if images != [] {
      NoneWithBase(images[1..], base);
    }
  }

  lemma SortedCons(image: Image, images: seq<Image>)
    requires Sorted(images) && forall q | q in images :: image.base <= q.base
    ensures Sorted([image] + images)
  {
  }

  lemma {:induction false} InsertElements(images: seq<Image>, image: Image)
    ensures multiset(Insert(images, image)) == multiset(images) + multiset{image}
    ensures forall q :: q in Insert(images, image) <==> q == image || q in images
    decreases |images|
  {
    if images != [] && image.base >= images[0].base {
      InsertElements(images[1..], image);
      assert images == [images[0]] + images[1..];
    }
  }

  lemma {:induction false} InsertSorted(images: seq<Image>, image: Image)
    requires Sorted(images)
    ensures Sorted(Insert(images, image))
    decreases |images|
  {
    if images != [] && image.base >= images[0].base {
      var rest := Insert(images[1..], image);
      InsertSorted(images[1..], image);
      InsertElements(images[1..], image);
      assert forall q | q in rest :: images[0].base <= q.base;
      SortedCons(images[0], rest);
    }
  }

  lemma {:induction false} InsertWithBase(images: seq<Image>, image: Image, base: int)
    requires Sorted(images)
    ensures WithBase(Insert(images, image), base) == WithBase(images, base) + WithBase([image], base)
    decreases |images|
  {
    if images == [] || image.base < images[0].base {
      WithBaseOfConcat([image], images, base);
      if image.base == base {
        NoneWithBase(images, base);
      }
    } else {
      InsertWithBase(images[1..], image, base);
      assert Insert(images, image)[1..] == Insert(images[1..], image);
    }
  }

  /** The sort gives a sorted permutation that keeps the order of images with the same base. */
  lemma SortKeeps(images: seq<Image>, base: int)
    ensures Sorted(Sort(images)) && multiset(Sort(images)) == multiset(images)
    ensures WithBase(Sort(images), base) == WithBase(images, base)
  {
    SortElements(images);
    SortStable(images, base);
  }

  lemma {:induction false} SortElements(images: seq<Image>)
    ensures multiset(Sort(images)) == multiset(images)
    decreases |images|
  {
    if images != [] {
      var front, last := images[..|images| - 1], images[|images| - 1];
      SortElements(front);
      InsertElements(Sort(front), last);
      hide Insert;
      LastAdds(images);
    }
  }

  lemma LastAdds(images: seq<Image>)
    requires images != []
    ensures multiset(images) == multiset(images[..|images| - 1]) + multiset{images[|images| - 1]}
  {
    assert images == images[..|images| - 1] + [images[|images| - 1]];
  }

  lemma {:induction false} SortStable(images: seq<Image>, base: int)
    ensures Sorted(Sort(images)) && WithBase(Sort(images), base) == WithBase(images, base)
    decreases |images|
  {
    if images != [] {
      var front, last := images[..|images| - 1], images[|images| - 1];
      SortStable(front, base);
      InsertSorted(Sort(front), last);
      InsertWithBase(Sort(front), last, base);
      hide Insert;
      hide Sorted;
      assert images == front + [last];
      WithBaseOfConcat(front, [last], base);
    }
  }

  function ImageTable(images: seq<Image>, naturallySorted: bool): seq<Image> {
    if naturallySorted then images else Sort(images)
  }

  /** The table is a permutation of the images; it is sorted exactly when a set flag tells the truth. */
  lemma TableSorted(images: seq<Image>, naturallySorted: bool)
    ensures multiset(ImageTable(images, naturallySorted)) == multiset(images)
    ensures Sorted(ImageTable(images, naturallySorted)) <==> !naturallySorted || Sorted(images)
  {
    SortKeeps(images, 0);
  }

  class DyldSharedCache {
    const images: seq<Image>
    const naturallySorted: bool
    var cachedSorted: Option<seq<Image>>

    ghost predicate Valid()
      reads this
    {
      cachedSorted.Some? ==> cachedSorted.value == ImageTable(images, naturallySorted)
    }

    constructor (images: seq<Image>, naturallySorted: bool)
      ensures Valid() && this.images == images && this.naturallySorted == naturallySorted
    {
      this.images, this.naturallySorted, cachedSorted := images, naturallySorted, None;
    }

    /** The property images_sorted: computed once, then answered from the cached field. */
    method ImagesSorted() returns (r: seq<Image>)
      requires Valid()
      modifies this
      ensures Valid() && r == ImageTable(images, naturallySorted) && cachedSorted == Some(r)
      ensures old(cachedSorted).Some? ==> r == old(cachedSorted).value
    {
      if cachedSorted.Some? {
        return cachedSorted.value;
      }
      if naturallySorted {
        cachedSorted := Some(images);
      } else {
        cachedSorted := Some(Sort(images));
      }
      r := cachedSorted.value;
    }
  }
}
