/**
  Which pages the refinement gives, one by one and in plain terms
  (pwndbg/aglib/vmmap.py:53-131).
 */
module SharedCacheLaw {
  import opened Options
  import opened SharedCache

  // ----- The terms -----

  /** `s` is the text of an ASCII name. */
  predicate Spells(s: string, name: seq<Byte>) {
    |s| == |name| && forall i | 0 <= i < |name| :: name[i] < 128 && s[i] as int == name[i]
  }

  predicate IsAscii(name: seq<Byte>) {
    forall i | 0 <= i < |name| :: name[i] < 128
  }

  /** The images from `k` to `m - 1` begin inside the page, those before at its start or below, those after behind it. */
  ghost predicate Begin(images: seq<Image>, page: Page, k: nat, m: nat) {
    && k <= m <= |images|
    && (forall i | 0 <= i < k :: images[i].base <= page.start)
    && (forall i | k <= i < m :: page.start < images[i].base < page.start + page.size)
    && (forall i | m <= i < |images| :: images[i].base >= page.start + page.size)
  }

  /**
    Piece `j` of a page: from the page's start, or the base of an image that begins
    inside, to the next such base or the page's end, under that image's name.  The
    first piece belongs to the last image before, if there is one.
   */
  ghost predicate IsPiece(cache: Cache, page: Page, k: nat, m: nat, j: nat, q: Page)
    requires Begin(cache.images, page, k, m) && j <= m - k
  {
    && q.start == (if j == 0 then page.start else cache.images[k + j - 1].base)
    && q.start + q.size == (if j == m - k then page.start + page.size else cache.images[k + j].base)
    && q.flags == page.flags && q.offset == q.start - cache.start && q.inSharedCache
    && if k + j == 0 then q.objfile == "[SharedCacheHeader]" else Spells(q.objfile, cache.images[k + j - 1].name)
  }

  /** The names of the images a page is cut up by can be decoded. */
  ghost predicate NamesReadable(images: seq<Image>, k: nat, m: nat)
    requires k <= m <= |images|
  {
    forall i | k - 1 <= i < m && i >= 0 :: IsAscii(images[i].name)
  }

  // ----- One page -----

  lemma DecodeSpells(name: seq<Byte>)
    ensures Decode(name).Some? <==> IsAscii(name)
    ensures Decode(name).Some? ==> Spells(Decode(name).value, name)
  {
  }

  /** On a sorted table the images that begin inside a page stand together. */
  lemma BeginExists(images: seq<Image>, page: Page, k: nat) returns (m: nat)
    requires Sorted(images) && Splits(images, page.start, k)
    ensures Begin(images, page, k, m)
  {
    m := FirstBehind(images, page.start + page.size, k);
  }

  lemma {:induction false} FirstBehind(images: seq<Image>, end: int, k: nat) returns (m: nat)
    requires Sorted(images) && k <= |images|
    ensures k <= m <= |images|
    ensures (forall i | k <= i < m :: images[i].base < end) && (forall i | m <= i < |images| :: images[i].base >= end)
    decreases |images| - k
  {
    if k < |images| && images[k].base < end {
      m := FirstBehind(images, end, k + 1);
    } else {
      m := k;
    }
  }

  /** The pieces from the `j`-th on. */
  ghost predicate ArePieces(cache: Cache, page: Page, k: nat, m: nat, j: nat, r: seq<Page>)
    requires Begin(cache.images, page, k, m)
  {
    && j + |r| == 1 + m - k
    && forall i | 0 <= i < |r| :: IsPiece(cache, page, k, m, j + i, r[i])
  }

  lemma PiecesOnce(cache: Cache, page: Page, k: nat, m: nat, j: nat, curr: int)
    requires Begin(cache.images, page, k, m) && page.size > 0 && j <= m - k
    requires k + j == 0 ==> curr == page.start
    ensures var rest := Pieces(cache, page, k + j + 1, if j == 0 then page.start else cache.images[k + j - 1].base);
            var r := Pieces(cache, page, k + j, curr);
            if k + j > 0 && !IsAscii(cache.images[k + j - 1].name) then r == NotAscii
            else exists q :: r == Cons(q, rest) && IsPiece(cache, page, k, m, j, q)
  {
    var images := cache.images;
    if k + j > 0 {
      DecodeSpells(images[k + j - 1].name);
    }
    hide Decode;
    hide Spells;
    hide IsAscii;
    var base := if j == 0 then page.start else images[k + j - 1].base;
    if k + j == 0 || IsAscii(images[k + j - 1].name) {
      var end := if k + j == |images| then page.End() else Min(page.End(), images[k + j].base);
      var name := if k + j == 0 then HEADER else Decode(images[k + j - 1].name).value;
      var q := Page(base, end - base, page.flags, base - cache.start, name, true);
      hide Pieces;
      assert IsPiece(cache, page, k, m, j, q);
      PiecesUnfold(cache, page, k + j, curr, base, name, q);
    }
  }

  lemma PiecesUnfold(cache: Cache, page: Page, k: nat, curr: int, base: int, name: string, q: Page)
    requires k <= |cache.images| && (k > 0 ==> cache.images[k - 1].base < page.End() && Decode(cache.images[k - 1].name) == Some(name))
    requires k == 0 ==> name == HEADER
    requires base == if k == 0 then curr else Max(cache.images[k - 1].base, page.start)
    requires var end := if k == |cache.images| then page.End() else Min(page.End(), cache.images[k].base);
             q == Page(base, end - base, page.flags, base - cache.start, name, true)
    ensures Pieces(cache, page, k, curr) == Cons(q, Pieces(cache, page, k + 1, base))
  {
    hide Decode;
  }

  lemma PiecesOver(cache: Cache, page: Page, k: nat, m: nat, curr: int)
    requires Begin(cache.images, page, k, m)
    ensures Pieces(cache, page, m + 1, curr) == Pages([])
  {
  }

  lemma {:induction false} PiecesAre(cache: Cache, page: Page, k: nat, m: nat, j: nat, curr: int)
    requires Begin(cache.images, page, k, m) && page.size > 0 && j <= 1 + m - k
    requires k + j == 0 ==> curr == page.start
    ensures var r := Pieces(cache, page, k + j, curr);
            if forall i | k + j - 1 <= i < m && i >= 0 :: IsAscii(cache.images[i].name)
            then r.Pages? && ArePieces(cache, page, k, m, j, r.pages)
            else r == NotAscii
    decreases 1 + m - k - j
  {
    hide Pieces;
    hide IsPiece;
    hide IsAscii;
    if j == 1 + m - k {
      PiecesOver(cache, page, k, m, curr);
    } else {
      var next := if j == 0 then page.start else cache.images[k + j - 1].base;
      PiecesOnce(cache, page, k, m, j, curr);
      PiecesAre(cache, page, k, m, j + 1, next);
      if k + j == 0 || IsAscii(cache.images[k + j - 1].name) {
        var rest := Pieces(cache, page, k + j + 1, next);
        var q :| Pieces(cache, page, k + j, curr) == Cons(q, rest) && IsPiece(cache, page, k, m, j, q);
        if rest.Pages? {
          PieceInFront(cache, page, k, m, j, q, rest.pages);
        }
      }
    }
  }

  lemma PieceInFront(cache: Cache, page: Page, k: nat, m: nat, j: nat, q: Page, rest: seq<Page>)
    requires Begin(cache.images, page, k, m) && j <= m - k
    requires IsPiece(cache, page, k, m, j, q) && ArePieces(cache, page, k, m, j + 1, rest)
    ensures ArePieces(cache, page, k, m, j, [q] + rest)
  {
    hide IsPiece;
    hide Begin;
    var r := [q] + rest;
    forall i | 0 <= i < |r| ensures IsPiece(cache, page, k, m, j + i, r[i]) {
      assert i > 0 ==> IsPiece(cache, page, k, m, j + 1 + (i - 1), rest[i - 1]);
    }
  }

  /**
    What becomes of one page, on a sorted table: it stays as it is if it ends below
    the cache or begins at its end or above, it is refused if it is not inside
    either, or if a name is not ASCII, and else it is cut up at the images' bases.
   */
  lemma PageIs(cache: Cache, page: Page) returns (k: nat, m: nat)
    requires Sorted(cache.images) && page.size > 0
    ensures Begin(cache.images, page, k, m)
    ensures page.start + page.size < cache.start || page.start >= cache.start + cache.size ==> RefinePage(cache, page) == Pages([page])
    ensures page.start + page.size >= cache.start && page.start < cache.start + cache.size ==>
              if page.start < cache.start || page.start + page.size > cache.start + cache.size then RefinePage(cache, page) == PartialOverlap
              else if !NamesReadable(cache.images, k, m) then RefinePage(cache, page) == NotAscii
              else RefinePage(cache, page).Pages? && ArePieces(cache, page, k, m, 0, RefinePage(cache, page).pages)
  {
    k := BisectFrom(cache.images, page.start, 0, |cache.images|);
    BisectSplits(cache.images, page.start, 0, |cache.images|);
    m := BeginExists(cache.images, page, k);
    PiecesAre(cache, page, k, m, 0, page.start);
    hide Pieces;
    hide BisectFrom;
    hide IsAscii;
    hide ArePieces;
    hide Begin;
  }

  // ----- The whole map -----

  function Concat(parts: seq<seq<Page>>): seq<Page> {
    if parts == [] then [] else Concat(parts[..|parts| - 1]) + parts[|parts| - 1]
  }

  /**
    Without a cache the map stays as it is.  With one, every page is replaced where
    it stands by what becomes of it, or the first page that is refused decides.
   */
  lemma {:induction false} MapIs(cache: Option<Cache>, pages: seq<Page>) returns (parts: seq<seq<Page>>)
    ensures cache.None? ==> Refine(cache, pages) == Pages(pages)
    ensures cache.Some? ==> |parts| <= |pages| && forall i | 0 <= i < |parts| :: RefinePage(cache.value, pages[i]) == Pages(parts[i])
    ensures cache.Some? && |parts| == |pages| ==> Refine(cache, pages) == Pages(Concat(parts))
    ensures cache.Some? && |parts| < |pages| ==>
              !RefinePage(cache.value, pages[|parts|]).Pages? && Refine(cache, pages) == RefinePage(cache.value, pages[|parts|])
    decreases |pages|
  {
    hide RefinePage;
    parts := [];
    if cache.Some? && pages != [] {
      var front, last := pages[..|pages| - 1], pages[|pages| - 1];
      parts := MapIs(cache, front);
      if |parts| == |front| && RefinePage(cache.value, last).Pages? {
        var more := parts + [RefinePage(cache.value, last).pages];
        assert more[..|more| - 1] == parts;
        parts := more;
      }
    }
  }
}
