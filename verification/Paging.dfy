/** Byte offsets, pages and volume sizes. */
module Paging {
  import opened Bytes

  function PageOf(j: nat, ps: nat): nat
    requires ps > 0
  {
    j / ps
  }

  function OffsetIn(j: nat, ps: nat): (r: nat)
    requires ps > 0
    ensures r < ps
  {
    j % ps
  }

  lemma PageAndOffset(j: nat, ps: nat)
    requires ps > 0
    ensures j == PageOf(j, ps) * ps + OffsetIn(j, ps)
  {
  }

  lemma {:induction false} PageOrder(a: nat, b: nat, ps: nat)
    requires a < b
    ensures a * ps + ps <= b * ps
    decreases b
  {
    assert b * ps == (b - 1) * ps + ps;
    if a < b - 1 { PageOrder(a, b - 1, ps); }
  }

  /** A run of bytes inside one page: which offsets it covers, seen from any offset `j`. */
  lemma InPageRun(j: nat, cursor: nat, n: nat, ps: nat)
    requires ps > 0 && n <= ps - OffsetIn(cursor, ps)
    ensures cursor <= j < cursor + n <==>
      PageOf(j, ps) == PageOf(cursor, ps) && OffsetIn(cursor, ps) <= OffsetIn(j, ps) < OffsetIn(cursor, ps) + n
    ensures PageOf(j, ps) == PageOf(cursor, ps) ==> j - cursor == OffsetIn(j, ps) - OffsetIn(cursor, ps)
  {
    PageAndOffset(j, ps);
    PageAndOffset(cursor, ps);
    hide PageOf, OffsetIn;
    if PageOf(j, ps) < PageOf(cursor, ps) {
      PageOrder(PageOf(j, ps), PageOf(cursor, ps), ps);
    } else if PageOf(cursor, ps) < PageOf(j, ps) {
      PageOrder(PageOf(cursor, ps), PageOf(j, ps), ps);
    }
  }

  lemma RangeCovers(offset: nat, len: nat, ps: nat)
    requires ps > 0 && len > 0
    ensures forall j: nat :: offset <= j < offset + len ==> PageOf(offset, ps) <= PageOf(j, ps) <= PageOf(offset + len - 1, ps)
  {
    forall j: nat | offset <= j < offset + len
      ensures PageOf(offset, ps) <= PageOf(j, ps) <= PageOf(offset + len - 1, ps)
    {
      PageMonotone(offset, j, ps);
      PageMonotone(j, offset + len - 1, ps);
    }
  }

  lemma PageMonotone(a: nat, b: nat, ps: nat)
    requires ps > 0 && a <= b
    ensures PageOf(a, ps) <= PageOf(b, ps)
  {
    PageAndOffset(a, ps);
    PageAndOffset(b, ps);
    hide PageOf, OffsetIn;
    if PageOf(b, ps) < PageOf(a, ps) {
      PageOrder(PageOf(b, ps), PageOf(a, ps), ps);
    }
  }

  lemma ScaledOrder(a: nat, b: nat, ps: nat)
    requires a <= b
    ensures a * ps <= b * ps
  {
    if a < b { PageOrder(a, b, ps); }
  }

  /** Multiplying by the page size keeps order, strictly. */
  lemma PagesBelow(j: nat, n: nat, ps: nat)
    requires ps > 0
    ensures j < n * ps <==> PageOf(j, ps) < n
  {
    PageAndOffset(j, ps);
    hide PageOf, OffsetIn;
    if PageOf(j, ps) < n {
      PageOrder(PageOf(j, ps), n, ps);
    } else {
      ScaledOrder(n, PageOf(j, ps), ps);
    }
  }

  /** A whole number of pages has that many pages. */
  lemma WholeCount(n: nat, ps: nat)
    requires ps > 0
    ensures PageOf(n * ps, ps) == n && OffsetIn(n * ps, ps) == 0
  {
    PagesBelow(n * ps, n + 1, ps);
    PagesBelow(n * ps, n, ps);
    PageAndOffset(n * ps, ps);
    assert (n + 1) * ps == n * ps + ps;
    hide PageOf, OffsetIn;
  }

  // ----- volume sizes -----

  /** Does the last byte of a volume land on a 32-bit page id? */
  predicate LastPageIdFits(size: nat, ps: nat) {
    ps > 0 && PageOf(if size == 0 then 0 else size - 1, ps) < U32_LIMIT
  }

  /** A volume has a 32-bit last page exactly when it has at most 2^32 pages of bytes. */
  lemma FitsIff(size: nat, ps: nat)
    requires ps > 0
    ensures LastPageIdFits(size, ps) <==> size <= U32_LIMIT * ps
  {
    PagesBelow(if size == 0 then 0 else size - 1, U32_LIMIT, ps);
    hide PageOf;
  }

  /** Largest legal page id, by floor division of the size. */
  function LastPage(size: nat, ps: nat): nat
    requires ps > 0
  {
    if PageOf(size, ps) == 0 then 0 else PageOf(size, ps) - 1
  }

  /**
    A volume of at least one page can flush every byte it advertises if and only if its
    size is a whole number of pages: floor division leaves a partial tail out.
   */
  lemma EveryByteFlushableIff(size: nat, ps: nat)
    requires ps > 0 && size >= ps
    ensures (forall j: nat :: j < size ==> PageOf(j, ps) <= LastPage(size, ps)) <==> OffsetIn(size, ps) == 0
  {
    PageAndOffset(size, ps);
    PagesBelow(size, 1, ps);
    hide PageOf, OffsetIn;
    var n := PageOf(size, ps);
    forall j: nat | j < size && OffsetIn(size, ps) == 0
      ensures PageOf(j, ps) <= LastPage(size, ps)
    {
      PagesBelow(j, n, ps);
    }
    if OffsetIn(size, ps) > 0 {
      PagesBelow(size - 1, n, ps);
      assert PageOf(size - 1, ps) > LastPage(size, ps);
    }
  }

  /** A size below one that fits has a page count that survives the cast to 32 bits. */
  lemma SmallerCountFits(size: nat, current: nat, ps: nat)
    requires size < current && LastPageIdFits(current, ps)
    ensures PageOf(size, ps) < U32_LIMIT
  {
    FitsIff(current, ps);
    PagesBelow(size, U32_LIMIT, ps);
    hide PageOf, LastPageIdFits;
  }
}
