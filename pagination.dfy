/**
 * Which IMAP message sequence numbers (section 2.3.1.2 of RFC 3501) the inbox
 * browser fetches for a page: pages are counted from the newest end of the
 * mailbox, page 1 being the `perPage` most recent messages.
 *
 * The source computes the range in Go `uint32`; `PageRangeAsWritten` keeps that
 * arithmetic, wrap-around included. `PageRange` is the range the computation
 * is meant to give, and is the one the rest of the model fetches.
 */
module Pagination {
  import opened Wrappers

  const U32: int := 0x1_0000_0000

  /** A Go `uint32`. */
  type u32 = x: int | 0 <= x < U32

  /** Go's `uint32(x)` conversion and `uint32` wrap-around: keep the low 32 bits. */
  function Wrap(x: int): (r: u32)
    ensures 0 <= x < U32 ==> r == x
    ensures -U32 <= x < 0 ==> r == x + U32
  {
    x % U32
  }

  /** The inclusive range `start:end` handed to `SeqSet.AddRange`. */
  datatype SeqRange = SeqRange(start: int, end: int)

  function Min(a: int, b: int): int {
    if a <= b then a else b
  }

  /** The page range exactly as fetchEmails computes it, in `uint32`. Its two clamps
      keep `start` at least 1 and `end` at most the total, and no more: `start <= end`
      is not among them (see AsWrittenLastPageWraps). */
  function PageRangeAsWritten(total: u32, page: int, perPage: int): (r: SeqRange)
    ensures 1 <= r.start < U32
    ensures 0 <= r.end <= total
  {
    var end := Wrap(total - Wrap((page - 1) * perPage));
    var start := Wrap(end - Wrap(perPage) + 1);
    SeqRange(if start < 1 then 1 else start, if end > total then total else end)
  }

  /** When the whole page lies inside the mailbox nothing wraps and the range is
      exactly the `perPage` messages ranked (page-1)*perPage+1 .. page*perPage from the newest. */
  lemma AsWrittenExactPage(total: u32, page: int, perPage: int)
    requires page >= 1 && perPage >= 1 && page * perPage <= total
    ensures PageRangeAsWritten(total, page, perPage)
         == SeqRange(total - page * perPage + 1, total - (page - 1) * perPage)
  {
    SkippedBeforePage(page, perPage);
    var skipped := (page - 1) * perPage;
    assert 0 <= skipped < U32 && Wrap(skipped) == skipped;
    var end := total - skipped;
    assert 0 <= end < U32 && Wrap(end) == end;
    assert perPage <= total && Wrap(perPage) == perPage;
    assert 1 <= end - perPage + 1 < U32;
  }

  /** The messages on the pages before `page`: one page fewer than through `page`. */
  lemma SkippedBeforePage(page: int, perPage: int)
    requires page >= 1 && perPage >= 1
    ensures (page - 1) * perPage == page * perPage - perPage
    ensures 0 <= (page - 1) * perPage && perPage <= page * perPage
  {
  }

  /** When fewer than `perPage` messages remain, `end - perPage + 1` wraps below zero.
      The clamp `start < 1` only catches the one case where it lands on exactly 0
      (`end == perPage - 1`); otherwise `start` is a huge number above `end`. */
  lemma AsWrittenLastPageWraps(total: u32, page: int, perPage: int)
    requires page >= 1 && 1 <= perPage < U32
    requires 0 <= (page - 1) * perPage < total
    requires total - (page - 1) * perPage < perPage
    ensures var end := total - (page - 1) * perPage;
      var r := PageRangeAsWritten(total, page, perPage);
      && r.end == end
      && (end == perPage - 1 ==> r.start == 1)
      && (end < perPage - 1 ==> r.start == end - perPage + 1 + U32 && r.start > r.end)
  {
  }

  /** The clamp `end > total` fires exactly when the subtraction of line 418 wrapped. */
  lemma AsWrittenEndClampOnlyOnWrap(total: u32, page: int, perPage: int)
    ensures var skipped := Wrap((page - 1) * perPage);
      Wrap(total - skipped) > total <==> skipped > total
  {
  }

  /** The range the computation means: the newest `perPage` messages not on an earlier
      page, clamped to sequence number 1; `None` when the page lies past the oldest message. */
  function PageRange(total: nat, page: int, perPage: int): (r: Option<SeqRange>)
    requires page >= 1 && perPage >= 1
    ensures r.Some? <==> (page - 1) * perPage < total
    ensures r.Some? ==> 1 <= r.value.start <= r.value.end <= total
    ensures r.Some? ==> r.value.end - r.value.start + 1 == Min(perPage, r.value.end)
  {
    var end := total - (page - 1) * perPage;
    if end < 1 then None
    else Some(SeqRange(if end - perPage + 1 < 1 then 1 else end - perPage + 1, end))
  }

  /** Wherever the source's arithmetic does not wrap, it computes the intended range. */
  lemma AsWrittenAgreesWithoutWrap(total: u32, page: int, perPage: int)
    requires page >= 1 && perPage >= 1 && page * perPage <= total
    ensures PageRange(total, page, perPage) == Some(PageRangeAsWritten(total, page, perPage))
  {
    AsWrittenExactPage(total, page, perPage);
  }

  /** Counterexample: 120 messages, 50 per page. The third page should be messages 1..20;
      as written its start is 2^32 - 29. A mailbox of 20 messages hits the same on page 1. */
  lemma AsWrittenLastPageCounterexample()
    ensures PageRangeAsWritten(120, 3, 50) == SeqRange(4294967267, 20)
    ensures PageRange(120, 3, 50) == Some(SeqRange(1, 20))
    ensures PageRangeAsWritten(20, 1, 50) == SeqRange(4294967267, 20)
    ensures PageRange(20, 1, 50) == Some(SeqRange(1, 20))
  {
  }

  /** `n` consecutive sequence numbers counting down from `top`: newest first. */
  function Descending(top: int, n: nat): (r: seq<int>)
    ensures |r| == n
    ensures forall i :: 0 <= i < n ==> r[i] == top - i
  {
    seq(n, i => top - i)
  }

  lemma DescendingSplit(top: int, n: nat, m: nat)
    ensures Descending(top, n) + Descending(top - n, m) == Descending(top, n + m)
  {
    var a, b := Descending(top, n) + Descending(top - n, m), Descending(top, n + m);
    assert forall i :: 0 <= i < n + m ==> a[i] == b[i];
  }

  /** The sequence numbers a page fetches, newest first. */
  function PageNumbers(total: nat, page: int, perPage: int): seq<int>
    requires page >= 1 && perPage >= 1
  {
    match PageRange(total, page, perPage)
    case None => []
    case Some(r) => Descending(r.end, r.end - r.start + 1)
  }

  /** The sequence numbers of pages 1..k, in the order they are loaded. */
  function FirstPages(total: nat, perPage: int, k: nat): seq<int>
    requires perPage >= 1
  {
    if k == 0 then [] else FirstPages(total, perPage, k - 1) + PageNumbers(total, k, perPage)
  }

  /** Pages 1..k together are the newest min(total, k*perPage) messages, each exactly once
      and in order: no overlap and no gap between consecutive pages. */
  lemma {:induction false} FirstPagesAreNewest(total: nat, perPage: int, k: nat)
    requires perPage >= 1
    ensures FirstPages(total, perPage, k) == Descending(total, Min(total, k * perPage))
  {
    if k > 0 {
      FirstPagesAreNewest(total, perPage, k - 1);
      var before := Min(total, (k - 1) * perPage);
      assert k * perPage == (k - 1) * perPage + perPage;
      if (k - 1) * perPage < total {
        var r := PageRange(total, k, perPage).value;
        assert r.end == total - before;
        DescendingSplit(total, before, r.end - r.start + 1);
      } else {
        assert Descending(total, before) + [] == Descending(total, before);
      }
    }
  }

  /** Loading stops being "more available" exactly when k*perPage reaches the total;
      at that point every message 1..total has been fetched exactly once. */
  lemma PaginationComplete(total: nat, perPage: int, k: nat)
    requires perPage >= 1
    ensures |FirstPages(total, perPage, k)| < total <==> k * perPage < total
    ensures k * perPage >= total ==> FirstPages(total, perPage, k) == Descending(total, total)
  {
    FirstPagesAreNewest(total, perPage, k);
  }

  /** Two different pages never share a sequence number. */
  lemma PagesDisjoint(total: nat, perPage: int, p: int, q: int)
    requires 1 <= p < q && perPage >= 1
    ensures forall n :: n in PageNumbers(total, p, perPage) ==> n !in PageNumbers(total, q, perPage)
  {
    assert (q - 1) * perPage >= p * perPage by {
      MulMonotone(p, q - 1, perPage);
    }
    assert p * perPage == (p - 1) * perPage + perPage;
  }

  lemma MulMonotone(a: int, b: int, c: nat)
    requires a <= b
    ensures a * c <= b * c
  {
  }

  /** 120 messages, 50 per page: 71..120, then 21..70, then 1..20, then nothing more. */
  lemma PaginationExample()
    ensures PageRange(120, 1, 50) == Some(SeqRange(71, 120))
    ensures PageRange(120, 2, 50) == Some(SeqRange(21, 70))
    ensures PageRange(120, 3, 50) == Some(SeqRange(1, 20))
    ensures |FirstPages(120, 50, 2)| < 120 && |FirstPages(120, 50, 3)| == 120
  {
    PaginationComplete(120, 50, 2);
    PaginationComplete(120, 50, 3);
  }
}
