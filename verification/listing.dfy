/** `loadFolder` (main.py:32-59): pages through a remote mail folder's view,
    collecting the row identifiers (unids) in server order, optionally
    capped at `max` rows (0 means no cap).

    The server is a fixed folder: its identifiers in view order and the
    entry count it reports. The HTTP request and the XML parsing are
    replaced by `Request` (the rows a listing at `start` returns) and
    `Entries` (what iterating the parsed listing yields). */
module Listing {
  import opened Errors

  /** The folder as the server holds it, and the `toplevelentries` it reports. */
  datatype Folder = Folder(items: seq<string>, total: int)

  /** One listing response: the reported entry count and the rows returned. */
  datatype Page = Page(total: int, rows: seq<string>)

  function Min(a: int, b: int): int { if a <= b then a else b }

  /** The listing for `Count=count&Start=start` (1-based): up to `count`
      consecutive identifiers beginning at position `start`. */
  function Request(f: Folder, start: int, count: nat): (p: Page)
    requires start >= 1
    ensures p.total == f.total
    ensures |p.rows| == if start - 1 < |f.items| then Min(count, |f.items| - (start - 1)) else 0
  {
    var lo := start - 1;
    if lo >= |f.items| then Page(f.total, [])
    else Page(f.total, f.items[lo..Min(lo + count, |f.items|)])
  }

  /** The rows of a listing are the folder's entries from position `start`
      on, in order. */
  lemma RequestRows(f: Folder, start: int, count: nat)
    requires start >= 1
    ensures start - 1 <= |f.items| ==> RunAt(f.items, start - 1, Request(f, start, count).rows)
  {
  }

  /** What `for viewentry in ...['viewentry']` can go through: no row
      element is a KeyError (main.py:47), and a lone row parses as a
      dictionary whose keys are strings, so `viewentry['@unid']` is a
      TypeError (main.py:49). */
  function Entries(p: Page, start: int): (r: Result<seq<string>>)
    ensures r.Ok? <==> |p.rows| >= 2
    ensures r.Ok? ==> r.value == p.rows
  {
    if |p.rows| == 0 then Err(ListingWithoutRows(start))
    else if |p.rows| == 1 then Err(ListingSingleRow(start))
    else Ok(p.rows)
  }

  /** The test after appending the `i`-th row of a page (1-based) that
      breaks out of the `for` loop. */
  predicate Breaks(i: int, start: int, max: int) {
    max > 0 && i + start > max
  }

  /** How many rows of a page the `for` loop appends: up to and including
      the first row after which it breaks, or all of them. */
  function Taken(rows: nat, start: int, max: int): (n: nat)
    ensures n <= rows
  {
    if max > 0 then Min(rows, if max - start + 1 >= 1 then max - start + 1 else 1) else rows
  }

  /** The `for` loop stops exactly at the first row after which it breaks:
      none of the rows before it breaks, and it stops early only on a
      breaking row. */
  lemma TakenBreaks(rows: nat, start: int, max: int)
    ensures var n := Taken(rows, start, max);
            && (forall i | 1 <= i < n :: !Breaks(i, start, max))
            && (n < rows ==> 1 <= n && Breaks(n, start, max))
  {
  }

  /** The count `Taken` gives is the only one with its two properties. */
  lemma TakenUnique(rows: nat, start: int, max: int, k: nat)
    requires k <= rows
    requires forall i | 1 <= i < k :: !Breaks(i, start, max)
    requires k < rows ==> 1 <= k && Breaks(k, start, max)
    ensures k == Taken(rows, start, max)
  {
    TakenBreaks(rows, start, max);
  }

  /** Puts the rows already collected in front of a later result. */
  function Prepend(prefix: seq<string>, r: Result<seq<string>>): Result<seq<string>> {
    if r.Ok? then Ok(prefix + r.value) else r
  }

  lemma PrependNil(r: Result<seq<string>>)
    ensures Prepend([], r) == r
  {
    if r.Ok? {
      assert [] + r.value == r.value;
    }
  }

  lemma PrependPrepend(a: seq<string>, b: seq<string>, r: Result<seq<string>>)
    ensures Prepend(a, Prepend(b, r)) == Prepend(a + b, r)
  {
    if r.Ok? {
      assert a + (b + r.value) == (a + b) + r.value;
    }
  }

  /** The identifiers `loadFolder(max=max, count=count, start=start)`
      returns, or the exception it raises. The recursion continues while
      `(max == 0 or start < max) and start < numentries`, with `start`
      advanced by the rows taken. */
  function Enumerate(f: Folder, max: int, count: nat, start: int): Result<seq<string>>
    requires start >= 1
    decreases f.total - start
  {
    var page := Request(f, start, count);
    var entries := Entries(page, start);
    if entries.Err? then Err(entries.failure)
    else
      var n := Taken(|entries.value|, start, max);
      var next := start + n;
      if (max == 0 || next < max) && next < page.total then
        Prepend(entries.value[..n], Enumerate(f, max, count, next))
      else
        Ok(entries.value[..n])
  }

  /** The `for viewentry in ...` loop over one page: appends rows until
      the cap is passed. */
  method CollectRows(rows: seq<string>, start: int, max: int) returns (taken: seq<string>, index: nat)
    ensures index == Taken(|rows|, start, max)
    ensures taken == rows[..index]
  {
    index := 0;
    taken := [];
    while index < |rows|
      invariant index <= |rows|
      invariant taken == rows[..index]
      invariant forall i | 1 <= i <= index :: !Breaks(i, start, max)
    {
      taken := taken + [rows[index]];
      index := index + 1;
      if max > 0 && index + start > max {
        break;
      }
    }
    TakenUnique(|rows|, start, max, index);
  }

  /** `loadFolder`, with its recursion run as a loop over the cursor `start`. */
  method LoadFolder(f: Folder, max: int, count: nat, start: int) returns (r: Result<seq<string>>)
    requires start >= 1
    ensures r == Enumerate(f, max, count, start)
  {
    var unids: seq<string> := [];
    var cursor := start;
    PrependNil(Enumerate(f, max, count, start));
    while true
      invariant cursor >= 1
      invariant Enumerate(f, max, count, start) == Prepend(unids, Enumerate(f, max, count, cursor))
      decreases f.total - cursor
    {
      var page := Request(f, cursor, count);
      var entries := Entries(page, cursor);
      if entries.Err? {
        return Err(entries.failure);
      }
      var taken, index := CollectRows(entries.value, cursor, max);
      PrependPrepend(unids, taken, Enumerate(f, max, count, cursor + index));
      unids := unids + taken;
      cursor := cursor + index;
      if !((max == 0 || cursor < max) && cursor < page.total) {
        return Ok(unids);
      }
    }
  }

  /** One step of `Enumerate`, spelt out. */
  lemma EnumerateUnfold(f: Folder, max: int, count: nat, start: int)
    requires start >= 1
    ensures var page := Request(f, start, count);
            var n := Taken(|page.rows|, start, max);
            var next := start + n;
            Enumerate(f, max, count, start) ==
              if |page.rows| < 2 then Err(Entries(page, start).failure)
              else if (max == 0 || next < max) && next < f.total then
                Prepend(page.rows[..n], Enumerate(f, max, count, next))
              else Ok(page.rows[..n])
  {
  }

  /** `r` is the run of folder entries beginning at 0-based offset `lo`. */
  predicate RunAt(items: seq<string>, lo: nat, r: seq<string>) {
    lo + |r| <= |items| && r == items[lo..lo + |r|]
  }

  lemma RunAtConcat(items: seq<string>, lo: nat, a: seq<string>, b: seq<string>)
    requires RunAt(items, lo, a) && RunAt(items, lo + |a|, b)
    ensures RunAt(items, lo, a + b)
  {
    assert items[lo..lo + |a|] + items[lo + |a|..lo + |a| + |b|] == items[lo..lo + |a| + |b|];
  }

  /** The identifiers returned are consecutive folder entries beginning at
      position `start`, in server order; from `start = 1` they are a prefix
      of the folder. */
  lemma {:induction false} EnumerateIsSlice(f: Folder, max: int, count: nat, start: int)
    requires start >= 1 && Enumerate(f, max, count, start).Ok?
    ensures RunAt(f.items, start - 1, Enumerate(f, max, count, start).value)
    decreases f.total - start
  {
    var page := Request(f, start, count);
    var rows := page.rows;
    var n := Taken(|rows|, start, max);
    var next := start + n;
    PageRun(f, start, count, n);
    if (max == 0 || next < max) && next < f.total {
      var rest := Enumerate(f, max, count, next);
      assert Enumerate(f, max, count, start) == Prepend(rows[..n], rest);
      EnumerateIsSlice(f, max, count, next);
      RunAtConcat(f.items, start - 1, rows[..n], rest.value);
    } else {
      assert Enumerate(f, max, count, start) == Ok(rows[..n]);
    }
  }

  lemma PageRun(f: Folder, start: int, count: nat, n: nat)
    requires start >= 1 && 1 <= n <= |Request(f, start, count).rows|
    ensures RunAt(f.items, start - 1, Request(f, start, count).rows[..n])
  {
    var rows := Request(f, start, count).rows;
    assert rows[..n] == f.items[start - 1..start - 1 + |rows|][..n];
  }

  /** With a cap `max > 0`, never more than `max` identifiers in all are
      collected: from `start = 1`, at most `max` are returned. */
  lemma {:induction false} EnumerateCapped(f: Folder, max: int, count: nat, start: int)
    requires 1 <= start <= max && Enumerate(f, max, count, start).Ok?
    ensures start - 1 + |Enumerate(f, max, count, start).value| <= max
    decreases f.total - start
  {
    EnumerateUnfold(f, max, count, start);
    var page := Request(f, start, count);
    var n := Taken(|page.rows|, start, max);
    var next := start + n;
    if next < max && next < page.total {
      EnumerateCapped(f, max, count, next);
    }
  }

  /** With an honest total and no negative cap, at most one identifier short
      of `min(max, K)` (or of `K` without a cap) is ever missing. */
  lemma {:induction false} EnumerateNearlyComplete(f: Folder, max: int, count: nat, start: int)
    requires start >= 1 && max >= 0 && f.total == |f.items|
    requires Enumerate(f, max, count, start).Ok?
    ensures var cap := if max > 0 then Min(max, |f.items|) else |f.items|;
            start - 1 + |Enumerate(f, max, count, start).value| >= cap - 1
    decreases f.total - start
  {
    EnumerateUnfold(f, max, count, start);
    var page := Request(f, start, count);
    var n := Taken(|page.rows|, start, max);
    var next := start + n;
    if (max == 0 || next < max) && next < page.total {
      EnumerateNearlyComplete(f, max, count, next);
    }
  }

  /** Where an uncapped run over `k` honestly reported entries stops: at
      `k - 1` when the page boundary before it falls on entry `k - 1`, at `k`
      otherwise. */
  function LastReached(k: nat, count: nat): (r: nat)
    requires count >= 1 && k >= 1
    ensures r == k - 1 || r == k
  {
    if (k - 1) % count == 0 then k - 1 else k
  }

  /** From 0-based offset `lo`, an uncapped run returns the rest of the
      folder up to `LastReached`. */
  predicate PagesFrom(f: Folder, count: nat, lo: nat)
    requires count >= 1 && lo + 1 < |f.items|
  {
    Enumerate(f, 0, count, lo + 1) == Ok(f.items[lo..LastReached(|f.items|, count)])
  }

  /** A full page followed by more: the run is that page and the run after it. */
  lemma AllPagesMore(f: Folder, count: nat, lo: nat)
    requires count >= 2 && f.total == |f.items|
    requires lo + count + 1 < |f.items| && PagesFrom(f, count, lo + count)
    ensures PagesFrom(f, count, lo)
  {
    var rows := Request(f, lo + 1, count).rows;
    assert |rows| == count && rows == f.items[lo..lo + count];
    UncappedStep(f, count, lo + 1);
    PrependSlices(f.items, lo, lo + count, LastReached(|f.items|, count), Enumerate(f, 0, count, lo + count + 1));
  }

  /** A full page that ends one entry before the folder does: the run stops
      there and the last entry is not requested. */
  lemma AllPagesLastFull(f: Folder, count: nat, lo: nat)
    requires count >= 2 && f.total == |f.items|
    requires lo % count == 0 && lo + count + 1 == |f.items|
    ensures PagesFrom(f, count, lo)
  {
    var rows := Request(f, lo + 1, count).rows;
    assert |rows| == count && rows == f.items[lo..lo + count];
    UncappedStep(f, count, lo + 1);
    ModOffset(lo, count, 0);
  }

  /** A page that reaches the end of the folder: it is the rest of the folder. */
  lemma AllPagesTail(f: Folder, count: nat, lo: nat)
    requires count >= 2 && f.total == |f.items|
    requires lo % count == 0 && lo + 1 < |f.items| <= lo + count
    ensures PagesFrom(f, count, lo)
  {
    var rows := Request(f, lo + 1, count).rows;
    assert |rows| == |f.items| - lo && rows == f.items[lo..];
    UncappedStep(f, count, lo + 1);
    ModOffset(lo, count, |f.items| - 1 - lo);
  }

  /** From a page boundary `lo` (0-based, a multiple of the page size), an
      uncapped run with an honest total returns the rest of the folder up to
      `LastReached`. */
  lemma {:induction false} EnumerateAllPages(f: Folder, count: nat, lo: nat)
    requires count >= 2 && f.total == |f.items|
    requires lo % count == 0 && lo + 1 < |f.items|
    ensures PagesFrom(f, count, lo)
    decreases |f.items| - lo
  {
    if lo + count + 1 < |f.items| {
      ModOffset(lo, count, 0);
      EnumerateAllPages(f, count, lo + count);
      AllPagesMore(f, count, lo);
    } else if lo + count + 1 == |f.items| {
      AllPagesLastFull(f, count, lo);
    } else {
      AllPagesTail(f, count, lo);
    }
  }

  /** A run followed by the slice that continues it is one longer slice. */
  lemma RunAtSlices(items: seq<string>, lo: nat, mid: nat, hi: nat, a: seq<string>, b: seq<string>)
    requires RunAt(items, lo, a) && lo + |a| == mid <= hi <= |items| && b == items[mid..hi]
    ensures a + b == items[lo..hi]
  {
    assert items[lo..mid] + items[mid..hi] == items[lo..hi];
  }

  lemma PrependSlices(items: seq<string>, lo: nat, mid: nat, end: nat, r: Result<seq<string>>)
    requires lo <= mid <= end <= |items| && r == Ok(items[mid..end])
    ensures Prepend(items[lo..mid], r) == Ok(items[lo..end])
  {
    assert items[lo..mid] + items[mid..end] == items[lo..end];
  }

  /** One step of an uncapped run: a page of at least two rows is taken
      whole. */
  lemma UncappedStep(f: Folder, count: nat, start: int)
    requires start >= 1 && |Request(f, start, count).rows| >= 2
    ensures var rows := Request(f, start, count).rows;
            Enumerate(f, 0, count, start) ==
              if start + |rows| < f.total then Prepend(rows, Enumerate(f, 0, count, start + |rows|))
              else Ok(rows)
  {
    var rows := Request(f, start, count).rows;
    assert Taken(|rows|, start, 0) == |rows| && rows[..|rows|] == rows;
  }

  /** Past a multiple of the page size, the remainder is the offset; one
      whole page further is again a multiple. */
  lemma ModOffset(lo: nat, count: nat, r: nat)
    requires count >= 1 && lo % count == 0 && r < count
    ensures (lo + r) % count == r
    ensures (lo + count) % count == 0
  {
    var q := lo / count;
    assert lo == q * count;
    ModUnique(lo + r, count, q, r);
    assert lo + count == (q + 1) * count;
    ModUnique(lo + count, count, q + 1, 0);
  }

  lemma {:induction false} MulAtLeast(k: nat, c: nat)
    requires k >= 1
    ensures k * c >= c
  {
    if k > 1 {
      MulAtLeast(k - 1, c);
      assert k * c == (k - 1) * c + c;
    }
  }

  /** Euclidean remainders are unique. */
  lemma ModUnique(x: int, c: int, q: int, r: int)
    requires c > 0 && 0 <= r < c && x == q * c + r
    ensures x % c == r
  {
    var q2, r2 := x / c, x % c;
    assert (q - q2) * c == r2 - r;
    if q - q2 >= 1 {
      MulAtLeast(q - q2, c);
    }
    if q2 - q >= 1 {
      MulAtLeast(q2 - q, c);
    }
  }

  /** `main`'s call on a folder of at least two messages that reports its
      size honestly, with pages of at least two rows: everything, except the
      last identifier when `K - 1` is a multiple of the page size. */
  lemma LoadFolderWholeFolder(f: Folder, count: nat)
    requires count >= 2 && f.total == |f.items| >= 2
    ensures var k := |f.items|;
            Enumerate(f, 0, count, 1) == Ok(if (k - 1) % count == 0 then f.items[..k - 1] else f.items)
  {
    EnumerateAllPages(f, count, 0);
    assert f.items[0..|f.items|] == f.items;
  }

  /** An empty folder, a folder of one message, and pages of a single row
      all end in an exception on the first request. */
  lemma LoadFolderSmallFails(f: Folder, max: int, count: nat)
    ensures |f.items| == 0 || count == 0 ==> Enumerate(f, max, count, 1) == Err(ListingWithoutRows(1))
    ensures |f.items| >= 1 && count >= 1 && (|f.items| == 1 || count == 1) ==>
              Enumerate(f, max, count, 1) == Err(ListingSingleRow(1))
  {
    EnumerateUnfold(f, max, count, 1);
  }

  /** When the reported total exceeds the folder by more than one, a run
      without a cap always ends in an exception: it asks past the end and
      gets a listing without rows. */
  lemma {:induction false} EnumerateOverreportedFails(f: Folder, count: nat, start: int)
    requires 1 <= start <= |f.items| + 1 && f.total > |f.items| + 1
    ensures Enumerate(f, 0, count, start).Err?
    decreases f.total - start
  {
    var page := Request(f, start, count);
    if |page.rows| >= 2 {
      EnumerateOverreportedFails(f, count, start + |page.rows|);
    }
  }

  /** An uncapped run over three honestly reported entries with pages of
      two: the second request is never made and the third entry is lost. */
  lemma LoadFolderDropsLast(f: Folder)
    requires f == Folder(["a", "b", "c"], 3)
    ensures Enumerate(f, 0, 2, 1) == Ok(["a", "b"])
  {
    LoadFolderWholeFolder(f, 2);
    assert f.items[..2] == ["a", "b"];
  }

  /** A cap of three over four entries with pages of two: the run stops at
      `start = 3` because the test is `start < max`, returning two. */
  lemma LoadFolderCapShort(f: Folder)
    requires f == Folder(["a", "b", "c", "d"], 4)
    ensures Enumerate(f, 3, 2, 1) == Ok(["a", "b"])
  {
    var page := Request(f, 1, 2);
    assert |page.rows| == 2;
    assert Taken(2, 1, 3) == 2;
    EnumerateUnfold(f, 3, 2, 1);
    assert page.rows == f.items[0..2] == ["a", "b"];
    assert page.rows[..2] == page.rows;
    assert Enumerate(f, 3, 2, 1) == Ok(page.rows[..2]);
  }

  /** How many entries a run should return: `min(max, K)`, or all `K` when
      `max` is 0. */
  function Wanted(max: nat, k: nat): (w: nat)
    ensures w <= k && (max > 0 ==> w <= max)
    ensures max == 0 ==> w == k
    ensures w == k || (max > 0 && w == max)
  {
    if max > 0 && max < k then max else k
  }

  /** `loadFolder` with the continuation test `start <= max` and
      `start <= numentries` (entries taken so far below the cap and the
      total), and with a listing of zero or one rows read as zero or one
      identifiers; a page that yields nothing ends the run. */
  function EnumerateFixed(f: Folder, max: int, count: nat, start: int): seq<string>
    requires start >= 1
    decreases f.total + 1 - start
  {
    var rows := Request(f, start, count).rows;
    if rows == [] then []
    else
      var n := Taken(|rows|, start, max);
      var next := start + n;
      if (max == 0 || next <= max) && next <= f.total then
        rows[..n] + EnumerateFixed(f, max, count, next)
      else
        rows[..n]
  }

  /** The number of rows the run takes from the page at `start`. */
  function TakenAt(f: Folder, max: int, count: nat, start: int): nat
    requires start >= 1
  {
    Taken(|Request(f, start, count).rows|, start, max)
  }

  /** Below the intended bound, the page is not empty, at least one of its
      rows is taken, and the next start is at most one past the bound. */
  lemma FixedTaken(f: Folder, max: nat, count: nat, start: int)
    requires count >= 1 && f.total == |f.items|
    requires 1 <= start <= Wanted(max, |f.items|)
    ensures Request(f, start, count).rows != []
    ensures 1 <= TakenAt(f, max, count, start) <= |Request(f, start, count).rows|
    ensures start + TakenAt(f, max, count, start) <= Wanted(max, |f.items|) + 1
    ensures var next := start + TakenAt(f, max, count, start);
            (max == 0 || next <= max) && next <= f.total <==> next <= Wanted(max, |f.items|)
  {
  }

  /** A step of `EnumerateFixed` below the bound that continues to the
      next page. */
  lemma FixedStepMore(f: Folder, max: nat, count: nat, start: int)
    requires count >= 1 && f.total == |f.items|
    requires 1 <= start && start + TakenAt(f, max, count, start) <= Wanted(max, |f.items|)
    ensures var n := TakenAt(f, max, count, start);
            && 1 <= n <= |Request(f, start, count).rows|
            && EnumerateFixed(f, max, count, start) ==
                 Request(f, start, count).rows[..n] + EnumerateFixed(f, max, count, start + n)
  {
    FixedTaken(f, max, count, start);
  }

  /** A step of `EnumerateFixed` that reaches the bound and ends the run. */
  lemma FixedStepLast(f: Folder, max: nat, count: nat, start: int)
    requires count >= 1 && f.total == |f.items|
    requires 1 <= start <= Wanted(max, |f.items|) < start + TakenAt(f, max, count, start)
    ensures var n := TakenAt(f, max, count, start);
            && 1 <= n <= |Request(f, start, count).rows|
            && start - 1 + n == Wanted(max, |f.items|)
            && EnumerateFixed(f, max, count, start) == Request(f, start, count).rows[..n]
  {
    FixedTaken(f, max, count, start);
  }

  /** The corrected run from `start` is the slice of the folder from `start`
      up to the intended bound. */
  predicate FixedSlice(f: Folder, max: nat, count: nat, start: int)
    requires 1 <= start <= Wanted(max, |f.items|) + 1
  {
    EnumerateFixed(f, max, count, start) == f.items[start - 1..Wanted(max, |f.items|)]
  }

  /** A continuing step of the corrected run: when the run from the next
      start is the slice up to the bound, so is the run from `start`. */
  lemma FixedContinues(f: Folder, max: nat, count: nat, start: int)
    requires count >= 1 && f.total == |f.items|
    requires 1 <= start && start + TakenAt(f, max, count, start) <= Wanted(max, |f.items|)
    requires FixedSlice(f, max, count, start + TakenAt(f, max, count, start))
    ensures FixedSlice(f, max, count, start)
  {
    var n := TakenAt(f, max, count, start);
    var rows := Request(f, start, count).rows;
    FixedStepMore(f, max, count, start);
    PageRun(f, start, count, n);
    RunAtSlices(f.items, start - 1, start + n - 1, Wanted(max, |f.items|), rows[..n],
                EnumerateFixed(f, max, count, start + n));
  }

  /** A final step of the corrected run: the rows taken reach the bound. */
  lemma FixedStops(f: Folder, max: nat, count: nat, start: int)
    requires count >= 1 && f.total == |f.items|
    requires 1 <= start <= Wanted(max, |f.items|) < start + TakenAt(f, max, count, start)
    ensures FixedSlice(f, max, count, start)
  {
    var n := TakenAt(f, max, count, start);
    FixedStepLast(f, max, count, start);
    PageRun(f, start, count, n);
  }

  /** From every start up to the bound, the corrected run is the slice. */
  lemma {:induction false} EnumerateFixedFrom(f: Folder, max: nat, count: nat, start: int)
    requires count >= 1 && f.total == |f.items|
    requires 1 <= start <= Wanted(max, |f.items|)
    ensures FixedSlice(f, max, count, start)
    decreases f.total + 1 - start
  {
    var n := TakenAt(f, max, count, start);
    FixedTaken(f, max, count, start);
    if start + n <= Wanted(max, |f.items|) {
      EnumerateFixedFrom(f, max, count, start + n);
      FixedContinues(f, max, count, start);
    } else {
      FixedStops(f, max, count, start);
    }
  }

  /** With the corrected tests, an honest total and any page size, the run
      returns the first `min(max, K)` identifiers (all of them without a cap). */
  lemma EnumerateFixedComplete(f: Folder, max: nat, count: nat)
    requires count >= 1 && f.total == |f.items|
    ensures EnumerateFixed(f, max, count, 1) == f.items[..Wanted(max, |f.items|)]
  {
    if f.items != [] {
      assert Wanted(max, |f.items|) >= 1;
      EnumerateFixedFrom(f, max, count, 1);
    }
  }
}
