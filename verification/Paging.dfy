/**
 Following "load more" on a list screen over a fixed list of rows. The screen
 fetches one row more than it shows, to learn whether there is another page.
 */
module Paging {

  const PER_PAGE := 50
  const DEFAULT_PER_PAGE := 50

  datatype Listing = Listing(page: int, perPage: int) {
    function Page(): int {
      if page < 1 then 1 else page
    }

    function PerPage(): int {
      if perPage < 1 then DEFAULT_PER_PAGE else perPage
    }
  }

  function Min(a: int, b: int): int {
    if a < b then a else b
  }

  // `limit` rows from `offset` on.
  function Slice<T>(rows: seq<T>, offset: nat, limit: nat): seq<T> {
    if offset >= |rows| then [] else rows[offset..Min(offset + limit, |rows|)]
  }

  function Paginate<T>(rows: seq<T>, l: Listing): seq<T> {
    Slice(rows, (l.Page() - 1) * l.PerPage(), l.PerPage())
  }

  // The rows shown, and the page the button asks for, or 0 for no button.
  function Trim<T>(rows: seq<T>, page: int): (seq<T>, int) {
    if |rows| <= PER_PAGE then (rows, 0) else (rows[..PER_PAGE], page + 1)
  }

  // One screen of the list handler.
  function Screen<T>(rows: seq<T>, page: int): (seq<T>, int) {
    Trim(Paginate(rows, Listing(page, PER_PAGE + 1)), page)
  }

  // The screen a handler whose pages start `stride` rows apart would show.
  function ScreenBy<T>(rows: seq<T>, page: nat, stride: nat): (seq<T>, int)
    requires page > 0
  {
    Trim(Slice(rows, (page - 1) * stride, PER_PAGE + 1), page)
  }

  // Every screen from `page` on, following the button until it is gone.
  function LoadMore<T>(rows: seq<T>, page: nat, stride: nat): seq<seq<T>>
    requires page > 0 && stride > 0
    decreases |rows| - (page - 1) * stride
  {
    var (shown, next) := ScreenBy(rows, page, stride);
    if next == 0 then [shown]
    else
      assert (page - 1) * stride + stride == page * stride;
      [shown] + LoadMore(rows, next, stride)
  }

  function Concat<T>(screens: seq<seq<T>>): seq<T> {
    if screens == [] then [] else screens[0] + Concat(screens[1..])
  }

  predicate Skipped(i: nat) {
    i % 51 == 50
  }

  // The rows from index i on that are not skipped, in order.
  function Kept<T>(rows: seq<T>, i: nat): seq<T>
    decreases |rows| - i
  {
    if i >= |rows| then []
    else (if Skipped(i) then [] else [rows[i]]) + Kept(rows, i + 1)
  }

  lemma SliceAt<T>(rows: seq<T>, offset: nat, limit: nat, i: nat)
    ensures |Slice(rows, offset, limit)| == (if offset >= |rows| then 0 else Min(limit, |rows| - offset))
    ensures i < |Slice(rows, offset, limit)| ==> offset + i < |rows| && Slice(rows, offset, limit)[i] == rows[offset + i]
  {
  }

  lemma OffsetIsNat(page: int, size: int)
    requires page >= 1 && size >= 1
    ensures (page - 1) * size >= 0
  {
  }

  // A page holds the rows from its offset on, up to its size; a listing that names no
  // page or size is the first fifty rows.
  lemma PaginateAt<T>(rows: seq<T>, l: Listing, i: nat)
    ensures var page, size := (if l.page < 1 then 1 else l.page), if l.perPage < 1 then 50 else l.perPage;
            var start := (page - 1) * size;
            && |Paginate(rows, l)| == (if start >= |rows| then 0 else Min(size, |rows| - start))
            && (i < |Paginate(rows, l)| ==> 0 <= start + i < |rows| && Paginate(rows, l)[i] == rows[start + i])
  {
    var page, size := if l.page < 1 then 1 else l.page, if l.perPage < 1 then 50 else l.perPage;
    OffsetIsNat(page, size);
    SliceAt(rows, (page - 1) * size, size, i);
  }

  lemma FirstFifty<T>(rows: seq<T>)
    ensures Paginate(rows, Listing(0, 0)) == rows[..Min(50, |rows|)]
  {
  }

  // The handler's pages are 51 rows apart.
  lemma ScreenStride<T>(rows: seq<T>, page: nat)
    requires page > 0
    ensures Screen(rows, page) == ScreenBy(rows, page, PER_PAGE + 1)
  {
  }

  lemma KeepsOne<T>(rows: seq<T>, i: nat, j: nat)
    requires i < j <= |rows| && !Skipped(i)
    ensures Kept(rows, i) == [rows[i]] + Kept(rows, i + 1)
    ensures rows[i..j] == [rows[i]] + rows[i + 1..j]
  {
  }

  lemma {:induction false} KeptRun<T>(rows: seq<T>, i: nat, j: nat)
    requires i <= j <= |rows|
    requires forall n :: i <= n < j ==> !Skipped(n)
    ensures Kept(rows, i) == rows[i..j] + Kept(rows, j)
    decreases j - i
  {
    if i == j {
      assert rows[i..j] + Kept(rows, j) == Kept(rows, j);
    } else {
      KeptRun(rows, i + 1, j);
      KeepsOne(rows, i, j);
      assert [rows[i]] + (rows[i + 1..j] + Kept(rows, j)) == ([rows[i]] + rows[i + 1..j]) + Kept(rows, j);
    }
  }

  // The rows a page starting 51 * m rows down shows, and whether it has a successor.
  lemma PageOf51<T>(rows: seq<T>, m: nat)
    requires 51 * m <= |rows|
    ensures ScreenBy(rows, m + 1, 51) ==
            if 51 * m + 51 <= |rows| then (rows[51 * m..51 * m + 50], m + 2) else (rows[51 * m..], 0)
    ensures forall n :: 51 * m <= n < 51 * m + 50 ==> !Skipped(n)
    ensures Skipped(51 * m + 50)
  {
    var page := Slice(rows, 51 * m, 51);
    assert ScreenBy(rows, m + 1, 51) == Trim(page, m + 1);
    if 51 * m + 51 <= |rows| {
      assert page == rows[51 * m..51 * m + 51];
      assert page[..50] == rows[51 * m..51 * m + 50];
    } else {
      assert page == rows[51 * m..];
    }
  }

  lemma ConcatCons<T>(first: seq<T>, rest: seq<seq<T>>)
    ensures Concat([first] + rest) == first + Concat(rest)
  {
    assert ([first] + rest)[1..] == rest;
  }

  lemma ConcatOne<T>(only: seq<T>)
    ensures Concat([only]) == only
  {
    assert Concat([only]) == only + [];
  }

  lemma ConcatFrom<T>(rows: seq<T>, i: nat, j: nat, rest: seq<seq<T>>)
    requires i <= j <= |rows| && Concat(rest) == rows[j..]
    ensures Concat([rows[i..j]] + rest) == rows[i..]
  {
    ConcatCons(rows[i..j], rest);
    assert rows[i..] == rows[i..j] + rows[j..];
  }

  lemma LoadMoreOf51<T>(rows: seq<T>, m: nat)
    requires 51 * m <= |rows|
    ensures LoadMore(rows, m + 1, 51) ==
            if 51 * m + 51 <= |rows| then [rows[51 * m..51 * m + 50]] + LoadMore(rows, m + 2, 51)
            else [rows[51 * m..]]
  {
    PageOf51(rows, m);
  }

  lemma KeptSkips<T>(rows: seq<T>, i: nat)
    requires i < |rows| && Skipped(i)
    ensures Kept(rows, i) == Kept(rows, i + 1)
  {
    assert Kept(rows, i) == [] + Kept(rows, i + 1);
  }

  lemma KeptRest<T>(rows: seq<T>, i: nat)
    requires i <= |rows|
    requires forall n :: i <= n < |rows| ==> !Skipped(n)
    ensures Kept(rows, i) == rows[i..]
  {
    KeptRun(rows, i, |rows|);
    assert rows[i..|rows|] == rows[i..] && rows[i..] + [] == rows[i..];
  }

  lemma KeptOf51<T>(rows: seq<T>, m: nat)
    requires 51 * m <= |rows|
    ensures Kept(rows, 51 * m) ==
            if 51 * m + 51 <= |rows| then rows[51 * m..51 * m + 50] + Kept(rows, 51 * m + 51)
            else rows[51 * m..]
  {
    PageOf51(rows, m);
    if 51 * m + 51 <= |rows| {
      KeptRun(rows, 51 * m, 51 * m + 50);
      KeptSkips(rows, 51 * m + 50);
    } else {
      KeptRest(rows, 51 * m);
    }
  }

  lemma {:induction false} LoadMoreFrom<T>(rows: seq<T>, m: nat)
    requires 51 * m <= |rows|
    ensures |LoadMore(rows, m + 1, 51)| == (|rows| - 51 * m) / 51 + 1
    ensures Concat(LoadMore(rows, m + 1, 51)) == Kept(rows, 51 * m)
    decreases |rows| - 51 * m
  {
    LoadMoreOf51(rows, m);
    KeptOf51(rows, m);
    if 51 * m + 51 <= |rows| {
      LoadMoreFrom(rows, m + 1);
      ConcatCons(rows[51 * m..51 * m + 50], LoadMore(rows, m + 2, 51));
    } else {
      ConcatOne(rows[51 * m..]);
    }
  }

  lemma {:induction false} KeptLength<T>(rows: seq<T>, i: nat)
    requires i <= |rows|
    ensures |Kept(rows, i)| <= |rows| - i
    decreases |rows| - i
  {
    if i < |rows| {
      KeptLength(rows, i + 1);
    }
  }

  // Every 51st row is never shown: the screens are the other rows in order, on
  // n / 51 + 1 pages, and nothing is missing exactly when n <= 50.
  lemma LoadMoreShows<T>(rows: seq<T>)
    ensures var screens := LoadMore(rows, 1, PER_PAGE + 1);
            && |screens| == |rows| / (PER_PAGE + 1) + 1
            && Concat(screens) == Kept(rows, 0)
            && (Concat(screens) == rows <==> |rows| <= PER_PAGE)
  {
    LoadMoreFrom(rows, 0);
    if |rows| <= PER_PAGE {
      KeptRun(rows, 0, |rows|);
      assert rows[0..|rows|] == rows;
    } else {
      KeptRun(rows, 0, 50);
      KeptLength(rows, 51);
      assert Kept(rows, 50) == Kept(rows, 51);
    }
  }

  lemma PageOf50<T>(rows: seq<T>, m: nat)
    requires 50 * m <= |rows|
    ensures ScreenBy(rows, m + 1, 50) ==
            if 50 * m + 51 <= |rows| then (rows[50 * m..50 * m + 50], m + 2) else (rows[50 * m..], 0)
  {
    var page := Slice(rows, 50 * m, 51);
    assert ScreenBy(rows, m + 1, 50) == Trim(page, m + 1);
    if 50 * m + 51 <= |rows| {
      assert page[..50] == rows[50 * m..50 * m + 50];
    } else {
      assert page == rows[50 * m..];
    }
  }

  lemma LoadMoreOf50<T>(rows: seq<T>, m: nat)
    requires 50 * m <= |rows|
    ensures LoadMore(rows, m + 1, 50) ==
            if 50 * m + 51 <= |rows| then [rows[50 * m..50 * m + 50]] + LoadMore(rows, m + 2, 50)
            else [rows[50 * m..]]
  {
    PageOf50(rows, m);
  }

  lemma {:induction false} StrideOfShownRows<T>(rows: seq<T>, m: nat)
    requires 50 * m <= |rows|
    ensures Concat(LoadMore(rows, m + 1, 50)) == rows[50 * m..]
    decreases |rows| - 50 * m
  {
    LoadMoreOf50(rows, m);
    if 50 * m + 51 <= |rows| {
      StrideOfShownRows(rows, m + 1);
      assert 50 * (m + 1) == 50 * m + 50;
      ConcatFrom(rows, 50 * m, 50 * m + 50, LoadMore(rows, m + 2, 50));
    } else {
      ConcatOne(rows[50 * m..]);
    }
  }

  // Pages that start as many rows apart as a screen shows would show every row.
  lemma StrideOfFiftyShowsAll<T>(rows: seq<T>)
    ensures Concat(LoadMore(rows, 1, PER_PAGE)) == rows
  {
    StrideOfShownRows(rows, 0);
  }
}
