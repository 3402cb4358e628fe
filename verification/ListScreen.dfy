/**
 A list screen followed from button to button: every page is asked for by the URL
 the button before it carries, and read back out of that URL.
 */
module ListScreen {
  import L = ListUrl
  import opened Text
  import Paging

  // What the store answers to the filter text, in order and before it is cut into pages.
  type Matches<T> = string -> seq<T>

  // A button is there only if a whole page is full, so its page number stays small.
  lemma NextPageFits<T>(rows: seq<T>, page: nat)
    requires page > 0 && Paging.Screen(rows, page).1 != 0
    ensures Paging.Screen(rows, page).1 == page + 1 && 51 * page <= |rows|
  {
  }

  // Every screen from the one at this URL on, following the button until it is gone.
  function Follow<T>(matches: Matches<T>, base: string, query: string, page: nat): seq<seq<T>>
    requires '?' !in base && IsBytes(query) && 1 <= page <= INT64_MAX
    requires |matches(query)| <= INT64_MAX
    decreases |matches(query)| - 51 * (page - 1)
  {
    var l := L.ListingFrom(L.ListUrl(base, query, page));
    L.ListUrlRoundTrip(base, query, page);
    var (shown, next) := Paging.Screen(matches(l.text), l.page);
    if next == 0 then [shown]
    else
      NextPageFits(matches(query), page);
      [shown] + Follow(matches, base, l.text, next)
  }

  lemma {:induction false} FollowIsLoadMore<T>(matches: Matches<T>, base: string, query: string, page: nat)
    requires '?' !in base && IsBytes(query) && 1 <= page <= INT64_MAX
    requires |matches(query)| <= INT64_MAX
    ensures Follow(matches, base, query, page) == Paging.LoadMore(matches(query), page, 51)
    decreases |matches(query)| - 51 * (page - 1)
  {
    var rows := matches(query);
    L.ListUrlRoundTrip(base, query, page);
    Paging.ScreenStride(rows, page);
    var next := Paging.Screen(rows, page).1;
    if next != 0 {
      NextPageFits(rows, page);
      FollowIsLoadMore(matches, base, query, next);
    }
  }

  // Followed through its URLs, a search shows every matching row but each 51st, in
  // order, whatever the query holds.
  lemma FollowShows<T>(matches: Matches<T>, base: string, query: string)
    requires '?' !in base && IsBytes(query) && |matches(query)| <= INT64_MAX
    ensures var screens, rows := Follow(matches, base, query, 1), matches(query);
            && |screens| == |rows| / 51 + 1
            && Paging.Concat(screens) == Paging.Kept(rows, 0)
            && (Paging.Concat(screens) == rows <==> |rows| <= 50)
  {
    FollowIsLoadMore(matches, base, query, 1);
    Paging.LoadMoreShows(matches(query));
  }
}
