/** The infinite-scroll feed loader: the module-level `currentPage`,
    `totalPages` and `loading` variables of script.js, the feed's content,
    `loadVideos(page, append)` and the scroll trigger that asks for the
    next page. The HTTP exchange is an input: the response the server
    gives for the requested page. */
module Feed {
  import opened Wrappers

  /** One record of the `videos` array of a feed page; the rest of the
      record only feeds the item's markup. */
  datatype Video = Video(id: string, src: string, likes: Option<int>, shares: Option<int>)

  /** What `fetch(.../videos?page=N&limit=5)` and `res.json()` produce. */
  datatype PageResponse =
    | NetworkError
      // the fetch rejected or the body was not JSON: both throw inside the try
    | Answer(ok: bool, videos: Option<seq<Video>>, currentPage: Option<int>, totalPages: Option<int>)
      // a parsed body; `ok` is `res.ok`, the other fields may be absent

  /** The loader's whole state, as a value. */
  datatype FeedState = FeedState(currentPage: int, totalPages: int, loading: bool, feed: seq<Video>)

  /** JavaScript's `n || fallback` on a numeric JSON field: an absent field
      and a zero fall back; every other number, negative ones included, is
      kept. */
  function OrElse(n: Option<int>, fallback: int): (r: int)
    ensures r == fallback <== n.None? || n.value == 0
    ensures n.Some? && n.value != 0 ==> r == n.value
  {
    if n.Some? && n.value != 0 then n.value else fallback
  }

  /** `data.videos || []`. */
  function PageVideos(resp: PageResponse): (vs: seq<Video>)
    requires resp.Answer?
    ensures resp.videos.None? ==> vs == []
    ensures resp.videos.Some? ==> vs == resp.videos.value
  {
    if resp.videos.Some? then resp.videos.value else []
  }

  /** The guard of `loadVideos`: a call returns at once while a load is in
      flight, and for a page past the last one unless it is page 1. */
  predicate Admits(s: FeedState, page: int): (b: bool)
    ensures s.loading ==> !b
    ensures !s.loading && page == 1 ==> b
    ensures !s.loading && page != 1 ==> (b <==> page <= s.totalPages)
  {
    !s.loading && (page <= s.totalPages || page == 1)
  }

  /** A response that reaches the end of the try block: `res.ok` held, so
      no error was thrown before the feed was touched. */
  predicate Succeeded(resp: PageResponse)
  {
    resp.Answer? && resp.ok
  }

  /** What one call `loadVideos(page, append)` does to the state when the
      server answers `resp`. */
  function Step(s: FeedState, page: int, append: bool, resp: PageResponse): (t: FeedState)
    ensures !Admits(s, page) ==> t == s
    ensures Admits(s, page) ==> !t.loading
    ensures Admits(s, page) && !Succeeded(resp) ==> t == s
    ensures Admits(s, page) && Succeeded(resp) ==>
      && t.currentPage == OrElse(resp.currentPage, page)
      && t.totalPages == OrElse(resp.totalPages, page)
      && t.feed == (if append then s.feed else []) + PageVideos(resp)
  {
    if !Admits(s, page) then s
    else if Succeeded(resp) then
      FeedState(OrElse(resp.currentPage, page), OrElse(resp.totalPages, page), false,
                (if append then s.feed else []) + PageVideos(resp))
    else s.(loading := false)
  }

  /** The scroll listener's condition: the viewport's bottom edge is within
      200 pixels of the end of the document. */
  predicate NearBottom(innerHeight: int, scrollY: int, bodyHeight: int): (b: bool)
    ensures b <==> bodyHeight - (scrollY + innerHeight) <= 200
  {
    innerHeight + scrollY >= bodyHeight - 200
  }

  /** The loader. `Request` is `loadVideos`; it is split into the guard
      (`Begin`), the success path (`Complete`) and the error path (`Fail`),
      so that the state between the guard and the answer can be spoken of. */
  class FeedController {
    var currentPage: int
    var totalPages: int
    var loading: bool
    var feed: seq<Video>

    function State(): (s: FeedState)
      reads this
    {
      FeedState(currentPage, totalPages, loading, feed)
    }

    /** The initial values `currentPage = 1`, `totalPages = 1`,
        `loading = false`, and an empty feed. */
    constructor ()
      ensures State() == FeedState(1, 1, false, [])
    {
      currentPage, totalPages, loading, feed := 1, 1, false, [];
    }

    /** The guard and the lock: an admitted call sets `loading`, and from
        then on every other call is turned away until the lock is released. */
    method Begin(page: int) returns (admitted: bool)
      modifies this
      ensures admitted == Admits(old(State()), page)
      ensures admitted ==> State() == old(State()).(loading := true)
      ensures !admitted ==> State() == old(State())
      ensures admitted ==> forall p :: !Admits(State(), p)
    {
      if loading || (page > totalPages && page != 1) {
        admitted := false;
        return;
      }
      admitted := true;
      loading := true;
    }

    /** The success path: the feed is cleared unless appending, the page's
        videos are appended in response order, the page numbers are adopted
        from the response (falling back to the requested page), and the
        lock is released by the `finally` block. */
    method Complete(page: int, append: bool, resp: PageResponse)
      requires loading && Succeeded(resp)
      modifies this
      ensures !loading
      ensures currentPage == OrElse(resp.currentPage, page)
      ensures totalPages == OrElse(resp.totalPages, page)
      ensures feed == (if append then old(feed) else []) + PageVideos(resp)
    {
      if !append {
        feed := [];
      }
      var vs := PageVideos(resp);
      var i := 0;
      while i < |vs|
        invariant 0 <= i <= |vs|
        invariant feed == (if append then old(feed) else []) + vs[..i]
      {
        feed := feed + [vs[i]];
        i := i + 1;
      }
      assert vs[..i] == vs;
      currentPage := OrElse(resp.currentPage, page);
      totalPages := OrElse(resp.totalPages, page);
      loading := false;
    }

    /** The error path: the catch block only logs, and the `finally` block
        releases the lock; pages and feed are left as they were. */
    method Fail()
      requires loading
      modifies this
      ensures State() == old(State()).(loading := false)
    {
      loading := false;
    }

    /** `loadVideos(page, append)` answered by `resp`. */
    method Request(page: int, append: bool, resp: PageResponse) returns (admitted: bool)
      modifies this
      ensures admitted == Admits(old(State()), page)
      ensures State() == Step(old(State()), page, append, resp)
    {
      admitted := Begin(page);
      if !admitted {
        return;
      }
      if Succeeded(resp) {
        Complete(page, append, resp);
      } else {
        Fail();
      }
    }

    /** The scroll listener: near the bottom of the page it asks for
        `currentPage + 1` in append mode; the lock is its only protection
        against repeated scroll events. */
    method OnScroll(innerHeight: int, scrollY: int, bodyHeight: int, resp: PageResponse)
      returns (admitted: bool)
      modifies this
      ensures admitted ==> NearBottom(innerHeight, scrollY, bodyHeight)
      ensures State() == if NearBottom(innerHeight, scrollY, bodyHeight)
                         then Step(old(State()), old(currentPage) + 1, true, resp)
                         else old(State())
    {
      admitted := false;
      if innerHeight + scrollY >= bodyHeight - 200 {
        admitted := Request(currentPage + 1, true, resp);
      }
    }
  }

  /** Page 1 is admitted whenever no load is in flight, whatever
      `totalPages` says. */
  lemma PageOneAlwaysAdmitted(s: FeedState)
    requires !s.loading
    ensures Admits(s, 1)
  {
  }

  /** While a load is in flight every call is a no-op. */
  lemma InFlightLoadBlocksAll(s: FeedState, page: int, append: bool, resp: PageResponse)
    requires s.loading
    ensures Step(s, page, append, resp) == s
  {
  }

  /** Scrolling past the last page changes nothing: `currentPage + 1` is
      beyond `totalPages` and is not page 1. */
  lemma ScrollPastLastPageIsNoOp(s: FeedState, resp: PageResponse)
    requires s.currentPage >= s.totalPages && s.currentPage != 0
    ensures Step(s, s.currentPage + 1, true, resp) == s
  {
  }

  /** The state after a run of scroll-driven loads, each answered by the
      next response of `resps`. */
  function ScrollRun(s: FeedState, resps: seq<PageResponse>): (t: FeedState)
    decreases |resps|
  {
    if resps == [] then s
    else ScrollRun(Step(s, s.currentPage + 1, true, resps[0]), resps[1..])
  }

  /** Scrolling only ever appends: what the feed shows before a run of
      scroll-driven loads stays, in order, at the front of the feed. */
  lemma {:induction false} ScrollRunKeepsFeedPrefix(s: FeedState, resps: seq<PageResponse>)
    ensures s.feed <= ScrollRun(s, resps).feed
    decreases |resps|
  {
    if resps != [] {
      var s' := Step(s, s.currentPage + 1, true, resps[0]);
      assert s.feed <= s'.feed;
      ScrollRunKeepsFeedPrefix(s', resps[1..]);
    }
  }

  /** The page numbers stay positive, as long as the server reports
      positive page numbers or none. */
  predicate PagesPositive(s: FeedState)
  {
    s.currentPage >= 1 && s.totalPages >= 1
  }

  predicate PositivePages(resp: PageResponse)
  {
    resp.Answer? ==>
      (resp.currentPage.Some? ==> resp.currentPage.value >= 0) &&
      (resp.totalPages.Some? ==> resp.totalPages.value >= 0)
  }

  lemma {:induction false} ScrollRunKeepsPagesPositive(s: FeedState, resps: seq<PageResponse>)
    requires PagesPositive(s)
    requires forall i :: 0 <= i < |resps| ==> PositivePages(resps[i])
    ensures PagesPositive(ScrollRun(s, resps))
    decreases |resps|
  {
    if resps != [] {
      var s' := Step(s, s.currentPage + 1, true, resps[0]);
      assert PositivePages(resps[0]);
      ScrollRunKeepsPagesPositive(s', resps[1..]);
    }
  }
}
