/**
 * The home page's "load more" feed: posts arrive six at a time, each page is appended to
 * the list shown so far, and the button stays while the store reports more posts than
 * the pages requested so far can hold.
 */
module Home {

  /** Posts per page. */
  const PostsPerPage: nat := 6

  /** The query the feed sends: `limit` posts starting at `offset` (rows `offset` to `offset + limit - 1`). */
  datatype Request = Request(limit: nat, offset: nat)

  /** The store's answer: one page of posts and the total number of published posts. */
  datatype Page<T> = Page(data: seq<T>, count: nat)

  /** What the store's wrapper answers when the query fails: no posts and a count of zero. */
  function FailedPage<T>(): (r: Page<T>)
    ensures r.data == [] && r.count == 0
  {
    Page([], 0)
  }

  /** The query for page `pageNum`. */
  function PageRequest(pageNum: nat): (r: Request)
    ensures r.limit == PostsPerPage && r.offset == pageNum * PostsPerPage
  {
    Request(PostsPerPage, pageNum * PostsPerPage)
  }

  /** Whether more posts exist after page `pageNum`, given the store's count. */
  function MorePages(pageNum: nat, count: nat): bool {
    (pageNum + 1) * PostsPerPage < count
  }

  /** Consecutive pages ask for adjacent, non-overlapping row ranges, starting at row 0. */
  lemma RequestsTile(pageNum: nat)
    ensures PageRequest(0).offset == 0
    ensures PageRequest(pageNum + 1).offset == PageRequest(pageNum).offset + PageRequest(pageNum).limit
  {
  }

  /**
   * The button stays exactly when the store has posts beyond the last row page `pageNum`
   * asked for; once it is gone for a count it stays gone for later pages.
   */
  lemma MorePagesMeansRowsBeyond(pageNum: nat, count: nat)
    ensures MorePages(pageNum, count) <==> PageRequest(pageNum).offset + PageRequest(pageNum).limit < count
    ensures !MorePages(pageNum, count) ==> !MorePages(pageNum + 1, count)
  {
  }

  /** A failed query never leaves the button showing. */
  lemma FailureEndsPaging<T>(pageNum: nat)
    ensures !MorePages(pageNum, FailedPage<T>().count)
  {
  }

  /** The home page's state. */
  class HomeFeed<T> {
    var posts: seq<T>
    var loading: bool
    var hasMore: bool
    var page: nat

    /** The page as it first renders: no posts, loading, more to come, page 0. */
    constructor ()
      ensures posts == [] && loading && hasMore && page == 0
    {
      posts := [];
      loading := true;
      hasMore := true;
      page := 0;
    }

    /** The first half of a fetch: `loading` is set and the page's query goes out. */
    method StartFetch(pageNum: nat) returns (req: Request)
      modifies this
      ensures req == Request(PostsPerPage, pageNum * PostsPerPage)
      ensures loading
      ensures posts == old(posts) && hasMore == old(hasMore) && page == old(page)
    {
      loading := true;
      req := PageRequest(pageNum);
    }

    /**
     * The second half of a fetch, when the answer arrives: the page replaces the list on
     * a reset and is appended to it otherwise (with no check for posts already shown),
     * `hasMore` is recomputed from the count, and `loading` ends.
     */
    method FinishFetch(pageNum: nat, reset: bool, answer: Page<T>)
      modifies this
      ensures reset ==> posts == answer.data
      ensures !reset ==> posts == old(posts) + answer.data
      ensures hasMore == ((pageNum + 1) * PostsPerPage < answer.count)
      ensures !loading && page == old(page)
    {
      if reset {
        posts := answer.data;
      } else {
        posts := posts + answer.data;
      }
      hasMore := MorePages(pageNum, answer.count);
      loading := false;
    }

    /** A whole fetch of page `pageNum`, the store answering `answer`. */
    method FetchPosts(pageNum: nat, reset: bool, answer: Page<T>) returns (req: Request)
      modifies this
      ensures req == Request(PostsPerPage, pageNum * PostsPerPage)
      ensures reset ==> posts == answer.data
      ensures !reset ==> posts == old(posts) + answer.data
      ensures !reset ==> |posts| == |old(posts)| + |answer.data| && posts[..|old(posts)|] == old(posts)
      ensures hasMore == ((pageNum + 1) * PostsPerPage < answer.count)
      ensures !loading && page == old(page)
    {
      req := StartFetch(pageNum);
      FinishFetch(pageNum, reset, answer);
    }

    /** The fetch the page runs when it mounts: page 0, appended to the empty list. */
    method Mount(answer: Page<T>) returns (req: Request)
      modifies this
      ensures req == Request(PostsPerPage, 0)
      ensures posts == old(posts) + answer.data
      ensures hasMore == (PostsPerPage < answer.count)
      ensures !loading && page == old(page)
    {
      req := FetchPosts(0, false, answer);
    }

    /** The "load more" button: the next page number is stored and that page is fetched and appended. */
    method LoadMore(answer: Page<T>) returns (req: Request)
      modifies this
      ensures page == old(page) + 1
      ensures req == Request(PostsPerPage, (old(page) + 1) * PostsPerPage)
      ensures posts == old(posts) + answer.data
      ensures hasMore == ((old(page) + 2) * PostsPerPage < answer.count)
      ensures !loading
    {
      page := page + 1;
      req := FetchPosts(page, false, answer);
    }
  }

  /**
   * Thirteen published posts: the mount shows the first six with the button, the first
   * "load more" the next six with the button, the second the last one without it; the
   * list then holds all thirteen, in order.
   */
  method ThirteenPosts<T>(all: seq<T>) returns (buttonShown: seq<bool>, shown: seq<T>)
    requires |all| == 13
    ensures buttonShown == [true, true, false]
    ensures shown == all
  {
    var feed := new HomeFeed<T>();
    var req := feed.Mount(Page(all[..6], 13));
    assert req.offset == 0;
    buttonShown := [feed.hasMore];
    req := feed.LoadMore(Page(all[6..12], 13));
    assert req.offset == 6;
    buttonShown := buttonShown + [feed.hasMore];
    req := feed.LoadMore(Page(all[12..], 13));
    assert req.offset == 12;
    buttonShown := buttonShown + [feed.hasMore];
    assert all[..6] + all[6..12] + all[12..] == all;
    shown := feed.posts;
  }

  /** A failed query appends nothing and hides the button, whatever was shown before. */
  method FailedLoadMore<T>(before: seq<T>, page: nat) returns (after: seq<T>, buttonShown: bool, loading: bool)
    ensures after == before && !buttonShown && !loading
  {
    var feed := new HomeFeed<T>();
    feed.posts := before;
    feed.page := page;
    var req := feed.LoadMore(FailedPage());
    after, buttonShown, loading := feed.posts, feed.hasMore, feed.loading;
  }
}
