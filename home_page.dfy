/**
 * The home page's post list (src/app/page.tsx): posts are fetched a page of
 * six at a time, merged into the list without repeating a post already
 * shown, and the "load more", "search" and "clear search" buttons move the
 * page's state. The fetch itself is split in two: `StartFetch` is the effect
 * starting (it returns the request with what the effect's closure captured),
 * and `FetchSucceeded` / `FetchFailed` are its two endings.
 */
module Home {
  import opened Wrappers
  import opened JsText
  import opened Seqs
  import opened Types
  import PostsApi

  const PostsPerPage: nat := 6

  /** `prevPosts.some(prevPost => prevPost.id === id)`. */
  predicate HasId(posts: seq<BlogPost>, id: string) {
    exists i :: 0 <= i < |posts| && posts[i].id == id
  }

  /** The `setPosts` updater: the list after a batch arrives for the given page and search count. */
  function MergePosts(prev: seq<BlogPost>, newPosts: seq<BlogPost>, page: int, triggerSearch: int): seq<BlogPost> {
    if page == 1 && triggerSearch > 0 then newPosts
    else prev + Filter(newPosts, (p: BlogPost) => !HasId(prev, p.id))
  }

  /**
   * The first page of a search replaces the list with the batch. Any other
   * batch is appended: the old list stays in front, unchanged, and what
   * follows it is exactly the batch's posts whose id the old list does not
   * hold, in the batch's order and as often as the batch holds them.
   */
  lemma MergeSpec(prev: seq<BlogPost>, newPosts: seq<BlogPost>, page: int, triggerSearch: int)
    ensures page == 1 && triggerSearch > 0 ==> MergePosts(prev, newPosts, page, triggerSearch) == newPosts
    ensures !(page == 1 && triggerSearch > 0) ==>
              var r := MergePosts(prev, newPosts, page, triggerSearch);
              && |prev| <= |r| && r[..|prev|] == prev
              && (forall x :: x in r[|prev|..] <==> x in newPosts && !HasId(prev, x.id))
              && IsSubsequence(r[|prev|..], newPosts)
              && (forall x :: multiset(r[|prev|..])[x] == if HasId(prev, x.id) then 0 else multiset(newPosts)[x])
  {
    if !(page == 1 && triggerSearch > 0) {
      var keep := (p: BlogPost) => !HasId(prev, p.id);
      var r := MergePosts(prev, newPosts, page, triggerSearch);
      assert r[|prev|..] == Filter(newPosts, keep);
      FilterMembers(newPosts, keep);
      FilterOrder(newPosts, keep);
      FilterCount(newPosts, keep);
    }
  }

  /**
   * Posts are only checked against the old list, not against each other: a
   * batch none of whose ids is shown yet is appended whole, repeated ids
   * included.
   */
  lemma MergeKeepsBatchRepeats(prev: seq<BlogPost>, newPosts: seq<BlogPost>, page: int, triggerSearch: int)
    requires forall i :: 0 <= i < |newPosts| ==> !HasId(prev, newPosts[i].id)
    ensures MergePosts(prev, newPosts, page, triggerSearch) ==
              if page == 1 && triggerSearch > 0 then newPosts else prev + newPosts
  {
    FilterKeepsAll(newPosts, (p: BlogPost) => !HasId(prev, p.id));
  }

  /** A post whose id is already shown is never appended again. */
  lemma MergeSkipsShown(prev: seq<BlogPost>, newPosts: seq<BlogPost>, page: int, triggerSearch: int)
    requires forall i :: 0 <= i < |newPosts| ==> HasId(prev, newPosts[i].id)
    ensures MergePosts(prev, newPosts, page, triggerSearch) ==
              if page == 1 && triggerSearch > 0 then newPosts else prev
  {
    FilterDropsAll(newPosts, (p: BlogPost) => !HasId(prev, p.id));
  }

  /** The query string the effect builds: the page, the page size, and each search field trimmed when that leaves something. */
  function PostsQueryString(page: nat, keyword: string, author: string): map<string, string> {
    var q := map["page" := Decimal(page), "pageSize" := Decimal(PostsPerPage)];
    var q1 := if Trim(keyword) != "" then q["keyword" := Trim(keyword)] else q;
    if Trim(author) != "" then q1["author" := Trim(author)] else q1
  }

  /** A number printed in base 10 is read back by `parseInt`. */
  lemma DecimalReadBack(n: nat)
    ensures ParseInt(Decimal(n), true) == Some(n)
  {
    ParseIntReadsDecimal(n, "", true);
    assert Decimal(n) + "" == Decimal(n);
  }

  /** The page's query holds the page and the page size, and each search field trimmed when that leaves something. */
  lemma QueryEntries(page: nat, keyword: string, author: string)
    ensures var q := PostsQueryString(page, keyword, author);
            && "page" in q && q["page"] == Decimal(page)
            && "pageSize" in q && q["pageSize"] == Decimal(PostsPerPage)
            && ("keyword" in q <==> Trim(keyword) != "") && ("keyword" in q ==> q["keyword"] == Trim(keyword))
            && ("author" in q <==> Trim(author) != "") && ("author" in q ==> q["author"] == Trim(author))
  {
    var k, a := Trim(keyword), Trim(author);
    var q := map["page" := Decimal(page), "pageSize" := Decimal(PostsPerPage)];
    var q1 := if k != "" then q["keyword" := k] else q;
    assert PostsQueryString(page, keyword, author) == if a != "" then q1["author" := a] else q1;
  }

  /** The endpoint reads back from the page's query the page, a page size of 6, and the search fields trimmed. */
  lemma QueryReadBack(page: nat, keyword: string, author: string)
    ensures var q := PostsQueryString(page, keyword, author);
            && PostsApi.PageParam(q) == Some(page)
            && PostsApi.PageSizeParam(q) == Some(PostsPerPage)
            && PostsApi.Param(q, "keyword", "") == Trim(keyword)
            && PostsApi.Param(q, "author", "") == Trim(author)
  {
    var q := PostsQueryString(page, keyword, author);
    QueryEntries(page, keyword, author);
    assert PostsApi.Param(q, "page", "1") == Decimal(page);
    assert PostsApi.Param(q, "pageSize", "6") == Decimal(PostsPerPage);
    DecimalReadBack(page);
    DecimalReadBack(PostsPerPage);
  }

  /**
   * The posts endpoint always accepts the page's query: it asks the database
   * for exactly the page, six posts and the trimmed search fields, so the
   * answer is 200 or 500, never 400.
   */
  lemma QueryAccepted(page: nat, keyword: string, author: string, fetch: PostsApi.PostsQuery -> Option<PostsApi.PostsSlice>)
    requires page >= 1
    ensures var q := PostsQueryString(page, keyword, author);
            && (PostsApi.Get(q, fetch).status == 200 <==>
                  fetch(PostsApi.PostsQuery(page, PostsPerPage, Trim(keyword), Trim(author))).Some?)
            && PostsApi.Get(q, fetch).status != 400
  {
    var q := PostsQueryString(page, keyword, author);
    QueryReadBack(page, keyword, author);
    PostsApi.GetOutcome(q, fetch);
  }

  /** What a fetch's closure captured when the effect started. */
  datatype FetchRequest = FetchRequest(page: nat, triggerSearch: nat, initialLoad: bool, query: map<string, string>)

  class HomePage {
    var posts: seq<BlogPost>
    var page: nat
    var loading: bool
    var hasMore: bool
    var initialLoad: bool
    var keyword: string
    var author: string
    var triggerSearch: nat

    /** Pages are counted from 1. */
    predicate Valid()
      reads this
    {
      page >= 1
    }

    constructor()
      ensures Valid()
      ensures posts == [] && page == 1 && !loading && hasMore && initialLoad
      ensures keyword == "" && author == "" && triggerSearch == 0
    {
      posts, page, loading, hasMore, initialLoad := [], 1, false, true, true;
      keyword, author, triggerSearch := "", "", 0;
    }

    /** The effect starts: loading is on, and the request is for the current page and search fields. */
    method StartFetch() returns (request: FetchRequest)
      requires Valid()
      modifies this
      ensures Valid() && loading
      ensures request == FetchRequest(page, triggerSearch, initialLoad, PostsQueryString(page, keyword, author))
      ensures posts == old(posts) && page == old(page) && hasMore == old(hasMore) && initialLoad == old(initialLoad)
      ensures keyword == old(keyword) && author == old(author) && triggerSearch == old(triggerSearch)
    {
      loading := true;
      var query := map["page" := Decimal(page), "pageSize" := Decimal(PostsPerPage)];
      var k, a := Trim(keyword), Trim(author);
      if k != "" {
        query := query["keyword" := k];
      }
      if a != "" {
        query := query["author" := a];
      }
      request := FetchRequest(page, triggerSearch, initialLoad, query);
    }

    /**
     * The batch and the total count arrived: the list is merged as the
     * request's page and search count say, `hasMore` tells whether posts lie
     * beyond the request's page, loading and the first-load flag are off, and
     * the "no posts" notice is due when a first load found nothing.
     */
    method FetchSucceeded(request: FetchRequest, newPosts: seq<BlogPost>, totalCount: int) returns (noPostsNotice: bool)
      requires Valid()
      modifies this
      ensures Valid()
      ensures posts == MergePosts(old(posts), newPosts, request.page, request.triggerSearch)
      ensures hasMore <==> request.page * PostsPerPage < totalCount
      ensures !loading && !initialLoad
      ensures noPostsNotice <==> request.initialLoad && |newPosts| == 0
      ensures page == old(page) && keyword == old(keyword) && author == old(author) && triggerSearch == old(triggerSearch)
    {
      if request.page == 1 && request.triggerSearch > 0 {
        posts := newPosts;
      } else {
        var prevPosts := posts;
        var uniqueNewPosts := Filter(newPosts, (p: BlogPost) => !HasId(prevPosts, p.id));
        posts := posts + uniqueNewPosts;
      }
      hasMore := request.page * PostsPerPage < totalCount;
      noPostsNotice := request.initialLoad && |newPosts| == 0;
      loading := false;
      initialLoad := false;
    }

    /** The fetch failed: the list stays, and there is nothing more to load. */
    method FetchFailed()
      requires Valid()
      modifies this
      ensures Valid()
      ensures !hasMore && !loading && !initialLoad
      ensures posts == old(posts) && page == old(page) && keyword == old(keyword) && author == old(author)
      ensures triggerSearch == old(triggerSearch)
    {
      hasMore := false;
      loading := false;
      initialLoad := false;
    }

    /** "Load more": the next page, but only when no fetch is running and there is more; otherwise nothing changes. */
    method LoadMore()
      requires Valid()
      modifies this
      ensures Valid()
      ensures old(!loading && hasMore) ==> page == old(page) + 1
      ensures !old(!loading && hasMore) ==> page == old(page)
      ensures posts == old(posts) && loading == old(loading) && hasMore == old(hasMore) && initialLoad == old(initialLoad)
      ensures keyword == old(keyword) && author == old(author) && triggerSearch == old(triggerSearch)
    {
      if !loading && hasMore {
        page := page + 1;
      }
    }

    /** "Search": back to page 1 with an empty list, counted as a new search. */
    method Search()
      requires Valid()
      modifies this
      ensures Valid()
      ensures page == 1 && posts == [] && hasMore && !initialLoad && triggerSearch == old(triggerSearch) + 1
      ensures loading == old(loading) && keyword == old(keyword) && author == old(author)
    {
      page := 1;
      posts := [];
      hasMore := true;
      initialLoad := false;
      triggerSearch := triggerSearch + 1;
    }

    /** "Clear search": as a search, with the search fields emptied and the first-load flag back on. */
    method ClearSearch()
      requires Valid()
      modifies this
      ensures Valid()
      ensures keyword == "" && author == ""
      ensures page == 1 && posts == [] && hasMore && initialLoad && triggerSearch == old(triggerSearch) + 1
      ensures loading == old(loading)
    {
      keyword := "";
      author := "";
      page := 1;
      posts := [];
      hasMore := true;
      initialLoad := true;
      triggerSearch := triggerSearch + 1;
    }
  }

  /**
   * The first batch after a search is never merged with what was shown: a
   * search's count is positive and its page is 1.
   */
  lemma SearchBatchReplaces(prev: seq<BlogPost>, newPosts: seq<BlogPost>, triggerSearch: nat)
    requires triggerSearch >= 1
    ensures MergePosts(prev, newPosts, 1, triggerSearch) == newPosts
  {
  }
}
