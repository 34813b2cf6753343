/**
 * The posts endpoint (src/app/api/posts/route.ts): `GET` reads the page, the
 * page size and the filters from the query and answers with one page of posts
 * and the total count; `POST` checks the required fields and creates a post.
 * The database calls are parameters: `fetch` stands for `getPosts` together
 * with `getTotalPostsCount`, `create` for `createPost`, and `None` / `Failure`
 * for the exception that makes the handler answer 500.
 */
module PostsApi {
  import opened Wrappers
  import opened JsText
  import opened Types

  datatype ResponseBody =
    | Message(message: string)
    | PostsPage(posts: seq<BlogPost>, totalCount: int)
    | Created(post: BlogPost)

  datatype Response = Response(status: int, body: ResponseBody)

  /** The filters and the page a `GET` asks the database for. */
  datatype PostsQuery = PostsQuery(page: int, pageSize: int, keyword: string, author: string)

  /** A page of posts and the number of posts that match the filters. */
  datatype PostsSlice = PostsSlice(posts: seq<BlogPost>, totalCount: int)

  /** `searchParams.get(key) || fallback`: an absent or empty parameter gives `fallback`. */
  function Param(query: map<string, string>, key: string, fallback: string): (v: string)
    ensures key in query && query[key] != "" ==> v == query[key]
    ensures !(key in query && query[key] != "") ==> v == fallback
  {
    if key in query && query[key] != "" then query[key] else fallback
  }

  /** `parseInt(searchParams.get('page') || '1', 10)`; `None` is `NaN`. */
  function PageParam(query: map<string, string>): Option<int> {
    ParseInt(Param(query, "page", "1"), true)
  }

  /** `parseInt(searchParams.get('pageSize') || '6', 10)`. */
  function PageSizeParam(query: map<string, string>): Option<int> {
    ParseInt(Param(query, "pageSize", "6"), true)
  }

  /** `isNaN(n) || n < 1` does not hold. */
  predicate ValidCount(n: Option<int>) {
    n.Some? && n.value >= 1
  }

  const InvalidPage := Response(400, Message("Invalid page number"))
  const InvalidPageSize := Response(400, Message("Invalid page size"))
  const ServerError := Response(500, Message("Internal Server Error"))
  const MissingFields := Response(400, Message("Title, author, and content are required"))

  /** The `GET` handler. */
  function Get(query: map<string, string>, fetch: PostsQuery -> Option<PostsSlice>): Response {
    var page := PageParam(query);
    var pageSize := PageSizeParam(query);
    if !ValidCount(page) then InvalidPage
    else if !ValidCount(pageSize) then InvalidPageSize
    else
      var q := PostsQuery(page.value, pageSize.value, Param(query, "keyword", ""), Param(query, "author", ""));
      match fetch(q)
      case None => ServerError
      case Some(slice) => Response(200, PostsPage(slice.posts, slice.totalCount))
  }

  /**
   * The response to a `GET`: 400 "Invalid page number" when the page is not a
   * number of at least 1, whatever the page size; otherwise 400 "Invalid page
   * size" when the page size is not; otherwise the posts and the count the
   * database gives for the parsed page, page size and filters, with status
   * 200, or 500 when the database fails.
   */
  lemma GetOutcome(query: map<string, string>, fetch: PostsQuery -> Option<PostsSlice>)
    ensures !ValidCount(PageParam(query)) ==> Get(query, fetch) == InvalidPage
    ensures ValidCount(PageParam(query)) && !ValidCount(PageSizeParam(query)) ==> Get(query, fetch) == InvalidPageSize
    ensures Get(query, fetch).status == 200 <==>
              ValidCount(PageParam(query)) && ValidCount(PageSizeParam(query))
              && fetch(PostsQuery(PageParam(query).value, PageSizeParam(query).value,
                                  Param(query, "keyword", ""), Param(query, "author", ""))).Some?
    ensures Get(query, fetch).status == 200 ==>
              var slice := fetch(PostsQuery(PageParam(query).value, PageSizeParam(query).value,
                                            Param(query, "keyword", ""), Param(query, "author", ""))).value;
              Get(query, fetch).body == PostsPage(slice.posts, slice.totalCount)
    ensures ValidCount(PageParam(query)) && ValidCount(PageSizeParam(query))
            && fetch(PostsQuery(PageParam(query).value, PageSizeParam(query).value,
                                Param(query, "keyword", ""), Param(query, "author", ""))).None?
            ==> Get(query, fetch) == ServerError
  {
    var page, pageSize := PageParam(query), PageSizeParam(query);
    if ValidCount(page) && ValidCount(pageSize) {
      var q := PostsQuery(page.value, pageSize.value, Param(query, "keyword", ""), Param(query, "author", ""));
      assert Get(query, fetch) == if fetch(q).None? then ServerError else Response(200, PostsPage(fetch(q).value.posts, fetch(q).value.totalCount));
    }
  }

  /** The numeral `"1"` reads as 1, and `"6"` as 6. */
  lemma DefaultNumerals()
    ensures ParseInt("1", true) == Some(1)
    ensures ParseInt("6", true) == Some(6)
  {
    ParseIntReadsDecimal(1, "", true);
    ParseIntReadsDecimal(6, "", true);
    assert Decimal(1) + "" == "1";
    assert Decimal(6) + "" == "6";
  }

  /** An absent or empty `page` reads as page 1. */
  lemma PageDefault(query: map<string, string>)
    requires !("page" in query && query["page"] != "")
    ensures PageParam(query) == Some(1)
  {
    assert Param(query, "page", "1") == "1";
    DefaultNumerals();
  }

  /** An absent or empty `pageSize` reads as a page size of 6. */
  lemma PageSizeDefault(query: map<string, string>)
    requires !("pageSize" in query && query["pageSize"] != "")
    ensures PageSizeParam(query) == Some(6)
  {
    assert Param(query, "pageSize", "6") == "6";
    DefaultNumerals();
  }

  /**
   * The page is read as `parseInt` reads it: a numeral followed by anything
   * that does not start with a digit counts as the numeral, so `page=3x` is
   * page 3.
   */
  lemma GetReadsNumeralPrefix(query: map<string, string>, n: nat, tail: string)
    requires tail == [] || !IsDigit(tail[0])
    requires "page" in query && query["page"] == Decimal(n) + tail
    ensures PageParam(query) == Some(n)
    ensures ValidCount(PageParam(query)) <==> n >= 1
  {
    ParseIntReadsDecimal(n, tail, true);
  }

  /** The page size is read the same way: `pageSize=10abc` is a page size of 10. */
  lemma GetReadsPageSizePrefix(query: map<string, string>, n: nat, tail: string)
    requires tail == [] || !IsDigit(tail[0])
    requires "pageSize" in query && query["pageSize"] == Decimal(n) + tail
    ensures PageSizeParam(query) == Some(n)
    ensures ValidCount(PageSizeParam(query)) <==> n >= 1
  {
    ParseIntReadsDecimal(n, tail, true);
  }

  /** The fields of a `POST` body; `None` is a field the body leaves out. */
  datatype PostBody = PostBody(
    title: Option<string>,
    author: Option<string>,
    coverImage: Option<string>,
    content: Option<string>,
    shortSnippet: Option<string>)

  /** A field that is present and not `""`: JavaScript truthiness of a string. */
  predicate Given(field: Option<string>) {
    field.Some? && field.value != ""
  }

  /** What `createPost` receives: the required fields, and the optional ones as sent. */
  datatype NewPost = NewPost(
    title: string,
    author: string,
    coverImage: Option<string>,
    content: string,
    shortSnippet: Option<string>)

  /**
   * The `POST` handler. `json` is the request body read as a JSON object;
   * `None` is a body that is not JSON, or is JSON `null`, so that reading or
   * destructuring it throws and the handler answers 500.
   */
  function Post(json: Option<PostBody>, create: NewPost -> Option<BlogPost>): Response {
    if json.None? then ServerError
    else
      var body := json.value;
      if !Given(body.title) || !Given(body.author) || !Given(body.content) then MissingFields
      else
        var newPost := NewPost(body.title.value, body.author.value, body.coverImage, body.content.value, body.shortSnippet);
        match create(newPost)
        case None => ServerError
        case Some(post) => Response(201, Created(post))
  }

  /**
   * The response to a `POST`: 400 when the title, the author or the content is
   * missing or empty, without creating anything (the answer does not depend
   * on `create`); otherwise 201 with the created post, or 500 when creating
   * fails. A body that cannot be read as a JSON object gets 500 whatever the
   * database would do.
   */
  lemma PostOutcome(body: PostBody, create: NewPost -> Option<BlogPost>, other: NewPost -> Option<BlogPost>)
    ensures !(Given(body.title) && Given(body.author) && Given(body.content)) ==>
              Post(Some(body), create) == MissingFields && Post(Some(body), other) == MissingFields
    ensures Post(Some(body), create).status == 201 <==>
              Given(body.title) && Given(body.author) && Given(body.content)
              && create(NewPost(body.title.value, body.author.value, body.coverImage, body.content.value, body.shortSnippet)).Some?
    ensures Post(Some(body), create).status == 201 ==>
              Post(Some(body), create).body ==
                Created(create(NewPost(body.title.value, body.author.value, body.coverImage, body.content.value, body.shortSnippet)).value)
    ensures Given(body.title) && Given(body.author) && Given(body.content)
            && create(NewPost(body.title.value, body.author.value, body.coverImage, body.content.value, body.shortSnippet)).None?
            ==> Post(Some(body), create) == ServerError
    ensures Post(None, create) == ServerError && Post(None, other) == ServerError
  {
  }
}
