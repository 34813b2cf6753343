# my-blog-post, modelled in Dafny

This project models the core of a Next.js blog. The blog's posts hold HTML
with embedded content blocks written as `{{block name="Top Picks" products="SKU123, SKU456"}}`.
The model covers these parts of the blog:

- **Block parser** (`src/lib/blockParser.ts`). It finds every block tag and
  reads the tag's `key="value"` attributes. A `products` value becomes a list
  of trimmed SKUs. A tag without a non-empty string `name` fails the whole parse.
  Otherwise each tag is replaced by `__BLOCK_PLACEHOLDER_<n>__`. The model
  gives the two regular expressions in Dafny as scanners. Each scanner has a
  declarative shape and iff lemmas. The parse is stated as a function: lex
  the text into fragments and tags, then substitute. The `replace` callback
  and the attribute `exec` loop are methods proved equal to that function.
- **Post page** (`src/app/posts/[slug]/page.tsx`, lines 36-75). It splits
  the parsed text at the placeholders and renders each part as HTML or as its
  block. The table cites the parser lines these lemmas are about, because
  the row format cannot hold that page's path. The page's `split` (lines
  38-40) is `PostView.SplitFrom`. The `startsWith`/`replace`/`parseInt`
  reading of a part (lines 65-72) is `PostView.RenderPart`. `parts.map`
  (line 64) is `PostView.RenderParts`.
- **Block renderer** (`CustomBlockRenderer.tsx`). It switches on the block
  name and picks the catalogue products (`src/data/products.ts`) that the
  block lists.
- **Data helpers** (`src/lib/data.ts`). These are the slug generator, the
  pagination offset and the update payload.
- **Posts endpoint** (`src/app/api/posts/route.ts`). It checks the `GET`
  query and the `POST` body, and gives the status code of each response.
- **Create page** (`src/app/create/page.tsx`). This is form validation,
  including the cover-image URL pattern, and the body that a submit sends.
- **Comment section** (`CommentSection.tsx`). This is the blank-field
  validation, the request it sends, and appending a comment that arrives.
- **Home page** (`src/app/page.tsx`). This is a stateful list of posts
  loaded six at a time. Batches are merged without repeating a post, and
  the list has "load more", "search" and "clear search".

Parts whose source mutates state are modelled as Dafny classes:
`HomePage`, `CreatePostForm` and `CommentSection`. Their methods state the
whole new state. Pure code is modelled as functions with lemmas.

The model has no database, no network and no React runtime. A database or
HTTP call is a function parameter that returns `Option`, and `None` stands
for the exception that leads to a 500 or an error toast. The JavaScript
built-ins the code relies on are written out in module `JsText`. These are
`trim` with the ECMAScript white-space set, `split`, `toLowerCase`,
`parseInt`, `indexOf` and `replace` of the first occurrence.

## Model

Each row names the lemma or method whose contract states the property. The
functions that model the source's own functions are what the rows are about:
`BlockParser.MatchTagAt`/`FindTag` (tag pattern and its global search),
`BlockParser.MatchAttrAt`/`FindAttr`/`Attributes` (attribute pattern, `exec`
loop and the object it fills), `BlockParser.Parse` (`parseBlocks`),
`PostView.SplitContent`, `PostView.RenderPart` and `PostView.RenderContent`
(the post page), `BlockRenderer.Render` (`CustomBlockRenderer`),
`PostData.GenerateSlug` (`generateSlug`), `PostsApi.Get` and `PostsApi.Post`
(the two handlers), `CreatePost.IsImageUrl` and `CreatePost.FormErrors`
(the cover-image pattern and `validate`), `CommentSection.CommentErrors`
(`validateForm`) and `Home.MergePosts` (the `setPosts` updater).

| member | source | states |
|---|---|---|
| BlockParser.MatchTagShape | src/lib/blockParser.ts:3 | A match of the tag pattern at a position is `{{block`, a white-space run, a run of non-`}` characters and `}}`. A longer capture never starts with white space. |
| BlockParser.ShapeTagMatch | src/lib/blockParser.ts:3 | Conversely, every text of that shape is matched at its start, with exactly those spans. |
| BlockParser.ShapeTagParts | src/lib/blockParser.ts:3 | The white space after `block` is not empty. The captured attribute string is not empty and holds no `}`. |
| BlockParser.MatchTagSound | src/lib/blockParser.ts:3 | The matched span of the content is exactly the tag's text. |
| BlockParser.FindTagLeftmost | src/lib/blockParser.ts:12 | The global search finds the leftmost position where the pattern matches. No earlier position matches. |
| BlockParser.FindTagNone | src/lib/blockParser.ts:12 | When the search finds nothing, the pattern matches nowhere in the rest of the content. |
| BlockParser.MatchAttrShape | src/lib/blockParser.ts:15 | An attribute match is a word key, optional white space, `=`, optional white space, and a quote. Then comes a value without that quote or a line terminator, and the same quote again. |
| BlockParser.ShapeAttrMatch | src/lib/blockParser.ts:15 | Conversely, every text of that shape is matched at its start. |
| BlockParser.MatchAttrSound | src/lib/blockParser.ts:15 | The matched span is exactly the attribute's text, and its key and value are well formed. |
| BlockParser.FindAttrLeftmost | src/lib/blockParser.ts:18 | Each `exec` returns the leftmost match from the current position. |
| BlockParser.FindAttrNone | src/lib/blockParser.ts:18 | When `exec` returns null, no match starts anywhere further on. |
| BlockParser.AttrMatchesWellFormed | src/lib/blockParser.ts:17-28 | Every match the loop visits has a word key and a value without its quote or a line break. |
| BlockParser.ProductList | src/lib/blockParser.ts:23-24 | A `products` value gives one item more than it has commas. Each item is the trimmed piece between commas. |
| BlockParser.AttributeKeys | src/lib/blockParser.ts:18-28 | A key is an attribute iff some match assigns it. The one exception is `__proto__`, which a plain object never stores. |
| BlockParser.LastOccurrenceWins | src/lib/blockParser.ts:18-28 | A key assigned more than once keeps the value of its last assignment. |
| BlockParser.BuildBlocksAligned | src/lib/blockParser.ts:31-39 | The blocks exist iff every tag has a non-empty string name. Block `i` is then built from tag `i`. |
| BlockParser.Lex | src/lib/blockParser.ts:12 | The content splits into one more text fragment than there are tags. |
| BlockParser.LexRoundTrip | src/lib/blockParser.ts:12-45 | Interleaving the fragments with the tag texts gives the content back unchanged. |
| BlockParser.Placeholders | src/lib/blockParser.ts:42 | Placeholder `i` spells the index of block `i`. |
| BlockParser.ParseWithoutTags | src/lib/blockParser.ts:47 | Content without a tag comes back unchanged, with no blocks. |
| BlockParser.ParseOutcome | src/lib/blockParser.ts:12-47 | The parse fails iff some tag lacks a name. Otherwise the text is the fragments with placeholder `i` in place of tag `i`, and block `i` comes from tag `i`. |
| BlockParser.ScanAttributes | src/lib/blockParser.ts:13-28 | The `exec` loop builds exactly the attributes of the whole match sequence. |
| BlockParser.ReplaceStep | src/lib/blockParser.ts:35-44 | One callback step pushes the tag's block and replaces the tag with the next placeholder. This keeps the loop invariant. |
| BlockParser.ReplaceFails | src/lib/blockParser.ts:31-33 | A nameless tag makes the whole parse fail. |
| BlockParser.ParseBlocks | src/lib/blockParser.ts:5-48 | The imperative `replace` loop computes exactly `Parse`. |
| PostView.ParseThenSplit | src/lib/blockParser.ts:41-47 | Models the post page's `split` (src/app/posts/[slug]/page.tsx lines 36-40). For content that does not hold the placeholder prefix, splitting the parsed text at the placeholder pattern gives back the text fragments with placeholders `0..n-1` between them, so each placeholder the parser writes is found again, and nothing else is. |
| PostView.PlaceholderIndex | src/lib/blockParser.ts:42 | Models the post page's index reading (src/app/posts/[slug]/page.tsx lines 65-68). The placeholder written for block `k` reads back as the index `k` when the post page strips the prefix and the first `__` and parses the rest. |
| PostView.RenderedPost | src/lib/blockParser.ts:5-47 | Models the post page's rendering of the parts (src/app/posts/[slug]/page.tsx lines 36-75). For content that parses and holds no placeholder prefix, the post page shows the text fragments as HTML at the even positions and block `i` at odd position `2i+1`, and nothing else. |
| PostData.SlugChars | src/lib/data.ts:208-214 | A slug holds only `a`-`z`, digits and `-`. |
| PostData.SlugNoDoubleDash | src/lib/data.ts:212-213 | A slug never holds two dashes in a row. |
| PostData.SlugLettersDigits | src/lib/data.ts:210-213 | The slug's letters and digits are exactly those of the lower-cased title, in order. |
| PostData.SlugIdempotent | src/lib/data.ts:208-214 | Slugging a slug gives it back. |
| PostData.SlugLeadingSpace | src/lib/data.ts:212 | Leading white space is not trimmed and turns into a leading `-`. |
| PostData.SlugTrailingSpace | src/lib/data.ts:212 | Trailing white space turns into a trailing `-`. |
| PostData.Skip | src/lib/data.ts:71 | For page and page size of at least 1, the offset is a non-negative multiple of the page size that skips exactly `page - 1` pages. |
| PostData.UpdatePayload | src/lib/data.ts:177-180 | A truthy title adds a slug generated from it. Every other field is passed through unchanged, and no other key is added. |
| BlockRenderer.CatalogueSkusDistinct | src/data/products.ts:9-13 | The catalogue holds each SKU once. |
| BlockRenderer.SelectedProducts | src/app/components/blog/CustomBlockRenderer.tsx:23-25 | A product is shown iff it is in the catalogue and the block lists its SKU. The products keep catalogue order, and each appears once. |
| BlockRenderer.ProductBlocksAlike | src/app/components/blog/CustomBlockRenderer.tsx:21-22 | 'Top Picks' and 'Product List' render the same way, except for the heading. |
| BlockRenderer.RenderDispatch | src/app/components/blog/CustomBlockRenderer.tsx:20-59 | The product view is used iff the name is 'Top Picks' or 'Product List', the showcase iff it is 'Image Showcase', and the unknown-block notice with the name otherwise. |
| BlockRenderer.ShownImage | src/app/components/blog/CustomBlockRenderer.tsx:29-33 | The image is shown iff `block.image` is truthy. |
| BlockRenderer.NoProductsMessage | src/app/components/blog/CustomBlockRenderer.tsx:23-41 | A product block shows "no products" iff it lists no catalogue SKU. Otherwise its grid is the selected products. |
| PostsApi.Param | src/app/api/posts/route.ts:8-11 | An absent or empty parameter reads as the default. |
| PostsApi.GetOutcome | src/app/api/posts/route.ts:5-27 | A bad page gives 400 "Invalid page number", whatever the size. Next, a bad size gives 400 "Invalid page size". The answer is 200 with the page iff both are valid and the database answers. When both are valid and the database fails, the answer is 500 "Internal Server Error". |
| PostsApi.PageDefault | src/app/api/posts/route.ts:8 | An absent or empty page reads as page 1. |
| PostsApi.PageSizeDefault | src/app/api/posts/route.ts:9 | An absent or empty page size reads as 6. |
| PostsApi.GetReadsNumeralPrefix | src/app/api/posts/route.ts:8 | `parseInt` reads a leading numeral of the page and ignores a non-digit tail (`3x` is page 3). |
| PostsApi.GetReadsPageSizePrefix | src/app/api/posts/route.ts:9 | The page size is read the same way (`10abc` is a page size of 10). |
| PostsApi.PostOutcome | src/app/api/posts/route.ts:29-50 | A missing title, author or content gives 400 without creating anything. The answer is 201 with the created post iff creating succeeds. When the fields are given and creating fails, the answer is 500 "Internal Server Error". A body that is not JSON, or is JSON `null`, gets 500 whatever the database would do. |
| CreatePost.ImageUrlMatches | src/app/create/page.tsx:24 | The cover-image check accepts a URL iff it is `http://` or `https://`, then at least one character that is not a line terminator, then one of the five lower-case image extensions. |
| CreatePost.ImageUrlAccepted | src/app/create/page.tsx:24 | `https://a.jpg` is accepted. |
| CreatePost.ImageUrlCaseSensitive | src/app/create/page.tsx:24 | `https://a.JPG` is rejected: the extensions are case-sensitive. |
| CreatePost.ImageUrlNeedsMiddle | src/app/create/page.tsx:24 | `https://.jpg` is rejected: at least one character must lie between scheme and extension. |
| CreatePost.FormErrorsExact | src/app/create/page.tsx:19-28 | Each of title, author and content has an error iff it is empty. The cover image has one iff it is non-empty and does not match the pattern. Each error carries its message, and there are no other keys. |
| CreatePost.FormValid | src/app/create/page.tsx:19-28 | The form is valid iff title, author and content are non-empty and the cover image is empty or matches. |
| CreatePost.DefaultSnippet | src/app/create/page.tsx:45 | The default snippet is the first `min(200, length)` characters of the content, then `...`. |
| CreatePost.DefaultSnippetCases | src/app/create/page.tsx:45 | A short content is kept whole; a long one is cut at 200. |
| CreatePost.SubmittedBody | src/app/create/page.tsx:40-46 | The title, author and content are sent as typed. An empty cover image is left out of the body, and a non-empty one is sent as typed. The snippet is the user's snippet, or else the default one, and is never empty. |
| CreatePost.SubmittedBodyAccepted | src/app/create/page.tsx:40-46 | A body sent after a valid form passes the endpoint's field check: it gets 201 iff creating succeeds. |
| CreatePost.CreatePostForm.constructor | src/app/create/page.tsx:11-17 | All fields start empty, with no errors. |
| CreatePost.CreatePostForm.Validate | src/app/create/page.tsx:19-29 | The stored errors are exactly `FormErrors` of the fields. The result is true iff there are none. |
| CreatePost.CreatePostForm.HandleSubmit | src/app/create/page.tsx:31-46 | Nothing is sent iff validation fails. Otherwise the request is `SubmittedBody` of the fields. |
| CommentSection.CommentErrorsExact | src/app/components/blog/CommentSection.tsx:39-49 | The name has an error iff it is white space only, and likewise the comment. Each error carries its message, there are no other keys, and the form is valid iff both hold some other character. |
| CommentSection.CommentSection.constructor | src/app/components/blog/CommentSection.tsx:12-17 | No comments, an empty form and no errors. |
| CommentSection.CommentSection.ValidateForm | src/app/components/blog/CommentSection.tsx:39-49 | The stored errors are `CommentErrors` of the inputs. The result is true iff there are none. |
| CommentSection.CommentSection.SubmitComment | src/app/components/blog/CommentSection.tsx:51-65 | Nothing is sent iff either input is blank. Otherwise the request carries the post id and the inputs as typed, untrimmed. |
| CommentSection.CommentSection.CommentAdded | src/app/components/blog/CommentSection.tsx:73-77 | The new comment is appended at the end, and the form is cleared. |
| Home.MergeSpec | src/app/page.tsx:49-60 | The first page of a search replaces the list. Otherwise the old list stays in front. What follows is exactly the batch's posts whose id is not yet shown, in batch order, each as often as the batch holds it. |
| Home.SearchBatchReplaces | src/app/page.tsx:51-54 | After a search (the trigger is positive), the batch for page 1 replaces the shown list, whatever that list held. |
| Home.MergeKeepsBatchRepeats | src/app/page.tsx:55-59 | Ids are only checked against the old list: a batch of unseen posts is appended whole, repeats included. |
| Home.MergeSkipsShown | src/app/page.tsx:55-59 | A batch of already-shown posts adds nothing. |
| Home.QueryEntries | src/app/page.tsx:31-39 | The query holds the page, a page size of 6, and each search field trimmed, when that leaves something. |
| Home.QueryReadBack | src/app/page.tsx:31-39 | The endpoint reads back the page, the size 6 and the trimmed search fields. |
| Home.QueryAccepted | src/app/page.tsx:31-41 | The page's query is never rejected with 400. It gets 200 iff the database answers for that page, size 6 and the trimmed fields. |
| Home.HomePage.constructor | src/app/page.tsx:12-21 | The initial state is page 1, an empty list, more to load, first load pending, and no search. |
| Home.HomePage.StartFetch | src/app/page.tsx:26-41 | Loading is switched on. The request captures the page, the search count, the first-load flag and the query. Nothing else changes. |
| Home.HomePage.FetchSucceeded | src/app/page.tsx:49-74 | The list becomes `MergePosts` for the request. `hasMore` is true iff posts lie beyond the request's page. Loading and first load are off. The "no posts" notice is due iff a first load found nothing. |
| Home.HomePage.FetchFailed | src/app/page.tsx:67-74 | The list stays as it was, there is nothing more to load, and loading is off. |
| Home.HomePage.LoadMore | src/app/page.tsx:80-84 | The page advances by one iff nothing is loading and there is more. Otherwise nothing changes. |
| Home.HomePage.Search | src/app/page.tsx:86-92 | The page goes back to 1 with an empty list, and the search count goes up. |
| Home.HomePage.ClearSearch | src/app/page.tsx:94-104 | Same as a search, with the fields emptied and the first-load flag set again. |

## Left out

- Database access (`src/lib/db.ts`, the Mongoose queries in `src/lib/data.ts`) is left out. The posts endpoint takes the database as a function parameter, and an exception is `None`.
- The regular-expression keyword and author filters of `getPosts`, and the total count, are left out. The endpoint passes them to the database parameter unchanged.
- Id, date and slug generation inside `createPost` is left out, because the endpoint's `create` parameter returns the stored post.
- The comments endpoint (`src/app/api/comments/route.ts`) and the single-post endpoint (`src/app/api/posts/[id]/route.ts`) are not part of this model.
- The edit page (`src/app/edit/[id]/page.tsx`), `src/app/posts/page.tsx` and the presentational components are not part of this model. That includes the header, footer, post card, rich-text editor and theme context.
- The network round trips, toasts and router pushes of the create page and the comment section are left out, and so are the create page's `loading` flag and the comment section's `submitting` flag. A submit is modelled up to the request it sends. A comment the server returns is appended by `CommentAdded`. A failed comment post changes nothing apart from a toast.
- `useEffect` scheduling on the home page is left out. A fetch is `StartFetch` followed by `FetchSucceeded` or `FetchFailed`, with the request captured at the start, as the effect's closure captures it. Interleaving of overlapping fetches is not modelled.
- JsText.ToLower: maps only `A`-`Z`. JavaScript's `toLowerCase` also lowers non-ASCII letters, so slugs of titles with such letters are not modelled exactly.
- CreatePost.DefaultSnippet / DefaultSnippetCases: the cut at 200 counts characters (Unicode scalar values), while `substring(0, 200)` counts UTF-16 code units. So content with characters outside the Basic Multilingual Plane is cut later in the model than on the page, and the lone surrogate the page can leave at an odd cut cannot be represented.
- PostsApi.PageParam / PageSizeParam, PostData.Skip, Home.HomePage.FetchSucceeded: numbers are unbounded integers. `parseInt` yields a double, so a numeral above 2^53 is rounded and one of more than about 309 digits reads as `Infinity`, which passes the `page < 1` check and reaches the database. The products `page * pageSize`, `(page - 1) * pageSize` and `page * 6 < totalCount` are likewise not rounded.
- A `POST` body whose fields are JSON values other than strings is not modelled. Each field is either a string or absent. A body that is not JSON, or is JSON `null`, is modelled as `None` and gets 500. Any other JSON value (a number, an array) is read as an object without the fields, so it gets 400.
- BlockParser.Attributes: the attributes are a map, so the insertion order of the `attrs` object and of the `{name, ...attrs}` spread is not kept. Nothing in the blog reads that order.
- PostView.RenderedPost: stated only for content that does not already hold `__BLOCK_PLACEHOLDER_`. When it does, the split picks up that text as well. The functions still model that case; only the lemma leaves it out.
- The markup, class names and images of the rendered views are left out. A view records which elements are shown and with what data.
