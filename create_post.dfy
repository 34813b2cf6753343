/**
 * The form of the "create post" page (src/app/create/page.tsx): `validate`
 * collects one message per failed check into the `errors` dictionary, and a
 * submit that passes validation sends the post to the posts endpoint, with an
 * empty cover image left out and an empty snippet replaced by the start of
 * the content.
 */
module CreatePost {
  import opened Wrappers
  import opened JsText
  import opened Types
  import PostsApi

  /** The two schemes `https?:\/\/` admits. */
  const Schemes: seq<string> := ["http://", "https://"]

  /** `\.(jpg|jpeg|png|gif|webp)`: the dot with each alternative. */
  const Extensions: seq<string> := [".jpg", ".jpeg", ".png", ".gif", ".webp"]

  /**
   * `s` splits into a scheme, at least one character that is not a line
   * terminator (what `.+` admits), and a dot with an extension, with nothing
   * before or after: one way for `^https?:\/\/.+\.(jpg|jpeg|png|gif|webp)$`
   * to match.
   */
  predicate ImageUrlParts(s: string, scheme: string, middle: string, ext: string) {
    && scheme in Schemes
    && ext in Extensions
    && |middle| >= 1
    && NoLineTerminator(middle)
    && s == scheme + middle + ext
  }

  /** The regular expression of the cover-image check matches `s`. */
  ghost predicate MatchesImagePattern(s: string) {
    exists scheme, middle, ext :: ImageUrlParts(s, scheme, middle, ext)
  }

  /** `s` begins with `p`, compared character by character. */
  predicate HasPrefix(s: string, p: string) {
    |p| <= |s| && forall i :: 0 <= i < |p| ==> s[i] == p[i]
  }

  /** `s` ends with `p`, compared character by character. */
  predicate HasSuffix(s: string, p: string) {
    |p| <= |s| && forall i :: 0 <= i < |p| ==> s[|s| - |p| + i] == p[i]
  }

  /** The length of the scheme `s` starts with, 0 when it starts with neither. */
  function SchemeLength(s: string): nat {
    if HasPrefix(s, "https://") then 8
    else if HasPrefix(s, "http://") then 7
    else 0
  }

  /** The length of the dot and extension `s` ends with, 0 when it ends with none. */
  function ExtensionLength(s: string): nat {
    if HasSuffix(s, ".jpg") then 4
    else if HasSuffix(s, ".jpeg") then 5
    else if HasSuffix(s, ".png") then 4
    else if HasSuffix(s, ".gif") then 4
    else if HasSuffix(s, ".webp") then 5
    else 0
  }

  /** The cover-image check: the pattern read from both ends, the middle scanned for line terminators. */
  predicate IsImageUrl(s: string) {
    var k := SchemeLength(s);
    var e := ExtensionLength(s);
    k > 0 && e > 0 && k + 1 + e <= |s| && NoLineTerminator(s[k..|s| - e])
  }

  lemma PrefixSlice(s: string, p: string)
    requires HasPrefix(s, p)
    ensures s[..|p|] == p
  {
    assert forall i :: 0 <= i < |p| ==> s[..|p|][i] == s[i];
  }

  lemma SuffixSlice(s: string, p: string)
    requires HasSuffix(s, p)
    ensures s[|s| - |p|..] == p
  {
    var t := s[|s| - |p|..];
    assert forall i :: 0 <= i < |p| ==> t[i] == p[i];
  }

  lemma AppendEnds(a: string, b: string)
    ensures HasPrefix(a + b, a) && HasSuffix(a + b, b)
  {
  }

  lemma NotSuffix(s: string, p: string)
    requires 1 <= |p| <= |s| && s[|s| - 1] != p[|p| - 1]
    ensures !HasSuffix(s, p)
  {
  }

  /** A string that starts with one of the schemes is read as starting with that one. */
  lemma SchemeOf(s: string, scheme: string)
    requires scheme in Schemes && HasPrefix(s, scheme)
    ensures SchemeLength(s) == |scheme|
  {
    if scheme == "http://" {
      assert s[4] == ':';
    }
  }

  /** The scheme `SchemeLength` reports is one of the two, and `s` starts with it. */
  lemma SchemeFound(s: string)
    requires SchemeLength(s) > 0
    ensures s[..SchemeLength(s)] in Schemes
  {
    if HasPrefix(s, "https://") {
      PrefixSlice(s, "https://");
    } else {
      PrefixSlice(s, "http://");
    }
  }

  /** A string that ends with one of the extensions is read as ending with that one. */
  lemma ExtensionOf(s: string, ext: string)
    requires ext in Extensions && HasSuffix(s, ext)
    ensures ExtensionLength(s) == |ext|
  {
    var n := |s|;
    if ext == ".jpeg" {
      assert s[n - 4] == ext[1] == 'j';
      assert !HasSuffix(s, ".jpg") by { assert ".jpg"[0] == '.'; }
    } else if ext == ".png" {
      assert s[n - 2] == ext[2] == 'n';
      assert !HasSuffix(s, ".jpg") by { assert ".jpg"[2] == 'p'; }
      assert !HasSuffix(s, ".jpeg") by {
        if n >= 5 {
          assert ".jpeg"[3] == 'e';
        }
      }
    } else if ext == ".gif" {
      assert s[n - 1] == ext[3] == 'f';
      assert !HasSuffix(s, ".jpg") by { assert ".jpg"[3] == 'g'; }
      assert !HasSuffix(s, ".jpeg") by {
        if n >= 5 {
          assert ".jpeg"[4] == 'g';
        }
      }
      assert !HasSuffix(s, ".png") by { assert ".png"[3] == 'g'; }
    } else if ext == ".webp" {
      assert s[n - 1] == ext[4] == 'p';
      assert !HasSuffix(s, ".jpg") by { assert ".jpg"[3] == 'g'; }
      assert !HasSuffix(s, ".jpeg") by { assert ".jpeg"[4] == 'g'; }
      assert !HasSuffix(s, ".png") by { assert ".png"[3] == 'g'; }
      assert !HasSuffix(s, ".gif") by { assert ".gif"[3] == 'f'; }
    }
  }

  /** The extension `ExtensionLength` reports is one of the five, and `s` ends with it. */
  lemma ExtensionFound(s: string)
    requires ExtensionLength(s) > 0
    ensures s[|s| - ExtensionLength(s)..] in Extensions
  {
    if HasSuffix(s, ".jpg") {
      SuffixSlice(s, ".jpg");
    } else if HasSuffix(s, ".jpeg") {
      SuffixSlice(s, ".jpeg");
    } else if HasSuffix(s, ".png") {
      SuffixSlice(s, ".png");
    } else if HasSuffix(s, ".gif") {
      SuffixSlice(s, ".gif");
    } else {
      SuffixSlice(s, ".webp");
    }
  }

  /** What the scanner accepts, the regular expression matches. */
  lemma ScannedMatches(s: string)
    requires IsImageUrl(s)
    ensures MatchesImagePattern(s)
  {
    var k := SchemeLength(s);
    var e := ExtensionLength(s);
    SchemeFound(s);
    ExtensionFound(s);
    var scheme, middle, ext := s[..k], s[k..|s| - e], s[|s| - e..];
    assert s == scheme + middle + ext;
    assert ImageUrlParts(s, scheme, middle, ext);
  }

  lemma MiddleSlice(scheme: string, middle: string, ext: string)
    ensures (scheme + middle + ext)[|scheme|..|scheme| + |middle|] == middle
  {
  }

  /** What the regular expression matches, the scanner accepts. */
  lemma MatchScanned(s: string, scheme: string, middle: string, ext: string)
    requires ImageUrlParts(s, scheme, middle, ext)
    ensures IsImageUrl(s)
  {
    var rest := middle + ext;
    assert s == scheme + rest;
    AppendEnds(scheme, rest);
    SchemeOf(s, scheme);
    AppendEnds(scheme + middle, ext);
    ExtensionOf(s, ext);
    MiddleSlice(scheme, middle, ext);
    assert |s| - |ext| == |scheme| + |middle|;
  }

  /** The scanner and the regular expression accept the same strings. */
  lemma ImageUrlMatches(s: string)
    ensures IsImageUrl(s) <==> MatchesImagePattern(s)
  {
    if IsImageUrl(s) {
      ScannedMatches(s);
    }
    if MatchesImagePattern(s) {
      var scheme, middle, ext :| ImageUrlParts(s, scheme, middle, ext);
      MatchScanned(s, scheme, middle, ext);
    }
  }

  /** A lower-case extension after a one-character host is accepted. */
  lemma ImageUrlAccepted()
    ensures IsImageUrl("https://a.jpg")
  {
    var scheme, middle, ext := "https://", "a", ".jpg";
    assert scheme + middle + ext == "https://a.jpg";
    assert ImageUrlParts(scheme + middle + ext, scheme, middle, ext);
    MatchScanned(scheme + middle + ext, scheme, middle, ext);
  }

  /** The extensions are compared case-sensitively. */
  lemma ImageUrlCaseSensitive()
    ensures !IsImageUrl("https://a.JPG")
  {
    var upper := "https://a.JPG";
    NotSuffix(upper, ".jpg");
    NotSuffix(upper, ".jpeg");
    NotSuffix(upper, ".png");
    NotSuffix(upper, ".gif");
    NotSuffix(upper, ".webp");
  }

  /** At least one character must lie between the scheme and the extension. */
  lemma ImageUrlNeedsMiddle()
    ensures !IsImageUrl("https://.jpg")
  {
    var s := "https://.jpg";
    assert |s| == 12;
  }

  /** `Object.keys(m).length === 0` holds of the empty dictionary only. */
  lemma NoKeysIsEmpty(m: map<string, string>)
    ensures |m| == 0 <==> m == map[]
  {
    if |m| == 0 {
      assert m.Keys == {};
    }
  }

  /** The fields of the form, as the inputs hold them. */
  datatype PostFields = PostFields(title: string, author: string, coverImage: string, content: string, shortSnippet: string)

  const TitleMessage := "Title is required."
  const AuthorMessage := "Author name is required."
  const ContentMessage := "Blog body is required."
  const CoverImageMessage := "Invalid image URL."

  /** The message `validate` stores under each key. */
  const Messages: map<string, string> := map[
    "title" := TitleMessage,
    "author" := AuthorMessage,
    "content" := ContentMessage,
    "coverImage" := CoverImageMessage
  ]

  /** The errors `validate` reports, gathered check by check. */
  function FormErrors(f: PostFields): map<string, string> {
    var e1: map<string, string> := if f.title == "" then map["title" := TitleMessage] else map[];
    var e2 := if f.author == "" then e1["author" := AuthorMessage] else e1;
    var e3 := if f.content == "" then e2["content" := ContentMessage] else e2;
    if f.coverImage != "" && !IsImageUrl(f.coverImage) then e3["coverImage" := CoverImageMessage] else e3
  }

  /**
   * Each required field gets its own error exactly when it is empty (a field
   * of spaces passes: nothing is trimmed), and the cover image gets one
   * exactly when it is neither empty nor a match of the pattern; each error
   * carries its own message and there are no others.
   */
  lemma FormErrorsExact(f: PostFields)
    ensures "title" in FormErrors(f) <==> f.title == ""
    ensures "author" in FormErrors(f) <==> f.author == ""
    ensures "content" in FormErrors(f) <==> f.content == ""
    ensures "coverImage" in FormErrors(f) <==> f.coverImage != "" && !MatchesImagePattern(f.coverImage)
    ensures forall k :: k in FormErrors(f) ==> k in Messages && FormErrors(f)[k] == Messages[k]
  {
    ImageUrlMatches(f.coverImage);
  }

  /** The form is valid exactly when the required fields are non-empty and the cover image is empty or an image URL. */
  lemma FormValid(f: PostFields)
    ensures FormErrors(f) == map[] <==>
              f.title != "" && f.author != "" && f.content != ""
              && (f.coverImage == "" || MatchesImagePattern(f.coverImage))
  {
    FormErrorsExact(f);
    if FormErrors(f) != map[] {
      var k :| k in FormErrors(f);
    }
  }

  /** `content.substring(0, 200) + '...'`. */
  function DefaultSnippet(content: string): (r: string)
    ensures |r| == (if |content| < 200 then |content| else 200) + 3
    ensures r[..|r| - 3] == content[..|r| - 3] && r[|r| - 3..] == "..."
  {
    (if |content| < 200 then content else content[..200]) + "..."
  }

  /** A short content is kept whole in the default snippet; a long one is cut to its first 200 characters. */
  lemma DefaultSnippetCases(content: string)
    ensures |content| <= 200 ==> DefaultSnippet(content) == content + "..."
    ensures |content| > 200 ==> DefaultSnippet(content) == content[..200] + "..."
  {
    var r := DefaultSnippet(content);
    assert r == r[..|r| - 3] + r[|r| - 3..];
    if |content| <= 200 {
      assert content[..|r| - 3] == content;
    }
  }

  /** The body `handleSubmit` posts: `coverImage || undefined` and `shortSnippet || DefaultSnippet(content)`. */
  function SubmittedBody(f: PostFields): (body: PostsApi.PostBody)
    ensures body.title == Some(f.title) && body.author == Some(f.author) && body.content == Some(f.content)
    ensures body.coverImage.Some? ==> body.coverImage.value == f.coverImage
    ensures body.coverImage.None? <==> f.coverImage == ""
    ensures body.shortSnippet.Some? && body.shortSnippet.value != ""
    ensures f.shortSnippet != "" ==> body.shortSnippet.value == f.shortSnippet
    ensures f.shortSnippet == "" ==> body.shortSnippet.value == DefaultSnippet(f.content)
  {
    PostsApi.PostBody(
      Some(f.title),
      Some(f.author),
      if f.coverImage == "" then None else Some(f.coverImage),
      Some(f.content),
      Some(if f.shortSnippet == "" then DefaultSnippet(f.content) else f.shortSnippet))
  }

  /** A body sent after a valid form passes the endpoint's required-field check: it gets 201 exactly when creating succeeds. */
  lemma SubmittedBodyAccepted(f: PostFields, create: PostsApi.NewPost -> Option<BlogPost>)
    requires FormErrors(f) == map[]
    ensures PostsApi.Post(Some(SubmittedBody(f)), create).status == 201 <==>
              create(PostsApi.NewPost(f.title, f.author, SubmittedBody(f).coverImage, f.content, SubmittedBody(f).shortSnippet)).Some?
  {
    FormValid(f);
    PostsApi.PostOutcome(SubmittedBody(f), create, create);
  }

  /** The page's form state. */
  class CreatePostForm {
    var title: string
    var author: string
    var coverImage: string
    var content: string
    var shortSnippet: string
    var errors: map<string, string>

    function Fields(): PostFields
      reads this
    {
      PostFields(title, author, coverImage, content, shortSnippet)
    }

    constructor()
      ensures Fields() == PostFields("", "", "", "", "") && errors == map[]
    {
      title, author, coverImage, content, shortSnippet := "", "", "", "", "";
      errors := map[];
    }

    /** `validate`: builds the errors check by check, stores them, and reports whether there were none. */
    method Validate() returns (ok: bool)
      modifies this
      ensures Fields() == old(Fields())
      ensures errors == FormErrors(Fields())
      ensures ok <==> errors == map[]
    {
      var newErrors: map<string, string> := map[];
      if title == "" {
        newErrors := newErrors["title" := TitleMessage];
      }
      if author == "" {
        newErrors := newErrors["author" := AuthorMessage];
      }
      if content == "" {
        newErrors := newErrors["content" := ContentMessage];
      }
      if coverImage != "" && !IsImageUrl(coverImage) {
        newErrors := newErrors["coverImage" := CoverImageMessage];
      }
      errors := newErrors;
      ok := |newErrors| == 0;
      NoKeysIsEmpty(newErrors);
    }

    /**
     * `handleSubmit`: validates, and sends nothing when that fails; otherwise
     * the request body is built from the fields as they stand.
     */
    method HandleSubmit() returns (request: Option<PostsApi.PostBody>)
      modifies this
      ensures Fields() == old(Fields())
      ensures errors == FormErrors(Fields())
      ensures request.None? <==> errors != map[]
      ensures request.Some? ==> request.value == SubmittedBody(Fields())
    {
      var ok := Validate();
      if !ok {
        return None;
      }
      request := Some(PostsApi.PostBody(
        Some(title),
        Some(author),
        if coverImage == "" then None else Some(coverImage),
        Some(content),
        Some(if shortSnippet == "" then DefaultSnippet(content) else shortSnippet)));
    }
  }
}
