/**
 * The post page (src/app/posts/[slug]/page.tsx): the parsed body is split
 * with the capturing pattern `/(__BLOCK_PLACEHOLDER_\d+__)/g`, and each part
 * is rendered as HTML, or, when it starts with the placeholder prefix, as the
 * block whose index it spells.
 */
module PostView {
  import opened Wrappers
  import opened JsText
  import opened Seqs
  import opened Types
  import opened BlockParser

  // ---------------------------------------------------------------------------
  // Splitting at the placeholders

  /** `__BLOCK_PLACEHOLDER_` starts at position `q` of `t`. */
  predicate PrefixAt(t: string, q: nat) {
    q + |PlaceholderPrefix| <= |t| && forall j :: 0 <= j < |PlaceholderPrefix| ==> t[q + j] == PlaceholderPrefix[j]
  }

  /** `__BLOCK_PLACEHOLDER_` occurs nowhere in `s`. */
  predicate NoPrefixIn(s: string) {
    forall q :: 0 <= q <= |s| ==> !PrefixAt(s, q)
  }

  /**
   * `/__BLOCK_PLACEHOLDER_\d+__/` tried at position `q`: where the match
   * ends, if there is one. The greedy `\d+` never has to give a digit back,
   * since a digit cannot match the `_` after it.
   */
  function PlaceholderMatchAt(t: string, q: nat): (r: Option<nat>)
    requires q <= |t|
    ensures r.Some? ==> q < r.value <= |t|
  {
    if !PrefixAt(t, q) then None
    else
      var d := RunEnd(t, q + |PlaceholderPrefix|, |t|, IsDigit);
      if d == q + |PlaceholderPrefix| || d + 2 > |t| || t[d] != '_' || t[d + 1] != '_' then None
      else Some(d + 2)
  }

  /**
   * `split` with a capturing pattern, from position `p` of `t`, the search
   * for the next match being at `q`: the text before each match, then the
   * match itself, and after the last match the rest of the text.
   */
  function SplitFrom(t: string, p: nat, q: nat): (parts: seq<string>)
    requires p <= q <= |t|
    ensures |parts| % 2 == 1
    decreases |t| - q
  {
    if q == |t| then [t[p..]]
    else match PlaceholderMatchAt(t, q)
      case Some(e) => [t[p..q], t[q..e]] + SplitFrom(t, e, e)
      case None => SplitFrom(t, p, q + 1)
  }

  /** `text.split(/(__BLOCK_PLACEHOLDER_\d+__)/g)`. */
  function SplitContent(text: string): seq<string> {
    SplitFrom(text, 0, 0)
  }

  /** The search moves past positions where the pattern does not match. */
  lemma {:induction false} SplitSkip(t: string, p: nat, q: nat, a: nat)
    requires p <= q <= a <= |t|
    requires forall k :: q <= k < a ==> PlaceholderMatchAt(t, k).None?
    ensures SplitFrom(t, p, q) == SplitFrom(t, p, a)
    decreases a - q
  {
    if q < a {
      var m := PlaceholderMatchAt(t, q);
      assert m.None?;
      assert SplitFrom(t, p, q) == SplitFrom(t, p, q + 1);
      SplitSkip(t, p, q + 1, a);
    }
  }

  /** In the prefix, `_` is never followed by `_` after the first position. */
  lemma PrefixUnderscores()
    ensures forall j :: 1 <= j < |PlaceholderPrefix| - 1 ==> PlaceholderPrefix[j] != '_' || PlaceholderPrefix[j + 1] != '_'
  {
  }

  /**
   * The pattern matches nowhere inside a piece of text free of the prefix,
   * when the piece is followed by the end of the text or by `__`: a match
   * would have to start inside the piece and run over its end, and the
   * prefix cannot continue with `__`.
   */
  lemma NoMatchInPiece(t: string, p: nat, a: nat, f: string)
    requires p <= a <= |t| && t[p..a] == f && NoPrefixIn(f)
    requires a == |t| || (a + 2 <= |t| && t[a] == '_' && t[a + 1] == '_')
    ensures forall q :: p <= q < a ==> PlaceholderMatchAt(t, q).None?
  {
    forall q | p <= q < a
      ensures PlaceholderMatchAt(t, q).None?
    {
      if q + |PlaceholderPrefix| <= a {
        PrefixInPiece(t, p, a, f, q);
      } else if a < |t| {
        StraddleNoMatch(t, a, q);
      }
    }
  }

  /** Where the prefix starts inside a piece, the piece holds it. */
  lemma PrefixInPiece(t: string, p: nat, a: nat, f: string, q: nat)
    requires p <= q && q + |PlaceholderPrefix| <= a <= |t| && t[p..a] == f
    ensures PrefixAt(t, q) ==> PrefixAt(f, q - p)
  {
    if PrefixAt(t, q) {
      forall j | 0 <= j < |PlaceholderPrefix|
        ensures f[q - p + j] == PlaceholderPrefix[j]
      {
        assert f[q - p + j] == t[q + j];
      }
    }
  }

  /** Where the prefix starts at `q`, position `q + j` holds its `j`-th character. */
  lemma PrefixChar(t: string, q: nat, j: nat)
    requires j < |PlaceholderPrefix|
    ensures PrefixAt(t, q) ==> t[q + j] == PlaceholderPrefix[j]
  {
  }

  /** A match starting just before a `__` would need `__` inside the prefix. */
  lemma StraddleNoMatch(t: string, a: nat, q: nat)
    requires q < a < q + |PlaceholderPrefix| && a + 2 <= |t| && t[a] == '_' && t[a + 1] == '_'
    ensures PlaceholderMatchAt(t, q).None?
  {
    if a + 1 < q + |PlaceholderPrefix| {
      PrefixUnderscores();
      PrefixChar(t, q, a - q);
      PrefixChar(t, q, a - q + 1);
      assert !PrefixAt(t, q);
    } else {
      assert !IsDigit(t[q + |PlaceholderPrefix|]);
    }
  }

  /** The pattern matches a placeholder exactly. */
  lemma MatchPlaceholder(t: string, a: nat, k: nat)
    requires a + |Placeholder(k)| <= |t| && t[a..a + |Placeholder(k)|] == Placeholder(k)
    ensures PlaceholderMatchAt(t, a) == Some(a + |Placeholder(k)|)
  {
    var ph := Placeholder(k);
    var n := |PlaceholderPrefix|;
    var m := |Decimal(k)|;
    PlaceholderChars(k);
    assert forall j :: 0 <= j < |ph| ==> t[a + j] == ph[j];
    assert PrefixAt(t, a);
    RunEndAt(t, a + n, a + n + m, |t|, IsDigit);
  }

  /** A placeholder is the prefix, digits, then `__`. */
  lemma PlaceholderChars(k: nat)
    ensures var ph := Placeholder(k);
            var n := |PlaceholderPrefix|;
            var m := |Decimal(k)|;
            && |ph| == n + m + 2
            && (forall j :: 0 <= j < n ==> ph[j] == PlaceholderPrefix[j])
            && (forall j :: n <= j < n + m ==> IsDigit(ph[j]))
            && ph[n + m] == '_' && ph[n + m + 1] == '_'
  {
    var d := Decimal(k);
    assert forall j :: 0 <= j < |d| ==> Placeholder(k)[|PlaceholderPrefix| + j] == d[j];
  }

  /** A text that reads `f + (d + r)` from `p` on reads `f`, then `d`, then `r`. */
  lemma ThreePieces(t: string, p: nat, f: string, d: string, r: string)
    requires p <= |t| && t[p..] == f + (d + r)
    ensures p + |f| + |d| <= |t|
    ensures t[p..p + |f|] == f && t[p + |f|..p + |f| + |d|] == d && t[p + |f| + |d|..] == r
  {
    assert t[p..p + |f|] == t[p..][..|f|];
    assert t[p + |f|..p + |f| + |d|] == t[p..][|f|..|f| + |d|];
    assert t[p + |f| + |d|..] == t[p..][|f| + |d|..];
  }

  /** Where the pattern matches, the text before it and the match are the next two parts. */
  lemma SplitAtMatch(t: string, p: nat, a: nat, e: nat)
    requires p <= a < |t| && PlaceholderMatchAt(t, a) == Some(e)
    ensures SplitFrom(t, p, a) == [t[p..a], t[a..e]] + SplitFrom(t, e, e)
  {
  }

  /**
   * Splitting a text made of fragments free of the prefix, with the
   * placeholders numbered from `k` between them, gives back the fragments
   * and the placeholders, interleaved.
   */
  lemma {:induction false} SplitWoven(t: string, p: nat, fs: seq<string>, k: nat)
    requires p <= |t| && |fs| >= 1
    requires t[p..] == Concat(Weave(fs, Placeholders(k, |fs| - 1)))
    requires forall j :: 0 <= j < |fs| ==> NoPrefixIn(fs[j])
    ensures SplitFrom(t, p, p) == Weave(fs, Placeholders(k, |fs| - 1))
    decreases |fs|
  {
    if |fs| == 1 {
      SplitLast(t, p, fs[0]);
    } else {
      var f := fs[0];
      var ph := Placeholder(k);
      var rest := fs[1..];
      var phs := Placeholders(k + 1, |rest| - 1);
      var e := SplitFirst(t, p, fs, k);
      SplitWoven(t, e, rest, k + 1);
      WeaveCons(f, ph, rest, phs);
      assert fs == [f] + rest;
    }
  }

  /** The last fragment is the last part. */
  lemma SplitLast(t: string, p: nat, f: string)
    requires p <= |t| && t[p..] == Concat(Weave([f], Placeholders(0, 0))) && NoPrefixIn(f)
    ensures SplitFrom(t, p, p) == Weave([f], Placeholders(0, 0))
  {
    assert Concat([f]) == f + Concat([]);
    assert t[p..|t|] == t[p..];
    NoMatchInPiece(t, p, |t|, f);
    SplitSkip(t, p, p, |t|);
  }

  /** The first fragment and the first placeholder are the first two parts; the rest of the text starts at `e`. */
  lemma SplitFirst(t: string, p: nat, fs: seq<string>, k: nat) returns (e: nat)
    requires p <= |t| && |fs| >= 2
    requires t[p..] == Concat(Weave(fs, Placeholders(k, |fs| - 1)))
    requires NoPrefixIn(fs[0])
    ensures e <= |t|
    ensures SplitFrom(t, p, p) == [fs[0], Placeholder(k)] + SplitFrom(t, e, e)
    ensures t[e..] == Concat(Weave(fs[1..], Placeholders(k + 1, |fs| - 2)))
  {
    var a;
    a, e := FirstPieces(t, p, fs, k);
    SplitAround(t, p, a, e, fs[0], k);
  }

  /** Where the first fragment and the first placeholder lie in the text. */
  lemma FirstPieces(t: string, p: nat, fs: seq<string>, k: nat) returns (a: nat, e: nat)
    requires p <= |t| && |fs| >= 2
    requires t[p..] == Concat(Weave(fs, Placeholders(k, |fs| - 1)))
    ensures p <= a <= e <= |t| && t[p..a] == fs[0] && t[a..e] == Placeholder(k)
    ensures t[e..] == Concat(Weave(fs[1..], Placeholders(k + 1, |fs| - 2)))
  {
    var f := fs[0];
    var ph := Placeholder(k);
    var rest := fs[1..];
    var phs := Placeholders(k + 1, |rest| - 1);
    assert fs == [f] + rest;
    assert Placeholders(k, |fs| - 1) == [ph] + phs;
    WeaveConcatCons(f, ph, rest, phs);
    ThreePieces(t, p, f, ph, Concat(Weave(rest, phs)));
    a := p + |f|;
    e := a + |ph|;
  }

  /** A fragment free of the prefix followed by a placeholder splits off as two parts. */
  lemma SplitAround(t: string, p: nat, a: nat, e: nat, f: string, k: nat)
    requires p <= a <= e <= |t| && t[p..a] == f && t[a..e] == Placeholder(k) && NoPrefixIn(f)
    ensures SplitFrom(t, p, p) == [f, Placeholder(k)] + SplitFrom(t, e, e)
  {
    PlaceholderChars(k);
    assert t[a] == t[a..e][0] && t[a + 1] == t[a..e][1];
    NoMatchInPiece(t, p, a, f);
    SplitSkip(t, p, p, a);
    MatchPlaceholder(t, a, k);
    SplitAtMatch(t, p, a, e);
  }

  /** What does not hold the prefix does not hold it in any slice. */
  lemma NoPrefixInSlice(s: string, a: nat, b: nat)
    requires NoPrefixIn(s) && a <= b <= |s|
    ensures NoPrefixIn(s[a..b]) && NoPrefixIn(s[a..])
  {
    forall q | 0 <= q <= b - a
      ensures !PrefixAt(s[a..b], q)
    {
      PrefixInSlice(s, a, b, q);
    }
    assert s[a..] == s[a..|s|];
    forall q | 0 <= q <= |s| - a
      ensures !PrefixAt(s[a..|s|], q)
    {
      PrefixInSlice(s, a, |s|, q);
    }
  }

  /** The prefix at `q` of a slice is the prefix at `a + q` of the whole. */
  lemma PrefixInSlice(s: string, a: nat, b: nat, q: nat)
    requires a <= b <= |s|
    ensures PrefixAt(s[a..b], q) ==> PrefixAt(s, a + q)
  {
    if PrefixAt(s[a..b], q) {
      forall j | 0 <= j < |PlaceholderPrefix|
        ensures s[a + q + j] == PlaceholderPrefix[j]
      {
        assert s[a..b][q + j] == s[a + q + j];
      }
    }
  }

  /** The fragments between the tags are pieces of the content. */
  lemma {:induction false} LexFragmentsFree(s: string, i: nat)
    requires i <= |s| && NoPrefixIn(s)
    ensures forall j :: 0 <= j < |Lex(s, i).fragments| ==> NoPrefixIn(Lex(s, i).fragments[j])
    decreases |s| - i
  {
    match FindTag(s, i)
    case None =>
      NoPrefixInSlice(s, i, |s|);
    case Some(t) =>
      LexStep(s, i);
      NoPrefixInSlice(s, i, t.start);
      LexFragmentsFree(s, TagEnd(t));
      AllCons(s[i..t.start], Lex(s, TagEnd(t)).fragments, NoPrefixIn);
  }

  /**
   * When the content never holds `__BLOCK_PLACEHOLDER_`, splitting the
   * parsed text gives back the text between the tags, with the placeholders
   * numbered 0, 1, ... in order between them.
   */
  lemma ParseThenSplit(content: string)
    requires NoPrefixIn(content) && Parse(content).Success?
    ensures var l := Lex(content, 0);
            SplitContent(Parse(content).value.text) == Weave(l.fragments, Placeholders(0, |l.tags|))
  {
    var l := Lex(content, 0);
    var text := Parse(content).value.text;
    assert text[0..] == text;
    LexFragmentsFree(content, 0);
    SplitWoven(text, 0, l.fragments, 0);
  }

  // ---------------------------------------------------------------------------
  // Rendering the parts

  /** What the page shows for one part: raw HTML, a block, or nothing. */
  datatype PartView = Html(html: string) | BlockView(block: CustomBlock) | Nothing

  /**
   * A part that starts with the prefix has the prefix and then the first
   * `__` removed, is read with `parseInt`, and shows the block of that index
   * when there is one. Any other part is shown as HTML.
   */
  function RenderPart(part: string, blocks: seq<CustomBlock>): PartView {
    if StartsWith(part, PlaceholderPrefix) then
      var index := ParseInt(RemoveFirst(RemoveFirst(part, PlaceholderPrefix), "__"), false);
      if index.Some? && 0 <= index.value < |blocks| then BlockView(blocks[index.value]) else Nothing
    else Html(part)
  }

  /** `parts.map(...)`: every part rendered, in order. */
  function RenderParts(parts: seq<string>, blocks: seq<CustomBlock>): (v: seq<PartView>)
    ensures |v| == |parts|
  {
    seq(|parts|, i requires 0 <= i < |parts| => RenderPart(parts[i], blocks))
  }

  /** The parts of the post body, in page order; a parse error makes the page fail. */
  function RenderContent(content: string): Result<seq<PartView>, ParseError> {
    match Parse(content)
    case Failure(e) => Failure(e)
    case Success(r) => Success(RenderParts(SplitContent(r.text), r.blocks))
  }

  /** Placeholder `k` reads back as the index `k`. */
  lemma PlaceholderIndex(k: nat)
    ensures ParseInt(RemoveFirst(RemoveFirst(Placeholder(k), PlaceholderPrefix), "__"), false) == Some(k)
  {
    var d := Decimal(k);
    var ph := Placeholder(k);
    var u := d + "__";
    assert ph == PlaceholderPrefix + u;
    assert ph[0..|PlaceholderPrefix|] == PlaceholderPrefix;
    IndexOfAt(ph, PlaceholderPrefix, 0, 0);
    var r := RemoveFirst(ph, PlaceholderPrefix);
    assert r == (PlaceholderPrefix + r)[|PlaceholderPrefix|..];
    assert r == u;
    forall j | 0 <= j < |d|
      ensures !OccursAt(u, "__", j)
    {
      assert u[j..j + 2][0] == d[j];
    }
    assert u[|d|..|d| + 2] == "__";
    IndexOfAt(u, "__", 0, |d|);
    var r2 := RemoveFirst(u, "__");
    assert r2 == d;
    ParseIntReadsDecimal(k, [], false);
    assert d + [] == d;
  }

  /** A placeholder shows its block. */
  lemma RenderPlaceholder(k: nat, blocks: seq<CustomBlock>)
    requires k < |blocks|
    ensures RenderPart(Placeholder(k), blocks) == BlockView(blocks[k])
  {
    assert Placeholder(k)[..|PlaceholderPrefix|] == PlaceholderPrefix;
    PlaceholderIndex(k);
  }

  /** A piece of text without the prefix is shown as HTML. */
  lemma RenderFragment(f: string, blocks: seq<CustomBlock>)
    requires NoPrefixIn(f)
    ensures RenderPart(f, blocks) == Html(f)
  {
    if StartsWith(f, PlaceholderPrefix) {
      assert forall j :: 0 <= j < |PlaceholderPrefix| ==> f[j] == f[..|PlaceholderPrefix|][j];
      assert PrefixAt(f, 0);
    }
  }

  /**
   * When the content never holds `__BLOCK_PLACEHOLDER_` and parses, the page
   * shows the text between the tags as HTML with block `i` in the place of
   * tag `i`, and nothing else.
   */
  lemma RenderedPost(content: string)
    requires NoPrefixIn(content) && Parse(content).Success?
    ensures var l := Lex(content, 0);
            var blocks := Parse(content).value.blocks;
            var v := RenderContent(content).value;
            && |v| == |l.fragments| + |l.tags| && |blocks| == |l.tags|
            && (forall i :: 0 <= i < |l.fragments| ==> v[2 * i] == Html(l.fragments[i]))
            && (forall i :: 0 <= i < |l.tags| ==> v[2 * i + 1] == BlockView(blocks[i]))
  {
    var l := Lex(content, 0);
    var r := Parse(content).value;
    ParseOutcome(content);
    ParseThenSplit(content);
    LexFragmentsFree(content, 0);
    RenderWoven(l.fragments, r.blocks, SplitContent(r.text));
  }

  /** Rendering the fragments and placeholders, interleaved. */
  lemma RenderWoven(fs: seq<string>, blocks: seq<CustomBlock>, parts: seq<string>)
    requires |fs| == |blocks| + 1 && parts == Weave(fs, Placeholders(0, |blocks|))
    requires forall j :: 0 <= j < |fs| ==> NoPrefixIn(fs[j])
    ensures var v := RenderParts(parts, blocks);
            && |v| == |fs| + |blocks|
            && (forall i :: 0 <= i < |fs| ==> v[2 * i] == Html(fs[i]))
            && (forall i :: 0 <= i < |blocks| ==> v[2 * i + 1] == BlockView(blocks[i]))
  {
    RenderFragments(fs, Placeholders(0, |blocks|), blocks);
    RenderPlaceholders(fs, blocks);
  }

  /** The fragments, at the even positions, are shown as HTML. */
  lemma RenderFragments(fs: seq<string>, ds: seq<string>, blocks: seq<CustomBlock>)
    requires |fs| == |ds| + 1
    requires forall j :: 0 <= j < |fs| ==> NoPrefixIn(fs[j])
    ensures forall i :: 0 <= i < |fs| ==> RenderParts(Weave(fs, ds), blocks)[2 * i] == Html(fs[i])
  {
    forall i | 0 <= i < |fs|
      ensures RenderParts(Weave(fs, ds), blocks)[2 * i] == Html(fs[i])
    {
      RenderFragment(fs[i], blocks);
    }
  }

  /** The placeholders, at the odd positions, are shown as their blocks. */
  lemma RenderPlaceholders(fs: seq<string>, blocks: seq<CustomBlock>)
    requires |fs| == |blocks| + 1
    ensures forall i :: 0 <= i < |blocks| ==> RenderParts(Weave(fs, Placeholders(0, |blocks|)), blocks)[2 * i + 1] == BlockView(blocks[i])
  {
    PlaceholdersShown(blocks);
    RenderSeparators(fs, Placeholders(0, |blocks|), blocks);
  }

  /** Each of the placeholders `0 .. |blocks| - 1` shows its block. */
  lemma PlaceholdersShown(blocks: seq<CustomBlock>)
    ensures forall i :: 0 <= i < |blocks| ==> RenderPart(Placeholders(0, |blocks|)[i], blocks) == BlockView(blocks[i])
  {
    forall i | 0 <= i < |blocks|
      ensures RenderPart(Placeholders(0, |blocks|)[i], blocks) == BlockView(blocks[i])
    {
      RenderPlaceholder(i, blocks);
    }
  }

  /** Separators that each show a block show those blocks at the odd positions. */
  lemma RenderSeparators(fs: seq<string>, ds: seq<string>, blocks: seq<CustomBlock>)
    requires |fs| == |ds| + 1 && |ds| == |blocks|
    requires forall i :: 0 <= i < |ds| ==> RenderPart(ds[i], blocks) == BlockView(blocks[i])
    ensures forall i :: 0 <= i < |ds| ==> RenderParts(Weave(fs, ds), blocks)[2 * i + 1] == BlockView(blocks[i])
  {
  }
}
