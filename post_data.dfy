/**
 * The computations of the data layer (src/lib/data.ts) that do not touch the
 * database: the slug made from a title, the number of posts a page skips, and
 * the payload of an update.
 */
module PostData {
  import opened JsText
  import opened Seqs

  // ---------------------------------------------------------------------------
  // Slugs

  /** `[a-z0-9\s-]`: what `replace(/[^a-z0-9\s-]/g, "")` keeps. */
  predicate IsSlugSource(c: char) { 'a' <= c <= 'z' || IsDigit(c) || IsSpace(c) || c == '-' }

  predicate IsDash(c: char) { c == '-' }

  /** A character a slug may hold. */
  predicate IsSlugChar(c: char) { 'a' <= c <= 'z' || IsDigit(c) || c == '-' }

  /** A lower-case letter or a digit: what survives of a title, besides the dashes. */
  predicate IsLowerAlnum(c: char) { 'a' <= c <= 'z' || IsDigit(c) }

  predicate NotDash(c: char) { c != '-' }

  /**
   * `s.replace(/f+/g, d)`: every maximal run of characters satisfying `f`
   * replaced by the single character `d`.
   */
  function ReplaceRuns(s: string, f: char -> bool, d: char): (r: string)
    ensures |r| <= |s|
    ensures s != [] ==> r != [] && r[0] == (if f(s[0]) then d else s[0])
    decreases |s|
  {
    if s == [] then []
    else if f(s[0]) then [d] + ReplaceRuns(s[SpanLength(s, f)..], f, d)
    else [s[0]] + ReplaceRuns(s[1..], f, d)
  }

  /**
   * `title.toLowerCase().replace(/[^a-z0-9\s-]/g, "").replace(/\s+/g, "-").replace(/-+/g, "-")`.
   */
  function GenerateSlug(title: string): string {
    ReplaceRuns(ReplaceRuns(Filter(ToLower(title), IsSlugSource), IsSpace, '-'), IsDash, '-')
  }

  /** `--` occurs nowhere in `s`. */
  predicate NoDoubleDash(s: string) {
    forall i :: 0 <= i < |s| ==> !OccursAt(s, "--", i)
  }

  /** The characters at `i` and `i + 1` are both taken by `f`. */
  predicate TakenPair(s: string, i: nat, f: char -> bool) {
    i + 1 < |s| && f(s[i]) && f(s[i + 1])
  }

  /** Every character of the result is `d` or a character of `s` that `f` does not take. */
  lemma {:induction false} ReplaceRunsChars(s: string, f: char -> bool, d: char, p: char -> bool)
    requires p(d) && forall i :: 0 <= i < |s| ==> f(s[i]) || p(s[i])
    ensures forall i :: 0 <= i < |ReplaceRuns(s, f, d)| ==> p(ReplaceRuns(s, f, d)[i])
    decreases |s|
  {
    if s != [] {
      var n := if f(s[0]) then SpanLength(s, f) else 1;
      ReplaceRunsChars(s[n..], f, d, p);
      var rest := ReplaceRuns(s[n..], f, d);
      assert ReplaceRuns(s, f, d) == [if f(s[0]) then d else s[0]] + rest;
    }
  }

  /** The last character is `d` when the last character of `s` is taken by `f`, and is kept otherwise. */
  lemma {:induction false} ReplaceRunsLast(s: string, f: char -> bool, d: char)
    requires s != []
    ensures var r := ReplaceRuns(s, f, d);
            r[|r| - 1] == if f(s[|s| - 1]) then d else s[|s| - 1]
    decreases |s|
  {
    var n := if f(s[0]) then SpanLength(s, f) else 1;
    if n < |s| {
      ReplaceRunsLast(s[n..], f, d);
      assert s[n..][|s[n..]| - 1] == s[|s| - 1];
    }
  }

  /** A slug holds only `a`-`z`, `0`-`9` and `-`. */
  lemma SlugChars(title: string)
    ensures forall i :: 0 <= i < |GenerateSlug(title)| ==> IsSlugChar(GenerateSlug(title)[i])
  {
    var kept := Filter(ToLower(title), IsSlugSource);
    ReplaceRunsChars(kept, IsSpace, '-', IsSlugChar);
    ReplaceRunsChars(ReplaceRuns(kept, IsSpace, '-'), IsDash, '-', IsSlugChar);
  }

  /** Collapsing the runs of `f` leaves no two adjacent characters taken by `f`, when `d` itself is taken. */
  lemma {:induction false} ReplaceRunsSeparated(s: string, f: char -> bool, d: char)
    requires f(d)
    ensures forall i: nat :: !TakenPair(ReplaceRuns(s, f, d), i, f)
    decreases |s|
  {
    if s != [] {
      var n := if f(s[0]) then SpanLength(s, f) else 1;
      ReplaceRunsSeparated(s[n..], f, d);
      var rest := ReplaceRuns(s[n..], f, d);
      var r := ReplaceRuns(s, f, d);
      assert r == [if f(s[0]) then d else s[0]] + rest;
      forall i: nat
        ensures !TakenPair(r, i, f)
      {
        if i == 0 {
          assert f(s[0]) && rest != [] ==> !f(rest[0]);
        } else {
          assert TakenPair(r, i, f) == TakenPair(rest, i - 1, f);
        }
      }
    }
  }

  /** A slug never holds two adjacent dashes. */
  lemma SlugNoDoubleDash(title: string)
    ensures NoDoubleDash(GenerateSlug(title))
  {
    var spaced := ReplaceRuns(Filter(ToLower(title), IsSlugSource), IsSpace, '-');
    ReplaceRunsSeparated(spaced, IsDash, '-');
    var slug := ReplaceRuns(spaced, IsDash, '-');
    forall i: nat
      ensures !OccursAt(slug, "--", i)
    {
      if i + 2 <= |slug| {
        assert !TakenPair(slug, i, IsDash);
        assert slug[i..i + 2] == [slug[i], slug[i + 1]];
      }
    }
  }

  /** Nothing of a leading run of `f` passes a `g` that `f` excludes. */
  lemma SpanFilterEmpty(s: string, f: char -> bool, g: char -> bool)
    requires forall c :: f(c) ==> !g(c)
    ensures Filter(s[..SpanLength(s, f)], g) == []
  {
    FilterDropsAll(s[..SpanLength(s, f)], g);
  }

  /**
   * Keeping the characters `g` keeps after collapsing the runs of `f` into a
   * `d` that `g` drops keeps what `g` keeps and `f` does not take.
   */
  lemma {:induction false} ReplaceRunsFilter(s: string, f: char -> bool, d: char, g: char -> bool, h: char -> bool)
    requires !g(d)
    requires forall c :: h(c) == (g(c) && !f(c))
    ensures Filter(ReplaceRuns(s, f, d), g) == Filter(s, h)
    decreases |s|
  {
    if s != [] {
      if f(s[0]) {
        var n := SpanLength(s, f);
        ReplaceRunsFilter(s[n..], f, d, g, h);
        assert ReplaceRuns(s, f, d) == [d] + ReplaceRuns(s[n..], f, d);
        FilterConcat([d], ReplaceRuns(s[n..], f, d), g);
        assert s == s[..n] + s[n..];
        FilterConcat(s[..n], s[n..], h);
        SpanFilterEmpty(s, f, h);
      } else {
        ReplaceRunsFilter(s[1..], f, d, g, h);
        assert ReplaceRuns(s, f, d) == [s[0]] + ReplaceRuns(s[1..], f, d);
        FilterConcat([s[0]], ReplaceRuns(s[1..], f, d), g);
        assert s == [s[0]] + s[1..];
        FilterConcat([s[0]], s[1..], h);
      }
    }
  }

  predicate NotDashNorSpace(c: char) { c != '-' && !IsSpace(c) }

  /**
   * Deleting the dashes from a slug leaves the letters and digits of the
   * lower-cased title, in order.
   */
  lemma SlugLettersDigits(title: string)
    ensures Filter(GenerateSlug(title), NotDash) == Filter(ToLower(title), IsLowerAlnum)
  {
    var lower := ToLower(title);
    var kept := Filter(lower, IsSlugSource);
    var spaced := ReplaceRuns(kept, IsSpace, '-');
    ReplaceRunsFilter(spaced, IsDash, '-', NotDash, NotDash);
    ReplaceRunsFilter(kept, IsSpace, '-', NotDash, NotDashNorSpace);
    FilterTwice(lower, IsSlugSource, NotDashNorSpace, IsLowerAlnum);
  }

  /** Collapsing runs where there are none changes nothing. */
  lemma {:induction false} ReplaceRunsNone(s: string, f: char -> bool, d: char)
    requires forall i :: 0 <= i < |s| ==> !f(s[i])
    ensures ReplaceRuns(s, f, d) == s
    decreases |s|
  {
    if s != [] {
      ReplaceRunsNone(s[1..], f, d);
    }
  }

  /** Collapsing runs that are all single `d`s changes nothing. */
  lemma {:induction false} ReplaceRunsSingles(s: string, f: char -> bool, d: char)
    requires forall i :: 0 <= i < |s| ==> f(s[i]) ==> s[i] == d
    requires forall i: nat :: !TakenPair(s, i, f)
    ensures ReplaceRuns(s, f, d) == s
    decreases |s|
  {
    if s != [] {
      forall i: nat
        ensures !TakenPair(s[1..], i, f)
      {
        assert TakenPair(s[1..], i, f) == TakenPair(s, i + 1, f);
      }
      if f(s[0]) {
        assert SpanLength(s, f) == 1 by {
          assert !TakenPair(s, 0, f);
        }
      }
      ReplaceRunsSingles(s[1..], f, d);
    }
  }

  /** Generating the slug of a slug gives the slug back. */
  lemma SlugIdempotent(title: string)
    ensures GenerateSlug(GenerateSlug(title)) == GenerateSlug(title)
  {
    SlugChars(title);
    SlugNoDoubleDash(title);
    SlugFixedPoint(GenerateSlug(title));
  }

  /** A string of slug characters without `--` is its own slug. */
  lemma SlugFixedPoint(s: string)
    requires forall i :: 0 <= i < |s| ==> IsSlugChar(s[i])
    requires NoDoubleDash(s)
    ensures GenerateSlug(s) == s
  {
    forall i: nat
      ensures !TakenPair(s, i, IsDash)
    {
      if i + 1 < |s| {
        assert !OccursAt(s, "--", i);
        assert s[i..i + 2] == [s[i], s[i + 1]];
      }
    }
    assert ToLower(s) == s;
    FilterKeepsAll(s, IsSlugSource);
    ReplaceRunsNone(s, IsSpace, '-');
    ReplaceRunsSingles(s, IsDash, '-');
  }

  /** Whitespace at the start of the title is not trimmed: the slug starts with a dash. */
  lemma SlugLeadingSpace(title: string)
    requires title != [] && IsSpace(title[0])
    ensures GenerateSlug(title) != [] && GenerateSlug(title)[0] == '-'
  {
    var lower := ToLower(title);
    assert lower[0] == title[0];
    FilterFirst(lower, IsSlugSource);
  }

  /** Whitespace at the end of the title is not trimmed: the slug ends with a dash. */
  lemma SlugTrailingSpace(title: string)
    requires title != [] && IsSpace(title[|title| - 1])
    ensures GenerateSlug(title) != [] && GenerateSlug(title)[|GenerateSlug(title)| - 1] == '-'
  {
    var lower := ToLower(title);
    assert lower[|lower| - 1] == title[|title| - 1];
    var kept := Filter(lower, IsSlugSource);
    FilterLast(lower, IsSlugSource);
    ReplaceRunsLast(kept, IsSpace, '-');
    ReplaceRunsLast(ReplaceRuns(kept, IsSpace, '-'), IsDash, '-');
  }

  // ---------------------------------------------------------------------------
  // Paging

  /** `(page - 1) * pageSize`: how many posts come before the page. */
  function Skip(page: int, pageSize: int): (skip: int)
    ensures page >= 1 && pageSize >= 1 ==> skip >= 0 && skip % pageSize == 0 && skip / pageSize == page - 1
  {
    var skip := (page - 1) * pageSize;
    if pageSize >= 1 then
      DivideExactly(skip, pageSize, page - 1);
      MulSign(page - 1, pageSize);
      skip
    else skip
  }

  /** A product of two positive numbers is at least either of them. */
  lemma {:induction false} MulAtLeast(x: nat, n: nat)
    requires x >= 1
    ensures x * n >= n
    decreases x
  {
    if x > 1 {
      MulAtLeast(x - 1, n);
      assert x * n == (x - 1) * n + n;
    }
  }

  /** The sign of `x * n` for a positive `n`. */
  lemma MulSign(x: int, n: int)
    requires n >= 0
    ensures x >= 0 ==> x * n >= 0
    ensures x >= 1 ==> x * n >= n
    ensures x <= -1 ==> x * n <= -n
  {
    if x >= 1 {
      MulAtLeast(x, n);
    } else if x <= -1 {
      MulAtLeast(-x, n);
      assert x * n == -((-x) * n);
    }
  }

  /** `q * n` divided by `n` is `q`, with nothing left over. */
  lemma DivideExactly(m: int, n: int, q: int)
    requires n >= 1 && m == q * n
    ensures m % n == 0 && m / n == q
  {
    var q', r' := m / n, m % n;
    assert m == q' * n + r';
    assert (q - q') * n == r' by {
      assert q * n - q' * n == (q - q') * n;
    }
    MulSign(q - q', n);
  }

  // ---------------------------------------------------------------------------
  // Updates

  /**
   * `{ ...updatedFields }`, with `slug` set to the slug of the title when the
   * fields hold a non-empty title.
   */
  function UpdatePayload(fields: map<string, string>): (payload: map<string, string>)
    ensures "title" in fields && fields["title"] != "" ==>
              "slug" in payload && payload["slug"] == GenerateSlug(fields["title"])
    ensures !("title" in fields && fields["title"] != "") ==> payload == fields
    ensures payload.Keys == fields.Keys + (if "title" in fields && fields["title"] != "" then {"slug"} else {})
    ensures forall k :: k in fields && k != "slug" ==> payload[k] == fields[k]
  {
    if "title" in fields && fields["title"] != "" then fields["slug" := GenerateSlug(fields["title"])] else fields
  }
}
