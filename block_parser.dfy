/**
 * The content block parser (src/lib/blockParser.ts).
 *
 * Post content may embed tags such as
 *   {{block name="Top Picks" image="/promo.jpg" products="SKU1, SKU2"}}
 * `ParseBlocks` replaces the k-th tag, counting from the left, by the
 * placeholder `__BLOCK_PLACEHOLDER_k__` and returns the block records in the
 * same order. The two regular expressions of the source are written out as
 * scanners over positions of the text, the way a global regular expression
 * advances its `lastIndex`: `MatchTagAt` for `/\{\{block\s+([^}]+)\}\}/g` and
 * `MatchAttrAt` for `/(\w+)\s*=\s*(["'])(.*?)\2/g`.
 *
 * The specification is `Parse`: cut the content into the text fragments and
 * the tags between them (`Lex`), then put placeholder k where tag k was.
 * The methods `ParseBlocks` and `ScanAttributes` follow the source's loops
 * and are proved to compute it.
 */
module BlockParser {
  import opened Wrappers
  import opened JsText
  import opened Seqs
  import opened Types

  const Opener: string := "{{block"
  const Closer: string := "}}"
  const PlaceholderPrefix: string := "__BLOCK_PLACEHOLDER_"

  // ---------------------------------------------------------------------------
  // The outer tag pattern

  /**
   * One match of the tag pattern: `{{block`, the white space taken by `\s+`
   * (`lead`), the captured attribute string, `}}`.
   */
  datatype TagMatch = TagMatch(lead: string, capture: string)

  function TagText(m: TagMatch): string {
    Opener + m.lead + m.capture + Closer
  }

  /**
   * Where a tag sits in the content: `{{block` starts at `start`, the `\s+`
   * part ends at `leadEnd`, and the capture ends at `captureEnd`, where `}}`
   * begins.
   */
  datatype TagSpan = TagSpan(start: nat, leadEnd: nat, captureEnd: nat)

  predicate ValidTagSpan(s: string, t: TagSpan) {
    t.start + |Opener| < t.leadEnd < t.captureEnd && t.captureEnd + |Closer| <= |s|
  }

  /** The position just after the tag's `}}`. */
  function TagEnd(t: TagSpan): nat {
    t.captureEnd + |Closer|
  }

  function TagOf(s: string, t: TagSpan): TagMatch
    requires ValidTagSpan(s, t)
  {
    TagMatch(s[t.start + |Opener|..t.leadEnd], s[t.leadEnd..t.captureEnd])
  }

  /** `{{block` occurs at position `i`, compared one character at a time. */
  predicate OpenerAt(s: string, i: nat) {
    && i + 7 <= |s|
    && s[i] == '{' && s[i + 1] == '{' && s[i + 2] == 'b' && s[i + 3] == 'l'
    && s[i + 4] == 'o' && s[i + 5] == 'c' && s[i + 6] == 'k'
  }

  lemma OpenerAtText(s: string, i: nat)
    requires i + |Opener| <= |s|
    ensures OpenerAt(s, i) <==> s[i..i + |Opener|] == Opener
  {
    var w := s[i..i + |Opener|];
    assert forall k :: 0 <= k < |Opener| ==> w[k] == s[i + k];
    if OpenerAt(s, i) {
      assert forall k :: 0 <= k < |Opener| ==> w[k] == Opener[k];
    }
  }

  /** `}}` occurs at position `e`. */
  predicate CloserAt(s: string, e: nat) {
    e + 2 <= |s| && s[e] == '}' && s[e + 1] == '}'
  }

  lemma CloserAtText(s: string, e: nat)
    requires e + |Closer| <= |s|
    ensures CloserAt(s, e) <==> s[e..e + |Closer|] == Closer
  {
    var w := s[e..e + |Closer|];
    assert w[0] == s[e] && w[1] == s[e + 1];
    if CloserAt(s, e) {
      assert forall k :: 0 <= k < |Closer| ==> w[k] == Closer[k];
    }
  }

  predicate NotCloseBrace(c: char) { c != '}' }

  /**
   * The tag pattern tried at position `i`. After `{{block` the run of
   * non-`}` characters must start with white space, hold at least one more
   * character, and be followed by `}}`. The greedy `\s+` takes all of the
   * leading white space, but hands one character back to the capture when
   * the run is nothing but white space.
   */
  function MatchTagAt(s: string, i: nat): (r: Option<TagSpan>)
    ensures r.Some? ==> r.value.start == i && ValidTagSpan(s, r.value)
  {
    if !OpenerAt(s, i) then None
    else
      var j := i + 7;
      var e := RunEnd(s, j, |s|, NotCloseBrace);
      if e - j >= 2 && IsSpace(s[j]) && CloserAt(s, e) then
        var w := RunEnd(s, j, e, IsSpace);
        Some(TagSpan(i, if w == e then e - 1 else w, e))
      else None
  }

  /**
   * The characters of `s` at the positions of `t` are what the tag pattern
   * asks for: `{{block`, white space up to `leadEnd`, no `}` up to
   * `captureEnd`, then `}}`. The greedy `\s+` stops at the first character
   * that is not white space, unless only the last character of the run is
   * left for the capture.
   */
  predicate TagShape(s: string, t: TagSpan) {
    && ValidTagSpan(s, t)
    && OpenerAt(s, t.start)
    && (forall k :: t.start + 7 <= k < t.leadEnd ==> IsSpace(s[k]))
    && (forall k :: t.leadEnd <= k < t.captureEnd ==> s[k] != '}')
    && CloserAt(s, t.captureEnd)
    && (t.leadEnd + 1 < t.captureEnd ==> !IsSpace(s[t.leadEnd]))
  }

  /** A match has the shape of the pattern. */
  lemma MatchTagShape(s: string, i: nat)
    requires MatchTagAt(s, i).Some?
    ensures TagShape(s, MatchTagAt(s, i).value)
  {
    var t := MatchTagAt(s, i).value;
    RunEndSound(s, i + 7, |s|, NotCloseBrace);
    RunEndSound(s, i + 7, t.captureEnd, IsSpace);
  }

  /** Conversely, the pattern matches wherever the text has its shape. */
  lemma ShapeTagMatch(s: string, t: TagSpan)
    requires TagShape(s, t)
    ensures MatchTagAt(s, t.start) == Some(t)
  {
    var j := t.start + 7;
    assert forall k :: j <= k < t.captureEnd ==> s[k] != '}' by {
      forall k | j <= k < t.leadEnd
        ensures s[k] != '}'
      {
        assert IsSpace(s[k]);
      }
    }
    RunEndAt(s, j, t.captureEnd, |s|, NotCloseBrace);
    assert IsSpace(s[j]);
    if IsSpace(s[t.leadEnd]) && t.leadEnd + 1 == t.captureEnd {
      RunEndAt(s, j, t.captureEnd, t.captureEnd, IsSpace);
    } else {
      RunEndAt(s, j, t.leadEnd, t.captureEnd, IsSpace);
    }
  }

  /** The text at a tag's positions is the tag's text. */
  lemma ShapeTagText(s: string, t: TagSpan)
    requires ValidTagSpan(s, t) && OpenerAt(s, t.start) && CloserAt(s, t.captureEnd)
    ensures s[t.start..TagEnd(t)] == TagText(TagOf(s, t))
  {
    OpenerAtText(s, t.start);
    CloserAtText(s, t.captureEnd);
    SliceJoin(s, t.start, t.start + 7, t.leadEnd);
    SliceJoin(s, t.start, t.leadEnd, t.captureEnd);
    SliceJoin(s, t.start, t.captureEnd, TagEnd(t));
  }

  /** The `\s+` part of a tag of that shape is non-empty white space, and its capture is non-empty and free of `}`. */
  lemma ShapeTagParts(s: string, t: TagSpan)
    requires TagShape(s, t)
    ensures var m := TagOf(s, t);
            |m.lead| >= 1 && AllSpace(m.lead) && |m.capture| >= 1 && '}' !in m.capture
  {
    var m := TagOf(s, t);
    assert forall k :: 0 <= k < |m.lead| ==> m.lead[k] == s[t.start + 7 + k];
    assert forall k :: 0 <= k < |m.capture| ==> m.capture[k] == s[t.leadEnd + k];
  }

  /** A match reads the tag's text. */
  lemma MatchTagSound(s: string, i: nat)
    requires MatchTagAt(s, i).Some?
    ensures s[i..TagEnd(MatchTagAt(s, i).value)] == TagText(TagOf(s, MatchTagAt(s, i).value))
  {
    MatchTagShape(s, i);
    ShapeTagText(s, MatchTagAt(s, i).value);
  }

  /** The first position at or after `i` at which the tag pattern matches. */
  function FindTag(s: string, i: nat): (r: Option<TagSpan>)
    requires i <= |s|
    ensures r.Some? ==> i <= r.value.start && ValidTagSpan(s, r.value)
    decreases |s| - i
  {
    if i == |s| then None
    else match MatchTagAt(s, i)
      case Some(t) => Some(t)
      case None => FindTag(s, i + 1)
  }

  /** The match found is the one at the leftmost position where the pattern matches. */
  lemma {:induction false} FindTagLeftmost(s: string, i: nat)
    requires i <= |s| && FindTag(s, i).Some?
    ensures MatchTagAt(s, FindTag(s, i).value.start) == FindTag(s, i)
    ensures forall k :: i <= k < FindTag(s, i).value.start ==> MatchTagAt(s, k).None?
    decreases |s| - i
  {
    if MatchTagAt(s, i).None? {
      var next := FindTag(s, i + 1);
      assert FindTag(s, i) == next;
      FindTagLeftmost(s, i + 1);
      forall k | i <= k < next.value.start
        ensures MatchTagAt(s, k).None?
      {
      }
    }
  }

  /** When the search finds nothing, the pattern matches nowhere from `i` on. */
  lemma {:induction false} FindTagNone(s: string, i: nat)
    requires i <= |s| && FindTag(s, i).None?
    ensures forall k :: i <= k <= |s| ==> MatchTagAt(s, k).None?
    decreases |s| - i
  {
    if i < |s| {
      FindTagNone(s, i + 1);
    }
  }

  // ---------------------------------------------------------------------------
  // The attribute pattern

  /**
   * One match of the attribute pattern: the key (`\w+`), the white space
   * around `=`, the quote character and the characters between the quotes.
   */
  datatype AttrMatch = AttrMatch(key: string, beforeEq: string, afterEq: string, quote: char, value: string)

  function AttrText(m: AttrMatch): string {
    m.key + m.beforeEq + "=" + m.afterEq + [m.quote] + m.value + [m.quote]
  }

  predicate IsQuote(c: char) { c == '"' || c == '\'' }

  /** A key is a non-empty run of word characters. */
  predicate IsKey(k: string) { |k| >= 1 && AllWord(k) }

  predicate AllWord(s: string) { forall i :: 0 <= i < |s| ==> IsWordChar(s[i]) }

  /** What the attribute pattern can match: a quoted value holds neither its quote nor a line break. */
  predicate WellFormedAttr(m: AttrMatch) {
    && IsKey(m.key) && AllSpace(m.beforeEq) && AllSpace(m.afterEq)
    && IsQuote(m.quote) && m.quote !in m.value && NoLineTerminator(m.value)
  }

  /**
   * Where an attribute sits in the attribute string: the key runs from
   * `start` to `keyEnd`, `=` is at `eq`, the opening quote at `open` and the
   * closing quote at `close`.
   */
  datatype AttrSpan = AttrSpan(start: nat, keyEnd: nat, eq: nat, open: nat, close: nat)

  predicate ValidAttrSpan(s: string, m: AttrSpan) {
    m.start < m.keyEnd <= m.eq < m.open < m.close < |s|
  }

  /** The position just after the closing quote, where the next search resumes. */
  function AttrEnd(m: AttrSpan): nat {
    m.close + 1
  }

  function AttrOf(s: string, m: AttrSpan): AttrMatch
    requires ValidAttrSpan(s, m)
  {
    AttrMatch(s[m.start..m.keyEnd], s[m.keyEnd..m.eq], s[m.eq + 1..m.open], s[m.open], s[m.open + 1..m.close])
  }

  /**
   * The lazy `(.*?)\2` from position `j`: the first position holding `q`,
   * provided no line terminator comes first.
   */
  function QuoteEnd(s: string, j: nat, q: char): (r: Option<nat>)
    requires j <= |s|
    ensures r.Some? ==> j <= r.value < |s|
    decreases |s| - j
  {
    if j == |s| then None
    else if s[j] == q then Some(j)
    else if IsLineTerminator(s[j]) then None
    else QuoteEnd(s, j + 1, q)
  }

  lemma {:induction false} QuoteEndSound(s: string, j: nat, q: char)
    requires j <= |s| && QuoteEnd(s, j, q).Some?
    ensures var c := QuoteEnd(s, j, q).value;
            s[c] == q && forall k :: j <= k < c ==> s[k] != q && !IsLineTerminator(s[k])
    decreases |s| - j
  {
    if s[j] != q {
      QuoteEndSound(s, j + 1, q);
    }
  }

  lemma {:induction false} QuoteEndAt(s: string, j: nat, c: nat, q: char)
    requires j <= c < |s| && s[c] == q
    requires forall k :: j <= k < c ==> s[k] != q && !IsLineTerminator(s[k])
    ensures QuoteEnd(s, j, q) == Some(c)
    decreases c - j
  {
    if j < c {
      QuoteEndAt(s, j + 1, c, q);
    }
  }

  /**
   * The attribute pattern tried at position `i`: a word, optional white
   * space, `=`, optional white space, a quote, the shortest run up to the
   * same quote. Backtracking cannot help any of the greedy parts: a shorter
   * `\w+` or `\s*` leaves a character that the next part refuses.
   */
  function MatchAttrAt(s: string, i: nat): (r: Option<AttrSpan>)
    requires i <= |s|
    ensures r.Some? ==> r.value.start == i && ValidAttrSpan(s, r.value)
  {
    var k := RunEnd(s, i, |s|, IsWordChar);
    if k == i then None
    else
      var a := RunEnd(s, k, |s|, IsSpace);
      if a == |s| || s[a] != '=' then None
      else
        var b := RunEnd(s, a + 1, |s|, IsSpace);
        if b == |s| || !IsQuote(s[b]) then None
        else match QuoteEnd(s, b + 1, s[b])
          case None => None
          case Some(c) => Some(AttrSpan(i, k, a, b, c))
  }

  /**
   * The characters of `s` at the positions of `m` are what the attribute
   * pattern asks for, and each greedy or lazy part stops where the pattern
   * stops it.
   */
  predicate AttrShape(s: string, m: AttrSpan) {
    && ValidAttrSpan(s, m)
    && (forall k :: m.start <= k < m.keyEnd ==> IsWordChar(s[k]))
    && (forall k :: m.keyEnd <= k < m.eq ==> IsSpace(s[k]))
    && s[m.eq] == '='
    && (forall k :: m.eq + 1 <= k < m.open ==> IsSpace(s[k]))
    && IsQuote(s[m.open]) && s[m.close] == s[m.open]
    && (forall k :: m.open + 1 <= k < m.close ==> s[k] != s[m.open] && !IsLineTerminator(s[k]))
  }

  /** A match has the shape of the pattern. */
  lemma MatchAttrShape(s: string, i: nat)
    requires i <= |s| && MatchAttrAt(s, i).Some?
    ensures AttrShape(s, MatchAttrAt(s, i).value)
  {
    var m := MatchAttrAt(s, i).value;
    RunEndSound(s, i, |s|, IsWordChar);
    RunEndSound(s, m.keyEnd, |s|, IsSpace);
    RunEndSound(s, m.eq + 1, |s|, IsSpace);
    QuoteEndSound(s, m.open + 1, s[m.open]);
  }

  /** Conversely, the pattern matches wherever the text has its shape. */
  lemma ShapeAttrMatch(s: string, m: AttrSpan)
    requires AttrShape(s, m)
    ensures MatchAttrAt(s, m.start) == Some(m)
  {
    ShapeAttrRuns(s, m);
  }

  /** Each run of the pattern ends where the shape says it does. */
  lemma ShapeAttrRuns(s: string, m: AttrSpan)
    requires AttrShape(s, m)
    ensures RunEnd(s, m.start, |s|, IsWordChar) == m.keyEnd
    ensures RunEnd(s, m.keyEnd, |s|, IsSpace) == m.eq
    ensures RunEnd(s, m.eq + 1, |s|, IsSpace) == m.open
    ensures QuoteEnd(s, m.open + 1, s[m.open]) == Some(m.close)
  {
    if m.keyEnd < m.eq {
      SpaceIsNotWord(s[m.keyEnd]);
    }
    RunEndAt(s, m.start, m.keyEnd, |s|, IsWordChar);
    RunEndAt(s, m.keyEnd, m.eq, |s|, IsSpace);
    RunEndAt(s, m.eq + 1, m.open, |s|, IsSpace);
    QuoteEndAt(s, m.open + 1, m.close, s[m.open]);
  }

  /** The text at an attribute's positions is the attribute's text. */
  lemma ShapeAttrText(s: string, m: AttrSpan)
    requires ValidAttrSpan(s, m) && s[m.eq] == '=' && s[m.close] == s[m.open]
    ensures s[m.start..AttrEnd(m)] == AttrText(AttrOf(s, m))
  {
    var x := AttrOf(s, m);
    AttrTextThroughQuote(s, m);
    assert s[m.close..m.close + 1] == [x.quote];
    SliceJoin(s, m.start, m.open + 1, m.close);
    SliceJoin(s, m.start, m.close, m.close + 1);
  }

  /** The text up to and including the opening quote. */
  lemma AttrTextThroughQuote(s: string, m: AttrSpan)
    requires ValidAttrSpan(s, m) && s[m.eq] == '='
    ensures var x := AttrOf(s, m);
            s[m.start..m.open + 1] == x.key + x.beforeEq + "=" + x.afterEq + [x.quote]
  {
    var x := AttrOf(s, m);
    AttrTextThroughEq(s, m);
    assert s[m.open..m.open + 1] == [x.quote];
    SliceJoin(s, m.start, m.eq + 1, m.open);
    SliceJoin(s, m.start, m.open, m.open + 1);
  }

  /** The text up to and including `=`. */
  lemma AttrTextThroughEq(s: string, m: AttrSpan)
    requires ValidAttrSpan(s, m) && s[m.eq] == '='
    ensures var x := AttrOf(s, m);
            s[m.start..m.eq + 1] == x.key + x.beforeEq + "="
  {
    assert s[m.eq..m.eq + 1] == "=";
    SliceJoin(s, m.start, m.keyEnd, m.eq);
    SliceJoin(s, m.start, m.eq, m.eq + 1);
  }

  /** The attribute of a match of that shape is well formed. */
  lemma ShapeAttrWellFormed(s: string, m: AttrSpan)
    requires AttrShape(s, m)
    ensures WellFormedAttr(AttrOf(s, m))
  {
    var x := AttrOf(s, m);
    assert forall k :: 0 <= k < |x.key| ==> x.key[k] == s[m.start + k];
    assert forall k :: 0 <= k < |x.beforeEq| ==> x.beforeEq[k] == s[m.keyEnd + k];
    assert forall k :: 0 <= k < |x.afterEq| ==> x.afterEq[k] == s[m.eq + 1 + k];
    assert forall k :: 0 <= k < |x.value| ==> x.value[k] == s[m.open + 1 + k];
  }

  /** A match reads the attribute's text, and it is a well-formed attribute. */
  lemma MatchAttrSound(s: string, i: nat)
    requires i <= |s| && MatchAttrAt(s, i).Some?
    ensures var m := MatchAttrAt(s, i).value;
            s[i..AttrEnd(m)] == AttrText(AttrOf(s, m)) && WellFormedAttr(AttrOf(s, m))
  {
    MatchAttrShape(s, i);
    var m := MatchAttrAt(s, i).value;
    ShapeAttrText(s, m);
    ShapeAttrWellFormed(s, m);
  }

  /** `attrRegex.exec` with `lastIndex` at `i`: the first position at or after `i` where the pattern matches. */
  function FindAttr(s: string, i: nat): (r: Option<AttrSpan>)
    requires i <= |s|
    ensures r.Some? ==> i <= r.value.start && ValidAttrSpan(s, r.value)
    decreases |s| - i
  {
    if i == |s| then None
    else match MatchAttrAt(s, i)
      case Some(m) => Some(m)
      case None => FindAttr(s, i + 1)
  }

  /** The match found is the one at the leftmost position where the pattern matches. */
  lemma {:induction false} FindAttrLeftmost(s: string, i: nat)
    requires i <= |s| && FindAttr(s, i).Some?
    ensures MatchAttrAt(s, FindAttr(s, i).value.start) == FindAttr(s, i)
    ensures forall k :: i <= k < FindAttr(s, i).value.start ==> MatchAttrAt(s, k).None?
    decreases |s| - i
  {
    var here := MatchAttrAt(s, i);
    if here.None? {
      assert i < |s|;
      var next := FindAttr(s, i + 1);
      assert FindAttr(s, i) == next;
      FindAttrLeftmost(s, i + 1);
      var start := next.value.start;
      assert forall k :: i + 1 <= k < start ==> MatchAttrAt(s, k).None?;
    }
  }

  /** When the search finds nothing, the pattern matches nowhere from `i` on. */
  lemma {:induction false} FindAttrNone(s: string, i: nat)
    requires i <= |s| && FindAttr(s, i).None?
    ensures forall k :: i <= k <= |s| ==> MatchAttrAt(s, k).None?
    decreases |s| - i
  {
    if i < |s| {
      FindAttrNone(s, i + 1);
    }
  }

  /**
   * The matches the `exec` loop visits from `i` on, left to right; each
   * search resumes where the last match ended.
   */
  function AttrMatches(s: string, i: nat): seq<AttrMatch>
    requires i <= |s|
    decreases |s| - i
  {
    match FindAttr(s, i)
    case None => []
    case Some(m) => [AttrOf(s, m)] + AttrMatches(s, AttrEnd(m))
  }

  /** Every match the loop visits is a well-formed attribute. */
  lemma {:induction false} AttrMatchesWellFormed(s: string, i: nat)
    requires i <= |s|
    ensures forall j :: 0 <= j < |AttrMatches(s, i)| ==> WellFormedAttr(AttrMatches(s, i)[j])
    decreases |s| - i
  {
    match FindAttr(s, i)
    case None =>
    case Some(m) =>
      FindAttrLeftmost(s, i);
      MatchAttrSound(s, m.start);
      AttrMatchesWellFormed(s, AttrEnd(m));
      var ms := AttrMatches(s, i);
      var rest := AttrMatches(s, AttrEnd(m));
      assert ms == [AttrOf(s, m)] + rest;
      forall j | 0 <= j < |ms|
        ensures WellFormedAttr(ms[j])
      {
        if j > 0 {
          assert ms[j] == rest[j - 1];
        }
      }
  }

  // ---------------------------------------------------------------------------
  // Attribute values

  /** The `products` value: split at every comma, each piece trimmed. */
  function ProductList(raw: string): (items: seq<string>)
    ensures |items| == |Split(raw, ',')| == multiset(raw)[','] + 1
    ensures forall i :: 0 <= i < |items| ==> items[i] == Trim(Split(raw, ',')[i])
  {
    SplitPieces(raw, ',');
    var pieces := Split(raw, ',');
    seq(|pieces|, i requires 0 <= i < |pieces| => Trim(pieces[i]))
  }

  /** The stored value of attribute `key` whose quoted text is `raw`. */
  function ValueFor(key: string, raw: string): AttrValue {
    if key == "products" then List(ProductList(raw)) else Str(raw)
  }

  /**
   * `obj[key] = v` on an object literal. A property named `__proto__` is the
   * prototype accessor, and assigning a string to it changes nothing.
   */
  function SetProperty(obj: map<string, AttrValue>, key: string, v: AttrValue): map<string, AttrValue> {
    if key == "__proto__" then obj else obj[key := v]
  }

  /** The attribute object after the assignments of `ms`, in order. */
  function Attributes(ms: seq<AttrMatch>): map<string, AttrValue>
    decreases |ms|
  {
    if ms == [] then map[]
    else
      var last := ms[|ms| - 1];
      SetProperty(Attributes(ms[..|ms| - 1]), last.key, ValueFor(last.key, last.value))
  }

  lemma AttributesSnoc(ms: seq<AttrMatch>, m: AttrMatch)
    ensures Attributes(ms + [m]) == SetProperty(Attributes(ms), m.key, ValueFor(m.key, m.value))
  {
    assert (ms + [m])[..|ms|] == ms;
  }

  function AttributesOf(attributesString: string): map<string, AttrValue> {
    Attributes(AttrMatches(attributesString, 0))
  }

  /** A key is stored exactly when some match assigns it, except `__proto__`, which never is. */
  lemma {:induction false} AttributeKeys(ms: seq<AttrMatch>, key: string)
    ensures "__proto__" !in Attributes(ms)
    ensures key != "__proto__" ==> (key in Attributes(ms) <==> exists j :: 0 <= j < |ms| && ms[j].key == key)
    decreases |ms|
  {
    if ms != [] {
      var init := ms[..|ms| - 1];
      AttributeKeys(init, key);
      if key != "__proto__" && key in Attributes(ms) && ms[|ms| - 1].key != key {
        var j :| 0 <= j < |init| && init[j].key == key;
        assert ms[j] == init[j];
      }
      if key != "__proto__" && (exists j :: 0 <= j < |ms| && ms[j].key == key) && ms[|ms| - 1].key != key {
        var j :| 0 <= j < |ms| && ms[j].key == key;
        assert init[j] == ms[j];
      }
    }
  }

  /** When a key is assigned several times, the last assignment wins. */
  lemma {:induction false} LastOccurrenceWins(ms: seq<AttrMatch>, j: nat)
    requires j < |ms| && ms[j].key != "__proto__"
    requires forall j' :: j < j' < |ms| ==> ms[j'].key != ms[j].key
    ensures ms[j].key in Attributes(ms)
    ensures Attributes(ms)[ms[j].key] == ValueFor(ms[j].key, ms[j].value)
    decreases |ms|
  {
    if j < |ms| - 1 {
      var init := ms[..|ms| - 1];
      assert init[j] == ms[j];
      LastOccurrenceWins(init, j);
    }
  }

  // ---------------------------------------------------------------------------
  // Blocks

  /** The name check: `attrs.name` must be a non-empty string. */
  predicate HasName(attrs: map<string, AttrValue>) {
    "name" in attrs && attrs["name"].Str? && attrs["name"].s != ""
  }

  /** The block a tag stands for; `None` when the tag has no usable name. */
  function BlockOf(m: TagMatch): Option<CustomBlock> {
    var attrs := AttributesOf(m.capture);
    if HasName(attrs) then Some(CustomBlock(attrs["name"].s, attrs)) else None
  }

  /** The blocks of `tags`, in order, or `None` when any of them has no name. */
  function BuildBlocks(tags: seq<TagMatch>): Option<seq<CustomBlock>> {
    MapAll(tags, BlockOf)
  }

  /**
   * The parse fails exactly when some tag has no name; otherwise there is
   * one block per tag and block `i` is the block of tag `i`.
   */
  lemma BuildBlocksAligned(tags: seq<TagMatch>)
    ensures BuildBlocks(tags).Some? <==> forall i :: 0 <= i < |tags| ==> BlockOf(tags[i]).Some?
    ensures BuildBlocks(tags).Some? ==> |BuildBlocks(tags).value| == |tags|
    ensures BuildBlocks(tags).Some? ==> forall i :: 0 <= i < |tags| ==> BlockOf(tags[i]) == Some(BuildBlocks(tags).value[i])
  {
    MapAllAligned(tags, BlockOf);
  }

  // ---------------------------------------------------------------------------
  // The whole parse

  /** The content cut at its tags: `|fragments| == |tags| + 1`. */
  datatype Lexed = Lexed(fragments: seq<string>, tags: seq<TagMatch>)

  function TagTexts(tags: seq<TagMatch>): (r: seq<string>)
    ensures |r| == |tags| && forall i :: 0 <= i < |tags| ==> r[i] == TagText(tags[i])
  {
    if tags == [] then [] else [TagText(tags[0])] + TagTexts(tags[1..])
  }

  lemma TagTextsCons(t: TagMatch, ts: seq<TagMatch>)
    ensures TagTexts([t] + ts) == [TagText(t)] + TagTexts(ts)
  {
    assert ([t] + ts)[1..] == ts;
  }

  /** The global scan from position `i`: the fragments of text between the tags, and the tags. */
  function Lex(s: string, i: nat): (l: Lexed)
    requires i <= |s|
    ensures |l.fragments| == |l.tags| + 1
    decreases |s| - i
  {
    match FindTag(s, i)
    case None => Lexed([s[i..]], [])
    case Some(t) =>
      var rest := Lex(s, TagEnd(t));
      Lexed([s[i..t.start]] + rest.fragments, [TagOf(s, t)] + rest.tags)
  }

  /** Putting each tag's text back between the fragments gives the content. */
  lemma {:induction false} LexRoundTrip(s: string, i: nat)
    requires i <= |s|
    ensures Concat(Weave(Lex(s, i).fragments, TagTexts(Lex(s, i).tags))) == s[i..]
    decreases |s| - i
  {
    match FindTag(s, i)
    case None =>
      assert Concat([s[i..]]) == s[i..] + Concat([s[i..]][1..]);
    case Some(t) =>
      var tag := TagOf(s, t);
      var l := Lex(s, TagEnd(t));
      LexStep(s, i);
      LexRoundTrip(s, TagEnd(t));
      FindTagText(s, i);
      TagTextsCons(tag, l.tags);
      WeaveConcatCons(s[i..t.start], TagText(tag), l.fragments, TagTexts(l.tags));
      SliceJoinTail(s, t.start, TagEnd(t));
      SliceJoinTail(s, i, t.start);
  }

  /** The tag found reads the text of its match. */
  lemma FindTagText(s: string, i: nat)
    requires i <= |s| && FindTag(s, i).Some?
    ensures s[FindTag(s, i).value.start..TagEnd(FindTag(s, i).value)] == TagText(TagOf(s, FindTag(s, i).value))
  {
    FindTagLeftmost(s, i);
    MatchTagSound(s, FindTag(s, i).value.start);
  }

  function Placeholder(k: nat): string {
    PlaceholderPrefix + Decimal(k) + "__"
  }

  /** The placeholders for tags `from`, `from + 1`, ..., `from + n - 1`. */
  function Placeholders(from: nat, n: nat): (r: seq<string>)
    ensures |r| == n && forall i :: 0 <= i < n ==> r[i] == Placeholder(from + i)
    decreases n
  {
    if n == 0 then [] else [Placeholder(from)] + Placeholders(from + 1, n - 1)
  }

  /** The text from position `i` on with its tags replaced by placeholders numbered from `k`. */
  function ReplacedText(s: string, i: nat, k: nat): string
    requires i <= |s|
  {
    var l := Lex(s, i);
    Concat(Weave(l.fragments, Placeholders(k, |l.tags|)))
  }

  datatype ParseResult = ParseResult(text: string, blocks: seq<CustomBlock>)

  /** The error thrown when a tag has no name. */
  datatype ParseError = MissingName

  /** What `parseBlocks(content)` returns, or the error it throws. */
  function Parse(content: string): Result<ParseResult, ParseError> {
    match BuildBlocks(Lex(content, 0).tags)
    case None => Failure(MissingName)
    case Some(blocks) => Success(ParseResult(ReplacedText(content, 0, 0), blocks))
  }

  /** Content without a tag comes back unchanged, with no blocks. */
  lemma ParseWithoutTags(content: string)
    requires FindTag(content, 0).None?
    ensures Parse(content) == Success(ParseResult(content, []))
  {
    ReplacedTextDone(content, 0, 0);
  }

  /**
   * The parse fails exactly when some tag has no usable name. Otherwise the
   * text is the content with tag k replaced by placeholder k, and there is
   * one block per tag, in order.
   */
  lemma ParseOutcome(content: string)
    ensures Parse(content).Failure? <==> exists i :: 0 <= i < |Lex(content, 0).tags| && BlockOf(Lex(content, 0).tags[i]).None?
    ensures var l := Lex(content, 0);
            Parse(content).Success? ==>
              && Parse(content).value.text == Concat(Weave(l.fragments, Placeholders(0, |l.tags|)))
              && |Parse(content).value.blocks| == |l.tags|
              && forall i :: 0 <= i < |l.tags| ==> BlockOf(l.tags[i]) == Some(Parse(content).value.blocks[i])
  {
    var tags := Lex(content, 0).tags;
    BuildBlocksAligned(tags);
    if BuildBlocks(tags).None? {
      var i :| 0 <= i < |tags| && !BlockOf(tags[i]).Some?;
      assert BlockOf(tags[i]).None?;
      assert Parse(content).Failure?;
      assert exists j :: 0 <= j < |Lex(content, 0).tags| && BlockOf(Lex(content, 0).tags[j]).None?;
    }
  }

  /** The blocks of `done` followed by those of `rest`, if `rest` has them all. */
  function AppendBlocks(done: seq<CustomBlock>, rest: Option<seq<CustomBlock>>): Option<seq<CustomBlock>> {
    match rest
    case None => None
    case Some(bs) => Some(done + bs)
  }

  /** The content up to the next tag, that tag, and the rest of the content lexed. */
  lemma LexStep(s: string, i: nat)
    requires i <= |s| && FindTag(s, i).Some?
    ensures var t := FindTag(s, i).value;
            var l := Lex(s, TagEnd(t));
            Lex(s, i) == Lexed([s[i..t.start]] + l.fragments, [TagOf(s, t)] + l.tags)
  {
  }

  /** One tag further into the text: its fragment and its placeholder come first. */
  lemma ReplacedTextStep(s: string, i: nat, k: nat)
    requires i <= |s| && FindTag(s, i).Some?
    ensures var t := FindTag(s, i).value;
            ReplacedText(s, i, k) == s[i..t.start] + (Placeholder(k) + ReplacedText(s, TagEnd(t), k + 1))
  {
    var t := FindTag(s, i).value;
    var l := Lex(s, TagEnd(t));
    LexStep(s, i);
    assert Placeholders(k, |l.tags| + 1) == [Placeholder(k)] + Placeholders(k + 1, |l.tags|);
    WeaveConcatCons(s[i..t.start], Placeholder(k), l.fragments, Placeholders(k + 1, |l.tags|));
  }

  /** Without a further tag the rest of the text is left as it is, and it has no blocks. */
  lemma ReplacedTextDone(s: string, i: nat, k: nat)
    requires i <= |s| && FindTag(s, i).None?
    ensures ReplacedText(s, i, k) == s[i..] && BuildBlocks(Lex(s, i).tags) == Some([])
  {
    assert Concat([s[i..]]) == s[i..] + Concat([s[i..]][1..]);
  }

  /** The blocks of the text from `i` on, whose first tag is `t`. */
  lemma BuildBlocksStep(s: string, i: nat)
    requires i <= |s| && FindTag(s, i).Some?
    ensures var t := FindTag(s, i).value;
            BuildBlocks(Lex(s, i).tags) ==
              match BlockOf(TagOf(s, t))
              case None => None
              case Some(b) => AppendBlocks([b], BuildBlocks(Lex(s, TagEnd(t)).tags))
  {
    var t := FindTag(s, i).value;
    LexStep(s, i);
    MapAllCons(TagOf(s, t), Lex(s, TagEnd(t)).tags, BlockOf);
  }

  lemma AppendBlocksAssoc(done: seq<CustomBlock>, b: CustomBlock, rest: Option<seq<CustomBlock>>)
    ensures AppendBlocks(done, AppendBlocks([b], rest)) == AppendBlocks(done + [b], rest)
  {
    if rest.Some? {
      AppendAssoc(done, [b], rest.value);
    }
  }

  /** The matches from `i` on, when the next one is found. */
  lemma AttrMatchesStep(s: string, i: nat)
    requires i <= |s| && FindAttr(s, i).Some?
    ensures AttrMatches(s, i) == [AttrOf(s, FindAttr(s, i).value)] + AttrMatches(s, AttrEnd(FindAttr(s, i).value))
  {
  }

  /**
   * The attribute loop of the replace callback: `attrRegex.exec` until it
   * finds no further match, storing each key's value.
   */
  method ScanAttributes(attributesString: string) returns (attrs: map<string, AttrValue>)
    ensures attrs == AttributesOf(attributesString)
  {
    var s := attributesString;
    attrs := map[];
    var lastIndex := 0;
    ghost var seen: seq<AttrMatch> := [];
    assert seen + AttrMatches(s, 0) == AttrMatches(s, 0);
    var matchAttr := FindAttr(s, lastIndex);
    while matchAttr.Some?
      invariant lastIndex <= |s| && matchAttr == FindAttr(s, lastIndex)
      invariant AttrMatches(s, 0) == seen + AttrMatches(s, lastIndex)
      invariant attrs == Attributes(seen)
      decreases |s| - lastIndex
    {
      var m := AttrOf(s, matchAttr.value);
      var key := m.key;
      var value := m.value;
      if key == "products" {
        attrs := SetProperty(attrs, key, List(ProductList(value)));
      } else {
        attrs := SetProperty(attrs, key, Str(value));
      }
      AttrMatchesStep(s, lastIndex);
      AppendAssoc(seen, [m], AttrMatches(s, AttrEnd(matchAttr.value)));
      AttributesSnoc(seen, m);
      seen := seen + [m];
      lastIndex := AttrEnd(matchAttr.value);
      matchAttr := FindAttr(s, lastIndex);
    }
    assert seen + [] == seen;
  }

  /**
   * What the `replace` has produced once it has passed every tag before
   * `pos`: the output so far and the rest of the content replaced with the
   * placeholders numbered from `|blocks|` make up the whole replaced text,
   * and the blocks so far followed by those of the rest make up all the
   * blocks.
   */
  ghost predicate ReplaceInvariant(content: string, pos: nat, text: string, blocks: seq<CustomBlock>)
    requires pos <= |content|
  {
    && ReplacedText(content, 0, 0) == text + ReplacedText(content, pos, |blocks|)
    && BuildBlocks(Lex(content, 0).tags) == AppendBlocks(blocks, BuildBlocks(Lex(content, pos).tags))
  }

  lemma ReplaceStart(content: string)
    ensures ReplaceInvariant(content, 0, "", [])
  {
    var bs := BuildBlocks(Lex(content, 0).tags);
    if bs.Some? {
      assert [] + bs.value == bs.value;
    }
  }

  /** Passing a tag with a name appends its fragment and placeholder to the output and its block to the blocks. */
  lemma ReplaceStep(content: string, pos: nat, text: string, blocks: seq<CustomBlock>)
    requires pos <= |content| && FindTag(content, pos).Some?
    requires BlockOf(TagOf(content, FindTag(content, pos).value)).Some?
    requires ReplaceInvariant(content, pos, text, blocks)
    ensures var t := FindTag(content, pos).value;
            ReplaceInvariant(content, TagEnd(t), text + content[pos..t.start] + Placeholder(|blocks|),
                             blocks + [BlockOf(TagOf(content, t)).value])
  {
    var t := FindTag(content, pos).value;
    ReplacedTextStep(content, pos, |blocks|);
    ShiftPrefix(ReplacedText(content, 0, 0), text, content[pos..t.start], Placeholder(|blocks|),
                ReplacedText(content, TagEnd(t), |blocks| + 1));
    BuildBlocksStep(content, pos);
    AppendBlocksAssoc(blocks, BlockOf(TagOf(content, t)).value, BuildBlocks(Lex(content, TagEnd(t)).tags));
  }

  /** A tag without a name makes the whole parse fail. */
  lemma ReplaceFails(content: string, pos: nat, text: string, blocks: seq<CustomBlock>)
    requires pos <= |content| && FindTag(content, pos).Some?
    requires BlockOf(TagOf(content, FindTag(content, pos).value)).None?
    requires ReplaceInvariant(content, pos, text, blocks)
    ensures Parse(content) == Failure(MissingName)
  {
    BuildBlocksStep(content, pos);
  }

  /** After the last tag the rest of the content is copied as it is. */
  lemma ReplaceDone(content: string, pos: nat, text: string, blocks: seq<CustomBlock>)
    requires pos <= |content| && FindTag(content, pos).None?
    requires ReplaceInvariant(content, pos, text, blocks)
    ensures Parse(content) == Success(ParseResult(text + content[pos..], blocks))
  {
    ReplacedTextDone(content, pos, |blocks|);
    assert blocks + [] == blocks;
  }

  /**
   * `parseBlocks`: the `replace` over every tag. For each tag the callback
   * reads the attributes, throws when the name is missing, pushes the block
   * and returns the placeholder numbered `blocks.length - 1`.
   */
  method ParseBlocks(content: string) returns (r: Result<ParseResult, ParseError>)
    ensures r == Parse(content)
  {
    var blocks: seq<CustomBlock> := [];
    var text := "";
    var pos := 0;
    ReplaceStart(content);
    var next := FindTag(content, pos);
    while next.Some?
      invariant pos <= |content| && next == FindTag(content, pos)
      invariant ReplaceInvariant(content, pos, text, blocks)
      decreases |content| - pos
    {
      var t := next.value;
      var attrs := ScanAttributes(TagOf(content, t).capture);
      if !HasName(attrs) {
        ReplaceFails(content, pos, text, blocks);
        return Failure(MissingName);
      }
      var block := CustomBlock(attrs["name"].s, attrs);
      ReplaceStep(content, pos, text, blocks);
      blocks := blocks + [block];
      text := text + content[pos..t.start] + Placeholder(|blocks| - 1);
      pos := TagEnd(t);
      next := FindTag(content, pos);
    }
    ReplaceDone(content, pos, text, blocks);
    return Success(ParseResult(text + content[pos..], blocks));
  }
}
