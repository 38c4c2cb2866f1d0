/**
 * The stylesheet rewriter of the replay player
 * (frontend/app/player/web/messages/rewriter/urlResolve.ts).
 *
 * Captured CSS text is rewritten in two passes: every `url(...)` argument and
 * every quoted `@import` target is handed to a rewriter (in `resolveCSS`, URL
 * resolution against the page's base address) and written back with its
 * quote character, a `;` is appended when the text does not end with one, and
 * then every `:hover` and `:focus` becomes a class selector.
 *
 * The three regular expressions of the source are modelled as scanners with
 * the same greedy and lazy choices.  A call that throws in JavaScript (the URL
 * constructor, and hence any rewriter built on it) is `None`, and a throw
 * aborts the whole rewrite.
 */
module UrlResolve {
  import opened Wrappers
  import opened JsString
  import opened JsRegex

  /** `new URL(rel, base).toString()` of the WHATWG URL Standard, `None` where the constructor throws. */
  type UrlParser = (string, string) -> Option<string>

  /** The `rewriter` argument of `rewriteCSSLinks`, `None` where it throws. */
  type Rewriter = string -> Option<string>

  // ---------------------------------------------------------------------------
  // resolveURL

  /** A reference that `resolveURL` hands back without parsing: empty, or a fragment. */
  predicate IsFragmentOrEmpty(relURL: string) {
    (|relURL| > 0 && relURL[0] == '#') || relURL == ""
  }

  /** `resolveURL(baseURL, relURL)`. */
  function ResolveURL(parse: UrlParser, baseURL: string, relURL: string): (r: Option<string>)
    ensures IsFragmentOrEmpty(relURL) ==> r == Some(relURL)
    ensures !IsFragmentOrEmpty(relURL) ==> r == parse(relURL, baseURL)
  {
    if IsFragmentOrEmpty(relURL) then Some(relURL) else parse(relURL, baseURL)
  }

  /** A fragment or empty reference comes back unchanged whatever the base and the URL parser. */
  lemma ResolveURLIgnoresBase(parse1: UrlParser, base1: string, parse2: UrlParser, base2: string, relURL: string)
    requires IsFragmentOrEmpty(relURL)
    ensures ResolveURL(parse1, base1, relURL) == ResolveURL(parse2, base2, relURL) == Some(relURL)
  {
  }

  // ---------------------------------------------------------------------------
  // unquote

  /** The pair `[value, quote]` that `unquote` returns. */
  datatype Unquoted = Unquoted(value: string, quote: string)

  predicate IsQuoteChar(c: char) {
    c == '"' || c == '\''
  }

  /**
   * `unquote(str)`: strips a pair of equal quote characters.  On a lone quote
   * character `substring(1, 0)` swaps its arguments, so the value is the
   * quote character itself.
   */
  function Unquote(str: string): (r: Unquoted)
    ensures r.quote == "" ==> r.value == str
    ensures r.quote != "" ==> |str| > 0 && r.quote == [str[0]] && IsQuoteChar(str[0]) && str[|str| - 1] == str[0]
  {
    if |str| > 0 && str[0] == str[|str| - 1] && IsQuoteChar(str[0]) then
      Unquoted(Substring(str, 1, |str| - 1), [str[0]])
    else
      Unquoted(str, "")
  }

  /**
   * The quote is stripped exactly when the first and the last character are
   * the same quote character; then quote, value and quote give the input
   * back, except for a lone quote character, which is its own value.
   * Otherwise the value is the input.
   */
  lemma UnquoteCases(str: string)
    ensures var r := Unquote(str);
            && (r.quote != "" <==> |str| > 0 && IsQuoteChar(str[0]) && str[0] == str[|str| - 1])
            && (r.quote != "" ==> r.quote == [str[0]])
            && (r.quote == "" ==> r.value == str)
            && (r.quote != "" && |str| >= 2 ==> r.quote + r.value + r.quote == str)
            && (r.quote != "" && |str| == 1 ==> r.value == str)
  {
    if |str| >= 2 && str[0] == str[|str| - 1] && IsQuoteChar(str[0]) {
      assert str == [str[0]] + str[1..|str| - 1] + [str[0]];
    }
  }

  /** Quoting a value and unquoting it gives the value and the quote back. */
  lemma UnquoteQuoted(q: char, v: string)
    requires IsQuoteChar(q)
    ensures Unquote([q] + v + [q]) == Unquoted(v, [q])
  {
    var s := [q] + v + [q];
    assert s[1..|s| - 1] == v;
  }

  // ---------------------------------------------------------------------------
  // First pass of rewriteCSSLinks: /url\(([^)]*)\)/g

  /**
   * `/url\(([^)]*)\)/` tried at the start of `s`: `url(`, then the greedy run
   * of characters other than `)` as group 1, then `)`.
   */
  function UrlFunctionRe(s: string): Option<Hit> {
    if StartsAt(s, 0, "url(") then
      match IndexOfChar(s, ')', 4)
      case Some(close) => Some(Hit(s[..close + 1], [s[4..close]]))
      case None => None
    else
      None
  }

  lemma UrlFunctionReSound()
    ensures Sound(UrlFunctionRe)
  {
  }

  /**
   * The expression matches exactly where `url(` starts and a `)` follows it;
   * the match is `url(`, a group free of `)`, and `)`.
   */
  lemma UrlFunctionReMatches(s: string)
    ensures UrlFunctionRe(s).Some? <==> StartsAt(s, 0, "url(") && ')' in s[4..]
    ensures UrlFunctionRe(s).Some? ==>
      var h := UrlFunctionRe(s).value;
      h.whole == "url(" + Group(h, 1) + ")" && ')' !in Group(h, 1) && |h.groups| == 1
  {
    if UrlFunctionRe(s).Some? {
      var h := UrlFunctionRe(s).value;
      var close := |h.whole| - 1;
      assert s[..close + 1] == s[..4] + s[4..close] + [s[close]];
    }
  }

  /** On `url(` + payload + `)` + post, with no `)` in the payload, the match is `url(` + payload + `)`. */
  lemma UrlFunctionReAt(payload: string, post: string)
    requires ')' !in payload
    ensures UrlFunctionRe("url(" + payload + ")" + post) == Some(Hit("url(" + payload + ")", [payload]))
  {
    var t := "url(" + payload + ")" + post;
    var close := 4 + |payload|;
    assert t[..4] == "url(";
    assert t[4..close] == payload && t[close] == ')';
    assert t[..close + 1] == "url(" + payload + ")";
  }

  /** `css.matchAll(/url\(([^)]*)\)/g)`: the references of the first pass. */
  function UrlMatches(css: string): seq<Found> {
    UrlFunctionReSound();
    MatchAll(UrlFunctionRe, css, 0)
  }

  /** What the first pass hands to the rewriter for a match: its group, trimmed and unquoted. */
  function UrlRef(h: Hit): string {
    Unquote(Trim(Group(h, 1))).value
  }

  /** `url(` + quote + new URL + quote + `)`, what the first pass writes for a reference. */
  function UrlFunction(quote: string, newUrl: string): string {
    "url(" + quote + newUrl + quote + ")"
  }

  /** The replacer function of the first pass. */
  function UrlReplacement(rewriter: Rewriter, h: Hit): Option<string> {
    var u := Unquote(Trim(Group(h, 1)));
    var newUrl :- rewriter(u.value);
    Some(UrlFunction(u.quote, newUrl))
  }

  function UrlReplacer(rewriter: Rewriter): Replacer {
    h => UrlReplacement(rewriter, h)
  }

  /** `css.replace(/url\(([^)]*)\)/g, ...)`: the first pass of `rewriteCSSLinks`. */
  function RewriteUrlFunctions(css: string, rewriter: Rewriter): Option<string> {
    UrlFunctionReSound();
    Replace(UrlFunctionRe, UrlReplacer(rewriter), css)
  }

  /** A reference of the first pass is `url(` + a run free of `)` + `)`, found in `css` at its index. */
  lemma UrlMatchShape(css: string, m: Found)
    requires m in UrlMatches(css)
    ensures var g := Group(m.hit, 1);
            && m.index + |m.hit.whole| <= |css| && css[m.index..m.index + |m.hit.whole|] == m.hit.whole
            && m.hit.whole == "url(" + g + ")" && ')' !in g && StartsAt(css, m.index, "url(")
  {
    UrlFunctionReSound();
    MatchAllFound(UrlFunctionRe, css, 0);
    UrlFunctionReMatches(css[m.index..]);
    StartsAtShift(css, m.index, 0, "url(");
  }

  /** No `url(` starts in `css` before index `k`. */
  predicate NoUrlBefore(css: string, k: int) {
    forall i :: 0 <= i < k ==> !StartsAt(css, i, "url(")
  }

  /**
   * A `url(` followed by a run of characters other than `)` and by `)` becomes
   * `url(` + quote + new URL + quote + `)`, where the new URL is what the
   * rewriter makes of the trimmed, unquoted payload; the text in front is
   * copied, and a throw of the rewriter aborts the pass.
   */
  lemma UrlPassRewritesReference(pre: string, payload: string, post: string, rewriter: Rewriter)
    requires ')' !in payload
    requires NoUrlBefore(pre + ("url(" + payload + ")" + post), |pre|)
    ensures var u := Unquote(Trim(payload));
            RewriteUrlFunctions(pre + ("url(" + payload + ")" + post), rewriter)
            == if rewriter(u.value).None? then None
               else Prefixed(pre + UrlFunction(u.quote, rewriter(u.value).value), RewriteUrlFunctions(post, rewriter))
  {
    var whole := "url(" + payload + ")";
    var t := whole + post;
    var css := pre + t;
    var f := UrlReplacer(rewriter);
    UrlFunctionReSound();
    forall i | 0 <= i < |pre|
      ensures UrlFunctionRe(css[i..]).None?
    {
      StartsAtShift(css, i, 0, "url(");
    }
    ReplaceCopiesText(UrlFunctionRe, f, css, |pre|);
    assert css[..|pre|] == pre && css[|pre|..] == t;
    UrlFunctionReAt(payload, post);
    ReplaceAtMatch(UrlFunctionRe, f, t);
    assert t[|whole|..] == post;
    var u := Unquote(Trim(payload));
    if rewriter(u.value).Some? {
      PrefixedTwice(pre, UrlFunction(u.quote, rewriter(u.value).value), RewriteUrlFunctions(post, rewriter));
    }
  }

  /** A text without `url(` comes out of the first pass unchanged, whatever the rewriter. */
  lemma UrlPassWithoutReferences(css: string, rewriter: Rewriter)
    requires !Occurs(css, "url(")
    ensures RewriteUrlFunctions(css, rewriter) == Some(css)
  {
    UrlFunctionReSound();
    if UrlMatches(css) != [] {
      UrlMatchShape(css, UrlMatches(css)[0]);
      assert false;
    }
    ReplaceWithoutMatches(UrlFunctionRe, UrlReplacer(rewriter), css, 0);
  }

  /** The first pass succeeds exactly when the rewriter succeeds on every reference it is handed. */
  lemma UrlPassSucceedsIff(css: string, rewriter: Rewriter)
    ensures RewriteUrlFunctions(css, rewriter).Some? <==>
            forall m :: m in UrlMatches(css) ==> rewriter(UrlRef(m.hit)).Some?
  {
    UrlFunctionReSound();
    ReplaceSucceedsIff(UrlFunctionRe, UrlReplacer(rewriter), css, 0);
    assert forall h :: UrlReplacer(rewriter)(h).Some? <==> rewriter(UrlRef(h)).Some?;
  }

  // ---------------------------------------------------------------------------
  // Second pass of rewriteCSSLinks: /@import\s+(['"])(.*?)\1/g

  /** The end of the run of white space (`\s`) that starts at `from`. */
  function SpaceRunEnd(s: string, from: nat): (r: nat)
    requires from <= |s|
    ensures from <= r <= |s|
    decreases |s| - from
  {
    if from < |s| && IsSpace(s[from]) then SpaceRunEnd(s, from + 1) else from
  }

  /** The run is white space and ends at the end of the text or at a character that is not. */
  lemma {:induction false} SpaceRunEndIsMaximal(s: string, from: nat)
    requires from <= |s|
    ensures var r := SpaceRunEnd(s, from);
            (forall k :: from <= k < r ==> IsSpace(s[k])) && (r == |s| || !IsSpace(s[r]))
    decreases |s| - from
  {
    if from < |s| && IsSpace(s[from]) {
      SpaceRunEndIsMaximal(s, from + 1);
    }
  }

  /** The white-space run from `from` ends at the first character that is not white space. */
  lemma {:induction false} SpaceRunEndAt(s: string, from: nat, e: nat)
    requires from <= e <= |s| && (e == |s| || !IsSpace(s[e]))
    requires forall k :: from <= k < e ==> IsSpace(s[k])
    ensures SpaceRunEnd(s, from) == e
    decreases e - from
  {
    if from < e {
      SpaceRunEndAt(s, from + 1, e);
    }
  }

  /**
   * `(.*?)\1` tried from `from` on: the first `quote` reached before any line
   * terminator, which `.` does not match.
   */
  function LazyCloseQuote(s: string, quote: char, from: nat): (r: Option<nat>)
    requires from <= |s|
    ensures r.Some? ==> from <= r.value < |s| && s[r.value] == quote
    decreases |s| - from
  {
    if from == |s| then None
    else if s[from] == quote then Some(from)
    else if IsLineTerminator(s[from]) then None
    else LazyCloseQuote(s, quote, from + 1)
  }

  /** The lazy scan stops at the first `quote` and passes over no line terminator. */
  lemma {:induction false} LazyCloseQuoteIsFirst(s: string, quote: char, from: nat)
    requires from <= |s| && LazyCloseQuote(s, quote, from).Some?
    ensures forall k :: from <= k < LazyCloseQuote(s, quote, from).value ==> s[k] != quote && !IsLineTerminator(s[k])
    decreases |s| - from
  {
    if s[from] != quote {
      LazyCloseQuoteIsFirst(s, quote, from + 1);
    }
  }

  /** The lazy scan stops at the first `quote`, when no line terminator comes before it. */
  lemma {:induction false} LazyCloseQuoteAt(s: string, quote: char, from: nat, j: nat)
    requires from <= j < |s| && s[j] == quote
    requires forall k :: from <= k < j ==> s[k] != quote && !IsLineTerminator(s[k])
    ensures LazyCloseQuote(s, quote, from) == Some(j)
    decreases j - from
  {
    if from < j {
      LazyCloseQuoteAt(s, quote, from + 1, j);
    }
  }

  /**
   * Where `/@import\s+(['"])(.*?)\1/` matches at the start of `s`: the indices
   * of its opening and its closing quote.  The greedy `\s+` takes the whole
   * run of white space, since a quote is not white space.
   */
  function ImportQuotes(s: string): (r: Option<(nat, nat)>)
    ensures r.Some? ==>
      var (open, close) := r.value;
      && StartsAt(s, 0, "@import") && 7 < open < close < |s|
      && IsQuoteChar(s[open]) && s[close] == s[open]
  {
    if !StartsAt(s, 0, "@import") then None
    else
      var open := SpaceRunEnd(s, 7);
      if open == 7 || open == |s| || !IsQuoteChar(s[open]) then None
      else
        match LazyCloseQuote(s, s[open], open + 1)
        case Some(close) => Some((open, close))
        case None => None
  }

  /** `/@import\s+(['"])(.*?)\1/` tried at the start of `s`; group 1 is the quote, group 2 the target. */
  function ImportRe(s: string): Option<Hit> {
    match ImportQuotes(s)
    case Some((open, close)) => Some(Hit(s[..close + 1], [[s[open]], s[open + 1..close]]))
    case None => None
  }

  lemma ImportReSound()
    ensures Sound(ImportRe)
  {
  }

  /**
   * A match of the `@import` expression runs from `@import` through a
   * non-empty run of white space, a quote (group 1), a target (group 2) with
   * neither that quote nor a line terminator, and the same quote.
   */
  lemma ImportReMatches(s: string)
    requires ImportRe(s).Some?
    ensures var h := ImportRe(s).value;
            var (open, close) := ImportQuotes(s).value;
            && StartsAt(s, 0, "@import") && 7 < open < close < |s|
            && h.whole == s[..close + 1] && h.groups == [[s[open]], s[open + 1..close]]
            && IsQuoteChar(s[open]) && s[close] == s[open]
            && (forall k :: 7 <= k < open ==> IsSpace(s[k]))
            && (forall k :: open < k < close ==> s[k] != s[open] && !IsLineTerminator(s[k]))
  {
    var (open, close) := ImportQuotes(s).value;
    SpaceRunEndIsMaximal(s, 7);
    LazyCloseQuoteIsFirst(s, s[open], open + 1);
  }

  /** Where the quotes of an `@import` are in a text that starts with one. */
  lemma ImportQuotesOf(ws: string, q: char, target: string, post: string)
    requires |ws| > 0 && forall k :: 0 <= k < |ws| ==> IsSpace(ws[k])
    requires IsQuoteChar(q) && q !in target
    requires forall k :: 0 <= k < |target| ==> !IsLineTerminator(target[k])
    ensures var t := "@import" + ws + [q] + target + [q] + post;
            ImportQuotes(t) == Some((7 + |ws|, 8 + |ws| + |target|))
  {
    var t := "@import" + ws + [q] + target + [q] + post;
    var open := 7 + |ws|;
    var close := open + 1 + |target|;
    assert t[..7] == "@import";
    assert t[7..open] == ws && t[open] == q;
    assert t[open + 1..close] == target && t[close] == q;
    forall k | 7 <= k < open
      ensures IsSpace(t[k])
    {
      assert t[k] == ws[k - 7];
    }
    SpaceRunEndAt(t, 7, open);
    forall k | open + 1 <= k < close
      ensures t[k] != q && !IsLineTerminator(t[k])
    {
      assert t[k] == target[k - open - 1];
    }
    LazyCloseQuoteAt(t, q, open + 1, close);
  }

  /**
   * On `@import`, white space, a quote, a target free of that quote and of
   * line terminators, and the same quote, the expression matches all of it,
   * with the quote as group 1 and the target as group 2.
   */
  lemma ImportReAt(ws: string, q: char, target: string, post: string)
    requires |ws| > 0 && forall k :: 0 <= k < |ws| ==> IsSpace(ws[k])
    requires IsQuoteChar(q) && q !in target
    requires forall k :: 0 <= k < |target| ==> !IsLineTerminator(target[k])
    ensures ImportRe("@import" + ws + [q] + target + [q] + post)
            == Some(Hit("@import" + ws + [q] + target + [q], [[q], target]))
  {
    var t := "@import" + ws + [q] + target + [q] + post;
    var open := 7 + |ws|;
    var close := open + 1 + |target|;
    ImportQuotesOf(ws, q, target, post);
    assert t[open] == q;
    assert t[open + 1..close] == target;
    assert t[..close + 1] == "@import" + ws + [q] + target + [q];
  }

  /** `css.matchAll(/@import\s+(['"])(.*?)\1/g)`: the `@import` targets of the second pass. */
  function ImportMatches(css: string): seq<Found> {
    ImportReSound();
    MatchAll(ImportRe, css, 0)
  }

  /** `@import ` + quote + new URL + quote, what the second pass writes for a target. */
  function ImportRule(quote: string, newUrl: string): string {
    "@import " + quote + newUrl + quote
  }

  /** The replacer function of the second pass. */
  function ImportReplacement(rewriter: Rewriter, h: Hit): Option<string> {
    var newUrl :- rewriter(Group(h, 2));
    Some(ImportRule(Group(h, 1), newUrl))
  }

  function ImportReplacer(rewriter: Rewriter): Replacer {
    h => ImportReplacement(rewriter, h)
  }

  /** `css.replace(/@import\s+(['"])(.*?)\1/g, ...)`: the second pass of `rewriteCSSLinks`. */
  function RewriteImports(css: string, rewriter: Rewriter): Option<string> {
    ImportReSound();
    Replace(ImportRe, ImportReplacer(rewriter), css)
  }

  /**
   * The expression matches nowhere in `css` before index `k`; an `@import`
   * that is not followed by white space and a quote, such as
   * `@import url(a);`, may come before.
   */
  predicate NoImportMatchBefore(css: string, k: int)
    requires k <= |css|
  {
    forall i :: 0 <= i < k ==> ImportRe(css[i..]).None?
  }

  /** An `@import` whose white space is followed by neither a quote nor more white space does not match. */
  lemma ImportWithoutQuoteNoMatch(ws: string, rest: string)
    requires forall k :: 0 <= k < |ws| ==> IsSpace(ws[k])
    requires |rest| > 0 && !IsQuoteChar(rest[0]) && !IsSpace(rest[0])
    ensures ImportRe("@import" + ws + rest).None?
  {
    var s := "@import" + ws + rest;
    forall k | 7 <= k < 7 + |ws|
      ensures IsSpace(s[k])
    {
      assert s[k] == ws[k - 7];
    }
    assert s[7 + |ws|] == rest[0];
    SpaceRunEndAt(s, 7, 7 + |ws|);
  }

  /**
   * `@import`, white space, a quote, a target free of that quote and of line
   * terminators, and the same quote become `@import `, the quote, what the
   * rewriter makes of the target, and the quote: the white space shrinks to
   * one space.  The text in front is copied, and a throw of the rewriter
   * aborts the pass.
   */
  lemma ImportPassRewritesTarget(pre: string, ws: string, q: char, target: string, post: string, rewriter: Rewriter)
    requires |ws| > 0 && forall k :: 0 <= k < |ws| ==> IsSpace(ws[k])
    requires IsQuoteChar(q) && q !in target
    requires forall k :: 0 <= k < |target| ==> !IsLineTerminator(target[k])
    requires NoImportMatchBefore(pre + ("@import" + ws + [q] + target + [q] + post), |pre|)
    ensures RewriteImports(pre + ("@import" + ws + [q] + target + [q] + post), rewriter)
            == if rewriter(target).None? then None
               else Prefixed(pre + ImportRule([q], rewriter(target).value), RewriteImports(post, rewriter))
  {
    var whole := "@import" + ws + [q] + target + [q];
    var t := whole + post;
    var css := pre + t;
    var f := ImportReplacer(rewriter);
    ImportReSound();
    ReplaceCopiesText(ImportRe, f, css, |pre|);
    assert css[..|pre|] == pre && css[|pre|..] == t;
    ImportReAt(ws, q, target, post);
    ReplaceAtMatch(ImportRe, f, t);
    assert t[|whole|..] == post;
    if rewriter(target).Some? {
      PrefixedTwice(pre, ImportRule([q], rewriter(target).value), RewriteImports(post, rewriter));
    }
  }

  /** The second pass succeeds exactly when the rewriter succeeds on every target it is handed. */
  lemma ImportPassSucceedsIff(css: string, rewriter: Rewriter)
    ensures RewriteImports(css, rewriter).Some? <==>
            forall m :: m in ImportMatches(css) ==> rewriter(Group(m.hit, 2)).Some?
  {
    ImportReSound();
    ReplaceSucceedsIff(ImportRe, ImportReplacer(rewriter), css, 0);
    assert forall h :: ImportReplacer(rewriter)(h).Some? <==> rewriter(Group(h, 2)).Some?;
  }

  // ---------------------------------------------------------------------------
  // rewriteCSSLinks

  /** `css.endsWith(';') ? css : css + ';'`. */
  function EnsureSemicolon(css: string): (r: string)
    ensures EndsWith(r, ";")
    ensures EndsWith(css, ";") <==> r == css
    ensures !EndsWith(css, ";") ==> r == css + ";"
  {
    if EndsWith(css, ";") then css else css + ";"
  }

  /** `rewriteCSSLinks(css, rewriter)`. */
  function RewriteCSSLinks(css: string, rewriter: Rewriter): (r: Option<string>)
    ensures r.Some? ==> EndsWith(r.value, ";")
  {
    var afterUrls :- RewriteUrlFunctions(css, rewriter);
    var afterImports :- RewriteImports(afterUrls, rewriter);
    Some(EnsureSemicolon(afterImports))
  }

  /**
   * `rewriteCSSLinks` throws exactly when the rewriter throws on a `url(...)`
   * reference of the input or on an `@import` target of the text after the
   * first pass.
   */
  lemma RewriteCSSLinksSucceedsIff(css: string, rewriter: Rewriter)
    ensures RewriteCSSLinks(css, rewriter).Some? <==>
      && (forall m :: m in UrlMatches(css) ==> rewriter(UrlRef(m.hit)).Some?)
      && match RewriteUrlFunctions(css, rewriter)
         case Some(afterUrls) => forall m :: m in ImportMatches(afterUrls) ==> rewriter(Group(m.hit, 2)).Some?
         case None => true
  {
    UrlPassSucceedsIff(css, rewriter);
    var afterUrls := RewriteUrlFunctions(css, rewriter);
    if afterUrls.Some? {
      ImportPassSucceedsIff(afterUrls.value, rewriter);
    }
  }

  // ---------------------------------------------------------------------------
  // rewritePseudoclasses and resolveCSS

  const HoverClass := ".-openreplay-hover"
  const FocusClass := ".-openreplay-focus"

  /** `rewritePseudoclasses(css)`: every `:hover`, then every `:focus`, replaced blindly. */
  function RewritePseudoclasses(css: string): string {
    ReplaceAll(ReplaceAll(css, ":hover", HoverClass), ":focus", FocusClass)
  }

  /** The output of the pseudo-class pass holds neither `:hover` nor `:focus`. */
  lemma PseudoclassesLeaveNone(css: string)
    ensures !Occurs(RewritePseudoclasses(css), ":hover") && !Occurs(RewritePseudoclasses(css), ":focus")
  {
    var afterHover := ReplaceAll(css, ":hover", HoverClass);
    ReplaceAllLeavesNo(css, ":hover", HoverClass, ":hover");
    ReplaceAllLeavesNo(afterHover, ":focus", FocusClass, ":hover");
    ReplaceAllLeavesNo(afterHover, ":focus", FocusClass, ":focus");
  }

  /** A text with neither `:hover` nor `:focus` comes out of the pseudo-class pass unchanged. */
  lemma PseudoclassesWithoutTargets(css: string)
    requires !Occurs(css, ":hover") && !Occurs(css, ":focus")
    ensures RewritePseudoclasses(css) == css
  {
    ReplaceAllWithoutOccurrence(css, ":hover", HoverClass);
    ReplaceAllWithoutOccurrence(css, ":focus", FocusClass);
  }

  /** The pseudo-class pass keeps a final `;`. */
  lemma PseudoclassesKeepSemicolon(css: string)
    requires EndsWith(css, ";")
    ensures EndsWith(RewritePseudoclasses(css), ";")
  {
    ReplaceAllKeepsLast(css, ":hover", HoverClass);
    ReplaceAllKeepsLast(ReplaceAll(css, ":hover", HoverClass), ":focus", FocusClass);
  }

  /** Applying the pseudo-class pass twice is applying it once. */
  lemma PseudoclassesIdempotent(css: string)
    ensures RewritePseudoclasses(RewritePseudoclasses(css)) == RewritePseudoclasses(css)
  {
    PseudoclassesLeaveNone(css);
    PseudoclassesWithoutTargets(RewritePseudoclasses(css));
  }

  /** `resolveCSS(baseURL, css)`: the link pass with `resolveURL` as rewriter, then the pseudo-class pass. */
  function ResolveCSS(parse: UrlParser, baseURL: string, css: string): (r: Option<string>)
    ensures r.Some? ==> EndsWith(r.value, ";") && !Occurs(r.value, ":hover") && !Occurs(r.value, ":focus")
  {
    var linked :- RewriteCSSLinks(css, rel => ResolveURL(parse, baseURL, rel));
    PseudoclassesLeaveNone(linked);
    PseudoclassesKeepSemicolon(linked);
    Some(RewritePseudoclasses(linked))
  }

  /**
   * A `url(...)` reference that the URL parser rejects makes the whole of
   * `resolveCSS` throw: the reference is not skipped.
   */
  lemma ResolveCSSAbortsOnInvalidReference(parse: UrlParser, baseURL: string, css: string, m: Found)
    requires m in UrlMatches(css)
    requires !IsFragmentOrEmpty(UrlRef(m.hit)) && parse(UrlRef(m.hit), baseURL).None?
    ensures ResolveCSS(parse, baseURL, css).None?
  {
    var rewriter: Rewriter := rel => ResolveURL(parse, baseURL, rel);
    UrlPassSucceedsIff(css, rewriter);
    assert rewriter(UrlRef(m.hit)).None?;
  }

  lemma ImportPassKeepsSemicolon(rewriter: Rewriter)
    ensures RewriteImports(";", rewriter) == Some(";")
  {
    ImportReSound();
    assert ImportRe(";").None?;
    assert ";"[1..] == "";
    assert Replace(ImportRe, ImportReplacer(rewriter), "") == Some("");
    assert Replace(ImportRe, ImportReplacer(rewriter), ";") == Prefixed(";", Some(""));
    assert ";" + "" == ";";
  }

  /**
   * A stylesheet that is one quoted `@import` rule, ended by `;`, comes out
   * with the target rewritten and the same quote character around it, as in
   * the `@import "custom.css";` case of the front end's test.
   */
  lemma RewriteCSSLinksImportRule(q: char, target: string, rewriter: Rewriter)
    requires IsQuoteChar(q) && q !in target && '(' !in target
    requires forall k :: 0 <= k < |target| ==> !IsLineTerminator(target[k])
    requires rewriter(target).Some?
    ensures RewriteCSSLinks("@import " + [q] + target + [q] + ";", rewriter)
            == Some("@import " + [q] + rewriter(target).value + [q] + ";")
  {
    var css := "@import " + [q] + target + [q] + ";";
    assert '(' !in css by {
      assert css == "@import " + [q] + target + ([q] + ";");
    }
    MissingCharNoOccurrence(css, "url(", 3);
    UrlPassWithoutReferences(css, rewriter);
    assert css == "" + ("@import" + " " + [q] + target + [q] + ";");
    ImportPassRewritesTarget("", " ", q, target, ";", rewriter);
    ImportPassKeepsSemicolon(rewriter);
    var out := "@import " + [q] + rewriter(target).value + [q] + ";";
    assert "" + ImportRule([q], rewriter(target).value) + ";" == out;
    assert EndsWith(out, ";");
  }

  // ---------------------------------------------------------------------------
  // cssUrlsIndex

  /**
   * The alternatives `"[^"]*"` and `'[^']*'` of `re1` tried at index 4: the
   * greedy run stops at the first equal quote, and the match needs a `)`
   * right after it.  The result is the index of that `)`.
   */
  function QuotedArgumentEnd(s: string): (r: Option<nat>)
    requires 4 < |s| && IsQuoteChar(s[4])
    ensures r.Some? ==> 6 <= r.value < |s| && s[r.value] == ')' && s[r.value - 1] == s[4]
  {
    match IndexOfChar(s, s[4], 5)
    case Some(q) => if q + 1 < |s| && s[q + 1] == ')' then Some(q + 1) else None
    case None => None
  }

  /**
   * `re1`, `/url\(("[^"]*"|'[^']*'|[^)]*)\)/`, tried at the start of `s`: a
   * quoted argument directly followed by `)` wins; otherwise the last
   * alternative runs up to the first `)`.  Group 1 is the argument.
   */
  function UrlArgumentRe(s: string): Option<Hit> {
    if !StartsAt(s, 0, "url(") then None
    else
      var close :=
        if 4 < |s| && IsQuoteChar(s[4]) && QuotedArgumentEnd(s).Some? then QuotedArgumentEnd(s)
        else IndexOfChar(s, ')', 4);
      match close
      case Some(c) => Some(Hit(s[..c + 1], [s[4..c]]))
      case None => None
  }

  lemma UrlArgumentReSound()
    ensures Sound(UrlArgumentRe)
  {
  }

  /**
   * `re1` matches where `url(` starts and a `)` follows it, and the match is
   * `url(` + group 1 + `)`.  Unless a quoted argument is closed right before a
   * `)`, the group stops at the first `)`.
   */
  lemma UrlArgumentReMatches(s: string)
    ensures UrlArgumentRe(s).Some? <==> StartsAt(s, 0, "url(") && ')' in s[4..]
    ensures UrlArgumentRe(s).Some? ==>
      var h := UrlArgumentRe(s).value;
      h.whole == "url(" + Group(h, 1) + ")"
    ensures UrlArgumentRe(s).Some? && 4 < |s| && !(IsQuoteChar(s[4]) && QuotedArgumentEnd(s).Some?) ==>
      ')' !in Group(UrlArgumentRe(s).value, 1)
  {
    if UrlArgumentRe(s).Some? {
      var h := UrlArgumentRe(s).value;
      var close := |h.whole| - 1;
      assert s[close] == ')';
      assert s[..close + 1] == s[..4] + s[4..close] + [s[close]];
    }
  }

  /**
   * Unlike the first pass of `rewriteCSSLinks`, `re1` takes a quoted argument
   * that holds a `)` whole.
   */
  lemma UrlArgumentReKeepsQuotedParenthesis(q: char, v: string, post: string)
    requires IsQuoteChar(q) && q !in v && ')' in v
    ensures UrlArgumentRe("url(" + [q] + v + [q] + ")" + post) == Some(Hit("url(" + [q] + v + [q] + ")", [[q] + v + [q]]))
  {
    var whole := "url(" + [q] + v + [q] + ")";
    var s := whole + post;
    var close := 6 + |v|;
    assert s[..4] == "url(" && s[4] == q;
    assert s[5..close - 1] == v && s[close - 1] == q && s[close] == ')';
    IndexOfCharAt(s, q, 5, close - 1);
    assert s[4..close] == [q] + v + [q];
    assert s[..close + 1] == whole;
  }

  /** The first pass of `rewriteCSSLinks` cuts the same text at the first `)`, inside the quotes. */
  lemma UrlFunctionReCutsQuotedParenthesis(q: char, v: string, post: string)
    requires IsQuoteChar(q) && ')' in v
    ensures var s := "url(" + [q] + v + [q] + ")" + post;
            UrlFunctionRe(s).Some? && |UrlFunctionRe(s).value.whole| < |"url(" + [q] + v + [q] + ")"|
  {
    var s := "url(" + [q] + v + [q] + ")" + post;
    var k :| 0 <= k < |v| && v[k] == ')';
    assert s[..4] == "url(" && s[5 + k] == ')';
    assert s[4..][1 + k] == ')';
  }

  /** `css.matchAll(re1)`. */
  function ArgumentMatches(css: string): seq<Found> {
    UrlArgumentReSound();
    MatchAll(UrlArgumentRe, css, 0)
  }

  /** The `[start, end]` pair that `cssUrlsIndex` pushes. */
  datatype Span = Span(start: int, end: int)

  /** `[s, s + m[k].length]` with `s = m.index + m[0].indexOf(m[k])`, as `cssUrlsIndex` computes it. */
  function SpanOf(m: Found, k: nat): Span {
    var g := Group(m.hit, k);
    var s := m.index + IndexOf(m.hit.whole, g);
    Span(s, s + |g|)
  }

  /** The match is text of `css` at its index. */
  predicate Located(css: string, m: Found) {
    m.index + |m.hit.whole| <= |css| && css[m.index..m.index + |m.hit.whole|] == m.hit.whole
  }

  /** Text at index `at` of a located match is text of `css` at `m.index + at`. */
  lemma TextOfMatch(css: string, m: Found, at: nat, g: string)
    requires Located(css, m) && StartsAt(m.hit.whole, at, g)
    ensures StartsAt(css, m.index + at, g)
  {
    SliceOfSlice(css, m.index, m.index + |m.hit.whole|, at, at + |g|);
  }

  /**
   * When group `k` is text of the match, the span covers text equal to the
   * group, inside the match, where the group first occurs in it.
   */
  lemma SpanOfCoversGroup(css: string, m: Found, k: nat, at: nat)
    requires Located(css, m) && StartsAt(m.hit.whole, at, Group(m.hit, k))
    ensures var sp := SpanOf(m, k);
            && m.index <= sp.start <= m.index + at && sp.end - sp.start == |Group(m.hit, k)|
            && sp.end <= m.index + |m.hit.whole| && css[sp.start..sp.end] == Group(m.hit, k)
  {
    var w := m.hit.whole;
    var g := Group(m.hit, k);
    IndexOfAtMost(w, g, at);
    TextOfMatch(css, m, IndexOf(w, g), g);
  }

  /** A `re1` match is text of `css`: `url(`, the argument, and `)`. */
  lemma ArgumentMatchShape(css: string, m: Found)
    requires m in ArgumentMatches(css)
    ensures Located(css, m) && m.hit.whole == "url(" + Group(m.hit, 1) + ")"
  {
    UrlArgumentReSound();
    MatchAllFound(UrlArgumentRe, css, 0);
    UrlArgumentReMatches(css[m.index..]);
  }

  /** A `re2` match is text of `css` that ends with quote, target and quote. */
  lemma ImportMatchShape(css: string, m: Found)
    requires m in ImportMatches(css)
    ensures var w := m.hit.whole;
            var g := Group(m.hit, 2);
            && Located(css, m) && |w| >= |g| + 10
            && IsQuoteChar(w[|w| - |g| - 2]) && w[|w| - 1] == w[|w| - |g| - 2]
            && StartsAt(w, |w| - |g| - 1, g)
  {
    ImportReSound();
    MatchAllFound(ImportRe, css, 0);
    var s := css[m.index..];
    ImportReMatches(s);
    var (open, close) := ImportQuotes(s).value;
    assert m.hit.whole[open + 1..close] == s[open + 1..close];
  }

  /**
   * `cssUrlsIndex(css)`, corrected: one span per `re1` match, then one per
   * `re2` match, the whole list reversed, so that the spans of `re2` matches
   * come first, last match first.  Each span is where the group actually is
   * (`GroupSpan`), not where `indexOf` first finds its text (`SpanOf`, which
   * `CssUrlsIndexAsWritten` pushes).
   */
  method CssUrlsIndex(css: string) returns (idxs: seq<Span>)
    ensures var urls := ArgumentMatches(css);
            var imports := ImportMatches(css);
            && |idxs| == |urls| + |imports|
            && (forall i :: 0 <= i < |imports| ==> idxs[|imports| - 1 - i] == GroupSpan(imports[i], 2))
            && (forall i :: 0 <= i < |urls| ==> idxs[|idxs| - 1 - i] == GroupSpan(urls[i], 1))
  {
    var pushed: seq<Span> := [];
    var urls := ArgumentMatches(css);
    for i := 0 to |urls|
      invariant |pushed| == i
      invariant forall j :: 0 <= j < i ==> pushed[j] == GroupSpan(urls[j], 1)
    {
      pushed := pushed + [GroupSpan(urls[i], 1)];
    }
    var imports := ImportMatches(css);
    for i := 0 to |imports|
      invariant |pushed| == |urls| + i
      invariant forall j :: 0 <= j < |urls| ==> pushed[j] == GroupSpan(urls[j], 1)
      invariant forall j :: 0 <= j < i ==> pushed[|urls| + j] == GroupSpan(imports[j], 2)
    {
      pushed := pushed + [GroupSpan(imports[i], 2)];
    }
    idxs := Reverse(pushed);
  }

  /**
   * `cssUrlsIndex(css)` as written: the same two loops and the reversal, but
   * each span starts where `indexOf` first finds the group's text in the
   * match (`SpanOf`).
   */
  method CssUrlsIndexAsWritten(css: string) returns (idxs: seq<Span>)
    ensures var urls := ArgumentMatches(css);
            var imports := ImportMatches(css);
            && |idxs| == |urls| + |imports|
            && (forall i :: 0 <= i < |imports| ==> idxs[|imports| - 1 - i] == SpanOf(imports[i], 2))
            && (forall i :: 0 <= i < |urls| ==> idxs[|idxs| - 1 - i] == SpanOf(urls[i], 1))
  {
    var pushed: seq<Span> := [];
    var urls := ArgumentMatches(css);
    for i := 0 to |urls|
      invariant |pushed| == i
      invariant forall j :: 0 <= j < i ==> pushed[j] == SpanOf(urls[j], 1)
    {
      pushed := pushed + [SpanOf(urls[i], 1)];
    }
    var imports := ImportMatches(css);
    for i := 0 to |imports|
      invariant |pushed| == |urls| + i
      invariant forall j :: 0 <= j < |urls| ==> pushed[j] == SpanOf(urls[j], 1)
      invariant forall j :: 0 <= j < i ==> pushed[|urls| + j] == SpanOf(imports[j], 2)
    {
      pushed := pushed + [SpanOf(imports[i], 2)];
    }
    idxs := Reverse(pushed);
  }

  /**
   * Each span of a `re1` match is as long as the argument and covers text
   * equal to it, starting no later than the argument, right after `url(`.
   */
  lemma ArgumentSpanCoversGroup(css: string, m: Found)
    requires m in ArgumentMatches(css)
    ensures var sp := SpanOf(m, 1);
            && m.index <= sp.start <= m.index + 4 && sp.end - sp.start == |Group(m.hit, 1)|
            && sp.end <= |css| && css[sp.start..sp.end] == Group(m.hit, 1)
  {
    ArgumentMatchShape(css, m);
    assert StartsAt(m.hit.whole, 4, Group(m.hit, 1));
    SpanOfCoversGroup(css, m, 1, 4);
  }

  /**
   * Each span of a `re2` match is as long as the target and covers text
   * equal to it, starting no later than the target, which follows the
   * opening quote.
   */
  lemma ImportSpanCoversGroup(css: string, m: Found)
    requires m in ImportMatches(css)
    ensures var sp := SpanOf(m, 2);
            var target := m.index + |m.hit.whole| - 1 - |Group(m.hit, 2)|;
            && m.index <= sp.start <= target && sp.end - sp.start == |Group(m.hit, 2)|
            && sp.end <= |css| && css[sp.start..sp.end] == Group(m.hit, 2)
  {
    ImportMatchShape(css, m);
    SpanOfCoversGroup(css, m, 2, |m.hit.whole| - 1 - |Group(m.hit, 2)|);
  }

  /**
   * The span where group `k` actually is in the match: in both expressions
   * of `cssUrlsIndex` the group is followed by exactly one character of the
   * match, `)` or the closing quote.
   */
  function GroupSpan(m: Found, k: nat): Span {
    var g := Group(m.hit, k);
    Span(m.index + |m.hit.whole| - 1 - |g|, m.index + |m.hit.whole| - 1)
  }

  /** For a `re1` match the group span starts right after `url(` and covers the argument. */
  lemma ArgumentGroupSpan(css: string, m: Found)
    requires m in ArgumentMatches(css)
    ensures var sp := GroupSpan(m, 1);
            && sp.start == m.index + 4 && sp.end - sp.start == |Group(m.hit, 1)|
            && sp.end <= |css| && css[sp.start..sp.end] == Group(m.hit, 1)
  {
    ArgumentMatchShape(css, m);
    assert StartsAt(m.hit.whole, 4, Group(m.hit, 1));
    TextOfMatch(css, m, 4, Group(m.hit, 1));
  }

  /** For a `re2` match the group span starts right after the opening quote and ends at the closing one. */
  lemma ImportGroupSpan(css: string, m: Found)
    requires m in ImportMatches(css)
    ensures var sp := GroupSpan(m, 2);
            && m.index + 9 <= sp.start && sp.end < |css|
            && IsQuoteChar(css[sp.start - 1]) && css[sp.start - 1] == css[sp.end]
            && sp.end - sp.start == |Group(m.hit, 2)| && css[sp.start..sp.end] == Group(m.hit, 2)
  {
    ImportMatchShape(css, m);
    var w := m.hit.whole;
    var g := Group(m.hit, 2);
    TextOfMatch(css, m, |w| - |g| - 1, g);
    assert css[m.index + |w| - |g| - 2] == w[|w| - |g| - 2];
    assert css[m.index + |w| - 1] == w[|w| - 1];
  }

  /**
   * `cssUrlsIndex` misplaces a group that also occurs earlier in its match:
   * on `url(u)` the argument `u` is at index 4, but `indexOf` finds the `u`
   * of `url` and the span is `[0, 1]`.
   */
  lemma SpanOfMisplacesArgument()
    ensures ArgumentMatches("url(u)") == [Found(0, Hit("url(u)", ["u"]))]
    ensures SpanOf(Found(0, Hit("url(u)", ["u"])), 1) == Span(0, 1)
    ensures GroupSpan(Found(0, Hit("url(u)", ["u"])), 1) == Span(4, 5)
  {
    var s := "url(u)";
    UrlArgumentReSound();
    assert s[..4] == "url(";
    assert IndexOfChar(s, ')', 4) == Some(5);
    assert s[..6] == "url(u)" && s[4..5] == "u";
    assert UrlArgumentRe(s) == Some(Hit("url(u)", ["u"]));
    assert s[6..] == [];
    assert "url(u)"[0..1] == "u";
    assert StartsAt("url(u)", 0, "u");
    assert IndexOfFrom("url(u)", "u", 0) == Some(0);
  }
}
