/**
 * The two uses of a global regular expression that the stylesheet rewriter
 * makes: `String.prototype.replace` with a replacer function, and
 * `String.prototype.matchAll`.
 *
 * A regular expression is given by the match it finds when tried at the
 * start of a text.  None of the expressions of the rewriter looks behind the
 * point where it is tried (no `^`, no `\b`, no look-behind), so trying one at
 * index `i` of `s` is trying it at the start of `s[i..]`.
 */
module JsRegex {
  import opened Wrappers

  /** A match: `m[0]`, the matched text, and the capture groups `m[1]`, `m[2]`, ... */
  datatype Hit = Hit(whole: string, groups: seq<string>)

  /** A regular expression, by the match it finds at the start of a text, if any. */
  type Regex = string -> Option<Hit>

  /** A replacer function given to `replace`; `None` where it throws. */
  type Replacer = Hit -> Option<string>

  /** `h` matches a non-empty prefix of `s`. */
  predicate MatchesPrefix(s: string, h: Hit) {
    0 < |h.whole| <= |s| && s[..|h.whole|] == h.whole
  }

  /** What the expression matches is a non-empty prefix of the text it is tried on. */
  ghost predicate Sound(re: Regex) {
    forall s :: re(s).Some? ==> MatchesPrefix(s, re(s).value)
  }

  /** `m[k]`: the text of group `k`, empty for a group the expression does not have. */
  function Group(h: Hit, k: nat): string {
    if 1 <= k <= |h.groups| then h.groups[k - 1] else ""
  }

  /** `p + r`, or the failure of `r`. */
  function Prefixed(p: string, r: Option<string>): Option<string> {
    if r.Some? then Some(p + r.value) else None
  }

  lemma PrefixedTwice(a: string, b: string, r: Option<string>)
    ensures Prefixed(a, Prefixed(b, r)) == Prefixed(a + b, r)
  {
    if r.Some? { assert a + (b + r.value) == (a + b) + r.value; }
  }

  lemma PrefixedEmpty(r: Option<string>)
    ensures Prefixed("", r) == r
  {
    if r.Some? { assert "" + r.value == r.value; }
  }

  // ---------------------------------------------------------------------------
  // replace

  /**
   * `s.replace(re, f)` for a global `re`: scanning from left to right, each
   * match is replaced by what `f` makes of it and the search goes on right
   * after the match; every other character is copied.  A throw of `f` aborts
   * the replace.
   */
  function Replace(re: Regex, f: Replacer, s: string): Option<string>
    requires Sound(re)
    decreases |s|
  {
    if |s| == 0 then Some("")
    else match re(s)
      case Some(h) =>
        var rep :- f(h);
        Prefixed(rep, Replace(re, f, s[|h.whole|..]))
      case None =>
        Prefixed([s[0]], Replace(re, f, s[1..]))
  }

  /** Text in front of the first position where the expression matches is copied unchanged. */
  lemma {:induction false} ReplaceCopiesText(re: Regex, f: Replacer, s: string, k: nat)
    requires Sound(re) && k <= |s|
    requires forall i :: 0 <= i < k ==> re(s[i..]).None?
    ensures Replace(re, f, s) == Prefixed(s[..k], Replace(re, f, s[k..]))
    decreases k
  {
    if k > 0 {
      assert s[0..] == s;
      var t := s[1..];
      forall i | 0 <= i < k - 1
        ensures re(t[i..]).None?
      {
        assert t[i..] == s[i + 1..];
      }
      ReplaceCopiesText(re, f, t, k - 1);
      assert t[k - 1..] == s[k..];
      assert [s[0]] + t[..k - 1] == s[..k];
      PrefixedTwice([s[0]], t[..k - 1], Replace(re, f, s[k..]));
    } else {
      assert s[k..] == s;
      PrefixedEmpty(Replace(re, f, s));
    }
  }

  /** Where the expression matches at the start, its replacement comes first and the rest follows the match. */
  lemma ReplaceAtMatch(re: Regex, f: Replacer, s: string)
    requires Sound(re) && re(s).Some?
    ensures var h := re(s).value;
            Replace(re, f, s) == if f(h).None? then None else Prefixed(f(h).value, Replace(re, f, s[|h.whole|..]))
  {
  }

  /** Replacing every match by its own text gives the text back: nothing outside the matches changes. */
  lemma {:induction false} ReplaceByItself(re: Regex, f: Replacer, s: string)
    requires Sound(re)
    requires forall h :: f(h) == Some(h.whole)
    ensures Replace(re, f, s) == Some(s)
    decreases |s|
  {
    if |s| > 0 {
      match re(s)
      case Some(h) =>
        ReplaceByItself(re, f, s[|h.whole|..]);
        assert s == h.whole + s[|h.whole|..];
      case None =>
        ReplaceByItself(re, f, s[1..]);
        assert s == [s[0]] + s[1..];
    }
  }

  // ---------------------------------------------------------------------------
  // matchAll

  /** A result of `matchAll`: the index of the match in the searched string, and the match. */
  datatype Found = Found(index: nat, hit: Hit)

  /**
   * `s.matchAll(re)` for the part `s` of the searched string that starts at
   * index `offset`: the matches the global search finds from left to right,
   * each search going on right after the previous match.
   */
  function MatchAll(re: Regex, s: string, offset: nat): seq<Found>
    requires Sound(re)
    decreases |s|
  {
    if |s| == 0 then []
    else match re(s)
      case Some(h) => [Found(offset, h)] + MatchAll(re, s[|h.whole|..], offset + |h.whole|)
      case None => MatchAll(re, s[1..], offset + 1)
  }

  /** The match `m` is what `re` finds at its index of `s`, which starts at index `offset`. */
  predicate FoundIn(re: Regex, s: string, offset: nat, m: Found) {
    && offset <= m.index && m.index - offset + |m.hit.whole| <= |s|
    && s[m.index - offset..m.index - offset + |m.hit.whole|] == m.hit.whole
    && re(s[m.index - offset..]) == Some(m.hit)
  }

  lemma FoundInSuffix(re: Regex, s: string, offset: nat, k: nat, m: Found)
    requires k <= |s| && FoundIn(re, s[k..], offset + k, m)
    ensures FoundIn(re, s, offset, m)
  {
    var i := m.index - offset;
    assert s[k..][i - k..i - k + |m.hit.whole|] == s[i..i + |m.hit.whole|];
    assert s[k..][i - k..] == s[i..];
  }

  /** Every result of `matchAll` is what the expression finds at its index. */
  lemma {:induction false} MatchAllFound(re: Regex, s: string, offset: nat)
    requires Sound(re)
    ensures forall m :: m in MatchAll(re, s, offset) ==> FoundIn(re, s, offset, m)
    decreases |s|
  {
    if |s| > 0 {
      var ms := MatchAll(re, s, offset);
      match re(s)
      case Some(h) =>
        var n := |h.whole|;
        var rest := MatchAll(re, s[n..], offset + n);
        MatchAllFound(re, s[n..], offset + n);
        assert ms == [Found(offset, h)] + rest;
        forall m | m in ms
          ensures FoundIn(re, s, offset, m)
        {
          if m in rest {
            FoundInSuffix(re, s, offset, n, m);
          } else {
            assert s[0..] == s;
          }
        }
      case None =>
        MatchAllFound(re, s[1..], offset + 1);
        forall m | m in ms
          ensures FoundIn(re, s, offset, m)
        {
          FoundInSuffix(re, s, offset, 1, m);
        }
    }
  }

  /** Each match of `ms` starts at or after `from`, and each later one at or after the end of the one before. */
  predicate InOrder(ms: seq<Found>, from: nat) {
    |ms| == 0 || (from <= ms[0].index && InOrder(ms[1..], ms[0].index + |ms[0].hit.whole|))
  }

  /** The results of `matchAll` come in order of index and do not overlap. */
  lemma {:induction false} MatchAllInOrder(re: Regex, s: string, offset: nat)
    requires Sound(re)
    ensures InOrder(MatchAll(re, s, offset), offset)
    decreases |s|
  {
    if |s| > 0 {
      match re(s)
      case Some(h) =>
        var n := |h.whole|;
        var ms := MatchAll(re, s, offset);
        MatchAllInOrder(re, s[n..], offset + n);
        assert ms[1..] == MatchAll(re, s[n..], offset + n);
      case None =>
        var rest := MatchAll(re, s[1..], offset + 1);
        MatchAllInOrder(re, s[1..], offset + 1);
        InOrderLater(rest, offset, offset + 1);
    }
  }

  lemma InOrderLater(ms: seq<Found>, from: nat, later: nat)
    requires from <= later && InOrder(ms, later)
    ensures InOrder(ms, from)
  {
  }

  /**
   * `replace` throws exactly when the replacer throws on one of the matches
   * that `matchAll` lists.
   */
  lemma {:induction false} ReplaceSucceedsIff(re: Regex, f: Replacer, s: string, offset: nat)
    requires Sound(re)
    ensures Replace(re, f, s).Some? <==> forall m :: m in MatchAll(re, s, offset) ==> f(m.hit).Some?
    decreases |s|
  {
    if |s| > 0 {
      match re(s)
      case Some(h) =>
        var rest := MatchAll(re, s[|h.whole|..], offset + |h.whole|);
        ReplaceSucceedsIff(re, f, s[|h.whole|..], offset + |h.whole|);
        assert MatchAll(re, s, offset) == [Found(offset, h)] + rest;
        assert Found(offset, h) in MatchAll(re, s, offset);
        assert forall m :: m in rest ==> m in MatchAll(re, s, offset);
      case None =>
        ReplaceSucceedsIff(re, f, s[1..], offset + 1);
    }
  }

  /** Without matches, `replace` gives the text back whatever the replacer. */
  lemma {:induction false} ReplaceWithoutMatches(re: Regex, f: Replacer, s: string, offset: nat)
    requires Sound(re) && MatchAll(re, s, offset) == []
    ensures Replace(re, f, s) == Some(s)
    decreases |s|
  {
    if |s| > 0 {
      ReplaceWithoutMatches(re, f, s[1..], offset + 1);
      assert s == [s[0]] + s[1..];
    }
  }
}
