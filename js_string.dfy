/**
 * The JavaScript string built-ins that the CSS rewriter relies on, stated over
 * Dafny strings: `String.prototype.trim`, `indexOf`, `substring`, `endsWith`,
 * the `\s` and `.` classes of regular expressions, and `replace` with a
 * global regular expression made of literal characters only.
 */
module JsString {

  /** WhiteSpace or LineTerminator in ECMAScript: what `trim()` strips and what `\s` matches. */
  predicate IsSpace(c: char) {
    || c == '\t' || c == '\n' || c == '\U{000B}' || c == '\U{000C}' || c == '\r'
    || c == ' ' || c == '\U{00A0}' || c == '\U{1680}'
    || ('\U{2000}' <= c <= '\U{200A}')
    || c == '\U{2028}' || c == '\U{2029}' || c == '\U{202F}' || c == '\U{205F}'
    || c == '\U{3000}' || c == '\U{FEFF}'
  }

  /** LineTerminator in ECMAScript: the characters `.` does not match without the `s` flag. */
  predicate IsLineTerminator(c: char) {
    c == '\n' || c == '\r' || c == '\U{2028}' || c == '\U{2029}'
  }

  /** `w` occurs in `s` at index `i`. */
  predicate StartsAt(s: string, i: int, w: string) {
    0 <= i && i + |w| <= |s| && s[i..i + |w|] == w
  }

  /** `w` occurs somewhere in `s`. */
  ghost predicate Occurs(s: string, w: string) {
    exists i :: StartsAt(s, i, w)
  }

  /** `s.endsWith(w)`. */
  predicate EndsWith(s: string, w: string) {
    |w| <= |s| && s[|s| - |w|..] == w
  }

  lemma StartsAtShift(s: string, k: nat, i: int, w: string)
    requires k <= |s|
    ensures StartsAt(s[k..], i, w) <==> 0 <= i && StartsAt(s, i + k, w)
  {
    if 0 <= i && i + |w| <= |s| - k {
      assert s[k..][i..i + |w|] == s[i + k..i + k + |w|];
    }
  }

  lemma SliceOfSlice(s: string, a: nat, b: nat, i: nat, j: nat)
    requires a <= b <= |s| && i <= j <= b - a
    ensures s[a..b][i..j] == s[a + i..a + j]
  {
    forall k | 0 <= k < j - i
      ensures s[a..b][i..j][k] == s[a + i..a + j][k]
    {
      assert s[a..b][i..j][k] == s[a..b][i + k] == s[a + i + k];
    }
  }

  lemma OccursInSuffix(s: string, k: nat, w: string)
    requires k <= |s|
    ensures Occurs(s[k..], w) ==> Occurs(s, w)
  {
    if Occurs(s[k..], w) {
      var i :| StartsAt(s[k..], i, w);
      StartsAtShift(s, k, i, w);
    }
  }

  /** A string that lacks the first character of `w` cannot contain `w`. */
  lemma NoFirstCharNoOccurrence(s: string, w: string)
    requires |w| > 0 && w[0] !in s
    ensures !Occurs(s, w)
  {
    forall i | 0 <= i && i + |w| <= |s| ensures !StartsAt(s, i, w) {
      assert s[i..i + |w|][0] == s[i] && s[i] in s;
    }
  }

  /** A string that lacks some character of `w` cannot contain `w`. */
  lemma MissingCharNoOccurrence(s: string, w: string, k: nat)
    requires k < |w| && w[k] !in s
    ensures !Occurs(s, w)
  {
    forall i | 0 <= i && i + |w| <= |s| ensures !StartsAt(s, i, w) {
      assert s[i..i + |w|][k] == s[i + k] && s[i + k] in s;
    }
  }

  /** An occurrence of `w` cannot start inside a prefix `p` that lacks the first character of `w`. */
  lemma NotStartsInPrefix(p: string, t: string, i: int, w: string)
    requires |w| > 0 && w[0] !in p && 0 <= i < |p|
    ensures !StartsAt(p + t, i, w)
  {
    if i + |w| <= |p + t| {
      assert (p + t)[i..i + |w|][0] == p[i] && p[i] in p;
    }
  }

  /** Past a prefix `p`, occurrences in `p + t` are the occurrences in `t`. */
  lemma StartsAfterPrefix(p: string, t: string, i: int, w: string)
    requires |p| <= i
    ensures StartsAt(p + t, i, w) <==> StartsAt(t, i - |p|, w)
  {
    if i + |w| <= |p + t| {
      assert (p + t)[i..i + |w|] == t[i - |p|..i - |p| + |w|];
    }
  }

  /**
   * A prefix `r` of a suffix `t` of `s` is the text of `s` from where `t`
   * starts, and when everything after `r` in `t` satisfies `p`, so does
   * everything after it in `s`.
   */
  lemma OuterRuns<T>(s: seq<T>, t: seq<T>, r: seq<T>, p: T -> bool)
    requires |t| <= |s| && t == s[|s| - |t|..] && |r| <= |t| && r == t[..|r|]
    requires forall k :: |r| <= k < |t| ==> p(t[k])
    ensures var a := |s| - |t|;
            && a + |r| <= |s| && (forall k :: 0 <= k < |r| ==> r[k] == s[a + k])
            && forall k :: a + |r| <= k < |s| ==> p(s[k])
  {
    var a := |s| - |t|;
    forall k | 0 <= k < |r|
      ensures r[k] == s[a + k]
    {
      assert r[k] == t[k];
    }
    forall k | a + |r| <= k < |s|
      ensures p(s[k])
    {
      assert s[k] == t[k - a];
    }
  }

  /** `s.trimStart()`: the longest suffix of `s` that does not begin with white space. */
  function TrimStart(s: string): (r: string)
    ensures |r| <= |s| && r == s[|s| - |r|..]
    ensures forall k :: 0 <= k < |s| - |r| ==> IsSpace(s[k])
    ensures r == [] || !IsSpace(r[0])
  {
    if |s| > 0 && IsSpace(s[0]) then TrimStart(s[1..]) else s
  }

  /** `s.trimEnd()`: the longest prefix of `s` that does not end with white space. */
  function TrimEnd(s: string): (r: string)
    ensures |r| <= |s| && r == s[..|r|]
    ensures forall k :: |r| <= k < |s| ==> IsSpace(s[k])
    ensures r == [] || !IsSpace(r[|r| - 1])
  {
    if |s| > 0 && IsSpace(s[|s| - 1]) then TrimEnd(s[..|s| - 1]) else s
  }

  /** `a.reverse()` on an array holding `s`. */
  function Reverse<T>(s: seq<T>): (r: seq<T>)
    ensures |r| == |s|
    ensures forall i :: 0 <= i < |s| ==> r[i] == s[|s| - 1 - i]
  {
    if |s| == 0 then [] else Reverse(s[1..]) + [s[0]]
  }

  /** `s.trim()`: neither starts nor ends with white space (see `TrimRemovesOuterSpace`). */
  function Trim(s: string): (r: string)
    ensures r == [] || (!IsSpace(r[0]) && !IsSpace(r[|r| - 1]))
  {
    TrimEnd(TrimStart(s))
  }

  /**
   * `s.trim()` is `s` without its leading and its trailing white space: its
   * text starts where the leading run ends, and everything before and after
   * it is white space.
   */
  lemma TrimRemovesOuterSpace(s: string)
    ensures var a := |s| - |TrimStart(s)|;
            var r := Trim(s);
            && a + |r| <= |s| && (forall k :: 0 <= k < |r| ==> r[k] == s[a + k])
            && (forall k :: 0 <= k < a ==> IsSpace(s[k]))
            && (forall k :: a + |r| <= k < |s| ==> IsSpace(s[k]))
  {
    var t := TrimStart(s);
    var r := TrimEnd(t);
    assert Trim(s) == r;
    OuterRuns(s, t, r, IsSpace);
  }

  /** The first index at or after `from` that holds `c`, as the search of a regular expression finds it. */
  function IndexOfChar(s: string, c: char, from: nat): (r: Option<nat>)
    requires from <= |s|
    ensures r.Some? ==> from <= r.value < |s| && s[r.value] == c && c !in s[from..r.value]
    ensures r.None? ==> c !in s[from..]
    decreases |s| - from
  {
    if from == |s| then None
    else if s[from] == c then Some(from)
    else IndexOfChar(s, c, from + 1)
  }

  /** The search for `c` from `from` stops at `j` when `s[j]` is the first `c` there. */
  lemma {:induction false} IndexOfCharAt(s: string, c: char, from: nat, j: nat)
    requires from <= j < |s| && s[j] == c && c !in s[from..j]
    ensures IndexOfChar(s, c, from) == Some(j)
    decreases j - from
  {
    if from < j {
      assert s[from] == s[from..j][0];
      assert s[from + 1..j] == s[from..j][1..];
      IndexOfCharAt(s, c, from + 1, j);
    }
  }

  /** The first occurrence of `w` in `s` at or after `from`. */
  function IndexOfFrom(s: string, w: string, from: nat): Option<nat>
    decreases |s| + 1 - from
  {
    if from + |w| > |s| then None
    else if s[from..from + |w|] == w then Some(from)
    else IndexOfFrom(s, w, from + 1)
  }

  lemma {:induction false} IndexOfFromIsFirst(s: string, w: string, from: nat)
    ensures var r := IndexOfFrom(s, w, from);
            && (r.Some? ==> from <= r.value && StartsAt(s, r.value, w))
            && (r.Some? ==> forall k :: from <= k < r.value ==> !StartsAt(s, k, w))
            && (r.None? ==> forall k :: from <= k ==> !StartsAt(s, k, w))
    decreases |s| + 1 - from
  {
    if from + |w| <= |s| && s[from..from + |w|] != w {
      IndexOfFromIsFirst(s, w, from + 1);
    }
  }

  /** `s.indexOf(w)`: the first index of `w` in `s`, or -1. */
  function IndexOf(s: string, w: string): int {
    match IndexOfFrom(s, w, 0)
    case Some(i) => i
    case None => -1
  }

  /** `indexOf` finds the first occurrence, and gives -1 exactly when there is none. */
  lemma IndexOfIsFirst(s: string, w: string)
    ensures var r := IndexOf(s, w);
            && (r == -1 <==> !Occurs(s, w))
            && (r >= 0 ==> StartsAt(s, r, w) && forall k :: 0 <= k < r ==> !StartsAt(s, k, w))
  {
    IndexOfFromIsFirst(s, w, 0);
  }

  /** Where `w` occurs at `at`, `indexOf` finds it there or earlier. */
  lemma IndexOfAtMost(s: string, w: string, at: nat)
    requires StartsAt(s, at, w)
    ensures 0 <= IndexOf(s, w) <= at && StartsAt(s, IndexOf(s, w), w)
  {
    IndexOfIsFirst(s, w);
  }

  /**
   * `s.substring(a, b)`: both ends are clamped to the string and, when the
   * first exceeds the second, the two are swapped.
   */
  function Substring(s: string, a: int, b: int): (r: string)
    ensures var lo := Clamp(if a <= b then a else b, |s|);
            var hi := Clamp(if a <= b then b else a, |s|);
            r == s[lo..hi]
  {
    var x, y := Clamp(a, |s|), Clamp(b, |s|);
    if x <= y then s[x..y] else s[y..x]
  }

  function Clamp(i: int, n: nat): (r: nat)
    ensures r <= n
    ensures 0 <= i <= n ==> r == i
  {
    if i < 0 then 0 else if i > n then n else i
  }

  /**
   * `s.replace(/pat/g, rep)` for a pattern made of literal characters and a
   * replacement without `$` patterns: the occurrences of `pat` found scanning
   * left to right, each search resuming after the previous occurrence, are
   * replaced; everything else is copied.
   */
  function ReplaceAll(s: string, pat: string, rep: string): string
    requires |pat| > 0
    decreases |s|
  {
    if |s| == 0 then ""
    else if StartsAt(s, 0, pat) then rep + ReplaceAll(s[|pat|..], pat, rep)
    else [s[0]] + ReplaceAll(s[1..], pat, rep)
  }

  /** Without an occurrence of the pattern, the replacement gives its input back. */
  lemma {:induction false} ReplaceAllWithoutOccurrence(s: string, pat: string, rep: string)
    requires |pat| > 0 && !Occurs(s, pat)
    ensures ReplaceAll(s, pat, rep) == s
    decreases |s|
  {
    if |s| > 0 {
      assert !StartsAt(s, 0, pat);
      OccursInSuffix(s, 1, pat);
      ReplaceAllWithoutOccurrence(s[1..], pat, rep);
      assert s == [s[0]] + s[1..];
    }
  }

  /**
   * When the output of a replacement starts with `v`, so does its input,
   * provided the replacement text begins with a character that `v` lacks.
   */
  lemma {:induction false} ReplaceAllKeepsPrefix(t: string, pat: string, rep: string, v: string)
    requires |pat| > 0 && |rep| > 0 && rep[0] !in v
    requires StartsAt(ReplaceAll(t, pat, rep), 0, v)
    ensures StartsAt(t, 0, v)
    decreases |t|
  {
    var r := ReplaceAll(t, pat, rep);
    if |v| > 0 {
      assert r[0] == r[..|v|][0] == v[0] && v[0] in v;
      assert !StartsAt(t, 0, pat);
      var r' := ReplaceAll(t[1..], pat, rep);
      assert r == [t[0]] + r';
      assert r'[..|v| - 1] == r[1..|v|];
      assert StartsAt(r', 0, v[1..]);
      ReplaceAllKeepsPrefix(t[1..], pat, rep, v[1..]);
      assert t[..|v|] == [t[0]] + t[1..][..|v| - 1];
    }
  }

  /** An occurrence at the head of `[c] + x` is `c` followed by an occurrence of the rest at the head of `x`. */
  lemma StartsAtCons(c: char, x: string, w: string)
    requires |w| > 0
    ensures StartsAt([c] + x, 0, w) <==> c == w[0] && StartsAt(x, 0, w[1..])
  {
    if |w| <= |x| + 1 {
      assert ([c] + x)[0..|w|] == [c] + x[0..|w| - 1];
      assert w == [w[0]] + w[1..];
    }
  }

  /** Where the first character of `s` is copied, an occurrence at the head of the output was one in `s`. */
  lemma CopiedHead(s: string, pat: string, rep: string, w: string)
    requires |pat| > 0 && |rep| > 0 && |w| > 0 && rep[0] !in w[1..]
    requires |s| > 0 && !StartsAt(s, 0, pat)
    ensures StartsAt(ReplaceAll(s, pat, rep), 0, w) ==> StartsAt(s, 0, w)
  {
    var t := s[1..];
    var r' := ReplaceAll(t, pat, rep);
    assert ReplaceAll(s, pat, rep) == [s[0]] + r';
    if StartsAt([s[0]] + r', 0, w) {
      StartsAtCons(s[0], r', w);
      ReplaceAllKeepsPrefix(t, pat, rep, w[1..]);
      assert StartsAt(t, 0, w[1..]);
      assert s == [s[0]] + t;
      StartsAtCons(s[0], t, w);
    }
  }

  /**
   * After a replacement, the output contains no occurrence of `w`, where
   * `w` is the pattern itself or a string the input did not contain,
   * provided the replacement text cannot take part in an occurrence of `w`.
   */
  lemma {:induction false} ReplaceAllLeavesNo(s: string, pat: string, rep: string, w: string)
    requires |pat| > 0 && |rep| > 0 && |w| > 0
    requires w[0] !in rep && rep[0] !in w[1..]
    requires w == pat || !Occurs(s, w)
    ensures !Occurs(ReplaceAll(s, pat, rep), w)
    decreases |s|
  {
    var r := ReplaceAll(s, pat, rep);
    if |s| == 0 {
    } else if StartsAt(s, 0, pat) {
      var t := s[|pat|..];
      OccursInSuffix(s, |pat|, w);
      ReplaceAllLeavesNo(t, pat, rep, w);
      assert r == rep + ReplaceAll(t, pat, rep);
      forall i | 0 <= i ensures !StartsAt(r, i, w) {
        if i < |rep| {
          NotStartsInPrefix(rep, ReplaceAll(t, pat, rep), i, w);
        } else {
          StartsAfterPrefix(rep, ReplaceAll(t, pat, rep), i, w);
        }
      }
    } else {
      var t := s[1..];
      OccursInSuffix(s, 1, w);
      ReplaceAllLeavesNo(t, pat, rep, w);
      assert r == [s[0]] + ReplaceAll(t, pat, rep);
      assert !StartsAt(s, 0, w);
      CopiedHead(s, pat, rep, w);
      forall i | 1 <= i ensures !StartsAt(r, i, w) {
        StartsAfterPrefix([s[0]], ReplaceAll(t, pat, rep), i, w);
      }
    }
  }

  /** A replacement whose pattern does not end with the last character of `s` keeps that last character. */
  lemma {:induction false} ReplaceAllKeepsLast(s: string, pat: string, rep: string)
    requires |pat| > 0 && |s| > 0 && s[|s| - 1] != pat[|pat| - 1]
    ensures var r := ReplaceAll(s, pat, rep); |r| > 0 && r[|r| - 1] == s[|s| - 1]
    decreases |s|
  {
    if StartsAt(s, 0, pat) {
      assert s[|pat| - 1] == s[..|pat|][|pat| - 1] == pat[|pat| - 1];
      ReplaceAllKeepsLast(s[|pat|..], pat, rep);
    } else if |s| > 1 {
      ReplaceAllKeepsLast(s[1..], pat, rep);
    }
  }

  import opened Wrappers
}
