/** String helpers shared by the web app (JavaScript `trim`, `toLowerCase`,
    `indexOf`) and the spreadsheet converter (Python `strip`, `lower`, `in`,
    `replace`). */
module Text {
  import opened Wrappers

  /** The ASCII whitespace both `String.prototype.trim` and `str.strip`
      remove. Python's `strip` also removes the separators U+001C to U+001F,
      which `trim` keeps; both remove further non-ASCII spaces. Neither
      difference is modelled. */
  predicate IsSpace(c: char) {
    c == ' ' || c == '\t' || c == '\n' || c == '\r' || c == '\U{000B}' || c == '\U{000C}'
  }

  /** Every character of `s` is whitespace (so `""` is blank). */
  predicate Blank(s: string) {
    forall i :: 0 <= i < |s| ==> IsSpace(s[i])
  }

  /** Leading whitespace removed: the result is a suffix of `s`, everything cut
      off is whitespace, and the result does not start with whitespace. */
  function TrimStart(s: string): (r: string)
    ensures |r| <= |s| && r == s[|s| - |r|..]
    ensures forall i :: 0 <= i < |s| - |r| ==> IsSpace(s[i])
    ensures r == [] || !IsSpace(r[0])
  {
    s[FirstNonSpace(s, 0)..]
  }

  /** The position of the first character at or after `i` that is not
      whitespace, or `|s|` when there is none. */
  function FirstNonSpace(s: string, i: nat): (k: nat)
    requires i <= |s|
    ensures i <= k <= |s|
    ensures forall j :: i <= j < k ==> IsSpace(s[j])
    ensures k < |s| ==> !IsSpace(s[k])
    decreases |s| - i
  {
    if i < |s| && IsSpace(s[i]) then FirstNonSpace(s, i + 1) else i
  }

  /** Trailing whitespace removed: the result is a prefix of `s`, everything cut
      off is whitespace, and the result does not end with whitespace. */
  function TrimEnd(s: string): (r: string)
    ensures |r| <= |s| && r == s[..|r|]
    ensures forall i :: |r| <= i < |s| ==> IsSpace(s[i])
    ensures r == [] || !IsSpace(r[|r| - 1])
  {
    if s != [] && IsSpace(s[|s| - 1]) then TrimEnd(s[..|s| - 1]) else s
  }

  /** `s.trim()` in JavaScript, `s.strip()` in Python: the result is empty
      exactly when `s` is blank, and it neither starts nor ends with whitespace. */
  function Strip(s: string): (r: string)
    ensures r == "" <==> Blank(s)
    ensures r != "" ==> !IsSpace(r[0]) && !IsSpace(r[|r| - 1])
    ensures |r| <= |s|
  {
    StripEmptyWhenBlank(s);
    var t := TrimStart(s);
    var r := TrimEnd(t);
    assert r != [] ==> r[0] == t[0];
    r
  }

  /** Both trims leave nothing exactly when the string is blank. */
  lemma StripEmptyWhenBlank(s: string)
    ensures TrimEnd(TrimStart(s)) == "" <==> Blank(s)
  {
    var t := TrimStart(s);
    var r := TrimEnd(t);
    if r == "" {
      assert |t| == 0;
    } else {
      assert r[0] == t[0] == s[|s| - |t|];
    }
  }

  /** `toLowerCase` / `lower` on one character, for the Latin and Cyrillic
      capitals (including the U+0400 to U+040F letters such as Ё); every other
      character is its own lower case. */
  function LowerChar(c: char): char {
    if 'A' <= c <= 'Z' then (c as int + 32) as char
    else if '\U{0410}' <= c <= '\U{042F}' then (c as int + 32) as char
    else if '\U{0400}' <= c <= '\U{040F}' then (c as int + 80) as char
    else c
  }

  /** `toLowerCase` / `lower` on a string, character by character. */
  function Lower(s: string): (r: string)
    ensures |r| == |s|
  {
    seq(|s|, i requires 0 <= i < |s| => LowerChar(s[i]))
  }

  /** Python's `w in s` on strings: `w` occurs in `s` as a contiguous substring. */
  predicate Contains(s: string, w: string)
    decreases |s|
  {
    w <= s || (s != [] && Contains(s[1..], w))
  }

  /** `w` occurs in `s` starting at position `i`. */
  predicate OccursAt(s: string, w: string, i: int) {
    0 <= i && i + |w| <= |s| && s[i..i + |w|] == w
  }

  /** `Contains` is the usual substring test: `w` occurs at some position of
      `s`. */
  lemma {:induction false} ContainsAt(s: string, w: string)
    ensures Contains(s, w) <==> exists i :: OccursAt(s, w, i)
    decreases |s|
  {
    if s == [] {
      if Contains(s, w) {
        assert OccursAt(s, w, 0);
      }
    } else {
      ContainsAt(s[1..], w);
      if w <= s {
        assert OccursAt(s, w, 0);
      }
      if exists i :: OccursAt(s, w, i) {
        var i :| OccursAt(s, w, i);
        if i > 0 {
          assert s[1..][i - 1..i - 1 + |w|] == s[i..i + |w|];
          assert OccursAt(s[1..], w, i - 1);
        } else {
          assert s[..|w|] == w;
        }
      }
      if Contains(s[1..], w) {
        var i :| OccursAt(s[1..], w, i);
        assert s[1..][i..i + |w|] == s[i + 1..i + 1 + |w|];
        assert OccursAt(s, w, i + 1);
      }
    }
  }

  /** Python's `s.replace(pat, rep)`: every non-overlapping occurrence of `pat`,
      scanning from the left, becomes `rep`. */
  function ReplaceAll(s: string, pat: string, rep: string): (r: string)
    requires pat != []
    ensures s != [] && rep != [] ==> r != []
    decreases |s|
  {
    if s == [] then []
    else if pat <= s then rep + ReplaceAll(s[|pat|..], pat, rep)
    else [s[0]] + ReplaceAll(s[1..], pat, rep)
  }

  /** Without an occurrence of `pat` there is nothing to replace. */
  lemma {:induction false} ReplaceAbsent(s: string, pat: string, rep: string)
    requires pat != [] && !Contains(s, pat)
    ensures ReplaceAll(s, pat, rep) == s
    decreases |s|
  {
    if s != [] {
      ReplaceAbsent(s[1..], pat, rep);
      assert [s[0]] + s[1..] == s;
    }
  }

  /** Replacing one character by another maps the string character by
      character. */
  lemma {:induction false} ReplaceChar(s: string, c: char, d: char)
    ensures ReplaceAll(s, [c], [d]) == seq(|s|, i requires 0 <= i < |s| => if s[i] == c then d else s[i])
    decreases |s|
  {
    if s != [] {
      ReplaceChar(s[1..], c, d);
      if [c] <= s {
        assert s[1..] == s[|[c]|..];
      }
    }
  }

  /** The leftmost occurrence of `pat` is replaced and the scan resumes
      after the whole match: when `pat` starts nowhere inside `a` (no
      occurrence within `a` or overlapping its end), `a + pat + b` becomes
      `a + rep` followed by the replacement of `b`. */
  lemma ReplaceLeftmost(a: string, pat: string, b: string, rep: string)
    requires pat != [] && !Contains(a + pat[..|pat| - 1], pat)
    ensures ReplaceAll(a + pat + b, pat, rep) == a + rep + ReplaceAll(b, pat, rep)
  {
    var t := pat + b;
    assert t[..|pat| - 1] == pat[..|pat| - 1];
    ReplaceSkips(a, t, pat, rep);
    assert t[|pat|..] == b;
    assert a + pat + b == a + t;
  }

  /** Text in which `pat` starts nowhere is copied unchanged. */
  lemma {:induction false} ReplaceSkips(a: string, t: string, pat: string, rep: string)
    requires pat != [] && |pat| - 1 <= |t| && !Contains(a + t[..|pat| - 1], pat)
    ensures ReplaceAll(a + t, pat, rep) == a + ReplaceAll(t, pat, rep)
    decreases |a|
  {
    if a == [] {
      assert a + t == t;
    } else {
      var front := a + t[..|pat| - 1];
      assert forall k :: 0 <= k < |pat| ==> (a + t)[k] == front[k];
      assert pat <= a + t ==> pat <= front;
      assert front[1..] == a[1..] + t[..|pat| - 1];
      assert (a + t)[1..] == a[1..] + t;
      ReplaceSkips(a[1..], t, pat, rep);
      assert a + ReplaceAll(t, pat, rep) == [a[0]] + (a[1..] + ReplaceAll(t, pat, rep));
    }
  }

  /** A prefix of the replaced text that does not hold the replacement's
      first character was copied from the text unchanged. */
  lemma {:induction false} ReplacedPrefix(t: string, pat: string, rep: string, q: string)
    requires pat != [] && rep != [] && rep[0] !in q
    ensures q <= ReplaceAll(t, pat, rep) ==> q <= t
    decreases |t|
  {
    if q != [] && t != [] {
      var r := ReplaceAll(t, pat, rep);
      if pat <= t {
        var first, head := rep[0], q[0];
        assert r == rep + ReplaceAll(t[|pat|..], pat, rep);
        assert q <= r ==> head == first;
      } else {
        assert r == [t[0]] + ReplaceAll(t[1..], pat, rep);
        ReplacedPrefix(t[1..], pat, rep, q[1..]);
        assert q == [q[0]] + q[1..];
      }
    }
  }

  /** Putting characters that cannot start `w` in front of a text without
      `w` makes no occurrence of `w`. */
  lemma {:induction false} NoOccurrenceAcross(u: string, t: string, w: string)
    requires w != [] && w[0] !in u && !Contains(t, w)
    ensures !Contains(u + t, w)
    decreases |u|
  {
    if u == [] {
      assert u + t == t;
    } else {
      assert (u + t)[1..] == u[1..] + t;
      NoOccurrenceAcross(u[1..], t, w);
    }
  }

  /** `replace` creates no occurrence of a word that shares no character
      with the replacement: a word absent before is absent after, and the
      pattern itself is gone afterwards. */
  lemma {:induction false} ReplaceKeepsAbsent(t: string, pat: string, rep: string, w: string)
    requires pat != [] && rep != [] && w != []
    requires forall c :: c in rep ==> c !in w
    requires w == pat || !Contains(t, w)
    ensures !Contains(ReplaceAll(t, pat, rep), w)
    decreases |t|
  {
    if t != [] {
      if pat <= t {
        var rest := t[|pat|..];
        if w != pat && Contains(rest, w) {
          ContainsInSuffix(t, |pat|, w);
        }
        ReplaceKeepsAbsent(rest, pat, rep, w);
        NoOccurrenceAcross(rep, ReplaceAll(rest, pat, rep), w);
      } else {
        var r := ReplaceAll(t[1..], pat, rep);
        ReplaceKeepsAbsent(t[1..], pat, rep, w);
        assert rep[0] !in w[1..] by {
          assert forall c :: c in w[1..] ==> c in w;
        }
        ReplacedPrefix(t[1..], pat, rep, w[1..]);
        assert ([t[0]] + r)[1..] == r;
        assert w <= t <== w[0] == t[0] && w[1..] <= t[1..];
      }
    }
  }

  /** An occurrence in a suffix is an occurrence in the whole. */
  lemma {:induction false} ContainsInSuffix(s: string, k: nat, w: string)
    requires k <= |s| && Contains(s[k..], w)
    ensures Contains(s, w)
    decreases k
  {
    if k > 0 {
      assert s[1..][k - 1..] == s[k..];
      ContainsInSuffix(s[1..], k - 1, w);
    }
  }

  /** An occurrence in a prefix is an occurrence in the whole. */
  lemma {:induction false} ContainsInPrefix(s: string, k: nat, w: string)
    requires k <= |s| && Contains(s[..k], w)
    ensures Contains(s, w)
    decreases k
  {
    if w <= s[..k] {
      assert w <= s;
    } else {
      assert s[..k][1..] == s[1..][..k - 1];
      ContainsInPrefix(s[1..], k - 1, w);
    }
  }

  /** A word occurs only where each of its characters does. */
  lemma {:induction false} ContainsNeedsChar(s: string, w: string, k: nat)
    requires k < |w| && w[k] !in s
    ensures !Contains(s, w)
    decreases |s|
  {
    if s != [] {
      var c := w[k];
      assert w <= s ==> c in s;
      ContainsNeedsChar(s[1..], w, k);
    }
  }

  /** A word longer than the text does not occur in it. */
  lemma {:induction false} ContainsNeedsLength(s: string, w: string)
    requires |w| > |s|
    ensures !Contains(s, w)
    decreases |s|
  {
    if s != [] {
      ContainsNeedsLength(s[1..], w);
    }
  }

  /** A word occurs in any text it begins. */
  lemma ContainsPrefix(s: string, w: string)
    requires w <= s
    ensures Contains(s, w)
  {
  }

  /** Stripping neither adds a character nor makes a word occur. */
  lemma StripIsSubstring(s: string, w: string)
    ensures forall c :: c in Strip(s) ==> c in s
    ensures Contains(Strip(s), w) ==> Contains(s, w)
  {
    var t := TrimStart(s);
    assert t == s[|s| - |t|..];
    var r := TrimEnd(t);
    assert r == t[..|r|];
    if Contains(r, w) {
      ContainsInPrefix(t, |r|, w);
      ContainsInSuffix(s, |s| - |t|, w);
    }
  }

  /** JavaScript's `xs.indexOf(x)`: the first position holding `x`, or `None`
      (the source's `-1`) when `x` does not occur. */
  function IndexOf<T(==)>(xs: seq<T>, x: T): (r: Option<nat>)
    ensures r.Some? ==> r.value < |xs| && xs[r.value] == x && x !in xs[..r.value]
    ensures r.None? <==> x !in xs
  {
    if xs == [] then None
    else if xs[0] == x then Some(0)
    else
      match IndexOf(xs[1..], x)
      case None => None
      case Some(i) =>
        assert xs[..i + 1] == [xs[0]] + xs[1..][..i];
        Some(i + 1)
  }

  /** `indexOf` finds the first occurrence. */
  lemma {:induction false} IndexOfFirst<T>(xs: seq<T>, x: T, m: nat)
    requires m < |xs| && xs[m] == x
    requires forall j :: 0 <= j < m ==> xs[j] != x
    ensures IndexOf(xs, x) == Some(m)
  {
    if m > 0 {
      IndexOfFirst(xs[1..], x, m - 1);
    }
  }

  /** Replacing a single character by a string without that character leaves no
      occurrence of it. */
  lemma {:induction false} ReplaceRemovesChar(s: string, c: char, rep: string)
    requires c !in rep
    ensures c !in ReplaceAll(s, [c], rep)
    decreases |s|
  {
    if s != [] {
      ReplaceRemovesChar(s[1..], c, rep);
      if [c] <= s {
        assert s[1..] == s[|[c]|..];
      }
    }
  }

  /** A word made of non-whitespace characters occurs in the stripped string
      exactly when it occurs in the string itself: stripping does not change
      which words a column name contains. */
  lemma {:induction false} StripKeepsWords(s: string, w: string)
    requires w != [] && forall i :: 0 <= i < |w| ==> !IsSpace(w[i])
    ensures Contains(Strip(s), w) <==> Contains(s, w)
  {
    var t := TrimStart(s);
    TrimStartSplits(s);
    BlankPrefixKeepsWords(s[..|s| - |t|], t, w);
    TrimEndSplits(t);
    BlankSuffixKeepsWords(TrimEnd(t), t[|TrimEnd(t)|..], w);
  }

  /** `s` is the whitespace `TrimStart` removed followed by what it kept. */
  lemma TrimStartSplits(s: string)
    ensures var t := TrimStart(s); s == s[..|s| - |t|] + t && Blank(s[..|s| - |t|])
  {
    var t := TrimStart(s);
    assert s == s[..|s| - |t|] + s[|s| - |t|..];
  }

  /** `t` is what `TrimEnd` kept followed by the whitespace it removed. */
  lemma TrimEndSplits(t: string)
    ensures var r := TrimEnd(t); t == r + t[|r|..] && Blank(t[|r|..])
  {
    var r := TrimEnd(t);
    assert t == t[..|r|] + t[|r|..];
    forall i | 0 <= i < |t[|r|..]| ensures IsSpace(t[|r|..][i]) {
      assert t[|r|..][i] == t[|r| + i];
    }
  }

  /** Contains on a concatenation whose prefix is blank. */
  lemma {:induction false} BlankPrefixKeepsWords(p: string, s: string, w: string)
    requires w != [] && forall i :: 0 <= i < |w| ==> !IsSpace(w[i])
    requires Blank(p)
    ensures Contains(p + s, w) <==> Contains(s, w)
    decreases |p|
  {
    if p != [] {
      assert !(w <= p + s) by {
        assert (p + s)[0] == p[0];
        assert IsSpace(p[0]) && !IsSpace(w[0]);
      }
      assert (p + s)[1..] == p[1..] + s;
      BlankPrefixKeepsWords(p[1..], s, w);
    } else {
      assert p + s == s;
    }
  }

  /** Contains on a concatenation whose suffix is blank. */
  lemma {:induction false} BlankSuffixKeepsWords(s: string, q: string, w: string)
    requires w != [] && forall i :: 0 <= i < |w| ==> !IsSpace(w[i])
    requires Blank(q)
    ensures Contains(s + q, w) <==> Contains(s, w)
    decreases |s|
  {
    if s == [] {
      BlankHasNoWords(q, w);
      assert s + q == q;
    } else {
      assert (s + q)[1..] == s[1..] + q;
      BlankSuffixKeepsWords(s[1..], q, w);
      if |s| < |w| <= |s| + |q| {
        assert (s + q)[|s|] == q[0];
        assert w[|s|] != q[0];
      }
    }
  }

  /** A blank string contains no word of non-whitespace characters. */
  lemma {:induction false} BlankHasNoWords(q: string, w: string)
    requires w != [] && forall i :: 0 <= i < |w| ==> !IsSpace(w[i])
    requires Blank(q)
    ensures !Contains(q, w)
    decreases |q|
  {
    if q != [] {
      assert w[0] != q[0];
      BlankHasNoWords(q[1..], w);
    }
  }
}
