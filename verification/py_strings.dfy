/**
 * The fragment of Python's `str` API the documentation extractors rely on:
 * `sub in s`, `s.split(sep)` with a non-empty separator, `sep.join(parts)`,
 * `s.strip()` and `s.replace(old, new)`. Strings are sequences of code points.
 */
module PyStrings {
  import opened Options

  /** `c.isspace()`: the code points Python's `str.strip()` removes by default. */
  predicate IsSpace(c: char) {
    var n := c as int;
    || n == 0x20 || (0x09 <= n <= 0x0D) || (0x1C <= n <= 0x1F) || n == 0x85 || n == 0xA0
    || n == 0x1680 || (0x2000 <= n <= 0x200A) || n == 0x2028 || n == 0x2029
    || n == 0x202F || n == 0x205F || n == 0x3000
  }

  predicate AllSpace(s: string) {
    forall k :: 0 <= k < |s| ==> IsSpace(s[k])
  }

  predicate IsPrefix(p: string, s: string) {
    |p| <= |s| && s[..|p|] == p
  }

  /** `pat` occurs in `s` starting at index `i`. */
  predicate MatchesAt(s: string, pat: string, i: nat) {
    i + |pat| <= |s| && s[i..i + |pat|] == pat
  }

  /** `s.find(pat, from)`: the left-most occurrence of `pat` at or after `from`. */
  function Find(s: string, pat: string, from: nat): (r: Option<nat>)
    decreases |s| - from
    ensures r.Some? ==> from <= r.value && MatchesAt(s, pat, r.value)
    ensures r.Some? ==> forall j :: from <= j < r.value ==> !MatchesAt(s, pat, j)
    ensures r.None? ==> forall j :: from <= j ==> !MatchesAt(s, pat, j)
  {
    if from + |pat| > |s| then None
    else if s[from..from + |pat|] == pat then Some(from)
    else Find(s, pat, from + 1)
  }

  /** `pat in s`, scanning `s` from the left. */
  function Contains(s: string, pat: string): bool
    decreases |s|
  {
    if |pat| > |s| then false
    else s[..|pat|] == pat || Contains(s[1..], pat)
  }

  /** `pat in s` holds exactly when `pat` occurs somewhere in `s`. */
  lemma {:induction false} ContainsMeaning(s: string, pat: string)
    decreases |s|
    ensures Contains(s, pat) <==> exists i: nat :: MatchesAt(s, pat, i)
  {
    if |pat| > |s| {
    } else if s[..|pat|] == pat {
      assert MatchesAt(s, pat, 0);
    } else {
      ContainsMeaning(s[1..], pat);
      if exists i: nat :: MatchesAt(s[1..], pat, i) {
        var i: nat :| MatchesAt(s[1..], pat, i);
        assert s[1..][i..i + |pat|] == s[i + 1..i + 1 + |pat|];
        assert MatchesAt(s, pat, i + 1);
      }
      if exists i: nat :: MatchesAt(s, pat, i) {
        var i: nat :| MatchesAt(s, pat, i);
        assert i > 0;
        assert s[1..][i - 1..i - 1 + |pat|] == s[i..i + |pat|];
        assert MatchesAt(s[1..], pat, i - 1);
      }
    }
  }

  /** `pat in s` holds exactly when `s.find(pat)` finds it. */
  lemma ContainsFinds(s: string, pat: string)
    ensures Contains(s, pat) <==> Find(s, pat, 0).Some?
  {
    ContainsMeaning(s, pat);
  }

  /** `sep.join(parts)`. */
  function JoinWith(parts: seq<string>, sep: string): (r: string)
    ensures |parts| == 0 ==> r == []
    ensures |parts| >= 1 ==> IsPrefix(parts[0], r)
  {
    if |parts| == 0 then []
    else if |parts| == 1 then parts[0]
    else parts[0] + sep + JoinWith(parts[1..], sep)
  }

  /** A match inside a prefix of `s` is a match inside `s`. */
  lemma MatchInPrefix(s: string, pat: string, n: nat, j: nat)
    requires n <= |s|
    requires MatchesAt(s[..n], pat, j)
    ensures MatchesAt(s, pat, j)
  {
    assert s[..n][j..j + |pat|] == s[j..j + |pat|];
  }

  /**
   * `s.split(sep)` for a non-empty separator: the pieces between the
   * non-overlapping occurrences of `sep`, scanning from the left. Joining
   * the pieces back with `sep` gives `s` (see `SplitPiecesFree` for the
   * pieces themselves).
   */
  function Split(s: string, sep: string): (r: seq<string>)
    requires sep != []
    decreases |s|
    ensures |r| >= 1
    ensures JoinWith(r, sep) == s
  {
    match Find(s, sep, 0)
    case None => [s]
    case Some(i) =>
      assert s == s[..i] + sep + s[i + |sep|..];
      [s[..i]] + Split(s[i + |sep|..], sep)
  }

  /**
   * The cuts are made at left-most occurrences: with two or more pieces, the
   * first ends where `sep` first occurs, and the rest is the split of what
   * follows that occurrence. This fixes the result even for a separator
   * that can overlap itself (`"aaa".split("aa") == ["", "a"]`), which the
   * round trip alone does not.
   */
  lemma SplitCutsLeftmost(s: string, sep: string)
    requires sep != []
    ensures var p := Split(s, sep);
      && (|p| == 1 <==> forall j: nat :: !MatchesAt(s, sep, j))
      && (|p| >= 2 ==>
            && MatchesAt(s, sep, |p[0]|)
            && (forall j :: 0 <= j < |p[0]| ==> !MatchesAt(s, sep, j))
            && p[1..] == Split(s[|p[0]| + |sep|..], sep))
  {
  }

  /** No piece of a split holds the separator, and a string without it splits into itself. */
  lemma {:induction false} SplitPiecesFree(s: string, sep: string)
    requires sep != []
    decreases |s|
    ensures forall k :: 0 <= k < |Split(s, sep)| ==> !Contains(Split(s, sep)[k], sep)
    ensures !Contains(s, sep) ==> Split(s, sep) == [s]
  {
    ContainsFinds(s, sep);
    match Find(s, sep, 0)
    case None =>
    case Some(i) =>
      var head := s[..i];
      assert !Contains(head, sep) by {
        ContainsMeaning(head, sep);
        forall j: nat | MatchesAt(head, sep, j) ensures false {
          MatchInPrefix(s, sep, i, j);
        }
      }
      SplitPiecesFree(s[i + |sep|..], sep);
      assert Split(s, sep) == [head] + Split(s[i + |sep|..], sep);
  }

  /** The first index at or after `i` that does not hold white space (or `|s|`). */
  function SkipSpace(s: string, i: nat): (r: nat)
    requires i <= |s|
    decreases |s| - i
    ensures i <= r <= |s|
    ensures forall k :: i <= k < r ==> IsSpace(s[k])
    ensures r < |s| ==> !IsSpace(s[r])
  {
    if i == |s| || !IsSpace(s[i]) then i else SkipSpace(s, i + 1)
  }

  /** The end of `s[lo..j]` once its trailing white space is dropped. */
  function TrimSpaceEnd(s: string, lo: nat, j: nat): (r: nat)
    requires lo <= j <= |s|
    decreases j
    ensures lo <= r <= j
    ensures forall k :: r <= k < j ==> IsSpace(s[k])
    ensures r > lo ==> !IsSpace(s[r - 1])
  {
    if j == lo || !IsSpace(s[j - 1]) then j else TrimSpaceEnd(s, lo, j - 1)
  }

  /**
   * `s.strip()`: `s` with its leading and trailing white space removed.
   * The result neither starts nor ends with white space; `StripMeaning`
   * says where it sits in `s`.
   */
  function Strip(s: string): (r: string)
    ensures |r| <= |s|
    ensures r == [] || (!IsSpace(r[0]) && !IsSpace(r[|r| - 1]))
  {
    var lo := SkipSpace(s, 0);
    s[lo..TrimSpaceEnd(s, lo, |s|)]
  }

  /**
   * The stripped string is a slice of `s` framed by white space only, and
   * it is empty exactly when `s` is all white space.
   */
  lemma StripMeaning(s: string)
    ensures var r := Strip(s);
      && (exists i :: 0 <= i <= |s| - |r| && r == s[i..i + |r|] && AllSpace(s[..i]) && AllSpace(s[i + |r|..]))
      && (r == [] <==> AllSpace(s))
  {
    var lo := SkipSpace(s, 0);
    var hi := TrimSpaceEnd(s, lo, |s|);
    var r := s[lo..hi];
    assert r == Strip(s);
    assert r == s[lo..lo + |r|];
    assert AllSpace(s[..lo]) by {
      forall k | 0 <= k < lo ensures IsSpace(s[..lo][k]) { assert s[..lo][k] == s[k]; }
    }
    assert AllSpace(s[hi..]) by {
      forall k | 0 <= k < |s| - hi ensures IsSpace(s[hi..][k]) { assert s[hi..][k] == s[hi + k]; }
    }
    assert r == [] ==> AllSpace(s);
  }

  /**
   * Strip is determined by its contract: whatever white space frames a core
   * that neither starts nor ends with white space, stripping yields the core.
   */
  lemma {:induction false} StripOfPadded(lead: string, core: string, trail: string)
    requires AllSpace(lead) && AllSpace(trail)
    requires core == [] || (!IsSpace(core[0]) && !IsSpace(core[|core| - 1]))
    ensures Strip(lead + core + trail) == core
  {
    var s := lead + core + trail;
    var n := |lead| + |core|;
    assert forall k :: 0 <= k < |lead| ==> s[k] == lead[k];
    assert forall k :: n <= k < |s| ==> s[k] == trail[k - n];
    var lo := SkipSpace(s, 0);
    if core == [] {
      assert lo == |s|;
    } else {
      assert s[|lead|] == core[0];
      assert lo == |lead|;
      var hi := TrimSpaceEnd(s, lo, |s|);
      assert s[n - 1] == core[|core| - 1];
      assert hi == n;
      assert s[lo..hi] == core;
    }
  }

  /** Stripping a string that only has leading white space drops exactly that. */
  lemma StripOfIndented(lead: string, core: string)
    requires AllSpace(lead)
    requires core == [] || (!IsSpace(core[0]) && !IsSpace(core[|core| - 1]))
    ensures Strip(lead + core) == core
  {
    StripOfPadded(lead, core, []);
    assert lead + core + [] == lead + core;
  }

  /** `s.replace(old, by)` for a non-empty `target`: every non-overlapping occurrence, from the left, replaced. */
  function Replace(s: string, target: string, replacement: string): (r: string)
    requires target != []
    ensures !Contains(s, target) ==> r == s
    ensures replacement == [] ==> !Contains(s, target) || |r| < |s|
  {
    var pieces := Split(s, target);
    SplitPiecesFree(s, target);
    ContainsFinds(s, target);
    if replacement == [] && Contains(s, target) then
      JoinDropsSeparators(pieces, target);
      JoinWith(pieces, replacement)
    else JoinWith(pieces, replacement)
  }

  /** Joining with the empty separator is shorter than joining with a non-empty one, once there are two parts. */
  lemma {:induction false} JoinDropsSeparators(parts: seq<string>, sep: string)
    requires sep != []
    requires |parts| >= 2
    ensures |JoinWith(parts, [])| < |JoinWith(parts, sep)|
  {
    if |parts| == 2 {
    } else {
      JoinDropsSeparators(parts[1..], sep);
    }
  }

  /** A string that lacks the separator's first character contains no occurrence of it. */
  lemma NoFirstCharNoMatch(a: string, sep: string)
    requires sep != [] && sep[0] !in a
    ensures !Contains(a, sep)
  {
    ContainsMeaning(a, sep);
  }

  /**
   * When the first piece cannot hold the separator's first character, the
   * first occurrence of the separator is the one right after it, so `split`
   * peels that piece off.
   */
  lemma SplitPeelsFreePrefix(a: string, sep: string, b: string)
    requires sep != [] && sep[0] !in a
    ensures Split(a + sep + b, sep) == [a] + Split(b, sep)
  {
    var s := a + sep + b;
    assert MatchesAt(s, sep, |a|) by { assert s[|a|..|a| + |sep|] == sep; }
    forall j | 0 <= j < |a| ensures !MatchesAt(s, sep, j) {
      assert s[j] == a[j];
    }
    var f := Find(s, sep, 0);
    assert f == Some(|a|);
    assert s[..|a|] == a;
    assert s[|a| + |sep|..] == b;
  }

  /**
   * With at least two pieces, `s` starts with the first piece, the
   * separator and the second piece, and what follows them is either nothing
   * or another separator.
   */
  lemma SplitSecondPiece(s: string, sep: string)
    requires sep != [] && |Split(s, sep)| >= 2
    ensures var p := Split(s, sep);
      && IsPrefix(p[0] + sep + p[1], s)
      && (|p| == 2 <==> s == p[0] + sep + p[1])
      && (|p| > 2 ==> IsPrefix(p[0] + sep + p[1] + sep, s))
  {
    var p := Split(s, sep);
    JoinFirstTwo(p, sep);
  }

  /** How a join of two or more parts begins. */
  lemma JoinFirstTwo(p: seq<string>, sep: string)
    requires sep != [] && |p| >= 2
    ensures var s := JoinWith(p, sep);
      && IsPrefix(p[0] + sep + p[1], s)
      && (|p| == 2 <==> s == p[0] + sep + p[1])
      && (|p| > 2 ==> IsPrefix(p[0] + sep + p[1] + sep, s))
  {
    var s := JoinWith(p, sep);
    var front := p[0] + sep + p[1];
    if |p| > 2 {
      var tail := JoinWith(p[2..], sep);
      assert p[1..][1..] == p[2..];
      assert JoinWith(p[1..], sep) == p[1] + sep + tail;
      assert s == (front + sep) + tail;
      assert IsPrefix(front + sep, s);
    } else {
      assert JoinWith(p[1..], sep) == p[1];
    }
  }

  /**
   * With at least two pieces, `s` starts with the first piece followed by
   * the separator; with one, the piece is all of `s`.
   */
  lemma SplitFirstPiece(s: string, sep: string)
    requires sep != []
    ensures var p := Split(s, sep);
      && (|p| == 1 <==> s == p[0])
      && (|p| >= 2 ==> IsPrefix(p[0] + sep, s))
  {
    var p := Split(s, sep);
    if |p| >= 2 {
      assert s == (p[0] + sep) + JoinWith(p[1..], sep);
    }
  }

  /** A slice of a string without `pat` has no `pat` either. */
  lemma SliceWithoutMatch(s: string, pat: string, lo: nat, hi: nat)
    requires lo <= hi <= |s| && !Contains(s, pat)
    ensures !Contains(s[lo..hi], pat)
  {
    ContainsMeaning(s, pat);
    ContainsMeaning(s[lo..hi], pat);
    forall i: nat | MatchesAt(s[lo..hi], pat, i) ensures false {
      SliceOfSlice(s, lo, hi, i, i + |pat|);
      assert MatchesAt(s, pat, lo + i);
    }
  }

  /** A slice of a slice is a slice of the original. */
  lemma SliceOfSlice(s: string, lo: nat, hi: nat, a: nat, b: nat)
    requires lo <= hi <= |s| && a <= b <= hi - lo
    ensures s[lo..hi][a..b] == s[lo + a..lo + b]
  {
    forall k | 0 <= k < b - a ensures s[lo..hi][a..b][k] == s[lo + a..lo + b][k] {
    }
  }

  lemma PrefixTransitive(a: string, b: string, c: string)
    requires IsPrefix(a, b) && IsPrefix(b, c)
    ensures IsPrefix(a, c)
  {
    assert c[..|a|] == c[..|b|][..|a|];
  }

  /** An occurrence at a known place makes `pat in s` true. */
  lemma ContainsAt(s: string, pat: string, i: nat)
    requires MatchesAt(s, pat, i)
    ensures Contains(s, pat)
  {
    ContainsMeaning(s, pat);
  }

  /** `pat` occurs right after `a` in `a + pat + b`. */
  lemma MatchesInMiddle(a: string, pat: string, b: string)
    ensures MatchesAt(a + pat + b, pat, |a|)
  {
    assert (a + pat + b)[|a|..|a| + |pat|] == pat;
  }

  /** An occurrence inside the second part of a concatenation is an occurrence in the whole. */
  lemma ContainsInSuffix(front: string, back: string, pat: string, i: nat)
    requires MatchesAt(back, pat, i)
    ensures Contains(front + back, pat)
  {
    var s := front + back;
    assert s[|front| + i..|front| + i + |pat|] == back[i..i + |pat|];
    ContainsAt(s, pat, |front| + i);
  }

  /** The empty string splits into one empty piece. */
  lemma SplitEmpty(sep: string)
    requires sep != []
    ensures Split([], sep) == [[]]
  {
    ContainsMeaning([], sep);
    SplitPiecesFree([], sep);
  }

  /** Two separator-free pieces, each followed by the separator, split into themselves and an empty rest. */
  lemma SplitTwoTerminated(a: string, b: string, sep: string)
    requires sep != [] && sep[0] !in a && sep[0] !in b
    ensures Split(a + sep + (b + sep), sep) == [a, b, []]
  {
    SplitPeelsFreePrefix(a, sep, b + sep);
    SplitTerminated(b, sep);
  }

  /** A separator-free piece followed by the separator splits into itself and an empty rest. */
  lemma SplitTerminated(b: string, sep: string)
    requires sep != [] && sep[0] !in b
    ensures Split(b + sep, sep) == [b, []]
  {
    SplitPeelsFreePrefix(b, sep, []);
    assert b + sep + [] == b + sep;
    SplitEmpty(sep);
  }

  /** Removing a trailing separator that the front cannot hold gives back the front. */
  lemma ReplaceTrailingOnce(front: string, sep: string)
    requires sep != [] && sep[0] !in front
    ensures Replace(front + sep, sep, []) == front
  {
    SplitTerminated(front, sep);
    assert JoinWith([front, []], []) == front + [] + JoinWith([[]], []);
  }
}
