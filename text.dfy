/**
 * The Python string builtins the core relies on: `sep in s`, `s.split(sep)`,
 * `sep.join(parts)`, `s.strip()`, `s.replace(old, new)` and `s[:n]`.
 * Strings are sequences of characters; no encoding or normalisation is involved.
 */
module Text {

  /** `s.startswith(p)` */
  predicate StartsWith(s: string, p: string) {
    |p| <= |s| && s[..|p|] == p
  }

  /** `sep in s`: some position of `s` starts an occurrence of `sep`. */
  predicate Contains(s: string, sep: string)
    decreases |s|
  {
    StartsWith(s, sep) || (|s| > 0 && Contains(s[1..], sep))
  }

  /** `s.split(sep)`: scan left to right, cutting at every non-overlapping occurrence of `sep`. */
  function Split(s: string, sep: string): (parts: seq<string>)
    requires sep != []
    ensures |parts| >= 1
    decreases |s|
  {
    if |s| < |sep| then [s]
    else if s[..|sep|] == sep then [[]] + Split(s[|sep|..], sep)
    else
      var rest := Split(s[1..], sep);
      [[s[0]] + rest[0]] + rest[1..]
  }

  /** `sep.join(parts)`; the empty list joins to the empty string. */
  function Join(parts: seq<string>, sep: string): (s: string)
    ensures |parts| == 0 ==> s == []
    ensures |parts| == 1 ==> s == parts[0]
    decreases |parts|
  {
    if |parts| == 0 then []
    else if |parts| == 1 then parts[0]
    else parts[0] + sep + Join(parts[1..], sep)
  }

  /** The last element of a non-empty list, Python's `xs[-1]`. */
  function Last<T>(xs: seq<T>): T
    requires |xs| > 0
  {
    xs[|xs| - 1]
  }

  /** `s[:n]`: the first `n` characters, or all of `s` when it is shorter. */
  function Take(s: string, n: nat): (r: string)
    ensures |r| == (if |s| <= n then |s| else n)
    ensures r == s[..|r|]
  {
    if |s| <= n then s else s[..n]
  }

  /**
   * `s.replace(pat, rep)`: every non-overlapping occurrence, scanning left to
   * right. Without an occurrence nothing changes; with one, the replacement
   * appears in the result; a replacement as long as the pattern keeps the length.
   */
  function Replace(s: string, pat: string, rep: string): (r: string)
    requires pat != []
    ensures !Contains(s, pat) ==> r == s
    ensures Contains(s, pat) ==> Contains(r, rep)
    ensures |rep| == |pat| ==> |r| == |s|
    decreases |s|
  {
    if |s| < |pat| then
      ShortNotContains(s, pat);
      s
    else if s[..|pat|] == pat then
      var r := rep + Replace(s[|pat|..], pat, rep);
      assert r[..|rep|] == rep;
      r
    else
      var rest := Replace(s[1..], pat, rep);
      var r := [s[0]] + rest;
      assert r[1..] == rest;
      r
  }

  /** Python's `str.isspace` for one character. */
  predicate IsSpace(c: char) {
    || '\U{9}' <= c <= '\U{D}'
    || '\U{1C}' <= c <= '\U{20}'
    || c == '\U{85}' || c == '\U{A0}' || c == '\U{1680}'
    || '\U{2000}' <= c <= '\U{200A}'
    || c == '\U{2028}' || c == '\U{2029}' || c == '\U{202F}' || c == '\U{205F}' || c == '\U{3000}'
  }

  /** The first position at or after `i` that is not whitespace, or `|s|`. */
  function SkipSpaces(s: string, i: nat): (n: nat)
    requires i <= |s|
    ensures i <= n <= |s|
    ensures forall k :: i <= k < n ==> IsSpace(s[k])
    ensures n == |s| || !IsSpace(s[n])
    decreases |s| - i
  {
    if i < |s| && IsSpace(s[i]) then SkipSpaces(s, i + 1) else i
  }

  /** The end of `s[lo..hi]` once trailing whitespace is dropped. */
  function SkipSpacesBack(s: string, lo: nat, hi: nat): (m: nat)
    requires lo <= hi <= |s|
    ensures lo <= m <= hi
    ensures forall k :: m <= k < hi ==> IsSpace(s[k])
    ensures m == lo || !IsSpace(s[m - 1])
    decreases hi - lo
  {
    if lo < hi && IsSpace(s[hi - 1]) then SkipSpacesBack(s, lo, hi - 1) else hi
  }

  /** How many leading whitespace characters `s.strip()` drops. */
  function StripOffset(s: string): nat
    ensures StripOffset(s) <= |s|
  {
    SkipSpaces(s, 0)
  }

  /**
   * `s.strip()`: the slice of `s` that remains once leading and trailing
   * whitespace is dropped; it neither starts nor ends with whitespace.
   */
  function Strip(s: string): (r: string)
    ensures r == [] || (!IsSpace(r[0]) && !IsSpace(r[|r| - 1]))
    ensures StripOffset(s) + |r| <= |s| && r == s[StripOffset(s)..StripOffset(s) + |r|]
    ensures forall k :: 0 <= k < StripOffset(s) ==> IsSpace(s[k])
    ensures forall k :: StripOffset(s) + |r| <= k < |s| ==> IsSpace(s[k])
  {
    var i := SkipSpaces(s, 0);
    var j := SkipSpacesBack(s, i, |s|);
    s[i..j]
  }

  // ---------------------------------------------------------------------------
  // Containment

  lemma {:induction false} ShortNotContains(s: string, sep: string)
    requires |s| < |sep|
    ensures !Contains(s, sep)
    decreases |s|
  {
    if |s| > 0 {
      ShortNotContains(s[1..], sep);
    }
  }

  /** An occurrence in `a` is still an occurrence in `a + b`. */
  lemma {:induction false} ContainsExtend(a: string, b: string, sep: string)
    requires Contains(a, sep)
    ensures Contains(a + b, sep)
    decreases |a|
  {
    if StartsWith(a, sep) {
      assert (a + b)[..|sep|] == a[..|sep|];
    } else {
      assert (a + b)[1..] == a[1..] + b;
      ContainsExtend(a[1..], b, sep);
    }
  }

  // ---------------------------------------------------------------------------
  // Split and Join

  /** Joining the pieces of a split with the same separator gives back the string. */
  lemma {:induction false} JoinSplit(s: string, sep: string)
    requires sep != []
    ensures Join(Split(s, sep), sep) == s
    decreases |s|, 1
  {
    if |s| < |sep| {
    } else if s[..|sep|] == sep {
      JoinSplitAtSep(s, sep);
    } else {
      JoinSplitNotAtSep(s, sep);
    }
  }

  /** JoinSplit when `s` starts with the separator: an empty first piece. */
  lemma {:induction false} JoinSplitAtSep(s: string, sep: string)
    requires sep != [] && |s| >= |sep| && s[..|sep|] == sep
    ensures Join(Split(s, sep), sep) == s
    decreases |s|, 0
  {
    var rest := Split(s[|sep|..], sep);
    JoinSplit(s[|sep|..], sep);
    JoinConsEmpty(rest, sep);
    assert Split(s, sep) == [[]] + rest;
    assert s == sep + s[|sep|..];
  }

  /** JoinSplit when `s` does not start with the separator: its first character opens the first piece. */
  lemma {:induction false} JoinSplitNotAtSep(s: string, sep: string)
    requires sep != [] && |s| >= |sep| && s[..|sep|] != sep
    ensures Join(Split(s, sep), sep) == s
    decreases |s|, 0
  {
    var rest := Split(s[1..], sep);
    JoinSplit(s[1..], sep);
    JoinConsFirst(s[0], rest, sep);
    assert Split(s, sep) == [[s[0]] + rest[0]] + rest[1..];
    assert s == [s[0]] + s[1..];
  }

  /** An empty first piece contributes only its separator. */
  lemma JoinConsEmpty(parts: seq<string>, sep: string)
    requires |parts| >= 1
    ensures Join([[]] + parts, sep) == sep + Join(parts, sep)
  {
    var ps := [[]] + parts;
    assert ps[1..] == parts;
  }

  /** Prepending a character to the first piece prepends it to the joined string. */
  lemma JoinConsFirst(c: char, parts: seq<string>, sep: string)
    requires |parts| >= 1
    ensures Join([[c] + parts[0]] + parts[1..], sep) == [c] + Join(parts, sep)
  {
    var ps := [[c] + parts[0]] + parts[1..];
    assert ps[1..] == parts[1..];
  }

  /** The joined string starts with the first piece. */
  lemma JoinStartsWithFirst(parts: seq<string>, sep: string)
    requires |parts| >= 1
    ensures StartsWith(Join(parts, sep), parts[0])
  {
  }

  /** No piece of a split contains the separator. */
  lemma {:induction false} SplitPiecesFree(s: string, sep: string)
    requires sep != []
    ensures forall i :: 0 <= i < |Split(s, sep)| ==> !Contains(Split(s, sep)[i], sep)
    decreases |s|
  {
    var parts := Split(s, sep);
    if |s| < |sep| {
      ShortNotContains(s, sep);
    } else if s[..|sep|] == sep {
      SplitPiecesFree(s[|sep|..], sep);
      ShortNotContains([], sep);
      assert parts[1..] == Split(s[|sep|..], sep);
    } else {
      var rest := Split(s[1..], sep);
      SplitPiecesFree(s[1..], sep);
      assert !Contains(rest[0], sep);
      var first := [s[0]] + rest[0];
      JoinSplit(s[1..], sep);
      JoinStartsWithFirst(rest, sep);
      assert first == s[..|first|];
      assert first[1..] == rest[0];
      assert !Contains(first, sep);
      assert forall i :: 1 <= i < |parts| ==> parts[i] == rest[i];
    }
  }

  /** A split yields a single piece exactly when the separator does not occur. */
  lemma {:induction false} SplitSingleIff(s: string, sep: string)
    requires sep != []
    ensures |Split(s, sep)| == 1 <==> !Contains(s, sep)
    decreases |s|
  {
    if |s| < |sep| {
      ShortNotContains(s, sep);
    } else if s[..|sep|] == sep {
      assert StartsWith(s, sep);
    } else {
      SplitSingleIff(s[1..], sep);
    }
  }

  /** Without an occurrence of the separator, the split is the whole string. */
  lemma SplitAbsent(s: string, sep: string)
    requires sep != []
    requires !Contains(s, sep)
    ensures Split(s, sep) == [s]
  {
    SplitSingleIff(s, sep);
    JoinSplit(s, sep);
  }

  /**
   * With an occurrence, the last piece is what follows the last occurrence:
   * the string is some prefix, the separator, and the last piece.
   */
  lemma SplitLastAfterSeparator(s: string, sep: string)
    requires sep != []
    requires Contains(s, sep)
    ensures exists p :: s == p + sep + Last(Split(s, sep))
  {
    var parts := Split(s, sep);
    SplitSingleIff(s, sep);
    JoinSplit(s, sep);
    JoinLast(parts, sep);
  }

  lemma {:induction false} JoinLast(parts: seq<string>, sep: string)
    requires |parts| >= 2
    ensures Join(parts, sep) == Join(parts[..|parts| - 1], sep) + sep + Last(parts)
    decreases |parts|
  {
    if |parts| > 2 {
      JoinLast(parts[1..], sep);
      assert parts[1..][..|parts| - 2] == parts[..|parts| - 1][1..];
    }
  }

  /**
   * Cutting `a + sep + b` finds the first separator right after `a`,
   * provided no occurrence starts inside `a` (not even one that runs into `sep`).
   */
  lemma {:induction false} SplitAfterPiece(a: string, b: string, sep: string)
    requires sep != []
    requires !Contains(a + sep[..|sep| - 1], sep)
    ensures Split(a + sep + b, sep) == [a] + Split(b, sep)
    decreases |a|
  {
    var s := a + sep + b;
    if a == [] {
      assert s[..|sep|] == sep;
      assert s[|sep|..] == b;
    } else {
      var t := a + sep[..|sep| - 1];
      assert s[..|t|] == t;
      assert t[1..] == a[1..] + sep[..|sep| - 1];
      SplitAfterPiece(a[1..], b, sep);
      assert s[1..] == a[1..] + sep + b;
      assert [s[0]] + a[1..] == a;
    }
  }

  /**
   * Splitting a join gives back the pieces, when no piece (followed by the
   * start of the separator) contains the separator.
   */
  lemma {:induction false} SplitJoin(parts: seq<string>, sep: string)
    requires sep != [] && |parts| >= 1
    requires forall i :: 0 <= i < |parts| ==> !Contains(parts[i] + sep[..|sep| - 1], sep)
    ensures Split(Join(parts, sep), sep) == parts
    decreases |parts|
  {
    if |parts| == 1 {
      if Contains(parts[0], sep) {
        ContainsExtend(parts[0], sep[..|sep| - 1], sep);
      }
      SplitAbsent(parts[0], sep);
    } else {
      SplitJoin(parts[1..], sep);
      SplitAfterPiece(parts[0], Join(parts[1..], sep), sep);
    }
  }

  /** For the separator ", ", a piece free of ", " cannot run into a following ", ". */
  lemma {:induction false} CommaSpaceNoStraddle(x: string)
    requires !Contains(x, ", ")
    ensures !Contains(x + ",", ", ")
    decreases |x|
  {
    var t := x + ",";
    if |x| == 0 {
      ShortNotContains(t, ", ");
    } else {
      assert t[1..] == x[1..] + ",";
      CommaSpaceNoStraddle(x[1..]);
      if |x| >= 2 {
        assert x[..2] == t[..2];
      } else {
        assert t[1] == ',';
      }
    }
  }

  /** The form of `CommaSpaceNoStraddle` that `SplitJoin` asks for. */
  lemma CommaSpacePieceFree(x: string)
    requires !Contains(x, ", ")
    ensures !Contains(x + ", "[..1], ", ")
  {
    var sep := ", ";
    assert sep[..1] == ",";
    CommaSpaceNoStraddle(x);
  }

  /** Splitting on ", " undoes joining with ", " when no piece contains ", ". */
  lemma CommaSpaceSplitJoin(parts: seq<string>)
    requires |parts| >= 1
    requires forall i :: 0 <= i < |parts| ==> !Contains(parts[i], ", ")
    ensures Split(Join(parts, ", "), ", ") == parts
  {
    forall i | 0 <= i < |parts|
      ensures !Contains(parts[i] + ", "[..1], ", ")
    {
      CommaSpacePieceFree(parts[i]);
    }
    SplitJoin(parts, ", ");
  }

  // ---------------------------------------------------------------------------
  // Replace

  /**
   * `s.replace(pat, rep)` is `rep.join(s.split(pat))`: the text between the
   * occurrences is kept and every occurrence becomes `rep`.
   */
  lemma {:induction false} ReplaceJoinSplit(s: string, pat: string, rep: string)
    requires pat != []
    ensures Replace(s, pat, rep) == Join(Split(s, pat), rep)
    decreases |s|
  {
    if |s| < |pat| {
    } else if s[..|pat|] == pat {
      ReplaceJoinSplit(s[|pat|..], pat, rep);
      JoinConsEmpty(Split(s[|pat|..], pat), rep);
    } else {
      ReplaceJoinSplit(s[1..], pat, rep);
      JoinConsFirst(s[0], Split(s[1..], pat), rep);
    }
  }

  /**
   * The rewrite leaves no occurrence of `pat` when the replacement cannot take
   * part in one: `rep` is at least as long as `pat` without starting with it,
   * its first character does not occur later in `pat`, and the first
   * character of `pat` does not occur later in `rep`.
   */
  lemma ReplaceLeavesNoPattern(s: string, pat: string, rep: string)
    requires pat != [] && |rep| >= |pat| && rep[..|pat|] != pat
    requires forall k :: 1 <= k < |pat| ==> pat[k] != rep[0]
    requires forall k :: 1 <= k < |rep| ==> rep[k] != pat[0]
    ensures !Contains(Replace(s, pat, rep), pat)
  {
    ReplaceNoPatternInv(s, pat, rep);
  }

  /**
   * The induction behind `ReplaceLeavesNoPattern`: besides having no
   * occurrence, the result starts with a proper tail of `pat` only where the
   * original string does.
   */
  lemma {:induction false} ReplaceNoPatternInv(s: string, pat: string, rep: string)
    requires pat != [] && |rep| >= |pat| && rep[..|pat|] != pat
    requires forall k :: 1 <= k < |pat| ==> pat[k] != rep[0]
    requires forall k :: 1 <= k < |rep| ==> rep[k] != pat[0]
    ensures !Contains(Replace(s, pat, rep), pat)
    ensures forall k :: 1 <= k <= |pat| && StartsWith(Replace(s, pat, rep), pat[k..]) ==> StartsWith(s, pat[k..])
    decreases |s|
  {
    var r := Replace(s, pat, rep);
    if |s| < |pat| {
      ShortNotContains(s, pat);
    } else if s[..|pat|] == pat {
      var rest := Replace(s[|pat|..], pat, rep);
      ReplaceNoPatternInv(s[|pat|..], pat, rep);
      assert r == rep + rest;
      forall k | 0 <= k < |rep|
        ensures !StartsWith(rep[k..] + rest, pat)
      {
        if k == 0 {
          assert (rep + rest)[..|pat|] == rep[..|pat|];
        } else {
          assert (rep[k..] + rest)[0] == rep[k];
        }
      }
      NotContainsAfter(rep, rest, pat);
    } else {
      var rest := Replace(s[1..], pat, rep);
      ReplaceNoPatternInv(s[1..], pat, rep);
      assert r == [s[0]] + rest;
      forall k | 1 <= k <= |pat| && StartsWith(r, pat[k..])
        ensures StartsWith(s, pat[k..])
      {
        if k < |pat| {
          TailStep(s, rest, pat, k);
        }
      }
      if StartsWith(r, pat) {
        TailStep(s, rest, pat, 0);
      }
      assert r[1..] == rest;
    }
  }

  /** One character in front: `[s[0]] + rest` starts with `pat[k..]` only where `s` does, given that for `rest`. */
  lemma TailStep(s: string, rest: string, pat: string, k: nat)
    requires |s| > 0 && k < |pat|
    requires StartsWith([s[0]] + rest, pat[k..])
    requires StartsWith(rest, pat[k + 1..]) ==> StartsWith(s[1..], pat[k + 1..])
    ensures StartsWith(s, pat[k..])
  {
    var r := [s[0]] + rest;
    var n := |pat| - k;
    assert r[..n] == pat[k..];
    assert rest[..n - 1] == r[1..n];
    assert pat[k + 1..] == pat[k..][1..];
    assert s[1..][..n - 1] == pat[k + 1..];
    assert s[..n] == [s[0]] + s[1..][..n - 1];
  }

  /** No occurrence in `u + t` when none starts inside `u` and `t` has none. */
  lemma {:induction false} NotContainsAfter(u: string, t: string, pat: string)
    requires pat != []
    requires forall k :: 0 <= k < |u| ==> !StartsWith(u[k..] + t, pat)
    requires !Contains(t, pat)
    ensures !Contains(u + t, pat)
    decreases |u|
  {
    if |u| == 0 {
      assert u + t == t;
    } else {
      forall k | 0 <= k < |u| - 1
        ensures !StartsWith(u[1..][k..] + t, pat)
      {
        assert u[1..][k..] == u[k + 1..];
      }
      NotContainsAfter(u[1..], t, pat);
      assert u[0..] == u;
      assert (u + t)[1..] == u[1..] + t;
    }
  }


  /**
   * Removing a character (`s.replace(c, "")`) deletes every occurrence of it and
   * keeps every other character as often as it occurred.
   */
  lemma {:induction false} RemoveCharSpec(s: string, c: char)
    ensures c !in Replace(s, [c], [])
    ensures forall x :: x != c ==> multiset(Replace(s, [c], []))[x] == multiset(s)[x]
    decreases |s|
  {
    if |s| > 0 {
      RemoveCharSpec(s[1..], c);
      assert s == [s[0]] + s[1..];
      assert s[..1] == [s[0]];
    }
  }
}
