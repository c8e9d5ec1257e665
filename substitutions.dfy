/**
 * The regular-expression substitutions of the question-collection script,
 * each written out as the left-to-right, non-overlapping scan that Python's
 * `re.sub` performs for that one pattern.
 */
module Substitutions {
  import opened Wrappers
  import opened Text

  // ---------------------------------------------------------------------
  // re.sub(literal, replacement, s)
  // ---------------------------------------------------------------------

  /** `re.sub(pat, rep, s)` for a pattern without metacharacters: scanning
      from the left, every occurrence of `pat` that does not overlap an
      occurrence already replaced becomes `rep`. */
  function ReplaceAll(s: string, pat: string, rep: string): (r: string)
    requires pat != []
    decreases |s|
  {
    if s == [] then []
    else if pat <= s then rep + ReplaceAll(s[|pat|..], pat, rep)
    else [s[0]] + ReplaceAll(s[1..], pat, rep)
  }

  /** A replacement no longer than its pattern never lengthens the text. */
  lemma {:induction false} ReplaceAllNoLonger(s: string, pat: string, rep: string)
    requires pat != [] && |rep| <= |pat|
    ensures |ReplaceAll(s, pat, rep)| <= |s|
    decreases |s|
  {
    if s == [] {
    } else if pat <= s {
      ReplaceAllNoLonger(s[|pat|..], pat, rep);
    } else {
      ReplaceAllNoLonger(s[1..], pat, rep);
    }
  }

  /** Where the pattern does not occur, the substitution changes nothing. */
  lemma {:induction false} ReplaceAbsent(s: string, pat: string, rep: string)
    requires pat != [] && !Contains(s, pat)
    ensures ReplaceAll(s, pat, rep) == s
    decreases |s|
  {
    if s != [] {
      assert !OccursAt(s, pat, 0);
      forall i | 0 <= i <= |s[1..]| - |pat| && OccursAt(s[1..], pat, i)
        ensures false
      {
        assert s[1..][i..i + |pat|] == s[i + 1..i + 1 + |pat|];
        assert OccursAt(s, pat, i + 1);
      }
      ReplaceAbsent(s[1..], pat, rep);
    }
  }

  /** A prefix of the output that holds no character of `rep` was copied
      unchanged from the input. */
  lemma {:induction false} CopiedPrefix(u: string, pat: string, rep: string, t: string)
    requires pat != [] && rep != []
    requires t <= ReplaceAll(u, pat, rep)
    requires forall c :: c in t ==> c !in rep
    ensures t <= u
    decreases |u|
  {
    if u != [] && t != [] {
      var r := ReplaceAll(u, pat, rep);
      assert t[0] in t && t[0] == r[0] && rep[0] in rep;
      if pat <= u {
        assert false;
      } else {
        CopiedPrefix(u[1..], pat, rep, t[1..]);
      }
    }
  }

  /** When the replacement shares no character with the pattern, the pattern
      no longer occurs anywhere in the output: one pass replaces them all. */
  lemma {:induction false} ReplaceRemovesAll(s: string, pat: string, rep: string)
    requires pat != [] && rep != []
    requires forall c :: c in rep ==> c !in pat
    ensures !Contains(ReplaceAll(s, pat, rep), pat)
    decreases |s|
  {
    var r := ReplaceAll(s, pat, rep);
    if s != [] {
      assert pat[0] in pat;
      if pat <= s {
        ReplaceRemovesAll(s[|pat|..], pat, rep);
        RemovedAtMatch(s, pat, rep);
      } else {
        ReplaceRemovesAll(s[1..], pat, rep);
        RemovedAtOther(s, pat, rep);
      }
    }
  }

  /** The step of `ReplaceRemovesAll` where the pattern matches. */
  lemma RemovedAtMatch(s: string, pat: string, rep: string)
    requires pat != [] && rep != [] && pat <= s
    requires forall c :: c in rep ==> c !in pat
    requires !Contains(ReplaceAll(s[|pat|..], pat, rep), pat)
    ensures !Contains(ReplaceAll(s, pat, rep), pat)
  {
    var r := ReplaceAll(s, pat, rep);
    var r1 := ReplaceAll(s[|pat|..], pat, rep);
    assert pat[0] in pat;
    assert r == rep + r1;
    forall i | 0 <= i <= |r| - |pat| ensures !OccursAt(r, pat, i) {
      if i < |rep| {
        assert r[i] == rep[i] && rep[i] in rep;
        assert r[i..i + |pat|][0] != pat[0];
      } else {
        assert r[i..i + |pat|] == r1[i - |rep|..i - |rep| + |pat|];
        assert !OccursAt(r1, pat, i - |rep|);
      }
    }
  }

  /** The step of `ReplaceRemovesAll` where the first character is copied. */
  lemma RemovedAtOther(s: string, pat: string, rep: string)
    requires pat != [] && rep != [] && s != [] && !(pat <= s)
    requires forall c :: c in rep ==> c !in pat
    requires !Contains(ReplaceAll(s[1..], pat, rep), pat)
    ensures !Contains(ReplaceAll(s, pat, rep), pat)
  {
    var r := ReplaceAll(s, pat, rep);
    var r1 := ReplaceAll(s[1..], pat, rep);
    assert r == [s[0]] + r1;
    forall i | 0 <= i <= |r| - |pat| ensures !OccursAt(r, pat, i) {
      if i == 0 {
        if pat[1..] <= r1 && r[0] == pat[0] && forall c :: c in pat[1..] ==> c in pat {
          CopiedPrefix(s[1..], pat, rep, pat[1..]);
        }
        assert !(pat[1..] <= r1 && r[0] == pat[0]);
      } else {
        assert r[i..i + |pat|] == r1[i - 1..i - 1 + |pat|];
        assert !OccursAt(r1, pat, i - 1);
      }
    }
  }

  /** An occurrence of the pattern after a prefix in which the pattern
      starts nowhere is replaced, the prefix is kept, and the scan goes on
      with the text after the occurrence. */
  lemma {:induction false} ReplaceAt(p: string, q: string, pat: string, rep: string)
    requires pat != [] && NoOpenBefore(p + pat + q, pat, |p|)
    ensures ReplaceAll(p + pat + q, pat, rep) == p + rep + ReplaceAll(q, pat, rep)
    decreases |p|
  {
    var s := p + pat + q;
    if p == [] {
      assert s == pat + q && s[|pat|..] == q;
    } else {
      assert !(pat <= s) by {
        assert !OccursAt(s, pat, 0);
        if |pat| <= |s| {
          assert s[0..|pat|] == s[..|pat|];
        }
      }
      NoOpenBeforeTail(s, pat, |p|);
      assert s[1..] == p[1..] + pat + q;
      ReplaceAt(p[1..], q, pat, rep);
      ConsAssoc(p, rep + ReplaceAll(q, pat, rep));
      assert p + rep + ReplaceAll(q, pat, rep) == p + (rep + ReplaceAll(q, pat, rep));
      assert [s[0]] + (p[1..] + rep + ReplaceAll(q, pat, rep)) == [p[0]] + (p[1..] + (rep + ReplaceAll(q, pat, rep)));
    }
  }

  // ---------------------------------------------------------------------
  // re.sub(r"<sup>(.*?)</sup>", r"^\1", s) and the <sub> twin
  // ---------------------------------------------------------------------

  /** Where the lazy group `(.*?)` ends: the first index `k` at which
      `close` starts, provided no newline comes before it (`.` does not
      match a newline); `None` when there is no such index. */
  function FindClose(s: string, close: string): (r: Option<nat>)
    requires close != []
    ensures r.Some? ==> r.value + |close| <= |s|
    decreases |s|
  {
    if close <= s then Some(0)
    else if s == [] || s[0] == '\n' then None
    else
      var rest := FindClose(s[1..], close);
      if rest.Some? then Some(rest.value + 1) else None
  }

  /** What `FindClose` finds is a match: `close` starts at the index and
      no newline comes before it. */
  lemma {:induction false} FindCloseMatches(s: string, close: string)
    requires close != [] && FindClose(s, close).Some?
    ensures var k := FindClose(s, close).value;
            s[k..k + |close|] == close && '\n' !in s[..k]
    decreases |s|
  {
    if !(close <= s) {
      FindCloseMatches(s[1..], close);
      var k := FindClose(s, close).value;
      assert s[1..][k - 1..k - 1 + |close|] == s[k..k + |close|];
      assert s[..k] == [s[0]] + s[1..][..k - 1];
    }
  }

  /** The group is as short as possible: no newline-free run shorter than
      the one `FindClose` picks is followed by `close`, and `None` means no
      newline-free run at all is. */
  lemma {:induction false} FindCloseShortest(s: string, close: string, k: nat)
    requires close != []
    requires k + |close| <= |s| && s[k..k + |close|] == close && '\n' !in s[..k]
    ensures FindClose(s, close).Some? && FindClose(s, close).value <= k
    decreases |s|
  {
    if !(close <= s) {
      assert k != 0;
      assert s[0] == s[..k][0] && s[0] != '\n';
      assert s[1..][k - 1..k - 1 + |close|] == close;
      assert s[1..][..k - 1] == s[..k][1..];
      FindCloseShortest(s[1..], close, k - 1);
    }
  }

  /** `re.sub(open + "(.*?)" + close, mark + "\\1", s)`: every `open X close`
      whose X is the shortest newline-free run followed by `close` becomes
      `mark X`; an `open` with no such `close` is copied as it is. */
  function RewriteTag(s: string, open: string, close: string, mark: char): (r: string)
    requires open != [] && close != []
    decreases |s|
  {
    if s == [] then []
    else
      var h := Head(s, open, close, mark);
      h.out + RewriteTag(s[h.used..], open, close, mark)
  }

  /** What one step of the scan writes, and how much of the input it uses. */
  datatype Piece = Piece(out: string, used: nat)

  /** One step of `RewriteTag`: an opening tag whose group closes becomes
      `mark` and the group; any other character is copied. */
  function Head(s: string, open: string, close: string, mark: char): (r: Piece)
    requires open != [] && close != [] && s != []
    ensures 0 < r.used <= |s|
  {
    if open <= s then
      var found := FindClose(s[|open|..], close);
      if found.Some? then Piece([mark] + s[|open|..|open| + found.value], |open| + found.value + |close|)
      else Piece([s[0]], 1)
    else Piece([s[0]], 1)
  }

  /** The tag rewrite never lengthens the text: a group `open x close`
      becomes the shorter `mark x`. */
  lemma {:induction false} RewriteTagNoLonger(s: string, open: string, close: string, mark: char)
    requires open != [] && close != []
    ensures |RewriteTag(s, open, close, mark)| <= |s|
    decreases |s|
  {
    if s != [] {
      var h := Head(s, open, close, mark);
      assert |h.out| <= h.used;
      RewriteTagNoLonger(s[h.used..], open, close, mark);
    }
  }

  /** Text without the first character of the opening tag is left alone. */
  lemma {:induction false} RewriteTagAbsent(s: string, open: string, close: string, mark: char)
    requires open != [] && close != [] && open[0] !in s
    ensures RewriteTag(s, open, close, mark) == s
    decreases |s|
  {
    if s != [] {
      assert s[0] in s;
      RewriteTagAbsent(s[1..], open, close, mark);
    }
  }

  /** The closing tag right after a run without `<` or newline is the one
      `FindClose` picks. */
  lemma {:induction false} FindCloseAfter(x: string, close: string, q: string)
    requires close != [] && close[0] == '<'
    requires '<' !in x && '\n' !in x
    ensures FindClose(x + close + q, close) == Some(|x|)
    decreases |x|
  {
    var t := x + close + q;
    if x == [] {
      assert t == close + q;
      assert close <= t;
    } else {
      assert t[0] == x[0] && x[0] in x;
      assert !(close <= t);
      assert t[1..] == x[1..] + close + q;
      FindCloseAfter(x[1..], close, q);
    }
  }

  /** `open + x + close + q` becomes `mark + x` followed by the rewrite of
      `q` when `x` holds no `<` and no newline. */
  lemma CapturesAtStart(x: string, q: string, open: string, close: string, mark: char)
    requires open != [] && close != [] && close[0] == '<'
    requires '<' !in x && '\n' !in x
    ensures RewriteTag(open + x + close + q, open, close, mark)
            == [mark] + x + RewriteTag(q, open, close, mark)
  {
    var s := open + x + close + q;
    OpenCloseSlices(s, open, x, close, q);
    FindCloseAfter(x, close, q);
    CapturesAt(s, x, q, open, close, mark);
  }

  lemma CapturesAt(s: string, x: string, q: string, open: string, close: string, mark: char)
    requires open != [] && close != [] && open <= s
    requires |open| + |x| + |close| <= |s|
    requires s[|open|..|open| + |x|] == x && s[|open| + |x| + |close|..] == q
    requires FindClose(s[|open|..], close) == Some(|x|)
    ensures RewriteTag(s, open, close, mark) == [mark] + x + RewriteTag(q, open, close, mark)
  {
    RewriteTagStep(s, open, close, mark, |x|);
  }

  lemma OpenCloseSlices(s: string, open: string, x: string, close: string, q: string)
    requires s == open + x + close + q
    ensures open <= s
    ensures s[|open|..] == x + close + q
    ensures s[|open|..|open| + |x|] == x
    ensures s[|open| + |x| + |close|..] == q
  {
  }

  /** One step of `RewriteTag` at an opening tag whose group closes. */
  lemma RewriteTagStep(s: string, open: string, close: string, mark: char, k: nat)
    requires open != [] && close != [] && open <= s
    requires FindClose(s[|open|..], close) == Some(k)
    ensures |open| + k + |close| <= |s|
    ensures RewriteTag(s, open, close, mark)
         == [mark] + s[|open|..|open| + k] + RewriteTag(s[|open| + k + |close|..], open, close, mark)
  {
    HeadAt(s, open, close, mark, k);
    RewriteTagUnfold(s, open, close, mark);
  }

  lemma HeadAt(s: string, open: string, close: string, mark: char, k: nat)
    requires open != [] && close != [] && open <= s
    requires FindClose(s[|open|..], close) == Some(k)
    ensures |open| + k + |close| <= |s|
    ensures Head(s, open, close, mark) == Piece([mark] + s[|open|..|open| + k], |open| + k + |close|)
  {
  }

  lemma RewriteTagUnfold(s: string, open: string, close: string, mark: char)
    requires open != [] && close != [] && s != []
    ensures RewriteTag(s, open, close, mark)
         == Head(s, open, close, mark).out + RewriteTag(s[Head(s, open, close, mark).used..], open, close, mark)
  {
  }

  /** `open` starts at none of the first `n` positions of `s`. */
  predicate NoOpenBefore(s: string, open: string, n: int) {
    forall i :: 0 <= i < n ==> !OccursAt(s, open, i)
  }

  /** Where the opening tag does not start, the scan copies one character. */
  lemma RewriteTagCopy(s: string, open: string, close: string, mark: char)
    requires open != [] && close != [] && s != [] && !OccursAt(s, open, 0)
    ensures RewriteTag(s, open, close, mark) == [s[0]] + RewriteTag(s[1..], open, close, mark)
  {
    assert !(open <= s) by {
      if |open| <= |s| {
        assert s[0..|open|] == s[..|open|];
      }
    }
    RewriteTagUnfold(s, open, close, mark);
  }

  /** An opening tag whose lazy group never closes, because no closing tag
      follows or a newline comes first, is copied one character at a time
      like any other text. */
  lemma RewriteTagUnclosed(s: string, open: string, close: string, mark: char)
    requires open != [] && close != [] && open <= s && FindClose(s[|open|..], close).None?
    ensures RewriteTag(s, open, close, mark) == [s[0]] + RewriteTag(s[1..], open, close, mark)
  {
    RewriteTagUnfold(s, open, close, mark);
  }

  /** Dropping the first character shifts the positions by one. */
  /** The step of `RewriteTagPrefix`: the first character is copied. */
  lemma RewriteTagPrefixStep(p: string, rest: string, open: string, close: string, mark: char)
    requires open != [] && close != [] && p != [] && !OccursAt(p + rest, open, 0)
    requires RewriteTag(p[1..] + rest, open, close, mark) == p[1..] + RewriteTag(rest, open, close, mark)
    ensures RewriteTag(p + rest, open, close, mark) == p + RewriteTag(rest, open, close, mark)
  {
    var s := p + rest;
    RewriteTagCopy(s, open, close, mark);
    assert s[1..] == p[1..] + rest && s[0] == p[0];
    ConsAssoc(p, RewriteTag(rest, open, close, mark));
  }

  lemma NoOpenBeforeTail(s: string, open: string, n: int)
    requires s != [] && NoOpenBefore(s, open, n)
    ensures NoOpenBefore(s[1..], open, n - 1)
  {
    forall i | 0 <= i < n - 1 ensures !OccursAt(s[1..], open, i) {
      assert !OccursAt(s, open, i + 1);
      if i + |open| <= |s| - 1 {
        assert s[1..][i..i + |open|] == s[i + 1..i + 1 + |open|];
      }
    }
  }

  /** The opening tag cannot start inside a prefix that lacks its first character. */
  lemma NoOpenInPrefix(p: string, rest: string, open: string)
    requires open != [] && open[0] !in p
    ensures NoOpenBefore(p + rest, open, |p|)
  {
    forall i | 0 <= i < |p| ensures !OccursAt(p + rest, open, i) {
      assert (p + rest)[i] == p[i] && p[i] in p;
      if i + |open| <= |p + rest| {
        assert (p + rest)[i..i + |open|][0] == p[i];
      }
    }
  }

  /** The opening tag starts at no position of `p` when it does not occur in
      `p` and cannot straddle into `rest`: the first character of `rest` is
      not a later character of `open`. */
  lemma NoOpenAcross(p: string, rest: string, open: string)
    requires open != [] && !Contains(p, open)
    requires rest == [] || rest[0] !in open[1..]
    ensures NoOpenBefore(p + rest, open, |p|)
  {
    var s := p + rest;
    forall i | 0 <= i < |p| ensures !OccursAt(s, open, i) {
      if i + |open| <= |p| {
        assert s[i..i + |open|] == p[i..i + |open|];
        assert !OccursAt(p, open, i);
      } else if i + |open| <= |s| {
        var n := |p| - i;
        assert s[i..i + |open|][n] == rest[0];
        assert open[1..][n - 1] == open[n];
      }
    }
  }

  /** A pattern occurs in neither part, and no occurrence can straddle the
      join: either no occurrence starts in `a`, or the first character of
      `b` is not a later character of the pattern. */
  lemma NoContainsJoin(a: string, b: string, pat: string)
    requires pat != [] && !Contains(a, pat) && !Contains(b, pat)
    requires pat[0] !in a || b == [] || b[0] !in pat[1..]
    ensures !Contains(a + b, pat)
  {
    var s := a + b;
    forall i | 0 <= i <= |s| - |pat| ensures !OccursAt(s, pat, i) {
      if i >= |a| {
        assert s[i..i + |pat|] == b[i - |a|..i - |a| + |pat|];
        assert !OccursAt(b, pat, i - |a|);
      } else if i + |pat| <= |a| {
        assert s[i..i + |pat|] == a[i..i + |pat|];
        assert !OccursAt(a, pat, i);
      } else {
        var n := |a| - i;
        assert s[i..i + |pat|][0] == a[i] && a[i] in a;
        assert s[i..i + |pat|][n] == b[0];
        assert pat[1..][n - 1] == pat[n];
      }
    }
  }

  /** A prefix at none of whose positions the opening tag starts is copied
      unchanged, and the rewrite continues after it. */
  lemma {:induction false} RewriteTagPrefix(p: string, rest: string, open: string, close: string, mark: char)
    requires open != [] && close != [] && NoOpenBefore(p + rest, open, |p|)
    ensures RewriteTag(p + rest, open, close, mark) == p + RewriteTag(rest, open, close, mark)
    decreases |p|
  {
    if p != [] {
      var s := p + rest;
      NoOpenBeforeTail(s, open, |p|);
      assert s[1..] == p[1..] + rest;
      RewriteTagPrefix(p[1..], rest, open, close, mark);
      RewriteTagPrefixStep(p, rest, open, close, mark);
    } else {
      assert p + rest == rest;
    }
  }

  /** Text in which the opening tag does not occur is left alone. */
  lemma RewriteTagUntouched(s: string, open: string, close: string, mark: char)
    requires open != [] && close != [] && !Contains(s, open)
    ensures RewriteTag(s, open, close, mark) == s
  {
    assert s + [] == s;
    forall i | 0 <= i < |s| ensures !OccursAt(s + [], open, i) {
      if i <= |s| - |open| {
        assert !OccursAt(s, open, i);
      }
    }
    RewriteTagPrefix(s, [], open, close, mark);
  }

  /** `p + open + x + close + q` becomes `p + mark + x` followed by the rewrite
      of `q`, when the opening tag starts nowhere in `p` and `x` holds no `<`
      and no newline: the group captures `x` verbatim. */
  lemma RewriteTagCaptures(p: string, x: string, q: string, open: string, close: string, mark: char)
    requires open != [] && close != [] && close[0] == '<'
    requires NoOpenBefore(p + open + x + close + q, open, |p|)
    requires '<' !in x && '\n' !in x
    ensures RewriteTag(p + open + x + close + q, open, close, mark)
            == p + [mark] + x + RewriteTag(q, open, close, mark)
  {
    Regroup(p, open, x, close, q);
    RewriteTagPrefix(p, open + x + close + q, open, close, mark);
    CapturesAtStart(x, q, open, close, mark);
    Regroup(p, [mark], x, [], RewriteTag(q, open, close, mark));
  }

  /** A character where `open` does not start, followed by text holding no
      first character of `open`, is copied by the rewrite. */
  lemma RewriteTagSkip(c: char, u: string, r: string, open: string, close: string, mark: char)
    requires open != [] && close != [] && open[0] !in u
    requires !OccursAt([c] + u + r, open, 0)
    ensures RewriteTag([c] + u + r, open, close, mark) == [c] + u + RewriteTag(r, open, close, mark)
  {
    var s := [c] + u + r;
    RewriteTagCopy(s, open, close, mark);
    assert s[1..] == u + r;
    NoOpenInPrefix(u, r, open);
    RewriteTagPrefix(u, r, open, close, mark);
    assert [c] + (u + RewriteTag(r, open, close, mark)) == [c] + u + RewriteTag(r, open, close, mark);
  }

  /** No occurrence of `pat` in `p + y + q` when neither `p` nor `q` holds
      one and `y` holds no first character of `pat` and does not start with
      any of its later characters. */
  lemma NoContainsAround(p: string, y: string, q: string, pat: string)
    requires pat != [] && !Contains(p, pat) && !Contains(q, pat)
    requires pat[0] !in y && y != [] && y[0] !in pat[1..]
    ensures !Contains(p + y + q, pat)
  {
    FirstCharAbsent(y, pat);
    NoContainsJoin(y, q, pat);
    assert (y + q)[0] == y[0];
    NoContainsJoin(p, y + q, pat);
    assert p + (y + q) == p + y + q;
  }

  lemma Regroup(a: string, b: string, c: string, d: string, e: string)
    ensures a + b + c + d + e == a + (b + c + d + e)
  {
  }

  // ---------------------------------------------------------------------
  // re.sub(r" *\n+ *", "\n", s)
  // ---------------------------------------------------------------------

  /** `s` without its longest prefix made only of `c`. */
  function DropRun(s: string, c: char): (r: string)
    ensures |r| <= |s| && r == s[|s| - |r|..]
    ensures forall i :: 0 <= i < |s| - |r| ==> s[i] == c
    ensures r == [] || r[0] != c
    ensures s != [] && s[0] == c ==> |r| < |s|
  {
    if s != [] && s[0] == c then DropRun(s[1..], c) else s
  }

  /** The pattern ` *\n+ *` matches at the start of `s`: spaces, then a newline. */
  predicate NewlineAhead(s: string) {
    var t := DropRun(s, ' ');
    t != [] && t[0] == '\n'
  }

  /** A space next to a newline, in either order. */
  predicate BlankPair(a: char, b: char) {
    (a == ' ' && b == '\n') || (a == '\n' && b == ' ')
  }

  /** No space stands directly before or after a newline. */
  predicate NoSpaceAroundNewline(s: string) {
    forall i, j :: 0 <= i < |s| && 0 <= j < |s| && j == i + 1 ==> !BlankPair(s[i], s[j])
  }

  /** What follows the longest match of ` *\n+ *` at the start of `s`. */
  function AfterRun(s: string): (r: string)
    requires NewlineAhead(s)
    ensures |r| < |s| && (r == [] || r[0] != ' ')
  {
    DropRun(DropRun(DropRun(s, ' '), '\n'), ' ')
  }

  /** Every run made of spaces and at least one newline, taken greedily
      from the left, becomes one newline. Tabs and other whitespace are not
      part of the pattern. */
  function Collapse(s: string): (r: string)
    ensures r == [] <==> s == []
    ensures r != [] ==> (r[0] == '\n' <==> NewlineAhead(s)) && (r[0] != '\n' ==> r[0] == s[0])
    ensures NoSpaceAroundNewline(r)
    decreases |s|
  {
    if s == [] then []
    else if NewlineAhead(s) then
      var rest := Collapse(AfterRun(s));
      NoSpaceAroundNewlineCons('\n', rest);
      "\n" + rest
    else
      assert s[0] == ' ' ==> DropRun(s, ' ') == DropRun(s[1..], ' ');
      var rest := Collapse(s[1..]);
      NoSpaceAroundNewlineCons(s[0], rest);
      [s[0]] + rest
  }

  lemma NoSpaceAroundNewlineCons(c: char, rest: string)
    requires NoSpaceAroundNewline(rest)
    requires rest != [] ==> !BlankPair(c, rest[0])
    ensures NoSpaceAroundNewline([c] + rest)
  {
    var s := [c] + rest;
    forall i, j | 0 <= i < |s| && 0 <= j < |s| && j == i + 1 ensures !BlankPair(s[i], s[j]) {
      assert s[j] == rest[i];
      if i > 0 {
        assert s[i] == rest[i - 1];
      }
    }
  }

  /** Removing spaces and newlines from the output of `Collapse` gives the
      same as removing them from its input: `Collapse` deletes and rewrites
      spaces and newlines only, and every other character (tabs included)
      keeps its place. */
  function Erase(s: string): string {
    if s == [] then []
    else (if s[0] == ' ' || s[0] == '\n' then [] else [s[0]]) + Erase(s[1..])
  }

  lemma {:induction false} EraseAppend(a: string, b: string)
    ensures Erase(a + b) == Erase(a) + Erase(b)
    decreases |a|
  {
    if a != [] {
      var head := if a[0] == ' ' || a[0] == '\n' then [] else [a[0]];
      assert (a + b)[0] == a[0] && (a + b)[1..] == a[1..] + b;
      assert Erase(a + b) == head + Erase(a[1..] + b);
      assert Erase(a) == head + Erase(a[1..]);
      EraseAppend(a[1..], b);
      assert head + (Erase(a[1..]) + Erase(b)) == (head + Erase(a[1..])) + Erase(b);
    } else {
      assert a + b == b;
    }
  }

  lemma {:induction false} EraseBlank(a: string)
    requires forall i :: 0 <= i < |a| ==> a[i] == ' ' || a[i] == '\n'
    ensures Erase(a) == []
    decreases |a|
  {
    if a != [] {
      EraseBlank(a[1..]);
    }
  }

  /** Dropping a run of spaces or of newlines does not change `Erase`. */
  lemma {:induction false} EraseDropRun(s: string, c: char)
    requires c == ' ' || c == '\n'
    ensures Erase(DropRun(s, c)) == Erase(s)
    decreases |s|
  {
    if s != [] && s[0] == c {
      EraseDropRun(s[1..], c);
    }
  }

  lemma {:induction false} CollapseKeepsOtherChars(s: string)
    ensures Erase(Collapse(s)) == Erase(s)
    decreases |s|
  {
    if s != [] {
      if NewlineAhead(s) {
        CollapseKeepsOtherChars(AfterRun(s));
        EraseAtRun(s);
      } else {
        CollapseKeepsOtherChars(s[1..]);
        CollapseAtOther(s);
        EraseAtOther(s, Collapse(s), Collapse(s[1..]));
      }
    }
  }

  /** The step of `CollapseKeepsOtherChars` at a run. */
  lemma EraseAtRun(s: string)
    requires NewlineAhead(s) && Erase(Collapse(AfterRun(s))) == Erase(AfterRun(s))
    ensures Erase(Collapse(s)) == Erase(s)
  {
    CollapseAtRun(s);
    EraseAppend("\n", Collapse(AfterRun(s)));
    assert Erase("\n") == [];
    EraseDropRun(s, ' ');
    EraseDropRun(DropRun(s, ' '), '\n');
    EraseDropRun(DropRun(DropRun(s, ' '), '\n'), ' ');
  }

  /** The step of `CollapseKeepsOtherChars` anywhere else: there the
      collapsed text `x` is the first character followed by the collapsed
      rest `r`. */
  lemma EraseAtOther(s: string, x: string, r: string)
    requires s != [] && x == [s[0]] + r && Erase(r) == Erase(s[1..])
    ensures Erase(x) == Erase(s)
  {
    EraseAppend([s[0]], r);
    EraseAppend([s[0]], s[1..]);
    assert [s[0]] + s[1..] == s;
  }

  /** At a run of spaces and newlines `Collapse` writes one newline. */
  lemma CollapseAtRun(s: string)
    requires NewlineAhead(s)
    ensures Collapse(s) == "\n" + Collapse(AfterRun(s))
  {
  }

  /** Anywhere else `Collapse` copies the first character. */
  lemma CollapseAtOther(s: string)
    requires s != [] && !NewlineAhead(s)
    ensures Collapse(s) == [s[0]] + Collapse(s[1..])
  {
  }

  /** Text without a newline has no run to collapse at its start. */
  lemma NoNewlineNotAhead(s: string)
    requires '\n' !in s
    ensures !NewlineAhead(s)
  {
    var t := DropRun(s, ' ');
    if t != [] {
      assert t[0] == s[|s| - |t|] && s[|s| - |t|] in s;
    }
  }

  lemma AbsentFromTail(s: string, c: char)
    requires s != [] && c !in s
    ensures c !in s[1..]
  {
    assert s == [s[0]] + s[1..];
  }

  /** Text without a newline goes through `Collapse` unchanged. */
  lemma {:induction false} CollapseNoNewline(s: string)
    requires '\n' !in s
    ensures Collapse(s) == s
    decreases |s|
  {
    if s != [] {
      AbsentFromTail(s, '\n');
      CollapseNoNewline(s[1..]);
      CollapseCopies(s);
    }
  }

  /** The step of `CollapseNoNewline`. */
  lemma CollapseCopies(s: string)
    requires s != [] && '\n' !in s && Collapse(s[1..]) == s[1..]
    ensures Collapse(s) == s
  {
    NoNewlineNotAhead(s);
    CollapseAtOther(s);
    assert [s[0]] + s[1..] == s;
  }

  /** `DropRun` removes exactly a leading run of `c` that the rest does not continue. */
  lemma {:induction false} DropRunPrefix(a: string, b: string, c: char)
    requires forall i :: 0 <= i < |a| ==> a[i] == c
    requires b == [] || b[0] != c
    ensures DropRun(a + b, c) == b
    decreases |a|
  {
    if a != [] {
      assert (a + b)[0] == c && (a + b)[1..] == a[1..] + b;
      DropRunPrefix(a[1..], b, c);
    } else {
      assert a + b == b;
    }
  }

  /** One whole match of ` *\n+ *` at the start becomes exactly one newline:
      `q` neither continues the trailing spaces nor, when there are none,
      the newlines. */
  lemma CollapseRun(s1: string, n: string, s2: string, q: string)
    requires forall i :: 0 <= i < |s1| ==> s1[i] == ' '
    requires n != [] && forall i :: 0 <= i < |n| ==> n[i] == '\n'
    requires forall i :: 0 <= i < |s2| ==> s2[i] == ' '
    requires q == [] || q[0] != ' '
    requires s2 == [] && q != [] ==> q[0] != '\n'
    ensures Collapse(s1 + n + s2 + q) == "\n" + Collapse(q)
  {
    var s := s1 + n + s2 + q;
    assert s == s1 + (n + (s2 + q));
    assert (n + (s2 + q))[0] == '\n';
    DropRunPrefix(s1, n + (s2 + q), ' ');
    assert s2 + q == [] || (s2 + q)[0] != '\n';
    DropRunPrefix(n, s2 + q, '\n');
    DropRunPrefix(s2, q, ' ');
    CollapseAtRun(s);
  }

  /** Before a newline-free prefix that does not end in a space, no match starts. */
  lemma PrefixNotAhead(p: string, rest: string)
    requires p != [] && '\n' !in p && p[|p| - 1] != ' '
    ensures !NewlineAhead(p + rest)
  {
    var s := p + rest;
    var t := DropRun(s, ' ');
    assert s[|p| - 1] == p[|p| - 1];
    var d := |s| - |t|;
    assert d < |p|;
    assert t[0] == s[d] == p[d] && p[d] in p;
  }

  /** The first character of such a prefix is copied. */
  lemma CollapsePrefixStep(p: string, rest: string)
    requires p != [] && '\n' !in p && p[|p| - 1] != ' '
    ensures Collapse(p + rest) == [p[0]] + Collapse(p[1..] + rest)
  {
    var s := p + rest;
    PrefixNotAhead(p, rest);
    CollapseAtOther(s);
    assert s[1..] == p[1..] + rest && s[0] == p[0];
  }

  /** A newline-free prefix that does not end in a space is copied as it is. */
  lemma {:induction false} CollapsePrefix(p: string, rest: string)
    requires '\n' !in p && (p == [] || p[|p| - 1] != ' ')
    ensures Collapse(p + rest) == p + Collapse(rest)
    decreases |p|
  {
    if p != [] {
      CollapsePrefixStep(p, rest);
      AbsentFromTail(p, '\n');
      assert p[1..] == [] || p[1..][|p[1..]| - 1] == p[|p| - 1];
      CollapsePrefix(p[1..], rest);
      ConsAssoc(p, Collapse(rest));
    } else {
      assert p + rest == rest;
    }
  }

  lemma ConsAssoc(p: string, r: string)
    requires p != []
    ensures [p[0]] + (p[1..] + r) == p + r
  {
    assert p == [p[0]] + p[1..];
  }

  /** `p`, spaces, one or more newlines, spaces, then `q`: the whole match
      between `p` and `q` becomes exactly one newline, and `p` is kept. */
  lemma CollapseMatch(p: string, s1: string, n: string, s2: string, q: string)
    requires '\n' !in p && (p == [] || p[|p| - 1] != ' ')
    requires forall i :: 0 <= i < |s1| ==> s1[i] == ' '
    requires n != [] && forall i :: 0 <= i < |n| ==> n[i] == '\n'
    requires forall i :: 0 <= i < |s2| ==> s2[i] == ' '
    requires q == [] || q[0] != ' '
    requires s2 == [] && q != [] ==> q[0] != '\n'
    ensures Collapse(p + s1 + n + s2 + q) == p + "\n" + Collapse(q)
  {
    var m := s1 + n + s2 + q;
    Regroup(p, s1, n, s2, q);
    CollapsePrefix(p, m);
    CollapseRun(s1, n, s2, q);
    Append3(p, "\n", Collapse(q));
  }

  lemma Append3(a: string, b: string, c: string)
    ensures a + (b + c) == a + b + c
  {
  }

  // ---------------------------------------------------------------------
  // re.sub(r"<[^>]*>", "", s)
  // ---------------------------------------------------------------------

  /** The index of the first `c` in `s`, or `|s|` when there is none. */
  function IndexOf(s: string, c: char): (k: nat)
    ensures k <= |s| && (k < |s| ==> s[k] == c)
    ensures forall i :: 0 <= i < k ==> s[i] != c
  {
    if s == [] || s[0] == c then 0 else 1 + IndexOf(s[1..], c)
  }

  /** No `<` has a `>` anywhere after it. */
  predicate NoClosedTag(s: string) {
    forall i, j :: 0 <= i < j < |s| && s[i] == '<' ==> s[j] != '>'
  }

  lemma NoClosedTagCons(c: char, rest: string)
    requires NoClosedTag(rest)
    requires c == '<' ==> '>' !in rest
    ensures NoClosedTag([c] + rest)
  {
    var s := [c] + rest;
    forall i, j | 0 <= i < j < |s| && s[i] == '<' ensures s[j] != '>' {
      assert s[j] == rest[j - 1];
      if i > 0 {
        assert s[i] == rest[i - 1];
      }
    }
  }

  /** Removes every `<` ... `>` span, each `<` paired with the first `>`
      after it; a `<` with no `>` after it is kept. The output is made of
      characters of the input and holds no tag. */
  function StripTags(s: string): (r: string)
    ensures forall c :: c in r ==> c in s
    ensures NoClosedTag(r)
    decreases |s|
  {
    if s == [] then []
    else
      var k := IndexOf(s, '>');
      if s[0] == '<' && k < |s| then
        StripTags(s[k + 1..])
      else
        var rest := StripTags(s[1..]);
        assert s[0] == '<' ==> '>' !in s[1..];
        NoClosedTagCons(s[0], rest);
        [s[0]] + rest
  }

  /** Text without `<` goes through `StripTags` unchanged. */
  lemma {:induction false} StripTagsNoTag(s: string)
    requires '<' !in s
    ensures StripTags(s) == s
    decreases |s|
  {
    if s != [] {
      assert s[0] in s;
      StripTagsNoTag(s[1..]);
    }
  }

  /** A leading tag `<t>` is dropped together with everything inside it. */
  lemma StripTagsDropsTag(t: string, rest: string)
    requires '>' !in t
    ensures StripTags("<" + t + ">" + rest) == StripTags(rest)
  {
    var s := "<" + t + ">" + rest;
    forall i | 0 <= i <= |t| ensures s[i] != '>' {
      if i > 0 {
        assert s[i] == t[i - 1];
      }
    }
    assert s[|t| + 1] == '>';
    assert IndexOf(s, '>') == |t| + 1;
    assert s[|t| + 2..] == rest;
  }
  /** Text before the first `<` is kept as it is, and removal goes on after it. */
  lemma {:induction false} StripTagsPrefix(p: string, rest: string)
    requires '<' !in p
    ensures StripTags(p + rest) == p + StripTags(rest)
    decreases |p|
  {
    if p != [] {
      var s := p + rest;
      assert s[0] == p[0] && p[0] in p;
      assert s[1..] == p[1..] + rest;
      AbsentFromTail(p, '<');
      StripTagsPrefix(p[1..], rest);
      assert p == [p[0]] + p[1..];
    } else {
      assert p + rest == rest;
    }
  }

  /** A `<` with no `>` anywhere after it is kept. */
  lemma StripTagsUnclosed(rest: string)
    requires '>' !in rest
    ensures StripTags("<" + rest) == "<" + StripTags(rest)
  {
    var s := "<" + rest;
    forall j | 0 < j < |s| ensures s[j] != '>' {
      assert s[j] == rest[j - 1];
    }
    assert IndexOf(s, '>') == |s|;
    assert s[1..] == rest;
  }
}
