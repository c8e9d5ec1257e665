/**
 * `clean_text` of the question-collection script
 * (src/data/collection/collect_questions.py): strip, rewrite `<sup>`/`<sub>`,
 * decode `&nbsp;`, `<br>` and a closed table of named entities in a fixed
 * order, collapse blank runs around newlines, strip again.
 */
module Cleaning {
  import opened Text
  import opened Substitutions

  /** A non-empty literal pattern. */
  type Pattern = p: string | p != [] witness "&"

  /** One `re.sub(pattern, replacement, text)` of the decoding chain: the
      pattern is literal and the replacement is a single character. */
  datatype Rewrite = Rewrite(pattern: Pattern, replacement: char)

  /** Rule `k` of the decoding chain, in the order the script applies it. */
  function Rule(k: int): Rewrite
    requires 0 <= k < 39
  {
    if k == 0 then Rewrite("&nbsp;", ' ')
    else if k == 1 then Rewrite("<br>", '\n')
    else if k == 2 then Rewrite("&lt;", '<')
    else if k == 3 then Rewrite("&gt;", '>')
    else if k == 4 then Rewrite("&amp;", '&')
    else if k == 5 then Rewrite("&quot;", '"')
    else if k == 6 then Rewrite("&apos;", '\'')
    else if k == 7 then Rewrite("&euro;", '€')
    else if k == 8 then Rewrite("&deg;", '°')
    else if k == 9 then Rewrite("&times;", '×')
    else if k == 10 then Rewrite("&divide;", '÷')
    else if k == 11 then Rewrite("&le;", '≤')
    else if k == 12 then Rewrite("&ge;", '≥')
    else if k == 13 then Rewrite("&ne;", '≠')
    else if k == 14 then Rewrite("&plusmn;", '±')
    else if k == 15 then Rewrite("&radic;", '√')
    else if k == 16 then Rewrite("&infin;", '∞')
    else if k == 17 then Rewrite("&int;", '∫')
    else if k == 18 then Rewrite("&sum;", '∑')
    else if k == 19 then Rewrite("&alpha;", 'α')
    else if k == 20 then Rewrite("&beta;", 'β')
    else if k == 21 then Rewrite("&gamma;", 'γ')
    else if k == 22 then Rewrite("&delta;", 'δ')
    else if k == 23 then Rewrite("&epsilon;", 'ε')
    else if k == 24 then Rewrite("&theta;", 'θ')
    else if k == 25 then Rewrite("&lambda;", 'λ')
    else if k == 26 then Rewrite("&mu;", 'μ')
    else if k == 27 then Rewrite("&sigma;", 'σ')
    else if k == 28 then Rewrite("&omega;", 'ω')
    else if k == 29 then Rewrite("&pi;", 'π')
    else if k == 30 then Rewrite("&phi;", 'φ')
    else if k == 31 then Rewrite("&psi;", 'ψ')
    else if k == 32 then Rewrite("&chi;", 'χ')
    else if k == 33 then Rewrite("&tau;", 'τ')
    else if k == 34 then Rewrite("&rho;", 'ρ')
    else if k == 35 then Rewrite("&xi;", 'ξ')
    else if k == 36 then Rewrite("&zeta;", 'ζ')
    else if k == 37 then Rewrite("&eta;", 'η')
    else Rewrite("&kappa;", 'κ')
  }

  /** The decoding chain: `&nbsp;`, `<br>`, then the entity table. */
  function Rewrites(): (r: seq<Rewrite>)
    ensures |r| == 39 && forall k :: 0 <= k < 39 ==> r[k] == Rule(k)
  {
    seq(39, Rule)
  }

  /** No rule with index in `[lo, mid)` shares its pattern with a rule in `[mid2, hi)`. */
  predicate DistinctAcross(lo: nat, mid: nat, mid2: nat, hi: nat)
    requires lo <= mid <= mid2 <= hi <= |Rewrites()|
  {
    forall j, k :: lo <= j < mid && mid2 <= k < hi ==> Rewrites()[j].pattern != Rewrites()[k].pattern
  }

  /** No two rules with indices in `[lo, hi)` share a pattern. */
  predicate DistinctWithin(lo: nat, hi: nat)
    requires lo <= hi <= |Rewrites()|
  {
    forall j, k :: lo <= j < k < hi ==> Rewrites()[j].pattern != Rewrites()[k].pattern
  }

  // The pairwise check is split into blocks of ten rules to keep each proof small.
  lemma DistinctBlock0() ensures DistinctWithin(0, 10) {}
  lemma DistinctBlock1() ensures DistinctWithin(10, 20) {}
  lemma DistinctBlock2() ensures DistinctWithin(20, 30) {}
  lemma DistinctBlock3() ensures DistinctWithin(30, 39) {}
  lemma DistinctBlocks01() ensures DistinctAcross(0, 10, 10, 20) {}
  lemma DistinctBlocks02() ensures DistinctAcross(0, 10, 20, 30) {}
  lemma DistinctBlocks03() ensures DistinctAcross(0, 10, 30, 39) {}
  lemma DistinctBlocks12() ensures DistinctAcross(10, 20, 20, 30) {}
  lemma DistinctBlocks13() ensures DistinctAcross(10, 20, 30, 39) {}
  lemma DistinctBlocks23() ensures DistinctAcross(20, 30, 30, 39) {}

  /** The patterns of the chain are pairwise different. */
  lemma PatternsDistinct()
    ensures forall j, k :: 0 <= j < k < |Rewrites()| ==> Rewrites()[j].pattern != Rewrites()[k].pattern
  {
    DistinctBlock0(); DistinctBlock1(); DistinctBlock2(); DistinctBlock3();
    DistinctBlocks01(); DistinctBlocks02(); DistinctBlocks03();
    DistinctBlocks12(); DistinctBlocks13(); DistinctBlocks23();
  }

  /** A named entity: `&`, at least one ASCII letter, `;`. */
  predicate IsEntity(p: string) {
    |p| >= 3 && p[0] == '&' && p[|p| - 1] == ';'
    && forall i :: 0 < i < |p| - 1 ==> ('a' <= p[i] <= 'z' || 'A' <= p[i] <= 'Z')
  }

  /** The rules in `[lo, hi)` other than `<br>` decode a named entity
      whose pattern is at least four characters long. */
  predicate ShapedWithin(lo: nat, hi: nat)
    requires lo <= hi <= |Rewrites()|
  {
    forall k :: lo <= k < hi && k != 1 ==> IsEntity(Rewrites()[k].pattern) && |Rewrites()[k].pattern| >= 4
  }

  lemma ShapedBlock0() ensures ShapedWithin(0, 10) {}
  lemma ShapedBlock1() ensures ShapedWithin(10, 20) {}
  lemma ShapedBlock2() ensures ShapedWithin(20, 30) {}
  lemma ShapedBlock3() ensures ShapedWithin(30, 39) {}

  /** Every rule but `<br>` (index 1) decodes a named entity, and every
      pattern is at least four characters long. */
  lemma EntityShapes()
    ensures Rewrites()[1].pattern == "<br>"
    ensures forall k :: 0 <= k < |Rewrites()| && k != 1 ==> IsEntity(Rewrites()[k].pattern)
    ensures forall k :: 0 <= k < |Rewrites()| ==> |Rewrites()[k].pattern| >= 4
  {
    ShapedBlock0(); ShapedBlock1(); ShapedBlock2(); ShapedBlock3();
  }

  /** Applies the rules one after the other, each to the output of the previous one. */
  function ApplyRewrites(s: string, rules: seq<Rewrite>): string
    decreases |rules|
  {
    if rules == [] then s
    else ApplyRewrites(ReplaceAll(s, rules[0].pattern, [rules[0].replacement]), rules[1..])
  }

  /** Each rule replaces a pattern with one character, so running the rules
      never lengthens the text. */
  lemma {:induction false} ApplyRewritesNoLonger(s: string, rules: seq<Rewrite>)
    ensures |ApplyRewrites(s, rules)| <= |s|
    decreases |rules|
  {
    if rules != [] {
      var t := ReplaceAll(s, rules[0].pattern, [rules[0].replacement]);
      ReplaceAllNoLonger(s, rules[0].pattern, [rules[0].replacement]);
      ApplyRewritesNoLonger(t, rules[1..]);
    }
  }

  /** Decodes `&nbsp;`, `<br>` and the entity table, in the script's order. */
  function DecodeEntities(s: string): string {
    ApplyRewrites(s, Rewrites())
  }

  /** The tag stage: `<sup>X</sup>` to `^X`, then `<sub>X</sub>` to `_X`. */
  function RewriteTags(s: string): string {
    RewriteTag(RewriteTag(s, "<sup>", "</sup>", '^'), "<sub>", "</sub>", '_')
  }

  /** The last stage: collapse ` *\n+ *` to one newline, then strip.
      The result has no whitespace at either end and no space next to a
      newline. */
  function Finish(s: string): (r: string)
    ensures NoSurroundingSpace(r)
    ensures NoSpaceAroundNewline(r)
  {
    var collapsed := Collapse(s);
    StripKeepsNoSpaceAroundNewline(collapsed);
    Strip(collapsed)
  }

  /** The stages of `clean_text` with a given decoding chain. */
  function CleanWith(text: string, rules: seq<Rewrite>): string {
    Finish(ApplyRewrites(RewriteTags(Strip(text)), rules))
  }

  /** `clean_text`: strip; `<sup>X</sup>` to `^X`; `<sub>X</sub>` to `_X`;
      the decoding chain; collapse ` *\n+ *` to one newline; strip again.
      The result has no whitespace at either end and no space next to a
      newline. */
  function CleanText(text: string): (r: string)
    ensures NoSurroundingSpace(r)
    ensures NoSpaceAroundNewline(r)
  {
    CleanWith(text, Rewrites())
  }

  /** Text without `<` passes the tag stage unchanged. */
  lemma RewriteTagsNoTag(s: string)
    requires '<' !in s
    ensures RewriteTags(s) == s
  {
    RewriteTagAbsent(s, "<sup>", "</sup>", '^');
    RewriteTagAbsent(s, "<sub>", "</sub>", '_');
  }

  /** Single-line text without whitespace at its ends passes the last stage
      unchanged. */
  lemma FinishNoOp(s: string)
    requires '\n' !in s && NoSurroundingSpace(s)
    ensures Finish(s) == s
  {
    CollapseNoNewline(s);
    StripNoOp(s);
  }

  lemma StripKeepsNoSpaceAroundNewline(s: string)
    requires NoSpaceAroundNewline(s)
    ensures NoSpaceAroundNewline(Strip(s))
  {
    var lo := StripInfix(s);
    SliceKeepsNoSpaceAroundNewline(s, lo, lo + |Strip(s)|, Strip(s));
  }

  lemma SliceKeepsNoSpaceAroundNewline(s: string, lo: nat, hi: nat, r: string)
    requires lo <= hi <= |s| && NoSpaceAroundNewline(s) && r == s[lo..hi]
    ensures NoSpaceAroundNewline(r)
  {
    forall i, j | 0 <= i < |r| && 0 <= j < |r| && j == i + 1 ensures !BlankPair(r[i], r[j]) {
      assert r[i] == s[lo + i] && r[j] == s[lo + j];
    }
  }

  // ---------------------------------------------------------------------
  // The chain as a whole
  // ---------------------------------------------------------------------

  lemma {:induction false} ApplySplit(s: string, a: seq<Rewrite>, b: seq<Rewrite>)
    ensures ApplyRewrites(s, a + b) == ApplyRewrites(ApplyRewrites(s, a), b)
    decreases |a|
  {
    if a != [] {
      assert (a + b)[0] == a[0] && (a + b)[1..] == a[1..] + b;
      ApplySplit(ReplaceAll(s, a[0].pattern, [a[0].replacement]), a[1..], b);
    } else {
      assert a + b == b;
    }
  }

  /** Rules whose patterns do not occur leave the text as it is. */
  lemma {:induction false} ApplyUntouched(s: string, rules: seq<Rewrite>)
    requires forall i :: 0 <= i < |rules| ==> !Contains(s, rules[i].pattern)
    ensures ApplyRewrites(s, rules) == s
    decreases |rules|
  {
    if rules != [] {
      ReplaceAbsent(s, rules[0].pattern, [rules[0].replacement]);
      ApplyUntouched(s, rules[1..]);
    }
  }

  /** An entity followed by text without `&` holds no other entity, and
      no `<br>` when the text has no `<` either. */
  lemma EntityNotOccurs(e: string, tail: string, pat: string)
    requires IsEntity(e) && '&' !in tail && (pat == "<br>" ==> '<' !in tail)
    requires (IsEntity(pat) && pat != e) || pat == "<br>"
    ensures !Contains(e + tail, pat)
  {
    var s := e + tail;
    if pat == "<br>" {
      assert forall i :: 0 <= i < |s| ==> s[i] != '<' by {
        forall i | 0 <= i < |s| ensures s[i] != '<' {
          if i >= |e| {
            assert s[i] == tail[i - |e|] && tail[i - |e|] in tail;
          }
        }
      }
      FirstCharAbsent(s, pat);
    } else {
      forall i | 0 <= i <= |s| - |pat| ensures !OccursAt(s, pat, i) {
        if i > 0 {
          if i < |e| {
            assert s[i] == e[i];
          } else {
            assert s[i] == tail[i - |e|] && tail[i - |e|] in tail;
          }
          assert s[i..i + |pat|][0] == s[i];
        } else if |pat| < |e| {
          assert s[|pat| - 1] == e[|pat| - 1];
          assert s[..|pat|][|pat| - 1] == s[|pat| - 1];
        } else if |pat| > |e| {
          assert s[..|pat|][|e| - 1] == e[|e| - 1];
        } else {
          assert s[..|pat|] == e;
        }
      }
    }
  }

  /** Two different rules of the chain: the pattern of one does not occur
      in the pattern of the other. */
  lemma PatternsDisjoint(j: nat, k: nat)
    requires j < |Rewrites()| && k < |Rewrites()| && j != k
    ensures !Contains(Rewrites()[k].pattern, Rewrites()[j].pattern)
  {
    EntityShapes();
    PatternsDistinct();
    var e, pat := Rewrites()[k].pattern, Rewrites()[j].pattern;
    if k == 1 {
      assert e == "<br>";
      assert forall i :: 0 <= i < |e| ==> e[i] != '&';
      FirstCharAbsent(e, pat);
    } else {
      assert e + [] == e;
      EntityNotOccurs(e, [], pat);
    }
  }

  /** A text shorter than every pattern is left alone. */
  lemma ShortUntouched(s: string, rules: seq<Rewrite>)
    requires forall i :: 0 <= i < |rules| ==> |s| < |rules[i].pattern|
    ensures ApplyRewrites(s, rules) == s
  {
    ApplyUntouched(s, rules);
  }

  /** Replacing a pattern at the head of a text in which its first
      character does not occur again. */
  lemma ReplaceHead(pat: Pattern, tail: string, rep: string)
    requires pat[0] !in tail
    ensures ReplaceAll(pat + tail, pat, rep) == rep + tail
  {
    assert (pat + tail)[|pat|..] == tail;
    FirstCharAbsent(tail, pat);
    ReplaceAbsent(tail, pat, rep);
  }

  /** In a chain whose other patterns do not occur in the pattern of rule
      `k`, and whose later patterns are longer than one character, that
      pattern is decoded to its character. */
  lemma DecodeAt(rules: seq<Rewrite>, k: nat)
    requires k < |rules|
    requires forall j :: 0 <= j < |rules| && j != k ==> !Contains(rules[k].pattern, rules[j].pattern)
    requires forall j :: k < j < |rules| ==> |rules[j].pattern| > 1
    ensures ApplyRewrites(rules[k].pattern, rules) == [rules[k].replacement]
  {
    var e := rules[k].pattern;
    var before, after := rules[..k], rules[k + 1..];
    forall i | 0 <= i < |before| ensures !Contains(e, before[i].pattern) {
      assert before[i] == rules[i];
    }
    ApplyUntouched(e, before);
    assert rules == before + ([rules[k]] + after);
    ApplySplit(e, before, [rules[k]] + after);
    var c := [rules[k].replacement];
    ReplaceHead(e, [], c);
    assert e + [] == e && c + [] == c;
    assert ReplaceAll(e, rules[k].pattern, c) == c;
    assert ([rules[k]] + after)[0] == rules[k] && ([rules[k]] + after)[1..] == after;
    assert ApplyRewrites(e, [rules[k]] + after) == ApplyRewrites([rules[k].replacement], after);
    forall i | 0 <= i < |after| ensures 1 < |after[i].pattern| {
      assert after[i] == rules[k + 1 + i];
    }
    ShortUntouched([rules[k].replacement], after);
  }

  /** Each rule's pattern, on its own, decodes to exactly its one character. */
  lemma DecodeEachEntity(k: nat)
    requires k < |Rewrites()|
    ensures DecodeEntities(Rewrites()[k].pattern) == [Rewrites()[k].replacement]
  {
    EntityShapes();
    forall j | 0 <= j < |Rewrites()| && j != k
      ensures !Contains(Rewrites()[k].pattern, Rewrites()[j].pattern)
    {
      PatternsDisjoint(j, k);
    }
    DecodeAt(Rewrites(), k);
  }

  /** Every rule after `&nbsp;` and `<br>` decodes to a visible character. */
  lemma VisibleReplacements()
    ensures forall k :: 2 <= k < |Rewrites()| ==> !IsSpace(Rewrites()[k].replacement)
  {}

  /** The characters of a named entity after its `&`. */
  lemma EntityChars(e: string)
    requires IsEntity(e)
    ensures forall c :: c in e[1..] ==> c == ';' || 'a' <= c <= 'z' || 'A' <= c <= 'Z'
    ensures '<' !in e && '\n' !in e && NoSurroundingSpace(e)
  {
    forall c | c in e[1..] ensures c == ';' || 'a' <= c <= 'z' || 'A' <= c <= 'Z' {
      var i :| 0 <= i < |e[1..]| && e[1..][i] == c;
      assert c == e[i + 1];
    }
    forall i | 0 <= i < |e| ensures e[i] != '<' && e[i] != '\n' {
      if i > 0 { assert e[i] == e[1..][i - 1] && e[i] in e[1..]; }
    }
  }

  /** Text with no `&` and no `<br>` holds no pattern of the chain: every
      other pattern starts with `&`. */
  lemma DecodeUntouched(s: string)
    requires '&' !in s && !Contains(s, "<br>")
    ensures DecodeEntities(s) == s
  {
    EntityShapes();
    forall i | 0 <= i < |Rewrites()| ensures !Contains(s, Rewrites()[i].pattern) {
      var pat := Rewrites()[i].pattern;
      if i != 1 {
        assert pat[0] == '&';
        FirstCharAbsent(s, pat);
      }
    }
    ApplyUntouched(s, Rewrites());
  }

  /** Text in which no rule of the chain can start: no `&` and no `<br>`. */
  predicate NoRuleStart(s: string) {
    '&' !in s && !Contains(s, "<br>")
  }

  /** Rule `k` decodes one occurrence of its pattern inside other text when
      no earlier pattern occurs, its own pattern starts nowhere else, and
      no later pattern occurs in the decoded text. */
  lemma DecodeWithin(rules: seq<Rewrite>, k: nat, p: string, q: string)
    requires k < |rules|
    requires forall j :: 0 <= j < k ==> !Contains(p + rules[k].pattern + q, rules[j].pattern)
    requires NoOpenBefore(p + rules[k].pattern + q, rules[k].pattern, |p|) && !Contains(q, rules[k].pattern)
    requires forall j :: k < j < |rules| ==> !Contains(p + [rules[k].replacement] + q, rules[j].pattern)
    ensures ApplyRewrites(p + rules[k].pattern + q, rules) == p + [rules[k].replacement] + q
  {
    var e, c := rules[k].pattern, [rules[k].replacement];
    var s, t := p + e + q, p + c + q;
    ApplyFrom(s, rules, k);
    ReplaceAt(p, q, e, c);
    ReplaceAbsent(q, e, c);
    assert rules[k..][0] == rules[k] && rules[k..][1..] == rules[k + 1..];
    ApplyLater(t, rules, k);
  }

  /** Rules before `k` whose patterns do not occur can be skipped. */
  lemma ApplyFrom(s: string, rules: seq<Rewrite>, k: nat)
    requires k <= |rules|
    requires forall j :: 0 <= j < k ==> !Contains(s, rules[j].pattern)
    ensures ApplyRewrites(s, rules) == ApplyRewrites(s, rules[k..])
  {
    var before := rules[..k];
    forall i | 0 <= i < |before| ensures !Contains(s, before[i].pattern) {
      assert before[i] == rules[i];
    }
    ApplyUntouched(s, before);
    assert rules == before + rules[k..];
    ApplySplit(s, before, rules[k..]);
  }

  /** Rules after `k` whose patterns do not occur leave the text alone. */
  lemma ApplyLater(t: string, rules: seq<Rewrite>, k: nat)
    requires k < |rules|
    requires forall j :: k < j < |rules| ==> !Contains(t, rules[j].pattern)
    ensures ApplyRewrites(t, rules[k + 1..]) == t
  {
    var after := rules[k + 1..];
    forall i | 0 <= i < |after| ensures !Contains(t, after[i].pattern) {
      assert after[i] == rules[k + 1 + i];
    }
    ApplyUntouched(t, after);
  }

  /** Between two texts where no rule can start, an entity is the only
      place where another entity could start, and it does not. */
  lemma EntityInText(p: string, e: string, q: string, pat: string)
    requires IsEntity(e) && IsEntity(pat) && pat != e && '&' !in p && '&' !in q
    ensures !Contains(p + e + q, pat)
  {
    EntityNotOccurs(e, q, pat);
    FirstCharAbsent(p, pat);
    NoContainsJoin(p, e + q, pat);
    assert p + (e + q) == p + e + q;
  }

  /** Another rule's pattern does not occur around the pattern of rule `k`. */
  lemma OthersAbsent(p: string, k: nat, q: string, j: nat)
    requires k < |Rewrites()| && j < |Rewrites()| && j != k
    requires NoRuleStart(p) && NoRuleStart(q)
    ensures !Contains(p + Rewrites()[k].pattern + q, Rewrites()[j].pattern)
  {
    EntityShapes();
    var e, pat := Rewrites()[k].pattern, Rewrites()[j].pattern;
    if j == 1 {
      EntityChars(e);
      NoContainsAround(p, e, q, pat);
    } else if k == 1 {
      assert pat[0] == '&' && '&' !in e;
      FirstCharAbsent(p + e + q, pat);
    } else {
      PatternsDistinct();
      EntityInText(p, e, q, pat);
    }
  }

  /** The pattern of rule `k` starts nowhere in the text around it. */
  lemma OwnOccurrence(p: string, k: nat, q: string)
    requires k < |Rewrites()| && NoRuleStart(p) && NoRuleStart(q)
    ensures NoOpenBefore(p + Rewrites()[k].pattern + q, Rewrites()[k].pattern, |p|)
    ensures !Contains(q, Rewrites()[k].pattern)
  {
    EntityShapes();
    var e := Rewrites()[k].pattern;
    if k != 1 {
      EntityChars(e);
      assert e[0] == '&';
      FirstCharAbsent(p, e);
      FirstCharAbsent(q, e);
    }
    assert (e + q)[0] == e[0];
    NoOpenAcross(p, e + q, e);
    assert p + (e + q) == p + e + q;
  }

  /** A later rule's pattern does not occur once rule `k` has decoded its
      pattern to a character other than `&`. */
  lemma LaterAbsent(p: string, k: nat, q: string, j: nat)
    requires k < j < |Rewrites()| && NoRuleStart(p) && NoRuleStart(q)
    requires Rewrites()[k].replacement != '&'
    ensures !Contains(p + [Rewrites()[k].replacement] + q, Rewrites()[j].pattern)
  {
    EntityShapes();
    var c, pat := [Rewrites()[k].replacement], Rewrites()[j].pattern;
    if j == 1 {
      assert c == " ";
      NoContainsAround(p, c, q, pat);
    } else {
      assert pat[0] == '&' && '&' !in c;
      FirstCharAbsent(p + c + q, pat);
    }
  }

  /** A pattern of the chain inside other text is decoded to its character
      and the text around it is kept, when no rule can start in that text
      and the character is not `&` (an `&` could start a later entity). */
  lemma DecodeInText(p: string, k: nat, q: string)
    requires k < |Rewrites()| && NoRuleStart(p) && NoRuleStart(q)
    requires Rewrites()[k].replacement != '&'
    ensures DecodeEntities(p + Rewrites()[k].pattern + q) == p + [Rewrites()[k].replacement] + q
  {
    forall j | 0 <= j < k ensures !Contains(p + Rewrites()[k].pattern + q, Rewrites()[j].pattern) {
      OthersAbsent(p, k, q, j);
    }
    OwnOccurrence(p, k, q);
    forall j | k < j < |Rewrites()| ensures !Contains(p + [Rewrites()[k].replacement] + q, Rewrites()[j].pattern) {
      LaterAbsent(p, k, q, j);
    }
    DecodeWithin(Rewrites(), k, p, q);
  }

  /** Text with neither `&` nor `<` holds no pattern of the chain. */
  lemma DecodeNothing(s: string)
    requires '&' !in s && '<' !in s
    ensures DecodeEntities(s) == s
  {
    FirstCharAbsent(s, "<br>");
    DecodeUntouched(s);
  }

  /** On single-line text without tags, `clean_text` is the decoding chain
      alone, as long as the decoded text is again single-line and has no
      whitespace at its ends. */
  lemma CleanWithDecodes(s: string, rules: seq<Rewrite>)
    requires '<' !in s && NoSurroundingSpace(s)
    requires '\n' !in ApplyRewrites(s, rules) && NoSurroundingSpace(ApplyRewrites(s, rules))
    ensures CleanWith(s, rules) == ApplyRewrites(s, rules)
  {
    StripNoOp(s);
    RewriteTagsNoTag(s);
    FinishNoOp(ApplyRewrites(s, rules));
  }

  /** Text with no `&`, no `<`, no newline and no whitespace at its ends
      comes out of `clean_text` unchanged. */
  lemma CleanTextPlain(s: string)
    requires '&' !in s && '<' !in s && '\n' !in s && NoSurroundingSpace(s)
    ensures CleanText(s) == s
  {
    DecodeNothing(s);
    CleanWithDecodes(s, Rewrites());
  }

  /** A named entity that the chain decodes to one visible character
      comes out of the cleaning stages as that character. */
  lemma CleanWithEntity(rules: seq<Rewrite>, k: nat)
    requires k < |rules| && IsEntity(rules[k].pattern) && !IsSpace(rules[k].replacement)
    requires ApplyRewrites(rules[k].pattern, rules) == [rules[k].replacement]
    ensures CleanWith(rules[k].pattern, rules) == [rules[k].replacement]
  {
    EntityChars(rules[k].pattern);
    assert IsSpace('\n');
    CleanWithDecodes(rules[k].pattern, rules);
  }

  /** Each entity of the table after `&nbsp;` and `<br>` becomes exactly
      its one character. */
  lemma CleanTextEntity(k: nat)
    requires 2 <= k < |Rewrites()|
    ensures CleanText(Rewrites()[k].pattern) == [Rewrites()[k].replacement]
  {
    EntityShapes();
    VisibleReplacements();
    DecodeEachEntity(k);
    CleanWithEntity(Rewrites(), k);
  }

  /** One whitespace character on its own is removed by the last stage. */
  lemma FinishBlank(c: char)
    requires c == ' ' || c == '\n'
    ensures Finish([c]) == []
  {
    if c == ' ' { CollapseSpace(); } else { CollapseNewline(); }
    StripBlank(c);
  }

  lemma CollapseSpace()
    ensures Collapse(" ") == " "
  {
    assert DropRun(" ", ' ') == [];
  }

  lemma CollapseNewline()
    ensures Collapse("\n") == "\n"
  {
    assert DropRun("\n", '\n') == [];
  }

  lemma StripBlank(c: char)
    requires IsSpace(c)
    ensures Strip([c]) == []
  {
    assert TrimStart([c]) == [];
  }

  /** Markup that the chain turns into one whitespace character comes out
      of the cleaning stages empty. */
  lemma CleanWithBlank(s: string, rules: seq<Rewrite>, c: char)
    requires NoSurroundingSpace(s) && RewriteTags(s) == s
    requires ApplyRewrites(s, rules) == [c] && (c == ' ' || c == '\n')
    ensures CleanWith(s, rules) == []
  {
    StripNoOp(s);
    FinishBlank(c);
  }

  /** `&nbsp;` on its own decodes to one space; no tag rewrite touches it. */
  lemma DecodeNbsp()
    ensures ApplyRewrites("&nbsp;", Rewrites()) == " "
    ensures RewriteTags("&nbsp;") == "&nbsp;"
  {
    DecodeEachEntity(0);
    RewriteTagsNoTag("&nbsp;");
  }

  /** `<br>` on its own decodes to one newline; no tag rewrite touches it. */
  lemma DecodeBreak()
    ensures ApplyRewrites("<br>", Rewrites()) == "\n"
    ensures RewriteTags("<br>") == "<br>"
  {
    DecodeEachEntity(1);
    RewriteTagUntouched("<br>", "<sup>", "</sup>", '^');
    RewriteTagUntouched("<br>", "<sub>", "</sub>", '_');
  }

  /** `&nbsp;` on its own is whitespace, which the last stage removes. */
  lemma CleanTextNbsp()
    ensures CleanText("&nbsp;") == []
  {
    DecodeNbsp();
    CleanWithBlank("&nbsp;", Rewrites(), ' ');
  }

  /** `<br>` on its own is a newline, which the last stage removes. */
  lemma CleanTextBreak()
    ensures CleanText("<br>") == []
  {
    DecodeBreak();
    CleanWithBlank("<br>", Rewrites(), '\n');
  }

  // ---------------------------------------------------------------------
  // Superscripts and subscripts
  // ---------------------------------------------------------------------

  /** Holds nothing that `clean_text` rewrites: no `&`, no newline, and
      none of `<sup>`, `<sub>`, `<br>`. Other markup, such as the `<p>` and
      `<span>` wrappers of the quiz API, may occur. */
  predicate NoMarkup(s: string) {
    '&' !in s && '\n' !in s && !Contains(s, "<sup>") && !Contains(s, "<sub>") && !Contains(s, "<br>")
  }

  lemma CloseSubShape(q: string)
    ensures "</sub>" + q == ['<'] + "/sub>" + q
  {}

  /** The `<sup>` rewrite passes over a closing `</sub>`. */
  lemma SupSkipsCloseSub(q: string)
    ensures RewriteTag("</sub>" + q, "<sup>", "</sup>", '^') == "</sub>" + RewriteTag(q, "<sup>", "</sup>", '^')
  {
    CloseSubShape(q);
    CloseSubShape(RewriteTag(q, "<sup>", "</sup>", '^'));
    assert ("</sub>" + q)[1] == '/';
    RewriteTagSkip('<', "/sub>", q, "<sup>", "</sup>", '^');
  }

  lemma SubGroupShape(x: string, q: string)
    ensures "<sub>" + x + "</sub>" + q == ['<'] + ("sub>" + x) + ("</sub>" + q)
  {}

  /** The `<sup>` rewrite passes over a `<sub>` group. */
  lemma SupSkipsSub(x: string, q: string)
    requires '<' !in x
    ensures RewriteTag("<sub>" + x + "</sub>" + q, "<sup>", "</sup>", '^')
         == "<sub>" + x + "</sub>" + RewriteTag(q, "<sup>", "</sup>", '^')
  {
    var r := RewriteTag(q, "<sup>", "</sup>", '^');
    SubGroupShape(x, q);
    SubGroupShape(x, r);
    assert ("<sub>" + x + "</sub>" + q)[3] == 'b';
    RewriteTagSkip('<', "sub>" + x, "</sub>" + q, "<sup>", "</sup>", '^');
    SupSkipsCloseSub(q);
  }

  /** The `<sup>` pass on text holding one `<sup>` group. */
  lemma SupPassOnSup(p: string, x: string, q: string)
    requires !Contains(p, "<sup>") && !Contains(q, "<sup>")
    requires '<' !in x && '\n' !in x
    ensures RewriteTag(p + "<sup>" + x + "</sup>" + q, "<sup>", "</sup>", '^') == p + "^" + x + q
  {
    Regroup(p, "<sup>", x, "</sup>", q);
    NoOpenAcross(p, "<sup>" + x + "</sup>" + q, "<sup>");
    RewriteTagCaptures(p, x, q, "<sup>", "</sup>", '^');
    RewriteTagUntouched(q, "<sup>", "</sup>", '^');
    assert p + ['^'] + x + q == p + "^" + x + q;
  }

  /** A marked group's rewrite holds no opening tag when the text around
      it holds none. */
  lemma NoOpenAroundMark(p: string, x: string, q: string, mark: char, open: string)
    requires open != [] && open[0] == '<' && mark != '<' && mark !in open[1..]
    requires !Contains(p, open) && !Contains(q, open) && '<' !in x
    ensures !Contains(p + [mark] + x + q, open)
  {
    var y := [mark] + x;
    NoContainsAround(p, y, q, open);
    assert p + y + q == p + [mark] + x + q;
  }

  /** The tag stage on text holding one `<sup>` group: the group becomes
      `^` and its content, and the text around it, which holds no `<sup>`
      or `<sub>`, is kept. */
  lemma SupTags(p: string, x: string, q: string)
    requires !Contains(p, "<sup>") && !Contains(p, "<sub>")
    requires !Contains(q, "<sup>") && !Contains(q, "<sub>")
    requires '<' !in x && '\n' !in x
    ensures RewriteTags(p + "<sup>" + x + "</sup>" + q) == p + "^" + x + q
  {
    SupPassOnSup(p, x, q);
    NoOpenAroundMark(p, x, q, '^', "<sub>");
    assert p + ['^'] + x + q == p + "^" + x + q;
    RewriteTagUntouched(p + "^" + x + q, "<sub>", "</sub>", '_');
  }

  /** The `<sup>` pass leaves text holding one `<sub>` group alone. */
  lemma SupPassOnSub(p: string, x: string, q: string)
    requires !Contains(p, "<sup>") && !Contains(q, "<sup>") && '<' !in x
    ensures RewriteTag(p + "<sub>" + x + "</sub>" + q, "<sup>", "</sup>", '^') == p + "<sub>" + x + "</sub>" + q
  {
    var g := "<sub>" + x + "</sub>";
    Regroup(p, "<sub>", x, "</sub>", q);
    assert p + "<sub>" + x + "</sub>" + q == p + (g + q);
    NoOpenAcross(p, g + q, "<sup>");
    RewriteTagPrefix(p, g + q, "<sup>", "</sup>", '^');
    SupSkipsSub(x, q);
    RewriteTagUntouched(q, "<sup>", "</sup>", '^');
    Regroup(p, "<sub>", x, "</sub>", q);
  }

  /** The tag stage on text holding one `<sub>` group: the `<sup>` pass
      leaves it alone, then the group becomes `_` and its content. */
  lemma SubTags(p: string, x: string, q: string)
    requires !Contains(p, "<sup>") && !Contains(p, "<sub>")
    requires !Contains(q, "<sup>") && !Contains(q, "<sub>")
    requires '<' !in x && '\n' !in x
    ensures RewriteTags(p + "<sub>" + x + "</sub>" + q) == p + "_" + x + q
  {
    SupPassOnSub(p, x, q);
    Regroup(p, "<sub>", x, "</sub>", q);
    NoOpenAcross(p, "<sub>" + x + "</sub>" + q, "<sub>");
    RewriteTagCaptures(p, x, q, "<sub>", "</sub>", '_');
    RewriteTagUntouched(q, "<sub>", "</sub>", '_');
    assert p + ['_'] + x + q == p + "_" + x + q;
  }

  /** The stages around the decoding leave text alone when the tag stage
      yields single-line text without whitespace at its ends that the
      chain does not change. */
  lemma CleanWithTags(s: string, t: string, rules: seq<Rewrite>)
    requires NoSurroundingSpace(s) && RewriteTags(s) == t
    requires ApplyRewrites(t, rules) == t && '\n' !in t && NoSurroundingSpace(t)
    ensures CleanWith(s, rules) == t
  {
    StripNoOp(s);
    FinishNoOp(t);
  }

  /** A tag group and its rewrite, with text around them, have no
      whitespace at their ends when the text before does not start, and the
      text after (or else the group's content) does not end, with whitespace. */
  lemma TagGroupEnds(p: string, x: string, q: string, open: string, close: string, mark: char)
    requires open != [] && close != [] && !IsSpace(open[0]) && !IsSpace(close[|close| - 1]) && !IsSpace(mark)
    requires p == [] || !IsSpace(p[0])
    requires q != [] ==> !IsSpace(q[|q| - 1])
    requires q == [] && x != [] ==> !IsSpace(x[|x| - 1])
    ensures NoSurroundingSpace(p + open + x + close + q) && NoSurroundingSpace(p + [mark] + x + q)
  {
    var s, t := p + open + x + close + q, p + [mark] + x + q;
    assert s[0] == (if p == [] then open[0] else p[0]);
    assert s[|s| - 1] == (if q == [] then close[|close| - 1] else q[|q| - 1]);
    assert t[0] == (if p == [] then mark else p[0]);
    assert t[|t| - 1] == (if q != [] then q[|q| - 1] else if x == [] then mark else x[|x| - 1]);
  }

  /** `p<sup>x</sup>q` is cleaned to `p^xq` when `p` and `q` hold nothing
      that `clean_text` rewrites (other tags are allowed), `x` holds no
      markup or newline, and the outer ends are not whitespace. */
  lemma CleanTextSup(p: string, x: string, q: string)
    requires NoMarkup(p) && NoMarkup(q) && '<' !in x && '&' !in x && '\n' !in x
    requires p == [] || !IsSpace(p[0])
    requires q != [] ==> !IsSpace(q[|q| - 1])
    requires q == [] && x != [] ==> !IsSpace(x[|x| - 1])
    ensures CleanText(p + "<sup>" + x + "</sup>" + q) == p + "^" + x + q
  {
    var s, t := p + "<sup>" + x + "</sup>" + q, p + "^" + x + q;
    TagGroupEnds(p, x, q, "<sup>", "</sup>", '^');
    assert p + ['^'] + x + q == t;
    SupTags(p, x, q);
    NoOpenAroundMark(p, x, q, '^', "<br>");
    DecodeUntouched(t);
    CleanWithTags(s, t, Rewrites());
  }

  /** `p<sub>x</sub>q` is cleaned to `p_xq` under the same conditions. */
  lemma CleanTextSub(p: string, x: string, q: string)
    requires NoMarkup(p) && NoMarkup(q) && '<' !in x && '&' !in x && '\n' !in x
    requires p == [] || !IsSpace(p[0])
    requires q != [] ==> !IsSpace(q[|q| - 1])
    requires q == [] && x != [] ==> !IsSpace(x[|x| - 1])
    ensures CleanText(p + "<sub>" + x + "</sub>" + q) == p + "_" + x + q
  {
    var s, t := p + "<sub>" + x + "</sub>" + q, p + "_" + x + q;
    TagGroupEnds(p, x, q, "<sub>", "</sub>", '_');
    assert p + ['_'] + x + q == t;
    SubTags(p, x, q);
    NoOpenAroundMark(p, x, q, '_', "<br>");
    DecodeUntouched(t);
    CleanWithTags(s, t, Rewrites());
  }

  // ---------------------------------------------------------------------
  // Order sensitivity: `&amp;` runs after `&nbsp;`, `&lt;` and `&gt;` but
  // before every other entity
  // ---------------------------------------------------------------------

  /** The pattern starts with `<`, or with `&` not followed by `a`. */
  predicate SkipsEscape(pat: string) {
    |pat| >= 2 && (pat[0] == '<' || (pat[0] == '&' && pat[1] != 'a'))
  }

  /** A pattern that starts with `<`, or with `&` not followed by `a`,
      cannot occur in `&amp;` followed by text without `&` and `<`. */
  lemma NotInEscaped(t: string, pat: string)
    requires '&' !in t && '<' !in t && SkipsEscape(pat)
    ensures !Contains("&amp;" + t, pat)
  {
    var s := "&amp;" + t;
    forall i | 0 <= i <= |s| - |pat| ensures !OccursAt(s, pat, i) {
      assert s[i..i + |pat|][0] == s[i] && s[i..i + |pat|][1] == s[i + 1];
      if i == 0 {
        assert s[0] == '&' && s[1] == 'a';
      } else if i < 5 {
        assert s[i] == "amp;"[i - 1];
      } else {
        assert s[i] == t[i - 5] && t[i - 5] in t;
      }
    }
  }

  /** The rules before `&amp;` leave an escaped entity alone. */
  lemma EarlyRulesSkip(t: string, before: seq<Rewrite>)
    requires '&' !in t && '<' !in t
    requires forall i :: 0 <= i < |before| ==> SkipsEscape(before[i].pattern)
    ensures ApplyRewrites("&amp;" + t, before) == "&amp;" + t
  {
    forall i | 0 <= i < |before| ensures !Contains("&amp;" + t, before[i].pattern) {
      NotInEscaped(t, before[i].pattern);
    }
    ApplyUntouched("&amp;" + t, before);
  }

  /** Up to and including `&amp;`, the chain turns `&amp;` followed by
      text without `&` and `<` into `&` followed by that text. */
  lemma DecodeUpToAmp(rules: seq<Rewrite>, a: nat, t: string)
    requires a < |rules| && rules[a] == Rewrite("&amp;", '&')
    requires forall i :: 0 <= i < a ==> SkipsEscape(rules[i].pattern)
    requires '&' !in t && '<' !in t
    ensures ApplyRewrites("&amp;" + t, rules) == ApplyRewrites("&" + t, rules[a + 1..])
  {
    var before, after := rules[..a], rules[a + 1..];
    assert rules == before + ([rules[a]] + after);
    ApplySplit("&amp;" + t, before, [rules[a]] + after);
    forall i | 0 <= i < |before| ensures before[i] == rules[i] {}
    EarlyRulesSkip(t, before);
    assert ([rules[a]] + after)[0] == rules[a] && ([rules[a]] + after)[1..] == after;
    ReplaceHead("&amp;", t, "&");
  }

  /** `&amp;name;` decodes to the entity `&name;` itself when that entity's
      rule runs before `&amp;`, and on to its character when it runs after. */
  lemma DecodeEscapedWith(rules: seq<Rewrite>, a: nat, j: nat)
    requires a < |rules| && rules[a] == Rewrite("&amp;", '&')
    requires j < |rules| && j != a && IsEntity(rules[j].pattern)
    requires forall i :: 0 <= i < a ==> SkipsEscape(rules[i].pattern)
    requires forall i :: a < i < |rules| && i != j ==> !Contains(rules[j].pattern, rules[i].pattern)
    requires forall i :: j < i < |rules| ==> |rules[i].pattern| > 1
    ensures ApplyRewrites("&amp;" + rules[j].pattern[1..], rules)
            == if j < a then rules[j].pattern else [rules[j].replacement]
  {
    var e := rules[j].pattern;
    EscapedTail(e);
    DecodeUpToAmp(rules, a, e[1..]);
    if j < a {
      LaterRulesSkip(rules, a, j);
    } else {
      LaterRulesDecode(rules, a, j);
    }
  }

  /** The text after the `&` of an entity holds no `&` and no `<`. */
  lemma EscapedTail(e: string)
    requires IsEntity(e)
    ensures '&' !in e[1..] && '<' !in e[1..] && "&" + e[1..] == e
  {
    EntityChars(e);
    assert '&' !in e[1..] by {
      forall c | c in e[1..] ensures c != '&' {}
    }
    assert '<' !in e[1..] by {
      forall c | c in e[1..] ensures c != '<' {}
    }
  }

  /** An entity whose rule ran before `&amp;` is left alone by the rules after it. */
  lemma LaterRulesSkip(rules: seq<Rewrite>, a: nat, j: nat)
    requires j < a < |rules|
    requires forall i :: a < i < |rules| && i != j ==> !Contains(rules[j].pattern, rules[i].pattern)
    ensures ApplyRewrites(rules[j].pattern, rules[a + 1..]) == rules[j].pattern
  {
    var after := rules[a + 1..];
    forall i | 0 <= i < |after| ensures !Contains(rules[j].pattern, after[i].pattern) {
      assert after[i] == rules[a + 1 + i];
    }
    ApplyUntouched(rules[j].pattern, after);
  }

  /** An entity whose rule runs after `&amp;` is decoded by it. */
  lemma LaterRulesDecode(rules: seq<Rewrite>, a: nat, j: nat)
    requires a < j < |rules|
    requires forall i :: a < i < |rules| && i != j ==> !Contains(rules[j].pattern, rules[i].pattern)
    requires forall i :: j < i < |rules| ==> |rules[i].pattern| > 1
    ensures ApplyRewrites(rules[j].pattern, rules[a + 1..]) == [rules[j].replacement]
  {
    var after := rules[a + 1..];
    forall i | 0 <= i < |after| && i != j - a - 1
      ensures !Contains(after[j - a - 1].pattern, after[i].pattern)
    {
      assert after[i] == rules[a + 1 + i];
    }
    forall i | j - a - 1 < i < |after| ensures |after[i].pattern| > 1 {
      assert after[i] == rules[a + 1 + i];
    }
    DecodeAt(after, j - a - 1);
  }

  /** The four rules before `&amp;` do not match inside an escaped entity. */
  lemma EarlyShapes()
    ensures Rewrites()[4] == Rewrite("&amp;", '&')
    ensures forall i :: 0 <= i < 4 ==> SkipsEscape(Rewrites()[i].pattern)
  {
    assert Rule(0).pattern[1] == 'n' && Rule(2).pattern[1] == 'l' && Rule(3).pattern[1] == 'g';
  }

  /** `&amp;` followed by the rest of entity `j`: the chain stops at the
      entity itself when its rule runs before `&amp;` (`&nbsp;`, `&lt;`,
      `&gt;`), and goes on to its character otherwise. */
  lemma DecodeEscaped(j: nat)
    requires j < |Rewrites()| && j != 1 && j != 4
    ensures DecodeEntities("&amp;" + Rewrites()[j].pattern[1..])
            == if j < 4 then Rewrites()[j].pattern else [Rewrites()[j].replacement]
  {
    var rules := Rewrites();
    EntityShapes();
    EarlyShapes();
    forall i | 4 < i < |rules| && i != j ensures !Contains(rules[j].pattern, rules[i].pattern) {
      PatternsDisjoint(i, j);
    }
    DecodeEscapedWith(rules, 4, j);
  }

  /** `&amp;` followed by the rest of an entity has no `<` and no
      whitespace at its ends. */
  lemma EscapedEnds(e: string)
    requires IsEntity(e)
    ensures '<' !in "&amp;" + e[1..] && NoSurroundingSpace("&amp;" + e[1..])
  {
    EntityChars(e);
    var s := "&amp;" + e[1..];
    assert s[|s| - 1] == e[|e| - 1];
  }

  /** What an escaped entity decodes to is single-line and has no
      whitespace at its ends. */
  lemma DecodedEnds(j: nat)
    requires j < |Rewrites()| && j != 1
    ensures var d := if j < 4 then Rewrites()[j].pattern else [Rewrites()[j].replacement];
      '\n' !in d && NoSurroundingSpace(d)
  {
    EntityShapes();
    if j < 4 {
      EntityChars(Rewrites()[j].pattern);
    } else {
      VisibleReplacements();
      assert IsSpace('\n');
    }
  }

  /** `clean_text` turns `&amp;name;` into `&name;` for the entities decoded
      before `&amp;`, and into the entity's character for the others. */
  lemma CleanTextEscaped(j: nat)
    requires j < |Rewrites()| && j != 1 && j != 4
    ensures CleanText("&amp;" + Rewrites()[j].pattern[1..])
            == if j < 4 then Rewrites()[j].pattern else [Rewrites()[j].replacement]
  {
    var e := Rewrites()[j].pattern;
    EntityShapes();
    EscapedEnds(e);
    DecodeEscaped(j);
    DecodedEnds(j);
    CleanWithDecodes("&amp;" + e[1..], Rewrites());
  }

  /** `clean_text` is not idempotent: `&amp;lt;` is cleaned to `&lt;`,
      which is cleaned again to `<`, and likewise for `&amp;gt;`. */
  lemma CleanTextNotIdempotent(j: nat)
    requires j == 2 || j == 3
    ensures CleanText("&amp;" + Rewrites()[j].pattern[1..]) == Rewrites()[j].pattern
    ensures CleanText(CleanText("&amp;" + Rewrites()[j].pattern[1..])) == [Rewrites()[j].replacement]
    ensures CleanText(CleanText("&amp;" + Rewrites()[j].pattern[1..])) != CleanText("&amp;" + Rewrites()[j].pattern[1..])
  {
    CleanTextEscaped(j);
    CleanTextEntity(j);
    EntityShapes();
  }

  // Worked instances: each literal is first matched to its symbolic form
  // in a lemma of its own, which keeps the solver from evaluating the whole
  // chain on the literal.

  lemma EscapedLtText()
    ensures "&amp;" + Rewrites()[2].pattern[1..] == "&amp;lt;" && Rewrites()[2].pattern == "&lt;"
  {}

  /** `&amp;lt;` is cleaned to `&lt;`, not to `<`. */
  lemma CleanTextEscapedLt()
    ensures CleanText("&amp;lt;") == "&lt;"
  {
    CleanTextEscaped(2);
    EscapedLtText();
  }

  lemma EscapedDegText()
    ensures "&amp;" + Rewrites()[8].pattern[1..] == "&amp;deg;" && Rewrites()[8].replacement == '°'
  {}

  /** `&amp;deg;` is cleaned all the way to `°`. */
  lemma CleanTextEscapedDeg()
    ensures CleanText("&amp;deg;") == "°"
  {
    CleanTextEscaped(8);
    EscapedDegText();
  }

  /** An entity inside single-line text without other markup is cleaned to
      its character, and the text around it is kept: the entity property
      stated in context rather than for the entity alone. */
  lemma CleanTextEntityInText(p: string, k: nat, q: string)
    requires 2 <= k < |Rewrites()| && Rewrites()[k].replacement != '&'
    requires NoMarkup(p) && NoMarkup(q)
    requires p == [] || !IsSpace(p[0])
    requires q == [] || !IsSpace(q[|q| - 1])
    ensures CleanText(p + Rewrites()[k].pattern + q) == p + [Rewrites()[k].replacement] + q
  {
    var e, c := Rewrites()[k].pattern, Rewrites()[k].replacement;
    assert IsEntity(e) by { EntityShapes(); }
    assert !IsSpace(c) by { VisibleReplacements(); }
    EntityAroundEnds(p, e, q, c);
    EntityTagsUntouched(p, e, q);
    DecodeInText(p, k, q);
    CleanTextVia(p + e + q, p + [c] + q);
  }

  /** The stages of `clean_text` around the decoding change nothing. */
  lemma CleanTextVia(s: string, t: string)
    requires NoSurroundingSpace(s) && RewriteTags(s) == s && DecodeEntities(s) == t
    requires '\n' !in t && NoSurroundingSpace(t)
    ensures CleanText(s) == t
  {
    StripNoOp(s);
    FinishNoOp(t);
  }

  /** An entity between texts without whitespace at their outer ends, and
      its visible decoded character in its place, leave no whitespace at
      the ends or newline inside. */
  lemma EntityAroundEnds(p: string, e: string, q: string, c: char)
    requires IsEntity(e) && !IsSpace(c) && '\n' !in p && '\n' !in q
    requires p == [] || !IsSpace(p[0])
    requires q == [] || !IsSpace(q[|q| - 1])
    ensures NoSurroundingSpace(p + e + q) && NoSurroundingSpace(p + [c] + q) && '\n' !in p + [c] + q
  {
    var s, t := p + e + q, p + [c] + q;
    assert s[0] == (if p == [] then e[0] else p[0]);
    assert s[|s| - 1] == (if q == [] then e[|e| - 1] else q[|q| - 1]);
    assert t[0] == (if p == [] then c else p[0]);
    assert t[|t| - 1] == (if q == [] then c else q[|q| - 1]);
  }

  /** The tag stage leaves an entity between texts without `<sup>` and
      `<sub>` alone. */
  lemma EntityTagsUntouched(p: string, e: string, q: string)
    requires IsEntity(e) && NoMarkup(p) && NoMarkup(q)
    ensures RewriteTags(p + e + q) == p + e + q
  {
    EntityChars(e);
    NoContainsAround(p, e, q, "<sup>");
    NoContainsAround(p, e, q, "<sub>");
    RewriteTagUntouched(p + e + q, "<sup>", "</sup>", '^');
    RewriteTagUntouched(p + e + q, "<sub>", "</sub>", '_');
  }

  lemma DegreesText()
    ensures "5 " + Rewrites()[8].pattern + "C" == "5 &deg;C"
    ensures "5 " + [Rewrites()[8].replacement] + "C" == "5 °C"
  {}

  /** `5 &deg;C` is cleaned to `5 °C`. */
  lemma CleanTextDegrees()
    ensures CleanText("5 &deg;C") == "5 °C"
  {
    CleanTextEntityInText("5 ", 8, "C");
    DegreesText();
  }

  lemma SupText()
    ensures "a" + "<sup>" + "2" + "</sup>" + [] == "a<sup>2</sup>" && "a" + "^" + "2" + [] == "a^2"
  {}

  /** `a<sup>2</sup>` is cleaned to `a^2`. */
  lemma CleanTextSupExample()
    ensures CleanText("a<sup>2</sup>") == "a^2"
  {
    CleanTextSup("a", "2", []);
    SupText();
  }

  lemma SubText()
    ensures "x" + "<sub>" + "i" + "</sub>" + [] == "x<sub>i</sub>" && "x" + "_" + "i" + [] == "x_i"
  {}

  /** `x<sub>i</sub>` is cleaned to `x_i`. */
  lemma CleanTextSubExample()
    ensures CleanText("x<sub>i</sub>") == "x_i"
  {
    CleanTextSub("x", "i", []);
    SubText();
  }

  lemma WrappedSubText()
    ensures "<p>H" + "<sub>" + "2" + "</sub>" + "O</p>" == "<p>H<sub>2</sub>O</p>"
    ensures "<p>H" + "_" + "2" + "O</p>" == "<p>H_2O</p>"
  {}

  /** The quiz API wraps texts in `<p>`; a subscript inside the wrapper is
      still rewritten: `<p>H<sub>2</sub>O</p>` is cleaned to `<p>H_2O</p>`. */
  lemma CleanTextWrappedSub()
    ensures CleanText("<p>H<sub>2</sub>O</p>") == "<p>H_2O</p>"
  {
    WrappedPieces();
    CleanTextSub("<p>H", "2", "O</p>");
    WrappedSubText();
  }

  lemma WrappedPieces()
    ensures NoMarkup("<p>H") && NoMarkup("O</p>")
  {
    assert "<p>H"[1] == 'p';
    assert "O</p>"[0] == 'O' && "O</p>"[1] == '<' && "O</p>"[2] == '/';
  }

  lemma BlankLinesText()
    ensures "line1" + " " + "\n\n" + "  " + "line2" == "line1 \n\n  line2"
    ensures "line1" + "\n" + "line2" == "line1\nline2"
  {}

  /** The stages before the collapse leave text without `<` or `&` and
      without whitespace at its ends alone. */
  lemma PlainBeforeCollapse(s: string)
    requires '<' !in s && '&' !in s && NoSurroundingSpace(s)
    ensures ApplyRewrites(RewriteTags(Strip(s)), Rewrites()) == s
  {
    StripNoOp(s);
    RewriteTagsNoTag(s);
    DecodeNothing(s);
  }

  /** The last stage on two lines joined by one match of ` *\n+ *`: the
      match becomes one newline and nothing else changes. */
  lemma FinishTwoLines(p: string, s1: string, n: string, s2: string, q: string)
    requires '\n' !in p && p != [] && p[|p| - 1] != ' ' && !IsSpace(p[0])
    requires forall i :: 0 <= i < |s1| ==> s1[i] == ' '
    requires n != [] && forall i :: 0 <= i < |n| ==> n[i] == '\n'
    requires forall i :: 0 <= i < |s2| ==> s2[i] == ' '
    requires '\n' !in q && q != [] && q[0] != ' ' && !IsSpace(q[|q| - 1])
    ensures Finish(p + s1 + n + s2 + q) == p + "\n" + q
  {
    CollapseMatch(p, s1, n, s2, q);
    CollapseNoNewline(q);
    var t := p + "\n" + q;
    assert t[0] == p[0] && t[|t| - 1] == q[|q| - 1];
    StripNoOp(t);
  }

  /** The collapse turns `" \n\n  "` into one newline. */
  lemma BlankLinesCollapsed()
    ensures Finish("line1 \n\n  line2") == "line1\nline2"
  {
    BlankLinesText();
    FinishTwoLines("line1", " ", "\n\n", "  ", "line2");
  }

  /** Blank lines and the spaces around them collapse to one newline:
      `"line1 \n\n  line2"` is cleaned to `"line1\nline2"`. */
  lemma CleanTextBlankLines()
    ensures CleanText("line1 \n\n  line2") == "line1\nline2"
  {
    PlainBeforeCollapse("line1 \n\n  line2");
    BlankLinesCollapsed();
  }
}
