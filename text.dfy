/**
 * String operations the rendering code takes from JavaScript: `indexOf`, a
 * global `replace` with a literal pattern (including the `$`-patterns the
 * replacement text may hold) and `join`.
 */
module Text {

  /** `t` occurs in `s` starting at index `i`. */
  predicate OccursAt(s: string, t: string, i: nat) {
    i + |t| <= |s| && s[i..i + |t|] == t
  }

  /** `s.indexOf(t) >= 0` */
  predicate Contains(s: string, t: string) {
    exists i: nat :: i <= |s| && OccursAt(s, t, i)
  }

  /** First index at or after `i` where `t` occurs in `s`, or -1. */
  function IndexFrom(s: string, t: string, i: nat): (r: int)
    requires i <= |s|
    ensures r == -1 || (i <= r && OccursAt(s, t, r))
    ensures forall j: nat :: i <= j && (r == -1 || j < r) ==> !OccursAt(s, t, j)
    decreases |s| - i
  {
    if i + |t| > |s| then -1
    else if OccursAt(s, t, i) then i
    else if i == |s| then -1
    else IndexFrom(s, t, i + 1)
  }

  /** `s.indexOf(t)`: the first occurrence of `t` in `s`, or -1 when there is none. */
  function IndexOf(s: string, t: string): (r: int)
    ensures r == -1 <==> !Contains(s, t)
    ensures r != -1 ==> 0 <= r && OccursAt(s, t, r)
    ensures forall j: nat :: (r == -1 || j < r) ==> !OccursAt(s, t, j)
  {
    IndexFrom(s, t, 0)
  }

  /**
   * The text that a JavaScript replacement string `rep` stands for when it
   * replaces `matched`, found between `before` and `after`: `$$` is one `$`,
   * `$&` the match, `` $` `` the text before it, `$'` the text after it; any
   * other `$` is kept (the patterns have no capture groups).
   */
  function ExpandReplacement(rep: string, matched: string, before: string, after: string): (r: string)
    ensures '$' !in rep ==> r == rep
    decreases |rep|
  {
    if rep == [] then []
    else if rep[0] != '$' || |rep| == 1 then [rep[0]] + ExpandReplacement(rep[1..], matched, before, after)
    else if rep[1] == '$' then "$" + ExpandReplacement(rep[2..], matched, before, after)
    else if rep[1] == '&' then matched + ExpandReplacement(rep[2..], matched, before, after)
    else if rep[1] == '`' then before + ExpandReplacement(rep[2..], matched, before, after)
    else if rep[1] == '\'' then after + ExpandReplacement(rep[2..], matched, before, after)
    else "$" + ExpandReplacement(rep[1..], matched, before, after)
  }

  /**
   * `s.replace(/pat/g, rep)` from index `i` on, for a pattern that matches
   * only its own literal text: the leftmost occurrences, without overlap,
   * each replaced by the expansion of `rep`.
   */
  function ReplaceFrom(s: string, pat: string, rep: string, i: nat): string
    requires |pat| > 0 && i <= |s|
    decreases |s| - i
  {
    if i + |pat| > |s| then s[i..]
    else if OccursAt(s, pat, i) then
      ExpandReplacement(rep, pat, s[..i], s[i + |pat|..]) + ReplaceFrom(s, pat, rep, i + |pat|)
    else [s[i]] + ReplaceFrom(s, pat, rep, i + 1)
  }

  /**
   * `s.replace(/pat/g, rep)` with JavaScript's treatment of `$` in `rep`: an
   * absent pattern is not replaced, and a `rep` without `$` is inserted as it is.
   */
  function ReplaceAll(s: string, pat: string, rep: string): (r: string)
    requires |pat| > 0
    ensures !Contains(s, pat) ==> r == s
    ensures '$' !in rep ==> r == ReplaceLiteral(s, pat, rep, 0)
  {
    ReplaceFromPlain(s, pat, rep, 0);
    if Contains(s, pat) then ReplaceFrom(s, pat, rep, 0)
    else
      ReplaceFromAbsent(s, pat, rep, 0);
      ReplaceFrom(s, pat, rep, 0)
  }

  /**
   * Replaces every leftmost, non-overlapping occurrence of `pat` by `rep`,
   * taken literally; replacing the pattern by itself changes nothing.
   */
  function ReplaceLiteral(s: string, pat: string, rep: string, i: nat): (r: string)
    requires |pat| > 0 && i <= |s|
    ensures rep == pat ==> r == s[i..]
    decreases |s| - i
  {
    if i + |pat| > |s| then s[i..]
    else if OccursAt(s, pat, i) then
      assert rep == pat ==> s[i..] == rep + s[i + |pat|..];
      rep + ReplaceLiteral(s, pat, rep, i + |pat|)
    else
      assert s[i..] == [s[i]] + s[i + 1..];
      [s[i]] + ReplaceLiteral(s, pat, rep, i + 1)
  }

  /** `s.replace(/pat/g, '')` */
  function RemoveAll(s: string, pat: string): (r: string)
    requires |pat| > 0
    ensures !Contains(s, pat) ==> r == s
    ensures r == ReplaceLiteral(s, pat, "", 0)
  {
    ReplaceAll(s, pat, "")
  }

  /** `parts.join(sep)`: every character comes from a part or from the separator. */
  function Join(parts: seq<string>, sep: string): (r: string)
    ensures forall c :: c in r ==> c in sep || exists i :: 0 <= i < |parts| && c in parts[i]
  {
    if |parts| == 0 then ""
    else if |parts| == 1 then parts[0]
    else
      assert forall i :: 0 <= i < |parts| - 1 ==> parts[1..][i] == parts[i + 1];
      parts[0] + sep + Join(parts[1..], sep)
  }

  /** With no occurrence of `pat` from `i` on, the replacement leaves the rest of `s` unchanged. */
  lemma {:induction false} ReplaceFromAbsent(s: string, pat: string, rep: string, i: nat)
    requires |pat| > 0 && i <= |s|
    requires forall j: nat :: i <= j ==> !OccursAt(s, pat, j)
    ensures ReplaceFrom(s, pat, rep, i) == s[i..]
    decreases |s| - i
  {
    if i + |pat| <= |s| {
      ReplaceFromAbsent(s, pat, rep, i + 1);
    }
  }

  /** Replacement text without `$` is inserted literally. */
  lemma {:induction false} ReplaceFromPlain(s: string, pat: string, rep: string, i: nat)
    requires |pat| > 0 && i <= |s|
    ensures '$' !in rep ==> ReplaceFrom(s, pat, rep, i) == ReplaceLiteral(s, pat, rep, i)
    decreases |s| - i
  {
    if '$' in rep {
    } else if i + |pat| > |s| {
      assert ReplaceFrom(s, pat, rep, i) == s[i..];
    } else if OccursAt(s, pat, i) {
      ReplaceFromPlain(s, pat, rep, i + |pat|);
      PlainHit(s, pat, rep, i);
    } else {
      ReplaceFromPlain(s, pat, rep, i + 1);
      PlainMiss(s, pat, rep, i);
    }
  }

  lemma PlainHit(s: string, pat: string, rep: string, i: nat)
    requires |pat| > 0 && '$' !in rep && OccursAt(s, pat, i)
    requires ReplaceFrom(s, pat, rep, i + |pat|) == ReplaceLiteral(s, pat, rep, i + |pat|)
    ensures ReplaceFrom(s, pat, rep, i) == ReplaceLiteral(s, pat, rep, i)
  {
    assert ExpandReplacement(rep, pat, s[..i], s[i + |pat|..]) == rep;
  }

  lemma PlainMiss(s: string, pat: string, rep: string, i: nat)
    requires |pat| > 0 && i + |pat| <= |s| && !OccursAt(s, pat, i)
    requires ReplaceFrom(s, pat, rep, i + 1) == ReplaceLiteral(s, pat, rep, i + 1)
    ensures ReplaceFrom(s, pat, rep, i) == ReplaceLiteral(s, pat, rep, i)
  {
  }

  /** With no occurrence of `pat` from `i` on, the literal replacement leaves the rest of `s` unchanged. */
  lemma {:induction false} ReplaceLiteralAbsent(s: string, pat: string, rep: string, i: nat)
    requires |pat| > 0 && i <= |s|
    requires forall j: nat :: i <= j ==> !OccursAt(s, pat, j)
    ensures ReplaceLiteral(s, pat, rep, i) == s[i..]
    decreases |s| - i
  {
    if i + |pat| <= |s| {
      ReplaceLiteralAbsent(s, pat, rep, i + 1);
    }
  }

  lemma AppendAssoc(a: string, b: string, c: string)
    ensures (a + b) + c == a + (b + c)
  {
  }

  /**
   * The replace is global: in parts joined by the pattern, none of them
   * holding the pattern's first character, every joint is replaced.
   */
  lemma ReplaceJoin(parts: seq<string>, pat: string, rep: string)
    requires |pat| > 0 && parts != []
    requires forall i :: 0 <= i < |parts| ==> pat[0] !in parts[i]
    ensures ReplaceLiteral(Join(parts, pat), pat, rep, 0) == Join(parts, rep)
  {
    var s := Join(parts, pat);
    assert s[0..] == s;
    LiteralIn(s, pat, rep, 0);
    InJoin(parts, pat, rep);
  }

  /** The literal global replace on a whole text, consuming it from the front. */
  function ReplaceIn(t: string, pat: string, rep: string): (r: string)
    requires |pat| > 0
    decreases |t|
  {
    if |t| < |pat| then t
    else if t[..|pat|] == pat then rep + ReplaceIn(t[|pat|..], pat, rep)
    else [t[0]] + ReplaceIn(t[1..], pat, rep)
  }

  /** Replacing from index `i` is replacing in the suffix from `i`. */
  lemma {:induction false} LiteralIn(s: string, pat: string, rep: string, i: nat)
    requires |pat| > 0 && i <= |s|
    ensures ReplaceLiteral(s, pat, rep, i) == ReplaceIn(s[i..], pat, rep)
    decreases |s| - i
  {
    if i + |pat| > |s| {
    } else if OccursAt(s, pat, i) {
      LiteralIn(s, pat, rep, i + |pat|);
      LiteralInHit(s, pat, rep, i);
    } else {
      LiteralIn(s, pat, rep, i + 1);
      LiteralInMiss(s, pat, rep, i);
    }
  }

  lemma LiteralInHit(s: string, pat: string, rep: string, i: nat)
    requires |pat| > 0 && OccursAt(s, pat, i)
    requires ReplaceLiteral(s, pat, rep, i + |pat|) == ReplaceIn(s[i + |pat|..], pat, rep)
    ensures ReplaceLiteral(s, pat, rep, i) == ReplaceIn(s[i..], pat, rep)
  {
    var t := s[i..];
    assert t[..|pat|] == pat;
    assert t[|pat|..] == s[i + |pat|..];
  }

  lemma LiteralInMiss(s: string, pat: string, rep: string, i: nat)
    requires |pat| > 0 && i + |pat| <= |s| && !OccursAt(s, pat, i)
    requires ReplaceLiteral(s, pat, rep, i + 1) == ReplaceIn(s[i + 1..], pat, rep)
    ensures ReplaceLiteral(s, pat, rep, i) == ReplaceIn(s[i..], pat, rep)
  {
    var t := s[i..];
    assert t[..|pat|] == s[i..i + |pat|];
    assert t[1..] == s[i + 1..];
  }

  lemma {:induction false} InFree(t: string, pat: string, rep: string)
    requires |pat| > 0 && pat[0] !in t
    ensures ReplaceIn(t, pat, rep) == t
    decreases |t|
  {
    if |t| >= |pat| {
      assert t[..|pat|][0] == t[0];
      assert t[1..] == t[1..] && forall c :: c in t[1..] ==> c in t;
      InFree(t[1..], pat, rep);
      assert [t[0]] + t[1..] == t;
    }
  }

  lemma {:induction false} InSkip(a: string, b: string, pat: string, rep: string)
    requires |pat| > 0 && pat[0] !in a
    ensures ReplaceIn(a + pat + b, pat, rep) == a + (rep + ReplaceIn(b, pat, rep))
    decreases |a|
  {
    var t := a + pat + b;
    if a == [] {
      assert t == pat + b;
      assert t[..|pat|] == pat;
      assert t[|pat|..] == b;
    } else {
      assert t[..|pat|][0] == a[0];
      assert t[1..] == a[1..] + pat + b;
      InSkip(a[1..], b, pat, rep);
      AppendAssoc([a[0]], a[1..], rep + ReplaceIn(b, pat, rep));
      assert [a[0]] + a[1..] == a;
    }
  }

  lemma {:induction false} InJoin(parts: seq<string>, pat: string, rep: string)
    requires |pat| > 0 && parts != []
    requires forall m :: 0 <= m < |parts| ==> pat[0] !in parts[m]
    ensures ReplaceIn(Join(parts, pat), pat, rep) == Join(parts, rep)
    decreases |parts|
  {
    assert pat[0] !in parts[0];
    if |parts| == 1 {
      InFree(parts[0], pat, rep);
    } else {
      var rest := parts[1..];
      forall m | 0 <= m < |rest|
        ensures pat[0] !in rest[m]
      {
        assert rest[m] == parts[m + 1];
      }
      InSkip(parts[0], Join(rest, pat), pat, rep);
      InJoin(rest, pat, rep);
      AppendAssoc(parts[0], rep, Join(rest, rep));
    }
  }

  /** An occurrence stays one when text is appended. */
  lemma ContainsExtend(s: string, t: string, p: string)
    ensures Contains(s, p) ==> Contains(s + t, p)
  {
    if Contains(s, p) {
      var i: nat :| i <= |s| && OccursAt(s, p, i);
      assert (s + t)[i..i + |p|] == s[i..i + |p|];
      assert OccursAt(s + t, p, i);
    }
  }

  /** A character in neither the parts nor the separator is not in their join. */
  lemma JoinFree(parts: seq<string>, sep: string, c: char)
    requires c !in sep && forall i :: 0 <= i < |parts| ==> c !in parts[i]
    ensures c !in Join(parts, sep)
  {
  }

  /** A text that lacks some character of the pattern cannot contain it. */
  lemma MissingCharNotContained(s: string, pat: string, c: char)
    requires c in pat && c !in s
    ensures !Contains(s, pat)
  {
  }

  /** The first occurrence is the one with none before it. */
  lemma IndexOfIs(s: string, t: string, k: nat)
    requires OccursAt(s, t, k)
    requires forall j: nat :: j < k ==> !OccursAt(s, t, j)
    ensures IndexOf(s, t) == k
  {
  }

  /** Each character of an occurrence is the pattern's. */
  lemma OccursAtChar(s: string, t: string, i: nat, k: nat)
    requires OccursAt(s, t, i) && k < |t|
    ensures s[i + k] == t[k]
  {
  }

  /** A mismatching character rules an occurrence out. */
  lemma NotOccursAt(s: string, t: string, i: nat, k: nat)
    requires k < |t| && (i + |t| > |s| || s[i + k] != t[k])
    ensures !OccursAt(s, t, i)
  {
    if OccursAt(s, t, i) {
      OccursAtChar(s, t, i, k);
    }
  }
}
