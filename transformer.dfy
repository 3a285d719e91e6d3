/**
 * `createTransformer`: fills `{key}` placeholders of a template, key by key
 * in the substitution map's insertion order (a left fold), rendering names
 * through the caller's `literal` renderer and other values through
 * `escapeValue`.
 */
module Transformer {
  import opened Wrappers
  import opened Text
  import opened Escape
  import opened Schemalize

  /** A substitution value: `undefined`, a name-shaped value, or any other value. */
  datatype Arg = Undefined | Ident(n: Name) | Val(v: Value)

  /** The substitution map, as its entries in insertion order. */
  type Substitutions = seq<(string, Arg)>

  /** A key whose `{key}` pattern is its own literal text: word characters, not all digits (`{12}` would be a quantifier). */
  predicate PlainKey(key: string) {
    (forall i :: 0 <= i < |key| ==> 'a' <= key[i] <= 'z' || 'A' <= key[i] <= 'Z' || '0' <= key[i] <= '9' || key[i] == '_')
    && exists i :: 0 <= i < |key| && !('0' <= key[i] <= '9')
  }

  function Placeholder(key: string): (p: string)
    ensures |p| >= 2 && p[0] == '{'
  {
    "{" + key + "}"
  }

  /**
   * The text a substitution value stands for: nothing for `undefined`, a name
   * (a string included) rendered by `literal`, and `String(escapeValue(v))`
   * for any other value, so a number reads back as itself and a literal is
   * its own text.
   */
  function Replacement(literal: Name -> string, a: Arg): (r: string)
    ensures a.Undefined? ==> r == ""
    ensures a.Ident? ==> r == literal(a.n)
    ensures a.Val? && a.v.Str? ==> r == literal(Plain(a.v.s))
    ensures a.Val? && a.v.Num? ==> IntText(r) && ReadInt(r) == a.v.n
    ensures a.Val? && a.v.Literal? ==> r == a.v.text
    ensures a.Val? && !a.v.Str? ==> r == ToText(EscapeValue(a.v))
    ensures a.Val? && a.v.Null? ==> r == "NULL"
    ensures a.Val? && a.v.Bool? ==> r == if a.v.b then "true" else "false"
    ensures a.Val? && a.v.Other? ==> r == ""
    ensures a.Val? && a.v.Arr? ==> |r| >= 7 && r[..6] == "ARRAY[" && r[|r| - 1] == ']'
  {
    match a
    case Undefined => ""
    case Ident(n) => literal(n)
    case Val(v) => if v.Str? then literal(Plain(v.s)) else ToText(EscapeValue(v))
  }

  /**
   * One step of the reduce as written: `str.replace(new RegExp(`{key}`, 'g'), text)`.
   * An absent placeholder leaves the text as it is; a text without `$` is
   * inserted as it is.
   */
  function StepAsWritten(literal: Name -> string, s: string, e: (string, Arg)): (r: string)
    ensures !Contains(s, Placeholder(e.0)) ==> r == s
    ensures '$' !in Replacement(literal, e.1) ==> r == Step(literal, s, e)
  {
    ReplaceAll(s, Placeholder(e.0), Replacement(literal, e.1))
  }

  /** The reduce as written; a text holding none of the placeholders comes back unchanged. */
  function FoldAsWritten(literal: Name -> string, s: string, entries: Substitutions): (r: string)
    requires forall i :: 0 <= i < |entries| ==> PlainKey(entries[i].0)
    ensures (forall i :: 0 <= i < |entries| ==> !Contains(s, Placeholder(entries[i].0))) ==> r == s
    decreases |entries|
  {
    if entries == [] then s
    else FoldAsWritten(literal, StepAsWritten(literal, s, entries[0]), entries[1..])
  }

  /**
   * The transformer as written: with no map the template is returned;
   * replacement text goes through `$`-pattern expansion, so it agrees with
   * `Substitute` whenever no replacement text holds a `$`.
   */
  function SubstituteAsWritten(literal: Name -> string, s: string, d: Option<Substitutions>): (r: string)
    requires d.Some? ==> forall i :: 0 <= i < |d.value| ==> PlainKey(d.value[i].0)
    ensures d.None? ==> r == s
    ensures d.Some? && (forall i :: 0 <= i < |d.value| ==> '$' !in Replacement(literal, d.value[i].1))
      ==> r == Substitute(literal, s, d)
  {
    match d
    case None => s
    case Some(entries) =>
      if forall i :: 0 <= i < |entries| ==> '$' !in Replacement(literal, entries[i].1) then
        AsWrittenAgreesWithoutDollar(literal, s, entries);
        FoldAsWritten(literal, s, entries)
      else FoldAsWritten(literal, s, entries)
  }

  /** One step with the replacement text inserted as it is; a key whose placeholder is absent changes nothing. */
  function Step(literal: Name -> string, s: string, e: (string, Arg)): (r: string)
    ensures !Contains(s, Placeholder(e.0)) ==> r == s
  {
    if Contains(s, Placeholder(e.0)) then ReplaceLiteral(s, Placeholder(e.0), Replacement(literal, e.1), 0)
    else
      ReplaceLiteralAbsent(s, Placeholder(e.0), Replacement(literal, e.1), 0);
      ReplaceLiteral(s, Placeholder(e.0), Replacement(literal, e.1), 0)
  }

  /** Substitutes the entries in order; a text holding none of their placeholders comes back unchanged. */
  function Fold(literal: Name -> string, s: string, entries: Substitutions): (r: string)
    ensures (forall i :: 0 <= i < |entries| ==> !Contains(s, Placeholder(entries[i].0))) ==> r == s
    decreases |entries|
  {
    if entries == [] then s
    else Fold(literal, Step(literal, s, entries[0]), entries[1..])
  }

  /**
   * The transformer with each replacement inserted literally: with no map, or
   * a template holding none of the map's placeholders, the template comes back
   * unchanged.
   */
  function Substitute(literal: Name -> string, s: string, d: Option<Substitutions>): (r: string)
    ensures d.None? ==> r == s
    ensures d.Some? && (forall i :: 0 <= i < |d.value| ==> !Contains(s, Placeholder(d.value[i].0))) ==> r == s
  {
    match d
    case None => s
    case Some(entries) => Fold(literal, s, entries)
  }

  /** The fold is a left fold: the last key is substituted last, into the result of all earlier keys. */
  lemma {:induction false} FoldSnoc(literal: Name -> string, s: string, entries: Substitutions, e: (string, Arg))
    ensures Fold(literal, s, entries + [e]) == Step(literal, Fold(literal, s, entries), e)
    decreases |entries|
  {
    if entries != [] {
      assert (entries + [e])[1..] == entries[1..] + [e];
      FoldSnoc(literal, Step(literal, s, entries[0]), entries[1..], e);
    }
  }

  /** One entry is one global literal replace of its placeholder. */
  lemma FoldOne(literal: Name -> string, s: string, e: (string, Arg))
    ensures Fold(literal, s, [e]) == ReplaceLiteral(s, Placeholder(e.0), Replacement(literal, e.1), 0)
  {
    assert [e][1..] == [];
  }

  /** With no map, and with an empty one, the template is returned unchanged. */
  lemma NoSubstitutions(literal: Name -> string, s: string)
    ensures Substitute(literal, s, None) == s
    ensures Substitute(literal, s, Some([])) == s
  {
  }

  /** A template with one placeholder and no other `{` gets exactly the replacement text in its place. */
  lemma FillSingle(literal: Name -> string, a: string, b: string, key: string, v: Arg)
    requires '{' !in a && '{' !in b
    ensures Substitute(literal, a + Placeholder(key) + b, Some([(key, v)])) == a + Replacement(literal, v) + b
  {
    FillEvery(literal, [a, b], key, v);
    assert [a, b][1..] == [b];
  }

  /**
   * The pattern carries the `g` flag: a key whose placeholder occurs several
   * times, in a template with no other `{`, has every occurrence replaced.
   */
  lemma FillEvery(literal: Name -> string, parts: seq<string>, key: string, v: Arg)
    requires parts != [] && forall i :: 0 <= i < |parts| ==> '{' !in parts[i]
    ensures Substitute(literal, Join(parts, Placeholder(key)), Some([(key, v)])) == Join(parts, Replacement(literal, v))
  {
    ReplaceJoin(parts, Placeholder(key), Replacement(literal, v));
    FoldOne(literal, Join(parts, Placeholder(key)), (key, v));
  }

  /**
   * Two keys are filled left to right, each in its own placeholder, when the
   * first key's text brings no `{` of its own: `'{a} {b}'` becomes the two
   * texts with a space between them.
   */
  lemma TwoPlaceholders(literal: Name -> string, va: Arg, vb: Arg)
    requires '{' !in Replacement(literal, va)
    ensures Substitute(literal, "{a} {b}", Some([("a", va), ("b", vb)]))
      == Replacement(literal, va) + " " + Replacement(literal, vb)
  {
    var ra := Replacement(literal, va);
    FoldSnoc(literal, "{a} {b}", [("a", va)], ("b", vb));
    assert [("a", va)] + [("b", vb)] == [("a", va), ("b", vb)];
    FirstOfTwo(literal, va);
    assert (ra + " ") + Placeholder("b") + "" == ra + " {b}";
    FillSingle(literal, ra + " ", "", "b", vb);
    assert [("b", vb)][1..] == [];
  }

  /** The first step of `TwoPlaceholders`: `{a}` is replaced and `{b}` kept. */
  lemma FirstOfTwo(literal: Name -> string, va: Arg)
    ensures Fold(literal, "{a} {b}", [("a", va)]) == Replacement(literal, va) + " {b}"
  {
    FoldOne(literal, "{a} {b}", ("a", va));
    assert Placeholder("a") == "{a}";
    OnlyFirst(Replacement(literal, va));
  }

  /** In `'{a} {b}'` only the leading `{a}` is an occurrence of `{a}`. */
  lemma OnlyFirst(ra: string)
    ensures ReplaceLiteral("{a} {b}", "{a}", ra, 0) == ra + " {b}"
  {
    var s := "{a} {b}";
    LiteralIn(s, "{a}", ra, 0);
    assert s[0..] == "" + "{a}" + " {b}";
    InSkip("", " {b}", "{a}", ra);
    SecondKept(ra);
  }

  /** Nothing in `' {b}'` is an occurrence of `{a}`. */
  lemma SecondKept(ra: string)
    ensures ReplaceIn(" {b}", "{a}", ra) == " {b}"
  {
    assert " {b}"[..3][0] != "{a}"[0];
    assert "{b}"[..3][1] != "{a}"[1];
    assert " {b}"[1..] == "{b}" && "{b}"[1..] == "b}";
  }

  /** `'hi {x}'` with `x` the string `'world'` renders the name `world` through `literal`. */
  lemma HiWorld(literal: Name -> string)
    ensures Substitute(literal, "hi {x}", Some([("x", Val(Str("world")))])) == "hi " + literal(Plain("world"))
  {
    var e := ("x", Val(Str("world")));
    assert "hi {x}" == "hi " + Placeholder("x") + "";
    FillSingle(literal, "hi ", "", "x", Val(Str("world")));
    assert Replacement(literal, e.1) == literal(Plain("world"));
    var t := "hi " + Placeholder("x") + "";
    assert Substitute(literal, t, Some([e])) == "hi " + literal(Plain("world")) + "";
    assert t == "hi {x}";
    assert "hi " + literal(Plain("world")) + "" == "hi " + literal(Plain("world"));
  }

  /** Without `$` in any replacement text, the as-written substitution inserts it literally. */
  lemma {:induction false} AsWrittenAgreesWithoutDollar(literal: Name -> string, s: string, entries: Substitutions)
    requires forall i :: 0 <= i < |entries| ==> PlainKey(entries[i].0)
    requires forall i :: 0 <= i < |entries| ==> '$' !in Replacement(literal, entries[i].1)
    ensures FoldAsWritten(literal, s, entries) == Fold(literal, s, entries)
    decreases |entries|
  {
    if entries != [] {
      AsWrittenAgreesWithoutDollar(literal, Step(literal, s, entries[0]), entries[1..]);
    }
  }

  /** As written, a literal `$$` substituted for `{v}` comes out as a single `$`. */
  lemma DollarPairCollapses(literal: Name -> string)
    ensures PlainKey("v") && SubstituteAsWritten(literal, "{v}", Some([("v", Val(Literal("$$")))])) == "$"
    ensures Substitute(literal, "{v}", Some([("v", Val(Literal("$$")))])) == "$$"
  {
    var t := "{v}";
    assert PlainKey("v") by {
      assert !('0' <= "v"[0] <= '9');
    }
    assert t == "" + Placeholder("v") + "";
    FillSingle(literal, "", "", "v", Val(Literal("$$")));
    assert OccursAt(t, "{v}", 0);
    assert ExpandReplacement("$$", "{v}", "", "") == "$";
    assert ReplaceFrom(t, "{v}", "$$", 0) == "$" + ReplaceFrom(t, "{v}", "$$", 3);
  }
}
