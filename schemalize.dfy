/**
 * `createSchemalize`: builds an identifier renderer from two flags, by
 * reducing the list `[decamelize or identity, quote or identity]` into one
 * composed function, and applies it to plain and schema-qualified names.
 */
module Schemalize {
  import opened Wrappers

  /** A name: a plain identifier, or a name with an optional schema. */
  datatype Name = Plain(id: string) | Qualified(schema: Option<string>, name: string)

  /** The functions the renderer is built from; `decamelize` comes from a library and is a parameter here. */
  datatype Stage = Identity | Decamelize | Quote

  /** The name between double quotes. */
  function Quoted(s: string): (r: string)
    ensures |r| == |s| + 2 && r[0] == '"' && r[|r| - 1] == '"' && r[1..|r| - 1] == s
  {
    "\"" + s + "\""
  }

  function RunStage(st: Stage, decamelize: string -> string, x: string): string {
    match st
    case Identity => x
    case Decamelize => decamelize(x)
    case Quote => Quoted(x)
  }

  /**
   * A composed function, as the stages it applies from the last to the
   * first: `Apply(fs + [f], x) == Apply(fs, f(x))`.
   */
  function Apply(fs: seq<Stage>, decamelize: string -> string, x: string): (r: string)
    ensures fs == [] ==> r == x
    ensures fs != [] ==> r == RunStage(fs[0], decamelize, Apply(fs[1..], decamelize, x))
    decreases |fs|
  {
    if fs == [] then x
    else
      var n := |fs|;
      var init := fs[..n - 1];
      assert n >= 2 ==> init[0] == fs[0] && init[1..] == fs[1..][..n - 2] && fs[1..][n - 2] == fs[n - 1];
      Apply(init, decamelize, RunStage(fs[n - 1], decamelize, x))
  }

  /** The reduce without an initial value: each stage other than identity is wrapped as `x => acc(fn(x))`. */
  function ReduceFrom(acc: seq<Stage>, rest: seq<Stage>): (r: seq<Stage>)
    ensures acc <= r && |r| <= |acc| + |rest|
    ensures forall i :: |acc| <= i < |r| ==> r[i] != Identity && r[i] in rest
    ensures (forall i :: 0 <= i < |rest| ==> rest[i] == Identity) ==> r == acc
    decreases |rest|
  {
    if rest == [] then acc
    else ReduceFrom(if rest[0] == Identity then acc else acc + [rest[0]], rest[1..])
  }

  /**
   * The transform `createSchemalize` builds from its two flags: the first
   * stage always stays (identity included), the second only when it quotes.
   */
  function Transform(shouldDecamelize: bool, shouldQuote: bool): (r: seq<Stage>)
    ensures |r| == (if shouldQuote then 2 else 1)
    ensures r[0] == (if shouldDecamelize then Decamelize else Identity)
    ensures shouldQuote ==> r[1] == Quote
  {
    var stages := [if shouldDecamelize then Decamelize else Identity, if shouldQuote then Quote else Identity];
    var acc := if stages[1] == Identity then [stages[0]] else [stages[0]] + [stages[1]];
    assert stages[1..] == [stages[1]];
    assert ReduceFrom([stages[0]], [stages[1]]) == ReduceFrom(acc, []) == acc;
    ReduceFrom([stages[0]], stages[1..])
  }

  /** JavaScript truthiness of an optional schema: present and non-empty. */
  predicate HasSchema(schema: Option<string>) {
    schema.Some? && schema.value != ""
  }

  /** What the two flags ask for, stated directly: quote, then decamelize the result. */
  function Composed(shouldDecamelize: bool, shouldQuote: bool, decamelize: string -> string, x: string): string {
    var quoted := if shouldQuote then Quoted(x) else x;
    if shouldDecamelize then decamelize(quoted) else quoted
  }

  /**
   * The renderer `createSchemalize(shouldDecamelize, shouldQuote)` returns,
   * applied to `v`: each part transformed, a non-empty schema put in front
   * with a dot.
   */
  function Schemalize(shouldDecamelize: bool, shouldQuote: bool, decamelize: string -> string, v: Name): (r: string)
    ensures v.Plain? ==> r == Composed(shouldDecamelize, shouldQuote, decamelize, v.id)
    ensures v.Qualified? && HasSchema(v.schema) ==>
      r == Composed(shouldDecamelize, shouldQuote, decamelize, v.schema.value) + "." + Composed(shouldDecamelize, shouldQuote, decamelize, v.name)
    ensures v.Qualified? && !HasSchema(v.schema) ==> r == Composed(shouldDecamelize, shouldQuote, decamelize, v.name)
  {
    var t := Transform(shouldDecamelize, shouldQuote);
    match v
    case Plain(id) =>
      TransformCases(shouldDecamelize, shouldQuote, decamelize, id);
      Apply(t, decamelize, id)
    case Qualified(schema, name) =>
      TransformCases(shouldDecamelize, shouldQuote, decamelize, name);
      if HasSchema(schema) then
        TransformCases(shouldDecamelize, shouldQuote, decamelize, schema.value);
        Apply(t, decamelize, schema.value) + "." + Apply(t, decamelize, name)
      else Apply(t, decamelize, name)
  }

  /** One application of the composed transform, by flags. */
  function TransformOne(shouldDecamelize: bool, shouldQuote: bool, decamelize: string -> string, x: string): string {
    Apply(Transform(shouldDecamelize, shouldQuote), decamelize, x)
  }

  /**
   * What the composed transform does: nothing with both flags off, quoting
   * alone or decamelizing alone with one flag on, and with both on it quotes
   * first and decamelizes the quoted text.
   */
  lemma TransformCases(shouldDecamelize: bool, shouldQuote: bool, decamelize: string -> string, x: string)
    ensures var r := TransformOne(shouldDecamelize, shouldQuote, decamelize, x);
      && (!shouldDecamelize && !shouldQuote ==> r == x)
      && (!shouldDecamelize && shouldQuote ==> r == "\"" + x + "\"")
      && (shouldDecamelize && !shouldQuote ==> r == decamelize(x))
      && (shouldDecamelize && shouldQuote ==> r == decamelize("\"" + x + "\""))
  {
    var first := if shouldDecamelize then Decamelize else Identity;
    var second := if shouldQuote then Quote else Identity;
    assert [first, second][1..] == [second];
    var acc := if second == Identity then [first] else [first] + [second];
    assert ReduceFrom([first], [second]) == ReduceFrom(acc, []) == acc;
    assert forall y :: Apply([first], decamelize, y) == RunStage(first, decamelize, y) by {
      assert [first][..0] == [];
    }
    if shouldQuote {
      assert acc[..|acc| - 1] == [first];
      assert Apply(acc, decamelize, x) == Apply([first], decamelize, Quoted(x));
    }
  }

  /** A qualified name renders as `t(schema).t(name)` when the schema is non-empty, and as `t(name)` otherwise. */
  lemma QualifiedName(shouldDecamelize: bool, shouldQuote: bool, decamelize: string -> string, schema: Option<string>, name: string)
    ensures var r := Schemalize(shouldDecamelize, shouldQuote, decamelize, Qualified(schema, name));
      var t := (x: string) => TransformOne(shouldDecamelize, shouldQuote, decamelize, x);
      && (HasSchema(schema) ==> r == t(schema.value) + "." + t(name))
      && (!HasSchema(schema) ==> r == Schemalize(shouldDecamelize, shouldQuote, decamelize, Plain(name)))
  {
  }
}
