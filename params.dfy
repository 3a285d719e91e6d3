/**
 * `formatParam` and `formatParams`: render function parameters as SQL
 * (`mode name type DEFAULT value`), each part only when present, after
 * resolving the parameter's type through the shorthand table.
 */
module Params {
  import opened Wrappers
  import opened Text
  import opened Escape
  import opened Schemalize
  import opened TypeShorthands

  /** What `formatParam` reads from the migration options: the shorthand table and the name renderer. */
  datatype MigrationOptions = MigrationOptions(typeShorthands: Shorthands, literal: Name -> string)

  /** JavaScript truthiness of a value: `null`, `false`, `0` and `''` are the falsy ones; an empty array is truthy. */
  predicate Truthy(v: Value)
    ensures !Truthy(v) <==> v in {Null, Bool(false), Num(0), Str("")}
    ensures v.Arr? ==> Truthy(v)
  {
    match v
    case Null => false
    case Bool(b) => b
    case Num(n) => n != 0
    case Str(s) => s != ""
    case _ => true
  }

  /** A string field of a descriptor, when present and non-empty. */
  function StringField(d: Descriptor, key: string): Option<string> {
    if key in d.attrs && d.attrs[key].Str? && d.attrs[key].s != "" then Some(d.attrs[key].s) else None
  }

  function Optional(w: Option<string>): seq<string> {
    if w.Some? then [w.value] else []
  }

  /** `DEFAULT <escaped value>`, when the default is truthy. */
  function DefaultClause(d: Descriptor): (r: Option<string>)
    ensures r.Some? <==> "default" in d.attrs && Truthy(d.attrs["default"])
    ensures r.Some? ==> |r.value| >= 8 && r.value[..8] == "DEFAULT "
    ensures r.Some? && d.attrs["default"].Num? ==> IntText(r.value[8..]) && ReadInt(r.value[8..]) == d.attrs["default"].n
    ensures r.Some? && d.attrs["default"].Str? ==> ReadDollarQuoted(r.value[8..]) == Some((d.attrs["default"].s, ""))
  {
    if "default" in d.attrs && Truthy(d.attrs["default"]) then Some("DEFAULT " + ToText(EscapeValue(d.attrs["default"])))
    else None
  }

  /** The words `formatParam` collects for a resolved parameter: mode, rendered name, type, default clause. */
  function ParamWords(literal: Name -> string, d: Descriptor): (r: seq<string>)
    ensures |r| <= 4
    ensures r == [] <==> StringField(d, "mode").None? && StringField(d, "name").None? && d.ty == "" && DefaultClause(d).None?
    ensures StringField(d, "mode").Some? ==> r[0] == StringField(d, "mode").value
    ensures StringField(d, "name").Some? ==> literal(Plain(StringField(d, "name").value)) in r
    ensures d.ty != "" ==> d.ty in r
    ensures DefaultClause(d).Some? ==> r[|r| - 1] == DefaultClause(d).value
  {
    var name := StringField(d, "name");
    Optional(StringField(d, "mode"))
    + Optional(if name.Some? then Some(literal(Plain(name.value))) else None)
    + Optional(if d.ty != "" then Some(d.ty) else None)
    + Optional(DefaultClause(d))
  }

  /** What `formatParam(mOptions)(param)` returns: the space-joined words, or the error `applyType` raises. */
  function ParamText(m: MigrationOptions, p: TypeSpec): (r: Result<string, string>)
    ensures r.Err? <==> ApplyTypeSpec(p, m.typeShorthands).Err?
    ensures r.Err? ==> r.error == ApplyTypeSpec(p, m.typeShorthands).error
  {
    match ApplyTypeSpec(p, m.typeShorthands)
    case Err(e) => Err(e)
    case Ok(d) => Ok(Join(ParamWords(m.literal, d), " "))
  }

  /** `formatParam(mOptions)(param)`: resolve the type, then join the collected words with spaces. */
  method FormatParam(m: MigrationOptions, p: TypeSpec) returns (r: Result<string, string>)
    ensures r == ParamText(m, p)
  {
    var resolved := ApplyType(p, m.typeShorthands);
    if resolved.Err? {
      return Err(resolved.error);
    }
    var options := CollectWords(m.literal, resolved.value);
    r := Ok(Join(options, " "));
  }

  /** The body of `formatParam` after resolution, pushing each present part onto `options`. */
  method CollectWords(literal: Name -> string, d: Descriptor) returns (options: seq<string>)
    ensures options == ParamWords(literal, d)
  {
    options := [];
    var mode := StringField(d, "mode");
    if mode.Some? {
      options := options + [mode.value];
    }
    assert options == Optional(mode);
    var name := StringField(d, "name");
    var rendered := if name.Some? then Some(literal(Plain(name.value))) else None;
    if name.Some? {
      options := options + [literal(Plain(name.value))];
    }
    assert options == Optional(mode) + Optional(rendered);
    if d.ty != "" {
      options := options + [d.ty];
    }
    assert options == Optional(mode) + Optional(rendered) + Optional(if d.ty != "" then Some(d.ty) else None);
    if "default" in d.attrs && Truthy(d.attrs["default"]) {
      options := options + ["DEFAULT " + ToText(EscapeValue(d.attrs["default"]))];
    }
  }

  /** Collecting mapped results in order, stopping at the first error (`map` throwing at the first failure). */
  function Collect(results: seq<Result<string, string>>): (r: Result<seq<string>, string>)
    ensures r.Ok? ==> |r.value| == |results| && forall i :: 0 <= i < |results| ==> results[i] == Ok(r.value[i])
    ensures r.Err? ==> exists i :: FirstErrorAt(results, r.error, i)
    decreases |results|
  {
    if results == [] then Ok([])
    else
      match results[0]
      case Err(e) => assert FirstErrorAt(results, e, 0); Err(e)
      case Ok(t) =>
        match Collect(results[1..])
        case Err(e) =>
          var i :| FirstErrorAt(results[1..], e, i);
          assert FirstErrorAt(results, e, i + 1) by {
            forall j | 0 < j <= i
              ensures results[j].Ok?
            {
              assert results[j] == results[1..][j - 1];
            }
          }
          Err(e)
        case Ok(ts) =>
          assert forall i :: 1 <= i < |results| ==> results[i] == results[1..][i - 1];
          Ok([t] + ts)
  }

  /** Result `i` is the error `e` and every earlier one succeeds. */
  predicate FirstErrorAt(results: seq<Result<string, string>>, e: string, i: int) {
    && 0 <= i < |results|
    && results[i] == Err(e)
    && forall j :: 0 <= j < i ==> results[j].Ok?
  }

  /** `params.map(formatParam(mOptions))` */
  function ParamResults(m: MigrationOptions, params: seq<TypeSpec>): (r: seq<Result<string, string>>)
    ensures |r| == |params| && forall i :: 0 <= i < |params| ==> r[i] == ParamText(m, params[i])
  {
    seq(|params|, i requires 0 <= i < |params| => ParamText(m, params[i]))
  }

  /** The mapped results joined by `, ` inside parentheses, or the first error among them. */
  function ListText(results: seq<Result<string, string>>): (r: Result<string, string>)
    ensures r.Ok? ==> |r.value| >= 2 && r.value[0] == '(' && r.value[|r.value| - 1] == ')'
    ensures r.Ok? ==> exists ts: seq<string> ::
      && |ts| == |results|
      && (forall i :: 0 <= i < |results| ==> results[i] == Ok(ts[i]))
      && r.value == "(" + Join(ts, ", ") + ")"
    ensures r.Ok? <==> forall i :: 0 <= i < |results| ==> results[i].Ok?
    ensures r.Err? ==> exists i :: FirstErrorAt(results, r.error, i)
  {
    match Collect(results)
    case Err(e) => Err(e)
    case Ok(ts) => Ok("(" + Join(ts, ", ") + ")")
  }

  /** `formatParams`: the parameter texts joined by `, ` inside parentheses, or the first parameter's error. */
  function FormatParams(params: seq<TypeSpec>, m: MigrationOptions): (r: Result<string, string>)
    ensures r.Ok? ==> |r.value| >= 2 && r.value[0] == '(' && r.value[|r.value| - 1] == ')'
    ensures r.Ok? ==> exists ts: seq<string> ::
      && |ts| == |params|
      && (forall i :: 0 <= i < |params| ==> ParamText(m, params[i]) == Ok(ts[i]))
      && r.value == "(" + Join(ts, ", ") + ")"
    ensures r.Ok? <==> forall i :: 0 <= i < |params| ==> ParamText(m, params[i]).Ok?
    ensures r.Err? ==> exists i :: FirstErrorAt(ParamResults(m, params), r.error, i)
  {
    ListText(ParamResults(m, params))
  }

  /** A parameter given as a bare type name that is no shorthand renders as its adapted type. */
  lemma BareTypeParam(m: MigrationOptions, t: string)
    requires !Expands(DefaultShorthands + m.typeShorthands, t) && ApplyTypeAdapters(t) != ""
    ensures ParamText(m, Named(t)) == Ok(ApplyTypeAdapters(t))
  {
    NonShorthandType(Named(t), m.typeShorthands);
    BareWords(m.literal, ApplyTypeAdapters(t));
  }

  lemma BareWords(literal: Name -> string, ty: string)
    requires ty != ""
    ensures Join(ParamWords(literal, Descriptor(ty, map[])), " ") == ty
  {
    assert ParamWords(literal, Descriptor(ty, map[])) == [ty];
  }

  /** With every part present, the parameter reads `mode name type DEFAULT value`, in that order. */
  lemma FullParam(m: MigrationOptions, mode: string, name: string, t: string, dflt: Value)
    requires mode != "" && name != "" && Truthy(dflt)
    requires !Expands(DefaultShorthands + m.typeShorthands, t) && ApplyTypeAdapters(t) != ""
    ensures ParamText(m, Described(Descriptor(t, map["mode" := Str(mode), "name" := Str(name), "default" := dflt])))
      == Ok(mode + " " + m.literal(Plain(name)) + " " + ApplyTypeAdapters(t) + " " + "DEFAULT " + ToText(EscapeValue(dflt)))
  {
    FullParamWords(m, mode, name, t, dflt);
    SpacedFour(mode, m.literal(Plain(name)), ApplyTypeAdapters(t), "DEFAULT ", ToText(EscapeValue(dflt)));
  }

  /** Four words joined by spaces, the last one made of a keyword and a value. */
  lemma SpacedFour(a: string, b: string, c: string, kw: string, x: string)
    ensures Join([a, b, c, kw + x], " ") == a + " " + b + " " + c + " " + kw + x
  {
    JoinFour([a, b, c, kw + x], " ");
    assert a + " " + b + " " + c + " " + (kw + x) == a + " " + b + " " + c + " " + kw + x;
  }

  lemma FullParamWords(m: MigrationOptions, mode: string, name: string, t: string, dflt: Value)
    requires mode != "" && name != "" && Truthy(dflt)
    requires !Expands(DefaultShorthands + m.typeShorthands, t) && ApplyTypeAdapters(t) != ""
    ensures ParamText(m, Described(Descriptor(t, map["mode" := Str(mode), "name" := Str(name), "default" := dflt])))
      == Ok(Join([mode, m.literal(Plain(name)), ApplyTypeAdapters(t), "DEFAULT " + ToText(EscapeValue(dflt))], " "))
  {
    var attrs := map["mode" := Str(mode), "name" := Str(name), "default" := dflt];
    var p := Described(Descriptor(t, attrs));
    var d := Descriptor(ApplyTypeAdapters(t), attrs);
    NonShorthandType(p, m.typeShorthands);
    FormatResolved(m, p, d);
    FullWords(m.literal, d, mode, name, dflt);
  }

  lemma FormatResolved(m: MigrationOptions, p: TypeSpec, d: Descriptor)
    requires ApplyTypeSpec(p, m.typeShorthands) == Ok(d)
    ensures ParamText(m, p) == Ok(Join(ParamWords(m.literal, d), " "))
  {
  }

  lemma FullWords(literal: Name -> string, d: Descriptor, mode: string, name: string, dflt: Value)
    requires mode != "" && name != "" && Truthy(dflt) && d.ty != ""
    requires d.attrs == map["mode" := Str(mode), "name" := Str(name), "default" := dflt]
    ensures ParamWords(literal, d) == [mode, literal(Plain(name)), d.ty, "DEFAULT " + ToText(EscapeValue(dflt))]
  {
    assert StringField(d, "mode") == Some(mode);
    assert StringField(d, "name") == Some(name);
    assert DefaultClause(d) == Some("DEFAULT " + ToText(EscapeValue(dflt)));
  }

  /** A falsy default (`0`, `''`, `false`, `null`) is left out, as if none were given. */
  lemma FalsyDefaultOmitted(literal: Name -> string, d: Descriptor)
    requires "default" in d.attrs && !Truthy(d.attrs["default"])
    ensures ParamWords(literal, d) == ParamWords(literal, d.(attrs := d.attrs - {"default"}))
  {
    var e := d.(attrs := d.attrs - {"default"});
    assert StringField(d, "mode") == StringField(e, "mode");
    assert StringField(d, "name") == StringField(e, "name");
  }

  /** A parameter whose type leads into a shorthand cycle makes the whole list fail with that error. */
  lemma CyclicParamFails(m: MigrationOptions, params: seq<TypeSpec>, i: nat)
    requires i < |params| && ApplyTypeSpec(params[i], m.typeShorthands).Err?
    ensures FormatParams(params, m).Err?
  {
  }

  /** No parameters render as `()`. */
  lemma NoParams(m: MigrationOptions)
    ensures FormatParams([], m) == Ok("()")
  {
    assert ParamResults(m, []) == [];
    assert "(" + Join([], ", ") + ")" == "()";
  }

  lemma JoinFour(w: seq<string>, sep: string)
    requires |w| == 4
    ensures Join(w, sep) == w[0] + sep + w[1] + sep + w[2] + sep + w[3]
  {
    var w1 := w[1..];
    var w2 := w1[1..];
    var w3 := w2[1..];
    assert w3 == [w[3]] && w2[0] == w[2] && w1[0] == w[1];
    assert Join(w2, sep) == w[2] + sep + w[3];
    assert Join(w1, sep) == w[1] + sep + (w[2] + sep + w[3]);
    assert Join(w, sep) == w[0] + sep + (w[1] + sep + (w[2] + sep + w[3]));
  }
}
