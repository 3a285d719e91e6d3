/**
 * `applyType` and `applyTypeAdapters`: resolve a declared column or
 * parameter type through a table of shorthands (the built-in `id` plus the
 * caller's), merging the descriptors met on the way, refusing cyclic
 * shorthands, and translating the final type name through the adapter
 * table.
 */
module TypeShorthands {
  import opened Wrappers
  import opened Text
  import opened Escape

  /** A column or parameter descriptor: its `type` and its other fields. */
  datatype Descriptor = Descriptor(ty: string, attrs: map<string, Value>)

  /** A shorthand table entry: another type name, or a descriptor. */
  datatype Shorthand = Alias(target: string) | Definition(d: Descriptor)

  /** A declared type: a bare type name or a descriptor. */
  datatype TypeSpec = Named(name: string) | Described(d: Descriptor)

  type Shorthands = map<string, Shorthand>

  const TypeAdapters: map<string, string> := map[
    "int" := "integer",
    "string" := "text",
    "float" := "real",
    "double" := "double precision",
    "datetime" := "timestamp",
    "bool" := "boolean"
  ]

  /**
   * `applyTypeAdapters`: a convenience alias becomes its SQL type name, other
   * names pass through, and no result is an alias again.
   */
  function ApplyTypeAdapters(t: string): (r: string)
    ensures r != t <==> t in TypeAdapters
    ensures t in TypeAdapters ==> r == TypeAdapters[t]
    ensures r !in TypeAdapters
  {
    if t in TypeAdapters then TypeAdapters[t] else t
  }

  const DefaultShorthands: Shorthands := map["id" := Definition(Descriptor("serial", map["primaryKey" := Bool(true)]))]

  /** `toType` on a declared type: a bare name is a descriptor with that type and no other field. */
  function ToType(t: TypeSpec): (r: Descriptor)
    ensures t.Named? ==> r.ty == t.name && r.attrs == map[]
    ensures t.Described? ==> r == t.d
  {
    match t
    case Named(name) => Descriptor(name, map[])
    case Described(d) => d
  }

  /** `toType` on a table entry. */
  function Expansion(s: Shorthand): Descriptor {
    match s
    case Alias(name) => Descriptor(name, map[])
    case Definition(d) => d
  }

  /** `typeShorthands[name]` is truthy: present, and not the empty alias. */
  predicate Expands(table: Shorthands, name: string) {
    name in table && table[name] != Alias("")
  }

  predicate Distinct(c: seq<string>) {
    forall i, j :: 0 <= i < j < |c| ==> c[i] != c[j]
  }

  /**
   * A resolution chain: distinct type names, each but the last expanding to
   * the next one.
   */
  predicate Chain(table: Shorthands, c: seq<string>) {
    && c != []
    && Distinct(c)
    && (forall i :: 0 <= i < |c| - 1 ==> Expands(table, c[i]))
    && (forall i :: 0 <= i < |c| - 1 ==> c[i + 1] == Expansion(table[c[i]]).ty)
  }

  /**
   * The non-type fields accumulated along a chain: each expansion's own
   * fields under those of the previous (shallower) ones.
   */
  function Merged(table: Shorthands, c: seq<string>): (r: map<string, Value>)
    requires forall i :: 0 <= i < |c| - 1 ==> c[i] in table
    ensures |c| <= 1 ==> r == map[]
    ensures |c| >= 2 ==>
      forall k :: k in Expansion(table[c[0]]).attrs ==> k in r && r[k] == Expansion(table[c[0]]).attrs[k]
    decreases |c|
  {
    if |c| <= 1 then map[]
    else
      var p := c[..|c| - 1];
      assert |p| >= 2 ==> p[0] == c[0];
      Expansion(table[c[|c| - 2]]).attrs + Merged(table, p)
  }

  /** How resolution ends: a chain whose last name does not expand, or a name met twice. */
  datatype Outcome = Resolved(chain: seq<string>) | Cyclic(chain: seq<string>, repeated: string)

  lemma {:induction false} DistinctBound(c: seq<string>, s: set<string>)
    requires Distinct(c) && forall i :: 0 <= i < |c| ==> c[i] in s
    ensures |c| <= |s|
    decreases |c|
  {
    if c != [] {
      var x := c[|c| - 1];
      var p := c[..|c| - 1];
      forall i | 0 <= i < |p|
        ensures p[i] in s - {x}
      {
        assert p[i] == c[i] != c[|c| - 1];
      }
      DistinctBound(p, s - {x});
    }
  }

  /** A chain visits each expanding name at most once: it has at most one more name than the table has keys. */
  lemma ChainBound(table: Shorthands, c: seq<string>)
    requires Chain(table, c)
    ensures |c| <= |table.Keys| + 1
  {
    DistinctBound(c[..|c| - 1], table.Keys);
  }

  /** The `while` loop of `applyType`, extending a chain one expansion at a time. */
  function Resolve(table: Shorthands, c: seq<string>): (r: Outcome)
    requires Chain(table, c)
    ensures r.Resolved? ==> Chain(table, r.chain) && c <= r.chain && !Expands(table, r.chain[|r.chain| - 1])
    ensures r.Cyclic? ==> Chain(table, r.chain) && c <= r.chain && Expands(table, r.chain[|r.chain| - 1])
    ensures r.Cyclic? ==> r.repeated == Expansion(table[r.chain[|r.chain| - 1]]).ty && r.repeated in r.chain
    ensures |r.chain| <= |table.Keys| + 1
    decreases |table.Keys| + 1 - |c|
  {
    ChainBound(table, c);
    var last := c[|c| - 1];
    if !Expands(table, last) then Resolved(c)
    else
      var next := Expansion(table[last]).ty;
      if next in c then Cyclic(c, next)
      else
        assert Chain(table, c + [next]);
        ChainBound(table, c + [next]);
        Resolve(table, c + [next])
  }

  /** The cycle error: the fixed prefix, the chain so far starting with its first name, and the repeated name last. */
  function CycleMessage(chain: seq<string>, repeated: string): (r: string)
    ensures |r| >= 40 + |repeated| && r[..38] == "Shorthands contain cyclic dependency: "
    ensures r[|r| - |repeated| - 2..] == ", " + repeated
    ensures chain != [] ==> |r| >= 38 + |chain[0]| && r[38..38 + |chain[0]|] == chain[0]
  {
    var prefix := "Shorthands contain cyclic dependency: ";
    var body := Join(chain, ", ");
    var r := prefix + body + (", " + repeated);
    assert |prefix| == 38 && r[..38] == prefix;
    assert r[38..38 + |body|] == body;
    assert chain != [] ==> body[..|chain[0]|] == chain[0];
    assert r[|r| - |repeated| - 2..] == ", " + repeated;
    r
  }

  /**
   * `applyType(type, extendingTypeShorthands)`: resolution against the
   * caller's shorthands over the built-in `id`; unless the caller redefines
   * `id` or `serial`, `id` is a `serial` primary key.
   */
  function ApplyTypeSpec(declared: TypeSpec, user: Shorthands): (r: Result<Descriptor, string>)
    ensures r.Err? <==> Resolve(DefaultShorthands + user, [ToType(declared).ty]).Cyclic?
    ensures declared == Named("id") && "id" !in user && "serial" !in user
      ==> r == Ok(Descriptor("serial", map["primaryKey" := Bool(true)]))
  {
    if declared == Named("id") && "id" !in user && "serial" !in user then
      DefaultEntries(user);
      BuiltinId(DefaultShorthands + user, map[]);
      ApplyWith(DefaultShorthands + user, declared)
    else ApplyWith(DefaultShorthands + user, declared)
  }

  /**
   * Resolution against a table: the cyclic-dependency error exactly when the
   * chain meets a name twice; otherwise an adapted type name, with the
   * declared fields over those the shorthands supply.
   */
  function ApplyWith(table: Shorthands, declared: TypeSpec): (r: Result<Descriptor, string>)
    ensures r.Err? <==> Resolve(table, [ToType(declared).ty]).Cyclic?
    ensures r.Ok? ==> r.value.ty !in TypeAdapters
    ensures r.Ok? ==> forall k :: k in ToType(declared).attrs ==> k in r.value.attrs && r.value.attrs[k] == ToType(declared).attrs[k]
  {
    var options := ToType(declared);
    match Resolve(table, [options.ty])
    case Cyclic(c, t) => Err(CycleMessage(c, t))
    case Resolved(c) => Ok(Descriptor(ApplyTypeAdapters(c[|c| - 1]), Merged(table, c) + options.attrs))
  }

  /** One expansion step extends the chain, the merged fields and keeps the outcome. */
  lemma ExtendChain(table: Shorthands, c: seq<string>)
    requires Chain(table, c) && Expands(table, c[|c| - 1])
    requires Expansion(table[c[|c| - 1]]).ty !in c
    ensures var next := Expansion(table[c[|c| - 1]]);
      && Chain(table, c + [next.ty])
      && Merged(table, c + [next.ty]) == next.attrs + Merged(table, c)
      && Resolve(table, c + [next.ty]) == Resolve(table, c)
      && |c + [next.ty]| <= |table.Keys| + 1
  {
    var next := Expansion(table[c[|c| - 1]]);
    var d := c + [next.ty];
    ChainStep(table, c);
    assert d[..|d| - 1] == c;
    ChainBound(table, d);
  }

  lemma ChainStep(table: Shorthands, c: seq<string>)
    requires Chain(table, c) && Expands(table, c[|c| - 1])
    requires Expansion(table[c[|c| - 1]]).ty !in c
    ensures Chain(table, c + [Expansion(table[c[|c| - 1]]).ty])
  {
    var d := c + [Expansion(table[c[|c| - 1]]).ty];
    forall i, j | 0 <= i < j < |d|
      ensures d[i] != d[j]
    {
      assert d[i] == c[i];
      if j < |c| {
        assert d[j] == c[j];
      }
    }
    forall i | 0 <= i < |d| - 1
      ensures Expands(table, d[i]) && d[i + 1] == Expansion(table[d[i]]).ty
    {
      assert d[i] == c[i];
      if i + 1 < |c| {
        assert d[i + 1] == c[i + 1];
      }
    }
  }

  /** Resolution stops at a chain whose last name does not expand. */
  lemma ResolveStops(table: Shorthands, c: seq<string>)
    requires Chain(table, c) && !Expands(table, c[|c| - 1])
    ensures Resolve(table, c) == Resolved(c)
  {
  }

  /** Resolution reports a cycle when the last name expands to one already on the chain. */
  lemma ResolveRepeats(table: Shorthands, c: seq<string>)
    requires Chain(table, c) && Expands(table, c[|c| - 1])
    requires Expansion(table[c[|c| - 1]]).ty in c
    ensures Resolve(table, c) == Cyclic(c, Expansion(table[c[|c| - 1]]).ty)
  {
  }

  /** A caller's entry is the merged table's entry. */
  lemma UserEntry(user: Shorthands, k: string)
    requires k in user
    ensures k in DefaultShorthands + user && (DefaultShorthands + user)[k] == user[k]
  {
  }

  /** Without the caller's `id` and `serial`, the merged table has the built-in `id` and no `serial`. */
  lemma DefaultEntries(user: Shorthands)
    requires "id" !in user && "serial" !in user
    ensures var table := DefaultShorthands + user;
      && "id" in table && table["id"] == Definition(Descriptor("serial", map["primaryKey" := Bool(true)]))
      && !Expands(table, "serial")
  {
    var table := DefaultShorthands + user;
    assert "id" in DefaultShorthands;
    assert "serial" !in DefaultShorthands;
  }

  /** `applyType`: the caller's shorthands over the built-in ones, then the loop over the chain. */
  method ApplyType(declared: TypeSpec, user: Shorthands) returns (r: Result<Descriptor, string>)
    ensures r == ApplyTypeSpec(declared, user)
  {
    r := ResolveType(DefaultShorthands + user, declared);
  }

  /** The loop of `applyType` over the shorthand chain, against a given table. */
  method ResolveType(table: Shorthands, declared: TypeSpec) returns (r: Result<Descriptor, string>)
    ensures r == ApplyWith(table, declared)
  {
    var options := ToType(declared);
    var ext: Option<Descriptor> := None;
    var types := [options.ty];
    while Expands(table, types[|types| - 1])
      invariant Chain(table, types)
      invariant |types| <= |table.Keys| + 1
      invariant ext == None <==> |types| == 1
      invariant ext != None ==> ext.value == Descriptor(types[|types| - 1], Merged(table, types))
      invariant Resolve(table, types) == Resolve(table, [options.ty])
      decreases |table.Keys| + 1 - |types|
    {
      var expansion := Expansion(table[types[|types| - 1]]);
      ext := Some(Descriptor(expansion.ty, expansion.attrs + (if ext == None then map[] else ext.value.attrs)));
      if expansion.ty in types {
        return Err(CycleMessage(types, expansion.ty));
      }
      ExtendChain(table, types);
      types := types + [expansion.ty];
    }
    var extAttrs := if ext == None then map[] else ext.value.attrs;
    var finalType := if ext == None then options.ty else ext.value.ty;
    r := Ok(Descriptor(ApplyTypeAdapters(finalType), extAttrs + options.attrs));
  }

  /** A translated name is not translated again. */
  lemma AdaptersIdempotent(t: string)
    ensures ApplyTypeAdapters(ApplyTypeAdapters(t)) == ApplyTypeAdapters(t)
  {
  }

  /** The keys of the merged fields are those of the expansions along the chain. */
  lemma {:induction false} MergedKeys(table: Shorthands, c: seq<string>, k: string)
    requires forall i :: 0 <= i < |c| - 1 ==> c[i] in table
    ensures k in Merged(table, c) <==> exists i :: 0 <= i < |c| - 1 && k in Expansion(table[c[i]]).attrs
    decreases |c|
  {
    if |c| > 1 {
      var p := c[..|c| - 1];
      MergedKeys(table, p, k);
      if k in Merged(table, c) && k !in Expansion(table[c[|c| - 2]]).attrs {
        var i :| 0 <= i < |p| - 1 && k in Expansion(table[p[i]]).attrs;
        assert p[i] == c[i];
      }
      if exists i :: 0 <= i < |c| - 1 && k in Expansion(table[c[i]]).attrs {
        var i :| 0 <= i < |c| - 1 && k in Expansion(table[c[i]]).attrs;
        if i < |c| - 2 {
          assert p[i] == c[i];
        }
      }
    }
  }

  /** A field takes its value from the shallowest expansion on the chain that sets it. */
  lemma {:induction false} ShallowestWins(table: Shorthands, c: seq<string>, i: nat, k: string)
    requires forall j :: 0 <= j < |c| - 1 ==> c[j] in table
    requires i < |c| - 1 && k in Expansion(table[c[i]]).attrs
    requires forall j :: 0 <= j < i ==> k !in Expansion(table[c[j]]).attrs
    ensures k in Merged(table, c) && Merged(table, c)[k] == Expansion(table[c[i]]).attrs[k]
    decreases |c|
  {
    var p := c[..|c| - 1];
    if i == |c| - 2 {
      forall j | 0 <= j < |p| - 1
        ensures k !in Expansion(table[p[j]]).attrs
      {
        assert p[j] == c[j];
      }
      MergedKeys(table, p, k);
    } else {
      assert p[i] == c[i];
      forall j | 0 <= j < i
        ensures k !in Expansion(table[p[j]]).attrs
      {
        assert p[j] == c[j];
      }
      ShallowestWins(table, p, i, k);
    }
  }

  /** Fields given with the declared type override every field a shorthand supplies. */
  lemma DeclaredFieldsWin(declared: TypeSpec, user: Shorthands, k: string)
    requires ApplyTypeSpec(declared, user).Ok? && k in ToType(declared).attrs
    ensures ApplyTypeSpec(declared, user).value.attrs[k] == ToType(declared).attrs[k]
  {
  }

  /** A type name that is not a shorthand is only translated, its fields kept. */
  lemma NonShorthandType(declared: TypeSpec, user: Shorthands)
    requires !Expands(DefaultShorthands + user, ToType(declared).ty)
    ensures ApplyTypeSpec(declared, user) == Ok(Descriptor(ApplyTypeAdapters(ToType(declared).ty), ToType(declared).attrs))
  {
    NoExpansion(DefaultShorthands + user, declared);
  }

  lemma NoExpansion(table: Shorthands, declared: TypeSpec)
    requires !Expands(table, ToType(declared).ty)
    ensures ApplyWith(table, declared) == Ok(Descriptor(ApplyTypeAdapters(ToType(declared).ty), ToType(declared).attrs))
  {
    var options := ToType(declared);
    var c := [options.ty];
    ResolveStops(table, c);
    assert Merged(table, c) == map[];
    assert map[] + options.attrs == options.attrs;
  }

  /** A shorthand naming a type that is not one itself: one expansion, its fields under the declared ones. */
  lemma OneShorthand(table: Shorthands, declared: TypeSpec)
    requires Expands(table, ToType(declared).ty)
    requires var next := Expansion(table[ToType(declared).ty]).ty;
      next != ToType(declared).ty && !Expands(table, next)
    ensures var e := Expansion(table[ToType(declared).ty]);
      ApplyWith(table, declared) == Ok(Descriptor(ApplyTypeAdapters(e.ty), e.attrs + ToType(declared).attrs))
  {
    var options := ToType(declared);
    var e := Expansion(table[options.ty]);
    var c := [options.ty, e.ty];
    ExtendChain(table, [options.ty]);
    assert [options.ty] + [e.ty] == c;
    ResolveStops(table, c);
    assert Merged(table, c) == e.attrs + map[];
    assert e.attrs + map[] == e.attrs;
  }

  /** Declared fields beat the shorthand's: `{type: 'id', primaryKey: false}` is a plain `serial`. */
  lemma IdWithoutPrimaryKey(user: Shorthands)
    requires "id" !in user && "serial" !in user
    ensures ApplyTypeSpec(Described(Descriptor("id", map["primaryKey" := Bool(false)])), user)
      == Ok(Descriptor("serial", map["primaryKey" := Bool(false)]))
  {
    var attrs := map["primaryKey" := Bool(false)];
    DefaultEntries(user);
    BuiltinId(DefaultShorthands + user, attrs);
    Override("primaryKey", Bool(true), Bool(false));
  }

  lemma Override<K, V>(k: K, v: V, w: V)
    ensures map[k := v] + map[k := w] == map[k := w]
  {
  }

  /** `id` declared with fields `attrs`, in a table holding the built-in `id` and no `serial`. */
  lemma BuiltinId(table: Shorthands, attrs: map<string, Value>)
    requires "id" in table && table["id"] == Definition(Descriptor("serial", map["primaryKey" := Bool(true)]))
    requires !Expands(table, "serial")
    ensures ApplyWith(table, Described(Descriptor("id", attrs)))
      == Ok(Descriptor("serial", map["primaryKey" := Bool(true)] + attrs))
    ensures ApplyWith(table, Named("id")) == Ok(Descriptor("serial", map["primaryKey" := Bool(true)]))
  {
    OneShorthand(table, Named("id"));
    assert map["primaryKey" := Bool(true)] + map[] == map["primaryKey" := Bool(true)];
    OneShorthand(table, Described(Descriptor("id", attrs)));
    assert ApplyTypeAdapters("serial") == "serial";
  }

  /** Two shorthands naming each other: resolution stops at the second and reports both and the repeat. */
  lemma TwoCycle(table: Shorthands, a: string, b: string)
    requires a != b && a in table && b in table && table[a] == Alias(b) && table[b] == Alias(a) && b != "" && a != ""
    ensures ApplyWith(table, Named(a)) == Err(CycleMessage([a, b], a))
  {
    assert Chain(table, [a]);
    ExtendChain(table, [a]);
    assert [a] + [b] == [a, b];
    ResolveRepeats(table, [a, b]);
  }

  /** `{a: 'b', b: 'a'}` is refused, naming the chain `a, b, a`. */
  lemma CyclicShorthands(user: Shorthands, a: string, b: string)
    requires a != b && a != "" && b != ""
    requires user == map[a := Alias(b), b := Alias(a)]
    ensures ApplyTypeSpec(Named(a), user) == Err("Shorthands contain cyclic dependency: " + a + ", " + b + ", " + a)
  {
    UserEntry(user, a);
    UserEntry(user, b);
    TwoCycle(DefaultShorthands + user, a, b);
    PairMessage(a, b);
  }

  /** The cycle message for the chain `a, b` back to `a`. */
  lemma PairMessage(a: string, b: string)
    ensures CycleMessage([a, b], a) == "Shorthands contain cyclic dependency: " + a + ", " + b + ", " + a
  {
    JoinPair(a, b, ", ");
    var prefix := "Shorthands contain cyclic dependency: ";
    var sep := ", ";
    assert CycleMessage([a, b], a) == prefix + (a + sep + b) + sep + a;
    assert prefix + (a + sep + b) + sep + a == prefix + a + sep + b + sep + a;
  }

  lemma JoinPair(a: string, b: string, sep: string)
    ensures Join([a, b], sep) == a + sep + b
  {
    assert [a, b][1..] == [b];
  }
}
