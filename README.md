# node-pg-migrate `src/utils.ts` in Dafny

This project models the SQL-text rendering helpers of a PostgreSQL migration
tool, all of which live in `src/utils.ts`:

- the identifier renderer built by `createSchemalize`;
- the token generator `StringIdGenerator`, a class whose `increment` runs a
  carry loop over its digit slots;
- the value escaper `escapeValue`, whose string branch picks a dollar-quote
  delimiter `$pg<token>$` in a do-while loop;
- the template filler `createTransformer`;
- the type-shorthand resolver `applyType`, whose while loop follows a chain of
  shorthands, and `applyTypeAdapters`;
- the parameter formatter `formatParam`/`formatParams`;
- the small helpers `getSchemas`, `getMigrationTableSchema`, `makeComment`,
  `formatLines` and `intersection`.

The modules follow the file's parts:

| module | models |
|---|---|
| `Wrappers` | `Option` and `Result` |
| `Text` | `indexOf`, `String.prototype.replace` with a global literal pattern (including its `$`-pattern expansion), `join` |
| `IdGenerator` | `StringIdGenerator` as a class, with the generator's tokens specified as bijective base-`n` numerals |
| `Escape` | `escapeValue`, and a reader for PostgreSQL dollar-quoted constants (section 4.1.2.4 of the PostgreSQL manual) |
| `Schemalize` | `createSchemalize` |
| `Transformer` | `createTransformer` |
| `TypeShorthands` | `applyTypeAdapters`, `toType`, `removeType`, `applyType` |
| `Params` | `formatParam`, `formatParams` |
| `Helpers` | `getSchemas`, `getMigrationTableSchema`, `makeComment`, `formatLines`, `intersection` |

The generator's k-th call (counting from 0) returns `Token(chars, k)`. This
is the spelling of the bijective base-`|chars|` numeral of `k + 1`, which is
the k-th string over `chars` in shortlex order: `a` … `z`, `aa`, `ab`, ….
The class invariant `Valid()` ties the mutable `ids` to the number of calls
so far. `Increment`'s carry loop is proved to compute `NextNumeral`.

The escaper's string branch is proved to terminate: candidate `k` is longer
than the payload plus one once `k` reaches 27 to the power of the payload's length. A reader for dollar-quoted
constants (`ReadDollarQuoted`) states what PostgreSQL makes of the result.

Three points of the code's behaviour are easy to misread:

- With both flags on, `createSchemalize` applies `decamelize(quote(x))`, so
  quoting happens first. Line 13 wraps each later function `fn` as
  `x => acc(fn(x))`, and `acc` is `decamelize`.
- In `applyType`, an earlier, shallower expansion's fields win over a later
  expansion's. Line 143 spreads the previous `ext` after the new expansion.
- The first delimiter `escapeValue` tries is `$pga$`. Line 61 creates a fresh
  generator, and its first `next()` returns `a`.

## Model

| member | source | states |
|---|---|---|
| IdGenerator.StringIdGenerator.Valid | src/utils.ts:26-29 | the slots are never empty and each is a valid index into `chars` |
| IdGenerator.StringIdGenerator.constructor | src/utils.ts:26-29 | a new generator has the single slot `0` and has issued no token; the alphabet defaults to `a`…`z` |
| IdGenerator.StringIdGenerator.Next | src/utils.ts:31-35 | the k-th call returns the k-th shortlex string over the alphabet, and the invariant is kept |
| IdGenerator.StringIdGenerator.Increment | src/utils.ts:37-46 | the carry loop (with the `unshift` on overflow) replaces the slots by their successor numeral |
| IdGenerator.NextNumeral | src/utils.ts:37-46 | the successor keeps every slot in range and adds at most one slot |
| IdGenerator.NextNumeralValue | src/utils.ts:37-46 | the carry step adds exactly one to the numeral's value |
| IdGenerator.ValueOfNumeral | src/utils.ts:25-46 | the numeral reached by `m` carry steps from the empty numeral denotes `m`, so the generator's slots after `k` calls denote `k + 1` |
| IdGenerator.NumeralOfValue | src/utils.ts:25-46 | every valid slot sequence is reached: it is the numeral of its own value |
| IdGenerator.ValueOfInjective | src/utils.ts:25-46 | two slot sequences with the same value are equal |
| IdGenerator.NumeralInjective | src/utils.ts:25-46 | different call counts give different slot sequences, so no token repeats |
| IdGenerator.NextNumeralLength | src/utils.ts:38-45 | the slots grow by one exactly when every slot is at its last letter |
| IdGenerator.NextNumeralAdvances | src/utils.ts:37-46 | each carry step moves strictly forward in shortlex order |
| IdGenerator.TokensAdvance | src/utils.ts:31-35 | consecutive calls return strictly shortlex-increasing tokens |
| IdGenerator.SmallNumeral | src/utils.ts:38-42 | the first `n` numerals are single slots `0`…`n-1` |
| IdGenerator.FirstTokens | src/utils.ts:26-46 | the first calls return each letter in turn; the letters are followed by `aa`, then `ab` |
| IdGenerator.NumeralLengthBound | src/utils.ts:38-45 | numerals of large enough values have at least `n` slots |
| Text.IndexOf | src/utils.ts:66 | `indexOf` is `-1` exactly when there is no occurrence, and otherwise the first occurrence |
| Text.ExpandReplacement | src/utils.ts:85-94 | a replacement string without `$` is inserted as it is |
| Text.ReplaceAll | src/utils.ts:73 | a global replace of an absent pattern leaves the text unchanged; a replacement without `$` is inserted literally at every occurrence |
| Text.RemoveAll | src/utils.ts:73 | removing an absent pattern leaves the text unchanged; removal is the literal replace by the empty text |
| Text.ReplaceFromAbsent | src/utils.ts:73 | with no occurrence from an index on, the replace copies the rest of the text |
| Text.ReplaceFromPlain | src/utils.ts:85-94 | without `$`, the replace with pattern expansion equals a literal replace |
| Text.ReplaceLiteral | src/utils.ts:85-94 | replacing the pattern by itself gives back the text |
| Text.ReplaceLiteralAbsent | src/utils.ts:85-94 | with no occurrence from an index on, the literal replace copies the rest of the text |
| Text.ReplaceJoin | src/utils.ts:87 | the `g` flag: in parts joined by the pattern, none holding its first character, every joint is replaced, giving the parts joined by the replacement |
| Text.Join | src/utils.ts:73 | every character of the joined text comes from the separator or from one of the parts |
| Escape.FirstCandidate | src/utils.ts:61-65 | the first token is `a` and the first delimiter `$pga$` |
| Escape.CandidateLength | src/utils.ts:63-66 | from index 27 to the power of the payload's length on, every candidate delimiter is longer than the payload plus one |
| Escape.FirstFreeIndex | src/utils.ts:63-66 | the do-while search stops at the first candidate that does not occur in the payload |
| Escape.DollarQuoteAsWritten | src/utils.ts:59-67 | the payload between two copies of the first candidate delimiter that does not occur in it |
| Escape.QuoteString | src/utils.ts:59-67 | the string branch as written: the loop terminates and returns the payload between two copies of the first delimiter absent from it |
| Escape.TrailingTagBreaksQuote | src/utils.ts:59-67 | as written, `$pga` is quoted as `$pga$$pga$pga$`, which PostgreSQL reads as the empty string followed by `pga$` |
| Escape.FirstSafeIndex | src/utils.ts:63-66 | the corrected search stops at the first candidate absent from the payload followed by `$` |
| Escape.DollarQuote | src/utils.ts:59-67 | the payload between two copies of the first candidate delimiter that occurs neither in it nor across its end |
| Escape.QuotesAgreeExactly | src/utils.ts:63-67 | the corrected quoting gives the as-written text exactly when the as-written delimiter does not occur in the payload followed by `$` |
| Escape.DelimiterDollars | src/utils.ts:65 | every delimiter `Delimiter(token)`, the text `$pg` + token + `$`, is `$`, a valid tag, `$`, with no other `$` |
| Escape.ClosingDelimiterFirst | src/utils.ts:67 | the first occurrence of the corrected delimiter after the opening one is the closing one |
| Escape.ReadTagged | src/utils.ts:67 | the reader takes a delimiter `$tag$`, a payload up to the delimiter's next occurrence, and the text after it apart |
| Escape.DollarQuoteRoundTrip | src/utils.ts:59-67 | the corrected quoting reads back as exactly the payload, with nothing left over |
| Escape.FirstCandidateWhenFree | src/utils.ts:63-67 | a payload free of `$pga$` is quoted with `$pga$` |
| Escape.QuotesAgreeWithoutDollar | src/utils.ts:59-67 | for a payload without `$`, the corrected and the as-written quoting agree and use `$pga$` |
| Escape.NatToString | src/utils.ts:93 | a natural number's text is decimal digits without a leading zero, and they denote the number |
| Escape.IntToString | src/utils.ts:93 | an integer's text is a minus sign (exactly for a negative integer) followed by decimal digits, and reads back as the integer |
| Escape.ToText | src/utils.ts:93 | `String(...)` of a text is the text; of a number, decimal digits that read back as the number |
| Escape.ElementTexts | src/utils.ts:73 | the mapped element texts match the elements one to one |
| Escape.EscapeValue | src/utils.ts:52-80 | only numbers stay numbers and are unchanged; a string reads back as itself from its quoting, which is the as-written quoting exactly when that one's delimiter does not straddle the payload's end; a literal is returned verbatim; `null` is `NULL`, booleans are `true` and `false`, anything unrecognised is the empty text; an array is `ARRAY[`…`]` |
| Escape.ScalarText | src/utils.ts:53-71 | nulls, booleans and numbers render without the letter `A` |
| Escape.ArrayOfScalars | src/utils.ts:72-75 | an array of nulls, booleans and numbers is `ARRAY[` + their comma-joined texts + `]` |
| Escape.NestedArray | src/utils.ts:72-75 | `[[1, 2]]` renders as `ARRAY[[1,2]]`: the inner `ARRAY` is removed |
| Schemalize.Transform | src/utils.ts:12-14 | the reduce keeps the first stage, identity included, and keeps the second only when it quotes |
| Schemalize.Schemalize | src/utils.ts:15-21 | a plain name is transformed; a qualified name is its transformed name, after its transformed schema and a dot when the schema is non-empty; the transform quotes, then decamelizes, as the flags ask |
| Schemalize.TransformCases | src/utils.ts:11-14 | with both flags off the input is unchanged; with one flag on only that step runs; with both on the result is `decamelize(quote(x))` |
| Schemalize.QualifiedName | src/utils.ts:15-21 | a qualified name is `t(schema).t(name)` when the schema is non-empty, else `t(name)` |
| Schemalize.Quoted | src/utils.ts:9 | the name between two double quotes, nothing else added |
| Schemalize.Apply | src/utils.ts:12-14 | the composed function runs the first stage last, on what the remaining stages give: `acc(fn(x))` |
| Schemalize.ReduceFrom | src/utils.ts:12-14 | the accumulator stays a prefix, and every stage after it is a non-identity stage of the list; a list of identities adds nothing |
| Transformer.Placeholder | src/utils.ts:87 | a placeholder starts with `{` and is never empty |
| Transformer.Replacement | src/utils.ts:89-93 | `undefined` gives the empty text; names and strings go through `literal`; a number's text reads back as the number; a literal is its own text; any other value is the text of its escaped form: `NULL`, `true`/`false`, the empty text, or `ARRAY[`…`]` |
| Transformer.Fold | src/utils.ts:83-95 | substituting keys none of whose placeholders occur leaves the text unchanged |
| Transformer.Substitute | src/utils.ts:82-95 | with no map, or none of the map's placeholders in the template, the template comes back unchanged |
| Transformer.SubstituteAsWritten | src/utils.ts:82-95 | with no map the template is returned; when no replacement text holds `$`, it equals the literal substitution |
| Transformer.FoldSnoc | src/utils.ts:82-95 | the substitution is a left fold: the last key is replaced last, in the result of the earlier keys |
| Transformer.NoSubstitutions | src/utils.ts:82-83 | with no map, or an empty one, the template is returned unchanged |
| Transformer.Step | src/utils.ts:85-94 | a key whose placeholder is absent leaves the text unchanged |
| Transformer.StepAsWritten | src/utils.ts:85-94 | as written, an absent placeholder leaves the text unchanged, and a replacement without `$` gives the literal step |
| Transformer.FoldAsWritten | src/utils.ts:83-95 | as written, substituting keys none of whose placeholders occur leaves the text unchanged |
| Transformer.FoldOne | src/utils.ts:83-94 | one key is one global literal replace of its placeholder |
| Transformer.FillSingle | src/utils.ts:85-94 | one placeholder in a template without other `{` is replaced by exactly the value's text |
| Transformer.FillEvery | src/utils.ts:87 | the `g` flag: a placeholder used several times, in a template with no other `{`, is replaced at every use |
| Transformer.TwoPlaceholders | src/utils.ts:83-94 | `{a} {b}` becomes the two texts with a space between, when the first text holds no `{` |
| Transformer.HiWorld | src/utils.ts:82-94 | `hi {x}` with `x = 'world'` renders the name `world` through `literal` |
| Transformer.AsWrittenAgreesWithoutDollar | src/utils.ts:85-94 | when no replacement text holds `$`, the as-written substitution equals the literal one |
| Transformer.DollarPairCollapses | src/utils.ts:85-94 | as written, a literal `$$` substituted for `{v}` comes out as `$`; the corrected substitution keeps `$$` |
| TypeShorthands.ChainBound | src/utils.ts:139-150 | a resolution chain is at most one longer than the table has keys |
| TypeShorthands.Resolve | src/utils.ts:139-150 | the chain stays duplicate-free and bounded; it ends at a name that does not expand, or at an expansion that repeats a name already in it (`Expands` is the loop test of line 140, a present and truthy entry; `Expansion` is the `toType` of line 142) |
| TypeShorthands.ExtendChain | src/utils.ts:140-148 | one loop step extends the chain, merges the new expansion under the earlier fields, and keeps the outcome |
| TypeShorthands.ApplyTypeAdapters | src/utils.ts:107-122 | exactly the six aliases change, each to its SQL name, and no result is an alias again |
| TypeShorthands.ToType | src/utils.ts:124 | a bare type name becomes a descriptor with that type and no other field; a descriptor is kept |
| TypeShorthands.ApplyWith | src/utils.ts:137-156 | the cycle error exactly when the chain meets a name twice; otherwise an adapted type name with every declared field kept |
| TypeShorthands.ApplyTypeSpec | src/utils.ts:116-156 | fails exactly when the chain through the merged table is cyclic; unless the caller redefines `id` or `serial`, `id` resolves to `serial` with `primaryKey: true` |
| TypeShorthands.ApplyType | src/utils.ts:129-136 | the caller's shorthands override the built-in `id`, and the result is what the resolution against the merged table specifies |
| TypeShorthands.ResolveType | src/utils.ts:137-156 | the while loop returns what the resolution specifies: the cycle error, or the merged and adapted descriptor |
| TypeShorthands.AdaptersIdempotent | src/utils.ts:107-122 | translating twice is translating once |
| TypeShorthands.MergedKeys | src/utils.ts:141-144 | the merged fields are exactly those set by some expansion on the chain |
| TypeShorthands.ShallowestWins | src/utils.ts:141-144 | a field takes its value from the shallowest expansion that sets it |
| TypeShorthands.Merged | src/utils.ts:141-144 | a chain of one name merges nothing; the first expansion's fields always survive with their values |
| TypeShorthands.CycleMessage | src/utils.ts:146 | the message opens with the fixed prefix and the chain's first name, and ends with `, ` and the repeated name |
| TypeShorthands.PairMessage | src/utils.ts:146 | for the chain `a, b` back to `a` the message is `Shorthands contain cyclic dependency: a, b, a` |
| TypeShorthands.DeclaredFieldsWin | src/utils.ts:151-155 | every field given with the declared type overrides the expansions |
| TypeShorthands.NonShorthandType | src/utils.ts:151-155 | a declared type that is not a shorthand is only translated, and its fields are kept |
| TypeShorthands.OneShorthand | src/utils.ts:137-155 | one expansion: the expansion's type is translated, and its fields sit under the declared ones |
| TypeShorthands.IdWithoutPrimaryKey | src/utils.ts:151-155 | `{type: 'id', primaryKey: false}` resolves to `serial` with `primaryKey: false` |
| TypeShorthands.TwoCycle | src/utils.ts:145-146 | two shorthands naming each other raise the cycle error naming both and the repeat |
| TypeShorthands.CyclicShorthands | src/utils.ts:133-146 | `{a: 'b', b: 'a'}` with `a` fails with `Shorthands contain cyclic dependency: a, b, a` |
| Params.ParamText | src/utils.ts:158-174 | a parameter fails exactly when its type resolution fails, and with that error |
| Params.Truthy | src/utils.ts:170 | JavaScript truthiness: exactly `null`, `false`, `0` and the empty string are falsy, and an array (even empty) is truthy |
| Params.DefaultClause | src/utils.ts:170-171 | present exactly when the default is truthy; it is `DEFAULT ` followed by the escaped value, which reads back for numbers and strings |
| Params.FormatParam | src/utils.ts:158-174 | the parameter renders as what `ParamText` specifies: the resolution error, or the collected words joined by spaces |
| Params.ParamWords | src/utils.ts:160-172 | at most four words, none without a present part; the mode comes first, the default clause last, and the rendered name and the type are among them |
| Params.CollectWords | src/utils.ts:160-172 | the pushes onto `options` give mode, rendered name, type and default clause, each only when present, in that order |
| Params.Collect | src/utils.ts:176-177 | the mapped texts match the parameters one to one, or the error is the first parameter's, with every earlier one succeeding |
| Params.ParamResults | src/utils.ts:177 | the map applies `formatParam` to each parameter in order |
| Params.ListText | src/utils.ts:177 | the texts joined by `, ` in parentheses, one per result, when all succeed; otherwise the first error |
| Params.FormatParams | src/utils.ts:176-177 | `(` + each parameter's `formatParam` text, in order, joined by `, ` + `)`; it succeeds exactly when every parameter does; otherwise it fails with the first parameter's error |
| Params.BareTypeParam | src/utils.ts:158-174 | a bare type name that is no shorthand renders as its adapted type |
| Params.FullParam | src/utils.ts:158-174 | with every part present, a parameter reads `mode name type DEFAULT value` in that order |
| Params.FalsyDefaultOmitted | src/utils.ts:170-172 | a falsy default is left out, as if no default were given |
| Params.CyclicParamFails | src/utils.ts:158-177 | one parameter with a cyclic type makes the whole list fail |
| Params.NoParams | src/utils.ts:176-177 | no parameters render as `()` |
| Helpers.NonEmptyNames | src/utils.ts:98-100 | the filter keeps exactly the non-empty names, and is empty only when every name is empty |
| Helpers.NonEmptyNamesCounts | src/utils.ts:98-100 | each non-empty name is kept as many times as it is given, so repeats survive |
| Helpers.NonEmptyNamesConcat | src/utils.ts:98-100 | filtering distributes over concatenation, so the names keep their order |
| Helpers.NonEmptyNamesOne | src/utils.ts:98-100 | one name is kept exactly when it is non-empty |
| Helpers.GetSchemas | src/utils.ts:97-102 | the result is never empty and has no empty name; when some name given is non-empty it is exactly the filtered list, in order and with repeats, and otherwise `public` |
| Helpers.GetSchemasExample | src/utils.ts:97-102 | `['', 'foo']` gives `['foo']` |
| Helpers.GetMigrationTableSchema | src/utils.ts:104-105 | an explicit migrations schema is used as given; otherwise a non-empty name from `getSchemas` |
| Helpers.DefaultMigrationSchema | src/utils.ts:104-105 | without any schema option, the migrations table lives in `public` |
| Helpers.FirstNonEmptySchema | src/utils.ts:97-105 | with a schema list, the first non-empty name is the migrations table's schema |
| Helpers.MakeComment | src/utils.ts:179-182 | an absent or empty text gives `IS NULL`; otherwise the text's quoting reads back as exactly the text |
| Helpers.DropBreaks | src/utils.ts:186 | removing the leading line breaks leaves a suffix that starts with no break |
| Helpers.CollapseBreaks | src/utils.ts:186 | the result has no line breaks, and a line without breaks is unchanged |
| Helpers.CollapseRun | src/utils.ts:186 | a maximal run of `\r` and `\n` after break-free text becomes exactly one space, and the collapsing goes on after it |
| Helpers.CollapseTerminators | src/utils.ts:186-188 | a collapsed line without U+2028 and U+2029 has no line terminator left |
| Helpers.IndentFrom | src/utils.ts:188 | without `$`, the indent is inserted at each line start (`LineStart`, the multiline `^`: the text's start or just after a line terminator) regardless of the surrounding text |
| Helpers.IndentLines | src/utils.ts:187-188 | lines free of terminators, joined and indented, get the indent in front of each line; no lines give the indent alone |
| Helpers.FormatLines | src/utils.ts:184-188 | for lines without U+2028 and U+2029, a separator without line terminators and an indent without `$`: each line, its break runs collapsed, indented, joined by the separator and a newline; no lines give the indent alone |
| Helpers.FormatLinesExample | src/utils.ts:184-188 | `formatLines(['a\nb', 'c'])` is two indented lines, the inner break a space |
| Helpers.Intersection | src/utils.ts:190-192 | the result is a sub-multiset of the first list whose elements all lie in the second |
| Helpers.IntersectionMembers | src/utils.ts:190-192 | an element is in the intersection exactly when both lists hold it |
| Helpers.IntersectionCounts | src/utils.ts:190-192 | elements of the second list keep all their repetitions from the first; other elements vanish |
| Helpers.IntersectionConcat | src/utils.ts:190-192 | intersection distributes over concatenating the first list, so order is kept |
| Helpers.IntersectionWithSuperset | src/utils.ts:190-192 | intersecting with a list that holds every element changes nothing |

## Left out

- `decamelize` comes from an external library. It is a `string -> string`
  parameter with no properties assumed.
- The `literal` renderers are caller-supplied callbacks: `mOptions.literal`
  and the argument of `createTransformer`. They are function parameters.
- Numbers are integers. JavaScript's floating-point numbers and their
  text form (`String(n)` for fractions, exponents, `NaN`) are not modelled.
- Prototype-chain lookups are not modelled. `key in typeAdapters` and
  `typeShorthands[key]` see only the tables' own entries: a key such as
  `toString` is not found.
- Transformer.SubstituteAsWritten: a key must be word characters and not
  all digits (`PlainKey`). Keys containing regular-expression
  metacharacters are not modelled.
- A descriptor field holding `undefined` is not distinguished from an
  absent field.
- TypeShorthands.Descriptor: the `type` field is kept apart as `ty`, which
  is how `removeType` is modelled. Nothing stops `attrs` from also holding a
  `"type"` key. Such a descriptor has no counterpart in the source, and the
  contracts say nothing about that key.
- Transformer.Substitute: the `g` flag is proved for one key used any
  number of times in a template with no other `{` (`FillEvery`), and for
  the two-key template `{a} {b}` (`TwoPlaceholders`). A general statement
  for several keys, whose texts may bring new placeholders, is not made.
- Params.ParamWords: `mode` and `name` count only when they are non-empty
  strings. A truthy `mode` or `name` of another kind is treated as absent.
- The imported types (`Value`, `Name`, `ColumnDefinition`, `FunctionParam`,
  `PgLiteral`) are datatypes carrying only the fields this file reads. `Other`
  stands for any input `escapeValue` does not recognise.
- The `PgLiteral` test (`literal === true`) is the constructor `Literal`. An
  object that only looks like a literal is `Other`.
- Escape.EscapeValue: for arrays, the contract states the `ARRAY[`…`]` frame.
  The full text, including the `ARRAY` removal, is proved only for arrays of
  scalars and for one nested example. The removal's effect on string
  elements whose text contains `ARRAY` is not characterised.
- IdGenerator.StringIdGenerator: the alphabet must be non-empty. With an
  empty alphabet, each `next()` would return the empty string: the slots
  index past the alphabet, and `join('')` renders the resulting `undefined`
  entries as nothing. `escapeValue` always uses the 26-letter default
  (line 61), so only a caller-supplied alphabet is affected.
- Escape.EscapeValue: the string case uses the corrected delimiter search
  (`DollarQuote`, over the payload followed by `$`), not the search as
  written. The two differ only when the as-written delimiter straddles the
  payload's end (`QuotesAgreeExactly`). The as-written search is
  `DollarQuoteAsWritten`, computed by the loop `QuoteString`. Everything built
  on `EscapeValue` (`makeComment`, `DEFAULT` clauses, transformer values)
  inherits the corrected quoting.
- Params.DefaultClause: a string default reads back from the corrected
  quoting only. With the as-written delimiter search, a default ending in a
  prefix of its delimiter would not read back (`TrailingTagBreaksQuote`).
- Helpers.MakeComment: the round trip holds for the corrected quoting only.
  As written, `makeComment('COLUMN', c, '$pga')` would quote the text as
  `$pga$$pga$pga$`, which does not read back (`TrailingTagBreaksQuote`).
- Helpers.FormatLines: lines holding U+2028 or U+2029, a separator with a
  line terminator, or an indent with `$` are covered by the definition but
  not by the contract.

## Findings

| source | as written | input that shows it | evidently intended | confidence | as-written member | corrected member |
|---|---|---|---|---|---|---|
| src/utils.ts:63-67 | The delimiter search only rejects delimiters found inside the payload. | `escapeValue('$pga')` gives `$pga$$pga$pga$`. PostgreSQL ends the constant at the first `$pga$`, reading the empty string followed by `pga$`. | Also reject a delimiter that straddles the payload's end and the closing delimiter: search `val + '$'`. The quoted text then reads back as exactly `val`. | not executed | Escape.TrailingTagBreaksQuote | Escape.DollarQuoteRoundTrip |
| src/utils.ts:85-94 | The replacement text passed to `String.prototype.replace` goes through `$`-pattern expansion (`$$`, `$&`, `` $` ``, `$'`). | A substitution whose value is the literal `$$` renders as `$`. An array value holding the string `&x` escapes to `ARRAY[$pga$&x$pga$]`, and the `$&` in it is replaced by the placeholder itself. | Insert each value's text as it is, for example with a replacer function. | not executed | Transformer.DollarPairCollapses | Transformer.FillSingle |
