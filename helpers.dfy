/**
 * The smaller helpers: schema lists, the migrations table's schema,
 * `COMMENT ON` statements, the indented line layout and list intersection.
 */
module Helpers {
  import opened Wrappers
  import opened Text
  import opened Escape

  /** The `schema` option: absent, one name, or a list of names. */
  datatype SchemaArg = NoSchema | OneSchema(name: string) | SchemaList(names: seq<string>)

  /** The runner options `getMigrationTableSchema` reads. */
  datatype RunnerOption = RunnerOption(migrationsSchema: Option<string>, schema: SchemaArg)

  function Given(a: SchemaArg): seq<string> {
    match a
    case NoSchema => []
    case OneSchema(name) => [name]
    case SchemaList(names) => names
  }

  /** The non-empty names, in their order. */
  function NonEmptyNames(xs: seq<string>): (r: seq<string>)
    ensures |r| <= |xs| && forall i :: 0 <= i < |r| ==> r[i] != ""
    ensures forall x :: x in r <==> x in xs && x != ""
    ensures r == [] <==> forall i :: 0 <= i < |xs| ==> xs[i] == ""
    decreases |xs|
  {
    assert xs != [] ==> xs == [xs[0]] + xs[1..];
    if xs == [] then []
    else if xs[0] == "" then NonEmptyNames(xs[1..])
    else [xs[0]] + NonEmptyNames(xs[1..])
  }

  /** Each non-empty name is kept as many times as it is given. */
  lemma {:induction false} NonEmptyNamesCounts(xs: seq<string>, x: string)
    requires x != ""
    ensures multiset(NonEmptyNames(xs))[x] == multiset(xs)[x]
    decreases |xs|
  {
    if xs != [] {
      NonEmptyNamesCounts(xs[1..], x);
      assert xs == [xs[0]] + xs[1..];
      assert multiset(xs) == multiset([xs[0]]) + multiset(xs[1..]);
    }
  }

  /** `getSchemas`: the non-empty names given, or `public` when there are none. */
  function GetSchemas(a: SchemaArg): (r: seq<string>)
    ensures r != [] && forall i :: 0 <= i < |r| ==> r[i] != ""
    ensures (exists i :: 0 <= i < |Given(a)| && Given(a)[i] != "") ==> forall x :: x in r <==> x in Given(a) && x != ""
    ensures (forall i :: 0 <= i < |Given(a)| ==> Given(a)[i] == "") ==> r == ["public"]
    ensures (exists i :: 0 <= i < |Given(a)| && Given(a)[i] != "") ==> r == NonEmptyNames(Given(a))
  {
    var schemas := NonEmptyNames(Given(a));
    if |schemas| > 0 then schemas else ["public"]
  }

  /** The filter keeps the order: filtering a concatenation concatenates the filtered parts. */
  lemma {:induction false} NonEmptyNamesConcat(a: seq<string>, b: seq<string>)
    ensures NonEmptyNames(a + b) == NonEmptyNames(a) + NonEmptyNames(b)
    decreases |a|
  {
    if a == [] {
      assert a + b == b;
    } else {
      assert (a + b)[0] == a[0];
      assert (a + b)[1..] == a[1..] + b;
      NonEmptyNamesConcat(a[1..], b);
    }
  }

  /** A single name is kept exactly when it is non-empty. */
  lemma NonEmptyNamesOne(x: string)
    ensures NonEmptyNames([x]) == if x == "" then [] else [x]
  {
    assert [x][1..] == [];
  }

  /** `getSchemas(['', 'foo'])` is `['foo']`. */
  lemma GetSchemasExample()
    ensures GetSchemas(SchemaList(["", "foo"])) == ["foo"]
  {
    NonEmptyNamesConcat([""], ["foo"]);
    assert [""] + ["foo"] == ["", "foo"];
    NonEmptyNamesOne("");
    NonEmptyNamesOne("foo");
  }

  /** `getMigrationTableSchema`: the explicit migrations schema, else the first of `getSchemas`. */
  function GetMigrationTableSchema(o: RunnerOption): (r: string)
    ensures o.migrationsSchema.Some? ==> r == o.migrationsSchema.value
    ensures o.migrationsSchema.None? ==> r in GetSchemas(o.schema) && r != ""
  {
    if o.migrationsSchema.Some? then o.migrationsSchema.value else GetSchemas(o.schema)[0]
  }

  /** Without any schema option the migrations table lives in `public`. */
  lemma DefaultMigrationSchema(o: RunnerOption)
    requires o.migrationsSchema.None? && (o.schema.NoSchema? || o.schema == OneSchema(""))
    ensures GetMigrationTableSchema(o) == "public"
  {
  }

  /** A single non-empty schema is the migrations table's schema unless one is given explicitly. */
  lemma {:induction false} FirstNonEmptySchema(xs: seq<string>, k: nat)
    requires k < |xs| && xs[k] != "" && forall j :: 0 <= j < k ==> xs[j] == ""
    ensures GetMigrationTableSchema(RunnerOption(None, SchemaList(xs))) == xs[k]
  {
    NonEmptyHead(xs, k);
  }

  lemma {:induction false} NonEmptyHead(xs: seq<string>, k: nat)
    requires k < |xs| && xs[k] != "" && forall j :: 0 <= j < k ==> xs[j] == ""
    ensures NonEmptyNames(xs) != [] && NonEmptyNames(xs)[0] == xs[k]
    decreases k
  {
    if k > 0 {
      NonEmptyHead(xs[1..], k - 1);
    }
  }

  /** `makeComment`: `COMMENT ON <kind> <name> IS <text>;`, the text dollar-quoted, or `NULL` when absent or empty. */
  function MakeComment(kind: string, name: string, text: Option<string>): (r: string)
    ensures text.None? || text == Some("") ==> r == "COMMENT ON " + kind + " " + name + " IS NULL;"
    ensures text.Some? && text.value != "" ==> exists q ::
      r == "COMMENT ON " + kind + " " + name + " IS " + q + ";" && ReadDollarQuoted(q) == Some((text.value, ""))
  {
    var value := if text.None? || text == Some("") then Null else Str(text.value);
    var cmt := ToText(EscapeValue(value));
    "COMMENT ON " + kind + " " + name + " IS " + cmt + ";"
  }

  predicate LineBreak(c: char) {
    c == '\r' || c == '\n'
  }

  /** The characters a multiline `^` starts a line after. */
  predicate LineTerminator(c: char) {
    c == '\n' || c == '\r' || c == '\U{2028}' || c == '\U{2029}'
  }

  predicate NoBreaks(s: string) {
    forall i :: 0 <= i < |s| ==> !LineBreak(s[i])
  }

  predicate NoTerminators(s: string) {
    forall i :: 0 <= i < |s| ==> !LineTerminator(s[i])
  }

  /** `s` without its leading `\r` and `\n` characters. */
  function DropBreaks(s: string): (r: string)
    ensures |r| <= |s| && (r == [] || !LineBreak(r[0]))
    ensures r == s[|s| - |r|..]
    decreases |s|
  {
    if s != [] && LineBreak(s[0]) then DropBreaks(s[1..]) else s
  }

  /** `line.replace(/(?:\r\n|\r|\n)+/g, ' ')`: every maximal run of `\r` and `\n` becomes one space. */
  function CollapseBreaks(s: string): (r: string)
    ensures NoBreaks(r) && |r| <= |s|
    ensures NoBreaks(s) ==> r == s
    decreases |s|
  {
    if s == [] then []
    else if LineBreak(s[0]) then " " + CollapseBreaks(DropBreaks(s[1..]))
    else [s[0]] + CollapseBreaks(s[1..])
  }

  /**
   * A maximal run of `\r` and `\n` after a break-free piece becomes exactly
   * one space, and the collapsing goes on after it.
   */
  lemma {:induction false} CollapseRun(a: string, run: string, b: string)
    requires NoBreaks(a) && run != [] && forall i :: 0 <= i < |run| ==> LineBreak(run[i])
    requires b == [] || !LineBreak(b[0])
    ensures CollapseBreaks(a + run + b) == a + " " + CollapseBreaks(b)
    decreases |a|
  {
    if a == [] {
      assert a + run + b == run + b;
      LeadingRun(run, b);
    } else {
      CollapseRun(a[1..], run, b);
      KeptChar(a[0], a[1..] + run + b, a[1..] + " " + CollapseBreaks(b));
      HeadTail(a, run, b);
      HeadTail(a, " ", CollapseBreaks(b));
    }
  }

  lemma LeadingRun(run: string, b: string)
    requires run != [] && forall i :: 0 <= i < |run| ==> LineBreak(run[i])
    requires b == [] || !LineBreak(b[0])
    ensures CollapseBreaks(run + b) == " " + CollapseBreaks(b)
  {
    DropAll(run, b);
    assert (run + b)[0] == run[0];
    BrokenStart(run + b, b);
  }

  lemma KeptChar(c: char, t: string, u: string)
    requires !LineBreak(c) && CollapseBreaks(t) == u
    ensures CollapseBreaks([c] + t) == [c] + u
  {
    assert ([c] + t)[1..] == t;
  }

  lemma HeadTail(a: string, x: string, y: string)
    requires a != []
    ensures [a[0]] + (a[1..] + x + y) == a + x + y
  {
    assert a == [a[0]] + a[1..];
  }

  lemma BrokenStart(s: string, b: string)
    requires s != [] && LineBreak(s[0]) && DropBreaks(s) == b
    ensures CollapseBreaks(s) == " " + CollapseBreaks(b)
  {
    assert DropBreaks(s) == DropBreaks(s[1..]);
  }

  lemma {:induction false} DropAll(run: string, b: string)
    requires (b == [] || !LineBreak(b[0])) && forall i :: 0 <= i < |run| ==> LineBreak(run[i])
    ensures DropBreaks(run + b) == b
    decreases |run|
  {
    var s := run + b;
    if run == [] {
      assert s == b;
    } else {
      var tail := run[1..];
      assert s[0] == run[0] && LineBreak(s[0]);
      assert s[1..] == tail + b;
      forall i | 0 <= i < |tail|
        ensures LineBreak(tail[i])
      {
        assert tail[i] == run[i + 1];
      }
      DropAll(tail, b);
    }
  }

  /** No U+2028 LINE SEPARATOR and no U+2029 PARAGRAPH SEPARATOR. */
  predicate NoSeparators(s: string) {
    forall i :: 0 <= i < |s| ==> s[i] != '\U{2028}' && s[i] != '\U{2029}'
  }

  /** Collapsing leaves a line without U+2028 and U+2029 free of every line terminator. */
  lemma {:induction false} CollapseTerminators(s: string)
    requires NoSeparators(s)
    ensures NoTerminators(CollapseBreaks(s))
    decreases |s|
  {
    if s == [] {
    } else if LineBreak(s[0]) {
      var t := DropBreaks(s[1..]);
      assert NoSeparators(t) by {
        forall i | 0 <= i < |t|
          ensures t[i] != '\U{2028}' && t[i] != '\U{2029}'
        {
          assert t[i] == s[|s| - |t| + i];
        }
      }
      CollapseTerminators(t);
      SpacedPlain(CollapseBreaks(t));
    } else {
      assert NoSeparators(s[1..]) by {
        forall i | 0 <= i < |s| - 1
          ensures s[1..][i] != '\U{2028}' && s[1..][i] != '\U{2029}'
        {
          assert s[1..][i] == s[i + 1];
        }
      }
      CollapseTerminators(s[1..]);
      KeptPlain(s[0], CollapseBreaks(s[1..]));
    }
  }

  lemma SpacedPlain(t: string)
    requires NoTerminators(t)
    ensures NoTerminators(" " + t)
  {
    forall i | 0 < i < |" " + t|
      ensures !LineTerminator((" " + t)[i])
    {
      assert (" " + t)[i] == t[i - 1];
    }
  }

  lemma KeptPlain(c: char, t: string)
    requires NoTerminators(t) && !LineTerminator(c)
    ensures NoTerminators([c] + t)
  {
    forall i | 0 < i < |[c] + t|
      ensures !LineTerminator(([c] + t)[i])
    {
      assert ([c] + t)[i] == t[i - 1];
    }
  }

  /** Position `i` of `s` starts a line for a multiline `^`. */
  predicate LineStart(s: string, i: nat)
    requires i <= |s|
  {
    i == 0 || LineTerminator(s[i - 1])
  }

  /** `s.replace(/^/gm, rep)` from position `i` on: `rep`, `$`-expanded, inserted at every line start. */
  function IndentFrom(s: string, rep: string, i: nat): (r: string)
    requires i <= |s|
    ensures '$' !in rep ==> r == Prefixed(s[i..], rep, LineStart(s, i))
    decreases |s| - i
  {
    assert i < |s| ==> s[i..][1..] == s[i + 1..];
    (if LineStart(s, i) then ExpandReplacement(rep, "", s[..i], s[i..]) else "")
    + (if i == |s| then "" else [s[i]] + IndentFrom(s, rep, i + 1))
  }

  /**
   * `formatLines(lines, replace, separator)`: with an indent free of `$`, a
   * separator free of line terminators and lines free of U+2028 and U+2029,
   * each line with its line-break runs collapsed, indented, and joined by the
   * separator and a newline; with no lines, the indent alone.
   */
  function FormatLines(lines: seq<string>, rep: string := "  ", separator: string := ","): (r: string)
    ensures lines == [] && '$' !in rep ==> r == rep
    ensures lines != [] && '$' !in rep && NoTerminators(separator) && (forall i :: 0 <= i < |lines| ==> NoSeparators(lines[i]))
      ==> r == Join(seq(|lines|, i requires 0 <= i < |lines| => rep + CollapseBreaks(lines[i])), separator + "\n")
  {
    var collapsed := seq(|lines|, i requires 0 <= i < |lines| => CollapseBreaks(lines[i]));
    CollapsedLines(lines, collapsed);
    IndentLines(collapsed, rep, separator);
    assert seq(|collapsed|, i requires 0 <= i < |collapsed| => rep + collapsed[i])
      == seq(|lines|, i requires 0 <= i < |lines| => rep + CollapseBreaks(lines[i]));
    IndentFrom(Join(collapsed, separator + "\n"), rep, 0)
  }

  lemma CollapsedLines(lines: seq<string>, collapsed: seq<string>)
    requires |collapsed| == |lines| && forall i :: 0 <= i < |lines| ==> collapsed[i] == CollapseBreaks(lines[i])
    ensures (forall i :: 0 <= i < |lines| ==> NoSeparators(lines[i])) ==> forall i :: 0 <= i < |collapsed| ==> NoTerminators(collapsed[i])
  {
    if forall i :: 0 <= i < |lines| ==> NoSeparators(lines[i]) {
      forall i | 0 <= i < |collapsed|
        ensures NoTerminators(collapsed[i])
      {
        CollapseTerminators(lines[i]);
      }
    }
  }

  /** Lines free of terminators, joined and indented: each line with the indent in front. */
  lemma IndentLines(ls: seq<string>, rep: string, sep: string)
    ensures ls == [] && '$' !in rep ==> IndentFrom(Join(ls, sep + "\n"), rep, 0) == rep
    ensures ls != [] && '$' !in rep && NoTerminators(sep) && (forall i :: 0 <= i < |ls| ==> NoTerminators(ls[i]))
      ==> IndentFrom(Join(ls, sep + "\n"), rep, 0) == Join(seq(|ls|, i requires 0 <= i < |ls| => rep + ls[i]), sep + "\n")
  {
    if '$' !in rep {
      assert Join(ls, sep + "\n")[0..] == Join(ls, sep + "\n");
      if ls != [] && NoTerminators(sep) && (forall i :: 0 <= i < |ls| ==> NoTerminators(ls[i])) {
        PrefixedJoin(ls, sep, rep);
      }
    }
  }

  /** `formatLines(['a\nb', 'c'])` is `  a b,\n  c`: the break inside a line becomes a space. */
  lemma FormatLinesExample()
    ensures FormatLines(["a\nb", "c"]) == "  a b,\n  c"
  {
    ExampleCollapsed();
    ExampleFree();
    FormatPair("a\nb", "c", "  ", ",");
    ExampleText();
  }

  lemma ExampleText()
    ensures "  " + "a b" + ("," + "\n") + ("  " + "c") == "  a b,\n  c"
  {
  }

  lemma ExampleCollapsed()
    ensures CollapseBreaks("a\nb") == "a b" && CollapseBreaks("c") == "c"
  {
    assert "a\nb" == "a" + "\n" + "b";
    CollapseRun("a", "\n", "b");
    assert NoBreaks("c");
  }

  lemma ExampleFree()
    ensures NoSeparators("a\nb") && NoSeparators("c") && NoTerminators(",")
  {
  }

  lemma FormatPair(x: string, y: string, rep: string, sep: string)
    requires NoSeparators(x) && NoSeparators(y) && '$' !in rep && NoTerminators(sep)
    ensures FormatLines([x, y], rep, sep) == rep + CollapseBreaks(x) + (sep + "\n") + (rep + CollapseBreaks(y))
  {
    var lines := [x, y];
    var ls := seq(|lines|, i requires 0 <= i < |lines| => rep + CollapseBreaks(lines[i]));
    assert ls == [rep + CollapseBreaks(x), rep + CollapseBreaks(y)];
    assert Join(ls, sep + "\n") == ls[0] + (sep + "\n") + Join(ls[1..], sep + "\n");
  }

  /** The indentation with `rep` inserted as it is, `atStart` telling whether a line starts here. */
  function Prefixed(s: string, rep: string, atStart: bool): (r: string)
    ensures |r| >= |s|
    decreases |s|
  {
    (if atStart then rep else "") + (if s == [] then "" else [s[0]] + Prefixed(s[1..], rep, LineTerminator(s[0])))
  }

  lemma {:induction false} PrefixedPlain(x: string, rep: string, atStart: bool)
    requires NoTerminators(x)
    ensures Prefixed(x, rep, atStart) == (if atStart then rep else "") + x
    decreases |x|
  {
    if x != [] {
      PrefixedPlain(x[1..], rep, false);
      assert [x[0]] + x[1..] == x;
    }
  }

  /** A line without terminators followed by a newline: the next line starts right after it. */
  lemma {:induction false} PrefixedLine(x: string, y: string, rep: string, atStart: bool)
    requires NoTerminators(x)
    ensures Prefixed(x + "\n" + y, rep, atStart) == (if atStart then rep else "") + x + "\n" + Prefixed(y, rep, true)
    decreases |x|
  {
    var s := x + "\n" + y;
    var rest := Prefixed(y, rep, true);
    if x == [] {
      assert s == "\n" + y;
      PrefixedCons(s, rep, atStart);
      assert s[1..] == y;
    } else {
      var tail := x[1..];
      PlainTail(x);
      assert s[0] == x[0] && s[1..] == tail + "\n" + y;
      PrefixedCons(s, rep, atStart);
      PrefixedLine(tail, y, rep, false);
      ConsLine(x, "\n", rest);
    }
  }

  /** One step of the insertion: the first character, then the rest. */
  lemma PrefixedCons(s: string, rep: string, atStart: bool)
    requires s != []
    ensures Prefixed(s, rep, atStart) == (if atStart then rep else "") + ([s[0]] + Prefixed(s[1..], rep, LineTerminator(s[0])))
  {
  }

  lemma PlainTail(x: string)
    requires x != [] && NoTerminators(x)
    ensures !LineTerminator(x[0]) && NoTerminators(x[1..])
  {
    var tail := x[1..];
    forall i | 0 <= i < |tail|
      ensures !LineTerminator(tail[i])
    {
      assert tail[i] == x[i + 1];
    }
  }

  lemma ConsLine(x: string, nl: string, rest: string)
    requires x != []
    ensures [x[0]] + (x[1..] + nl + rest) == x + nl + rest
  {
    assert [x[0]] + x[1..] == x;
  }

  /** Lines and separator free of line terminators: every line gets `rep` in front of it. */
  lemma {:induction false} PrefixedJoin(ls: seq<string>, sep: string, rep: string)
    requires ls != [] && NoTerminators(sep) && forall i :: 0 <= i < |ls| ==> NoTerminators(ls[i])
    ensures Prefixed(Join(ls, sep + "\n"), rep, true) == Join(seq(|ls|, i requires 0 <= i < |ls| => rep + ls[i]), sep + "\n")
    decreases |ls|
  {
    var indented := seq(|ls|, i requires 0 <= i < |ls| => rep + ls[i]);
    if |ls| == 1 {
      PrefixedPlain(ls[0], rep, true);
    } else {
      var rest := ls[1..];
      var x := ls[0] + sep;
      assert NoTerminators(x) by {
        forall i | 0 <= i < |x|
          ensures !LineTerminator(x[i])
        {
          if i < |ls[0]| { assert x[i] == ls[0][i]; } else { assert x[i] == sep[i - |ls[0]|]; }
        }
      }
      assert Join(ls, sep + "\n") == x + "\n" + Join(rest, sep + "\n");
      PrefixedLine(x, Join(rest, sep + "\n"), rep, true);
      PrefixedJoin(rest, sep, rep);
      assert indented[1..] == seq(|rest|, i requires 0 <= i < |rest| => rep + rest[i]);
      assert Join(indented, sep + "\n") == rep + ls[0] + (sep + "\n") + Join(indented[1..], sep + "\n");
    }
  }

  /** `intersection(list1, list2)`: the elements of `list1` that `list2` contains, in order and with their repetitions. */
  function Intersection<T(==)>(list1: seq<T>, list2: seq<T>): (r: seq<T>)
    ensures multiset(r) <= multiset(list1)
    ensures forall i :: 0 <= i < |r| ==> r[i] in list2
    decreases |list1|
  {
    if list1 == [] then []
    else
      assert list1 == [list1[0]] + list1[1..];
      if list1[0] in list2 then [list1[0]] + Intersection(list1[1..], list2)
      else Intersection(list1[1..], list2)
  }

  /** An element is in the intersection exactly when both lists hold it. */
  lemma {:induction false} IntersectionMembers<T(!new)>(list1: seq<T>, list2: seq<T>, x: T)
    ensures x in Intersection(list1, list2) <==> x in list1 && x in list2
    decreases |list1|
  {
    if list1 != [] {
      IntersectionMembers(list1[1..], list2, x);
      assert x in list1 <==> x == list1[0] || x in list1[1..];
    }
  }

  /** Each element of `list2` keeps every repetition it has in `list1`; other elements vanish. */
  lemma {:induction false} IntersectionCounts<T(!new)>(list1: seq<T>, list2: seq<T>, x: T)
    ensures multiset(Intersection(list1, list2))[x] == if x in list2 then multiset(list1)[x] else 0
    decreases |list1|
  {
    if list1 != [] {
      var h, t := list1[0], list1[1..];
      assert list1 == [h] + t;
      IntersectionCons(h, t, list2);
      IntersectionCounts(t, list2, x);
      assert multiset(list1) == multiset([h]) + multiset(t);
    }
  }

  /** Intersection distributes over concatenation of the first list. */
  lemma {:induction false} IntersectionConcat<T(!new)>(a: seq<T>, b: seq<T>, list2: seq<T>)
    ensures Intersection(a + b, list2) == Intersection(a, list2) + Intersection(b, list2)
    decreases |a|
  {
    if a == [] {
      assert a + b == b;
    } else {
      var h, t := a[0], a[1..];
      assert a == [h] + t && a + b == [h] + (t + b);
      IntersectionCons(h, t + b, list2);
      IntersectionCons(h, t, list2);
      IntersectionConcat(t, b, list2);
      SeqAssoc(if h in list2 then [h] else [], Intersection(t, list2), Intersection(b, list2));
    }
  }

  /** Concatenation of sequences is associative. */
  lemma SeqAssoc<T>(x: seq<T>, y: seq<T>, z: seq<T>)
    ensures x + (y + z) == (x + y) + z
  {
  }

  /** The first element is kept exactly when the second list holds it. */
  lemma IntersectionCons<T(!new)>(h: T, t: seq<T>, list2: seq<T>)
    ensures Intersection([h] + t, list2) == (if h in list2 then [h] else []) + Intersection(t, list2)
  {
    assert ([h] + t)[0] == h && ([h] + t)[1..] == t;
  }




  /** Intersecting with a list that holds every element changes nothing. */
  lemma {:induction false} IntersectionWithSuperset<T(!new)>(list1: seq<T>, list2: seq<T>)
    requires forall x :: x in list1 ==> x in list2
    ensures Intersection(list1, list2) == list1
    decreases |list1|
  {
    if list1 != [] {
      IntersectionWithSuperset(list1[1..], list2);
    }
  }
}
