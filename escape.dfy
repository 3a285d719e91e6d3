/**
 * The value escaper `escapeValue`: renders a value as SQL text. Strings
 * become dollar-quoted constants (section 4.1.2.4, "Dollar-Quoted String
 * Constants", of the PostgreSQL manual) whose delimiter `$pg<token>$` takes
 * its token from a fresh generator.
 */
module Escape {
  import opened Wrappers
  import opened Text
  import opened IdGenerator

  /** The values `escapeValue` accepts; `Other` is any input of another shape. */
  datatype Value =
    | Null
    | Bool(b: bool)
    | Num(n: int)
    | Str(s: string)
    | Arr(items: seq<Value>)
    | Literal(text: string)
    | Other

  /** `escapeValue` returns a string, or a number unchanged. */
  datatype Escaped = Txt(s: string) | Number(n: int)

  function DigitChar(d: nat): (c: char)
    requires d < 10
    ensures '0' <= c <= '9' && c as int - '0' as int == d
  {
    ('0' as int + d) as char
  }

  predicate AllDigits(s: string) {
    forall i :: 0 <= i < |s| ==> '0' <= s[i] <= '9'
  }

  /** The number a string of decimal digits denotes. */
  function DigitsValue(s: string): nat
    requires AllDigits(s)
  {
    if s == [] then 0 else 10 * DigitsValue(s[..|s| - 1]) + (s[|s| - 1] as int - '0' as int)
  }

  /** The text of an integer: decimal digits, after a minus sign for a negative one. */
  predicate IntText(s: string) {
    (|s| > 0 && AllDigits(s)) || (|s| > 1 && s[0] == '-' && AllDigits(s[1..]))
  }

  /** The integer an integer text denotes. */
  function ReadInt(s: string): int
    requires IntText(s)
  {
    if s[0] == '-' then -(DigitsValue(s[1..]) as int) else DigitsValue(s)
  }

  /** The decimal numeral of `n`: its digits, without leading zeros. */
  function NatToString(n: nat): (r: string)
    ensures |r| > 0 && AllDigits(r) && DigitsValue(r) == n
    ensures r[0] == '0' ==> r == "0"
  {
    if n < 10 then [DigitChar(n)]
    else
      var p := NatToString(n / 10);
      var r := p + [DigitChar(n % 10)];
      assert r[..|r| - 1] == p;
      r
  }

  /** `String(n)` for an integer `n`: the text reads back as `n`. */
  function IntToString(n: int): (r: string)
    ensures IntText(r) && ReadInt(r) == n
    ensures r[0] == '-' <==> n < 0
    ensures forall i :: 0 <= i < |r| ==> r[i] == '-' || '0' <= r[i] <= '9'
  {
    if n < 0 then
      var p := NatToString(-n);
      assert ("-" + p)[1..] == p;
      "-" + p
    else NatToString(n)
  }

  /** `String(escapeValue(v))` */
  function ToText(e: Escaped): (r: string)
    ensures e.Txt? ==> r == e.s
    ensures e.Number? ==> IntText(r) && ReadInt(r) == e.n
  {
    match e
    case Txt(s) => s
    case Number(n) => IntToString(n)
  }

  /** The dollar-quote delimiter built from a generator token. */
  function Delimiter(token: string): string {
    "$pg" + token + "$"
  }

  /** The token the k-th generator call returns, with the default alphabet. */
  function Candidate(k: nat): string {
    Token(DefaultAlphabet, k)
  }

  /** The first candidate token is `a`. */
  lemma FirstCandidate()
    ensures Candidate(0) == "a" && Delimiter(Candidate(0)) == "$pga$"
  {
    SmallNumeral(1, |DefaultAlphabet|);
    assert Delimiter("a") == "$pga$";
  }

  /** Beyond this many calls the tokens are longer than `s`, so no delimiter can occur in it. */
  function SearchBound(s: string): nat {
    Pow(|DefaultAlphabet| + 1, |s|)
  }

  lemma CandidateLength(s: string, k: nat)
    ensures k >= SearchBound(s) ==> |Delimiter(Candidate(k))| > |s| + 1
  {
    if k >= SearchBound(s) {
      NumeralLengthBound(k + 1, |DefaultAlphabet|, |s|);
    }
  }

  /**
   * The loop of `escapeValue` as written: the first generator index from `k`
   * on whose delimiter does not occur in `s`.
   */
  function FirstFreeIndex(s: string, k: nat): (r: nat)
    ensures k <= r && !Contains(s, Delimiter(Candidate(r)))
    ensures forall j :: k <= j < r ==> Contains(s, Delimiter(Candidate(j)))
    decreases if k <= SearchBound(s) then SearchBound(s) - k else 0
  {
    if !Contains(s, Delimiter(Candidate(k))) then k
    else
      CandidateLength(s, k);
      FirstFreeIndex(s, k + 1)
  }

  /**
   * The string branch of `escapeValue` as written: the payload between two
   * copies of the first generator delimiter that does not occur in it.
   */
  function DollarQuoteAsWritten(s: string): (r: string)
    ensures exists k: nat ::
      && r == Delimiter(Candidate(k)) + s + Delimiter(Candidate(k))
      && !Contains(s, Delimiter(Candidate(k)))
      && forall j :: 0 <= j < k ==> Contains(s, Delimiter(Candidate(j)))
  {
    var d := Delimiter(Candidate(FirstFreeIndex(s, 0)));
    d + s + d
  }

  /** The string branch of `escapeValue`: a fresh generator, advanced until its delimiter does not occur in `val`. */
  method QuoteString(val: string) returns (r: string)
    ensures r == DollarQuoteAsWritten(val)
  {
    var ids := new StringIdGenerator();
    var index := ids.Next();
    var dollars := Delimiter(index);
    while Contains(val, dollars)
      invariant fresh(ids) && ids.Valid() && ids.chars == DefaultAlphabet
      invariant 1 <= ids.count <= SearchBound(val) + 1
      invariant dollars == Delimiter(Candidate(ids.count - 1))
      invariant FirstFreeIndex(val, ids.count - 1) == FirstFreeIndex(val, 0)
      decreases SearchBound(val) + 1 - ids.count
    {
      CandidateLength(val, ids.count - 1);
      index := ids.Next();
      dollars := Delimiter(index);
    }
    r := dollars + val + dollars;
  }

  /**
   * The corrected search: a delimiter is refused when it occurs in `s + "$"`,
   * that is in the payload or straddling the payload's end and the closing
   * delimiter.
   */
  function FirstSafeIndex(s: string, k: nat): (r: nat)
    ensures k <= r && !Contains(s + "$", Delimiter(Candidate(r)))
    ensures forall j :: k <= j < r ==> Contains(s + "$", Delimiter(Candidate(j)))
    decreases if k <= SearchBound(s) then SearchBound(s) - k else 0
  {
    if !Contains(s + "$", Delimiter(Candidate(k))) then k
    else
      CandidateLength(s, k);
      FirstSafeIndex(s, k + 1)
  }

  /** The delimiter chosen for `s`. */
  function DelimiterFor(s: string): string {
    Delimiter(Candidate(FirstSafeIndex(s, 0)))
  }

  /**
   * Dollar-quotes `s` between two copies of the first generator delimiter
   * that occurs neither in `s` nor across its end.
   */
  function DollarQuote(s: string): (r: string)
    ensures exists k: nat ::
      && r == Delimiter(Candidate(k)) + s + Delimiter(Candidate(k))
      && !Contains(s + "$", Delimiter(Candidate(k)))
      && forall j :: 0 <= j < k ==> Contains(s + "$", Delimiter(Candidate(j)))
  {
    DelimiterFor(s) + s + DelimiterFor(s)
  }

  /** PostgreSQL's tag rule: letters, digits and underscores, not starting with a digit. */
  predicate ValidTag(tag: string) {
    (forall i :: 0 <= i < |tag| ==> 'a' <= tag[i] <= 'z' || 'A' <= tag[i] <= 'Z' || '0' <= tag[i] <= '9' || tag[i] == '_')
    && (|tag| > 0 ==> !('0' <= tag[0] <= '9'))
  }

  /**
   * How PostgreSQL reads a dollar-quoted constant at the start of `r`: the
   * opening `$tag$`, then the body up to the first occurrence of the same
   * delimiter. Gives the body and the text after the closing delimiter.
   */
  function ReadDollarQuoted(r: string): Option<(string, string)> {
    if |r| == 0 || r[0] != '$' then None
    else
      var close := IndexOf(r[1..], "$");
      if close < 0 then None
      else if !ValidTag(r[1..close + 1]) then None
      else
        var d := r[..close + 2];
        var rest := r[close + 2..];
        var end := IndexOf(rest, d);
        if end < 0 then None else Some((rest[..end], rest[end + |d|..]))
  }

  /** A delimiter holds `$` only at its two ends. */
  lemma DelimiterDollars(k: nat)
    ensures var d := Delimiter(Candidate(k));
      |d| >= 5 && d[0] == '$' && d[|d| - 1] == '$' && forall i :: 0 < i < |d| - 1 ==> d[i] != '$'
    ensures ValidTag("pg" + Candidate(k))
  {
    var t := Candidate(k);
    assert forall i :: 0 <= i < |t| ==> 'a' <= t[i] <= 'z';
    CandidateTag(k);
    assert |Numeral(k + 1, |DefaultAlphabet|)| > 0 by {
      NextNumeralValue(Numeral(k, |DefaultAlphabet|), |DefaultAlphabet|);
    }
  }

  lemma CandidateTag(k: nat)
    ensures ValidTag("pg" + Candidate(k))
  {
    var t := Candidate(k);
    forall i | 0 <= i < |t|
      ensures 'a' <= t[i] <= 'z'
    {
      AlphabetLetter(t[i]);
    }
    LetterTag(t);
  }

  lemma AlphabetLetter(c: char)
    requires c in DefaultAlphabet
    ensures 'a' <= c <= 'z'
  {
    var j :| 0 <= j < |DefaultAlphabet| && DefaultAlphabet[j] == c;
  }

  lemma LetterTag(t: string)
    requires forall i :: 0 <= i < |t| ==> 'a' <= t[i] <= 'z'
    ensures ValidTag("pg" + t)
  {
    var tag := "pg" + t;
    forall i | 2 <= i < |tag|
      ensures 'a' <= tag[i] <= 'z'
    {
      assert tag[i] == t[i - 2];
    }
  }

  /** With the safe delimiter, the first occurrence of `d` in `s + d` is the appended one. */
  lemma {:induction false} ClosingDelimiterFirst(s: string, k: nat)
    requires !Contains(s + "$", Delimiter(Candidate(k)))
    ensures IndexOf(s + Delimiter(Candidate(k)), Delimiter(Candidate(k))) == |s|
  {
    var d := Delimiter(Candidate(k));
    var u := s + d;
    DelimiterDollars(k);
    assert u[|s|..|s| + |d|] == d;
    forall j: nat | j < |s|
      ensures !OccursAt(u, d, j)
    {
      EarlyOccurrence(s, d, j);
    }
    IndexOfIs(u, d, |s|);
  }

  /**
   * An occurrence of a delimiter in `s + d` that starts inside `s` is also an
   * occurrence in `s + "$"`: it lies inside `s`, or it ends on the first `$`
   * of the appended copy.
   */
  lemma EarlyOccurrence(s: string, d: string, j: nat)
    requires |d| >= 2 && d[0] == '$' && d[|d| - 1] == '$' && forall i :: 0 < i < |d| - 1 ==> d[i] != '$'
    requires j < |s|
    ensures OccursAt(s + d, d, j) ==> OccursAt(s + "$", d, j)
  {
    var u := s + d;
    if OccursAt(u, d, j) {
      if j + |d| <= |s| {
        assert (s + "$")[j..j + |d|] == s[j..j + |d|] == u[j..j + |d|];
      } else {
        var m := |s| - j;
        var x := |d| - 1 - m;
        assert u[j + |d| - 1] == d[|d| - 1] == '$';
        assert u[j + |d| - 1] == d[x];
        assert x == 0;
        var a, b := (s + "$")[j..j + |d|], u[j..j + |d|];
        assert a == b by {
          forall i | 0 <= i < |d|
            ensures a[i] == b[i]
          {
            if j + i == |s| {
              assert u[j + i] == d[0];
            }
          }
        }
      }
    }
  }

  lemma DelimiterTag(t: string)
    ensures Delimiter(t) == "$" + ("pg" + t) + "$"
  {
    assert "$pg" == "$" + "pg";
  }

  /** The opening delimiter's closing `$` is the first `$` after the opening one. */
  lemma TagClose(tag: string, rest: string)
    requires ValidTag(tag)
    ensures IndexOf(("$" + tag + "$" + rest)[1..], "$") == |tag|
  {
    var after := ("$" + tag + "$" + rest)[1..];
    assert after == tag + ("$" + rest);
    forall j: nat | j < |tag|
      ensures !OccursAt(after, "$", j)
    {
      assert after[j] == tag[j] != '$';
    }
    assert after[|tag|..|tag| + 1] == "$";
    IndexOfIs(after, "$", |tag|);
  }

  /** PostgreSQL reads a text opening with a delimiter `$tag$` up to that delimiter's first reappearance. */
  lemma ReadTagged(tag: string, rest: string)
    requires ValidTag(tag)
    ensures var d := "$" + tag + "$";
      var e := IndexOf(rest, d);
      ReadDollarQuoted(d + rest) == if e < 0 then None else Some((rest[..e], rest[e + |d|..]))
  {
    var d := "$" + tag + "$";
    var r := d + rest;
    TagClose(tag, rest);
    assert r[1..|tag| + 1] == tag;
    assert r[..|tag| + 2] == d;
    assert r[|tag| + 2..] == rest;
  }

  /** What PostgreSQL reads back from `DollarQuote(s)` is exactly `s`, with nothing left over. */
  lemma DollarQuoteRoundTrip(s: string)
    ensures ReadDollarQuoted(DollarQuote(s)) == Some((s, ""))
  {
    var k := FirstSafeIndex(s, 0);
    assert DelimiterFor(s) == Delimiter(Candidate(k));
    ClosingDelimiterFirst(s, k);
    CandidateTag(k);
    DelimiterTag(Candidate(k));
    ReadBack("pg" + Candidate(k), s);
  }

  /** A payload whose first delimiter occurrence is the closing one is read back whole. */
  lemma ReadBack(tag: string, s: string)
    requires ValidTag(tag)
    requires IndexOf(s + ("$" + tag + "$"), "$" + tag + "$") == |s|
    ensures var d := "$" + tag + "$"; ReadDollarQuoted(d + s + d) == Some((s, ""))
  {
    var d := "$" + tag + "$";
    AppendAssoc(d, s, d);
    ReadTagged(tag, s + d);
    assert (s + d)[..|s|] == s;
    assert (s + d)[|s| + |d|..] == "";
  }

  /** The as-written quoting breaks for a payload ending in `$pga`: PostgreSQL reads an empty string and `pga$` after it. */
  lemma TrailingTagBreaksQuote()
    ensures DollarQuoteAsWritten("$pga") == "$pga$$pga$pga$"
    ensures ReadDollarQuoted(DollarQuoteAsWritten("$pga")) == Some(("", "pga$"))
  {
    TrailingTagQuote();
    TrailingTagRead();
  }

  lemma TrailingTagQuote()
    ensures DollarQuoteAsWritten("$pga") == "$pga$$pga$pga$"
  {
    FirstCandidate();
    assert !Contains("$pga", "$pga$");
    assert FirstFreeIndex("$pga", 0) == 0;
  }

  lemma TrailingTagRead()
    ensures ReadDollarQuoted("$pga$$pga$pga$") == Some(("", "pga$"))
  {
    var rest := "$pga$pga$";
    assert "$pga$$pga$pga$" == "$pga$" + rest;
    assert OccursAt(rest, "$pga$", 0);
    IndexOfIs(rest, "$pga$", 0);
    assert ValidTag("pga");
    assert "$" + "pga" + "$" == "$pga$";
    ReadTagged("pga", rest);
    assert rest[5..] == "pga$";
  }

  /** The first candidate, `$pga$`, is taken whenever it is free. */
  lemma FirstCandidateWhenFree(s: string)
    ensures !Contains(s, "$pga$") ==> DollarQuoteAsWritten(s) == "$pga$" + s + "$pga$"
    ensures !Contains(s + "$", "$pga$") ==> DollarQuote(s) == "$pga$" + s + "$pga$"
  {
    FirstCandidate();
  }

  /** For a payload without `$` the as-written and the corrected quoting agree. */
  lemma QuotesAgreeWithoutDollar(s: string)
    requires '$' !in s
    ensures DollarQuote(s) == DollarQuoteAsWritten(s) == "$pga$" + s + "$pga$"
  {
    FirstCandidate();
    MissingCharNotContained(s, "$pga$", '$');
    if Contains(s + "$", "$pga$") {
      var i: nat :| i <= |s + "$"| && OccursAt(s + "$", "$pga$", i);
      OccursAtChar(s + "$", "$pga$", i, 0);
      assert false;
    }
  }

  /**
   * The corrected quoting gives the as-written text exactly when the
   * as-written delimiter does not straddle the payload's end.
   */
  lemma QuotesAgreeExactly(s: string)
    ensures DollarQuote(s) == DollarQuoteAsWritten(s)
      <==> !Contains(s + "$", Delimiter(Candidate(FirstFreeIndex(s, 0))))
  {
    var d, d2 := Delimiter(Candidate(FirstFreeIndex(s, 0))), DelimiterFor(s);
    SameSearch(s);
    SameFrame(d, d2, s);
  }

  /** Where the as-written delimiter is also safe, the two searches stop at the same index. */
  lemma SameSearch(s: string)
    ensures !Contains(s + "$", Delimiter(Candidate(FirstFreeIndex(s, 0))))
      ==> FirstSafeIndex(s, 0) == FirstFreeIndex(s, 0)
    ensures Contains(s + "$", Delimiter(Candidate(FirstFreeIndex(s, 0))))
      ==> FirstSafeIndex(s, 0) != FirstFreeIndex(s, 0)
  {
    var k, k2 := FirstFreeIndex(s, 0), FirstSafeIndex(s, 0);
    ContainsExtend(s, "$", Delimiter(Candidate(k2)));
  }

  /** A text framed by two copies of a delimiter determines the delimiter. */
  lemma SameFrame(d: string, d2: string, s: string)
    ensures d + s + d == d2 + s + d2 <==> d == d2
  {
    if d + s + d == d2 + s + d2 {
      assert |d| == |d2|;
      assert d == (d + s + d)[..|d|];
      assert d2 == (d2 + s + d2)[..|d2|];
    }
  }

  /** The text `escapeValue` gives each element of an array, in order. */
  function ElementTexts(items: seq<Value>): (r: seq<string>)
    ensures |r| == |items|
    decreases items, 0
  {
    seq(|items|, i requires 0 <= i < |items| => ToText(EscapeValue(items[i])))
  }

  /**
   * `escapeValue`: `NULL`, `true`/`false`, numbers unchanged, strings
   * dollar-quoted, arrays as `ARRAY[...]` over the escaped elements with
   * every `ARRAY` removed from their joined text, literals verbatim, and the
   * empty string for anything else.
   */
  function EscapeValue(v: Value): (r: Escaped)
    ensures v.Null? ==> r == Txt("NULL")
    ensures v.Bool? ==> r == Txt(if v.b then "true" else "false")
    ensures v.Other? ==> r == Txt("")
    ensures r.Number? <==> v.Num?
    ensures v.Num? ==> r.n == v.n
    ensures v.Str? ==> ReadDollarQuoted(r.s) == Some((v.s, ""))
    ensures v.Str? ==> (r.s == DollarQuoteAsWritten(v.s) <==> !Contains(v.s + "$", Delimiter(Candidate(FirstFreeIndex(v.s, 0)))))
    ensures v.Literal? ==> r.s == v.text
    ensures v.Arr? ==> |r.s| >= 7 && r.s[..6] == "ARRAY[" && r.s[|r.s| - 1] == ']'
    decreases v, 1
  {
    match v
    case Null => Txt("NULL")
    case Bool(b) => Txt(if b then "true" else "false")
    case Str(s) => DollarQuoteRoundTrip(s); QuotesAgreeExactly(s); Txt(DollarQuote(s))
    case Num(n) => Number(n)
    case Arr(items) => Txt("ARRAY[" + RemoveAll(Join(ElementTexts(items), ","), "ARRAY") + "]")
    case Literal(t) => Txt(t)
    case Other => Txt("")
  }

  /** A value `escapeValue` renders without quoting. */
  predicate Scalar(v: Value) {
    v.Null? || v.Bool? || v.Num?
  }

  lemma ScalarText(v: Value)
    requires Scalar(v)
    ensures 'A' !in ToText(EscapeValue(v))
  {
    if v.Num? {
      var t := IntToString(v.n);
      assert forall j :: 0 <= j < |t| ==> t[j] == '-' || '0' <= t[j] <= '9';
    }
  }

  /** An array of nulls, booleans and numbers is its elements' texts joined by commas; the `ARRAY` removal has nothing to remove. */
  lemma ArrayOfScalars(items: seq<Value>)
    requires forall i :: 0 <= i < |items| ==> Scalar(items[i])
    ensures EscapeValue(Arr(items)) == Txt("ARRAY[" + Join(ElementTexts(items), ",") + "]")
  {
    var texts := ElementTexts(items);
    forall i | 0 <= i < |texts|
      ensures 'A' !in texts[i]
    {
      ScalarText(items[i]);
    }
    JoinFree(texts, ",", 'A');
    MissingCharNotContained(Join(texts, ","), "ARRAY", 'A');
  }

  /** Nested arrays render with PostgreSQL's inner-bracket syntax: `[[1, 2]]` gives `ARRAY[[1,2]]`. */
  lemma NestedArray()
    ensures EscapeValue(Arr([Arr([Num(1), Num(2)])])) == Txt("ARRAY[[1,2]]")
  {
    var inner := Arr([Num(1), Num(2)]);
    InnerArray();
    assert ToText(EscapeValue(inner)) == "ARRAY[1,2]";
    SingleArray(inner);
    StripInner();
    OuterBrackets();
  }

  lemma OuterBrackets()
    ensures "ARRAY[" + "[1,2]" + "]" == "ARRAY[[1,2]]"
  {
  }

  /** A one-element array is its element's text with `ARRAY` removed, in `ARRAY[...]`. */
  lemma SingleArray(v: Value)
    ensures EscapeValue(Arr([v])) == Txt("ARRAY[" + RemoveAll(ToText(EscapeValue(v)), "ARRAY") + "]")
  {
    assert ElementTexts([v]) == [ToText(EscapeValue(v))];
  }

  lemma InnerArray()
    ensures EscapeValue(Arr([Num(1), Num(2)])) == Txt("ARRAY[1,2]")
  {
    ArrayOfScalars([Num(1), Num(2)]);
    assert ElementTexts([Num(1), Num(2)]) == ["1", "2"];
    assert Join(["1", "2"], ",") == "1" + "," + "2";
  }

  lemma StripInner()
    ensures RemoveAll("ARRAY[1,2]", "ARRAY") == "[1,2]"
  {
    var t := "ARRAY[1,2]";
    assert t[..5] == "ARRAY";
    assert OccursAt(t, "ARRAY", 0);
    NotOccursAt(t, "ARRAY", 5, 0);
    assert ReplaceFrom(t, "ARRAY", "", 5) == "[" + ReplaceFrom(t, "ARRAY", "", 6) == "[1,2]";
    assert RemoveAll(t, "ARRAY") == "" + ReplaceFrom(t, "ARRAY", "", 5);
  }
}
