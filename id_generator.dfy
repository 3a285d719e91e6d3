/**
 * The unique-token generator: a counter over an alphabet whose successive
 * tokens are all strings over the alphabet in shortlex order (`a` … `z`,
 * `aa`, `ab`, …). Its abstract meaning is the bijective base-b numeral: the
 * k-th token (counting from 0) spells the numeral of k + 1.
 */
module IdGenerator {

  const DefaultAlphabet: string := "abcdefghijklmnopqrstuvwxyz"

  /** Digit sequences with every digit below `b`. */
  predicate Digits(ds: seq<nat>, b: nat) {
    forall i :: 0 <= i < |ds| ==> ds[i] < b
  }

  /**
   * One step of the carry: add one to the last digit, resetting overflowing
   * digits to 0 and prepending a 0 when every digit overflows.
   */
  function NextNumeral(ds: seq<nat>, b: nat): (r: seq<nat>)
    requires b > 0 && Digits(ds, b)
    ensures Digits(r, b) && r != []
    ensures |r| == |ds| || |r| == |ds| + 1
  {
    if ds == [] then [0]
    else if ds[|ds| - 1] + 1 < b then ds[..|ds| - 1] + [ds[|ds| - 1] + 1]
    else NextNumeral(ds[..|ds| - 1], b) + [0]
  }

  /** The m-th digit sequence in shortlex order: the bijective base-`b` numeral of `m`, most significant digit first. */
  function Numeral(m: nat, b: nat): (ds: seq<nat>)
    requires b > 0
    ensures Digits(ds, b)
  {
    if m == 0 then [] else NextNumeral(Numeral(m - 1, b), b)
  }

  /** The number a bijective base-`b` numeral denotes. */
  function ValueOf(ds: seq<nat>, b: nat): nat {
    if ds == [] then 0 else ValueOf(ds[..|ds| - 1], b) * b + ds[|ds| - 1] + 1
  }

  /** The characters a digit sequence spells over `chars`. */
  function Spell(chars: string, ds: seq<nat>): (s: string)
    requires Digits(ds, |chars|)
    ensures |s| == |ds| && forall i :: 0 <= i < |s| ==> s[i] in chars
  {
    seq(|ds|, i requires 0 <= i < |ds| => chars[ds[i]])
  }

  /** The token the k-th call of `next()` returns (counting from 0). */
  function Token(chars: string, k: nat): string
    requires |chars| > 0
  {
    Spell(chars, Numeral(k + 1, |chars|))
  }

  function Pow(b: nat, n: nat): (p: nat)
    ensures b > 0 ==> p >= 1
  {
    if n == 0 then 1 else b * Pow(b, n - 1)
  }

  lemma MulLeft(a: nat, c: nat, b: nat)
    requires a <= c
    ensures a * b <= c * b
  {
  }

  /** The carry step is the successor on values: it adds one to the number a numeral denotes. */
  lemma {:induction false} NextNumeralValue(ds: seq<nat>, b: nat)
    requires b > 0 && Digits(ds, b)
    ensures ValueOf(NextNumeral(ds, b), b) == ValueOf(ds, b) + 1
  {
    if ds != [] {
      var p, d := ds[..|ds| - 1], ds[|ds| - 1];
      var vp := ValueOf(p, b);
      assert ValueOf(ds, b) == vp * b + d + 1;
      var r := NextNumeral(ds, b);
      if d + 1 < b {
        assert r == p + [d + 1];
        assert r[..|r| - 1] == p;
        assert ValueOf(r, b) == vp * b + (d + 1) + 1;
      } else {
        var np := NextNumeral(p, b);
        assert r == np + [0];
        assert r[..|r| - 1] == np;
        NextNumeralValue(p, b);
        assert ValueOf(r, b) == (vp + 1) * b + 1;
        Distribute(vp, b);
      }
    }
  }

  lemma Distribute(x: nat, b: nat)
    ensures (x + 1) * b == x * b + b
  {
  }

  /** Reading a numeral gives back the number: `ValueOf(Numeral(m)) == m`. */
  lemma {:induction false} ValueOfNumeral(m: nat, b: nat)
    requires b > 0
    ensures ValueOf(Numeral(m, b), b) == m
  {
    if m > 0 {
      ValueOfNumeral(m - 1, b);
      NextNumeralValue(Numeral(m - 1, b), b);
    }
  }

  /** The last digit and the rest of a numeral are determined by its value. */
  lemma SameDigits(vp: nat, d: nat, vq: nat, e: nat, b: nat)
    requires d < b && e < b && vp * b + d == vq * b + e
    ensures vp == vq && d == e
  {
    if vp < vq {
      MulLeft(vp + 1, vq, b);
      Distribute(vp, b);
    } else if vq < vp {
      MulLeft(vq + 1, vp, b);
      Distribute(vq, b);
    }
  }

  /** Distinct digit sequences denote distinct numbers. */
  lemma {:induction false} ValueOfInjective(ds: seq<nat>, es: seq<nat>, b: nat)
    requires b > 0 && Digits(ds, b) && Digits(es, b) && ValueOf(ds, b) == ValueOf(es, b)
    ensures ds == es
  {
    if ds != [] && es != [] {
      var p, d := ds[..|ds| - 1], ds[|ds| - 1];
      var q, e := es[..|es| - 1], es[|es| - 1];
      assert ds == p + [d] && es == q + [e];
      SameDigits(ValueOf(p, b), d, ValueOf(q, b), e, b);
      ValueOfInjective(p, q, b);
      assert ds == p + [d] && es == q + [e];
    }
  }

  /** Every digit sequence is a numeral, `Numeral(ValueOf(ds)) == ds`: the tokens reach every string over the alphabet. */
  lemma NumeralOfValue(ds: seq<nat>, b: nat)
    requires b > 0 && Digits(ds, b)
    ensures Numeral(ValueOf(ds, b), b) == ds
  {
    ValueOfNumeral(ValueOf(ds, b), b);
    ValueOfInjective(Numeral(ValueOf(ds, b), b), ds, b);
  }

  /** Distinct calls give distinct tokens: the numeral is injective. */
  lemma NumeralInjective(m: nat, n: nat, b: nat)
    requires b > 0 && Numeral(m, b) == Numeral(n, b)
    ensures m == n
  {
    ValueOfNumeral(m, b);
    ValueOfNumeral(n, b);
  }

  /** The carry step adds one digit exactly when every digit is at its maximum, and keeps the length otherwise. */
  lemma {:induction false} NextNumeralLength(ds: seq<nat>, b: nat)
    requires b > 0 && Digits(ds, b)
    ensures (forall i :: 0 <= i < |ds| ==> ds[i] == b - 1) ==> |NextNumeral(ds, b)| == |ds| + 1
    ensures !(forall i :: 0 <= i < |ds| ==> ds[i] == b - 1) ==> |NextNumeral(ds, b)| == |ds|
  {
    if ds != [] && ds[|ds| - 1] + 1 >= b {
      var p := ds[..|ds| - 1];
      NextNumeralLength(p, b);
      if !(forall i :: 0 <= i < |p| ==> p[i] == b - 1) {
        var i :| 0 <= i < |p| && p[i] != b - 1;
        assert ds[i] != b - 1;
      }
    }
  }

  /** `a` precedes `c` in shortlex order: shorter first, then lexicographically by digit. */
  predicate ShortlexBefore(a: seq<nat>, c: seq<nat>) {
    |a| < |c| ||
    (|a| == |c| && exists i :: 0 <= i < |a| && a[..i] == c[..i] && a[i] < c[i])
  }

  /** The carry step moves forward in shortlex order. */
  lemma {:induction false} NextNumeralAdvances(ds: seq<nat>, b: nat)
    requires b > 0 && Digits(ds, b)
    ensures ShortlexBefore(ds, NextNumeral(ds, b))
  {
    var n := NextNumeral(ds, b);
    if ds != [] {
      var p := ds[..|ds| - 1];
      if ds[|ds| - 1] + 1 < b {
        assert ds[..|p|] == n[..|p|];
      } else {
        NextNumeralAdvances(p, b);
        var np := NextNumeral(p, b);
        if |p| == |np| {
          var i :| 0 <= i < |p| && p[..i] == np[..i] && p[i] < np[i];
          assert ds[..i] == p[..i] && n[..i] == np[..i];
        }
      }
    }
  }

  /** Token k + 1 follows token k in shortlex order (compared by digit positions in the alphabet). */
  lemma TokensAdvance(k: nat, b: nat)
    requires b > 0
    ensures ShortlexBefore(Numeral(k + 1, b), Numeral(k + 2, b))
  {
    NextNumeralAdvances(Numeral(k + 1, b), b);
  }

  /** A numeral of `n` digits denotes less than `(b + 1)^n`. */
  lemma {:induction false} ValueOfBound(ds: seq<nat>, b: nat)
    requires b > 0 && Digits(ds, b)
    ensures ValueOf(ds, b) < Pow(b + 1, |ds|)
  {
    if ds != [] {
      var p, d := ds[..|ds| - 1], ds[|ds| - 1];
      var vp := ValueOf(p, b);
      ValueOfBound(p, b);
      var P := Pow(b + 1, |p|);
      assert ValueOf(ds, b) == vp * b + d + 1;
      assert ValueOf(ds, b) <= (vp + 1) * b by { Distribute(vp, b); }
      MulLeft(vp + 1, P, b);
      assert Pow(b + 1, |ds|) == (b + 1) * P;
      Distribute(b, P);
      assert (b + 1) * P == P * b + P;
    }
  }

  lemma {:induction false} PowMonotone(b: nat, i: nat, j: nat)
    requires b > 0 && i <= j
    ensures Pow(b, i) <= Pow(b, j)
    decreases j
  {
    if i < j {
      PowMonotone(b, i, j - 1);
      MulLeft(1, b, Pow(b, j - 1));
    }
  }

  /** Numerals of large numbers are long: `m >= (b + 1)^n` gives at least `n` digits. */
  lemma NumeralLengthBound(m: nat, b: nat, n: nat)
    requires b > 0 && m >= Pow(b + 1, n)
    ensures |Numeral(m, b)| >= n
  {
    var ds := Numeral(m, b);
    ValueOfNumeral(m, b);
    ValueOfBound(ds, b);
    if |ds| < n {
      PowMonotone(b + 1, |ds|, n);
    }
  }

  /** The first `b` numerals have one digit each: `Numeral(m) == [m - 1]`. */
  lemma {:induction false} SmallNumeral(m: nat, b: nat)
    requires 1 <= m <= b
    ensures Numeral(m, b) == [m - 1]
  {
    if m > 1 {
      SmallNumeral(m - 1, b);
      assert NextNumeral([m - 2], b) == [] + [m - 1];
    }
  }

  /**
   * The tokens start with the first character of the alphabet, run through
   * the single characters in alphabet order, and after the last one continue
   * with two copies of the first (with `a`–`z`: `a`, …, `z`, `aa`, `ab`).
   */
  lemma FirstTokens(chars: string, k: nat)
    requires |chars| > 0 && k < |chars|
    ensures Token(chars, k) == [chars[k]]
    ensures Token(chars, |chars|) == [chars[0], chars[0]]
    ensures |chars| > 1 ==> Token(chars, |chars| + 1) == [chars[0], chars[1]]
  {
    var b := |chars|;
    SmallNumeral(k + 1, b);
    SmallNumeral(b, b);
    assert NextNumeral([b - 1], b) == NextNumeral([], b) + [0];
    assert Numeral(b + 1, b) == [0, 0];
    if b > 1 {
      assert NextNumeral([0, 0], b) == [0] + [1];
    }
  }

  /** The generator of `StringIdGenerator`: digit slots over `chars`, advanced with carry after each read. */
  class StringIdGenerator {
    var ids: seq<nat>
    const chars: string
    /** How many tokens `Next` has returned so far. */
    ghost var count: nat

    ghost predicate Valid()
      reads this
      ensures Valid() ==> ids != [] && Digits(ids, |chars|)
    {
      |chars| > 0 && ids == Numeral(count + 1, |chars|)
    }

    constructor (chars: string := DefaultAlphabet)
      requires |chars| > 0
      ensures Valid() && this.chars == chars && count == 0 && ids == [0]
    {
      this.chars := chars;
      ids := [0];
      count := 0;
    }

    /** Reads the slots as a token, then advances the counter. */
    method Next() returns (token: string)
      requires Valid()
      modifies this
      ensures Valid() && count == old(count) + 1
      ensures token == Token(chars, old(count))
    {
      var slots := ids;
      token := seq(|slots|, i requires 0 <= i < |slots| => chars[slots[i]]);
      Increment();
      count := count + 1;
    }

    /** Adds one to the last slot, carrying leftwards; prepends a slot when the first one overflows. */
    method Increment()
      requires |chars| > 0 && Digits(ids, |chars|)
      modifies this`ids
      ensures ids == NextNumeral(old(ids), |chars|)
    {
      var i := |ids| - 1;
      assert ids[..i + 1] == ids && ids[i + 1..] == [];
      while i >= 0
        invariant -1 <= i < |ids| && |ids| == |old(ids)|
        invariant ids[..i + 1] == old(ids)[..i + 1]
        invariant NextNumeral(old(ids), |chars|) == NextNumeral(ids[..i + 1], |chars|) + ids[i + 1..]
      {
        ids := ids[i := ids[i] + 1];
        if ids[i] < |chars| {
          assert ids[..i + 1] == old(ids)[..i] + [old(ids)[i] + 1];
          assert NextNumeral(old(ids)[..i + 1], |chars|) == old(ids)[..i] + [old(ids)[i] + 1];
          return;
        }
        ids := ids[i := 0];
        assert old(ids)[..i + 1][..i] == ids[..i];
        assert ids[i..] == [0] + ids[i + 1..];
        i := i - 1;
      }
      ids := [0] + ids;
    }
  }
}
