/** The pool's value function `k = Π b[t] ** w[t]` over its tokens, and the laws of
    real exponentiation the proofs about it rely on. Python's `**` on floats is not
    definable here, so it is a parameter `pow`, and each lemma names the laws of real
    exponentiation it uses. The laws that relate several powers are triggered only
    by terms for all of those powers, so that they never build new powers on their
    own; a proof calls the lemma that names the instance it needs. The product itself is a fold of a multiplication passed as a value:
    its laws are proved once for any associative, commutative operation with a unit,
    and `Times`, real multiplication, is the one the value function uses. */
module ValueFunction {
  import opened Amounts

  /** Real multiplication. */
  const Times: (real, real) -> real := (x: real, y: real) => x * y

  /** A positive base gives a positive power. */
  ghost predicate PowPositive(pow: (real, real) -> real) {
    forall x, e :: 0.0 < x ==> 0.0 < pow(x, e)
  }

  /** A base in (0, 1] raised to a positive exponent stays at most 1. */
  ghost predicate PowAtMostOne(pow: (real, real) -> real) {
    forall x, e :: 0.0 < x <= 1.0 && 0.0 < e ==> pow(x, e) <= 1.0
  }

  /** `(x*y)**e == x**e * y**e` for positive bases (the product written `Times(x, y)`
      so that the law fires only where a proof names that product). */
  ghost predicate PowMultiplicative(pow: (real, real) -> real) {
    forall x, y, e :: 0.0 < x && 0.0 < y ==> pow(Times(x, y), e) == pow(x, e) * pow(y, e)
  }

  /** `(x**e)**f == x**(e*f)` for a positive base. */
  ghost predicate PowComposes(pow: (real, real) -> real) {
    forall x, e, f, g {:trigger pow(pow(x, e), f), pow(x, g)} ::
      0.0 < x && g == e * f ==> pow(pow(x, e), f) == pow(x, g)
  }

  /** `x**(e+f) == x**e * x**f` and `x**0 == 1` for a positive base. */
  ghost predicate PowExponentAdds(pow: (real, real) -> real) {
    && (forall x, e, f, g {:trigger pow(x, g), pow(x, e), pow(x, f)} ::
          0.0 < x && g == e + f ==> pow(x, g) == pow(x, e) * pow(x, f))
    && (forall x :: 0.0 < x ==> pow(x, 0.0) == 1.0)
  }

  /** `x**1 == x`. */
  ghost predicate PowIdentity(pow: (real, real) -> real) {
    forall x :: 0.0 < x ==> pow(x, 1.0) == x
  }

  /** A larger positive base gives a larger power under a positive exponent. */
  ghost predicate PowMonotone(pow: (real, real) -> real) {
    forall x, y, e :: 0.0 < x < y && 0.0 < e ==> pow(x, e) < pow(y, e)
  }

  /** `1**e == 1`. */
  ghost predicate PowOneBase(pow: (real, real) -> real) {
    forall e :: pow(1.0, e) == 1.0
  }

  /** `0**e == 0` for a positive exponent, as Python's float `**` gives. */
  ghost predicate PowZeroBase(pow: (real, real) -> real) {
    forall e :: 0.0 < e ==> pow(0.0, e) == 0.0
  }

  /** An associative, commutative multiplication with unit `one`. Each law is
      triggered only by terms for both of its sides, so that the laws never build new
      products on their own; a proof names the two sides it needs. */
  ghost predicate ProductLaws(mul: (real, real) -> real, one: real) {
    && (forall x, y, z {:trigger mul(mul(x, y), z), mul(x, mul(y, z))} :: mul(mul(x, y), z) == mul(x, mul(y, z)))
    && (forall x, y {:trigger mul(x, y), mul(y, x)} :: mul(x, y) == mul(y, x))
    && (forall x :: mul(one, x) == x)
    && (forall x :: mul(x, one) == x)
  }

  lemma TimesLaws()
    ensures ProductLaws(Times, 1.0)
  {
  }

  /** `one`, then each entry of `s` multiplied in from the left to the right. */
  function Fold(s: seq<real>, mul: (real, real) -> real, one: real): real {
    if s == [] then one else mul(Fold(s[..|s| - 1], mul, one), s[|s| - 1])
  }

  lemma FoldSnoc(s: seq<real>, x: real, mul: (real, real) -> real, one: real)
    ensures Fold(s + [x], mul, one) == mul(Fold(s, mul, one), x)
  {
    assert (s + [x])[..|s + [x]| - 1] == s;
  }

  /** The product of a concatenation is the product of the two products. */
  lemma {:induction false} FoldAppend(a: seq<real>, c: seq<real>, mul: (real, real) -> real, one: real)
    requires ProductLaws(mul, one)
    ensures Fold(a + c, mul, one) == mul(Fold(a, mul, one), Fold(c, mul, one))
  {
    if c == [] {
      assert a + c == a;
      assert mul(Fold(a, mul, one), one) == mul(one, Fold(a, mul, one));
    } else {
      var c0, l := c[..|c| - 1], c[|c| - 1];
      assert a + c == (a + c0) + [l];
      assert c == c0 + [l];
      FoldAppend(a, c0, mul, one);
      FoldSnoc(a + c0, l, mul, one);
      FoldSnoc(c0, l, mul, one);
    }
  }

  /** One entry can be pulled out of the product, wherever it stands. */
  lemma FoldSplit(a: seq<real>, x: real, c: seq<real>, mul: (real, real) -> real, one: real)
    requires ProductLaws(mul, one)
    ensures Fold(a + [x] + c, mul, one) == mul(x, Fold(a + c, mul, one))
  {
    FoldAppend(a + [x], c, mul, one);
    FoldSnoc(a, x, mul, one);
    FoldAppend(a, c, mul, one);
    var pa, pc := Fold(a, mul, one), Fold(c, mul, one);
    assert mul(mul(pa, x), pc) == mul(mul(x, pa), pc);
  }

  /** `s` with entries `i` and `j` taken out. */
  function DropTwo(s: seq<real>, i: nat, j: nat): seq<real>
    requires i < j < |s|
  {
    s[..i] + s[i + 1..j] + s[j + 1..]
  }

  lemma DropTwoShape(s: seq<real>, i: nat, j: nat)
    requires i < j < |s|
    ensures s == s[..i] + [s[i]] + (s[i + 1..j] + [s[j]] + s[j + 1..])
    ensures s[..i] + (s[i + 1..j] + [s[j]] + s[j + 1..]) == (s[..i] + s[i + 1..j]) + [s[j]] + s[j + 1..]
    ensures DropTwo(s, i, j) == (s[..i] + s[i + 1..j]) + s[j + 1..]
  {
  }

  /** Two entries can be pulled out of the product together. */
  lemma FoldTwoOut(s: seq<real>, i: nat, j: nat, mul: (real, real) -> real, one: real)
    requires ProductLaws(mul, one)
    requires i < j < |s|
    ensures Fold(s, mul, one) == mul(mul(s[i], s[j]), Fold(DropTwo(s, i, j), mul, one))
  {
    var a, m, c := s[..i], s[i + 1..j], s[j + 1..];
    DropTwoShape(s, i, j);
    FoldSplit(a, s[i], m + [s[j]] + c, mul, one);
    FoldSplit(a + m, s[j], c, mul, one);
  }

  /** Changing two entries leaves the product alone when their product is unchanged. */
  lemma FoldTwoChanged(s: seq<real>, u: seq<real>, i: nat, j: nat, mul: (real, real) -> real, one: real)
    requires ProductLaws(mul, one)
    requires |s| == |u| && i < j < |s|
    requires forall k :: 0 <= k < |s| && k != i && k != j ==> s[k] == u[k]
    requires mul(s[i], s[j]) == mul(u[i], u[j])
    ensures Fold(s, mul, one) == Fold(u, mul, one)
  {
    FoldTwoOut(s, i, j, mul, one);
    FoldTwoOut(u, i, j, mul, one);
    DropTwoSame(s, u, i, j);
  }

  lemma DropTwoSame(s: seq<real>, u: seq<real>, i: nat, j: nat)
    requires |s| == |u| && i < j < |s|
    requires forall k :: 0 <= k < |s| && k != i && k != j ==> s[k] == u[k]
    ensures DropTwo(s, i, j) == DropTwo(u, i, j)
  {
    assert s[..i] == u[..i];
    assert s[i + 1..j] == u[i + 1..j];
    assert s[j + 1..] == u[j + 1..];
  }

  /** The product of entrywise products is the product of the two products. */
  lemma {:induction false} FoldPointwise(s: seq<real>, t: seq<real>, u: seq<real>, mul: (real, real) -> real, one: real)
    requires ProductLaws(mul, one)
    requires |s| == |t| == |u|
    requires forall k :: 0 <= k < |u| ==> u[k] == mul(s[k], t[k])
    ensures Fold(u, mul, one) == mul(Fold(s, mul, one), Fold(t, mul, one))
  {
    if u != [] {
      var n := |u| - 1;
      FoldPointwise(s[..n], t[..n], u[..n], mul, one);
      var ps, pt := Fold(s[..n], mul, one), Fold(t[..n], mul, one);
      Regroup(ps, pt, s[n], t[n], mul, one);
    }
  }

  /** `FoldPointwise` for real multiplication. */
  lemma ProductOfProducts(s: seq<real>, t: seq<real>, u: seq<real>)
    requires |s| == |t| == |u|
    requires forall k :: 0 <= k < |u| ==> u[k] == Times(s[k], t[k])
    ensures Fold(u, Times, 1.0) == Times(Fold(s, Times, 1.0), Fold(t, Times, 1.0))
  {
    TimesLaws();
    FoldPointwise(s, t, u, Times, 1.0);
  }

  lemma TimesApplied(x: real, y: real)
    ensures Times(x, y) == x * y
  {
  }

  lemma Regroup(a: real, b: real, c: real, d: real, mul: (real, real) -> real, one: real)
    requires ProductLaws(mul, one)
    ensures mul(mul(a, b), mul(c, d)) == mul(mul(a, c), mul(b, d))
  {
    calc {
      mul(mul(a, b), mul(c, d));
      { Assoc(a, b, mul(c, d), mul, one); }
      mul(a, mul(b, mul(c, d)));
      { Assoc(b, c, d, mul, one); Comm(b, c, mul, one); Assoc(c, b, d, mul, one); }
      mul(a, mul(c, mul(b, d)));
      { Assoc(a, c, mul(b, d), mul, one); }
      mul(mul(a, c), mul(b, d));
    }
  }

  lemma Assoc(x: real, y: real, z: real, mul: (real, real) -> real, one: real)
    requires ProductLaws(mul, one)
    ensures mul(mul(x, y), z) == mul(x, mul(y, z))
  {
  }

  lemma Comm(x: real, y: real, mul: (real, real) -> real, one: real)
    requires ProductLaws(mul, one)
    ensures mul(x, y) == mul(y, x)
  {
  }

  /** `[b[t] ** w[t] for t in ts]`. */
  function Factors(ts: seq<Token>, b: map<Token, real>, w: map<Token, real>, pow: (real, real) -> real): (r: seq<real>)
    requires forall t :: t in ts ==> t in b && t in w
    ensures |r| == |ts| && forall k :: 0 <= k < |ts| ==> r[k] == pow(b[ts[k]], w[ts[k]])
  {
    seq(|ts|, k requires 0 <= k < |ts| => pow(b[ts[k]], w[ts[k]]))
  }

  /** `Π b[t] ** w[t]` over `ts`, multiplied from left to right starting at 1: positive
      when every balance is. */
  function Value(ts: seq<Token>, b: map<Token, real>, w: map<Token, real>, pow: (real, real) -> real): (v: real)
    requires forall t :: t in ts ==> t in b && t in w
    ensures PowPositive(pow) && (forall t :: t in ts ==> 0.0 < b[t]) ==> 0.0 < v
  {
    FactorsPositive(ts, b, w, pow);
    FoldPositive(Factors(ts, b, w, pow));
    Fold(Factors(ts, b, w, pow), Times, 1.0)
  }

  lemma FactorsPositive(ts: seq<Token>, b: map<Token, real>, w: map<Token, real>, pow: (real, real) -> real)
    requires forall t :: t in ts ==> t in b && t in w
    ensures PowPositive(pow) && (forall t :: t in ts ==> 0.0 < b[t]) ==>
              forall k :: 0 <= k < |ts| ==> 0.0 < Factors(ts, b, w, pow)[k]
  {
    if PowPositive(pow) && forall t :: t in ts ==> 0.0 < b[t] {
      forall k | 0 <= k < |ts|
        ensures 0.0 < Factors(ts, b, w, pow)[k]
      {
        var x, e := b[ts[k]], w[ts[k]];
        assert ts[k] in ts;
        assert 0.0 < pow(x, e);
      }
    }
  }

  /** A product of positive entries is positive. */
  lemma {:induction false} FoldPositive(s: seq<real>)
    ensures (forall k :: 0 <= k < |s| ==> 0.0 < s[k]) ==> 0.0 < Fold(s, Times, 1.0)
  {
    if s != [] && forall k :: 0 <= k < |s| ==> 0.0 < s[k] {
      var p := s[..|s| - 1];
      FoldPositive(p);
      assert forall k :: 0 <= k < |p| ==> p[k] == s[k];
      PositiveProduct(Fold(p, Times, 1.0), s[|s| - 1]);
    }
  }

  lemma PositiveProduct(x: real, y: real)
    requires 0.0 < x && 0.0 < y
    ensures 0.0 < Times(x, y)
  {
  }

  /** One more token multiplies its factor in: the step of the loop computing `k`. */
  lemma ValueExtend(ts: seq<Token>, t: Token, b: map<Token, real>, w: map<Token, real>, pow: (real, real) -> real)
    requires forall u :: u in ts + [t] ==> u in b && u in w
    ensures Value(ts + [t], b, w, pow) == Value(ts, b, w, pow) * pow(b[t], w[t])
  {
    hide PowPositive;
    assert Factors(ts + [t], b, w, pow) == Factors(ts, b, w, pow) + [pow(b[t], w[t])];
    FoldSnoc(Factors(ts, b, w, pow), pow(b[t], w[t]), Times, 1.0);
  }

  /** The value grows with the balances: with positive weights, balances `c` that are
      token by token at least the positive balances `b` give at least `b`'s value,
      and a larger one when some token's balance is strictly larger. */
  lemma {:induction false} ValueMonotone(ts: seq<Token>, b: map<Token, real>, c: map<Token, real>, w: map<Token, real>,
                                         pow: (real, real) -> real)
    requires PowPositive(pow) && PowMonotone(pow)
    requires forall t :: t in ts ==> t in b && t in c && t in w && 0.0 < w[t] && 0.0 < b[t] <= c[t]
    ensures Value(ts, b, w, pow) <= Value(ts, c, w, pow)
    ensures (exists t :: t in ts && b[t] < c[t]) ==> Value(ts, b, w, pow) < Value(ts, c, w, pow)
  {
    hide PowMonotone, Value, Fold, Factors;
    if ts != [] {
      var p, t := ts[..|ts| - 1], ts[|ts| - 1];
      assert ts == p + [t];
      ValueMonotone(p, b, c, w, pow);
      ValueExtend(p, t, b, w, pow);
      ValueExtend(p, t, c, w, pow);
      var fb, fc := pow(b[t], w[t]), pow(c[t], w[t]);
      assert 0.0 < fb;
      if b[t] < c[t] {
        PowGrows(pow, b[t], c[t], w[t]);
      }
      ProductMonotone(Value(p, b, w, pow), fb, Value(p, c, w, pow), fc);
      if b[t] == c[t] && exists u :: u in ts && b[u] < c[u] {
        var u :| u in ts && b[u] < c[u];
        assert u in p;
      }
    } else {
      ValueOfNone(b, w, pow);
      ValueOfNone(c, w, pow);
    }
  }

  /** No tokens: the empty product, 1. */
  /** Changing one balance and keeping the others moves the value the same way as
      that balance. */
  lemma ValueOneChange(ts: seq<Token>, b: map<Token, real>, c: map<Token, real>, w: map<Token, real>, t: Token,
                       pow: (real, real) -> real)
    requires PowPositive(pow) && PowMonotone(pow) && t in ts
    requires AllPositive(ts, b) && forall u :: u in ts ==> u in c && u in w && 0.0 < w[u] && 0.0 < c[u]
    requires forall u :: u in ts && u != t ==> c[u] == b[u]
    ensures b[t] < c[t] ==> Value(ts, b, w, pow) < Value(ts, c, w, pow)
    ensures c[t] < b[t] ==> Value(ts, c, w, pow) < Value(ts, b, w, pow)
  {
    if b[t] < c[t] {
      ValueMonotone(ts, b, c, w, pow);
    } else if c[t] < b[t] {
      ValueMonotone(ts, c, b, w, pow);
    }
  }

  lemma ValueOfNone(b: map<Token, real>, w: map<Token, real>, pow: (real, real) -> real)
    ensures Value([], b, w, pow) == 1.0
  {
    assert Factors([], b, w, pow) == [];
  }

  lemma PowGrows(pow: (real, real) -> real, x: real, y: real, e: real)
    requires PowMonotone(pow) && 0.0 < x < y && 0.0 < e
    ensures pow(x, e) < pow(y, e)
  {
  }

  lemma ProductMonotone(x: real, y: real, x': real, y': real)
    requires 0.0 < x <= x' && 0.0 < y <= y'
    ensures x * y <= x' * y'
    ensures x < x' || y < y' ==> x * y < x' * y'
  {
    assert x * y <= x' * y <= x' * y';
    if x < x' {
      assert x * y < x' * y;
    }
    if y < y' {
      assert x' * y < x' * y';
    }
  }

  /** Changing two tokens' balances leaves the value alone when the product of their
      two factors is unchanged. */
  lemma ValueTwoChanged(ts: seq<Token>, b: map<Token, real>, c: map<Token, real>, w: map<Token, real>,
                        pow: (real, real) -> real, x: Token, y: Token)
    requires Distinct(ts) && x in ts && y in ts && x != y
    requires forall t :: t in ts ==> t in b && t in c && t in w
    requires forall t :: t in ts && t != x && t != y ==> b[t] == c[t]
    requires pow(b[x], w[x]) * pow(b[y], w[y]) == pow(c[x], w[x]) * pow(c[y], w[y])
    ensures Value(ts, b, w, pow) == Value(ts, c, w, pow)
  {
    var i :| 0 <= i < |ts| && ts[i] == x;
    var j :| 0 <= j < |ts| && ts[j] == y;
    var s, u := Factors(ts, b, w, pow), Factors(ts, c, w, pow);
    forall k | 0 <= k < |ts| && k != i && k != j
      ensures s[k] == u[k]
    {
      assert ts[k] != x && ts[k] != y;
    }
    TimesLaws();
    if i < j {
      FoldTwoChanged(s, u, i, j, Times, 1.0);
    } else {
      assert s[j] * s[i] == u[j] * u[i];
      FoldTwoChanged(s, u, j, i, Times, 1.0);
    }
  }

  /** `[f ** w[t] for t in ts]`. */
  function Powers(ts: seq<Token>, w: map<Token, real>, f: real, pow: (real, real) -> real): (r: seq<real>)
    requires forall t :: t in ts ==> t in w
    ensures |r| == |ts| && forall k :: 0 <= k < |ts| ==> r[k] == pow(f, w[ts[k]])
  {
    seq(|ts|, k requires 0 <= k < |ts| => pow(f, w[ts[k]]))
  }

  /** `Π f ** w[t] == f ** Σ w[t]`. */
  lemma {:induction false} FoldPowers(ts: seq<Token>, w: map<Token, real>, f: real, pow: (real, real) -> real)
    requires 0.0 < f && PowExponentAdds(pow)
    requires forall t :: t in ts ==> t in w
    ensures Fold(Powers(ts, w, f, pow), Times, 1.0) == pow(f, SumOver(ts, w))
  {
    if ts == [] {
      PowZeroExponent(pow, f);
    } else {
      var p, t := ts[..|ts| - 1], ts[|ts| - 1];
      FoldPowers(p, w, f, pow);
      var g := Powers(p, w, f, pow);
      assert Powers(ts, w, f, pow) == g + [pow(f, w[t])];
      FoldSnoc(g, pow(f, w[t]), Times, 1.0);
      ExponentsAdd(pow, f, SumOver(p, w), w[t]);
    }
  }

  lemma PowZeroExponent(pow: (real, real) -> real, x: real)
    requires PowExponentAdds(pow) && 0.0 < x
    ensures pow(x, 0.0) == 1.0
  {
  }

  lemma ExponentsAdd(pow: (real, real) -> real, x: real, e: real, f: real)
    requires PowExponentAdds(pow) && 0.0 < x
    ensures Times(pow(x, e), pow(x, f)) == pow(x, e + f)
  {
  }

  lemma PowOfProduct(pow: (real, real) -> real, x: real, y: real, z: real, e: real)
    requires PowMultiplicative(pow) && 0.0 < x && 0.0 < y && z == x * y
    ensures pow(z, e) == pow(x, e) * pow(y, e)
  {
    assert Times(x, y) == z;
  }

  lemma PowOfPower(pow: (real, real) -> real, x: real, e: real, f: real, g: real)
    requires PowComposes(pow) && 0.0 < x && g == e * f
    ensures pow(pow(x, e), f) == pow(x, g)
  {
  }

  /** Scaling every balance by `f` scales the value by `f ** Σw`. */
  lemma ValueScaled(ts: seq<Token>, b: map<Token, real>, c: map<Token, real>, w: map<Token, real>,
                    pow: (real, real) -> real, f: real)
    requires 0.0 < f
    requires PowMultiplicative(pow) && PowExponentAdds(pow)
    requires forall t :: t in ts ==> t in b && t in c && t in w && 0.0 < b[t] && c[t] == f * b[t]
    ensures Value(ts, c, w, pow) == pow(f, SumOver(ts, w)) * Value(ts, b, w, pow)
  {
    ScaledFactors(ts, b, c, w, pow, f);
    FoldPowers(ts, w, f, pow);
    ValueOfScaledFactors(ts, b, c, w, pow, f);
  }

  /** Each scaled balance's factor is `f ** w[t]` times the old one. */
  lemma ScaledFactors(ts: seq<Token>, b: map<Token, real>, c: map<Token, real>, w: map<Token, real>,
                      pow: (real, real) -> real, f: real)
    requires 0.0 < f && PowMultiplicative(pow)
    requires forall t :: t in ts ==> t in b && t in c && t in w && 0.0 < b[t] && c[t] == f * b[t]
    ensures forall t :: t in ts ==> pow(c[t], w[t]) == pow(f, w[t]) * pow(b[t], w[t])
  {
    forall t | t in ts
      ensures pow(c[t], w[t]) == pow(f, w[t]) * pow(b[t], w[t])
    {
      PowOfProduct(pow, f, b[t], c[t], w[t]);
    }
  }

  lemma ValueOfScaledFactors(ts: seq<Token>, b: map<Token, real>, c: map<Token, real>, w: map<Token, real>,
                             pow: (real, real) -> real, f: real)
    requires forall t :: t in ts ==> t in b && t in c && t in w
    requires forall t :: t in ts ==> pow(c[t], w[t]) == pow(f, w[t]) * pow(b[t], w[t])
    requires Fold(Powers(ts, w, f, pow), Times, 1.0) == pow(f, SumOver(ts, w))
    ensures Value(ts, c, w, pow) == pow(f, SumOver(ts, w)) * Value(ts, b, w, pow)
  {
    hide Fold, Powers, Factors, PowPositive, Value, SumOver;
    var g, s, u := Powers(ts, w, f, pow), Factors(ts, b, w, pow), Factors(ts, c, w, pow);
    forall k | 0 <= k < |ts|
      ensures u[k] == Times(g[k], s[k])
    {
      assert ts[k] in ts;
      TimesApplied(g[k], s[k]);
    }
    ProductOfProducts(g, s, u);
    TimesApplied(Fold(g, Times, 1.0), Fold(s, Times, 1.0));
    ValueUnfolds(ts, b, w, pow);
    ValueUnfolds(ts, c, w, pow);
  }

  lemma ValueUnfolds(ts: seq<Token>, b: map<Token, real>, w: map<Token, real>, pow: (real, real) -> real)
    requires forall t :: t in ts ==> t in b && t in w
    ensures Value(ts, b, w, pow) == Fold(Factors(ts, b, w, pow), Times, 1.0)
  {
  }
}
