/** The proportionality test an all-asset deposit on an active pool must pass
    (`check_deposit_ratio`): each token's share of the pool's balances against its
    share of the deposit, compared with `math.isclose` and a relative tolerance only.
    The two lists are paired by position, as `zip` pairs them; a dict is taken to
    iterate the pool's tokens in pool order, then any keys outside the pool. */
module DepositRatio {
  import opened Amounts
  import opened Errors

  function Abs(x: real): (r: real)
    ensures 0.0 <= r && (r == x || r == -x)
  {
    if x < 0.0 then -x else x
  }

  function Max(x: real, y: real): (r: real)
    ensures x <= r && y <= r && (r == x || r == y)
  {
    if x < y then y else x
  }

  /** `math.isclose(x, y, rel_tol=tol)` with no absolute tolerance, for `tol >= 0`: equal
      values are close, a zero tolerance asks for equality, and with a tolerance below
      1 zero is close to nothing but zero. */
  predicate IsClose(x: real, y: real, tol: real): (close: bool)
    ensures x == y ==> close
    ensures tol == 0.0 ==> (close <==> x == y)
    ensures 0.0 <= tol < 1.0 && close ==> (x == 0.0 <==> y == 0.0)
  {
    RelativeOnly(x, y, tol);
    x == y || Abs(x - y) <= tol * Max(Abs(x), Abs(y))
  }

  /** With no absolute tolerance, a relative tolerance below 1 never counts zero as
      close to a non-zero value. */
  lemma RelativeOnly(x: real, y: real, tol: real)
    ensures 0.0 <= tol < 1.0 && (x == 0.0) != (y == 0.0) ==> tol * Max(Abs(x), Abs(y)) < Abs(x - y)
  {
    if 0.0 <= tol < 1.0 && (x == 0.0) != (y == 0.0) {
      ZeroAgainstNonZero(x, y, tol);
    }
  }

  lemma ZeroAgainstNonZero(x: real, y: real, tol: real)
    requires 0.0 <= tol < 1.0 && (x == 0.0) != (y == 0.0)
    ensures tol * Max(Abs(x), Abs(y)) < Abs(x - y)
  {
    BelowWhole(Max(Abs(x), Abs(y)), Abs(x - y), tol);
  }

  lemma BelowWhole(m: real, d: real, tol: real)
    requires 0.0 < m && m == d && 0.0 <= tol < 1.0
    ensures tol * m < d
  {
    assert m - tol * m == (1.0 - tol) * m;
  }

  /** `all(isclose(e, d) for e, d in zip(es, ds))`: only the common length is compared,
      so an empty list on either side passes, and so does a list against itself. */
  predicate ZipAllClose(es: seq<real>, ds: seq<real>, tol: real): (all: bool)
    ensures |es| == 0 || |ds| == 0 ==> all
    ensures es == ds ==> all
  {
    forall i :: 0 <= i < |es| && i < |ds| ==> IsClose(es[i], ds[i], tol)
  }

  /** `[b[t] / sb for t in ts]`: each token's share of the pool's balances. */
  function ExistingRatios(ts: seq<Token>, b: map<Token, real>, sb: real): (r: seq<real>)
    requires sb != 0.0
    requires forall t :: t in ts ==> t in b
    ensures |r| == |ts|
    ensures forall k :: 0 <= k < |ts| ==> r[k] == b[ts[k]] / sb
  {
    if ts == [] then []
    else ExistingRatios(ts[..|ts| - 1], b, sb) + [b[ts[|ts| - 1]] / sb]
  }

  /** `[a[t] / sa for t in a]` restricted to the pool's tokens, in pool order: empty
      when the deposit names no pool token, and the deposit's own shares token by
      token when it names every one. */
  function PresentRatios(ts: seq<Token>, a: map<Token, real>, sa: real): (r: seq<real>)
    requires sa != 0.0 || a == map[]
    ensures |r| <= |ts|
    ensures (forall t :: t in ts ==> t !in a) ==> r == []
    ensures sa != 0.0 && (forall t :: t in ts ==> t in a) ==> r == ExistingRatios(ts, a, sa)
  {
    if ts == [] then []
    else
      var t := ts[|ts| - 1];
      PresentRatios(ts[..|ts| - 1], a, sa) + (if t in a then [a[t] / sa] else [])
  }

  /** What `check_deposit_ratio(a, tol)` returns or raises on a pool with tokens `ts`
      and balances `b` (keyed by exactly the tokens). Only the two divisions and a
      negative tolerance raise; balances summing to zero always raise; and an empty
      deposit compares nothing, so it passes. */
  ghost function RatioCheck(ts: seq<Token>, b: map<Token, real>, a: map<Token, real>, tol: real): (r: Result<bool>)
    requires forall t :: t in ts ==> t in b
    ensures r.Err? ==> r.error == ZeroDivision || r.error == NegativeTolerance
    ensures ts != [] && SumOver(ts, b) == 0.0 ==> r == Err(ZeroDivision)
    ensures a == map[] && (ts == [] || SumOver(ts, b) != 0.0) ==> r == Ok(true)
  {
    var sb := SumOver(ts, b);
    if ts != [] && sb == 0.0 then Err(ZeroDivision)
    else
      var sa := MapSum(a);
      if |a| > 0 && sa == 0.0 then Err(ZeroDivision)
      else
        var es := if ts == [] then [] else ExistingRatios(ts, b, sb);
        var ds := PresentRatios(ts, a, sa);
        if tol < 0.0 && |es| > 0 && |ds| > 0 then Err(NegativeTolerance)
        else Ok(ZipAllClose(es, ds, tol))
  }

  /** Token `t`'s deposit is `c` times its balance. */
  predicate ScaledAt(b: map<Token, real>, a: map<Token, real>, c: real, t: Token) {
    t in b && t in a && a[t] == c * b[t]
  }

  /** A deposit that is an exact positive multiple of the balances passes the ratio check,
      whatever the (non-negative) tolerance. */
  lemma ProportionalDepositPasses(ts: seq<Token>, b: map<Token, real>, a: map<Token, real>, c: real, tol: real)
    requires Distinct(ts) && ts != []
    requires b.Keys == TokenSet(ts) && a.Keys == TokenSet(ts)
    requires 0.0 < c && 0.0 <= tol
    requires forall t {:trigger ScaledAt(b, a, c, t)} :: t in ts ==> ScaledAt(b, a, c, t)
    requires SumOver(ts, b) != 0.0
    ensures RatioCheck(ts, b, a, tol) == Ok(true)
  {
    hide RatioCheck, ExistingRatios, PresentRatios, MapSum, SumOver;
    var sb, sa := SumOver(ts, b), MapSum(a);
    ProportionalSums(ts, b, a, c);
    NonZeroProduct(c, sb);
    ProportionalShares(ts, b, a, c, sb, sa);
    SameShares(ts, b, a, sb, sa);
    RatioCheckPasses(ts, b, a, tol, sb, sa);
  }

  /** The deposit's total is `c` times the pool's. */
  lemma ProportionalSums(ts: seq<Token>, b: map<Token, real>, a: map<Token, real>, c: real)
    requires Distinct(ts)
    requires a.Keys == TokenSet(ts) && b.Keys == TokenSet(ts)
    requires forall t {:trigger ScaledAt(b, a, c, t)} :: t in ts ==> ScaledAt(b, a, c, t)
    ensures MapSum(a) == c * SumOver(ts, b)
  {
    MapSumIsSumOver(ts, a);
    forall t | t in ts
      ensures t in b && t in a && a[t] == c * b[t]
    {
      assert ScaledAt(b, a, c, t);
    }
    SumOverScaled(ts, b, a, c);
  }

  /** Each token's share of a deposit that is `c` times the balances is its share
      of the balances. */
  lemma ProportionalShares(ts: seq<Token>, b: map<Token, real>, a: map<Token, real>, c: real, sb: real, sa: real)
    requires c != 0.0 && sb != 0.0 && sa == c * sb
    requires forall t {:trigger ScaledAt(b, a, c, t)} :: t in ts ==> ScaledAt(b, a, c, t)
    ensures forall t :: t in ts ==> t in b && t in a && a[t] / sa == b[t] / sb
  {
    forall t | t in ts
      ensures t in b && t in a && a[t] / sa == b[t] / sb
    {
      assert ScaledAt(b, a, c, t);
      ScaledShare(a[t], sa, b[t], sb, c);
    }
  }

  /** Equal shares token by token give equal ratio lists. */
  lemma {:induction false} SameShares(ts: seq<Token>, b: map<Token, real>, a: map<Token, real>, sb: real, sa: real)
    requires sb != 0.0 && sa != 0.0
    requires forall t :: t in ts ==> t in b && t in a && a[t] / sa == b[t] / sb
    ensures ExistingRatios(ts, b, sb) == PresentRatios(ts, a, sa)
  {
    if ts != [] {
      SameShares(ts[..|ts| - 1], b, a, sb, sa);
    }
  }

  lemma ScaledShare(y: real, sy: real, x: real, sx: real, c: real)
    requires c != 0.0 && sx != 0.0
    requires y == c * x && sy == c * sx
    ensures y / sy == x / sx
  {
    assert sy * (x / sx) == c * x;
  }

  /** With both totals non-zero, identical ratio lists pass the ratio check. */
  lemma RatioCheckPasses(ts: seq<Token>, b: map<Token, real>, a: map<Token, real>, tol: real, sb: real, sa: real)
    requires ts != [] && forall t :: t in ts ==> t in b
    requires sb == SumOver(ts, b) && sb != 0.0 && sa == MapSum(a) && sa != 0.0
    requires ExistingRatios(ts, b, sb) == PresentRatios(ts, a, sa)
    requires 0.0 <= tol
    ensures RatioCheck(ts, b, a, tol) == Ok(true)
  {
  }

  lemma NonZeroProduct(x: real, y: real)
    requires x != 0.0 && y != 0.0
    ensures x * y != 0.0
  {
  }
}
