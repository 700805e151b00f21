/** The pool's pricing formulas, each one expression of the source evaluated over the
    reals: shares issued for a deposit, amounts paid out for a withdrawal or a swap,
    the spot price between two tokens, and the split of an `equalize` request between
    its two lanes. Where Python would raise ZeroDivisionError the function returns
    `Err(ZeroDivision)`; `**` is the parameter `pow` (see ValueFunction). */
module Formulas {
  import opened Errors
  import opened Amounts
  import opened ValueFunction

  /** Total supply of pool shares, `10.0 ** 15`. */
  const SUPPLY: real := 1000000000000000.0
  /** Shares issued to the first depositor, `10.0 ** 8`. */
  const FIRST: real := 100000000.0
  /** Relative tolerance of the ratio check an all-asset deposit must pass, `1e-6`. */
  const DEPOSIT_TOLERANCE: real := 0.000001

  // ---------------------------------------------------------------- spot price

  /** `(b_asset / w_asset) / (b_currency / w_currency)`. */
  function SpotPrice(ba: real, wa: real, bc: real, wc: real): (r: Result<real>)
    ensures r.Err? <==> wa == 0.0 || wc == 0.0 || bc == 0.0
    ensures r.Err? ==> r.error == ZeroDivision
    ensures r.Ok? ==> r.value * (bc / wc) == ba / wa
  {
    if wa == 0.0 || wc == 0.0 || bc / wc == 0.0 then Err(ZeroDivision)
    else Ok((ba / wa) / (bc / wc))
  }

  /** A token is worth exactly one of itself. */
  lemma SpotPriceSelf(b: real, w: real)
    requires b != 0.0 && w != 0.0
    ensures SpotPrice(b, w, b, w) == Ok(1.0)
  {
    var x := b / w;
    assert x != 0.0;
    assert x / x == 1.0;
  }

  /** The price of `a` in `c` and the price of `c` in `a` are reciprocal. */
  lemma SpotPriceReciprocal(ba: real, wa: real, bc: real, wc: real)
    requires ba != 0.0 && wa != 0.0 && bc != 0.0 && wc != 0.0
    ensures SpotPrice(ba, wa, bc, wc).Ok? && SpotPrice(bc, wc, ba, wa).Ok?
    ensures SpotPrice(ba, wa, bc, wc).value * SpotPrice(bc, wc, ba, wa).value == 1.0
  {
    var x, y := ba / wa, bc / wc;
    assert x != 0.0 && y != 0.0;
    QuotientsReciprocal(x, y);
  }

  lemma QuotientsReciprocal(x: real, y: real)
    requires x != 0.0 && y != 0.0
    ensures (x / y) * (y / x) == 1.0
  {
  }

  /** Prices chain: `a` in `c` times `c` in `d` is `a` in `d`. */
  lemma SpotPriceChain(ba: real, wa: real, bc: real, wc: real, bd: real, wd: real)
    requires wa != 0.0 && bc != 0.0 && wc != 0.0 && bd != 0.0 && wd != 0.0
    ensures SpotPrice(ba, wa, bc, wc).Ok? && SpotPrice(bc, wc, bd, wd).Ok? && SpotPrice(ba, wa, bd, wd).Ok?
    ensures SpotPrice(ba, wa, bc, wc).value * SpotPrice(bc, wc, bd, wd).value == SpotPrice(ba, wa, bd, wd).value
  {
    var x, y, z := ba / wa, bc / wc, bd / wd;
    assert y != 0.0 && z != 0.0;
    QuotientsChain(x, y, z);
  }

  lemma QuotientsChain(x: real, y: real, z: real)
    requires y != 0.0 && z != 0.0
    ensures (x / y) * (y / z) == x / z
  {
  }

  // ---------------------------------------------------------------- deposits

  /** `pi = dk * ps / bk` for an all-asset deposit: `a` of the first token, whose
      balance `b` is read after the deposit has been added. */
  function AllAssetShares(a: real, b: real): (r: Result<real>)
    ensures r.Err? <==> b == 0.0
    ensures r.Err? ==> r.error == ZeroDivision
    ensures r.Ok? ==> r.value * b == a * SUPPLY
  {
    if b == 0.0 then Err(ZeroDivision) else Ok(a * SUPPLY / b)
  }

  /** `dk = pi * bk / ps`: the deposit the docstring asks for to receive `pi` shares. */
  function AllAssetDeposit(pi: real, b: real): real {
    pi * b / SUPPLY
  }

  /** The docstring's deposit `dk = pi * bk / ps` for `pi` shares, made into a token whose
      balance was `b0`. The code divides by the balance after the deposit, `b0 + dk`,
      so it issues `pi * SUPPLY / (SUPPLY + pi)` shares: fewer than `pi` whenever `pi`
      is positive, and exactly `pi` only for `pi == 0`. */
  lemma AllAssetSharesAfterDeposit(pi: real, b0: real)
    requires 0.0 < b0 && 0.0 <= pi
    ensures AllAssetShares(AllAssetDeposit(pi, b0), b0 + AllAssetDeposit(pi, b0)).Ok?
    ensures AllAssetShares(AllAssetDeposit(pi, b0), b0 + AllAssetDeposit(pi, b0)).value * (SUPPLY + pi)
            == pi * SUPPLY
    ensures 0.0 < pi ==> AllAssetShares(AllAssetDeposit(pi, b0), b0 + AllAssetDeposit(pi, b0)).value < pi
  {
    var dk := AllAssetDeposit(pi, b0);
    var b := b0 + dk;
    assert dk * SUPPLY == pi * b0;
    assert b * SUPPLY == b0 * (SUPPLY + pi);
    assert 0.0 < b;
    var x := AllAssetShares(dk, b).value;
    assert x * b == dk * SUPPLY;
    calc {
      b0 * (x * (SUPPLY + pi));
      x * (b0 * (SUPPLY + pi));
      x * (b * SUPPLY);
      (x * b) * SUPPLY;
      (pi * b0) * SUPPLY;
      b0 * (pi * SUPPLY);
    }
    CancelFactor(b0, x * (SUPPLY + pi), pi * SUPPLY);
    if 0.0 < pi {
      assert pi * SUPPLY < pi * (SUPPLY + pi);
    }
  }

  lemma CancelFactor(c: real, x: real, y: real)
    requires c != 0.0 && c * x == c * y
    ensures x == y
  {
  }

  /** `pi = ps * (a/b) ** w` for a single-asset deposit: the source writes
      `ps * (1 + (a/b) ** w - 1)`, which is this over the reals. */
  function SingleAssetShares(a: real, b: real, w: real, pow: (real, real) -> real): (r: Result<real>)
    ensures r.Err? <==> b == 0.0
    ensures r.Err? ==> r.error == ZeroDivision
  {
    if b == 0.0 then Err(ZeroDivision) else Ok(SUPPLY * pow(a / b, w))
  }

  /** A positive deposit earns positive shares, and no more than the whole supply
      while it does not exceed the balance. */
  lemma SingleAssetSharesBounds(a: real, b: real, w: real, pow: (real, real) -> real)
    requires PowPositive(pow) && PowAtMostOne(pow)
    requires 0.0 < a && 0.0 < b && 0.0 < w
    ensures SingleAssetShares(a, b, w, pow).Ok?
    ensures 0.0 < SingleAssetShares(a, b, w, pow).value
    ensures a <= b ==> SingleAssetShares(a, b, w, pow).value <= SUPPLY
  {
    var q := a / b;
    assert 0.0 < q;
    assert a <= b ==> q <= 1.0;
  }

  /** A zero amount earns no shares. */
  lemma SingleAssetSharesZero(b: real, w: real, pow: (real, real) -> real)
    requires PowZeroBase(pow) && b != 0.0 && 0.0 < w
    ensures SingleAssetShares(0.0, b, w, pow) == Ok(0.0)
  {
    assert 0.0 / b == 0.0;
  }

  /** `Σ ps * (a[t]/b[t]) ** w[t]` over the pool's tokens, for a mixed deposit whose
      amounts have already been added to `b`; the sum stops at the first token the
      deposit does not name (KeyError) or whose balance is zero. */
  function AnyAssetShares(ts: seq<Token>, a: map<Token, real>, b: map<Token, real>, w: map<Token, real>,
                          pow: (real, real) -> real): (r: Result<real>)
    requires forall t :: t in ts ==> t in b && t in w
    ensures r.Ok? <==> forall t :: t in ts ==> t in a && b[t] != 0.0
    ensures r.Err? ==> r.error == MissingKey || r.error == ZeroDivision
  {
    if ts == [] then Ok(0.0)
    else
      var t := ts[0];
      if t !in a then Err(MissingKey)
      else if b[t] == 0.0 then Err(ZeroDivision)
      else
        match AnyAssetShares(ts[1..], a, b, w, pow)
        case Err(e) => Err(e)
        case Ok(rest) => Ok(SUPPLY * pow(a[t] / b[t], w[t]) + rest)
  }

  /** A mixed deposit of a single token earns what the single-asset formula gives for
      that token's balance after the deposit: zero amounts earn nothing. */
  lemma {:induction false} AnyAssetSharesOneToken(ts: seq<Token>, a: map<Token, real>, b: map<Token, real>,
                                                  w: map<Token, real>, pow: (real, real) -> real, x: Token)
    requires Distinct(ts) && x in ts
    requires forall t :: t in ts ==> t in a && t in b && t in w && b[t] != 0.0 && 0.0 < w[t]
    requires forall t :: t in ts && t != x ==> a[t] == 0.0
    requires PowZeroBase(pow)
    ensures AnyAssetShares(ts, a, b, w, pow) == SingleAssetShares(a[x], b[x], w[x], pow)
  {
    var t := ts[0];
    assert ts == [t] + ts[1..];
    assert Distinct(ts[1..]) by {
      forall i, j | 0 <= i < j < |ts[1..]| ensures ts[1..][i] != ts[1..][j] {
        assert ts[1..][i] == ts[i + 1] && ts[1..][j] == ts[j + 1];
      }
    }
    if t == x {
      assert x !in ts[1..] by {
        forall i | 0 <= i < |ts[1..]| ensures ts[1..][i] != x {
          assert ts[1..][i] == ts[i + 1];
        }
      }
      AnyAssetSharesZero(ts[1..], a, b, w, pow);
    } else {
      AnyAssetSharesOneToken(ts[1..], a, b, w, pow, x);
      SingleAssetSharesZero(b[t], w[t], pow);
    }
  }

  /** Tokens the deposit gives nothing of earn nothing. */
  lemma {:induction false} AnyAssetSharesZero(ts: seq<Token>, a: map<Token, real>, b: map<Token, real>,
                                              w: map<Token, real>, pow: (real, real) -> real)
    requires forall t :: t in ts ==> t in a && t in b && t in w && b[t] != 0.0 && 0.0 < w[t] && a[t] == 0.0
    requires PowZeroBase(pow)
    ensures AnyAssetShares(ts, a, b, w, pow) == Ok(0.0)
  {
    if ts != [] {
      assert ts[0] in ts;
      AnyAssetSharesZero(ts[1..], a, b, w, pow);
      SingleAssetSharesZero(b[ts[0]], w[ts[0]], pow);
    }
  }

  // ---------------------------------------------------------------- withdrawals

  /** `at = (1 - (ps - pd)/ps) * bt` for an all-asset withdrawal of `redeem` shares:
      the fraction `redeem/ps` of the balance, leaving the fraction `(ps - redeem)/ps`. */
  function AllAssetAmount(b: real, redeem: real): (out: real)
    ensures out == redeem / SUPPLY * b
    ensures b - out == (SUPPLY - redeem) / SUPPLY * b
  {
    (1.0 - (SUPPLY - redeem) / SUPPLY) * b
  }

  /** `at = bt * (1 - (1 - pd/ps) ** (1/wt))` for a single-asset withdrawal. */
  function SingleAssetAmount(b: real, w: real, redeem: real, pow: (real, real) -> real): (r: Result<real>)
    ensures r.Err? <==> w == 0.0
    ensures r.Err? ==> r.error == ZeroDivision
  {
    if w == 0.0 then Err(ZeroDivision) else Ok(b * (1.0 - pow(1.0 - redeem / SUPPLY, 1.0 / w)))
  }

  /** Redeeming less than the whole supply pays out at least nothing and less than
      the whole balance. */
  lemma SingleAssetAmountBounds(b: real, w: real, redeem: real, pow: (real, real) -> real)
    requires PowPositive(pow) && PowAtMostOne(pow)
    requires 0.0 < b && 0.0 < w && 0.0 <= redeem < SUPPLY
    ensures SingleAssetAmount(b, w, redeem, pow).Ok?
    ensures 0.0 <= SingleAssetAmount(b, w, redeem, pow).value < b
  {
    var base, e := 1.0 - redeem / SUPPLY, 1.0 / w;
    assert 0.0 < base <= 1.0 && 0.0 < e;
    PaidOutBelowBalance(b, pow(base, e));
  }

  /** `b * (1 - p)` for a power `p` in (0, 1]. */
  lemma PaidOutBelowBalance(b: real, p: real)
    requires 0.0 < b && 0.0 < p <= 1.0
    ensures 0.0 <= b * (1.0 - p) < b
  {
  }

  /** `at = bt * (1 - (1 - (ratio/Σratios)/ps) ** (1/wt))`, one token of a mixed
      withdrawal. The amount depends on the requested ratios only: the number of
      shares redeemed does not enter it. */
  function AnyAssetAmount(b: real, w: real, ratio: real, total: real, pow: (real, real) -> real): (r: Result<real>)
    ensures r.Err? <==> total == 0.0 || w == 0.0
    ensures r.Err? ==> r.error == ZeroDivision
  {
    if total == 0.0 || w == 0.0 then Err(ZeroDivision)
    else Ok(b * (1.0 - pow(1.0 - (ratio / total) / SUPPLY, 1.0 / w)))
  }

  /** A non-negative ratio no larger than the total pays out at least nothing and
      less than the whole balance. */
  lemma AnyAssetAmountBounds(b: real, w: real, ratio: real, total: real, pow: (real, real) -> real)
    requires PowPositive(pow) && PowAtMostOne(pow)
    requires 0.0 < b && 0.0 < w && 0.0 <= ratio <= total && 0.0 < total
    ensures AnyAssetAmount(b, w, ratio, total, pow).Ok?
    ensures 0.0 <= AnyAssetAmount(b, w, ratio, total, pow).value < b
  {
    var share := ratio / total;
    QuotientAtMostOne(ratio, total);
    var base, e := 1.0 - share / SUPPLY, 1.0 / w;
    assert 0.0 < base <= 1.0 && 0.0 < e;
    PaidOutBelowBalance(b, pow(base, e));
  }

  /** With `1 ** e == 1` and `**` increasing in its base: redeeming a positive number
      of shares below the supply pays out a positive amount less than the balance,
      redeeming none pays nothing, and a negative redemption, which the formula
      accepts, pays a negative amount, adding to the balance. */
  lemma SingleAssetAmountSign(b: real, w: real, redeem: real, pow: (real, real) -> real)
    requires PowPositive(pow) && PowMonotone(pow) && PowOneBase(pow)
    requires 0.0 < b && 0.0 < w && redeem < SUPPLY
    ensures SingleAssetAmount(b, w, redeem, pow).Ok?
    ensures SingleAssetAmount(b, w, redeem, pow).value < b
    ensures 0.0 < redeem ==> 0.0 < SingleAssetAmount(b, w, redeem, pow).value
    ensures redeem == 0.0 ==> SingleAssetAmount(b, w, redeem, pow).value == 0.0
    ensures redeem < 0.0 ==> SingleAssetAmount(b, w, redeem, pow).value < 0.0
  {
    hide PowPositive, PowMonotone, PowOneBase;
    var x := 1.0 - redeem / SUPPLY;
    RedeemedFraction(redeem, x);
    PowAroundOne(pow, x, 1.0 / w);
    PaidOutSign(b, pow(x, 1.0 / w), SingleAssetAmount(b, w, redeem, pow).value);
  }

  /** `1 - redeem/SUPPLY` is positive below the supply, and on the other side of 1
      from `redeem`. */
  lemma RedeemedFraction(redeem: real, x: real)
    requires redeem < SUPPLY && x == 1.0 - redeem / SUPPLY
    ensures 0.0 < x
    ensures 0.0 < redeem <==> x < 1.0
    ensures redeem == 0.0 <==> x == 1.0
    ensures redeem < 0.0 <==> 1.0 < x
  {
  }

  /** A positive ratio no larger than the total pays out a positive amount, less than
      the whole balance; a zero ratio pays nothing. */
  lemma AnyAssetAmountSign(b: real, w: real, ratio: real, total: real, pow: (real, real) -> real)
    requires PowPositive(pow) && PowMonotone(pow) && PowOneBase(pow)
    requires 0.0 < b && 0.0 < w && 0.0 <= ratio <= total && 0.0 < total
    ensures AnyAssetAmount(b, w, ratio, total, pow).Ok?
    ensures 0.0 <= AnyAssetAmount(b, w, ratio, total, pow).value < b
    ensures 0.0 < ratio ==> 0.0 < AnyAssetAmount(b, w, ratio, total, pow).value
  {
    hide PowPositive, PowMonotone, PowOneBase;
    QuotientAtMostOne(ratio, total);
    assert 0.0 < 1.0 - (ratio / total) / SUPPLY <= 1.0 && 0.0 < 1.0 / w;
    assert 0.0 < ratio ==> 0.0 < ratio / total && 1.0 - (ratio / total) / SUPPLY < 1.0;
    PowAroundOne(pow, 1.0 - (ratio / total) / SUPPLY, 1.0 / w);
    PaidOutSign(b, pow(1.0 - (ratio / total) / SUPPLY, 1.0 / w), AnyAssetAmount(b, w, ratio, total, pow).value);
  }

  /** A power of a positive base is positive and sits on the same side of 1 as the
      base. */
  lemma PowAroundOne(pow: (real, real) -> real, x: real, e: real)
    requires PowPositive(pow) && PowMonotone(pow) && PowOneBase(pow) && 0.0 < x && 0.0 < e
    ensures 0.0 < pow(x, e)
    ensures x < 1.0 ==> pow(x, e) < 1.0
    ensures x == 1.0 ==> pow(x, e) == 1.0
    ensures 1.0 < x ==> 1.0 < pow(x, e)
  {
    assert pow(1.0, e) == 1.0;
  }

  /** An amount `v = b * (1 - p)` for a positive power `p`: below `b`, and positive,
      zero or negative as `p` is below, at or above 1. */
  lemma PaidOutSign(b: real, p: real, v: real)
    requires 0.0 < b && 0.0 < p && v == b * (1.0 - p)
    ensures v < b
    ensures p < 1.0 ==> 0.0 < v
    ensures p == 1.0 ==> v == 0.0
    ensures 1.0 < p ==> v < 0.0
  {
  }

  lemma QuotientAtMostOne(x: real, y: real)
    requires 0.0 <= x <= y && 0.0 < y
    ensures 0.0 <= x / y <= 1.0
  {
  }

  // ---------------------------------------------------------------- swap

  /** `ao = bo * (1 - (bi / (bi + ai)) ** (wi / wo))`. */
  function SwapAmount(bIn: real, bOut: real, wIn: real, wOut: real, aIn: real, pow: (real, real) -> real): (r: Result<real>)
    ensures r.Err? <==> bIn + aIn == 0.0 || wOut == 0.0
    ensures r.Err? ==> r.error == ZeroDivision
  {
    if bIn + aIn == 0.0 || wOut == 0.0 then Err(ZeroDivision)
    else Ok(bOut * (1.0 - pow(bIn / (bIn + aIn), wIn / wOut)))
  }

  /** Paying in a non-negative amount takes out at least nothing and less than the
      whole balance of the other token. */
  lemma SwapAmountBounds(bIn: real, bOut: real, wIn: real, wOut: real, aIn: real, pow: (real, real) -> real)
    requires PowPositive(pow) && PowAtMostOne(pow)
    requires 0.0 < bIn && 0.0 < bOut && 0.0 < wIn && 0.0 < wOut && 0.0 <= aIn
    ensures SwapAmount(bIn, bOut, wIn, wOut, aIn, pow).Ok?
    ensures 0.0 <= SwapAmount(bIn, bOut, wIn, wOut, aIn, pow).value < bOut
  {
    var r, e := bIn / (bIn + aIn), wIn / wOut;
    assert 0.0 < r <= 1.0 && 0.0 < e;
    PaidOutBelowBalance(bOut, pow(r, e));
  }

  /** After a swap the two tokens' factors `b ** w` multiply to what they did before:
      the value function is unchanged, as the source's docstring derives. */
  lemma SwapKeepsFactors(bIn: real, bOut: real, wIn: real, wOut: real, aIn: real, pow: (real, real) -> real)
    requires PowPositive(pow) && PowMultiplicative(pow) && PowComposes(pow)
    requires 0.0 < bIn && 0.0 < bIn + aIn && 0.0 < bOut && 0.0 < wIn && 0.0 < wOut
    ensures SwapAmount(bIn, bOut, wIn, wOut, aIn, pow).Ok?
    ensures pow(bIn + aIn, wIn) * pow(bOut - SwapAmount(bIn, bOut, wIn, wOut, aIn, pow).value, wOut)
            == pow(bIn, wIn) * pow(bOut, wOut)
  {
    var sum := bIn + aIn;
    var r := bIn / sum;
    var p := pow(r, wIn / wOut);
    var out := SwapAmount(bIn, bOut, wIn, wOut, aIn, pow).value;
    assert 0.0 < r;
    assert 0.0 < p;
    var left := bOut * p;
    assert bOut - out == left;
    PowOfProduct(pow, bOut, p, left, wOut);
    PowOfPower(pow, r, wIn / wOut, wOut, wIn);
    PowOfProduct(pow, sum, r, bIn, wIn);
    SwapRegroup(pow(sum, wIn), pow(bOut, wOut), pow(p, wOut), pow(r, wIn), pow(bIn, wIn), pow(left, wOut));
  }

  lemma SwapRegroup(s: real, o: real, pw: real, rw: real, i: real, l: real)
    requires l == o * pw && pw == rw && i == s * rw
    ensures s * l == i * o
  {
  }

  /** A swap leaves the pool's value function `Π b ** w` where it was. */
  lemma SwapKeepsValue(ts: seq<Token>, b: map<Token, real>, w: map<Token, real>, pow: (real, real) -> real,
                       x: Token, y: Token, a: real)
    requires Distinct(ts) && x in ts && y in ts && x != y
    requires forall t :: t in ts ==> t in b && t in w
    requires PowPositive(pow) && PowMultiplicative(pow) && PowComposes(pow)
    requires 0.0 < b[x] && 0.0 < b[x] + a && 0.0 < b[y] && 0.0 < w[x] && 0.0 < w[y]
    ensures SwapAmount(b[x], b[y], w[x], w[y], a, pow).Ok?
    ensures Value(ts, b[x := b[x] + a][y := b[y] - SwapAmount(b[x], b[y], w[x], w[y], a, pow).value], w, pow)
            == Value(ts, b, w, pow)
  {
    var out := SwapAmount(b[x], b[y], w[x], w[y], a, pow).value;
    var c := b[x := b[x] + a][y := b[y] - out];
    SwapKeepsFactors(b[x], b[y], w[x], w[y], a, pow);
    assert c[x] == b[x] + a && c[y] == b[y] - out;
    ValueTwoChanged(ts, c, b, w, pow, x, y);
  }

  /** An all-asset withdrawal scales the value function by the fraction of the supply
      not redeemed, since the weights sum to 1. */
  lemma WithdrawAllScalesValue(ts: seq<Token>, b: map<Token, real>, c: map<Token, real>, w: map<Token, real>,
                               pow: (real, real) -> real, redeem: real)
    requires forall t :: t in ts ==> t in b && t in w && 0.0 < b[t]
    requires redeem < SUPPLY && SumOver(ts, w) == 1.0
    requires PowMultiplicative(pow) && PowExponentAdds(pow) && PowIdentity(pow)
    requires forall t :: t in ts ==> t in c && c[t] == b[t] - AllAssetAmount(b[t], redeem)
    ensures Value(ts, c, w, pow) == (SUPPLY - redeem) / SUPPLY * Value(ts, b, w, pow)
  {
    var f := (SUPPLY - redeem) / SUPPLY;
    assert 0.0 < f;
    ValueScaled(ts, b, c, w, pow, f);
    assert pow(f, 1.0) == f;
  }

  // ---------------------------------------------------------------- weights

  /** `w[t] = a[t] / Σa` over a first deposit of positive amounts: the weights are
      positive and sum to exactly 1. */
  lemma InitialWeights(ts: seq<Token>, a: map<Token, real>, s: real, w: map<Token, real>)
    requires Distinct(ts) && ts != [] && a.Keys == TokenSet(ts)
    requires forall t :: t in ts ==> 0.0 < a[t]
    requires s == MapSum(a) && s != 0.0
    requires forall t :: t in ts ==> t in w && w[t] == a[t] / s
    ensures SumOver(ts, w) == 1.0
    ensures forall t :: t in ts ==> 0.0 < w[t]
  {
    MapSumIsSumOver(ts, a);
    EntryBelowSum(ts, a, ts[0]);
    SumOverDivided(ts, a, w, s);
    DividedBySelf(SumOver(ts, a), s);
    SharesOfTotal(ts, a, s, w);
  }

  /** A dict of positive amounts keyed by the (non-empty) tokens has a positive sum. */
  lemma PositiveTotal(ts: seq<Token>, a: map<Token, real>)
    requires Distinct(ts) && ts != [] && a.Keys == TokenSet(ts)
    requires forall t :: t in a ==> 0.0 < a[t]
    ensures 0.0 < MapSum(a)
  {
    MapSumIsSumOver(ts, a);
    EntryBelowSum(ts, a, ts[0]);
  }

  lemma SharesOfTotal(ts: seq<Token>, a: map<Token, real>, s: real, w: map<Token, real>)
    requires 0.0 < s
    requires forall t :: t in ts ==> t in a && 0.0 < a[t] && t in w && w[t] == a[t] / s
    ensures forall t :: t in ts ==> 0.0 < w[t]
  {
    forall t | t in ts
      ensures 0.0 < w[t]
    {
      QuotientOfPositives(a[t], s);
    }
  }

  lemma DividedBySelf(x: real, s: real)
    requires x == s && s != 0.0
    ensures x / s == 1.0
  {
  }

  lemma QuotientOfPositives(x: real, y: real)
    requires 0.0 < x && 0.0 < y
    ensures 0.0 < x / y
  {
  }

  /** Positive weights summing to 1 over at least two tokens each lie strictly
      between 0 and 1. */
  lemma WeightsInUnitInterval(ts: seq<Token>, w: map<Token, real>)
    requires |ts| >= 2
    requires forall t :: t in ts ==> t in w && 0.0 < w[t]
    requires SumOver(ts, w) == 1.0
    ensures forall t :: t in ts ==> 0.0 < w[t] < 1.0
  {
    forall t | t in ts
      ensures 0.0 < w[t] < 1.0
    {
      EntryBelowSum(ts, w, t);
    }
  }

  // ---------------------------------------------------------------- equalize

  /** The split of `owed` shares in `equalize`: `token_ratio = s / denom` of them go to
      the withdrawal and `1 - token_ratio` of them come back, with `denom = s + share`. */
  function SplitOwed(owed: real, sumTokens: real, shareRatio: real): (r: Result<(real, real)>)
    ensures r.Err? <==> sumTokens + shareRatio == 0.0
    ensures r.Err? ==> r.error == ZeroDivision
    ensures r.Ok? ==> r.value.0 + r.value.1 == owed
    ensures r.Ok? ==> r.value.0 * (sumTokens + shareRatio) == owed * sumTokens
  {
    var denom := sumTokens + shareRatio;
    if denom == 0.0 then Err(ZeroDivision)
    else
      var tokenRatio := sumTokens / denom;
      Ok((owed * tokenRatio, owed * (1.0 - tokenRatio)))
  }
}
