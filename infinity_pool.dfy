/** The `InfinityPool` object: a weighted pool over at least two token symbols. Its
    weights are fixed by the first all-asset deposit; afterwards deposits,
    withdrawals and swaps update the balances in place, and most of them then cache
    the value function `Π b[t] ** w[t]` in `invariant`. A pool is uninitialised
    while `weights[tokens[0]]` is zero and active once it is not.

    Each operation returns `Err` where Python raises. A dict argument is taken to
    iterate the pool's tokens in pool order, then any keys outside the pool; where a
    loop raises KeyError half-way, the updates made before it are kept, as in Python. */
module Pool {
  import opened Errors
  import opened Amounts
  import opened ValueFunction
  import opened DepositRatio
  import opened Formulas

  /** The keys whose amount is not zero: the entries `deposit_one` counts. */
  function NonZeroKeys(a: map<Token, real>): (nz: set<Token>)
    ensures nz <= a.Keys
    ensures forall t :: t in a && t !in nz ==> a[t] == 0.0
    ensures |nz| == 1 ==> exists t :: t in a && a[t] != 0.0
  {
    set t | t in a && a[t] != 0.0
  }

  lemma OnlyMember(s: set<Token>, x: Token)
    requires |s| == 1 && x in s
    ensures s == {x}
  {
    assert |s - {x}| == 0;
  }

  /** What a mixed withdrawal pays out: for each pool token the ratios name, its
      amount computed from the balance before the withdrawal. */
  function Payouts(ts: seq<Token>, b: map<Token, real>, w: map<Token, real>, ratios: map<Token, real>,
                   total: real, pow: (real, real) -> real): (paid: map<Token, real>)
    requires forall t :: t in ts ==> t in b && t in w
    ensures paid.Keys <= TokenSet(ts) * ratios.Keys
  {
    map t | t in TokenSet(ts) && t in ratios && AnyAssetAmount(b[t], w[t], ratios[t], total, pow).Ok?
      :: AnyAssetAmount(b[t], w[t], ratios[t], total, pow).value
  }

  /** One more step of the loop: the next token's payout joins the others when the
      ratios name it and its amount can be computed. */
  lemma PayoutsStep(ts: seq<Token>, i: nat, b: map<Token, real>, w: map<Token, real>, ratios: map<Token, real>,
                    total: real, pow: (real, real) -> real)
    requires Distinct(ts) && i < |ts|
    requires forall u :: u in ts ==> u in b && u in w
    ensures ts[i] !in Payouts(ts[..i], b, w, ratios, total, pow)
    ensures Payouts(ts[..i + 1], b, w, ratios, total, pow)
            == if ts[i] in ratios && AnyAssetAmount(b[ts[i]], w[ts[i]], ratios[ts[i]], total, pow).Ok?
               then Payouts(ts[..i], b, w, ratios, total, pow)[ts[i] := AnyAssetAmount(b[ts[i]], w[ts[i]], ratios[ts[i]], total, pow).value]
               else Payouts(ts[..i], b, w, ratios, total, pow)
  {
    var t := ts[i];
    assert ts[..i + 1] == ts[..i] + [t];
    assert TokenSet(ts[..i + 1]) == TokenSet(ts[..i]) + {t};
    assert t !in TokenSet(ts[..i]) by {
      forall j | 0 <= j < i ensures ts[..i][j] != t {
        assert ts[..i][j] == ts[j];
      }
    }
  }

  /** The loop of `set_invariant`: `k = 1`, then `k *= b[t] ** w[t]` for each token. */
  method ValueOf(ts: seq<Token>, b: map<Token, real>, w: map<Token, real>, pow: (real, real) -> real)
    returns (k: real)
    requires forall t :: t in ts ==> t in b && t in w
    ensures k == Value(ts, b, w, pow)
  {
    k := 1.0;
    for i := 0 to |ts|
      invariant k == Value(ts[..i], b, w, pow)
    {
      var t := ts[i];
      assert ts[..i + 1] == ts[..i] + [t];
      ValueExtend(ts[..i], t, b, w, pow);
      k := k * pow(b[t], w[t]);
    }
    assert ts[..|ts|] == ts;
  }

  /** `for t in ts: b[t] += d[t]`, which stops with KeyError at the first token `d`
      does not name: the balances after the loop, and how many tokens it credited. */
  method CreditEach(ts: seq<Token>, b: map<Token, real>, d: map<Token, real>) returns (c: map<Token, real>, n: nat)
    requires Distinct(ts) && b.Keys == TokenSet(ts)
    ensures n == FirstMissing(ts, d.Keys)
    ensures c.Keys == b.Keys
    ensures forall j :: 0 <= j < |ts| ==> c[ts[j]] == b[ts[j]] + (if j < n then d[ts[j]] else 0.0)
  {
    hide Distinct;
    c, n := b, 0;
    while n < |ts| && ts[n] in d
      invariant n <= |ts|
      invariant forall j :: 0 <= j < n ==> ts[j] in d
      invariant c == AddPrefix(ts, b, d, n)
    {
      AddPrefixKeys(ts, b, d, n);
      c := c[ts[n] := c[ts[n]] + d[ts[n]]];
      n := n + 1;
    }
    AddPrefixPointwise(ts, b, d, n);
  }

  /** The balances `b` with each token `d` names credited by its amount. */
  function Credited(b: map<Token, real>, d: map<Token, real>): (c: map<Token, real>)
    ensures c.Keys == b.Keys
    ensures forall t :: t in b && t !in d ==> c[t] == b[t]
  {
    map t | t in b :: b[t] + (if t in d then d[t] else 0.0)
  }

  /** `for t, a in d.items(): b[t] += a` over the pool's tokens: each token `d`
      names is credited, the others keep their balance. */
  method CreditNamed(ts: seq<Token>, b: map<Token, real>, d: map<Token, real>) returns (c: map<Token, real>)
    requires Distinct(ts) && b.Keys == TokenSet(ts)
    ensures c == Credited(b, d)
  {
    hide Distinct;
    c := b;
    for i := 0 to |ts|
      invariant c == AddPrefix(ts, b, d, i)
    {
      AddPrefixKeys(ts, b, d, i);
      if ts[i] in d {
        c := c[ts[i] := c[ts[i]] + d[ts[i]]];
      }
    }
    AddPrefixPointwise(ts, b, d, |ts|);
    forall t | t in ts
      ensures c[t] == b[t] + (if t in d then d[t] else 0.0)
    {
      var j :| 0 <= j < |ts| && ts[j] == t;
    }
    assert c == Credited(b, d);
  }

  /** Where the loop of `withdraw_any` stands after the first `i` tokens: the tokens
      paid so far are `Payouts` of those tokens, each taken off its balance, and none
      of them was named when the ratios sum to zero. */
  ghost predicate PaidSoFar(ts: seq<Token>, i: nat, b: map<Token, real>, w: map<Token, real>, ratios: map<Token, real>,
                            total: real, pow: (real, real) -> real, paid: map<Token, real>, c: map<Token, real>)
  {
    && i <= |ts| && b.Keys == TokenSet(ts) && (forall u :: u in ts ==> u in w)
    && c.Keys == b.Keys
    && (total == 0.0 ==> forall j :: 0 <= j < i ==> ts[j] !in ratios)
    && paid == Payouts(ts[..i], b, w, ratios, total, pow)
    && (forall t :: t in ts ==> c[t] == b[t] - (if t in paid then paid[t] else 0.0))
  }

  lemma PaidNothing(ts: seq<Token>, b: map<Token, real>, w: map<Token, real>, ratios: map<Token, real>,
                    total: real, pow: (real, real) -> real)
    requires b.Keys == TokenSet(ts) && forall u :: u in ts ==> u in w
    ensures PaidSoFar(ts, 0, b, w, ratios, total, pow, map[], b)
  {
    assert TokenSet(ts[..0]) == {};
  }

  /** One more token: it pays out when the ratios name it, and its amount fails only
      when the ratios sum to zero, before anything has been paid. */
  lemma PayOutStep(ts: seq<Token>, i: nat, b: map<Token, real>, w: map<Token, real>, ratios: map<Token, real>,
                   total: real, pow: (real, real) -> real, paid: map<Token, real>, c: map<Token, real>)
    requires Distinct(ts) && i < |ts| && forall t :: t in ts ==> t in w && w[t] != 0.0
    requires PaidSoFar(ts, i, b, w, ratios, total, pow, paid, c)
    ensures ts[i] in c
    ensures ts[i] !in ratios ==> PaidSoFar(ts, i + 1, b, w, ratios, total, pow, paid, c)
    ensures ts[i] in ratios ==>
              var a := AnyAssetAmount(c[ts[i]], w[ts[i]], ratios[ts[i]], total, pow);
              && (a.Err? ==> total == 0.0 && c == b)
              && (a.Ok? ==> PaidSoFar(ts, i + 1, b, w, ratios, total, pow, paid[ts[i] := a.value], c[ts[i] := c[ts[i]] - a.value]))
  {
    hide AnyAssetAmount, Payouts, Distinct;
    var t := ts[i];
    PayoutsStep(ts, i, b, w, ratios, total, pow);
    if total == 0.0 {
      forall u | u in ts[..i]
        ensures u !in ratios
      {
        var j :| 0 <= j < i && ts[..i][j] == u;
        assert ts[j] == u;
      }
      assert paid.Keys == {};
      assert c == b by {
        forall u | u in c ensures c[u] == b[u] {
          assert u in TokenSet(ts);
        }
      }
    }
  }

  /** After the last token: what the loop paid is `Payouts` of all the tokens, one
      payout for each pool token the ratios name. */
  lemma PaidAll(ts: seq<Token>, b: map<Token, real>, w: map<Token, real>, ratios: map<Token, real>,
                total: real, pow: (real, real) -> real, paid: map<Token, real>, c: map<Token, real>)
    requires forall t :: t in ts ==> t in w && w[t] != 0.0
    requires PaidSoFar(ts, |ts|, b, w, ratios, total, pow, paid, c)
    ensures c.Keys == b.Keys
    ensures total == 0.0 ==> forall t :: t in ts ==> t !in ratios
    ensures paid == Payouts(ts, b, w, ratios, total, pow) && paid.Keys == TokenSet(ts) * ratios.Keys
    ensures forall t :: t in ts ==> c[t] == b[t] - (if t in paid then paid[t] else 0.0)
  {
    assert ts[..|ts|] == ts;
  }

  /** The loop of `withdraw_any` over the pool's tokens the ratios name: each pays out
      its `AnyAssetAmount`, taken off its balance. Every amount fails alike when the
      ratios sum to zero, so the first one named fails before anything is paid. */
  method PayOut(ts: seq<Token>, b: map<Token, real>, w: map<Token, real>, ratios: map<Token, real>,
                total: real, pow: (real, real) -> real)
    returns (r: Result<map<Token, real>>, c: map<Token, real>)
    requires Distinct(ts) && b.Keys == TokenSet(ts) && w.Keys == TokenSet(ts)
    requires forall t :: t in ts ==> w[t] != 0.0
    ensures c.Keys == b.Keys
    ensures r.Err? <==> total == 0.0 && exists t :: t in ts && t in ratios
    ensures r.Err? ==> r.error == ZeroDivision && c == b
    ensures r.Ok? ==> r.value == Payouts(ts, b, w, ratios, total, pow) && r.value.Keys == TokenSet(ts) * ratios.Keys
    ensures r.Ok? ==> forall t :: t in ts ==> c[t] == b[t] - (if t in r.value then r.value[t] else 0.0)
  {
    hide AnyAssetAmount, Payouts, PaidSoFar;
    var paid: map<Token, real> := map[];
    c := b;
    PaidNothing(ts, b, w, ratios, total, pow);
    for i := 0 to |ts|
      invariant PaidSoFar(ts, i, b, w, ratios, total, pow, paid, c)
    {
      var t := ts[i];
      PayOutStep(ts, i, b, w, ratios, total, pow, paid, c);
      if t in ratios {
        var amount := AnyAssetAmount(c[t], w[t], ratios[t], total, pow);
        if amount.Err? {
          return Err(amount.error), c;
        }
        paid := paid[t := amount.value];
        c := c[t := c[t] - amount.value];
      }
    }
    PaidAll(ts, b, w, ratios, total, pow, paid, c);
    r := Ok(paid);
  }

  /** Crediting non-negative amounts to positive balances does not lower the value
      function, and a positive amount for a pool token raises it. */
  lemma CreditedRaisesValue(ts: seq<Token>, b: map<Token, real>, d: map<Token, real>, w: map<Token, real>,
                            pow: (real, real) -> real)
    requires b.Keys == TokenSet(ts) && d.Keys <= TokenSet(ts)
    requires forall u :: u in ts ==> u in w && 0.0 < w[u]
    requires forall u :: u in d ==> 0.0 <= d[u]
    ensures PowPositive(pow) && PowMonotone(pow) && AllPositive(ts, b) ==>
              && Value(ts, b, w, pow) <= Value(ts, Credited(b, d), w, pow)
              && ((exists u :: u in d && 0.0 < d[u]) ==> Value(ts, b, w, pow) < Value(ts, Credited(b, d), w, pow))
  {
    hide Value;
    if !(PowPositive(pow) && PowMonotone(pow) && AllPositive(ts, b)) {
      return;
    }
    var c := Credited(b, d);
    assert forall u :: u in ts ==> u in c && 0.0 < b[u] <= c[u];
    if exists u :: u in d && 0.0 < d[u] {
      var u :| u in d && 0.0 < d[u];
      assert u in ts && b[u] < c[u];
    }
    ValueMonotone(ts, b, c, w, pow);
  }

  /** A positive deposit of one token into positive balances raises the value
      function. */
  lemma OneCreditRaisesValue(ts: seq<Token>, b: map<Token, real>, w: map<Token, real>, t: Token, a: real,
                             pow: (real, real) -> real)
    requires t in ts && 0.0 < a
    requires forall u :: u in ts ==> u in b && u in w && 0.0 < w[u]
    ensures PowPositive(pow) && PowMonotone(pow) && AllPositive(ts, b) ==>
              Value(ts, b, w, pow) < Value(ts, b[t := b[t] + a], w, pow)
  {
    hide Value;
    if PowPositive(pow) && PowMonotone(pow) && AllPositive(ts, b) {
      ValueOneChange(ts, b, b[t := b[t] + a], w, t, pow);
    }
  }

  /** Redeeming shares below the supply for one token of positive balances lowers the
      value function when the number redeemed is positive, keeps it when it is zero,
      and raises it when it is negative. */
  lemma RedemptionMovesValue(ts: seq<Token>, b: map<Token, real>, w: map<Token, real>, t: Token, redeem: real,
                             pow: (real, real) -> real)
    requires t in ts
    requires forall u :: u in ts ==> u in b && u in w && 0.0 < w[u]
    ensures var c := b[t := b[t] - SingleAssetAmount(b[t], w[t], redeem, pow).value];
            redeem < SUPPLY && PowPositive(pow) && PowMonotone(pow) && PowOneBase(pow) && AllPositive(ts, b) ==>
              && (0.0 < redeem ==> Value(ts, c, w, pow) < Value(ts, b, w, pow))
              && (redeem == 0.0 ==> c == b)
              && (redeem < 0.0 ==> Value(ts, b, w, pow) < Value(ts, c, w, pow))
  {
    hide Value;
    if redeem < SUPPLY && PowPositive(pow) && PowMonotone(pow) && PowOneBase(pow) && AllPositive(ts, b) {
      var c := b[t := b[t] - SingleAssetAmount(b[t], w[t], redeem, pow).value];
      SingleAssetAmountSign(b[t], w[t], redeem, pow);
      ValueOneChange(ts, b, c, w, t, pow);
    }
  }

  /** A deposit of positive amounts, credited token by token to positive balances
      and reaching every token, raises the value function. */
  lemma CreditedEachRaisesValue(ts: seq<Token>, b: map<Token, real>, c: map<Token, real>, d: map<Token, real>,
                                n: nat, w: map<Token, real>, pow: (real, real) -> real)
    requires ts != [] && n == |ts|
    requires forall u :: u in ts ==> u in b && u in c && u in w && 0.0 < w[u]
    requires forall j :: 0 <= j < n ==> ts[j] in d
    requires forall u :: u in d ==> 0.0 < d[u]
    requires forall j :: 0 <= j < |ts| ==> c[ts[j]] == b[ts[j]] + (if j < n then d[ts[j]] else 0.0)
    ensures PowPositive(pow) && PowMonotone(pow) && AllPositive(ts, b) ==> Value(ts, b, w, pow) < Value(ts, c, w, pow)
  {
    hide Value;
    if !(PowPositive(pow) && PowMonotone(pow) && AllPositive(ts, b)) {
      return;
    }
    forall u | u in ts
      ensures 0.0 < b[u] < c[u]
    {
      var j :| 0 <= j < |ts| && ts[j] == u;
    }
    assert ts[0] in ts;
    ValueMonotone(ts, b, c, w, pow);
  }

  /** Ratios of a mixed withdrawal that ask for something: non-negative, over pool
      tokens, and at least one of them positive. */
  ghost predicate AsksForSome(ts: seq<Token>, ratios: map<Token, real>) {
    && ratios.Keys <= TokenSet(ts)
    && (forall u :: u in ratios ==> 0.0 <= ratios[u])
    && (exists u :: u in ratios && 0.0 < ratios[u])
  }

  /** Ratios that ask for something name only pool tokens and have a positive sum. */
  lemma AsksForSomeSum(ts: seq<Token>, ratios: map<Token, real>)
    requires AsksForSome(ts, ratios)
    ensures ratios.Keys <= TokenSet(ts) && 0.0 < MapSum(ratios)
  {
    var u :| u in ratios && 0.0 < ratios[u];
    MapEntryBelowSum(ratios, u);
  }

  /** A mixed withdrawal whose ratios ask for something, from positive balances,
      leaves every balance positive and lowers the value function. */
  lemma PayoutsLowerValue(ts: seq<Token>, b: map<Token, real>, c: map<Token, real>, w: map<Token, real>,
                          ratios: map<Token, real>, pow: (real, real) -> real)
    requires PowPositive(pow) && PowMonotone(pow) && PowOneBase(pow)
    requires AllPositive(ts, b) && forall u :: u in ts ==> u in c && u in w && 0.0 < w[u]
    requires AsksForSome(ts, ratios)
    requires var paid := Payouts(ts, b, w, ratios, MapSum(ratios), pow);
             forall u :: u in ts ==> c[u] == b[u] - (if u in paid then paid[u] else 0.0)
    ensures forall u :: u in ts ==> 0.0 < c[u] <= b[u]
    ensures Value(ts, c, w, pow) < Value(ts, b, w, pow)
  {
    hide Value, MapSum, AnyAssetAmount;
    var total := MapSum(ratios);
    var paid := Payouts(ts, b, w, ratios, total, pow);
    var v :| v in ratios && 0.0 < ratios[v];
    MapEntryBelowSum(ratios, v);
    forall u | u in ts
      ensures 0.0 < c[u] <= b[u]
      ensures u in ratios && 0.0 < ratios[u] ==> c[u] < b[u]
    {
      if u in ratios {
        MapEntryBelowSum(ratios, u);
        AnyAssetAmountSign(b[u], w[u], ratios[u], total, pow);
        assert u in paid;
      }
    }
    assert v in ts;
    ValueMonotone(ts, c, b, w, pow);
  }

  /** `InfinityPool(tokens)`: fails with fewer than two tokens. */
  method New(tokens: seq<Token>, pow: (real, real) -> real) returns (r: Result<InfinityPool>)
    requires Distinct(tokens)
    ensures r.Err? <==> |tokens| < 2
    ensures r.Err? ==> r.error == TooFewTokens
    ensures r.Ok? ==> fresh(r.value) && r.value.tokens == tokens && r.value.pow == pow
    ensures r.Ok? ==> r.value.Valid() && !r.value.Initialized()
  {
    if |tokens| < 2 {
      return Err(TooFewTokens);
    }
    var pool := new InfinityPool(tokens, pow);
    return Ok(pool);
  }

  class InfinityPool {
    /** The pool's token symbols, in the order the pool was created with. */
    const tokens: seq<Token>
    /** Python's float `**`. */
    const pow: (real, real) -> real
    var weights: map<Token, real>
    var balances: map<Token, real>
    var sharesIssued: real
    /** The value function as last cached by `SetInvariant`. */
    var cachedInvariant: real

    /** `self.weights[self.tokens[0]]` is non-zero: the first deposit has happened. */
    predicate Initialized()
      reads this
    {
      |tokens| > 0 && tokens[0] in weights && weights[tokens[0]] != 0.0
    }

    /** The dicts are keyed by exactly the tokens; an active pool has positive
        weights summing to 1; an uninitialised one is all zeros. */
    ghost predicate Valid()
      reads this
    {
      && |tokens| >= 2 && Distinct(tokens)
      && weights.Keys == TokenSet(tokens) && balances.Keys == TokenSet(tokens)
      && (Initialized() ==> (forall t :: t in tokens ==> 0.0 < weights[t]) && SumOver(tokens, weights) == 1.0)
      && (!Initialized() ==>
            && (forall t :: t in tokens ==> weights[t] == 0.0 && balances[t] == 0.0)
            && sharesIssued == 0.0 && cachedInvariant == 0.0)
    }

    /** The state the first deposit `a` leaves: `a` is the balances, each weight is
        that token's share of `a`, the first depositor's FIRST shares are issued and
        the value function is cached. */
    ghost predicate SeededBy(a: map<Token, real>)
      requires Valid()
      reads this
    {
      && Initialized() && balances == a && sharesIssued == FIRST
      && 0.0 < MapSum(a) && (forall t :: t in tokens ==> weights[t] == a[t] / MapSum(a))
      && cachedInvariant == Value(tokens, balances, weights, pow)
    }

    /** The first token's weight decides the phase of every weight: all of them are
        non-zero on an active pool, and all zero on an uninitialised one. */
    lemma PhaseOfWeights()
      requires Valid()
      ensures Initialized() <==> forall t :: t in tokens ==> weights[t] != 0.0
      ensures !Initialized() <==> forall t :: t in tokens ==> weights[t] == 0.0
    {
      assert tokens[0] in tokens;
    }

    /** A fresh pool: every weight and balance zero, no shares, invariant zero. */
    constructor(tokens: seq<Token>, pow: (real, real) -> real)
      requires |tokens| >= 2 && Distinct(tokens)
      ensures this.tokens == tokens && this.pow == pow
      ensures Valid() && !Initialized()
      ensures forall t :: t in tokens ==> weights[t] == 0.0 && balances[t] == 0.0
      ensures sharesIssued == 0.0 && cachedInvariant == 0.0
    {
      this.tokens := tokens;
      this.pow := pow;
      weights := map t | t in TokenSet(tokens) :: 0.0;
      balances := map t | t in TokenSet(tokens) :: 0.0;
      sharesIssued := 0.0;
      cachedInvariant := 0.0;
    }

    /** Caches `Π balances[t] ** weights[t]` over the tokens once the pool is active;
        before that the invariant stays as it is. */
    method SetInvariant() returns (k: real)
      requires Valid()
      modifies this
      ensures Valid()
      ensures weights == old(weights) && balances == old(balances) && sharesIssued == old(sharesIssued)
      ensures Initialized() ==> cachedInvariant == Value(tokens, balances, weights, pow)
      ensures !Initialized() ==> cachedInvariant == old(cachedInvariant)
      ensures k == cachedInvariant
    {
      hide Value, SumOver, Distinct;
      if Initialized() {
        cachedInvariant := ValueOf(tokens, balances, weights, pow);
      }
      k := cachedInvariant;
    }

    /** The price of `asset` in units of `currency`. */
    function CalculateSpotPrice(asset: Token, currency: Token): (r: Result<real>)
      requires Valid()
      reads this
      ensures r == Err(InvalidToken) <==> asset !in tokens || currency !in tokens
      ensures asset in tokens && currency in tokens ==>
                (r.Ok? <==> Initialized() && balances[currency] != 0.0)
      ensures r.Ok? ==> r.value * (balances[currency] / weights[currency]) == balances[asset] / weights[asset]
    {
      if asset !in tokens || currency !in tokens then Err(InvalidToken)
      else SpotPrice(balances[asset], weights[asset], balances[currency], weights[currency])
    }

    /** `check_deposit_ratio(amount_in, tolerance)`. */
    method CheckDepositRatio(amountIn: map<Token, real>, tolerance: real) returns (r: Result<bool>)
      requires Valid()
      ensures r == RatioCheck(tokens, balances, amountIn, tolerance)
    {
      var sb := SumOver(tokens, balances);
      if sb == 0.0 {
        return Err(ZeroDivision);
      }
      var sa := SumValues(amountIn);
      if |amountIn| > 0 && sa == 0.0 {
        return Err(ZeroDivision);
      }
      var existing := ExistingRatios(tokens, balances, sb);
      var deposit := PresentRatios(tokens, amountIn, sa);
      if tolerance < 0.0 && |existing| > 0 && |deposit| > 0 {
        return Err(NegativeTolerance);
      }
      return Ok(ZipAllClose(existing, deposit, tolerance));
    }

    /** The first deposit: the deposit becomes the balances, each token's weight is
        its share of the deposit, and the first depositor's shares are issued. */
    method Initialize(amountIn: map<Token, real>) returns (r: Result<()>)
      requires Valid()
      modifies this
      ensures Valid()
      ensures amountIn.Keys != TokenSet(tokens) ==> r == Err(TokenSetMismatch) && unchanged(this)
      ensures amountIn.Keys == TokenSet(tokens) && (exists t :: t in amountIn && amountIn[t] <= 0.0) ==>
                r == Err(NonPositiveAmount) && unchanged(this)
      ensures r.Ok? <==> amountIn.Keys == TokenSet(tokens) && forall t :: t in amountIn ==> 0.0 < amountIn[t]
      ensures r.Ok? ==>
                && Initialized() && balances == amountIn && sharesIssued == FIRST && cachedInvariant == old(cachedInvariant)
                && 0.0 < MapSum(amountIn)
      ensures r.Ok? ==> forall t :: t in tokens ==> weights[t] == amountIn[t] / MapSum(amountIn)
    {
      hide MapSum, SumOver, Distinct;
      if amountIn.Keys != TokenSet(tokens) {
        return Err(TokenSetMismatch);
      }
      if exists t | t in amountIn :: amountIn[t] <= 0.0 {
        return Err(NonPositiveAmount);
      }
      var total := SumValues(amountIn);
      PositiveTotal(tokens, amountIn);
      var w := map t | t in TokenSet(tokens) :: amountIn[t] / total;
      InitialWeights(tokens, amountIn, total, w);
      balances := amountIn;
      weights := w;
      sharesIssued := FIRST;
      return Ok(());
    }

    /** `deposit_all`: a deposit of every token. On an active pool the deposit must
        be in the proportions of the balances; the shares are the first token's
        deposit over its balance after the deposit, times the supply. */
    method DepositAll(amountIn: map<Token, real>) returns (r: Result<real>)
      requires Valid()
      modifies this
      ensures Valid()
      ensures (exists t :: t in amountIn && amountIn[t] <= 0.0) ==> r == Err(NonPositiveAmount) && unchanged(this)
      ensures !old(Initialized()) && (forall t :: t in amountIn ==> 0.0 < amountIn[t]) ==>
                if amountIn.Keys != TokenSet(tokens) then r == Err(TokenSetMismatch) && unchanged(this)
                else r == Ok(FIRST) && SeededBy(amountIn)
      ensures old(Initialized()) && (forall t :: t in amountIn ==> 0.0 < amountIn[t]) ==>
                var check := old(RatioCheck(tokens, balances, amountIn, DEPOSIT_TOLERANCE));
                if check.Err? then r == Err(check.error) && unchanged(this)
                else if !check.value then r == Err(RatioMismatch) && unchanged(this)
                else
                  var n := FirstMissing(tokens, amountIn.Keys);
                  && weights == old(weights) && sharesIssued == old(sharesIssued)
                  && (forall j :: 0 <= j < |tokens| ==>
                        balances[tokens[j]] == old(balances)[tokens[j]] + (if j < n then amountIn[tokens[j]] else 0.0))
                  && (n < |tokens| ==> r == Err(MissingKey) && cachedInvariant == old(cachedInvariant))
                  && (n == |tokens| ==>
                        && r == AllAssetShares(amountIn[tokens[0]], balances[tokens[0]])
                        && cachedInvariant == (if r.Ok? then Value(tokens, balances, weights, pow) else old(cachedInvariant)))
      ensures old(Initialized()) && r.Ok? && PowPositive(pow) && PowMonotone(pow)
              && AllPositive(tokens, old(balances)) ==>
                old(Value(tokens, balances, weights, pow)) < cachedInvariant
    {
      hide RatioCheck, MapSum, SumOver, Distinct, Value, AllAssetShares, FirstMissing, PowPositive, PowMonotone, AllPositive;
      if exists t | t in amountIn :: amountIn[t] <= 0.0 {
        return Err(NonPositiveAmount);
      }
      if Initialized() {
        var check := CheckDepositRatio(amountIn, DEPOSIT_TOLERANCE);
        if check.Err? {
          return Err(check.error);
        }
        if !check.value {
          return Err(RatioMismatch);
        }
        var credited, n := CreditEach(tokens, balances, amountIn);
        var before := balances;
        balances := credited;
        if n < |tokens| {
          return Err(MissingKey);
        }
        CreditedEachRaisesValue(tokens, before, balances, amountIn, n, weights, pow);
        r := AllAssetShares(amountIn[tokens[0]], balances[tokens[0]]);
        if r.Err? {
          return;
        }
      } else {
        var init := Initialize(amountIn);
        if init.Err? {
          return Err(init.error);
        }
        r := Ok(FIRST);
      }
      var _ := SetInvariant();
    }

    /** `deposit_one`: a deposit of exactly one token into an active pool. Its shares
        are `SUPPLY * (a/b) ** w` with the balance `b` before the deposit, and they are
        added to the shares issued. */
    method DepositOne(amountIn: map<Token, real>) returns (r: Result<real>)
      requires Valid()
      modifies this
      ensures Valid() && weights == old(weights)
      ensures !old(Initialized()) ==> r == Err(UninitializedPool) && unchanged(this)
      ensures old(Initialized()) && |NonZeroKeys(amountIn)| != 1 ==> r == Err(ExactlyOneNonZero) && unchanged(this)
      ensures forall t | t in amountIn && amountIn[t] != 0.0 ::
                old(Initialized()) && |NonZeroKeys(amountIn)| == 1 ==>
                  && (amountIn[t] < 0.0 ==> r == Err(NegativeAmount) && unchanged(this))
                  && (0.0 < amountIn[t] && t !in tokens ==> r == Err(MissingKey) && unchanged(this))
                  && (0.0 < amountIn[t] && t in tokens ==>
                        && r == SingleAssetShares(amountIn[t], old(balances)[t], weights[t], pow)
                        && (r.Err? ==> unchanged(this))
                        && (r.Ok? ==>
                              && balances == old(balances)[t := old(balances)[t] + amountIn[t]]
                              && sharesIssued == old(sharesIssued) + r.value
                              && cachedInvariant == Value(tokens, balances, weights, pow)))
      ensures r.Ok? && PowPositive(pow) && PowMonotone(pow) && AllPositive(tokens, old(balances)) ==>
                old(Value(tokens, balances, weights, pow)) < cachedInvariant
    {
      hide SingleAssetShares, Value, SumOver, Distinct, PowPositive, PowMonotone, AllPositive;
      if !Initialized() {
        return Err(UninitializedPool);
      }
      var nonZero := NonZeroKeys(amountIn);
      if |nonZero| != 1 {
        return Err(ExactlyOneNonZero);
      }
      var t :| t in nonZero;
      OnlyMember(nonZero, t);
      forall u | u in amountIn && amountIn[u] != 0.0
        ensures u == t
      {
        assert u in nonZero;
      }
      if amountIn[t] < 0.0 {
        return Err(NegativeAmount);
      }
      if t !in balances {
        return Err(MissingKey);
      }
      r := SingleAssetShares(amountIn[t], balances[t], weights[t], pow);
      if r.Err? {
        return;
      }
      var before := balances;
      balances := balances[t := balances[t] + amountIn[t]];
      sharesIssued := sharesIssued + r.value;
      OneCreditRaisesValue(tokens, before, weights, t, amountIn[t], pow);
      var _ := SetInvariant();
    }

    /** `deposit_any`: a deposit of any non-negative amounts into an active pool. The
        shares are summed token by token with the balances after the deposit; the
        shares issued are not updated. */
    method DepositAny(amountIn: map<Token, real>) returns (r: Result<real>)
      requires Valid()
      modifies this
      ensures Valid() && weights == old(weights) && sharesIssued == old(sharesIssued)
      ensures !old(Initialized()) ==> r == Err(UninitializedPool) && unchanged(this)
      ensures old(Initialized()) && (exists t :: t in amountIn && amountIn[t] < 0.0) ==>
                r == Err(NegativeAmount) && unchanged(this)
      ensures old(Initialized()) && (forall t :: t in amountIn ==> 0.0 <= amountIn[t]) ==>
                && balances == Credited(old(balances), amountIn)
                && (!(amountIn.Keys <= TokenSet(tokens)) ==> r == Err(MissingKey) && cachedInvariant == old(cachedInvariant))
                && (amountIn.Keys <= TokenSet(tokens) ==>
                      && r == AnyAssetShares(tokens, amountIn, balances, weights, pow)
                      && cachedInvariant == (if r.Ok? then Value(tokens, balances, weights, pow) else old(cachedInvariant)))
      ensures r.Ok? && PowPositive(pow) && PowMonotone(pow) && AllPositive(tokens, old(balances)) ==>
                && old(Value(tokens, balances, weights, pow)) <= cachedInvariant
                && ((exists t :: t in amountIn && 0.0 < amountIn[t]) ==> old(Value(tokens, balances, weights, pow)) < cachedInvariant)
    {
      hide AnyAssetShares, Value, SumOver, Distinct, PowPositive, PowMonotone, AllPositive;
      if !Initialized() {
        return Err(UninitializedPool);
      }
      if exists t | t in amountIn :: amountIn[t] < 0.0 {
        return Err(NegativeAmount);
      }
      balances := CreditNamed(tokens, balances, amountIn);
      if !(amountIn.Keys <= TokenSet(tokens)) {
        return Err(MissingKey);
      }
      r := AnyAssetShares(tokens, amountIn, balances, weights, pow);
      if r.Err? {
        return;
      }
      CreditedRaisesValue(tokens, old(balances), amountIn, weights, pow);
      var _ := SetInvariant();
    }

    /** `withdraw_all`: redeeming shares for the same fraction `redeem / SUPPLY` of
        every balance. */
    method WithdrawAll(redeem: real) returns (r: Result<map<Token, real>>)
      requires Valid()
      modifies this
      ensures Valid() && weights == old(weights)
      ensures !old(Initialized()) ==> r == Err(UninitializedPool) && unchanged(this)
      ensures old(Initialized()) ==>
                && r.Ok? && r.value.Keys == TokenSet(tokens)
                && sharesIssued == old(sharesIssued) - redeem
                && balances.Keys == old(balances).Keys
                && (forall t :: t in tokens ==>
                      && r.value[t] == AllAssetAmount(old(balances)[t], redeem)
                      && balances[t] == old(balances)[t] - r.value[t])
                && cachedInvariant == Value(tokens, balances, weights, pow)
    {
      hide AllAssetAmount, Value, SumOver, Distinct;
      if !Initialized() {
        return Err(UninitializedPool);
      }
      sharesIssued := sharesIssued - redeem;
      var amountOut := map t | t in TokenSet(tokens) :: AllAssetAmount(balances[t], redeem);
      balances := map t | t in TokenSet(tokens) :: balances[t] - amountOut[t];
      var _ := SetInvariant();
      return Ok(amountOut);
    }

    /** `withdraw_one` as written: its guard reads `self.weights[0]`, and no token
        symbol is the integer 0, so the guard raises KeyError before anything
        changes, whatever the arguments. */
    method WithdrawOneAsWritten(token: Token, redeem: real) returns (r: Result<real>)
      ensures r == Err(MissingKey)
    {
      r := Err(MissingKey);
    }

    /** `withdraw_one` with its guard reading `weights[tokens[0]]`: redeeming shares
        for one token, `b * (1 - (1 - redeem/SUPPLY) ** (1/w))` of it. The shares are
        taken off before the token is looked up. */
    method WithdrawOne(token: Token, redeem: real) returns (r: Result<real>)
      requires Valid()
      modifies this
      ensures Valid() && weights == old(weights)
      ensures !old(Initialized()) ==> r == Err(UninitializedPool) && unchanged(this)
      ensures old(Initialized()) ==> sharesIssued == old(sharesIssued) - redeem
      ensures old(Initialized()) && token !in tokens ==>
                r == Err(MissingKey) && balances == old(balances) && cachedInvariant == old(cachedInvariant)
      ensures old(Initialized()) && token in tokens ==>
                && r == SingleAssetAmount(old(balances)[token], weights[token], redeem, pow) && r.Ok?
                && balances == old(balances)[token := old(balances)[token] - r.value]
                && cachedInvariant == Value(tokens, balances, weights, pow)
      ensures old(Initialized()) && token in tokens && 0.0 <= redeem < SUPPLY && 0.0 < old(balances)[token]
              && PowPositive(pow) && PowAtMostOne(pow) ==>
                0.0 < balances[token] <= old(balances)[token]
      ensures old(Initialized()) && token in tokens && redeem < SUPPLY && PowPositive(pow) && PowMonotone(pow) && PowOneBase(pow)
              && AllPositive(tokens, old(balances)) ==>
                && (0.0 < redeem ==> cachedInvariant < old(Value(tokens, balances, weights, pow)))
                && (redeem == 0.0 ==> cachedInvariant == old(Value(tokens, balances, weights, pow)))
                && (redeem < 0.0 ==> old(Value(tokens, balances, weights, pow)) < cachedInvariant)
    {
      hide SingleAssetAmount, Value, SumOver, Distinct, PowPositive, PowAtMostOne, PowMonotone, PowOneBase, AllPositive;
      if !Initialized() {
        return Err(UninitializedPool);
      }
      sharesIssued := sharesIssued - redeem;
      if token !in balances {
        return Err(MissingKey);
      }
      r := SingleAssetAmount(balances[token], weights[token], redeem, pow);
      if r.Err? {
        return;
      }
      if 0.0 <= redeem < SUPPLY && 0.0 < balances[token] && PowPositive(pow) && PowAtMostOne(pow) {
        SingleAssetAmountBounds(balances[token], weights[token], redeem, pow);
      }
      RedemptionMovesValue(tokens, balances, weights, token, redeem, pow);
      balances := balances[token := balances[token] - r.value];
      var _ := SetInvariant();
    }

    /** `withdraw_any` as written: its guard reads `self.weights[0]` and raises
        KeyError before anything changes (and past it, `self.balances -= amount`
        would subtract a float from the dict, a TypeError). */
    method WithdrawAnyAsWritten(redeem: real, ratios: map<Token, real>) returns (r: Result<map<Token, real>>)
      ensures r == Err(MissingKey)
    {
      r := Err(MissingKey);
    }

    /** `withdraw_any` with its guard reading `weights[tokens[0]]` and each payout
        taken off its own token's balance. Each token the ratios name pays out
        `b * (1 - (1 - (ratio/Σratios)/SUPPLY) ** (1/w))`, which does not depend on
        `redeem`; the shares are taken off first. */
    method WithdrawAny(redeem: real, ratios: map<Token, real>) returns (r: Result<map<Token, real>>)
      requires Valid()
      modifies this
      ensures Valid() && weights == old(weights)
      ensures !old(Initialized()) ==> r == Err(UninitializedPool) && unchanged(this)
      ensures old(Initialized()) ==> sharesIssued == old(sharesIssued) - redeem
      ensures old(Initialized()) && MapSum(ratios) == 0.0 && (exists t :: t in tokens && t in ratios) ==>
                r == Err(ZeroDivision) && balances == old(balances) && cachedInvariant == old(cachedInvariant)
      ensures old(Initialized()) && (MapSum(ratios) != 0.0 || forall t :: t in tokens ==> t !in ratios) ==>
                var paid := Payouts(tokens, old(balances), weights, ratios, MapSum(ratios), pow);
                && paid.Keys == TokenSet(tokens) * ratios.Keys
                && (forall t :: t in tokens ==>
                      balances[t] == old(balances)[t] - (if t in paid then paid[t] else 0.0))
                && (!(ratios.Keys <= TokenSet(tokens)) ==> r == Err(MissingKey) && cachedInvariant == old(cachedInvariant))
                && (ratios.Keys <= TokenSet(tokens) ==>
                      r == Ok(paid) && cachedInvariant == Value(tokens, balances, weights, pow))
      ensures old(Initialized()) && AsksForSome(tokens, ratios) && PowPositive(pow) && PowMonotone(pow) && PowOneBase(pow)
              && AllPositive(tokens, old(balances)) ==>
                r.Ok? && cachedInvariant < old(Value(tokens, balances, weights, pow))
    {
      hide AnyAssetAmount, Payouts, MapSum, Value, SumOver, Distinct, PowPositive, PowMonotone, PowOneBase, AsksForSome, AllPositive;
      if !Initialized() {
        return Err(UninitializedPool);
      }
      sharesIssued := sharesIssued - redeem;
      var total := SumValues(ratios);
      var paid, after := PayOut(tokens, balances, weights, ratios, total, pow);
      if AsksForSome(tokens, ratios) && PowPositive(pow) && PowMonotone(pow) && PowOneBase(pow)
         && AllPositive(tokens, balances) {
        AsksForSomeSum(tokens, ratios);
        PayoutsLowerValue(tokens, balances, after, weights, ratios, pow);
      }
      balances := after;
      if paid.Err? {
        return Err(paid.error);
      }
      if !(ratios.Keys <= TokenSet(tokens)) {
        return Err(MissingKey);
      }
      var _ := SetInvariant();
      return Ok(paid.value);
    }

    /** `swap`: paying `amountIn` of one token for `bo * (1 - (bi/(bi+ai)) ** (wi/wo))`
        of another. The cached invariant is not recomputed. */
    method Swap(tokenIn: Token, tokenOut: Token, amountIn: real) returns (r: Result<real>)
      requires Valid()
      modifies this
      ensures Valid()
      ensures weights == old(weights) && sharesIssued == old(sharesIssued) && cachedInvariant == old(cachedInvariant)
      ensures !old(Initialized()) ==> r == Err(UninitializedPool) && unchanged(this)
      ensures old(Initialized()) && (tokenIn !in tokens || tokenOut !in tokens) ==>
                r == Err(InvalidToken) && unchanged(this)
      ensures old(Initialized()) && tokenIn in tokens && tokenOut in tokens && tokenIn == tokenOut ==>
                r == Err(SameTokenSwap) && unchanged(this)
      ensures old(Initialized()) && tokenIn in tokens && tokenOut in tokens && tokenIn != tokenOut ==>
                && r == SwapAmount(old(balances)[tokenIn], old(balances)[tokenOut],
                                   weights[tokenIn], weights[tokenOut], amountIn, pow)
                && (r.Err? ==> unchanged(this))
                && (r.Ok? ==> balances == old(balances)[tokenIn := old(balances)[tokenIn] + amountIn]
                                                       [tokenOut := old(balances)[tokenOut] - r.value])
      ensures r.Ok? && tokenIn in tokens && tokenOut in tokens
              && 0.0 <= amountIn && 0.0 < old(balances)[tokenIn] && 0.0 < old(balances)[tokenOut]
              && PowPositive(pow) && PowAtMostOne(pow) ==>
                0.0 < balances[tokenOut] <= old(balances)[tokenOut]
      ensures r.Ok? && tokenIn in tokens && tokenOut in tokens
              && 0.0 < old(balances)[tokenIn] && 0.0 < old(balances)[tokenIn] + amountIn && 0.0 < old(balances)[tokenOut]
              && PowPositive(pow) && PowMultiplicative(pow) && PowComposes(pow) ==>
                Value(tokens, balances, weights, pow) == old(Value(tokens, balances, weights, pow))
    {
      hide SwapAmount, Value, SumOver, Distinct, PowPositive, PowAtMostOne, PowMultiplicative, PowComposes;
      if !Initialized() {
        return Err(UninitializedPool);
      }
      if tokenIn !in tokens || tokenOut !in tokens {
        return Err(InvalidToken);
      }
      if tokenIn == tokenOut {
        return Err(SameTokenSwap);
      }
      var bIn, bOut := balances[tokenIn], balances[tokenOut];
      r := SwapAmount(bIn, bOut, weights[tokenIn], weights[tokenOut], amountIn, pow);
      if r.Err? {
        return;
      }
      if 0.0 <= amountIn && 0.0 < bIn && 0.0 < bOut && PowPositive(pow) && PowAtMostOne(pow) {
        SwapAmountBounds(bIn, bOut, weights[tokenIn], weights[tokenOut], amountIn, pow);
      }
      if 0.0 < bIn && 0.0 < bIn + amountIn && 0.0 < bOut
         && PowPositive(pow) && PowMultiplicative(pow) && PowComposes(pow) {
        SwapKeepsValue(tokens, balances, weights, pow, tokenIn, tokenOut, amountIn);
      }
      balances := balances[tokenIn := bIn + amountIn][tokenOut := bOut - r.value];
    }

    /** What the uninitialised branch of `equalize` leaves, given `sumRatios`, the sum of
        the output ratios for tokens: each guard refuses with nothing changed, in the
        source's order, and so does `deposit_all` on a negative amount or a key set
        other than the tokens; otherwise the deposit seeds the pool and no tokens come
        out. */
    twostate predicate EqualizedFirst(inputs: (map<Token, real>, real), ratioOut: (map<Token, real>, real),
                                      sumRatios: real, new r: Result<(map<Token, real>, real)>)
      requires Valid()
      reads this
    {
      if sumRatios + ratioOut.1 != 0.0 then r == Err(RatioOnInitialDeposit) && unchanged(this)
      else if inputs.1 != 0.0 then r == Err(ShareRedemptionOnFirstDeposit) && unchanged(this)
      else if exists t :: t in inputs.0 && inputs.0[t] == 0.0 then r == Err(IncompleteFirstDeposit) && unchanged(this)
      else if exists t :: t in inputs.0 && inputs.0[t] < 0.0 then r == Err(NonPositiveAmount) && unchanged(this)
      else if inputs.0.Keys != TokenSet(tokens) then r == Err(TokenSetMismatch) && unchanged(this)
      else r == Ok((map t | t in TokenSet(tokens) :: 0.0, FIRST)) && SeededBy(inputs.0)
    }

    /** What the active branch of `equalize` leaves. The tokens given are deposited as
        by `DepositAny`: a negative amount changes nothing, otherwise the balances are
        credited and stay so whatever follows. The shares owed, the shares given plus
        those the deposit earns on the credited balances, are split in proportion
        `Σ ratio_out[0] : ratio_out[1]`. With `corrected`, the first part is redeemed by
        the corrected mixed withdrawal, which pays `Payouts` from the credited
        balances, and the second is handed back; without it, the withdrawal's guard
        raises KeyError before anything else changes. */
    twostate predicate EqualizedActive(inputs: (map<Token, real>, real), ratioOut: (map<Token, real>, real),
                                       new r: Result<(map<Token, real>, real)>, corrected: bool)
      requires old(Valid()) && Valid()
      reads this
    {
      var credited := Credited(old(balances), inputs.0);
      if exists t :: t in inputs.0 && inputs.0[t] < 0.0 then r == Err(NegativeAmount) && unchanged(this)
      else if !(inputs.0.Keys <= TokenSet(tokens)) then
        && r == Err(MissingKey) && balances == credited && sharesIssued == old(sharesIssued)
        && cachedInvariant == old(cachedInvariant)
      else
        var shares := AnyAssetShares(tokens, inputs.0, credited, weights, pow);
        if shares.Err? then
          && r == Err(shares.error) && balances == credited && sharesIssued == old(sharesIssued)
          && cachedInvariant == old(cachedInvariant)
        else
          var sumTokens := MapSum(ratioOut.0);
          var split := SplitOwed(inputs.1 + shares.value, sumTokens, ratioOut.1);
          if split.Err? then
            && r == Err(ZeroDivision) && balances == credited && sharesIssued == old(sharesIssued)
            && cachedInvariant == Value(tokens, credited, weights, pow)
          else if !corrected then
            && r == Err(MissingKey) && balances == credited && sharesIssued == old(sharesIssued)
            && cachedInvariant == Value(tokens, credited, weights, pow)
          else
            && sharesIssued == old(sharesIssued) - split.value.0
            && if sumTokens == 0.0 && (exists t :: t in tokens && t in ratioOut.0) then
                 r == Err(ZeroDivision) && balances == credited && cachedInvariant == Value(tokens, credited, weights, pow)
               else
                 var paid := Payouts(tokens, credited, weights, ratioOut.0, sumTokens, pow);
                 && (forall t :: t in tokens ==> balances[t] == credited[t] - (if t in paid then paid[t] else 0.0))
                 && (!(ratioOut.0.Keys <= TokenSet(tokens)) ==>
                       r == Err(MissingKey) && cachedInvariant == Value(tokens, credited, weights, pow))
                 && (ratioOut.0.Keys <= TokenSet(tokens) ==>
                       r == Ok((paid, split.value.1)) && cachedInvariant == Value(tokens, balances, weights, pow))
    }

    /** The uninitialised branch of `equalize`: no output ratio, no shares and no zero
        amount may be asked for; the deposit then goes through `DepositAll`. */
    method EqualizeFirst(inputs: (map<Token, real>, real), ratioOut: (map<Token, real>, real), sumRatios: real)
      returns (r: Result<(map<Token, real>, real)>)
      requires Valid() && !Initialized()
      modifies this
      ensures Valid()
      ensures EqualizedFirst(inputs, ratioOut, sumRatios, r)
    {
      hide MapSum, Value, SumOver, Distinct;
      if sumRatios + ratioOut.1 != 0.0 {
        return Err(RatioOnInitialDeposit);
      }
      if inputs.1 != 0.0 {
        return Err(ShareRedemptionOnFirstDeposit);
      }
      if exists t | t in inputs.0 :: inputs.0[t] == 0.0 {
        return Err(IncompleteFirstDeposit);
      }
      var tokensOut := map t | t in TokenSet(tokens) :: 0.0;
      var shares := DepositAll(inputs.0);
      if shares.Err? {
        return Err(shares.error);
      }
      return Ok((tokensOut, shares.value));
    }

    /** The end of `equalize` on an active pool: `owed` shares are split in proportion
        `Σ ratio_out[0] : ratio_out[1]`; the first part is redeemed by a mixed
        withdrawal with the ratios `ratio_out[0]` and the second is handed back. */
    method Settle(owed: real, ratioOut: (map<Token, real>, real), sumRatios: real)
      returns (r: Result<(map<Token, real>, real)>)
      requires Valid() && Initialized() && sumRatios == MapSum(ratioOut.0)
      modifies this
      ensures Valid() && weights == old(weights)
      ensures
                var split := SplitOwed(owed, sumRatios, ratioOut.1);
                if split.Err? then r == Err(ZeroDivision) && unchanged(this)
                else
                  && sharesIssued == old(sharesIssued) - split.value.0
                  && if sumRatios == 0.0 && (exists t :: t in tokens && t in ratioOut.0) then
                       r == Err(ZeroDivision) && balances == old(balances) && cachedInvariant == old(cachedInvariant)
                     else
                       var paid := Payouts(tokens, old(balances), weights, ratioOut.0, sumRatios, pow);
                       && (forall t :: t in tokens ==> balances[t] == old(balances)[t] - (if t in paid then paid[t] else 0.0))
                       && (!(ratioOut.0.Keys <= TokenSet(tokens)) ==> r == Err(MissingKey) && cachedInvariant == old(cachedInvariant))
                       && (ratioOut.0.Keys <= TokenSet(tokens) ==>
                             r == Ok((paid, split.value.1)) && cachedInvariant == Value(tokens, balances, weights, pow))
    {
      hide SplitOwed, MapSum, Value, SumOver, Distinct, Payouts;
      var split := SplitOwed(owed, sumRatios, ratioOut.1);
      if split.Err? {
        return Err(split.error);
      }
      var tokensOut := WithdrawAny(split.value.0, ratioOut.0);
      if tokensOut.Err? {
        return Err(tokensOut.error);
      }
      r := Ok((tokensOut.value, split.value.1));
    }

    /** The active branch of `equalize`: the tokens given are deposited as by
        `DepositAny`, the shares given are added to those issued for them, and the
        shares owed are split between a mixed withdrawal, which pays from the balances
        after the deposit, and shares handed back, in proportion
        `Σ ratio_out[0] : ratio_out[1]`. */
    method EqualizeActive(inputs: (map<Token, real>, real), ratioOut: (map<Token, real>, real), sumRatios: real)
      returns (r: Result<(map<Token, real>, real)>)
      requires Valid() && Initialized() && sumRatios == MapSum(ratioOut.0)
      modifies this
      ensures Valid() && weights == old(weights)
      ensures EqualizedActive(inputs, ratioOut, r, true)
    {
      hide SplitOwed, MapSum, Value, SumOver, Distinct, AnyAssetShares, Payouts, Credited;
      var shares := DepositAny(inputs.0);
      if shares.Err? {
        return Err(shares.error);
      }
      r := Settle(inputs.1 + shares.value, ratioOut, sumRatios);
    }

    /** `equalize`, with `withdraw_any` as corrected: the first deposit on an
        uninitialised pool, a deposit followed by a mixed withdrawal on an active one. */
    method Equalize(inputs: (map<Token, real>, real), ratioOut: (map<Token, real>, real))
      returns (r: Result<(map<Token, real>, real)>)
      requires Valid()
      modifies this
      ensures Valid()
      ensures old(Initialized()) ==> weights == old(weights)
      ensures !old(Initialized()) ==> EqualizedFirst(inputs, ratioOut, MapSum(ratioOut.0), r)
      ensures old(Initialized()) ==> EqualizedActive(inputs, ratioOut, r, true)
    {
      hide SplitOwed, MapSum, Value, SumOver, Distinct, AnyAssetShares, Payouts, Credited;
      var sumRatios := SumValues(ratioOut.0);
      if !Initialized() {
        r := EqualizeFirst(inputs, ratioOut, sumRatios);
      } else {
        r := EqualizeActive(inputs, ratioOut, sumRatios);
      }
    }

    /** `equalize` as written: on an active pool it reaches `withdraw_any`, whose
        guard always raises, after the deposit has already changed the balances. */
    method EqualizeAsWritten(inputs: (map<Token, real>, real), ratioOut: (map<Token, real>, real))
      returns (r: Result<(map<Token, real>, real)>)
      requires Valid()
      modifies this
      ensures Valid()
      ensures old(Initialized()) ==> weights == old(weights)
      ensures !old(Initialized()) ==> EqualizedFirst(inputs, ratioOut, MapSum(ratioOut.0), r)
      ensures old(Initialized()) ==> EqualizedActive(inputs, ratioOut, r, false)
    {
      hide SplitOwed, MapSum, Value, SumOver, Distinct;
      var sumRatios := SumValues(ratioOut.0);
      if !Initialized() {
        r := EqualizeFirst(inputs, ratioOut, sumRatios);
        return;
      }
      var shares := DepositAny(inputs.0);
      if shares.Err? {
        return Err(shares.error);
      }
      var owed := inputs.1 + shares.value;
      var split := SplitOwed(owed, sumRatios, ratioOut.1);
      if split.Err? {
        return Err(split.error);
      }
      var tokensOut := WithdrawAnyAsWritten(split.value.0, ratioOut.0);
      return Err(tokensOut.error);
    }
  }
}
