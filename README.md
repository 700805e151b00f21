# InfinityPool in Dafny

A model of the `InfinityPool` class of `infinity_pool.py`: a single-writer, in-memory,
Balancer-style weighted pool over at least two token symbols. The pool keeps a weight and
a balance per token, the number of pool shares issued, and a cached value function
`k = Π balances[t] ** weights[t]`. It has two phases, chosen by whether
`weights[tokens[0]]` is non-zero:

- **uninitialised**: every weight and balance is zero. The first all-asset deposit, or
  the first branch of `equalize`, fixes the weights as each token's share of that deposit;
- **active**: deposits (all-asset, single-asset, mixed), withdrawals (all-asset,
  single-asset, mixed) and swaps update the balances in place. All but `swap` then
  recompute the cached value function.

The project has six modules:

| file | module | contents |
|---|---|---|
| `errors.dfy` | `Errors` | the error kinds (one per kind of `ValueError`, plus `KeyError` and `ZeroDivisionError`) and `Result` |
| `amounts.dfy` | `Amounts` | token lists, sums over the tokens and over a whole dict, per-token crediting |
| `value_function.dfy` | `ValueFunction` | the value function as a product, and the laws of `**` its lemmas use |
| `deposit_ratio.dfy` | `DepositRatio` | `check_deposit_ratio` with `math.isclose` and `zip` |
| `formulas.dfy` | `Formulas` | the share, amount, price and split formulas, and what is proved about them |
| `infinity_pool.dfy` | `Pool` | the `InfinityPool` class and the loops its methods run |

Modelling choices:

- `**` on floats cannot be defined here. It is the pool's constant `pow: (real, real) -> real`,
  given at construction. Each lemma requires, as ghost predicates, only the laws of real
  exponentiation it uses (`PowPositive`, `PowAtMostOne`, `PowMultiplicative`,
  `PowComposes`, `PowExponentAdds`, `PowIdentity`, `PowMonotone`, `PowOneBase`,
  `PowZeroBase`). Real exponentiation, with `0 ** e == 0` for `e > 0`, satisfies all of
  them.
- Every balance is positive after a first deposit of positive amounts. The value-function
  claims for deposits and withdrawals require positive balances before the call
  (`AllPositive`), because `Valid` does not keep balances positive: a withdrawal of more
  than the supply, or a negative redemption, can make them zero or negative.
- Amounts are `real`. Each place where Python raises becomes an `Err`:
  - `ValueError` becomes the error named after its message;
  - `KeyError` becomes `MissingKey`;
  - `ZeroDivisionError` becomes `ZeroDivision`.
- A dict argument is assumed to iterate the pool's tokens in pool order, then any keys
  outside the pool. When a loop raises `KeyError` part-way through, the updates it made
  before that point are kept, as they are in Python.
- `check_deposit_ratio` pairs the two ratio lists by position, as `zip` does. Under the
  order above, the deposit's list holds the pool tokens the deposit names, in pool order.
- The docstring of `deposit_all` says `bk` is the balance before the deposit. The code
  divides by the balance after the deposit, and the model follows the code.
  `Formulas.AllAssetSharesAfterDeposit` states the difference this makes.
- `withdraw_one` and `withdraw_any` cannot run past their guards as written. They are
  modelled twice: as written, and as evidently intended (see Findings). The intended
  versions are the ones `equalize` uses.

## Model

| member | source | states |
|---|---|---|
| Pool.New | infinity_pool.py:56-69 | construction fails exactly when fewer than two tokens are given; otherwise the new pool is valid and uninitialised |
| Pool.InfinityPool.PhaseOfWeights | infinity_pool.py:121 | on a valid pool the phase test `Initialized` (`weights[tokens[0]]` non-zero) holds exactly when every weight is non-zero, and fails exactly when every weight is zero |
| Pool.InfinityPool.constructor | infinity_pool.py:59-69 | a fresh pool has every weight and balance 0, no shares issued and invariant 0 |
| Pool.InfinityPool.Initialize | infinity_pool.py:84-94 | rejects a key set other than the tokens, then any non-positive amount, with nothing changed; otherwise balances become the deposit, each weight is the amount over the deposit's positive total, shares issued become FIRST, and the pool is valid (weights positive, summing to 1) |
| Formulas.InitialWeights | infinity_pool.py:93 | weights `a[t] / Σa` over a deposit of positive amounts are positive and sum to exactly 1 |
| Formulas.WeightsInUnitInterval | infinity_pool.py:93 | positive weights summing to 1 over at least two tokens each lie strictly between 0 and 1 |
| Formulas.PositiveTotal | infinity_pool.py:90-93 | a dict of positive amounts keyed by the tokens has a positive sum, so the division by it cannot fail |
| Amounts.MapSum | infinity_pool.py:93 | the sum of a dict's values is non-negative when every value is, and positive when every value is positive and there is one |
| Amounts.SumValues | infinity_pool.py:93 | the loop behind `sum(d.values())` computes the sum of every value, in any order of the keys |
| Amounts.MapSumRemove | infinity_pool.py:93 | the sum of a dict's values does not depend on which key is taken first |
| Amounts.MapSumIsSumOver | infinity_pool.py:93 | for a dict keyed by exactly the distinct tokens, the sum of its values equals its sum over the token list |
| ValueFunction.Value | infinity_pool.py:122-124 | the value function `Π b[t] ** w[t]` is positive when every balance is and `**` keeps positive bases positive |
| Pool.ValueOf | infinity_pool.py:122-124 | the loop `k = 1; k *= b[t] ** w[t]` computes the value function `Value` over the tokens |
| ValueFunction.ValueExtend | infinity_pool.py:124 | one more token multiplies its factor `b[t] ** w[t]` into the value |
| ValueFunction.ValueMonotone | infinity_pool.py:117-118 | with positive weights and `**` positive and increasing in a positive base, raising positive balances never lowers the value function, and raising any one of them strictly raises it: the reason `k` grows with a deposit and falls with a withdrawal |
| ValueFunction.ValueOneChange | infinity_pool.py:117-118 | changing one positive balance to another positive one, the others kept, moves the value function the same way |
| Pool.OneCreditRaisesValue | infinity_pool.py:313-318 | a positive single-asset deposit into positive balances raises the value function |
| Pool.CreditedRaisesValue | infinity_pool.py:357-369 | crediting non-negative amounts to positive balances never lowers the value function, and a positive amount raises it |
| Pool.CreditedEachRaisesValue | infinity_pool.py:222-223 | a deposit of positive amounts reaching every token raises the value function |
| Pool.RedemptionMovesValue | infinity_pool.py:450-456 | a single-asset withdrawal below the supply from positive balances lowers the value function for a positive redemption, keeps the balances for zero, and raises the value for a negative one |
| Pool.AsksForSomeSum | infinity_pool.py:498 | ratios that ask for something name only pool tokens and have a positive sum, so no amount fails with ZeroDivision |
| Pool.PayoutsLowerValue | infinity_pool.py:496-504 | a mixed withdrawal whose ratios ask for something leaves every positive balance positive and no larger, and lowers the value function |
| Pool.InfinityPool.SetInvariant | infinity_pool.py:121-126 | on an active pool, caches and returns `Π b[t] ** w[t]`; on an uninitialised one, leaves the invariant unchanged and returns it; nothing else changes |
| Formulas.SpotPrice | infinity_pool.py:158-160 | fails exactly when a weight or the currency's balance is zero; the price times `b_currency / w_currency` is `b_asset / w_asset` |
| Formulas.SpotPriceSelf | infinity_pool.py:158-160 | a token's price in itself is exactly 1 |
| Formulas.SpotPriceReciprocal | infinity_pool.py:158-160 | the price of a in c and the price of c in a multiply to 1 |
| Formulas.SpotPriceChain | infinity_pool.py:158-160 | the price of a in c times that of c in d is the price of a in d |
| Pool.InfinityPool.CalculateSpotPrice | infinity_pool.py:155-160 | fails with `InvalidToken` exactly when a symbol is not a pool token; otherwise succeeds exactly when the pool is active and the currency's balance is non-zero, with the price relation above; changes no field |
| Pool.InfinityPool.CheckDepositRatio | infinity_pool.py:238-262 | returns exactly `RatioCheck` over the pool's tokens and balances, and changes nothing |
| DepositRatio.ProportionalDepositPasses | infinity_pool.py:251-262 | a deposit that is a positive multiple of the balances passes the ratio check for any non-negative tolerance |
| DepositRatio.ProportionalSums | infinity_pool.py:252-256 | a deposit `c` times the balances has `c` times their total |
| DepositRatio.ProportionalShares | infinity_pool.py:252-256 | such a deposit gives each token the same share of the deposit as of the balances |
| DepositRatio.SameShares | infinity_pool.py:251-257 | equal shares token by token give equal ratio lists |
| DepositRatio.ExistingRatios | infinity_pool.py:251-254 | one ratio per pool token, each that token's balance over the balances' total |
| DepositRatio.PresentRatios | infinity_pool.py:255-257 | the deposit's ratios for the pool tokens it names, in pool order: empty when it names none, and the deposit's share of each token, like `ExistingRatios` of the deposit, when it names them all |
| DepositRatio.IsClose | infinity_pool.py:260 | `math.isclose` with a relative tolerance only: equal values are always close, a zero tolerance means exact equality, and under a tolerance below 1 zero is close to nothing but zero |
| DepositRatio.ZipAllClose | infinity_pool.py:259-262 | `zip` compares only the common length, so an empty list on either side passes, and so does a list against itself |
| DepositRatio.RatioCheck | infinity_pool.py:251-262 | the only failures are ZeroDivision and a negative tolerance; balances summing to zero always raise ZeroDivision; an empty deposit passes |
| DepositRatio.Abs | infinity_pool.py:260 | the magnitude `isclose` compares is non-negative and is `x` or `-x` |
| Amounts.FirstMissing | infinity_pool.py:222-223 | where `for t in tokens: d[t]` raises KeyError: every earlier token is a key of `d`, and the token at that index is not |
| Pool.CreditEach | infinity_pool.py:222-223 | the loop credits each token its amount up to the first token the deposit does not name, and reports that position; later tokens keep their balance |
| Amounts.AddPrefixPointwise | infinity_pool.py:222-223 | after the first `n` updates each token holds its old balance plus its amount exactly when it is among the first `n` and named |
| Formulas.AllAssetShares | infinity_pool.py:225-227 | fails exactly when the balance divided by is zero; otherwise the shares times the balance equal the deposit times SUPPLY |
| Formulas.AllAssetSharesAfterDeposit | infinity_pool.py:225-227 | the docstring's deposit `dk = pi * bk / ps` for `pi` shares earns `pi * SUPPLY / (SUPPLY + pi)` shares, because the code divides by the balance after the deposit: fewer than `pi` whenever `pi` is positive |
| Pool.InfinityPool.DepositAll | infinity_pool.py:210-236 | rejects any non-positive amount with nothing changed; on an uninitialised pool it fails with `TokenSetMismatch` unless the keys are the tokens, and otherwise returns FIRST with the balances set to the deposit, each weight its share of the deposit, FIRST shares issued and the value cached; on an active pool it fails on the ratio check with nothing changed, otherwise credits each token, fails with KeyError at the first token not named, and returns `amount[t0] * SUPPLY / b[t0]` with the balance after the deposit; weights and shares issued are unchanged. Under `PowPositive` and `PowMonotone`, when every balance was positive, a successful deposit into an active pool caches a value function larger than the one before, as the `set_invariant` docstring promises for a deposit |
| Pool.NonZeroKeys | infinity_pool.py:302 | the keys counted are keys of the deposit, every key left out has amount zero, and a count of one means some amount is non-zero |
| Pool.InfinityPool.DepositOne | infinity_pool.py:297-320 | fails, with nothing changed, on an uninitialised pool, unless exactly one amount is non-zero, on a negative amount, or on a token outside the pool; on success only that token's balance grows, by the amount, and shares issued grow by exactly the returned `SUPPLY * (a/b) ** w`, computed with the balance before the deposit. Under `PowPositive` and `PowMonotone`, when every balance was positive, the cached value function after a successful deposit is larger than the one before |
| Formulas.SingleAssetShares | infinity_pool.py:310-312 | fails exactly when the balance is zero |
| Formulas.SingleAssetSharesBounds | infinity_pool.py:310-312 | a positive deposit earns positive shares, and at most SUPPLY while it does not exceed the balance |
| Formulas.SingleAssetSharesZero | infinity_pool.py:310-312 | a zero amount earns no shares |
| Pool.CreditNamed | infinity_pool.py:357-360 | the loop computes `Credited`: each named amount added to its token's balance, tokens not named keeping theirs |
| Formulas.AnyAssetShares | infinity_pool.py:363-367 | succeeds exactly when every pool token is named and has a non-zero balance; otherwise fails with KeyError or ZeroDivision |
| Formulas.AnyAssetSharesOneToken | infinity_pool.py:363-367 | a mixed deposit of a single token earns exactly what the single-asset formula gives for it, with `b` the balance passed in. `DepositAny` passes the balance after the deposit, whereas `DepositOne` passes the balance before it |
| Formulas.AnyAssetSharesZero | infinity_pool.py:363-367 | tokens deposited with zero amounts earn nothing |
| Pool.InfinityPool.DepositAny | infinity_pool.py:349-372 | fails on an uninitialised pool or a negative amount, with nothing changed; otherwise the balances become `Credited` (each named pool token's balance grows by its amount, the others keep theirs), a key outside the pool raises KeyError, and the shares are summed with the balances after the deposit; weights and shares issued are unchanged. Under `PowPositive` and `PowMonotone`, when every balance was positive, the cached value function after a successful deposit is at least the one before, and larger when some amount is positive |
| Formulas.AllAssetAmount | infinity_pool.py:402-405 | the amount out is `redeem / SUPPLY` of the balance, and what remains is `(SUPPLY - redeem) / SUPPLY` of it |
| Pool.InfinityPool.WithdrawAll | infinity_pool.py:397-413 | fails on an uninitialised pool with nothing changed; otherwise shares issued drop by exactly `redeem`, every token pays out `AllAssetAmount` of its old balance, and that amount is taken off its balance |
| Formulas.WithdrawAllScalesValue | infinity_pool.py:402-409 | an all-asset withdrawal scales the value function by `(SUPPLY - redeem) / SUPPLY`, since the weights sum to 1 |
| ValueFunction.ValueScaled | infinity_pool.py:122-124 | scaling every balance by `f` scales the value by `f ** Σw` |
| ValueFunction.FoldPowers | infinity_pool.py:122-124 | `Π f ** w[t] == f ** Σ w[t]` |
| Pool.InfinityPool.WithdrawOneAsWritten | infinity_pool.py:445 | the guard `weights[0]` raises KeyError whatever the arguments |
| Pool.InfinityPool.WithdrawOne | infinity_pool.py:443-458 | with the guard on `weights[tokens[0]]`: fails on an uninitialised pool with nothing changed; shares issued drop by `redeem` before the token lookup can fail; on success only that token's balance drops, by the returned amount; for `0 <= redeem < SUPPLY` the balance stays positive. Under `PowPositive`, `PowMonotone` and `PowOneBase`, for a pool token, `redeem < SUPPLY` and positive balances before the call, the cached value function falls below the one before when `redeem > 0`, equals it when `redeem == 0`, and rises above it when `redeem < 0`, which the source does not reject |
| Formulas.SingleAssetAmount | infinity_pool.py:450-452 | fails exactly when the weight is zero |
| Formulas.SingleAssetAmountBounds | infinity_pool.py:450-452 | redeeming less than the supply pays out at least nothing and less than the whole balance |
| Formulas.SingleAssetAmountSign | infinity_pool.py:450-452 | below the supply, the amount is less than the balance, and positive, zero or negative as `redeem` is; a negative redemption pays a negative amount, adding to the balance |
| Pool.InfinityPool.WithdrawAnyAsWritten | infinity_pool.py:490 | the guard `weights[0]` raises KeyError whatever the arguments |
| Formulas.AnyAssetAmount | infinity_pool.py:497-501 | fails exactly when the ratios sum to zero or the weight is zero |
| Formulas.AnyAssetAmountBounds | infinity_pool.py:497-501 | a ratio between 0 and the total pays out at least nothing and less than the whole balance |
| Formulas.AnyAssetAmountSign | infinity_pool.py:497-501 | with `1 ** e == 1` and `**` increasing, a positive ratio no larger than the total pays out a positive amount, less than the balance |
| Pool.Payouts | infinity_pool.py:496-501 | the payouts are keyed by pool tokens the ratios name |
| Pool.PayoutsStep | infinity_pool.py:496-501 | one more loop step adds the next token's payout when the ratios name it |
| Pool.PayOutStep | infinity_pool.py:496-502 | one loop step keeps the loop's invariant, and an amount fails only when the ratios sum to zero, before anything is paid |
| Pool.PayOut | infinity_pool.py:496-502 | the loop fails exactly when the ratios sum to zero and name a pool token, with balances untouched; otherwise it pays one amount per pool token named, each taken off its own balance |
| Pool.InfinityPool.WithdrawAny | infinity_pool.py:488-505 | with the guard on `weights[tokens[0]]` and per-token subtraction: fails on an uninitialised pool with nothing changed; shares issued drop by `redeem`; pays and debits one amount per pool token named; a key outside the pool raises KeyError after the pool tokens are paid. When the ratios ask for something (`AsksForSome`: non-negative, over pool tokens, one of them positive), every balance was positive and `**` obeys `PowPositive`, `PowMonotone` and `PowOneBase`, the call succeeds and the cached value function falls below the one before |
| Formulas.SwapAmount | infinity_pool.py:552-556 | fails exactly when `b_in + a_in` or the out-weight is zero |
| Formulas.SwapAmountBounds | infinity_pool.py:552-556 | for `a_in >= 0`, `0 <= amount_out < b_out` |
| Formulas.SwapKeepsFactors | infinity_pool.py:552-558 | the two tokens' factors `b ** w` multiply to the same value before and after the swap |
| Formulas.SwapKeepsValue | infinity_pool.py:519-528 | a swap leaves the value function `Π b ** w` unchanged |
| ValueFunction.ValueTwoChanged | infinity_pool.py:519-528 | changing two balances leaves the value unchanged when the product of their two factors is unchanged |
| Pool.InfinityPool.Swap | infinity_pool.py:543-560 | guards fail in this order: uninitialised, unknown symbol, same token, each with nothing changed; on success only the in-balance grows by `a_in` and the out-balance drops by the returned amount; weights, shares issued and the cached invariant are untouched; the out-balance stays positive; under the laws of `**` the value function is unchanged |
| Formulas.SplitOwed | infinity_pool.py:598-604 | fails exactly when `denom` is zero; otherwise the shares redeemed and the shares returned add up to exactly `shares_owed`, and the redeemed part is `shares_owed * Σratios / denom` |
| Pool.InfinityPool.EqualizeFirst | infinity_pool.py:606-615 | the two-state predicate `EqualizedFirst`: on an uninitialised pool, fails in order on a non-zero output ratio, a non-zero share input and a zero deposit value, then as `deposit_all` does on a negative amount (`NonPositiveAmount`) or a key set other than the tokens (`TokenSetMismatch`), each with nothing changed; otherwise returns `({t: 0.0}, FIRST)` and leaves the pool as the first deposit seeds it: balances the deposit, weights its shares, FIRST shares issued, the value cached |
| Pool.InfinityPool.Settle | infinity_pool.py:596-604 | fails with ZeroDivision, nothing changed, when `denom` is zero; otherwise shares issued drop by the redeemed part of the split, and the mixed withdrawal of that part pays `Payouts` from the balances, debits them, and returns them with the shares handed back, or fails as `WithdrawAny` does. When the withdrawal fails (ratios summing to zero, or a key outside the pool) the cached invariant is unchanged; on success it is the value of the new balances |
| Pool.InfinityPool.EqualizeActive | infinity_pool.py:594-604 | the two-state predicate `EqualizedActive` with the corrected withdrawal: on an active pool, fails as `DepositAny` does (a negative amount changes nothing; a foreign key or a failed share sum keeps the credited balances and the old cached invariant); then the shares owed are the shares given plus `AnyAssetShares` over the credited balances; fails when `denom` is zero, with the value of the credited balances cached; otherwise shares issued drop by the redeemed part, each token pays `Payouts` of its credited balance, and the result is those payouts with the shares handed back, with the value of the new balances cached; when the withdrawal fails instead, the value of the credited balances stays cached |
| Pool.InfinityPool.Equalize | infinity_pool.py:592-617 | the uninitialised branch exactly as `EqualizeFirst` and the active one exactly as `EqualizeActive`, with `withdraw_any` as intended |
| Pool.InfinityPool.EqualizeAsWritten | infinity_pool.py:592-617 | the uninitialised branch as `EqualizeFirst`; on an active pool the call always fails, as stated by `EqualizedActive` without the correction: as `deposit_any` does (a negative amount changes nothing; a foreign key or a failed share sum keeps the credited balances and the old cached invariant), with ZeroDivision when `denom` is zero (the value of the credited balances cached), and otherwise with KeyError at the `withdraw_any` guard, with the balances credited, the value of the credited balances cached, and shares issued and weights unchanged |

## Left out

- `**` is the parameter `pow`. The model knows only the laws lemmas require of it. It
  does not model float rounding or overflow, the complex number Python's float `**`
  returns for a negative base and a non-integer exponent, or the `ZeroDivisionError` it
  raises for `0.0` to a negative power.
- Floating-point arithmetic: every amount is an exact `real`, so no result depends on
  rounding. Concrete magnitudes are not stated.
- Dict iteration order is fixed as the pool's tokens in pool order, then any other keys.
  An order that puts a foreign key first would stop a loop earlier.
- Pool.New: requires distinct token symbols, and so does the constructor. The source does
  not check this.
- Pool.InfinityPool.DepositAll: the ratio check is modelled with the deposit's list in
  pool order. It differs from `zip` over the raw dict only when the deposit lacks a pool
  token and also names a foreign one.
- Pool.InfinityPool.WithdrawAll: that the value function scales by
  `(SUPPLY - redeem) / SUPPLY` is stated as the lemma `Formulas.WithdrawAllScalesValue`,
  whose requires are this method's postconditions, not as an `ensures` of the method.
- Pool.InfinityPool.WithdrawAny: the amounts paid depend on the ratios only, not on
  `redeem`, as in the source. No relation between shares redeemed and tokens paid is
  claimed.
- The default `tolerance=1e-9` of `check_deposit_ratio` (infinity_pool.py:238-239) is
  not modelled as a default: `CheckDepositRatio` takes the tolerance as an argument, and
  `DepositAll` passes `1e-6`, as the source's caller does.
- `deposit_all` and `deposit_any` do not add the shares they issue to `shares_issued`,
  and the model keeps that.
- The single-asset round trip claimed in the `withdraw_one` docstring is not stated. It
  does not follow from the formulas: `deposit_one` computes `SUPPLY * (a/b) ** w`, and
  both formulas use the constant SUPPLY rather than the shares issued.
- `initialize` stores the caller's dict itself, so later updates alias it. The model
  stores a copy.
- `main` (the demo) and `status` (a reporting snapshot) are left out. They have no
  behaviour to verify.
- `infinity_pool.cpp` is not part of this model.
- Concurrency: the class is a single-writer object with no locking.

## Findings

| source | as written | input that shows it | evidently intended | confidence | as-written member | corrected member |
|---|---|---|---|---|---|---|
| infinity_pool.py:445 | `withdraw_one` guards on `self.weights[0]`, but weights are keyed by token symbol | any call, for example `withdraw_one("ETH", 1.0)` on an active pool: KeyError | guard on `self.weights[self.tokens[0]]`, as the other operations do | high (not executed) | Pool.InfinityPool.WithdrawOneAsWritten | Pool.InfinityPool.WithdrawOne |
| infinity_pool.py:490, 502 | `withdraw_any` guards on `self.weights[0]`, and `self.balances -= amount_out[token]` subtracts a float from the whole dict | any call: KeyError at the guard, and past it a TypeError | guard on `self.weights[self.tokens[0]]`, and `self.balances[token] -= amount_out[token]` | high (not executed) | Pool.InfinityPool.WithdrawAnyAsWritten | Pool.InfinityPool.WithdrawAny |
| infinity_pool.py:602 | the active branch of `equalize` calls `withdraw_any`, which always raises, after `deposit_any` has credited the balances | `equalize(({"X": 1.0, "Y": 1.0}, 0.0), ({"X": 1.0}, 0.0))` on an active pool over `["X", "Y"]`: KeyError at the `withdraw_any` guard, with the deposit kept | the corrected `withdraw_any`, so that the shares owed split into tokens out and shares returned | high (not executed) | Pool.InfinityPool.EqualizeAsWritten | Pool.InfinityPool.Equalize |
