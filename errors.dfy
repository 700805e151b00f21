/** The failures an InfinityPool operation can raise, and the result type that carries them. */
module Errors {

  /** One constructor per distinct failure of the pool. Python's `ValueError`s are told
      apart by their message; `KeyError` and `ZeroDivisionError` are the exceptions the
      pool raises without meaning to. */
  datatype Error =
    | TooFewTokens                   // fewer than two tokens at construction
    | TokenSetMismatch               // first deposit whose keys differ from the tokens
    | NonPositiveAmount              // deposit_all amount that is zero or negative
    | NegativeAmount                 // deposit_one / deposit_any amount below zero
    | UninitializedPool              // operation that needs weights before the first deposit
    | InvalidToken                   // symbol that is not one of the pool's tokens
    | SameTokenSwap                  // swap of a token for itself
    | RatioMismatch                  // deposit_all proportions differ from the balances'
    | ExactlyOneNonZero              // deposit_one with zero or several non-zero entries
    | RatioOnInitialDeposit          // equalize asks for output on the first deposit
    | ShareRedemptionOnFirstDeposit  // equalize offers shares on the first deposit
    | IncompleteFirstDeposit         // equalize first deposit with a zero entry
    | MissingKey                     // dictionary lookup of an absent key (KeyError)
    | ZeroDivision                   // float division by zero (ZeroDivisionError)
    | NegativeTolerance              // math.isclose with a negative relative tolerance

  datatype Result<+T> = Ok(value: T) | Err(error: Error)
}
