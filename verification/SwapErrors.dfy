/** Failure kinds of the swap simulator, one per `anyhow!` site. */
module SwapErrors {

  datatype SwapError =
    | LiquidityInsufficient
    | MissingBitmapExtension
    | BitmapSearchFailed
    | MissingTickArray(start: int)
    | MissingLiquidityNet(tick: int)
    | SqrtPriceFailed(tick: int)
    | StepFailed
    | FeeOverflow
    | StepInputOverflow
    | StepExceedsRemaining
    | OutputOverflow
    | LiquidityUpdateFailed(tick: int)
    | TickFailed
    | FeeRateFailed(stateMissing: bool)
    | InputUnderflow
  {
    /** A bitmap search could not be carried out. */
    predicate IsBitmapError() {
      MissingBitmapExtension? || BitmapSearchFailed?
    }

    /** The snapshot lacks chain data the run would need; nothing is said about the pool itself. */
    predicate IsDataError() {
      IsBitmapError() || MissingTickArray?
    }
  }
}
