/** Option and Result values, and the error conditions the compliance core reports. */
module Results {

  datatype Option<+T> = None | Some(value: T)

  /** Every way an operation of the core can fail; each carries the figures
      that the corresponding error message reports. */
  datatype Error =
    | AmountNotPositive
    | NoComplianceBalance(shipId: string, year: int)
    | BalanceNotPositive(cb: int)
    | NoAvailableSurplus(baseCB: int, totalBanked: int)
    | BankExceedsAvailable(amount: int, available: int, baseCB: int, totalBanked: int)
    | ApplyExceedsBanked(amount: int, available: int)
    | NoRoutesForShip(shipId: string, year: int)
    | NoBaseline
    | RouteNotFound(id: int)
    | EmptyPool
    | NegativePoolSum(sum: int)
    | DeficitExitsWorse(shipId: string, cbAfter: int, cbBefore: int)
    | SurplusExitsNegative(shipId: string, cbAfter: int)
    | MemberNotFound(shipId: string)

  datatype Result<+T> = Ok(value: T) | Err(error: Error)
}
