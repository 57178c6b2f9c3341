/** Adjusted compliance balance (Article 20 of Regulation (EU) 2023/1805):
    the stored base CB plus the net amount still banked, the figure pooling
    starts from. */
module GetAdjustedCB {
  import opened Results
  import opened RouteEntity
  import opened PrismaComplianceRepository
  import opened PrismaBankRepository

  datatype AdjustedCB = AdjustedCB(shipId: string, year: int, cbBefore: int, bankedAmount: int, cbAfter: int)

  /** Reads the base CB and the net banked amount; writes nothing. */
  function GetAdjustedCB(complianceRepo: ComplianceRepository, bankRepo: BankRepository, shipId: string, year: int)
    : (r: Result<AdjustedCB>)
    reads complianceRepo, bankRepo
    ensures r.Err? <==> complianceRepo.GetCB(shipId, year).None?
    ensures r.Err? ==> r.error == NoComplianceBalance(shipId, year)
    ensures r.Ok? ==> r.value.shipId == shipId && r.value.year == year
    ensures r.Ok? ==> r.value.cbBefore == complianceRepo.GetCB(shipId, year).value.cbGco2eq
    ensures r.Ok? ==> r.value.bankedAmount == bankRepo.GetBankedAmount(shipId, year)
    ensures r.Ok? ==> r.value.cbAfter - r.value.cbBefore == r.value.bankedAmount
  {
    match complianceRepo.GetCB(shipId, year)
    case None => Err(NoComplianceBalance(shipId, year))
    case Some(baseCB) =>
      var bankedAmount := bankRepo.GetBankedAmount(shipId, year);
      var adjustedCB := baseCB.cbGco2eq + bankedAmount;
      RoundOfInteger(bankedAmount);
      RoundOfInteger(adjustedCB);
      Ok(AdjustedCB(shipId, year, baseCB.cbGco2eq, Round(bankedAmount as real), Round(adjustedCB as real)))
  }
}
