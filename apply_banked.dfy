/** Applying banked surplus (Article 20 of Regulation (EU) 2023/1805): at most
    the net banked amount may be applied; the ledger gets a negative entry and
    the stored CB is raised by the amount applied. */
module ApplyBanked {
  import opened Results
  import opened RouteEntity
  import opened PrismaComplianceRepository
  import opened PrismaBankRepository
  import BankSurplus

  datatype ApplyResult = ApplyResult(shipId: string, year: int, cbBefore: int, applied: int, cbAfter: int)

  /** The guard chain and the result figures of an apply request, given the
      stored CB record and the net banked amount. */
  function ApplyDecision(shipId: string, year: int, record: Option<ShipCompliance>, netBanked: int, amount: int)
    : (r: Result<ApplyResult>)
    ensures r.Ok? <==> amount > 0 && record.Some? && amount <= netBanked
    ensures amount <= 0 ==> r == Err(AmountNotPositive)
    ensures amount > 0 && record.None? ==> r == Err(NoComplianceBalance(shipId, year))
    ensures amount > 0 && record.Some? && amount > netBanked ==> r == Err(ApplyExceedsBanked(amount, netBanked))
    ensures r.Ok? ==> r.value.applied == amount && r.value.cbBefore == record.value.cbGco2eq
    ensures r.Ok? ==> r.value.cbAfter == r.value.cbBefore + amount && netBanked - amount >= 0
  {
    if amount <= 0 then Err(AmountNotPositive)
    else if record.None? then Err(NoComplianceBalance(shipId, year))
    else if amount > netBanked then Err(ApplyExceedsBanked(amount, netBanked))
    else
      var cb := record.value.cbGco2eq;
      RoundOfInteger(cb + amount);
      Ok(ApplyResult(shipId, year, cb, amount, Round((cb + amount) as real)))
  }

  /** Applies `amount` for (shipId, year): on success one ledger entry of
      -amount, then the CB record set to the old balance plus the amount;
      on failure nothing is written. */
  method ApplyBanked(complianceRepo: ComplianceRepository, bankRepo: BankRepository,
                     shipId: string, year: int, amount: int) returns (r: Result<ApplyResult>)
    modifies complianceRepo, bankRepo
    ensures r == ApplyDecision(shipId, year, old(complianceRepo.GetCB(shipId, year)),
                               old(bankRepo.GetBankedAmount(shipId, year)), amount)
    ensures bankRepo.entries == if r.Ok? then old(bankRepo.entries) + [BankEntry(shipId, year, -amount)]
                                else old(bankRepo.entries)
    ensures r.Ok? ==> complianceRepo.records
                      == Upserted(old(complianceRepo.records), old(complianceRepo.nextId), shipId, year, r.value.cbAfter)
    ensures r.Err? ==> complianceRepo.records == old(complianceRepo.records)
    ensures complianceRepo.nextId == old(complianceRepo.nextId)
    ensures r.Ok? ==> complianceRepo.GetCB(shipId, year)
                      == Some(old(complianceRepo.GetCB(shipId, year)).value.(cbGco2eq := r.value.cbAfter))
    ensures r.Ok? ==> bankRepo.GetBankedAmount(shipId, year) == old(bankRepo.GetBankedAmount(shipId, year)) - amount >= 0
    ensures bankRepo.GetTotalBankedAmount(shipId, year) == old(bankRepo.GetTotalBankedAmount(shipId, year))
    ensures forall s, y :: s != shipId || y != year ==>
              Lookup(complianceRepo.records, s, y) == Lookup(old(complianceRepo.records), s, y)
  {
    var cb := complianceRepo.GetCB(shipId, year);
    var availableBanked := bankRepo.GetBankedAmount(shipId, year);
    r := ApplyDecision(shipId, year, cb, availableBanked, amount);
    if r.Ok? {
      var entry := bankRepo.ApplyBanked(shipId, year, amount);
      var saved := complianceRepo.UpsertCB(shipId, year, r.value.cbAfter);
    }
  }

  /** Applying raises the stored CB but leaves the positive-only total where
      it was, so a ship that banks its whole surplus and applies it may bank
      the same amount again, and its total banked then exceeds its original CB. */
  lemma BankApplyBankAgain(record: ShipCompliance)
    requires record.cbGco2eq > 0
    ensures var s, y, b := record.shipId, record.year, record.cbGco2eq;
            var banked := [BankEntry(s, y, b)];
            var applied := banked + [BankEntry(s, y, -b)];
            && BankSurplus.BankDecision(s, y, Some(record), TotalBanked([], s, y), b).Ok?
            && ApplyDecision(s, y, Some(record), NetBanked(banked, s, y), b).Ok?
            && ApplyDecision(s, y, Some(record), NetBanked(banked, s, y), b).value.cbAfter == 2 * b
            && BankSurplus.BankDecision(s, y, Some(record.(cbGco2eq := 2 * b)), TotalBanked(applied, s, y), b).Ok?
            && TotalBanked(applied + [BankEntry(s, y, b)], s, y) == 2 * b
  {
    var s, y, b := record.shipId, record.year, record.cbGco2eq;
    var banked := [BankEntry(s, y, b)];
    var applied := banked + [BankEntry(s, y, -b)];
    AppendEntry([], BankEntry(s, y, b), s, y);
    assert [] + [BankEntry(s, y, b)] == banked;
    AppendEntry(banked, BankEntry(s, y, -b), s, y);
    AppendEntry(applied, BankEntry(s, y, b), s, y);
  }
}
