/** Banking surplus (Article 20 of Regulation (EU) 2023/1805): a ship may
    bank at most its base CB less everything it has ever banked for that
    year; the base CB itself is not changed. */
module BankSurplus {
  import opened Results
  import opened PrismaComplianceRepository
  import opened PrismaBankRepository

  datatype BankResult = BankResult(
    shipId: string,
    year: int,
    cbBefore: int,
    totalBankedBefore: int,
    availableBefore: int,
    banked: int,
    totalBankedAfter: int,
    availableAfter: int,
    cbAfter: int)

  /** The guard chain and the result figures of a banking request, given the
      stored CB record and the positive-only total banked so far. */
  function BankDecision(shipId: string, year: int, record: Option<ShipCompliance>, totalBanked: int, amount: int)
    : (r: Result<BankResult>)
    ensures r.Ok? <==> record.Some? && record.value.cbGco2eq > 0 && 0 < amount <= record.value.cbGco2eq - totalBanked
    ensures record.None? ==> r == Err(NoComplianceBalance(shipId, year))
    ensures record.Some? && record.value.cbGco2eq <= 0 ==> r == Err(BalanceNotPositive(record.value.cbGco2eq))
    ensures record.Some? && record.value.cbGco2eq > 0 && amount <= 0 ==> r == Err(AmountNotPositive)
    ensures record.Some? && record.value.cbGco2eq > 0 && amount > 0 && record.value.cbGco2eq - totalBanked <= 0
            ==> r == Err(NoAvailableSurplus(record.value.cbGco2eq, totalBanked))
    ensures record.Some? && 0 < record.value.cbGco2eq - totalBanked < amount && record.value.cbGco2eq > 0
            ==> r == Err(BankExceedsAvailable(amount, record.value.cbGco2eq - totalBanked, record.value.cbGco2eq, totalBanked))
    ensures r.Ok? ==> r.value.banked == amount && r.value.cbBefore == r.value.cbAfter == record.value.cbGco2eq
    ensures r.Ok? ==> r.value.totalBankedBefore == totalBanked && r.value.totalBankedAfter == totalBanked + amount
    ensures r.Ok? ==> r.value.availableAfter == r.value.availableBefore - amount && r.value.availableAfter >= 0
    ensures r.Ok? ==> r.value.totalBankedAfter + r.value.availableAfter == r.value.cbBefore
  {
    if record.None? then Err(NoComplianceBalance(shipId, year))
    else
      var baseCB := record.value.cbGco2eq;
      if baseCB <= 0 then Err(BalanceNotPositive(baseCB))
      else if amount <= 0 then Err(AmountNotPositive)
      else
        var availableCB := baseCB - totalBanked;
        if availableCB <= 0 then Err(NoAvailableSurplus(baseCB, totalBanked))
        else if amount > availableCB then Err(BankExceedsAvailable(amount, availableCB, baseCB, totalBanked))
        else Ok(BankResult(shipId, year, baseCB, totalBanked, availableCB, amount,
                           totalBanked + amount, availableCB - amount, baseCB))
  }

  /** Banks `amount` for (shipId, year): one positive ledger entry on success,
      no write at all on failure, and never a write to the CB table. */
  method BankSurplus(complianceRepo: ComplianceRepository, bankRepo: BankRepository,
                     shipId: string, year: int, amount: int) returns (r: Result<BankResult>)
    modifies bankRepo
    ensures r == BankDecision(shipId, year, complianceRepo.GetCB(shipId, year),
                              old(bankRepo.GetTotalBankedAmount(shipId, year)), amount)
    ensures bankRepo.entries == if r.Ok? then old(bankRepo.entries) + [BankEntry(shipId, year, amount)]
                                else old(bankRepo.entries)
    ensures r.Ok? ==> bankRepo.GetTotalBankedAmount(shipId, year) == r.value.totalBankedAfter
    ensures r.Ok? ==> bankRepo.GetTotalBankedAmount(shipId, year) <= complianceRepo.GetCB(shipId, year).value.cbGco2eq
    ensures r.Ok? ==> bankRepo.GetBankedAmount(shipId, year) == old(bankRepo.GetBankedAmount(shipId, year)) + amount
  {
    var baseCB := complianceRepo.GetCB(shipId, year);
    var totalBanked := bankRepo.GetTotalBankedAmount(shipId, year);
    r := BankDecision(shipId, year, baseCB, totalBanked, amount);
    if r.Ok? {
      var entry := bankRepo.BankSurplus(shipId, year, amount);
    }
  }

  /** The ledger after a run of banking requests against one fixed CB record;
      a request that fails leaves the ledger as it was. */
  function BankRun(entries: seq<BankEntry>, record: ShipCompliance, amounts: seq<int>): seq<BankEntry>
  {
    if amounts == [] then entries
    else
      var before := BankRun(entries, record, amounts[..|amounts| - 1]);
      var amount := amounts[|amounts| - 1];
      var total := TotalBanked(before, record.shipId, record.year);
      if BankDecision(record.shipId, record.year, Some(record), total, amount).Ok?
      then before + [BankEntry(record.shipId, record.year, amount)]
      else before
  }

  /** However many requests are made, banking never takes the positive-only
      total above the base CB (or above where it already stood). */
  lemma {:induction false} BankRunStaysWithinBase(entries: seq<BankEntry>, record: ShipCompliance, amounts: seq<int>)
    ensures var start := TotalBanked(entries, record.shipId, record.year);
            TotalBanked(BankRun(entries, record, amounts), record.shipId, record.year)
              <= if start > record.cbGco2eq then start else record.cbGco2eq
  {
    if amounts != [] {
      var before := BankRun(entries, record, amounts[..|amounts| - 1]);
      var amount := amounts[|amounts| - 1];
      BankRunStaysWithinBase(entries, record, amounts[..|amounts| - 1]);
      AppendEntry(before, BankEntry(record.shipId, record.year, amount), record.shipId, record.year);
    }
  }

  /** Base CB 8000: banking 3000 and then 4000 succeeds, after which a
      request for 1500 fails with only 1000 available. */
  lemma BankTwiceThenExceed(record: ShipCompliance)
    requires record.cbGco2eq == 8000
    ensures var entries := BankRun([], record, [3000, 4000]);
            TotalBanked(entries, record.shipId, record.year) == 7000
            && BankDecision(record.shipId, record.year, Some(record), 7000, 1500)
               == Err(BankExceedsAvailable(1500, 1000, 8000, 7000))
  {
    var s, y := record.shipId, record.year;
    var first := BankRun([], record, [3000]);
    assert [3000, 4000][..1] == [3000];
    assert [3000][..0] == [];
    assert BankRun([], record, []) == [];
    assert BankDecision(s, y, Some(record), 0, 3000).Ok?;
    assert first == [BankEntry(s, y, 3000)];
    AppendEntry([], BankEntry(s, y, 3000), s, y);
    AppendEntry(first, BankEntry(s, y, 4000), s, y);
  }
}
