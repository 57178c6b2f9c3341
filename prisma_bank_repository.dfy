/** The banking ledger: an append-only table of signed entries per
    (shipId, year). A positive entry banks surplus, a negative entry applies
    previously banked surplus. */
module PrismaBankRepository {
  import opened Results

  datatype BankEntry = BankEntry(shipId: string, year: int, amountGco2eq: int)

  predicate HasKey(e: BankEntry, shipId: string, year: int)
  {
    e.shipId == shipId && e.year == year
  }

  /** Sum of every entry for the key, folded from the first entry on; never
      above the sum of its positive entries. */
  function NetBanked(entries: seq<BankEntry>, shipId: string, year: int): (n: int)
    ensures n <= TotalBanked(entries, shipId, year)
  {
    if entries == [] then 0
    else
      var e := entries[|entries| - 1];
      NetBanked(entries[..|entries| - 1], shipId, year) + (if HasKey(e, shipId, year) then e.amountGco2eq else 0)
  }

  /** Sum of the strictly positive entries for the key: never below zero. */
  function TotalBanked(entries: seq<BankEntry>, shipId: string, year: int): (t: int)
    ensures t >= 0
  {
    if entries == [] then 0
    else
      var e := entries[|entries| - 1];
      TotalBanked(entries[..|entries| - 1], shipId, year)
        + (if HasKey(e, shipId, year) && e.amountGco2eq > 0 then e.amountGco2eq else 0)
  }

  /** The entries for the key, in ledger order. */
  function Records(entries: seq<BankEntry>, shipId: string, year: int): (rs: seq<BankEntry>)
    ensures |rs| <= |entries|
    ensures forall e :: e in rs <==> e in entries && HasKey(e, shipId, year)
  {
    if entries == [] then []
    else
      var rest := Records(entries[1..], shipId, year);
      assert forall e :: e in entries <==> e == entries[0] || e in entries[1..];
      if HasKey(entries[0], shipId, year) then [entries[0]] + rest else rest
  }

  /** Appending one entry moves both sums by that entry alone, and only for its own key. */
  lemma AppendEntry(entries: seq<BankEntry>, e: BankEntry, shipId: string, year: int)
    ensures NetBanked(entries + [e], shipId, year)
         == NetBanked(entries, shipId, year) + (if HasKey(e, shipId, year) then e.amountGco2eq else 0)
    ensures TotalBanked(entries + [e], shipId, year)
         == TotalBanked(entries, shipId, year) + (if HasKey(e, shipId, year) && e.amountGco2eq > 0 then e.amountGco2eq else 0)
  {
    assert (entries + [e])[..|entries|] == entries;
  }

  /** The net amount is the sum of exactly the records returned for the key. */
  lemma {:induction false} NetBankedIsSumOfRecords(entries: seq<BankEntry>, shipId: string, year: int)
    ensures NetBanked(entries, shipId, year) == NetBanked(Records(entries, shipId, year), shipId, year)
  {
    if entries != [] {
      var init := entries[..|entries| - 1];
      var e := entries[|entries| - 1];
      assert entries == init + [e];
      NetBankedIsSumOfRecords(init, shipId, year);
      RecordsAppend(init, e, shipId, year);
      var rs := Records(init, shipId, year);
      if HasKey(e, shipId, year) {
        AppendEntry(rs, e, shipId, year);
        assert Records(entries, shipId, year) == rs + [e];
      } else {
        assert Records(entries, shipId, year) == rs;
      }
    }
  }

  /** The records follow ledger order: a new entry joins the end of its own
      key's records and of no other key's. */
  lemma {:induction false} RecordsAppend(entries: seq<BankEntry>, e: BankEntry, shipId: string, year: int)
    ensures Records(entries + [e], shipId, year)
         == Records(entries, shipId, year) + (if HasKey(e, shipId, year) then [e] else [])
  {
    if entries == [] {
      assert [e][1..] == [];
    } else {
      assert (entries + [e])[1..] == entries[1..] + [e];
      RecordsAppend(entries[1..], e, shipId, year);
    }
  }

  /** The key's records hold each of its ledger entries exactly as often as
      the ledger does, and no other entry. */
  lemma {:induction false} RecordsCount(entries: seq<BankEntry>, shipId: string, year: int)
    ensures forall e :: multiset(Records(entries, shipId, year))[e]
                        == if HasKey(e, shipId, year) then multiset(entries)[e] else 0
  {
    if entries != [] {
      RecordsCount(entries[1..], shipId, year);
      assert entries == [entries[0]] + entries[1..];
    }
  }

  class BankRepository {
    var entries: seq<BankEntry>

    constructor ()
      ensures entries == []
    {
      entries := [];
    }

    /** The net amount: never above the positive-only total. */
    function GetBankedAmount(shipId: string, year: int): (n: int)
      reads this
      ensures n <= GetTotalBankedAmount(shipId, year)
    {
      NetBanked(entries, shipId, year)
    }

    /** The positive-only total: never below zero. */
    function GetTotalBankedAmount(shipId: string, year: int): (t: int)
      reads this
      ensures t >= 0
    {
      TotalBanked(entries, shipId, year)
    }

    /** The ledger entries of the key, each as often as the ledger holds it. */
    function GetBankRecords(shipId: string, year: int): (rs: seq<BankEntry>)
      reads this
      ensures forall e :: multiset(rs)[e] == if HasKey(e, shipId, year) then multiset(entries)[e] else 0
    {
      RecordsCount(entries, shipId, year);
      Records(entries, shipId, year)
    }

    /** Appends one positive entry; a non-positive amount is rejected. */
    method BankSurplus(shipId: string, year: int, amount: int) returns (r: Result<BankEntry>)
      modifies this
      ensures amount <= 0 ==> r == Err(AmountNotPositive) && entries == old(entries)
      ensures amount > 0 ==> r == Ok(BankEntry(shipId, year, amount)) && entries == old(entries) + [r.value]
      ensures amount > 0 ==> GetBankedAmount(shipId, year) == old(GetBankedAmount(shipId, year)) + amount
      ensures amount > 0 ==> GetTotalBankedAmount(shipId, year) == old(GetTotalBankedAmount(shipId, year)) + amount
    {
      if amount <= 0 {
        return Err(AmountNotPositive);
      }
      var entry := BankEntry(shipId, year, amount);
      AppendEntry(entries, entry, shipId, year);
      entries := entries + [entry];
      r := Ok(entry);
    }

    /** Appends one entry of -amount; a non-positive amount is rejected. */
    method ApplyBanked(shipId: string, year: int, amount: int) returns (r: Result<BankEntry>)
      modifies this
      ensures amount <= 0 ==> r == Err(AmountNotPositive) && entries == old(entries)
      ensures amount > 0 ==> r == Ok(BankEntry(shipId, year, -amount)) && entries == old(entries) + [r.value]
      ensures amount > 0 ==> GetBankedAmount(shipId, year) == old(GetBankedAmount(shipId, year)) - amount
      ensures GetTotalBankedAmount(shipId, year) == old(GetTotalBankedAmount(shipId, year))
    {
      if amount <= 0 {
        return Err(AmountNotPositive);
      }
      var entry := BankEntry(shipId, year, -amount);
      AppendEntry(entries, entry, shipId, year);
      entries := entries + [entry];
      r := Ok(entry);
    }
  }
}
