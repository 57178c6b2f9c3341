/** The compliance-balance table: records of a ship's base CB for a year.
    Records are kept in insertion order; a lookup by (shipId, year) returns
    the first record with that key. */
module PrismaComplianceRepository {
  import opened Results

  datatype ShipCompliance = ShipCompliance(id: int, shipId: string, year: int, cbGco2eq: int)

  predicate IsKey(rec: ShipCompliance, shipId: string, year: int)
  {
    rec.shipId == shipId && rec.year == year
  }

  /** Index of the first record with the key, if any. */
  function FindRecord(records: seq<ShipCompliance>, shipId: string, year: int): (k: Option<nat>)
    ensures k.Some? ==> k.value < |records| && IsKey(records[k.value], shipId, year)
    ensures k.Some? ==> forall j :: 0 <= j < k.value ==> !IsKey(records[j], shipId, year)
    ensures k.None? ==> forall j :: 0 <= j < |records| ==> !IsKey(records[j], shipId, year)
  {
    if records == [] then None
    else if IsKey(records[0], shipId, year) then Some(0)
    else
      match FindRecord(records[1..], shipId, year)
      case None => None
      case Some(j) => Some(j + 1)
  }

  /** The record a lookup by (shipId, year) returns, or None. */
  function Lookup(records: seq<ShipCompliance>, shipId: string, year: int): (r: Option<ShipCompliance>)
    ensures r.Some? ==> r.value in records && IsKey(r.value, shipId, year)
    ensures r.None? <==> forall rec :: rec in records ==> !IsKey(rec, shipId, year)
  {
    match FindRecord(records, shipId, year)
    case None => None
    case Some(k) => Some(records[k])
  }

  /** At most one record per (shipId, year). */
  ghost predicate KeyedUniquely(records: seq<ShipCompliance>)
  {
    forall i, j :: 0 <= i < j < |records| ==> !IsKey(records[j], records[i].shipId, records[i].year)
  }

  /** The table after an upsert: the first record with the key gets the new
      balance and keeps its id; without one, a record with a fresh id is added. */
  function Upserted(records: seq<ShipCompliance>, nextId: int, shipId: string, year: int, cb: int)
    : (u: seq<ShipCompliance>)
    ensures |u| == |records| + (if Lookup(records, shipId, year).Some? then 0 else 1)
    ensures forall i :: 0 <= i < |records| ==>
              u[i].id == records[i].id && u[i].shipId == records[i].shipId && u[i].year == records[i].year
    ensures forall i :: 0 <= i < |records| && !IsKey(records[i], shipId, year) ==> u[i] == records[i]
  {
    match FindRecord(records, shipId, year)
    case Some(k) => records[k := records[k].(cbGco2eq := cb)]
    case None => records + [ShipCompliance(nextId, shipId, year, cb)]
  }

  function NextIdAfterUpsert(records: seq<ShipCompliance>, nextId: int, shipId: string, year: int): int
  {
    if FindRecord(records, shipId, year).Some? then nextId else nextId + 1
  }

  /** The first index holding the key is the one FindRecord returns. */
  lemma FindRecordIsFirst(records: seq<ShipCompliance>, shipId: string, year: int, i: nat)
    requires i < |records| && IsKey(records[i], shipId, year)
    requires forall j :: 0 <= j < i ==> !IsKey(records[j], shipId, year)
    ensures FindRecord(records, shipId, year) == Some(i)
  {
    assert FindRecord(records, shipId, year).Some?;
  }

  /** After an upsert the key reads back the new balance, under the old id
      when the key existed and under the fresh id otherwise. */
  lemma UpsertedReadsBack(records: seq<ShipCompliance>, nextId: int, shipId: string, year: int, cb: int)
    ensures Lookup(Upserted(records, nextId, shipId, year, cb), shipId, year)
         == Some(ShipCompliance(
              if Lookup(records, shipId, year).Some? then Lookup(records, shipId, year).value.id else nextId,
              shipId, year, cb))
  {
    var updated := Upserted(records, nextId, shipId, year, cb);
    match FindRecord(records, shipId, year)
    case Some(k) =>
      FindRecordIsFirst(updated, shipId, year, k);
    case None =>
      FindRecordIsFirst(updated, shipId, year, |records|);
  }

  /** An upsert leaves every other key's lookup as it was. */
  lemma UpsertedKeepsOtherKeys(records: seq<ShipCompliance>, nextId: int, shipId: string, year: int, cb: int,
                               otherShip: string, otherYear: int)
    requires otherShip != shipId || otherYear != year
    ensures Lookup(Upserted(records, nextId, shipId, year, cb), otherShip, otherYear)
         == Lookup(records, otherShip, otherYear)
  {
    var updated := Upserted(records, nextId, shipId, year, cb);
    assert forall j :: 0 <= j < |records| ==>
      (IsKey(updated[j], otherShip, otherYear) <==> IsKey(records[j], otherShip, otherYear));
    match FindRecord(records, otherShip, otherYear)
    case Some(i) =>
      FindRecordIsFirst(updated, otherShip, otherYear, i);
    case None =>
  }

  /** An upsert keeps "at most one record per (shipId, year)". */
  lemma UpsertedKeepsUniqueness(records: seq<ShipCompliance>, nextId: int, shipId: string, year: int, cb: int)
    requires KeyedUniquely(records)
    ensures KeyedUniquely(Upserted(records, nextId, shipId, year, cb))
  {
    var updated := Upserted(records, nextId, shipId, year, cb);
    match FindRecord(records, shipId, year)
    case Some(k) =>
      assert forall j :: 0 <= j < |records| ==> updated[j].shipId == records[j].shipId && updated[j].year == records[j].year;
    case None =>
      forall i, j | 0 <= i < j < |updated|
        ensures !IsKey(updated[j], updated[i].shipId, updated[i].year)
      {
        if j == |records| {
          assert !IsKey(records[i], shipId, year);
        }
      }
  }

  /** Upserting the same value twice gives the table (and id counter) that one upsert gives. */
  lemma UpsertIsIdempotent(records: seq<ShipCompliance>, nextId: int, shipId: string, year: int, cb: int)
    ensures var once := Upserted(records, nextId, shipId, year, cb);
            var onceId := NextIdAfterUpsert(records, nextId, shipId, year);
            Upserted(once, onceId, shipId, year, cb) == once
            && NextIdAfterUpsert(once, onceId, shipId, year) == onceId
  {
    var once := Upserted(records, nextId, shipId, year, cb);
    UpsertedReadsBack(records, nextId, shipId, year, cb);
    var k := FindRecord(once, shipId, year).value;
    assert once[k].cbGco2eq == cb;
    assert once[k := once[k].(cbGco2eq := cb)] == once;
  }

  /** An unconditional insert for a key that is already present leaves two
      records with that key. */
  lemma InsertOnExistingKeyDuplicates(records: seq<ShipCompliance>, nextId: int, shipId: string, year: int, cb: int)
    requires Lookup(records, shipId, year).Some?
    ensures !KeyedUniquely(records + [ShipCompliance(nextId, shipId, year, cb)])
  {
    var k := FindRecord(records, shipId, year).value;
    var grown := records + [ShipCompliance(nextId, shipId, year, cb)];
    assert grown[k] == records[k];
    assert IsKey(grown[|records|], grown[k].shipId, grown[k].year);
  }

  class ComplianceRepository {
    var records: seq<ShipCompliance>
    var nextId: int

    constructor ()
      ensures records == [] && nextId == 1
    {
      records := [];
      nextId := 1;
    }

    /** The first record with the key, or None when the table has none. */
    function GetCB(shipId: string, year: int): (r: Option<ShipCompliance>)
      reads this
      ensures r.Some? ==> r.value in records && IsKey(r.value, shipId, year)
      ensures r.None? <==> forall rec :: rec in records ==> !IsKey(rec, shipId, year)
    {
      Lookup(records, shipId, year)
    }

    /** Inserts a record whatever the table already holds. */
    method SaveCB(shipId: string, year: int, cb: int) returns (rec: ShipCompliance)
      modifies this
      ensures rec == ShipCompliance(old(nextId), shipId, year, cb)
      ensures records == old(records) + [rec] && nextId == old(nextId) + 1
    {
      rec := ShipCompliance(nextId, shipId, year, cb);
      records := records + [rec];
      nextId := nextId + 1;
    }

    /** Updates the balance of the record for (shipId, year), or inserts one. */
    method UpsertCB(shipId: string, year: int, cb: int) returns (rec: ShipCompliance)
      modifies this
      ensures records == Upserted(old(records), old(nextId), shipId, year, cb)
      ensures nextId == NextIdAfterUpsert(old(records), old(nextId), shipId, year)
      ensures GetCB(shipId, year) == Some(rec) && rec.cbGco2eq == cb
      ensures rec.id == if old(GetCB(shipId, year)).Some? then old(GetCB(shipId, year)).value.id else old(nextId)
      ensures forall s, y :: s != shipId || y != year ==> Lookup(records, s, y) == Lookup(old(records), s, y)
    {
      UpsertedReadsBack(records, nextId, shipId, year, cb);
      forall s, y | s != shipId || y != year
        ensures Lookup(Upserted(records, nextId, shipId, year, cb), s, y) == Lookup(records, s, y)
      {
        UpsertedKeepsOtherKeys(records, nextId, shipId, year, cb, s, y);
      }
      var existing := FindRecord(records, shipId, year);
      if existing.Some? {
        var k := existing.value;
        rec := records[k].(cbGco2eq := cb);
        records := records[k := rec];
      } else {
        rec := ShipCompliance(nextId, shipId, year, cb);
        records := records + [rec];
        nextId := nextId + 1;
      }
    }
  }
}
