/** The pool table: each created pool is stored with its members as one unit. */
module PrismaPoolRepository {

  datatype PoolMember = PoolMember(shipId: string, cbBefore: int, cbAfter: int)

  datatype Pool = Pool(id: int, year: int, members: seq<PoolMember>)

  class PoolRepository {
    var pools: seq<Pool>
    var nextId: int

    constructor ()
      ensures pools == [] && nextId == 1
    {
      pools := [];
      nextId := 1;
    }

    /** Stores a pool with all its members under a fresh id. */
    method CreatePool(year: int, members: seq<PoolMember>) returns (pool: Pool)
      modifies this
      ensures pool == Pool(old(nextId), year, members)
      ensures pools == old(pools) + [pool] && nextId == old(nextId) + 1
    {
      pool := Pool(nextId, year, members);
      pools := pools + [pool];
      nextId := nextId + 1;
    }
  }
}
