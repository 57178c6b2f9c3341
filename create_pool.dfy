/** Pooling (Article 21 of Regulation (EU) 2023/1805): the members' adjusted
    CBs are gathered, the pool is refused when they sum below zero, and a
    greedy sweep over the members in descending CB order lets surplus ships
    cover deficit ships before the pool is stored. */
module CreatePool {
  import opened Results
  import opened PrismaComplianceRepository
  import opened PrismaBankRepository
  import opened PrismaPoolRepository
  import GetAdjustedCB

  /** A member with the adjusted CB it enters the pool with. */
  datatype MemberCB = MemberCB(shipId: string, cbBefore: int)

  datatype PoolResult = PoolResult(poolId: int, year: int, members: seq<PoolMember>, poolSum: int)

  /** The allocations pushed so far and the surplus still unallocated. */
  datatype SweepState = SweepState(allocations: seq<PoolMember>, surplus: int)

  // ---------------------------------------------------------------------
  // Gathering the members' adjusted balances

  /** Adjusted CB of every requested member, in request order; the first
      member without a stored CB makes the whole request fail. */
  function AdjustedCBs(complianceRepo: ComplianceRepository, bankRepo: BankRepository, year: int, shipIds: seq<string>)
    : (r: Result<seq<MemberCB>>)
    reads complianceRepo, bankRepo
    ensures r.Ok? <==> forall i :: 0 <= i < |shipIds| ==> complianceRepo.GetCB(shipIds[i], year).Some?
    ensures r.Ok? ==> |r.value| == |shipIds|
    ensures r.Ok? ==> forall i :: 0 <= i < |shipIds| ==>
              r.value[i] == MemberCB(shipIds[i],
                                     GetAdjustedCB.GetAdjustedCB(complianceRepo, bankRepo, shipIds[i], year).value.cbAfter)
    ensures r.Err? ==> exists i :: 0 <= i < |shipIds| && complianceRepo.GetCB(shipIds[i], year).None?
                                   && r.error == NoComplianceBalance(shipIds[i], year)
                                   && forall j :: 0 <= j < i ==> complianceRepo.GetCB(shipIds[j], year).Some?
  {
    if shipIds == [] then Ok([])
    else
      var prefix := shipIds[..|shipIds| - 1];
      var shipId := shipIds[|shipIds| - 1];
      assert forall i :: 0 <= i < |prefix| ==> shipIds[i] == prefix[i];
      match AdjustedCBs(complianceRepo, bankRepo, year, prefix)
      case Err(e) => Err(e)
      case Ok(before) =>
        match GetAdjustedCB.GetAdjustedCB(complianceRepo, bankRepo, shipId, year)
        case Err(e) =>
          assert shipIds[|prefix|] == shipId && complianceRepo.GetCB(shipId, year).None?;
          Err(e)
        case Ok(adjusted) =>
          var gathered := before + [MemberCB(shipId, adjusted.cbAfter)];
          assert forall i :: 0 <= i < |prefix| ==> gathered[i] == before[i];
          assert gathered[|prefix|] == MemberCB(shipId, adjusted.cbAfter);
          Ok(gathered)
  }

  /** Members listed under the same ship id carry the same CB. */
  predicate ShipConsistent(ms: seq<MemberCB>)
  {
    forall i, j :: 0 <= i < |ms| && 0 <= j < |ms| && ms[i].shipId == ms[j].shipId ==> ms[i].cbBefore == ms[j].cbBefore
  }

  // ---------------------------------------------------------------------
  // Pool sum

  /** Sum of the members' CBs, added in list order: at most 0 when no member
      has a surplus. */
  function PoolSum(ms: seq<MemberCB>): (s: int)
    ensures (forall i :: 0 <= i < |ms| ==> ms[i].cbBefore <= 0) ==> s <= 0
  {
    if ms == [] then 0 else PoolSum(ms[..|ms| - 1]) + ms[|ms| - 1].cbBefore
  }

  lemma {:induction false} PoolSumConcat(a: seq<MemberCB>, b: seq<MemberCB>)
    ensures PoolSum(a + b) == PoolSum(a) + PoolSum(b)
  {
    if b == [] {
      assert a + b == a;
    } else {
      var b' := b[..|b| - 1];
      assert (a + b)[..|a + b| - 1] == a + b';
      PoolSumConcat(a, b');
    }
  }

  // ---------------------------------------------------------------------
  // Descending order (the stable sort by b.cbBefore - a.cbBefore)

  predicate SortedDescending(ms: seq<MemberCB>)
  {
    forall i, j :: 0 <= i < j < |ms| ==> ms[i].cbBefore >= ms[j].cbBefore
  }

  /** Puts x in front of the first element whose CB is not above x's, so
      members with equal CB keep their input order. */
  function Insert(x: MemberCB, s: seq<MemberCB>): (r: seq<MemberCB>)
    ensures |r| == |s| + 1
    ensures multiset(r) == multiset(s) + multiset{x}
  {
    if s == [] || s[0].cbBefore <= x.cbBefore then [x] + s
    else
      assert s == [s[0]] + s[1..];
      [s[0]] + Insert(x, s[1..])
  }

  lemma {:induction false} InsertKeepsOrder(x: MemberCB, s: seq<MemberCB>)
    requires SortedDescending(s)
    ensures SortedDescending(Insert(x, s))
  {
    if s != [] && s[0].cbBefore > x.cbBefore {
      var rest := Insert(x, s[1..]);
      InsertKeepsOrder(x, s[1..]);
      forall k | 0 <= k < |rest|
        ensures s[0].cbBefore >= rest[k].cbBefore
      {
        assert rest[k] in multiset(rest);
        if rest[k] != x {
          assert rest[k] in multiset(s[1..]);
          var m :| 0 <= m < |s[1..]| && s[1..][m] == rest[k];
          assert s[m + 1] == rest[k];
        }
      }
      assert Insert(x, s) == [s[0]] + rest;
    }
  }

  function SortDescending(ms: seq<MemberCB>): (r: seq<MemberCB>)
    ensures |r| == |ms|
    ensures multiset(r) == multiset(ms)
    ensures SortedDescending(r)
  {
    if ms == [] then []
    else
      assert ms == [ms[0]] + ms[1..];
      InsertKeepsOrder(ms[0], SortDescending(ms[1..]));
      Insert(ms[0], SortDescending(ms[1..]))
  }

  lemma {:induction false} InsertSum(x: MemberCB, s: seq<MemberCB>)
    ensures PoolSum(Insert(x, s)) == x.cbBefore + PoolSum(s)
  {
    assert PoolSum([x]) == x.cbBefore by {
      assert [x][..0] == [];
    }
    if s == [] || s[0].cbBefore <= x.cbBefore {
      PoolSumConcat([x], s);
    } else {
      assert PoolSum([s[0]]) == s[0].cbBefore by {
        assert [s[0]][..0] == [];
      }
      InsertSum(x, s[1..]);
      PoolSumConcat([s[0]], Insert(x, s[1..]));
      PoolSumConcat([s[0]], s[1..]);
      assert [s[0]] + s[1..] == s;
    }
  }

  /** Sorting does not change the pool sum. */
  lemma {:induction false} SortKeepsSum(ms: seq<MemberCB>)
    ensures PoolSum(SortDescending(ms)) == PoolSum(ms)
  {
    if ms != [] {
      SortKeepsSum(ms[1..]);
      InsertSum(ms[0], SortDescending(ms[1..]));
      assert PoolSum([ms[0]]) == ms[0].cbBefore by {
        assert [ms[0]][..0] == [];
      }
      PoolSumConcat([ms[0]], ms[1..]);
      assert [ms[0]] + ms[1..] == ms;
    }
  }

  // ---------------------------------------------------------------------
  // The greedy sweep

  /** One member of the sweep: a member at or above zero adds its CB to the
      surplus and exits at 0; a deficit member takes what it needs from the
      surplus, exiting at 0 when the surplus covers it and with the uncovered
      rest otherwise (the surplus is then used up). */
  function Step(st: SweepState, m: MemberCB): (next: SweepState)
    ensures |next.allocations| == |st.allocations| + 1
    ensures var a := next.allocations[|st.allocations|];
            && a.shipId == m.shipId && a.cbBefore == m.cbBefore
            && next.surplus + a.cbAfter == st.surplus + m.cbBefore
            && (st.surplus >= 0 ==> next.surplus >= 0 && ExitsWithinBounds(a))
  {
    if m.cbBefore >= 0 then
      SweepState(st.allocations + [PoolMember(m.shipId, m.cbBefore, 0)], st.surplus + m.cbBefore)
    else
      var deficit := -m.cbBefore;
      if st.surplus >= deficit then
        SweepState(st.allocations + [PoolMember(m.shipId, m.cbBefore, 0)], st.surplus - deficit)
      else
        SweepState(st.allocations + [PoolMember(m.shipId, m.cbBefore, -(deficit - st.surplus))], 0)
  }

  /** The sweep over a list of members, in list order. */
  function Sweep(ms: seq<MemberCB>): (st: SweepState)
    ensures |st.allocations| == |ms| && st.surplus >= 0
  {
    if ms == [] then SweepState([], 0) else Step(Sweep(ms[..|ms| - 1]), ms[|ms| - 1])
  }

  /** The allocation plan of a pool: the sweep over the members sorted by descending CB. */
  function Allocation(memberCBs: seq<MemberCB>): SweepState
  {
    Sweep(SortDescending(memberCBs))
  }

  /** Sum of the members' exit balances. */
  function SumAfter(allocations: seq<PoolMember>): int
  {
    if allocations == [] then 0
    else SumAfter(allocations[..|allocations| - 1]) + allocations[|allocations| - 1].cbAfter
  }

  /** The members as they entered the pool: each allocation's ship id and CB before. */
  function Entered(allocations: seq<PoolMember>): (ms: seq<MemberCB>)
    ensures |ms| == |allocations|
  {
    seq(|allocations|, i requires 0 <= i < |allocations| => MemberCB(allocations[i].shipId, allocations[i].cbBefore))
  }

  /** A member at or above zero exits at exactly 0; a deficit member exits no
      worse than it entered and not above 0. */
  predicate ExitsWithinBounds(a: PoolMember)
  {
    && (a.cbBefore >= 0 ==> a.cbAfter == 0)
    && (a.cbBefore < 0 ==> a.cbBefore <= a.cbAfter <= 0)
  }

  /** The sweep emits one allocation per member, in order, carrying the member's id and CB. */
  lemma {:induction false} SweepKeepsMembers(ms: seq<MemberCB>)
    ensures |Sweep(ms).allocations| == |ms|
    ensures forall i :: 0 <= i < |ms| ==>
              Sweep(ms).allocations[i].shipId == ms[i].shipId && Sweep(ms).allocations[i].cbBefore == ms[i].cbBefore
  {
    if ms != [] {
      SweepKeepsMembers(ms[..|ms| - 1]);
    }
  }

  /** In any member order the surplus stays non-negative and every member exits within bounds. */
  lemma {:induction false} SweepBounds(ms: seq<MemberCB>)
    ensures Sweep(ms).surplus >= 0
    ensures forall i :: 0 <= i < |Sweep(ms).allocations| ==> ExitsWithinBounds(Sweep(ms).allocations[i])
  {
    if ms != [] {
      SweepBounds(ms[..|ms| - 1]);
    }
  }

  /** In any member order nothing is created or lost: the unallocated surplus
      plus the exit balances equals the pool sum. */
  lemma {:induction false} SweepConserves(ms: seq<MemberCB>)
    ensures Sweep(ms).surplus + SumAfter(Sweep(ms).allocations) == PoolSum(ms)
  {
    if ms != [] {
      var before := Sweep(ms[..|ms| - 1]);
      SweepConserves(ms[..|ms| - 1]);
      var after := Sweep(ms).allocations;
      assert after[..|after| - 1] == before.allocations;
    }
  }

  /** In descending order, with a pool sum of at least zero, every prefix of
      the sweep has covered all its deficits and holds the prefix's sum as surplus. */
  lemma {:induction false} SweepPrefixSettles(ms: seq<MemberCB>, k: nat)
    requires SortedDescending(ms) && PoolSum(ms) >= 0 && k <= |ms|
    ensures Sweep(ms[..k]).surplus == PoolSum(ms[..k])
    ensures forall i :: 0 <= i < |Sweep(ms[..k]).allocations| ==> Sweep(ms[..k]).allocations[i].cbAfter == 0
  {
    if k > 0 {
      var prev, x := ms[..k - 1], ms[k - 1];
      SweepPrefixSettles(ms, k - 1);
      assert ms[..k][..k - 1] == prev;
      if x.cbBefore < 0 {
        DeficitPrefixSum(ms, k);
      }
    }
  }

  /** In descending order a deficit member is followed only by deficits, so
      when the whole pool sums to at least zero, so does the prefix it ends. */
  lemma DeficitPrefixSum(ms: seq<MemberCB>, k: nat)
    requires SortedDescending(ms) && PoolSum(ms) >= 0 && 0 < k <= |ms| && ms[k - 1].cbBefore < 0
    ensures PoolSum(ms[..k]) >= 0
  {
    var rest := ms[k..];
    assert forall i :: 0 <= i < |rest| ==> rest[i].cbBefore <= 0;
    PoolSumConcat(ms[..k], rest);
    assert ms[..k] + rest == ms;
  }

  /** The greedy plan settles the pool: whenever the pool sum is at least zero,
      every member exits at 0 and the whole pool sum is left as surplus. */
  lemma AllocationSettlesEveryMember(memberCBs: seq<MemberCB>)
    requires PoolSum(memberCBs) >= 0
    ensures Allocation(memberCBs).surplus == PoolSum(memberCBs)
    ensures forall i :: 0 <= i < |Allocation(memberCBs).allocations| ==> Allocation(memberCBs).allocations[i].cbAfter == 0
  {
    var sorted := SortDescending(memberCBs);
    SortKeepsSum(memberCBs);
    SweepPrefixSettles(sorted, |sorted|);
    assert sorted[..|sorted|] == sorted;
  }

  /** The sweep loop of the use case. */
  method SweepAllocations(sorted: seq<MemberCB>) returns (allocations: seq<PoolMember>, surplus: int)
    ensures SweepState(allocations, surplus) == Sweep(sorted)
  {
    allocations := [];
    surplus := 0;
    for i := 0 to |sorted|
      invariant SweepState(allocations, surplus) == Sweep(sorted[..i])
    {
      var member := sorted[i];
      assert sorted[..i + 1][..i] == sorted[..i];
      if member.cbBefore >= 0 {
        surplus := surplus + member.cbBefore;
        allocations := allocations + [PoolMember(member.shipId, member.cbBefore, 0)];
      } else {
        var deficit := -member.cbBefore;
        if surplus >= deficit {
          surplus := surplus - deficit;
          allocations := allocations + [PoolMember(member.shipId, member.cbBefore, 0)];
        } else {
          var remainingDeficit := deficit - surplus;
          allocations := allocations + [PoolMember(member.shipId, member.cbBefore, -remainingDeficit)];
          surplus := 0;
        }
      }
    }
    assert sorted[..|sorted|] == sorted;
  }

  // ---------------------------------------------------------------------
  // Validation of the allocations

  /** The first member with the given ship id. */
  function FindMember(ms: seq<MemberCB>, shipId: string): (r: Option<MemberCB>)
    ensures r.None? <==> forall i :: 0 <= i < |ms| ==> ms[i].shipId != shipId
    ensures r.Some? ==> exists i :: 0 <= i < |ms| && ms[i] == r.value && r.value.shipId == shipId
                                    && forall j :: 0 <= j < i ==> ms[j].shipId != shipId
  {
    if ms == [] then None
    else if ms[0].shipId == shipId then Some(ms[0])
    else
      var r := FindMember(ms[1..], shipId);
      assert r.Some? ==> exists i :: 0 <= i < |ms| && ms[i] == r.value && r.value.shipId == shipId
                                     && forall j :: 0 <= j < i ==> ms[j].shipId != shipId by {
        if r.Some? {
          var i :| 0 <= i < |ms[1..]| && ms[1..][i] == r.value && r.value.shipId == shipId
                   && forall j :: 0 <= j < i ==> ms[1..][j].shipId != shipId;
          assert ms[i + 1] == r.value;
          assert forall j :: 0 <= j < i + 1 ==> ms[j].shipId != shipId by {
            forall j | 0 <= j < i + 1
              ensures ms[j].shipId != shipId
            {
              if j > 0 {
                assert ms[j] == ms[1..][j - 1];
              }
            }
          }
        }
      }
      r
  }

  /** Why an allocation is refused, given the member it was computed for:
      an unknown member, a deficit member exiting worse, or a member at or
      above zero exiting negative. */
  function Violation(original: Option<MemberCB>, alloc: PoolMember): Option<Error>
  {
    match original
    case None => Some(MemberNotFound(alloc.shipId))
    case Some(m) =>
      if m.cbBefore < 0 && alloc.cbAfter < m.cbBefore then Some(DeficitExitsWorse(alloc.shipId, alloc.cbAfter, m.cbBefore))
      else if m.cbBefore >= 0 && alloc.cbAfter < 0 then Some(SurplusExitsNegative(alloc.shipId, alloc.cbAfter))
      else None
  }

  /** The validation verdict: the first violating allocation in list order, if any. */
  function Validate(memberCBs: seq<MemberCB>, allocations: seq<PoolMember>): (r: Result<()>)
    ensures r.Ok? <==> forall i :: 0 <= i < |allocations| ==>
                         Violation(FindMember(memberCBs, allocations[i].shipId), allocations[i]).None?
    ensures r.Err? ==> exists i :: 0 <= i < |allocations|
                         && Violation(FindMember(memberCBs, allocations[i].shipId), allocations[i]) == Some(r.error)
                         && forall j :: 0 <= j < i ==> Violation(FindMember(memberCBs, allocations[j].shipId), allocations[j]).None?
  {
    if allocations == [] then Ok(())
    else
      match Violation(FindMember(memberCBs, allocations[0].shipId), allocations[0])
      case Some(e) => Err(e)
      case None =>
        var r := Validate(memberCBs, allocations[1..]);
        assert r.Err? ==> (exists i :: 0 <= i < |allocations|
                             && Violation(FindMember(memberCBs, allocations[i].shipId), allocations[i]) == Some(r.error)
                             && forall j :: 0 <= j < i ==> Violation(FindMember(memberCBs, allocations[j].shipId), allocations[j]).None?) by {
          if r.Err? {
            var i :| 0 <= i < |allocations[1..]|
                     && Violation(FindMember(memberCBs, allocations[1..][i].shipId), allocations[1..][i]) == Some(r.error)
                     && forall j :: 0 <= j < i ==> Violation(FindMember(memberCBs, allocations[1..][j].shipId), allocations[1..][j]).None?;
            assert allocations[i + 1] == allocations[1..][i];
            forall j | 0 <= j < i + 1
              ensures Violation(FindMember(memberCBs, allocations[j].shipId), allocations[j]).None?
            {
              if j > 0 {
                assert allocations[j] == allocations[1..][j - 1];
              }
            }
          }
        }
        assert r.Ok? ==> forall i :: 0 <= i < |allocations| ==>
                         Violation(FindMember(memberCBs, allocations[i].shipId), allocations[i]).None? by {
          if r.Ok? {
            forall i | 0 <= i < |allocations|
              ensures Violation(FindMember(memberCBs, allocations[i].shipId), allocations[i]).None?
            {
              if i > 0 {
                assert allocations[i] == allocations[1..][i - 1];
              }
            }
          }
        }
        r
  }

  /** The validation loop of the use case. */
  method ValidateAllocations(memberCBs: seq<MemberCB>, allocations: seq<PoolMember>) returns (r: Result<()>)
    ensures r == Validate(memberCBs, allocations)
  {
    for i := 0 to |allocations|
      invariant Validate(memberCBs, allocations[i..]) == Validate(memberCBs, allocations)
    {
      var original := FindMember(memberCBs, allocations[i].shipId);
      var violation := Violation(original, allocations[i]);
      if violation.Some? {
        return Err(violation.value);
      }
      assert allocations[i..][1..] == allocations[i + 1..];
    }
    return Ok(());
  }

  /** The sweep's output always passes validation, in any member order: the
      sweep already keeps every member within the bounds the validation checks. */
  lemma SweepPassesValidation(memberCBs: seq<MemberCB>, ms: seq<MemberCB>)
    requires ShipConsistent(memberCBs)
    requires forall m :: m in ms ==> m in memberCBs
    ensures Validate(memberCBs, Sweep(ms).allocations).Ok?
  {
    var allocations := Sweep(ms).allocations;
    SweepKeepsMembers(ms);
    SweepBounds(ms);
    forall i | 0 <= i < |allocations|
      ensures Violation(FindMember(memberCBs, allocations[i].shipId), allocations[i]).None?
    {
      assert ms[i] in memberCBs;
      var k :| 0 <= k < |memberCBs| && memberCBs[k] == ms[i];
      assert allocations[i].shipId == ms[i].shipId && allocations[i].cbBefore == ms[i].cbBefore;
      var original := FindMember(memberCBs, allocations[i].shipId);
      assert original.Some? by {
        assert memberCBs[k].shipId == allocations[i].shipId;
      }
      var o :| 0 <= o < |memberCBs| && memberCBs[o] == original.value && original.value.shipId == allocations[i].shipId;
      assert original.value.cbBefore == allocations[i].cbBefore;
      assert ExitsWithinBounds(allocations[i]);
    }
  }

  /** For the members a pool request gathers, validation never refuses the plan. */
  lemma GatheredMembersPassValidation(complianceRepo: ComplianceRepository, bankRepo: BankRepository,
                                      year: int, shipIds: seq<string>)
    requires AdjustedCBs(complianceRepo, bankRepo, year, shipIds).Ok?
    ensures var memberCBs := AdjustedCBs(complianceRepo, bankRepo, year, shipIds).value;
            Validate(memberCBs, Allocation(memberCBs).allocations).Ok?
  {
    var memberCBs := AdjustedCBs(complianceRepo, bankRepo, year, shipIds).value;
    var sorted := SortDescending(memberCBs);
    forall m | m in sorted
      ensures m in memberCBs
    {
      assert m in multiset(sorted);
    }
    SweepPassesValidation(memberCBs, sorted);
  }

  // ---------------------------------------------------------------------
  // The use case

  /** The plan for a set of gathered members: refused when their CBs sum
      below zero or when validation refuses an allocation, otherwise the
      greedy plan's allocations. */
  function PoolPlan(memberCBs: seq<MemberCB>): (r: Result<seq<PoolMember>>)
    ensures PoolSum(memberCBs) < 0 ==> r == Err(NegativePoolSum(PoolSum(memberCBs)))
    ensures PoolSum(memberCBs) >= 0 && Validate(memberCBs, Allocation(memberCBs).allocations).Err?
            ==> r == Err(Validate(memberCBs, Allocation(memberCBs).allocations).error)
    ensures r.Ok? <==> PoolSum(memberCBs) >= 0 && Validate(memberCBs, Allocation(memberCBs).allocations).Ok?
    ensures r.Ok? ==> Entered(r.value) == SortDescending(memberCBs)
    ensures r.Ok? ==> forall i :: 0 <= i < |r.value| ==> r.value[i].cbAfter == 0
  {
    var sumCB := PoolSum(memberCBs);
    if sumCB < 0 then Err(NegativePoolSum(sumCB))
    else
      var allocations := Allocation(memberCBs).allocations;
      match Validate(memberCBs, allocations)
      case Err(e) => Err(e)
      case Ok(_) =>
        SweepKeepsMembers(SortDescending(memberCBs));
        AllocationSettlesEveryMember(memberCBs);
        Ok(allocations)
  }

  /** The sum gate, sort, sweep and validation of the use case. */
  method PlanPool(memberCBs: seq<MemberCB>) returns (r: Result<seq<PoolMember>>)
    ensures r == PoolPlan(memberCBs)
  {
    var sumCB := PoolSum(memberCBs);
    if sumCB < 0 {
      return Err(NegativePoolSum(sumCB));
    }
    var sorted := SortDescending(memberCBs);
    var allocations, surplus := SweepAllocations(sorted);
    var check := ValidateAllocations(memberCBs, allocations);
    if check.Err? {
      return Err(check.error);
    }
    return Ok(allocations);
  }

  /** The outcome of a pool request, given the gathered adjusted CBs and the
      id the new pool would get. */
  function PoolDecision(members: seq<string>, gathered: Result<seq<MemberCB>>, poolId: int, year: int)
    : (r: Result<PoolResult>)
    ensures members == [] ==> r == Err(EmptyPool)
    ensures members != [] && gathered.Err? ==> r == Err(gathered.error)
    ensures members != [] && gathered.Ok? && PoolPlan(gathered.value).Err? ==> r == Err(PoolPlan(gathered.value).error)
    ensures r.Ok? <==> members != [] && gathered.Ok? && PoolPlan(gathered.value).Ok?
    ensures r.Ok? ==> r == Ok(PoolResult(poolId, year, PoolPlan(gathered.value).value, PoolSum(gathered.value)))
  {
    if members == [] then Err(EmptyPool)
    else if gathered.Err? then Err(gathered.error)
    else
      match PoolPlan(gathered.value)
      case Err(e) => Err(e)
      case Ok(allocations) => Ok(PoolResult(poolId, year, allocations, PoolSum(gathered.value)))
  }

  /** Creates a pool for `year` from the listed ships. Fails, writing nothing,
      on an empty list, on a member without a stored CB, on a negative pool
      sum or on a refused allocation; otherwise stores the pool with the
      greedy plan's allocations under a fresh id. */
  method CreatePool(poolRepo: PoolRepository, complianceRepo: ComplianceRepository, bankRepo: BankRepository,
                    year: int, members: seq<string>) returns (r: Result<PoolResult>)
    modifies poolRepo
    ensures r == PoolDecision(members, old(AdjustedCBs(complianceRepo, bankRepo, year, members)), old(poolRepo.nextId), year)
    ensures poolRepo.pools == if r.Ok? then old(poolRepo.pools) + [Pool(r.value.poolId, year, r.value.members)]
                              else old(poolRepo.pools)
    ensures poolRepo.nextId == if r.Ok? then old(poolRepo.nextId) + 1 else old(poolRepo.nextId)
  {
    if |members| == 0 {
      return Err(EmptyPool);
    }
    var gathered := AdjustedCBs(complianceRepo, bankRepo, year, members);
    if gathered.Err? {
      return Err(gathered.error);
    }
    var memberCBs := gathered.value;
    var plan := PlanPool(memberCBs);
    if plan.Err? {
      return Err(plan.error);
    }
    var allocations := plan.value;
    var pool := poolRepo.CreatePool(year, allocations);
    r := Ok(PoolResult(pool.id, pool.year, allocations, PoolSum(memberCBs)));
  }

  /** A pool request succeeds exactly when the list is non-empty, every
      member has a stored CB and the adjusted CBs sum to at least zero; the
      stored pool then has one allocation per request entry, all at 0. */
  lemma PoolAcceptedIffSumNonNegative(complianceRepo: ComplianceRepository, bankRepo: BankRepository,
                                      year: int, members: seq<string>, poolId: int)
    ensures var gathered := AdjustedCBs(complianceRepo, bankRepo, year, members);
            PoolDecision(members, gathered, poolId, year).Ok?
            <==> members != [] && gathered.Ok? && PoolSum(gathered.value) >= 0
    ensures var r := PoolDecision(members, AdjustedCBs(complianceRepo, bankRepo, year, members), poolId, year);
            r.Ok? ==> |r.value.members| == |members|
                      && forall i :: 0 <= i < |r.value.members| ==> r.value.members[i].cbAfter == 0
  {
    var gathered := AdjustedCBs(complianceRepo, bankRepo, year, members);
    if gathered.Ok? {
      GatheredMembersPassValidation(complianceRepo, bankRepo, year, members);
    }
  }

  /** An accepted plan is a permutation of the gathered members, highest CB first. */
  lemma PlanPermutesMembers(memberCBs: seq<MemberCB>)
    requires PoolPlan(memberCBs).Ok?
    ensures var entered := Entered(PoolPlan(memberCBs).value);
            && multiset(entered) == multiset(memberCBs)
            && SortedDescending(entered)
            && forall i :: 0 <= i < |entered| ==> exists j :: 0 <= j < |memberCBs| && memberCBs[j] == entered[i]
  {
    var entered := Entered(PoolPlan(memberCBs).value);
    forall i | 0 <= i < |entered|
      ensures exists j :: 0 <= j < |memberCBs| && memberCBs[j] == entered[i]
    {
      assert entered[i] in multiset(memberCBs);
    }
  }

  lemma GatheredEntryIsAdjustedCB(complianceRepo: ComplianceRepository, bankRepo: BankRepository,
                                  year: int, members: seq<string>, k: nat)
    requires AdjustedCBs(complianceRepo, bankRepo, year, members).Ok? && k < |members|
    ensures var m := AdjustedCBs(complianceRepo, bankRepo, year, members).value[k];
            exists j :: 0 <= j < |members| && members[j] == m.shipId
                        && m.cbBefore == GetAdjustedCB.GetAdjustedCB(complianceRepo, bankRepo, members[j], year).value.cbAfter
  {
    assert members[k] == AdjustedCBs(complianceRepo, bankRepo, year, members).value[k].shipId;
  }

  /** A stored pool lists exactly the requested members, each with the
      adjusted CB of its ship, highest CB first. */
  lemma PoolMembersAreAdjustedCBs(complianceRepo: ComplianceRepository, bankRepo: BankRepository,
                                  year: int, members: seq<string>,
                                  memberCBs: seq<MemberCB>, allocations: seq<PoolMember>)
    requires AdjustedCBs(complianceRepo, bankRepo, year, members) == Ok(memberCBs)
    requires PoolPlan(memberCBs) == Ok(allocations)
    ensures multiset(Entered(allocations)) == multiset(memberCBs)
    ensures SortedDescending(Entered(allocations))
    ensures forall i :: 0 <= i < |allocations| ==>
              exists j :: 0 <= j < |members| && members[j] == allocations[i].shipId
                          && allocations[i].cbBefore
                             == GetAdjustedCB.GetAdjustedCB(complianceRepo, bankRepo, members[j], year).value.cbAfter
  {
    PlanPermutesMembers(memberCBs);
    var entered := Entered(allocations);
    forall i | 0 <= i < |allocations|
      ensures exists j :: 0 <= j < |members| && members[j] == allocations[i].shipId
                          && allocations[i].cbBefore
                             == GetAdjustedCB.GetAdjustedCB(complianceRepo, bankRepo, members[j], year).value.cbAfter
    {
      var k :| 0 <= k < |memberCBs| && memberCBs[k] == entered[i];
      GatheredEntryIsAdjustedCB(complianceRepo, bankRepo, year, members, k);
      assert entered[i] == MemberCB(allocations[i].shipId, allocations[i].cbBefore);
    }
  }

  /** A surplus ship of +500 and a deficit ship of -300: both exit at 0 and
      200 is left over. */
  lemma SurplusCoversDeficit()
    ensures Allocation([MemberCB("A", 500), MemberCB("B", -300)])
            == SweepState([PoolMember("A", 500, 0), PoolMember("B", -300, 0)], 200)
  {
    var a, b := MemberCB("A", 500), MemberCB("B", -300);
    assert [a, b][1..] == [b];
    assert [b][1..] == [];
    assert Insert(b, []) == [b];
    assert SortDescending([b]) == [b];
    assert Insert(a, [b]) == [a, b];
    assert SortDescending([a, b]) == [a, b];
    assert [a, b][..1] == [a];
    assert [a][..0] == [];
    assert Sweep([a]) == SweepState([PoolMember("A", 500, 0)], 500);
    assert Sweep([a, b]) == Step(Sweep([a]), b);
  }

  /** Without the sort a deficit met before any surplus stays uncovered:
      the order of the sweep matters. */
  lemma DeficitFirstStaysUncovered()
    ensures Sweep([MemberCB("B", -300), MemberCB("A", 500)])
            == SweepState([PoolMember("B", -300, -300), PoolMember("A", 500, 0)], 500)
  {
    var a, b := MemberCB("A", 500), MemberCB("B", -300);
    assert [b, a][..1] == [b];
    assert [b][..0] == [];
  }
}
