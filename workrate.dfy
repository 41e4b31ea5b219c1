/** The workrate arbitrator of a map's network: a pool of workrate
    (`TotalWorkrate`, provided by the powered CPUs) shared among claims
    (`DynWorkRate`) that the network keeps in a list ordered by descending
    priority.  Requests preempt lower-priority claims, releases give workrate
    back, and a change of CPUs rebalances the pool.

    The claim objects are mutated in place by the network and by the
    workers; the pure functions in the first half of this module state what
    each mutating method does, on a value view of the claim list. */
module Workrate {
  import opened Things
  import opened SortedLists

  // ---------------------------------------------------------------------
  // Value view of the claim list
  // ---------------------------------------------------------------------

  /** One claim as the arbitrator sees it: workrate held, workrate wanted,
      priority. */
  datatype Claim = Claim(value: int, expected: int, priority: int)

  function Values(cs: seq<Claim>): seq<int>
  {
    seq(|cs|, i requires 0 <= i < |cs| => cs[i].value)
  }

  function Priorities(cs: seq<Claim>): seq<int>
  {
    seq(|cs|, i requires 0 <= i < |cs| => cs[i].priority)
  }

  /** Workrate held by a list of claims. */
  function Held(cs: seq<Claim>): int
  {
    Sum(Values(cs))
  }

  /** Every claim holds some workrate and wants some. */
  ghost predicate AllHolding(cs: seq<Claim>)
  {
    forall i :: 0 <= i < |cs| ==> cs[i].value > 0 && cs[i].expected > 0
  }

  lemma HeldPrefix(cs: seq<Claim>, n: int)
    requires 0 <= n <= |cs|
    ensures Held(cs) == Held(cs[..n]) + Held(cs[n..])
  {
    assert Values(cs)[..n] == Values(cs[..n]);
    assert Values(cs)[n..] == Values(cs[n..]);
    SumPrefix(Values(cs), n);
  }

  lemma HeldDropLast(cs: seq<Claim>)
    requires |cs| > 0
    ensures Held(cs) == Held(cs[..|cs| - 1]) + cs[|cs| - 1].value
  {
    assert Values(cs)[..|cs| - 1] == Values(cs[..|cs| - 1]);
  }

  lemma HeldUpdate(cs: seq<Claim>, k: int, c: Claim)
    requires 0 <= k < |cs|
    ensures Held(cs[k := c]) == Held(cs) - cs[k].value + c.value
  {
    assert Values(cs[k := c]) == Values(cs)[k := c.value];
    SumUpdate(Values(cs), k, c.value);
  }

  lemma HeldInsert(cs: seq<Claim>, k: int, c: Claim)
    requires 0 <= k <= |cs|
    ensures Held(InsertAt(cs, k, c)) == Held(cs) + c.value
  {
    assert Values(InsertAt(cs, k, c)) == InsertAt(Values(cs), k, c.value);
    SumInsert(Values(cs), k, c.value);
  }

  lemma HeldRemove(cs: seq<Claim>, k: int)
    requires 0 <= k < |cs|
    ensures Held(RemoveAt(cs, k)) == Held(cs) - cs[k].value
  {
    assert Values(RemoveAt(cs, k)) == RemoveAt(Values(cs), k);
    SumRemove(Values(cs), k);
  }

  // ---------------------------------------------------------------------
  // Preemption (RequestWorkrate)
  // ---------------------------------------------------------------------

  /** Outcome of the preemption scan of a request: the number of claims
      kept (a prefix of the list), the workrate available afterwards, and
      the amount cut from the last kept claim (0 when none was cut). */
  datatype Scan = Scan(kept: nat, available: int, cut: int)

  /** The scan `RequestWorkrate` runs before granting, over the first `n`
      claims, from the lowest-priority end.  It stops at the first claim
      whose priority is not below the request's, or once enough is
      available.  Under the device quota (`skip` false and at least
      `maxDevices` claims) the victim is released whole.  Otherwise a
      victim holding no more than the requested value is released whole,
      and a larger one is cut by exactly the shortfall; a cut that would
      take all it holds is a whole release, as `ReleaseWorkRate(w, v)`
      with `v >= w.Value` is (only possible while over-committed).
      (LocalNetwork.cs cuts it by the whole requested value;
      `PreemptAsWritten` is that version.) */
  function Preempt(cs: seq<Claim>, n: nat, available: int, value: int, priority: int,
                   maxDevices: int, skip: bool): (s: Scan)
    requires n <= |cs|
    ensures s.kept <= n && s.cut >= 0
    ensures s.cut > 0 ==> 0 < s.kept && s.cut < cs[s.kept - 1].value && s.available == value
    decreases n
  {
    if n == 0 || available >= value || cs[n - 1].priority >= priority then
      Scan(n, available, 0)
    else if !skip && n >= maxDevices then
      Preempt(cs, n - 1, available + cs[n - 1].value, value, priority, maxDevices, skip)
    else if cs[n - 1].value <= value || cs[n - 1].value <= value - available then
      Preempt(cs, n - 1, available + cs[n - 1].value, value, priority, maxDevices, skip)
    else
      Scan(n, value, value - available)
  }

  /** The list a scan leaves: the kept prefix, its last claim lowered by
      the cut. */
  function AfterScan(cs: seq<Claim>, s: Scan): (r: seq<Claim>)
    requires s.kept <= |cs| && (s.cut > 0 ==> s.kept > 0)
    ensures |r| == s.kept
  {
    var kept := cs[..s.kept];
    if s.cut > 0 then
      kept[s.kept - 1 := kept[s.kept - 1].(value := kept[s.kept - 1].value - s.cut)]
    else kept
  }

  /** One step of the scan: the last of `n` claims released whole, under
      the device quota or when it holds no more than the requested value
      (or no more than the shortfall). */
  lemma PreemptReleases(cs: seq<Claim>, n: nat, available: int, value: int, priority: int,
                        maxDevices: int, skip: bool)
    requires 0 < n <= |cs| && available < value && cs[n - 1].priority < priority
    requires (!skip && n >= maxDevices) || cs[n - 1].value <= value || cs[n - 1].value <= value - available
    ensures Preempt(cs, n, available, value, priority, maxDevices, skip)
         == Preempt(cs, n - 1, available + cs[n - 1].value, value, priority, maxDevices, skip)
  {
  }

  /** One step of the scan: the last of `n` claims, holding more than the
      requested value, cut by the shortfall; the scan ends there. */
  lemma PreemptCuts(cs: seq<Claim>, n: nat, available: int, value: int, priority: int,
                    maxDevices: int, skip: bool)
    requires 0 < n <= |cs| && available < value && cs[n - 1].priority < priority
    requires (skip || n < maxDevices) && cs[n - 1].value > value && cs[n - 1].value > value - available
    ensures var s := Preempt(cs, n, available, value, priority, maxDevices, skip);
            s == Scan(n, value, value - available) &&
            AfterScan(cs, s) == cs[..n][n - 1 := cs[n - 1].(value := cs[n - 1].value - (value - available))]
  {
  }

  /** Where the scan stops at once: nothing left, enough available, or a
      claim whose priority is not below the request's. */
  lemma PreemptStops(cs: seq<Claim>, n: nat, available: int, value: int, priority: int,
                     maxDevices: int, skip: bool)
    requires n <= |cs|
    requires n == 0 || available >= value || cs[n - 1].priority >= priority
    ensures var s := Preempt(cs, n, available, value, priority, maxDevices, skip);
            s == Scan(n, available, 0) && AfterScan(cs, s) == cs[..n]
  {
  }

  /** Only claims of strictly lower priority than the request lose
      workrate: every released claim, and the cut one. */
  lemma {:induction false} PreemptOnlyLower(cs: seq<Claim>, n: nat, available: int, value: int,
                                            priority: int, maxDevices: int, skip: bool)
    requires n <= |cs|
    ensures var s := Preempt(cs, n, available, value, priority, maxDevices, skip);
            (forall j :: s.kept <= j < n ==> cs[j].priority < priority) &&
            (s.cut > 0 ==> cs[s.kept - 1].priority < priority)
    decreases n
  {
    if n == 0 || available >= value || cs[n - 1].priority >= priority {
    } else if (!skip && n >= maxDevices) || cs[n - 1].value <= value || cs[n - 1].value <= value - available {
      PreemptOnlyLower(cs, n - 1, available + cs[n - 1].value, value, priority, maxDevices, skip);
    }
  }

  /** What the scan frees is exactly what the released claims held plus
      the cut. */
  lemma {:induction false} PreemptAccounting(cs: seq<Claim>, n: nat, available: int, value: int,
                                             priority: int, maxDevices: int, skip: bool)
    requires n <= |cs|
    ensures var s := Preempt(cs, n, available, value, priority, maxDevices, skip);
            s.available == available + Held(cs[s.kept..n]) + s.cut
    decreases n
  {
    if n == 0 || available >= value || cs[n - 1].priority >= priority {
      assert cs[n..n] == [];
    } else if (!skip && n >= maxDevices) || cs[n - 1].value <= value || cs[n - 1].value <= value - available {
      PreemptAccounting(cs, n - 1, available + cs[n - 1].value, value, priority, maxDevices, skip);
      var s := Preempt(cs, n, available, value, priority, maxDevices, skip);
      assert cs[s.kept..n][..n - 1 - s.kept] == cs[s.kept..n - 1];
      HeldDropLast(cs[s.kept..n]);
    } else {
      assert cs[n..n] == [];
    }
  }

  /** A scan that ends short of the requested value has run out of
      lower-priority claims to take from. */
  lemma {:induction false} PreemptExhausts(cs: seq<Claim>, n: nat, available: int, value: int,
                                           priority: int, maxDevices: int, skip: bool)
    requires n <= |cs|
    ensures var s := Preempt(cs, n, available, value, priority, maxDevices, skip);
            s.available < value ==> s.kept == 0 || cs[s.kept - 1].priority >= priority
    decreases n
  {
    if n == 0 || available >= value || cs[n - 1].priority >= priority {
    } else if (!skip && n >= maxDevices) || cs[n - 1].value <= value || cs[n - 1].value <= value - available {
      PreemptExhausts(cs, n - 1, available + cs[n - 1].value, value, priority, maxDevices, skip);
    }
  }

  /** The scan stops as soon as enough is available: a cut leaves exactly
      the requested value available, and any excess over it (and over what
      was available before) comes from the last claim released whole,
      which was still needed when it was taken. */
  lemma {:induction false} PreemptNoOverreach(cs: seq<Claim>, n: nat, available: int, value: int,
                                              priority: int, maxDevices: int, skip: bool)
    requires n <= |cs|
    ensures var s := Preempt(cs, n, available, value, priority, maxDevices, skip);
            (s.cut > 0 ==> s.available == value) &&
            (s.available > Max(available, value) ==>
               s.cut == 0 && s.kept < n && s.available - cs[s.kept].value < value)
    decreases n
  {
    if n == 0 || available >= value || cs[n - 1].priority >= priority {
    } else if (!skip && n >= maxDevices) || cs[n - 1].value <= value || cs[n - 1].value <= value - available {
      PreemptNoOverreach(cs, n - 1, available + cs[n - 1].value, value, priority, maxDevices, skip);
    }
  }

  /** The scan exactly as LocalNetwork.cs writes it: a victim holding no
      more than the requested value is released whole, a larger one is cut
      by the requested value itself, whatever the shortfall.  It assumes
      what the network guarantees, that every claim holds workrate and
      nothing is over-committed (`available >= 0`); then a cut always ends
      the scan. */
  function PreemptAsWritten(cs: seq<Claim>, n: nat, available: int, value: int, priority: int,
                            maxDevices: int, skip: bool): (s: Scan)
    requires n <= |cs| && AllHolding(cs) && available >= 0
    ensures s.kept <= n && s.available >= available
    decreases n
  {
    if n == 0 || available >= value || cs[n - 1].priority >= priority then
      Scan(n, available, 0)
    else if !skip && n >= maxDevices then
      PreemptAsWritten(cs, n - 1, available + cs[n - 1].value, value, priority, maxDevices, skip)
    else if cs[n - 1].value <= value then
      PreemptAsWritten(cs, n - 1, available + cs[n - 1].value, value, priority, maxDevices, skip)
    else
      Scan(n, available + value, value)
  }

  /** A request for 50 with 20 available, against one lower-priority claim
      holding 80: as written the victim loses 50 and 70 ends up available,
      20 more than the request can use, although the scan ended with a cut;
      the corrected scan cuts 30.  A victim holding 40, between the
      shortfall and the request, is released whole by both. */
  lemma PreemptOvercuts()
    ensures var cs := [Claim(80, 80, 5)];
            PreemptAsWritten(cs, 1, 20, 50, 10, 10, false) == Scan(1, 70, 50) &&
            Preempt(cs, 1, 20, 50, 10, 10, false) == Scan(1, 50, 30) &&
            PreemptAsWritten(cs, 1, 20, 50, 10, 10, false).available > Max(20, 50)
    ensures var cs := [Claim(40, 40, 5)];
            PreemptAsWritten(cs, 1, 20, 50, 10, 10, false) == Scan(0, 60, 0) &&
            Preempt(cs, 1, 20, 50, 10, 10, false) == Scan(0, 60, 0)
  {
  }

  /** On a network that is not over-committed the correction changes only
      the cut: both scans keep the same claims and agree outright when no
      claim is cut; where the written scan cuts by the requested value, the
      corrected one cuts the same claim by the shortfall. */
  lemma {:induction false} PreemptOnlyCutDiffers(cs: seq<Claim>, n: nat, available: int, value: int,
                                                 priority: int, maxDevices: int, skip: bool)
    requires n <= |cs| && AllHolding(cs) && available >= 0
    ensures var a := PreemptAsWritten(cs, n, available, value, priority, maxDevices, skip);
            var s := Preempt(cs, n, available, value, priority, maxDevices, skip);
            (a.cut == 0 ==> s == a) &&
            (a.cut > 0 ==> s == Scan(a.kept, value, value - (a.available - a.cut)))
    decreases n
  {
    if n == 0 || available >= value || cs[n - 1].priority >= priority {
    } else if (!skip && n >= maxDevices) || cs[n - 1].value <= value {
      PreemptOnlyCutDiffers(cs, n - 1, available + cs[n - 1].value, value, priority, maxDevices, skip);
    }
  }

  // ---------------------------------------------------------------------
  // Rebalancing (OnCpuChange)
  // ---------------------------------------------------------------------

  /** The claim list and `UsedWorkrate`. */
  datatype Pool = Pool(claims: seq<Claim>, used: int)

  /** Device-quota eviction: while more than `maxDevices` claims are held,
      the lowest-priority one is released whole.  (When the device total
      is negative, which only a wrapped cast can produce, the list is
      emptied.) */
  function Evict(cs: seq<Claim>, used: int, maxDevices: int): (p: Pool)
    ensures |p.claims| == (if |cs| > maxDevices then Max(maxDevices, 0) else |cs|)
    ensures p.claims == cs[..|p.claims|]
    decreases |cs|
  {
    if |cs| > maxDevices && |cs| > 0 then
      Evict(cs[..|cs| - 1], used - cs[|cs| - 1].value, maxDevices)
    else
      Pool(cs, used)
  }

  /** Shrinking from the lowest-priority end until `lack` is covered: a
      claim holding no more than what is still lacking is released whole,
      the first larger one is lowered by exactly what is still lacking. */
  function Shrink(cs: seq<Claim>, used: int, lack: int): (p: Pool)
    ensures |p.claims| <= |cs|
    decreases |cs|
  {
    if cs == [] then Pool(cs, used)
    else
      var last := cs[|cs| - 1];
      if last.value <= lack then
        Shrink(cs[..|cs| - 1], used - last.value, lack - last.value)
      else
        Pool(cs[|cs| - 1 := last.(value := last.value - lack)], used - lack)
  }

  /** The shortfall step: if more is used than there is, shrink by the
      difference, then force `used` to the total whatever the shrinking
      achieved. */
  function Reduce(cs: seq<Claim>, used: int, total: int): (p: Pool)
    ensures p.used <= total
  {
    if used > total then Pool(Shrink(cs, used, used - total).claims, total)
    else Pool(cs, used)
  }

  /** The top-up walk from claim `i` on (highest priority first): while
      workrate is available, a claim holding less than it expects is raised
      by what it lacks, at most what is available, and one holding more is
      lowered to what it expects. */
  function TopUp(cs: seq<Claim>, used: int, total: int, i: nat): (p: Pool)
    requires i <= |cs|
    ensures |p.claims| == |cs|
    decreases |cs| - i
  {
    if i == |cs| || total - used <= 0 then Pool(cs, used)
    else
      var c := cs[i];
      if c.value == c.expected then TopUp(cs, used, total, i + 1)
      else
        var lack := c.expected - c.value;
        if lack < 0 then
          TopUp(cs[i := c.(value := c.expected)], used + lack, total, i + 1)
        else
          var num := Min(lack, total - used);
          TopUp(cs[i := c.(value := c.value + num)], used + num, total, i + 1)
  }

  /** One claim of the top-up pass, case by case. */
  lemma TopUpOne(cs: seq<Claim>, used: int, total: int, i: nat)
    requires i < |cs| && total - used > 0
    ensures cs[i].value == cs[i].expected ==> TopUp(cs, used, total, i) == TopUp(cs, used, total, i + 1)
    ensures cs[i].expected < cs[i].value ==>
              TopUp(cs, used, total, i) ==
              TopUp(cs[i := cs[i].(value := cs[i].expected)], used + (cs[i].expected - cs[i].value), total, i + 1)
    ensures cs[i].value < cs[i].expected ==>
              var num := Min(cs[i].expected - cs[i].value, total - used);
              TopUp(cs, used, total, i) == TopUp(cs[i := cs[i].(value := cs[i].value + num)], used + num, total, i + 1)
  {
  }

  /** One step of the device-quota eviction over the first `n` claims. */
  lemma EvictStep(cs: seq<Claim>, n: int, used: int, maxDevices: int)
    requires 0 < n <= |cs| && n > maxDevices
    ensures Evict(cs[..n], used, maxDevices) == Evict(cs[..n - 1], used - cs[n - 1].value, maxDevices)
  {
    assert cs[..n][..n - 1] == cs[..n - 1];
  }

  /** Shrinking keeps a prefix of the claims: all but the last kept one
      unchanged, and that one with its expectation and priority. */
  lemma {:induction false} ShrinkKeepsPrefix(cs: seq<Claim>, used: int, lack: int)
    ensures var p := Shrink(cs, used, lack);
            (forall j :: 0 <= j < |p.claims| ==>
               p.claims[j].expected == cs[j].expected && p.claims[j].priority == cs[j].priority) &&
            (forall j :: 0 <= j < |p.claims| - 1 ==> p.claims[j] == cs[j])
    decreases |cs|
  {
    if cs != [] && cs[|cs| - 1].value <= lack {
      ShrinkKeepsPrefix(cs[..|cs| - 1], used - cs[|cs| - 1].value, lack - cs[|cs| - 1].value);
    }
  }

  /** One step of the shrinking over the first `n` claims: the last one
      released whole. */
  lemma ShrinkStep(cs: seq<Claim>, n: int, used: int, lack: int)
    requires 0 < n <= |cs| && cs[n - 1].value <= lack
    ensures Shrink(cs[..n], used, lack) == Shrink(cs[..n - 1], used - cs[n - 1].value, lack - cs[n - 1].value)
  {
    assert cs[..n][..n - 1] == cs[..n - 1];
  }

  /** The last step of the shrinking: the last of `n` claims lowered by
      what is still lacking. */
  lemma ShrinkCut(cs: seq<Claim>, n: int, used: int, lack: int)
    requires 0 < n <= |cs| && cs[n - 1].value > lack
    ensures Shrink(cs[..n], used, lack)
         == Pool(cs[..n][n - 1 := cs[n - 1].(value := cs[n - 1].value - lack)], used - lack)
  {
  }

  /** `after` is `before` moved toward what it expects, never past it. */
  ghost predicate Toward(before: Claim, after: Claim)
  {
    after.expected == before.expected && after.priority == before.priority &&
    (before.value <= before.expected ==> before.value <= after.value <= before.expected) &&
    (before.value >= before.expected ==> before.expected <= after.value <= before.value)
  }

  /** The top-up walk from claim `i` leaves the claims before `i` alone and
      moves each later one toward what it expects, never past it. */
  lemma {:induction false} TopUpToward(cs: seq<Claim>, used: int, total: int, i: nat)
    requires i <= |cs|
    ensures var p := TopUp(cs, used, total, i);
            (forall j :: 0 <= j < i ==> p.claims[j] == cs[j]) &&
            (forall j :: i <= j < |cs| ==> Toward(cs[j], p.claims[j]))
    decreases |cs| - i
  {
    if i == |cs| || total - used <= 0 {
    } else {
      var c := cs[i];
      if c.value == c.expected {
        TopUpToward(cs, used, total, i + 1);
      } else {
        var lack := c.expected - c.value;
        if lack < 0 {
          TopUpToward(cs[i := c.(value := c.expected)], used + lack, total, i + 1);
        } else {
          var num := Min(lack, total - used);
          TopUpToward(cs[i := c.(value := c.value + num)], used + num, total, i + 1);
        }
      }
    }
  }

  /** `OnCpuChange` after the new totals are computed: quota eviction,
      shrinking, top-up. */
  function Rebalance(cs: seq<Claim>, used: int, total: int, maxDevices: int): Pool
  {
    var e := Evict(cs, used, maxDevices);
    var r := Reduce(e.claims, e.used, total);
    TopUp(r.claims, r.used, total, 0)
  }

  lemma {:induction false} EvictAccounting(cs: seq<Claim>, used: int, maxDevices: int)
    ensures var p := Evict(cs, used, maxDevices);
            p.used == used - Held(cs[|p.claims|..])
    decreases |cs|
  {
    var p := Evict(cs, used, maxDevices);
    if |cs| > maxDevices && |cs| > 0 {
      var n := |cs| - 1;
      EvictAccounting(cs[..n], used - cs[n].value, maxDevices);
      assert cs[..n][|p.claims|..] == cs[|p.claims|..][..n - |p.claims|];
      HeldDropLast(cs[|p.claims|..]);
    } else {
      assert cs[|cs|..] == [];
    }
  }

  /** Shrinking moves `used` by exactly what it takes from the claims. */
  lemma {:induction false} ShrinkAccounting(cs: seq<Claim>, used: int, lack: int)
    ensures var p := Shrink(cs, used, lack);
            Held(p.claims) - p.used == Held(cs) - used
    decreases |cs|
  {
    if cs != [] {
      var last := cs[|cs| - 1];
      HeldDropLast(cs);
      if last.value <= lack {
        ShrinkAccounting(cs[..|cs| - 1], used - last.value, lack - last.value);
      } else {
        HeldUpdate(cs, |cs| - 1, last.(value := last.value - lack));
      }
    }
  }

  /** When the claims hold at least what is lacking, shrinking covers the
      lack exactly. */
  lemma {:induction false} ShrinkExact(cs: seq<Claim>, used: int, lack: int)
    requires AllHolding(cs) && 0 <= lack <= Held(cs)
    ensures Shrink(cs, used, lack).used == used - lack
    decreases |cs|
  {
    if cs != [] {
      var last := cs[|cs| - 1];
      HeldDropLast(cs);
      if last.value <= lack {
        ShrinkExact(cs[..|cs| - 1], used - last.value, lack - last.value);
      }
    }
  }

  lemma {:induction false} ShrinkKeepsPositive(cs: seq<Claim>, used: int, lack: int)
    requires AllHolding(cs) && lack >= 0
    ensures AllHolding(Shrink(cs, used, lack).claims)
    decreases |cs|
  {
    if cs != [] && cs[|cs| - 1].value <= lack {
      ShrinkKeepsPositive(cs[..|cs| - 1], used - cs[|cs| - 1].value, lack - cs[|cs| - 1].value);
    }
  }

  /** Topping up moves `used` by exactly what it gives to (or takes back
      from) the claims. */
  lemma {:induction false} TopUpAccounting(cs: seq<Claim>, used: int, total: int, i: nat)
    requires i <= |cs|
    ensures var p := TopUp(cs, used, total, i);
            Held(p.claims) - p.used == Held(cs) - used
    decreases |cs| - i
  {
    if i == |cs| || total - used <= 0 {
    } else {
      var c := cs[i];
      if c.value == c.expected {
        TopUpAccounting(cs, used, total, i + 1);
      } else {
        var lack := c.expected - c.value;
        if lack < 0 {
          HeldUpdate(cs, i, c.(value := c.expected));
          TopUpAccounting(cs[i := c.(value := c.expected)], used + lack, total, i + 1);
        } else {
          var num := Min(lack, total - used);
          HeldUpdate(cs, i, c.(value := c.value + num));
          TopUpAccounting(cs[i := c.(value := c.value + num)], used + num, total, i + 1);
        }
      }
    }
  }

  /** Topping up never commits more than the total (unless `used` was
      already over it, in which case nothing is given). */
  lemma {:induction false} TopUpBounded(cs: seq<Claim>, used: int, total: int, i: nat)
    requires i <= |cs|
    ensures TopUp(cs, used, total, i).used <= Max(used, total)
    decreases |cs| - i
  {
    if i == |cs| || total - used <= 0 {
    } else {
      var c := cs[i];
      if c.value == c.expected {
        TopUpBounded(cs, used, total, i + 1);
      } else {
        var lack := c.expected - c.value;
        if lack < 0 {
          TopUpBounded(cs[i := c.(value := c.expected)], used + lack, total, i + 1);
        } else {
          TopUpBounded(cs[i := c.(value := c.value + Min(lack, total - used))],
                       used + Min(lack, total - used), total, i + 1);
        }
      }
    }
  }

  /** Greedy: if workrate is still available after the walk, every claim
      it passed now holds exactly what it expects. */
  lemma {:induction false} TopUpFills(cs: seq<Claim>, used: int, total: int, i: nat)
    requires i <= |cs|
    ensures var p := TopUp(cs, used, total, i);
            total - p.used > 0 ==> forall j :: i <= j < |cs| ==> p.claims[j].value == cs[j].expected
    decreases |cs| - i
  {
    if i == |cs| || total - used <= 0 {
    } else {
      var c := cs[i];
      if c.value == c.expected {
        TopUpFills(cs, used, total, i + 1);
        TopUpToward(cs, used, total, i + 1);
      } else {
        var lack := c.expected - c.value;
        if lack < 0 {
          TopUpFills(cs[i := c.(value := c.expected)], used + lack, total, i + 1);
          TopUpToward(cs[i := c.(value := c.expected)], used + lack, total, i + 1);
        } else {
          var num := Min(lack, total - used);
          var cs' := cs[i := c.(value := c.value + num)];
          TopUpFills(cs', used + num, total, i + 1);
          TopUpToward(cs', used + num, total, i + 1);
          if num < lack {
            TopUpStops(cs', used + num, total, i + 1);
          }
        }
      }
    }
  }

  /** The walk changes nothing when nothing is available or every claim
      from `i` on already holds what it expects. */
  lemma {:induction false} TopUpStops(cs: seq<Claim>, used: int, total: int, i: nat)
    requires i <= |cs|
    requires total - used <= 0 || forall j :: i <= j < |cs| ==> cs[j].value == cs[j].expected
    ensures TopUp(cs, used, total, i) == Pool(cs, used)
    decreases |cs| - i
  {
    if i < |cs| && total - used > 0 {
      TopUpStops(cs, used, total, i + 1);
    }
  }

  lemma {:induction false} TopUpKeepsPositive(cs: seq<Claim>, used: int, total: int, i: nat)
    requires i <= |cs| && AllHolding(cs)
    ensures AllHolding(TopUp(cs, used, total, i).claims)
  {
    var p := TopUp(cs, used, total, i);
    TopUpToward(cs, used, total, i);
    forall j | 0 <= j < |cs| ensures p.claims[j].value > 0 && p.claims[j].expected > 0 {
      if j >= i { assert Toward(cs[j], p.claims[j]); }
    }
  }

  /** After a rebalance nothing is over-committed and the device quota
      holds. */
  lemma RebalanceBounded(cs: seq<Claim>, used: int, total: int, maxDevices: int)
    ensures var r := Rebalance(cs, used, total, maxDevices);
            r.used <= total && |r.claims| <= |cs| &&
            (maxDevices >= 0 ==> |r.claims| <= maxDevices)
  {
    var e := Evict(cs, used, maxDevices);
    var d := Reduce(e.claims, e.used, total);
    TopUpBounded(d.claims, d.used, total, 0);
  }

  /** Eviction keeps the claims holding exactly what is counted as used. */
  lemma EvictConserves(cs: seq<Claim>, used: int, maxDevices: int)
    requires AllHolding(cs) && Held(cs) == used
    ensures var e := Evict(cs, used, maxDevices);
            Held(e.claims) == e.used && AllHolding(e.claims)
  {
    var e := Evict(cs, used, maxDevices);
    EvictAccounting(cs, used, maxDevices);
    HeldPrefix(cs, |e.claims|);
  }

  /** So does the shortfall step, onto a non-negative total. */
  lemma ReduceConserves(cs: seq<Claim>, used: int, total: int)
    requires AllHolding(cs) && Held(cs) == used && total >= 0
    ensures var d := Reduce(cs, used, total);
            Held(d.claims) == d.used && AllHolding(d.claims)
  {
    if used > total {
      ShrinkAccounting(cs, used, used - total);
      ShrinkExact(cs, used, used - total);
      ShrinkKeepsPositive(cs, used, used - total);
    }
  }

  /** So does the top-up walk. */
  lemma TopUpConserves(cs: seq<Claim>, used: int, total: int)
    requires AllHolding(cs) && Held(cs) == used
    ensures var p := TopUp(cs, used, total, 0);
            Held(p.claims) == p.used && AllHolding(p.claims)
  {
    TopUpAccounting(cs, used, total, 0);
    TopUpKeepsPositive(cs, used, total, 0);
  }

  /** Conservation: if the claims held exactly `used` before, they do so
      after a rebalance onto a non-negative total. */
  lemma RebalanceConserves(cs: seq<Claim>, used: int, total: int, maxDevices: int)
    requires AllHolding(cs) && Held(cs) == used && total >= 0
    ensures var r := Rebalance(cs, used, total, maxDevices);
            Held(r.claims) == r.used && AllHolding(r.claims)
  {
    var e := Evict(cs, used, maxDevices);
    EvictConserves(cs, used, maxDevices);
    var d := Reduce(e.claims, e.used, total);
    ReduceConserves(e.claims, e.used, total);
    TopUpConserves(d.claims, d.used, total);
  }

  /** A second rebalance onto the same totals changes nothing. */
  lemma RebalanceIdempotent(cs: seq<Claim>, used: int, total: int, maxDevices: int)
    ensures var r := Rebalance(cs, used, total, maxDevices);
            Rebalance(r.claims, r.used, total, maxDevices) == r
  {
    var r := Rebalance(cs, used, total, maxDevices);
    RebalanceBounded(cs, used, total, maxDevices);
    var e := Evict(cs, used, maxDevices);
    var d := Reduce(e.claims, e.used, total);
    TopUpFills(d.claims, d.used, total, 0);
    TopUpToward(d.claims, d.used, total, 0);
    assert Evict(r.claims, r.used, maxDevices) == Pool(r.claims, r.used);
    assert Reduce(r.claims, r.used, total) == Pool(r.claims, r.used);
    TopUpStops(r.claims, r.used, total, 0);
  }

  // ---------------------------------------------------------------------
  // A whole request, on values
  // ---------------------------------------------------------------------

  /** What a request leaves: the claims after preemption (before the new
      claim is inserted), the workrate then available, and the grant,
      `min(available, value)`; a grant <= 0 creates no claim. */
  datatype Grant = Grant(kept: seq<Claim>, available: int, granted: int)

  function Request(cs: seq<Claim>, available: int, value: int, priority: int,
                   maxDevices: int, skip: bool): (g: Grant)
    ensures g.granted <= value && g.granted <= g.available
    ensures |g.kept| <= |cs|
  {
    var s := Preempt(cs, |cs|, available, value, priority, maxDevices, skip);
    Grant(AfterScan(cs, s), s.available, Min(s.available, value))
  }

  /** Preemption moves workrate from claims to the available pool and
      nowhere else, keeps the list ordered, and leaves no claim empty. */
  lemma RequestPreempts(cs: seq<Claim>, available: int, value: int, priority: int,
                        maxDevices: int, skip: bool)
    requires Descending(Priorities(cs)) && AllHolding(cs)
    ensures var g := Request(cs, available, value, priority, maxDevices, skip);
            Held(g.kept) + g.available == Held(cs) + available &&
            Priorities(g.kept) == Priorities(cs)[..|g.kept|] &&
            Descending(Priorities(g.kept)) && AllHolding(g.kept)
  {
    var s := Preempt(cs, |cs|, available, value, priority, maxDevices, skip);
    PreemptAccounting(cs, |cs|, available, value, priority, maxDevices, skip);
    HeldPrefix(cs, s.kept);
    assert cs[s.kept..|cs|] == cs[s.kept..];
    if s.cut > 0 {
      HeldUpdate(cs[..s.kept], s.kept - 1, cs[s.kept - 1].(value := cs[s.kept - 1].value - s.cut));
    }
  }

  /** A request takes workrate only from claims of strictly lower
      priority: every claim it drops or changes ranks below it. */
  lemma RequestOnlyLower(cs: seq<Claim>, available: int, value: int, priority: int,
                         maxDevices: int, skip: bool)
    ensures var g := Request(cs, available, value, priority, maxDevices, skip);
            (forall j :: 0 <= j < |g.kept| && g.kept[j] != cs[j] ==> cs[j].priority < priority) &&
            (forall j :: |g.kept| <= j < |cs| ==> cs[j].priority < priority)
  {
    PreemptOnlyLower(cs, |cs|, available, value, priority, maxDevices, skip);
  }

  /** A request that fits in what is available is granted in full and
      takes nothing from any claim. */
  lemma RequestFits(cs: seq<Claim>, available: int, value: int, priority: int, maxDevices: int, skip: bool)
    requires 0 < value <= available
    ensures Request(cs, available, value, priority, maxDevices, skip) == Grant(cs, available, value)
  {
    assert cs[..|cs|] == cs;
  }

  /** A request that fits in what is available is granted in full without
      touching any claim, even when the list already holds `maxDevices`
      claims: the device quota is only applied while freeing workrate. */
  lemma RequestIgnoresQuotaWhenAvailable(cs: seq<Claim>, available: int, value: int,
                                         priority: int, maxDevices: int)
    requires 0 < value <= available && |cs| >= maxDevices
    ensures Request(cs, available, value, priority, maxDevices, false) == Grant(cs, available, value)
  {
    assert cs[..|cs|] == cs;
  }

  lemma {:induction false} HeldNonNegative(cs: seq<Claim>)
    requires AllHolding(cs)
    ensures Held(cs) >= 0
    decreases |cs|
  {
    if cs != [] {
      HeldDropLast(cs);
      HeldNonNegative(cs[..|cs| - 1]);
    }
  }

  /** Preemption only adds to what is available, so a request for some
      workrate while some is available is always granted some. */
  lemma RequestGrantsWhenAvailable(cs: seq<Claim>, available: int, value: int, priority: int,
                                   maxDevices: int, skip: bool)
    requires AllHolding(cs)
    ensures Request(cs, available, value, priority, maxDevices, skip).available >= available
    ensures 0 < available && 0 < value ==> Request(cs, available, value, priority, maxDevices, skip).granted > 0
  {
    var s := Preempt(cs, |cs|, available, value, priority, maxDevices, skip);
    PreemptAccounting(cs, |cs|, available, value, priority, maxDevices, skip);
    HeldNonNegative(cs[s.kept..|cs|]);
  }

  // ---------------------------------------------------------------------
  // CPUs
  // ---------------------------------------------------------------------

  /** A powered CPU: the workrate it provides and the devices it serves
      (both `uint` in the source). */
  datatype Cpu = Cpu(id: int, ops: nat, maxDevices: nat)

  datatype Capacity = Capacity(ops: int, devices: int)

  function Plus(k: Capacity, c: Cpu): Capacity
  {
    Capacity(k.ops + c.ops, k.devices + c.maxDevices)
  }

  /** Workrate and devices provided by a set of CPUs. */
  ghost function Provided(s: set<Cpu>): Capacity
  {
    if s == {} then Capacity(0, 0)
    else
      var c :| c in s;
      Plus(Provided(s - {c}), c)
  }

  /** The sum does not depend on which CPU is taken out first. */
  lemma {:induction false} ProvidedRemove(s: set<Cpu>, c: Cpu)
    requires c in s
    ensures Provided(s) == Plus(Provided(s - {c}), c)
    decreases |s|
  {
    var d :| d in s && Provided(s) == Plus(Provided(s - {d}), d);
    if d != c {
      var t := s - {c} - {d};
      assert s - {d} - {c} == t;
      ProvidedRemove(s - {d}, c);
      ProvidedRemove(s - {c}, d);
      assert Provided(s - {d}) == Plus(Provided(t), c);
      assert Provided(s - {c}) == Plus(Provided(t), d);
      assert Provided(s) == Plus(Plus(Provided(t), c), d);
      assert Plus(Plus(Provided(t), c), d) == Plus(Plus(Provided(t), d), c);
    }
  }

  /** `Cpus.Sum(...)` for both totals, over the set in any order. */
  method SumProvided(s: set<Cpu>) returns (k: Capacity)
    ensures k == Provided(s)
  {
    k := Capacity(0, 0);
    var rest := s;
    while rest != {}
      invariant rest <= s
      invariant Provided(s).ops == Provided(rest).ops + k.ops
      invariant Provided(s).devices == Provided(rest).devices + k.devices
      decreases |rest|
    {
      var c :| c in rest;
      ProvidedRemove(rest, c);
      k := Plus(k, c);
      rest := rest - {c};
    }
  }

  // ---------------------------------------------------------------------
  // The claim objects and the arbitrator
  // ---------------------------------------------------------------------

  /** `DynWorkRate`: a claim on the network's workrate. */
  class DynWorkRate {
    var Value: int
    var Expected: int
    var Released: bool
    var Priority: int

    constructor (value: int, priority: int)
      ensures Value == value && Expected == value && !Released && Priority == priority
      ensures !Low()
    {
      Value := value;
      Expected := value;
      Released := false;
      Priority := priority;
    }

    /** `Low`: the claim does not hold exactly what it expects, either
        less or more. */
    predicate Low()
      reads this
    {
      Value != Expected
    }
  }

  /** The value view of a list of claim objects. */
  ghost function ClaimsOf(ws: seq<DynWorkRate>): seq<Claim>
    reads ws
  {
    seq(|ws|, i reads ws requires 0 <= i < |ws| => Claim(ws[i].Value, ws[i].Expected, ws[i].Priority))
  }

  /** Each claim once, by descending priority; every claim live, holding
      workrate and wanting some. */
  ghost predicate ValidList(ws: seq<DynWorkRate>)
    reads ws
  {
    Distinct(ws) &&
    Descending(Priorities(ClaimsOf(ws))) &&
    AllHolding(ClaimsOf(ws)) &&
    forall i :: 0 <= i < |ws| ==> !ws[i].Released
  }

  /** Taking a claim out of a valid list (`List.Remove`). */
  lemma RemoveKeepsValid(ws: seq<DynWorkRate>, c: DynWorkRate)
    requires ValidList(ws)
    ensures ValidList(RemoveFirst(ws, c)) && c !in RemoveFirst(ws, c)
    ensures c in ws ==> ClaimsOf(RemoveFirst(ws, c)) == RemoveAt(ClaimsOf(ws), IndexOf(ws, c)) &&
                        Held(ClaimsOf(RemoveFirst(ws, c))) == Held(ClaimsOf(ws)) - c.Value
    ensures c !in ws ==> RemoveFirst(ws, c) == ws
  {
    RemoveFirstDistinct(ws, c);
    if c in ws {
      var k := IndexOf(ws, c);
      var cs := ClaimsOf(ws);
      var rs := RemoveAt(ws, k);
      ClaimsOfRemoveAt(ws, k);
      RemoveKeepsDescending(Priorities(cs), k);
      assert Priorities(RemoveAt(cs, k)) == RemoveAt(Priorities(cs), k);
      HeldRemove(cs, k);
      forall i | 0 <= i < |rs| ensures !rs[i].Released {
        assert rs[i] == ws[if i < k then i else i + 1];
      }
    }
  }

  /** Putting a new claim into a valid list at a place that fits its
      priority (`List.Insert` at the `BinarySearch` position). */
  lemma InsertKeepsValid(ws: seq<DynWorkRate>, k: int, r: DynWorkRate)
    requires ValidList(ws) && r !in ws
    requires !r.Released && r.Value > 0 && r.Expected > 0
    requires FitsAt(Priorities(ClaimsOf(ws)), k, r.Priority)
    ensures ValidList(InsertAt(ws, k, r))
    ensures ClaimsOf(InsertAt(ws, k, r)) == InsertAt(ClaimsOf(ws), k, Claim(r.Value, r.Expected, r.Priority))
    ensures IndexOf(InsertAt(ws, k, r), r) == k
  {
    var ns := InsertAt(ws, k, r);
    var cs := ClaimsOf(ws);
    assert ClaimsOf(ns) == InsertAt(cs, k, Claim(r.Value, r.Expected, r.Priority));
    assert Priorities(ClaimsOf(ns)) == InsertAt(Priorities(cs), k, r.Priority);
    InsertKeepsDescending(Priorities(cs), k, r.Priority);
    forall i, j | 0 <= i < j < |ns| ensures At(ns, i) != At(ns, j) {
      if i != k && j != k {
        assert ns[i] == At(ws, if i < k then i else i - 1);
        assert ns[j] == At(ws, if j < k then j else j - 1);
      }
    }
  }

  lemma ClaimsOfRemoveAt(ws: seq<DynWorkRate>, k: int)
    requires 0 <= k < |ws|
    ensures ClaimsOf(RemoveAt(ws, k)) == RemoveAt(ClaimsOf(ws), k)
  {
  }

  lemma ClaimsOfPrefix(ws: seq<DynWorkRate>, n: int)
    requires 0 <= n <= |ws|
    ensures ClaimsOf(ws[..n]) == ClaimsOf(ws)[..n]
  {
  }

  /** A prefix of a list of claim objects that still show the claims of
      a valid claim list, live, is a valid list showing those claims. */
  lemma PrefixShows(ws: seq<DynWorkRate>, cs: seq<Claim>, n: nat)
    requires n <= |ws| == |cs| && Distinct(ws)
    requires Descending(Priorities(cs)) && AllHolding(cs)
    requires forall j :: 0 <= j < n ==>
               cs[j] == Claim(ws[j].Value, ws[j].Expected, ws[j].Priority) && !ws[j].Released
    ensures ValidList(ws[..n]) && ClaimsOf(ws[..n]) == cs[..n]
  {
    assert ClaimsOf(ws[..n]) == cs[..n];
    assert Priorities(cs[..n]) == Priorities(cs)[..n];
    DistinctPrefix(ws, n);
  }

  /** The workrate half of `LocalNetwork`. */
  class WorkrateNetwork {
    var DynWorkRates: seq<DynWorkRate>
    var UsedWorkrate: int
    var TotalWorkrate: int
    var MaxDevices: int
    var Cpus: set<Cpu>

    function AvailableWorkrate(): int
      reads this
    {
      TotalWorkrate - UsedWorkrate
    }

    ghost function Claims(): seq<Claim>
      reads this, DynWorkRates
    {
      ClaimsOf(DynWorkRates)
    }

    /** The list holds each claim once, by descending priority; every claim
        in it is live, holds workrate and wants some. */
    ghost predicate Valid()
      reads this, DynWorkRates
    {
      ValidList(DynWorkRates)
    }

    /** Every claim of `ws` is still listed or has been released: no
        operation drops a live claim from the list without marking it. */
    ghost predicate Tracks(ws: seq<DynWorkRate>)
      reads this, ws
    {
      forall c :: c in ws ==> c in DynWorkRates || c.Released
    }

    /** A list cut back to a prefix of `ws`, with the rest of `ws`
        released, still tracks `ws`. */
    lemma PrefixTracks(ws: seq<DynWorkRate>, k: int)
      requires 0 <= k <= |ws| && DynWorkRates == ws[..k]
      requires forall c :: c in ws[k..] ==> c.Released
      ensures Tracks(ws)
    {
      forall c | c in ws ensures c in DynWorkRates || c.Released {
        var j :| 0 <= j < |ws| && ws[j] == c;
        if j < k {
          assert DynWorkRates[j] == c;
        } else {
          assert ws[k..][j - k] == c;
        }
      }
    }

    /** `UsedWorkrate` is what the live claims hold. */
    ghost predicate Conserved()
      reads this, DynWorkRates
    {
      UsedWorkrate == Held(Claims())
    }

    constructor ()
      ensures DynWorkRates == [] && Cpus == {}
      ensures UsedWorkrate == 0 && TotalWorkrate == 0 && MaxDevices == 0
      ensures Valid() && Conserved()
    {
      DynWorkRates := [];
      UsedWorkrate := 0;
      TotalWorkrate := 0;
      MaxDevices := 0;
      Cpus := {};
      new;
      assert Claims() == [];
    }

    /** `ReleaseWorkRate(workRate, keepValue)`: a released claim is left
        alone (the source logs a duplicate release); otherwise the claim
        leaves the list and is marked released, and unless `keepValue` its
        workrate returns to the pool. */
    method ReleaseWorkRate(c: DynWorkRate, keepValue: bool)
      requires Valid()
      modifies this, c
      ensures Valid()
      ensures TotalWorkrate == old(TotalWorkrate) && MaxDevices == old(MaxDevices) && Cpus == old(Cpus)
      ensures c.Released && c.Value == old(c.Value) && c.Expected == old(c.Expected)
      ensures c.Priority == old(c.Priority)
      ensures old(c.Released) ==> DynWorkRates == old(DynWorkRates) && UsedWorkrate == old(UsedWorkrate)
      ensures !old(c.Released) ==>
                DynWorkRates == RemoveFirst(old(DynWorkRates), c) &&
                UsedWorkrate == old(UsedWorkrate) - (if keepValue then 0 else old(c.Value))
      ensures c in old(DynWorkRates) ==>
                Claims() == RemoveAt(old(Claims()), IndexOf(old(DynWorkRates), c))
      ensures c !in old(DynWorkRates) ==> Claims() == old(Claims())
      ensures old(Conserved()) && c in old(DynWorkRates) && !keepValue ==> Conserved()
      ensures Tracks(old(DynWorkRates))
    {
      if c.Released {
        assert c !in DynWorkRates;
        return;
      }
      if !keepValue {
        UsedWorkrate := UsedWorkrate - c.Value;
      }
      Retire(c);
    }

    /** `DynWorkRates.Remove(workRate)` and `workRate.Released = true`: the
        first occurrence of the claim leaves the list, which stays valid,
        and the claim is marked released. */
    method Retire(c: DynWorkRate)
      requires Valid()
      modifies this, c
      ensures Valid() && c !in DynWorkRates
      ensures c.Released && c.Value == old(c.Value) && c.Expected == old(c.Expected)
      ensures c.Priority == old(c.Priority)
      ensures TotalWorkrate == old(TotalWorkrate) && MaxDevices == old(MaxDevices) && Cpus == old(Cpus)
      ensures UsedWorkrate == old(UsedWorkrate)
      ensures DynWorkRates == RemoveFirst(old(DynWorkRates), c)
      ensures c in old(DynWorkRates) ==>
                Claims() == RemoveAt(old(Claims()), IndexOf(old(DynWorkRates), c)) &&
                Held(Claims()) == Held(old(Claims())) - c.Value
      ensures c !in old(DynWorkRates) ==> Claims() == old(Claims())
    {
      RemoveKeepsValid(DynWorkRates, c);
      DynWorkRates := RemoveFirst(DynWorkRates, c);
      c.Released := true;
    }

    /** `ReleaseWorkRate(workRate, value)`: a released claim is left alone;
        releasing at least what the claim holds releases it whole;
        otherwise the claim and the pool's use both drop by `value`. */
    method ReleaseWorkRateBy(c: DynWorkRate, value: int)
      requires Valid()
      modifies this, c
      ensures Valid()
      ensures TotalWorkrate == old(TotalWorkrate) && MaxDevices == old(MaxDevices) && Cpus == old(Cpus)
      ensures c.Expected == old(c.Expected) && c.Priority == old(c.Priority)
      ensures old(c.Released) ==>
                unchanged(c) && DynWorkRates == old(DynWorkRates) && UsedWorkrate == old(UsedWorkrate)
      ensures !old(c.Released) && value >= old(c.Value) ==>
                c.Released && c.Value == old(c.Value) &&
                DynWorkRates == RemoveFirst(old(DynWorkRates), c) &&
                UsedWorkrate == old(UsedWorkrate) - old(c.Value)
      ensures !old(c.Released) && value < old(c.Value) ==>
                !c.Released && c.Value == old(c.Value) - value &&
                DynWorkRates == old(DynWorkRates) && UsedWorkrate == old(UsedWorkrate) - value
      ensures c in old(DynWorkRates) && value >= old(c.Value) ==>
                Claims() == RemoveAt(old(Claims()), IndexOf(old(DynWorkRates), c))
      ensures c in old(DynWorkRates) && value < old(c.Value) ==>
                Claims() == old(Claims())[IndexOf(old(DynWorkRates), c) :=
                                          Claim(old(c.Value) - value, c.Expected, c.Priority)]
      ensures c !in old(DynWorkRates) ==> Claims() == old(Claims())
      ensures old(Conserved()) && c in old(DynWorkRates) ==> Conserved()
      ensures Tracks(old(DynWorkRates))
    {
      if c.Released {
        return;
      }
      if value >= c.Value {
        ReleaseWorkRate(c, false);
        return;
      }
      ghost var ws, cs := DynWorkRates, Claims();
      c.Value := c.Value - value;
      UsedWorkrate := UsedWorkrate - value;
      if c in ws {
        var k := IndexOf(ws, c);
        forall j | 0 <= j < |ws| && j != k ensures ws[j] != c {
          DistinctAt(ws, j, k);
        }
        assert Claims() == cs[k := Claim(c.Value, c.Expected, c.Priority)];
        assert Priorities(Claims()) == Priorities(cs);
        HeldUpdate(cs, k, Claim(c.Value, c.Expected, c.Priority));
      } else {
        assert Claims() == cs;
      }
    }
  
    /** The state of the preemption scan over the first `n` of the claim
        objects `ws` that showed the claims `cs` when it began: the list is
        that prefix, every object in it still shows its claim and is live,
        and the objects beyond it have been released. */
    ghost predicate ScanState(ws: seq<DynWorkRate>, cs: seq<Claim>, n: int)
      reads this, ws
    {
      0 <= n <= |ws| == |cs| && DynWorkRates == ws[..n] &&
      (forall j :: 0 <= j < n ==>
         cs[j] == Claim(ws[j].Value, ws[j].Expected, ws[j].Priority) && !ws[j].Released) &&
      (forall j :: n <= j < |ws| ==> ws[j].Released)
    }

    /** The state at the end of the preemption scan `s` over the claim
        objects `ws` that showed the claims `cs` when it began: the list is
        the kept prefix showing the claims the scan leaves, and the objects
        beyond it have been released. */
    ghost predicate ScanDone(ws: seq<DynWorkRate>, cs: seq<Claim>, s: Scan)
      reads this, ws, DynWorkRates
    {
      s.kept <= |ws| == |cs| && (s.cut > 0 ==> s.kept > 0) &&
      Valid() && DynWorkRates == ws[..s.kept] && Claims() == AfterScan(cs, s) &&
      AvailableWorkrate() == s.available && (forall j :: s.kept <= j < |ws| ==> ws[j].Released)
    }

    /** `ReleaseWorkRate(victim)` on the last claim of the list, as the
        preemption loop calls it: the scan moves one claim down and the
        claim's workrate becomes available. */
    method ReleaseLast(ghost ws: seq<DynWorkRate>, ghost cs: seq<Claim>, ghost n: int)
      requires 0 < n && ScanState(ws, cs, n) && Distinct(ws)
      requires Descending(Priorities(cs)) && AllHolding(cs)
      modifies this, ws[n - 1]
      ensures TotalWorkrate == old(TotalWorkrate) && MaxDevices == old(MaxDevices) && Cpus == old(Cpus)
      ensures ScanState(ws, cs, n - 1)
      ensures UsedWorkrate == old(UsedWorkrate) - cs[n - 1].value
      ensures AvailableWorkrate() == old(AvailableWorkrate()) + cs[n - 1].value
    {
      forall j | 0 <= j < n - 1 ensures ws[j] != ws[n - 1] {
        DistinctAt(ws, j, n - 1);
      }
      var c := DynWorkRates[|DynWorkRates| - 1];
      // The victim is live and listed once, at the end, so `List.Remove`
      // drops the last entry.
      UsedWorkrate := UsedWorkrate - c.Value;
      DynWorkRates := DynWorkRates[..|DynWorkRates| - 1];
      c.Released := true;
      assert DynWorkRates == ws[..n - 1];
    }

    /** Where the scan stops at once, the state already is its end. */
    lemma StopShows(ws: seq<DynWorkRate>, cs: seq<Claim>, n: int, avail: int, value: int,
                    priority: int, skip: bool, s: Scan)
      requires ScanState(ws, cs, n) && Distinct(ws) && Descending(Priorities(cs)) && AllHolding(cs)
      requires avail == AvailableWorkrate()
      requires n == 0 || avail >= value || cs[n - 1].priority >= priority
      requires Preempt(cs, n, avail, value, priority, MaxDevices, skip) == s
      ensures s.kept == n && ScanDone(ws, cs, s)
    {
      PreemptStops(cs, n, avail, value, priority, MaxDevices, skip);
      PrefixShows(ws, cs, n);
    }

    /** `ReleaseWorkRate(victim, value - AvailableWorkrate)` on the last
        claim of the list, holding more than both the requested value and
        the shortfall, as the corrected preemption loop calls it: the scan
        ends with that claim cut. */
    method CutLast(ghost ws: seq<DynWorkRate>, ghost cs: seq<Claim>, ghost n: int,
                   value: int, ghost priority: int, ghost skip: bool, ghost s: Scan)
      requires 0 < n && ScanState(ws, cs, n) && Distinct(ws)
      requires Descending(Priorities(cs)) && AllHolding(cs)
      requires AvailableWorkrate() < value && cs[n - 1].priority < priority
      requires (skip || n < MaxDevices) && cs[n - 1].value > value && cs[n - 1].value > value - AvailableWorkrate()
      requires Preempt(cs, n, AvailableWorkrate(), value, priority, MaxDevices, skip) == s
      modifies this, ws[n - 1]
      ensures TotalWorkrate == old(TotalWorkrate) && MaxDevices == old(MaxDevices) && Cpus == old(Cpus)
      ensures s.kept == n && ScanDone(ws, cs, s)
    {
      PreemptCuts(cs, n, AvailableWorkrate(), value, priority, MaxDevices, skip);
      PrefixShows(ws, cs, n);
      forall j | n <= j < |ws| ensures ws[j] != ws[n - 1] {
        DistinctAt(ws, j, n - 1);
      }
      ReleaseLastBy(value - AvailableWorkrate());
    }

    /** `ReleaseWorkRate(victim, value)` on the last claim of the list,
        holding more than `value`: the claim and `UsedWorkrate` both drop by
        `value`. */
    method ReleaseLastBy(value: int)
      requires Valid() && |DynWorkRates| > 0
      requires 0 < value < DynWorkRates[|DynWorkRates| - 1].Value
      modifies this, DynWorkRates[|DynWorkRates| - 1]
      ensures Valid()
      ensures TotalWorkrate == old(TotalWorkrate) && MaxDevices == old(MaxDevices) && Cpus == old(Cpus)
      ensures DynWorkRates == old(DynWorkRates)
      ensures var n := |DynWorkRates|;
              Claims() == old(Claims())[n - 1 := old(Claims())[n - 1].(value := old(Claims())[n - 1].value - value)]
      ensures UsedWorkrate == old(UsedWorkrate) - value
    {
      RemoveFirstLast(DynWorkRates);
      ReleaseWorkRateBy(DynWorkRates[|DynWorkRates| - 1], value);
    }

    /** The preemption loop of `RequestWorkrate`, exactly the scan
        `Preempt` describes: victims are taken from the lowest-priority end
        and released whole or cut, until enough is available or the next
        claim's priority is not below the request's. */
    method FreeWorkrate(value: int, priority: int, skipDeviceCheck: bool)
      requires Valid()
      modifies this, DynWorkRates
      ensures Valid()
      ensures TotalWorkrate == old(TotalWorkrate) && MaxDevices == old(MaxDevices) && Cpus == old(Cpus)
      ensures var s := Preempt(old(Claims()), |old(DynWorkRates)|, old(AvailableWorkrate()), value,
                               priority, MaxDevices, skipDeviceCheck);
              DynWorkRates == old(DynWorkRates)[..s.kept] &&
              Claims() == AfterScan(old(Claims()), s) &&
              AvailableWorkrate() == s.available &&
              (forall c :: c in old(DynWorkRates)[s.kept..] ==> c.Released)
      ensures old(Conserved()) ==> Conserved()
      ensures Tracks(old(DynWorkRates))
    {
      ghost var ws0, cs0, md, u0 := DynWorkRates, Claims(), MaxDevices, UsedWorkrate;
      ghost var a0 := AvailableWorkrate();
      ghost var avail := a0;
      ghost var s := Preempt(cs0, |cs0|, a0, value, priority, md, skipDeviceCheck);
      var i := |DynWorkRates| - 1;
      ghost var n := i + 1;
      assert ws0[..n] == ws0;
      var stop := false;
      while !stop && i >= 0 && AvailableWorkrate() < value
        invariant !stop ==> n == i + 1 && ScanState(ws0, cs0, n) && avail == AvailableWorkrate() &&
                            Preempt(cs0, n, avail, value, priority, md, skipDeviceCheck) == s
        invariant stop ==> ScanDone(ws0, cs0, s)
        invariant TotalWorkrate == old(TotalWorkrate) && MaxDevices == md && Cpus == old(Cpus)
        decreases if stop then 0 else i + 2
      {
        ghost var m, na;
        stop, m, na := PreemptLast(i, value, priority, skipDeviceCheck, ws0, cs0, n, avail, s);
        if !stop {
          avail, i, n := na, i - 1, m;
        }
      }
      if !stop {
        StopShows(ws0, cs0, n, avail, value, priority, skipDeviceCheck, s);
      }
      ScanFinished(ws0, cs0, a0, u0, value, priority, skipDeviceCheck, s);
      PrefixTracks(ws0, s.kept);
    }

    /** The end of the preemption scan, in the terms of `FreeWorkrate`:
        the claims beyond the kept prefix are released, and the live claims
        still hold what is counted as used if they did before. */
    lemma ScanFinished(ws: seq<DynWorkRate>, cs: seq<Claim>, a0: int, u0: int, value: int,
                       priority: int, skip: bool, s: Scan)
      requires ScanDone(ws, cs, s) && Descending(Priorities(cs)) && AllHolding(cs)
      requires s == Preempt(cs, |cs|, a0, value, priority, MaxDevices, skip)
      requires a0 == TotalWorkrate - u0
      ensures forall c :: c in ws[s.kept..] ==> c.Released
      ensures Held(cs) == u0 ==> Conserved()
    {
      forall c | c in ws[s.kept..] ensures c.Released {
        var j :| 0 <= j < |ws[s.kept..]| && ws[s.kept..][j] == c;
        assert ws[s.kept + j] == c;
      }
      RequestPreempts(cs, a0, value, priority, MaxDevices, skip);
    }

    /** One pass of the preemption loop over the last claim of the list
        (`ws[i]`, with `n = i + 1` claims listed): stops at a claim whose
        priority is not below the request's, cuts a claim holding more than
        the requested value by the shortfall and stops, or releases it whole
        and goes on. */
    method PreemptLast(i: int, value: int, priority: int, skipDeviceCheck: bool,
                       ghost ws: seq<DynWorkRate>, ghost cs: seq<Claim>, ghost n: int,
                       ghost avail: int, ghost s: Scan)
      returns (stop: bool, ghost m: int, ghost next: int)
      requires n == i + 1 > 0 && ScanState(ws, cs, n)
      requires Distinct(ws) && Descending(Priorities(cs)) && AllHolding(cs)
      requires avail == AvailableWorkrate() < value
      requires Preempt(cs, n, avail, value, priority, MaxDevices, skipDeviceCheck) == s
      modifies this, ws[n - 1]
      ensures TotalWorkrate == old(TotalWorkrate) && MaxDevices == old(MaxDevices) && Cpus == old(Cpus)
      ensures !stop ==> m == n - 1 && ScanState(ws, cs, m) && AvailableWorkrate() == next &&
                        Preempt(cs, m, next, value, priority, MaxDevices, skipDeviceCheck) == s
      ensures stop ==> s.kept == n && ScanDone(ws, cs, s)
    {
      var victim := DynWorkRates[i];
      assert victim == ws[n - 1];
      if victim.Priority >= priority {
        StopShows(ws, cs, n, avail, value, priority, skipDeviceCheck, s);
        stop, m, next := true, n, avail;
        return;
      }
      var quota := !skipDeviceCheck && |DynWorkRates| >= MaxDevices;
      if !quota && victim.Value > value && victim.Value > value - AvailableWorkrate() {
        CutLast(ws, cs, n, value, priority, skipDeviceCheck, s);
        stop, m, next := true, n, avail;
        return;
      }
      PreemptReleases(cs, n, avail, value, priority, MaxDevices, skipDeviceCheck);
      ReleaseLast(ws, cs, n);
      stop, m, next := false, n - 1, avail + cs[n - 1].value;
    }

    /** One claim of the top-up walk of `OnCpuChange`, while workrate is
        available: a claim holding more than it expects is partially
        released down to what it expects, one holding less is raised by
        what it lacks, at most what is available.  `next` is the index
        of the claim the walk goes on with. */
    method TopUpAt(i: int) returns (next: int)
      requires Valid() && 0 <= i < |DynWorkRates| && AvailableWorkrate() > 0
      modifies this, DynWorkRates[i]
      ensures Valid() && DynWorkRates == old(DynWorkRates)
      ensures TotalWorkrate == old(TotalWorkrate) && MaxDevices == old(MaxDevices) && Cpus == old(Cpus)
      ensures next == i + 1
      ensures TopUp(Claims(), UsedWorkrate, TotalWorkrate, next)
           == TopUp(old(Claims()), old(UsedWorkrate), TotalWorkrate, i)
      ensures old(Conserved()) ==> Conserved()
    {
      next := i + 1;
      var c := DynWorkRates[i];
      ghost var cs, used := Claims(), UsedWorkrate;
      assert cs[i] == Claim(c.Value, c.Expected, c.Priority);
      TopUpOne(cs, used, TotalWorkrate, i);
      if !c.Low() {
        return;
      }
      var lack := c.Expected - c.Value;
      if lack < 0 {
        TrimAt(i);
      } else {
        var num := Min(lack, AvailableWorkrate());
        AdjustAt(i, num);
        assert Claims() == cs[i := cs[i].(value := cs[i].value + num)] && UsedWorkrate == used + num;
        HeldUpdate(cs, i, cs[i].(value := cs[i].value + num));
      }
    }

    /** `ReleaseWorkRate(c, -lack)` on listed claim `i`, which holds more
        than it expects: it is cut down to what it expects. */
    method TrimAt(i: int)
      requires Valid() && 0 <= i < |DynWorkRates| && DynWorkRates[i].Expected < DynWorkRates[i].Value
      modifies this, DynWorkRates[i]
      ensures Valid() && DynWorkRates == old(DynWorkRates)
      ensures TotalWorkrate == old(TotalWorkrate) && MaxDevices == old(MaxDevices) && Cpus == old(Cpus)
      ensures Claims() == old(Claims())[i := old(Claims())[i].(value := old(Claims())[i].expected)]
      ensures UsedWorkrate == old(UsedWorkrate) - (old(DynWorkRates[i].Value) - old(DynWorkRates[i].Expected))
      ensures old(Conserved()) ==> Conserved()
    {
      var c := DynWorkRates[i];
      ghost var ws := DynWorkRates;
      forall j | 0 <= j < i ensures ws[j] != c {
        DistinctAt(ws, j, i);
      }
      assert Claims()[i] == Claim(c.Value, c.Expected, c.Priority);
      assert !c.Released && 0 < c.Expected && ws[i] == c;
      assert IndexOf(ws, c) == i;
      ReleaseWorkRateBy(c, c.Value - c.Expected);
    }

    /** `DynWorkRates[k].Value += delta; UsedWorkrate += delta`: the
        network moving workrate into (or out of) one listed claim, which
        keeps holding some. */
    method AdjustAt(k: int, delta: int)
      requires Valid() && 0 <= k < |DynWorkRates| && DynWorkRates[k].Value + delta > 0
      modifies this, DynWorkRates[k]
      ensures Valid() && DynWorkRates == old(DynWorkRates)
      ensures TotalWorkrate == old(TotalWorkrate) && MaxDevices == old(MaxDevices) && Cpus == old(Cpus)
      ensures DynWorkRates[k].Released == old(DynWorkRates[k].Released)
      ensures Claims() == old(Claims())[k := old(Claims())[k].(value := old(Claims())[k].value + delta)]
      ensures UsedWorkrate == old(UsedWorkrate) + delta
      ensures old(Conserved()) ==> Conserved()
    {
      ghost var ws, cs := DynWorkRates, Claims();
      var c := DynWorkRates[k];
      forall j | 0 <= j < |ws| && j != k ensures ws[j] != c {
        DistinctAt(ws, j, k);
      }
      c.Value := c.Value + delta;
      UsedWorkrate := UsedWorkrate + delta;
      assert Claims() == cs[k := Claim(c.Value, c.Expected, c.Priority)];
      assert Priorities(Claims()) == Priorities(cs);
      HeldUpdate(cs, k, Claim(c.Value, c.Expected, c.Priority));
    }

    /** The top-up walk of `OnCpuChange`: claims from the highest priority
        down, until nothing is available. */
    method TopUpLow()
      requires Valid()
      modifies this, DynWorkRates
      ensures Valid() && DynWorkRates == old(DynWorkRates)
      ensures TotalWorkrate == old(TotalWorkrate) && MaxDevices == old(MaxDevices) && Cpus == old(Cpus)
      ensures var p := TopUp(old(Claims()), old(UsedWorkrate), TotalWorkrate, 0);
              Claims() == p.claims && UsedWorkrate == p.used
    {
      ghost var target := TopUp(Claims(), UsedWorkrate, TotalWorkrate, 0);
      var i := 0;
      while i < |DynWorkRates|
        invariant 0 <= i <= |DynWorkRates| && Valid() && DynWorkRates == old(DynWorkRates)
        invariant TotalWorkrate == old(TotalWorkrate) && MaxDevices == old(MaxDevices) && Cpus == old(Cpus)
        invariant TopUp(Claims(), UsedWorkrate, TotalWorkrate, i) == target
      {
        if AvailableWorkrate() <= 0 {
          TopUpStops(Claims(), UsedWorkrate, TotalWorkrate, i);
          break;
        }
        i := TopUpAt(i);
      }
    }

    /** The device-quota loop of `OnCpuChange`: while more claims are
        listed than `MaxDevices`, the lowest-priority one is released
        whole.  With a negative `MaxDevices` the loop runs past the front
        of the list, where the source's indexer throws; `ok` is false
        then. */
    method EvictOverQuota() returns (ok: bool)
      requires Valid()
      modifies this, DynWorkRates
      ensures Valid()
      ensures TotalWorkrate == old(TotalWorkrate) && MaxDevices == old(MaxDevices) && Cpus == old(Cpus)
      ensures ok <==> MaxDevices >= 0 || |old(DynWorkRates)| <= MaxDevices
      ensures var p := Evict(old(Claims()), old(UsedWorkrate), MaxDevices);
              DynWorkRates == old(DynWorkRates)[..|p.claims|] && Claims() == p.claims &&
              UsedWorkrate == p.used &&
              (forall c :: c in old(DynWorkRates)[|p.claims|..] ==> c.Released)
    {
      ghost var ws0, cs0, md := DynWorkRates, Claims(), MaxDevices;
      ghost var target := Evict(cs0, UsedWorkrate, md);
      ok := true;
      var i := |DynWorkRates| - 1;
      ghost var n := i + 1;
      assert ws0[..n] == ws0 && cs0[..n] == cs0;
      if |DynWorkRates| > MaxDevices {
        while i >= MaxDevices && i >= 0
          invariant n == i + 1 && ScanState(ws0, cs0, n)
          invariant TotalWorkrate == old(TotalWorkrate) && MaxDevices == md && Cpus == old(Cpus)
          invariant Evict(cs0[..n], UsedWorkrate, md) == target
          decreases i
        {
          n := EvictLast(ws0, cs0, n, target);
          i := i - 1;
        }
        ok := i < MaxDevices;
      }
      PrefixShows(ws0, cs0, n);
    }

    /** One pass of the eviction loop: the last of the `n` claims listed
        is released whole. */
    method EvictLast(ghost ws: seq<DynWorkRate>, ghost cs: seq<Claim>, ghost n: int, ghost target: Pool)
      returns (ghost m: int)
      requires 0 < n && MaxDevices < n && ScanState(ws, cs, n) && Distinct(ws)
      requires Descending(Priorities(cs)) && AllHolding(cs)
      requires Evict(cs[..n], UsedWorkrate, MaxDevices) == target
      modifies this, ws[n - 1]
      ensures TotalWorkrate == old(TotalWorkrate) && MaxDevices == old(MaxDevices) && Cpus == old(Cpus)
      ensures m == n - 1 && ScanState(ws, cs, m)
      ensures Evict(cs[..m], UsedWorkrate, MaxDevices) == target
    {
      EvictStep(cs, n, UsedWorkrate, MaxDevices);
      ReleaseLast(ws, cs, n);
      m := n - 1;
    }

    /** The shortfall step of `OnCpuChange`: when more is used than the
        CPUs provide, the claims are shrunk by the difference from the
        lowest-priority end; if `UsedWorkrate` still differs from the
        total it is then forced to it. */
    method ReduceToTotal()
      requires Valid()
      modifies this, DynWorkRates
      ensures Valid()
      ensures TotalWorkrate == old(TotalWorkrate) && MaxDevices == old(MaxDevices) && Cpus == old(Cpus)
      ensures var p := Reduce(old(Claims()), old(UsedWorkrate), TotalWorkrate);
              DynWorkRates == old(DynWorkRates)[..|p.claims|] && Claims() == p.claims &&
              UsedWorkrate == p.used &&
              (forall c :: c in old(DynWorkRates)[|p.claims|..] ==> c.Released)
    {
      if UsedWorkrate > TotalWorkrate {
        ShrinkFromEnd(UsedWorkrate - TotalWorkrate);
        if UsedWorkrate != TotalWorkrate {
          UsedWorkrate := TotalWorkrate;
        }
      } else {
        assert DynWorkRates[..|DynWorkRates|] == DynWorkRates;
      }
    }

    /** The shrinking loop of `OnCpuChange`: claims taken from the
        lowest-priority end, each released whole while it holds no more
        than what is still lacking, the first larger one lowered by exactly
        that. */
    method ShrinkFromEnd(lack: int)
      requires Valid() && lack >= 0
      modifies this, DynWorkRates
      ensures Valid()
      ensures TotalWorkrate == old(TotalWorkrate) && MaxDevices == old(MaxDevices) && Cpus == old(Cpus)
      ensures var p := Shrink(old(Claims()), old(UsedWorkrate), lack);
              DynWorkRates == old(DynWorkRates)[..|p.claims|] && Claims() == p.claims &&
              UsedWorkrate == p.used &&
              (forall c :: c in old(DynWorkRates)[|p.claims|..] ==> c.Released)
    {
      ghost var ws0, cs0 := DynWorkRates, Claims();
      ghost var target := Shrink(cs0, UsedWorkrate, lack);
      var rest := lack;
      var i := |DynWorkRates| - 1;
      ghost var n := i + 1;
      assert ws0[..n] == ws0 && cs0[..n] == cs0;
      var stop := false;
      while i >= 0 && !stop
        invariant TotalWorkrate == old(TotalWorkrate) && MaxDevices == old(MaxDevices) && Cpus == old(Cpus)
        invariant !stop ==> n == i + 1 && ScanState(ws0, cs0, n) && rest >= 0 &&
                            Shrink(cs0[..n], UsedWorkrate, rest) == target
        invariant stop ==> Valid() && DynWorkRates == ws0[..|target.claims|] && Claims() == target.claims &&
                           UsedWorkrate == target.used &&
                           (forall j :: |target.claims| <= j < |ws0| ==> ws0[j].Released)
        decreases i, !stop
      {
        ghost var m;
        stop, rest, m := ShrinkLast(i, rest, ws0, cs0, n, target);
        if !stop {
          i, n := i - 1, m;
        }
      }
      if !stop {
        PrefixShows(ws0, cs0, 0);
      }
    }

    /** The shortfall loop's last step: the last of the `n` claims listed
        is lowered by `lack`, less than it holds, and `UsedWorkrate` with
        it. */
    method LowerLast(ghost ws: seq<DynWorkRate>, ghost cs: seq<Claim>, ghost n: int, lack: int)
      requires 0 < n && ScanState(ws, cs, n) && Distinct(ws)
      requires Descending(Priorities(cs)) && AllHolding(cs) && 0 <= lack < cs[n - 1].value
      modifies this, ws[n - 1]
      ensures TotalWorkrate == old(TotalWorkrate) && MaxDevices == old(MaxDevices) && Cpus == old(Cpus)
      ensures Valid() && DynWorkRates == ws[..n]
      ensures Claims() == cs[..n][n - 1 := cs[n - 1].(value := cs[n - 1].value - lack)]
      ensures UsedWorkrate == old(UsedWorkrate) - lack
      ensures forall j :: n <= j < |ws| ==> ws[j].Released
    {
      PrefixShows(ws, cs, n);
      AdjustAt(|DynWorkRates| - 1, -lack);
    }

    /** One pass of the shortfall loop over the last of the `n` claims
        listed: released whole when it holds no more than `lack`, otherwise
        lowered by `lack`, which ends the loop. */
    method ShrinkLast(i: int, lack: int, ghost ws: seq<DynWorkRate>, ghost cs: seq<Claim>,
                      ghost n: int, ghost target: Pool)
      returns (stop: bool, rest: int, ghost m: int)
      requires n == i + 1 > 0 && ScanState(ws, cs, n)
      requires Distinct(ws) && Descending(Priorities(cs)) && AllHolding(cs)
      requires lack >= 0 && Shrink(cs[..n], UsedWorkrate, lack) == target
      modifies this, ws[n - 1]
      ensures TotalWorkrate == old(TotalWorkrate) && MaxDevices == old(MaxDevices) && Cpus == old(Cpus)
      ensures !stop ==> m == n - 1 && ScanState(ws, cs, m) && rest >= 0 &&
                        Shrink(cs[..m], UsedWorkrate, rest) == target
      ensures stop ==> Valid() && DynWorkRates == ws[..|target.claims|] && Claims() == target.claims &&
                       UsedWorkrate == target.used &&
                       (forall j :: |target.claims| <= j < |ws| ==> ws[j].Released)
    {
      PrefixShows(ws, cs, n);
      var victim := DynWorkRates[i];
      assert cs[n - 1] == Claim(victim.Value, victim.Expected, victim.Priority);
      if victim.Value <= lack {
        ShrinkStep(cs, n, UsedWorkrate, lack);
        rest := lack - victim.Value;
        ReleaseLast(ws, cs, n);
        stop, m := false, n - 1;
      } else {
        ShrinkCut(cs, n, UsedWorkrate, lack);
        LowerLast(ws, cs, n, lack);
        stop, rest, m := true, 0, n;
      }
    }
    /** `OnCpuChange`: the totals are recomputed from the powered CPUs
        (sums cast to `int`, wrapping past `int.MaxValue`), then the
        device quota, the shortfall and the top-up steps run in turn.  A
        negative device total makes the quota loop index past the front of
        the list, where the source throws; `ok` is false then and the
        later steps do not run. */
    method OnCpuChange() returns (ok: bool)
      requires Valid()
      modifies this, DynWorkRates
      ensures Valid() && Cpus == old(Cpus)
      ensures TotalWorkrate == WrapInt32(Provided(Cpus).ops) && MaxDevices == WrapInt32(Provided(Cpus).devices)
      ensures ok <==> MaxDevices >= 0
      ensures ok ==>
                var r := Rebalance(old(Claims()), old(UsedWorkrate), TotalWorkrate, MaxDevices);
                DynWorkRates == old(DynWorkRates)[..|r.claims|] && Claims() == r.claims &&
                UsedWorkrate == r.used
      ensures !ok ==>
                DynWorkRates == [] && (forall c :: c in old(DynWorkRates) ==> c.Released) &&
                UsedWorkrate == Evict(old(Claims()), old(UsedWorkrate), MaxDevices).used
      ensures old(Conserved()) && TotalWorkrate >= 0 ==> Conserved()
      ensures Tracks(old(DynWorkRates))
    {
      ghost var ws0, cs0, used0 := DynWorkRates, Claims(), UsedWorkrate;
      RecomputeTotals();
      ghost var e := Evict(cs0, used0, MaxDevices);
      ok := EvictOverQuota();
      if !ok {
        EvictedAll(ws0, cs0, used0);
        PrefixTracks(ws0, 0);
        return;
      }
      assert Claims() == e.claims && UsedWorkrate == e.used;
      ghost var ws1 := DynWorkRates;
      ReduceThenTopUp();
      PrefixOfPrefix(ws0, |ws1|, |DynWorkRates|);
      ReleasedTail(ws0, |ws1|, |DynWorkRates|);
      PrefixTracks(ws0, |DynWorkRates|);
      if old(Conserved()) && TotalWorkrate >= 0 {
        RebalanceConserves(cs0, used0, TotalWorkrate, MaxDevices);
      }
    }

    /** Two cuts in a row: what the second cut drops of the first one's
        prefix and what the first cut dropped are released together. */
    lemma ReleasedTail(ws: seq<DynWorkRate>, k1: int, k2: int)
      requires 0 <= k2 <= k1 <= |ws|
      requires forall c :: c in ws[k1..] ==> c.Released
      requires forall c :: c in ws[..k1][k2..] ==> c.Released
      ensures forall c :: c in ws[k2..] ==> c.Released
    {
      forall c | c in ws[k2..] ensures c.Released {
        var j :| k2 <= j < |ws| && ws[j] == c;
        if j < k1 {
          assert ws[..k1][k2..][j - k2] == c;
        } else {
          assert ws[k1..][j - k1] == c;
        }
      }
    }

    /** A negative device total: the quota loop has released every claim
        by the time the source's indexer throws, and what is counted as
        used drops by what they held. */
    lemma EvictedAll(ws0: seq<DynWorkRate>, cs0: seq<Claim>, used0: int)
      requires MaxDevices < 0 && |ws0| == |cs0|
      requires var p := Evict(cs0, used0, MaxDevices);
               DynWorkRates == ws0[..|p.claims|] && UsedWorkrate == p.used &&
               (forall c :: c in ws0[|p.claims|..] ==> c.Released)
      ensures DynWorkRates == [] && (forall c :: c in ws0 ==> c.Released)
      ensures UsedWorkrate == used0 - Held(cs0)
    {
      assert ws0[0..] == ws0 && cs0[0..] == cs0;
      EvictAccounting(cs0, used0, MaxDevices);
    }

    /** The first lines of `OnCpuChange`: `TotalWorkrate` and `MaxDevices`
        become the sums over the CPUs, cast to `int`. */
    method RecomputeTotals()
      modifies this
      ensures TotalWorkrate == WrapInt32(Provided(Cpus).ops) && MaxDevices == WrapInt32(Provided(Cpus).devices)
      ensures DynWorkRates == old(DynWorkRates) && UsedWorkrate == old(UsedWorkrate) && Cpus == old(Cpus)
    {
      var k := SumProvided(Cpus);
      TotalWorkrate := WrapInt32(k.ops);
      MaxDevices := WrapInt32(k.devices);
    }

    /** The shortfall and top-up steps of `OnCpuChange`, after the device
        quota. */
    method ReduceThenTopUp()
      requires Valid()
      modifies this, DynWorkRates
      ensures Valid()
      ensures TotalWorkrate == old(TotalWorkrate) && MaxDevices == old(MaxDevices) && Cpus == old(Cpus)
      ensures var d := Reduce(old(Claims()), old(UsedWorkrate), TotalWorkrate);
              var r := TopUp(d.claims, d.used, TotalWorkrate, 0);
              DynWorkRates == old(DynWorkRates)[..|r.claims|] && Claims() == r.claims &&
              UsedWorkrate == r.used &&
              (forall c :: c in old(DynWorkRates)[|r.claims|..] ==> c.Released)
    {
      ghost var d := Reduce(Claims(), UsedWorkrate, TotalWorkrate);
      ReduceToTotal();
      assert Claims() == d.claims && UsedWorkrate == d.used;
      TopUpLow();
    }

    /** `Connect(Building_CPU)`: the CPU joins the set and the pool is
        rebalanced. */
    method Connect(cpu: Cpu) returns (ok: bool)
      requires Valid()
      modifies this, DynWorkRates
      ensures Valid() && Cpus == old(Cpus) + {cpu}
      ensures TotalWorkrate == WrapInt32(Provided(Cpus).ops) && MaxDevices == WrapInt32(Provided(Cpus).devices)
      ensures ok ==>
                var r := Rebalance(old(Claims()), old(UsedWorkrate), TotalWorkrate, MaxDevices);
                Claims() == r.claims && UsedWorkrate == r.used
      ensures old(Conserved()) && TotalWorkrate >= 0 ==> Conserved()
      ensures Tracks(old(DynWorkRates))
    {
      Cpus := Cpus + {cpu};
      ok := OnCpuChange();
    }

    /** `Disconnect(Building_CPU)`: the CPU leaves the set (the result says
        whether it was there) and the pool is rebalanced either way. */
    method Disconnect(cpu: Cpu) returns (success: bool, ok: bool)
      requires Valid()
      modifies this, DynWorkRates
      ensures Valid() && Cpus == old(Cpus) - {cpu} && (success <==> cpu in old(Cpus))
      ensures TotalWorkrate == WrapInt32(Provided(Cpus).ops) && MaxDevices == WrapInt32(Provided(Cpus).devices)
      ensures ok ==>
                var r := Rebalance(old(Claims()), old(UsedWorkrate), TotalWorkrate, MaxDevices);
                Claims() == r.claims && UsedWorkrate == r.used
      ensures old(Conserved()) && TotalWorkrate >= 0 ==> Conserved()
      ensures Tracks(old(DynWorkRates))
    {
      success := cpu in Cpus;
      Cpus := Cpus - {cpu};
      ok := OnCpuChange();
    }

    /** `RequestWorkrate(value, priority, skipDeviceCheck)`: the preemption
        loop (`FreeWorkrate`), then a grant of `min(AvailableWorkrate,
        value)`.  A positive grant becomes a new live claim expecting
        `value`, inserted where the binary search over the priorities
        places it; otherwise nothing is granted and the result is null.
        (No caller passes the optional `expected` argument, so the claim
        always expects `value`.) */
    method RequestWorkrate(value: int, priority: int, skipDeviceCheck: bool) returns (r: DynWorkRate?)
      requires Valid()
      modifies this, DynWorkRates
      ensures Valid()
      ensures TotalWorkrate == old(TotalWorkrate) && MaxDevices == old(MaxDevices) && Cpus == old(Cpus)
      ensures var g := Request(old(Claims()), old(AvailableWorkrate()), value, priority,
                               MaxDevices, skipDeviceCheck);
              (r != null <==> g.granted > 0) &&
              (forall c :: c in old(DynWorkRates)[|g.kept|..] ==> c.Released) &&
              (r == null ==>
                 DynWorkRates == old(DynWorkRates)[..|g.kept|] && Claims() == g.kept &&
                 AvailableWorkrate() == g.available) &&
              (r != null ==>
                 fresh(r) && r in DynWorkRates && !r.Released && |DynWorkRates| == |g.kept| + 1 &&
                 r.Value == g.granted && r.Expected == value && r.Priority == priority &&
                 DynWorkRates == InsertAt(old(DynWorkRates)[..|g.kept|], IndexOf(DynWorkRates, r), r) &&
                 Claims() == InsertAt(g.kept, IndexOf(DynWorkRates, r), Claim(g.granted, value, priority)) &&
                 AvailableWorkrate() == g.available - g.granted)
      ensures old(Conserved()) ==> Conserved()
      ensures Tracks(old(DynWorkRates))
    {
      FreeWorkrate(value, priority, skipDeviceCheck);
      r := GrantWorkrate(value, priority);
    }

    /** `ChangeProperty(workRate, priority)`: a live claim is released whole
        and requested again, at the new priority, for what it expected; the
        result is the new claim (null when nothing could be granted).  A
        claim already released is left alone and the result is null.
        `rest` and `available` are the claims and the free workrate the
        release left, which the new request is made against. */
    method ChangeProperty(c: DynWorkRate, priority: int) returns (r: DynWorkRate?, ghost rest: seq<Claim>, ghost available: int)
      requires Valid()
      modifies this, DynWorkRates, c
      ensures Valid()
      ensures TotalWorkrate == old(TotalWorkrate) && MaxDevices == old(MaxDevices) && Cpus == old(Cpus)
      ensures old(c.Released) ==>
                r == null && c.Priority == old(c.Priority) &&
                DynWorkRates == old(DynWorkRates) && UsedWorkrate == old(UsedWorkrate)
      ensures !old(c.Released) ==> c.Released && c.Priority == priority && c !in DynWorkRates
      ensures !old(c.Released) && c in old(DynWorkRates) ==>
                rest == RemoveAt(old(Claims()), IndexOf(old(DynWorkRates), c)) &&
                available == old(AvailableWorkrate()) + old(c.Value)
      ensures !old(c.Released) ==>
                var g := Request(rest, available, old(c.Expected), priority, MaxDevices, false);
                (r != null <==> g.granted > 0) &&
                (r != null ==> fresh(r) && r in DynWorkRates && !r.Released &&
                               r.Value == g.granted && r.Expected == old(c.Expected) && r.Priority == priority)
      ensures old(Conserved()) && c in old(DynWorkRates) ==> Conserved()
      ensures Tracks(old(DynWorkRates))
    {
      if c.Released {
        r, rest, available := null, Claims(), AvailableWorkrate();
        return;
      }
      ghost var ws0, cs0, a0, v0 := DynWorkRates, Claims(), AvailableWorkrate(), c.Value;
      ReleaseWorkRate(c, false);
      RemoveFirstDistinct(ws0, c);
      rest, available := Claims(), AvailableWorkrate();
      Reprioritise(c, priority);
      r := Rerequest(c.Expected, priority, rest, available);
    }

    /** The request that ends `ChangeProperty`, on the list the release
        left. */
    method Rerequest(value: int, priority: int, ghost rest: seq<Claim>, ghost available: int) returns (r: DynWorkRate?)
      requires Valid() && Claims() == rest && AvailableWorkrate() == available
      modifies this, DynWorkRates
      ensures Valid()
      ensures TotalWorkrate == old(TotalWorkrate) && MaxDevices == old(MaxDevices) && Cpus == old(Cpus)
      ensures var g := Request(rest, available, value, priority, MaxDevices, false);
              (r != null <==> g.granted > 0) &&
              (r != null ==> fresh(r) && r in DynWorkRates && !r.Released &&
                             r.Value == g.granted && r.Expected == value && r.Priority == priority)
      ensures old(Conserved()) ==> Conserved()
      ensures Tracks(old(DynWorkRates))
    {
      r := RequestWorkrate(value, priority, false);
    }

    /** The priority write of `ChangeProperty`, on a claim no longer in the
        list: the list and its values are untouched. */
    method Reprioritise(c: DynWorkRate, priority: int)
      requires Valid() && c !in DynWorkRates
      modifies c
      ensures Valid() && Claims() == old(Claims())
      ensures c.Priority == priority && c.Released == old(c.Released)
      ensures c.Value == old(c.Value) && c.Expected == old(c.Expected)
    {
      c.Priority := priority;
    }

    /** The grant that ends `RequestWorkrate`: `min(AvailableWorkrate,
        value)`; a positive grant becomes a new live claim expecting
        `value`, inserted where the binary search over the priorities
        places it, and is counted as used. */
    method GrantWorkrate(value: int, priority: int) returns (r: DynWorkRate?)
      requires Valid()
      modifies this
      ensures Valid()
      ensures TotalWorkrate == old(TotalWorkrate) && MaxDevices == old(MaxDevices) && Cpus == old(Cpus)
      ensures var num := Min(old(AvailableWorkrate()), value);
              (r != null <==> num > 0) &&
              (r == null ==> DynWorkRates == old(DynWorkRates) && UsedWorkrate == old(UsedWorkrate)) &&
              (r != null ==>
                 fresh(r) && r in DynWorkRates && !r.Released &&
                 |DynWorkRates| == |old(DynWorkRates)| + 1 &&
                 r.Value == num && r.Expected == value && r.Priority == priority &&
                 DynWorkRates == InsertAt(old(DynWorkRates), IndexOf(DynWorkRates, r), r) &&
                 Claims() == InsertAt(old(Claims()), IndexOf(DynWorkRates, r), Claim(num, value, priority)) &&
                 UsedWorkrate == old(UsedWorkrate) + num)
      ensures old(Conserved()) ==> Conserved()
      ensures Tracks(old(DynWorkRates))
    {
      var num := Min(AvailableWorkrate(), value);
      if num > 0 {
        UsedWorkrate := UsedWorkrate + num;
        ghost var cs := Claims();
        r := new DynWorkRate(num, priority);
        r.Expected := value;
        assert Valid() && Claims() == cs;
        ghost var ws := DynWorkRates;
        InsertClaim(r);
        InsertAtMembers(ws, IndexOf(DynWorkRates, r), r);
      } else {
        r := null;
      }
    }

    /** `DynWorkRates.Insert` of a new claim at the place the binary search
        over the priorities reports: the list stays valid and holds the
        claim once more. */
    method InsertClaim(r: DynWorkRate)
      requires Valid() && r !in DynWorkRates
      requires !r.Released && r.Value > 0 && r.Expected > 0
      modifies this
      ensures Valid()
      ensures TotalWorkrate == old(TotalWorkrate) && MaxDevices == old(MaxDevices) && Cpus == old(Cpus)
      ensures UsedWorkrate == old(UsedWorkrate)
      ensures r in DynWorkRates && |DynWorkRates| == |old(DynWorkRates)| + 1
      ensures var k := IndexOf(DynWorkRates, r);
              DynWorkRates == InsertAt(old(DynWorkRates), k, r) &&
              Claims() == InsertAt(old(Claims()), k, Claim(r.Value, r.Expected, r.Priority)) &&
              FitsAt(Priorities(old(Claims())), k, r.Priority)
      ensures Held(Claims()) == Held(old(Claims())) + r.Value
    {
      var ws := DynWorkRates;
      var keys := seq(|ws|, j reads ws requires 0 <= j < |ws| => ws[j].Priority);
      assert keys == Priorities(ClaimsOf(ws));
      var index := BinarySearch(keys, r.Priority);
      var k := InsertionIndex(index);
      InsertKeepsValid(ws, k, r);
      HeldInsert(ClaimsOf(ws), k, Claim(r.Value, r.Expected, r.Priority));
      DynWorkRates := InsertAt(ws, k, r);
      assert IndexOf(DynWorkRates, r) == k;
    }
  }
}
