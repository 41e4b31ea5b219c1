/** The auto-worker: a building that works bills with workrate it claims
    from the network.  It starts with a base claim, overclocks one level
    at a time while the network has workrate to spare (each level doubles
    the workrate it needs), and falls back a level at a time when its
    claim is cut.  Finishing or cancelling a bill gives the claim back. */
module AutoWorker {
  import opened Things
  import opened SortedLists
  import opened Workrate

  /** The workrate a worker needs at overclocking level 0. */
  const BaseWorkrate: int := 60
  /** The highest overclocking limit the limit slider offers. */
  const MaxLevel: int := 25

  function Pow2(n: nat): (r: nat)
    ensures r >= 1
  {
    if n == 0 then 1 else 2 * Pow2(n - 1)
  }

  /** `WorkrateByOc(level)`: 60 · 2^level.  The source computes it in
      single precision, where every value up to level 25 is exact. */
  function WorkrateByOc(level: nat): int
  {
    BaseWorkrate * Pow2(level)
  }

  lemma {:induction false} Pow2Monotone(a: nat, b: nat)
    requires a <= b
    ensures Pow2(a) <= Pow2(b)
    decreases b
  {
    if a < b {
      Pow2Monotone(a, b - 1);
    }
  }

  lemma {:induction false} Pow2Add(a: nat, b: nat)
    ensures Pow2(a + b) == Pow2(a) * Pow2(b)
    decreases b
  {
    if b > 0 {
      Pow2Add(a, b - 1);
      assert Pow2(a + b) == 2 * (Pow2(a) * Pow2(b - 1));
    }
  }

  /** Every level the slider allows needs a positive workrate that fits
      in an `int`; the level after the slider's last would not fit. */
  lemma WorkrateByOcFits(level: nat)
    requires level <= MaxLevel
    ensures BaseWorkrate <= WorkrateByOc(level) <= WorkrateByOc(MaxLevel) == 2013265920 <= IntMax
    ensures WorkrateByOc(MaxLevel + 1) > IntMax
  {
    Pow2Monotone(level, MaxLevel);
    assert Pow2(1) == 2 && Pow2(2) == 4 && Pow2(3) == 8 && Pow2(4) == 16 && Pow2(5) == 32;
    Pow2Add(5, 5);
    Pow2Add(10, 10);
    Pow2Add(20, 5);
  }

  /** Each level needs twice the workrate of the one below, so raising a
      level at which the claim is met asks for as much again. */
  lemma WorkrateByOcDoubles(level: nat)
    ensures WorkrateByOc(level + 1) - WorkrateByOc(level) == WorkrateByOc(level) > 0
  {
  }

  // ---------------------------------------------------------------------
  // Quality
  // ---------------------------------------------------------------------

  datatype Quality = Awful | Poor | Normal | Good | Excellent | Masterwork | Legendary

  function Rank(q: Quality): int
  {
    match q
    case Awful => 0
    case Poor => 1
    case Normal => 2
    case Good => 3
    case Excellent => 4
    case Masterwork => 5
    case Legendary => 6
  }

  /** The arguments of the engine's `GenerateFromGaussian`: the width
      factor and the highest, central and lowest quality drawn. */
  datatype Gaussian = Gaussian(widthFactor: real, max: Quality, center: Quality, min: Quality)

  /** The quality band `CalcQuality` draws from at an overclocking level
      (the draw itself is the engine's random number generator). */
  function QualityBand(level: int): Gaussian
  {
    if level <= 2 then Gaussian(2.0, Good, Normal, Poor)
    else if level <= 5 then Gaussian(1.5, Excellent, Good, Normal)
    else if level <= 7 then Gaussian(1.5, Masterwork, Excellent, Good)
    else if level > 8 then Gaussian(1.5, Legendary, Excellent, Excellent)
    else Gaussian(1.5, Legendary, Masterwork, Excellent)
  }

  /** Every band is ordered: lowest <= centre <= highest. */
  lemma QualityBandOrdered(level: int)
    ensures var g := QualityBand(level);
            Rank(g.min) <= Rank(g.center) <= Rank(g.max) && g.widthFactor > 0.0
  {
  }

  /** Up to level 8 a higher level never lowers the band. */
  lemma QualityBandRises(a: int, b: int)
    requires a <= b <= 8
    ensures Rank(QualityBand(a).center) <= Rank(QualityBand(b).center)
    ensures Rank(QualityBand(a).min) <= Rank(QualityBand(b).min)
    ensures Rank(QualityBand(a).max) <= Rank(QualityBand(b).max)
  {
  }

  /** Above level 8 the band is centred on Excellent, one step below the
      Masterwork centre of level 8 itself; the lowest quality stays. */
  lemma QualityBandPastEight(level: int)
    requires level > 8
    ensures QualityBand(level).center == Excellent && QualityBand(8).center == Masterwork
    ensures QualityBand(level).min == QualityBand(8).min && QualityBand(level).max == Legendary
  {
  }

  // ---------------------------------------------------------------------
  // Bills
  // ---------------------------------------------------------------------

  /** `ingredients.Where(thing => !thing.Destroyed)`, in order. */
  function Live(s: seq<Thing>): (r: seq<Thing>)
    ensures |r| <= |s|
    ensures forall t :: t in r <==> t in s && !t.destroyed
  {
    if s == [] then []
    else (if s[0].destroyed then [] else [s[0]]) + Live(s[1..])
  }

  // ---------------------------------------------------------------------
  // The worker
  // ---------------------------------------------------------------------

  /** `Building_AutoWorker`, as far as workrate and bills go.  `claim` is
      its `DynWorkRate` (null when it holds none), `overclocking` its
      level, `billActive` whether it has a current bill, whose
      `ingredients`, `dominant` ingredient and `workLeft` it keeps. */
  class Worker {
    const network: WorkrateNetwork
    var claim: DynWorkRate?
    var overclocking: int
    var overclockingLimit: int
    var priority: int
    var billActive: bool
    var ingredients: seq<Thing>
    var dominant: Option<Thing>
    var workLeft: real

    /** The level is within the slider's range, and a claim the worker
        holds expects exactly the workrate of its level, at its priority. */
    ghost predicate Steady()
      reads this, claim
    {
      0 <= overclocking <= MaxLevel && 0 <= overclockingLimit <= MaxLevel &&
      (claim != null ==> claim.Expected == WorkrateByOc(overclocking) && claim.Priority == priority)
    }

    /** The claim, if any, is in the network's list. */
    ghost predicate Listed()
      reads this, network
    {
      claim != null ==> claim in network.DynWorkRates
    }

    /** A claim the network has not released is in its list (what every
        operation of the network keeps, see `WorkrateNetwork.Tracks`). */
    ghost predicate Tracked()
      reads this, claim, network
    {
      claim != null && !claim.Released ==> claim in network.DynWorkRates
    }

    /** Where underclocking stops: no claim, a claim that is met, or
        level 0. */
    ghost predicate Settled()
      reads this, claim
    {
      claim == null || !claim.Low() || overclocking == 0
    }

    /** `TryOverclocking` raises the level: the claim is met, the limit
        is not reached, and the network has the extra workrate to spare. */
    ghost predicate Raisable()
      reads this, claim, network
    {
      claim != null && !claim.Low() && overclocking < overclockingLimit &&
      0 <= overclocking && network.AvailableWorkrate() >= WorkrateByOc(overclocking)
    }

    constructor (network: WorkrateNetwork)
      ensures this.network == network && claim == null && !billActive
      ensures overclocking == 0 && overclockingLimit == 5 && priority == 0
      ensures Steady() && Listed() && Tracked()
    {
      this.network := network;
      claim := null;
      overclocking := 0;
      overclockingLimit := 5;
      priority := 0;
      billActive := false;
      ingredients := [];
      dominant := None;
      workLeft := 0.0;
    }

    /** `Network.RequestWorkrate(value, priority, skip)` as the worker
        relies on it: the new claim expects `value` at the worker's
        priority, nothing but fresh claims joins the list, and a request
        for some workrate while some is available always gets a claim. */
    method RequestClaim(value: int, skip: bool) returns (r: DynWorkRate?)
      requires network.Valid()
      modifies network, network.DynWorkRates
      ensures network.Valid()
      ensures old(network.Conserved()) ==> network.Conserved()
      ensures forall i :: 0 <= i < |network.DynWorkRates| ==>
                 network.DynWorkRates[i] in old(network.DynWorkRates) || fresh(network.DynWorkRates[i])
      ensures old(network.AvailableWorkrate()) >= 0 ==> network.AvailableWorkrate() >= 0
      ensures r != null ==> fresh(r) && r in network.DynWorkRates && r.Expected == value && r.Priority == priority
      ensures 0 < value && 0 < old(network.AvailableWorkrate()) ==> r != null
    {
      ghost var ws, cs, a0 := network.DynWorkRates, network.Claims(), network.AvailableWorkrate();
      ghost var g := Request(cs, a0, value, priority, network.MaxDevices, skip);
      RequestGrantsWhenAvailable(cs, a0, value, priority, network.MaxDevices, skip);
      r := network.RequestWorkrate(value, priority, skip);
      if r != null {
        InsertAtMembers(ws[..|g.kept|], IndexOf(network.DynWorkRates, r), r);
      }
    }

    /** `Network.ReleaseWorkRate(c, keepValue)` as the worker relies on
        it: the claim leaves the list, and a live claim gives back what it
        holds, which is some workrate, unless `keepValue`. */
    method ReleaseClaim(c: DynWorkRate, keepValue: bool)
      requires network.Valid() && (!c.Released ==> c in network.DynWorkRates)
      modifies network, c
      ensures network.Valid() && c.Released && c !in network.DynWorkRates
      ensures forall i :: 0 <= i < |network.DynWorkRates| ==> network.DynWorkRates[i] in old(network.DynWorkRates)
      ensures old(network.Conserved()) && !keepValue ==> network.Conserved()
      ensures old(c.Released) ==> network.AvailableWorkrate() == old(network.AvailableWorkrate())
      ensures !old(c.Released) ==>
                old(c.Value) > 0 &&
                network.AvailableWorkrate() == old(network.AvailableWorkrate()) + (if keepValue then 0 else old(c.Value))
    {
      ghost var ws := network.DynWorkRates;
      if !c.Released {
        assert network.Claims()[IndexOf(ws, c)].value == c.Value;
      }
      network.ReleaseWorkRate(c, keepValue);
      RemoveFirstDistinct(ws, c);
    }

    /** `TryRequestWorkrate`: without a claim, request the base workrate
        and drop to level 0; with a claim that is not met, and only on the
        worker's 120-tick beat (`onBeat`), release it and request what it
        expected again.  On a network that is not over-committed the
        re-request always gets a claim. */
    method TryRequestWorkrate(onBeat: bool)
      requires network.Valid() && Listed() && Steady()
      modifies this`claim, this`overclocking, network, network.DynWorkRates
      ensures network.Valid() && Listed() && Steady()
      ensures old(network.Conserved()) ==> network.Conserved()
      ensures forall i :: 0 <= i < |network.DynWorkRates| ==>
                 network.DynWorkRates[i] in old(network.DynWorkRates) || fresh(network.DynWorkRates[i])
      ensures old(network.AvailableWorkrate()) >= 0 ==> network.AvailableWorkrate() >= 0
      ensures old(claim) == null ==>
                overclocking == 0 && (claim != null ==> fresh(claim) && claim.Expected == BaseWorkrate) &&
                (old(network.AvailableWorkrate()) > 0 ==> claim != null)
      ensures old(claim) != null && !(old(claim.Low()) && onBeat) ==>
                claim == old(claim) && overclocking == old(overclocking) &&
                network.DynWorkRates == old(network.DynWorkRates) && network.UsedWorkrate == old(network.UsedWorkrate)
      ensures old(claim) != null && old(claim.Low()) && onBeat ==>
                old(claim).Released && old(claim) !in network.DynWorkRates && overclocking == old(overclocking) &&
                (claim != null ==> fresh(claim) && claim.Expected == old(claim.Expected)) &&
                (old(network.AvailableWorkrate()) >= 0 ==> claim != null)
    {
      if claim == null {
        claim := RequestClaim(BaseWorkrate, false);
        overclocking := 0;
        return;
      }
      if claim.Low() && onBeat {
        var expected := claim.Expected;
        ReleaseClaim(claim, false);
        claim := RequestClaim(expected, false);
      }
    }

    /** `TryOverclocking`: when the claim is met, the limit not reached
        and the network has the workrate of one more level to spare, the
        worker goes up one level, its claim now holding and expecting
        twice as much; otherwise it underclocks. */
    method TryOverclocking()
      requires network.Valid() && Listed() && Steady()
      modifies this`claim, this`overclocking, network, network.DynWorkRates
      ensures network.Valid() && Listed() && Steady()
      ensures old(network.Conserved()) ==> network.Conserved()
      ensures forall i :: 0 <= i < |network.DynWorkRates| ==>
                 network.DynWorkRates[i] in old(network.DynWorkRates) || fresh(network.DynWorkRates[i])
      ensures old(network.AvailableWorkrate()) >= 0 ==> network.AvailableWorkrate() >= 0
      ensures old(Raisable()) ==>
                claim == old(claim) && overclocking == old(overclocking) + 1 &&
                claim.Value == claim.Expected == 2 * old(claim.Value) &&
                network.DynWorkRates == old(network.DynWorkRates) &&
                network.AvailableWorkrate() == old(network.AvailableWorkrate()) - old(claim.Value)
      ensures !old(Raisable()) ==>
                Settled() && overclocking <= old(overclocking) &&
                (old(network.AvailableWorkrate()) >= 0 && old(claim) != null ==> claim != null)
    {
      if claim == null || claim.Low() || overclocking >= overclockingLimit ||
         network.AvailableWorkrate() < WorkrateByOc(overclocking + 1) - claim.Value {
        TryUnderclocking();
        return;
      }
      Overclock();
    }

    /** The raise of `TryOverclocking`: the difference to the next level
        is requested without the device check, the new claim is released
        keeping its workrate in use, and its value and expectation are
        added to the worker's claim.  The request always fits in what is
        available, so it is never refused. */
    method Overclock()
      requires network.Valid() && Listed() && Steady() && Raisable()
      modifies this`overclocking, network, network.DynWorkRates
      ensures network.Valid() && Listed() && Steady()
      ensures old(network.Conserved()) ==> network.Conserved()
      ensures overclocking == old(overclocking) + 1
      ensures claim.Value == claim.Expected == 2 * old(claim.Value)
      ensures network.DynWorkRates == old(network.DynWorkRates)
      ensures network.AvailableWorkrate() == old(network.AvailableWorkrate()) - old(claim.Value)
    {
      WorkrateByOcDoubles(overclocking);
      var require := WorkrateByOc(overclocking + 1) - claim.Value;
      var extra := Reserve(require);
      Merge(extra.Value, extra.Expected);
      overclocking := overclocking + 1;
    }

    /** `RequestWorkrate(require, priority, skipDeviceCheck: true)` then
        `ReleaseWorkRate(newWorkRate, true)`, for a value that fits in what
        is available: the list and every claim in it are as before, and
        `require` more is in use, held by nobody until it is merged. */
    method Reserve(require: int) returns (extra: DynWorkRate)
      requires network.Valid() && Listed() && claim != null && 0 < require <= network.AvailableWorkrate()
      modifies network, network.DynWorkRates
      ensures network.Valid() && fresh(extra)
      ensures extra.Value == require && extra.Expected == require
      ensures network.DynWorkRates == old(network.DynWorkRates) && network.Claims() == old(network.Claims())
      ensures network.UsedWorkrate == old(network.UsedWorkrate) + require
      ensures network.TotalWorkrate == old(network.TotalWorkrate)
      ensures claim.Value == old(claim.Value) && claim.Expected == old(claim.Expected) && claim.Priority == old(claim.Priority)
    {
      ghost var ws, cs := network.DynWorkRates, network.Claims();
      ghost var j := IndexOf(ws, claim);
      assert cs[j] == Claim(claim.Value, claim.Expected, claim.Priority);
      ghost var k;
      extra, k := GrantExtra(require);
      ShownAt(ws, cs, k, extra, Claim(require, require, priority), j);
      ReturnExtra(extra, ws, cs, k, Claim(require, require, priority));
    }

    /** `Network.RequestWorkrate(require, priority, skipDeviceCheck:
        true)` for a value that fits in what is available: the new claim
        is granted in full and put into the list, at `k`, and nothing else
        changes. */
    method GrantExtra(require: int) returns (extra: DynWorkRate, ghost k: int)
      requires network.Valid() && 0 < require <= network.AvailableWorkrate()
      modifies network, network.DynWorkRates
      ensures network.Valid() && fresh(extra) && !extra.Released && 0 <= k <= |old(network.DynWorkRates)|
      ensures extra in network.DynWorkRates && IndexOf(network.DynWorkRates, extra) == k
      ensures extra.Value == require && extra.Expected == require && extra.Priority == priority
      ensures network.DynWorkRates == InsertAt(old(network.DynWorkRates), k, extra)
      ensures network.Claims() == InsertAt(old(network.Claims()), k, Claim(require, require, priority))
      ensures network.UsedWorkrate == old(network.UsedWorkrate) + require
      ensures network.TotalWorkrate == old(network.TotalWorkrate)
    {
      ghost var ws, cs := network.DynWorkRates, network.Claims();
      RequestFits(cs, network.AvailableWorkrate(), require, priority, network.MaxDevices, true);
      assert ws[..|cs|] == ws;
      var r := network.RequestWorkrate(require, priority, true);
      extra := r;
      k := IndexOf(network.DynWorkRates, extra);
    }

    /** A claim that sat at `j` before `r` was put into the list at `k`
        still shows the claim it showed. */
    lemma ShownAt(ws: seq<DynWorkRate>, cs: seq<Claim>, k: int, r: DynWorkRate, x: Claim, j: int)
      requires 0 <= k <= |ws| == |cs| && 0 <= j < |ws|
      requires network.DynWorkRates == InsertAt(ws, k, r) && network.Claims() == InsertAt(cs, k, x)
      ensures Claim(ws[j].Value, ws[j].Expected, ws[j].Priority) == cs[j]
    {
      var n := if j < k then j else j + 1;
      assert network.DynWorkRates[n] == ws[j] && network.Claims()[n] == cs[j];
    }

    /** `Network.ReleaseWorkRate(newWorkRate, true)` on the claim just put
        in at `k`: the list and the claims are as before the request, and
        the workrate stays in use. */
    method ReturnExtra(extra: DynWorkRate, ghost ws: seq<DynWorkRate>, ghost cs: seq<Claim>, ghost k: int, ghost x: Claim)
      requires network.Valid() && 0 <= k <= |ws| == |cs| && !extra.Released
      requires network.DynWorkRates == InsertAt(ws, k, extra) && network.Claims() == InsertAt(cs, k, x)
      requires extra in network.DynWorkRates && IndexOf(network.DynWorkRates, extra) == k
      modifies network, extra
      ensures network.Valid() && network.DynWorkRates == ws && network.Claims() == cs
      ensures network.UsedWorkrate == old(network.UsedWorkrate) && network.TotalWorkrate == old(network.TotalWorkrate)
      ensures extra.Value == old(extra.Value) && extra.Expected == old(extra.Expected)
    {
      network.ReleaseWorkRate(extra, true);
      RemoveInserted(cs, k, x);
      RemoveInserted(ws, k, extra);
    }

    /** `dynWorkRate.Value += …; dynWorkRate.Expected += …`: the claim
        grows in place; the list stays valid, and what the claims hold
        grows by the same amount. */
    method Merge(value: int, expected: int)
      requires network.Valid() && claim != null && claim in network.DynWorkRates
      requires value >= 0 && expected >= 0
      modifies claim
      ensures network.Valid()
      ensures claim.Value == old(claim.Value) + value && claim.Expected == old(claim.Expected) + expected
      ensures claim.Priority == old(claim.Priority)
      ensures Held(network.Claims()) == old(Held(network.Claims())) + value
    {
      ghost var ws, cs := network.DynWorkRates, network.Claims();
      ghost var k := IndexOf(ws, claim);
      claim.Value := claim.Value + value;
      claim.Expected := claim.Expected + expected;
      forall j | 0 <= j < |ws| && j != k
        ensures ws[j] != claim
      {
        DistinctAt(ws, j, k);
      }
      assert network.Claims() == cs[k := Claim(claim.Value, claim.Expected, claim.Priority)];
      HeldUpdate(cs, k, Claim(claim.Value, claim.Expected, claim.Priority));
      assert Priorities(network.Claims()) == Priorities(cs);
    }

    /** `TryUnderclocking`: while the claim is not met and the level is
        above 0, release the claim and request the workrate of the level
        below; a request that gets nothing leaves the worker without a
        claim at level 0.  On a network that is not over-committed every
        such request gets a claim. */
    method TryUnderclocking()
      requires network.Valid() && Listed() && Steady()
      modifies this`claim, this`overclocking, network, network.DynWorkRates
      ensures network.Valid() && Listed() && Steady() && Settled()
      ensures old(network.Conserved()) ==> network.Conserved()
      ensures forall i :: 0 <= i < |network.DynWorkRates| ==>
                 network.DynWorkRates[i] in old(network.DynWorkRates) || fresh(network.DynWorkRates[i])
      ensures old(network.AvailableWorkrate()) >= 0 ==> network.AvailableWorkrate() >= 0
      ensures overclocking <= old(overclocking)
      ensures old(Settled()) ==> claim == old(claim) && overclocking == old(overclocking)
      ensures old(claim) != null && claim != old(claim) ==> old(claim).Released && (claim != null ==> fresh(claim))
      ensures old(network.AvailableWorkrate()) >= 0 && old(claim) != null ==> claim != null
    {
      ghost var conserved, committed := network.Conserved(), network.AvailableWorkrate() >= 0;
      while claim != null && claim.Low() && overclocking > 0
        invariant network.Valid() && Listed() && Steady()
        invariant conserved ==> network.Conserved()
        invariant forall i :: 0 <= i < |network.DynWorkRates| ==>
                   network.DynWorkRates[i] in old(network.DynWorkRates) || fresh(network.DynWorkRates[i])
        invariant committed ==> network.AvailableWorkrate() >= 0 && (old(claim) != null ==> claim != null)
        invariant overclocking <= old(overclocking)
        invariant old(Settled()) ==> claim == old(claim) && overclocking == old(overclocking) && Settled()
        invariant old(claim) != null && claim != old(claim) ==>
                    old(claim).Released && old(claim) !in network.DynWorkRates && (claim != null ==> fresh(claim))
        decreases overclocking
      {
        StepDown();
      }
    }

    /** One pass of the underclocking loop: the claim is released and the
        workrate of the level below requested; without a new claim the
        worker drops to level 0. */
    method StepDown()
      requires network.Valid() && Listed() && Steady()
      requires claim != null && overclocking > 0
      modifies this`claim, this`overclocking, network, network.DynWorkRates
      ensures network.Valid() && Listed() && Steady()
      ensures old(network.Conserved()) ==> network.Conserved()
      ensures forall i :: 0 <= i < |network.DynWorkRates| ==>
                 network.DynWorkRates[i] in old(network.DynWorkRates) || fresh(network.DynWorkRates[i])
      ensures old(network.AvailableWorkrate()) >= 0 ==> network.AvailableWorkrate() >= 0 && claim != null
      ensures overclocking < old(overclocking)
      ensures old(claim).Released && old(claim) !in network.DynWorkRates && (claim != null ==> fresh(claim))
    {
      var require := WorkrateByOc(overclocking - 1);
      ReleaseClaim(claim, false);
      var next := RequestClaim(require, false);
      claim, overclocking := next, if next == null then 0 else overclocking - 1;
    }

    /** `PollBill`, the workrate part: without a bill nothing happens.
        Otherwise a claim the network released is forgotten; without a
        claim, or with one not met, the worker asks for workrate, and when
        it still holds no claim it does no work this tick.  Holding one,
        it tries to overclock and works `speed` (`CalcWorkSpeed`, float
        arithmetic that is not part of this model) off the bill, which is
        done once no work is left.  `CalcWorkSpeed` reads the claim without
        a null check; on a network that is not over-committed the claim is
        indeed there.  `handed` are the things the finished bill hands to
        the network. */
    method PollBill(onBeat: bool, speed: real, products: seq<Thing>) returns (handed: seq<Thing>)
      requires network.Valid() && Tracked() && Steady() && speed >= 0.0
      requires network.AvailableWorkrate() >= 0
      modifies this`claim, this`overclocking, this`billActive, this`dominant, this`ingredients, this`workLeft
      modifies network, network.DynWorkRates, claim
      ensures network.Valid() && Tracked() && Steady() && network.AvailableWorkrate() >= 0
      ensures old(network.Conserved()) ==> network.Conserved()
      ensures !old(billActive) ==> unchanged(this) && unchanged(network) && handed == []
      ensures old(billActive) && billActive ==>
                handed == [] &&
                ((claim != null && workLeft == old(workLeft) - speed && workLeft > 0.0) ||
                 (claim == null && workLeft == old(workLeft)))
      ensures old(billActive) && !billActive ==>
                old(workLeft) - speed <= 0.0 && handed == products && claim == null && overclocking == 0
    {
      handed := [];
      if !billActive {
        return;
      }
      if claim != null && claim.Released {
        claim := null;
      }
      if claim == null || claim.Low() {
        TryRequestWorkrate(onBeat);
        if claim == null {
          return;
        }
      }
      handed := WorkTick(speed, products);
    }

    /** The working part of `PollBill`, holding a claim: try to overclock,
        take `speed` off the work left, and finish the bill once none is
        left. */
    method WorkTick(speed: real, products: seq<Thing>) returns (handed: seq<Thing>)
      requires network.Valid() && Listed() && Steady() && claim != null && billActive
      requires network.AvailableWorkrate() >= 0
      modifies this`claim, this`overclocking, this`billActive, this`dominant, this`ingredients, this`workLeft
      modifies network, network.DynWorkRates
      ensures network.Valid() && Tracked() && Steady() && network.AvailableWorkrate() >= 0
      ensures old(network.Conserved()) ==> network.Conserved()
      ensures billActive ==> handed == [] && claim != null && workLeft == old(workLeft) - speed && workLeft > 0.0
      ensures !billActive ==> old(workLeft) - speed <= 0.0 && handed == products && claim == null && overclocking == 0
    {
      TryOverclocking();
      assert claim != null;
      workLeft := workLeft - speed;
      handed := [];
      if workLeft <= 0.0 {
        handed := DoneBill(false, products);
      }
    }

    /** `DoneBill(cancel)`, the bookkeeping: without a bill nothing
        happens.  Otherwise the bill, its dominant ingredient and its
        ingredients are cleared, the level drops to 0 and the claim is
        released and forgotten.  `handed` are the things the bill hands to
        the network's `AddItemOrOverflow`: the ingredients not destroyed
        when it is cancelled, the products (made by the engine) when it is
        finished. */
    method DoneBill(cancel: bool, products: seq<Thing>) returns (handed: seq<Thing>)
      requires network.Valid() && Tracked() && Steady()
      modifies this`claim, this`overclocking, this`billActive, this`dominant, this`ingredients
      modifies network, network.DynWorkRates, claim
      ensures network.Valid() && Tracked() && Steady()
      ensures old(network.Conserved()) ==> network.Conserved()
      ensures old(network.AvailableWorkrate()) >= 0 ==> network.AvailableWorkrate() >= 0
      ensures !old(billActive) ==> unchanged(this) && unchanged(network) && handed == []
      ensures old(billActive) ==>
                !billActive && dominant == None && ingredients == [] && overclocking == 0 && claim == null &&
                (old(claim) != null ==> old(claim).Released) &&
                handed == (if cancel then Live(old(ingredients)) else products)
    {
      if !billActive {
        return [];
      }
      handed := if cancel then Live(ingredients) else products;
      billActive, dominant, overclocking, ingredients := false, None, 0, [];
      if claim != null {
        ReleaseClaim(claim, false);
        claim := null;
      }
    }
  }
}
