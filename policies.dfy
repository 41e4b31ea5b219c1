/** The capacity policies of a storage drive (`CompDataFormat` and its
    subclasses).

    A drive asks its policy how many units of an item it can still take,
    and tells it after every insert and remove.  There are four policies:
    no limit, a limit on the number of stacks, a mass budget and a byte
    budget.  The policy sees the drive through its stack list and its
    index (def -> thing -> slot); both are passed in.  The engine's
    `decimal` is taken as an exact rational (`real`). */
module Policies {
  import opened Things
  import opened Formats

  datatype PolicyKind = Unlimited | TypeLimit | MassLimit | ByteBudget

  /** The index of a drive: for each def, the things of that def and their
      slots in the stack list. */
  type Index = map<Def, map<ThingRef, int>>

  // ---------------------------------------------------------------
  // Stack-count limit (`CompDataFormatType`)
  // ---------------------------------------------------------------

  /** Room under a stack-count limit: unbounded while the drive holds
      fewer stacks than the limit, none once it holds that many. */
  function TypeAnswer(stacks: int, limit: real): (r: int)
    ensures r == IntMax || r == 0
    ensures r > 0 <==> (stacks as real) < limit
  {
    if (stacks as real) < limit then IntMax else 0
  }

  /** More stacks never mean more room. */
  lemma TypeAnswerAntitone(s1: int, s2: int, limit: real)
    requires s1 <= s2
    ensures TypeAnswer(s2, limit) <= TypeAnswer(s1, limit)
  {
  }

  // ---------------------------------------------------------------
  // Mass budget (`CompDataFormatMassFormat`)
  // ---------------------------------------------------------------

  /** The mass still free under the limit, never negative. */
  function FreeMass(limit: real, mass: real): (r: real)
    ensures r >= 0.0 && r >= limit - mass
    ensures r == 0.0 || r == limit - mass
  {
    if limit - mass > 0.0 then limit - mass else 0.0
  }

  /** Room under a mass budget as the code computes it: an item of no
      mass always fits; otherwise the free mass over the unit mass,
      rounded down and cast to `int`.  The cast throws when the quotient
      exceeds `int.MaxValue` (None here). */
  function MassAnswerAsWritten(limit: real, mass: real, single: real): (r: Option<int>)
    ensures single <= 0.0 ==> r == Some(IntMax)
    ensures r.None? <==> single > 0.0 && (FreeMass(limit, mass) / single).Floor > IntMax
  {
    if single <= 0.0 then Some(IntMax)
    else
      var q := (FreeMass(limit, mass) / single).Floor;
      if q > IntMax then None else Some(q)
  }

  /** Room under a mass budget with the quotient capped at
      `int.MaxValue`, as the byte budget caps its own. */
  function MassAnswer(limit: real, mass: real, single: real): int
  {
    if single <= 0.0 then IntMax
    else Min((FreeMass(limit, mass) / single).Floor, IntMax)
  }

  /** The mass answer is the largest count whose mass fits into the free
      mass (or `int.MaxValue`), and never negative. */
  lemma MassAnswerFits(limit: real, mass: real, single: real)
    requires single > 0.0
    ensures var r, free := MassAnswer(limit, mass, single), FreeMass(limit, mass);
            0 <= r <= IntMax &&
            (r as real) * single <= free &&
            (r == IntMax || free < ((r + 1) as real) * single)
  {
    var free := FreeMass(limit, mass);
    var f := (free / single).Floor;
    FloorBounds(free, single);
    if f > IntMax {
      assert MassAnswer(limit, mass, single) == IntMax;
      MulMonotone(IntMax as real, f as real, single);
    } else {
      assert MassAnswer(limit, mass, single) == f;
    }
  }

  /** The floor of `free / single` is the largest count whose mass fits
      into `free`. */
  lemma FloorBounds(free: real, single: real)
    requires free >= 0.0 && single > 0.0
    ensures var f := (free / single).Floor;
            f >= 0 && (f as real) * single <= free < ((f + 1) as real) * single
  {
    var q := free / single;
    assert q * single == free;
    FloorTimes(q, single);
    var g := ((q.Floor + 1) as real) * single;
    assert q * single < g;
  }

  /** Multiplying the bounds of `q.Floor` by a positive factor. */
  lemma FloorTimes(q: real, m: real)
    requires m > 0.0
    ensures (q.Floor as real) * m <= q * m < ((q.Floor + 1) as real) * m
  {
    MulMonotone(q.Floor as real, q, m);
    MulStrict(q, (q.Floor + 1) as real, m);
  }

  lemma MulMonotone(a: real, b: real, m: real)
    requires a <= b && m > 0.0
    ensures a * m <= b * m
  {
  }

  lemma MulStrict(a: real, b: real, m: real)
    requires a < b && m > 0.0
    ensures a * m < b * m
  {
  }

  /** Where the cast succeeds it gives the capped answer. */
  lemma MassAsWrittenAgrees(limit: real, mass: real, single: real)
    ensures MassAnswerAsWritten(limit, mass, single).Some? ==>
            MassAnswerAsWritten(limit, mass, single).value == MassAnswer(limit, mass, single)
  {
  }

  /** An empty drive with a budget of three million kg, asked about an
      item of 1 kg: the quotient is 3000000000 and the cast throws. */
  lemma MassAnswerOverflows()
    ensures MassAnswerAsWritten(3000000000.0, 0.0, 1.0).None?
    ensures MassAnswer(3000000000.0, 0.0, 1.0) == IntMax
  {
    assert FreeMass(3000000000.0, 0.0) / 1.0 == 3000000000.0;
  }

  // ---------------------------------------------------------------
  // Byte budget (`CompDataFormatBytes`)
  // ---------------------------------------------------------------

  const BytesPerStack: real := 16.0
  const BytesPerThing: real := 0.5

  /** `Math.Ceiling`. */
  function Ceil(x: real): (r: int)
    ensures x <= r as real < x + 1.0
  {
    -((-x).Floor)
  }

  /** `CalcTotalBytes`: 16 bytes per stack and half a byte per unit,
      rounded up. */
  function TotalBytes(container: seq<Thing>): int
  {
    Ceil((|container| as real) * BytesPerStack + (TotalUnits(container) as real) * BytesPerThing)
  }

  /** The byte total covers every stack and unit, with less than one
      byte of rounding. */
  lemma TotalBytesCovers(container: seq<Thing>)
    ensures var exact := (|container| as real) * 16.0 + (TotalUnits(container) as real) * 0.5;
            exact <= TotalBytes(container) as real < exact + 1.0
  {
  }

  /** `IsNewStack`: the item opens a new stack unless its def is indexed
      and one of the indexed things of that def can stack with it. */
  predicate IsNewStack(index: Index, item: ThingRef)
  {
    !(item.def in index && exists t :: t in index[item.def] && CanStackWith(item, t))
  }

  /** The bytes left for the item: limit minus the cached total, minus a
      stack's 16 bytes when the item would open a new stack. */
  function BytesRoom(limit: real, total: real, newStack: bool): real
  {
    limit - total - (if newStack then BytesPerStack else 0.0)
  }

  /** How many units fit into `room` bytes at half a byte each, capped at
      `int.MaxValue`; none when there is no room. */
  function BytesAnswer(room: real): int
  {
    if room <= 0.0 then 0 else Min((room / BytesPerThing).Floor, IntMax)
  }

  /** The byte answer is the largest count whose bytes fit into the room
      (or `int.MaxValue`). */
  lemma BytesAnswerFits(room: real)
    ensures var r := BytesAnswer(room);
            0 <= r <= IntMax &&
            (r > 0 ==> (r as real) * 0.5 <= room) &&
            (r == IntMax || room < ((r + 1) as real) * 0.5)
  {
    if room > 0.0 {
      var q := room / 0.5;
      assert q == 2.0 * room;
    }
  }

  /** A new stack costs 16 bytes of room, so it never gets more units than
      a merge into an existing stack would. */
  lemma NewStackGetsLess(limit: real, total: real)
    ensures BytesAnswer(BytesRoom(limit, total, true)) <= BytesAnswer(BytesRoom(limit, total, false))
  {
    var a, b := BytesRoom(limit, total, true), BytesRoom(limit, total, false);
    assert a <= b;
    if a > 0.0 {
      assert (a / 0.5).Floor <= (b / 0.5).Floor;
    }
  }

  /** What the byte policy's `GetCountCanAccept` returns: a cached answer
      for the item if there is one, else the answer for the cached
      total. */
  function BytesQuery(cache: map<ThingRef, int>, total: real, limit: real, index: Index, item: ThingRef): int
  {
    if item in cache then cache[item] else BytesAnswer(BytesRoom(limit, total, IsNewStack(index, item)))
  }

  // ---------------------------------------------------------------
  // The policy object
  // ---------------------------------------------------------------

  /** The capacity policy of one drive, with the configuration it reads
      its limit from and the caches the mass and byte policies keep. */
  class DataFormat {
    const kind: PolicyKind
    const props: FormatProps
    /** Mass policy: the last computed mass and whether it is stale. */
    var CachedMass: real
    var dirty: bool
    /** Byte policy: the last computed byte total and the answers given
        since. */
    var totalBytesCache: real
    var countCanAcceptCache: map<ThingRef, int>

    /** The configuration is read by the parser of this policy. */
    ghost predicate Valid()
      reads this, props
    {
      props.Valid() && props.bytes == (kind == ByteBudget) &&
      forall t :: t in countCanAcceptCache ==> 0 <= countCanAcceptCache[t] <= IntMax
    }

    /** The configured limit. */
    function Limit(): real
    {
      props.parsed.value
    }

    /** The room this policy stands for, computed from the drive's
        current stacks and index. */
    function Answer(container: seq<Thing>, index: Index, item: ThingRef): int
    {
      match kind
      case Unlimited => IntMax
      case TypeLimit => TypeAnswer(|container|, Limit())
      case MassLimit => MassAnswer(Limit(), TotalMass(container), item.def.unitMass)
      case ByteBudget => BytesAnswer(BytesRoom(Limit(), TotalBytes(container) as real, IsNewStack(index, item)))
    }

    /** Every answer is a count an `int` holds. */
    lemma AnswerRange(container: seq<Thing>, index: Index, item: ThingRef)
      ensures 0 <= Answer(container, index, item) <= IntMax
    {
      if kind == MassLimit && item.def.unitMass > 0.0 {
        assert FreeMass(Limit(), TotalMass(container)) / item.def.unitMass >= 0.0;
      }
    }

    /** The answer depends on the item only through its def and stuff:
        two pieces of one stack get the same answer. */
    lemma AnswerByKind(container: seq<Thing>, index: Index, a: ThingRef, b: ThingRef)
      requires a.def == b.def && a.stuff == b.stuff
      ensures Answer(container, index, a) == Answer(container, index, b)
    {
      if kind == ByteBudget {
        assert IsNewStack(index, a) == IsNewStack(index, b);
      }
    }

    /** The caches agree with the drive: a clean mass cache holds the
        drive's mass; the byte total is the drive's, and every cached
        answer is the answer for the drive as it is. */
    ghost predicate Fresh(container: seq<Thing>, index: Index)
      reads this
    {
      (kind == MassLimit && !dirty ==> CachedMass == TotalMass(container)) &&
      (kind == ByteBudget ==>
         totalBytesCache == TotalBytes(container) as real &&
         forall t :: t in countCanAcceptCache ==>
           countCanAcceptCache[t] == BytesAnswer(BytesRoom(Limit(), totalBytesCache, IsNewStack(index, t))))
    }

    /** A new policy: the mass cache is dirty, the byte total 0 and no
        answer is cached. */
    constructor(kind: PolicyKind, props: FormatProps)
      requires props.Valid() && props.bytes == (kind == ByteBudget)
      ensures Valid() && this.kind == kind && this.props == props
      ensures dirty && CachedMass == 0.0 && totalBytesCache == 0.0 && countCanAcceptCache == map[]
      ensures Fresh([], map[])
    {
      this.kind := kind;
      this.props := props;
      CachedMass := 0.0;
      dirty := true;
      totalBytesCache := 0.0;
      countCanAcceptCache := map[];
      new;
      assert TotalBytes([]) == 0;
    }

    /** `Mass`: recomputes the drive's mass when the cache is dirty, and
        returns the cache either way. */
    method Mass(container: seq<Thing>) returns (m: real)
      modifies this
      ensures m == (if old(dirty) then TotalMass(container) else old(CachedMass))
      ensures CachedMass == m && !dirty
      ensures totalBytesCache == old(totalBytesCache) && countCanAcceptCache == old(countCanAcceptCache)
    {
      if dirty {
        CachedMass := 0.0;
        var i := 0;
        while i < |container|
          invariant 0 <= i <= |container|
          invariant CachedMass == TotalMass(container[..i])
          invariant totalBytesCache == old(totalBytesCache) && countCanAcceptCache == old(countCanAcceptCache)
        {
          assert container[..i + 1][..i] == container[..i];
          CachedMass := CachedMass + (container[i].stackCount as real) * container[i].ref.def.unitMass;
          i := i + 1;
        }
        assert container[..i] == container;
        dirty := false;
      }
      m := CachedMass;
    }

    /** `OnChange` of the byte policy: forget every cached answer and
        recompute the byte total. */
    method OnChange(container: seq<Thing>)
      modifies this
      ensures countCanAcceptCache == map[] && totalBytesCache == TotalBytes(container) as real
      ensures CachedMass == old(CachedMass) && dirty == old(dirty)
    {
      countCanAcceptCache := map[];
      totalBytesCache := TotalBytes(container) as real;
    }

    /** `OnAdd` and `OnRemove`, called by the drive after every insert and
        remove: the mass policy marks its cache dirty, and the byte policy
        refreshes through `OnChange` (the code as written has no byte
        override here; see `StaleByteCache`).  Afterwards the caches agree
        with the drive as it now is. */
    method OnChanged(container: seq<Thing>, index: Index)
      modifies this
      ensures kind == MassLimit ==> dirty && CachedMass == old(CachedMass)
      ensures kind == ByteBudget ==> countCanAcceptCache == map[] && totalBytesCache == TotalBytes(container) as real
      ensures kind != MassLimit ==> dirty == old(dirty) && CachedMass == old(CachedMass)
      ensures kind != ByteBudget ==> countCanAcceptCache == old(countCanAcceptCache) && totalBytesCache == old(totalBytesCache)
      ensures Fresh(container, index)
    {
      if kind == MassLimit {
        dirty := true;
      } else if kind == ByteBudget {
        OnChange(container);
      }
    }

    /** `GetCountCanAccept`: the room the policy reports for the item.
        The byte policy answers from its cache when it can, and caches
        every answer it computes with positive room; the mass policy
        refreshes its mass first.  While the caches are fresh, the answer
        is the room the drive really has. */
    method GetCountCanAccept(container: seq<Thing>, index: Index, item: ThingRef) returns (n: int)
      requires Valid()
      modifies this, props
      ensures Valid()
      ensures kind == ByteBudget ==>
                n == BytesQuery(old(countCanAcceptCache), old(totalBytesCache), Limit(), index, item)
      ensures old(Fresh(container, index)) ==> n == Answer(container, index, item) && Fresh(container, index)
      ensures 0 <= n <= IntMax
    {
      var limit := props.Value();
      match kind {
        case Unlimited =>
          n := IntMax;
        case TypeLimit =>
          n := if (|container| as real) < limit then IntMax else 0;
        case MassLimit =>
          var single := item.def.unitMass;
          var m := Mass(container);
          var remaining := FreeMass(limit, m);
          if single <= 0.0 {
            n := IntMax;
          } else {
            n := Min((remaining / single).Floor, IntMax);
            MassAnswerFits(limit, m, single);
          }
        case ByteBudget =>
          n := ByteQuery(index, item, limit);
      }
    }

    /** The byte branch of `GetCountCanAccept`. */
    method ByteQuery(index: Index, item: ThingRef, limit: real) returns (n: int)
      requires kind == ByteBudget && Valid()
      modifies this
      ensures n == BytesQuery(old(countCanAcceptCache), old(totalBytesCache), limit, index, item)
      ensures item !in old(countCanAcceptCache) && BytesRoom(limit, totalBytesCache, IsNewStack(index, item)) > 0.0
              ==> countCanAcceptCache == old(countCanAcceptCache)[item := n]
      ensures item in old(countCanAcceptCache) || BytesRoom(limit, totalBytesCache, IsNewStack(index, item)) <= 0.0
              ==> countCanAcceptCache == old(countCanAcceptCache)
      ensures totalBytesCache == old(totalBytesCache) && CachedMass == old(CachedMass) && dirty == old(dirty)
      ensures 0 <= n <= IntMax && Valid()
    {
      if item in countCanAcceptCache {
        n := countCanAcceptCache[item];
        return;
      }
      var rem := limit - totalBytesCache;
      if IsNewStack(index, item) {
        rem := rem - BytesPerStack;
      }
      if rem <= 0.0 {
        n := 0;
        return;
      }
      n := Min((rem / BytesPerThing).Floor, IntMax);
      BytesAnswerFits(rem);
      countCanAcceptCache := countCanAcceptCache[item := n];
    }
  }

  /** The byte cache as written goes stale.  A drive with a 100-byte
      budget, empty: the first query for a thing finds 100 − 0 − 16 = 84
      bytes of room, answers 168 units and caches the answer.  The drive
      then takes those 168 units, which fill it (16 + 84 = 100 bytes).
      With no byte override of `OnAdd` the cache keeps 168 and the total
      keeps 0, so the next query still says 168 where the drive has no
      room left. */
  lemma StaleByteCache()
    ensures var r := ThingRef(1, Def(1, Item, true, 1.0), 0);
            var before := BytesQuery(map[], 0.0, 100.0, map[], r);
            var container := [Thing(r, 168, Plain, Drive(0), false)];
            var index: Index := map[r.def := map[r := 0]];
            before == 168 &&
            BytesQuery(map[r := before], 0.0, 100.0, index, r) == 168 &&
            BytesAnswer(BytesRoom(100.0, TotalBytes(container) as real, IsNewStack(index, r))) == 0
  {
    var r := ThingRef(1, Def(1, Item, true, 1.0), 0);
    assert IsNewStack(map[], r);
    assert (84.0 / 0.5).Floor == 168;
    var container := [Thing(r, 168, Plain, Drive(0), false)];
    assert TotalUnits(container) == 168 by {
      assert container[..0] == [];
    }
    assert TotalBytes(container) == 100;
    var index: Index := map[r.def := map[r := 0]];
    assert !IsNewStack(index, r) by {
      assert r in index[r.def] && CanStackWith(r, r);
    }
  }

  /** The same staleness after a load: the load path of the drive tells
      the policy nothing, so the byte total keeps its initial 0.  A
      100-byte drive loaded with one stack of 168 units is full, yet the
      first query finds the whole 100 bytes free and answers 200. */
  lemma StaleAfterLoad()
    ensures var r := ThingRef(1, Def(1, Item, true, 1.0), 0);
            var container := [Thing(r, 168, Plain, Drive(0), false)];
            var index: Index := map[r.def := map[r := 0]];
            BytesQuery(map[], 0.0, 100.0, index, r) == 200 &&
            BytesAnswer(BytesRoom(100.0, TotalBytes(container) as real, IsNewStack(index, r))) == 0
  {
    var r := ThingRef(1, Def(1, Item, true, 1.0), 0);
    var container := [Thing(r, 168, Plain, Drive(0), false)];
    assert TotalUnits(container) == 168 by {
      assert container[..0] == [];
    }
    assert TotalBytes(container) == 100;
    var index: Index := map[r.def := map[r := 0]];
    assert !IsNewStack(index, r) by {
      assert r in index[r.def] && CanStackWith(r, r);
    }
    assert (100.0 / 0.5).Floor == 200;
  }
}
