/** The per-drive ledger (`ItemStorage`): the stacks a storage drive holds,
    in a list `Container`, and an index `IndexTable` from def to thing to
    slot in that list.  Inserts merge into a compatible stack or append;
    removals swap the last stack into the freed slot.  The index and the
    list agree at all times: a thing is indexed at slot `i` exactly when it
    is the stack at slot `i`. */
module Ledger {
  import opened Things
  import opened Policies

  // ---------------------------------------------------------------
  // Agreement of list and index
  // ---------------------------------------------------------------

  /** Every stack is indexed under its def at its own slot. */
  ghost predicate SlotsIndexed(c: seq<Thing>, index: Index)
  {
    forall i :: 0 <= i < |c| ==>
      c[i].ref.def in index && c[i].ref in index[c[i].ref.def] && index[c[i].ref.def][c[i].ref] == i
  }

  /** Every index entry names a slot that holds that thing, under its own
      def. */
  ghost predicate EntriesPoint(c: seq<Thing>, index: Index)
  {
    forall d, r :: d in index && r in index[d] ==>
      r.def == d && 0 <= index[d][r] < |c| && c[index[d][r]].ref == r
  }

  /** No def is indexed with no thing under it. */
  ghost predicate NoEmptyDefs(index: Index)
  {
    forall d :: d in index ==> index[d] != map[]
  }

  ghost predicate Agree(c: seq<Thing>, index: Index)
  {
    SlotsIndexed(c, index) && EntriesPoint(c, index) && NoEmptyDefs(index)
  }

  /** One entry of an agreeing index. */
  lemma EntryAt(c: seq<Thing>, index: Index, d: Def, r: ThingRef)
    requires EntriesPoint(c, index) && d in index && r in index[d]
    ensures r.def == d && 0 <= index[d][r] < |c| && c[index[d][r]].ref == r
  {
  }

  /** Where `r` is indexed, if anywhere. */
  function Slot(index: Index, r: ThingRef): int
  {
    if r.def in index && r in index[r.def] then index[r.def][r] else -1
  }

  /** The index invariant: a thing is indexed at slot `i` exactly when it
      is the stack at slot `i`. */
  lemma IndexIff(c: seq<Thing>, index: Index, r: ThingRef, i: int)
    requires Agree(c, index)
    ensures Slot(index, r) == i && i >= 0 <==> 0 <= i < |c| && c[i].ref == r
  {
  }

  /** So no thing holds two slots. */
  lemma AgreeDistinct(c: seq<Thing>, index: Index, i: int, j: int)
    requires Agree(c, index) && 0 <= i < |c| && 0 <= j < |c| && i != j
    ensures c[i].ref != c[j].ref
  {
    assert index[c[i].ref.def][c[i].ref] == i;
    assert index[c[j].ref.def][c[j].ref] == j;
  }

  /** The list determines the index. */
  lemma AgreeUnique(c: seq<Thing>, i1: Index, i2: Index)
    requires Agree(c, i1) && Agree(c, i2)
    ensures i1 == i2
  {
    forall d | d in i1 ensures d in i2 && i1[d] == i2[d] {
      var r :| r in i1[d];
      EntryAt(c, i1, d, r);
      forall r' | r' in i1[d] ensures r' in i2[d] && i1[d][r'] == i2[d][r'] {
        EntryAt(c, i1, d, r');
      }
      forall r' | r' in i2[d] ensures r' in i1[d] {
        EntryAt(c, i2, d, r');
      }
    }
    forall d | d in i2 ensures d in i1 {
      var r :| r in i2[d];
      EntryAt(c, i2, d, r);
    }
  }

  /** A def is indexed exactly when some stack is of that def. */
  lemma IndexedDefs(c: seq<Thing>, index: Index, d: Def)
    requires Agree(c, index)
    ensures d in index <==> exists i :: 0 <= i < |c| && c[i].ref.def == d
  {
    if d in index {
      var r :| r in index[d];
      EntryAt(c, index, d, r);
    }
  }

  /** Replacing a stack by another state of the same thing keeps the
      agreement. */
  lemma AgreeUpdate(c: seq<Thing>, index: Index, j: int, t: Thing)
    requires Agree(c, index) && 0 <= j < |c| && t.ref == c[j].ref
    ensures Agree(c[j := t], index)
  {
    var c' := c[j := t];
    forall d: Def, r: ThingRef | d in index && r in index[d]
      ensures r.def == d && 0 <= index[d][r] < |c'| && c'[index[d][r]].ref == r
    {
      EntryAt(c, index, d, r);
    }
  }

  /** `dict.Add(t, Container.Count)` under the def of `t`, the def's
      dictionary made first if it is missing. */
  function IndexAdd(index: Index, r: ThingRef, slot: int): Index
  {
    var m := if r.def in index then index[r.def] else map[];
    index[r.def := m[r := slot]]
  }

  /** Appending a thing not yet indexed, indexed at the new last slot,
      keeps the agreement. */
  lemma AgreeAppend(c: seq<Thing>, index: Index, t: Thing)
    requires Agree(c, index) && Slot(index, t.ref) == -1
    ensures Agree(c + [t], IndexAdd(index, t.ref, |c|))
  {
    AppendKeepsSlots(c, index, t);
    AppendKeepsEntries(c, index, t);
  }

  lemma AppendKeepsSlots(c: seq<Thing>, index: Index, t: Thing)
    requires Agree(c, index) && Slot(index, t.ref) == -1
    ensures SlotsIndexed(c + [t], IndexAdd(index, t.ref, |c|))
  {
    var c', index' := c + [t], IndexAdd(index, t.ref, |c|);
    forall i | 0 <= i < |c'|
      ensures c'[i].ref.def in index' && c'[i].ref in index'[c'[i].ref.def] && index'[c'[i].ref.def][c'[i].ref] == i
    {
      if i < |c| {
        assert c'[i] == c[i];
        assert c[i].ref != t.ref;
      }
    }
  }

  lemma AppendKeepsEntries(c: seq<Thing>, index: Index, t: Thing)
    requires Agree(c, index) && Slot(index, t.ref) == -1
    ensures EntriesPoint(c + [t], IndexAdd(index, t.ref, |c|))
  {
    var c', index' := c + [t], IndexAdd(index, t.ref, |c|);
    forall d: Def, q: ThingRef | d in index' && q in index'[d]
      ensures q.def == d && 0 <= index'[d][q] < |c'| && c'[index'[d][q]].ref == q
    {
      if q != t.ref {
        EntryAt(c, index, d, q);
      }
    }
  }

  /** `List.RemoveAt` of slot `k` after the last stack was moved into it. */
  function SwapRemove<T>(s: seq<T>, k: int): (r: seq<T>)
    requires 0 <= k < |s|
    ensures |r| == |s| - 1
  {
    if k == |s| - 1 then s[..k] else s[k := s[|s| - 1]][..|s| - 1]
  }

  /** A swap-remove takes out exactly the element at `k`. */
  lemma SwapRemoveMultiset<T>(s: seq<T>, k: int)
    requires 0 <= k < |s|
    ensures multiset(SwapRemove(s, k)) + multiset{s[k]} == multiset(s)
  {
    var n := |s| - 1;
    if k == n {
      assert s == s[..n] + [s[n]];
    } else {
      var a, b := s[..k], s[k + 1..n];
      assert s == a + [s[k]] + b + [s[n]];
      assert SwapRemove(s, k) == a + [s[n]] + b;
    }
  }

  /** Every other element keeps its slot, except the last, which moves
      into slot `k`. */
  lemma SwapRemoveSlots<T>(s: seq<T>, k: int, i: int)
    requires 0 <= k < |s| && 0 <= i < |s| - 1
    ensures SwapRemove(s, k)[i] == (if i == k then s[|s| - 1] else s[i])
  {
  }

  /** A swap-remove takes out exactly the units of the stack at `k`. */
  lemma {:induction false} TotalUnitsSwapRemove(s: seq<Thing>, k: int)
    requires 0 <= k < |s|
    ensures TotalUnits(SwapRemove(s, k)) == TotalUnits(s) - s[k].stackCount
  {
    var n := |s| - 1;
    var rest := SwapRemove(s, k);
    if k < n {
      var u := s[k := s[n]];
      TotalUnitsUpdate(s, k, s[n]);
      assert u[..n] == rest;
      assert TotalUnits(u) == TotalUnits(rest) + s[n].stackCount;
    } else {
      assert rest == s[..n];
      assert TotalUnits(s) == TotalUnits(rest) + s[n].stackCount;
    }
  }

  /** The index after removing the thing at slot `k`: its entry dropped
      (the def too, when that leaves it empty), then the last stack's entry
      moved to `k`. */
  function IndexRemove(c: seq<Thing>, index: Index, k: int): Index
    requires 0 <= k < |c| && c[k].ref.def in index
  {
    var r := c[k].ref;
    var m := index[r.def] - {r};
    var dropped := if |m| == 0 then index - {r.def} else index[r.def := m];
    var last := c[|c| - 1];
    if k != |c| - 1 && last.ref.def in dropped
    then dropped[last.ref.def := dropped[last.ref.def][last.ref := k]]
    else dropped
  }

  /** A swap-remove with its index update keeps the agreement. */
  lemma AgreeRemove(c: seq<Thing>, index: Index, k: int)
    requires Agree(c, index) && 0 <= k < |c|
    ensures c[k].ref.def in index
    ensures Agree(SwapRemove(c, k), IndexRemove(c, index, k))
  {
    RemoveKeepsSlots(c, index, k);
    RemoveKeepsEntries(c, index, k);
    RemoveKeepsNonEmpty(c, index, k);
  }

  /** After a swap-remove, the last stack's def is still indexed. */
  lemma LastStillIndexed(c: seq<Thing>, index: Index, k: int)
    requires Agree(c, index) && 0 <= k < |c| - 1
    ensures var r, m := c[k].ref, index[c[k].ref.def] - {c[k].ref};
            var dropped := if |m| == 0 then index - {r.def} else index[r.def := m];
            c[|c| - 1].ref.def in dropped && c[|c| - 1].ref in dropped[c[|c| - 1].ref.def]
  {
    AgreeDistinct(c, index, k, |c| - 1);
  }

  lemma RemoveKeepsSlots(c: seq<Thing>, index: Index, k: int)
    requires Agree(c, index) && 0 <= k < |c|
    ensures SlotsIndexed(SwapRemove(c, k), IndexRemove(c, index, k))
  {
    var n := |c| - 1;
    var c', index' := SwapRemove(c, k), IndexRemove(c, index, k);
    if k != n {
      LastStillIndexed(c, index, k);
    }
    forall i | 0 <= i < |c'|
      ensures c'[i].ref.def in index' && c'[i].ref in index'[c'[i].ref.def] && index'[c'[i].ref.def][c'[i].ref] == i
    {
      SwapRemoveSlots(c, k, i);
      if i != k {
        AgreeDistinct(c, index, i, k);
        if k != n {
          AgreeDistinct(c, index, i, n);
        }
      }
    }
  }

  /** Where an entry of the updated index comes from: the moved last
      stack now sits at `k`, every other entry is an old one. */
  lemma IndexRemoveEntry(c: seq<Thing>, index: Index, k: int, d: Def, q: ThingRef)
    requires Agree(c, index) && 0 <= k < |c| && c[k].ref.def in index
    requires d in IndexRemove(c, index, k) && q in IndexRemove(c, index, k)[d]
    ensures if k != |c| - 1 && q == c[|c| - 1].ref
            then IndexRemove(c, index, k)[d][q] == k
            else d in index && q in index[d] && q != c[k].ref && IndexRemove(c, index, k)[d][q] == index[d][q]
  {
    var n := |c| - 1;
    var r := c[k].ref;
    var m := index[r.def] - {r};
    var dropped := if |m| == 0 then index - {r.def} else index[r.def := m];
    if k != n {
      AgreeDistinct(c, index, k, n);
      LastStillIndexed(c, index, k);
      assert IndexRemove(c, index, k) == dropped[c[n].ref.def := dropped[c[n].ref.def][c[n].ref := k]];
      if q != c[n].ref {
        assert d in dropped && q in dropped[d];
      }
    } else {
      assert IndexRemove(c, index, k) == dropped;
    }
  }

  lemma RemoveKeepsEntries(c: seq<Thing>, index: Index, k: int)
    requires Agree(c, index) && 0 <= k < |c|
    ensures EntriesPoint(SwapRemove(c, k), IndexRemove(c, index, k))
  {
    var n := |c| - 1;
    assert c[k].ref.def in index;
    var c', index' := SwapRemove(c, k), IndexRemove(c, index, k);
    forall d: Def, q: ThingRef | d in index' && q in index'[d]
      ensures q.def == d && 0 <= index'[d][q] < |c'| && c'[index'[d][q]].ref == q
    {
      IndexRemoveEntry(c, index, k, d, q);
      if k != n && q == c[n].ref {
        SwapRemoveSlots(c, k, k);
      } else {
        var s := index[d][q];
        EntryAt(c, index, d, q);
        EntryAt(c, index, c[k].ref.def, c[k].ref);
        assert s != k && s != n;
        SwapRemoveSlots(c, k, s);
      }
    }
  }

  lemma RemoveKeepsNonEmpty(c: seq<Thing>, index: Index, k: int)
    requires Agree(c, index) && 0 <= k < |c|
    ensures NoEmptyDefs(IndexRemove(c, index, k))
  {
    var r := c[k].ref;
    var n := |c| - 1;
    var index' := IndexRemove(c, index, k);
    var m := index[r.def] - {r};
    if k != n {
      LastStillIndexed(c, index, k);
    }
    forall d | d in index' ensures index'[d] != map[] {
      if d == r.def && k != n && c[n].ref.def == d {
        assert c[n].ref in index'[d];
      } else if d == r.def {
        assert |m| != 0;
        var q :| q in m;
      }
    }
  }

  // ---------------------------------------------------------------
  // Merging and loading
  // ---------------------------------------------------------------

  /** Stack `s` can take `num` units of `t`: the things stack and the count
      stays within `int`. */
  predicate Mergeable(s: Thing, t: ThingRef, num: int)
  {
    IntMax - s.stackCount >= num && CanStackWith(s.ref, t)
  }

  /** The first slot whose stack can take the units, or -1. */
  function FirstMerge(c: seq<Thing>, t: ThingRef, num: int): (j: int)
    ensures -1 <= j < |c|
    ensures j >= 0 ==> Mergeable(c[j], t, num)
    ensures forall i :: 0 <= i < |c| && (j < 0 || i < j) ==> !Mergeable(c[i], t, num)
  {
    if c == [] then -1
    else if Mergeable(c[0], t, num) then 0
    else
      var j := FirstMerge(c[1..], t, num);
      if j < 0 then -1 else j + 1
  }

  /** What `PostLoadInit` throws away: null entries, minified things with
      nothing inside and corpses without a pawn. */
  predicate Keep(t: Option<Thing>)
  {
    t.Some? && t.value.kind != Minified(false) && !(t.value.kind.Corpse? && !t.value.kind.hasPawn)
  }

  /** `Container.RemoveAll(...)` on the loaded list (`??= []` for a missing
      list). */
  function Kept(loaded: seq<Option<Thing>>): (r: seq<Thing>)
    ensures |r| <= |loaded|
  {
    if loaded == [] then []
    else Kept(loaded[..|loaded| - 1]) + (if Keep(loaded[|loaded| - 1]) then [loaded[|loaded| - 1].value] else [])
  }

  /** The load keeps exactly the entries that pass the filter. */
  lemma {:induction false} KeptMembers(loaded: seq<Option<Thing>>, t: Thing)
    ensures t in Kept(loaded) <==> Some(t) in loaded && Keep(Some(t))
  {
    if loaded != [] {
      var init, x := loaded[..|loaded| - 1], loaded[|loaded| - 1];
      KeptMembers(init, t);
      assert loaded == init + [x];
    }
  }

  /** No thing occurs twice. */
  ghost predicate DistinctRefs(c: seq<Thing>)
  {
    forall i, j :: 0 <= i < j < |c| ==> c[i].ref != c[j].ref
  }

  /** Every stack is owned by drive `id` and its count fits an `int`. */
  ghost predicate HeldBy(c: seq<Thing>, id: int)
  {
    forall i :: 0 <= i < |c| ==> c[i].owner == Drive(id) && IsInt32(c[i].stackCount)
  }

  /** `c` is `c0` after an add: every old slot keeps its thing, with no
      fewer units, and at most one stack was appended, holding units, which
      is a piece with the engine id `freshId` or, when the whole thing was
      taken (`whole`), the thing `r` itself. */
  ghost predicate Grown(c0: seq<Thing>, c: seq<Thing>, r: ThingRef, freshId: int, whole: bool)
  {
    |c0| <= |c| <= |c0| + 1 &&
    (forall k :: 0 <= k < |c0| ==> c[k].ref == c0[k].ref && c[k].stackCount >= c0[k].stackCount) &&
    (|c| > |c0| ==> c[|c0|].stackCount > 0 && (c[|c0|].ref.id == freshId || (whole && c[|c0|].ref == r)))
  }

  /** What every drive refuses with -1: a def that is not an item, or a
      bugged corpse. */
  predicate Refused(t: Thing)
  {
    t.ref.def.category != Item || (t.kind.Corpse? && t.kind.bugged)
  }

  // ---------------------------------------------------------------
  // The drive
  // ---------------------------------------------------------------

  /** A storage drive's ledger.  `id` is the drive's identity as an owner
      of things; `policy` is its capacity policy. */
  class ItemStorage {
    const id: int
    const policy: DataFormat
    var Container: seq<Thing>
    var IndexTable: Index
    var Priority: int

    /** List and index agree, every stack belongs to this drive, and the
        policy's caches agree with the drive. */
    ghost predicate Valid()
      reads this`Container, this`IndexTable, policy, policy.props
    {
      Agree(Container, IndexTable) && HeldBy(Container, id) &&
      policy.Valid() && policy.Fresh(Container, IndexTable)
    }

    /** An empty drive. */
    constructor(id: int, policy: DataFormat, priority: int)
      requires policy.Valid() && policy.Fresh([], map[])
      ensures Valid() && Container == [] && IndexTable == map[]
      ensures this.id == id && this.policy == policy && Priority == priority
    {
      this.id := id;
      this.policy := policy;
      Container := [];
      IndexTable := map[];
      Priority := priority;
    }

    /** `Count`: the number of stacks. */
    function Count(): (n: nat)
      reads this
      ensures n == |Container|
    {
      |Container|
    }

    /** `IndexOf`: the slot of the thing, or -1 for no thing or an unknown
        one. */
    function IndexOf(item: Option<ThingRef>): (r: int)
      reads this
      ensures item.None? ==> r == -1
      ensures item.Some? ==> r == Slot(IndexTable, item.value)
    {
      if item.None? || item.value.def !in IndexTable then -1
      else if item.value in IndexTable[item.value.def] then IndexTable[item.value.def][item.value]
      else -1
    }

    /** `IndexOf` finds a thing exactly at the slot that holds it. */
    lemma IndexOfFinds(r: ThingRef, i: int)
      requires Valid()
      ensures IndexOf(Some(r)) == i && i >= 0 <==> 0 <= i < |Container| && Container[i].ref == r
    {
      IndexIff(Container, IndexTable, r, i);
    }

    /** `Contains(ThingDef)`: the def is indexed. */
    function Contains(def: Def): bool
      reads this
    {
      def in IndexTable
    }

    /** A def is contained exactly when some stack is of that def. */
    lemma ContainsIff(def: Def)
      requires Valid()
      ensures Contains(def) <==> exists i :: 0 <= i < |Container| && Container[i].ref.def == def
    {
      IndexedDefs(Container, IndexTable, def);
    }

    /** `GetCountCanAccept`: asks the policy. */
    method GetCountCanAccept(item: ThingRef) returns (n: int)
      requires Valid()
      modifies policy, policy.props
      ensures Valid() && n == policy.Answer(Container, IndexTable, item)
      ensures 0 <= n <= IntMax
    {
      n := policy.GetCountCanAccept(Container, IndexTable, item);
    }

    /** The merge scan of `TryAddItem`: the first stack that can take the
        units. */
    method FindMerge(t: ThingRef, num: int) returns (j: int)
      ensures j == FirstMerge(Container, t, num)
    {
      j := -1;
      var i := 0;
      while i < |Container| && j < 0
        invariant 0 <= i <= |Container|
        invariant j < 0 ==> forall k :: 0 <= k < i ==> !Mergeable(Container[k], t, num)
        invariant j >= 0 ==> j < i && Mergeable(Container[j], t, num) &&
                             forall k :: 0 <= k < j ==> !Mergeable(Container[k], t, num)
      {
        if Mergeable(Container[i], t, num) {
          j := i;
        }
        i := i + 1;
      }
      FirstMergeUnique(Container, t, num, j);
    }

    /** `TryAddItem`.  Rejects a missing item, a non-item def and a bugged
        corpse with -1; accepts nothing (0) when the policy has no room;
        returns the stack count for an item this drive already holds.
        Otherwise it
        splits off the accepted units and merges them into the first stack
        that can take them, or appends them as a new stack, and returns
        the count accepted.  `freshId` is the engine id a split-off piece
        gets.  `left` is the caller's thing afterwards.  The thing is
        unheld or held by this drive: the paths for a thing another holder
        has change that holder, which is not part of this drive. */
    method TryAddItem(item: Option<Thing>, freshId: int) returns (r: int, left: Option<Thing>)
      requires Valid()
      requires item.Some? ==> item.value.owner == Unowned || item.value.owner == Drive(id)
      requires item.Some? ==> IsInt32(item.value.stackCount) && item.value.ref.id != freshId
      requires item.Some? ==> forall i :: 0 <= i < |Container| && Container[i].ref == item.value.ref ==> Container[i] == item.value
      requires forall i :: 0 <= i < |Container| ==> Container[i].ref.id != freshId
      modifies this`Container, this`IndexTable, policy, policy.props
      ensures Valid() && Priority == old(Priority)
      ensures item.None? || item.value.ref.def.category != Item || (item.value.kind.Corpse? && item.value.kind.bugged)
              ==> r == -1 && Container == old(Container) && IndexTable == old(IndexTable) && left == item
      ensures item.Some? && item.value.ref.def.category == Item && !(item.value.kind.Corpse? && item.value.kind.bugged) ==>
              var t := item.value;
              var num := Min(policy.Answer(old(Container), old(IndexTable), t.ref), t.stackCount);
              (num <= 0 ==> r == 0 && Container == old(Container) && IndexTable == old(IndexTable) && left == item) &&
              (num > 0 && t.owner == Drive(id) ==> r == t.stackCount && Container == old(Container) && IndexTable == old(IndexTable)) &&
              (num > 0 && t.owner == Unowned ==>
                 r == num && Accepted(old(Container), old(IndexTable), t, num, freshId, left) &&
                 TotalUnits(Container) == TotalUnits(old(Container)) + num &&
                 Grown(old(Container), Container, t.ref, freshId, num == t.stackCount))
    {
      left := item;
      if item.None? {
        r := -1;
        return;
      }
      var t := item.value;
      if t.ref.def.category != Item {
        r := -1;
        return;
      }
      if t.kind.Corpse? && t.kind.bugged {
        r := -1;
        return;
      }
      var accept := GetCountCanAccept(t.ref);
      var num := Min(accept, t.stackCount);
      if num <= 0 {
        r := 0;
        return;
      }
      if t.owner != Unowned {
        r := t.stackCount;
        return;
      }
      OwnItemNotHeld(t);
      ghost var c0, index0 := Container, IndexTable;
      left := Accept(t, num, freshId);
      AcceptedUnits(c0, index0, t, num, freshId, left);
      AcceptedGrown(c0, index0, t, num, freshId, left);
      r := num;
    }

    /** `TryAddItem` for a thing no container holds, as a network sees
        it: refused with -1, or the drive takes as many units as it has
        room for, and the caller keeps the rest. */
    method TakeLoose(t: Thing, freshId: int) returns (r: int, left: Option<Thing>)
      requires Valid() && IsInt32(t.stackCount) && t.stackCount >= 0 && t.owner == Unowned && t.ref.id != freshId
      requires forall k :: 0 <= k < |Container| ==> Container[k].ref != t.ref && Container[k].ref.id != freshId
      modifies this`Container, this`IndexTable, policy, policy.props
      ensures Valid() && Priority == old(Priority)
      ensures Refused(t) ==> r == -1 && Container == old(Container)
      ensures !Refused(t) ==>
                r == Min(policy.Answer(old(Container), old(IndexTable), t.ref), t.stackCount) &&
                TotalUnits(Container) == TotalUnits(old(Container)) + r &&
                (r < t.stackCount ==> left == Some(t.(stackCount := t.stackCount - r)))
      ensures Grown(old(Container), Container, t.ref, freshId, r == t.stackCount)
    {
      policy.AnswerRange(Container, IndexTable, t.ref);
      r, left := TryAddItem(Some(t), freshId);
    }

    /** A thing not owned by this drive is not in it. */
    lemma OwnItemNotHeld(t: Thing)
      requires Valid() && t.owner != Drive(id)
      requires forall i :: 0 <= i < |Container| && Container[i].ref == t.ref ==> Container[i] == t
      ensures Slot(IndexTable, t.ref) == -1
    {
      if Slot(IndexTable, t.ref) >= 0 {
        IndexIff(Container, IndexTable, t.ref, Slot(IndexTable, t.ref));
      }
    }

    /** The drive after accepting `num` units of `t`: merged into the first
        stack that can take them, the index unchanged; or, when none can,
        the split-off piece appended as a new stack owned by this drive and
        indexed at the new last slot.  `left` is the caller's thing: what
        the split left of it, or, when the whole stack was taken, the
        emptied and destroyed thing after a merge or the stored stack after
        an append. */
    ghost predicate Accepted(c0: seq<Thing>, index0: Index, t: Thing, num: int, freshId: int, left: Option<Thing>)
      reads this
      requires num > 0
    {
      var split := SplitOff(t, num, freshId);
      var j := FirstMerge(c0, split.taken.ref, num);
      (j >= 0 ==>
         Container == c0[j := c0[j].(stackCount := c0[j].stackCount + num)] && IndexTable == index0 &&
         left == Some(if split.whole then Absorb(c0[j], split.taken).1 else split.rest)) &&
      (j < 0 ==>
         var stored := split.taken.(owner := Drive(id));
         Container == c0 + [stored] && IndexTable == IndexAdd(index0, stored.ref, |c0|) &&
         left == Some(if split.whole then stored else split.rest))
    }

    /** The insertion half of `TryAddItem`, from the split on. */
    method Accept(t: Thing, num: int, freshId: int) returns (left: Option<Thing>)
      requires Valid() && 0 < num <= t.stackCount && IsInt32(t.stackCount)
      requires Slot(IndexTable, t.ref) == -1 && t.ref.id != freshId
      requires forall i :: 0 <= i < |Container| ==> Container[i].ref.id != freshId
      modifies this`Container, this`IndexTable, policy
      ensures Valid() && Priority == old(Priority)
      ensures Accepted(old(Container), old(IndexTable), t, num, freshId, left)
    {
      var split := SplitOff(t, num, freshId);
      var other := split.taken;
      var j := FindMerge(other.ref, num);
      if j >= 0 {
        var merged := Absorb(Container[j], other);
        MergeInto(j, num);
        left := Some(if split.whole then merged.1 else split.rest);
      } else {
        other := other.(owner := Drive(id));
        if split.whole {
          assert other.ref == t.ref;
        } else {
          FreshNotIndexed(other.ref, freshId);
        }
        Append(other);
        left := Some(if split.whole then other else split.rest);
      }
    }

    /** The merge: `TryAbsorbStack` into the stack at slot `j`. */
    method MergeInto(j: int, n: int)
      requires Valid() && 0 <= j < |Container| && 0 < n <= IntMax - Container[j].stackCount
      modifies this`Container, this`IndexTable, policy
      ensures Valid() && Priority == old(Priority) && IndexTable == old(IndexTable)
      ensures Container == old(Container)[j := old(Container)[j].(stackCount := old(Container)[j].stackCount + n)]
    {
      MergeKeeps(Container, IndexTable, id, j, n);
      Store(Container[j := Container[j].(stackCount := Container[j].stackCount + n)], IndexTable);
    }

    /** The append: index the new stack at the next slot and add it. */
    method Append(t: Thing)
      requires Valid() && Slot(IndexTable, t.ref) == -1 && t.owner == Drive(id) && IsInt32(t.stackCount)
      modifies this`Container, this`IndexTable, policy
      ensures Valid() && Priority == old(Priority)
      ensures Container == old(Container) + [t] && IndexTable == IndexAdd(old(IndexTable), t.ref, |old(Container)|)
    {
      AppendKeeps(Container, IndexTable, id, t);
      Store(Container + [t], IndexAdd(IndexTable, t.ref, |Container|));
    }

    /** Replaces the list and the index and tells the policy (`OnAdd`,
        `OnRemove`). */
    method Store(c: seq<Thing>, index: Index)
      requires policy.Valid() && Agree(c, index) && HeldBy(c, id)
      modifies this`Container, this`IndexTable, policy
      ensures Valid() && Container == c && IndexTable == index && Priority == old(Priority)
    {
      Container, IndexTable := c, index;
      policy.OnChanged(c, index);
    }

    /** Accepting `num` units adds exactly `num` units to the drive and
        takes exactly `num` from the caller's thing when it is split. */
    lemma AcceptedUnits(c0: seq<Thing>, index0: Index, t: Thing, num: int, freshId: int, left: Option<Thing>)
      requires 0 < num <= t.stackCount && Accepted(c0, index0, t, num, freshId, left)
      ensures TotalUnits(Container) == TotalUnits(c0) + num
      ensures num < t.stackCount ==> left == Some(t.(stackCount := t.stackCount - num))
    {
      var split := SplitOff(t, num, freshId);
      assert split.taken.stackCount == num;
      var j := FirstMerge(c0, split.taken.ref, num);
      if j >= 0 {
        var merged := c0[j].(stackCount := c0[j].stackCount + num);
        assert Container == c0[j := merged];
        TotalUnitsUpdate(c0, j, merged);
      } else {
        var stored := split.taken.(owner := Drive(id));
        assert Container == c0 + [stored];
        TotalUnitsAppend(c0, stored);
      }
    }

    /** An accepted add grows the list as `Grown` says. */
    lemma AcceptedGrown(c0: seq<Thing>, index0: Index, t: Thing, num: int, freshId: int, left: Option<Thing>)
      requires 0 < num <= t.stackCount && Accepted(c0, index0, t, num, freshId, left)
      ensures Grown(c0, Container, t.ref, freshId, num == t.stackCount)
    {
      var split := SplitOff(t, num, freshId);
      var j := FirstMerge(c0, split.taken.ref, num);
      if j >= 0 {
        assert Container == c0[j := c0[j].(stackCount := c0[j].stackCount + num)];
      } else {
        assert Container == c0 + [split.taken.(owner := Drive(id))];
      }
    }

    /** `Remove`: fails for a missing or unknown thing; otherwise drops its
        index entry (and its def when that was the last thing of the def),
        moves the last stack into the freed slot, clears the thing's owner
        when it was this drive, and tells the policy.  `after` is the
        caller's thing afterwards. */
    method Remove(item: Option<Thing>) returns (ok: bool, after: Option<Thing>)
      requires Valid()
      modifies this`Container, this`IndexTable, policy
      ensures Valid() && Priority == old(Priority)
      ensures ok <==> item.Some? && Slot(old(IndexTable), item.value.ref) >= 0
      ensures !ok ==> Container == old(Container) && IndexTable == old(IndexTable) && after == item
      ensures ok ==>
                var k := Slot(old(IndexTable), item.value.ref);
                k < |old(Container)| && old(Container)[k].ref == item.value.ref &&
                Container == SwapRemove(old(Container), k) &&
                IndexTable == IndexRemove(old(Container), old(IndexTable), k) &&
                multiset(Container) + multiset{old(Container)[k]} == multiset(old(Container)) &&
                Slot(IndexTable, item.value.ref) == -1 &&
                after == Some(if item.value.owner == Drive(id) then item.value.(owner := Unowned) else item.value)
    {
      if item.Some? {
        IndexIff(Container, IndexTable, item.value.ref, Slot(IndexTable, item.value.ref));
      }
      if item.None? || |Container| == 0 || item.value.ref.def !in IndexTable
         || item.value.ref !in IndexTable[item.value.ref.def] {
        return false, item;
      }
      var t := item.value;
      var k := IndexTable[t.ref.def][t.ref];
      after := if t.owner == Drive(id) then Some(t.(owner := Unowned)) else item;
      IndexIff(Container, IndexTable, t.ref, k);
      RemoveKeeps(Container, IndexTable, id, k);
      SwapRemoveMultiset(Container, k);
      Store(SwapRemove(Container, k), IndexRemove(Container, IndexTable, k));
      ok := true;
    }

    /** The load half of `ExposeData`: keeps the stacks that pass `Keep`,
        claims each for this drive and indexes it at its slot.  The load
        path as written tells the policy nothing, so a byte policy keeps
        its initial total of 0 (see `StaleAfterLoad`); the model lets the
        policy refresh, as the corrected `OnChanged` does after every
        change.  `Dictionary.Add` throws on a thing loaded twice, so the
        kept things are required to be distinct. */
    method PostLoadInit(loaded: Option<seq<Option<Thing>>>)
      requires policy.Valid() && IndexTable == map[]
      requires var kept := Kept(if loaded.None? then [] else loaded.value);
               DistinctRefs(kept) && forall i :: 0 <= i < |kept| ==> IsInt32(kept[i].stackCount)
      modifies this`Container, this`IndexTable, policy
      ensures Valid() && Priority == old(Priority)
      ensures var kept := Kept(if loaded.None? then [] else loaded.value);
              |Container| == |kept| &&
              forall i :: 0 <= i < |kept| ==> Container[i] == kept[i].(owner := Drive(id))
    {
      var kept := Kept(if loaded.None? then [] else loaded.value);
      var c, index := Claim(kept, id, IndexTable);
      Store(c, index);
    }

    /** `TryAdd(item, count)`: splits off what the drive can take of
        `count` and adds that.  When nothing can be taken it returns 0
        without splitting; as written it asks the engine to split off a
        count of 0, which the engine refuses (see `SplitCount`). */
    method TryAddCount(item: Thing, count: int, freshId: int) returns (r: int, left: Option<Thing>)
      requires Valid() && IsInt32(item.stackCount) && item.owner == Unowned && Slot(IndexTable, item.ref) == -1
      requires item.ref.id != freshId && item.ref.id != freshId + 1
      requires forall i :: 0 <= i < |Container| ==> Container[i].ref.id != freshId && Container[i].ref.id != freshId + 1
      modifies this`Container, this`IndexTable, policy, policy.props
      ensures Valid() && Priority == old(Priority)
      ensures var n := SplitCount(item.stackCount, count, policy.Answer(old(Container), old(IndexTable), item.ref));
              (n <= 0 ==> r == 0 && Container == old(Container) && IndexTable == old(IndexTable) && left == Some(item)) &&
              (n > 0 && (item.ref.def.category != Item || (item.kind.Corpse? && item.kind.bugged)) ==>
                 r == -1 && Container == old(Container) && IndexTable == old(IndexTable)) &&
              (n > 0 && item.ref.def.category == Item && !(item.kind.Corpse? && item.kind.bugged) ==>
                 r == n && TotalUnits(Container) == TotalUnits(old(Container)) + n)
    {
      var accept := GetCountCanAccept(item.ref);
      var n := SplitCount(item.stackCount, count, accept);
      if n <= 0 {
        return 0, Some(item);
      }
      var split := SplitOff(item, n, freshId);
      NotHeld(split.taken, item);
      policy.AnswerByKind(Container, IndexTable, split.taken.ref, item.ref);
      r, left := TryAddItem(Some(split.taken), split.nextId);
      if !split.whole {
        left := Some(split.rest);
      }
    }

    /** The split-off piece is not in the drive. */
    lemma NotHeld(taken: Thing, item: Thing)
      requires Agree(Container, IndexTable) && Slot(IndexTable, item.ref) == -1
      requires taken.ref == item.ref || Slot(IndexTable, taken.ref) == -1
      ensures forall i :: 0 <= i < |Container| && Container[i].ref == taken.ref ==> Container[i] == taken
    {
      forall i | 0 <= i < |Container| && Container[i].ref == taken.ref ensures false {
        IndexIff(Container, IndexTable, taken.ref, i);
      }
    }

    /** `TryAdd(item)`: whether any unit was taken.  A thing this drive
        holds already counts as taken when the drive has room for it. */
    method TryAdd(item: Thing, freshId: int) returns (added: bool, left: Option<Thing>)
      requires Valid() && IsInt32(item.stackCount) && item.ref.id != freshId
      requires item.owner == Unowned || item.owner == Drive(id)
      requires forall i :: 0 <= i < |Container| && Container[i].ref == item.ref ==> Container[i] == item
      requires forall i :: 0 <= i < |Container| ==> Container[i].ref.id != freshId
      modifies this`Container, this`IndexTable, policy, policy.props
      ensures Valid() && Priority == old(Priority)
      ensures added <==> !Refused(item) && Min(policy.Answer(old(Container), old(IndexTable), item.ref), item.stackCount) > 0
      ensures added && item.owner == Unowned ==> TotalUnits(Container) > TotalUnits(old(Container))
      ensures !added ==> Container == old(Container) && IndexTable == old(IndexTable)
    {
      var r;
      r, left := TryAddItem(Some(item), freshId);
      added := r > 0;
    }

    /** A piece with a fresh id is not indexed. */
    lemma FreshNotIndexed(r: ThingRef, freshId: int)
      requires Agree(Container, IndexTable) && r.id == freshId
      requires forall i :: 0 <= i < |Container| ==> Container[i].ref.id != freshId
      ensures Slot(IndexTable, r) == -1
    {
      if Slot(IndexTable, r) >= 0 {
        IndexIff(Container, IndexTable, r, Slot(IndexTable, r));
      }
    }
  }

  /** The scan result is the first mergeable slot. */
  lemma FirstMergeUnique(c: seq<Thing>, t: ThingRef, num: int, j: int)
    requires -1 <= j < |c|
    requires j < 0 ==> forall k :: 0 <= k < |c| ==> !Mergeable(c[k], t, num)
    requires j >= 0 ==> Mergeable(c[j], t, num) && forall k :: 0 <= k < j ==> !Mergeable(c[k], t, num)
    ensures j == FirstMerge(c, t, num)
  {
  }

  /** Adding units to one stack keeps the drive's invariant. */
  lemma MergeKeeps(c: seq<Thing>, index: Index, id: int, j: int, n: int)
    requires Agree(c, index) && HeldBy(c, id) && 0 <= j < |c| && 0 < n <= IntMax - c[j].stackCount
    ensures Agree(c[j := c[j].(stackCount := c[j].stackCount + n)], index)
    ensures HeldBy(c[j := c[j].(stackCount := c[j].stackCount + n)], id)
  {
    AgreeUpdate(c, index, j, c[j].(stackCount := c[j].stackCount + n));
  }

  /** Appending an unindexed stack of this drive keeps the invariant. */
  lemma AppendKeeps(c: seq<Thing>, index: Index, id: int, t: Thing)
    requires Agree(c, index) && HeldBy(c, id) && Slot(index, t.ref) == -1
    requires t.owner == Drive(id) && IsInt32(t.stackCount)
    ensures Agree(c + [t], IndexAdd(index, t.ref, |c|)) && HeldBy(c + [t], id)
  {
    AgreeAppend(c, index, t);
  }

  /** Removing a slot keeps the drive's invariant. */
  lemma RemoveKeeps(c: seq<Thing>, index: Index, id: int, k: int)
    requires Agree(c, index) && HeldBy(c, id) && 0 <= k < |c|
    ensures c[k].ref.def in index
    ensures Agree(SwapRemove(c, k), IndexRemove(c, index, k)) && HeldBy(SwapRemove(c, k), id)
    ensures Slot(IndexRemove(c, index, k), c[k].ref) == -1
  {
    AgreeRemove(c, index, k);
    var c', index' := SwapRemove(c, k), IndexRemove(c, index, k);
    forall i | 0 <= i < |c'| ensures c'[i].owner == Drive(id) && IsInt32(c'[i].stackCount) {
      SwapRemoveSlots(c, k, i);
    }
    var s := Slot(index', c[k].ref);
    if s >= 0 {
      IndexIff(c', index', c[k].ref, s);
      SwapRemoveSlots(c, k, s);
      AgreeDistinct(c, index, k, if s == k then |c| - 1 else s);
    }
  }

  /** A kept thing not yet reached by the load loop is not indexed yet. */
  lemma LoadedNotIndexed(kept: seq<Thing>, done: seq<Thing>, index: Index, i: int)
    requires DistinctRefs(kept) && 0 <= i < |kept| && |done| == i && Agree(done, index)
    requires forall j :: 0 <= j < i ==> done[j].ref == kept[j].ref
    ensures Slot(index, kept[i].ref) == -1
  {
    IndexIff(done, index, kept[i].ref, Slot(index, kept[i].ref));
  }

  /** `count2` of `TryAdd(item, count)`: the units asked for, capped by the
      stack and by what the drive accepts. */
  function SplitCount(stackCount: int, count: int, accept: int): (n: int)
    ensures n <= stackCount && n <= count && n <= accept
    ensures n == stackCount || n == count || n == accept
  {
    Min(accept, Min(stackCount, count))
  }

  /** As written, a full drive (or a request for 0 units) makes `TryAdd`
      split off 0 units, which the engine refuses with an exception: the
      count is outside `SplitOff`'s domain. */
  lemma SplitCountZero(stackCount: int, count: int)
    requires stackCount > 0 && count > 0
    ensures SplitCount(stackCount, count, 0) == 0
    ensures SplitCount(stackCount, 0, IntMax) <= 0
  {
  }

  /** The loop of the load: claims every kept stack for drive `id` and
      adds it to the (empty) index at its slot. */
  method Claim(kept: seq<Thing>, id: int, index0: Index) returns (c: seq<Thing>, index: Index)
    requires DistinctRefs(kept) && index0 == map[]
    requires forall i :: 0 <= i < |kept| ==> IsInt32(kept[i].stackCount)
    ensures Agree(c, index) && HeldBy(c, id)
    ensures |c| == |kept| && forall i :: 0 <= i < |kept| ==> c[i] == kept[i].(owner := Drive(id))
  {
    c := kept;
    index := index0;
    var i := 0;
    while i < |c|
      invariant 0 <= i <= |c| == |kept|
      invariant forall j :: 0 <= j < i ==> c[j] == kept[j].(owner := Drive(id))
      invariant forall j :: i <= j < |c| ==> c[j] == kept[j]
      invariant Agree(c[..i], index)
    {
      var thing := c[i].(owner := Drive(id));
      c := c[i := thing];
      LoadedNotIndexed(kept, c[..i], index, i);
      AgreeAppend(c[..i], index, thing);
      index := IndexAdd(index, thing.ref, i);
      assert c[..i + 1] == c[..i] + [thing];
      i := i + 1;
    }
    assert c[..i] == c;
  }
}
