/** The storage half of `LocalNetwork`: the drives connected to a network,
    kept as a set `Storages` and as a list `SortedStorages` by descending
    priority, and the operations that fan out over them (insert, room,
    count, membership).  The backends modelled are storage drives
    (`ItemStorage`); the external storage connector is not part of this
    model. */
module Routing {
  import opened Things
  import opened SortedLists
  import opened Policies
  import opened Ledger

  /** What `Connect` may be handed: a drive, or another network (an
      `IItemInterface` too). */
  datatype Backend = DriveBackend(drive: ItemStorage) | NetworkBackend(network: StorageNetwork)

  /** The priorities of a list of drives, in list order. */
  function PrioritiesOf(ds: seq<ItemStorage>): (r: seq<int>)
    reads ds`Priority
    ensures |r| == |ds| && forall i :: 0 <= i < |ds| ==> r[i] == ds[i].Priority
  {
    if ds == [] then [] else PrioritiesOf(ds[..|ds| - 1]) + [ds[|ds| - 1].Priority]
  }

  /** Units held by each drive of a list. */
  ghost function UnitsOf(ds: seq<ItemStorage>): (r: seq<int>)
    reads ds
    ensures |r| == |ds|
  {
    if ds == [] then [] else UnitsOf(ds[..|ds| - 1]) + [TotalUnits(ds[|ds| - 1].Container)]
  }

  lemma {:induction false} UnitsOfAt(ds: seq<ItemStorage>, i: int)
    requires 0 <= i < |ds|
    ensures UnitsOf(ds)[i] == TotalUnits(ds[i].Container)
  {
    if i < |ds| - 1 {
      UnitsOfAt(ds[..|ds| - 1], i);
    }
  }

  /** The stacks of each drive of a list. */
  ghost function ContainersOf(ds: seq<ItemStorage>): (r: seq<seq<Thing>>)
    reads ds
    ensures |r| == |ds|
  {
    if ds == [] then [] else ContainersOf(ds[..|ds| - 1]) + [ds[|ds| - 1].Container]
  }

  lemma {:induction false} ContainersOfAt(ds: seq<ItemStorage>, i: int)
    requires 0 <= i < |ds|
    ensures ContainersOf(ds)[i] == ds[i].Container
  {
    if i < |ds| - 1 {
      ContainersOfAt(ds[..|ds| - 1], i);
    }
  }

  /** `ContainersOf` is the list of the drives' stacks. */
  lemma ContainersOfIs(ds: seq<ItemStorage>, cs: seq<seq<Thing>>)
    requires |cs| == |ds| && forall j :: 0 <= j < |ds| ==> ds[j].Container == cs[j]
    ensures ContainersOf(ds) == cs
  {
    forall j | 0 <= j < |ds| ensures ContainersOf(ds)[j] == cs[j] {
      ContainersOfAt(ds, j);
    }
  }

  /** Each drive's answer to `GetCountCanAccept(item)`, in list order. */
  ghost function AnswersOf(ds: seq<ItemStorage>, item: ThingRef): (r: seq<int>)
    reads ds
    ensures |r| == |ds|
  {
    if ds == [] then []
    else
      var d := ds[|ds| - 1];
      AnswersOf(ds[..|ds| - 1], item) + [d.policy.Answer(d.Container, d.IndexTable, item)]
  }

  lemma {:induction false} AnswersOfAt(ds: seq<ItemStorage>, item: ThingRef, i: int)
    requires 0 <= i < |ds|
    ensures AnswersOf(ds, item)[i] == ds[i].policy.Answer(ds[i].Container, ds[i].IndexTable, item)
  {
    if i < |ds| - 1 {
      AnswersOfAt(ds[..|ds| - 1], item, i);
    }
  }

  lemma AnswersOfAll(ds: seq<ItemStorage>, item: ThingRef)
    ensures forall j :: 0 <= j < |ds| ==>
              AnswersOf(ds, item)[j] == ds[j].policy.Answer(ds[j].Container, ds[j].IndexTable, item)
  {
    forall j | 0 <= j < |ds|
      ensures AnswersOf(ds, item)[j] == ds[j].policy.Answer(ds[j].Container, ds[j].IndexTable, item)
    {
      AnswersOfAt(ds, item, j);
    }
  }

  /** Stacks held by a set of drives. */
  ghost function StacksIn(s: set<ItemStorage>): int
    reads s
  {
    if s == {} then 0
    else
      var d :| d in s;
      StacksIn(s - {d}) + |d.Container|
  }

  /** The total does not depend on which drive is taken out first. */
  lemma {:induction false} StacksInRemove(s: set<ItemStorage>, d: ItemStorage)
    requires d in s
    ensures StacksIn(s) == StacksIn(s - {d}) + |d.Container|
    decreases |s|
  {
    var e :| e in s && StacksIn(s) == StacksIn(s - {e}) + |e.Container|;
    if e != d {
      var t := s - {d} - {e};
      assert s - {e} - {d} == t;
      StacksInRemove(s - {e}, d);
      StacksInRemove(s - {d}, e);
    }
  }

  lemma {:induction false} StacksInNonNegative(s: set<ItemStorage>)
    ensures StacksIn(s) >= 0
    decreases |s|
  {
    if s != {} {
      var d :| d in s && StacksIn(s) == StacksIn(s - {d}) + |d.Container|;
      StacksInNonNegative(s - {d});
    }
  }

  /** Inserting a new element keeps a list free of repeats. */
  lemma InsertDistinct<T>(s: seq<T>, k: int, x: T)
    requires Distinct(s) && 0 <= k <= |s| && x !in s
    ensures Distinct(InsertAt(s, k, x))
  {
    var r := InsertAt(s, k, x);
    forall i, j | 0 <= i < j < |r| ensures At(r, i) != At(r, j) {
      if i != k && j != k {
        var i' := if i < k then i else i - 1;
        var j' := if j < k then j else j - 1;
        DistinctAt(s, i', j');
      }
    }
  }

  /** `Min(sum, int.MaxValue)` of a list of non-negative counts, as the
      `long` accumulators of `GetCountCanAccept` and `Count` yield it. */
  function Saturated(total: int): int
  {
    Min(total, IntMax)
  }

  /** The objects of every drive are in `repr`. */
  ghost predicate Framed(s: set<ItemStorage>, repr: set<object>)
  {
    forall d :: d in s ==> d in repr && d.policy in repr && d.policy.props in repr
  }

  /** The set and the list hold the same drives. */
  ghost predicate SameDrives(s: set<ItemStorage>, ds: seq<ItemStorage>)
  {
    (forall d :: d in s ==> d in ds) && (forall i :: 0 <= i < |ds| ==> ds[i] in s)
  }

  /** By descending priority. */
  ghost predicate Ordered(ds: seq<ItemStorage>)
    reads ds`Priority
  {
    forall i, j :: 0 <= i < j < |ds| ==> ds[i].Priority >= ds[j].Priority
  }

  /** No two drives share a policy or its settings. */
  ghost predicate Disjoint(s: set<ItemStorage>)
  {
    forall d, e {:trigger Apart(d, e)} :: d in s && e in s && d != e ==> Apart(d, e)
  }

  /** Two drives share neither a policy nor its settings.  (A predicate of
      its own, so that `Disjoint` is used only for the pairs asked about.) */
  ghost predicate Apart(d: ItemStorage, e: ItemStorage)
  {
    d.policy != e.policy && d.policy.props != e.policy.props
  }

  lemma OrderedKeys(ds: seq<ItemStorage>)
    ensures Ordered(ds) <==> Descending(PrioritiesOf(ds))
  {
  }

  /** Taking a drive out keeps the list's shape. */
  lemma RemoveDriveKeeps(s: set<ItemStorage>, ds: seq<ItemStorage>, d: ItemStorage)
    requires SameDrives(s, ds) && Distinct(ds) && Ordered(ds) && d in s
    ensures SameDrives(s - {d}, RemoveFirst(ds, d)) && Distinct(RemoveFirst(ds, d)) && Ordered(RemoveFirst(ds, d))
  {
    RemoveFirstDistinct(ds, d);
    var r := RemoveFirst(ds, d);
    var k := IndexOf(ds, d);
    forall i, j | 0 <= i < j < |r| ensures r[i].Priority >= r[j].Priority {
      var i' := if i < k then i else i + 1;
      var j' := if j < k then j else j + 1;
      assert r[i] == ds[i'] && r[j] == ds[j'];
    }
    forall i | 0 <= i < |r| ensures r[i] in s - {d} {
      assert r[i] in r;
    }
  }

  /** Inserting a new drive where it fits keeps the list's shape. */
  lemma InsertDriveKeeps(s: set<ItemStorage>, ds: seq<ItemStorage>, k: int, d: ItemStorage)
    requires SameDrives(s, ds) && Distinct(ds) && Ordered(ds) && d !in s
    requires FitsAt(PrioritiesOf(ds), k, d.Priority)
    ensures SameDrives(s + {d}, InsertAt(ds, k, d)) && Distinct(InsertAt(ds, k, d)) && Ordered(InsertAt(ds, k, d))
  {
    InsertDistinct(ds, k, d);
    InsertSameDrives(s, ds, k, d);
    InsertOrdered(ds, k, d);
  }

  lemma InsertSameDrives(s: set<ItemStorage>, ds: seq<ItemStorage>, k: int, d: ItemStorage)
    requires SameDrives(s, ds) && 0 <= k <= |ds|
    ensures SameDrives(s + {d}, InsertAt(ds, k, d))
  {
    InsertAtMembers(ds, k, d);
    var r := InsertAt(ds, k, d);
    forall i | 0 <= i < |r| ensures r[i] in s + {d} {
      assert r[i] in r;
    }
  }

  lemma InsertOrdered(ds: seq<ItemStorage>, k: int, d: ItemStorage)
    requires Ordered(ds) && FitsAt(PrioritiesOf(ds), k, d.Priority)
    ensures Ordered(InsertAt(ds, k, d))
  {
    var r := InsertAt(ds, k, d);
    var keys := PrioritiesOf(ds);
    forall i, j | 0 <= i < j < |r| ensures r[i].Priority >= r[j].Priority {
      if j < k {
        assert r[i] == ds[i] && r[j] == ds[j];
      } else if j == k {
        assert r[i] == ds[i] && keys[i] >= d.Priority;
      } else if i < k {
        assert r[i] == ds[i] && r[j] == ds[j - 1] && keys[j - 1] <= d.Priority && keys[i] >= d.Priority;
      } else if i == k {
        assert r[j] == ds[j - 1] && keys[j - 1] <= d.Priority;
      } else {
        assert r[i] == ds[i - 1] && r[j] == ds[j - 1];
      }
    }
  }

  /** The shape the network keeps: the set and the list hold the same
      drives, the list once each and by descending priority; every drive
      is consistent, and no two drives share a policy or its settings.
      `repr` holds the drives, their policies and their settings. */
  ghost predicate Inv(s: set<ItemStorage>, ds: seq<ItemStorage>, repr: set<object>)
    reads ds`Priority
  {
    Framed(s, repr) && SameDrives(s, ds) && Distinct(ds) && Ordered(ds) && Disjoint(s)
  }

  /** Every drive of a list is consistent. */
  ghost predicate AllValid(ds: seq<ItemStorage>)
    reads ds, set d | d in ds :: d.policy, set d | d in ds :: d.policy.props
  {
    forall i :: 0 <= i < |ds| ==> ValidAt(ds, i)
  }

  /** The `i`-th drive of a list is consistent.  (A predicate of its own,
      so that the drives' consistency is unfolded only where it is
      asked for.) */
  ghost predicate ValidAt(ds: seq<ItemStorage>, i: int)
    requires 0 <= i < |ds|
    reads ds[i], ds[i].policy, ds[i].policy.props
  {
    ds[i].Valid()
  }

  /** When every drive either is consistent now or has had nothing it
      depends on changed, the list stays consistent. */
  twostate lemma AllValidKept(ds: seq<ItemStorage>)
    requires old(AllValid(ds))
    requires forall j :: 0 <= j < |ds| ==>
               (ds[j].Valid() ||
                (old(ds[j].Container) == ds[j].Container && old(ds[j].IndexTable) == ds[j].IndexTable &&
                 unchanged(ds[j].policy, ds[j].policy.props)))
    ensures AllValid(ds)
  {
    forall j | 0 <= j < |ds| ensures ValidAt(ds, j) {
      assert old(ValidAt(ds, j));
    }
  }

  /** Connecting a consistent drive with a policy of its own where its
      priority fits keeps the shape. */
  lemma InvAdd(s: set<ItemStorage>, ds: seq<ItemStorage>, repr: set<object>, k: int, d: ItemStorage)
    requires Inv(s, ds, repr) && d !in s
    requires forall e :: e in s ==> e.policy != d.policy && e.policy.props != d.policy.props
    requires FitsAt(PrioritiesOf(ds), k, d.Priority)
    ensures Inv(s + {d}, InsertAt(ds, k, d), repr + {d, d.policy, d.policy.props})
  {
    InsertDriveKeeps(s, ds, k, d);
    var repr' := repr + {d, d.policy, d.policy.props};
    assert Framed(s + {d}, repr');
    assert Disjoint(s + {d});
  }

  /** Drives of the list other than the `i`-th share neither its policy
      nor its settings. */
  lemma PoliciesApart(s: set<ItemStorage>, ds: seq<ItemStorage>, repr: set<object>, i: int)
    requires Inv(s, ds, repr) && 0 <= i < |ds|
    ensures forall j :: 0 <= j < |ds| && j != i ==>
              ds[j] != ds[i] && ds[j].policy != ds[i].policy && ds[j].policy.props != ds[i].policy.props
  {
    forall j | 0 <= j < |ds| && j != i
      ensures ds[j] != ds[i] && ds[j].policy != ds[i].policy && ds[j].policy.props != ds[i].policy.props
    {
      DistinctAt(ds, i, j);
      assert Apart(ds[j], ds[i]);
    }
  }

  /** Disconnecting a drive keeps the shape. */
  lemma InvRemove(s: set<ItemStorage>, ds: seq<ItemStorage>, repr: set<object>, d: ItemStorage)
    requires Inv(s, ds, repr) && d in s
    ensures Inv(s - {d}, RemoveFirst(ds, d), repr)
  {
    RemoveDriveKeeps(s, ds, d);
  }

  /** The storage half of the network. */
  class StorageNetwork {
    var Storages: set<ItemStorage>
    var SortedStorages: seq<ItemStorage>
    /** The drives, their policies and their policies' settings. */
    ghost var Repr: set<object>

    /** The shape of the two collections (see `Inv`). */
    ghost predicate Valid()
      reads this, SortedStorages`Priority
    {
      this !in Repr && Inv(Storages, SortedStorages, Repr)
    }

    /** Every connected drive is consistent. */
    ghost predicate DrivesValid()
      reads this, SortedStorages, set d | d in SortedStorages :: d.policy, set d | d in SortedStorages :: d.policy.props
    {
      AllValid(SortedStorages)
    }

    /** An empty network. */
    constructor()
      ensures Valid() && DrivesValid() && Storages == {} && SortedStorages == []
    {
      Storages := {};
      SortedStorages := [];
      Repr := {};
    }

    /** `Connect(IItemInterface)`: a drive new to the network is added to
        the set and inserted into the list at the place the binary search
        by priority reports; a drive already connected and another network
        are left out (the code as written adds a network to the set but
        not to the list; see `ConnectAsWritten`). */
    method Connect(b: Backend) returns (ghost k: int)
      requires Valid()
      requires b.DriveBackend? && b.drive !in Storages ==>
                 forall e :: e in Storages ==> e.policy != b.drive.policy && e.policy.props != b.drive.policy.props
      modifies this
      ensures Valid() && Repr == old(Repr) + (if b.DriveBackend? && b.drive !in old(Storages) then {b.drive, b.drive.policy, b.drive.policy.props} else {})
      ensures b.NetworkBackend? || b.drive in old(Storages) ==>
                Storages == old(Storages) && SortedStorages == old(SortedStorages)
      ensures b.DriveBackend? && b.drive !in old(Storages) ==>
                Storages == old(Storages) + {b.drive} &&
                FitsAt(old(PrioritiesOf(SortedStorages)), k, b.drive.Priority) &&
                SortedStorages == InsertAt(old(SortedStorages), k, b.drive)
    {
      k := 0;
      if b.NetworkBackend? || b.drive in Storages {
        return;
      }
      var d := b.drive;
      var at := Place(d.Priority);
      k := at;
      InvAdd(Storages, SortedStorages, Repr, at, d);
      Storages := Storages + {d};
      SortedStorages := InsertAt(SortedStorages, at, d);
      Repr := Repr + {d, d.policy, d.policy.props};
    }

    /** The place `List<T>.BinarySearch` reports for a priority. */
    method Place(priority: int) returns (at: int)
      requires Valid()
      ensures FitsAt(PrioritiesOf(SortedStorages), at, priority)
    {
      var keys := PrioritiesOf(SortedStorages);
      OrderedKeys(SortedStorages);
      var r := BinarySearch(keys, priority);
      at := InsertionIndex(r);
    }

    /** `Disconnect(IItemInterface)`: removes the drive from the set and,
        when that succeeds, from the list. */
    method Disconnect(d: ItemStorage) returns (ok: bool)
      requires Valid()
      modifies this
      ensures Valid() && Repr == old(Repr)
      ensures ok == (d in old(Storages))
      ensures Storages == old(Storages) - {d} && SortedStorages == RemoveFirst(old(SortedStorages), d)
    {
      if d !in Storages {
        return false;
      }
      InvRemove(Storages, SortedStorages, Repr, d);
      Storages := Storages - {d};
      SortedStorages := RemoveFirst(SortedStorages, d);
      ok := true;
    }

    /** `ContainsStorage`: membership in the set (the source logs an error
        when set and list disagree, which `Valid` rules out). */
    function ContainsStorage(d: ItemStorage): (b: bool)
      reads this
    {
      d in Storages
    }

    /** The set and the list never disagree about a drive. */
    lemma ContainsStorageAgrees(d: ItemStorage)
      requires Valid()
      ensures ContainsStorage(d) <==> d in SortedStorages
    {
    }

    /** `ChangeProperty(ItemStorage, priority)`: a connected drive is taken
        out, given its new priority and connected again, which places it
        by the new priority; an unconnected drive is left alone. */
    method ChangeProperty(d: ItemStorage, priority: int) returns (ghost k: int)
      requires Valid()
      modifies this, d`Priority
      ensures Valid() && Storages == old(Storages)
      ensures d in old(Storages) ==>
                d.Priority == priority && d in SortedStorages &&
                FitsAt(old(PrioritiesOf(RemoveFirst(SortedStorages, d))), k, priority) &&
                SortedStorages == InsertAt(RemoveFirst(old(SortedStorages), d), k, d)
      ensures d !in old(Storages) ==> SortedStorages == old(SortedStorages) && d.Priority == old(d.Priority)
    {
      k := 0;
      ghost var s := Storages;
      ghost var keys := PrioritiesOf(RemoveFirst(SortedStorages, d));
      RemoveFirstDistinct(SortedStorages, d);
      var ok := Disconnect(d);
      if ok {
        assert PrioritiesOf(SortedStorages) == keys;
        k := Reconnect(d, priority, s);
      }
    }

    /** The rest of `ChangeProperty` once `d` is disconnected: its priority
        is set and it is connected again at the place its new priority
        calls for. */
    method Reconnect(d: ItemStorage, priority: int, ghost s: set<ItemStorage>) returns (ghost k: int)
      requires Valid() && d in s && Disjoint(s) && Storages == s - {d}
      modifies this, d`Priority
      ensures Valid() && Storages == s && d.Priority == priority && d in SortedStorages
      ensures FitsAt(old(PrioritiesOf(SortedStorages)), k, priority) &&
              SortedStorages == InsertAt(old(SortedStorages), k, d)
    {
      ghost var keys := PrioritiesOf(SortedStorages);
      d.Priority := priority;
      assert PrioritiesOf(SortedStorages) == keys;
      ApartFromOthers(s, d);
      k := Connect(DriveBackend(d));
      InsertedMember(old(SortedStorages), d);
      PutBack(s, d);
    }

    /** `Count()`: the stacks of every connected drive, summed over the set
        and saturated at int.MaxValue. */
    method Count() returns (n: int)
      ensures n == Saturated(StacksIn(Storages))
    {
      var sum := 0;
      var rest := Storages;
      while rest != {}
        invariant rest <= Storages && 0 <= sum <= IntMax
        invariant StacksIn(Storages) == StacksIn(rest) + sum
        decreases |rest|
      {
        var d :| d in rest;
        StacksInRemove(rest, d);
        sum := sum + d.Count();
        if sum > IntMax {
          StacksInNonNegative(rest - {d});
          return IntMax;
        }
        rest := rest - {d};
      }
      n := sum;
    }

    /** `answers` holds each drive's answer to `item`, as its policy gives
        it for the drive as it now is.  (The quantifier is instantiated
        only where a proof names `At(answers, j)`.) */
    ghost predicate Answers(item: ThingRef, answers: seq<int>)
      reads this, SortedStorages
    {
      |answers| == |SortedStorages| &&
      forall j {:trigger At(answers, j)} :: 0 <= j < |SortedStorages| ==>
        At(answers, j) == SortedStorages[j].policy.Answer(SortedStorages[j].Container, SortedStorages[j].IndexTable, item)
    }

    /** The answers are those of `AnswersOf`, and each is in range. */
    lemma AnswersHold(item: ThingRef) returns (answers: seq<int>)
      ensures Answers(item, answers)
      ensures forall j :: 0 <= j < |answers| ==> 0 <= answers[j] <= IntMax
    {
      answers := AnswersOf(SortedStorages, item);
      AnswersInRange(SortedStorages, item);
      forall j | 0 <= j < |SortedStorages|
        ensures At(answers, j) == SortedStorages[j].policy.Answer(SortedStorages[j].Container, SortedStorages[j].IndexTable, item)
      {
        AnswersOfAt(SortedStorages, item, j);
      }
    }

    /** Only one list of answers fits. */
    lemma AnswersUnique(item: ThingRef, answers: seq<int>)
      requires Answers(item, answers)
      ensures answers == AnswersOf(SortedStorages, item)
    {
      var r := AnswersOf(SortedStorages, item);
      forall j | 0 <= j < |answers| ensures answers[j] == r[j] {
        AnswersOfAt(SortedStorages, item, j);
        assert At(answers, j) == answers[j];
      }
    }

    /** One drive's answer: asking lets its policy refresh its caches,
        which no other drive shares, so no drive's answer changes. */
    method Ask(i: int, item: ThingRef, ghost answers: seq<int>) returns (a: int)
      requires Valid() && DrivesValid() && 0 <= i < |SortedStorages| && Answers(item, answers)
      modifies SortedStorages[i].policy, SortedStorages[i].policy.props
      ensures Valid() && DrivesValid() && Answers(item, answers)
      ensures a == answers[i] && 0 <= a <= IntMax
    {
      var d := SortedStorages[i];
      assert ValidAt(SortedStorages, i);
      PoliciesApart(Storages, SortedStorages, Repr, i);
      assert At(answers, i) == d.policy.Answer(d.Container, d.IndexTable, item);
      a := d.GetCountCanAccept(item);
      AllValidKept(SortedStorages);
    }

    /** Units held by each drive, in list order.  (The quantifier is
        instantiated only where a proof names `At(units, j)`.) */
    ghost predicate Units(units: seq<int>)
      reads this, SortedStorages
    {
      |units| == |SortedStorages| &&
      forall j {:trigger At(units, j)} :: 0 <= j < |SortedStorages| ==>
        At(units, j) == TotalUnits(SortedStorages[j].Container)
    }

    /** Units held by the whole network. */
    ghost function Stored(): int
      reads this, SortedStorages
    {
      Sum(UnitsOf(SortedStorages))
    }

    lemma UnitsHold() returns (units: seq<int>)
      ensures Units(units) && Sum(units) == Stored()
    {
      units := UnitsOf(SortedStorages);
      forall j | 0 <= j < |SortedStorages| ensures At(units, j) == TotalUnits(SortedStorages[j].Container) {
        UnitsOfAt(SortedStorages, j);
      }
    }

    lemma UnitsSum(units: seq<int>)
      requires Units(units)
      ensures Sum(units) == Stored()
    {
      forall j | 0 <= j < |units| ensures units[j] == UnitsOf(SortedStorages)[j] {
        assert At(units, j) == units[j];
        UnitsOfAt(SortedStorages, j);
      }
      assert units == UnitsOf(SortedStorages);
    }

    /** Drives from `i` on have not been offered the thing `r` yet: each
        still gives the answer recorded for it, stores only things older
        than `nextId`, and does not hold `r`. */
    ghost predicate Untouched(i: int, r: ThingRef, nextId: int, answers: seq<int>)
      reads this, SortedStorages
    {
      |answers| == |SortedStorages| &&
      forall j {:trigger At(answers, j)} :: 0 <= j < |SortedStorages| && i <= j ==>
        At(answers, j) == SortedStorages[j].policy.Answer(SortedStorages[j].Container, SortedStorages[j].IndexTable, r) &&
        IdsBelow(SortedStorages[j].Container, nextId) && Lacks(SortedStorages[j].Container, r)
    }

    /** The `i`-th step of `TryAddItem`: the drive is offered what is left
        of the thing; a split-off piece gets the engine id `nextId + i`.
        Only that drive changes, so the later drives still give the
        answers recorded for them, and `Tracked` moves on by one drive
        from the stacks `before` the first offer. */
    method Offer(i: int, t: Thing, nextId: int, ghost answers: seq<int>, ghost units: seq<int>, ghost before: seq<seq<Thing>>)
      returns (r: int, left: Option<Thing>, ghost units': seq<int>)
      requires Valid() && DrivesValid() && 0 <= i < |SortedStorages|
      requires Tracked(before, i, t.ref, nextId, -1)
      requires Untouched(i, t.ref, nextId, answers) && Units(units)
      requires IsInt32(t.stackCount) && t.stackCount >= 0 && t.owner == Unowned && t.ref.id < nextId
      modifies {SortedStorages[i]}`Container, {SortedStorages[i]}`IndexTable, SortedStorages[i].policy, SortedStorages[i].policy.props
      ensures Valid() && DrivesValid() && Untouched(i + 1, t.ref, nextId, answers) && Units(units')
      ensures units' == units[i := units[i] + Gain(t, r)]
      ensures forall j :: 0 <= j < |SortedStorages| && j != i ==> old(SortedStorages[j].Container) == SortedStorages[j].Container
      ensures Tracked(before, i + 1, t.ref, nextId, if r == t.stackCount then i else -1)
      ensures Refused(t) ==> r == -1
      ensures !Refused(t) ==>
                r == Min(answers[i], t.stackCount) && (r < t.stackCount ==> left == Some(Rest(t, r)))
    {
      ReadyAt(i, t.ref, nextId, answers, units);
      r, left := OfferAt(i, t, nextId + i, answers[i], units[i]);
      units' := units[i := units[i] + Gain(t, r)];
      StepKept(Round(i, t.ref, nextId, answers, units, units'));
      TrackedKept(Track(before, i, t.ref, nextId, r == t.stackCount));
      if !Refused(t) && r < t.stackCount {
        RestOf(t, r, left);
      }
    }

    /** The drive at `i` is offered the thing; nothing else changes. */
    method OfferAt(i: int, t: Thing, freshId: int, ghost room: int, ghost held: int) returns (r: int, left: Option<Thing>)
      requires Valid() && DrivesValid() && 0 <= i < |SortedStorages|
      requires IsInt32(t.stackCount) && t.stackCount >= 0 && t.owner == Unowned && t.ref.id != freshId
      requires IdsBelow(SortedStorages[i].Container, freshId) && Lacks(SortedStorages[i].Container, t.ref)
      requires room == SortedStorages[i].policy.Answer(SortedStorages[i].Container, SortedStorages[i].IndexTable, t.ref)
      requires held == TotalUnits(SortedStorages[i].Container)
      modifies {SortedStorages[i]}`Container, {SortedStorages[i]}`IndexTable, SortedStorages[i].policy, SortedStorages[i].policy.props
      ensures Valid() && DrivesValid()
      ensures forall j :: 0 <= j < |SortedStorages| && j != i ==>
                old(SortedStorages[j].Container) == SortedStorages[j].Container &&
                old(SortedStorages[j].IndexTable) == SortedStorages[j].IndexTable
      ensures TotalUnits(SortedStorages[i].Container) == held + Gain(t, r)
      ensures Grown(old(SortedStorages[i].Container), SortedStorages[i].Container, t.ref, freshId, r == t.stackCount)
      ensures Refused(t) ==> r == -1
      ensures !Refused(t) ==>
                r == Min(room, t.stackCount) &&
                (r < t.stackCount ==> left == Some(t.(stackCount := t.stackCount - r)))
    {
      var d := SortedStorages[i];
      assert ValidAt(SortedStorages, i);
      PoliciesApart(Storages, SortedStorages, Repr, i);
      r, left := d.TakeLoose(t, freshId);
      AllValidKept(SortedStorages);
    }

    /** What the `i`-th offer needs to know about the drive at `i`. */
    lemma ReadyAt(i: int, r: ThingRef, nextId: int, answers: seq<int>, units: seq<int>)
      requires Untouched(i, r, nextId, answers) && Units(units) && 0 <= i < |SortedStorages| && r.id < nextId
      ensures answers[i] == SortedStorages[i].policy.Answer(SortedStorages[i].Container, SortedStorages[i].IndexTable, r)
      ensures units[i] == TotalUnits(SortedStorages[i].Container)
      ensures IdsBelow(SortedStorages[i].Container, nextId + i) && Lacks(SortedStorages[i].Container, r)
    {
      assert At(answers, i) == answers[i] && At(units, i) == units[i];
    }

    /** Before the first offer every drive is untouched. */
    lemma UntouchedAtStart(r: ThingRef, nextId: int, answers: seq<int>)
      requires Valid() && Answers(r, answers)
      requires forall d :: d in Storages ==> IdsBelow(d.Container, nextId) && Lacks(d.Container, r)
      ensures Untouched(0, r, nextId, answers)
    {
      forall j | 0 <= j < |SortedStorages|
        ensures At(answers, j) == SortedStorages[j].policy.Answer(SortedStorages[j].Container, SortedStorages[j].IndexTable, r)
        ensures IdsBelow(SortedStorages[j].Container, nextId) && Lacks(SortedStorages[j].Container, r)
      {
        assert SortedStorages[j] in Storages;
      }
    }

    /** `TryAddItem(item)`: the drives are offered the item in list order,
        each what the previous ones left of it, until as many units as the
        item had are taken; a split-off piece gets the next engine id.  A
        refused item is refused by every drive, each adding -1 to the
        result.  Otherwise every drive takes as much as it has room for,
        so the network takes the least of the total room and the stack.
        `answers` are the drives' answers before the call; the item is
        one no container holds, and `nextId` is above every engine id
        in use. */
    method TryAddItem(item: Thing, nextId: int)
      returns (added: int, left: Option<Thing>, ghost answers: seq<int>, ghost before: seq<seq<Thing>>, ghost w: int)
      requires Valid() && DrivesValid()
      requires IsInt32(item.stackCount) && item.stackCount >= 0 && item.owner == Unowned && item.ref.id < nextId
      requires forall d :: d in Storages ==> IdsBelow(d.Container, nextId) && Lacks(d.Container, item.ref)
      modifies Storages`Container, Storages`IndexTable, set d | d in Storages :: d.policy, set d | d in Storages :: d.policy.props
      ensures Valid() && DrivesValid() && old(Answers(item.ref, answers))
      ensures Refused(item) ==> added == -|SortedStorages| && Stored() == old(Stored()) && left == Some(item)
      ensures !Refused(item) ==>
                added == Min(Sum(answers), item.stackCount) && 0 <= added && Stored() == old(Stored()) + added &&
                (added < item.stackCount ==> left == Some(Rest(item, added)))
      ensures before == old(ContainersOf(SortedStorages))
      ensures forall j :: 0 <= j < |SortedStorages| ==>
                Grown(before[j], SortedStorages[j].Container, item.ref, nextId + j, j == w)
    {
      answers := AnswersHold(item.ref);
      ghost var units0 := UnitsHold();
      UntouchedAtStart(item.ref, nextId, answers);
      before := ContainersOf(SortedStorages);
      forall j | 0 <= j < |SortedStorages| ensures SortedStorages[j].Container == before[j] {
        ContainersOfAt(SortedStorages, j);
      }
      RestNone(item);
      assert Passing(item, nextId, answers, Sum(units0), before, 0, 0, Some(item), units0, -1);
      ghost var i, units;
      added, left, i, units, w := OfferInTurn(item, nextId, answers, Sum(units0), before, units0);
      TrackedEnd(before, i, item.ref, nextId, w);
      Done(item, nextId, answers, units, i, added, left, Sum(units0));
    }

    /** `AddItemOrOverflow(item, pos)`: the thing is routed as by
        `TryAddItem`; when the network did not take the whole stack and
        the caller's thing is still a live, non-empty stack, it is
        dropped on the map (the map and the position are not part of this
        model: the dropped thing is returned).  A thing that is not
        destroyed is never lost: every unit ends up stored or dropped. */
    method AddItemOrOverflow(item: Thing, nextId: int) returns (dropped: Option<Thing>, ghost answers: seq<int>)
      requires Valid() && DrivesValid()
      requires IsInt32(item.stackCount) && item.stackCount >= 0 && item.owner == Unowned && item.ref.id < nextId
      requires forall d :: d in Storages ==> IdsBelow(d.Container, nextId) && Lacks(d.Container, item.ref)
      modifies Storages`Container, Storages`IndexTable, set d | d in Storages :: d.policy, set d | d in Storages :: d.policy.props
      ensures Valid() && DrivesValid() && old(Answers(item.ref, answers))
      ensures dropped.Some? <==>
                !item.destroyed && item.stackCount > 0 && (Refused(item) || Sum(answers) < item.stackCount)
      ensures dropped.Some? ==> dropped.value.ref == item.ref && dropped.value.owner == Unowned
      ensures !item.destroyed ==> Stored() + UnitsIn(dropped) == old(Stored()) + item.stackCount
    {
      var total := item.stackCount;
      var added, left;
      ghost var before, w;
      added, left, answers, before, w := TryAddItem(item, nextId);
      dropped := None;
      if added != total && left.Some? && left.value.stackCount > 0 && !left.value.destroyed {
        dropped := left;
      }
    }

    /** `AutoOrganize`: from the last drive up to the second, each thing a
        drive holds when its turn comes is moved up when the drive before
        it in the list has room for it: the whole stack is split off and
        routed through the network again, where it may also be split over
        several drives or be refused.  The drives stay sound, engine ids
        are only handed out upwards, and the network never gains units. */
    method AutoOrganize(nextId: int) returns (next: int)
      requires Valid() && DrivesValid() && Sound(ContainersOf(SortedStorages), nextId)
      modifies Storages`Container, Storages`IndexTable, set d | d in Storages :: d.policy, set d | d in Storages :: d.policy.props
      ensures Valid() && DrivesValid() && Sound(ContainersOf(SortedStorages), next) && nextId <= next
      ensures Stored() <= old(Stored())
    {
      next := nextId;
      var storages := SortedStorages;
      var i := |storages| - 1;
      while i >= 1
        invariant -1 <= i < |SortedStorages|
        invariant Valid() && DrivesValid() && Sound(ContainersOf(SortedStorages), next) && nextId <= next
        invariant Stored() <= old(Stored())
      {
        var c := storages[i].Container;
        var refs := seq(|c|, k requires 0 <= k < |c| => c[k].ref);
        var n := 0;
        while n < |refs|
          invariant 0 <= n <= |refs|
          invariant Valid() && DrivesValid() && Sound(ContainersOf(SortedStorages), next) && nextId <= next
          invariant Stored() <= old(Stored())
        {
          var moved;
          ghost var x;
          moved, next, x := MoveUp(i, refs[n], next);
          n := n + 1;
        }
        i := i - 1;
      }
    }

    /** One thing of `AutoOrganize`: the thing `r` of drive `i` moves when
        drive `i - 1` answers that it has room for it.  Moving it takes all
        its units out of drive `i` (`x` is the stack it was); routing it
        again stores back between none and all of them.  (The thing is
        looked up by its identity; one drive `i` no longer holds is left
        alone.) */
    method MoveUp(i: int, r: ThingRef, nextId: int) returns (moved: bool, next: int, ghost x: Option<Thing>)
      requires Valid() && DrivesValid() && 0 < i < |SortedStorages|
      requires Sound(ContainersOf(SortedStorages), nextId)
      modifies Storages`Container, Storages`IndexTable, set d | d in Storages :: d.policy, set d | d in Storages :: d.policy.props
      ensures Valid() && DrivesValid() && Sound(ContainersOf(SortedStorages), next) && nextId <= next
      ensures moved <==>
                old(SortedStorages[i].IndexOf(Some(r))) >= 0 &&
                old(SortedStorages[i - 1].policy.Answer(SortedStorages[i - 1].Container, SortedStorages[i - 1].IndexTable, r)) > 0
      ensures !moved ==> next == nextId && Stored() == old(Stored())
      ensures moved ==>
                x.Some? && x.value.ref == r && x.value in old(SortedStorages[i].Container) &&
                old(Stored()) - x.value.stackCount <= Stored() <= old(Stored())
    {
      next, x := nextId, None;
      var d := SortedStorages[i];
      var k := d.IndexOf(Some(r));
      if k < 0 {
        return false, next, x;
      }
      assert ValidAt(SortedStorages, i);
      d.IndexOfFinds(r, k);
      var a := RoomAbove(i, r);
      if a <= 0 {
        return false, next, x;
      }
      x := Some(d.Container[k]);
      next := MoveOut(i, k, nextId);
      moved := true;
    }

    /** What drive `i - 1` answers for `r`; asking changes no stacks. */
    method RoomAbove(i: int, r: ThingRef) returns (a: int)
      requires Valid() && DrivesValid() && 0 < i < |SortedStorages|
      modifies SortedStorages[i - 1].policy, SortedStorages[i - 1].policy.props
      ensures Valid() && DrivesValid()
      ensures a == old(SortedStorages[i - 1].policy.Answer(SortedStorages[i - 1].Container, SortedStorages[i - 1].IndexTable, r))
      ensures ContainersOf(SortedStorages) == old(ContainersOf(SortedStorages)) && Stored() == old(Stored())
      ensures SortedStorages[i].Container == old(SortedStorages[i].Container)
    {
      ghost var room := SortedStorages[i - 1].policy.Answer(SortedStorages[i - 1].Container, SortedStorages[i - 1].IndexTable, r);
      ghost var answers := AnswersHold(r);
      assert At(answers, i - 1) == room;
      a := Ask(i - 1, r, answers);
    }

    /** The move itself: the stack at slot `k` of drive `i` is split off
        whole and routed again. */
    method MoveOut(i: int, k: int, nextId: int) returns (next: int)
      requires Valid() && DrivesValid() && 0 <= i < |SortedStorages| && 0 <= k < |SortedStorages[i].Container|
      requires Sound(ContainersOf(SortedStorages), nextId)
      modifies Storages`Container, Storages`IndexTable, set d | d in Storages :: d.policy, set d | d in Storages :: d.policy.props
      ensures Valid() && DrivesValid() && Sound(ContainersOf(SortedStorages), next) && nextId <= next
      ensures old(Stored()) - old(SortedStorages[i].Container[k].stackCount) <= Stored() <= old(Stored())
    {
      var t := TakeOut(i, k, nextId);
      next := Reroute(t, nextId);
    }

    /** `TryAddItem(thing)` with the result dropped, for a thing no drive
        holds: the network stores back between none and all of its
        units, and stays sound below the ids handed out. */
    method Reroute(t: Thing, nextId: int) returns (next: int)
      requires Valid() && DrivesValid() && Sound(ContainersOf(SortedStorages), nextId)
      requires IsInt32(t.stackCount) && t.stackCount >= 0 && t.owner == Unowned && t.ref.id < nextId
      requires forall e :: e in Storages ==> IdsBelow(e.Container, nextId) && Lacks(e.Container, t.ref)
      requires forall j :: 0 <= j < |SortedStorages| ==> Lacks(SortedStorages[j].Container, t.ref)
      modifies Storages`Container, Storages`IndexTable, set d | d in Storages :: d.policy, set d | d in Storages :: d.policy.props
      ensures Valid() && DrivesValid() && Sound(ContainersOf(SortedStorages), next) && nextId <= next
      ensures old(Stored()) <= Stored() <= old(Stored()) + t.stackCount
    {
      ghost var mid := ContainersOf(SortedStorages);
      forall j | 0 <= j < |mid| ensures Lacks(mid[j], t.ref) {
        ContainersOfAt(SortedStorages, j);
      }
      var added, left;
      ghost var answers, before, w;
      added, left, answers, before, w := TryAddItem(t, nextId);
      assert before == mid;
      next := nextId + |SortedStorages|;
      ghost var cs := ContainersOf(SortedStorages);
      assert next == nextId + |cs|;
      forall j | 0 <= j < |SortedStorages| ensures cs[j] == SortedStorages[j].Container {
        ContainersOfAt(SortedStorages, j);
      }
      SoundKept(before, cs, t.ref, nextId, w, next);
    }

    /** `item.SplitOff(item.stackCount)` on the stack at slot `k` of drive
        `i`: the engine takes the thing out through the drive's `Remove`
        and hands it over unheld.  No drive holds it afterwards. */
    method TakeOut(i: int, k: int, nextId: int) returns (t: Thing)
      requires Valid() && DrivesValid() && 0 <= i < |SortedStorages| && 0 <= k < |SortedStorages[i].Container|
      requires Sound(ContainersOf(SortedStorages), nextId)
      modifies {SortedStorages[i]}`Container, {SortedStorages[i]}`IndexTable, SortedStorages[i].policy
      ensures Valid() && DrivesValid() && Sound(ContainersOf(SortedStorages), nextId)
      ensures t == old(SortedStorages[i].Container[k]).(owner := Unowned)
      ensures IsInt32(t.stackCount) && t.stackCount > 0 && t.ref.id < nextId
      ensures forall e :: e in Storages ==> IdsBelow(e.Container, nextId) && Lacks(e.Container, t.ref)
      ensures forall j :: 0 <= j < |SortedStorages| ==> Lacks(SortedStorages[j].Container, t.ref)
      ensures Stored() == old(Stored()) - t.stackCount
    {
      ghost var cs, cs' := TakeOutSound(i, k, nextId);
      var held := RemoveAt(i, k);
      t := SplitOff(held, held.stackCount, nextId).taken;
      TakenOutAfter(cs', nextId, t.ref);
    }

    /** Once the drives hold `cs'`, where no drive holds `r`, they hold
        exactly those stacks and units. */
    lemma TakenOutAfter(cs': seq<seq<Thing>>, nextId: int, r: ThingRef)
      requires Valid() && |cs'| == |SortedStorages|
      requires forall j :: 0 <= j < |SortedStorages| ==> SortedStorages[j].Container == cs'[j]
      requires forall b :: 0 <= b < |cs'| ==> IdsBelow(cs'[b], nextId) && Lacks(cs'[b], r)
      ensures ContainersOf(SortedStorages) == cs' && Stored() == Sum(Totals(cs'))
      ensures forall e :: e in Storages ==> IdsBelow(e.Container, nextId) && Lacks(e.Container, r)
      ensures forall j :: 0 <= j < |SortedStorages| ==> Lacks(SortedStorages[j].Container, r)
    {
      ContainersOfIs(SortedStorages, cs');
      UnitsOfTotals(SortedStorages);
      forall e | e in Storages ensures IdsBelow(e.Container, nextId) && Lacks(e.Container, r) {
        var j :| 0 <= j < |SortedStorages| && SortedStorages[j] == e;
        assert e.Container == cs'[j];
      }
    }

    /** `TakenOut` on the drives' current stacks. */
    lemma TakeOutSound(i: int, k: int, nextId: int) returns (cs: seq<seq<Thing>>, cs': seq<seq<Thing>>)
      requires Valid() && DrivesValid() && 0 <= i < |SortedStorages| && 0 <= k < |SortedStorages[i].Container|
      requires Sound(ContainersOf(SortedStorages), nextId)
      ensures cs == ContainersOf(SortedStorages) && |cs| == |SortedStorages|
      ensures forall j :: 0 <= j < |SortedStorages| ==> cs[j] == SortedStorages[j].Container
      ensures cs[i][k].ref.id < nextId && cs[i][k].stackCount > 0 && IsInt32(cs[i][k].stackCount)
      ensures cs' == cs[i := SwapRemove(cs[i], k)] && Sound(cs', nextId)
      ensures forall b :: 0 <= b < |cs'| ==> IdsBelow(cs'[b], nextId) && Lacks(cs'[b], cs[i][k].ref)
      ensures Sum(Totals(cs')) == Stored() - cs[i][k].stackCount
    {
      var d := SortedStorages[i];
      assert ValidAt(SortedStorages, i);
      cs := ContainersOf(SortedStorages);
      forall j | 0 <= j < |SortedStorages| ensures cs[j] == SortedStorages[j].Container {
        ContainersOfAt(SortedStorages, j);
      }
      cs' := cs[i := SwapRemove(cs[i], k)];
      forall l | 0 <= l < |cs[i]| && l != k ensures cs[i][l].ref != cs[i][k].ref {
        AgreeDistinct(d.Container, d.IndexTable, l, k);
      }
      TakenOut(cs, nextId, i, k);
      UnitsOfTotals(SortedStorages);
    }

    /** The drive at `i` gives up the stack at slot `k` through its
        `Remove`, which clears the stack's holder; nothing else changes. */
    method RemoveAt(i: int, k: int) returns (t: Thing)
      requires Valid() && DrivesValid() && 0 <= i < |SortedStorages| && 0 <= k < |SortedStorages[i].Container|
      modifies {SortedStorages[i]}`Container, {SortedStorages[i]}`IndexTable, SortedStorages[i].policy
      ensures Valid() && DrivesValid()
      ensures forall j :: 0 <= j < |SortedStorages| && j != i ==> old(SortedStorages[j].Container) == SortedStorages[j].Container
      ensures SortedStorages[i].Container == SwapRemove(old(SortedStorages[i].Container), k)
      ensures t == old(SortedStorages[i].Container[k]).(owner := Unowned)
    {
      var d := SortedStorages[i];
      assert ValidAt(SortedStorages, i);
      PoliciesApart(Storages, SortedStorages, Repr, i);
      var x := d.Container[k];
      IndexIff(d.Container, d.IndexTable, x.ref, k);
      var ok, after := d.Remove(Some(x));
      AllValidKept(SortedStorages);
      t := after.value;
    }

    /** The loop of `TryAddItem`: the drives are offered the thing in list
        order until one takes the rest of the stack or none is left. */
    method OfferInTurn(item: Thing, nextId: int, ghost answers: seq<int>, ghost stored: int, ghost before: seq<seq<Thing>>,
                       ghost units0: seq<int>)
      returns (added: int, left: Option<Thing>, ghost n: int, ghost units: seq<int>, ghost w: int)
      requires IsInt32(item.stackCount) && item.stackCount >= 0 && item.owner == Unowned && item.ref.id < nextId
      requires Passing(item, nextId, answers, stored, before, 0, 0, Some(item), units0, -1)
      modifies SortedStorages`Container, SortedStorages`IndexTable, set d | d in SortedStorages :: d.policy,
               set d | d in SortedStorages :: d.policy.props
      ensures Passing(item, nextId, answers, stored, before, n, added, left, units, w)
      ensures n == |SortedStorages| || (0 < n && added >= item.stackCount)
    {
      units := units0;
      var total := item.stackCount;
      added := 0;
      left := Some(item);
      var i := 0;
      w := -1;
      while i < |SortedStorages| && (i == 0 || added < total)
        invariant Passing(item, nextId, answers, stored, before, i, added, left, units, w)
      {
        i, added, left, units, w := Step(item, nextId, i, added, left, answers, stored, before, units);
      }
      n := i;
    }

    /** What the loop of `TryAddItem` keeps from one drive to the next
        (`Offering`, `Tallied`, `Tracked`); only the drive that took the
        rest of the thing, which ends the loop, took it whole.  (Bound to
        a name, so that the verifier checks it as one fact.) */
    ghost predicate Passing(item: Thing, nextId: int, answers: seq<int>, stored: int, before: seq<seq<Thing>>,
                            i: int, added: int, left: Option<Thing>, units: seq<int>, w: int)
      reads this, SortedStorages, set d | d in SortedStorages :: d.policy, set d | d in SortedStorages :: d.policy.props
    {
      var kept := Offering(i, item.ref, nextId, answers, units) && Tallied(item, answers, units, i, added, left, stored) &&
                  Tracked(before, i, item.ref, nextId, w) && (w == -1 || (w == i - 1 && added >= item.stackCount));
      kept
    }

    /** When the loop of `TryAddItem` stops, the units the network stores
        grew by exactly the count taken. */
    lemma Done(item: Thing, nextId: int, answers: seq<int>, units: seq<int>, i: int, added: int,
               left: Option<Thing>, stored: int)
      requires Offering(i, item.ref, nextId, answers, units) && item.stackCount >= 0
      requires Tallied(item, answers, units, i, added, left, stored)
      requires i == |SortedStorages| || (0 < i && added >= item.stackCount)
      ensures Valid() && DrivesValid()
      ensures Refused(item) ==> added == -|SortedStorages| && Stored() == stored && left == Some(item)
      ensures !Refused(item) ==>
                added == Min(Sum(answers), item.stackCount) && 0 <= added && Stored() == stored + added &&
                (added < item.stackCount ==> left == Some(Rest(item, added)))
    {
      TallyDone(item, answers, units, i, added, left, stored);
      UnitsSum(units);
    }

    /** The state `TryAddItem` keeps from one drive to the next: the list is
        consistent, the drives from `i` on are as they were, and `units`
        counts what every drive holds now. */
    ghost predicate Offering(i: int, r: ThingRef, nextId: int, answers: seq<int>, units: seq<int>)
      reads this, SortedStorages, set d | d in SortedStorages :: d.policy, set d | d in SortedStorages :: d.policy.props
    {
      Valid() && DrivesValid() && 0 <= i <= |SortedStorages| && Untouched(i, r, nextId, answers) && Units(units)
    }

    /** One pass of the loop of `TryAddItem`: drive `i` is offered the
        caller's thing, less what the drives before it took. */
    method Step(item: Thing, nextId: int, i: int, added: int, left: Option<Thing>,
                ghost answers: seq<int>, ghost stored: int, ghost before: seq<seq<Thing>>, ghost units: seq<int>)
      returns (i': int, added': int, left': Option<Thing>, ghost units': seq<int>, ghost w: int)
      requires Passing(item, nextId, answers, stored, before, i, added, left, units, -1)
      requires i < |SortedStorages|
      requires IsInt32(item.stackCount) && item.stackCount >= 0 && item.owner == Unowned && item.ref.id < nextId
      modifies {SortedStorages[i]}`Container, {SortedStorages[i]}`IndexTable, SortedStorages[i].policy, SortedStorages[i].policy.props
      ensures i' == i + 1
      ensures Passing(item, nextId, answers, stored, before, i', added', left', units', w)
    {
      var r;
      var t := if Refused(item) then item else Rest(item, added);
      var l;
      r, l, units' := Offer(i, t, nextId, answers, units, before);
      w := if r == t.stackCount then i else -1;
      if Refused(item) {
        left' := left;
        SumUpdate(units, i, units[i]);
      } else {
        Tally(answers, units, i, item.stackCount, added, r, stored);
        RestRest(item, added, r);
        left' := l;
      }
      i', added' := i + 1, added + r;
    }

    /** After the drive at `round.at` was offered the thing and no other
        drive changed, the later drives are still untouched and only the
        offered drive's units moved.  (The round is one value because
        the verifier mishandles a two-state lemma of several
        parameters.) */
    twostate lemma StepKept(round: Round)
      requires old(Untouched(round.at, round.thing, round.nextId, round.answers)) && old(Units(round.units))
      requires old(SortedStorages) == SortedStorages && 0 <= round.at < |SortedStorages|
      requires forall j :: 0 <= j < |SortedStorages| && j != round.at ==>
                 old(SortedStorages[j].Container) == SortedStorages[j].Container &&
                 old(SortedStorages[j].IndexTable) == SortedStorages[j].IndexTable
      requires round.after == round.units[round.at := TotalUnits(SortedStorages[round.at].Container)]
      ensures Untouched(round.at + 1, round.thing, round.nextId, round.answers) && Units(round.after)
    {
      var i, r, answers := round.at, round.thing, round.answers;
      forall j | 0 <= j < |SortedStorages| && i + 1 <= j
        ensures At(answers, j) == SortedStorages[j].policy.Answer(SortedStorages[j].Container, SortedStorages[j].IndexTable, r)
        ensures IdsBelow(SortedStorages[j].Container, round.nextId) && Lacks(SortedStorages[j].Container, r)
      {
        assert old(At(answers, j) == SortedStorages[j].policy.Answer(SortedStorages[j].Container, SortedStorages[j].IndexTable, r));
      }
      var units' := round.after;
      forall j | 0 <= j < |SortedStorages| ensures At(units', j) == TotalUnits(SortedStorages[j].Container) {
        assert old(At(round.units, j) == TotalUnits(SortedStorages[j].Container));
      }
    }

    /** Where the drives stand once the first `i` were offered the thing
        `r` by `TryAddItem`: each of those grew from its stacks `before` as
        `Grown` says, only the drive `w` taking the thing itself, and the
        rest are as they were. */
    ghost predicate Tracked(before: seq<seq<Thing>>, i: int, r: ThingRef, nextId: int, w: int)
      reads this, SortedStorages
    {
      |before| == |SortedStorages| &&
      forall j {:trigger before[j]} :: 0 <= j < |SortedStorages| ==>
        (j < i ==> Grown(before[j], SortedStorages[j].Container, r, nextId + j, j == w)) &&
        (i <= j ==> SortedStorages[j].Container == before[j])
    }

    /** One offer moves `Tracked` on by one drive. */
    twostate lemma TrackedKept(track: Track)
      requires old(Tracked(track.before, track.at, track.thing, track.nextId, -1))
      requires old(SortedStorages) == SortedStorages && 0 <= track.at < |SortedStorages|
      requires forall j :: 0 <= j < |SortedStorages| && j != track.at ==>
                 old(SortedStorages[j].Container) == SortedStorages[j].Container
      requires Grown(old(SortedStorages[track.at].Container), SortedStorages[track.at].Container, track.thing,
                     track.nextId + track.at, track.whole)
      ensures Tracked(track.before, track.at + 1, track.thing, track.nextId, if track.whole then track.at else -1)
    {
      var i, w := track.at, if track.whole then track.at else -1;
      forall j | 0 <= j < |SortedStorages|
        ensures j < i + 1 ==> Grown(track.before[j], SortedStorages[j].Container, track.thing, track.nextId + j, j == w)
        ensures i + 1 <= j ==> SortedStorages[j].Container == track.before[j]
      {
        assert old(j < i ==> Grown(track.before[j], SortedStorages[j].Container, track.thing, track.nextId + j, j == -1));
        assert old(i <= j ==> SortedStorages[j].Container == track.before[j]);
      }
    }

    /** Once the offers stop, every drive grew as `Grown` says. */
    lemma TrackedEnd(before: seq<seq<Thing>>, n: int, r: ThingRef, nextId: int, w: int)
      requires Tracked(before, n, r, nextId, w)
      ensures forall j :: 0 <= j < |SortedStorages| ==>
                Grown(before[j], SortedStorages[j].Container, r, nextId + j, j == w)
    {
    }

    /** `GetCountCanAccept(item)`: each drive's answer, in list order,
        summed and saturated at int.MaxValue.  Asking lets a policy
        refresh its caches, so this changes the policies but not what they
        answer. */
    method GetCountCanAccept(item: ThingRef) returns (n: int, ghost answers: seq<int>)
      requires Valid() && DrivesValid()
      modifies set d | d in Storages :: d.policy, set d | d in Storages :: d.policy.props
      ensures Valid() && DrivesValid()
      ensures old(Answers(item, answers)) && n == Saturated(Sum(answers))
    {
      answers := AnswersHold(item);
      var sum := 0;
      var i := 0;
      while i < |SortedStorages|
        invariant 0 <= i <= |SortedStorages| && 0 <= sum <= IntMax
        invariant Valid() && DrivesValid() && Answers(item, answers)
        invariant sum == SumTo(answers, i)
      {
        var a := Ask(i, item, answers);
        SumToStep(answers, i);
        sum := sum + a;
        if sum > IntMax {
          SaturatedPast(answers, i + 1);
          return IntMax, answers;
        }
        i := i + 1;
      }
      SaturatedAll(answers);
      n := sum;
    }

    /** `Storages.Select(storage => storage.GetCountCanAccept(item))
        .Any(accepts => accepts > 0)`: the drives are asked in turn until
        one has room.  The source walks the set of drives; the answer does
        not depend on the order, and this walks the list.  Asking changes
        the policies' caches but not what they answer. */
    method AnyRoom(item: ThingRef) returns (b: bool, ghost answers: seq<int>)
      requires Valid() && DrivesValid()
      modifies set d | d in Storages :: d.policy, set d | d in Storages :: d.policy.props
      ensures Valid() && DrivesValid() && old(Answers(item, answers))
      ensures forall j :: 0 <= j < |answers| ==> 0 <= answers[j]
      ensures b <==> exists j :: 0 <= j < |answers| && answers[j] > 0
    {
      answers := AnswersHold(item);
      var i := 0;
      while i < |SortedStorages|
        invariant 0 <= i <= |SortedStorages|
        invariant Valid() && DrivesValid() && Answers(item, answers)
        invariant forall j :: 0 <= j < i ==> answers[j] <= 0
      {
        var a := Ask(i, item, answers);
        if a > 0 {
          return true, answers;
        }
        i := i + 1;
      }
      b := false;
    }

    /** `Contains(item)`: some connected drive, in list order, holds the
        thing (the engine's `ThingOwner.Contains` asks whether the thing's
        holder is that drive). */
    function Contains(item: Thing): (b: bool)
      reads this
      ensures b <==> exists j :: 0 <= j < |SortedStorages| && item.owner == Drive(SortedStorages[j].id)
    {
      AnyHolds(SortedStorages, item.owner)
    }

    /** Every stack a connected drive stores is reported as contained. */
    lemma ContainsStored(j: int, i: int)
      requires Valid() && DrivesValid() && 0 <= j < |SortedStorages| && 0 <= i < |SortedStorages[j].Container|
      ensures Contains(SortedStorages[j].Container[i])
    {
      assert ValidAt(SortedStorages, j);
    }
  }

  /** A round of `TryAddItem` before the drive at `at` is offered the
      thing `thing`: the engine id its first split-off piece would get
      is `nextId + at`, `answers` are the drives' answers before the
      round, `units` the units each drive holds before it, and `after`
      what they hold after it. */
  datatype Round = Round(at: int, thing: ThingRef, nextId: int, answers: seq<int>, units: seq<int>, after: seq<int>)

  /** One offer of `TryAddItem` as `Tracked` sees it: the stacks `before`
      the call, the drive offered (`at`), the thing, the engine id base,
      and whether the drive took the whole thing. */
  datatype Track = Track(before: seq<seq<Thing>>, at: int, thing: ThingRef, nextId: int, whole: bool)

  /** The units a drive gained from an offer answered `r`: nothing when
      the thing was refused. */
  function Gain(t: Thing, r: int): int
  {
    if Refused(t) then 0 else r
  }

  /** Every thing stored has an engine id below `nextId`. */
  ghost predicate IdsBelow(c: seq<Thing>, nextId: int)
  {
    forall k :: 0 <= k < |c| ==> c[k].ref.id < nextId
  }

  /** No stack is the thing `r`. */
  ghost predicate Lacks(c: seq<Thing>, r: ThingRef)
  {
    forall k :: 0 <= k < |c| ==> c[k].ref != r
  }

  /** The drives' stacks are sound: every stack holds units under an
      engine id below `nextId`, and no two drives hold the same thing.
      (Stated drive by drive and pair by pair, so that the verifier looks
      into a drive only where a proof names it.) */
  ghost predicate Sound(cs: seq<seq<Thing>>, nextId: int)
  {
    (forall a {:trigger StacksBelow(cs, a, nextId)} :: 0 <= a < |cs| ==> StacksBelow(cs, a, nextId)) &&
    (forall a, b {:trigger Separate(cs, a, b)} :: 0 <= a < |cs| && 0 <= b < |cs| && a != b ==> Separate(cs, a, b))
  }

  /** Every stack of drive `a` holds units under an engine id below
      `nextId`. */
  ghost predicate StacksBelow(cs: seq<seq<Thing>>, a: int, nextId: int)
    requires 0 <= a < |cs|
  {
    forall k :: 0 <= k < |cs[a]| ==> cs[a][k].ref.id < nextId && cs[a][k].stackCount > 0
  }

  /** Drives `a` and `b` hold no thing in common. */
  ghost predicate Separate(cs: seq<seq<Thing>>, a: int, b: int)
    requires 0 <= a < |cs| && 0 <= b < |cs|
  {
    forall k, l :: 0 <= k < |cs[a]| && 0 <= l < |cs[b]| ==> cs[a][k].ref != cs[b][l].ref
  }

  /** Routing a thing no drive holds, where the drive at `a` grows as
      `Grown` says with the id `nextId + a` for a split-off piece and only
      the drive `w` may take the thing itself, keeps the drives sound
      below the ids handed out. */
  lemma SoundKept(cs0: seq<seq<Thing>>, cs: seq<seq<Thing>>, r: ThingRef, nextId: int, w: int, next: int)
    requires Sound(cs0, nextId) && r.id < nextId
    requires forall a :: 0 <= a < |cs0| ==> Lacks(cs0[a], r)
    requires |cs| == |cs0| && forall a :: 0 <= a < |cs| ==> Grown(cs0[a], cs[a], r, nextId + a, a == w)
    requires next == nextId + |cs|
    ensures Sound(cs, next)
  {
    forall a | 0 <= a < |cs| ensures StacksBelow(cs, a, next) {
      assert Grown(cs0[a], cs[a], r, nextId + a, a == w);
      assert StacksBelow(cs0, a, nextId);
    }
    forall a, b | 0 <= a < |cs| && 0 <= b < |cs| && a != b ensures Separate(cs, a, b) {
      assert Grown(cs0[a], cs[a], r, nextId + a, a == w);
      assert Grown(cs0[b], cs[b], r, nextId + b, b == w);
      assert Separate(cs0, a, b) && StacksBelow(cs0, a, nextId) && StacksBelow(cs0, b, nextId);
      forall k, l | 0 <= k < |cs[a]| && 0 <= l < |cs[b]| ensures cs[a][k].ref != cs[b][l].ref {
        if k < |cs0[a]| && l < |cs0[b]| {
          assert cs0[a][k].ref != cs0[b][l].ref;
        } else if k < |cs0[a]| {
          assert cs0[a][k].ref != r && cs0[a][k].ref.id < nextId;
        } else if l < |cs0[b]| {
          assert cs0[b][l].ref != r && cs0[b][l].ref.id < nextId;
        }
      }
    }
  }

  /** The units of each list of stacks. */
  ghost function Totals(cs: seq<seq<Thing>>): seq<int>
  {
    seq(|cs|, j requires 0 <= j < |cs| => TotalUnits(cs[j]))
  }

  /** The units a list of drives holds are those of their stacks. */
  lemma UnitsOfTotals(ds: seq<ItemStorage>)
    ensures UnitsOf(ds) == Totals(ContainersOf(ds))
  {
    forall j | 0 <= j < |ds| ensures UnitsOf(ds)[j] == Totals(ContainersOf(ds))[j] {
      UnitsOfAt(ds, j);
      ContainersOfAt(ds, j);
    }
  }

  /** Taking the stack at slot `k` out of drive `a`, which holds no other
      stack of that thing, keeps the drives sound and below `nextId`,
      leaves no drive holding the thing, and takes out exactly its
      units. */
  lemma TakenOut(cs: seq<seq<Thing>>, nextId: int, a: int, k: int)
    requires Sound(cs, nextId) && 0 <= a < |cs| && 0 <= k < |cs[a]|
    requires forall l :: 0 <= l < |cs[a]| && l != k ==> cs[a][l].ref != cs[a][k].ref
    ensures cs[a][k].ref.id < nextId && cs[a][k].stackCount > 0
    ensures var cs' := cs[a := SwapRemove(cs[a], k)];
            Sound(cs', nextId) &&
            (forall b :: 0 <= b < |cs'| ==> IdsBelow(cs'[b], nextId) && Lacks(cs'[b], cs[a][k].ref)) &&
            Sum(Totals(cs')) == Sum(Totals(cs)) - cs[a][k].stackCount
  {
    var cs': seq<seq<Thing>> := cs[a := SwapRemove(cs[a], k)];
    assert StacksBelow(cs, a, nextId);
    SoundRemove(cs, nextId, a, k);
    forall b | 0 <= b < |cs'| ensures IdsBelow(cs'[b], nextId) && Lacks(cs'[b], cs[a][k].ref) {
      assert StacksBelow(cs', b, nextId);
      if b == a {
        forall l | 0 <= l < |cs'[a]| ensures cs'[a][l].ref != cs[a][k].ref {
          SwapRemoveSlots(cs[a], k, l);
        }
      }
    }
    TotalUnitsSwapRemove(cs[a], k);
    assert Totals(cs') == Totals(cs)[a := Totals(cs)[a] - cs[a][k].stackCount];
    SumUpdate(Totals(cs), a, Totals(cs)[a] - cs[a][k].stackCount);
  }

  /** Taking the stack at slot `k` out of drive `a` keeps the drives sound,
      and no other drive holds that thing. */
  lemma SoundRemove(cs: seq<seq<Thing>>, nextId: int, a: int, k: int)
    requires Sound(cs, nextId) && 0 <= a < |cs| && 0 <= k < |cs[a]|
    ensures forall b :: 0 <= b < |cs| && b != a ==> Lacks(cs[b], cs[a][k].ref)
    ensures Sound(cs[a := SwapRemove(cs[a], k)], nextId)
  {
    var cs': seq<seq<Thing>> := cs[a := SwapRemove(cs[a], k)];
    forall b | 0 <= b < |cs| && b != a ensures Lacks(cs[b], cs[a][k].ref) {
      assert Separate(cs, a, b);
    }
    forall b, l | 0 <= b < |cs'| && 0 <= l < |cs'[b]|
      ensures cs'[b][l] == cs[b][if b == a && l == k then |cs[a]| - 1 else l]
    {
      if b == a {
        SwapRemoveSlots(cs[a], k, l);
      }
    }
    forall b | 0 <= b < |cs'| ensures StacksBelow(cs', b, nextId) {
      assert StacksBelow(cs, b, nextId);
    }
    forall b, c | 0 <= b < |cs'| && 0 <= c < |cs'| && b != c ensures Separate(cs', b, c) {
      assert Separate(cs, b, c);
    }
  }

  /** Every drive answers a count in range. */
  lemma AnswersInRange(ds: seq<ItemStorage>, item: ThingRef)
    ensures forall j :: 0 <= j < |ds| ==> 0 <= AnswersOf(ds, item)[j] <= IntMax
  {
    forall j | 0 <= j < |ds| ensures 0 <= AnswersOf(ds, item)[j] <= IntMax {
      AnswersOfAt(ds, item, j);
      ds[j].policy.AnswerRange(ds[j].Container, ds[j].IndexTable, item);
    }
  }

  lemma {:induction false} SumNonNegative(s: seq<int>)
    requires forall j :: 0 <= j < |s| ==> s[j] >= 0
    ensures Sum(s) >= 0
  {
    if s != [] {
      SumNonNegative(s[..|s| - 1]);
    }
  }

  /** One drive of `TryAddItem`: taking the least of its room and what
      is left keeps the count taken at the least of the room so far and
      the stack. */
  lemma GreedyStep(s: seq<int>, i: int, total: int)
    requires 0 <= i < |s| && total >= 0 && s[i] >= 0
    ensures var added := Min(SumTo(s, i), total);
            added + Min(s[i], total - added) == Min(SumTo(s, i + 1), total)
  {
  }

  /** The units of a thing that may be missing. */
  function UnitsIn(t: Option<Thing>): int
  {
    if t.Some? then t.value.stackCount else 0
  }

  /** `SortedStorages.Any(storage => storage.Contains(item))` for a thing
      whose holder is `o`. */
  function AnyHolds(ds: seq<ItemStorage>, o: Owner): (b: bool)
    ensures b <==> exists j :: 0 <= j < |ds| && o == Drive(ds[j].id)
  {
    if ds == [] then false
    else o == Drive(ds[0].id) || AnyHolds(ds[1..], o)
  }

  /** What is left of a thing once `n` of its stack went elsewhere. */
  function Rest(t: Thing, n: int): Thing
  {
    t.(stackCount := t.stackCount - n)
  }

  lemma RestNone(t: Thing)
    ensures Rest(t, 0) == t
  {
  }

  lemma RestOf(t: Thing, n: int, left: Option<Thing>)
    requires left == Some(t.(stackCount := t.stackCount - n))
    ensures left == Some(Rest(t, n))
  {
  }

  lemma RestRest(t: Thing, a: int, b: int)
    ensures Rest(Rest(t, a), b) == Rest(t, a + b)
  {
  }

  /** Where `TryAddItem` stands once the first `i` drives were offered
      `item`: a refused thing got -1 from each and nothing moved; otherwise
      the count taken is the least of the room of those drives and the
      stack, the units stored grew by it, and what the caller holds is the
      stack less it. */
  ghost predicate Tallied(item: Thing, answers: seq<int>, units: seq<int>, i: int, added: int,
                          left: Option<Thing>, stored: int)
  {
    0 <= i <= |answers| && |units| == |answers| &&
    (forall j :: 0 <= j < |answers| ==> 0 <= answers[j]) &&
    (Refused(item) ==> added == -i && Sum(units) == stored && left == Some(item)) &&
    (!Refused(item) ==>
       added == Min(SumTo(answers, i), item.stackCount) && 0 <= added <= item.stackCount &&
       Sum(units) == stored + added && (added < item.stackCount ==> left == Some(Rest(item, added))))
  }

  /** Once every drive was offered the thing or the whole stack was taken,
      the count taken is the least of the total room and the stack. */
  lemma TallyDone(item: Thing, answers: seq<int>, units: seq<int>, i: int, added: int,
                  left: Option<Thing>, stored: int)
    requires Tallied(item, answers, units, i, added, left, stored) && item.stackCount >= 0
    requires i == |answers| || (0 < i && added >= item.stackCount)
    ensures Refused(item) ==> added == -|answers| && Sum(units) == stored
    ensures !Refused(item) ==>
              added == Min(Sum(answers), item.stackCount) && Sum(units) == stored + added &&
              (added < item.stackCount ==> left == Some(Rest(item, added)))
  {
    if !Refused(item) {
      GreedyDone(answers, i, item.stackCount);
    }
  }

  /** One drive's share of a greedy fill: the running total and the stored
      units both grow by what the drive took. */
  lemma Tally(answers: seq<int>, units: seq<int>, i: int, total: int, added: int, r: int, stored: int)
    requires 0 <= i < |answers| == |units| && answers[i] >= 0 && total >= 0
    requires added == Min(SumTo(answers, i), total) && 0 <= added && Sum(units) == stored + added
    requires r == Min(answers[i], total - added)
    ensures added + r == Min(SumTo(answers, i + 1), total) && 0 <= added + r <= total
    ensures Sum(units[i := units[i] + r]) == stored + added + r
  {
    GreedyStep(answers, i, total);
    SumUpdate(units, i, units[i] + r);
  }

  /** Once the whole stack is taken, or every drive was offered it, the
      count taken is the least of the total room and the stack. */
  lemma GreedyDone(s: seq<int>, i: int, total: int)
    requires 0 <= i <= |s| && forall j :: 0 <= j < |s| ==> s[j] >= 0
    requires i == |s| || Min(SumTo(s, i), total) >= total
    ensures Min(Sum(s), total) == Min(SumTo(s, i), total)
  {
    if i < |s| {
      SumToBound(s, i);
    } else {
      SumToAll(s);
    }
  }

  /** Once a prefix of non-negative counts passes `int.MaxValue`, so does
      the whole list. */
  lemma SaturatedPast(s: seq<int>, n: int)
    requires 0 <= n <= |s| && (forall j :: 0 <= j < |s| ==> s[j] >= 0) && SumTo(s, n) > IntMax
    ensures Saturated(Sum(s)) == IntMax
  {
    SumToBound(s, n);
  }

  /** A list whose sum stays within `int.MaxValue` saturates to that sum. */
  lemma SaturatedAll(s: seq<int>)
    requires SumTo(s, |s|) <= IntMax
    ensures Saturated(Sum(s)) == SumTo(s, |s|)
  {
    SumToAll(s);
  }

  /** A prefix of non-negative counts sums to no more than the whole. */
  lemma SumToBound(s: seq<int>, n: int)
    requires 0 <= n <= |s| && forall j :: 0 <= j < |s| ==> s[j] >= 0
    ensures Sum(s) >= SumTo(s, n)
  {
    SumToPrefix(s, n);
    SumPrefix(s, n);
    SumNonNegative(s[n..]);
  }

  /** A drive of a disjoint set shares its policy with none of the others. */
  lemma ApartFromOthers(s: set<ItemStorage>, d: ItemStorage)
    requires Disjoint(s) && d in s
    ensures forall e :: e in s - {d} ==> e.policy != d.policy && e.policy.props != d.policy.props
  {
    forall e | e in s - {d} ensures e.policy != d.policy && e.policy.props != d.policy.props {
      assert Apart(e, d);
    }
  }

  /** Taking an element out and putting it back leaves the set as it was. */
  lemma PutBack<T>(s: set<T>, x: T)
    requires x in s
    ensures s - {x} + {x} == s
  {
  }

  /** The two collections of backends of a network, as `Connect` and
      `Disconnect` as written see them: the set `Storages` and the list
      `SortedStorages`. */
  datatype Collections = Collections(storages: set<Backend>, sorted: seq<Backend>)

  /** The set holds exactly the backends of the list (what
      `ContainsStorage` reports an error for when it fails). */
  predicate Agreeing(c: Collections)
  {
    c.storages == set b | b in c.sorted
  }

  /** `Connect(storage)` as written: `Storages.Add` runs before the test
      for a network, so another network enters the set but not the list.
      `at` is the place the binary search reports. */
  function ConnectAsWritten(c: Collections, b: Backend, at: int): (r: Collections)
    requires 0 <= at <= |c.sorted|
    ensures r.storages == c.storages + {b}
  {
    if b in c.storages then c
    else if b.NetworkBackend? then Collections(c.storages + {b}, c.sorted)
    else Collections(c.storages + {b}, InsertAt(c.sorted, at, b))
  }

  /** `Disconnect(storage)` as written: the list is only asked once the
      set removal succeeded, and the list's answer is the result. */
  function DisconnectAsWritten(c: Collections, b: Backend): (r: (bool, Collections))
    ensures r.1.storages == c.storages - {b}
    ensures r.0 <==> b in c.storages && b in c.sorted
  {
    if b !in c.storages then (false, c)
    else (b in c.sorted, Collections(c.storages - {b}, RemoveFirst(c.sorted, b)))
  }

  /** Connecting a drive keeps the collections in agreement. */
  lemma DriveConnectAgrees(c: Collections, d: ItemStorage, at: int)
    requires Agreeing(c) && 0 <= at <= |c.sorted|
    ensures Agreeing(ConnectAsWritten(c, DriveBackend(d), at))
  {
    InsertAtMembers(c.sorted, at, DriveBackend(d));
  }

  /** Connecting another network breaks the agreement of the two
      collections, and disconnecting it afterwards reports failure
      although it took the network out of the set. */
  lemma NetworkConnectDisagrees(c: Collections, n: StorageNetwork, at: int)
    requires Agreeing(c) && NetworkBackend(n) !in c.storages && 0 <= at <= |c.sorted|
    ensures var c' := ConnectAsWritten(c, NetworkBackend(n), at);
            !Agreeing(c') && !DisconnectAsWritten(c', NetworkBackend(n)).0 &&
            NetworkBackend(n) !in DisconnectAsWritten(c', NetworkBackend(n)).1.storages
  {
    var c' := ConnectAsWritten(c, NetworkBackend(n), at);
    assert NetworkBackend(n) in c'.storages && NetworkBackend(n) !in c'.sorted;
  }

  /** The drive put back by `Connect` is in the list. */
  lemma InsertedMember(s: seq<ItemStorage>, d: ItemStorage)
    ensures forall k :: 0 <= k <= |s| ==> d in InsertAt(s, k, d)
  {
  }
}
