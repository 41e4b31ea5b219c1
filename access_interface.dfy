/** The access interface: a building that lets pawns reach into the
    storage network.  Its thing holder is a proxy: it holds nothing of its
    own, forwards questions and insertions to the network, and keeps a
    short list (`Temp`) of things pulled out of the network that are on
    their way to a pawn or back to the network. */
module AccessInterface {
  import opened Things
  import opened SortedLists
  import opened Policies
  import opened Ledger
  import opened Routing

  /** `Remove(item)` lets go of a thing exactly when the thing is the
      proxy's: held by it and recorded in `Temp`. */
  predicate Releases(temp: set<ThingRef>, proxy: int, item: Option<Thing>)
  {
    item.Some? && item.value.owner == Proxy(proxy) && item.value.ref in temp
  }

  /** A thing another holder owns is never released by the proxy, even
      when `Temp` records it. */
  lemma ForeignNotReleased(temp: set<ThingRef>, proxy: int, t: Thing)
    requires t.owner != Proxy(proxy)
    ensures !Releases(temp, proxy, Some(t))
  {
  }

  /** The drives' answers have some positive one exactly when their sum
      is positive. */
  lemma {:induction false} AnyPositiveSum(s: seq<int>)
    requires forall j :: 0 <= j < |s| ==> s[j] >= 0
    ensures (exists j :: 0 <= j < |s| && s[j] > 0) <==> Sum(s) > 0
  {
    if s != [] {
      var init := s[..|s| - 1];
      AnyPositiveSum(init);
      SumNonNegative(init);
      if exists j :: 0 <= j < |init| && init[j] > 0 {
        var j :| 0 <= j < |init| && init[j] > 0;
        assert s[j] == init[j];
      }
      if exists j :: 0 <= j < |s| && s[j] > 0 {
        var j :| 0 <= j < |s| && s[j] > 0;
        if j < |init| {
          assert init[j] == s[j];
        }
      }
    }
  }

  /** `Building_AccessInterface.Accepts(t)` says yes exactly when the
      network's `GetCountCanAccept(t)` would report room (and the
      interface's own settings allow the thing). */
  lemma AcceptsIffRoom(answers: seq<int>)
    requires forall j :: 0 <= j < |answers| ==> 0 <= answers[j]
    ensures (exists j :: 0 <= j < |answers| && answers[j] > 0) <==> Saturated(Sum(answers)) > 0
  {
    AnyPositiveSum(answers);
  }

  /** The test `ReturnToNetwork` applies, as the code is written, to the
      thing once the network has taken it: the thing counts as returned
      only when it was emptied and destroyed. */
  predicate ReturnedAsWritten(after: Thing)
  {
    after.stackCount == 0 && after.destroyed
  }

  /** A drive that takes a whole stack and finds no stack to merge it
      into stores the thing itself as a new stack.  That thing is neither
      empty nor destroyed, so the code as written reports the return as
      failed and drops on the map a thing the drive now holds. */
  lemma AppendReportedLost(d: ItemStorage, c0: seq<Thing>, index0: Index, t: Thing, freshId: int, left: Option<Thing>)
    requires t.stackCount > 0 && d.Accepted(c0, index0, t, t.stackCount, freshId, left)
    requires FirstMerge(c0, t.ref, t.stackCount) < 0
    ensures left.Some? && d.Container == c0 + [left.value] && left.value.owner == Drive(d.id)
    ensures left.value.ref == t.ref && left.value.stackCount == t.stackCount
    ensures !ReturnedAsWritten(left.value)
  {
    var split := SplitOff(t, t.stackCount, freshId);
    assert split.whole && split.taken.ref == t.ref;
  }

  /** When the whole stack is merged into a stack the drive holds, the
      thing is emptied and destroyed, and the test as written does report
      the return. */
  lemma MergeReportedReturned(d: ItemStorage, c0: seq<Thing>, index0: Index, t: Thing, freshId: int, left: Option<Thing>)
    requires t.stackCount > 0 && d.Accepted(c0, index0, t, t.stackCount, freshId, left)
    requires FirstMerge(c0, t.ref, t.stackCount) >= 0
    ensures left.Some? && left.value.ref == t.ref && ReturnedAsWritten(left.value)
  {
    var split := SplitOff(t, t.stackCount, freshId);
    assert split.whole && split.taken.ref == t.ref;
  }

  /** `AccessInterfaceThingOwnerProxy`: the interface's thing holder.
      `id` names it as a holder (`Proxy(id)`); `Temp` records the things
      it holds for a moment, by identity. */
  class ThingOwnerProxy {
    const id: int
    const network: StorageNetwork
    var Temp: set<ThingRef>

    constructor(id: int, network: StorageNetwork)
      ensures this.id == id && this.network == network && Temp == {}
    {
      this.id := id;
      this.network := network;
      Temp := {};
    }

    /** `AddTempThing(thing)`: the proxy becomes the thing's holder and
        records it.  `Dictionary.Add` throws on a thing recorded twice, so
        the thing must not be recorded already.  `held` is the thing
        afterwards. */
    method AddTempThing(thing: Thing) returns (held: Thing)
      requires thing.ref !in Temp
      modifies this`Temp
      ensures held == thing.(owner := Proxy(id)) && Temp == old(Temp) + {thing.ref}
      ensures Releases(Temp, id, Some(held))
    {
      held := thing.(owner := Proxy(id));
      Temp := Temp + {thing.ref};
    }

    /** `Remove(item)`: fails for a missing thing, one the proxy does not
        hold, or one it does not record; otherwise forgets the thing and
        clears its holder.  `after` is the caller's thing afterwards. */
    method Remove(item: Option<Thing>) returns (ok: bool, after: Option<Thing>)
      modifies this`Temp
      ensures ok <==> Releases(old(Temp), id, item)
      ensures ok ==> Temp == old(Temp) - {item.value.ref} && after == Some(item.value.(owner := Unowned))
      ensures !ok ==> Temp == old(Temp) && after == item
    {
      if item.None? || item.value.owner != Proxy(id) || item.value.ref !in Temp {
        return false, item;
      }
      Temp := Temp - {item.value.ref};
      ok, after := true, Some(item.value.(owner := Unowned));
    }

    /** `ReturnToNetwork(thing)`: a thing the proxy releases goes back
        into the network; what the network does not take is dropped next
        to the interface (the map is not part of this model: the dropped
        thing is returned), and the return succeeds when nothing was
        dropped.  A thing the proxy does not release is left alone and the
        return fails.  The decision is taken on the counts, as
        `AddItemOrOverflow` takes it; the code as written decides on the
        state of the thing instead (see `ReturnedAsWritten`). */
    method ReturnToNetwork(thing: Thing, nextId: int) returns (ok: bool, dropped: Option<Thing>, ghost answers: seq<int>)
      requires network.Valid() && network.DrivesValid()
      requires IsInt32(thing.stackCount) && thing.stackCount >= 0 && thing.ref.id < nextId
      requires forall d :: d in network.Storages ==> IdsBelow(d.Container, nextId) && Lacks(d.Container, thing.ref)
      modifies this`Temp, network.Storages`Container, network.Storages`IndexTable, set d | d in network.Storages :: d.policy,
               set d | d in network.Storages :: d.policy.props
      ensures network.Valid() && network.DrivesValid()
      ensures !Releases(old(Temp), id, Some(thing)) ==>
                !ok && dropped == None && Temp == old(Temp) && network.Stored() == old(network.Stored())
      ensures Releases(old(Temp), id, Some(thing)) ==>
                Temp == old(Temp) - {thing.ref} && old(network.Answers(thing.ref, answers)) &&
                (ok <==> thing.destroyed || thing.stackCount == 0 || (!Refused(thing) && thing.stackCount <= Sum(answers))) &&
                (dropped.Some? <==> !ok) &&
                (dropped.Some? ==> dropped.value.ref == thing.ref && dropped.value.owner == Unowned) &&
                (!thing.destroyed ==> network.Stored() + UnitsIn(dropped) == old(network.Stored()) + thing.stackCount)
    {
      var released, after := Remove(Some(thing));
      if !released {
        answers := [];
        return false, None, answers;
      }
      dropped, answers := network.AddItemOrOverflow(after.value, nextId);
      ok := dropped.None?;
    }

    /** `TryAdd(item)`: the network routes the thing, and the proxy
        reports whether any unit was taken.  `left` is the caller's thing
        afterwards. */
    method TryAdd(item: Thing, nextId: int) returns (ok: bool, left: Option<Thing>, ghost answers: seq<int>)
      requires network.Valid() && network.DrivesValid()
      requires IsInt32(item.stackCount) && item.stackCount >= 0 && item.owner == Unowned && item.ref.id < nextId
      requires forall d :: d in network.Storages ==> IdsBelow(d.Container, nextId) && Lacks(d.Container, item.ref)
      modifies network.Storages`Container, network.Storages`IndexTable, set d | d in network.Storages :: d.policy,
               set d | d in network.Storages :: d.policy.props
      ensures network.Valid() && network.DrivesValid() && old(network.Answers(item.ref, answers))
      ensures ok <==> !Refused(item) && item.stackCount > 0 && Sum(answers) > 0
      ensures !Refused(item) ==> network.Stored() == old(network.Stored()) + Min(Sum(answers), item.stackCount)
    {
      var added;
      ghost var before, w;
      added, left, answers, before, w := network.TryAddItem(item, nextId);
      ok := added > 0;
    }

    /** `GetCountCanAccept(item)`: the network's room for the thing, the
        drives' answers summed and saturated at int.MaxValue. */
    method GetCountCanAccept(item: ThingRef) returns (n: int, ghost answers: seq<int>)
      requires network.Valid() && network.DrivesValid()
      modifies set d | d in network.Storages :: d.policy, set d | d in network.Storages :: d.policy.props
      ensures network.Valid() && network.DrivesValid()
      ensures old(network.Answers(item, answers)) && n == Saturated(Sum(answers))
    {
      n, answers := network.GetCountCanAccept(item);
    }

    /** `Contains(item)`: the thing is held by some drive of the network
        (never by the proxy itself). */
    function Contains(item: Thing): (b: bool)
      reads network
      ensures b <==> exists j :: 0 <= j < |network.SortedStorages| && item.owner == Drive(network.SortedStorages[j].id)
      ensures item.owner == Proxy(id) ==> !b
    {
      network.Contains(item)
    }

    /** `Count`: the proxy reports no things, whatever `Temp` records. */
    function Count(): (n: int)
      ensures n == 0
    {
      0
    }
  }

  /** `Building_AccessInterface`, as far as routing goes: the network it
      is connected to. */
  class Interface {
    const network: StorageNetwork

    constructor(network: StorageNetwork)
      ensures this.network == network
    {
      this.network := network;
    }

    /** `Accepts(t)`: the interface's storage settings allow the thing
        (`allowed`: the settings are engine state) and some drive has room
        for it.  The drives are asked only when the settings allow the
        thing, one by one until one has room (`AnyRoom`). */
    method Accepts(t: ThingRef, allowed: bool) returns (b: bool, ghost answers: seq<int>)
      requires network.Valid() && network.DrivesValid()
      modifies set d | d in network.Storages :: d.policy, set d | d in network.Storages :: d.policy.props
      ensures network.Valid() && network.DrivesValid() && old(network.Answers(t, answers))
      ensures forall j :: 0 <= j < |answers| ==> 0 <= answers[j]
      ensures b <==> allowed && exists j :: 0 <= j < |answers| && answers[j] > 0
    {
      answers := network.AnswersHold(t);
      b := false;
      if allowed {
        b, answers := network.AnyRoom(t);
      }
    }
  }
}
