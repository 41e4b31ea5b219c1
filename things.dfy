/** Items of the host engine as the storage core sees them.

    A `Thing` of the engine is an object; here it is a value whose identity
    is its `ThingRef` (engine id, def and stuff, none of which ever change
    for one thing).  Stack count, holder and the destroyed flag are the
    mutable parts and are carried alongside.  `CanStackWith` and `SplitOff`
    are engine routines; they are given definitions below that keep only
    what the storage core depends on. */
module Things {

  /** A value that may be missing: a nullable reference or a lookup miss. */
  datatype Option<T> = None | Some(value: T)

  /** int.MaxValue of the source's 32-bit `int`. */
  const IntMax: int := 0x7FFF_FFFF
  /** int.MinValue. */
  const IntMin: int := -0x8000_0000

  predicate IsInt32(x: int) { IntMin <= x <= IntMax }

  function Min(a: int, b: int): int { if a <= b then a else b }
  function Max(a: int, b: int): int { if a >= b then a else b }

  /** Two's-complement wrap-around of an unchecked cast to `int`. */
  function WrapInt32(x: int): (r: int)
    ensures IsInt32(r)
    ensures (r - x) % 0x1_0000_0000 == 0
    ensures IsInt32(x) ==> r == x
  {
    var m := (x - IntMin) % 0x1_0000_0000;
    m + IntMin
  }

  datatype Category = Item | Building | Pawn | Other

  /** A ThingDef: its category, whether its things stack, and the mass of
      one unit (the engine's float stat, taken here as an exact value). */
  datatype Def = Def(name: int, category: Category, stackable: bool, unitMass: real)

  /** The identity of a thing. */
  datatype ThingRef = ThingRef(id: int, def: Def, stuff: int)

  /** The engine subclasses the load path and the insert path look at. */
  datatype Kind = Plain | Corpse(bugged: bool, hasPawn: bool) | Minified(hasInner: bool)

  /** `holdingOwner`: nobody, a storage drive (ItemStorage), an access
      interface's holding proxy, or some other engine container. */
  datatype Owner = Unowned | Drive(drive: int) | Proxy(proxy: int) | Elsewhere(other: int)

  datatype Thing = Thing(ref: ThingRef, stackCount: int, kind: Kind, owner: Owner, destroyed: bool)

  /** `Thing.CanStackWith`, reduced to what depends on identity: same def,
      same stuff, an item def whose things stack. */
  predicate CanStackWith(a: ThingRef, b: ThingRef)
  {
    a.def == b.def && a.stuff == b.stuff && a.def.stackable && a.def.category == Item
  }

  /** What `item.SplitOff(count)` leaves behind: the piece taken, the
      caller's thing afterwards, and the next unused engine id. */
  datatype Split = Split(taken: Thing, rest: Thing, whole: bool, nextId: int)

  /** `Thing.SplitOff`.  Asking for the whole stack (or more) returns the
      thing itself, detached from its holder; asking for less makes a new
      thing with the next engine id and lowers the original's count.
      The engine raises an exception for a count <= 0, so callers must not
      ask for one. */
  function SplitOff(t: Thing, count: int, nextId: int): (s: Split)
    requires count > 0
    ensures s.whole <==> count >= t.stackCount
    ensures s.whole ==> s.taken == s.rest && s.taken.ref == t.ref && s.taken.owner == Unowned
                        && s.taken.stackCount == t.stackCount && s.nextId == nextId
    ensures !s.whole ==> s.taken.ref.id == nextId && s.taken.ref.def == t.ref.def
                         && s.taken.stackCount == count && s.taken.owner == Unowned
                         && s.rest == t.(stackCount := t.stackCount - count) && s.nextId == nextId + 1
  {
    if count >= t.stackCount then
      var self := t.(owner := Unowned);
      Split(self, self, true, nextId)
    else
      Split(Thing(ThingRef(nextId, t.ref.def, t.ref.stuff), count, t.kind, Unowned, false),
            t.(stackCount := t.stackCount - count), false, nextId + 1)
  }

  /** `target.TryAbsorbStack(other, respectStackLimit: false)`: the target
      takes every unit; the other thing is left empty and destroyed. */
  function Absorb(target: Thing, other: Thing): (r: (Thing, Thing))
    ensures r.0.ref == target.ref && r.0.owner == target.owner
    ensures r.0.stackCount == target.stackCount + other.stackCount
    ensures r.1.ref == other.ref && r.1.stackCount == 0 && r.1.destroyed
  {
    (target.(stackCount := target.stackCount + other.stackCount),
     other.(stackCount := 0, destroyed := true))
  }

  /** Units held by a list of stacks. */
  function TotalUnits(s: seq<Thing>): int
  {
    if s == [] then 0 else TotalUnits(s[..|s| - 1]) + s[|s| - 1].stackCount
  }

  /** Mass held by a list of stacks: Σ stackCount × unit mass. */
  function TotalMass(s: seq<Thing>): real
  {
    if s == [] then 0.0
    else TotalMass(s[..|s| - 1]) + (s[|s| - 1].stackCount as real) * s[|s| - 1].ref.def.unitMass
  }

  lemma {:induction false} TotalUnitsUpdate(s: seq<Thing>, i: int, t: Thing)
    requires 0 <= i < |s|
    ensures TotalUnits(s[i := t]) == TotalUnits(s) - s[i].stackCount + t.stackCount
  {
    if i < |s| - 1 {
      assert s[i := t][..|s| - 1] == s[..|s| - 1][i := t];
      TotalUnitsUpdate(s[..|s| - 1], i, t);
    } else {
      assert s[i := t][..|s| - 1] == s[..|s| - 1];
    }
  }

  lemma TotalUnitsAppend(s: seq<Thing>, t: Thing)
    ensures TotalUnits(s + [t]) == TotalUnits(s) + t.stackCount
  {
    assert (s + [t])[..|s|] == s;
  }

  /** Every stack holds at least one unit. */
  ghost predicate AllPositive(s: seq<Thing>)
  {
    forall i :: 0 <= i < |s| ==> s[i].stackCount > 0
  }

  lemma {:induction false} TotalUnitsNonNegative(s: seq<Thing>)
    requires AllPositive(s)
    ensures TotalUnits(s) >= |s|
  {
    if s != [] {
      TotalUnitsNonNegative(s[..|s| - 1]);
    }
  }
}
