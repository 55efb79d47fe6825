/**
  `sortEntities`: moving an entity within its sibling group and writing a
  new `position` into every member of the group.

  Entities are identified by their id. Their `parent` and `position` fields
  live in an `EntityStore`, one map per field, so the moved entity and its
  own entry in the sibling list are the same cell. What the ORM would be
  asked (the lookup of the new parent, the root-level query, a parent's
  children collection) is given as data in an `Env`.

  The renumbering is modelled as the code does it: the third branch of the
  walk with a `previousId` can never be taken, so the moved entity always
  ends up with the final counter, after every sibling, and the counter skips
  one slot at the sibling named by `previousId`.
 */
module EntitySorting {
  import opened Wrappers
  import opened OrderedMaps

  type Id = string

  datatype SortError =
    | EntityMustImplement  // the entity lacks one of the accessors the walk uses
    | ParentNotFound       // the parent query found no entity
    | ParentNotUnique      // the parent query found more than one entity

  /** The accessors an entity must have to be sorted. */
  const SortableMethods: set<string> := {"getId", "getParent", "setParent", "setPosition"}

  /** What the call can see of the world around the store. */
  datatype Env = Env(
    itemMethods: set<string>,         // methods of the moved entity's class
    parentMethods: set<string>,       // methods of its current parent's class
    tableIds: seq<Id>,                // ids of the rows the parent query runs over
    roots: seq<Id>,                   // the entities without a parent, by position
    childrenOf: map<Id, seq<Id>>)     // each parent's children collection

  // ---------------------------------------------------------------------------
  // The parent

  /** The parent is looked up again only when there is one, it has an id,
      and that id is not the requested one. */
  predicate NeedsReparent(current: Option<Id>, parentId: Option<Id>, env: Env): (b: bool)
    ensures current.None? ==> !b
    ensures b ==> current != parentId
    ensures current.Some? && current != parentId ==> (b <==> "getId" in env.parentMethods)
  {
    current.Some? && "getId" in env.parentMethods && current != parentId
  }

  /** The single-result query for the entity whose id is `parentId`; a null
      id matches no row. */
  function FindParent(tableIds: seq<Id>, parentId: Option<Id>): (r: Result<Id, SortError>)
    ensures r.Success? <==> parentId.Some? && multiset(tableIds)[parentId.value] == 1
    ensures r.Success? ==> r.value == parentId.value
    ensures r == Failure(ParentNotUnique) <==> parentId.Some? && multiset(tableIds)[parentId.value] > 1
  {
    if parentId.None? then Failure(ParentNotFound)
    else
      var n := multiset(tableIds)[parentId.value];
      if n == 0 then Failure(ParentNotFound)
      else if n > 1 then Failure(ParentNotUnique)
      else Success(parentId.value)
  }

  /** The parent the entity has once the re-resolution step is over. */
  function NewParent(current: Option<Id>, parentId: Option<Id>, env: Env): (r: Result<Option<Id>, SortError>)
    ensures !NeedsReparent(current, parentId, env) ==> r == Success(current)
    ensures NeedsReparent(current, parentId, env) ==>
      (r.Success? <==> parentId.Some? && multiset(env.tableIds)[parentId.value] == 1)
    ensures r.Success? && r.value != current ==> r.value == parentId && parentId.Some?
  {
    if NeedsReparent(current, parentId, env) then
      var p :- FindParent(env.tableIds, parentId);
      Success(Some(p))
    else Success(current)
  }

  /** The sibling group: the root entities, or the parent's children (none
      when the collection is null). */
  function Siblings(parent: Option<Id>, env: Env): (sibs: seq<Id>)
    ensures parent.None? ==> sibs == env.roots
    ensures parent.Some? && parent.value in env.childrenOf ==> sibs == env.childrenOf[parent.value]
    ensures parent.Some? && parent.value !in env.childrenOf ==> sibs == []
  {
    match parent
    case None => env.roots
    case Some(p) => if p in env.childrenOf then env.childrenOf[p] else []
  }

  // ---------------------------------------------------------------------------
  // The two walks

  /** The positions and the counter after the walk without `previousId` has
      visited `sibs`: the counter starts at 1 and the moved entity is skipped. */
  function FrontWalk(pos: map<Id, int>, sibs: seq<Id>, item: Id): (w: (map<Id, int>, int))
  {
    if sibs == [] then (pos, 1)
    else
      var w := FrontWalk(pos, sibs[..|sibs| - 1], item);
      var s := sibs[|sibs| - 1];
      if s != item then (w.0[s := w.1], w.1 + 1) else w
  }

  /** The positions and the counter after the walk with `previousId` has
      visited `sibs`: every sibling takes the counter, and the one named by
      `prev` hands the next slot to the moved entity. */
  function AfterWalk(pos: map<Id, int>, sibs: seq<Id>, item: Id, prev: Id): (w: (map<Id, int>, int))
  {
    if sibs == [] then (pos, 0)
    else
      var w := AfterWalk(pos, sibs[..|sibs| - 1], item, prev);
      var s := sibs[|sibs| - 1];
      if s == prev then (w.0[s := w.1][item := w.1 + 1], w.1 + 2)
      else (w.0[s := w.1], w.1 + 1)
  }

  /** The positions after the renumbering of the group `sibs`. */
  function Renumbered(pos: map<Id, int>, sibs: seq<Id>, item: Id, previousId: Option<Id>): (r: map<Id, int>)
    ensures item in r
  {
    match previousId
    case None =>
      FrontWalkElsewhere(pos[item := 0], sibs, item, item);
      FrontWalk(pos[item := 0], sibs, item).0
    case Some(prev) =>
      var w := AfterWalk(pos, sibs, item, prev);
      w.0[item := w.1]
  }

  /** What `sortEntities` leaves in the two fields, or the error it raises. */
  function SortSpec(parent: map<Id, Option<Id>>, pos: map<Id, int>, item: Id,
                    previousId: Option<Id>, parentId: Option<Id>, env: Env): (r: Result<(map<Id, Option<Id>>, map<Id, int>), SortError>)
    ensures !(SortableMethods <= env.itemMethods) ==> r == Failure(EntityMustImplement)
    ensures r.Success? ==> item in r.value.1
    ensures r.Success? ==> forall x :: x != item ==>
      (x in r.value.0 <==> x in parent) && (x in parent ==> r.value.0[x] == parent[x])
    ensures var current := if item in parent then parent[item] else None;
      r.Failure? <==>
        || !(SortableMethods <= env.itemMethods)
        || (NeedsReparent(current, parentId, env) && FindParent(env.tableIds, parentId).Failure?)
    ensures r.Success? ==>
      r.value.1 == Renumbered(pos, Siblings(if item in r.value.0 then r.value.0[item] else None, env), item, previousId)
  {
    if !(SortableMethods <= env.itemMethods) then Failure(EntityMustImplement)
    else
      var current := if item in parent then parent[item] else None;
      var newParent :- NewParent(current, parentId, env);
      var parent' := if NeedsReparent(current, parentId, env) then parent[item := newParent] else parent;
      Success((parent', Renumbered(pos, Siblings(newParent, env), item, previousId)))
  }

  // ---------------------------------------------------------------------------
  // The store

  class EntityStore {
    var parent: map<Id, Option<Id>>
    var position: map<Id, int>

    constructor(parent0: map<Id, Option<Id>>, position0: map<Id, int>)
      ensures parent == parent0 && position == position0
    {
      parent := parent0;
      position := position0;
    }

    /** `getParent()`: an entity without a recorded parent has none. */
    function ParentOf(id: Id): (p: Option<Id>)
      reads this
      ensures id in parent ==> p == parent[id]
      ensures id !in parent ==> p == None
    {
      if id in parent then parent[id] else None
    }

    /** `sortEntities($item, $previousId, $parentId)`. */
    method SortEntities(item: Id, previousId: Option<Id>, parentId: Option<Id>, env: Env)
      returns (r: Result<(), SortError>)
      modifies this
      ensures var spec := SortSpec(old(parent), old(position), item, previousId, parentId, env);
        && (spec.Failure? ==> r == Failure(spec.error) && parent == old(parent) && position == old(position))
        && (spec.Success? ==> r == Success(()) && parent == spec.value.0 && position == spec.value.1)
    {
      if !(SortableMethods <= env.itemMethods) {
        return Failure(EntityMustImplement);
      }
      var current := ParentOf(item);
      if current.Some? && "getId" in env.parentMethods && current != parentId {
        var found := FindParent(env.tableIds, parentId);
        if found.Failure? {
          return Failure(found.error);
        }
        parent := parent[item := Some(found.value)];
        current := Some(found.value);
      }
      var items := Siblings(current, env);
      Renumber(items, item, previousId);
      return Success(());
    }

    /** The renumbering of the sibling group `items` once the parent is settled. */
    method Renumber(items: seq<Id>, item: Id, previousId: Option<Id>)
      modifies this
      ensures parent == old(parent)
      ensures position == Renumbered(old(position), items, item, previousId)
    {
      var counter := 0;
      var categoryWasSet := false;
      if previousId.None? {
        position := position[item := 0];
        counter := counter + 1;
        for i := 0 to |items|
          invariant (position, counter) == FrontWalk(old(position)[item := 0], items[..i], item)
          invariant parent == old(parent)
        {
          assert items[..i + 1][..i] == items[..i];
          if items[i] != item {
            position := position[items[i] := counter];
            counter := counter + 1;
          }
        }
      } else {
        var prev := previousId.value;
        for i := 0 to |items|
          invariant (position, counter) == AfterWalk(old(position), items[..i], item, prev)
          invariant !categoryWasSet
          invariant parent == old(parent)
        {
          assert items[..i + 1][..i] == items[..i];
          if items[i] == prev {
            position := position[items[i] := counter];
            counter := counter + 1;
            position := position[item := counter];
            counter := counter + 1;
          } else if items[i] != prev {
            position := position[items[i] := counter];
            counter := counter + 1;
          } else {
            categoryWasSet := true;
          }
        }
        if !categoryWasSet {
          position := position[item := counter];
        }
      }
      assert items[..|items|] == items;
    }
  }

  // ---------------------------------------------------------------------------
  // What the walks do

  /** The walk without `previousId` hands out one slot per sibling other than
      the moved entity, after the 0 the moved entity already holds. */
  lemma {:induction false} FrontWalkCounter(pos: map<Id, int>, sibs: seq<Id>, item: Id)
    ensures FrontWalk(pos, sibs, item).1 == |sibs| + 1 - multiset(sibs)[item]
  {
    if sibs != [] {
      var n := |sibs| - 1;
      FrontWalkCounter(pos, sibs[..n], item);
      assert sibs == sibs[..n] + [sibs[n]];
    }
  }

  /** Neither walk touches an entity outside the group; the front walk does
      not touch the moved entity either. */
  lemma {:induction false} FrontWalkElsewhere(pos: map<Id, int>, sibs: seq<Id>, item: Id, x: Id)
    requires x !in sibs || x == item
    ensures var m := FrontWalk(pos, sibs, item).0;
      (x in m <==> x in pos) && (x in pos ==> m[x] == pos[x])
  {
    if sibs != [] {
      FrontWalkElsewhere(pos, sibs[..|sibs| - 1], item, x);
    }
  }

  lemma {:induction false} AfterWalkElsewhere(pos: map<Id, int>, sibs: seq<Id>, item: Id, prev: Id, x: Id)
    requires x !in sibs && x != item
    ensures var m := AfterWalk(pos, sibs, item, prev).0;
      (x in m <==> x in pos) && (x in pos ==> m[x] == pos[x])
  {
    if sibs != [] {
      AfterWalkElsewhere(pos, sibs[..|sibs| - 1], item, prev, x);
    }
  }

  /** The sibling at index `k` gets 1 plus the number of siblings before it,
      not counting the moved entity. */
  lemma {:induction false} FrontWalkPosition(pos: map<Id, int>, sibs: seq<Id>, item: Id, k: nat)
    requires Distinct(sibs) && k < |sibs| && sibs[k] != item
    ensures var m := FrontWalk(pos, sibs, item).0;
      sibs[k] in m && m[sibs[k]] == k + 1 - multiset(sibs[..k])[item]
  {
    var n := |sibs| - 1;
    var prefix := sibs[..n];
    if k == n {
      FrontWalkCounter(pos, prefix, item);
    } else {
      assert prefix[..k] == sibs[..k];
      FrontWalkPosition(pos, prefix, item, k);
    }
  }

  /** The walk with `previousId` hands out one slot per sibling and one more
      for each sibling named by `prev`. */
  lemma {:induction false} AfterWalkCounter(pos: map<Id, int>, sibs: seq<Id>, item: Id, prev: Id)
    ensures AfterWalk(pos, sibs, item, prev).1 == |sibs| + multiset(sibs)[prev]
  {
    if sibs != [] {
      var n := |sibs| - 1;
      AfterWalkCounter(pos, sibs[..n], item, prev);
      assert sibs == sibs[..n] + [sibs[n]];
    }
  }

  /** The sibling at index `k` gets `k`, plus one once the sibling named by
      `prev` has been passed. */
  lemma {:induction false} AfterWalkPosition(pos: map<Id, int>, sibs: seq<Id>, item: Id, prev: Id, k: nat)
    requires Distinct(sibs) && k < |sibs| && sibs[k] != item
    ensures var m := AfterWalk(pos, sibs, item, prev).0;
      sibs[k] in m && m[sibs[k]] == k + multiset(sibs[..k])[prev]
  {
    var n := |sibs| - 1;
    var prefix := sibs[..n];
    if k == n {
      AfterWalkCounter(pos, prefix, item, prev);
    } else {
      assert prefix[..k] == sibs[..k];
      AfterWalkPosition(pos, prefix, item, prev, k);
    }
  }

  // ---------------------------------------------------------------------------
  // What the renumbering does

  /** Without `previousId`: the moved entity gets 0 and the other siblings
      1, 2, 3, ... in list order. */
  lemma MovedToFront(pos: map<Id, int>, sibs: seq<Id>, item: Id)
    requires Distinct(sibs)
    ensures Renumbered(pos, sibs, item, None)[item] == 0
    ensures forall k :: 0 <= k < |sibs| && sibs[k] != item ==>
      sibs[k] in Renumbered(pos, sibs, item, None) &&
      Renumbered(pos, sibs, item, None)[sibs[k]] == k + 1 - multiset(sibs[..k])[item]
  {
    FrontWalkElsewhere(pos[item := 0], sibs, item, item);
    forall k | 0 <= k < |sibs| && sibs[k] != item
      ensures sibs[k] in Renumbered(pos, sibs, item, None)
      ensures Renumbered(pos, sibs, item, None)[sibs[k]] == k + 1 - multiset(sibs[..k])[item]
    {
      FrontWalkPosition(pos[item := 0], sibs, item, k);
    }
  }

  /** With `previousId`: each sibling gets its index, shifted by one after the
      sibling named by `previousId`, and the moved entity gets the final
      counter, one past the group's length when `previousId` is a sibling. */
  lemma MovedAfter(pos: map<Id, int>, sibs: seq<Id>, item: Id, prev: Id)
    requires Distinct(sibs)
    ensures Renumbered(pos, sibs, item, Some(prev))[item] == |sibs| + multiset(sibs)[prev]
    ensures forall k :: 0 <= k < |sibs| && sibs[k] != item ==>
      sibs[k] in Renumbered(pos, sibs, item, Some(prev)) &&
      Renumbered(pos, sibs, item, Some(prev))[sibs[k]] == k + multiset(sibs[..k])[prev]
  {
    AfterWalkCounter(pos, sibs, item, prev);
    forall k | 0 <= k < |sibs| && sibs[k] != item
      ensures sibs[k] in Renumbered(pos, sibs, item, Some(prev))
      ensures Renumbered(pos, sibs, item, Some(prev))[sibs[k]] == k + multiset(sibs[..k])[prev]
    {
      AfterWalkPosition(pos, sibs, item, prev, k);
    }
  }

  /** With `previousId`, the moved entity always ends after every sibling,
      wherever `previousId` stands. */
  lemma MovedEntityLast(pos: map<Id, int>, sibs: seq<Id>, item: Id, prev: Id, k: nat)
    requires Distinct(sibs) && k < |sibs| && sibs[k] != item
    ensures var m := Renumbered(pos, sibs, item, Some(prev));
      sibs[k] in m && m[sibs[k]] < m[item]
  {
    MovedAfter(pos, sibs, item, prev);
    assert sibs == sibs[..k] + sibs[k..];
    assert multiset(sibs)[prev] == multiset(sibs[..k])[prev] + multiset(sibs[k..])[prev];
  }

  /** Entities outside the group, other than the moved one, keep their position. */
  lemma OutsideUnchanged(pos: map<Id, int>, sibs: seq<Id>, item: Id, previousId: Option<Id>, x: Id)
    requires x !in sibs && x != item
    ensures var m := Renumbered(pos, sibs, item, previousId);
      (x in m <==> x in pos) && (x in pos ==> m[x] == pos[x])
  {
    match previousId
    case None => FrontWalkElsewhere(pos[item := 0], sibs, item, x);
    case Some(prev) => AfterWalkElsewhere(pos, sibs, item, prev, x);
  }

  /** Siblings `[a, b, c]`, `c` moved after `a`: `a` gets 0, `b` gets 2 and
      `c` gets 4, so the result has gaps and `c` does not follow `a`. */
  lemma MoveLastAfterFirst(pos: map<Id, int>, a: Id, b: Id, c: Id)
    requires a != b && b != c && a != c
    ensures var m := Renumbered(pos, [a, b, c], c, Some(a));
      a in m && b in m && m[a] == 0 && m[b] == 2 && m[c] == 4
  {
    var sibs := [a, b, c];
    MovedAfter(pos, sibs, c, a);
    assert sibs[0] == a && sibs[1] == b;
    assert sibs[..0] == [] && sibs[..1] == [a];
  }

  /** Siblings `[a, b, c]`, `c` moved to the front: `c` gets 0, `a` 1 and `b` 2. */
  lemma MoveLastToFront(pos: map<Id, int>, a: Id, b: Id, c: Id)
    requires a != b && b != c && a != c
    ensures var m := Renumbered(pos, [a, b, c], c, None);
      a in m && b in m && m[c] == 0 && m[a] == 1 && m[b] == 2
  {
    var sibs := [a, b, c];
    MovedToFront(pos, sibs, c);
    assert sibs[0] == a && sibs[1] == b;
    assert sibs[..0] == [] && sibs[..1] == [a];
  }

  /** The parent changes only when it was set, had an id other than the
      requested one, and the query found exactly the requested entity. */
  lemma ReparentRule(parent: map<Id, Option<Id>>, pos: map<Id, int>, item: Id,
                     previousId: Option<Id>, parentId: Option<Id>, env: Env)
    requires SortSpec(parent, pos, item, previousId, parentId, env).Success?
    ensures var current := if item in parent then parent[item] else None;
      var parent' := SortSpec(parent, pos, item, previousId, parentId, env).value.0;
      && (!NeedsReparent(current, parentId, env) ==> parent' == parent)
      && (NeedsReparent(current, parentId, env) ==> parent' == parent[item := parentId])
  {
  }
}
