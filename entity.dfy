/** The entity of src/entity.rs: a store mapping each component kind to at most one value.
    The program keys the store by TypeId and keeps type-erased boxes; here the keys are the
    closed set of kinds, and the invariant Valid() (every value is of its key's kind) is
    what makes the program's downcasts always succeed. */
module EntityStore {
  import opened Components

  /** The store after `add_component(c)`: c is kept under its kind, replacing any previous
      value of that kind. */
  function Added(m: map<Kind, Component>, c: Component): (r: map<Kind, Component>)
    ensures KindOf(c) in r && r[KindOf(c)] == c
    ensures r.Keys == m.Keys + {KindOf(c)}
    ensures forall k :: k in m && k != KindOf(c) ==> k in r && r[k] == m[k]
  {
    m[KindOf(c) := c]
  }

  /** The store after removing the value of kind k. */
  function Removed(m: map<Kind, Component>, k: Kind): (r: map<Kind, Component>)
    ensures k !in r && r.Keys == m.Keys - {k}
    ensures forall k' :: k' in r ==> r[k'] == m[k']
  {
    m - {k}
  }

  /** Adding keeps the store well typed. */
  lemma AddedWellTyped(m: map<Kind, Component>, c: Component)
    requires WellTyped(m)
    ensures WellTyped(Added(m, c))
  {
  }

  /** Removing right after adding a kind the store did not hold gives the store back;
      removing after adding a kind it did hold gives the store without that kind. */
  lemma RemoveAfterAdd(m: map<Kind, Component>, c: Component)
    ensures Removed(Added(m, c), KindOf(c)) == Removed(m, KindOf(c))
    ensures KindOf(c) !in m ==> Removed(Added(m, c), KindOf(c)) == m
  {
  }

  /** Adding back the value just removed restores the store. */
  lemma AddAfterRemove(m: map<Kind, Component>, k: Kind)
    requires WellTyped(m) && k in m
    ensures Added(Removed(m, k), m[k]) == m
  {
  }

  class Entity {
    var components: map<Kind, Component>

    /** Every stored value is of the kind it is stored under. */
    predicate Valid()
      reads this
    {
      WellTyped(components)
    }

    /** Entity::new: an entity without components. */
    constructor ()
      ensures Valid() && components == map[]
    {
      components := map[];
    }

    /** add_component: store c under its kind, silently replacing a previous value. */
    method AddComponent(c: Component)
      requires Valid()
      modifies this
      ensures Valid()
      ensures components == Added(old(components), c)
    {
      AddedWellTyped(components, c);
      components := components[KindOf(c) := c];
    }

    /** has_component: whether a value of kind k is stored. */
    predicate HasComponent(k: Kind): (r: bool)
      reads this
      ensures r <==> k in components.Keys
      ensures r && Valid() ==> KindOf(components[k]) == k
    {
      k in components
    }

    /** get_component of src/entity.rs: the stored value of kind k, which panics when there
        is none. The result is of kind k, so the downcast that follows the lookup cannot
        fail. */
    function GetComponent(k: Kind): (c: Component)
      requires Valid() && HasComponent(k)
      reads this
      ensures KindOf(c) == k
      ensures c == components[k]
    {
      components[k]
    }

    /** The Option-returning get_component that src/main.rs calls: absent kinds give None. */
    function TryGetComponent(k: Kind): (r: Option<Component>)
      requires Valid()
      reads this
      ensures r.Some? <==> HasComponent(k)
      ensures r.Some? ==> KindOf(r.value) == k && r.value == components[k]
    {
      if k in components then Some(components[k]) else None
    }

    /** get_component_mut followed by writes through the returned reference: the stored value
        of c's kind becomes c. It panics when no value of that kind is stored. */
    method UpdateComponent(c: Component)
      requires Valid() && HasComponent(KindOf(c))
      modifies this
      ensures Valid()
      ensures components == old(components)[KindOf(c) := c]
    {
      components := components[KindOf(c) := c];
    }

    /** remove_component: take out and return the value of kind k, which panics when there
        is none. The value returned is of kind k; the other kinds are left alone. */
    method RemoveComponent(k: Kind) returns (c: Component)
      requires Valid() && HasComponent(k)
      modifies this
      ensures Valid()
      ensures KindOf(c) == k && c == old(components)[k]
      ensures components == Removed(old(components), k)
    {
      c := components[k];
      components := components - {k};
    }
  }
}
