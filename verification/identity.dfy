/** Entity identity. Both entity classes compare equal exactly when they carry
    the same non-null database id; an entity that has not been saved yet (null
    id) equals nothing but itself as a Java reference, which a value model has
    no notion of. */
module Identity {
  import opened Results

  /** Database ids (Java `Long`). */
  type Id = int

  /** The id-based `equals` shared by `Member` and `Tournament`. */
  predicate SameEntity(a: Option<Id>, b: Option<Id>) {
    a.Some? && a == b
  }

  /** Among saved entities `equals` is exactly id equality, and an unsaved
      entity equals no other; so a participant set of entities behaves as a
      set of ids, which is how the store holds it. */
  lemma SameEntityIsIdEquality(a: Option<Id>, b: Option<Id>)
    ensures a.Some? && b.Some? ==> (SameEntity(a, b) <==> a.value == b.value)
    ensures a.None? || b.None? ==> !SameEntity(a, b)
    ensures SameEntity(a, b) <==> SameEntity(b, a)
  {
  }

  lemma SameEntityIsTransitive(a: Option<Id>, b: Option<Id>, c: Option<Id>)
    ensures SameEntity(a, b) && SameEntity(b, c) ==> SameEntity(a, c)
  {
  }

  /** `contains` on a set of entities compared by `equals`. */
  predicate ContainsEntity(entities: set<Option<Id>>, e: Option<Id>) {
    exists x :: x in entities && SameEntity(x, e)
  }

  /** The ids carried by a set of entities. */
  function IdsOf(entities: set<Option<Id>>): set<Id> {
    set e | e in entities && e.Some? :: e.value
  }

  /** For a set of saved entities, membership under id-based `equals` is
      membership of the id, and the set has as many elements as it has ids:
      such a set is faithfully held as a set of ids. */
  lemma {:induction false} SavedEntitiesAreTheirIds(entities: set<Option<Id>>, e: Option<Id>)
    requires forall x :: x in entities ==> x.Some?
    ensures ContainsEntity(entities, e) <==> e.Some? && e.value in IdsOf(entities)
    ensures |IdsOf(entities)| == |entities|
    decreases |entities|
  {
    if e.Some? && e.value in IdsOf(entities) {
      var x :| x in entities && x.Some? && x.value == e.value;
      assert SameEntity(x, e);
    }
    if entities != {} {
      var x :| x in entities;
      var rest := entities - {x};
      SavedEntitiesAreTheirIds(rest, e);
      assert IdsOf(entities) == IdsOf(rest) + {x.value};
      assert x.value !in IdsOf(rest);
    } else {
      assert IdsOf(entities) == {};
    }
  }
}
