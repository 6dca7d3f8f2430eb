/** Concrete runs of `addRelationship` on two tables. */
module TableExamples {
  import opened Wrappers
  import opened JsValues
  import opened Types
  import opened Tables

  /**
   * The getter's promise that every relationship has an inverted one on the
   * peer does not survive a second pointer to the same peer with the same
   * peer pointer. `A` adds `a1 -> B.b`, then `a2 -> B.b`. The nested call
   * on `B` finds its `(A, b)` entry from the first add and throws the
   * already-exists error, which `A` swallows. `B` keeps only the mirror of
   * the first entry, so `A`'s second entry has no inverted one.
   */
  method SecondPointerNotMirrored() returns (a: Table, b: Table, r1: Result<(), JsError>, r2: Result<(), JsError>)
    ensures r1 == Success(()) && r2 == Success(())
    ensures |a.relationships| == 2 && a.relationships[0].peerTable == b && a.relationships[1].peerTable == b
    ensures b.relationships == [Mirror(a.relationships[0], a)]
    ensures Mirror(a.relationships[1], a) !in b.relationships
  {
    a := new Table(TableParams("A", ObjectShape(["id"]), "id", None, None));
    b := new Table(TableParams("B", ObjectShape(["id"]), "id", None, None));
    r1 := a.AddRelationship(RelationshipParams(OneToMany, "a1", b, "b", None, None, None));
    r2 := a.AddRelationship(RelationshipParams(OneToMany, "a2", b, "b", None, None, None));
  }
}
