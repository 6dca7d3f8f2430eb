/**
 * A DynamoDB table description: the fields the constructor derives from its
 * parameters, the reserved-version-attribute check, and the relationship
 * list, which `AddRelationship` extends on this table and, mirrored, on the
 * peer table.
 */
module Tables {
  import opened Wrappers
  import opened JsValues
  import opened Constants
  import opened Types

  // ---------------------------------------------------------------------------
  // Item shapes and the derived attribute names

  /** An item shape, reduced to its attribute names: one object, or a union of objects. */
  datatype ItemShape = ObjectShape(keys: seq<string>) | UnionShape(options: seq<seq<string>>)

  predicate Distinct(xs: seq<string>) {
    forall i, j :: 0 <= i < j < |xs| ==> xs[i] != xs[j]
  }

  /** The position of the first occurrence of `x` in `xs`. */
  function FirstIndex(xs: seq<string>, x: string): (k: nat)
    requires x in xs
    ensures k < |xs| && xs[k] == x && x !in xs[..k]
  {
    if xs[0] == x then 0 else 1 + FirstIndex(xs[1..], x)
  }

  /** `[...new Set(xs)]`: each element once, where it first occurs. */
  function Dedup(xs: seq<string>): (r: seq<string>)
    ensures forall x :: x in r <==> x in xs
    ensures Distinct(r)
    decreases |xs|
  {
    if |xs| == 0 then []
    else
      var d := Dedup(xs[..|xs| - 1]);
      if xs[|xs| - 1] in d then d else d + [xs[|xs| - 1]]
  }

  lemma FirstIndexSnoc(xs: seq<string>, y: string, x: string)
    requires x in xs
    ensures FirstIndex(xs + [y], x) == FirstIndex(xs, x)
  {
    var k := FirstIndex(xs, x);
    var k' := FirstIndex(xs + [y], x);
    var ys := xs + [y];
    assert ys[k] == x;
    forall j | 0 <= j < k' ensures ys[j] != x {
      assert ys[..k'][j] == ys[j];
    }
    forall j | 0 <= j < k ensures xs[j] != x {
      assert xs[..k][j] == xs[j];
    }
    assert k' < |xs| ==> ys[k'] == xs[k'];
  }

  /** The distinct elements come out in the order of their first occurrences. */
  lemma {:induction false} DedupKeepsFirstOccurrenceOrder(xs: seq<string>)
    ensures forall i, j :: 0 <= i < j < |Dedup(xs)| ==> FirstIndex(xs, Dedup(xs)[i]) < FirstIndex(xs, Dedup(xs)[j])
    decreases |xs|
  {
    if |xs| > 0 {
      var init := xs[..|xs| - 1];
      var last := xs[|xs| - 1];
      assert xs == init + [last];
      DedupKeepsFirstOccurrenceOrder(init);
      var d := Dedup(init);
      forall x | x in d
        ensures FirstIndex(xs, x) == FirstIndex(init, x) < |init|
      {
        FirstIndexSnoc(init, last, x);
      }
      if last !in d {
        assert FirstIndex(xs, last) == |init|;
      }
    }
  }

  /** A list without repetitions is its own deduplication. */
  lemma {:induction false} DedupOfDistinct(xs: seq<string>)
    requires Distinct(xs)
    ensures Dedup(xs) == xs
    decreases |xs|
  {
    if |xs| > 0 {
      var init := xs[..|xs| - 1];
      DedupOfDistinct(init);
      assert xs[|xs| - 1] !in init;
      assert xs == init + [xs[|xs| - 1]];
    }
  }

  /** `options.map(x => Object.keys(x.shape)).flat()`. */
  function Flatten(ss: seq<seq<string>>): seq<string>
    decreases |ss|
  {
    if |ss| == 0 then [] else Flatten(ss[..|ss| - 1]) + ss[|ss| - 1]
  }

  lemma {:induction false} FlattenMembers(ss: seq<seq<string>>, x: string)
    ensures x in Flatten(ss) <==> exists i :: 0 <= i < |ss| && x in ss[i]
    decreases |ss|
  {
    if |ss| > 0 {
      var init := ss[..|ss| - 1];
      FlattenMembers(init, x);
      if x in Flatten(ss) && x !in ss[|ss| - 1] {
        var i :| 0 <= i < |init| && x in init[i];
        assert ss[i] == init[i];
      }
      if exists i :: 0 <= i < |ss| && x in ss[i] {
        var i :| 0 <= i < |ss| && x in ss[i];
        if i < |init| {
          assert init[i] == ss[i];
        }
      }
    }
  }

  /** `attributeNames`: the object's keys, or the distinct keys of all union members in first-occurrence order. */
  function AttributeNamesOf(shape: ItemShape): seq<string> {
    match shape
    case ObjectShape(keys) => keys
    case UnionShape(options) => Dedup(Flatten(options))
  }

  /** A union's attribute names are exactly the names some member has, each once. */
  lemma UnionAttributeNames(options: seq<seq<string>>)
    ensures Distinct(AttributeNamesOf(UnionShape(options)))
    ensures forall x :: x in AttributeNamesOf(UnionShape(options)) <==> exists i :: 0 <= i < |options| && x in options[i]
  {
    forall x ensures x in Dedup(Flatten(options)) <==> exists i :: 0 <= i < |options| && x in options[i] {
      FlattenMembers(options, x);
    }
  }

  /** `keyAttributeNames`: the partition key, then the sort key if there is one. */
  function KeyAttributeNamesOf(partitionKey: string, sortKey: Option<string>): (ks: seq<string>)
    ensures |ks| == if sortKey.Some? then 2 else 1
    ensures ks[0] == partitionKey && (sortKey.Some? ==> ks[1] == sortKey.value)
  {
    [partitionKey] + (if sortKey.Some? then [sortKey.value] else [])
  }

  /** `versionAttributeName`: the given name, `"version"` by default. */
  function VersionAttributeNameOf(versionAttribute: Option<string>): (v: string)
    ensures versionAttribute.Some? ==> v == versionAttribute.value
    ensures versionAttribute.None? ==> v == "version"
  {
    if versionAttribute.Some? then versionAttribute.value else "version"
  }

  /** The error the constructor throws when the shape has the version attribute. */
  function VersionCollisionError(tableName: string, version: string): JsError {
    Named("Error", tableName + " table's item shape includes reserved version attribute \"" + version + "\".")
  }

  /** The constructor's parameters. */
  datatype TableParams = TableParams(
    tableName: string,
    itemShape: ItemShape,
    partitionKey: string,
    sortKey: Option<string>,
    versionAttribute: Option<string>)

  // ---------------------------------------------------------------------------
  // Relationships

  /** A caller-supplied exemption predicate; the library only stores it and hands it over, so it is known by identity. */
  datatype Exemption = Exemption(id: nat)

  /** One entry of `#relationships`. */
  datatype Relationship = Relationship(
    relType: RelationshipType,
    pointerAttributeName: string,
    peerTable: Table,
    peerPointerAttributeName: string,
    compositeKeySeparator: string,
    itemExemption: Option<Exemption>,
    peerItemExemption: Option<Exemption>)

  /** The parameters of `addRelationship`. */
  datatype RelationshipParams = RelationshipParams(
    relType: RelationshipType,
    pointerAttributeName: string,
    peerTable: Table,
    peerPointerAttributeName: string,
    compositeKeySeparator: Option<string>,
    itemExemption: Option<Exemption>,
    peerItemExemption: Option<Exemption>)

  /** The entry `addRelationship` pushes: the separator defaults to `"."`. */
  function Entry(p: RelationshipParams): (e: Relationship)
    ensures p.compositeKeySeparator.None? ==> e.compositeKeySeparator == DefaultRelationshipCompositeKeySeparator
  {
    Relationship(p.relType, p.pointerAttributeName, p.peerTable, p.peerPointerAttributeName,
      if p.compositeKeySeparator.Some? then p.compositeKeySeparator.value else DefaultRelationshipCompositeKeySeparator,
      p.itemExemption, p.peerItemExemption)
  }

  /** The parameters passed on to the peer table: everything seen from the other side. */
  function FlippedParams(p: RelationshipParams, self: Table): RelationshipParams {
    RelationshipParams(Flip(p.relType), p.peerPointerAttributeName, self, p.pointerAttributeName,
      p.compositeKeySeparator, p.peerItemExemption, p.itemExemption)
  }

  /** The entry `e` of table `self` as its peer records it. */
  function Mirror(e: Relationship, self: Table): Relationship {
    Relationship(Flip(e.relType), e.peerPointerAttributeName, self, e.pointerAttributeName,
      e.compositeKeySeparator, e.peerItemExemption, e.itemExemption)
  }

  /**
   * The peer's entry mirrors this table's entry: flipped type, swapped
   * pointer names and exemptions, the same separator; mirroring back gives
   * the original entry.
   */
  lemma PeerEntryIsMirror(p: RelationshipParams, self: Table)
    ensures Entry(FlippedParams(p, self)) == Mirror(Entry(p), self)
    ensures Mirror(Mirror(Entry(p), self), p.peerTable) == Entry(p)
  {
    FlipInvolution(p.relType);
  }

  /** The duplicate test of `addRelationship`: an entry with this peer and this pointer attribute. */
  predicate HasRelationship(rels: seq<Relationship>, peer: Table, pointer: string) {
    exists i :: 0 <= i < |rels| && rels[i].peerTable == peer && rels[i].pointerAttributeName == pointer
  }

  lemma HasRelationshipAppend(rels: seq<Relationship>, e: Relationship, peer: Table, pointer: string)
    ensures HasRelationship(rels + [e], peer, pointer) <==>
      HasRelationship(rels, peer, pointer) || (e.peerTable == peer && e.pointerAttributeName == pointer)
  {
    if HasRelationship(rels, peer, pointer) {
      var i :| 0 <= i < |rels| && rels[i].peerTable == peer && rels[i].pointerAttributeName == pointer;
      assert (rels + [e])[i] == rels[i];
    }
    if HasRelationship(rels + [e], peer, pointer) && !(e.peerTable == peer && e.pointerAttributeName == pointer) {
      var i :| 0 <= i < |rels + [e]| && (rels + [e])[i].peerTable == peer && (rels + [e])[i].pointerAttributeName == pointer;
      assert (rels + [e])[|rels|] == e;
      assert rels[i] == (rels + [e])[i];
    }
  }

  /** The thrown error is a `TableRelationshipAlreadyExistsError`, judged by its `name` as the catch block does. */
  predicate IsAlreadyExists(e: JsError) {
    e.Named? && e.name == "TableRelationshipAlreadyExistsError"
  }

  class Table {
    const tableName: string
    const itemShape: ItemShape
    const partitionKey: string
    const sortKey: Option<string>
    const attributeNames: seq<string>
    const keyAttributeNames: seq<string>
    const versionAttributeName: string
    var relationships: seq<Relationship>

    /** The derived fields, before the version check. */
    constructor (p: TableParams)
      ensures tableName == p.tableName && itemShape == p.itemShape
      ensures partitionKey == p.partitionKey && sortKey == p.sortKey
      ensures attributeNames == AttributeNamesOf(p.itemShape)
      ensures keyAttributeNames == KeyAttributeNamesOf(p.partitionKey, p.sortKey)
      ensures versionAttributeName == VersionAttributeNameOf(p.versionAttribute)
      ensures relationships == []
    {
      tableName := p.tableName;
      itemShape := p.itemShape;
      partitionKey := p.partitionKey;
      sortKey := p.sortKey;
      attributeNames := AttributeNamesOf(p.itemShape);
      keyAttributeNames := KeyAttributeNamesOf(p.partitionKey, p.sortKey);
      versionAttributeName := VersionAttributeNameOf(p.versionAttribute);
      relationships := [];
    }

    /**
     * `new Table(params)`: the derived fields, then a pass over the attribute
     * names that throws on the version attribute.
     */
    static method New(p: TableParams) returns (r: Result<Table, JsError>)
      ensures r.Failure? <==> VersionAttributeNameOf(p.versionAttribute) in AttributeNamesOf(p.itemShape)
      ensures r.Failure? ==> r.error == VersionCollisionError(p.tableName, VersionAttributeNameOf(p.versionAttribute))
      ensures r.Success? ==> (
        && fresh(r.value) && r.value.relationships == []
        && r.value.tableName == p.tableName && r.value.itemShape == p.itemShape
        && r.value.partitionKey == p.partitionKey && r.value.sortKey == p.sortKey
        && r.value.attributeNames == AttributeNamesOf(p.itemShape)
        && r.value.keyAttributeNames == KeyAttributeNamesOf(p.partitionKey, p.sortKey)
        && r.value.versionAttributeName == VersionAttributeNameOf(p.versionAttribute))
    {
      var t := new Table(p);
      for i := 0 to |t.attributeNames|
        invariant t.versionAttributeName !in t.attributeNames[..i]
      {
        if t.attributeNames[i] == t.versionAttributeName {
          return Failure(VersionCollisionError(t.tableName, t.versionAttributeName));
        }
      }
      assert t.attributeNames[..|t.attributeNames|] == t.attributeNames;
      return Success(t);
    }

    /** How many of the two mirrored entries are still missing; each nested call adds one. */
    function Missing(p: RelationshipParams): nat
      reads this, p.peerTable
    {
      (if HasRelationship(relationships, p.peerTable, p.pointerAttributeName) then 0 else 1)
      + (if HasRelationship(p.peerTable.relationships, this, p.peerPointerAttributeName) then 0 else 1)
    }

    /**
     * `addRelationship`: a duplicate (same peer, same pointer attribute) is
     * refused; otherwise the entry is pushed and the flipped relationship is
     * registered on the peer, whose already-exists error is swallowed. The
     * peer's nested call back to this table always meets the entry just
     * pushed, so it ends there. A self-relationship (`peerTable` is this
     * table) gets both entries on the one list.
     */
    method AddRelationship(p: RelationshipParams) returns (r: Result<(), JsError>)
      modifies this, p.peerTable
      decreases Missing(p)
      ensures HasRelationship(old(relationships), p.peerTable, p.pointerAttributeName) ==>
        && r == Failure(TableRelationshipAlreadyExistsError)
        && relationships == old(relationships) && p.peerTable.relationships == old(p.peerTable.relationships)
      ensures !HasRelationship(old(relationships), p.peerTable, p.pointerAttributeName) ==>
        var mid := if p.peerTable == this then old(relationships) + [Entry(p)] else old(p.peerTable.relationships);
        && r == Success(())
        && (p.peerTable != this ==> relationships == old(relationships) + [Entry(p)])
        && p.peerTable.relationships == mid + (if HasRelationship(mid, this, p.peerPointerAttributeName) then [] else [Entry(FlippedParams(p, this))])
      ensures r.Success? && p.peerTable != this && !HasRelationship(old(p.peerTable.relationships), this, p.peerPointerAttributeName) ==>
        && 0 < |relationships| && 0 < |p.peerTable.relationships|
        && HasRelationship(p.peerTable.relationships, this, p.peerPointerAttributeName)
        && p.peerTable.relationships[|p.peerTable.relationships| - 1] == Mirror(relationships[|relationships| - 1], this)
    {
      if HasRelationship(relationships, p.peerTable, p.pointerAttributeName) {
        return Failure(TableRelationshipAlreadyExistsError);
      }
      HasRelationshipAppend(relationships, Entry(p), p.peerTable, p.pointerAttributeName);
      HasRelationshipAppend(relationships, Entry(p), this, p.peerPointerAttributeName);
      relationships := relationships + [Entry(p)];
      var peer := p.peerTable;
      var q := FlippedParams(p, this);
      HasRelationshipAppend(peer.relationships, Entry(q), this, p.pointerAttributeName);
      var r2 := peer.AddRelationship(q);
      if r2.Failure? && !IsAlreadyExists(r2.error) {
        // Any other error would be rethrown here; the nested call can only refuse a duplicate.
        assert false;
      }
      if peer != this && !HasRelationship(old(peer.relationships), this, p.peerPointerAttributeName) {
        MirroredOnBothSides(this, p, old(relationships), old(peer.relationships));
      }
      return Success(());
    }

    /** The `relationships` getter: a copy, as a value the table's later changes do not reach. */
    method GetRelationships() returns (rs: seq<Relationship>)
      ensures rs == relationships
    {
      rs := relationships;
    }
  }

  /**
   * After a successful `AddRelationship` between two different tables with
   * the peer not yet pointing back, each table holds the entry for the other:
   * this table's is `Entry(p)`, the peer's its mirror.
   */
  lemma MirroredOnBothSides(self: Table, p: RelationshipParams, mine: seq<Relationship>, theirs: seq<Relationship>)
    requires p.peerTable != self
    requires !HasRelationship(theirs, self, p.peerPointerAttributeName)
    ensures var mine' := mine + [Entry(p)];
      var theirs' := theirs + [Entry(FlippedParams(p, self))];
      && HasRelationship(mine', p.peerTable, p.pointerAttributeName)
      && HasRelationship(theirs', self, p.peerPointerAttributeName)
      && theirs'[|theirs'| - 1] == Mirror(mine'[|mine'| - 1], self)
  {
    PeerEntryIsMirror(p, self);
    HasRelationshipAppend(mine, Entry(p), p.peerTable, p.pointerAttributeName);
    HasRelationshipAppend(theirs, Entry(FlippedParams(p, self)), self, p.peerPointerAttributeName);
  }
}
