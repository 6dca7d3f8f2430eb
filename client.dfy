/**
 * `OptimusDdbClient`: the tracking map of the items it hands out, and the
 * operations that read, draft, mark and commit them. Every store call is
 * an input: the item a get returns, the batch a batch get returns, and the
 * outcome of sending the transaction.
 */
module Clients {
  import opened Wrappers
  import opened JsValues
  import opened ExpressionBuilding
  import opened Utilities
  import opened Types
  import opened Tables
  import opened ItemTracking

  /** A `Gsi`: four fields copied from its parameters. */
  datatype Gsi = Gsi(table: Table, indexName: string, partitionKey: string, sortKey: Option<string>)

  /** The `index` a query or a scan takes. */
  datatype Index = TableIndex(table: Table) | GsiIndex(gsi: Gsi)

  /** `TableName`, `IndexName` and `ConsistentRead` of a query or scan request. */
  datatype ReadOptions = ReadOptions(tableName: string, indexName: Option<string>, consistentRead: bool)

  /**
   * The request options `queryItems` and `scanItems` build. `ConsistentRead`
   * is `index instanceof Table`, but `TableName` is read first as
   * `index.table.tableName`, a field a `Table` does not have, so a read
   * over a table throws a TypeError and only an index read is sent, never
   * consistently.
   */
  function ReadOptionsOf(index: Index): (r: Result<ReadOptions, JsError>)
    ensures r.Success? <==> index.GsiIndex?
    ensures r.Failure? ==> r.error == EngineTypeError
    ensures r.Success? ==>
      && !r.value.consistentRead && r.value.indexName == Some(index.gsi.indexName)
      && r.value.tableName == index.gsi.table.tableName
  {
    var consistent := index.TableIndex?;
    match index
    case TableIndex(_) => Failure(EngineTypeError)
    case GsiIndex(g) => Success(ReadOptions(g.table.tableName, Some(g.indexName), consistent))
  }

  /** What `getItem` does when the store has no item under `key`. */
  function NotFoundOf(key: Record, override: Option<JsError -> Option<JsError>>): (r: Result<(), JsError>)
    ensures Get(key, "itemKeys") == Undef ==> r == Failure(EngineTypeError)
    ensures Get(key, "itemKeys") != Undef && override.None? ==> r == Failure(ItemNotFound(Get(key, "itemKeys")))
    ensures Get(key, "itemKeys") != Undef && override.Some? ==>
      r == (match override.value(ItemNotFound(Get(key, "itemKeys")))
            case Some(e) => Failure(e)
            case None => Success(()))
  {
    var e := ItemNotFoundFrom(Obj(key));
    if !e.ItemNotFound? || override.None? then Failure(e)
    else
      match override.value(e)
      case Some(e2) => Failure(e2)
      case None => Success(())
  }

  /**
   * `getItem` passes the key itself where `{itemKeys}` is expected: an
   * ordinary key (one without an `itemKeys` attribute) makes the not-found
   * path throw a TypeError, with or without an override.
   */
  lemma NotFoundIsTypeError(key: Record, o1: Option<JsError -> Option<JsError>>, o2: Option<JsError -> Option<JsError>>)
    requires "itemKeys" !in key
    ensures NotFoundOf(key, o1) == NotFoundOf(key, o2) == Failure(EngineTypeError)
  {
  }

  /**
   * The `find` callback of `getItems`: its block body compares the item with
   * the key and discards the comparison, and without `return` it gives
   * `undefined`, whatever the key and the item.
   */
  function FindCallback(key: Record, item: Record): Term {
    Undef
  }

  /** `items.find(item => ...)`: the first item the callback is truthy for, or `undefined`. */
  function FindItem(items: seq<Record>, key: Record): Option<Record>
    decreases |items|
  {
    if |items| == 0 then None
    else if Truthy(FindCallback(key, items[0])) then Some(items[0])
    else FindItem(items[1..], key)
  }

  /** `keys.filter(key => !items.find(...))`: `!` keeps a key exactly when `find` gives `undefined`. */
  function UnfoundKeys(keys: seq<Record>, items: seq<Record>): seq<Record>
    decreases |keys|
  {
    if |keys| == 0 then []
    else
      var key := keys[|keys| - 1];
      UnfoundKeys(keys[..|keys| - 1], items) + (if FindItem(items, key).None? then [key] else [])
  }

  /** The callback never returns a truthy value, so `find` finds nothing in any batch. */
  lemma {:induction false} FindsNothing(items: seq<Record>, key: Record)
    ensures FindItem(items, key) == None
    decreases |items|
  {
    if |items| > 0 {
      FindsNothing(items[1..], key);
    }
  }

  /** Every key counts as not found, in order, whatever items the batch returned. */
  lemma {:induction false} EveryKeyUnfound(keys: seq<Record>, items: seq<Record>)
    ensures UnfoundKeys(keys, items) == keys
    decreases |keys|
  {
    if |keys| > 0 {
      EveryKeyUnfound(keys[..|keys| - 1], items);
      FindsNothing(items, keys[|keys| - 1]);
      assert keys[..|keys| - 1] + [keys[|keys| - 1]] == keys;
    }
  }

  /**
   * What `getItems` throws when the batch holds fewer or more items than
   * keys: an error over `UnfoundKeys`, which is every key. Without an
   * override, `ItemNotFoundError` is handed that array where it expects
   * `{itemKeys}`, and reading `.length` of the missing field throws a
   * TypeError; with one, whatever the override returns for an
   * `ItemsNotFoundError` of the unfound keys is thrown.
   */
  function MissingItemsError(keys: seq<Record>, items: seq<Record>, override: Option<JsError -> JsError>): (e: JsError)
    ensures override.None? ==> e == EngineTypeError
    ensures override.Some? ==> e == override.value(ItemsNotFound(keys))
  {
    var unfound := UnfoundKeys(keys, items);
    EveryKeyUnfound(keys, items);
    if override.None? then ItemNotFoundFrom(Arr(seq(|unfound|, i requires 0 <= i < |unfound| => Obj(unfound[i]))))
    else override.value(ItemsNotFound(unfound))
  }

  /** The batch get's answer for the table: its items, and how many tables kept unprocessed keys. */
  datatype BatchResponse = BatchResponse(items: seq<Record>, unprocessedTables: nat)

  /** `#recordAndStripItem` accepts the attributes `attrs`. */
  predicate Recordable(attrs: Record, table: Table, create: bool, validate: Validator) {
    (create || Get(attrs, "version").Int?) && validate(attrs - {"version"}, table.itemShape).None?
  }

  /** The metadata recorded for an item read or drafted with attributes `attrs`. */
  function RecordedData(attrs: Record, table: Table, create: bool): (d: ItemData)
    ensures d.table == table && d.version == Get(attrs, "version") && !d.delete && d.create == create
    ensures forall k :: k in d.key <==> k in table.keyAttributeNames
  {
    ItemData(table, KeyOf(attrs - {"version"}, table.keyAttributeNames), Get(attrs, "version"), false, create)
  }

  /** Recording a read item: it succeeds exactly when the attributes are recordable, and then only that item's entry is set. */
  lemma RecordRead(rec: Tracked, item: Item, attrs: Record, table: Table, validate: Validator)
    ensures var (o, rec', attrs') := RecordOf(rec, item, attrs, table, false, validate);
      && (o.Success? <==> Recordable(attrs, table, false, validate))
      && (o.Success? ==> rec' == rec[item := RecordedData(attrs, table, false)] && attrs' == attrs - {"version"})
      && (o.Failure? ==> rec' == rec)
  {
  }

  /**
   * `out` are the items recorded so far for the first `|out|` records: each is
   * tracked with its record's metadata, they are distinct, the entries of
   * `start` are kept, and nothing else is tracked.
   */
  ghost predicate RecordedAs(rec: Tracked, start: Tracked, out: seq<Item>, items: seq<Record>, table: Table) {
    && |out| <= |items|
    && (forall j :: 0 <= j < |out| ==> out[j] in rec && rec[out[j]] == RecordedData(items[j], table, false))
    && (forall j, k :: 0 <= j < k < |out| ==> out[j] != out[k])
    && (forall it :: it in start ==> it in rec && rec[it] == start[it])
    && (forall it :: it in rec ==> it in start || it in out)
  }

  /** Recording one more new item keeps `RecordedAs`. */
  lemma RecordedAsStep(rec: Tracked, start: Tracked, out: seq<Item>, items: seq<Record>, table: Table, item: Item)
    requires RecordedAs(rec, start, out, items, table) && |out| < |items| && item !in rec
    ensures RecordedAs(rec[item := RecordedData(items[|out|], table, false)], start, out + [item], items, table)
  {
    var rec' := rec[item := RecordedData(items[|out|], table, false)];
    var out' := out + [item];
    forall j | 0 <= j < |out'|
      ensures out'[j] in rec' && rec'[out'[j]] == RecordedData(items[j], table, false)
    {
      if j < |out| {
        assert out'[j] == out[j] && out[j] in rec;
      }
    }
  }

  /** `BuildOps` stops at the first failure: the rest of the list is not looked at. */
  lemma {:induction false} BuildOpsFailureSticks(rec: Tracked, attrs: map<Item, Record>, items: seq<Item>, k: nat, validate: Validator, opFor: OpBuilder)
    requires forall i :: 0 <= i < |items| ==> items[i] in attrs
    requires k <= |items| && BuildOps(rec, attrs, items[..k], validate, opFor).0.Failure?
    ensures BuildOps(rec, attrs, items, validate, opFor) == BuildOps(rec, attrs, items[..k], validate, opFor)
    decreases |items| - k
  {
    if k < |items| {
      var next := items[..k + 1];
      assert next[..k] == items[..k];
      assert BuildOps(rec, attrs, next, validate, opFor) == BuildOps(rec, attrs, items[..k], validate, opFor);
      BuildOpsFailureSticks(rec, attrs, items, k + 1, validate, opFor);
    } else {
      assert items[..k] == items;
    }
  }

  /** One more item for `BuildOps`: its `Prepare` result is appended and its attributes replaced. */
  lemma BuildOpsStep(rec: Tracked, attrs: map<Item, Record>, items: seq<Item>, i: nat, validate: Validator, opFor: OpBuilder,
                     ops: seq<TransactOp>, a1: map<Item, Record>, op: Result<TransactOp, JsError>, at: Record)
    requires forall j :: 0 <= j < |items| ==> items[j] in attrs
    requires i < |items| && BuildOps(rec, attrs, items[..i], validate, opFor) == (Success(ops), a1)
    requires items[i] in a1 && (op, at) == Prepare(rec, items[i], a1[items[i]], validate, opFor)
    ensures BuildOps(rec, attrs, items[..i + 1], validate, opFor)
      == (if op.Failure? then Failure(op.error) else Success(ops + [op.value]), a1[items[i] := at])
  {
    assert items[..i + 1][..i] == items[..i];
    assert items[..i + 1][i] == items[i];
  }

  /** `PostCommit` stops at the first failure. */
  lemma {:induction false} PostCommitFailureSticks(rec: Tracked, items: seq<Item>, k: nat)
    requires VersionsKnown(rec)
    requires k <= |items| && PostCommit(rec, items[..k]).0.Failure?
    ensures PostCommit(rec, items) == PostCommit(rec, items[..k])
    decreases |items| - k
  {
    if k < |items| {
      var next := items[..k + 1];
      assert next[..k] == items[..k];
      assert PostCommit(rec, next) == PostCommit(rec, items[..k]);
      PostCommitFailureSticks(rec, items, k + 1);
    } else {
      assert items[..k] == items;
    }
  }

  /** The items' attributes, by identity. */
  function AttrsOf(items: seq<Item>): (m: map<Item, Record>)
    reads items
    ensures forall i :: 0 <= i < |items| ==> items[i] in m && m[items[i]] == items[i].attrs
    ensures m.Keys == set it | it in items
  {
    map it | it in items :: it.attrs
  }

  class OptimusDdbClient {
    /** `#recordedItems`. */
    var recordedItems: Tracked
    /** `validateShape`. */
    const validate: Validator

    ghost predicate Valid()
      reads this
    {
      VersionsKnown(recordedItems)
    }

    constructor (validate: Validator)
      ensures Valid() && recordedItems == map[] && this.validate == validate
    {
      recordedItems := map[];
      this.validate := validate;
    }

    /** `#recordAndStripItem(item, table, create)`; `validateShape` is taken to return the item it checks. */
    method RecordAndStripItem(item: Item, table: Table, create: bool) returns (r: Result<Item, JsError>)
      requires Valid()
      modifies this, item
      ensures Valid()
      ensures var (o, rec, attrs) := RecordOf(old(recordedItems), item, old(item.attrs), table, create, validate);
        && recordedItems == rec && item.attrs == attrs
        && (r.Success? <==> o.Success?)
        && (r.Success? ==> r.value == item)
        && (r.Failure? ==> o.Failure? && r.error == o.error)
    {
      if !create && !Get(item.attrs, "version").Int? {
        return Failure(Described("Item must have verison: ", Obj(item.attrs)));
      }
      var version := Get(item.attrs, "version");
      item.attrs := item.attrs - {"version"};
      var invalid := validate(item.attrs, table.itemShape);
      if invalid.Some? {
        return Failure(invalid.value);
      }
      recordedItems := recordedItems[item := ItemData(table, KeyOf(item.attrs, table.keyAttributeNames), version, false, create)];
      return Success(item);
    }

    /**
     * `getItem`, given what the store returned for `key`. A found item is
     * recorded as read; nothing is recorded when there is none.
     */
    method GetItem(table: Table, key: Record, found: Option<Record>, override: Option<JsError -> Option<JsError>>)
      returns (r: Result<Option<Item>, JsError>)
      requires Valid()
      modifies this
      ensures Valid()
      ensures found.None? ==> recordedItems == old(recordedItems)
      ensures found.None? ==>
        match NotFoundOf(key, override)
        case Success(_) => r == Success(None)
        case Failure(e) => r == Failure(e)
      ensures found.Some? ==> (r.Success? <==> Recordable(found.value, table, false, validate))
      ensures found.Some? && r.Success? ==>
        && r.value.Some? && fresh(r.value.value)
        && r.value.value.attrs == found.value - {"version"}
        && recordedItems == old(recordedItems)[r.value.value := RecordedData(found.value, table, false)]
      ensures r.Failure? ==> recordedItems == old(recordedItems)
    {
      if found.None? {
        var e := ItemNotFoundFrom(Obj(key));
        if !e.ItemNotFound? {
          return Failure(e);
        }
        if override.Some? {
          var o := override.value(e);
          if o.Some? {
            return Failure(o.value);
          }
          return Success(None);
        }
        return Failure(e);
      }
      var item := new Item(found.value);
      var res := RecordAndStripItem(item, table, false);
      if res.Failure? {
        return Failure(res.error);
      }
      return Success(Some(item));
    }

    /**
     * `getItems`, given the batch the store returned. An unprocessed key
     * throws a TypeError, since `UnprocessedKeysError` is handed an array where
     * it reads a field; a missing item throws `MissingItemsError`; otherwise
     * the batch's items are recorded by `RecordItems`.
     */
    method GetItems(table: Table, keys: seq<Record>, response: BatchResponse, override: Option<JsError -> JsError>)
      returns (r: Result<seq<Item>, JsError>)
      requires Valid()
      modifies this
      ensures Valid()
      ensures |keys| == 0 ==> r == Success([]) && recordedItems == old(recordedItems)
      ensures |keys| > 0 && response.unprocessedTables > 0 ==>
        r == Failure(EngineTypeError) && recordedItems == old(recordedItems)
      ensures |keys| > 0 && response.unprocessedTables == 0 && |response.items| != |keys| ==>
        r == Failure(MissingItemsError(keys, response.items, override)) && recordedItems == old(recordedItems)
      ensures |keys| > 0 && response.unprocessedTables == 0 && |response.items| == |keys| ==>
        (r.Success? <==> forall i :: 0 <= i < |response.items| ==> Recordable(response.items[i], table, false, validate))
      ensures r.Success? && |keys| > 0 ==> |r.value| == |response.items|
      ensures r.Success? ==> forall i, j :: 0 <= i < j < |r.value| ==> r.value[i] != r.value[j]
      ensures r.Success? && |keys| > 0 ==> forall i :: 0 <= i < |r.value| ==>
        && fresh(r.value[i]) && r.value[i].attrs == response.items[i] - {"version"}
        && r.value[i] in recordedItems && recordedItems[r.value[i]] == RecordedData(response.items[i], table, false)
      ensures forall it :: it in old(recordedItems) ==> it in recordedItems && recordedItems[it] == old(recordedItems)[it]
      ensures r.Success? ==> forall it :: it in recordedItems ==> it in old(recordedItems) || it in r.value
      ensures forall it :: it in recordedItems && it !in old(recordedItems) ==> fresh(it)
    {
      if |keys| == 0 {
        return Success([]);
      }
      if response.unprocessedTables > 0 {
        return Failure(EngineTypeError);
      }
      if |response.items| != |keys| {
        return Failure(MissingItemsError(keys, response.items, override));
      }
      r := RecordItems(table, response.items);
    }

    /**
     * `items.map(item => this.#recordAndStripItem(item, table, false))`: a new
     * item for each record, recorded in turn; a rejected record stops the map
     * and leaves the earlier ones recorded.
     */
    method RecordItems(table: Table, items: seq<Record>) returns (r: Result<seq<Item>, JsError>)
      requires Valid()
      modifies this
      ensures Valid()
      ensures r.Success? <==> forall i :: 0 <= i < |items| ==> Recordable(items[i], table, false, validate)
      ensures r.Success? ==> |r.value| == |items|
      ensures r.Success? ==> forall i, j :: 0 <= i < j < |r.value| ==> r.value[i] != r.value[j]
      ensures r.Success? ==> forall i :: 0 <= i < |r.value| ==>
        && fresh(r.value[i]) && r.value[i].attrs == items[i] - {"version"}
        && r.value[i] in recordedItems && recordedItems[r.value[i]] == RecordedData(items[i], table, false)
      ensures forall it :: it in old(recordedItems) ==> it in recordedItems && recordedItems[it] == old(recordedItems)[it]
      ensures r.Success? ==> forall it :: it in recordedItems ==> it in old(recordedItems) || it in r.value
      ensures forall it :: it in recordedItems && it !in old(recordedItems) ==> fresh(it)
    {
      var out: seq<Item> := [];
      var i := 0;
      while i < |items|
        invariant 0 <= i <= |items| && |out| == i && Valid()
        invariant forall j :: 0 <= j < i ==> Recordable(items[j], table, false, validate)
        invariant forall j :: 0 <= j < i ==> fresh(out[j]) && out[j].attrs == items[j] - {"version"}
        invariant RecordedAs(recordedItems, old(recordedItems), out, items, table)
      {
        ghost var rec0 := recordedItems;
        var item := new Item(items[i]);
        RecordRead(rec0, item, items[i], table, validate);
        var res := RecordAndStripItem(item, table, false);
        if res.Failure? {
          return Failure(res.error);
        }
        RecordedAsStep(rec0, old(recordedItems), out, items, table, item);
        out := out + [item];
        i := i + 1;
      }
      return Success(out);
    }

    /** `draftItem`: a shallow copy of the item is recorded as a draft; the caller's object is left alone. */
    method DraftItem(table: Table, source: Item) returns (r: Result<Item, JsError>)
      requires Valid()
      modifies this
      ensures Valid()
      ensures r.Success? <==> Recordable(source.attrs, table, true, validate)
      ensures r.Success? ==>
        && fresh(r.value) && r.value.attrs == source.attrs - {"version"}
        && recordedItems == old(recordedItems)[r.value := RecordedData(source.attrs, table, true)]
      ensures r.Failure? ==> recordedItems == old(recordedItems)
    {
      var copy := new Item(source.attrs);
      r := RecordAndStripItem(copy, table, true);
    }

    /** `markItemForDeletion`. */
    method MarkItemForDeletion(item: Item) returns (r: Result<(), JsError>)
      requires Valid()
      modifies this
      ensures Valid()
      ensures (r, recordedItems) == MarkOf(old(recordedItems), item, item.attrs)
    {
      if item !in recordedItems {
        return Failure(Described("Unrecorded item cannot be marked for deletion: ", Obj(item.attrs)));
      }
      if recordedItems[item].delete {
        return Failure(Described("Item is already marked for deletion: ", Obj(item.attrs)));
      }
      recordedItems := recordedItems[item := recordedItems[item].(delete := true)];
      return Success(());
    }

    /** `getItemVersion`. */
    method GetItemVersion(item: Item) returns (r: Result<Term, JsError>)
      ensures r == VersionOf(recordedItems, item, item.attrs)
    {
      if item !in recordedItems {
        return Failure(Described("Cannot get version for unrecorded item: ", Obj(item.attrs)));
      }
      return Success(recordedItems[item].version);
    }

    /** The `SET` list's `map`: a name alias and a value alias for each key, in order. */
    static method AddSetPairs(b: ExpressionBuilder, attrs: Record, keys: seq<string>) returns (ns: seq<string>, vs: seq<string>)
      requires b.Valid() && forall k :: k in keys ==> Get(attrs, k) != Undef
      modifies b
      ensures b.Valid() && (ns, vs, b.State()) == SetAliases(old(b.State()), attrs, keys)
    {
      ns := [];
      vs := [];
      for i := 0 to |keys|
        invariant b.Valid() && (ns, vs, b.State()) == SetAliases(old(b.State()), attrs, keys[..i])
      {
        ghost var st1 := b.State();
        var n := b.AddName(Str(keys[i]));
        ghost var st2 := b.State();
        var v := b.AddValue(Get(attrs, keys[i]));
        PrefixSnoc(keys, i);
        SetAliasesSnoc(old(b.State()), attrs, keys[..i], keys[i], ns, vs, st1, n, st2, v, b.State());
        ns := ns + [n];
        vs := vs + [v];
      }
      assert keys[..|keys|] == keys;
    }

    /** The `REMOVE` list's `map`: a name alias for each key, in order. */
    static method AddRemoveNames(b: ExpressionBuilder, gone: seq<string>) returns (rs: seq<string>)
      requires b.Valid()
      modifies b
      ensures b.Valid() && (rs, b.State()) == NameAliases(old(b.State()), gone)
    {
      rs := [];
      for i := 0 to |gone|
        invariant b.Valid() && (rs, b.State()) == NameAliases(old(b.State()), gone[..i])
      {
        assert gone[..i + 1][..i] == gone[..i];
        var n := b.AddName(Str(gone[i]));
        rs := rs + [n];
      }
      assert gone[..|gone|] == gone;
    }

    /**
     * `#getUpdateDynamoDbExpression(item, itemData)` with a builder of its
     * own: the `SET` pairs, then the `REMOVE` names, then the condition.
     */
    static method GetUpdateDynamoDbExpression(attrs: Record, data: ItemData) returns (r: Result<UpdateExpr, JsError>)
      ensures r == UpdateExpressionOf(attrs, data)
    {
      var b := new ExpressionBuilder();
      var keys := SetKeys(attrs, data);
      var ns, vs := AddSetPairs(b, attrs, keys);
      var gone := RemoveKeys(attrs, data);
      var rs := AddRemoveNames(b, gone);
      assert ListAliases(attrs, keys, gone) == (ns, vs, rs, b.State());
      ghost var st2 := b.State();
      var first := b.AddName(Str("version"));
      var second := b.AddName(Str("version"));
      if data.version == Undef {
        return Failure(EngineTypeError);
      }
      var v := b.AddValue(data.version);
      assert VersionAliases(st2, data.version) == (first, second, v, b.State());
      r := Success(UpdateExpr(UpdateText(ns, vs, rs), ConditionText(first, second, v), b.names, b.values));
    }

    /** The `map` callback of `commitItems` for one item. */
    method PrepareItem(item: Item) returns (r: Result<TransactOp, JsError>)
      modifies item
      ensures (r, item.attrs) == Prepare(recordedItems, item, old(item.attrs), validate, OpFor)
    {
      if item !in recordedItems {
        return Failure(Described("Unrecorded item cannot be committed: ", Obj(item.attrs)));
      }
      if Get(item.attrs, "version") != Undef {
        return Failure(Described("Item contains illegal version attribute: ", Obj(item.attrs)));
      }
      var data := recordedItems[item];
      var invalid := validate(item.attrs, data.table.itemShape);
      if invalid.Some? {
        return Failure(invalid.value);
      }
      ghost var a0 := item.attrs;
      var keys := item.attrs.Keys;
      while keys != {}
        invariant keys <= a0.Keys
        invariant item.attrs == map k | k in a0 && (k in keys || a0[k] != Undef) :: a0[k]
        decreases |keys|
      {
        var k :| k in keys;
        if item.attrs[k] == Undef {
          item.attrs := item.attrs - {k};
        }
        keys := keys - {k};
      }
      assert item.attrs == StripUndefined(a0);
      if data.delete {
        var x := GetDynamoDbExpression(ExpressionProps(None, None, None, Some(DeleteConditions(data.version))));
        EmptyExpression(Some(DeleteConditions(data.version)));
        return Success(DeleteOp(data.table.tableName, data.key, x.value));
      } else if data.create {
        var x := GetDynamoDbExpression(ExpressionProps(None, None, None, None));
        EmptyExpression(None);
        return Success(PutOp(data.table.tableName, item.attrs["version" := Int(0)], x.value));
      } else {
        var u := GetUpdateDynamoDbExpression(item.attrs, data);
        if u.Failure? {
          return Failure(u.error);
        }
        return Success(UpdateOp(data.table.tableName, data.key, u.value));
      }
    }

    /** `PrepareItem` on one item of the list, seen through the list's attributes. */
    method PrepareListed(items: seq<Item>, item: Item) returns (r: Result<TransactOp, JsError>)
      requires item in items
      modifies item
      ensures (r, item.attrs) == Prepare(recordedItems, item, old(item.attrs), validate, OpFor)
      ensures AttrsOf(items) == old(AttrsOf(items))[item := item.attrs]
    {
      r := PrepareItem(item);
      assert AttrsOf(items) == old(AttrsOf(items))[item := item.attrs];
    }

    /** `props.items.map(...)`: one operation per item, stopping at the first exception. */
    method BuildTransaction(items: seq<Item>) returns (r: Result<seq<TransactOp>, JsError>)
      modifies items
      ensures (r, AttrsOf(items)) == BuildOps(recordedItems, old(AttrsOf(items)), items, validate, OpFor)
    {
      ghost var attrs0 := AttrsOf(items);
      var ops: seq<TransactOp> := [];
      var i := 0;
      while i < |items|
        invariant 0 <= i <= |items|
        invariant BuildOps(recordedItems, attrs0, items[..i], validate, OpFor) == (Success(ops), AttrsOf(items))
      {
        var item := items[i];
        ghost var before := AttrsOf(items);
        var op := PrepareListed(items, item);
        BuildOpsStep(recordedItems, attrs0, items, i, validate, OpFor, ops, before, op, item.attrs);
        if op.Failure? {
          BuildOpsFailureSticks(recordedItems, attrs0, items, i + 1, validate, OpFor);
          return Failure(op.error);
        }
        ops := ops + [op.value];
        i := i + 1;
      }
      assert items[..|items|] == items;
      return Success(ops);
    }

    /** The `forEach` after a successful transaction. */
    method MoveOn(items: seq<Item>) returns (r: Result<(), JsError>)
      requires Valid()
      modifies this
      ensures Valid()
      ensures (r, recordedItems) == PostCommit(old(recordedItems), items)
    {
      ghost var rec0 := recordedItems;
      var j := 0;
      while j < |items|
        invariant 0 <= j <= |items|
        invariant PostCommit(rec0, items[..j]) == (Success(()), recordedItems)
      {
        var item := items[j];
        assert items[..j + 1][..j] == items[..j];
        if item !in recordedItems {
          PostCommitFailureSticks(rec0, items, j + 1);
          return Failure(EngineTypeError);
        }
        var data := recordedItems[item];
        if data.create {
          data := data.(version := Int(0), create := false);
        } else {
          data := data.(version := Int(data.version.n + 1));
        }
        recordedItems := recordedItems[item := data];
        if data.delete {
          recordedItems := recordedItems - {item};
        }
        j := j + 1;
      }
      assert items[..|items|] == items;
      return Success(());
    }

    /**
     * `commitItems`: build the transaction, send it, map a cancellation to
     * an error, and on success move every listed item's metadata on.
     */
    method CommitItems(items: seq<Item>, send: seq<TransactOp> -> SendOutcome, override: Option<JsError -> JsError>)
      returns (r: Result<(), JsError>)
      requires Valid()
      modifies this, items
      ensures Valid()
      ensures (r, recordedItems, AttrsOf(items)) == CommitOf(old(recordedItems), old(AttrsOf(items)), items, validate, send, override)
    {
      if |items| == 0 {
        return Success(());
      }
      var built := BuildTransaction(items);
      if built.Failure? {
        return Failure(built.error);
      }
      var outcome := send(built.value);
      if outcome.Cancelled? {
        if OnlyConditionsFailed(outcome.reasons) {
          if override.Some? {
            return Failure(override.value(OptimisticLockError));
          }
          return Failure(OptimisticLockError);
        }
        return Failure(Described("TransactionCanceledException due to: ", ReasonsTerm(outcome.reasons)));
      } else if outcome.SendFailed? {
        return Failure(outcome.error);
      }
      r := MoveOn(items);
    }
  }
}
