/**
 * What the client remembers about every item it hands out, and the meaning
 * of its operations on values: recording an item read or drafted, the
 * update expression, the transaction `commitItems` builds, how a cancelled
 * transaction is reported, and the metadata update after a commit.
 */
module ItemTracking {
  import opened Wrappers
  import opened JsValues
  import opened ExpressionBuilding
  import opened Utilities
  import opened Types
  import opened Tables

  /** An item object handed to the caller. The client tracks it by identity. */
  class Item {
    var attrs: Record

    constructor (attrs: Record)
      ensures this.attrs == attrs
    {
      this.attrs := attrs;
    }
  }

  /** `ItemData`: the item's table, the key it was read under, the version read, and the two flags. */
  datatype ItemData = ItemData(table: Table, key: Record, version: Term, delete: bool, create: bool)

  /** `#recordedItems`. */
  type Tracked = map<Item, ItemData>

  /** What the client keeps true: an item that was not drafted carries the integer version it was read with. */
  predicate VersionsKnown(rec: Tracked) {
    forall it :: it in rec ==> rec[it].create || rec[it].version.Int?
  }

  /** `validateShape(item, shape)`: the error it throws, or `None` when the item conforms. */
  type Validator = (Record, ItemShape) -> Option<JsError>

  // ---------------------------------------------------------------------------
  // Recording

  /** `Object.fromEntries(keyAttributes.map(k => [k, item[k]]))`. */
  function KeyOf(attrs: Record, keyNames: seq<string>): (key: Record)
    ensures forall k :: k in key <==> k in keyNames
    ensures forall k :: k in key ==> key[k] == Get(attrs, k)
  {
    map k | k in keyNames :: Get(attrs, k)
  }

  /**
   * `#recordAndStripItem(item, table, create)` with `attrs` the item's
   * attributes: the outcome, the tracking map afterwards and the item's
   * attributes afterwards. `version` is removed before the item is
   * validated, so an item that fails validation has lost it and stays untracked.
   */
  function RecordOf(rec: Tracked, item: Item, attrs: Record, table: Table, create: bool, validate: Validator): (r: (Result<(), JsError>, Tracked, Record))
    ensures r.0.Success? <==> (create || Get(attrs, "version").Int?) && validate(attrs - {"version"}, table.itemShape).None?
    ensures !create && !Get(attrs, "version").Int? ==>
      r == (Failure(Described("Item must have verison: ", Obj(attrs))), rec, attrs)
    ensures (create || Get(attrs, "version").Int?) ==> r.2 == attrs - {"version"}
    ensures r.0.Failure? ==> r.1 == rec
    ensures r.0.Success? ==>
      && item in r.1 && r.1 == rec[item := r.1[item]]
      && r.1[item].table == table && r.1[item].version == Get(attrs, "version")
      && !r.1[item].delete && r.1[item].create == create
      && (forall k :: k in r.1[item].key <==> k in table.keyAttributeNames)
      && (forall k :: k in r.1[item].key && k != "version" ==> r.1[item].key[k] == Get(attrs, k))
    ensures VersionsKnown(rec) ==> VersionsKnown(r.1)
  {
    if !create && !Get(attrs, "version").Int? then
      (Failure(Described("Item must have verison: ", Obj(attrs))), rec, attrs)
    else
      var stripped := attrs - {"version"};
      match validate(stripped, table.itemShape)
      case Some(e) => (Failure(e), rec, stripped)
      case None =>
        var data := ItemData(table, KeyOf(stripped, table.keyAttributeNames), Get(attrs, "version"), false, create);
        (Success(()), rec[item := data], stripped)
  }

  /** `markItemForDeletion`: only the item's `delete` flag changes. */
  function MarkOf(rec: Tracked, item: Item, attrs: Record): (r: (Result<(), JsError>, Tracked))
    ensures r.0.Success? <==> item in rec && !rec[item].delete
    ensures item !in rec ==> r.0 == Failure(Described("Unrecorded item cannot be marked for deletion: ", Obj(attrs)))
    ensures item in rec && rec[item].delete ==> r.0 == Failure(Described("Item is already marked for deletion: ", Obj(attrs)))
    ensures r.0.Failure? ==> r.1 == rec
    ensures r.0.Success? ==> r.1 == rec[item := rec[item].(delete := true)]
    ensures r.1.Keys == rec.Keys && (VersionsKnown(rec) ==> VersionsKnown(r.1))
  {
    if item !in rec then (Failure(Described("Unrecorded item cannot be marked for deletion: ", Obj(attrs))), rec)
    else if rec[item].delete then (Failure(Described("Item is already marked for deletion: ", Obj(attrs))), rec)
    else (Success(()), rec[item := rec[item].(delete := true)])
  }

  /** `getItemVersion`: the recorded version; a draft that never had one reads as `undefined`. */
  function VersionOf(rec: Tracked, item: Item, attrs: Record): (r: Result<Term, JsError>)
    ensures r.Success? <==> item in rec
    ensures r.Success? ==> r.value == rec[item].version
    ensures r.Failure? ==> r.error == Described("Cannot get version for unrecorded item: ", Obj(attrs))
    ensures VersionsKnown(rec) && r.Success? && !rec[item].create ==> r.value.Int?
  {
    if item !in rec then Failure(Described("Cannot get version for unrecorded item: ", Obj(attrs)))
    else Success(rec[item].version)
  }

  /** Removing top-level attributes set to `undefined`. */
  function StripUndefined(attrs: Record): (r: Record)
    ensures forall k :: k in r <==> k in attrs && attrs[k] != Undef
    ensures forall k :: Get(r, k) == Get(attrs, k)
  {
    map k | k in attrs && attrs[k] != Undef :: attrs[k]
  }

  /** Removing `undefined` attributes a second time changes nothing. */
  lemma StripIdempotent(attrs: Record)
    ensures StripUndefined(StripUndefined(attrs)) == StripUndefined(attrs)
  {
  }

  // ---------------------------------------------------------------------------
  // The update expression

  /** `keys.filter(k => item[k] !== undefined)`. */
  function DefinedKeys(item: Record, keys: seq<string>): (r: seq<string>)
    ensures |r| <= |keys|
    ensures forall k :: k in r <==> k in keys && Get(item, k) != Undef
    decreases |keys|
  {
    if |keys| == 0 then []
    else
      var init := DefinedKeys(item, keys[..|keys| - 1]);
      var k := keys[|keys| - 1];
      if Get(item, k) != Undef then init + [k] else init
  }

  /** `keys.filter(k => item[k] === undefined && !keyNames.includes(k))`. */
  function AbsentKeys(item: Record, keys: seq<string>, keyNames: seq<string>): (r: seq<string>)
    ensures |r| <= |keys|
    ensures forall k :: k in r <==> k in keys && Get(item, k) == Undef && k !in keyNames
    decreases |keys|
  {
    if |keys| == 0 then []
    else
      var init := AbsentKeys(item, keys[..|keys| - 1], keyNames);
      var k := keys[|keys| - 1];
      if Get(item, k) == Undef && k !in keyNames then init + [k] else init
  }

  /** The attributes the `SET` clause assigns: the table's attributes and `version`, where the item defines them. */
  function SetKeys(item: Record, data: ItemData): (r: seq<string>)
    ensures forall k :: k in r <==> (k in data.table.attributeNames || k == "version") && Get(item, k) != Undef
    ensures "version" in r <==> Get(item, "version") != Undef
  {
    DefinedKeys(item, data.table.attributeNames + ["version"])
  }

  /** The attributes the `REMOVE` clause names: the table's non-key attributes the item lacks. */
  function RemoveKeys(item: Record, data: ItemData): (r: seq<string>)
    ensures forall k :: k in r <==> k in data.table.attributeNames && Get(item, k) == Undef && k !in data.table.keyAttributeNames
  {
    AbsentKeys(item, data.table.attributeNames, data.table.keyAttributeNames)
  }

  /**
   * The `SET` list's `map`: for each key a name alias, then a value alias
   * for the key's value on the item.
   */
  function SetAliases(st: Aliases, item: Record, keys: seq<string>): (r: (seq<string>, seq<string>, Aliases))
    ensures |r.0| == |keys| && |r.1| == |keys|
    decreases |keys|
  {
    if |keys| == 0 then ([], [], st)
    else
      var (ns, vs, st1) := SetAliases(st, item, keys[..|keys| - 1]);
      var k := keys[|keys| - 1];
      var (n, st2) := st1.AddName(Str(k));
      var (v, st3) := st2.AddValue(Get(item, k));
      (ns + [n], vs + [v], st3)
  }

  /** The first `i + 1` keys are the first `i` and then key `i`. */
  lemma PrefixSnoc(keys: seq<string>, i: nat)
    requires i < |keys|
    ensures keys[..i + 1] == keys[..i] + [keys[i]]
  {
  }

  /** One more key: its name alias and its value alias follow those of the earlier keys. */
  lemma SetAliasesSnoc(st: Aliases, item: Record, keys: seq<string>, k: string,
                       ns: seq<string>, vs: seq<string>, st1: Aliases, n: string, st2: Aliases, v: string, st3: Aliases)
    requires (ns, vs, st1) == SetAliases(st, item, keys)
    requires (n, st2) == st1.AddName(Str(k)) && (v, st3) == st2.AddValue(Get(item, k))
    ensures SetAliases(st, item, keys + [k]) == (ns + [n], vs + [v], st3)
  {
    assert (keys + [k])[..|keys|] == keys;
  }

  /** A new value alias for each key's value on the item; the name map is untouched. */
  function ValueAliases(st: Aliases, item: Record, keys: seq<string>): (r: (seq<string>, Aliases))
    ensures |r.0| == |keys| && r.1.names == st.names
    decreases |keys|
  {
    if |keys| == 0 then ([], st)
    else
      var (vs, st1) := ValueAliases(st, item, keys[..|keys| - 1]);
      var (v, st2) := st1.AddValue(Get(item, keys[|keys| - 1]));
      (vs + [v], st2)
  }

  /** Interleaving the `SET` aliases: names and values live in separate maps. */
  lemma {:induction false} SetAliasesSplit(st: Aliases, item: Record, keys: seq<string>)
    ensures var (ns, st1) := NameAliases(st, keys);
      var (vs, st2) := ValueAliases(st, item, keys);
      SetAliases(st, item, keys) == (ns, vs, Aliases(st1.names, st2.values))
    decreases |keys|
  {
    if |keys| > 0 {
      SetAliasesSplit(st, item, keys[..|keys| - 1]);
    }
  }

  /** The `REMOVE` list's `map`: a new name alias for each key; the value map is untouched. */
  function NameAliases(st: Aliases, keys: seq<string>): (r: (seq<string>, Aliases))
    ensures |r.0| == |keys| && r.1.values == st.values
    decreases |keys|
  {
    if |keys| == 0 then ([], st)
    else
      var (ns, st1) := NameAliases(st, keys[..|keys| - 1]);
      var (n, st2) := st1.AddName(Str(keys[|keys| - 1]));
      (ns + [n], st2)
  }

  /** The name aliases only add entries. */
  lemma {:induction false} NameAliasesExtend(st: Aliases, keys: seq<string>)
    ensures Extends(st, NameAliases(st, keys).1)
    decreases |keys|
  {
    if |keys| > 0 {
      var init := keys[..|keys| - 1];
      NameAliasesExtend(st, init);
      var st1 := NameAliases(st, init).1;
      var st2 := st1.AddName(Str(keys[|keys| - 1])).1;
      ExtendsTransitive(st, st1, st2);
    }
  }

  /** Each name alias is new and, once all are added, stands for its key. */
  lemma {:induction false} NameAliasesStandFor(st: Aliases, keys: seq<string>)
    ensures var (ns, st') := NameAliases(st, keys);
      forall i :: 0 <= i < |keys| ==> ns[i] !in st.names && ns[i] in st'.names && st'.names[ns[i]] == Str(keys[i])
    decreases |keys|
  {
    if |keys| > 0 {
      var init := keys[..|keys| - 1];
      NameAliasesStandFor(st, init);
      NameAliasesExtend(st, init);
      var (ns, st1) := NameAliases(st, init);
      var (n, st2) := st1.AddName(Str(keys[|keys| - 1]));
      forall i | 0 <= i < |keys|
        ensures (ns + [n])[i] !in st.names && (ns + [n])[i] in st2.names && st2.names[(ns + [n])[i]] == Str(keys[i])
      {
        if i < |init| {
          assert keys[i] == init[i] && (ns + [n])[i] == ns[i];
          assert ns[i] in st1.names && ns[i] != n;
        } else {
          assert (ns + [n])[i] == n && keys[i] == keys[|keys| - 1];
        }
      }
    }
  }

  /** The name aliases are pairwise distinct and non-empty. */
  lemma {:induction false} NameAliasesDistinct(st: Aliases, keys: seq<string>)
    ensures var ns := NameAliases(st, keys).0;
      && (forall i, j :: 0 <= i < j < |keys| ==> ns[i] != ns[j])
      && (forall i :: 0 <= i < |keys| ==> |ns[i]| > 0)
    decreases |keys|
  {
    if |keys| > 0 {
      var init := keys[..|keys| - 1];
      NameAliasesDistinct(st, init);
      NameAliasesStandFor(st, init);
      var (ns, st1) := NameAliases(st, init);
      var (n, st2) := st1.AddName(Str(keys[|keys| - 1]));
      assert forall i :: 0 <= i < |init| ==> ns[i] in st1.names;
      assert |n| > 0 by {
        assert n == AliasAt(Stem("#", Str(keys[|keys| - 1])), FreshIndex(st1.names.Keys, Stem("#", Str(keys[|keys| - 1]))));
      }
    }
  }

  /** The name map gains the name aliases and nothing else. */
  lemma {:induction false} NameAliasesNothingElse(st: Aliases, keys: seq<string>)
    ensures var (ns, st') := NameAliases(st, keys);
      forall a :: a in st'.names ==> a in st.names || a in ns
    decreases |keys|
  {
    if |keys| > 0 {
      NameAliasesNothingElse(st, keys[..|keys| - 1]);
    }
  }

  /** The value aliases only add entries. */
  lemma {:induction false} ValueAliasesExtend(st: Aliases, item: Record, keys: seq<string>)
    ensures Extends(st, ValueAliases(st, item, keys).1)
    decreases |keys|
  {
    if |keys| > 0 {
      var init := keys[..|keys| - 1];
      ValueAliasesExtend(st, item, init);
      var st1 := ValueAliases(st, item, init).1;
      var st2 := st1.AddValue(Get(item, keys[|keys| - 1])).1;
      ExtendsTransitive(st, st1, st2);
    }
  }

  /** Once all are added, each value alias stands for its key's value. */
  lemma {:induction false} ValueAliasesStandFor(st: Aliases, item: Record, keys: seq<string>)
    ensures var (vs, st') := ValueAliases(st, item, keys);
      forall i :: 0 <= i < |keys| ==> vs[i] in st'.values && st'.values[vs[i]] == Get(item, keys[i])
    decreases |keys|
  {
    if |keys| > 0 {
      var init := keys[..|keys| - 1];
      ValueAliasesStandFor(st, item, init);
      var (vs, st1) := ValueAliases(st, item, init);
      var (v, st2) := st1.AddValue(Get(item, keys[|keys| - 1]));
      forall i | 0 <= i < |keys|
        ensures (vs + [v])[i] in st2.values && st2.values[(vs + [v])[i]] == Get(item, keys[i])
      {
        if i < |init| {
          assert keys[i] == init[i] && (vs + [v])[i] == vs[i];
          assert vs[i] in st1.values && vs[i] != v;
        } else {
          assert i == |vs|;
        }
      }
    }
  }

  /** The value map gains the value aliases and nothing else. */
  lemma {:induction false} ValueAliasesNothingElse(st: Aliases, item: Record, keys: seq<string>)
    ensures var (vs, st') := ValueAliases(st, item, keys);
      forall a :: a in st'.values ==> a in st.values || a in vs
    decreases |keys|
  {
    if |keys| > 0 {
      ValueAliasesNothingElse(st, item, keys[..|keys| - 1]);
    }
  }

  /** The `SET` list's entries `#name = :value`. */
  function Assignments(ns: seq<string>, vs: seq<string>): (r: seq<string>)
    requires |ns| == |vs|
    ensures |r| == |ns|
  {
    seq(|ns|, i requires 0 <= i < |ns| => ns[i] + " = " + vs[i])
  }

  /** The object `#getUpdateDynamoDbExpression` returns. */
  datatype UpdateExpr = UpdateExpr(
    updateExpression: string,
    conditionExpression: string,
    attributeNames: map<string, Term>,
    attributeValues: map<string, Term>)

  /**
   * `#getUpdateDynamoDbExpression(item, itemData)` with one fresh builder:
   * the `SET` aliases, then the `REMOVE` aliases, then two name aliases for
   * `version` and a value alias for the recorded version, which throws a
   * TypeError when that version is `undefined`.
   */
  function UpdateExpressionOf(item: Record, data: ItemData): (r: Result<UpdateExpr, JsError>)
    ensures r.Failure? <==> data.version == Undef
    ensures r.Failure? ==> r.error == EngineTypeError
  {
    UpdateFrom(item, SetKeys(item, data), RemoveKeys(item, data), data.version)
  }

  /** The `SET` aliases, the `REMOVE` aliases and the builder's maps after both lists. */
  function ListAliases(item: Record, keys: seq<string>, gone: seq<string>): (r: (seq<string>, seq<string>, seq<string>, Aliases))
    ensures |r.0| == |keys| && |r.1| == |keys| && |r.2| == |gone|
  {
    var (ns, vs, st1) := SetAliases(NoAliases, item, keys);
    var (rs, st2) := NameAliases(st1, gone);
    (ns, vs, rs, st2)
  }

  /**
   * The condition's aliases: two new name aliases for `version`, then a new
   * value alias for the recorded version.
   */
  function VersionAliases(st: Aliases, version: Term): (r: (string, string, string, Aliases))
    ensures r.0 !in st.names && r.1 !in st.names && r.0 != r.1 && r.2 !in st.values
    ensures r.3.names == st.names[r.0 := Str("version")][r.1 := Str("version")]
    ensures r.3.values == st.values[r.2 := version]
  {
    var (a, st3) := st.AddName(Str("version"));
    var (b, st4) := st3.AddName(Str("version"));
    var (v, st5) := st4.AddValue(version);
    (a, b, v, st5)
  }

  /** The update expression for the `SET` keys `keys`, the `REMOVE` keys `gone` and the recorded `version`. */
  function UpdateFrom(item: Record, keys: seq<string>, gone: seq<string>, version: Term): Result<UpdateExpr, JsError> {
    var (ns, vs, rs, st2) := ListAliases(item, keys, gone);
    if version == Undef then Failure(EngineTypeError)
    else
      var (a, b, v, st5) := VersionAliases(st2, version);
      Success(UpdateExpr(UpdateText(ns, vs, rs), ConditionText(a, b, v), st5.names, st5.values))
  }

  /** `UpdateExpression`: `SET` and its assignments, then `REMOVE` and its aliases when there are any. */
  function UpdateText(ns: seq<string>, vs: seq<string>, rs: seq<string>): string
    requires |ns| == |vs|
  {
    var setList := Join(", ", Assignments(ns, vs));
    var remove := Join(", ", rs);
    if |remove| > 0 then "SET " + setList + " REMOVE " + remove else "SET " + setList
  }

  /** `ConditionExpression`. */
  function ConditionText(a: string, b: string, v: string): string {
    "attribute_exists(" + a + ") AND (" + b + " = " + v + ")"
  }

  /**
   * After both lists the `i`-th `SET` name and value aliases stand for the
   * `i`-th key and its value, every `REMOVE` alias for its key, and the
   * maps hold nothing else.
   */
  lemma ListAliasesMeaning(item: Record, keys: seq<string>, gone: seq<string>)
    ensures var (ns, vs, rs, st) := ListAliases(item, keys, gone);
      && (forall i :: 0 <= i < |keys| ==> ns[i] in st.names && st.names[ns[i]] == Str(keys[i]))
      && (forall i :: 0 <= i < |keys| ==> vs[i] in st.values && st.values[vs[i]] == Get(item, keys[i]))
      && (forall i :: 0 <= i < |gone| ==> rs[i] in st.names && st.names[rs[i]] == Str(gone[i]) && |rs[i]| > 0)
      && (forall a :: a in st.names ==> a in ns || a in rs)
      && (forall a :: a in st.values ==> a in vs)
  {
    SetAliasesSplit(NoAliases, item, keys);
    var (ns, n1) := NameAliases(NoAliases, keys);
    var (vs, v1) := ValueAliases(NoAliases, item, keys);
    var st1 := Aliases(n1.names, v1.values);
    var (rs, st2) := NameAliases(st1, gone);
    assert ListAliases(item, keys, gone) == (ns, vs, rs, st2);
    NameAliasesStandFor(NoAliases, keys);
    NameAliasesNothingElse(NoAliases, keys);
    ValueAliasesStandFor(NoAliases, item, keys);
    ValueAliasesNothingElse(NoAliases, item, keys);
    NameAliasesExtend(st1, gone);
    NameAliasesStandFor(st1, gone);
    NameAliasesDistinct(st1, gone);
    NameAliasesNothingElse(st1, gone);
  }

  /** The fields of the update expression in terms of the aliases. */
  lemma UpdateFromFields(item: Record, keys: seq<string>, gone: seq<string>, version: Term)
    requires version != Undef
    ensures var (ns, vs, rs, st2) := ListAliases(item, keys, gone);
      var (a, b, v, st5) := VersionAliases(st2, version);
      var u := UpdateFrom(item, keys, gone, version);
      && u.Success?
      && u.value.updateExpression == UpdateText(ns, vs, rs)
      && u.value.conditionExpression == ConditionText(a, b, v)
      && u.value.attributeNames == st5.names && u.value.attributeValues == st5.values
  {
  }

  /** `SET` always, `REMOVE` only when its list is non-empty. */
  lemma UpdateFromText(item: Record, keys: seq<string>, gone: seq<string>, version: Term)
    requires version != Undef
    ensures var (ns, vs, rs, _) := ListAliases(item, keys, gone);
      var u := UpdateFrom(item, keys, gone, version).value;
      && (|gone| == 0 ==> u.updateExpression == "SET " + Join(", ", Assignments(ns, vs)))
      && (|gone| > 0 ==> u.updateExpression == "SET " + Join(", ", Assignments(ns, vs)) + " REMOVE " + Join(", ", rs))
  {
    ListAliasesMeaning(item, keys, gone);
    UpdateFromFields(item, keys, gone, version);
    var (ns, vs, rs, st2) := ListAliases(item, keys, gone);
    assert |rs| > 0 ==> |Join(", ", rs)| >= |rs[0]| > 0;
  }

  /** The condition names `version` twice, under two aliases, and compares it with the recorded version. */
  lemma UpdateFromCondition(item: Record, keys: seq<string>, gone: seq<string>, version: Term)
    requires version != Undef
    ensures var u := UpdateFrom(item, keys, gone, version).value;
      exists a, b, v :: a != b && u.conditionExpression == "attribute_exists(" + a + ") AND (" + b + " = " + v + ")"
        && a in u.attributeNames && b in u.attributeNames && v in u.attributeValues
        && u.attributeNames[a] == Str("version") && u.attributeNames[b] == Str("version")
        && u.attributeValues[v] == version
  {
    UpdateFromFields(item, keys, gone, version);
    var (ns, vs, rs, st2) := ListAliases(item, keys, gone);
    var (a, b, v, st5) := VersionAliases(st2, version);
    assert st5.names[a] == Str("version") && st5.names[b] == Str("version") && st5.values[v] == version;
    assert ConditionText(a, b, v) == "attribute_exists(" + a + ") AND (" + b + " = " + v + ")";
  }

  /** The condition's aliases only add entries. */
  lemma VersionAliasesExtend(st: Aliases, version: Term)
    ensures Extends(st, VersionAliases(st, version).3)
  {
    var (a, b, v, st5) := VersionAliases(st, version);
    forall n | n in st.names
      ensures n in st5.names && st5.names[n] == st.names[n]
    {
      assert n != a && n != b;
    }
    forall n | n in st.values
      ensures n in st5.values && st5.values[n] == st.values[n]
    {
      assert n != v;
    }
  }

  /** In the final maps every `SET` alias still stands for its key or the key's value. */
  lemma UpdateFromSetAliases(item: Record, keys: seq<string>, gone: seq<string>, version: Term)
    requires version != Undef
    ensures var (ns, vs, _, _) := ListAliases(item, keys, gone);
      var u := UpdateFrom(item, keys, gone, version).value;
      forall i :: 0 <= i < |keys| ==>
        && ns[i] in u.attributeNames && u.attributeNames[ns[i]] == Str(keys[i])
        && vs[i] in u.attributeValues && u.attributeValues[vs[i]] == Get(item, keys[i])
  {
    ListAliasesMeaning(item, keys, gone);
    UpdateFromFields(item, keys, gone, version);
    var st2 := ListAliases(item, keys, gone).3;
    VersionAliasesExtend(st2, version);
  }

  /** In the final maps every `REMOVE` alias still stands for its key. */
  lemma UpdateFromRemoveAliases(item: Record, keys: seq<string>, gone: seq<string>, version: Term)
    requires version != Undef
    ensures var (_, _, rs, _) := ListAliases(item, keys, gone);
      var u := UpdateFrom(item, keys, gone, version).value;
      forall i :: 0 <= i < |gone| ==> rs[i] in u.attributeNames && u.attributeNames[rs[i]] == Str(gone[i])
  {
    ListAliasesMeaning(item, keys, gone);
    UpdateFromFields(item, keys, gone, version);
    var st2 := ListAliases(item, keys, gone).3;
    VersionAliasesExtend(st2, version);
  }

  /** The final maps hold the list aliases and, besides them, only `version` and the recorded version. */
  lemma UpdateFromNothingElse(item: Record, keys: seq<string>, gone: seq<string>, version: Term)
    requires version != Undef
    ensures var (ns, vs, rs, _) := ListAliases(item, keys, gone);
      var u := UpdateFrom(item, keys, gone, version).value;
      && (forall a :: a in u.attributeNames ==> a in ns || a in rs || u.attributeNames[a] == Str("version"))
      && (forall a :: a in u.attributeValues ==> a in vs || u.attributeValues[a] == version)
  {
    ListAliasesMeaning(item, keys, gone);
    UpdateFromFields(item, keys, gone, version);
  }

  /**
   * The update expression: the `REMOVE` clause appears exactly when some
   * non-key attribute is absent; the `i`-th assignment of `SET` names the
   * `i`-th defined attribute and holds its value; every `REMOVE` alias names
   * an absent attribute; the condition checks that a `version` exists and
   * equals the recorded one; and the maps hold these aliases and nothing else.
   */
  lemma UpdateExpressionMeaning(item: Record, data: ItemData)
    requires data.version != Undef
    ensures var keys := SetKeys(item, data);
      var gone := RemoveKeys(item, data);
      var (ns, vs, rs, _) := ListAliases(item, keys, gone);
      var u := UpdateExpressionOf(item, data).value;
      && (|gone| == 0 ==> u.updateExpression == "SET " + Join(", ", Assignments(ns, vs)))
      && (|gone| > 0 ==> u.updateExpression == "SET " + Join(", ", Assignments(ns, vs)) + " REMOVE " + Join(", ", rs))
      && (forall i :: 0 <= i < |keys| ==> ns[i] in u.attributeNames && u.attributeNames[ns[i]] == Str(keys[i]))
      && (forall i :: 0 <= i < |keys| ==> vs[i] in u.attributeValues && u.attributeValues[vs[i]] == Get(item, keys[i]))
      && (forall i :: 0 <= i < |gone| ==> rs[i] in u.attributeNames && u.attributeNames[rs[i]] == Str(gone[i]))
      && (forall a :: a in u.attributeNames ==> a in ns || a in rs || u.attributeNames[a] == Str("version"))
      && (forall a :: a in u.attributeValues ==> a in vs || u.attributeValues[a] == data.version)
      && (exists a, b, v :: a != b && u.conditionExpression == "attribute_exists(" + a + ") AND (" + b + " = " + v + ")"
            && a in u.attributeNames && b in u.attributeNames && v in u.attributeValues
            && u.attributeNames[a] == Str("version") && u.attributeNames[b] == Str("version")
            && u.attributeValues[v] == data.version)
  {
    var keys := SetKeys(item, data);
    var gone := RemoveKeys(item, data);
    UpdateFromText(item, keys, gone, data.version);
    UpdateFromSetAliases(item, keys, gone, data.version);
    UpdateFromRemoveAliases(item, keys, gone, data.version);
    UpdateFromNothingElse(item, keys, gone, data.version);
    UpdateFromCondition(item, keys, gone, data.version);
  }

  // ---------------------------------------------------------------------------
  // commitItems

  /** One entry of `TransactItems`. */
  datatype TransactOp =
    | DeleteOp(tableName: string, key: Record, expression: DdbExpression)
    | PutOp(tableName: string, item: Record, expression: DdbExpression)
    | UpdateOp(tableName: string, key: Record, update: UpdateExpr)

  /** The conditions written for a delete: the version exists and equals the recorded one. */
  function DeleteConditions(version: Term): seq<seq<Term>> {
    [[Str("version"), Str("exists")], [Str("version"), Str("="), version]]
  }

  /** What `getDynamoDbExpression` returns for props that hold only `conditionConditions`, a field it never reads. */
  const NoCondition: DdbExpression := DdbExpression(None, None, None, map[], map[])

  /**
   * The operation for one item whose `undefined` attributes are gone: a
   * delete keyed by the recorded key when it is marked, else a put of the
   * item with `version: 0` when it is a draft, else an update keyed by the
   * recorded key. The delete's and the put's conditions go into
   * `conditionConditions`, which `getDynamoDbExpression` never reads, so
   * neither operation carries a condition. (The put's array is a single
   * tuple, not a list of them; being unread, it is passed here as absent.)
   */
  function OpFor(attrs: Record, data: ItemData): (r: Result<TransactOp, JsError>)
    ensures r.Failure? <==> !data.delete && !data.create && data.version == Undef
    ensures data.delete ==> r == Success(DeleteOp(data.table.tableName, data.key, NoCondition))
    ensures !data.delete && data.create ==> r == Success(PutOp(data.table.tableName, attrs["version" := Int(0)], NoCondition))
    ensures !data.delete && !data.create && r.Success? ==>
      r.value == UpdateOp(data.table.tableName, data.key, UpdateExpressionOf(attrs, data).value)
  {
    if data.delete then
      EmptyExpression(Some(DeleteConditions(data.version)));
      (match Expression(ExpressionProps(None, None, None, Some(DeleteConditions(data.version))))
       case Failure(e) => Failure(e)
       case Success(x) => Success(DeleteOp(data.table.tableName, data.key, x)))
    else if data.create then
      EmptyExpression(None);
      (match Expression(ExpressionProps(None, None, None, None))
       case Failure(e) => Failure(e)
       case Success(x) => Success(PutOp(data.table.tableName, attrs["version" := Int(0)], x)))
    else
      match UpdateExpressionOf(attrs, data)
      case Failure(e) => Failure(e)
      case Success(u) => Success(UpdateOp(data.table.tableName, data.key, u))
  }

  /**
   * How an item's operation is chosen. `CommitOf` uses `OpFor`; the lemmas
   * about building the transaction hold for any choice.
   */
  type OpBuilder = (Record, ItemData) -> Result<TransactOp, JsError>

  /**
   * The `map` callback of `commitItems` for one item with attributes
   * `attrs`: the operation or the error, and the attributes afterwards.
   * The `undefined` attributes are removed once the checks and the
   * validation have passed.
   */
  function Prepare(rec: Tracked, item: Item, attrs: Record, validate: Validator, opFor: OpBuilder): (r: (Result<TransactOp, JsError>, Record))
    ensures item !in rec ==> r == (Failure(Described("Unrecorded item cannot be committed: ", Obj(attrs))), attrs)
    ensures item in rec && Get(attrs, "version") != Undef ==>
      r == (Failure(Described("Item contains illegal version attribute: ", Obj(attrs))), attrs)
    ensures r.0.Success? <==> (item in rec && Get(attrs, "version") == Undef
      && validate(attrs, rec[item].table.itemShape).None? && opFor(StripUndefined(attrs), rec[item]).Success?)
    ensures r.0.Success? ==> r.0 == opFor(StripUndefined(attrs), rec[item]) && r.1 == StripUndefined(attrs)
    ensures r.1 == attrs || r.1 == StripUndefined(attrs)
  {
    if item !in rec then (Failure(Described("Unrecorded item cannot be committed: ", Obj(attrs))), attrs)
    else if Get(attrs, "version") != Undef then (Failure(Described("Item contains illegal version attribute: ", Obj(attrs))), attrs)
    else
      var data := rec[item];
      match validate(attrs, data.table.itemShape)
      case Some(e) => (Failure(e), attrs)
      case None =>
        var stripped := StripUndefined(attrs);
        (opFor(stripped, data), stripped)
  }

  /**
   * `props.items.map(...)`: left to right, stopping at the first exception.
   * `attrs` holds every item's attributes and is threaded through, since an
   * item may appear more than once.
   */
  function BuildOps(rec: Tracked, attrs: map<Item, Record>, items: seq<Item>, validate: Validator, opFor: OpBuilder): (r: (Result<seq<TransactOp>, JsError>, map<Item, Record>))
    requires forall i :: 0 <= i < |items| ==> items[i] in attrs
    ensures r.1.Keys == attrs.Keys
    ensures r.0.Success? ==> |r.0.value| == |items|
    decreases |items|
  {
    if |items| == 0 then (Success([]), attrs)
    else
      var (ops, a1) := BuildOps(rec, attrs, items[..|items| - 1], validate, opFor);
      var it := items[|items| - 1];
      if ops.Failure? then (Failure(ops.error), a1)
      else
        var (op, at) := Prepare(rec, it, a1[it], validate, opFor);
        var a2 := a1[it := at];
        if op.Failure? then (Failure(op.error), a2) else (Success(ops.value + [op.value]), a2)
  }

  /**
   * An item the transaction accepts: tracked, without `version`, valid as
   * it is and once stripped, and with an operation.
   */
  predicate CommitReady(rec: Tracked, it: Item, attrs: Record, validate: Validator, opFor: OpBuilder) {
    && it in rec && Get(attrs, "version") == Undef
    && validate(attrs, rec[it].table.itemShape).None?
    && validate(StripUndefined(attrs), rec[it].table.itemShape).None?
    && opFor(StripUndefined(attrs), rec[it]).Success?
  }

  /** One `Prepare` step on an item's attributes as they were, or after an earlier visit stripped them. */
  lemma PrepareStep(rec: Tracked, it: Item, a: Record, orig: Record, validate: Validator, opFor: OpBuilder)
    requires a == orig || a == StripUndefined(orig)
    ensures Prepare(rec, it, a, validate, opFor).1 == orig || Prepare(rec, it, a, validate, opFor).1 == StripUndefined(orig)
    ensures Prepare(rec, it, a, validate, opFor).0.Success? ==>
      && Prepare(rec, it, a, validate, opFor).1 == StripUndefined(orig)
      && it in rec && Get(orig, "version") == Undef
      && Prepare(rec, it, a, validate, opFor).0 == opFor(StripUndefined(orig), rec[it])
    ensures CommitReady(rec, it, orig, validate, opFor) ==> Prepare(rec, it, a, validate, opFor).0.Success?
  {
    StripIdempotent(orig);
    assert Get(a, "version") == Get(orig, "version");
  }

  /** Building the transaction changes an item's attributes at most by removing its `undefined` ones. */
  lemma {:induction false} BuildOpsAttrs(rec: Tracked, attrs: map<Item, Record>, items: seq<Item>, validate: Validator, opFor: OpBuilder)
    requires forall i :: 0 <= i < |items| ==> items[i] in attrs
    ensures var a := BuildOps(rec, attrs, items, validate, opFor).1;
      forall it :: it in attrs ==> a[it] == attrs[it] || a[it] == StripUndefined(attrs[it])
    decreases |items|
  {
    if |items| > 0 {
      var init := items[..|items| - 1];
      var it := items[|items| - 1];
      BuildOpsAttrs(rec, attrs, init, validate, opFor);
      var (ops, a1) := BuildOps(rec, attrs, init, validate, opFor);
      if ops.Success? {
        PrepareStep(rec, it, a1[it], attrs[it], validate, opFor);
      }
    }
  }

  /** An item not in the list keeps its attributes. */
  lemma {:induction false} BuildOpsKeepsUnlisted(rec: Tracked, attrs: map<Item, Record>, items: seq<Item>, validate: Validator, opFor: OpBuilder)
    requires forall i :: 0 <= i < |items| ==> items[i] in attrs
    ensures var a := BuildOps(rec, attrs, items, validate, opFor).1;
      forall it :: it in attrs && it !in items ==> a[it] == attrs[it]
    decreases |items|
  {
    if |items| > 0 {
      var init := items[..|items| - 1];
      BuildOpsKeepsUnlisted(rec, attrs, init, validate, opFor);
      forall x | x in init ensures x in items {
        var i :| 0 <= i < |init| && init[i] == x;
        assert items[i] == x;
      }
    }
  }

  /** A built transaction has stripped every listed item of its `undefined` attributes. */
  lemma {:induction false} BuildOpsStrips(rec: Tracked, attrs: map<Item, Record>, items: seq<Item>, validate: Validator, opFor: OpBuilder)
    requires forall i :: 0 <= i < |items| ==> items[i] in attrs
    ensures var (r, a) := BuildOps(rec, attrs, items, validate, opFor);
      r.Success? ==> forall it :: it in items ==> a[it] == StripUndefined(attrs[it])
    decreases |items|
  {
    if |items| > 0 {
      var init := items[..|items| - 1];
      var it := items[|items| - 1];
      var (ops, a1) := BuildOps(rec, attrs, init, validate, opFor);
      var (r, a) := BuildOps(rec, attrs, items, validate, opFor);
      if r.Success? {
        BuildOpsStrips(rec, attrs, init, validate, opFor);
        BuildOpsAttrs(rec, attrs, init, validate, opFor);
        PrepareStep(rec, it, a1[it], attrs[it], validate, opFor);
        forall x | x in items ensures a[x] == StripUndefined(attrs[x]) {
          if x != it {
            var i :| 0 <= i < |items| && items[i] == x;
            assert init[i] == x;
          }
        }
      }
    }
  }

  /** A built transaction holds, for each item, exactly the operation `opFor` gives for it. */
  lemma {:induction false} BuildOpsSuccess(rec: Tracked, attrs: map<Item, Record>, items: seq<Item>, validate: Validator, opFor: OpBuilder)
    requires forall i :: 0 <= i < |items| ==> items[i] in attrs
    ensures var r := BuildOps(rec, attrs, items, validate, opFor).0;
      r.Success? ==> forall j :: 0 <= j < |items| ==>
        && items[j] in rec && Get(attrs[items[j]], "version") == Undef
        && opFor(StripUndefined(attrs[items[j]]), rec[items[j]]) == Success(r.value[j])
    decreases |items|
  {
    if |items| > 0 {
      var init := items[..|items| - 1];
      var it := items[|items| - 1];
      BuildOpsSuccess(rec, attrs, init, validate, opFor);
      BuildOpsAttrs(rec, attrs, init, validate, opFor);
      var (ops, a1) := BuildOps(rec, attrs, init, validate, opFor);
      var r := BuildOps(rec, attrs, items, validate, opFor).0;
      if r.Success? {
        assert ops.Success?;
        PrepareStep(rec, it, a1[it], attrs[it], validate, opFor);
        var op := Prepare(rec, it, a1[it], validate, opFor).0;
        assert r.value == ops.value + [op.value];
        forall j | 0 <= j < |items|
          ensures items[j] in rec && Get(attrs[items[j]], "version") == Undef
          ensures opFor(StripUndefined(attrs[items[j]]), rec[items[j]]) == Success(r.value[j])
        {
          if j < |init| {
            assert items[j] == init[j] && r.value[j] == ops.value[j];
          } else {
            assert items[j] == it && r.value[j] == op.value;
          }
        }
      }
    }
  }

  /**
   * The converse: every item ready for the transaction makes it succeed.
   * Validation runs on the attributes as they are when the item is
   * reached, stripped already for a repeated item, so both forms must pass.
   */
  lemma {:induction false} BuildOpsSucceeds(rec: Tracked, attrs: map<Item, Record>, items: seq<Item>, validate: Validator, opFor: OpBuilder)
    requires forall i :: 0 <= i < |items| ==> items[i] in attrs
    requires forall j :: 0 <= j < |items| ==> CommitReady(rec, items[j], attrs[items[j]], validate, opFor)
    ensures BuildOps(rec, attrs, items, validate, opFor).0.Success?
    decreases |items|
  {
    if |items| > 0 {
      var init := items[..|items| - 1];
      var it := items[|items| - 1];
      forall j | 0 <= j < |init| ensures init[j] in attrs && CommitReady(rec, init[j], attrs[init[j]], validate, opFor) {
        assert init[j] == items[j];
      }
      BuildOpsSucceeds(rec, attrs, init, validate, opFor);
      BuildOpsAttrs(rec, attrs, init, validate, opFor);
      var (ops, a1) := BuildOps(rec, attrs, init, validate, opFor);
      PrepareStep(rec, it, a1[it], attrs[it], validate, opFor);
    }
  }

  /** A transaction is built only from tracked items. */
  lemma {:induction false} BuildOpsTracked(rec: Tracked, attrs: map<Item, Record>, items: seq<Item>, validate: Validator, opFor: OpBuilder)
    requires forall i :: 0 <= i < |items| ==> items[i] in attrs
    ensures BuildOps(rec, attrs, items, validate, opFor).0.Success? ==> forall i :: 0 <= i < |items| ==> items[i] in rec
    decreases |items|
  {
    if |items| > 0 {
      var init := items[..|items| - 1];
      BuildOpsTracked(rec, attrs, init, validate, opFor);
      assert forall j :: 0 <= j < |init| ==> init[j] == items[j];
    }
  }

  /** How the transaction ended: sent, cancelled with these reason codes (`None`: no reason list), or another error. */
  datatype SendOutcome = Sent | Cancelled(reasons: Option<seq<Term>>) | SendFailed(error: JsError)

  /** The reason list as `JSON.stringify` sees it. */
  function ReasonsTerm(reasons: Option<seq<Term>>): Term {
    if reasons.Some? then Arr(reasons.value) else Undef
  }

  /** A non-empty reason list whose codes are all `ConditionalCheckFailed`. */
  predicate OnlyConditionsFailed(reasons: Option<seq<Term>>) {
    reasons.Some? && |reasons.value| > 0
    && forall i :: 0 <= i < |reasons.value| ==> reasons.value[i] == Str("ConditionalCheckFailed")
  }

  /**
   * The error thrown for a cancelled transaction: an optimistic-lock error
   * (or what the override makes of it) exactly when only conditions
   * failed, a generic error naming the reasons otherwise.
   */
  function CancellationError(reasons: Option<seq<Term>>, override: Option<JsError -> JsError>): (e: JsError)
    ensures override.None? ==> (e == OptimisticLockError <==> OnlyConditionsFailed(reasons))
    ensures OnlyConditionsFailed(reasons) && override.Some? ==> e == override.value(OptimisticLockError)
    ensures !OnlyConditionsFailed(reasons) ==> e == Described("TransactionCanceledException due to: ", ReasonsTerm(reasons))
  {
    if OnlyConditionsFailed(reasons) then
      if override.Some? then override.value(OptimisticLockError) else OptimisticLockError
    else Described("TransactionCanceledException due to: ", ReasonsTerm(reasons))
  }

  /**
   * The metadata after a successful transaction: a draft now exists with
   * version 0, any other item has moved one version on.
   */
  function Committed(d: ItemData): (d': ItemData)
    requires d.create || d.version.Int?
    ensures d'.version.Int? && !d'.create
    ensures d'.table == d.table && d'.key == d.key && d'.delete == d.delete
    ensures d.create ==> d'.version == Int(0)
    ensures !d.create ==> d'.version == Int(d.version.n + 1)
  {
    if d.create then d.(version := Int(0), create := false) else d.(version := Int(d.version.n + 1))
  }

  /**
   * The `forEach` after the transaction: every listed item's metadata
   * moves on, and a marked item is dropped. Reading the metadata of an item
   * dropped earlier in the same list throws a TypeError.
   */
  function PostCommit(rec: Tracked, items: seq<Item>): (r: (Result<(), JsError>, Tracked))
    requires VersionsKnown(rec)
    ensures VersionsKnown(r.1) && r.1.Keys <= rec.Keys
    decreases |items|
  {
    if |items| == 0 then (Success(()), rec)
    else
      var (p, m) := PostCommit(rec, items[..|items| - 1]);
      var it := items[|items| - 1];
      if p.Failure? then (p, m)
      else if it !in m then (Failure(EngineTypeError), m)
      else
        var m1 := m[it := Committed(m[it])];
        if m1[it].delete then (Success(()), m1 - {it}) else (Success(()), m1)
  }

  /** No item occurs twice. */
  predicate DistinctItems(items: seq<Item>) {
    forall i, j :: 0 <= i < j < |items| ==> items[i] != items[j]
  }

  /**
   * For a list of distinct tracked items the metadata update succeeds:
   * marked items are dropped, the others are `Committed`, and unlisted
   * items keep their metadata.
   */
  lemma {:induction false} PostCommitDistinct(rec: Tracked, items: seq<Item>)
    requires VersionsKnown(rec) && DistinctItems(items)
    requires forall i :: 0 <= i < |items| ==> items[i] in rec
    ensures var (r, m) := PostCommit(rec, items);
      && r == Success(())
      && (forall it :: it in rec && it !in items ==> it in m && m[it] == rec[it])
      && (forall it :: it in items && rec[it].delete ==> it !in m)
      && (forall it :: it in items && !rec[it].delete ==> it in m && m[it] == Committed(rec[it]))
    decreases |items|
  {
    if |items| > 0 {
      var init := items[..|items| - 1];
      var it := items[|items| - 1];
      PostCommitDistinct(rec, init);
      assert it !in init;
      assert forall x :: x in items ==> x in init || x == it;
    }
  }

  /** A marked item listed twice: the second visit reads the metadata already dropped. */
  lemma DuplicateDeletedItemFails(rec: Tracked, x: Item)
    requires VersionsKnown(rec) && x in rec && rec[x].delete
    ensures PostCommit(rec, [x, x]).0 == Failure(EngineTypeError)
  {
    assert [x, x][..1] == [x];
    assert [x][..0] == [];
    var m := rec[x := Committed(rec[x])] - {x};
    assert PostCommit(rec, [x]) == (Success(()), m);
    assert x !in m;
  }

  /** An unmarked item listed twice moves on two versions. */
  lemma RepeatedItemMovesTwice(rec: Tracked, x: Item)
    requires VersionsKnown(rec) && x in rec && !rec[x].delete && !rec[x].create
    ensures var m := PostCommit(rec, [x, x]).1;
      x in m && m[x].version == Int(rec[x].version.n + 2)
  {
    assert [x, x][..1] == [x];
    assert [x][..0] == [];
    var m1 := rec[x := Committed(rec[x])];
    assert PostCommit(rec, [x]) == (Success(()), m1);
    assert PostCommit(rec, [x, x]).1 == m1[x := Committed(m1[x])];
  }

  /**
   * A draft's life: committing it gives version 0, committing it again
   * version 1, and committing it once marked drops it from tracking.
   */
  lemma DraftLifecycle(rec: Tracked, x: Item, attrs: Record)
    requires VersionsKnown(rec) && x in rec && rec[x].create && !rec[x].delete
    ensures var m1 := PostCommit(rec, [x]).1;
      && x in m1 && m1[x].version == Int(0) && !m1[x].create
      && var m2 := PostCommit(m1, [x]).1;
      && x in m2 && m2[x].version == Int(1)
      && var (marked, m3) := MarkOf(m2, x, attrs);
      && marked.Success?
      && x !in PostCommit(m3, [x]).1
  {
    assert [x][..0] == [];
  }

  /**
   * `commitItems` on values: the outcome, the tracking map and the items'
   * attributes afterwards. An empty list does nothing; metadata changes
   * only after a transaction was built and sent successfully.
   */
  function CommitOf(rec: Tracked, attrs: map<Item, Record>, items: seq<Item>, validate: Validator,
                    send: seq<TransactOp> -> SendOutcome, override: Option<JsError -> JsError>): (r: (Result<(), JsError>, Tracked, map<Item, Record>))
    requires VersionsKnown(rec)
    requires forall i :: 0 <= i < |items| ==> items[i] in attrs
    ensures VersionsKnown(r.1)
    ensures |items| == 0 ==> r == (Success(()), rec, attrs)
    ensures r.1 != rec ==>
      |items| > 0 && BuildOps(rec, attrs, items, validate, OpFor).0.Success? && send(BuildOps(rec, attrs, items, validate, OpFor).0.value) == Sent
    ensures |items| > 0 && r.0.Success? ==>
      BuildOps(rec, attrs, items, validate, OpFor).0.Success? && r.1 == PostCommit(rec, items).1
    ensures |items| > 0 && BuildOps(rec, attrs, items, validate, OpFor).0.Success? ==>
      match send(BuildOps(rec, attrs, items, validate, OpFor).0.value)
      case Sent => r.0 == PostCommit(rec, items).0
      case Cancelled(reasons) => r.0 == Failure(CancellationError(reasons, override))
      case SendFailed(e) => r.0 == Failure(e)
  {
    if |items| == 0 then (Success(()), rec, attrs)
    else
      var (ops, a1) := BuildOps(rec, attrs, items, validate, OpFor);
      if ops.Failure? then (Failure(ops.error), rec, a1)
      else
        match send(ops.value)
        case Sent =>
          var (p, m) := PostCommit(rec, items);
          (p, m, a1)
        case Cancelled(reasons) => (Failure(CancellationError(reasons, override)), rec, a1)
        case SendFailed(e) => (Failure(e), rec, a1)
  }

  /**
   * An untracked item, or one still carrying `version`, makes the commit
   * fail before any transaction is sent: the outcome is the same whatever
   * the store would have answered, and no metadata changes.
   */
  lemma CommitRejectsBeforeSending(rec: Tracked, attrs: map<Item, Record>, items: seq<Item>, validate: Validator,
                                   send: seq<TransactOp> -> SendOutcome, other: seq<TransactOp> -> SendOutcome,
                                   override: Option<JsError -> JsError>, j: nat)
    requires VersionsKnown(rec)
    requires forall i :: 0 <= i < |items| ==> items[i] in attrs
    requires j < |items| && (items[j] !in rec || Get(attrs[items[j]], "version") != Undef)
    ensures var r := CommitOf(rec, attrs, items, validate, send, override);
      && r.0.Failure? && r.1 == rec
      && r == CommitOf(rec, attrs, items, validate, other, override)
  {
    BuildOpsSuccess(rec, attrs, items, validate, OpFor);
  }

  /**
   * A successful commit yields, for each item, the operation `OpFor` gives
   * for its stripped attributes, after which the attributes are stripped.
   */
  lemma CommitOperations(rec: Tracked, attrs: map<Item, Record>, items: seq<Item>, validate: Validator,
                         send: seq<TransactOp> -> SendOutcome, override: Option<JsError -> JsError>)
    requires VersionsKnown(rec) && |items| > 0
    requires forall i :: 0 <= i < |items| ==> items[i] in attrs
    requires CommitOf(rec, attrs, items, validate, send, override).0.Success?
    ensures var (ops, a) := BuildOps(rec, attrs, items, validate, OpFor);
      && ops.Success? && send(ops.value) == Sent
      && CommitOf(rec, attrs, items, validate, send, override).2 == a
      && (forall j :: 0 <= j < |items| ==> items[j] in rec && OpFor(StripUndefined(attrs[items[j]]), rec[items[j]]) == Success(ops.value[j]))
      && (forall it :: it in items ==> a[it] == StripUndefined(attrs[it]))
  {
    BuildOpsSuccess(rec, attrs, items, validate, OpFor);
    BuildOpsStrips(rec, attrs, items, validate, OpFor);
  }

  /**
   * The update written for a tracked item never assigns `version`: the
   * item may not carry one when it is committed, so the version in the
   * store does not move although the recorded one does.
   */
  lemma UpdateLeavesVersion(attrs: Record, data: ItemData)
    requires Get(attrs, "version") == Undef
    ensures "version" !in SetKeys(StripUndefined(attrs), data)
  {
  }
}
