/**
 * `ItemsPagesIterator`: a query or scan that is read one page at a time,
 * remembering the items read so far and where the next page starts. The
 * store call is an oracle from request to page.
 */
module PagesIterators {
  import opened Wrappers
  import opened JsValues
  import opened Utilities

  /** `{...commandInput, ExclusiveStartKey, Limit}`; `None` is an `undefined` field. */
  datatype Request = Request(commandInput: Record, exclusiveStartKey: Option<Record>, limit: Option<int>)

  /** The store call `get`: a page, or the error its promise rejects with. */
  type Oracle = Request -> Result<Page, JsError>

  /** The iterator's mutable fields as a value: `#started`, `items`, `lastEvaluatedKey`. */
  datatype IteratorState = IteratorState(started: bool, items: seq<Record>, lastEvaluatedKey: Option<Record>)

  /** `hasNext()`: before the first page, or while there is a key to resume from and the limit is not met exactly. */
  function HasNextOf(s: IteratorState, limit: Option<int>): bool {
    !s.started || (s.lastEvaluatedKey.Some? && !(limit.Some? && |s.items| == limit.value))
  }

  /** The request `next()` sends: resume from the current key, asking for what is left of the limit. */
  function RequestOf(s: IteratorState, commandInput: Record, limit: Option<int>): (q: Request)
    ensures q.exclusiveStartKey == s.lastEvaluatedKey
    ensures q.limit.Some? <==> limit.Some?
    ensures limit.Some? ==> |s.items| + q.limit.value == limit.value
  {
    Request(commandInput, s.lastEvaluatedKey, if limit.Some? then Some(limit.value - |s.items|) else None)
  }

  /**
   * `next()`: `#started` is set before the call, so it stays set when the
   * call fails; on success the page's items are appended and its key kept.
   */
  function NextOf(s: IteratorState, commandInput: Record, limit: Option<int>, get: Oracle): (Result<seq<Record>, JsError>, IteratorState) {
    var s1 := s.(started := true);
    match get(RequestOf(s, commandInput, limit))
    case Failure(e) => (Failure(e), s1)
    case Success(page) => (Success(page.items), s1.(items := s.items + page.items, lastEvaluatedKey := page.lastEvaluatedKey))
  }

  /** A fresh iterator has not started, so it always has a next page. */
  lemma FreshHasNext(key: Option<Record>, limit: Option<int>)
    ensures HasNextOf(IteratorState(false, [], key), limit)
  {
  }

  /**
   * After `next()` the iterator has started, the items read before are a
   * prefix of the items, and a successful call returns exactly the appended
   * page; a failed call changes nothing else.
   */
  lemma NextExtends(s: IteratorState, commandInput: Record, limit: Option<int>, get: Oracle)
    ensures var (r, s') := NextOf(s, commandInput, limit, get);
      && s'.started
      && s'.items[..|s.items|] == s.items
      && (r.Success? ==> s'.items[|s.items|..] == r.value && s'.lastEvaluatedKey == get(RequestOf(s, commandInput, limit)).value.lastEvaluatedKey)
      && (r.Failure? ==> s'.items == s.items && s'.lastEvaluatedKey == s.lastEvaluatedKey)
  {
  }

  /**
   * Once started, a next page needs a key to resume from; there is none when
   * the items meet the limit exactly, and one when a key was returned and no
   * limit is set.
   */
  lemma StopsAtLimit(s: IteratorState, limit: Option<int>)
    requires s.started
    ensures HasNextOf(s, limit) ==> s.lastEvaluatedKey.Some?
    ensures limit.Some? && |s.items| == limit.value ==> !HasNextOf(s, limit)
    ensures limit.None? ==> (HasNextOf(s, limit) <==> s.lastEvaluatedKey.Some?)
  {
  }

  /** The store honours `Limit`: a request with a non-negative limit gets at most that many items. */
  ghost predicate HonoursLimit(get: Oracle) {
    forall q: Request :: q.limit.Some? && q.limit.value >= 0 && get(q).Success? ==> |get(q).value.items| <= q.limit.value
  }

  /** Against a store that honours `Limit`, the items never pass the limit. */
  lemma NextStaysWithinLimit(s: IteratorState, commandInput: Record, limit: int, get: Oracle)
    requires HonoursLimit(get) && |s.items| <= limit
    ensures |NextOf(s, commandInput, Some(limit), get).1.items| <= limit
  {
    var q := RequestOf(s, commandInput, Some(limit));
    assert q.limit.value >= 0;
  }

  class ItemsPagesIterator {
    const commandInput: Record
    const get: Oracle
    const limit: Option<int>
    var started: bool
    var items: seq<Record>
    var lastEvaluatedKey: Option<Record>

    function State(): IteratorState
      reads this
    {
      IteratorState(started, items, lastEvaluatedKey)
    }

    constructor (commandInput: Record, get: Oracle, limit: Option<int>, lastEvaluatedKey: Option<Record>)
      ensures this.commandInput == commandInput && this.get == get && this.limit == limit
      ensures State() == IteratorState(false, [], lastEvaluatedKey)
    {
      this.commandInput := commandInput;
      this.get := get;
      this.limit := limit;
      this.started := false;
      this.items := [];
      this.lastEvaluatedKey := lastEvaluatedKey;
    }

    /** `hasNext()`. */
    method HasNext() returns (b: bool)
      ensures b == HasNextOf(State(), limit)
    {
      b := !started || (lastEvaluatedKey.Some? && !(limit.Some? && |items| == limit.value));
    }

    /** `next()`. */
    method Next() returns (r: Result<seq<Record>, JsError>)
      modifies this
      ensures (r, State()) == NextOf(old(State()), commandInput, limit, get)
    {
      started := true;
      var res := get(Request(commandInput, lastEvaluatedKey, if limit.Some? then Some(limit.value - |items|) else None));
      if res.Failure? {
        return Failure(res.error);
      }
      items := items + res.value.items;
      lastEvaluatedKey := res.value.lastEvaluatedKey;
      return Success(res.value.items);
    }
  }
}
