/**
 * The `GetAnalysisHistory` HTTP handler: it settles the `limit` parameter,
 * then walks the stored entities of the `TextAnalyzer` partition and returns
 * at most `limit` of them as `{id, analysis, metadata}` items.
 */
module AnalysisHistory {
  import opened Wrappers

  const DefaultLimit: int := 10
  const MinLimit: int := 1
  const MaxLimit: int := 50
  /** What a missing stored JSON field is read as. */
  const EmptyObject: string := "{}"

  /**
   * A stored row: its row key and the two JSON fields the analyzer wrote,
   * either of which may be missing.
   */
  datatype Entity = Entity(rowKey: string, analysisJson: Option<string>, metadataJson: Option<string>)

  /** One element of `results`; the JSON texts are kept as stored. */
  datatype HistoryItem = HistoryItem(id: string, analysis: string, metadata: string)

  /** The handler's two outcomes: 200 with the items, or 500 with the error text. */
  datatype HistoryResponse =
    | History(count: nat, results: seq<HistoryItem>)
    | FetchFailed(details: string)

  /** A stored JSON field, or the empty object when the row lacks it. */
  function FieldOrEmpty(field: Option<string>): (json: string)
    ensures field.Some? ==> json == field.value
    ensures field.None? ==> json == EmptyObject
  {
    match field
    case Some(text) => text
    case None => EmptyObject
  }

  /** The item built from one entity: its id is the row key. */
  function ToItem(e: Entity): (item: HistoryItem)
    ensures item.id == e.rowKey
    ensures item.analysis == FieldOrEmpty(e.analysisJson)
    ensures item.metadata == FieldOrEmpty(e.metadataJson)
  {
    HistoryItem(e.rowKey, FieldOrEmpty(e.analysisJson), FieldOrEmpty(e.metadataJson))
  }

  /**
   * The limit in force: 10 when the parameter is missing or not an integer,
   * otherwise the parsed value raised to 1 and lowered to 50.
   */
  function ClampLimit(parsed: Option<int>): (limit: int)
    ensures MinLimit <= limit <= MaxLimit
    ensures parsed.None? ==> limit == DefaultLimit
    ensures parsed.Some? ==> (limit == parsed.value <==> MinLimit <= parsed.value <= MaxLimit)
    ensures parsed.Some? && limit != parsed.value ==> limit == (if parsed.value < MinLimit then MinLimit else MaxLimit)
  {
    match parsed
    case None => DefaultLimit
    case Some(n) => if n < MinLimit then MinLimit else if n > MaxLimit then MaxLimit else n
  }

  /**
   * The handler's step-by-step settling of `limit`: the default, then the
   * lower bound, then the upper bound.
   */
  method EffectiveLimit(parsed: Option<int>) returns (limit: int)
    ensures limit == ClampLimit(parsed)
    ensures MinLimit <= limit <= MaxLimit
    ensures parsed.None? ==> limit == DefaultLimit
    ensures parsed.Some? && parsed.value < MinLimit ==> limit == MinLimit
    ensures parsed.Some? && parsed.value > MaxLimit ==> limit == MaxLimit
    ensures parsed.Some? && MinLimit <= parsed.value <= MaxLimit ==> limit == parsed.value
  {
    match parsed {
      case None => limit := DefaultLimit;
      case Some(n) => limit := n;
    }
    if limit < MinLimit {
      limit := MinLimit;
    }
    if limit > MaxLimit {
      limit := MaxLimit;
    }
  }

  /**
   * The collection loop: items for the entities in the order the store yields
   * them, stopping once `limit` have been taken. `count` is the number taken:
   * the smaller of `limit` and the number of entities (none when `limit` is
   * not positive).
   */
  method CollectHistory(entities: seq<Entity>, limit: int) returns (count: nat, results: seq<HistoryItem>)
    ensures count == |results|
    ensures count == if limit <= 0 then 0 else if limit < |entities| then limit else |entities|
    ensures forall k :: 0 <= k < count ==> results[k] == ToItem(entities[k])
    ensures forall k :: 0 <= k < count ==>
      && results[k].id == entities[k].rowKey
      && (entities[k].analysisJson.Some? ==> results[k].analysis == entities[k].analysisJson.value)
      && (entities[k].analysisJson.None? ==> results[k].analysis == EmptyObject)
      && (entities[k].metadataJson.Some? ==> results[k].metadata == entities[k].metadataJson.value)
      && (entities[k].metadataJson.None? ==> results[k].metadata == EmptyObject)
  {
    results := [];
    count := 0;
    var i := 0;
    while i < |entities|
      invariant 0 <= i <= |entities|
      invariant count == i == |results|
      invariant count == 0 || count <= limit
      invariant forall k :: 0 <= k < count ==> results[k] == ToItem(entities[k])
    {
      if count >= limit {
        break;
      }
      results := results + [ToItem(entities[i])];
      count := count + 1;
      i := i + 1;
    }
  }

  /**
   * The whole handler. The parsed `limit` parameter and the outcome of the
   * table query (the entities in store order, or the exception text) are
   * inputs. A failed query gives 500; otherwise at most 50 items, each
   * carrying its entity's row key, in store order.
   */
  method GetAnalysisHistory(parsedLimit: Option<int>, query: Result<seq<Entity>, string>)
    returns (resp: HistoryResponse)
    ensures resp.FetchFailed? <==> query.Failure?
    ensures query.Failure? ==> resp.details == query.error
    ensures resp.History? ==>
      && resp.count == |resp.results| <= MaxLimit
      && resp.count <= |query.value|
      && (forall k :: 0 <= k < resp.count ==> resp.results[k] == ToItem(query.value[k]))
      && (forall k :: 0 <= k < resp.count ==> resp.results[k].id == query.value[k].rowKey)
    ensures resp.History? ==>
      resp.count == if ClampLimit(parsedLimit) < |query.value| then ClampLimit(parsedLimit) else |query.value|
    ensures resp.History? && parsedLimit.None? ==>
      resp.count == if |query.value| < DefaultLimit then |query.value| else DefaultLimit
  {
    var limit := EffectiveLimit(parsedLimit);
    match query {
      case Failure(e) =>
        resp := FetchFailed(e);
      case Success(entities) =>
        var count, results := CollectHistory(entities, limit);
        resp := History(count, results);
    }
  }
}
