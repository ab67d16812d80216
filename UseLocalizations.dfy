/** The data hook behind the table: fetching one (project, locale) pair's localizations, sending
    updates, the messages failures carry, and the query cache the hook reads and invalidates. */
module UseLocalizations {
  import opened Wrappers
  import opened Models

  /** A body that `response.json()` either parses into a value or rejects with a SyntaxError. */
  datatype Json<T> = NotJson(parseError: string) | Json(value: T)

  /** How a `fetch` ends: it rejects (the network failed), or a response arrives. A failed
      response's JSON is looked at only for its `detail` field. */
  datatype Reply<T> =
    | NetworkFailure(message: string)
    | Ok(body: Json<T>)
    | NotOk(status: nat, errorBody: Json<Option<string>>)

  /** What the hook hands to `fetch`. */
  datatype Request = Request(httpMethod: string, path: string, body: Option<map<string, TranslationUpdate>>)

  const FetchFallback: string := "Failed to fetch localizations"
  const UpdateFallback: string := "Failed to update localizations"

  /** `detail || fallback`: an absent or empty `detail` gives the fallback. */
  function DetailOr(detail: Option<string>, fallback: string): (m: string)
    ensures detail.Some? && detail.value != "" ==> m == detail.value
    ensures detail.None? || detail.value == "" ==> m == fallback
  {
    if detail.Some? && detail.value != "" then detail.value else fallback
  }

  function Path(projectId: string, locale: string): string {
    "/api/localizations/" + projectId + "/" + locale
  }

  /** `fetchLocalizations`: the parsed body of an ok response, else the message of what was thrown. */
  function FetchLocalizations(reply: Reply<LocalizationResponse>): (r: Result<LocalizationResponse, string>)
    ensures r.Success? <==> reply.Ok? && reply.body.Json?
    ensures r.Success? ==> r.value == reply.body.value
    ensures reply.NotOk? && reply.errorBody.Json? ==> r == Failure(DetailOr(reply.errorBody.value, FetchFallback))
  {
    match reply
    case NetworkFailure(m) => Failure(m)
    case NotOk(_, NotJson(m)) => Failure(m)
    case NotOk(_, Json(detail)) => Failure(DetailOr(detail, FetchFallback))
    case Ok(NotJson(m)) => Failure(m)
    case Ok(Json(v)) => Success(v)
  }

  /** The request `fetchLocalizations` sends. */
  function FetchRequest(projectId: string, locale: string): Request {
    Request("GET", Path(projectId, locale), None)
  }

  /** The request `updateLocalizations` sends: a POST to the same path whose body is exactly the
      payload's `localizations`. */
  function UpdateRequest(projectId: string, locale: string, payload: UpdatePayload): (q: Request)
    ensures q.httpMethod == "POST" && q.path == FetchRequest(projectId, locale).path
    ensures q.body == Some(payload.localizations)
  {
    Request("POST", Path(projectId, locale), Some(payload.localizations))
  }

  /** `updateLocalizations`: the body is parsed first, whatever the status; a failed status then
      throws `detail` or the fallback. */
  function UpdateLocalizations(reply: Reply<UpdateAck>): (r: Result<UpdateAck, string>)
    ensures r.Success? <==> reply.Ok? && reply.body.Json?
    ensures r.Success? ==> r.value == reply.body.value
    ensures reply.NotOk? && reply.errorBody.Json? ==> r == Failure(DetailOr(reply.errorBody.value, UpdateFallback))
  {
    match reply
    case NetworkFailure(m) => Failure(m)
    case NotOk(_, NotJson(m)) => Failure(m)
    case NotOk(_, Json(detail)) => Failure(DetailOr(detail, UpdateFallback))
    case Ok(NotJson(m)) => Failure(m)
    case Ok(Json(v)) => Success(v)
  }

  /** JavaScript truthiness of a string. */
  predicate Truthy(s: string) { s != "" }

  /** `Boolean(projectId && locale)`: `&&` yields `projectId` when it is falsy, else `locale`. */
  function Enabled(projectId: string, locale: string): bool {
    Truthy(if !Truthy(projectId) then projectId else locale)
  }

  /** The query runs only when both the project and the locale are chosen. */
  lemma EnabledIffBothChosen(projectId: string, locale: string)
    ensures Enabled(projectId, locale) <==> projectId != "" && locale != ""
  {
  }

  /** `["localizations", projectId, locale]`. */
  datatype QueryKey = QueryKey(projectId: string, locale: string)

  /** A cached query: its last data, and whether it has been invalidated since. */
  datatype CacheEntry = CacheEntry(data: Option<LocalizationResponse>, stale: bool)

  /** What the hook returns as `localizations` for a key: `query.data?.localizations ?? {}`. */
  function LocalizationsIn(cache: map<QueryKey, CacheEntry>, k: QueryKey): (m: map<string, LocalizationEntry>)
    ensures k !in cache || cache[k].data.None? ==> m == map[]
  {
    if k in cache && cache[k].data.Some? then cache[k].data.value.localizations else map[]
  }

  /** `invalidateQueries({queryKey})`: marks that one entry stale, keeping its data. */
  function Invalidate(cache: map<QueryKey, CacheEntry>, k: QueryKey): map<QueryKey, CacheEntry> {
    if k in cache then cache[k := cache[k].(stale := true)] else cache
  }

  /** Invalidation touches the named entry only, never drops data, and marks that entry stale. */
  lemma InvalidateOnlyThatKey(cache: map<QueryKey, CacheEntry>, k: QueryKey)
    ensures Invalidate(cache, k).Keys == cache.Keys
    ensures forall j :: j in cache && j != k ==> Invalidate(cache, k)[j] == cache[j]
    ensures k in cache ==> Invalidate(cache, k)[k] == cache[k].(stale := true)
    ensures forall j :: LocalizationsIn(Invalidate(cache, k), j) == LocalizationsIn(cache, j)
  {
  }

  /** Data stored for one pair is never what the hook returns for another pair. */
  lemma CachePerPair(cache: map<QueryKey, CacheEntry>, k: QueryKey, j: QueryKey, data: LocalizationResponse)
    requires j != k
    ensures LocalizationsIn(cache[k := CacheEntry(Some(data), false)], j) == LocalizationsIn(cache, j)
    ensures LocalizationsIn(cache[k := CacheEntry(Some(data), false)], k) == data.localizations
  {
  }

  /** The react-query client the hooks share, holding the `localizations` queries. */
  class QueryClient {
    var cache: map<QueryKey, CacheEntry>
    /** Every request the hooks sent, oldest first. */
    ghost var sent: seq<Request>

    constructor ()
      ensures cache == map[] && sent == []
    {
      cache := map[];
      sent := [];
    }

    /** `useQuery`: when enabled, fetch the pair and store what comes back; a failure keeps what
        was cached. When not enabled nothing is fetched. */
    method RunQuery(projectId: string, locale: string, reply: Reply<LocalizationResponse>)
      returns (r: Option<Result<LocalizationResponse, string>>)
      modifies this
      ensures r.Some? <==> Enabled(projectId, locale)
      ensures r.Some? ==> r.value == FetchLocalizations(reply)
      ensures r.Some? ==> sent == old(sent) + [FetchRequest(projectId, locale)]
      ensures r.None? ==> sent == old(sent)
      ensures r.Some? && r.value.Success? ==>
        cache == old(cache)[QueryKey(projectId, locale) := CacheEntry(Some(r.value.value), false)]
      ensures r.None? || r.value.Failure? ==> cache == old(cache)
    {
      if !Enabled(projectId, locale) {
        return None;
      }
      sent := sent + [FetchRequest(projectId, locale)];
      var result := FetchLocalizations(reply);
      if result.Success? {
        cache := cache[QueryKey(projectId, locale) := CacheEntry(Some(result.value), false)];
      }
      return Some(result);
    }

    /** `mutation.mutate(payload)`: send the update; on success invalidate exactly this pair's
        query, on failure invalidate nothing. */
    method Mutate(projectId: string, locale: string, payload: UpdatePayload, reply: Reply<UpdateAck>)
      returns (r: Result<UpdateAck, string>)
      modifies this
      ensures r == UpdateLocalizations(reply)
      ensures sent == old(sent) + [UpdateRequest(projectId, locale, payload)]
      ensures r.Success? ==> cache == Invalidate(old(cache), QueryKey(projectId, locale))
      ensures r.Failure? ==> cache == old(cache)
    {
      sent := sent + [UpdateRequest(projectId, locale, payload)];
      r := UpdateLocalizations(reply);
      if r.Success? {
        cache := Invalidate(cache, QueryKey(projectId, locale));
      }
    }

    /** The `localizations` the hook returns for a pair. */
    function Localizations(projectId: string, locale: string): map<string, LocalizationEntry>
      reads this
    {
      LocalizationsIn(cache, QueryKey(projectId, locale))
    }
  }
}
