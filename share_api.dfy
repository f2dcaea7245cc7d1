/**
  The share registry of the backend service: a table from an 8-character
  public share id to a shared snippet, with id allocation by redrawing random
  ids until one is free, and expiry enforced lazily when a snippet is fetched.

  The clock is the parameter `now` (seconds), the service's base url is the
  parameter `baseUrl`, and the random draws are the stream `pick`.
 */
module ShareApi {
  import opened Wrappers
  import Text

  /** `string.ascii_letters + string.digits`: 62 symbols. */
  const Alphabet: string := "abcdefghijklmnopqrstuvwxyzABCDEFGHIJKLMNOPQRSTUVWXYZ0123456789"
  /** The default `length` of `generate_share_id`. */
  const ShareIdLength: nat := 8
  const SecondsPerDay: int := 86400
  const SnippetsPath: string := "/api/snippets/"
  /** The largest number of days a `timedelta` can hold. */
  const MaxTimedeltaDays: int := 999999999
  /** 9999-12-31 23:59:59 UTC, the last whole second a `datetime` can hold, counted from 1970-01-01. */
  const MaxTimestamp: int := 253402300799

  /** A row of the `shared_snippets` table, keyed by its share id. */
  datatype Row = Row(content: string, language: string, createdAt: int, expiresAt: Option<int>)

  /** The body of a create request. */
  datatype SnippetCreate = SnippetCreate(content: string, language: string, expiresInDays: Option<int>)

  /** The answer to a successful create request (status 201). */
  datatype SnippetResponse = SnippetResponse(shareId: string, url: string, expiresAt: Option<int>)

  /** The answer to a successful fetch. */
  datatype SnippetContent = SnippetContent(content: string, language: string, createdAt: int)

  datatype HttpError =
    | Unprocessable  // 422: the request body failed validation
    | BadRequest     // 400: the content is blank
    | NotFound       // 404: no such share id, or it has expired
    | InternalError  // 500: the expiry date overflowed the datetime range

  /**
    The k-th draw of `random.choices(ascii_letters + digits, k=length)`, where
    the random source is the stream `pick` and draw k consumes the picks
    k * length .. k * length + length - 1.
   */
  function Candidate(pick: nat -> nat, length: nat, k: nat): (id: string)
    ensures |id| == length
    ensures forall i :: 0 <= i < |id| ==> id[i] in Alphabet
  {
    seq(length, j requires 0 <= j < length => Alphabet[pick(k * length + j) % |Alphabet|])
  }

  /**
    `generate_share_id`: draws candidates until one is not a key of the
    table. The result is the first fresh draw.
   */
  method GenerateShareId(table: map<string, Row>, pick: nat -> nat, length: nat) returns (id: string)
    requires exists k: nat :: Candidate(pick, length, k) !in table
    ensures |id| == length
    ensures forall i :: 0 <= i < |id| ==> id[i] in Alphabet
    ensures id !in table
    ensures exists k: nat :: id == Candidate(pick, length, k)
              && forall j: nat :: j < k ==> Candidate(pick, length, j) in table
  {
    ghost var bound: nat :| Candidate(pick, length, bound) !in table;
    var k: nat := 0;
    id := Candidate(pick, length, k);
    while id in table
      invariant k <= bound
      invariant id == Candidate(pick, length, k)
      invariant forall j: nat :: j < k ==> Candidate(pick, length, j) in table
      decreases bound - k
    {
      k := k + 1;
      id := Candidate(pick, length, k);
    }
  }

  /**
    The request checks, in the order the service applies them: the body's
    `expires_in_days` must be absent or at least 1, then the content must not
    be blank after stripping whitespace.
   */
  function Validate(req: SnippetCreate): (e: Option<HttpError>)
    ensures e == Some(Unprocessable) <==> req.expiresInDays.Some? && req.expiresInDays.value < 1
    ensures e == Some(BadRequest) <==>
              (req.expiresInDays.None? || req.expiresInDays.value >= 1)
              && Text.AllSpace(req.content)
    ensures e.None? || e == Some(Unprocessable) || e == Some(BadRequest)
  {
    if req.expiresInDays.Some? && req.expiresInDays.value < 1 then Some(Unprocessable)
    else if Text.Strip(req.content) == [] then Some(BadRequest)
    else None
  }

  /**
    The expiry of a new share: absent when no number of days is given (or the
    falsy 0), otherwise that many whole days after `now`.
   */
  function ExpiresAt(now: int, days: Option<int>): (e: Option<int>)
    ensures e.None? <==> days.None? || days.value == 0
    ensures e.Some? ==> e.value - now == days.value * SecondsPerDay
    ensures e.Some? && days.value >= 1 ==> e.value > now
    ensures e.Some? && ExpiryRepresentable(now, days) ==> e.value <= MaxTimestamp
  {
    if days.Some? && days.value != 0 then Some(now + days.value * SecondsPerDay) else None
  }

  /**
    Computing the expiry raises no `OverflowError`: either no expiry is
    computed, or the days fit in a `timedelta` and the sum stays within the
    `datetime` range.
   */
  predicate ExpiryRepresentable(now: int, days: Option<int>) {
    || days.None?
    || days.value == 0
    || (-MaxTimedeltaDays <= days.value <= MaxTimedeltaDays
        && now + days.value * SecondsPerDay <= MaxTimestamp)
  }

  /** The public url of a share: the base url, the api path, then the id. */
  function ShareUrl(baseUrl: string, id: string): (url: string)
    ensures |url| == |baseUrl| + |SnippetsPath| + |id|
    ensures url[..|baseUrl|] == baseUrl
    ensures url[|url| - |id|..] == id
  {
    baseUrl + SnippetsPath + id
  }

  /** The table after a create request stored its row under `id`. */
  function Publish(table: map<string, Row>, id: string, req: SnippetCreate, now: int): (t: map<string, Row>)
    ensures t.Keys == table.Keys + {id}
    ensures id !in table ==> |t| == |table| + 1
    ensures t[id] == Row(req.content, req.language, now, ExpiresAt(now, req.expiresInDays))
    ensures forall k :: k in table && k != id ==> t[k] == table[k]
  {
    table[id := Row(req.content, req.language, now, ExpiresAt(now, req.expiresInDays))]
  }

  /** A row is expired at `now` when it has an expiry strictly before `now`. */
  predicate Expired(row: Row, now: int) {
    row.expiresAt.Some? && row.expiresAt.value < now
  }

  function ContentOf(row: Row): SnippetContent {
    SnippetContent(row.content, row.language, row.createdAt)
  }

  /**
    `get_snippet` on a table: the answer and the table afterwards. A missing
    id is not found; an expired row is deleted and not found; any other row is
    returned and the table is left alone.
   */
  function Fetch(table: map<string, Row>, id: string, now: int): (out: (Result<SnippetContent, HttpError>, map<string, Row>))
    ensures out.0.Success? <==> id in table && !Expired(table[id], now)
    ensures out.0.Success? ==> out.0.value == ContentOf(table[id]) && out.1 == table
    ensures out.0.Failure? ==> out.0.error == NotFound && id !in out.1
    ensures out.1.Keys <= table.Keys && table.Keys - out.1.Keys <= {id}
    ensures forall k :: k in out.1 ==> out.1[k] == table[k]
  {
    if id !in table then (Failure(NotFound), table)
    else if Expired(table[id], now) then (Failure(NotFound), table - {id})
    else (Success(ContentOf(table[id])), table)
  }

  /** The registry's table, changed in place by create and fetch requests. */
  class Registry {
    var rows: map<string, Row>

    constructor ()
      ensures rows == map[]
    {
      rows := map[];
    }

    /**
      `create_snippet`: validates the request, allocates a fresh share id,
      stores the row and answers with the id, its url and the expiry. An
      expiry beyond the `datetime` range raises before anything is stored,
      and the service answers 500.
     */
    method CreateSnippet(req: SnippetCreate, now: int, baseUrl: string, pick: nat -> nat)
      returns (r: Result<SnippetResponse, HttpError>)
      requires Validate(req).None? ==> exists k: nat :: Candidate(pick, ShareIdLength, k) !in rows
      modifies this
      ensures Validate(req).Some? ==> r == Failure(Validate(req).value) && rows == old(rows)
      ensures Validate(req).None? && !ExpiryRepresentable(now, req.expiresInDays) ==>
                r == Failure(InternalError) && rows == old(rows)
      ensures Validate(req).None? && ExpiryRepresentable(now, req.expiresInDays) ==> r.Success?
      ensures r.Success? ==>
                var id := r.value.shareId;
                && |id| == ShareIdLength
                && (forall i :: 0 <= i < |id| ==> id[i] in Alphabet)
                && id !in old(rows)
                && rows == Publish(old(rows), id, req, now)
                && r.value.url == ShareUrl(baseUrl, id)
                && r.value.expiresAt == ExpiresAt(now, req.expiresInDays)
    {
      var err := Validate(req);
      if err.Some? {
        return Failure(err.value);
      }
      var id := GenerateShareId(rows, pick, ShareIdLength);
      if !ExpiryRepresentable(now, req.expiresInDays) {
        return Failure(InternalError);
      }
      var expiresAt := ExpiresAt(now, req.expiresInDays);
      rows := rows[id := Row(req.content, req.language, now, expiresAt)];
      r := Success(SnippetResponse(id, ShareUrl(baseUrl, id), expiresAt));
    }

    /** `get_snippet`: answers and updates the table as `Fetch` says. */
    method GetSnippet(id: string, now: int) returns (r: Result<SnippetContent, HttpError>)
      modifies this
      ensures (r, rows) == Fetch(old(rows), id, now)
    {
      if id !in rows {
        return Failure(NotFound);
      }
      var row := rows[id];
      if row.expiresAt.Some? && row.expiresAt.value < now {
        rows := rows - {id};
        return Failure(NotFound);
      }
      r := Success(ContentOf(row));
    }
  }

  /**
    Once a fetch answers not found, the next fetch of that id, at any later
    time and with no create in between, answers not found too.
   */
  lemma NotFoundIsFinal(table: map<string, Row>, id: string, now: int, later: int)
    requires Fetch(table, id, now).0.Failure?
    ensures Fetch(Fetch(table, id, now).1, id, later).0 == Failure(NotFound)
  {
  }

  /**
    A snippet published at `now` is served, with the published content and
    creation time, exactly until its expiry; without an expiry, forever.
   */
  lemma FetchAfterPublish(table: map<string, Row>, id: string, req: SnippetCreate, now: int, later: int)
    requires Validate(req).None?
    ensures var out := Fetch(Publish(table, id, req, now), id, later);
      && (out.0.Success? <==> req.expiresInDays.None? || later <= now + req.expiresInDays.value * SecondsPerDay)
      && (out.0.Success? ==> out.0.value == SnippetContent(req.content, req.language, now))
  {
  }
}
