/** Listing and deleting chirps (return_chirps.go): the `sort` and
    `author_id` query parameters of `GET /api/chirps`, and the checks of
    `DELETE /api/chirps/{chirpID}`. */
module Chirps {
  import opened Base
  import opened Auth

  /** A stored chirp; `createdAt` is a clock reading in seconds. */
  datatype Chirp = Chirp(id: Uuid, createdAt: Time, updatedAt: Time, body: string, userId: Uuid)

  /** The chirps table, keyed by chirp id. */
  type ChirpStore = map<Uuid, Chirp>

  // ---------------------------------------------------------------------
  // Ordering

  datatype SortOrder = Asc | Desc

  /** The `sort` query parameter: exactly "desc" means newest first; any
      other value, the empty one included, means oldest first. */
  function ParseSortOrder(query: string): (order: SortOrder)
    ensures order == Desc <==> query == "desc"
    ensures order == Asc <==> query != "desc"
  {
    if query == "desc" then Desc else Asc
  }

  /** May `a` come before `b` in a list sorted by creation time? */
  predicate InOrder(order: SortOrder, a: Chirp, b: Chirp) {
    match order
    case Asc => a.createdAt <= b.createdAt
    case Desc => a.createdAt >= b.createdAt
  }

  predicate SortedBy(order: SortOrder, s: seq<Chirp>) {
    forall i, j :: 0 <= i < j < |s| ==> InOrder(order, s[i], s[j])
  }

  /** Places `c` before the first element it may precede. */
  function Insert(order: SortOrder, c: Chirp, s: seq<Chirp>): (r: seq<Chirp>)
    ensures multiset(r) == multiset(s) + multiset{c}
  {
    if s == [] || InOrder(order, c, s[0]) then [c] + s
    else
      assert s == [s[0]] + s[1..];
      [s[0]] + Insert(order, c, s[1..])
  }

  /** Inserting into a sorted list keeps it sorted. */
  lemma {:induction false} InsertSorted(order: SortOrder, c: Chirp, s: seq<Chirp>)
    requires SortedBy(order, s)
    ensures SortedBy(order, Insert(order, c, s))
  {
    if s != [] && !InOrder(order, c, s[0]) {
      var rest := Insert(order, c, s[1..]);
      InsertSorted(order, c, s[1..]);
      forall y | y in rest
        ensures InOrder(order, s[0], y)
      {
        assert y in multiset(rest);
        assert y == c || y in multiset(s[1..]);
      }
      var r := [s[0]] + rest;
      forall i, j | 0 <= i < j < |r|
        ensures InOrder(order, r[i], r[j])
      {
        if i == 0 {
          assert r[j] in rest;
        } else {
          assert r[i] == rest[i - 1] && r[j] == rest[j - 1];
        }
      }
    }
  }

  /** The effect of `sort.Slice` with `Before` (ascending) or `After`
      (descending) on `CreatedAt`: a sorted permutation.  `sort.Slice` is not
      stable, so chirps created at the same instant may come out in any
      order; this definition picks one such order. */
  function SortChirps(order: SortOrder, s: seq<Chirp>): (r: seq<Chirp>)
    ensures SortedBy(order, r)
    ensures multiset(r) == multiset(s)
  {
    if s == [] then []
    else
      assert s == [s[0]] + s[1..];
      var rest := SortChirps(order, s[1..]);
      InsertSorted(order, s[0], rest);
      Insert(order, s[0], rest)
  }

  // ---------------------------------------------------------------------
  // Filtering

  /** The chirps of one author, in their original order. */
  function FilterByAuthor(rows: seq<Chirp>, author: Uuid): (r: seq<Chirp>)
    ensures forall c :: multiset(r)[c] == if c.userId == author then multiset(rows)[c] else 0
    ensures forall i :: 0 <= i < |r| ==> r[i].userId == author
  {
    if rows == [] then []
    else
      assert rows == [rows[0]] + rows[1..];
      var rest := FilterByAuthor(rows[1..], author);
      if rows[0].userId == author then [rows[0]] + rest else rest
  }

  // ---------------------------------------------------------------------
  // GET /api/chirps

  /** The two query parameters; an absent parameter reads as "". */
  datatype ListQuery = ListQuery(sort: string, authorId: string)

  /** `handlerChirpsRetrieve` over the rows the store returned: every chirp
      when `author_id` is empty, otherwise only the parsed author's, sorted
      by creation time in the requested direction. */
  function RetrieveChirps(lib: Library, query: ListQuery, rows: seq<Chirp>): (r: Reply<seq<Chirp>>)
    ensures r.status == StatusInternalServerError <==> query.authorId != "" && lib.parseUuid(query.authorId).None?
    ensures r.status == StatusInternalServerError ==> r == Fail(StatusInternalServerError, "Could not parse")
    ensures r.status != StatusInternalServerError ==>
      && r.status == StatusOK && r.body.Json?
      && SortedBy(ParseSortOrder(query.sort), r.body.value)
    ensures r.status == StatusOK && query.authorId == "" ==> multiset(r.body.value) == multiset(rows)
    ensures r.status == StatusOK && query.authorId != "" ==>
      forall c :: multiset(r.body.value)[c] ==
        if c.userId == lib.parseUuid(query.authorId).value then multiset(rows)[c] else 0
  {
    var order := ParseSortOrder(query.sort);
    if query.authorId == "" then Reply(StatusOK, Json(SortChirps(order, rows)))
    else match lib.parseUuid(query.authorId)
      case None => Fail(StatusInternalServerError, "Could not parse")
      case Some(author) => Reply(StatusOK, Json(SortChirps(order, FilterByAuthor(rows, author))))
  }

  /** Listing neither invents nor loses chirps: without an author every row
      is listed, and with one, exactly that author's rows are. */
  lemma RetrieveMembership(lib: Library, query: ListQuery, rows: seq<Chirp>, c: Chirp)
    requires RetrieveChirps(lib, query, rows).status == StatusOK
    ensures query.authorId == "" ==> (c in RetrieveChirps(lib, query, rows).body.value <==> c in rows)
    ensures query.authorId != "" ==>
      (c in RetrieveChirps(lib, query, rows).body.value <==>
       c in rows && c.userId == lib.parseUuid(query.authorId).value)
  {
    var out := RetrieveChirps(lib, query, rows).body.value;
    assert c in out <==> multiset(out)[c] > 0;
    assert c in rows <==> multiset(rows)[c] > 0;
  }

  // ---------------------------------------------------------------------
  // DELETE /api/chirps/{chirpID}

  /** `handlerDeleteChirp`.  The checks run in a fixed order — id parse,
      bearer token, token validation, lookup, ownership — and the first that
      fails decides the reply; only the owner's request deletes. */
  function DeleteChirp(lib: Library, secret: string, now: Time, pathId: string, bearer: Credential, store: ChirpStore)
    : (r: Effect<(), ChirpStore>)
    ensures lib.parseUuid(pathId).None? ==>
      r.reply == Fail(StatusInternalServerError, "Could not parse id")
    ensures lib.parseUuid(pathId).Some? && bearer.Failure? ==>
      r.reply == Fail(StatusUnauthorized, "No token found in header")
    ensures lib.parseUuid(pathId).Some? && bearer.Success?
            && ValidateJwt(lib, bearer.value, secret, now).Failure? ==>
      r.reply == Fail(StatusForbidden, "Could not validate token")
    ensures lib.parseUuid(pathId).Some? && bearer.Success?
            && ValidateJwt(lib, bearer.value, secret, now).Success?
            && lib.parseUuid(pathId).value !in store ==>
      r.reply == Fail(StatusNotFound, "Could not find chirp")
    ensures r.reply.status == StatusNoContent <==>
      && lib.parseUuid(pathId).Some?
      && bearer.Success?
      && ValidateJwt(lib, bearer.value, secret, now).Success?
      && lib.parseUuid(pathId).value in store
      && store[lib.parseUuid(pathId).value].userId == ValidateJwt(lib, bearer.value, secret, now).value
    ensures r.reply.status == StatusNoContent ==> r.store == store - {lib.parseUuid(pathId).value}
    ensures r.reply.status != StatusNoContent ==> r.store == store && r.reply.IsError()
  {
    match lib.parseUuid(pathId)
    case None => Effect(Fail(StatusInternalServerError, "Could not parse id"), store)
    case Some(id) =>
      match bearer
      case Failure(_) => Effect(Fail(StatusUnauthorized, "No token found in header"), store)
      case Success(token) =>
        match ValidateJwt(lib, token, secret, now)
        case Failure(_) => Effect(Fail(StatusForbidden, "Could not validate token"), store)
        case Success(caller) =>
          if id !in store then Effect(Fail(StatusNotFound, "Could not find chirp"), store)
          else if store[id].userId != caller then
            Effect(Fail(StatusForbidden, "not authorised to complete delete task"), store)
          else Effect(Reply(StatusNoContent, Empty), store - {id})
  }

  /** Someone other than the owner gets 403 and the store is untouched. */
  lemma DeleteByStrangerRefused(lib: Library, secret: string, now: Time, pathId: string, bearer: Credential, store: ChirpStore)
    requires lib.parseUuid(pathId).Some? && lib.parseUuid(pathId).value in store
    requires bearer.Success?
    requires ValidateJwt(lib, bearer.value, secret, now).Success?
    requires store[lib.parseUuid(pathId).value].userId != ValidateJwt(lib, bearer.value, secret, now).value
    ensures DeleteChirp(lib, secret, now, pathId, bearer, store)
         == Effect(Fail(StatusForbidden, "not authorised to complete delete task"), store)
  {
  }
}
