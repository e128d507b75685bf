/** Posting a chirp (handler_validate.go): the caller is authenticated first,
    then the body is length-checked and its profanity masked word by word. */
module ChirpPost {
  import opened Base
  import opened Strings
  import opened Auth
  import opened Chirps

  /** Longest accepted body, in bytes. */
  const MaxChirpLength := 140

  const BannedWords: seq<string> := ["kerfuffle", "sharbert", "fornax"]
  const Mask := "****"

  /** A word is profane when its lower-case form is exactly a banned word;
      attached punctuation makes it a different word. */
  predicate IsProfane(word: string) {
    ToLower(word) in BannedWords
  }

  function CensorWord(word: string): string {
    if IsProfane(word) then Mask else word
  }

  function CensorWords(words: seq<string>): (r: seq<string>)
    ensures |r| == |words|
    ensures forall i :: 0 <= i < |words| ==> r[i] == CensorWord(words[i])
  {
    seq(|words|, i requires 0 <= i < |words| => CensorWord(words[i]))
  }

  /** Split on single spaces, mask the profane words, join again. */
  function CleanBody(body: string): string {
    Join(CensorWords(Split(body)))
  }

  // ---------------------------------------------------------------------
  // Properties of cleaning

  lemma MaskIsClean()
    ensures !IsProfane(Mask)
    ensures ' ' !in Mask
    ensures ByteLen(Mask) == 4
  {
    ByteLenAscii(Mask);
    assert |ToLower(Mask)| == 4;
    assert |BannedWords[0]| == 9 && |BannedWords[1]| == 8 && |BannedWords[2]| == 6;
  }

  /** A masked word is never longer, in bytes, than the word it replaces. */
  lemma CensorWordShrinks(word: string)
    ensures ByteLen(CensorWord(word)) <= ByteLen(word)
    ensures !IsProfane(CensorWord(word))
  {
    MaskIsClean();
    if IsProfane(word) {
      assert |ToLower(word)| >= 6;
    }
  }

  lemma {:induction false} JoinShrinks(short: seq<string>, long: seq<string>)
    requires |short| == |long|
    requires forall i :: 0 <= i < |short| ==> ByteLen(short[i]) <= ByteLen(long[i])
    ensures ByteLen(Join(short)) <= ByteLen(Join(long))
    decreases |short|
  {
    if |short| >= 2 {
      JoinShrinks(short[1..], long[1..]);
      ByteLenAppend(short[0] + " ", Join(short[1..]));
      ByteLenAppend(short[0], " ");
      ByteLenAppend(long[0] + " ", Join(long[1..]));
      ByteLenAppend(long[0], " ");
    }
  }

  /** The words of the cleaned body are the words of the body, in place:
      each profane one masked, every other one unchanged. */
  lemma CleanBodyWords(body: string)
    ensures Split(CleanBody(body)) == CensorWords(Split(body))
    ensures |Split(CleanBody(body))| == |Split(body)|
    ensures forall i :: 0 <= i < |Split(body)| ==>
      Split(CleanBody(body))[i] == if IsProfane(Split(body)[i]) then Mask else Split(body)[i]
  {
    var words := CensorWords(Split(body));
    MaskIsClean();
    assert NoSpaces(words);
    SplitJoin(words);
  }

  /** Cleaning never lengthens the body. */
  lemma CleanBodyShrinks(body: string)
    ensures ByteLen(CleanBody(body)) <= ByteLen(body)
  {
    var words := Split(body);
    forall i | 0 <= i < |words|
      ensures ByteLen(CensorWords(words)[i]) <= ByteLen(words[i])
    {
      CensorWordShrinks(words[i]);
    }
    JoinShrinks(CensorWords(words), words);
    JoinSplit(body);
  }

  /** A body is left unchanged exactly when none of its words is profane;
      in particular splitting and re-joining a clean body round-trips. */
  lemma CleanBodyIdentity(body: string)
    ensures CleanBody(body) == body <==> forall i :: 0 <= i < |Split(body)| ==> !IsProfane(Split(body)[i])
  {
    var words := Split(body);
    if forall i :: 0 <= i < |words| ==> !IsProfane(words[i]) {
      assert CensorWords(words) == words;
      JoinSplit(body);
    } else {
      var i :| 0 <= i < |words| && IsProfane(words[i]);
      CleanBodyWords(body);
      MaskIsClean();
      assert Split(CleanBody(body))[i] != words[i];
    }
  }

  /** Cleaning twice is cleaning once. */
  lemma CleanBodyIdempotent(body: string)
    ensures CleanBody(CleanBody(body)) == CleanBody(body)
  {
    var clean := CleanBody(body);
    CleanBodyWords(body);
    forall i | 0 <= i < |Split(clean)|
      ensures !IsProfane(Split(clean)[i])
    {
      CensorWordShrinks(Split(body)[i]);
    }
    CleanBodyIdentity(clean);
  }

  /** Matching ignores ASCII case. */
  lemma CleanBodyIgnoresCase()
    ensures CleanBody("Kerfuffle") == Mask
  {
    var word := "Kerfuffle";
    var lower := ToLower(word);
    assert lower[0] == 'k';
    assert lower[1..] == word[1..];
    assert lower == BannedWords[0];
    assert ' ' !in word;
    SplitWord(word);
    assert CensorWords([word]) == [Mask];
  }

  /** Attached punctuation makes a word a different word. */
  lemma CleanBodyKeepsPunctuated()
    ensures CleanBody("kerfuffle!") == "kerfuffle!"
  {
    var word := "kerfuffle!";
    assert |ToLower(word)| == 10;
    assert !IsProfane(word);
    assert ' ' !in word;
    SplitWord(word);
    assert CensorWords([word]) == [word];
  }

  // ---------------------------------------------------------------------
  // POST /api/chirps

  /** The decoded request; its `user_id` field plays no part. */
  datatype PostRequest = PostRequest(body: string, userId: Uuid)

  /** Every stored chirp sits under its own id, fits the length limit and
      has nothing left to mask. */
  ghost predicate Wellformed(store: ChirpStore) {
    forall id :: id in store ==>
      store[id].id == id && ByteLen(store[id].body) <= MaxChirpLength && CleanBody(store[id].body) == store[id].body
  }

  /** `handlerChirpsValidate`.  Bearer extraction and token validation come
      before the length check, so an unauthenticated request is refused as
      such whatever its body.  The store assigns `newId` and stamps `now`; an
      id already taken is the store's insert error. */
  function PostChirp(lib: Library, secret: string, now: Time, bearer: Credential, req: PostRequest,
                     newId: Uuid, store: ChirpStore): (r: Effect<Chirp, ChirpStore>)
    ensures bearer.Failure? ==> r == Effect(Fail(StatusUnauthorized, "invalid JWT token"), store)
    ensures bearer.Success? && ValidateJwt(lib, bearer.value, secret, now).Failure? ==>
      r == Effect(Fail(StatusUnauthorized, "JWT token not valid"), store)
    ensures bearer.Success? && ValidateJwt(lib, bearer.value, secret, now).Success?
            && ByteLen(req.body) > MaxChirpLength ==>
      r == Effect(Fail(StatusBadRequest, "Chirp is too long"), store)
    ensures bearer.Success? && ValidateJwt(lib, bearer.value, secret, now).Success?
            && ByteLen(req.body) <= MaxChirpLength && newId in store ==>
      r == Effect(Fail(StatusInternalServerError, "Can not post chirp!"), store)
    ensures r.reply.status == StatusCreated <==>
      && bearer.Success? && ValidateJwt(lib, bearer.value, secret, now).Success?
      && ByteLen(req.body) <= MaxChirpLength && newId !in store
    ensures r.reply.status != StatusCreated ==> r.store == store && r.reply.IsError()
    ensures r.reply.status == StatusCreated ==>
      && r.reply.body.Json?
      && var c := r.reply.body.value;
      && ValidateJwt(lib, bearer.value, secret, now) == Success(c.userId)
      && c.id == newId && newId !in store && r.store == store[newId := c]
      && c.createdAt == now && c.body == CleanBody(req.body)
      && ByteLen(c.body) <= MaxChirpLength
  {
    match bearer
    case Failure(_) => Effect(Fail(StatusUnauthorized, "invalid JWT token"), store)
    case Success(token) =>
      match ValidateJwt(lib, token, secret, now)
      case Failure(_) => Effect(Fail(StatusUnauthorized, "JWT token not valid"), store)
      case Success(author) =>
        if ByteLen(req.body) > MaxChirpLength then
          Effect(Fail(StatusBadRequest, "Chirp is too long"), store)
        else if newId in store then
          Effect(Fail(StatusInternalServerError, "Can not post chirp!"), store)
        else
          CleanBodyShrinks(req.body);
          var c := Chirp(newId, now, now, CleanBody(req.body), author);
          Effect(Reply(StatusCreated, Json(c)), store[newId := c])
  }

  /** The owner of a posted chirp is the token's subject: the `user_id` the
      client sends cannot change anything. */
  lemma OwnerComesFromToken(lib: Library, secret: string, now: Time, bearer: Credential, body: string,
                            claimed: Uuid, other: Uuid, newId: Uuid, store: ChirpStore)
    ensures PostChirp(lib, secret, now, bearer, PostRequest(body, claimed), newId, store)
         == PostChirp(lib, secret, now, bearer, PostRequest(body, other), newId, store)
  {
  }

  /** Posting keeps the store well formed: stored bodies stay within the
      limit and clean. */
  lemma PostKeepsWellformed(lib: Library, secret: string, now: Time, bearer: Credential, req: PostRequest,
                            newId: Uuid, store: ChirpStore)
    requires Wellformed(store)
    ensures Wellformed(PostChirp(lib, secret, now, bearer, req, newId, store).store)
  {
    CleanBodyIdempotent(req.body);
  }

  /** Deleting keeps the store well formed. */
  lemma DeleteKeepsWellformed(lib: Library, secret: string, now: Time, pathId: string, bearer: Credential, store: ChirpStore)
    requires Wellformed(store)
    ensures Wellformed(DeleteChirp(lib, secret, now, pathId, bearer, store).store)
  {
  }
}
