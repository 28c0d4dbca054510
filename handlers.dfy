/**
 * The decision rules of the HTTP handlers in main.go. The store, the
 * password-hash comparison and UUID parsing are outside the model: their
 * outcomes are parameters.
 */
module Handlers {
  import opened Wrappers
  import opened Strings
  import opened Profanity

  const StatusOK: int := 200
  const StatusCreated: int := 201
  const StatusBadRequest: int := 400
  const StatusUnauthorized: int := 401
  const StatusForbidden: int := 403
  const StatusInternalServerError: int := 500

  /** What a handler writes back: `respondWithError` or a JSON/empty success body. */
  datatype Reply = ErrorReply(status: int, message: string) | SuccessReply(status: int)

  // ---------------------------------------------------------------------------
  // Hit counter
  // ---------------------------------------------------------------------------

  const MinInt32: int := -0x8000_0000
  const MaxInt32: int := 0x7fff_ffff

  /** Go's `int32`, the value type of `atomic.Int32`. */
  newtype Int32 = x: int | MinInt32 <= x <= MaxInt32

  /** `Add(1)` on an `int32`: two's-complement wrap-around at the top. */
  function Increment(x: Int32): (y: Int32)
    ensures (y as int - MinInt32) == (x as int + 1 - MinInt32) % 0x1_0000_0000
  {
    if x as int == MaxInt32 then MinInt32 as Int32 else x + 1
  }

  /** Below the top of the range an increment adds exactly one. */
  lemma IncrementAddsOne(x: Int32)
    requires x as int < MaxInt32
    ensures Increment(x) as int == x as int + 1
  {
  }

  /** How `handlerAdminReset` ends. */
  datatype ResetOutcome = ResetOutcome(deletesUsers: bool, clearsHits: bool, reply: Reply)

  /**
   * `handlerAdminReset` as a decision: outside the "dev" platform it is
   * forbidden; there it deletes every user and, if that works, zeroes the
   * counter. `deleteSucceeds` is the store's answer to the deletion.
   */
  function AdminReset(platform: string, deleteSucceeds: bool): (r: ResetOutcome)
    ensures r.deletesUsers <==> platform == "dev"
    ensures r.clearsHits <==> platform == "dev" && deleteSucceeds
    ensures r.reply.status == StatusForbidden <==> platform != "dev"
    ensures r.reply.status == StatusInternalServerError <==> platform == "dev" && !deleteSucceeds
    ensures r.reply.status == StatusOK <==> r.clearsHits
  {
    if platform != "dev" then
      ResetOutcome(false, false, ErrorReply(StatusForbidden, "forbidden"))
    else if !deleteSucceeds then
      ResetOutcome(true, false, ErrorReply(StatusInternalServerError, "could not delete users"))
    else
      ResetOutcome(true, true, SuccessReply(StatusOK))
  }

  /** `apiConfig`: the server-lifetime state, with the hit counter as a plain field. */
  class ApiConfig {
    var fileserverHits: Int32
    const platform: string

    constructor (platform: string)
      ensures this.platform == platform && fileserverHits == 0
    {
      this.platform := platform;
      fileserverHits := 0;
    }

    /** `middlewareMetricsInc`: every request under /app/ counts once before it is served. */
    method MiddlewareMetricsInc()
      modifies this
      ensures fileserverHits == Increment(old(fileserverHits))
    {
      fileserverHits := Increment(fileserverHits);
    }

    /** `handlerAdminMetrics`: the count it reports is the counter. */
    method HandlerAdminMetrics() returns (count: Int32)
      ensures count == fileserverHits
    {
      count := fileserverHits;
    }

    /** `handlerAdminReset`: the counter drops to 0 only on a permitted, successful reset. */
    method HandlerAdminReset(deleteSucceeds: bool) returns (reply: Reply)
      modifies this
      ensures reply == AdminReset(platform, deleteSucceeds).reply
      ensures fileserverHits == if platform == "dev" && deleteSucceeds then 0 else old(fileserverHits)
    {
      if platform != "dev" {
        return ErrorReply(StatusForbidden, "forbidden");
      }
      if !deleteSucceeds {
        return ErrorReply(StatusInternalServerError, "could not delete users");
      }
      fileserverHits := 0;
      reply := SuccessReply(StatusOK);
    }
  }

  /** Two requests under /app/ on a fresh counter, then a permitted reset. */
  method CounterScenario(deleteSucceeds: bool) returns (before: Int32, after: Int32)
    ensures before == 2
    ensures after == if deleteSucceeds then 0 else 2
  {
    var cfg := new ApiConfig("dev");
    cfg.MiddlewareMetricsInc();
    cfg.MiddlewareMetricsInc();
    before := cfg.HandlerAdminMetrics();
    var reply := cfg.HandlerAdminReset(deleteSucceeds);
    after := cfg.HandlerAdminMetrics();
  }

  // ---------------------------------------------------------------------------
  // Chirp creation
  // ---------------------------------------------------------------------------

  /** The longest chirp body accepted, in bytes. */
  const MaxChirpLength: nat := 140

  /** The decoded JSON body of POST /api/chirps. */
  datatype ChirpRequest = ChirpRequest(body: string, userId: string)

  /** How `handlerChirps` ends: the body handed to the store, if any, and the reply. */
  datatype ChirpOutcome = ChirpOutcome(passedToStore: Option<string>, reply: Reply)

  /**
   * `handlerChirps`. `request` is `None` when the JSON does not decode;
   * `isUuid` stands for `uuid.Parse` succeeding; `storeSucceeds` is the
   * store's answer to `CreateChirp`.
   */
  function CreateChirp(request: Option<ChirpRequest>, isUuid: string -> bool, storeSucceeds: bool): (r: ChirpOutcome)
    ensures r.passedToStore.Some? ==> request.Some? && r.passedToStore.value == Clean(request.value.body)
    ensures r.passedToStore.Some? ==> |r.passedToStore.value| <= MaxChirpLength
    ensures r.reply.status == StatusCreated <==>
      request.Some? && |request.value.body| <= MaxChirpLength && isUuid(request.value.userId) && storeSucceeds
    ensures r.reply.status == StatusBadRequest <==>
      request.None? || |request.value.body| > MaxChirpLength || !isUuid(request.value.userId)
    ensures r.reply.status == StatusInternalServerError <==>
      request.Some? && |request.value.body| <= MaxChirpLength && isUuid(request.value.userId) && !storeSucceeds
  {
    match request
    case None =>
      ChirpOutcome(None, ErrorReply(StatusBadRequest, "Something went wrong"))
    case Some(req) =>
      if |req.body| > MaxChirpLength then
        ChirpOutcome(None, ErrorReply(StatusBadRequest, "Chirp is too long"))
      else if !isUuid(req.userId) then
        ChirpOutcome(None, ErrorReply(StatusBadRequest, "invalid user_id"))
      else
        CleanNotLonger(req.body);
        var body := Clean(req.body);
        if storeSucceeds then ChirpOutcome(Some(body), SuccessReply(StatusCreated))
        else ChirpOutcome(Some(body), ErrorReply(StatusInternalServerError, "could not create chirp"))
  }

  /** A body over 140 bytes is refused before the user id is parsed and before the store is called. */
  lemma TooLongChirpRejected(request: ChirpRequest, isUuid: string -> bool, storeSucceeds: bool)
    requires |request.body| > MaxChirpLength
    ensures CreateChirp(Some(request), isUuid, storeSucceeds)
      == ChirpOutcome(None, ErrorReply(StatusBadRequest, "Chirp is too long"))
  {
  }

  /** The store is called exactly for a decoded body within the limit whose user id parses. */
  lemma ChirpReachesStore(request: Option<ChirpRequest>, isUuid: string -> bool, storeSucceeds: bool)
    ensures CreateChirp(request, isUuid, storeSucceeds).passedToStore.Some? <==>
      request.Some? && |request.value.body| <= MaxChirpLength && isUuid(request.value.userId)
  {
  }

  // ---------------------------------------------------------------------------
  // Login
  // ---------------------------------------------------------------------------

  /** The decoded JSON body of POST /api/login. */
  datatype LoginRequest = LoginRequest(email: string, password: string)

  /** The store's answer to `GetUserEmail`. */
  datatype UserLookup = Found(hashedPassword: string) | NoRows | LookupFailed

  const BadCredentials: string := "Incorrect email or password"

  /**
   * `handlerLogin`. `lookup` is the store's answer for the request's email;
   * `passwordMatches(password, hash)` stands for `CheckPasswordHash` succeeding.
   */
  function Login(request: Option<LoginRequest>, lookup: UserLookup, passwordMatches: (string, string) -> bool): (r: Reply)
    ensures r.status == StatusOK <==>
      request.Some? && lookup.Found? && passwordMatches(request.value.password, lookup.hashedPassword)
    ensures r.status == StatusInternalServerError <==> request.Some? && lookup.LookupFailed?
    ensures r.status == StatusBadRequest <==> request.None?
    ensures r.status == StatusUnauthorized <==>
      request.Some? && (lookup.NoRows? || (lookup.Found? && !passwordMatches(request.value.password, lookup.hashedPassword)))
    ensures r.status == StatusUnauthorized ==> r == ErrorReply(StatusUnauthorized, BadCredentials)
  {
    match request
    case None => ErrorReply(StatusBadRequest, "Something went wrong")
    case Some(req) =>
      match lookup
      case NoRows => ErrorReply(StatusUnauthorized, BadCredentials)
      case LookupFailed => ErrorReply(StatusInternalServerError, "Error retrieving user")
      case Found(hash) =>
        if !passwordMatches(req.password, hash) then ErrorReply(StatusUnauthorized, BadCredentials)
        else SuccessReply(StatusOK)
  }

  /** An unknown email and a wrong password get the same reply, so neither is told apart. */
  lemma UnknownEmailLooksLikeWrongPassword(request: LoginRequest, hash: string, passwordMatches: (string, string) -> bool)
    requires !passwordMatches(request.password, hash)
    ensures Login(Some(request), NoRows, passwordMatches) == Login(Some(request), Found(hash), passwordMatches)
    ensures Login(Some(request), NoRows, passwordMatches) == ErrorReply(StatusUnauthorized, BadCredentials)
  {
  }
}
