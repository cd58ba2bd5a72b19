/**
 * What the server's HTTP handlers (wishpage-server/main.go) decide before
 * and around the item store: the id taken from the URL path, the bearer-token
 * gate of the admin routes, the login limiter map, the client IP used in the
 * logs, and the admin password check.
 */
module ServerHttp {
  import opened Wrappers
  import opened Text
  import opened Items
  import opened ItemStore
  import Hex

  const ReservePrefix := "/reserve/"
  const UpdatePrefix := "/admin/update/"
  const DeletePrefix := "/admin/delete/"

  datatype HandlerError =
    | MissingId                    // "Missing ID in the path", 400
    | NoToken                      // "No token provided", 401
    | InvalidToken                 // "Invalid token", 401
    | StoreFailed(cause: StoreError)  // the store operation failed, 500

  function Lift<T>(r: Result<T, StoreError>): (h: Result<T, HandlerError>)
    ensures h.Success? <==> r.Success?
    ensures r.Success? ==> h.value == r.value
    ensures r.Failure? ==> h.error == StoreFailed(r.error)
  {
    match r
    case Success(v) => Success(v)
    case Failure(e) => Failure(StoreFailed(e))
  }

  /**
   * The id of the three id handlers: the route prefix is stripped, then at
   * most one trailing '/'; an empty id is refused.
   */
  function PathId(path: string, prefix: string): (r: Result<string, HandlerError>)
    ensures r.Failure? ==> r.error == MissingId
    ensures r.Success? ==> r.value != ""
    ensures r.Success? && HasPrefix(path, prefix) ==>
      path == prefix + r.value || path == prefix + r.value + "/"
  {
    var id := TrimSuffix(TrimPrefix(path, prefix), "/");
    if id == "" then Failure(MissingId) else Success(id)
  }

  /** An id without a trailing '/' is read back from the route, with or without one slash after it. */
  lemma PathIdOfRoute(prefix: string, id: string)
    requires id != "" && !HasSuffix(id, "/")
    ensures PathId(prefix + id, prefix) == Success(id)
    ensures PathId(prefix + id + "/", prefix) == Success(id)
  {
  }

  /** The bare route, and the route with one trailing slash, carry no id. */
  lemma PathIdMissing(prefix: string)
    ensures PathId(prefix, prefix) == Failure(MissingId)
    ensures PathId(prefix + "/", prefix) == Failure(MissingId)
  {
  }

  /**
   * `authMiddleware`: an empty Authorization header is refused; otherwise the
   * "Bearer " prefix is stripped and the token must be valid. JWT validation is
   * the opaque predicate `isValid`.
   */
  function Authorize(header: string, isValid: string -> bool): (r: Result<(), HandlerError>)
    ensures r.Success? <==> header != "" && isValid(TrimPrefix(header, "Bearer "))
    ensures header == "" ==> r == Failure(NoToken)
    ensures header != "" && !isValid(TrimPrefix(header, "Bearer ")) ==> r == Failure(InvalidToken)
  {
    if header == "" then Failure(NoToken)
    else if !isValid(TrimPrefix(header, "Bearer ")) then Failure(InvalidToken)
    else Success(())
  }

  /** `PUT /reserve/{id}`: an empty id is refused before the store is touched. */
  method HandleReserve(table: ItemTable, path: string) returns (r: Result<int, HandlerError>)
    requires table.Valid()
    modifies table
    ensures table.Valid() && table.nextId == old(table.nextId)
    ensures PathId(path, ReservePrefix).Failure? ==> r == Failure(MissingId) && table.rows == old(table.rows)
    ensures PathId(path, ReservePrefix).Success? ==>
      var o := Reserving(old(table.rows), PathId(path, ReservePrefix).value);
      r == Lift(o.result) && table.rows == o.rows
  {
    var id := PathId(path, ReservePrefix);
    if id.Failure? {
      return Failure(MissingId);
    }
    var count := table.Reserve(id.value);
    r := Lift(count);
  }

  /** `PUT /admin/update/{id}`: token, id, then the body decoded over `NullItem` is merged. */
  method HandleUpdate(table: ItemTable, header: string, isValid: string -> bool, path: string, body: ItemJson)
    returns (r: Result<(), HandlerError>)
    requires table.Valid()
    modifies table
    ensures table.Valid() && table.nextId == old(table.nextId)
    ensures Authorize(header, isValid).Failure? ==> r == Authorize(header, isValid) && table.rows == old(table.rows)
    ensures Authorize(header, isValid).Success? && PathId(path, UpdatePrefix).Failure? ==>
      r == Failure(MissingId) && table.rows == old(table.rows)
    ensures Authorize(header, isValid).Success? && PathId(path, UpdatePrefix).Success? ==>
      var o := Updating(old(table.rows), PathId(path, UpdatePrefix).value, DecodeInto(NullItem, body));
      r == Lift(o.result) && table.rows == o.rows
  {
    var auth := Authorize(header, isValid);
    if auth.Failure? {
      return auth;
    }
    var id := PathId(path, UpdatePrefix);
    if id.Failure? {
      return Failure(MissingId);
    }
    var item := DecodeInto(NullItem, body);
    var updated := table.Update(id.value, item);
    r := Lift(updated);
  }

  /** `POST /admin/insert`: token, then the body decoded over `Item{Count: 1}` is inserted. */
  method HandleInsert(table: ItemTable, header: string, isValid: string -> bool, body: ItemJson)
    returns (r: Result<(), HandlerError>)
    requires table.Valid()
    modifies table
    ensures table.Valid()
    ensures Authorize(header, isValid).Failure? ==>
      r == Authorize(header, isValid) && table.rows == old(table.rows) && table.nextId == old(table.nextId)
    ensures Authorize(header, isValid).Success? ==>
      r == Success(()) && old(table.nextId) !in old(table.rows) && table.nextId == old(table.nextId) + 1 &&
      table.rows == old(table.rows)[old(table.nextId) := DecodeInto(InsertDefault, body).(id := old(table.nextId))]
  {
    var auth := Authorize(header, isValid);
    if auth.Failure? {
      return auth;
    }
    var item := DecodeInto(InsertDefault, body);
    table.Insert(item);
    r := Success(());
  }

  /** An insert body without a count stores a row with count 1. */
  lemma InsertCountDefaultsToOne(body: ItemJson)
    ensures body.count.None? ==> DecodeInto(InsertDefault, body).count == 1
    ensures body.count.Some? ==> DecodeInto(InsertDefault, body).count == body.count.value
  {
  }

  /** `DELETE /admin/delete/{id}`: token, id, then the row is removed. */
  method HandleDelete(table: ItemTable, header: string, isValid: string -> bool, path: string)
    returns (r: Result<(), HandlerError>)
    requires table.Valid()
    modifies table
    ensures table.Valid() && table.nextId == old(table.nextId)
    ensures Authorize(header, isValid).Failure? ==> r == Authorize(header, isValid) && table.rows == old(table.rows)
    ensures Authorize(header, isValid).Success? && PathId(path, DeletePrefix).Failure? ==>
      r == Failure(MissingId) && table.rows == old(table.rows)
    ensures Authorize(header, isValid).Success? && PathId(path, DeletePrefix).Success? ==>
      var o := Deleting(old(table.rows), PathId(path, DeletePrefix).value);
      r == Lift(o.result) && table.rows == o.rows
  {
    var auth := Authorize(header, isValid);
    if auth.Failure? {
      return auth;
    }
    var id := PathId(path, DeletePrefix);
    if id.Failure? {
      return Failure(MissingId);
    }
    var deleted := table.Delete(id.value);
    r := Lift(deleted);
  }

  /**
   * `getClientIP`: the first entry of a non-empty X-Forwarded-For header,
   * else the host part of the remote address, else the remote address as it
   * is. `splitHost` is what `net.SplitHostPort` gives for the remote address.
   */
  function ClientIP(forwardedFor: string, remoteAddr: string, splitHost: Option<string>): (ip: string)
    ensures forwardedFor != "" ==>
      HasPrefix(forwardedFor, ip) && ',' !in ip && (ip == forwardedFor || forwardedFor[|ip|] == ',')
    ensures forwardedFor == "" && splitHost.Some? ==> ip == splitHost.value
    ensures forwardedFor == "" && splitHost.None? ==> ip == remoteAddr
  {
    if forwardedFor != "" then
      var first := FirstField(forwardedFor, ',');
      assert |first| == |forwardedFor| ==> first == forwardedFor;
      first
    else splitHost.GetOr(remoteAddr)
  }

  /** A token-bucket limiter: `burst` requests, one more every `everySeconds`. */
  class RateLimiter {
    const everySeconds: nat
    const burst: nat

    constructor (everySeconds: nat, burst: nat)
      ensures this.everySeconds == everySeconds && this.burst == burst
    {
      this.everySeconds := everySeconds;
      this.burst := burst;
    }
  }

  /** The `Server` struct: the admin password hash and the login limiters by remote address. */
  class Server {
    const adminPasswordHash: string
    /** The SHA-256 digest of the admin password the hash was rendered from. */
    ghost const adminDigest: seq<Hex.byte>
    var ipLimiters: map<string, RateLimiter>

    /** `newServer`, given the SHA-256 digest of the admin password. */
    constructor (adminDigest: seq<Hex.byte>)
      ensures this.adminDigest == adminDigest
      ensures adminPasswordHash == Hex.GoHex(adminDigest) && ipLimiters == map[]
    {
      this.adminDigest := adminDigest;
      adminPasswordHash := Hex.GoHex(adminDigest);
      ipLimiters := map[];
    }

    /**
     * `getIPLimiter`: a known key gets its existing limiter and the map is
     * unchanged; an unknown one gets a new limiter of 10 requests per minute,
     * added as the only new entry. The login handler passes `RemoteAddr`,
     * "host:port", as the key, so the limiter is per connection address.
     */
    method GetIPLimiter(ip: string) returns (limiter: RateLimiter)
      modifies this
      ensures ip in old(ipLimiters) ==> limiter == old(ipLimiters)[ip] && ipLimiters == old(ipLimiters)
      ensures ip !in old(ipLimiters) ==>
        fresh(limiter) && limiter.everySeconds == 60 && limiter.burst == 10 &&
        ipLimiters == old(ipLimiters)[ip := limiter]
    {
      if ip in ipLimiters {
        limiter := ipLimiters[ip];
      } else {
        limiter := new RateLimiter(60, 10);
        ipLimiters := ipLimiters[ip := limiter];
      }
    }

    /**
     * The login handler's check: the sent hash must equal the stored one as
     * strings. A password rendered the client's way from some digest is
     * accepted exactly when that digest is the administrator's.
     */
    function PasswordAccepted(password: string): (accepted: bool)
      requires adminPasswordHash == Hex.GoHex(adminDigest)
      ensures accepted <==> password == adminPasswordHash
      ensures forall d :: password == Hex.DigestHex(d) ==> (accepted <==> d == adminDigest)
    {
      Hex.DigestHexMatchesGoHex(adminDigest);
      adminPasswordHash == password
    }
  }
}
