/**
 * The API-key authentication procedure of common/authentication.py: parsing the
 * `Authorization: ApiKey <key>` header, resolving the client address, the fixed sequence of
 * guards ending in the usage update, and the JWT-then-API-key combination.
 *
 * The key store (`APIKey.objects`) is a map from key text to record, the user directory is the
 * set of active user ids, and the JWT authenticator's outcome is an input.
 */
module Authentication {
  import opened Wrappers
  import opened Text
  import opened Users
  import opened ApiKeys
  import Utf8

  type byte = Utf8.byte

  // ---------------------------------------------------------------------------------------
  // Requests, outcomes and errors

  /** What the procedure reads of a request: method, raw Authorization bytes, the two address headers. */
  datatype Request = Request(
    httpMethod: string,
    authorization: seq<byte>,
    forwardedFor: Option<string>,
    remoteAddr: Option<string>)

  /** The distinct `AuthenticationFailed` causes. */
  datatype AuthError =
    | NoCredentials
    | CredentialsContainSpaces
    | InvalidCharacters
    | InvalidKey
    | InactiveOrExpired
    | UserInactive
    | IpNotAllowed
    | MethodNotPermitted(httpMethod: string)
    | RateLimitExceeded

  datatype Credential = ByApiKey(apiKey: APIKey) | ByToken(token: string)

  /** `None` (not handled), a raised `AuthenticationFailed`, or the `(user, credential)` pair. */
  datatype Outcome =
    | NotHandled
    | Failed(error: AuthError)
    | Authenticated(user: UserId, credential: Credential)

  /** What the JWT authenticator did: returned None, raised `AuthenticationFailed`, or accepted. */
  datatype JwtResult = NoToken | TokenRejected | TokenAccepted(user: UserId, token: string)

  const HeaderMessage := "Invalid API key header. "
  const CredentialsMessage := "Credentials string should not contain "

  /** The text of each `AuthenticationFailed`. */
  function Message(e: AuthError): string {
    match e
    case NoCredentials => HeaderMessage + "No credentials provided."
    case CredentialsContainSpaces => HeaderMessage + CredentialsMessage + "spaces."
    case InvalidCharacters => HeaderMessage + CredentialsMessage + "invalid characters."
    case InvalidKey => "Invalid API key."
    case InactiveOrExpired => "API key is inactive or expired."
    case UserInactive => "User inactive or deleted."
    case IpNotAllowed => "IP address not allowed for this API key."
    case MethodNotPermitted(m) => "API key does not have permission for " + m + " requests."
    case RateLimitExceeded => "Rate limit exceeded for this API key."
  }

  /** The messages of the fixed failures differ in length, and none reads "API key d…". */
  lemma FixedMessageShape(e: AuthError)
    requires !e.MethodNotPermitted?
    ensures Message(e)[8] != 'd'
    ensures |Message(e)| == match e
      case NoCredentials => 48
      case CredentialsContainSpaces => 69
      case InvalidCharacters => 81
      case InvalidKey => 16
      case InactiveOrExpired => 31
      case UserInactive => 25
      case IpNotAllowed => 40
      case RateLimitExceeded => 37
      case MethodNotPermitted(_) => 0
  {
    match e {
      case NoCredentials =>
        assert Message(e)[8] == 'A';
      case CredentialsContainSpaces =>
        assert Message(e)[8] == 'A';
      case InvalidCharacters =>
        assert Message(e)[8] == 'A';
      case InvalidKey =>
        assert Message(e)[8] == 'A';
      case InactiveOrExpired =>
        assert Message(e)[8] == 'i';
      case UserInactive =>
        assert Message(e)[8] == 'c';
      case IpNotAllowed =>
        assert Message(e)[8] == 's';
      case RateLimitExceeded =>
        assert Message(e)[8] == 'i';
    }
  }

  /** The permission message spells out the method between a fixed prefix and suffix. */
  lemma MethodMessageNamesMethod(e: AuthError)
    requires e.MethodNotPermitted?
    ensures |Message(e)| == |e.httpMethod| + 47
    ensures Message(e)[37..37 + |e.httpMethod|] == e.httpMethod
    ensures Message(e)[8] == 'd'
  {
  }

  /** Refusals of two different methods read differently. */
  lemma MethodMessagesDistinct(e1: AuthError, e2: AuthError)
    requires e1.MethodNotPermitted? && e2.MethodNotPermitted? && e1 != e2
    ensures Message(e1) != Message(e2)
  {
    MethodMessageNamesMethod(e1);
    MethodMessageNamesMethod(e2);
    if |e1.httpMethod| == |e2.httpMethod| {
      var n := |e1.httpMethod|;
      assert Message(e1)[37..37 + n] != Message(e2)[37..37 + n];
    }
  }

  /** Different failures are reported with different messages. */
  lemma MessagesDistinct(e1: AuthError, e2: AuthError)
    requires e1 != e2
    ensures Message(e1) != Message(e2)
  {
    if e1.MethodNotPermitted? && e2.MethodNotPermitted? {
      MethodMessagesDistinct(e1, e2);
    } else if e1.MethodNotPermitted? {
      FixedMessageShape(e2);
      MethodMessageNamesMethod(e1);
    } else if e2.MethodNotPermitted? {
      FixedMessageShape(e1);
      MethodMessageNamesMethod(e2);
    } else {
      FixedMessageShape(e1);
      FixedMessageShape(e2);
    }
  }

  // ---------------------------------------------------------------------------------------
  // The Authorization header

  /** Whitespace for `bytes.split()`: space, \t, \n, \v, \f, \r. */
  predicate IsSpaceByte(b: byte) {
    b == 0x20 || 0x09 <= b <= 0x0D
  }

  /** A token of `bytes.split()`: non-empty, without whitespace. */
  predicate IsWord(t: seq<byte>) {
    |t| > 0 && forall j :: 0 <= j < |t| ==> !IsSpaceByte(t[j])
  }

  /** `bs.split()`: the maximal runs of non-whitespace bytes, in order. */
  function Tokens(bs: seq<byte>): (ts: seq<seq<byte>>)
    ensures forall i :: 0 <= i < |ts| ==> IsWord(ts[i])
    ensures |bs| > 0 && !IsSpaceByte(bs[0]) ==> |ts| > 0 && |ts[0]| > 0 && ts[0][0] == bs[0]
  {
    if |bs| == 0 then []
    else
      var rest := Tokens(bs[1..]);
      if IsSpaceByte(bs[0]) then rest
      else if |bs| > 1 && !IsSpaceByte(bs[1]) then [[bs[0]] + rest[0]] + rest[1..]
      else [[bs[0]]] + rest
  }

  /** `b" ".join(ts)`. */
  function JoinWords(ts: seq<seq<byte>>): seq<byte> {
    if |ts| == 0 then [] else if |ts| == 1 then ts[0] else ts[0] + [0x20] + JoinWords(ts[1..])
  }

  lemma {:induction false} TokensOfWord(t: seq<byte>)
    requires IsWord(t)
    ensures Tokens(t) == [t]
  {
    if |t| > 1 {
      TokensOfWord(t[1..]);
      assert [t[0]] + t[1..] == t;
    } else {
      assert t == [t[0]];
    }
  }

  lemma {:induction false} TokensAfterWord(t: seq<byte>, u: seq<byte>)
    requires IsWord(t)
    ensures Tokens(t + [0x20] + u) == [t] + Tokens(u)
  {
    var bs := t + [0x20] + u;
    if |t| == 1 {
      assert bs[1..] == [0x20] + u && ([0x20] + u)[1..] == u;
      assert t == [t[0]];
    } else {
      assert bs[1..] == t[1..] + [0x20] + u;
      TokensAfterWord(t[1..], u);
      assert [t[0]] + t[1..] == t;
    }
  }

  /** Splitting words joined by single spaces gives back the words. */
  lemma {:induction false} TokensOfJoinedWords(ts: seq<seq<byte>>)
    requires forall i :: 0 <= i < |ts| ==> IsWord(ts[i])
    ensures Tokens(JoinWords(ts)) == ts
  {
    if |ts| == 1 {
      TokensOfWord(ts[0]);
    } else if |ts| > 1 {
      TokensOfJoinedWords(ts[1..]);
      TokensAfterWord(ts[0], JoinWords(ts[1..]));
      assert [ts[0]] + ts[1..] == ts;
    }
  }

  function LowerByte(b: byte): byte {
    if 0x41 <= b <= 0x5A then b + 0x20 else b
  }

  /** `bytes.lower()`: ASCII letters only. */
  function LowerBytes(t: seq<byte>): (r: seq<byte>)
    ensures |r| == |t|
  {
    seq(|t|, i requires 0 <= i < |t| => LowerByte(t[i]))
  }

  /** `APIKeyAuthentication.keyword.lower().encode()`, that is b"apikey". */
  const KeywordLower: seq<byte> := [0x61, 0x70, 0x69, 0x6B, 0x65, 0x79]

  /** The header's reading before any key lookup. */
  datatype HeaderParse = NotApiKey | Malformed(error: AuthError) | Credential(key: string)

  /**
   * The first half of `authenticate`: a header without tokens or with another scheme is not
   * handled; one token lacks credentials; more than two contain spaces; a credential that is not
   * UTF-8 has invalid characters; otherwise the second token, decoded, is the key.
   */
  function ParseHeader(header: seq<byte>): (p: HeaderParse)
    ensures |Tokens(header)| == 0 ==> p == NotApiKey
    ensures p.NotApiKey? <==> |Tokens(header)| == 0 || LowerBytes(Tokens(header)[0]) != KeywordLower
    ensures p == Malformed(NoCredentials) <==> !p.NotApiKey? && |Tokens(header)| == 1
    ensures p == Malformed(CredentialsContainSpaces) <==> !p.NotApiKey? && |Tokens(header)| > 2
    ensures p.Malformed? ==> p.error in {NoCredentials, CredentialsContainSpaces, InvalidCharacters}
    ensures p.Credential? ==> |Tokens(header)| == 2 && Utf8.Decode(Tokens(header)[1]) == Some(p.key)
  {
    var tokens := Tokens(header);
    if |tokens| == 0 || LowerBytes(tokens[0]) != KeywordLower then NotApiKey
    else if |tokens| == 1 then Malformed(NoCredentials)
    else if |tokens| > 2 then Malformed(CredentialsContainSpaces)
    else
      match Utf8.Decode(tokens[1])
      case None => Malformed(InvalidCharacters)
      case Some(key) => Credential(key)
  }

  /** A character that encodes to a whitespace byte: the ASCII whitespace ones. */
  lemma {:induction false} EncodeWithoutSpaces(s: string)
    requires forall i :: 0 <= i < |s| ==> !IsAsciiSpace(s[i])
    ensures forall j :: 0 <= j < |Utf8.Encode(s)| ==> !IsSpaceByte(Utf8.Encode(s)[j])
    ensures |Utf8.Encode(s)| >= |s|
  {
    if |s| > 0 {
      EncodeWithoutSpaces(s[1..]);
      var e := Utf8.EncodeChar(s[0]);
      assert forall j :: 0 <= j < |e| ==> !IsSpaceByte(e[j]);
    }
  }

  /**
   * `ApiKey <key>`, with the scheme in any letter case and a key without whitespace, is read as
   * exactly that key.
   */
  lemma ApiKeyHeaderParses(scheme: seq<byte>, key: string)
    requires IsWord(scheme) && LowerBytes(scheme) == KeywordLower
    requires key != [] && forall i :: 0 <= i < |key| ==> !IsAsciiSpace(key[i])
    ensures ParseHeader(scheme + [0x20] + Utf8.Encode(key)) == Credential(key)
  {
    var encoded := Utf8.Encode(key);
    EncodeWithoutSpaces(key);
    TwoWordTokens(scheme, encoded);
    Utf8.DecodeEncode(key);
    ParseTwoTokens(scheme + [0x20] + encoded, key);
  }

  lemma TwoWordTokens(t: seq<byte>, u: seq<byte>)
    requires IsWord(t) && IsWord(u)
    ensures Tokens(t + [0x20] + u) == [t, u]
  {
    TokensAfterWord(t, u);
    TokensOfWord(u);
  }

  /** Two tokens, the first the scheme and the second decoding to `key`, read as `key`. */
  lemma ParseTwoTokens(header: seq<byte>, key: string)
    requires |Tokens(header)| == 2 && LowerBytes(Tokens(header)[0]) == KeywordLower
    requires Utf8.Decode(Tokens(header)[1]) == Some(key)
    ensures ParseHeader(header) == Credential(key)
  {
  }

  /** `ApiKey` with nothing after it lacks credentials; a third token means the credential had spaces. */
  lemma MalformedApiKeyHeaders(scheme: seq<byte>, t1: seq<byte>, t2: seq<byte>)
    requires IsWord(scheme) && LowerBytes(scheme) == KeywordLower && IsWord(t1) && IsWord(t2)
    ensures ParseHeader(scheme) == Malformed(NoCredentials)
    ensures ParseHeader(scheme + [0x20] + t1 + [0x20] + t2) == Malformed(CredentialsContainSpaces)
  {
    TokensOfWord(scheme);
    TokensOfWord(t2);
    TokensAfterWord(t1, t2);
    assert scheme + [0x20] + t1 + [0x20] + t2 == scheme + [0x20] + (t1 + [0x20] + t2);
    TokensAfterWord(scheme, t1 + [0x20] + t2);
  }

  // ---------------------------------------------------------------------------------------
  // Client address and rate limit

  /**
   * `get_client_ip`: the first comma-separated hop of a non-empty X-Forwarded-For (not stripped),
   * else REMOTE_ADDR (which may be absent).
   */
  function ClientIp(request: Request): (ip: Option<string>)
    ensures request.forwardedFor.None? || request.forwardedFor.value == "" ==> ip == request.remoteAddr
    ensures request.forwardedFor.Some? && request.forwardedFor.value != "" ==>
      var xff := request.forwardedFor.value;
      && ip.Some? && ip.value <= xff && ',' !in ip.value
      && (|ip.value| < |xff| ==> xff[|ip.value|] == ',')
  {
    match request.forwardedFor
    case Some(xff) =>
      if xff != "" then
        SplitFirstField(xff, ',');
        Some(Split(xff, ',')[0])
      else request.remoteAddr
    case None => request.remoteAddr
  }

  const SecondsPerHour := 3600

  /**
   * `check_rate_limit`: a key without a limit passes, and so does every key with one, whether or
   * not it was used within the last hour.
   */
  function CheckRateLimit(maxRequestsPerHour: Option<nat>, lastUsed: Option<int>, now: int): (allowed: bool)
    ensures allowed
  {
    if maxRequestsPerHour.None? || maxRequestsPerHour.value == 0 then true
    else if lastUsed.Some? && lastUsed.value > now - SecondsPerHour then true
    else true
  }

  // ---------------------------------------------------------------------------------------
  // The guards

  /** The unique `key` column: every record is stored under its own key. */
  predicate IndexedByKey(store: map<string, APIKey>)
    reads store.Values
  {
    forall s :: s in store ==> store[s].key == s
  }

  /**
   * The outcome `authenticate_credentials` decides: unknown key, then inactive or expired key,
   * then inactive owner, then address, then method, then rate limit; the first failing guard
   * decides, and later guards only ever see a known, valid key.
   */
  function CredentialVerdict(key: string, request: Request, store: map<string, APIKey>,
                             activeUsers: set<UserId>, now: int): (r: Outcome)
    reads store.Values
    ensures key !in store ==> r == Failed(InvalidKey)
  {
    if key !in store then Failed(InvalidKey)
    else
      var k := store[key];
      if !k.IsValid(now) then Failed(InactiveOrExpired)
      else if k.user !in activeUsers then Failed(UserInactive)
      else if !k.IsIpAllowed(ClientIp(request)) then Failed(IpNotAllowed)
      else if !k.HasPermission(request.httpMethod) then Failed(MethodNotPermitted(request.httpMethod))
      else if !CheckRateLimit(k.maxRequestsPerHour, k.lastUsed, now) then Failed(RateLimitExceeded)
      else Authenticated(k.user, ByApiKey(k))
  }

  /**
   * The guards are tried in order and the first failing one decides: a failure names the first
   * guard that does not hold, and success means every guard holds.
   */
  lemma GuardOrder(key: string, request: Request, store: map<string, APIKey>, activeUsers: set<UserId>, now: int)
    ensures var r := CredentialVerdict(key, request, store, activeUsers, now);
      && r.Failed? != r.Authenticated? && r != Failed(RateLimitExceeded)
      && (r == Failed(InactiveOrExpired) <==> key in store && !store[key].IsValid(now))
      && (r == Failed(UserInactive) <==>
            key in store && store[key].IsValid(now) && store[key].user !in activeUsers)
      && (r == Failed(IpNotAllowed) <==>
            key in store && store[key].IsValid(now) && store[key].user in activeUsers
            && !store[key].IsIpAllowed(ClientIp(request)))
      && (r == Failed(MethodNotPermitted(request.httpMethod)) <==>
            key in store && store[key].IsValid(now) && store[key].user in activeUsers
            && store[key].IsIpAllowed(ClientIp(request)) && !store[key].HasPermission(request.httpMethod))
      && (r.Authenticated? <==>
            key in store && store[key].IsValid(now) && store[key].user in activeUsers
            && store[key].IsIpAllowed(ClientIp(request)) && store[key].HasPermission(request.httpMethod))
      && (r.Authenticated? ==> key in store && r == Authenticated(store[key].user, ByApiKey(store[key])))
  {
  }

  /** The outcome `APIKeyAuthentication.authenticate` decides for a request. */
  function Verdict(request: Request, store: map<string, APIKey>, activeUsers: set<UserId>, now: int): (r: Outcome)
    reads store.Values
    ensures r.NotHandled? <==> ParseHeader(request.authorization).NotApiKey?
    ensures ParseHeader(request.authorization).Malformed? ==> r == Failed(ParseHeader(request.authorization).error)
  {
    match ParseHeader(request.authorization)
    case NotApiKey => NotHandled
    case Malformed(e) => Failed(e)
    case Credential(key) =>
      GuardOrder(key, request, store, activeUsers, now);
      CredentialVerdict(key, request, store, activeUsers, now)
  }

  /** A header that is not handled or is malformed is decided without looking at any key or user. */
  lemma HeaderFailuresIgnoreStore(request: Request, store1: map<string, APIKey>, store2: map<string, APIKey>,
                                  users1: set<UserId>, users2: set<UserId>, now1: int, now2: int)
    requires !ParseHeader(request.authorization).Credential?
    ensures Verdict(request, store1, users1, now1) == Verdict(request, store2, users2, now2)
  {
  }

  // ---------------------------------------------------------------------------------------
  // The procedure

  /**
   * `authenticate_credentials`: runs the guards and, only when all pass, records the use on the
   * key; on any failure no record changes.
   */
  method AuthenticateCredentials(key: string, request: Request, store: map<string, APIKey>,
                                 activeUsers: set<UserId>, now: int) returns (r: Outcome)
    requires IndexedByKey(store)
    modifies store.Values`requestCount, store.Values`lastUsed
    ensures r == old(CredentialVerdict(key, request, store, activeUsers, now))
    ensures r.Authenticated? ==>
      store[key].requestCount == old(store[key].requestCount) + 1 && store[key].lastUsed == Some(now)
    ensures forall s :: s in store && (s != key || !r.Authenticated?) ==>
      store[s].requestCount == old(store[s].requestCount) && store[s].lastUsed == old(store[s].lastUsed)
  {
    if key !in store {
      return Failed(InvalidKey);
    }
    var apiKey := store[key];
    if !apiKey.IsValid(now) {
      return Failed(InactiveOrExpired);
    }
    if apiKey.user !in activeUsers {
      return Failed(UserInactive);
    }
    var clientIp := ClientIp(request);
    if !apiKey.IsIpAllowed(clientIp) {
      return Failed(IpNotAllowed);
    }
    if !apiKey.HasPermission(request.httpMethod) {
      return Failed(MethodNotPermitted(request.httpMethod));
    }
    if !CheckRateLimit(apiKey.maxRequestsPerHour, apiKey.lastUsed, now) {
      return Failed(RateLimitExceeded);
    }
    r := Authenticated(apiKey.user, ByApiKey(apiKey));
    apiKey.IncrementUsage(now);
  }

  /**
   * `APIKeyAuthentication.authenticate`: header parsing, then the guards; a request that is not
   * handled or whose header is malformed changes nothing.
   */
  method Authenticate(request: Request, store: map<string, APIKey>, activeUsers: set<UserId>, now: int)
    returns (r: Outcome)
    requires IndexedByKey(store)
    modifies store.Values`requestCount, store.Values`lastUsed
    ensures r == old(Verdict(request, store, activeUsers, now))
    ensures !r.Authenticated? ==> unchanged(store.Values)
    ensures r.Authenticated? ==>
      var k := r.credential.apiKey;
      k in store.Values && k.requestCount == old(k.requestCount) + 1 && k.lastUsed == Some(now)
      && forall s :: s in store && store[s] != k ==>
           store[s].requestCount == old(store[s].requestCount) && store[s].lastUsed == old(store[s].lastUsed)
  {
    match ParseHeader(request.authorization)
    case NotApiKey =>
      r := NotHandled;
    case Malformed(e) =>
      r := Failed(e);
    case Credential(key) =>
      r := AuthenticateCredentials(key, request, store, activeUsers, now);
  }

  /**
   * `CombinedAuthentication.authenticate`: a token the JWT authenticator accepts wins; when it
   * returns None or raises `AuthenticationFailed`, the outcome is exactly the API-key outcome.
   */
  method CombinedAuthenticate(jwt: JwtResult, request: Request, store: map<string, APIKey>,
                              activeUsers: set<UserId>, now: int) returns (r: Outcome)
    requires IndexedByKey(store)
    modifies store.Values`requestCount, store.Values`lastUsed
    ensures jwt.TokenAccepted? ==> r == Authenticated(jwt.user, ByToken(jwt.token)) && unchanged(store.Values)
    ensures !jwt.TokenAccepted? ==> r == old(Verdict(request, store, activeUsers, now))
    ensures !jwt.TokenAccepted? && !r.Authenticated? ==> unchanged(store.Values)
    ensures !jwt.TokenAccepted? && r.Authenticated? ==>
      var k := r.credential.apiKey;
      k in store.Values && k.requestCount == old(k.requestCount) + 1 && k.lastUsed == Some(now)
      && forall s :: s in store && store[s] != k ==>
           store[s].requestCount == old(store[s].requestCount) && store[s].lastUsed == old(store[s].lastUsed)
  {
    if jwt.TokenAccepted? {
      return Authenticated(jwt.user, ByToken(jwt.token));
    }
    r := Authenticate(request, store, activeUsers, now);
  }

  /** b"ApiKey". */
  const Scheme: seq<byte> := [0x41, 0x70, 0x69, 0x4B, 0x65, 0x79]

  /**
   * Issuing a key and then presenting it in a GET request from an unrestricted address succeeds
   * as its owner and leaves the key's request count at one.
   */
  method IssueThenAuthenticate(name: string, user: UserId, draws: seq<nat>, address: string, now: int)
    returns (apiKey: APIKey, r: Outcome)
    requires ValidDraws(draws)
    ensures fresh(apiKey)
    ensures r == Authenticated(user, ByApiKey(apiKey))
    ensures apiKey.requestCount == 1 && apiKey.lastUsed == Some(now)
  {
    apiKey := new APIKey(name, user);
    apiKey.Save(draws);
    var store := map[apiKey.key := apiKey];
    assert forall i :: 0 <= i < |apiKey.key| ==> !IsAsciiSpace(apiKey.key[i]);
    ApiKeyHeaderParses(Scheme, apiKey.key);
    var request := Request("GET", Scheme + [0x20] + Utf8.Encode(apiKey.key), None, Some(address));
    UnrestrictedKeyVerdict(apiKey, request, now);
    r := Authenticate(request, store, {user}, now);
  }

  /** An active, unexpired, unrestricted key with read access lets its owner read. */
  lemma UnrestrictedKeyVerdict(apiKey: APIKey, request: Request, now: int)
    requires apiKey.isActive && apiKey.expiresAt.None? && apiKey.allowedIps == "" && apiKey.canRead
    requires request.httpMethod == "GET" && ParseHeader(request.authorization) == Credential(apiKey.key)
    ensures Verdict(request, map[apiKey.key := apiKey], {apiKey.user}, now) == Authenticated(apiKey.user, ByApiKey(apiKey))
  {
    assert apiKey.IsValid(now) && apiKey.IsIpAllowed(ClientIp(request)) && apiKey.HasPermission("GET");
  }
}
