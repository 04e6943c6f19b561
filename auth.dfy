/** The session helpers of src/services/auth.js: the token, user id and display name kept in
    localStorage, and the role read back from the stored token. The store is a parameter;
    the current time (Math.floor(Date.now() / 1000)) is the parameter `now`. */
module Auth {
  import opened Common
  import opened Token
  import Storage

  const TokenKey: string := "token"
  const UserIdKey: string := "userId"
  const UsernameKey: string := "username"

  /** The `user` object of the login response; an absent name is the empty string. */
  datatype User = User(id: Json, name: string)

  /** The body of the login response: `{ token, user }`. */
  datatype LoginResponse = LoginResponse(token: string, user: Option<User>)

  /** The store after `login` has handled a response: the token always, the user id when
      `user.id` is truthy (as String(id)), the name with its first character upper-cased
      when it is non-empty; every other key as it was. */
  function StoredAfterLogin(items: map<string, string>, response: LoginResponse): (r: map<string, string>)
    ensures TokenKey in r && r[TokenKey] == response.token
    ensures response.user.Some? && Truthy(response.user.value.id) ==>
      UserIdKey in r && r[UserIdKey] == ToText(response.user.value.id)
    ensures !(response.user.Some? && Truthy(response.user.value.id)) ==>
      (UserIdKey in r <==> UserIdKey in items) && (UserIdKey in items ==> r[UserIdKey] == items[UserIdKey])
    ensures response.user.Some? && response.user.value.name != "" ==>
      UsernameKey in r && |r[UsernameKey]| == |response.user.value.name| &&
      r[UsernameKey][0] == Upper(response.user.value.name[0]) &&
      r[UsernameKey][1..] == response.user.value.name[1..]
    ensures !(response.user.Some? && response.user.value.name != "") ==>
      (UsernameKey in r <==> UsernameKey in items) && (UsernameKey in items ==> r[UsernameKey] == items[UsernameKey])
    ensures forall k :: k != TokenKey && k != UserIdKey && k != UsernameKey ==>
      (k in r <==> k in items) && (k in items ==> r[k] == items[k])
  {
    var withToken := items[TokenKey := response.token];
    match response.user
    case None => withToken
    case Some(user) =>
      var withId := if Truthy(user.id) then withToken[UserIdKey := ToText(user.id)] else withToken;
      if user.name != "" then withId[UsernameKey := CapitalizeFirst(user.name)] else withId
  }

  /** getToken: the stored token, or null when none is stored. */
  function GetToken(store: Storage.Store): (r: Option<string>)
    reads store
    ensures r == (if TokenKey in store.items then Some(store.items[TokenKey]) else None)
  {
    store.GetItem(TokenKey)
  }

  /** setToken: afterwards getToken returns the token just set. */
  method SetToken(store: Storage.Store, token: string)
    modifies store
    ensures store.items == old(store.items)[TokenKey := token]
    ensures GetToken(store) == Some(token)
  {
    store.SetItem(TokenKey, token);
  }

  /** clearToken: removes the token and nothing else. */
  method ClearToken(store: Storage.Store)
    modifies store
    ensures store.items == old(store.items) - {TokenKey}
    ensures GetToken(store) == None
  {
    store.RemoveItem(TokenKey);
  }

  /** login, once the response has arrived (the request itself is not modelled). */
  method Login(store: Storage.Store, response: LoginResponse) returns (data: LoginResponse)
    modifies store
    ensures store.items == StoredAfterLogin(old(store.items), response)
    ensures data == response
  {
    SetToken(store, response.token);
    if response.user.Some? {
      var user := response.user.value;
      if Truthy(user.id) {
        store.SetItem(UserIdKey, ToText(user.id));
      }
      if user.name != "" {
        store.SetItem(UsernameKey, CapitalizeFirst(user.name));
      }
    }
    data := response;
  }

  /** What getUserRole decides for a stored token: the role it returns, and whether it
      removes the token from the store on the way. */
  datatype RoleLookup = RoleLookup(role: Option<Json>, clearsToken: bool)

  function ResolveRole(token: Option<string>, decode: string -> Payload, now: int): (r: RoleLookup)
    ensures r.role.Some? ==> Truthy(r.role.value)
    ensures r.clearsToken ==> r.role.None?
    ensures r.clearsToken <==>
      token.Some? && token.value != "" && PayloadOf(token.value, decode).Claims? &&
      IsExpired(PayloadOf(token.value, decode).claims, now)
    ensures r.role.Some? ==>
      token.Some? && PayloadOf(token.value, decode).Claims? &&
      !IsExpired(PayloadOf(token.value, decode).claims, now) &&
      (Lookup(PayloadOf(token.value, decode).claims, RoleClaim) == r.role ||
       Lookup(PayloadOf(token.value, decode).claims, "role") == r.role)
    ensures (token.Some? && token.value != "" && PayloadOf(token.value, decode).Claims? &&
             !IsExpired(PayloadOf(token.value, decode).claims, now)) ==>
      r.role == FirstTruthy(Lookup(PayloadOf(token.value, decode).claims, RoleClaim),
                            Lookup(PayloadOf(token.value, decode).claims, "role"))
  {
    if token.None? || token.value == "" then RoleLookup(None, false)
    else match PayloadOf(token.value, decode)
      case DecodeFailed => RoleLookup(None, false)
      case Claims(c) =>
        if IsExpired(c, now) then RoleLookup(None, true)
        else RoleLookup(FirstTruthy(Lookup(c, RoleClaim), Lookup(c, "role")), false)
  }

  /** No stored token (or an empty one): no role, and the store is left alone. */
  lemma NoTokenNoRole(decode: string -> Payload, now: int)
    ensures ResolveRole(None, decode, now) == RoleLookup(None, false)
    ensures ResolveRole(Some(""), decode, now) == RoleLookup(None, false)
  {
  }

  /** A payload that does not decode gives no role and keeps the token stored. */
  lemma DecodeFailureKeepsToken(token: string, decode: string -> Payload, now: int)
    requires PayloadOf(token, decode) == DecodeFailed
    ensures ResolveRole(Some(token), decode, now) == RoleLookup(None, false)
  {
  }

  /** An `exp` strictly before now removes the token; an `exp` equal to now is still accepted
      (section 4.1.4 of RFC 7519 would reject it). */
  lemma ExpiryBoundary(token: string, decode: string -> Payload, now: int, claims: map<string, Json>)
    requires token != "" && PayloadOf(token, decode) == Claims(claims)
    ensures "exp" in claims && claims["exp"] == JNumber(now - 1) && now - 1 != 0 ==>
      ResolveRole(Some(token), decode, now) == RoleLookup(None, true)
    ensures "exp" in claims && claims["exp"] == JNumber(now) ==>
      !ResolveRole(Some(token), decode, now).clearsToken
  {
  }

  /** A missing or zero `exp` skips the expiry check: the role is read whatever `now` is. */
  lemma MissingExpNeverExpires(token: string, decode: string -> Payload, now: int, claims: map<string, Json>)
    requires token != "" && PayloadOf(token, decode) == Claims(claims)
    requires "exp" !in claims || claims["exp"] == JNumber(0)
    ensures ResolveRole(Some(token), decode, now) ==
      RoleLookup(FirstTruthy(Lookup(claims, RoleClaim), Lookup(claims, "role")), false)
  {
  }

  /** The namespaced role claim wins over the plain `role` claim when both are truthy. */
  lemma NamespacedRolePreferred(token: string, decode: string -> Payload, now: int, claims: map<string, Json>)
    requires token != "" && PayloadOf(token, decode) == Claims(claims) && !IsExpired(claims, now)
    requires RoleClaim in claims && Truthy(claims[RoleClaim])
    ensures ResolveRole(Some(token), decode, now).role == Some(claims[RoleClaim])
  {
  }

  /** getUserRole: reads the stored token, and removes it when it has expired. */
  method GetUserRole(store: Storage.Store, decode: string -> Payload, now: int) returns (role: Option<Json>)
    modifies store
    ensures role == ResolveRole(old(GetToken(store)), decode, now).role
    ensures store.items ==
      if ResolveRole(old(GetToken(store)), decode, now).clearsToken
      then old(store.items) - {TokenKey} else old(store.items)
  {
    var token := GetToken(store);
    if token.None? || token.value == "" {
      return None;
    }
    var payload := PayloadOf(token.value, decode);
    if payload.DecodeFailed? {
      return None;
    }
    if IsExpired(payload.claims, now) {
      ClearToken(store);
      return None;
    }
    role := FirstTruthy(Lookup(payload.claims, RoleClaim), Lookup(payload.claims, "role"));
  }
}
