/**
 * The frontend's reading of the JSON Web Token kept in local storage: the
 * shape check and payload decode, the expiry test, the remaining lifetime,
 * and the user built from the claims. The stored token is a parameter
 * (`None` when nothing is stored), `now` stands for `Date.now()` in
 * milliseconds, and the base64url and `JSON.parse` step is the parameter
 * `decode`.
 */
module JwtService {
  import opened Wrappers
  import opened Js
  import Text
  import Decimal

  /**
   * Decodes a token's payload segment into its claims; `None` when the
   * decode throws or does not give an object.
   */
  type Decoder = string -> Option<Props>

  /** The user object built from the claims. */
  datatype User = User(
    id: Value,
    username: Value,
    email: Value,
    isAdmin: Value,
    role: Value,
    groupId: Value)

  /** A stored token that is missing or empty is falsy. */
  predicate HasToken(token: Option<string>)
  {
    token.Some? && token.value != ""
  }

  /**
   * `parseToken`: the claims of a non-empty token of exactly three
   * dot-separated parts, decoded from the middle part.
   */
  function ParseToken(token: Option<string>, decode: Decoder): (r: Option<Props>)
    ensures !HasToken(token) ==> r.None?
    ensures HasToken(token) && Text.Count(token.value, '.') != 2 ==> r.None?
  {
    if !HasToken(token) then None
    else
      var parts := Text.Split(token.value, '.');
      Text.SplitLength(token.value, '.');
      if |parts| != 3 then None else decode(parts[1])
  }

  /** A token assembled from three dot-free parts is decoded from its middle part. */
  lemma ParseThreeParts(header: string, payload: string, signature: string, decode: Decoder)
    requires '.' !in header && '.' !in payload && '.' !in signature
    ensures ParseToken(Some(header + "." + payload + "." + signature), decode) == decode(payload)
  {
    var parts := [header, payload, signature];
    var token := header + "." + payload + "." + signature;
    assert Text.Join(parts, '.') == token by {
      assert Text.Join(parts[1..], '.') == payload + "." + signature by {
        assert parts[1..][1..] == [signature];
      }
    }
    Text.SplitJoin(parts, '.');
  }

  /**
   * `isTokenExpired`: true without claims or without a truthy `exp`;
   * otherwise `now >= exp * 1000`, which is false when `exp` is not a number.
   */
  function IsTokenExpired(token: Option<string>, decode: Decoder, now: int): (r: bool)
    ensures ParseToken(token, decode).None? ==> r
    ensures ParseToken(token, decode).Some? && !Truthy(Prop(ParseToken(token, decode).value, "exp")) ==> r
    ensures ParseToken(token, decode).Some? && Truthy(Prop(ParseToken(token, decode).value, "exp")) ==>
      var exp := ToNumber(Prop(ParseToken(token, decode).value, "exp"));
      (r <==> exp.Some? && now >= exp.value * 1000)
    ensures !r ==> HasToken(token)
  {
    match ParseToken(token, decode)
    case None => true
    case Some(claims) =>
      var exp := Prop(claims, "exp");
      if !Truthy(exp) then true
      else
        match ToNumber(exp)
        case None => false
        case Some(seconds) => now >= seconds * 1000
  }

  /**
   * `getTokenRemainingTime`: the whole seconds until expiry, rounded down,
   * and 0 without claims, without a truthy numeric `exp`, or once expired.
   */
  function GetTokenRemainingTime(token: Option<string>, decode: Decoder, now: int): (r: nat)
    ensures ParseToken(token, decode).None? ==> r == 0
    ensures ParseToken(token, decode).Some? && !Truthy(Prop(ParseToken(token, decode).value, "exp")) ==> r == 0
    ensures ParseToken(token, decode).Some? && ToNumber(Prop(ParseToken(token, decode).value, "exp")).None? ==> r == 0
    ensures ParseToken(token, decode).Some? && Truthy(Prop(ParseToken(token, decode).value, "exp")) ==>
      var exp := ToNumber(Prop(ParseToken(token, decode).value, "exp"));
      exp.Some? ==>
        var left := exp.value * 1000 - now;
        r * 1000 <= (if left > 0 then left else 0) < r * 1000 + 1000
    ensures r > 0 ==>
      var exp := ToNumber(Prop(ParseToken(token, decode).value, "exp"));
      && exp.Some?
      && r * 1000 <= exp.value * 1000 - now < r * 1000 + 1000
  {
    match ParseToken(token, decode)
    case None => 0
    case Some(claims) =>
      var exp := Prop(claims, "exp");
      if !Truthy(exp) then 0
      else
        match ToNumber(exp)
        case None => 0
        case Some(seconds) =>
          var remaining := seconds * 1000 - now;
          if remaining > 0 then remaining / 1000 else 0
  }

  /** Time left means the token has not expired. */
  lemma RemainingMeansUnexpired(token: Option<string>, decode: Decoder, now: int)
    requires GetTokenRemainingTime(token, decode, now) > 0
    ensures !IsTokenExpired(token, decode, now)
  {
  }

  /** An expired token has no time left. */
  lemma ExpiredMeansNoTimeLeft(token: Option<string>, decode: Decoder, now: int)
    requires IsTokenExpired(token, decode, now)
    ensures GetTokenRemainingTime(token, decode, now) == 0
  {
  }

  /** With a non-zero numeric `exp`, the token is expired exactly from `exp` seconds on. */
  lemma ExpiryIsAtExpSeconds(token: Option<string>, decode: Decoder, now: int, seconds: int)
    requires ParseToken(token, decode).Some?
    requires Prop(ParseToken(token, decode).value, "exp") == Num(seconds) && seconds != 0
    ensures IsTokenExpired(token, decode, now) <==> now >= seconds * 1000
  {
  }

  /**
   * `getUserFromToken`: id and username fall back to `sub` when falsy,
   * `isAdmin` is set only by the text "True" or the boolean true, and a falsy
   * `groupId` claim gives null while any other is read with `parseInt`.
   */
  function GetUserFromToken(token: Option<string>, decode: Decoder): (r: Option<User>)
    ensures r.Some? <==> ParseToken(token, decode).Some?
    ensures r.Some? ==>
      var claims := ParseToken(token, decode).value;
      var admin := Prop(claims, "isAdmin");
      && (r.value.isAdmin == Bool(true) <==> admin == Str("True") || admin == Bool(true))
      && (r.value.isAdmin == Bool(false) <==> admin != Str("True") && admin != Bool(true))
      && (r.value.groupId == Null <==> !Truthy(Prop(claims, "groupId")))
      && (Truthy(Prop(claims, "groupId")) && ParseInt(Prop(claims, "groupId")).None? ==> r.value.groupId == NaN)
      && (Truthy(Prop(claims, "groupId")) && ParseInt(Prop(claims, "groupId")).Some? ==>
            r.value.groupId == Num(ParseInt(Prop(claims, "groupId")).value))
      && (Truthy(Prop(claims, "userId")) ==> r.value.id == Prop(claims, "userId"))
      && (!Truthy(Prop(claims, "userId")) ==> r.value.id == Prop(claims, "sub"))
      && (Truthy(Prop(claims, "username")) ==> r.value.username == Prop(claims, "username"))
      && (!Truthy(Prop(claims, "username")) ==> r.value.username == Prop(claims, "sub"))
      && r.value.email == Prop(claims, "email")
      && r.value.role == Prop(claims, "role")
  {
    if !HasToken(token) then None
    else
      match ParseToken(token, decode)
      case None => None
      case Some(claims) =>
        var admin := Prop(claims, "isAdmin");
        var group := Prop(claims, "groupId");
        Some(User(
          Or(Prop(claims, "userId"), Prop(claims, "sub")),
          Or(Prop(claims, "username"), Prop(claims, "sub")),
          Prop(claims, "email"),
          Bool(admin == Str("True") || admin == Bool(true)),
          Prop(claims, "role"),
          if !Truthy(group) then Null
          else match ParseInt(group)
            case None => NaN
            case Some(n) => Num(n)))
  }

  /**
   * A non-zero `groupId` claim, whether a JSON number or the decimal text
   * the server writes into its claims, comes through as that number.
   */
  lemma GroupClaimReadBack(token: Option<string>, decode: Decoder, n: int)
    requires ParseToken(token, decode).Some?
    requires var g := Prop(ParseToken(token, decode).value, "groupId");
      g == Num(n) || g == Str(Decimal.Show(n))
    requires n != 0
    ensures GetUserFromToken(token, decode).value.groupId == Num(n)
  {
    Decimal.ParseShow(n);
  }

  /** An admin flag of any other spelling, such as "true", does not make an admin. */
  lemma LowerCaseTrueIsNotAdmin(token: Option<string>, decode: Decoder)
    requires ParseToken(token, decode).Some?
    requires Prop(ParseToken(token, decode).value, "isAdmin") == Str("true")
    ensures GetUserFromToken(token, decode).value.isAdmin == Bool(false)
  {
  }
}
