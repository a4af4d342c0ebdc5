/** The session check both admin routes open with: the `token` cookie is read from the
    `Cookie` header, verified, and the user it names must be an admin or a superadmin. */
module AdminAuth {
  import opened Wrappers
  import opened Strings
  import opened Seqs
  import opened Store

  /** What `getTokenFromRequest` yields: no token (`null`), a decoded token, or a
      `decodeURIComponent` failure, which throws. */
  datatype TokenLookup = NoToken | Found(token: string) | DecodeError

  const TokenPrefix: string := "token="

  /** `cookieHeader.split(";").map((p) => p.trim())` */
  function CookieParts(header: string): (parts: seq<string>)
    ensures |parts| == |Split(header, ';')|
  {
    TrimAll(Split(header, ';'))
  }

  /** `.map((p) => p.trim())` */
  function TrimAll(raw: seq<string>): (r: seq<string>)
    ensures |r| == |raw|
    ensures forall i :: 0 <= i < |raw| ==> r[i] == Trim(raw[i])
  {
    if raw == [] then [] else [Trim(raw[0])] + TrimAll(raw[1..])
  }

  predicate IsTokenPart(part: string) {
    StartsWith(part, TokenPrefix)
  }

  /** The token of the first part starting with "token=", decoded; `decode` stands for
      `decodeURIComponent` (`None` when it throws). */
  function TokenFromParts(parts: seq<string>, decode: string -> Option<string>): TokenLookup {
    match FirstIndex(parts, IsTokenPart)
    case None => NoToken
    case Some(i) =>
      match decode(parts[i][|TokenPrefix|..])
      case None => DecodeError
      case Some(t) => Found(t)
  }

  /** What `getTokenFromRequest` returns for a `Cookie` header (`None` when absent). */
  function TokenFromCookie(header: Option<string>, decode: string -> Option<string>): TokenLookup {
    if header.None? || header.value == "" then NoToken
    else TokenFromParts(CookieParts(header.value), decode)
  }

  /** `getTokenFromRequest`: no header gives `null`; otherwise the loop below over the
      trimmed parts. */
  method GetTokenFromRequest(header: Option<string>, decode: string -> Option<string>)
    returns (r: TokenLookup)
    ensures r == TokenFromCookie(header, decode)
  {
    if header.None? || header.value == "" {
      return NoToken;
    }
    var parts := CookieParts(header.value);
    r := FindTokenPart(parts, decode);
  }

  /** The `for (const part of parts)` loop with its early return. */
  method FindTokenPart(parts: seq<string>, decode: string -> Option<string>) returns (r: TokenLookup)
    ensures r == TokenFromParts(parts, decode)
  {
    var i := 0;
    while i < |parts|
      invariant 0 <= i <= |parts|
      invariant forall j :: 0 <= j < i ==> !IsTokenPart(parts[j])
    {
      if StartsWith(parts[i], TokenPrefix) {
        FirstIndexIs(parts, IsTokenPart, i);
        var decoded := decode(parts[i][|TokenPrefix|..]);
        if decoded.None? {
          return DecodeError;
        }
        return Found(decoded.value);
      }
      i := i + 1;
    }
    assert FirstIndex(parts, IsTokenPart).None?;
    return NoToken;
  }

  /** A header whose first cookie is `token=v` yields `v` decoded, whatever follows. */
  lemma TokenFirstWins(v: string, rest: string, decode: string -> Option<string>)
    requires ';' !in v && (v == "" || !IsWhite(v[|v| - 1]))
    requires rest == "" || rest[0] == ';'
    ensures TokenFromCookie(Some(TokenPrefix + v + rest), decode) ==
              match decode(v) case None => DecodeError case Some(t) => Found(t)
  {
    var first := TokenPrefix + v;
    var header := first + rest;
    assert ';' !in first;
    assert first[0] == 't' && first[|first| - 1] == (if v == "" then '=' else v[|v| - 1]);
    TrimUnchanged(first);
    CookiePartsHead(first, rest);
    var parts := CookieParts(header);
    assert parts[0][..|TokenPrefix|] == TokenPrefix;
    assert parts[0][|TokenPrefix|..] == v;
    TokenFromFirstPart(parts, v, decode);
    assert header != [];
  }

  /** A first part that carries the token decides the lookup. */
  lemma TokenFromFirstPart(parts: seq<string>, v: string, decode: string -> Option<string>)
    requires |parts| > 0 && IsTokenPart(parts[0]) && parts[0][|TokenPrefix|..] == v
    ensures TokenFromParts(parts, decode) ==
              match decode(v) case None => DecodeError case Some(t) => Found(t)
  {
    FirstIndexIs(parts, IsTokenPart, 0);
  }

  /** The first cookie of a header is its first `;`-separated piece, trimmed. */
  lemma CookiePartsHead(first: string, rest: string)
    requires ';' !in first && Trim(first) == first
    requires rest == "" || rest[0] == ';'
    ensures |CookieParts(first + rest)| > 0 && CookieParts(first + rest)[0] == first
  {
    SplitFirstPiece(first, rest);
    assert CookieParts(first + rest) == TrimAll(Split(first + rest, ';'));
  }

  lemma SplitFirstPiece(first: string, rest: string)
    requires ';' !in first
    requires rest == "" || rest[0] == ';'
    ensures Split(first + rest, ';')[0] == first
  {
    if rest == "" {
      assert first + rest == first;
      SplitFree(first, ';');
    } else {
      assert first + rest == first + [';'] + rest[1..];
      SplitAtFirst(first, rest[1..], ';');
    }
  }

  /** A leading cookie that is not the token is skipped. */
  lemma TokenSkipsOtherCookie(a: string, tail: string, decode: string -> Option<string>)
    requires ';' !in a && !IsTokenPart(Trim(a))
    ensures TokenFromCookie(Some(a + ";" + tail), decode) == TokenFromCookie(Some(tail), decode)
  {
    var header := a + ";" + tail;
    assert header != "" by { assert header[|a|] == ';'; }
    CookiePartsCons(a, tail);
    TokenFromPartsCons(Trim(a), CookieParts(tail), decode);
    assert TokenFromCookie(Some(header), decode)
           == TokenFromParts(CookieParts(tail), decode);
    if tail == "" {
      CookiePartsEmpty();
      TokenFromPartsEmpty(decode);
    }
  }

  lemma TokenFromPartsCons(x: string, ps: seq<string>, decode: string -> Option<string>)
    requires !IsTokenPart(x)
    ensures TokenFromParts([x] + ps, decode) == TokenFromParts(ps, decode)
  {
    FirstIndexCons(x, ps, IsTokenPart);
    match FirstIndex(ps, IsTokenPart)
    case None =>
    case Some(k) =>
      assert ([x] + ps)[k + 1] == ps[k];
  }

  lemma TokenFromPartsEmpty(decode: string -> Option<string>)
    ensures TokenFromParts([""], decode) == NoToken
  {
    assert !IsTokenPart([""][0]);
  }

  lemma CookiePartsEmpty()
    ensures CookieParts("") == [""]
  {
    assert Split("", ';') == [""];
  }

  lemma CookiePartsCons(a: string, tail: string)
    requires ';' !in a
    ensures CookieParts(a + ";" + tail) == [Trim(a)] + CookieParts(tail)
  {
    assert a + ";" + tail == a + [';'] + tail;
    SplitAtFirst(a, tail, ';');
  }

  /** The outcome of the session check: refused with a response, or the actor's position
      in the user table. */
  datatype AuthOutcome = Refused(response: Response) | Actor(index: nat)

  predicate IsStaff(role: Option<Role>) {
    role == Some(Admin) || role == Some(SuperAdmin)
  }

  /** Lines 31-47 of both admin routes: 401 without a token, 401 for a token that does not
      verify, 403 unless the token's user exists and is staff. A failed decode throws and
      the route's catch answers 500. */
  function AuthenticateAdmin(users: seq<User>, lookup: TokenLookup,
                             verify: string -> Option<TokenPayload>, forbidden: string): (r: AuthOutcome)
    ensures r.Actor? ==> r.index < |users| && IsStaff(users[r.index].role)
    ensures r.Refused? ==> r.response.status in {401, 403, 500}
  {
    match lookup
    case DecodeError => Refused(Response(500, "Server error"))
    case NoToken => Refused(Response(401, "Not logged in"))
    case Found(token) =>
      if token == "" then Refused(Response(401, "Not logged in"))
      else
        match verify(token)
        case None => Refused(Response(401, "Invalid token"))
        case Some(payload) =>
          match FindUser(users, payload.id)
          case None => Refused(Response(403, forbidden))
          case Some(i) => if IsStaff(users[i].role) then Actor(i) else Refused(Response(403, forbidden))
  }

  /** The check passes exactly for a non-empty token that verifies to the id of a staff
      user, and then names the first user with that id. */
  lemma AuthenticateAdminExact(users: seq<User>, lookup: TokenLookup,
                               verify: string -> Option<TokenPayload>, forbidden: string)
    ensures AuthenticateAdmin(users, lookup, verify, forbidden).Actor? <==>
              lookup.Found? && lookup.token != "" && verify(lookup.token).Some? &&
              FindUser(users, verify(lookup.token).value.id).Some? &&
              IsStaff(users[FindUser(users, verify(lookup.token).value.id).value].role)
    ensures AuthenticateAdmin(users, lookup, verify, forbidden).Actor? ==>
              AuthenticateAdmin(users, lookup, verify, forbidden).index ==
                FindUser(users, verify(lookup.token).value.id).value
    ensures (lookup.NoToken? || lookup == Found("")) ==>
              AuthenticateAdmin(users, lookup, verify, forbidden) == Refused(Response(401, "Not logged in"))
  {
  }
}
