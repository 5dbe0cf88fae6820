/** backend/Controllers/AuthController.cs: registration, login with its
    built-in administrator fallback, the textual form of the password hash and
    the descriptor of the issued token. The SHA-256 digest (of the UTF-8 bytes
    of the password) and the signing and serialising of the token are library
    calls; they are the parameters `digest` and `sign`. */
module Auth {
  import opened Wrappers
  import opened Models
  import opened Data
  import opened Controllers
  import Strings

  newtype byte = x: int | 0 <= x < 256

  // ---------------------------------------------------------------------------
  // `BitConverter.ToString(hash).Replace("-", "").ToLower()`

  /** A hexadecimal digit as `BitConverter.ToString` writes it (upper case). */
  function UpperHexDigit(d: int): (c: char)
    requires 0 <= d < 16
    ensures '0' <= c <= '9' || 'A' <= c <= 'F'
  {
    if d < 10 then ('0' as int + d) as char else ('A' as int + d - 10) as char
  }

  function LowerHexDigit(d: int): (c: char)
    requires 0 <= d < 16
    ensures '0' <= c <= '9' || 'a' <= c <= 'f'
  {
    if d < 10 then ('0' as int + d) as char else ('a' as int + d - 10) as char
  }

  /** The value of a lower-case hexadecimal digit. */
  function HexValue(c: char): Option<int>
  {
    if '0' <= c <= '9' then Some(c as int - '0' as int)
    else if 'a' <= c <= 'f' then Some(c as int - 'a' as int + 10)
    else None
  }

  /** The two-digit groups of `BitConverter.ToString`, one per byte. */
  function UpperPairs(bytes: seq<byte>): (pairs: seq<string>)
    ensures |pairs| == |bytes|
    ensures forall i :: 0 <= i < |pairs| ==> pairs[i] == [UpperHexDigit(bytes[i] as int / 16), UpperHexDigit(bytes[i] as int % 16)]
  {
    if bytes == [] then []
    else [[UpperHexDigit(bytes[0] as int / 16), UpperHexDigit(bytes[0] as int % 16)]] + UpperPairs(bytes[1..])
  }

  /** `BitConverter.ToString(bytes)`: the groups joined by '-', as in "1F-A0-07". */
  function BitConverterToString(bytes: seq<byte>): string
  {
    Strings.Join(UpperPairs(bytes), "-")
  }

  /** `s.Replace(c, "")` for a one-character `c`. */
  function RemoveChar(s: string, c: char): (r: string)
    ensures c !in r
    ensures |r| <= |s|
  {
    if s == [] then [] else (if s[0] == c then [] else [s[0]]) + RemoveChar(s[1..], c)
  }

  /** `ToLower` on the characters a hexadecimal string can hold (ASCII letters). */
  function ToLower(s: string): (r: string)
    ensures |r| == |s|
  {
    if s == [] then []
    else [if 'A' <= s[0] <= 'Z' then (s[0] as int + 32) as char else s[0]] + ToLower(s[1..])
  }

  /** Lower-case hexadecimal, two digits per byte, high digit first. */
  function LowerHex(bytes: seq<byte>): (s: string)
    ensures |s| == 2 * |bytes|
    ensures forall i :: 0 <= i < |s| ==> HexValue(s[i]).Some?
  {
    if bytes == [] then []
    else [LowerHexDigit(bytes[0] as int / 16), LowerHexDigit(bytes[0] as int % 16)] + LowerHex(bytes[1..])
  }

  /** Reading lower-case hexadecimal back into bytes. */
  function FromLowerHex(s: string): Option<seq<byte>>
    decreases |s|
  {
    if s == [] then Some([])
    else if |s| == 1 then None
    else
      match (HexValue(s[0]), HexValue(s[1]), FromLowerHex(s[2..]))
      case (Some(hi), Some(lo), Some(rest)) =>
        if 0 <= hi < 16 && 0 <= lo < 16 then Some([(hi * 16 + lo) as byte] + rest) else None
      case _ => None
  }

  /** `HashPassword`: the text stored in `User.Password` for `password`. */
  function HashPassword(digest: string -> seq<byte>, password: string): string
  {
    ToLower(RemoveChar(BitConverterToString(digest(password)), '-'))
  }

  lemma RemoveCharAppend(s: string, t: string, c: char)
    ensures RemoveChar(s + t, c) == RemoveChar(s, c) + RemoveChar(t, c)
  {
    if s != [] {
      RemoveCharAppend(s[1..], t, c);
      assert (s + t)[1..] == s[1..] + t;
    } else {
      assert s + t == t;
    }
  }

  lemma {:induction false} ToLowerAppend(s: string, t: string)
    ensures ToLower(s + t) == ToLower(s) + ToLower(t)
  {
    if s == [] {
      assert s + t == t;
    } else {
      ToLowerAppend(s[1..], t);
      assert (s + t)[1..] == s[1..] + t;
      assert (s + t)[0] == s[0];
    }
  }

  /** The groups written one after another. */
  function Concat(parts: seq<string>): string
  {
    if parts == [] then [] else parts[0] + Concat(parts[1..])
  }

  lemma {:induction false} RemoveCharAbsent(s: string, c: char)
    requires c !in s
    ensures RemoveChar(s, c) == s
  {
    if s != [] {
      RemoveCharAbsent(s[1..], c);
      assert [s[0]] + s[1..] == s;
    }
  }

  /** Removing the separator from the joined groups leaves the groups. */
  lemma {:induction false} RemoveSeparators(parts: seq<string>, c: char)
    requires forall i :: 0 <= i < |parts| ==> c !in parts[i]
    ensures RemoveChar(Strings.Join(parts, [c]), c) == Concat(parts)
  {
    if |parts| == 1 {
      RemoveCharAbsent(parts[0], c);
      assert Concat(parts) == parts[0] + [];
    } else if |parts| > 1 {
      RemoveSeparators(parts[1..], c);
      var tail := Strings.Join(parts[1..], [c]);
      assert parts[0] + [c] + tail == parts[0] + ([c] + tail);
      RemoveCharAppend(parts[0], [c] + tail, c);
      RemoveCharAppend([c], tail, c);
      RemoveCharAbsent(parts[0], c);
      assert RemoveChar([c], c) == [];
    }
  }

  lemma LowerOfUpperDigit(d: int)
    requires 0 <= d < 16
    ensures ToLower([UpperHexDigit(d)]) == [LowerHexDigit(d)]
  {
  }

  /** Lowering the case of the upper-case groups gives the lower-case hexadecimal. */
  lemma {:induction false} LowerGroups(bytes: seq<byte>)
    ensures ToLower(Concat(UpperPairs(bytes))) == LowerHex(bytes)
  {
    if bytes != [] {
      LowerGroups(bytes[1..]);
      var hi, lo := bytes[0] as int / 16, bytes[0] as int % 16;
      var pair := [UpperHexDigit(hi), UpperHexDigit(lo)];
      assert UpperPairs(bytes)[1..] == UpperPairs(bytes[1..]);
      assert Concat(UpperPairs(bytes)) == pair + Concat(UpperPairs(bytes[1..]));
      ToLowerAppend(pair, Concat(UpperPairs(bytes[1..])));
      assert pair == [UpperHexDigit(hi)] + [UpperHexDigit(lo)];
      ToLowerAppend([UpperHexDigit(hi)], [UpperHexDigit(lo)]);
      LowerOfUpperDigit(hi);
      LowerOfUpperDigit(lo);
    }
  }

  /** The stored hash is the digest in lower-case hexadecimal: no '-', two
      characters per digest byte. */
  lemma HashPasswordIsLowerHex(digest: string -> seq<byte>, password: string)
    ensures HashPassword(digest, password) == LowerHex(digest(password))
    ensures '-' !in HashPassword(digest, password)
    ensures |HashPassword(digest, password)| == 2 * |digest(password)|
  {
    var pairs := UpperPairs(digest(password));
    forall i | 0 <= i < |pairs| ensures '-' !in pairs[i] {
      assert pairs[i] == [pairs[i][0], pairs[i][1]];
    }
    RemoveSeparators(pairs, '-');
    LowerGroups(digest(password));
    var h := LowerHex(digest(password));
    forall i | 0 <= i < |h| ensures h[i] != '-' {
      assert HexValue(h[i]).Some?;
    }
  }

  /** A SHA-256 digest has 32 bytes, so the stored hash has 64 characters. */
  lemma HashPasswordLength(digest: string -> seq<byte>, password: string)
    requires |digest(password)| == 32
    ensures |HashPassword(digest, password)| == 64
  {
    HashPasswordIsLowerHex(digest, password);
  }

  lemma {:induction false} FromLowerHexOfLowerHex(bytes: seq<byte>)
    ensures FromLowerHex(LowerHex(bytes)) == Some(bytes)
  {
    if bytes != [] {
      FromLowerHexOfLowerHex(bytes[1..]);
      var s := LowerHex(bytes);
      assert s[2..] == LowerHex(bytes[1..]);
      var hi, lo := bytes[0] as int / 16, bytes[0] as int % 16;
      assert HexValue(s[0]) == Some(hi);
      assert HexValue(s[1]) == Some(lo);
      assert [(hi * 16 + lo) as byte] + bytes[1..] == bytes;
    }
  }

  /** Two passwords have the same stored hash exactly when their digests agree. */
  lemma HashPasswordInjective(digest: string -> seq<byte>, p: string, q: string)
    ensures HashPassword(digest, p) == HashPassword(digest, q) <==> digest(p) == digest(q)
  {
    HashPasswordIsLowerHex(digest, p);
    HashPasswordIsLowerHex(digest, q);
    FromLowerHexOfLowerHex(digest(p));
    FromLowerHexOfLowerHex(digest(q));
  }

  // ---------------------------------------------------------------------------
  // Token issuance (`GenerateJwtToken`)

  /** `ClaimTypes.Name` and `ClaimTypes.Role`. */
  const NameClaimType: string := "http://schemas.xmlsoap.org/ws/2005/05/identity/claims/name"
  const RoleClaimType: string := "http://schemas.microsoft.com/ws/2008/06/identity/claims/role"
  /** `SecurityAlgorithms.HmacSha256Signature`. */
  const HmacSha256Signature: string := "http://www.w3.org/2001/04/xmldsig-more#hmac-sha256"
  /** The signing key used when the configuration has no `Jwt:Key`. */
  const DefaultSecretKey: string := "SecretKeyForDemoJustForTesting123!"
  const TokenLifetimeDays: int := 7

  datatype Claim = Claim(Type: string, Value: string)

  /** What `GenerateJwtToken` hands to the token handler. */
  datatype TokenDescriptor = TokenDescriptor(Subject: seq<Claim>, Expires: DateTime, Key: string, Algorithm: string)

  /** `configuration["Jwt:Key"] ?? "SecretKeyForDemoJustForTesting123!"`. */
  function SecretKey(configured: Option<string>): (key: string)
    ensures configured.Some? ==> key == configured.value
    ensures configured.None? ==> key == DefaultSecretKey
  {
    configured.GetOr(DefaultSecretKey)
  }

  /** The token of `user` issued at `utcNow`: exactly a Name and a Role claim,
      valid for seven days, signed with HMAC-SHA256 under the secret key. */
  function Descriptor(user: User, secretKey: string, utcNow: DateTime): (d: TokenDescriptor)
    ensures d.Subject == [Claim(NameClaimType, user.Username), Claim(RoleClaimType, user.Role)]
    ensures d.Expires - utcNow == 7 * SecondsPerDay
    ensures d.Key == secretKey && d.Algorithm == HmacSha256Signature
  {
    TokenDescriptor([Claim(NameClaimType, user.Username), Claim(RoleClaimType, user.Role)],
                    utcNow + TokenLifetimeDays * SecondsPerDay, secretKey, HmacSha256Signature)
  }

  // ---------------------------------------------------------------------------
  // Login

  datatype LoginRequest = LoginRequest(Username: string, Password: string)
  datatype RegisterRequest = RegisterRequest(Username: string, Password: string, Name: string)
  /** The `user` object of a successful login response. */
  datatype UserInfo = UserInfo(username: string, role: string, name: string)
  datatype LoginResponse = LoginResponse(token: string, user: UserInfo)

  const AdminUsername: string := "admin"
  const AdminPassword: string := "admin123"
  const AdminName: string := "Admin User"

  predicate Matches(user: User, username: string, hashed: string)
  {
    user.Username == username && user.Password == hashed
  }

  /** `Users.FirstOrDefault(u => u.Username == username && u.Password == hashed)`. */
  function FirstMatch(users: seq<User>, username: string, hashed: string): (r: Option<User>)
    ensures r.None? <==> forall i :: 0 <= i < |users| ==> !Matches(users[i], username, hashed)
    ensures r.Some? ==> r.value in users && Matches(r.value, username, hashed)
  {
    if users == [] then None
    else if Matches(users[0], username, hashed) then Some(users[0])
    else
      var r := FirstMatch(users[1..], username, hashed);
      assert r.None? ==> forall i :: 1 <= i < |users| ==> !Matches(users[i], username, hashed) by {
        if r.None? {
          forall i | 1 <= i < |users| ensures !Matches(users[i], username, hashed) {
            assert users[i] == users[1..][i - 1];
          }
        }
      }
      r
  }

  /** The built-in administrator of the fallback (`new User { ... }`). */
  const FallbackAdmin: User := User(0, AdminUsername, "", AdminName, AdminRole)

  /** `Login`: reads the Users table and never writes it. Its only answers
      are a token with the user's details, or the one refusal message. */
  function Login(users: seq<User>, request: LoginRequest, digest: string -> seq<byte>,
                 sign: TokenDescriptor -> string, secretKey: string, utcNow: DateTime): (res: ActionResult<LoginResponse>)
    ensures res.Ok? || res == Unauthorized("Invalid username or password")
  {
    var hashed := HashPassword(digest, request.Password);
    var user := FirstMatch(users, request.Username, hashed);
    if user.None? then
      if request.Username == AdminUsername && request.Password == AdminPassword then
        Ok(LoginResponse(sign(Descriptor(FallbackAdmin, secretKey, utcNow)), UserInfo(AdminUsername, AdminRole, AdminName)))
      else
        Unauthorized("Invalid username or password")
    else
      Ok(LoginResponse(sign(Descriptor(user.value, secretKey, utcNow)),
                       UserInfo(user.value.Username, user.value.Role, user.value.Name)))
  }

  predicate UniqueUsernames(users: seq<User>)
  {
    forall i, j :: 0 <= i < j < |users| ==> users[i].Username != users[j].Username
  }

  /** A stored user whose hash matches logs in, with its own name and role. */
  lemma LoginStoredUser(users: seq<User>, i: int, request: LoginRequest, digest: string -> seq<byte>,
                        sign: TokenDescriptor -> string, secretKey: string, utcNow: DateTime)
    requires UniqueUsernames(users)
    requires 0 <= i < |users| && Matches(users[i], request.Username, HashPassword(digest, request.Password))
    ensures Login(users, request, digest, sign, secretKey, utcNow)
         == Ok(LoginResponse(sign(Descriptor(users[i], secretKey, utcNow)),
                             UserInfo(users[i].Username, users[i].Role, users[i].Name)))
  {
    var u := FirstMatch(users, request.Username, HashPassword(digest, request.Password));
    assert u.Some?;
    var j :| 0 <= j < |users| && users[j] == u.value;
    assert users[j].Username == users[i].Username;
  }

  /** Without a matching row, "admin"/"admin123" still logs in as the
      administrator, whatever rows named "admin" hold. */
  lemma LoginAdminFallback(users: seq<User>, digest: string -> seq<byte>,
                           sign: TokenDescriptor -> string, secretKey: string, utcNow: DateTime)
    requires forall i :: 0 <= i < |users| ==> !Matches(users[i], AdminUsername, HashPassword(digest, AdminPassword))
    ensures Login(users, LoginRequest(AdminUsername, AdminPassword), digest, sign, secretKey, utcNow)
         == Ok(LoginResponse(sign(Descriptor(FallbackAdmin, secretKey, utcNow)), UserInfo("admin", "Admin", "Admin User")))
  {
  }

  /** Login fails exactly when no row matches and the credentials are not the
      built-in administrator's. */
  lemma LoginUnauthorizedIff(users: seq<User>, request: LoginRequest, digest: string -> seq<byte>,
                             sign: TokenDescriptor -> string, secretKey: string, utcNow: DateTime)
    ensures Login(users, request, digest, sign, secretKey, utcNow).Unauthorized?
        <==> (forall i :: 0 <= i < |users| ==> !Matches(users[i], request.Username, HashPassword(digest, request.Password)))
             && !(request.Username == AdminUsername && request.Password == AdminPassword)
    ensures Login(users, request, digest, sign, secretKey, utcNow).Ok?
        <==> !Login(users, request, digest, sign, secretKey, utcNow).Unauthorized?
  {
  }

  // ---------------------------------------------------------------------------
  // Registration

  /** `Users.Any(u => u.Username == username)`: exact, case-sensitive. */
  function UsernameTaken(users: seq<User>, username: string): (taken: bool)
    ensures taken <==> exists i :: 0 <= i < |users| && users[i].Username == username
  {
    if users == [] then false
    else if users[0].Username == username then true
    else
      var taken := UsernameTaken(users[1..], username);
      assert taken ==> exists i :: 0 <= i < |users| && users[i].Username == username by {
        if taken {
          var i :| 0 <= i < |users[1..]| && users[1..][i].Username == username;
          assert users[i + 1].Username == username;
        }
      }
      taken
  }

  /** The row `Register` adds for a new user. */
  function NewUser(request: RegisterRequest, digest: string -> seq<byte>, id: int): (u: User)
    ensures u.Id == id && u.Username == request.Username && u.Name == request.Name
    ensures u.Password == HashPassword(digest, request.Password) && u.Role == DefaultRole
  {
    User(id, request.Username, HashPassword(digest, request.Password), request.Name, DefaultRole)
  }

  /** Adding a user with a name not yet taken keeps the names unique. */
  lemma AddUserKeepsUnique(users: seq<User>, user: User)
    requires UniqueUsernames(users)
    requires !UsernameTaken(users, user.Username)
    ensures UniqueUsernames(users + [user])
  {
    var all := users + [user];
    forall i, j | 0 <= i < j < |all| ensures all[i].Username != all[j].Username {
      if j == |users| {
        assert all[i] == users[i];
      } else {
        assert all[i] == users[i] && all[j] == users[j];
      }
    }
  }

  /** A freshly registered user can log in with the password it registered,
      as a "User" under its own name. */
  lemma RegisterThenLogin(users: seq<User>, request: RegisterRequest, id: int, digest: string -> seq<byte>,
                          sign: TokenDescriptor -> string, secretKey: string, utcNow: DateTime)
    requires UniqueUsernames(users)
    requires !UsernameTaken(users, request.Username)
    ensures Login(users + [NewUser(request, digest, id)], LoginRequest(request.Username, request.Password),
                  digest, sign, secretKey, utcNow)
         == Ok(LoginResponse(sign(Descriptor(NewUser(request, digest, id), secretKey, utcNow)),
                             UserInfo(request.Username, DefaultRole, request.Name)))
  {
    var user := NewUser(request, digest, id);
    AddUserKeepsUnique(users, user);
    LoginStoredUser(users + [user], |users|, LoginRequest(request.Username, request.Password),
                    digest, sign, secretKey, utcNow);
  }

  /** `AuthController`: registration writes the Users table. */
  class AuthController {
    const context: MediaPortalContext
    const secretKey: string

    constructor (context: MediaPortalContext, configured: Option<string>)
      ensures this.context == context
      ensures secretKey == SecretKey(configured)
    {
      this.context := context;
      this.secretKey := SecretKey(configured);
    }

    /** `Register`: refuses a name already present; otherwise adds one user
        with the default role. */
    method Register(request: RegisterRequest, digest: string -> seq<byte>) returns (res: ActionResult<string>)
      requires context.Valid()
      modifies context
      ensures context.Valid()
      ensures res.BadRequest? <==> UsernameTaken(old(context.Users), request.Username)
      ensures res.BadRequest? ==> res.message == "Username already exists"
      ensures res.BadRequest? ==> context.State() == old(context.State())
      ensures res.Ok? ==> res.body == "User registered successfully"
      ensures res.Ok? ==> context.State() == old(context.State()).(
        Users := old(context.Users) + [NewUser(request, digest, old(context.NextUserId))],
        NextUserId := old(context.NextUserId) + 1)
      ensures res.Ok? || res.BadRequest?
    {
      if UsernameTaken(context.Users, request.Username) {
        return BadRequest("Username already exists");
      }
      var user := NewUser(request, digest, context.NextUserId);
      AddUserKeepsUnique(context.Users, user);
      context.Users := context.Users + [user];
      context.NextUserId := context.NextUserId + 1;
      res := Ok("User registered successfully");
    }

  }
}
