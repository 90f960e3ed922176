/** The auth package: choosing an auth mode from a config string, parsing
    an HTTP Basic `Authorization` header (section 2 of RFC 7617) and
    checking the credentials it carries.

    Process-global state becomes parameters: the `CAMLI_ADVERTISED_PASSWORD`
    environment variable is `advertisedPw`, and a request is reduced to its
    `Authorization` header, `None` when the request has none. */
module Auth {
  import opened Wrappers
  import opened GoStrings
  import Base64

  /** The two `AuthMode` implementations. */
  datatype AuthMode = UserPass(username: string, password: string) | DevAuth(password: string)

  datatype ConfigError = InvalidAuthString | WrongUserPassString | UnknownAuthType(authType: string)

  datatype Credentials = Credentials(user: string, password: string)

  datatype HeaderError = MissingHeader | BogusHeader | CorruptBase64 | NoColon

  const UserPassType := "userpass"
  const BasicPrefix := "Basic "

  /** The `userpass:<user>:<pass>` config string. */
  function UserPassConfig(user: string, pass: string): string {
    UserPassType + [':'] + user + [':'] + pass
  }

  lemma JoinThree(a: string, b: string, c: string)
    ensures Join([a, b, c], ':') == a + [':'] + b + [':'] + c
  {
    assert [a, b, c][1..] == [b, c];
    assert [b, c][1..] == [c];
    assert Join([c], ':') == c;
    assert Join([b, c], ':') == b + [':'] + c;
    assert Join([a, b, c], ':') == a + [':'] + (b + [':'] + c);
    assert a + [':'] + (b + [':'] + c) == a + [':'] + b + [':'] + c;
  }

  // ---------------------------------------------------------------------
  // FromConfig
  // ---------------------------------------------------------------------

  /** `FromConfig`. A non-empty advertised password selects `DevAuth`
      whatever the config; otherwise only `userpass:<user>:<pass>` with
      exactly three `:`-separated pieces is accepted. */
  function FromConfig(authConfig: string, advertisedPw: string): (r: Result<AuthMode, ConfigError>)
    ensures advertisedPw != "" ==> r == Success(DevAuth(advertisedPw))
    ensures advertisedPw == "" && r.Success? ==>
      && r.value.UserPass?
      && ':' !in r.value.username && ':' !in r.value.password
      && authConfig == UserPassConfig(r.value.username, r.value.password)
    ensures advertisedPw == "" && Split(authConfig, ':')[0] != UserPassType ==>
      r == Failure(UnknownAuthType(Split(authConfig, ':')[0]))
  {
    var pieces := Split(authConfig, ':');
    if |pieces| < 1 then Failure(InvalidAuthString)
    else
      var authType := pieces[0];
      if advertisedPw != "" then Success(DevAuth(advertisedPw))
      else if authType == UserPassType then
        if |pieces| != 3 then Failure(WrongUserPassString)
        else
          assert pieces == [pieces[0], pieces[1], pieces[2]];
          JoinThree(pieces[0], pieces[1], pieces[2]);
          Success(UserPass(pieces[1], pieces[2]))
      else Failure(UnknownAuthType(authType))
  }

  /** Without an advertised password, `FromConfig` yields `UserPass(u, p)`
      exactly for the config `userpass:u:p` with no `:` in `u` or `p`. */
  lemma FromConfigUserPass(authConfig: string, user: string, pass: string)
    ensures FromConfig(authConfig, "") == Success(UserPass(user, pass)) <==>
      authConfig == UserPassConfig(user, pass) && ':' !in user && ':' !in pass
  {
    if authConfig == UserPassConfig(user, pass) && ':' !in user && ':' !in pass {
      JoinThree(UserPassType, user, pass);
      SplitJoin([UserPassType, user, pass], ':');
    }
  }

  /** A password containing `:` cannot be configured: the config then has
      at least three `:` and so splits into more than three pieces. */
  lemma ColonInPasswordRejected(user: string, pass: string)
    requires ':' in pass
    ensures FromConfig(UserPassConfig(user, pass), "").Failure?
  {
    var c := UserPassConfig(user, pass);
    var pieces := Split(c, ':');
    CountJoin(pieces, ':');
    CountConcat(UserPassType + [':'] + user + [':'], pass, ':');
    CountConcat(UserPassType + [':'] + user, [':'], ':');
    CountConcat(UserPassType + [':'], user, ':');
    CountConcat(UserPassType, [':'], ':');
    CountPositive(pass, ':');
    assert |pieces| >= 4;
  }

  /** The empty config splits into the single piece "", an unknown auth type. */
  lemma FromConfigRejectsEmpty()
    ensures FromConfig("", "") == Failure(UnknownAuthType(""))
  {
  }

  // ---------------------------------------------------------------------
  // Basic credentials
  // ---------------------------------------------------------------------

  /** What `Header.Get("Authorization")` returns: "" when absent. */
  function HeaderValue(header: Option<string>): string {
    if header.Some? then header.value else ""
  }

  /** The characters of the capture group `[a-zA-Z0-9\+/=]`. */
  predicate IsTokenChar(c: char) {
    Base64.IsAlphabetChar(c) || c == Base64.Pad
  }

  /** The greedy `+`: the longest prefix of token characters. */
  function TokenRun(s: string): (t: string)
    ensures t <= s
    ensures forall i :: 0 <= i < |t| ==> IsTokenChar(t[i])
    ensures |t| < |s| ==> !IsTokenChar(s[|t|])
    decreases |s|
  {
    if |s| == 0 || !IsTokenChar(s[0]) then "" else [s[0]] + TokenRun(s[1..])
  }

  /** The pattern `^Basic ([a-zA-Z0-9\+/=]+)` with no end anchor: the
      captured token, if the header starts with `Basic ` and a token char. */
  function MatchBasic(h: string): (r: Option<string>)
    ensures r.Some? <==> |h| > |BasicPrefix| && h[..|BasicPrefix|] == BasicPrefix && IsTokenChar(h[|BasicPrefix|])
    ensures r.Some? ==>
      && 1 <= |r.value| <= |h| - |BasicPrefix|
      && h[..|BasicPrefix| + |r.value|] == BasicPrefix + r.value
      && (forall i :: 0 <= i < |r.value| ==> IsTokenChar(r.value[i]))
      && (|BasicPrefix| + |r.value| < |h| ==> !IsTokenChar(h[|BasicPrefix| + |r.value|]))
  {
    if |h| > |BasicPrefix| && h[..|BasicPrefix|] == BasicPrefix && IsTokenChar(h[|BasicPrefix|]) then
      var t := TokenRun(h[|BasicPrefix|..]);
      assert h[..|BasicPrefix| + |t|] == h[..|BasicPrefix|] + h[|BasicPrefix|..][..|t|];
      Some(t)
    else None
  }

  /** A Go string built from bytes, one char per byte. */
  function BytesToString(bytes: seq<Base64.Byte>): (s: string)
    ensures |s| == |bytes|
    ensures forall i :: 0 <= i < |s| ==> s[i] as int == bytes[i]
  {
    seq(|bytes|, i requires 0 <= i < |bytes| => bytes[i] as char)
  }

  predicate IsByteString(s: string) {
    forall i :: 0 <= i < |s| ==> s[i] as int < 256
  }

  function StringToBytes(s: string): (bytes: seq<Base64.Byte>)
    requires IsByteString(s)
    ensures BytesToString(bytes) == s
  {
    seq(|s|, i requires 0 <= i < |s| => s[i] as int)
  }

  /** `basicAuth`: a missing or empty header, a header the pattern does not
      match, a token that is not valid padded Base64, and a payload without
      `:` are errors; otherwise the payload is split at its first `:`. */
  function BasicAuth(header: Option<string>): (r: Result<Credentials, HeaderError>)
    ensures HeaderValue(header) == "" ==> r == Failure(MissingHeader)
    ensures HeaderValue(header) != "" && MatchBasic(HeaderValue(header)).None? ==> r == Failure(BogusHeader)
    ensures HeaderValue(header) != "" && MatchBasic(HeaderValue(header)).Some? ==>
      var decoded := Base64.Decode(MatchBasic(HeaderValue(header)).value);
      && (decoded.None? ==> r == Failure(CorruptBase64))
      && (decoded.Some? && ':' !in BytesToString(decoded.value) ==> r == Failure(NoColon))
      && (decoded.Some? && ':' in BytesToString(decoded.value) ==> r.Success?)
    ensures r.Success? ==>
      && MatchBasic(HeaderValue(header)).Some?
      && Base64.Decode(MatchBasic(HeaderValue(header)).value).Some?
      && ':' !in r.value.user
      && BytesToString(Base64.Decode(MatchBasic(HeaderValue(header)).value).value)
           == r.value.user + [':'] + r.value.password
  {
    var auth := HeaderValue(header);
    if auth == "" then Failure(MissingHeader)
    else
      match MatchBasic(auth)
      case None => Failure(BogusHeader)
      case Some(encoded) =>
        match Base64.Decode(encoded)
        case None => Failure(CorruptBase64)
        case Some(decoded) =>
          var pieces := SplitFirst(BytesToString(decoded), ':');
          if |pieces| != 2 then Failure(NoColon)
          else Success(Credentials(pieces[0], pieces[1]))
  }

  /** The header a client builds for `user:pass` parses back to exactly
      those credentials, provided the user name has no `:`; the password
      may contain `:`. */
  lemma BasicAuthRoundTrip(user: string, pass: string)
    requires ':' !in user
    requires IsByteString(user + [':'] + pass)
    ensures BasicAuth(Some(BasicPrefix + Base64.Encode(StringToBytes(user + [':'] + pass))))
      == Success(Credentials(user, pass))
  {
    var payload := user + [':'] + pass;
    var token := Base64.Encode(StringToBytes(payload));
    var h := BasicPrefix + token;
    assert |token| > 0;
    assert h[..|BasicPrefix|] == BasicPrefix && h[|BasicPrefix|] == token[0];
    TokenRunAll(token);
    assert h[|BasicPrefix|..] == token;
    assert MatchBasic(h) == Some(token);
    Base64.DecodeEncode(StringToBytes(payload));
    SplitFirstAtFirstSep(user, pass, ':');
  }

  lemma {:induction false} TokenRunAll(t: string)
    requires forall i :: 0 <= i < |t| ==> IsTokenChar(t[i])
    ensures TokenRun(t) == t
    decreases |t|
  {
    if |t| > 0 {
      TokenRunAll(t[1..]);
      assert [t[0]] + t[1..] == t;
    }
  }

  /** There is no end anchor: text after the token that starts with a
      non-token character does not change the outcome. */
  lemma TrailingTextIgnored(token: string, rest: string)
    requires forall i :: 0 <= i < |token| ==> IsTokenChar(token[i])
    requires |rest| > 0 ==> !IsTokenChar(rest[0])
    ensures BasicAuth(Some(BasicPrefix + token + rest)) == BasicAuth(Some(BasicPrefix + token))
  {
    var h := BasicPrefix + token + rest;
    var h0 := BasicPrefix + token;
    assert h[..|BasicPrefix|] == BasicPrefix && h0[..|BasicPrefix|] == BasicPrefix;
    if |token| > 0 {
      assert h[|BasicPrefix|] == token[0] && h0[|BasicPrefix|] == token[0];
      assert h[|BasicPrefix|..] == token + rest;
      assert h0[|BasicPrefix|..] == token;
      TokenRunAll(token);
      TokenRunStops(token, rest);
      assert MatchBasic(h) == MatchBasic(h0);
    } else {
      assert |h0| == |BasicPrefix|;
      assert |h| > |BasicPrefix| ==> h[|BasicPrefix|] == rest[0];
    }
  }

  lemma {:induction false} TokenRunStops(token: string, rest: string)
    requires forall i :: 0 <= i < |token| ==> IsTokenChar(token[i])
    requires |rest| > 0 ==> !IsTokenChar(rest[0])
    ensures TokenRun(token + rest) == token
    decreases |token|
  {
    if |token| == 0 {
      assert token + rest == rest;
    } else {
      assert (token + rest)[1..] == token[1..] + rest;
      TokenRunStops(token[1..], rest);
      assert [token[0]] + token[1..] == token;
    }
  }

  // ---------------------------------------------------------------------
  // Authorization checks
  // ---------------------------------------------------------------------

  /** `IsAuthorized` of each mode: `UserPass` needs both user and password
      to match, `DevAuth` only the password; any parse error refuses. */
  function IsAuthorized(mode: AuthMode, header: Option<string>): (ok: bool)
    ensures BasicAuth(header).Failure? ==> !ok
    ensures mode.UserPass? ==> (ok <==> BasicAuth(header) == Success(Credentials(mode.username, mode.password)))
    ensures mode.DevAuth? ==> (ok <==> BasicAuth(header).Success? && BasicAuth(header).value.password == mode.password)
  {
    match BasicAuth(header)
    case Failure(_) => false
    case Success(creds) =>
      match mode
      case UserPass(user, pass) => creds.user == user && creds.password == pass
      case DevAuth(pw) => creds.password == pw
  }

  /** `DevAuth` accepts any user name without `:` together with the
      advertised password. A user name with `:` would move its tail into
      the parsed password, since the payload is split at its first `:`. */
  lemma DevAuthIgnoresUser(pw: string, user: string)
    requires ':' !in user
    requires IsByteString(user + [':'] + pw)
    ensures IsAuthorized(DevAuth(pw), Some(BasicPrefix + Base64.Encode(StringToBytes(user + [':'] + pw))))
  {
    BasicAuthRoundTrip(user, pw);
  }

  /** `UserPass` accepts the header built from its own credentials. */
  lemma UserPassAcceptsOwnCredentials(user: string, pass: string)
    requires ':' !in user
    requires IsByteString(user + [':'] + pass)
    ensures IsAuthorized(UserPass(user, pass), Some(BasicPrefix + Base64.Encode(StringToBytes(user + [':'] + pass))))
  {
    BasicAuthRoundTrip(user, pass);
  }

  /** `TriedAuthorization`: the request carries a non-empty header. */
  function TriedAuthorization(header: Option<string>): (tried: bool)
    ensures tried <==> header.Some? && header.value != ""
  {
    HeaderValue(header) != ""
  }

  /** No mode authorizes a request that did not try to authorize. */
  lemma UntriedIsUnauthorized(mode: AuthMode, header: Option<string>)
    requires !TriedAuthorization(header)
    ensures !IsAuthorized(mode, header)
  {
  }
}
