/** oauth.c: PKCE, the authorization URL, the token-request bodies and the persisted configuration. */
module OAuth {
  import opened Basics
  import opened Forms
  import PE = PercentEncoding
  import B64 = Base64Url

  // One text, written in three parts because the verifier is slow on long literals.
  const SCOPE := "https://www.google" + "apis.com/auth/" + "calendar.readonly"
  const AUTH_ENDPOINT := "https://accounts.google.com/o/oauth2/v2/auth"

  // ---- Formatting ----

  /** The C string held in a buffer: everything before the first NUL. */
  function BufferText(s: string): string {
    Before(s, NUL)
  }

  lemma BufferHolds(s: string, rest: string)
    requires IsCString(s)
    ensures BufferText(s + [NUL] + rest) == s
  {
    BreakAt(s, NUL, rest);
  }

  /** `url_encode` into a fresh buffer of `cap` characters; None is its -1. */
  method EncodeInto(text: string, cap: nat) returns (encoded: Option<string>)
    requires IsCString(text) && cap <= 0x8000_0000
    ensures encoded == if PE.Fits(text, cap) then Some(PE.Encode(text)) else None
  {
    var buf := new char[cap];
    var r, done := PE.UrlEncode(text, buf);
    PE.SuccessIsFit(text, cap, r);
    if r < 0 {
      return None;
    }
    PE.EncodeAlphabet(text);
    BufferHolds(PE.Encode(text), buf[..][|PE.Encode(text)| + 1..]);
    return Some(BufferText(buf[..]));
  }

  /** `snprintf` into a fresh buffer of `cap` characters, then the `n <= 0 || n >= cap` test. */
  method FormatInto(text: string, cap: nat) returns (formatted: Option<string>)
    requires 0 < cap
    ensures formatted == if 0 < |text| < cap then Some(text) else None
  {
    var buf := new char[cap];
    var shown := if |text| < cap then |text| else cap - 1;
    forall i | 0 <= i < shown {
      buf[i] := text[i];
    }
    buf[shown] := NUL;
    var n := |text|;
    if n <= 0 || n >= cap {
      return None;
    }
    assert buf[..n] == text;
    return Some(buf[..n]);
  }

  // ---- The texts, as the format strings spell them ----

  function RedirectUri(port: nat): string {
    "http://127.0.0.1:" + Decimal(port)
  }

  lemma RedirectShape(port: nat)
    ensures IsCString(RedirectUri(port))
    ensures port < 65536 ==> |RedirectUri(port)| <= 22 && |PE.Encode(RedirectUri(port))| <= 66
  {
    DecimalShape(port);
    PE.EncodeAlphabet(RedirectUri(port));
  }

  /** The parameters the authorization request spells out as constants. */
  datatype AuthOptions = AuthOptions(responseType: string, challengeMethod: string, accessType: string, prompt: string)

  const AUTH_OPTIONS := AuthOptions("code", "S256", "offline", "consent")
  const CODE_GRANT := "authorization_code"
  const REFRESH_GRANT := "refresh_token"

  function AuthParams(o: AuthOptions, cidEnc: string, redirectEnc: string, scopeEnc: string, challenge: string)
    : seq<Param>
  {
    [Param("client_id", cidEnc), Param("redirect_uri", redirectEnc), Param("response_type", o.responseType),
     Param("scope", scopeEnc), Param("code_challenge", challenge), Param("code_challenge_method", o.challengeMethod),
     Param("access_type", o.accessType), Param("prompt", o.prompt)]
  }

  function CodeParams(grant: string, cidEnc: string, csEnc: string, codeEnc: string, verifier: string,
                      redirectEnc: string)
    : seq<Param>
  {
    [Param("grant_type", grant), Param("client_id", cidEnc), Param("client_secret", csEnc),
     Param("code", codeEnc), Param("code_verifier", verifier), Param("redirect_uri", redirectEnc)]
  }

  function RefreshParams(grant: string, cidEnc: string, csEnc: string, tokenEnc: string): seq<Param> {
    [Param("grant_type", grant), Param("client_id", cidEnc), Param("client_secret", csEnc),
     Param("refresh_token", tokenEnc)]
  }

  // ---- What the servers read back ----

  function AuthFields(o: AuthOptions, cid: string, port: nat, scope: string, challenge: string): seq<Field> {
    [Field("client_id", cid), Field("redirect_uri", RedirectUri(port)), Field("response_type", o.responseType),
     Field("scope", scope), Field("code_challenge", challenge), Field("code_challenge_method", o.challengeMethod),
     Field("access_type", o.accessType), Field("prompt", o.prompt)]
  }

  function CodeFields(grant: string, cid: string, cs: string, code: string, verifier: string, port: nat): seq<Field> {
    [Field("grant_type", grant), Field("client_id", cid), Field("client_secret", cs),
     Field("code", code), Field("code_verifier", verifier), Field("redirect_uri", RedirectUri(port))]
  }

  function RefreshFields(grant: string, cid: string, cs: string, token: string): seq<Field> {
    [Field("grant_type", grant), Field("client_id", cid), Field("client_secret", cs),
     Field("refresh_token", token)]
  }

  // Each parameter carries the field of its name: an encoded value, or a value that needs no encoding.

  lemma CarriesEncoded(name: string, v: string)
    requires PlainName(name) && IsCString(v)
    ensures Carries(Param(name, PE.Encode(v)), Field(name, v))
  {}

  lemma CarriesPlain(name: string, v: string)
    requires PlainName(name) && PlainName(v)
    ensures Carries(Param(name, v), Field(name, v))
  {
    PE.FixedPoint(v);
  }

  lemma ClientNamesArePlain()
    ensures PlainName("client_id") && PlainName("client_secret") && PlainName("redirect_uri")
  {}

  lemma TokenNamesArePlain()
    ensures PlainName("grant_type") && PlainName("code") && PlainName("code_verifier") && PlainName("refresh_token")
  {}

  lemma RequestNamesArePlain()
    ensures PlainName("response_type") && PlainName("scope") && PlainName("access_type") && PlainName("prompt")
  {}

  lemma ChallengeNamesArePlain()
    ensures PlainName("code_challenge") && PlainName("code_challenge_method")
  {}

  predicate PlainOptions(o: AuthOptions) {
    PlainName(o.responseType) && PlainName(o.challengeMethod) && PlainName(o.accessType) && PlainName(o.prompt)
  }

  lemma OptionsArePlain()
    ensures PlainOptions(AUTH_OPTIONS)
  {}

  lemma GrantsArePlain()
    ensures PlainName(CODE_GRANT) && PlainName(REFRESH_GRANT)
  {}

  lemma CodeParamsCarry(grant: string, cid: string, cs: string, code: string, verifier: string, port: nat)
    requires PlainName(grant) && IsCString(cid) && IsCString(cs) && IsCString(code) && PlainName(verifier)
    requires IsCString(RedirectUri(port))
    ensures CarriesAll(CodeParams(grant, PE.Encode(cid), PE.Encode(cs), PE.Encode(code), verifier,
                                  PE.Encode(RedirectUri(port))),
                       CodeFields(grant, cid, cs, code, verifier, port))
  {
    ClientNamesArePlain();
    TokenNamesArePlain();
    CarriesPlain("grant_type", grant);
    CarriesEncoded("client_id", cid);
    CarriesEncoded("client_secret", cs);
    CarriesEncoded("code", code);
    CarriesPlain("code_verifier", verifier);
    CarriesEncoded("redirect_uri", RedirectUri(port));
    CarriesBothEnds(CodeParams(grant, PE.Encode(cid), PE.Encode(cs), PE.Encode(code), verifier,
                          PE.Encode(RedirectUri(port))),
               CodeFields(grant, cid, cs, code, verifier, port));
  }

  /** The code-exchange body reads back as the six intended fields, the verifier inserted unencoded among them. */
  lemma CodeBodyReadsBack(grant: string, cid: string, cs: string, code: string, raw: seq<byte>, port: nat)
    requires PlainName(grant) && IsCString(cid) && IsCString(cs) && IsCString(code)
    ensures IsCString(RedirectUri(port))
    ensures ParseForm(Query(CodeParams(grant, PE.Encode(cid), PE.Encode(cs), PE.Encode(code), B64.UrlText(raw),
                                       PE.Encode(RedirectUri(port)))))
         == Some(CodeFields(grant, cid, cs, code, B64.UrlText(raw), port))
  {
    RedirectShape(port);
    B64.UrlTextShape(raw);
    CodeParamsCarry(grant, cid, cs, code, B64.UrlText(raw), port);
    QueryReadsBack(CodeParams(grant, PE.Encode(cid), PE.Encode(cs), PE.Encode(code), B64.UrlText(raw),
                              PE.Encode(RedirectUri(port))),
                   CodeFields(grant, cid, cs, code, B64.UrlText(raw), port));
  }

  lemma RefreshParamsCarry(grant: string, cid: string, cs: string, token: string)
    requires PlainName(grant) && IsCString(cid) && IsCString(cs) && IsCString(token)
    ensures CarriesAll(RefreshParams(grant, PE.Encode(cid), PE.Encode(cs), PE.Encode(token)),
                       RefreshFields(grant, cid, cs, token))
  {
    ClientNamesArePlain();
    TokenNamesArePlain();
    CarriesPlain("grant_type", grant);
    CarriesEncoded("client_id", cid);
    CarriesEncoded("client_secret", cs);
    CarriesEncoded("refresh_token", token);
    CarriesFour(RefreshParams(grant, PE.Encode(cid), PE.Encode(cs), PE.Encode(token)),
                RefreshFields(grant, cid, cs, token));
  }

  /** The refresh body reads back as the four intended fields. */
  lemma RefreshBodyReadsBack(grant: string, cid: string, cs: string, token: string)
    requires PlainName(grant) && IsCString(cid) && IsCString(cs) && IsCString(token)
    ensures ParseForm(Query(RefreshParams(grant, PE.Encode(cid), PE.Encode(cs), PE.Encode(token))))
         == Some(RefreshFields(grant, cid, cs, token))
  {
    RefreshParamsCarry(grant, cid, cs, token);
    QueryReadsBack(RefreshParams(grant, PE.Encode(cid), PE.Encode(cs), PE.Encode(token)),
                   RefreshFields(grant, cid, cs, token));
  }

  lemma AuthParamsCarry(o: AuthOptions, cid: string, port: nat, scope: string, challenge: string)
    requires PlainOptions(o) && IsCString(cid) && IsCString(scope) && PlainName(challenge)
    requires IsCString(RedirectUri(port))
    ensures CarriesAll(AuthParams(o, PE.Encode(cid), PE.Encode(RedirectUri(port)), PE.Encode(scope), challenge),
                       AuthFields(o, cid, port, scope, challenge))
  {
    ClientNamesArePlain();
    RequestNamesArePlain();
    ChallengeNamesArePlain();
    CarriesEncoded("client_id", cid);
    CarriesEncoded("redirect_uri", RedirectUri(port));
    CarriesPlain("response_type", o.responseType);
    CarriesEncoded("scope", scope);
    CarriesPlain("code_challenge", challenge);
    CarriesPlain("code_challenge_method", o.challengeMethod);
    CarriesPlain("access_type", o.accessType);
    CarriesPlain("prompt", o.prompt);
    CarriesBothEnds(AuthParams(o, PE.Encode(cid), PE.Encode(RedirectUri(port)), PE.Encode(scope), challenge),
                 AuthFields(o, cid, port, scope, challenge));
  }

  /** The authorization request reads back as the eight intended parameters, for any scope text. */
  lemma AuthQueryReadsBack(o: AuthOptions, cid: string, port: nat, scope: string, hash: seq<byte>)
    requires PlainOptions(o) && IsCString(cid) && IsCString(scope)
    ensures IsCString(RedirectUri(port))
    ensures ParseForm(Query(AuthParams(o, PE.Encode(cid), PE.Encode(RedirectUri(port)), PE.Encode(scope),
                                       B64.UrlText(hash))))
         == Some(AuthFields(o, cid, port, scope, B64.UrlText(hash)))
  {
    RedirectShape(port);
    B64.UrlTextShape(hash);
    AuthParamsCarry(o, cid, port, scope, B64.UrlText(hash));
    QueryReadsBack(AuthParams(o, PE.Encode(cid), PE.Encode(RedirectUri(port)), PE.Encode(scope), B64.UrlText(hash)),
                   AuthFields(o, cid, port, scope, B64.UrlText(hash)));
  }

  // ---- Lengths ----

  lemma AuthQueryLength(o: AuthOptions, cidEnc: string, redirectEnc: string, scopeEnc: string, challenge: string)
    ensures |Query(AuthParams(o, cidEnc, redirectEnc, scopeEnc, challenge))|
         == |cidEnc| + |redirectEnc| + |o.responseType| + |scopeEnc| + |challenge|
            + |o.challengeMethod| + |o.accessType| + |o.prompt| + 106
  {
    var ps := AuthParams(o, cidEnc, redirectEnc, scopeEnc, challenge);
    QueryLength(ps);
    TotalOfFour(ps);
    TotalOfFour(ps[4..]);
    assert ps[4..][4..] == [];
  }

  lemma CodeBodyLength(grant: string, cidEnc: string, csEnc: string, codeEnc: string, verifier: string,
                       redirectEnc: string)
    ensures |Query(CodeParams(grant, cidEnc, csEnc, codeEnc, verifier, redirectEnc))|
         == |grant| + |cidEnc| + |csEnc| + |codeEnc| + |verifier| + |redirectEnc| + 72
  {
    var ps := CodeParams(grant, cidEnc, csEnc, codeEnc, verifier, redirectEnc);
    QueryLength(ps);
    TotalOfFour(ps);
    TotalOfTwo(ps[4..]);
    assert ps[4..][2..] == [];
  }

  lemma RefreshBodyLength(grant: string, cidEnc: string, csEnc: string, tokenEnc: string)
    ensures |Query(RefreshParams(grant, cidEnc, csEnc, tokenEnc))|
         == |grant| + |cidEnc| + |csEnc| + |tokenEnc| + 52
  {
    var ps := RefreshParams(grant, cidEnc, csEnc, tokenEnc);
    QueryLength(ps);
    TotalOfFour(ps);
    assert ps[4..] == [];
  }

  // ---- PKCE ----

  /** `make_pkce`: `raw` and `randomOk` are what the random source delivers, `sha` is the hash. */
  method MakePkce(randomOk: bool, raw: seq<byte>, sha: string -> seq<byte>, verifier: array<char>, challenge: array<char>)
    returns (ok: bool)
    requires |raw| == 32 && forall s :: |sha(s)| == 32
    requires verifier != challenge && verifier.Length == challenge.Length == 64
    modifies verifier, challenge
    ensures ok == randomOk
    ensures ok ==>
              var v := B64.UrlText(raw);
              && BufferText(verifier[..]) == v && |v| == 43
              && BufferText(challenge[..]) == B64.UrlText(sha(v)) && |B64.UrlText(sha(v))| == 43
  {
    if !randomOk {
      return false;
    }
    B64.UrlTextShape(raw);
    var r := B64.B64UrlEncode(raw, verifier);
    if r < 0 {
      return false;
    }
    HeldText(verifier, B64.UrlText(raw));
    var hash := sha(BufferText(verifier[..]));
    B64.UrlTextShape(hash);
    r := B64.B64UrlEncode(hash, challenge);
    if r < 0 {
      return false;
    }
    HeldText(challenge, B64.UrlText(hash));
    return true;
  }

  lemma HeldText(buf: array<char>, s: string)
    requires IsCString(s) && |s| < buf.Length && buf[..|s| + 1] == s + [NUL]
    ensures BufferText(buf[..]) == s
  {
    assert buf[..] == buf[..|s| + 1] + buf[|s| + 1..];
    BufferHolds(s, buf[|s| + 1..]);
  }
}
