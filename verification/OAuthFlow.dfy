/** oauth.c: loading and saving the configuration, the authorization flow and the token refresh. */
module OAuthFlow {
  import opened Basics
  import opened Forms
  import opened OAuth
  import PE = PercentEncoding
  import B64 = Base64Url
  import SW = SecureWrite

  const TOKEN_MAX := 2048
  const CLIENT_ID_MAX := 256
  const CLIENT_SECRET_MAX := 128
  const PATH_MAX := 512
  const CODE_MAX := 1024
  const DEFAULT_CA := "/etc/ssl/certs/ca-certificates.crt"

  /** The value of a property at the root of the configuration document, strings already unescaped. */
  datatype Property = Text(s: string) | Number(n: int) | Other

  type Document = map<string, Property>

  predicate EightBit(doc: Document) {
    forall name :: name in doc && doc[name].Text? ==> forall i :: 0 <= i < |doc[name].s| ==> doc[name].s[i] as int < 256
  }

  /** `json_root_get_string`: the C string left in a buffer of `cap` characters, or None on failure. */
  function GetString(doc: Document, name: string, cap: nat): (r: Option<string>)
    requires EightBit(doc)
    ensures r.Some? <==> name in doc && doc[name].Text? && |doc[name].s| < cap
    ensures r.Some? ==>
              && |r.value| < cap && IsCString(r.value) && r.value <= doc[name].s
              && (|r.value| < |doc[name].s| ==> doc[name].s[|r.value|] == NUL)
  {
    if name in doc && doc[name].Text? && |doc[name].s| < cap then
      var s := doc[name].s;
      BeforeIsPrefix(s, NUL);
      assert forall i :: 0 <= i < |BufferText(s)| ==> BufferText(s)[i] == s[i] && BufferText(s)[i] in BufferText(s);
      Some(BufferText(s))
    else None
  }

  function LoadedPort(doc: Document): (port: nat)
    ensures 1 <= port <= 65535
    ensures "loopback_port" in doc && doc["loopback_port"].Number? && 1 <= doc["loopback_port"].n <= 65535 ==>
              port == doc["loopback_port"].n
    ensures "loopback_port" !in doc || !doc["loopback_port"].Number? ==> port == 8765
  {
    var name := "loopback_port";
    if name in doc && doc[name].Number? && 0 < doc[name].n < 65536 then doc[name].n else 8765
  }

  /** `snprintf(dest, cap, "%s", s)`. */
  function Truncated(s: string, cap: nat): (t: string)
    requires cap > 0
    ensures t <= s && |t| == if |s| < cap then |s| else cap - 1
  {
    if |s| < cap then s else s[..cap - 1]
  }

  // ---- The configuration file ----

  /** One `"name": "value"` of the format string, with the characters before it and between the two. */
  datatype Line = Line(lead: string, name: string, sep: string, value: string)

  function Enclosed(lead: string, piece: string, rest: string): string {
    lead + "\"" + piece + "\"" + rest
  }

  function LinesText(lines: seq<Line>, rest: string): string {
    if lines == [] then rest
    else
      var line := lines[0];
      Enclosed(line.lead, line.name, Enclosed(line.sep, line.value, LinesText(lines[1..], rest)))
  }

  function ConfigLines(cid: string, cs: string, token: string, ca: string): seq<Line> {
    [Line("{\n  ", "client_id", ":     ", cid), Line(",\n  ", "client_secret", ": ", cs),
     Line(",\n  ", "refresh_token", ": ", token), Line(",\n  ", "ca_bundle_path", ":", ca)]
  }

  function PortText(port: nat): string {
    Enclosed(",\n  ", "loopback_port", ": " + Decimal(port) + "\n}\n")
  }

  function ConfigText(cid: string, cs: string, token: string, ca: string, port: nat): string {
    LinesText(ConfigLines(cid, cs, token, ca), PortText(port))
  }

  // How such text reads back: the pieces between its quotes.

  function SplitQuotes(s: string): seq<string>
    decreases |s|
  {
    BeforeIsPrefix(s, '"');
    match After(s, '"')
    case None => [s]
    case Some(rest) => [Before(s, '"')] + SplitQuotes(rest)
  }

  predicate NoQuote(s: string) { '"' !in s }

  lemma {:induction false} PiecesHaveNoQuote(s: string)
    ensures forall p :: p in SplitQuotes(s) ==> NoQuote(p)
    decreases |s|
  {
    BeforeIsPrefix(s, '"');
    if After(s, '"').Some? {
      PiecesHaveNoQuote(After(s, '"').value);
    }
  }

  lemma SplitFirst(piece: string, rest: string)
    requires NoQuote(piece)
    ensures SplitQuotes(piece + "\"" + rest) == [piece] + SplitQuotes(rest)
  {
    BreakAt(piece, '"', rest);
    assert piece + "\"" + rest == piece + ['"'] + rest;
  }

  lemma SplitEnclosed(lead: string, piece: string, rest: string)
    requires NoQuote(lead) && NoQuote(piece)
    ensures SplitQuotes(Enclosed(lead, piece, rest)) == [lead, piece] + SplitQuotes(rest)
  {
    SplitFirst(piece, rest);
    SplitFirst(lead, piece + "\"" + rest);
    ConcatAssociates(lead + "\"", piece + "\"", rest);
    ConcatAssociates(lead + "\"", piece, "\"");
    ConcatAssociates([lead], [piece], SplitQuotes(rest));
  }

  function Pieces(lines: seq<Line>): seq<string> {
    if lines == [] then []
    else
      var line := lines[0];
      [line.lead, line.name] + ([line.sep, line.value] + Pieces(lines[1..]))
  }

  predicate NoQuotes(pieces: seq<string>) { forall p :: p in pieces ==> NoQuote(p) }

  lemma {:induction false} SplitLines(lines: seq<Line>, rest: string)
    requires NoQuotes(Pieces(lines))
    ensures SplitQuotes(LinesText(lines, rest)) == Pieces(lines) + SplitQuotes(rest)
    decreases |lines|
  {
    if lines != [] {
      var line, more := lines[0], lines[1..];
      var inner := [line.sep, line.value] + Pieces(more);
      assert line.lead in Pieces(lines) && line.name in Pieces(lines);
      assert forall p :: p in inner ==> p in Pieces(lines);
      assert line.sep in inner && line.value in inner;
      SplitLines(more, rest);
      SplitEnclosed(line.sep, line.value, LinesText(more, rest));
      SplitEnclosed(line.lead, line.name, Enclosed(line.sep, line.value, LinesText(more, rest)));
      ConcatAssociates([line.sep, line.value], Pieces(more), SplitQuotes(rest));
      ConcatAssociates([line.lead, line.name], inner, SplitQuotes(rest));
    }
  }

  /** The pieces of the saved text: names and values alternate with the format's own characters. */
  function ConfigPieces(cid: string, cs: string, token: string, ca: string, port: nat): seq<string> {
    ["{\n  ", "client_id", ":     ", cid, ",\n  ", "client_secret", ": ", cs,
     ",\n  ", "refresh_token", ": ", token, ",\n  ", "ca_bundle_path", ":", ca,
     ",\n  ", "loopback_port", ": " + Decimal(port) + "\n}\n"]
  }

  lemma FormatIsPlain()
    ensures NoQuote("{\n  ") && NoQuote(",\n  ") && NoQuote(":     ") && NoQuote(": ") && NoQuote(":")
    ensures NoQuote("client_id") && NoQuote("client_secret") && NoQuote("refresh_token")
    ensures NoQuote("ca_bundle_path") && NoQuote("loopback_port")
  {}

  lemma {:induction false} DecimalHasNoQuote(n: nat)
    ensures NoQuote(Decimal(n))
  {
    if n >= 10 {
      DecimalHasNoQuote(n / 10);
    }
  }

  lemma FourLines(a: Line, b: Line, c: Line, d: Line)
    ensures Pieces([a, b, c, d])
         == [a.lead, a.name, a.sep, a.value, b.lead, b.name, b.sep, b.value,
             c.lead, c.name, c.sep, c.value, d.lead, d.name, d.sep, d.value]
  {
    assert [a, b, c, d][1..] == [b, c, d] && [b, c, d][1..] == [c, d] && [c, d][1..] == [d] && [d][1..] == [];
    assert Pieces([d]) == [d.lead, d.name, d.sep, d.value];
    assert Pieces([c, d]) == [c.lead, c.name, c.sep, c.value] + Pieces([d]);
    assert Pieces([b, c, d]) == [b.lead, b.name, b.sep, b.value] + Pieces([c, d]);
  }

  /**
    Split at its quotes, the saved text gives each setting's value after its own name, and the port after its name,
    exactly when no value contains a quote: the values are written without escaping.
   */
  lemma ConfigReadsBack(cid: string, cs: string, token: string, ca: string, port: nat)
    ensures SplitQuotes(ConfigText(cid, cs, token, ca, port))
         == ["{\n  ", "client_id", ":     ", cid, ",\n  ", "client_secret", ": ", cs,
             ",\n  ", "refresh_token", ": ", token, ",\n  ", "ca_bundle_path", ":", ca,
             ",\n  ", "loopback_port", ": " + Decimal(port) + "\n}\n"]
       <==> NoQuote(cid) && NoQuote(cs) && NoQuote(token) && NoQuote(ca)
  {
    var pieces := ConfigPieces(cid, cs, token, ca, port);
    PiecesHaveNoQuote(ConfigText(cid, cs, token, ca, port));
    assert pieces[3] == cid && pieces[7] == cs && pieces[11] == token && pieces[15] == ca;
    if NoQuote(cid) && NoQuote(cs) && NoQuote(token) && NoQuote(ca) {
      ConfigSplits(cid, cs, token, ca, port);
    }
  }

  lemma ConfigSplits(cid: string, cs: string, token: string, ca: string, port: nat)
    requires NoQuote(cid) && NoQuote(cs) && NoQuote(token) && NoQuote(ca)
    ensures SplitQuotes(ConfigText(cid, cs, token, ca, port)) == ConfigPieces(cid, cs, token, ca, port)
  {
    var lines, last := ConfigLines(cid, cs, token, ca), ": " + Decimal(port) + "\n}\n";
    FormatIsPlain();
    FourLines(lines[0], lines[1], lines[2], lines[3]);
    SplitLines(lines, PortText(port));
    DecimalHasNoQuote(port);
    NoBreak(last, '"');
    SplitEnclosed(",\n  ", "loopback_port", last);
  }

  lemma ConfigLength(cid: string, cs: string, token: string, ca: string, port: nat)
    ensures |ConfigText(cid, cs, token, ca, port)| == |cid| + |cs| + |token| + |ca| + |Decimal(port)| + 116
  {
    var lines := ConfigLines(cid, cs, token, ca);
    var l1, l2, l3 := lines[1..], lines[2..], lines[3..];
    assert l1[1..] == l2 && l2[1..] == l3 && l3[1..] == [];
    assert LinesText([], PortText(port)) == PortText(port);
    assert |LinesText(l3, PortText(port))| == 4 + 14 + 1 + 4 + |ca| + |PortText(port)|;
    assert |LinesText(l2, PortText(port))| == 4 + 13 + 2 + 4 + |token| + |LinesText(l3, PortText(port))|;
    assert |LinesText(l1, PortText(port))| == 4 + 13 + 2 + 4 + |cs| + |LinesText(l2, PortText(port))|;
  }

  /** Whatever the user, the random source, the browser and Google's servers deliver during one flow. */
  datatype FlowInput = FlowInput(
    randomOk: bool, raw: seq<byte>, sha: string -> seq<byte>,
    code: Option<string>,          // what loopback_wait_for_code captured
    refreshReply: Option<string>)  // the refresh_token of a successful reply ("" when absent)

  ghost predicate Sound(input: FlowInput) {
    && |input.raw| == 32 && (forall s :: |input.sha(s)| == 32)
    && (input.code.Some? ==> IsCString(input.code.value) && |input.code.value| < CODE_MAX)
    && (input.refreshReply.Some? ==> IsCString(input.refreshReply.value) && |input.refreshReply.value| < TOKEN_MAX)
  }

  function AuthUrl(cid: string, port: nat, challenge: string): string
    requires IsCString(cid) && IsCString(RedirectUri(port)) && IsCString(SCOPE)
  {
    AUTH_ENDPOINT + "?"
    + Query(AuthParams(AUTH_OPTIONS, PE.Encode(cid), PE.Encode(RedirectUri(port)), PE.Encode(SCOPE), challenge))
  }

  function CodeBody(cid: string, cs: string, code: string, verifier: string, port: nat): string
    requires IsCString(cid) && IsCString(cs) && IsCString(code) && IsCString(RedirectUri(port))
  {
    Query(CodeParams(CODE_GRANT, PE.Encode(cid), PE.Encode(cs), PE.Encode(code), verifier,
                     PE.Encode(RedirectUri(port))))
  }

  function RefreshBody(cid: string, cs: string, token: string): string
    requires IsCString(cid) && IsCString(cs) && IsCString(token)
  {
    Query(RefreshParams(REFRESH_GRANT, PE.Encode(cid), PE.Encode(cs), PE.Encode(token)))
  }

  lemma ScopeShape()
    ensures IsCString(SCOPE) && |PE.Encode(SCOPE)| <= 147
  {
    ScopeIsCString();
    PE.EncodeAlphabet(SCOPE);
  }

  lemma ConstantsSpelled()
    ensures SCOPE == "https://www.googleapis.com/auth/calendar.readonly"
    ensures AUTH_ENDPOINT == "https://accounts.google.com/o/oauth2/v2/auth"
  {}

  lemma ScopeIsCString()
    ensures IsCString(SCOPE) && |SCOPE| == 49
  {}

  /** The authorization URL fits its buffer whatever the client id, once that id fits its own. */
  lemma AuthUrlFits(cid: string, port: nat, challenge: string)
    requires IsCString(cid) && PE.Fits(cid, 512) && port < 65536 && |challenge| == 43
    ensures IsCString(RedirectUri(port)) && IsCString(SCOPE)
    ensures PE.Fits(RedirectUri(port), 256) && PE.Fits(SCOPE, 256)
    ensures 0 < |AuthUrl(cid, port, challenge)| < 1024
  {
    RedirectShape(port);
    ScopeShape();
    AuthQueryLength(AUTH_OPTIONS, PE.Encode(cid), PE.Encode(RedirectUri(port)), PE.Encode(SCOPE), challenge);
  }

  /** The code-exchange body fits its buffer once its three encoded parts fit theirs. */
  lemma CodeBodyFits(cid: string, cs: string, code: string, verifier: string, port: nat)
    requires IsCString(cid) && PE.Fits(cid, 512) && IsCString(cs) && PE.Fits(cs, 256)
    requires IsCString(code) && PE.Fits(code, 1024) && port < 65536 && |verifier| == 43
    ensures IsCString(RedirectUri(port)) && 0 < |CodeBody(cid, cs, code, verifier, port)| < 2048
  {
    RedirectShape(port);
    CodeBodyLength(CODE_GRANT, PE.Encode(cid), PE.Encode(cs), PE.Encode(code), verifier,
                   PE.Encode(RedirectUri(port)));
  }

  lemma RefreshBodyFits(cid: string, cs: string, token: string)
    requires IsCString(cid) && PE.Fits(cid, 512) && IsCString(cs) && PE.Fits(cs, 256)
    requires IsCString(token) && PE.Fits(token, TOKEN_MAX + 64)
    ensures 0 < |RefreshBody(cid, cs, token)| < TOKEN_MAX + 1024
  {
    RefreshBodyLength(REFRESH_GRANT, PE.Encode(cid), PE.Encode(cs), PE.Encode(token));
  }

  /** The fields of an authorization request with the program's constants. */
  lemma AuthFieldsSpelled(cid: string, port: nat, scope: string, challenge: string)
    ensures AuthFields(AUTH_OPTIONS, cid, port, scope, challenge)
         == [Field("client_id", cid), Field("redirect_uri", "http://127.0.0.1:" + Decimal(port)),
             Field("response_type", "code"), Field("scope", scope), Field("code_challenge", challenge),
             Field("code_challenge_method", "S256"), Field("access_type", "offline"), Field("prompt", "consent")]
  {}

  /** The authorization URL: the endpoint, and a query that reads back as the eight parameters. */
  lemma AuthUrlReadsBack(cid: string, port: nat, hash: seq<byte>)
    requires IsCString(cid)
    ensures IsCString(RedirectUri(port)) && IsCString(SCOPE)
    ensures var url, challenge := AuthUrl(cid, port, B64.UrlText(hash)), B64.UrlText(hash);
            && Before(url, '?') == AUTH_ENDPOINT && After(url, '?').Some?
            && ParseForm(After(url, '?').value)
            == Some([Field("client_id", cid), Field("redirect_uri", "http://127.0.0.1:" + Decimal(port)),
                     Field("response_type", "code"), Field("scope", SCOPE), Field("code_challenge", challenge),
                     Field("code_challenge_method", "S256"), Field("access_type", "offline"),
                     Field("prompt", "consent")])
  {
    RedirectShape(port);
    ScopeShape();
    OptionsArePlain();
    AuthQueryReadsBack(AUTH_OPTIONS, cid, port, SCOPE, hash);
    AuthFieldsSpelled(cid, port, SCOPE, B64.UrlText(hash));
    EndpointHasNoQuery();
    BreakAt(AUTH_ENDPOINT, '?', Query(AuthParams(AUTH_OPTIONS, PE.Encode(cid), PE.Encode(RedirectUri(port)),
                                                 PE.Encode(SCOPE), B64.UrlText(hash))));
  }

  /** The code-exchange body with the program's grant type. */
  lemma CodeReadsBack(cid: string, cs: string, code: string, raw: seq<byte>, port: nat)
    requires IsCString(cid) && IsCString(cs) && IsCString(code)
    ensures IsCString(RedirectUri(port))
    ensures ParseForm(CodeBody(cid, cs, code, B64.UrlText(raw), port))
         == Some([Field("grant_type", "authorization_code"), Field("client_id", cid), Field("client_secret", cs),
                  Field("code", code), Field("code_verifier", B64.UrlText(raw)),
                  Field("redirect_uri", "http://127.0.0.1:" + Decimal(port))])
  {
    RedirectShape(port);
    GrantsArePlain();
    CodeBodyReadsBack(CODE_GRANT, cid, cs, code, raw, port);
  }

  /**
    What the two servers can check about one flow: the authorization request announces the hash of exactly
    the verifier the token request later presents (section 4.6 of RFC 7636), for the same client and redirect.
   */
  lemma PkceBinding(cid: string, cs: string, code: string, raw: seq<byte>, sha: string -> seq<byte>, port: nat)
    requires IsCString(cid) && IsCString(cs) && IsCString(code)
    ensures IsCString(RedirectUri(port)) && IsCString(SCOPE)
    ensures var verifier, redirect := B64.UrlText(raw), "http://127.0.0.1:" + Decimal(port);
            var query := After(AuthUrl(cid, port, B64.UrlText(sha(verifier))), '?');
            && query.Some?
            && ParseForm(query.value)
            == Some([Field("client_id", cid), Field("redirect_uri", redirect), Field("response_type", "code"),
                     Field("scope", SCOPE), Field("code_challenge", B64.UrlText(sha(verifier))),
                     Field("code_challenge_method", "S256"), Field("access_type", "offline"),
                     Field("prompt", "consent")])
            && ParseForm(CodeBody(cid, cs, code, verifier, port))
            == Some([Field("grant_type", "authorization_code"), Field("client_id", cid), Field("client_secret", cs),
                     Field("code", code), Field("code_verifier", verifier), Field("redirect_uri", redirect)])
            && B64.Decode(verifier) == Some(raw)
  {
    B64.DecodeIff(B64.UrlText(raw), raw);
    AuthUrlReadsBack(cid, port, sha(B64.UrlText(raw)));
    CodeReadsBack(cid, cs, code, raw, port);
  }

  /** The refresh request reads back as the four intended fields. */
  lemma RefreshReadsBack(cid: string, cs: string, token: string)
    requires IsCString(cid) && IsCString(cs) && IsCString(token)
    ensures ParseForm(RefreshBody(cid, cs, token))
         == Some([Field("grant_type", "refresh_token"), Field("client_id", cid), Field("client_secret", cs),
                  Field("refresh_token", token)])
  {
    GrantsArePlain();
    RefreshBodyReadsBack(REFRESH_GRANT, cid, cs, token);
  }

  /** A path too long for the record is shortened, but then no later save can succeed and write the wrong file. */
  lemma ShortenedPathIsNeverWritten(path: string, answer: nat -> int, c: nat, n: nat)
    requires Truncated(path, PATH_MAX) != path
    ensures !SW.Succeeds(answer, c, Truncated(path, PATH_MAX), n)
  {
    assert |SW.Tmp(Truncated(path, PATH_MAX))| == PATH_MAX - 1 + 4;
  }

  lemma EndpointHasNoQuery()
    ensures '?' !in AUTH_ENDPOINT
  {}

  /** The configuration record `gcal_oauth_t`. */
  class GcalOauth {
    var clientId: string
    var clientSecret: string
    var refreshToken: string
    var haveRefreshToken: bool
    var caBundlePath: string
    var configPath: string
    var loopbackPort: nat

    ghost predicate Valid()
      reads this
    {
      && IsCString(clientId) && |clientId| < CLIENT_ID_MAX
      && IsCString(clientSecret) && |clientSecret| < CLIENT_SECRET_MAX
      && IsCString(refreshToken) && |refreshToken| < TOKEN_MAX
      && (haveRefreshToken <==> refreshToken != [])
      && |caBundlePath| < PATH_MAX && |configPath| < PATH_MAX
      && 1 <= loopbackPort <= 65535
    }

    /** A record in `memset` state; only a successful Load makes it valid. */
    constructor ()
      ensures !haveRefreshToken && refreshToken == [] && loopbackPort == 0
    {
      clientId, clientSecret, refreshToken, haveRefreshToken := [], [], [], false;
      caBundlePath, configPath, loopbackPort := [], [], 0;
    }

    /** `oauth_load_config`: `document` is None when the file cannot be read as JSON. */
    method Load(path: string, document: Option<Document>) returns (ok: bool)
      requires document.Some? ==> EightBit(document.value)
      modifies this
      ensures configPath == Truncated(path, PATH_MAX)
      ensures ok <==> document.Some? && Required(document.value)
      ensures ok ==> Valid() && Loaded(document.value)
      ensures ok ==> |clientId| < 256 && |clientSecret| < 128 && |refreshToken| < 2048 && |caBundlePath| < 512
      ensures ok ==> match GetString(document.value, "refresh_token", 2048)
                     case Some(token) => refreshToken == token && (haveRefreshToken <==> token != [])
                     case None => refreshToken == [] && !haveRefreshToken
      ensures ok && "ca_bundle_path" !in document.value ==> caBundlePath == "/etc/ssl/certs/ca-certificates.crt"
    {
      clientId, clientSecret, refreshToken, haveRefreshToken := [], [], [], false;
      configPath := Truncated(path, PATH_MAX);
      caBundlePath := DEFAULT_CA;
      loopbackPort := 8765;
      if document.None? {
        return false;
      }
      ok := LoadRequired(document.value);
      if ok {
        LoadOptional(document.value);
      }
    }

    /** Both required strings are present and fit their buffers. */
    ghost predicate Required(doc: Document)
      requires EightBit(doc)
    {
      GetString(doc, "client_id", CLIENT_ID_MAX).Some? && GetString(doc, "client_secret", CLIENT_SECRET_MAX).Some?
    }

    /** Every field holds the document's value, or its default where the document has no usable one. */
    ghost predicate Loaded(doc: Document)
      requires EightBit(doc)
      reads this
    {
      var token := GetString(doc, "refresh_token", TOKEN_MAX);
      var ca := GetString(doc, "ca_bundle_path", PATH_MAX);
      && Some(clientId) == GetString(doc, "client_id", CLIENT_ID_MAX)
      && Some(clientSecret) == GetString(doc, "client_secret", CLIENT_SECRET_MAX)
      && refreshToken == (if token.Some? then token.value else [])
      && caBundlePath == (if ca.Some? then ca.value else DEFAULT_CA)
      && loopbackPort == LoadedPort(doc)
    }

    method LoadRequired(doc: Document) returns (ok: bool)
      requires EightBit(doc)
      modifies this`clientId, this`clientSecret
      ensures ok <==> Required(doc)
      ensures ok ==> Some(clientId) == GetString(doc, "client_id", CLIENT_ID_MAX)
                     && Some(clientSecret) == GetString(doc, "client_secret", CLIENT_SECRET_MAX)
    {
      var s := GetString(doc, "client_id", CLIENT_ID_MAX);
      if s.None? {
        return false;
      }
      clientId := s.value;
      s := GetString(doc, "client_secret", CLIENT_SECRET_MAX);
      if s.None? {
        return false;
      }
      clientSecret := s.value;
      ok := true;
    }

    method LoadOptional(doc: Document)
      requires EightBit(doc)
      requires refreshToken == [] && !haveRefreshToken && caBundlePath == DEFAULT_CA && loopbackPort == 8765
      modifies this`refreshToken, this`haveRefreshToken, this`caBundlePath, this`loopbackPort
      ensures var token := GetString(doc, "refresh_token", TOKEN_MAX);
              refreshToken == (if token.Some? then token.value else [])
      ensures haveRefreshToken <==> refreshToken != []
      ensures var ca := GetString(doc, "ca_bundle_path", PATH_MAX);
              caBundlePath == (if ca.Some? then ca.value else DEFAULT_CA)
      ensures loopbackPort == LoadedPort(doc)
    {
      var s := GetString(doc, "refresh_token", TOKEN_MAX);
      if s.Some? {
        refreshToken := s.value;
        haveRefreshToken := refreshToken != [];
      }
      s := GetString(doc, "ca_bundle_path", PATH_MAX);
      if s.Some? {
        caBundlePath := s.value;
      }
      if "loopback_port" in doc && doc["loopback_port"].Number? {
        var p := doc["loopback_port"].n;
        if p > 0 && p < 65536 {
          loopbackPort := p;
        }
      }
    }

    /** The text that saving the record writes. */
    ghost function Config(): string
      reads this
    {
      ConfigText(clientId, clientSecret, refreshToken, caBundlePath, loopbackPort)
    }

    /** A save that began with system call `calls` reports truthfully whether the record's text replaced the file. */
    ghost predicate Saved(answer: nat -> int, calls: nat, before: SW.Files, now: SW.Files, ok: bool)
      reads this
    {
      && (ok <==> SW.Succeeds(answer, calls, configPath, |Config()|))
      && (ok ==> now == before[configPath := Config()] - {SW.Tmp(configPath)})
      && (!ok ==> SW.Untouched(before, now, configPath))
    }

    /** `oauth_save_config`: its own overflow test never fires; only the file system decides. */
    method Save(disk: SW.Disk) returns (ok: bool)
      requires Valid()
      modifies disk
      ensures |Config()| < 8192
      ensures Saved(disk.answer, old(disk.calls), old(disk.files), disk.files, ok)
    {
      DecimalShape(loopbackPort);
      ConfigLength(clientId, clientSecret, refreshToken, caBundlePath, loopbackPort);
      var text := FormatInto(ConfigText(clientId, clientSecret, refreshToken, caBundlePath, loopbackPort), 8192);
      if text.None? {
        return false;
      }
      ok := SW.WriteFileSecure(disk, configPath, text.value);
    }

    /** The flow up to the browser: PKCE values, then the authorization URL. */
    method RequestAuthorization(input: FlowInput)
      returns (url: Option<string>, verifier: string, cidEnc: string, redirectEnc: string)
      requires Valid() && Sound(input)
      ensures IsCString(RedirectUri(loopbackPort)) && IsCString(SCOPE)
      ensures var announced := B64.UrlText(input.sha(B64.UrlText(input.raw)));
              url == if input.randomOk && PE.Fits(clientId, 512)
                     then Some(AuthUrl(clientId, loopbackPort, announced)) else None
      ensures url.Some? ==> verifier == B64.UrlText(input.raw) && |verifier| == 43
      ensures url.Some? ==> cidEnc == PE.Encode(clientId) && redirectEnc == PE.Encode(RedirectUri(loopbackPort))
    {
      RedirectShape(loopbackPort);
      ScopeShape();
      var v := new char[64];
      var c := new char[64];
      var made := MakePkce(input.randomOk, input.raw, input.sha, v, c);
      if !made {
        return None, [], [], [];
      }
      verifier := BufferText(v[..]);
      url, cidEnc, redirectEnc := BuildAuthUrl(clientId, loopbackPort, BufferText(c[..]));
    }

    /** The end of the flow: keep the refresh token that was granted and save the configuration. */
    method KeepToken(token: string, disk: SW.Disk) returns (ok: bool)
      requires Valid() && IsCString(token) && 0 < |token| < TOKEN_MAX
      modifies this`refreshToken, this`haveRefreshToken, disk
      ensures Valid() && refreshToken == token
      ensures Saved(disk.answer, old(disk.calls), old(disk.files), disk.files, ok)
    {
      refreshToken := token;
      haveRefreshToken := true;
      ok := Save(disk);
    }

    /** `oauth_run_auth_flow`: `url` is what the browser opens, `body` what the token endpoint receives. */
    method RunAuthFlow(input: FlowInput, disk: SW.Disk) returns (ok: bool, url: Option<string>, body: Option<string>)
      requires Valid() && Sound(input)
      modifies this`refreshToken, this`haveRefreshToken, disk
      ensures Valid()
      ensures IsCString(RedirectUri(loopbackPort)) && IsCString(SCOPE)
      ensures var verifier := B64.UrlText(input.raw);
              && url == (if input.randomOk && PE.Fits(clientId, 512)
                         then Some(AuthUrl(clientId, loopbackPort, B64.UrlText(input.sha(verifier)))) else None)
              && body == (if url.Some? && input.code.Some? && PE.Fits(input.code.value, 1024)
                             && PE.Fits(clientSecret, 256)
                          then Some(CodeBody(clientId, clientSecret, input.code.value, verifier, loopbackPort)) else None)
      ensures var granted := body.Some? && input.refreshReply.Some? && input.refreshReply.value != [];
              && refreshToken == (if granted then input.refreshReply.value else old(refreshToken))
              && (!granted ==> !ok && disk.files == old(disk.files) && disk.calls == old(disk.calls))
              && (granted ==> Saved(disk.answer, old(disk.calls), old(disk.files), disk.files, ok))
    {
      ok, body := false, None;
      var verifier, cidEnc, redirectEnc;
      url, verifier, cidEnc, redirectEnc := RequestAuthorization(input);
      if url.None? || input.code.None? {
        return;
      }
      body := BuildCodeBody(clientId, clientSecret, input.code.value, verifier, loopbackPort, cidEnc, redirectEnc);
      if body.None? || input.refreshReply.None? || input.refreshReply.value == [] {
        return;
      }
      ok := KeepToken(input.refreshReply.value, disk);
    }

    /** `oauth_get_access_token`, up to the request it posts. */
    method RefreshRequest() returns (body: Option<string>)
      requires Valid()
      ensures body == if haveRefreshToken && PE.Fits(clientId, 512) && PE.Fits(clientSecret, 256)
                         && PE.Fits(refreshToken, TOKEN_MAX + 64)
                      then Some(RefreshBody(clientId, clientSecret, refreshToken)) else None
    {
      if !haveRefreshToken {
        return None;
      }
      var cidEnc := EncodeInto(clientId, 512);
      if cidEnc.None? {
        return None;
      }
      var csEnc := EncodeInto(clientSecret, 256);
      if csEnc.None? {
        return None;
      }
      var tokenEnc := EncodeInto(refreshToken, TOKEN_MAX + 64);
      if tokenEnc.None? {
        return None;
      }
      RefreshBodyFits(clientId, clientSecret, refreshToken);
      body := FormatInto(Query(RefreshParams(REFRESH_GRANT, cidEnc.value, csEnc.value, tokenEnc.value)),
                         TOKEN_MAX + 1024);
    }
  }

  /** The first half of the flow: encode three texts and format the authorization URL. */
  method BuildAuthUrl(cid: string, port: nat, challenge: string)
    returns (url: Option<string>, cidEnc: string, redirectEnc: string)
    requires IsCString(cid) && port < 65536 && |challenge| == 43
    ensures IsCString(RedirectUri(port)) && IsCString(SCOPE)
    ensures url == if PE.Fits(cid, 512) then Some(AuthUrl(cid, port, challenge)) else None
    ensures url.Some? ==> cidEnc == PE.Encode(cid) && redirectEnc == PE.Encode(RedirectUri(port))
  {
    RedirectShape(port);
    ScopeShape();
    cidEnc, redirectEnc, url := [], [], None;
    var redirect := EncodeInto(RedirectUri(port), 256);
    if redirect.None? {
      return;
    }
    var scope := EncodeInto(SCOPE, 256);
    if scope.None? {
      return;
    }
    var client := EncodeInto(cid, 512);
    if client.None? {
      return;
    }
    cidEnc, redirectEnc := client.value, redirect.value;
    AuthUrlFits(cid, port, challenge);
    url := FormatInto(AUTH_ENDPOINT + "?" + Query(AuthParams(AUTH_OPTIONS, cidEnc, redirectEnc, scope.value, challenge)),
                      1024);
  }

  /** The second half: encode the code and the secret and format the code-exchange body. */
  method BuildCodeBody(cid: string, cs: string, code: string, verifier: string, port: nat,
                       cidEnc: string, redirectEnc: string)
    returns (body: Option<string>)
    requires IsCString(cid) && PE.Fits(cid, 512) && IsCString(cs) && IsCString(code)
    requires port < 65536 && |verifier| == 43
    requires IsCString(RedirectUri(port)) && cidEnc == PE.Encode(cid) && redirectEnc == PE.Encode(RedirectUri(port))
    ensures body == if PE.Fits(code, 1024) && PE.Fits(cs, 256)
                    then Some(CodeBody(cid, cs, code, verifier, port)) else None
  {
    var codeEnc := EncodeInto(code, 1024);
    if codeEnc.None? {
      return None;
    }
    var csEnc := EncodeInto(cs, 256);
    if csEnc.None? {
      return None;
    }
    CodeBodyFits(cid, cs, code, verifier, port);
    body := FormatInto(Query(CodeParams(CODE_GRANT, cidEnc, csEnc.value, codeEnc.value, verifier, redirectEnc)), 2048);
  }
}
