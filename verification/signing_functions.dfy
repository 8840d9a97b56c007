/** The signing functions of Signway's `SW1-HMAC-SHA256` scheme: the
    canonical forms of a request, the string to sign, the signing key, and the
    authorization query of a URL before its signature is added. */
module SigningFunctions {
  import opened Wrappers
  import opened ByteStrings
  import opened Seqs
  import opened Sorting
  import opened Strftime
  import opened Headers
  import Cgi
  import Uri
  import Crypto

  const ALGORITHM: Bytes := "SW1-HMAC-SHA256"
  const X_ALGORITHM: Bytes := "X-Sw-Algorithm"
  const X_CREDENTIAL: Bytes := "X-Sw-Credential"
  const X_DATE: Bytes := "X-Sw-Date"
  const X_EXPIRES: Bytes := "X-Sw-Expires"
  const X_SIGNED_HEADERS: Bytes := "X-Sw-SignedHeaders"
  const X_SIGNED_BODY: Bytes := "X-Sw-Body"
  const X_PROXY: Bytes := "X-Sw-Proxy"
  const X_SIGNATURE: Bytes := "X-Sw-Signature"

  const NEWLINE: Bytes := "\n"
  const SEMICOLON: Bytes := ";"
  const COLON: Bytes := ":"
  const SLASH: Bytes := "/"
  const QUESTION: Bytes := "?"
  const TRUE: Bytes := "true"
  const FALSE: Bytes := "false"

  // ---------------------------------------------------------------------
  // canonical URI

  /** `canonical_uri_string`: the path of the URL, which is empty or
      absolute and never holds the query. */
  function CanonicalUriString(url: Bytes): (r: Result<Bytes>)
    ensures r.Failure? <==> Uri.Parse(url).Failure?
    ensures r.Success? ==> (r.value == [] || r.value[0] == '/') && NoneOf(r.value, Uri.IsQueryMark)
  {
    var u :- Uri.Parse(url);
    Success(u.path)
  }

  /** The canonical URI of a URL is its path component. */
  lemma CanonicalUriOf(u: Uri.Url)
    requires Uri.WellFormed(u)
    ensures CanonicalUriString(Uri.ToString(u)) == Success(u.path)
  {
    Uri.ParseToString(u);
  }

  // ---------------------------------------------------------------------
  // canonical query

  /** `"#{CGI.escape(k)}=#{CGI.escape(v)}"`. */
  function Token(kv: (Bytes, Bytes)): Bytes {
    Cgi.Assignment((Cgi.Escape(kv.0), Cgi.Escape(kv.1)))
  }

  /** One token per value of the params, sorted bytewise, joined with `&`. */
  function CanonicalQuery(ps: Cgi.Params): Bytes {
    Join(Sort(Map(Token, Cgi.ParamPairs(ps))), Cgi.AMPERSAND)
  }

  /** `canonical_query_string`: the canonical form of the URL's query, read
      as the empty query when the URL has none. */
  function CanonicalQueryString(url: Bytes): (r: Result<Bytes>)
    ensures r.Failure? <==> Uri.Parse(url).Failure?
  {
    var u :- Uri.Parse(url);
    Success(CanonicalQuery(Cgi.Parse(u.query.GetOr([]))))
  }

  /** Grouping by key is invisible in the canonical query: it holds one token
      for each (key, value) pair of the query, in sorted order. */
  lemma CanonicalQueryOfPairs(pairs: seq<(Bytes, Option<Bytes>)>)
    ensures CanonicalQuery(Cgi.Group(pairs)) == Join(Sort(Map(Token, Cgi.Valued(pairs))), Cgi.AMPERSAND)
  {
    var grouped := Cgi.ParamPairs(Cgi.Group(pairs));
    Cgi.GroupKeepsValues(pairs);
    MapPermutation(Token, grouped, Cgi.Valued(pairs));
    SortPermutationInvariant(Map(Token, grouped), Map(Token, Cgi.Valued(pairs)));
  }

  /** Hence two queries holding the same (key, value) pairs, in any order,
      have the same canonical form. */
  lemma QueryOrderIrrelevant(a: seq<(Bytes, Option<Bytes>)>, b: seq<(Bytes, Option<Bytes>)>)
    requires multiset(Cgi.Valued(a)) == multiset(Cgi.Valued(b))
    ensures CanonicalQuery(Cgi.Group(a)) == CanonicalQuery(Cgi.Group(b))
  {
    CanonicalQueryOfPairs(a);
    CanonicalQueryOfPairs(b);
    MapPermutation(Token, Cgi.Valued(a), Cgi.Valued(b));
    SortPermutationInvariant(Map(Token, Cgi.Valued(a)), Map(Token, Cgi.Valued(b)));
  }

  /** A URL without a query, or with an empty one, has the empty canonical
      query. */
  lemma CanonicalQueryWithoutQuery(u: Uri.Url)
    requires Uri.WellFormed(u) && (u.query.None? || u.query == Some([]))
    ensures CanonicalQueryString(Uri.ToString(u)) == Success([])
  {
    Uri.ParseToString(u);
    assert Split([], Cgi.IsPairSeparator) == [[]];
  }

  /** A value that escaping its unescaped form gives back. */
  predicate Reescapes(v: Bytes) {
    Cgi.Escape(Cgi.Unescape(v)) == v
  }

  lemma EscapedReescapes(s: Bytes)
    ensures Cgi.AllEscapedBytes(Cgi.Escape(s)) && Reescapes(Cgi.Escape(s))
  {
    Cgi.UnescapeEscape(s);
  }

  lemma UnreservedReescapes(s: Bytes)
    requires Cgi.AllUnreserved(s)
    ensures Cgi.AllEscapedBytes(s) && Reescapes(s)
  {
    Cgi.UnreservedFixed(s);
  }

  /** The canonical form of a query written as escaped assignments with
      distinct names is those assignments, sorted. */
  lemma CanonicalQueryOfAssignments(ps: seq<(Bytes, Bytes)>)
    requires |ps| >= 1
    requires forall i :: 0 <= i < |ps| ==> Cgi.WellEscaped(ps[i]) && Reescapes(ps[i].1)
    requires Cgi.DistinctNames(ps)
    ensures CanonicalQuery(Cgi.Parse(Join(Map(Cgi.Assignment, ps), Cgi.AMPERSAND)))
         == Join(Sort(Map(Cgi.Assignment, ps)), Cgi.AMPERSAND)
  {
    var query := Join(Map(Cgi.Assignment, ps), Cgi.AMPERSAND);
    Cgi.ParseAssignments(ps);
    assert Cgi.Parse(query) == Map(Cgi.Decoded, ps);
    Cgi.ParamPairsDecoded(ps);
    TokensOfOpened(ps);
  }

  lemma TokensOfOpened(ps: seq<(Bytes, Bytes)>)
    requires forall i :: 0 <= i < |ps| ==> Cgi.WellEscaped(ps[i]) && Reescapes(ps[i].1)
    ensures Map(Token, Map(Cgi.Opened, ps)) == Map(Cgi.Assignment, ps)
  {
    var a, b := Map(Token, Map(Cgi.Opened, ps)), Map(Cgi.Assignment, ps);
    forall i | 0 <= i < |ps| ensures a[i] == b[i] {
      Cgi.UnreservedFixed(ps[i].0);
      assert Map(Cgi.Opened, ps)[i] == Cgi.Opened(ps[i]);
    }
  }

  // ---------------------------------------------------------------------
  // canonical headers

  /** `"#{k.to_s.downcase}:#{v.strip}"`. */
  function HeaderLine(h: (Bytes, Bytes)): Bytes {
    Downcase(h.0) + COLON + Strip(h.1)
  }

  /** `k.to_s.downcase`. */
  function LowerName(h: (Bytes, Bytes)): Bytes {
    Downcase(h.0)
  }

  /** `canonical_header_string`. */
  function CanonicalHeaderString(hs: Entries): Bytes {
    Join(Sort(Map(HeaderLine, hs)), NEWLINE)
  }

  /** `signed_header_string`. */
  function SignedHeaderString(hs: Entries): Bytes {
    Join(Sort(Map(LowerName, hs)), SEMICOLON)
  }

  /** Both header strings are blind to the order of the headers. */
  lemma HeaderOrderIrrelevant(hs: Entries, gs: Entries)
    requires multiset(hs) == multiset(gs)
    ensures CanonicalHeaderString(hs) == CanonicalHeaderString(gs)
    ensures SignedHeaderString(hs) == SignedHeaderString(gs)
  {
    MapPermutation(HeaderLine, hs, gs);
    SortPermutationInvariant(Map(HeaderLine, hs), Map(HeaderLine, gs));
    MapPermutation(LowerName, hs, gs);
    SortPermutationInvariant(Map(LowerName, hs), Map(LowerName, gs));
  }

  lemma DowncaseKeepsColonFree(s: Bytes)
    requires NoneOf(s, IsColon)
    ensures NoneOf(Downcase(s), IsColon)
  {
  }

  lemma DowncaseKeepsSemicolonFree(s: Bytes)
    requires NoneOf(s, IsSemicolon)
    ensures NoneOf(Downcase(s), IsSemicolon)
  {
  }

  /** Every element of the sorted list comes from the list. */
  lemma SortedFrom(s: seq<Bytes>, k: nat)
    requires k < |Sort(s)|
    ensures Sort(s)[k] in s
  {
    assert Sort(s)[k] in multiset(Sort(s));
  }

  /** For header names without `;`, the signed header string splits at `;`
      back into the sorted lower-cased names, one field for each header; no
      headers give the empty string. */
  lemma SignedHeaderFields(hs: Entries)
    requires forall i :: 0 <= i < |hs| ==> NoneOf(hs[i].0, IsSemicolon)
    ensures |Sort(Map(LowerName, hs))| == |hs|
    ensures hs == [] ==> SignedHeaderString(hs) == []
    ensures hs != [] ==> Split(SignedHeaderString(hs), IsSemicolon) == Sort(Map(LowerName, hs))
  {
    var names := Map(LowerName, hs);
    var sorted := Sort(names);
    assert |sorted| == |multiset(sorted)| == |multiset(names)| == |names|;
    forall k | 0 <= k < |sorted| ensures NoneOf(sorted[k], IsSemicolon) {
      SortedFrom(names, k);
      var i :| 0 <= i < |names| && names[i] == sorted[k];
      DowncaseKeepsSemicolonFree(hs[i].0);
    }
    if hs != [] {
      SplitJoin(sorted, SEMICOLON, IsSemicolon);
    }
  }

  /** A line `name:value` with a name free of `:` splits back at its first
      `:` into the name and the value. */
  lemma ColonLineDetermines(na: Bytes, va: Bytes, nb: Bytes, vb: Bytes)
    requires NoneOf(na, IsColon) && NoneOf(nb, IsColon)
    ensures na + COLON + va == nb + COLON + vb <==> na == nb && va == vb
  {
    var ra, rb := COLON + va, COLON + vb;
    assert na + COLON + va == na + ra && nb + COLON + vb == nb + rb;
    CutOf(na, ra, IsColon);
    CutOf(nb, rb, IsColon);
    assert ra[1..] == va && rb[1..] == vb;
  }

  /** For names without `:`, two headers give the same line exactly when
      their names agree up to ASCII case and their values up to the white
      space around them. */
  lemma HeaderLineDetermines(a: (Bytes, Bytes), b: (Bytes, Bytes))
    requires NoneOf(a.0, IsColon) && NoneOf(b.0, IsColon)
    ensures HeaderLine(a) == HeaderLine(b) <==> Downcase(a.0) == Downcase(b.0) && Strip(a.1) == Strip(b.1)
  {
    DowncaseKeepsColonFree(a.0);
    DowncaseKeepsColonFree(b.0);
    ColonLineDetermines(Downcase(a.0), Strip(a.1), Downcase(b.0), Strip(b.1));
  }

  // ---------------------------------------------------------------------
  // canonical request

  /** The seven lines of a canonical request; the headers are followed by a
      blank line. */
  function RequestLines(verb: Bytes, path: Bytes, query: Bytes, headers: Bytes, signed: Bytes, body: Bytes): Bytes {
    verb + NEWLINE + path + NEWLINE + query + NEWLINE + headers + NEWLINE + NEWLINE + signed + NEWLINE + body
  }

  /** `canonical_request`: fails exactly when the URL cannot be parsed. */
  function CanonicalRequest(verb: Bytes, url: Bytes, hs: Entries, body: Bytes): (r: Result<Bytes>)
    ensures r.Failure? <==> Uri.Parse(url).Failure?
  {
    var path := CanonicalUriString(url);
    var query := CanonicalQueryString(url);
    if path.Failure? || query.Failure? then Failure(InvalidInput)
    else Success(RequestLines(verb, path.value, query.value, CanonicalHeaderString(hs), SignedHeaderString(hs), body))
  }

  /** The request is blind to the order of the headers. */
  lemma CanonicalRequestHeaderOrder(verb: Bytes, url: Bytes, hs: Entries, gs: Entries, body: Bytes)
    requires multiset(hs) == multiset(gs)
    ensures CanonicalRequest(verb, url, hs, body) == CanonicalRequest(verb, url, gs, body)
  {
    HeaderOrderIrrelevant(hs, gs);
  }

  /** The body is the request's last line, verbatim: with everything else
      fixed, two bodies give the same request only if they are equal. */
  lemma CanonicalRequestBody(verb: Bytes, url: Bytes, hs: Entries, b1: Bytes, b2: Bytes)
    requires Uri.Parse(url).Success?
    ensures CanonicalRequest(verb, url, hs, b1) == CanonicalRequest(verb, url, hs, b2) <==> b1 == b2
  {
    var r1, r2 := CanonicalRequest(verb, url, hs, b1).value, CanonicalRequest(verb, url, hs, b2).value;
    var path := CanonicalUriString(url).value;
    var query := CanonicalQueryString(url).value;
    var prefix := verb + NEWLINE + path + NEWLINE + query + NEWLINE + CanonicalHeaderString(hs)
      + NEWLINE + NEWLINE + SignedHeaderString(hs) + NEWLINE;
    assert r1 == prefix + b1 && r2 == prefix + b2;
    if r1 == r2 {
      assert b1 == r1[|prefix|..] && b2 == r2[|prefix|..];
    }
  }

  // ---------------------------------------------------------------------
  // string to sign and signing key

  /** `scope_string`. */
  function ScopeString(dt: Timestamp): Bytes {
    ShortDate(dt)
  }

  /** `string_to_sign`. */
  function StringToSign(p: Crypto.Primitives, dt: Timestamp, creq: Bytes): Bytes {
    ALGORITHM + NEWLINE + LongDate(dt) + NEWLINE + ScopeString(dt) + NEWLINE + Crypto.HexDigest(p, creq)
  }

  /** In four-digit years the string to sign is 106 bytes, with the
      algorithm, the long date, the scope and the 64-digit digest of the
      canonical request at fixed offsets; so equal strings to sign mean equal
      dates and equal digests. */
  lemma StringToSignLayout(p: Crypto.Primitives, dt: Timestamp, creq: Bytes)
    requires p.Valid() && InFourDigitYears(dt)
    ensures var s := StringToSign(p, dt, creq);
      && |s| == 106
      && s[..15] == ALGORITHM && s[15] == '\n'
      && s[16..32] == LongDate(dt) && s[32] == '\n'
      && s[33..41] == ScopeString(dt) && s[41] == '\n'
      && s[42..] == Crypto.HexDigest(p, creq)
  {
    DateShapes(dt);
    Crypto.HexDigestShapes(p, [], creq);
    LinesLayout(ALGORITHM, LongDate(dt), ScopeString(dt), Crypto.HexDigest(p, creq));
  }

  lemma LinesLayout(a: Bytes, b: Bytes, c: Bytes, d: Bytes)
    requires |a| == 15 && |b| == 16 && |c| == 8 && |d| == 64
    ensures var s := a + NEWLINE + b + NEWLINE + c + NEWLINE + d;
      && |s| == 106
      && s[..15] == a && s[15] == '\n'
      && s[16..32] == b && s[32] == '\n'
      && s[33..41] == c && s[41] == '\n'
      && s[42..] == d
  {
    var s := a + NEWLINE + b + NEWLINE + c + NEWLINE + d;
    var x := a + NEWLINE;
    var y := x + b + NEWLINE;
    var z := y + c + NEWLINE;
    assert s == z + d;
    assert s[..15] == x[..15] && s[16..32] == y[16..32] && s[33..41] == z[33..41];
  }

  /** `signing_key`: the HMAC of the short date under the algorithm name
      followed by the secret. */
  function SigningKey(p: Crypto.Primitives, dt: Timestamp, secret: Bytes): Bytes {
    p.hmacSha256(ALGORITHM + secret, ShortDate(dt))
  }

  /** The signing key changes only with the calendar day. */
  lemma SigningKeyPerDay(p: Crypto.Primitives, a: Timestamp, b: Timestamp, secret: Bytes)
    requires a.Day() == b.Day()
    ensures SigningKey(p, a, secret) == SigningKey(p, b, secret)
  {
    assert ShortDate(a) == ShortDate(b);
  }

  // ---------------------------------------------------------------------
  // authorization query

  /** The authorization parameters under their names, in the order they are
      written. */
  function Authorization(algorithm: Bytes, credential: Bytes, date: Bytes, expires: Bytes, proxy: Bytes,
                         signedHeaders: Bytes, signedBody: Bytes): seq<(Bytes, Bytes)>
  {
    [ (X_ALGORITHM, algorithm),
      (X_CREDENTIAL, credential),
      (X_DATE, date),
      (X_EXPIRES, expires),
      (X_PROXY, proxy),
      (X_SIGNED_HEADERS, signedHeaders),
      (X_SIGNED_BODY, signedBody) ]
  }

  /** The seven parameters of the authorization query, as written into the
      URL: the credential, proxy URL and signed headers escaped, the others
      verbatim. */
  function AuthParams(accessKey: Bytes, dt: Timestamp, expires: int, proxyUrl: Bytes, signedHeaders: Bytes, signBody: bool)
    : seq<(Bytes, Bytes)>
  {
    Authorization(ALGORITHM, Cgi.Escape(accessKey + SLASH + ScopeString(dt)), LongDate(dt), IntToDecimal(expires),
      Cgi.Escape(proxyUrl), Cgi.Escape(signedHeaders), if signBody then TRUE else FALSE)
  }

  /** What `CGI.parse` reads from the authorization query: each parameter with
      its value before escaping. */
  function SentParams(accessKey: Bytes, dt: Timestamp, expires: int, proxyUrl: Bytes, signedHeaders: Bytes, signBody: bool)
    : Cgi.Params
  {
    [ (X_ALGORITHM, [ALGORITHM]),
      (X_CREDENTIAL, [accessKey + SLASH + ScopeString(dt)]),
      (X_DATE, [LongDate(dt)]),
      (X_EXPIRES, [IntToDecimal(expires)]),
      (X_PROXY, [proxyUrl]),
      (X_SIGNED_HEADERS, [signedHeaders]),
      (X_SIGNED_BODY, [if signBody then TRUE else FALSE]) ]
  }

  /** `authorization_query_params_no_sig`: `?` and the seven assignments
      joined with `&`; it fails exactly when the proxy URL cannot be parsed,
      and otherwise embeds the proxy URL as given. */
  function AuthorizationQueryParamsNoSig(accessKey: Bytes, dt: Timestamp, expires: int, proxyUrl: Bytes,
                                         customHeaders: Entries, signBody: bool): (r: Result<Bytes>)
    ensures r.Failure? <==> Uri.Parse(proxyUrl).Failure?
    ensures r.Success? ==> r.value == QUESTION + Join(Map(Cgi.Assignment,
      AuthParams(accessKey, dt, expires, proxyUrl, SignedHeaderString(customHeaders), signBody)), Cgi.AMPERSAND)
  {
    var credentials := accessKey + SLASH + ScopeString(dt);
    var signedHeaders := SignedHeaderString(customHeaders);
    var parsed :- Uri.Parse(proxyUrl);
    var params := AuthParams(accessKey, dt, expires, Uri.ToString(parsed), signedHeaders, signBody);
    Success(QUESTION + Join(Map(Cgi.Assignment, params), Cgi.AMPERSAND))
  }

  lemma NamesUnreserved()
    ensures Cgi.AllUnreserved(X_ALGORITHM) && Cgi.AllUnreserved(X_CREDENTIAL) && Cgi.AllUnreserved(X_DATE)
    ensures Cgi.AllUnreserved(X_EXPIRES) && Cgi.AllUnreserved(X_PROXY) && Cgi.AllUnreserved(X_SIGNED_HEADERS)
    ensures Cgi.AllUnreserved(X_SIGNED_BODY) && Cgi.AllUnreserved(X_SIGNATURE)
  {
  }

  lemma FixedValuesUnreserved(expires: int)
    ensures Cgi.AllUnreserved(ALGORITHM) && Cgi.AllUnreserved(TRUE) && Cgi.AllUnreserved(FALSE)
    ensures Cgi.AllUnreserved(IntToDecimal(expires))
  {
  }

  lemma DateBytesUnreserved(s: Bytes)
    requires Every(s, IsDateByte)
    ensures Cgi.AllUnreserved(s)
  {
  }

  lemma LongDateUnreserved(dt: Timestamp)
    ensures Cgi.AllUnreserved(LongDate(dt))
  {
    LongDateBytes(dt);
    DateBytesUnreserved(LongDate(dt));
  }

  /** The parameter names in the order they are written, the signature's
      last. */
  function ParamNames(): seq<Bytes> {
    [X_ALGORITHM, X_CREDENTIAL, X_DATE, X_EXPIRES, X_PROXY, X_SIGNED_HEADERS, X_SIGNED_BODY, X_SIGNATURE]
  }

  /** No two parameter names are equal. */
  lemma NamesDistinct()
    ensures Cgi.Distinct(ParamNames())
  {
    assert X_ALGORITHM[5] != X_SIGNATURE[5];
    assert X_DATE[5] != X_SIGNED_BODY[5];
  }

  /** Whatever their values, the parameters are written under the names of
      `ParamNames`, in order, and so no name repeats. */
  lemma AuthorizationNames(v0: Bytes, v1: Bytes, v2: Bytes, v3: Bytes, v4: Bytes, v5: Bytes, v6: Bytes)
    ensures var ps := Authorization(v0, v1, v2, v3, v4, v5, v6);
      && |ps| == 7 && (forall i :: 0 <= i < 7 ==> ps[i].0 == ParamNames()[i])
      && Cgi.DistinctNames(ps)
  {
    var ps := Authorization(v0, v1, v2, v3, v4, v5, v6);
    var names := ParamNames();
    assert ps[0].0 == names[0] && ps[1].0 == names[1] && ps[2].0 == names[2] && ps[3].0 == names[3];
    assert ps[4].0 == names[4] && ps[5].0 == names[5] && ps[6].0 == names[6];
    NamesDistinct();
    SameNamesDistinct(ps, names);
  }

  predicate EscapedValue(v: Bytes) {
    Cgi.AllEscapedBytes(v) && Reescapes(v)
  }

  /** Parameters whose values are well escaped are well-escaped assignments. */
  lemma AuthorizationWellEscaped(v0: Bytes, v1: Bytes, v2: Bytes, v3: Bytes, v4: Bytes, v5: Bytes, v6: Bytes)
    requires EscapedValue(v0) && EscapedValue(v1) && EscapedValue(v2) && EscapedValue(v3)
    requires EscapedValue(v4) && EscapedValue(v5) && EscapedValue(v6)
    ensures var ps := Authorization(v0, v1, v2, v3, v4, v5, v6);
      forall i :: 0 <= i < |ps| ==> Cgi.WellEscaped(ps[i]) && Reescapes(ps[i].1)
  {
    var ps := Authorization(v0, v1, v2, v3, v4, v5, v6);
    NamesUnreserved();
    assert ps[0].1 == v0 && ps[1].1 == v1 && ps[2].1 == v2 && ps[3].1 == v3;
    assert ps[4].1 == v4 && ps[5].1 == v5 && ps[6].1 == v6;
  }

  /** Every parameter is a well-escaped assignment that survives a second
      canonicalisation, and no name repeats. */
  lemma AuthParamsWellEscaped(accessKey: Bytes, dt: Timestamp, expires: int, proxyUrl: Bytes, signedHeaders: Bytes, signBody: bool)
    ensures var ps := AuthParams(accessKey, dt, expires, proxyUrl, signedHeaders, signBody);
      && |ps| == 7
      && (forall i :: 0 <= i < |ps| ==> Cgi.WellEscaped(ps[i]) && Reescapes(ps[i].1))
      && Cgi.DistinctNames(ps)
  {
    var credential := Cgi.Escape(accessKey + SLASH + ScopeString(dt));
    var flag := if signBody then TRUE else FALSE;
    FixedValuesUnreserved(expires);
    LongDateUnreserved(dt);
    UnreservedReescapes(ALGORITHM);
    EscapedReescapes(accessKey + SLASH + ScopeString(dt));
    UnreservedReescapes(LongDate(dt));
    UnreservedReescapes(IntToDecimal(expires));
    EscapedReescapes(proxyUrl);
    EscapedReescapes(signedHeaders);
    UnreservedReescapes(flag);
    AuthorizationNames(ALGORITHM, credential, LongDate(dt), IntToDecimal(expires),
      Cgi.Escape(proxyUrl), Cgi.Escape(signedHeaders), flag);
    AuthorizationWellEscaped(ALGORITHM, credential, LongDate(dt), IntToDecimal(expires),
      Cgi.Escape(proxyUrl), Cgi.Escape(signedHeaders), flag);
  }

  /** The parameters are written under the names of `ParamNames`, in
      order. */
  lemma AuthParamsNames(accessKey: Bytes, dt: Timestamp, expires: int, proxyUrl: Bytes, signedHeaders: Bytes, signBody: bool)
    ensures var ps := AuthParams(accessKey, dt, expires, proxyUrl, signedHeaders, signBody);
      |ps| == 7 && forall i :: 0 <= i < 7 ==> ps[i].0 == ParamNames()[i]
  {
    AuthorizationNames(ALGORITHM, Cgi.Escape(accessKey + SLASH + ScopeString(dt)), LongDate(dt), IntToDecimal(expires),
      Cgi.Escape(proxyUrl), Cgi.Escape(signedHeaders), if signBody then TRUE else FALSE);
  }

  /** A sequence named, position by position, like a prefix of one whose
      names are distinct has distinct names too. */
  lemma SameNamesDistinct(ps: seq<(Bytes, Bytes)>, names: seq<Bytes>)
    requires |ps| <= |names| && forall i :: 0 <= i < |ps| ==> ps[i].0 == names[i]
    requires Cgi.Distinct(names)
    ensures Cgi.DistinctNames(ps)
  {
    forall i, j | 0 <= i < j < |ps| ensures ps[i].0 != ps[j].0 {
      assert ps[i].0 == names[i] && ps[j].0 == names[j];
    }
  }

  lemma DecodedUnreserved(name: Bytes, value: Bytes)
    requires Cgi.AllUnreserved(value)
    ensures Cgi.Decoded((name, value)) == (name, [value])
  {
    Cgi.UnreservedFixed(value);
  }

  lemma DecodedEscaped(name: Bytes, value: Bytes)
    ensures Cgi.Decoded((name, Cgi.Escape(value))) == (name, [value])
  {
    Cgi.UnescapeEscape(value);
  }

  lemma MapSeven<A, B>(f: A -> B, a0: A, a1: A, a2: A, a3: A, a4: A, a5: A, a6: A)
    ensures Map(f, [a0, a1, a2, a3, a4, a5, a6]) == [f(a0), f(a1), f(a2), f(a3), f(a4), f(a5), f(a6)]
  {
    MapPointwise(f, [a0, a1, a2, a3, a4, a5, a6], [f(a0), f(a1), f(a2), f(a3), f(a4), f(a5), f(a6)]);
  }

  /** Unescaping the written values gives the values sent. */
  lemma DecodedAuthParams(accessKey: Bytes, dt: Timestamp, expires: int, proxyUrl: Bytes, signedHeaders: Bytes, signBody: bool)
    ensures Map(Cgi.Decoded, AuthParams(accessKey, dt, expires, proxyUrl, signedHeaders, signBody))
         == SentParams(accessKey, dt, expires, proxyUrl, signedHeaders, signBody)
  {
    var flag := if signBody then TRUE else FALSE;
    var credential := accessKey + SLASH + ScopeString(dt);
    var p0, p1, p2 := (X_ALGORITHM, ALGORITHM), (X_CREDENTIAL, Cgi.Escape(credential)), (X_DATE, LongDate(dt));
    var p3, p4 := (X_EXPIRES, IntToDecimal(expires)), (X_PROXY, Cgi.Escape(proxyUrl));
    var p5, p6 := (X_SIGNED_HEADERS, Cgi.Escape(signedHeaders)), (X_SIGNED_BODY, flag);
    assert AuthParams(accessKey, dt, expires, proxyUrl, signedHeaders, signBody) == [p0, p1, p2, p3, p4, p5, p6];
    MapSeven(Cgi.Decoded, p0, p1, p2, p3, p4, p5, p6);
    FixedValuesUnreserved(expires);
    LongDateUnreserved(dt);
    DecodedUnreserved(X_ALGORITHM, ALGORITHM);
    DecodedEscaped(X_CREDENTIAL, credential);
    DecodedUnreserved(X_DATE, LongDate(dt));
    DecodedUnreserved(X_EXPIRES, IntToDecimal(expires));
    DecodedEscaped(X_PROXY, proxyUrl);
    DecodedEscaped(X_SIGNED_HEADERS, signedHeaders);
    DecodedUnreserved(X_SIGNED_BODY, flag);
  }

  /** `CGI.parse` of the authorization query reads back every parameter with
      the value it had before escaping: the credential, the proxy URL and the
      signed headers travel intact. */
  lemma AuthQueryReadsBack(accessKey: Bytes, dt: Timestamp, expires: int, proxyUrl: Bytes, signedHeaders: Bytes, signBody: bool)
    ensures Cgi.Parse(Join(Map(Cgi.Assignment, AuthParams(accessKey, dt, expires, proxyUrl, signedHeaders, signBody)), Cgi.AMPERSAND))
         == SentParams(accessKey, dt, expires, proxyUrl, signedHeaders, signBody)
  {
    var ps := AuthParams(accessKey, dt, expires, proxyUrl, signedHeaders, signBody);
    AuthParamsWellEscaped(accessKey, dt, expires, proxyUrl, signedHeaders, signBody);
    Cgi.ParseAssignments(ps);
    DecodedAuthParams(accessKey, dt, expires, proxyUrl, signedHeaders, signBody);
  }

  /** A query of well-escaped assignments is made of URI characters. */
  lemma AssignmentsUrlBytes(ps: seq<(Bytes, Bytes)>)
    requires forall i :: 0 <= i < |ps| ==> Cgi.WellEscaped(ps[i])
    ensures Uri.AllUrlBytes(Join(Map(Cgi.Assignment, ps), Cgi.AMPERSAND))
  {
    var parts := Map(Cgi.Assignment, ps);
    forall k | 0 <= k < |parts| ensures Every(parts[k], Uri.IsUrlByte) {
      var name, value := ps[k].0, ps[k].1;
      var equals := Cgi.EQUALS;
      assert Every(name, Uri.IsUrlByte) && Every(value, Uri.IsUrlByte) && Every(equals, Uri.IsUrlByte);
      EveryAppend(name, equals, Uri.IsUrlByte);
      EveryAppend(name + equals, value, Uri.IsUrlByte);
    }
    assert Every(Cgi.AMPERSAND, Uri.IsUrlByte);
    EveryJoin(parts, Cgi.AMPERSAND, Uri.IsUrlByte);
  }

  /** A URL without a query, followed by `?` and well-escaped assignments,
      parses to that URL with those assignments as its query. */
  lemma UrlWithAssignments(u: Uri.Url, ps: seq<(Bytes, Bytes)>)
    requires Uri.WellFormed(u) && u.query.None?
    requires forall i :: 0 <= i < |ps| ==> Cgi.WellEscaped(ps[i])
    ensures var q := Join(Map(Cgi.Assignment, ps), Cgi.AMPERSAND);
      Uri.Parse(Uri.ToString(u) + QUESTION + q) == Success(u.(query := Some(q)))
  {
    AssignmentsUrlBytes(ps);
    Uri.ParseWithQuery(u, Join(Map(Cgi.Assignment, ps), Cgi.AMPERSAND));
  }
}
