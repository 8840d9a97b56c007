/** `SignwaySdk.sign_url`: the signed URL for a request to `host` through
    the proxy at `proxy_url`. The caller's headers hash gains a
    `Content-Length` entry when the body is not empty, before anything can
    fail. The current time and the digest algorithms come in as parameters. */
module SignwaySdk {
  import opened Wrappers
  import opened ByteStrings
  import opened Seqs
  import opened Sorting
  import opened Strftime
  import opened Headers
  import opened SigningFunctions
  import Cgi
  import Uri
  import Crypto

  const CONTENT_LENGTH: Bytes := "Content-Length"

  // ---------------------------------------------------------------------
  // host

  /** `host.end_with?("/") ? host : "#{host}/"`: the shortest extension of
      the host that ends with `/`. */
  function NormalizeHost(host: Bytes): (r: Bytes)
    ensures StartsWith(r, host) && EndsWith(r, SLASH)
    ensures |r| <= |host| + 1
    ensures EndsWith(host, SLASH) ==> r == host
  {
    if EndsWith(host, SLASH) then host else host + SLASH
  }

  lemma NormalizeHostIdempotent(host: Bytes)
    ensures NormalizeHost(NormalizeHost(host)) == NormalizeHost(host)
  {
  }

  /** A host and the same host with a `/` added sign alike exactly when the
      host does not already end with `/`. */
  lemma NormalizeHostTrailingSlash(host: Bytes)
    ensures NormalizeHost(host) == NormalizeHost(host + SLASH) <==> !EndsWith(host, SLASH)
  {
    var h := host + SLASH;
    assert EndsWith(h, SLASH);
  }

  /** The URL the normalized host denotes. */
  function BaseUrl(host: Bytes): Result<Uri.Url> {
    Uri.Parse(NormalizeHost(host))
  }

  /** A host the query can be appended to: a URL without a query of its own. */
  predicate IsBaseHost(host: Bytes) {
    BaseUrl(host).Success? && BaseUrl(host).value.query.None?
  }

  // ---------------------------------------------------------------------
  // content length

  /** `headers["Content-Length"] = body.bytesize.to_s unless body.empty?`. */
  function WithContentLength(es: Entries, body: Bytes): (r: Entries)
    ensures DistinctKeys(es) ==> DistinctKeys(r)
    ensures body == [] ==> r == es
    ensures body != [] ==> Get(r, CONTENT_LENGTH) == Some(NatToDecimal(|body|))
    ensures forall k :: k != CONTENT_LENGTH ==> Get(r, k) == Get(es, k)
  {
    if body == [] then es else Put(es, CONTENT_LENGTH, NatToDecimal(|body|))
  }

  // ---------------------------------------------------------------------
  // the signed URL

  /** The URL before its signature: the normalized host and the
      authorization query. */
  function UnsignedUrl(id: Bytes, host: Bytes, proxyUrl: Bytes, expiry: int, es: Entries, body: Bytes, dt: Timestamp)
    : (r: Result<Bytes>)
    ensures r.Failure? <==> Uri.Parse(proxyUrl).Failure?
  {
    var query :- AuthorizationQueryParamsNoSig(id, dt, expiry, proxyUrl, es, body != []);
    Success(NormalizeHost(host) + query)
  }

  /** `OpenSSL::HMAC.hexdigest("sha256", signing_key, to_sign)`. */
  function Signature(p: Crypto.Primitives, secret: Bytes, dt: Timestamp, creq: Bytes): (sig: Bytes)
    ensures Crypto.AllLowerHex(sig)
    ensures p.Valid() ==> |sig| == 64
  {
    Crypto.HmacHexDigest(p, SigningKey(p, dt, secret), StringToSign(p, dt, creq))
  }

  /** What `sign_url` returns, given the headers after `Content-Length` is
      stored and the date it signs with: it fails exactly when the proxy URL
      or the unsigned URL cannot be parsed. */
  function SignedUrl(p: Crypto.Primitives, id: Bytes, secret: Bytes, host: Bytes, proxyUrl: Bytes, expiry: int,
                     verb: Bytes, es: Entries, body: Bytes, dt: Timestamp): (r: Result<Bytes>)
    ensures r.Failure? <==> (Uri.Parse(proxyUrl).Failure?
      || Uri.Parse(UnsignedUrl(id, host, proxyUrl, expiry, es, body, dt).value).Failure?)
  {
    var unsigned :- UnsignedUrl(id, host, proxyUrl, expiry, es, body, dt);
    var creq :- CanonicalRequest(verb, unsigned, es, body);
    Success(unsigned + Cgi.AMPERSAND + Cgi.Assignment((X_SIGNATURE, Signature(p, secret, dt, creq))))
  }

  /** `sign_url`. The date is the override when one is given and the clock's
      reading (in UTC) otherwise. */
  method SignUrl(p: Crypto.Primitives, id: Bytes, secret: Bytes, host: Bytes, proxyUrl: Bytes, expiry: int, verb: Bytes,
                 headers: HeaderHash?, body: Bytes, datetimeOverride: Option<Timestamp>, clockUtc: Timestamp)
    returns (r: Result<Bytes>)
    requires headers != null ==> headers.Valid()
    modifies headers
    ensures headers != null ==> headers.Valid() && headers.entries == WithContentLength(old(headers.entries), body)
    ensures r == SignedUrl(p, id, secret, host, proxyUrl, expiry, verb,
      WithContentLength(if headers != null then old(headers.entries) else [], body), body, datetimeOverride.GetOr(clockUtc))
  {
    var normalized := NormalizeHost(host);
    var dt := datetimeOverride.GetOr(clockUtc);
    var hs := headers;
    if hs == null {
      hs := new HeaderHash();
    }
    if body != [] {
      hs.Store(CONTENT_LENGTH, NatToDecimal(|body|));
    }
    var query :- AuthorizationQueryParamsNoSig(id, dt, expiry, proxyUrl, hs.entries, body != []);
    var unsignedUrl := normalized + query;
    var canonicalReq :- CanonicalRequest(verb, unsignedUrl, hs.entries, body);
    var toSign := StringToSign(p, dt, canonicalReq);
    var signingKey := SigningKey(p, dt, secret);
    var signature := Crypto.HmacHexDigest(p, signingKey, toSign);
    r := Success(unsignedUrl + Cgi.AMPERSAND + Cgi.Assignment((X_SIGNATURE, signature)));
  }

  // ---------------------------------------------------------------------
  // what the signed URL carries

  /** What a recipient reads from a URL's query with `CGI.parse`. */
  function ReadParams(url: Bytes): Option<Cgi.Params> {
    var r := Uri.Parse(url);
    if r.Success? && r.value.query.Some? then Some(Cgi.Parse(r.value.query.value)) else None
  }

  /** The authorization query after its `?`. */
  function AuthQuery(id: Bytes, proxyUrl: Bytes, expiry: int, es: Entries, body: Bytes, dt: Timestamp): Bytes {
    Join(Map(Cgi.Assignment, AuthParams(id, dt, expiry, proxyUrl, SignedHeaderString(es), body != [])), Cgi.AMPERSAND)
  }

  /** The canonical request the signature covers: the host's path, the seven
      authorization parameters sorted, the canonical headers, the signed
      header names and the body. */
  function ExpectedRequest(id: Bytes, host: Bytes, proxyUrl: Bytes, expiry: int, verb: Bytes, es: Entries, body: Bytes, dt: Timestamp)
    : Bytes
    requires BaseUrl(host).Success?
  {
    var ps := AuthParams(id, dt, expiry, proxyUrl, SignedHeaderString(es), body != []);
    RequestLines(verb, BaseUrl(host).value.path, Join(Sort(Map(Cgi.Assignment, ps)), Cgi.AMPERSAND),
      CanonicalHeaderString(es), SignedHeaderString(es), body)
  }

  lemma UnsignedUrlValue(id: Bytes, host: Bytes, proxyUrl: Bytes, expiry: int, es: Entries, body: Bytes, dt: Timestamp)
    requires Uri.Parse(proxyUrl).Success?
    ensures UnsignedUrl(id, host, proxyUrl, expiry, es, body, dt)
         == Success(NormalizeHost(host) + QUESTION + AuthQuery(id, proxyUrl, expiry, es, body, dt))
  {
    var q := AuthQuery(id, proxyUrl, expiry, es, body, dt);
    assert AuthorizationQueryParamsNoSig(id, dt, expiry, proxyUrl, es, body != []) == Success(QUESTION + q);
    UnsignedUrlOf(id, host, proxyUrl, expiry, es, body, dt, QUESTION + q);
    assert NormalizeHost(host) + (QUESTION + q) == NormalizeHost(host) + QUESTION + q;
  }

  /** The unsigned URL is the normalized host followed by the query. */
  lemma UnsignedUrlOf(id: Bytes, host: Bytes, proxyUrl: Bytes, expiry: int, es: Entries, body: Bytes, dt: Timestamp, query: Bytes)
    requires AuthorizationQueryParamsNoSig(id, dt, expiry, proxyUrl, es, body != []) == Success(query)
    ensures UnsignedUrl(id, host, proxyUrl, expiry, es, body, dt) == Success(NormalizeHost(host) + query)
  {
  }

  lemma UnsignedParses(id: Bytes, host: Bytes, proxyUrl: Bytes, expiry: int, es: Entries, body: Bytes, dt: Timestamp)
    requires IsBaseHost(host)
    ensures var q := AuthQuery(id, proxyUrl, expiry, es, body, dt);
      Uri.Parse(NormalizeHost(host) + QUESTION + q) == Success(BaseUrl(host).value.(query := Some(q)))
  {
    var ps := AuthParams(id, dt, expiry, proxyUrl, SignedHeaderString(es), body != []);
    AuthParamsWellEscaped(id, dt, expiry, proxyUrl, SignedHeaderString(es), body != []);
    UrlWithAssignments(BaseUrl(host).value, ps);
  }

  /** The signature covers the expected canonical request: the query part of
      the unsigned URL is canonicalised into its seven parameters, sorted. */
  lemma SignedCanonicalRequest(id: Bytes, host: Bytes, proxyUrl: Bytes, expiry: int, verb: Bytes, es: Entries, body: Bytes, dt: Timestamp)
    requires IsBaseHost(host) && Uri.Parse(proxyUrl).Success?
    ensures UnsignedUrl(id, host, proxyUrl, expiry, es, body, dt).Success?
    ensures CanonicalRequest(verb, UnsignedUrl(id, host, proxyUrl, expiry, es, body, dt).value, es, body)
         == Success(ExpectedRequest(id, host, proxyUrl, expiry, verb, es, body, dt))
  {
    UnsignedUrlValue(id, host, proxyUrl, expiry, es, body, dt);
    UnsignedParses(id, host, proxyUrl, expiry, es, body, dt);
    var ps := AuthParams(id, dt, expiry, proxyUrl, SignedHeaderString(es), body != []);
    var q := AuthQuery(id, proxyUrl, expiry, es, body, dt);
    var unsigned := UnsignedUrl(id, host, proxyUrl, expiry, es, body, dt).value;
    var u := BaseUrl(host).value;
    assert Uri.Parse(unsigned) == Success(u.(query := Some(q)));
    assert CanonicalUriString(unsigned) == Success(u.path);
    assert CanonicalQueryString(unsigned) == Success(CanonicalQuery(Cgi.Parse(q)));
    AuthParamsWellEscaped(id, dt, expiry, proxyUrl, SignedHeaderString(es), body != []);
    CanonicalQueryOfAssignments(ps);
  }

  lemma HexUnreserved(sig: Bytes)
    requires Crypto.AllLowerHex(sig)
    ensures Cgi.AllUnreserved(sig)
  {
  }

  /** The authorization parameters followed by the signature. */
  lemma WithSignatureWellEscaped(ps: seq<(Bytes, Bytes)>, sig: Bytes)
    requires |ps| == 7 && forall i :: 0 <= i < 7 ==> Cgi.WellEscaped(ps[i]) && ps[i].0 == ParamNames()[i]
    requires Crypto.AllLowerHex(sig)
    ensures var all := ps + [(X_SIGNATURE, sig)];
      (forall i :: 0 <= i < |all| ==> Cgi.WellEscaped(all[i])) && Cgi.DistinctNames(all)
  {
    var all := ps + [(X_SIGNATURE, sig)];
    var names := ParamNames();
    NamesUnreserved();
    HexUnreserved(sig);
    UnreservedReescapes(sig);
    NamesDistinct();
    forall i, j | 0 <= i < j < |all| ensures all[i].0 != all[j].0 {
      assert all[i].0 == names[i] && all[j].0 == names[j];
    }
  }

  lemma DecodedSignedParams(id: Bytes, proxyUrl: Bytes, expiry: int, es: Entries, body: Bytes, dt: Timestamp, sig: Bytes)
    requires Crypto.AllLowerHex(sig)
    ensures Map(Cgi.Decoded, AuthParams(id, dt, expiry, proxyUrl, SignedHeaderString(es), body != []) + [(X_SIGNATURE, sig)])
         == SentParams(id, dt, expiry, proxyUrl, SignedHeaderString(es), body != []) + [(X_SIGNATURE, [sig])]
  {
    var ps := AuthParams(id, dt, expiry, proxyUrl, SignedHeaderString(es), body != []);
    MapAppend(Cgi.Decoded, ps, [(X_SIGNATURE, sig)]);
    DecodedAuthParams(id, dt, expiry, proxyUrl, SignedHeaderString(es), body != []);
    HexUnreserved(sig);
    Cgi.UnreservedFixed(sig);
  }

  /** The signed URL is the unsigned URL, `&` and the signature assignment. */
  lemma SignedUrlOf(p: Crypto.Primitives, id: Bytes, secret: Bytes, host: Bytes, proxyUrl: Bytes, expiry: int,
                    verb: Bytes, es: Entries, body: Bytes, dt: Timestamp, unsigned: Bytes, creq: Bytes)
    requires UnsignedUrl(id, host, proxyUrl, expiry, es, body, dt) == Success(unsigned)
    requires CanonicalRequest(verb, unsigned, es, body) == Success(creq)
    ensures SignedUrl(p, id, secret, host, proxyUrl, expiry, verb, es, body, dt)
         == Success(unsigned + Cgi.AMPERSAND + Cgi.Assignment((X_SIGNATURE, Signature(p, secret, dt, creq))))
  {
  }

  /** The signed URL is the host, `?`, and the eight assignments. */
  lemma SignedUrlValue(p: Crypto.Primitives, id: Bytes, secret: Bytes, host: Bytes, proxyUrl: Bytes, expiry: int,
                       verb: Bytes, es: Entries, body: Bytes, dt: Timestamp)
    requires IsBaseHost(host) && Uri.Parse(proxyUrl).Success?
    ensures var sig := Signature(p, secret, dt, ExpectedRequest(id, host, proxyUrl, expiry, verb, es, body, dt));
      var ps := AuthParams(id, dt, expiry, proxyUrl, SignedHeaderString(es), body != []);
      SignedUrl(p, id, secret, host, proxyUrl, expiry, verb, es, body, dt)
        == Success(NormalizeHost(host) + QUESTION + Join(Map(Cgi.Assignment, ps + [(X_SIGNATURE, sig)]), Cgi.AMPERSAND))
  {
    SignedCanonicalRequest(id, host, proxyUrl, expiry, verb, es, body, dt);
    UnsignedUrlValue(id, host, proxyUrl, expiry, es, body, dt);
    var creq := ExpectedRequest(id, host, proxyUrl, expiry, verb, es, body, dt);
    var sig := Signature(p, secret, dt, creq);
    var ps := AuthParams(id, dt, expiry, proxyUrl, SignedHeaderString(es), body != []);
    var q := AuthQuery(id, proxyUrl, expiry, es, body, dt);
    var unsigned := NormalizeHost(host) + QUESTION + q;
    SignedUrlOf(p, id, secret, host, proxyUrl, expiry, verb, es, body, dt, unsigned, creq);
    AuthParamsNames(id, dt, expiry, proxyUrl, SignedHeaderString(es), body != []);
    QuerySnoc(NormalizeHost(host), ps, (X_SIGNATURE, sig));
  }

  lemma QuerySnoc(base: Bytes, ps: seq<(Bytes, Bytes)>, p: (Bytes, Bytes))
    requires |ps| >= 1
    ensures base + QUESTION + Join(Map(Cgi.Assignment, ps), Cgi.AMPERSAND) + Cgi.AMPERSAND + Cgi.Assignment(p)
         == base + QUESTION + Join(Map(Cgi.Assignment, ps + [p]), Cgi.AMPERSAND)
  {
    var q := Join(Map(Cgi.Assignment, ps), Cgi.AMPERSAND);
    var last := Cgi.Assignment(p);
    var amp := Cgi.AMPERSAND;
    var head := base + QUESTION;
    Cgi.AssignmentsSnoc(ps, p);
    AppendAssociative(head, q, amp, last);
  }

  lemma AppendAssociative(a: Bytes, b: Bytes, c: Bytes, d: Bytes)
    ensures a + b + c + d == a + (b + c + d)
  {
  }

  /** A recipient of the signed URL reads back, with `URI` and `CGI.parse`,
      the host's URL and every parameter with the value the signer meant:
      the algorithm, the access key and scope, the long date, the expiry,
      the proxy URL, the signed header names, the body flag, and last the
      signature of the expected canonical request. */
  lemma SignedUrlReadsBack(p: Crypto.Primitives, id: Bytes, secret: Bytes, host: Bytes, proxyUrl: Bytes, expiry: int,
                           verb: Bytes, es: Entries, body: Bytes, dt: Timestamp)
    requires IsBaseHost(host) && Uri.Parse(proxyUrl).Success?
    ensures var r := SignedUrl(p, id, secret, host, proxyUrl, expiry, verb, es, body, dt);
      && r.Success?
      && Uri.Parse(r.value).Success?
      && Uri.Parse(r.value).value.(query := None) == BaseUrl(host).value
      && ReadParams(r.value) == Some(SentParams(id, dt, expiry, proxyUrl, SignedHeaderString(es), body != [])
           + [(X_SIGNATURE, [Signature(p, secret, dt, ExpectedRequest(id, host, proxyUrl, expiry, verb, es, body, dt))])])
  {
    SignedUrlValue(p, id, secret, host, proxyUrl, expiry, verb, es, body, dt);
    var sig := Signature(p, secret, dt, ExpectedRequest(id, host, proxyUrl, expiry, verb, es, body, dt));
    var ps := AuthParams(id, dt, expiry, proxyUrl, SignedHeaderString(es), body != []);
    var all := ps + [(X_SIGNATURE, sig)];
    var full := Join(Map(Cgi.Assignment, all), Cgi.AMPERSAND);
    AuthParamsNames(id, dt, expiry, proxyUrl, SignedHeaderString(es), body != []);
    AuthParamsWellEscaped(id, dt, expiry, proxyUrl, SignedHeaderString(es), body != []);
    WithSignatureWellEscaped(ps, sig);
    var u := BaseUrl(host).value;
    UrlWithAssignments(u, all);
    assert Uri.Parse(NormalizeHost(host) + QUESTION + full) == Success(u.(query := Some(full)));
    Cgi.ParseAssignments(all);
    DecodedSignedParams(id, proxyUrl, expiry, es, body, dt, sig);
  }

  /** The signed URL does not depend on the order of the caller's headers. */
  lemma SignedUrlHeaderOrder(p: Crypto.Primitives, id: Bytes, secret: Bytes, host: Bytes, proxyUrl: Bytes, expiry: int,
                             verb: Bytes, es: Entries, gs: Entries, body: Bytes, dt: Timestamp)
    requires multiset(es) == multiset(gs)
    ensures SignedUrl(p, id, secret, host, proxyUrl, expiry, verb, es, body, dt)
         == SignedUrl(p, id, secret, host, proxyUrl, expiry, verb, gs, body, dt)
  {
    HeaderOrderIrrelevant(es, gs);
    var ue := UnsignedUrl(id, host, proxyUrl, expiry, es, body, dt);
    assert ue == UnsignedUrl(id, host, proxyUrl, expiry, gs, body, dt);
    if ue.Success? {
      CanonicalRequestHeaderOrder(verb, ue.value, es, gs, body);
    }
  }

  const CONTENT_LENGTH_NAME: Bytes := "content-length"

  lemma ContentLengthName()
    ensures Downcase(CONTENT_LENGTH) == CONTENT_LENGTH_NAME
  {
    var d := Downcase(CONTENT_LENGTH);
    assert d[0] == 'c' && d[8] == 'l';
  }

  lemma InSort(s: seq<Bytes>, i: nat)
    requires i < |s|
    ensures s[i] in Sort(s)
  {
    assert s[i] in multiset(s);
    assert s[i] in multiset(Sort(s));
  }

  /** Every header the hash holds is signed: its canonical line and its
      name are among the sorted lines and names. */
  lemma HeaderSigned(hs: Entries, key: Bytes, value: Bytes)
    requires Get(hs, key) == Some(value)
    ensures HeaderLine((key, value)) in Sort(Map(HeaderLine, hs))
    ensures LowerName((key, value)) in Sort(Map(LowerName, hs))
  {
    var i := KeyIndex(hs, key);
    assert hs[i] == (key, value);
    InSort(Map(HeaderLine, hs), i);
    InSort(Map(LowerName, hs), i);
  }

  /** The canonical line of a `Content-Length` header: `content-length:<size>`. */
  function ContentLengthHeaderLine(size: Bytes): Bytes {
    CONTENT_LENGTH_NAME + COLON + size
  }

  /** A digit string stored under `Content-Length` is signed as the
      `content-length` line with that string. */
  lemma ContentLengthLine(hs: Entries, size: Bytes)
    requires size != [] && AllDigits(size)
    requires Get(hs, CONTENT_LENGTH) == Some(size)
    ensures ContentLengthHeaderLine(size) in Sort(Map(HeaderLine, hs))
    ensures CONTENT_LENGTH_NAME in Sort(Map(LowerName, hs))
  {
    StripUnspaced(size);
    ContentLengthName();
    HeaderLineOf(CONTENT_LENGTH, size, CONTENT_LENGTH_NAME);
    HeaderSigned(hs, CONTENT_LENGTH, size);
  }

  /** With a non-empty body, the canonical headers the request is signed
      with include the `content-length` line carrying the body's size. */
  lemma ContentLengthSigned(es: Entries, body: Bytes)
    requires body != []
    ensures ContentLengthHeaderLine(NatToDecimal(|body|)) in Sort(Map(HeaderLine, WithContentLength(es, body)))
  {
    var hs := WithContentLength(es, body);
    var size := NatToDecimal(|body|);
    assert Get(hs, CONTENT_LENGTH) == Some(size);
    ContentLengthLine(hs, size);
  }

  /** With a non-empty body, `content-length` is among the signed header
      names. */
  lemma ContentLengthNameSigned(es: Entries, body: Bytes)
    requires body != []
    ensures CONTENT_LENGTH_NAME in Sort(Map(LowerName, WithContentLength(es, body)))
  {
    ContentLengthLine(WithContentLength(es, body), NatToDecimal(|body|));
  }

  lemma HeaderLineOf(key: Bytes, value: Bytes, name: Bytes)
    requires Downcase(key) == name && Strip(value) == value
    ensures HeaderLine((key, value)) == name + COLON + value
    ensures LowerName((key, value)) == name
  {
  }

  lemma SentParamsDetermine(id: Bytes, dt: Timestamp, expiry: int, hs: Bytes, proxyA: Bytes, flagA: bool,
                            proxyB: Bytes, flagB: bool, x: Cgi.Params, y: Cgi.Params)
    requires SentParams(id, dt, expiry, proxyA, hs, flagA) + x == SentParams(id, dt, expiry, proxyB, hs, flagB) + y
    ensures proxyA == proxyB && flagA == flagB
  {
    var a := SentParams(id, dt, expiry, proxyA, hs, flagA);
    var b := SentParams(id, dt, expiry, proxyB, hs, flagB);
    assert (a + x)[4] == a[4] && (b + y)[4] == b[4];
    assert (a + x)[6] == a[6] && (b + y)[6] == b[6];
    assert TRUE[0] != FALSE[0];
  }

  /** The signed URL commits to the proxy URL and to whether the body is
      signed: two signings that differ only in those give different URLs
      unless they agree on both. */
  lemma SignedUrlBindsProxy(p: Crypto.Primitives, id: Bytes, secret: Bytes, host: Bytes, expiry: int, verb: Bytes,
                            es: Entries, dt: Timestamp, proxyA: Bytes, bodyA: Bytes, proxyB: Bytes, bodyB: Bytes)
    requires IsBaseHost(host) && Uri.Parse(proxyA).Success? && Uri.Parse(proxyB).Success?
    requires SignedUrl(p, id, secret, host, proxyA, expiry, verb, es, bodyA, dt)
          == SignedUrl(p, id, secret, host, proxyB, expiry, verb, es, bodyB, dt)
    ensures proxyA == proxyB
    ensures bodyA == [] <==> bodyB == []
  {
    SignedUrlReadsBack(p, id, secret, host, proxyA, expiry, verb, es, bodyA, dt);
    SignedUrlReadsBack(p, id, secret, host, proxyB, expiry, verb, es, bodyB, dt);
    var sa := Signature(p, secret, dt, ExpectedRequest(id, host, proxyA, expiry, verb, es, bodyA, dt));
    var sb := Signature(p, secret, dt, ExpectedRequest(id, host, proxyB, expiry, verb, es, bodyB, dt));
    SentParamsDetermine(id, dt, expiry, SignedHeaderString(es), proxyA, bodyA != [], proxyB, bodyB != [],
      [(X_SIGNATURE, [sa])], [(X_SIGNATURE, [sb])]);
  }
}
