/** `URI(...)` for absolute URLs of the shape `scheme://authority path [?query]`.
    A string of any other shape (no scheme, a fragment, a byte outside the
    URI character set of RFC 3986) is refused with `InvalidInput`, which is
    how the model stands for `URI::InvalidURIError`. */
module Uri {
  import opened Wrappers
  import opened ByteStrings
  import Cgi

  const SCHEME_END: Bytes := "://"

  datatype Url = Url(scheme: Bytes, authority: Bytes, path: Bytes, query: Option<Bytes>)

  predicate IsAlpha(c: Byte) {
    'A' <= c <= 'Z' || 'a' <= c <= 'z'
  }

  /** `ALPHA *( ALPHA / DIGIT / "+" / "-" / "." )`, section 3.1 of RFC 3986. */
  predicate IsScheme(s: Bytes) {
    |s| >= 1 && IsAlpha(s[0])
    && forall i :: 0 <= i < |s| ==> IsAlpha(s[i]) || IsDigit(s[i]) || s[i] == '+' || s[i] == '-' || s[i] == '.'
  }

  /** Unreserved, reserved (section 2.2 of RFC 3986) or `%`, without `#`:
      the fragment is outside the model. */
  predicate IsUrlByte(c: Byte) {
    Cgi.IsUnreserved(c) || c == '%'
    || c == ':' || c == '/' || c == '?' || c == '[' || c == ']' || c == '@'
    || c == '!' || c == '$' || c == '&' || c == '\'' || c == '(' || c == ')'
    || c == '*' || c == '+' || c == ',' || c == ';' || c == '='
  }

  predicate AllUrlBytes(s: Bytes) {
    forall i :: 0 <= i < |s| ==> IsUrlByte(s[i])
  }

  predicate IsQueryMark(c: Byte) { c == '?' }
  predicate EndsAuthority(c: Byte) { c == '/' || c == '?' }

  /** The URLs the model can denote. */
  predicate WellFormed(u: Url) {
    && IsScheme(u.scheme)
    && AllUrlBytes(u.authority) && NoneOf(u.authority, EndsAuthority)
    && (u.path == [] || u.path[0] == '/')
    && AllUrlBytes(u.path) && NoneOf(u.path, IsQueryMark)
    && (u.query.Some? ==> AllUrlBytes(u.query.value))
  }

  /** `URI#to_s`. */
  function ToString(u: Url): Bytes {
    u.scheme + (SCHEME_END + (u.authority + (u.path + QueryPart(u.query))))
  }

  lemma AllUrlBytesAppend(a: Bytes, b: Bytes)
    ensures AllUrlBytes(a + b) <==> AllUrlBytes(a) && AllUrlBytes(b)
  {
    if AllUrlBytes(a + b) {
      forall i | 0 <= i < |a| ensures IsUrlByte(a[i]) {
        assert (a + b)[i] == a[i];
      }
      forall i | 0 <= i < |b| ensures IsUrlByte(b[i]) {
        assert (a + b)[|a| + i] == b[i];
      }
    }
    if AllUrlBytes(a) && AllUrlBytes(b) {
      forall i | 0 <= i < |a + b| ensures IsUrlByte((a + b)[i]) {
        if i < |a| { assert (a + b)[i] == a[i]; } else { assert (a + b)[i] == b[i - |a|]; }
      }
    }
  }

  function QueryPart(query: Option<Bytes>): Bytes {
    if query.Some? then "?" + query.value else []
  }

  /** The path and query of what follows the authority. */
  function SplitTail(tail: Bytes): (r: (Bytes, Option<Bytes>))
    requires tail == [] || EndsAuthority(tail[0])
    requires AllUrlBytes(tail)
    ensures r.0 + QueryPart(r.1) == tail
    ensures r.0 == [] || r.0[0] == '/'
    ensures AllUrlBytes(r.0) && NoneOf(r.0, IsQueryMark)
    ensures r.1.Some? ==> AllUrlBytes(r.1.value)
  {
    var (path, q) := Cut(tail, IsQueryMark);
    AllUrlBytesAppend(path, q);
    if q == [] then (path, None)
    else
      assert q == "?" + q[1..];
      AllUrlBytesAppend("?", q[1..]);
      (path, Some(q[1..]))
  }

  /** Authority, path and query of what follows `://`. */
  function SplitHier(rest: Bytes): (r: (Bytes, Bytes, Option<Bytes>))
    requires AllUrlBytes(rest)
    ensures r.0 + (r.1 + QueryPart(r.2)) == rest
    ensures AllUrlBytes(r.0) && NoneOf(r.0, EndsAuthority)
    ensures r.1 == [] || r.1[0] == '/'
    ensures AllUrlBytes(r.1) && NoneOf(r.1, IsQueryMark)
    ensures r.2.Some? ==> AllUrlBytes(r.2.value)
  {
    var (authority, tail) := Cut(rest, EndsAuthority);
    AllUrlBytesAppend(authority, tail);
    var (path, query) := SplitTail(tail);
    (authority, path, query)
  }

  /** `URI(s)`. */
  function Parse(s: Bytes): (r: Result<Url>)
    ensures r.Success? ==> WellFormed(r.value) && ToString(r.value) == s
  {
    var (scheme, afterScheme) := Cut(s, IsColon);
    if !IsScheme(scheme) || !StartsWith(afterScheme, SCHEME_END) then Failure(InvalidInput)
    else
      var rest := afterScheme[3..];
      if !AllUrlBytes(rest) then Failure(InvalidInput)
      else
        assert afterScheme == SCHEME_END + rest;
        var (authority, path, query) := SplitHier(rest);
        Success(Url(scheme, authority, path, query))
  }

  lemma SplitTailOf(path: Bytes, query: Option<Bytes>)
    requires path == [] || path[0] == '/'
    requires AllUrlBytes(path) && NoneOf(path, IsQueryMark)
    requires query.Some? ==> AllUrlBytes(query.value)
    ensures var tail := path + QueryPart(query);
      && (tail == [] || EndsAuthority(tail[0]))
      && AllUrlBytes(tail)
      && SplitTail(tail) == (path, query)
  {
    var qpart := QueryPart(query);
    if query.Some? {
      AllUrlBytesAppend("?", query.value);
      assert qpart[1..] == query.value;
    }
    AllUrlBytesAppend(path, qpart);
    CutOf(path, qpart, IsQueryMark);
  }

  lemma SplitHierOf(authority: Bytes, path: Bytes, query: Option<Bytes>)
    requires AllUrlBytes(authority) && NoneOf(authority, EndsAuthority)
    requires path == [] || path[0] == '/'
    requires AllUrlBytes(path) && NoneOf(path, IsQueryMark)
    requires query.Some? ==> AllUrlBytes(query.value)
    ensures var rest := authority + (path + QueryPart(query));
      && AllUrlBytes(rest)
      && SplitHier(rest) == (authority, path, query)
  {
    var tail := path + QueryPart(query);
    SplitTailOf(path, query);
    AllUrlBytesAppend(authority, tail);
    CutOf(authority, tail, EndsAuthority);
  }

  /** Every URL the model denotes is parsed back to itself. */
  lemma ParseToString(u: Url)
    requires WellFormed(u)
    ensures Parse(ToString(u)) == Success(u)
  {
    var rest := u.authority + (u.path + QueryPart(u.query));
    var after := SCHEME_END + rest;
    SplitHierOf(u.authority, u.path, u.query);
    assert NoneOf(u.scheme, IsColon) by {
      forall i | 0 <= i < |u.scheme| ensures !IsColon(u.scheme[i]) {
        assert IsAlpha(u.scheme[i]) || IsDigit(u.scheme[i]) || u.scheme[i] in "+-.";
      }
    }
    assert IsColon(after[0]);
    CutOf(u.scheme, after, IsColon);
    assert StartsWith(after, SCHEME_END) && after[3..] == rest;
  }

  /** Appending `?` and a query to a URL that has none gives that URL with
      the query. */
  lemma ParseWithQuery(u: Url, query: Bytes)
    requires WellFormed(u) && u.query.None?
    requires AllUrlBytes(query)
    ensures Parse(ToString(u) + "?" + query) == Success(u.(query := Some(query)))
  {
    var v := u.(query := Some(query));
    assert ToString(v) == ToString(u) + "?" + query;
    ParseToString(v);
  }
}
