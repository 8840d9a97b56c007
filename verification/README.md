# Signway SDK signer in Dafny

This project models the signer of the Signway Ruby SDK. `SignwaySdk.sign_url` turns a request into a pre-signed URL. The request goes to the Signway proxy at `host`, which forwards it to `proxy_url`. The URL carries an `SW1-HMAC-SHA256` authorization query:

- the algorithm, the credential (`access_key/YYYYMMDD`), the long date and the expiry;
- the proxy URL, the signed header names and whether the body is signed;
- last, `X-Sw-Signature`. This is the lower-case hex HMAC-SHA256, under a per-day signing key, of a string to sign built over the canonical request.

The model has one module per concern. Every string is a sequence of bytes (`ByteStrings.Byte`).

| module | file | models | flavour |
|---|---|---|---|
| `SigningFunctions` | `signing_functions.dfy` | `SignwaySdk::SigningFunctions`: the canonical URI, query, headers and request; scope, string to sign, signing key, and the authorization query without its signature | functions and lemmas |
| `SignwaySdk` | `signway_sdk.dfy` | `sign_url`: the method that writes `Content-Length` into the caller's hash and returns the signed URL; the function `SignedUrl` that specifies it; the properties of the signed URL | method and functions |
| `Headers` | `headers.dfy` | the caller's `Hash` of headers, as a class whose `Store` is `hash[key] = value` | class |
| `Cgi` | `cgi.dfy` | `CGI.escape`, `CGI.unescape`, `CGI.parse` | functions and lemmas |
| `Uri` | `uri.dfy` | `URI(...)`, `URI#path`, `URI#query`, `URI#to_s` for absolute URLs | functions and lemmas |
| `Strftime` | `strftime.dfy` | `DateTime#strftime` with `%Y%m%d` and `%Y%m%dT%H%M%SZ` | functions and lemmas |
| `Crypto` | `crypto.dfy` | SHA-256 and HMAC-SHA256, passed in as function values, and `hexdigest` | functions and lemmas |
| `Sorting` | `sorting.dfy` | `Array#sort` on strings, by `String#<=>` (bytewise) | functions and lemmas |
| `Seqs`, `ByteStrings`, `Wrappers` | `seqs.dfy`, `byte_strings.dfy`, `wrappers.dfy` | `map`, `flatten`, `join`, `downcase`, `strip`, `Integer#to_s`; `Option` and `Result` | functions and lemmas |

The only exception the model represents is `URI::InvalidURIError`, raised for a URL that cannot be parsed; it becomes `Failure(InvalidInput)`. The other exceptions Ruby can raise here are listed under "## Left out".

The clock enters `SignUrl` as a parameter: `clockUtc` stands for `DateTime.now.new_offset("+00:00")`. So do the two digests: `Crypto.Primitives` holds `sha256` and `hmacSha256`, each assumed to return 32 bytes. Nothing is stated about their values.

## Model

| member | source | states |
|---|---|---|
| SignwaySdk.SignUrl | lib/signway_sdk.rb:25-63 | A non-nil headers hash gains `Content-Length` (the body's byte size) exactly when the body is non-empty; every other entry is kept and no key repeats. The result is `SignedUrl` of the headers after that write and of the override date, or of the clock's UTC reading when there is no override. A nil hash is replaced by a fresh empty one. |
| SignwaySdk.SignedUrl | lib/signway_sdk.rb:41-62 | Signing fails exactly when the proxy URL cannot be parsed or when the unsigned URL (host followed by the query) cannot be parsed. |
| SignwaySdk.NormalizeHost | lib/signway_sdk.rb:36 | The result starts with the host and ends with `/`. It is at most one byte longer than the host. A host already ending in `/` is unchanged. |
| SignwaySdk.NormalizeHostIdempotent | lib/signway_sdk.rb:36 | Normalizing twice is normalizing once. |
| SignwaySdk.NormalizeHostTrailingSlash | lib/signway_sdk.rb:36 | `h` and `h + "/"` normalize to the same host if and only if `h` does not already end in `/`. |
| SignwaySdk.WithContentLength | lib/signway_sdk.rb:39 | An empty body leaves the headers as they are. A non-empty body makes `Content-Length` map to the decimal byte count. No other key changes and distinct keys stay distinct. |
| SignwaySdk.UnsignedUrl | lib/signway_sdk.rb:41-48 | The unsigned URL fails exactly when the proxy URL cannot be parsed. |
| SignwaySdk.UnsignedUrlValue | lib/signway_sdk.rb:41-48 | The unsigned URL is the normalized host, `?` and the seven authorization assignments joined with `&`. |
| SignwaySdk.Signature | lib/signway_sdk.rb:57-60 | The signature is lower-case hex, 64 digits long when the digest returns 32 bytes. |
| SignwaySdk.SignedCanonicalRequest | lib/signway_sdk.rb:50-55 | For a host URL without a query of its own, the canonical request of the unsigned URL has the host's path and the seven authorization assignments in sorted order. It then has the canonical headers, the signed header names and the body. |
| SignwaySdk.SignedUrlValue | lib/signway_sdk.rb:62 | The signed URL is the normalized host, `?`, and the seven assignments followed by `X-Sw-Signature=<signature>`, joined with `&`. The signature is over the expected canonical request. |
| SignwaySdk.SignedUrlReadsBack | lib/signway_sdk.rb:25-63 | `URI` and `CGI.parse` read back from the signed URL the host's URL and then every parameter with its intended value: the algorithm, `access_key/scope`, the long date, the expiry, the proxy URL as `Uri.ToString` prints it back (the URL itself, in this model), the signed header names, the body flag, and the signature. |
| SignwaySdk.SignedUrlHeaderOrder | lib/signway_sdk.rb:46-53 | Permuting the headers does not change the signed URL. |
| SignwaySdk.HeaderSigned | lib/signway_sdk/signing_functions.rb:32-38 | Every header in the hash has its canonical line among the sorted header lines and its lower-cased name among the signed names. |
| SignwaySdk.ContentLengthSigned | lib/signway_sdk.rb:39 | With a non-empty body, the canonical header lines include `content-length:<byte count>`. |
| SignwaySdk.ContentLengthNameSigned | lib/signway_sdk.rb:39 | With a non-empty body, `content-length` is among the signed header names. |
| SignwaySdk.SignedUrlBindsProxy | lib/signway_sdk/signing_functions.rb:73-83 | Two signed URLs that differ only in proxy URL and body are equal only if the proxy URLs are equal and both bodies are empty or both non-empty. |
| SigningFunctions.CanonicalUriString | lib/signway_sdk/signing_functions.rb:23-25 | Fails exactly when the URL cannot be parsed. Otherwise the path is empty or starts with `/` and never holds `?`. |
| SigningFunctions.CanonicalUriOf | lib/signway_sdk/signing_functions.rb:23-25 | The canonical URI of a well-formed URL is its path component. |
| SigningFunctions.CanonicalQueryString | lib/signway_sdk/signing_functions.rb:27-30 | Fails exactly when the URL cannot be parsed. |
| SigningFunctions.CanonicalQueryOfPairs | lib/signway_sdk/signing_functions.rb:28-29 | Grouping by key leaves no trace: the canonical query holds one escaped `k=v` token per (key, value) pair of the query, sorted and joined with `&`. |
| SigningFunctions.QueryOrderIrrelevant | lib/signway_sdk/signing_functions.rb:28-29 | Two queries with the same (key, value) pairs, in any order, have the same canonical query. |
| SigningFunctions.CanonicalQueryWithoutQuery | lib/signway_sdk/signing_functions.rb:28 | A URL with no query (`nil.to_s`) or an empty query has the empty canonical query. |
| SigningFunctions.CanonicalQueryOfAssignments | lib/signway_sdk/signing_functions.rb:28-29 | A query written as escaped assignments with distinct names canonicalises to those assignments, sorted. |
| SigningFunctions.Token | lib/signway_sdk/signing_functions.rb:29 | Its definition is the model: `escape(k)=escape(v)`. `CanonicalQueryOfPairs` states the query it builds. |
| SigningFunctions.CanonicalQuery | lib/signway_sdk/signing_functions.rb:29 | Its definition is the model: one token per value, flattened, sorted, joined with `&`. `CanonicalQueryOfPairs` and `QueryOrderIrrelevant` state its meaning. |
| SigningFunctions.CanonicalHeaderString | lib/signway_sdk/signing_functions.rb:32-34 | Its definition is the model: one `name:value` line per header, sorted, joined with `\n`. `HeaderOrderIrrelevant`, `HeaderLineDetermines` and `SignwaySdk.HeaderSigned` state its meaning. |
| SigningFunctions.SignedHeaderString | lib/signway_sdk/signing_functions.rb:36-38 | Its definition is the model: the lower-cased names, sorted, joined with `;`. `SignedHeaderFields` and `HeaderOrderIrrelevant` state its meaning. |
| SigningFunctions.SignedHeaderFields | lib/signway_sdk/signing_functions.rb:36-38 | For names without `;`, splitting the signed header string at `;` gives back the sorted lower-cased names, one per header; no headers give the empty string. |
| SigningFunctions.HeaderOrderIrrelevant | lib/signway_sdk/signing_functions.rb:32-38 | Both the canonical header string and the signed header string are the same for any permutation of the headers. |
| SigningFunctions.ColonLineDetermines | lib/signway_sdk/signing_functions.rb:33 | For names without `:`, `name:value` lines are equal if and only if the names and the values are. |
| SigningFunctions.HeaderLineDetermines | lib/signway_sdk/signing_functions.rb:33 | For names without `:`, two headers give the same line if and only if their names agree up to ASCII case and their values agree after `strip`. |
| SigningFunctions.CanonicalRequest | lib/signway_sdk/signing_functions.rb:40-47 | Fails exactly when the URL cannot be parsed. |
| SigningFunctions.CanonicalRequestHeaderOrder | lib/signway_sdk/signing_functions.rb:40-47 | Permuting the headers does not change the canonical request. |
| SigningFunctions.CanonicalRequestBody | lib/signway_sdk/signing_functions.rb:40-47 | With the other parts fixed, two bodies give the same canonical request if and only if they are equal. |
| SigningFunctions.ScopeString | lib/signway_sdk/signing_functions.rb:49-51 | Its definition is the model: the short date. `Strftime.ShortDateNamesDay` states that it names the calendar day. |
| SigningFunctions.StringToSign | lib/signway_sdk/signing_functions.rb:53-58 | Its definition is the model: algorithm, long date, scope and hex digest on four lines. `StringToSignLayout` states its layout. |
| SigningFunctions.StringToSignLayout | lib/signway_sdk/signing_functions.rb:53-58 | In years 0 to 9999 the string to sign has 106 bytes, at fixed offsets: the algorithm at 0-14, the long date at 16-31, the scope at 33-40, the SHA-256 hex digest of the canonical request from 42 on, and `\n` between each. |
| SigningFunctions.SigningKey | lib/signway_sdk/signing_functions.rb:60-63 | Its definition is the model: HMAC-SHA256 keyed by the algorithm and the secret, over the short date. `SigningKeyPerDay` states its dependence on the date. |
| SigningFunctions.SigningKeyPerDay | lib/signway_sdk/signing_functions.rb:60-63 | Two dates on the same calendar day give the same signing key. |
| SigningFunctions.AuthorizationQueryParamsNoSig | lib/signway_sdk/signing_functions.rb:65-84 | Fails exactly when the proxy URL cannot be parsed. Otherwise it is `?` followed by the seven assignments, in their fixed order, joined with `&`. The credential, the proxy URL as `Uri.ToString` prints it back and the signed headers are escaped; the algorithm, date, expiry and `true`/`false` are written verbatim. |
| SigningFunctions.AuthParams | lib/signway_sdk/signing_functions.rb:71-83 | Its definition is the model: the seven (name, escaped value) pairs. `AuthParamsNames`, `AuthParamsWellEscaped` and `DecodedAuthParams` state their names, escaping and values. |
| SigningFunctions.AuthParamsWellEscaped | lib/signway_sdk/signing_functions.rb:71-83 | Every one of the seven assignments has an unreserved name and an escaped value that escaping its unescaped form gives back. The seven names are distinct. |
| SigningFunctions.AuthParamsNames | lib/signway_sdk/signing_functions.rb:77-83 | The parameters appear under `X-Sw-Algorithm`, `-Credential`, `-Date`, `-Expires`, `-Proxy`, `-SignedHeaders`, `-Body`, in that order. |
| SigningFunctions.AuthorizationNames | lib/signway_sdk/signing_functions.rb:14-21 | Whatever their values, the seven parameters carry the protocol's names in order, and no name repeats. |
| SigningFunctions.NamesDistinct | lib/signway_sdk/signing_functions.rb:14-21 | The eight parameter names, the signature's included, are pairwise distinct. |
| SigningFunctions.DecodedAuthParams | lib/signway_sdk/signing_functions.rb:71-75 | Unescaping the written values gives back the values before escaping. |
| SigningFunctions.AuthQueryReadsBack | lib/signway_sdk/signing_functions.rb:65-84 | `CGI.parse` of the authorization query gives each of the seven names with exactly one value, its value before escaping. |
| SigningFunctions.UrlWithAssignments | lib/signway_sdk.rb:41 | A URL without a query, followed by `?` and escaped assignments joined with `&`, parses to that URL with the assignments as its query. |
| Cgi.Escape | lib/signway_sdk/signing_functions.rb:71-73 | The output holds only unreserved bytes, `+` and `%`, so it never holds a query delimiter. It is one to three times as long as the input. |
| Cgi.UnescapeEscape | lib/signway_sdk/signing_functions.rb:71-73 | `CGI.unescape(CGI.escape(s)) == s`. |
| Cgi.EscapeInjective | lib/signway_sdk/signing_functions.rb:29 | Two strings escape alike if and only if they are equal. |
| Cgi.UnreservedFixed | lib/signway_sdk/signing_functions.rb:29 | A string of unreserved characters is left unchanged by both escaping and unescaping. |
| Cgi.Parse | lib/signway_sdk/signing_functions.rb:28 | Its definition is the model: split at `&` or `;`, cut each piece at its first `=`, unescape, group the values by key in order of first appearance. `ParseAssignments`, `GroupKeepsValues` and `GroupDistinct` state what it gives. |
| Cgi.Unescape | lib/signway_sdk/signing_functions.rb:28 | The result is never longer than the input; `UnescapeEscape` states that it inverts `Escape`. |
| Cgi.GroupKeepsValues | lib/signway_sdk/signing_functions.rb:28 | Grouping values by key keeps every (key, value) pair, each as often as it occurs, and adds none. |
| Cgi.GroupDistinct | lib/signway_sdk/signing_functions.rb:28 | With distinct keys, each key is grouped with exactly its own value, in query order. |
| Cgi.ParseAssignments | lib/signway_sdk/signing_functions.rb:28 | Parsing escaped assignments with distinct names, joined with `&`, gives each name with its single unescaped value, in order. |
| Cgi.LookupDecoded | lib/signway_sdk/signing_functions.rb:28 | In that result, each name looks up to exactly its unescaped value. |
| Cgi.AssignmentsSnoc | lib/signway_sdk.rb:62 | Appending `&name=value` to a joined query is joining the assignments with that one added. |
| Uri.ToString | lib/signway_sdk/signing_functions.rb:73 | Its definition is the model's `URI#to_s`: scheme, `://`, authority, path and `?query` when present. `ParseToString` states that it inverts `Parse`. |
| Uri.Parse | lib/signway_sdk/signing_functions.rb:24 | A parsed URL is well formed and prints back to the parsed string. |
| Uri.ParseToString | lib/signway_sdk/signing_functions.rb:69-73 | Every well-formed URL parses back to itself, so `URI(proxy_url).to_s` is `proxy_url`. |
| Uri.ParseWithQuery | lib/signway_sdk/signing_functions.rb:28 | A URL without a query, followed by `?q`, parses to that URL with query `q`. |
| Strftime.Year | lib/signway_sdk/signing_functions.rb:12-13 | Its definition is the model of `%Y`: at least four digits, zero-padded, after `-` for a negative year. `FourDigitYear` states its shape. |
| Strftime.ShortDate | lib/signway_sdk/signing_functions.rb:49-51 | Its definition is the model of `%Y%m%d`. `DateShapes` and `ShortDateNamesDay` state its shape and that it names the day. |
| Strftime.LongDate | lib/signway_sdk/signing_functions.rb:55 | Its definition is the model of `%Y%m%dT%H%M%SZ`. `DateShapes` and `LongDateBytes` state its shape and bytes. |
| Strftime.FourDigitYear | lib/signway_sdk/signing_functions.rb:12-13 | `%Y` of a year from 0 to 9999 is four digits. |
| Strftime.TwoDigits | lib/signway_sdk/signing_functions.rb:12-13 | `%m`, `%d`, `%H`, `%M` and `%S` are two digits each. |
| Strftime.TwoDigitsInjective | lib/signway_sdk/signing_functions.rb:12-13 | Two numbers below 100 print alike if and only if they are equal. |
| Strftime.DateShapes | lib/signway_sdk/signing_functions.rb:12-13 | In years 0 to 9999 the short date is eight digits. The long date is 16 bytes, has `T` at index 8 and `Z` last, and begins with the short date. |
| Strftime.ShortDateNamesDay | lib/signway_sdk/signing_functions.rb:49-51 | In years 0 to 9999 two dates share a scope if and only if they fall on the same calendar day. |
| Strftime.LongDateBytes | lib/signway_sdk/signing_functions.rb:74 | The long date holds only digits, `-`, `T` and `Z`, so it travels unescaped. |
| Crypto.Hex | lib/signway_sdk/signing_functions.rb:57 | The hex digest is lower-case hex, two digits per byte. |
| Crypto.UnhexHex | lib/signway_sdk/signing_functions.rb:57 | The hex encoding loses nothing: decoding it gives back the bytes. |
| Crypto.HexDigest | lib/signway_sdk/signing_functions.rb:57 | Its definition is the model: the hex encoding of the SHA-256 digest. `HexDigestShapes` states its shape. |
| Crypto.HmacHexDigest | lib/signway_sdk.rb:60 | Its definition is the model: the hex encoding of the HMAC-SHA256 digest. `HexDigestShapes` states its shape. |
| Crypto.HexDigestShapes | lib/signway_sdk/signing_functions.rb:57 | The SHA-256 and HMAC-SHA256 hex digests are 64 lower-case hex digits. |
| Headers.Get | lib/signway_sdk.rb:39 | Its definition is the model of `hash[key]`: the value at the key's first position, or nothing. `Put` and `SignwaySdk.HeaderSigned` state its meaning. |
| Headers.Put | lib/signway_sdk.rb:39 | After `hash[key] = value`, `key` maps to `value` and every other key maps to what it did before. An existing key keeps its place; a new key goes last. Distinct keys stay distinct. |
| Headers.HeaderHash.Store | lib/signway_sdk.rb:39 | Updates the hash in place to `Put` of its old entries, keeping its keys distinct. |
| Headers.HeaderHash.constructor | lib/signway_sdk.rb:38 | `headers ||= {}` creates an empty hash. |
| Sorting.Sort | lib/signway_sdk/signing_functions.rb:29-37 | The result is sorted bytewise and is a permutation of the input. |
| Sorting.SortedUnique | lib/signway_sdk/signing_functions.rb:29-37 | Two sorted permutations of each other are equal, so the sort's result is determined. |
| Sorting.SortPermutationInvariant | lib/signway_sdk/signing_functions.rb:29-37 | Sorting two permutations of each other gives the same list. |
| Sorting.LexLeTotal | lib/signway_sdk/signing_functions.rb:29-37 | Any two strings are ordered one way or the other. |
| Sorting.LexLeAntisymmetric | lib/signway_sdk/signing_functions.rb:29-37 | Strings ordered both ways are equal. |
| Sorting.LexLeTransitive | lib/signway_sdk/signing_functions.rb:29-37 | The byte order is transitive. |
| Seqs.MapPermutation | lib/signway_sdk/signing_functions.rb:29-37 | Mapping two permutations of each other gives permutations of each other. |
| ByteStrings.Downcase | lib/signway_sdk/signing_functions.rb:33-37 | Same length, each ASCII capital lowered by 32, every other byte kept. |
| ByteStrings.DowncaseIdempotent | lib/signway_sdk/signing_functions.rb:33-37 | Downcasing twice is downcasing once. |
| ByteStrings.Strip | lib/signway_sdk/signing_functions.rb:33 | The result is the input with its leading white space and NUL removed and its trailing ones removed: a contiguous slice after exactly the leading run, followed only by such bytes, and neither starting nor ending with one. |
| ByteStrings.StripPadded | lib/signway_sdk/signing_functions.rb:33 | A value padded with white space or NUL on both sides strips back to the value. |
| ByteStrings.StripUnspaced | lib/signway_sdk/signing_functions.rb:33 | A value with no white space or NUL at either end is left as it is. |
| ByteStrings.NatToDecimal | lib/signway_sdk.rb:39 | `Integer#to_s` is a non-empty run of digits with no leading zero. |
| ByteStrings.DecimalRoundTrip | lib/signway_sdk.rb:39 | Reading back the decimal string of `n` gives `n`. |
| ByteStrings.PaddedDecimalInjective | lib/signway_sdk/signing_functions.rb:12-13 | Zero-padded decimals print alike if and only if the numbers are equal. |
| ByteStrings.IntToDecimal | lib/signway_sdk/signing_functions.rb:80 | `Integer#to_s` is a non-empty run of digits, after `-` for a negative number, and those digits denote the absolute value of the number. |
| ByteStrings.Join | lib/signway_sdk/signing_functions.rb:29 | Its definition is the model of `Array#join`. `JoinSnoc` and `SplitJoin` state its meaning. |
| ByteStrings.Split | lib/signway_sdk/signing_functions.rb:28 | There is always at least one piece. The definition is the model: the pieces between separators, empty ones kept. `SplitJoin` states that it inverts `Join`. |
| ByteStrings.SplitJoin | lib/signway_sdk/signing_functions.rb:28 | Splitting at a separator undoes joining with it when no part holds one. |
| ByteStrings.JoinSnoc | lib/signway_sdk.rb:62 | Joining a list with one element added is the old join, the separator and that element. |

## Left out

- OpenSSL's SHA-256 and HMAC-SHA256 are not modelled. They are parameters, assumed only to return 32 bytes, so no property depends on what they compute.
- `DateTime.now` is a parameter (`clockUtc`), taken to be a UTC reading already.
- The override date is used as it is given. `strftime` prints its civil fields and its UTC offset plays no part. A date with a non-zero offset is therefore signed in its local time, although the literal `Z` in `LONG_DATETIME` (lib/signway_sdk/signing_functions.rb:12) labels the time as UTC. The model follows the code.
- Uri.ToString: the model's `URI#to_s` prints back exactly the parsed string. Ruby's lower-cases the scheme and drops a default or empty port (`HTTP://a.example:80/` prints as `http://a.example/`); that normalisation is not modelled. `Uri.ParseToString`, `SignwaySdk.SignedUrlBindsProxy` and `SignwaySdk.SignedUrlReadsBack` hold for the model's `to_s`; for such URLs Ruby signs the normalised form instead.
- The proxy URL is embedded after `URI(proxy_url).to_s`, which the model leaves as it is. So reordering the proxy URL's own query parameters changes the signed URL; `SignwaySdk.SignedUrlBindsProxy` proves this. A verifier that parses and re-orders the proxy URL would compute a different signature; the model follows the code, which signs the URL exactly as it is written.
- `URI(...)` is modelled only for absolute URLs of the shape `scheme://authority path[?query]` whose bytes are URI characters. Fragments, relative references, and the finer checks of authority and percent-encoding in RFC 3986 are not modelled. A string outside this shape is refused as invalid input, though Ruby may accept it.
- Header keys are byte strings. `k.to_s` of a Symbol key and the other Ruby objects a hash can hold are not modelled.
- `downcase` is ASCII-only, as for the byte strings a header name holds; Unicode case mapping is not modelled. Strings are byte sequences, with no encodings.
- `Strftime.DateTime`: the day of the month may be anything from 1 to 31, in any month. The calendar validity that `DateTime` enforces is not modelled, since no property depends on it.
- Years outside 0 to 9999 are printed, but the length and layout lemmas (`StringToSignLayout`, `DateShapes`, `ShortDateNamesDay`) require four-digit years.
- `SigningKey`: its contract states nothing. Its only use, the HMAC key, is opaque here, and `SigningKeyPerDay` states its dependence on the date.
- A frozen headers hash makes Ruby raise `FrozenError` on the `Content-Length` write. Frozen objects are not modelled.
- Header keys and values are byte strings, so the exceptions that other values cause are not modelled. A nil value makes `v.strip` raise `NoMethodError`, and a string with bytes invalid in its encoding can make `downcase` or `strip` raise `ArgumentError` (lib/signway_sdk/signing_functions.rb:33, :37).
- A nil headers argument: the method's fresh hash is a local object, so the caller sees nothing.
- The gem's version constant, its packaging and its test suite are not modelled.
