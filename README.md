# CSRFGuard token endpoint, modelled in Dafny

This project models `TokenServlet`, the CSRFGuard servlet that lets a page script
fetch the anti-CSRF tokens of its own session after the page has loaded.

- **GET** always fails with "GET method not supported. Use POST instead."
- **POST** first picks a mode.
  - The guard exists and the request carries the `FETCH-CSRF-TOKEN` header: the
    response is the single rotating token as `name:value`. It is plain text with
    no content length.
  - The guard exists, the header is absent and per-page tokens are enabled: the
    response is every page token of the session as `page:token,page:token,...`.
    It is plain text, and its content length is the length of that text. A session
    without a page-token map gets an empty body with content length 0.
  - Otherwise the response is a 404. This includes every request made while the
    guard does not exist, with or without the header.

The guard singleton, the request headers and the session attributes are parameters.
The response is the datatype `Response` (`NotFound`, `Failure(message)` for a thrown
`IOException`, or `Body(contentType, contentLength, text)`). The page-token map is
a sequence of `(page, token)` entries with distinct keys, listed in the map's
iteration order. The serialiser's `while` loop over the key iterator is the method
`ParsePageTokens`. It appends to a `StringBuilder` object, and its contract says
the result equals `Serialize`, the comma-join of the `key:value` texts. The pure
handler functions use `Serialize` in place of the method.

Files:

- `wrappers.dfy`: the `Option` type.
- `text.dfy`: `Join` and `Split` over a one-character separator, with their lemmas.
- `string_builder.dfy`: the `StringBuilder` accumulator.
- `token_servlet.dfy`: dispatch, the two bodies, the serialiser loop, and the
  client-side parser used as the serialiser's inverse.

- A session with no token value produces `name:null`, not `name:`. This is how
  Java concatenates a null `String` (`ValueOf`).
- For the map `login→abc, checkout→xyz` the body is `login:abc,checkout:xyz`.
  Its content length is 22 (`ExampleTwoPages`).

## Model

| member | source | states |
|---|---|---|
| TokenServlet.DoGet | src/main/java/org/owasp/csrfguard/servlet/TokenServlet.java:66-69 | GET never yields a body or a 404: it always fails with the "GET method not supported" message |
| TokenServlet.DoPost | src/main/java/org/owasp/csrfguard/servlet/TokenServlet.java:71-85 | POST never fails. It returns single-token mode exactly when the guard exists and the fetch header is present, whatever the per-page setting. It returns page-token mode exactly when the guard exists, the header is absent and per-page tokens are enabled. It returns 404 exactly in the remaining cases, including every case with no guard. Each body is plain text |
| TokenServlet.GetHeader | src/main/java/org/owasp/csrfguard/servlet/TokenServlet.java:74 | `getHeader` returns a value exactly when the request carries a header of that name, and then that header's value. Names are compared exactly, not case-insensitively |
| TokenServlet.GetAttribute | src/main/java/org/owasp/csrfguard/servlet/TokenServlet.java:91 | `getAttribute` for the token key returns a value exactly when the session holds that attribute, and then its value; otherwise null |
| TokenServlet.ValueOf | src/main/java/org/owasp/csrfguard/servlet/TokenServlet.java:91-92 | a present string is written as itself and a null one as the four characters `null` |
| TokenServlet.FetchCsrfToken | src/main/java/org/owasp/csrfguard/servlet/TokenServlet.java:87-95 | the single-token body is the token name, one colon, then the session value (`null` when absent), with nothing after it. Its type is text/plain and it has no content length |
| TokenServlet.SingleTokenRoundTrip | src/main/java/org/owasp/csrfguard/servlet/TokenServlet.java:92 | when neither name nor value contains a colon, splitting the single-token body at colons gives exactly [name, value] |
| TokenServlet.KeysAreKeySet | src/main/java/org/owasp/csrfguard/servlet/TokenServlet.java:141 | `Keys`, the key iterator, yields the i-th entry's key at position i; these keys are pairwise distinct, and a string is among them exactly when `get` finds a value for it: the iterator runs over the map's key set |
| TokenServlet.Lookup | src/main/java/org/owasp/csrfguard/servlet/TokenServlet.java:145 | `get` finds a value paired with the key in the map, or reports that no entry has that key |
| TokenServlet.LookupKeyAt | src/main/java/org/owasp/csrfguard/servlet/TokenServlet.java:144-145 | with distinct keys, `get` on the current key returns that entry's own value |
| TokenServlet.ParsePageTokens | src/main/java/org/owasp/csrfguard/servlet/TokenServlet.java:139-157 | the loop's key:value appends, with a comma only while keys remain, build exactly the comma-join of the entries' `key:value` texts in iteration order |
| TokenServlet.EntryTextShape | src/main/java/org/owasp/csrfguard/servlet/TokenServlet.java:147-149 | the text `EntryText` appends for one entry is the key, exactly one colon, then the value, of length \|k\| + 1 + \|v\| |
| StringBuilders.StringBuilder.ToString | src/main/java/org/owasp/csrfguard/servlet/TokenServlet.java:156 | `toString` returns exactly the characters appended since the builder was created |
| TokenServlet.BuiltStep | src/main/java/org/owasp/csrfguard/servlet/TokenServlet.java:147-153 | visiting one more entry extends what has been built by that entry's text, plus a comma unless it was the last |
| TokenServlet.EntryStep | src/main/java/org/owasp/csrfguard/servlet/TokenServlet.java:143-154 | one loop iteration appends the current key, `:`, its value, and then `,` only when the iterator has more keys |
| TokenServlet.BuiltAll | src/main/java/org/owasp/csrfguard/servlet/TokenServlet.java:156 | when the iterator is exhausted, the builder holds the serialised map |
| TokenServlet.Serialize | src/main/java/org/owasp/csrfguard/servlet/TokenServlet.java:139-157 | the serialised map is the empty string exactly when the map is empty |
| TokenServlet.WritePageTokens | src/main/java/org/owasp/csrfguard/servlet/TokenServlet.java:113-121 | page-token body is text/plain and its content length equals its length. With no map in the session it is the empty string with length 0, a normal body and not an error. Otherwise it is the serialised map |
| TokenServlet.SerializedLength | src/main/java/org/owasp/csrfguard/servlet/TokenServlet.java:147-153 | for n ≥ 1 entries the output length is Σ(\|k\| + 1 + \|v\|) + (n − 1) |
| TokenServlet.TotalLengthOfEntryTexts | src/main/java/org/owasp/csrfguard/servlet/TokenServlet.java:147-149 | each entry contributes \|k\| + 1 + \|v\| characters |
| TokenServlet.SerializeEnds | src/main/java/org/owasp/csrfguard/servlet/TokenServlet.java:151-153 | a non-empty output starts with the first entry's `key:value` and ends with the last one's, so no separator comma is written before the first entry or after the last |
| TokenServlet.SerializeNoOuterComma | src/main/java/org/owasp/csrfguard/servlet/TokenServlet.java:151-153 | when no key or value contains a separator, a non-empty output neither begins nor ends with a comma |
| TokenServlet.PageTokensContentLength | src/main/java/org/owasp/csrfguard/servlet/TokenServlet.java:121 | in page-token mode with n ≥ 1 entries, the content-length header is Σ(\|k\| + 1 + \|v\|) + (n − 1), the output's length |
| TokenServlet.ParseEntryTexts | src/main/java/org/owasp/csrfguard/servlet/TokenServlet.java:147-149 | when keys and values contain no separators, each `key:value` text reads back as its entry |
| TokenServlet.RoundTrip | src/main/java/org/owasp/csrfguard/servlet/TokenServlet.java:147-153 | when no key or value contains `,` or `:`, splitting the output on `,` and then on `:` recovers exactly the original entries in order. The empty map reads back as empty |
| TokenServlet.SeparatorInValueIsAmbiguous | src/main/java/org/owasp/csrfguard/servlet/TokenServlet.java:147-153 | without that restriction the format is not injective: a one-entry map and a two-entry map serialise identically |
| TokenServlet.ExampleTwoPages | src/main/java/org/owasp/csrfguard/servlet/TokenServlet.java:79-80 | login→abc, checkout→xyz is served as `login:abc,checkout:xyz` with content length 22 |
| TokenServlet.ExampleSingleToken | src/main/java/org/owasp/csrfguard/servlet/TokenServlet.java:76-77 | token name `csrftoken` with session value `deadbeef` is served as `csrftoken:deadbeef`, with no content length, even when per-page tokens are off |
| TokenServlet.ExampleNoPageTokens | src/main/java/org/owasp/csrfguard/servlet/TokenServlet.java:116-121 | a session without a page-token map is served an empty body with content length 0 |
| Text.Join | src/main/java/org/owasp/csrfguard/servlet/TokenServlet.java:151-153 | a non-empty join has length Σ\|part\| + (parts − 1) and begins with the first part |
| Text.JoinSnoc | src/main/java/org/owasp/csrfguard/servlet/TokenServlet.java:151-153 | appending one more entry to a non-empty output adds exactly one comma and that entry |
| Text.JoinEndsWithLast | src/main/java/org/owasp/csrfguard/servlet/TokenServlet.java:151-153 | a non-empty join ends with its last part |
| Text.SplitWithoutSeparator | src/main/java/org/owasp/csrfguard/servlet/TokenServlet.java:147-149 | a piece without the separator splits into itself alone |
| Text.SplitAtFirstSeparator | src/main/java/org/owasp/csrfguard/servlet/TokenServlet.java:148 | splitting `a` + separator + `b`, when `a` has no separator, gives `a` followed by the pieces of `b` |
| Text.SplitJoin | src/main/java/org/owasp/csrfguard/servlet/TokenServlet.java:151-153 | splitting a join of separator-free parts gives back exactly the parts |
| StringBuilders.StringBuilder.constructor | src/main/java/org/owasp/csrfguard/servlet/TokenServlet.java:140 | a new builder holds the empty string |
| StringBuilders.StringBuilder.Append | src/main/java/org/owasp/csrfguard/servlet/TokenServlet.java:147-149 | appending a string extends the contents by exactly that string |
| StringBuilders.StringBuilder.AppendChar | src/main/java/org/owasp/csrfguard/servlet/TokenServlet.java:148-152 | appending a character extends the contents by exactly that character |

## Left out

- `init`, the static `servletConfig` field with its getter, and the configuration printout (lines 52-64) are container lifecycle and logging.
- Output streams and writers are not modelled: acquiring them, `flush`, and the closing in the `finally` blocks. Only the text written is modelled. I/O failures while writing are not modelled either.
- `request.getSession(true)` is not modelled. The session, whether it existed before or was just created, is a parameter. A new session is simply one with no attributes.
- `CsrfGuard.getInstance()` is a parameter. `fetchCsrfToken` reads the singleton a second time, and the model assumes that read returns the same guard.
- `sendError(404)` and `setContentType` are fields and constructors of `Response`, not servlet calls.
- Header lookup compares names exactly. Servlet containers compare header names case-insensitively. This is not modelled.
- Session attributes are typed: a string attribute map and an optional page-token map. The `ClassCastException` that an attribute of the wrong type would raise is not modelled.
- Keys and values in the page-token map are non-null strings. A null value would be appended as `null`, as `ValueOf` shows for the single token.
- The iteration order of a Java `HashMap` is taken as given: it is the order of the entry sequence.
- Concurrent access to the session from simultaneous requests is not modelled. The model reads one snapshot of the session.
- Lengths count Dafny `char`s, which are Unicode scalar values. Java's `String.length()` counts UTF-16 code units. The two counts agree only when no character lies outside the Basic Multilingual Plane; Java counts one extra unit for each character that does. So for such keys, values or token names, the content length the model states (`WritePageTokens`, `SerializedLength`, `PageTokensContentLength`) is smaller than the one the servlet sends. The relations between the lengths hold either way; only the unit differs. Neither count is a byte count. Java's 32-bit `int` cannot overflow for a `String` length, so it is modelled as an unbounded integer.
