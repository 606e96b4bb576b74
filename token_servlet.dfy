/**
 The token endpoint of CSRFGuard: a POST handler that answers either with the
 session's single rotating token (`name:value`) or with every per-page token
 of the session (`page:token,page:token,...`), or with 404 when the guard is
 not available; GET is refused.

 The guard singleton, the request and the session are passed in as values;
 the response is the value the handler would write.
 */
module TokenServlet {
  import opened Wrappers
  import opened Text
  import opened StringBuilders

  /** The configuration of the running guard that the endpoint reads. */
  datatype CsrfGuard = CsrfGuard(tokenName: string, sessionKey: string, tokenPerPageEnabled: bool)

  /** All that is read of a request: its headers. */
  datatype Request = Request(headers: map<string, string>)

  /** No two entries share a key. */
  ghost predicate DistinctKeys(entries: seq<(string, string)>)
  {
    forall i, j :: 0 <= i < j < |entries| ==> entries[i].0 != entries[j].0
  }

  /** The session's page-to-token map, as its entries in iteration order. */
  type PageTokenMap = entries: seq<(string, string)> | DistinctKeys(entries)

  /**
   The session attributes the endpoint reads: string attributes by name, and the
   page-token map stored under the guard's page-token key, which may be absent.
   */
  datatype Session = Session(attributes: map<string, string>, pageTokens: Option<PageTokenMap>)

  /** What the handler produces: a 404, a thrown exception, or a written body. */
  datatype Response =
    | NotFound
    | Failure(message: string)
    | Body(contentType: string, contentLength: Option<int>, text: string)

  const FetchCsrfTokenHeader: string := "FETCH-CSRF-TOKEN"
  const TextPlain: string := "text/plain"
  const GetNotSupported: string := "GET method not supported. Use POST instead."

  /** The request's `getHeader`: the header's value, or null when the request does not carry it. */
  function GetHeader(request: Request, name: string): (r: Option<string>)
    ensures r.Some? <==> name in request.headers
    ensures r.Some? ==> r.value == request.headers[name]
  {
    if name in request.headers then Some(request.headers[name]) else None
  }

  /** The session's `getAttribute` for a string attribute: its value, or null when it is not set. */
  function GetAttribute(session: Session, name: string): (r: Option<string>)
    ensures r.Some? <==> name in session.attributes
    ensures r.Some? ==> r.value == session.attributes[name]
  {
    if name in session.attributes then Some(session.attributes[name]) else None
  }

  /** How Java's string concatenation and `StringBuilder.append` render a possibly-null string. */
  function ValueOf(s: Option<string>): (r: string)
    ensures s.Some? ==> r == s.value
    ensures s.None? ==> r == "null"
  {
    match s
    case Some(v) => v
    case None => "null"
  }

  // ---------------------------------------------------------------- dispatch

  /** GET is never served: it always fails, whatever the request. */
  function DoGet(request: Request): (r: Response)
    ensures r.Failure? && r.message == GetNotSupported
  {
    Failure(GetNotSupported)
  }

  /**
   POST: single-token mode when the guard exists and the fetch header is present
   (whatever the per-page setting), page-token mode when the guard exists, the
   header is absent and per-page tokens are enabled, and 404 otherwise — in
   particular always 404 without a guard, header or not. It never fails.
   */
  function DoPost(guard: Option<CsrfGuard>, request: Request, session: Session): (r: Response)
    ensures !r.Failure?
    ensures r.Body? ==> r.contentType == TextPlain
    ensures r.Body? && r.contentLength.None?
            <==> guard.Some? && GetHeader(request, FetchCsrfTokenHeader).Some?
    ensures r.Body? && r.contentLength.Some?
            <==> guard.Some? && GetHeader(request, FetchCsrfTokenHeader).None? && guard.value.tokenPerPageEnabled
    ensures r.NotFound?
            <==> guard.None? || (GetHeader(request, FetchCsrfTokenHeader).None? && !guard.value.tokenPerPageEnabled)
    ensures guard.Some? && GetHeader(request, FetchCsrfTokenHeader).Some? ==>
              r == FetchCsrfToken(guard.value, session)
    ensures guard.Some? && GetHeader(request, FetchCsrfTokenHeader).None? && guard.value.tokenPerPageEnabled ==>
              r == WritePageTokens(session)
  {
    var isFetchCsrfToken := GetHeader(request, FetchCsrfTokenHeader);
    if guard.Some? && isFetchCsrfToken.Some? then
      FetchCsrfToken(guard.value, session)
    else if guard.Some? && guard.value.tokenPerPageEnabled then
      WritePageTokens(session)
    else
      NotFound
  }

  // ---------------------------------------------------------- single token

  /**
   The single-token response: a plain-text body with no content length, made of
   the token name, one colon, and the session's token value, where an absent
   value is written as Java writes a null string.
   */
  function FetchCsrfToken(guard: CsrfGuard, session: Session): (r: Response)
    ensures r.Body? && r.contentType == TextPlain && r.contentLength.None?
    ensures var value := ValueOf(GetAttribute(session, guard.sessionKey));
            |r.text| == |guard.tokenName| + 1 + |value|
            && r.text[..|guard.tokenName|] == guard.tokenName
            && r.text[|guard.tokenName|] == ':'
            && r.text[|guard.tokenName| + 1..] == value
    ensures GetAttribute(session, guard.sessionKey).None? ==> r.text == guard.tokenName + ":null"
  {
    var tokenValue := GetAttribute(session, guard.sessionKey);
    var tokenPair := guard.tokenName + ":" + ValueOf(tokenValue);
    Body(TextPlain, None, tokenPair)
  }

  /** A client splitting the single-token body at colons gets the name and the value back. */
  lemma SingleTokenRoundTrip(guard: CsrfGuard, session: Session)
    requires ':' !in guard.tokenName
    requires ':' !in ValueOf(GetAttribute(session, guard.sessionKey))
    ensures Split(FetchCsrfToken(guard, session).text, ':')
            == [guard.tokenName, ValueOf(GetAttribute(session, guard.sessionKey))]
  {
    var value := ValueOf(GetAttribute(session, guard.sessionKey));
    SplitAtFirstSeparator(guard.tokenName, ':', value);
    SplitWithoutSeparator(value, ':');
  }

  // ------------------------------------------------------------ page tokens

  /** One serialised entry, `key:value`. */
  function EntryText(entry: (string, string)): (r: string)
  {
    entry.0 + ":" + entry.1
  }

  /** An entry's text is the key, exactly one colon, then the value. */
  lemma EntryTextShape(entry: (string, string))
    ensures var r := EntryText(entry);
            |r| == |entry.0| + 1 + |entry.1|
            && r[..|entry.0|] == entry.0 && r[|entry.0|] == ':' && r[|entry.0| + 1..] == entry.1
  {
  }

  function EntryTexts(entries: seq<(string, string)>): (r: seq<string>)
  {
    seq(|entries|, i requires 0 <= i < |entries| => EntryText(entries[i]))
  }

  /** The page-token body: the entries' `key:value` texts in iteration order, joined by single commas. */
  function Serialize(entries: seq<(string, string)>): (r: string)
    ensures r == "" <==> |entries| == 0
  {
    Join(',', EntryTexts(entries))
  }

  /** The map's key iterator: the keys in the map's iteration order. */
  function Keys(entries: PageTokenMap): (keys: seq<string>)
  {
    seq(|entries|, i requires 0 <= i < |entries| => entries[i].0)
  }

  /**
   The key iterator yields the i-th entry's key at position i, and each key of
   the map exactly once: the keys are
   pairwise distinct, and a string is among them exactly when `get` finds a
   value for it.
   */
  lemma KeysAreKeySet(entries: PageTokenMap)
    ensures var keys := Keys(entries);
            |keys| == |entries| && (forall i :: 0 <= i < |entries| ==> keys[i] == entries[i].0)
            && (forall i, j :: 0 <= i < j < |keys| ==> keys[i] != keys[j])
            && (forall k :: k in keys <==> Lookup(entries, k).Some?)
  {
    var keys := Keys(entries);
    forall k | k in keys ensures Lookup(entries, k).Some? {
      var i :| 0 <= i < |keys| && keys[i] == k;
      LookupKeyAt(entries, i);
    }
    forall k | Lookup(entries, k).Some? ensures k in keys {
      var i :| 0 <= i < |entries| && entries[i] == (k, Lookup(entries, k).value);
      assert keys[i] == k;
    }
  }

  /** The map's `get`: the value of the first entry with `key`, if any. */
  function Lookup(entries: seq<(string, string)>, key: string): (r: Option<string>)
    ensures r.Some? ==> (key, r.value) in entries
    ensures r.None? ==> forall i :: 0 <= i < |entries| ==> entries[i].0 != key
  {
    if |entries| == 0 then None
    else if entries[0].0 == key then Some(entries[0].1)
    else Lookup(entries[1..], key)
  }

  /** With distinct keys, looking up an entry's key finds that entry's value. */
  lemma LookupKeyAt(entries: PageTokenMap, i: nat)
    requires i < |entries|
    ensures Lookup(entries, entries[i].0) == Some(entries[i].1)
  {
  }

  /**
   What the serialiser has built after visiting the first `i` of the entry
   texts: their join, followed by a comma while more entries remain.
   */
  ghost function Built(texts: seq<string>, i: nat): (r: string)
    requires i <= |texts|
  {
    if i == 0 then "" else Join(',', texts[..i]) + (if i < |texts| then "," else "")
  }

  /** Visiting entry `i` appends its text, and a comma unless it is the last. */
  lemma BuiltStep(texts: seq<string>, i: nat)
    requires i < |texts|
    ensures Built(texts, i + 1) == Built(texts, i) + texts[i] + (if i + 1 < |texts| then "," else "")
  {
    if i > 0 {
      assert texts[..i + 1] == texts[..i] + [texts[i]];
      JoinSnoc(',', texts[..i], texts[i]);
    } else {
      assert texts[..1] == [texts[0]];
    }
  }

  /** One loop iteration in the order of its appends: key, colon, value, then the comma if keys remain. */
  lemma EntryStep(entries: seq<(string, string)>, i: nat, built: string, key: string, value: string)
    requires i < |entries| && built == Built(EntryTexts(entries), i)
    requires key == entries[i].0 && value == entries[i].1
    ensures i + 1 < |entries| ==> built + key + ":" + value + "," == Built(EntryTexts(entries), i + 1)
    ensures i + 1 == |entries| ==> built + key + ":" + value == Built(EntryTexts(entries), i + 1)
  {
    var texts := EntryTexts(entries);
    BuiltStep(texts, i);
    assert texts[i] == key + ":" + value;
  }

  /** Once every entry is visited, what was built is the serialised map. */
  lemma BuiltAll(entries: seq<(string, string)>)
    ensures Built(EntryTexts(entries), |entries|) == Serialize(entries)
  {
    var texts := EntryTexts(entries);
    assert texts[..|texts|] == texts;
  }

  /**
   The serialiser loop: walks the keys, appends `key:value` for each, and a comma
   only while more keys remain; the result is the comma-join of the entries.
   */
  method ParsePageTokens(pageTokens: PageTokenMap) returns (text: string)
    ensures text == Serialize(pageTokens)
  {
    ghost var texts := EntryTexts(pageTokens);
    ghost var built := "";
    var sb := new StringBuilder();
    var keys := Keys(pageTokens);
    var i := 0;
    while i < |keys|
      invariant 0 <= i <= |keys|
      invariant sb.chars == built
      invariant built == Built(texts, i)
    {
      var key := keys[i];
      i := i + 1;
      LookupKeyAt(pageTokens, i - 1);
      var value := ValueOf(Lookup(pageTokens, key));
      EntryStep(pageTokens, i - 1, built, key, value);
      sb.Append(key);
      sb.AppendChar(':');
      sb.Append(value);
      built := built + key + ":" + value;
      if i < |keys| {
        sb.AppendChar(',');
        built := built + ",";
      }
    }
    BuiltAll(pageTokens);
    text := sb.ToString();
  }

  /**
   The page-token response: a plain-text body holding the serialised map, or the
   empty string when the session has no map, with the content length set to the
   length of that body.
   */
  function WritePageTokens(session: Session): (r: Response)
    ensures r.Body? && r.contentType == TextPlain
    ensures r.contentLength == Some(|r.text|)
    ensures session.pageTokens.None? ==> r.text == "" && r.contentLength == Some(0)
    ensures session.pageTokens.Some? ==> r.text == Serialize(session.pageTokens.value)
  {
    var pageTokensString := if session.pageTokens.Some? then Serialize(session.pageTokens.value) else "";
    Body(TextPlain, Some(|pageTokensString|), pageTokensString)
  }

  // ---------------------------------------------------- serialiser properties

  /** Sum over the entries of |key| + 1 + |value|. */
  function EntriesLength(entries: seq<(string, string)>): (r: nat)
  {
    if |entries| == 0 then 0 else |entries[0].0| + 1 + |entries[0].1| + EntriesLength(entries[1..])
  }

  lemma {:induction false} TotalLengthOfEntryTexts(entries: seq<(string, string)>)
    ensures TotalLength(EntryTexts(entries)) == EntriesLength(entries)
  {
    if |entries| > 0 {
      assert EntryTexts(entries)[1..] == EntryTexts(entries[1..]);
      TotalLengthOfEntryTexts(entries[1..]);
    }
  }

  /** For n >= 1 entries the body has length Σ(|k| + 1 + |v|) + (n - 1). */
  lemma SerializedLength(entries: seq<(string, string)>)
    requires |entries| > 0
    ensures |Serialize(entries)| == EntriesLength(entries) + |entries| - 1
  {
    TotalLengthOfEntryTexts(entries);
  }

  /**
   A non-empty body begins with the first entry and ends with the last, so no
   comma is written before the first entry or after the last.
   */
  lemma SerializeEnds(entries: seq<(string, string)>)
    requires |entries| > 0
    ensures var s := Serialize(entries);
            var first := EntryText(entries[0]);
            var last := EntryText(entries[|entries| - 1]);
            |first| <= |s| && s[..|first|] == first
            && |last| <= |s| && s[|s| - |last|..] == last
  {
    JoinEndsWithLast(',', EntryTexts(entries));
  }

  /**
   When no key or value contains a separator, a non-empty body neither begins
   nor ends with a comma.
   */
  lemma SerializeNoOuterComma(entries: seq<(string, string)>)
    requires |entries| > 0 && NoSeparators(entries)
    ensures var s := Serialize(entries); s[0] != ',' && s[|s| - 1] != ','
  {
    SerializeEnds(entries);
    var s := Serialize(entries);
    var first := EntryText(entries[0]);
    var last := EntryText(entries[|entries| - 1]);
    assert s[0] == first[0];
    if |entries[0].0| > 0 {
      assert first[0] == entries[0].0[0];
    }
    assert s[|s| - 1] == last[|last| - 1];
    if |entries[|entries| - 1].1| > 0 {
      var v := entries[|entries| - 1].1;
      assert last[|last| - 1] == v[|v| - 1];
    }
  }

  /** The content length announced for page tokens is the serialised length. */
  lemma PageTokensContentLength(guard: CsrfGuard, request: Request, session: Session)
    requires GetHeader(request, FetchCsrfTokenHeader).None? && guard.tokenPerPageEnabled
    requires session.pageTokens.Some? && |session.pageTokens.value| > 0
    ensures var m := session.pageTokens.value;
            DoPost(Some(guard), request, session)
            == Body(TextPlain, Some(EntriesLength(m) + |m| - 1), Serialize(m))
  {
    SerializedLength(session.pageTokens.value);
  }

  // --------------------------------------------- the client-side partner

  /** Neither separator occurs in any key or value. */
  predicate NoSeparators(entries: seq<(string, string)>)
  {
    forall i :: 0 <= i < |entries| ==>
      ',' !in entries[i].0 && ':' !in entries[i].0 && ',' !in entries[i].1 && ':' !in entries[i].1
  }

  /** Reads one `key:value` piece; anything but exactly one colon is rejected. */
  function ParseEntry(piece: string): (r: Option<(string, string)>)
  {
    var parts := Split(piece, ':');
    if |parts| == 2 then Some((parts[0], parts[1])) else None
  }

  function ParseEntries(pieces: seq<string>): (r: Option<seq<(string, string)>>)
  {
    if |pieces| == 0 then Some([])
    else
      match (ParseEntry(pieces[0]), ParseEntries(pieces[1..]))
      case (Some(e), Some(rest)) => Some([e] + rest)
      case _ => None
  }

  /** How a client reads a page-token body: split at commas, then each piece at its colon. */
  function ParsePageTokenText(s: string): (r: Option<seq<(string, string)>>)
  {
    if s == "" then Some([]) else ParseEntries(Split(s, ','))
  }

  lemma {:induction false} ParseEntryTexts(entries: seq<(string, string)>)
    requires NoSeparators(entries)
    ensures ParseEntries(EntryTexts(entries)) == Some(entries)
  {
    if |entries| > 0 {
      var e := entries[0];
      SplitAtFirstSeparator(e.0, ':', e.1);
      SplitWithoutSeparator(e.1, ':');
      assert ParseEntry(EntryText(e)) == Some(e);
      assert EntryTexts(entries)[1..] == EntryTexts(entries[1..]);
      ParseEntryTexts(entries[1..]);
      assert [e] + entries[1..] == entries;
    }
  }

  /**
   Round trip: when no key or value contains ',' or ':', splitting the body on ','
   and then on ':' recovers exactly the entries, in order.
   */
  lemma RoundTrip(entries: seq<(string, string)>)
    requires NoSeparators(entries)
    ensures ParsePageTokenText(Serialize(entries)) == Some(entries)
  {
    var texts := EntryTexts(entries);
    if |entries| > 0 {
      assert |texts[0]| > 0 by { assert texts[0] == EntryText(entries[0]); }
      assert Serialize(entries) != "";
      forall i | 0 <= i < |texts| ensures ',' !in texts[i] {
        assert texts[i] == entries[i].0 + ":" + entries[i].1;
      }
      SplitJoin(',', texts);
      ParseEntryTexts(entries);
    }
  }

  /**
   Without the separator restriction the body is ambiguous: a value holding
   ",k:v" serialises exactly like a second entry.
   */
  lemma SeparatorInValueIsAmbiguous()
    ensures Serialize([("a", "b,c:d")]) == Serialize([("a", "b"), ("c", "d")])
  {
  }

  // -------------------------------------------------------------- examples

  lemma ExampleTwoPages(guard: CsrfGuard, request: Request)
    requires GetHeader(request, FetchCsrfTokenHeader).None? && guard.tokenPerPageEnabled
    ensures DoPost(Some(guard), request, Session(map[], Some([("login", "abc"), ("checkout", "xyz")])))
            == Body(TextPlain, Some(22), "login:abc,checkout:xyz")
  {
    var m := [("login", "abc"), ("checkout", "xyz")];
    var texts := EntryTexts(m);
    assert texts[1..] == [texts[1]];
    assert Serialize(m) == texts[0] + [','] + texts[1];
    assert texts[0] == "login:abc";
    assert texts[1] == "checkout:xyz";
  }

  lemma ExampleSingleToken(request: Request)
    requires GetHeader(request, FetchCsrfTokenHeader).Some?
    ensures DoPost(Some(CsrfGuard("csrftoken", "key", false)), request, Session(map["key" := "deadbeef"], None))
            == Body(TextPlain, None, "csrftoken:deadbeef")
  {
    var session := Session(map["key" := "deadbeef"], None);
    assert GetAttribute(session, "key") == Some("deadbeef");
  }

  lemma ExampleNoPageTokens(guard: CsrfGuard, request: Request)
    requires GetHeader(request, FetchCsrfTokenHeader).None? && guard.tokenPerPageEnabled
    ensures DoPost(Some(guard), request, Session(map[], None)) == Body(TextPlain, Some(0), "")
  {
  }
}
