/** HttpRequest: request line, headers and a replaceable body, with the
    ad-hoc decoders for form bodies and the session cookie. */
module Request {
  import opened Wrappers
  import opened JavaString

  /** The HTTP method of the request line, kept as an opaque name. */
  datatype Method = Method(name: string)

  datatype RequestLine = RequestLine(httpMethod: Method, path: string, version: string)

  /** Header name to value, names as received. */
  datatype HttpHeader = HttpHeader(headers: map<string, string>)

  datatype RequestBody = RequestBody(body: string)

  /** `body` is `None` when the Java field holds null. */
  datatype HttpRequest = HttpRequest(requestLine: RequestLine, header: HttpHeader, body: Option<RequestBody>)

  const PairSeparator: char := '&'
  const KeyValueSeparator: char := '='
  const CookieSeparator: char := ';'
  const CookieHeader: string := "Cookie"
  const SessionCookieName: string := "JSESSIONID"

  // ---------------------------------------------------------------------
  // Accessors

  function GetMethod(req: HttpRequest): Method { req.requestLine.httpMethod }

  function GetPath(req: HttpRequest): string { req.requestLine.path }

  function GetVersion(req: HttpRequest): string { req.requestLine.version }

  function GetHeaders(req: HttpRequest): map<string, string> { req.header.headers }

  /** getBody dereferences the body field: a null body throws. */
  function GetBody(req: HttpRequest): (r: Result<string, Exception>)
    ensures r.Failure? <==> req.body.None?
    ensures r.Failure? ==> r.error == NullPointer
  {
    match req.body
    case None => Failure(NullPointer)
    case Some(b) => Success(b.body)
  }

  /** setBody replaces the body; the request line and headers are final. */
  function SetBody(req: HttpRequest, text: string): (r: HttpRequest)
    ensures GetBody(r) == Success(text)
    ensures GetMethod(r) == GetMethod(req) && GetPath(r) == GetPath(req)
    ensures GetVersion(r) == GetVersion(req) && GetHeaders(r) == GetHeaders(req)
  {
    req.(body := Some(RequestBody(text)))
  }

  // ---------------------------------------------------------------------
  // Form bodies

  /** A pair that `param.split("=")` turns into at least two strings: it has
      an '=' and something other than '=' after the first one. */
  predicate WellFormedPair(param: string) {
    KeyValueSeparator in param && HasTextAfterFirst(param, KeyValueSeparator)
  }

  /** The key of a pair: the text before its first '='. */
  function PairKey(param: string): string {
    FirstField(param, KeyValueSeparator)
  }

  /** The value of a pair: the text between its first and second '='. */
  function PairValue(param: string): string
    requires KeyValueSeparator in param
  {
    SecondField(param, KeyValueSeparator)
  }

  /** `param.split("=")` indexed at 0 and 1 succeeds exactly on well-formed
      pairs, and yields the key and the value. */
  lemma PairDecodes(param: string)
    ensures |Split(param, KeyValueSeparator)| >= 2 <==> WellFormedPair(param)
    ensures WellFormedPair(param) ==>
              Split(param, KeyValueSeparator)[0] == PairKey(param)
              && Split(param, KeyValueSeparator)[1] == PairValue(param)
  {
    SplitHasSecondIff(param, KeyValueSeparator);
    SplitFields(param, KeyValueSeparator);
  }

  /** The for-loop of parseFormBody: each pair in turn is put into the map,
      and the first pair that cannot be indexed aborts the whole decoding. */
  function PutPairs(acc: map<string, string>, params: seq<string>): (r: Result<map<string, string>, Exception>)
    ensures r.Failure? ==> r.error == IndexOutOfBounds
    ensures r.Success? ==> acc.Keys <= r.value.Keys
    decreases |params|
  {
    if params == [] then Success(acc)
    else
      var keyValue := Split(params[0], KeyValueSeparator);
      if |keyValue| < 2 then Failure(IndexOutOfBounds)
      else PutPairs(acc[keyValue[0] := keyValue[1]], params[1..])
  }

  /** The `&`-separated pairs of a body, as `body.split("&")` returns them:
      no pair contains '&', re-joined they give the body up to a tail of '&',
      and there are none exactly when the body is only '&'. */
  function FormPairs(body: string): (pairs: seq<string>)
    ensures forall k :: 0 <= k < |pairs| ==> PairSeparator !in pairs[k]
    ensures |Join(pairs, PairSeparator)| <= |body|
    ensures body[..|Join(pairs, PairSeparator)|] == Join(pairs, PairSeparator)
    ensures AllChar(body[|Join(pairs, PairSeparator)|..], PairSeparator)
    ensures pairs == [] <==> body != "" && AllChar(body, PairSeparator)
  {
    SplitReconstructs(body, PairSeparator);
    SplitEmptyIff(body, PairSeparator);
    Split(body, PairSeparator)
  }

  /** parseFormBody: the empty map for a null body, otherwise the pairs put
      into a fresh map from left to right. */
  function ParseFormBody(req: HttpRequest): (r: Result<map<string, string>, Exception>)
    ensures req.body.None? ==> r == Success(map[])
    ensures r.Failure? ==> r.error == IndexOutOfBounds
  {
    match req.body
    case None => Success(map[])
    case Some(b) => PutPairs(map[], FormPairs(b.body))
  }

  /** getFormValue: decoding errors propagate; an absent key is not an error. */
  function GetFormValue(req: HttpRequest, key: string): (r: Result<Option<string>, Exception>)
    ensures r.Failure? <==> ParseFormBody(req).Failure?
    ensures r.Success? ==> (r.value.None? <==> key !in ParseFormBody(req).value)
    ensures r.Success? && r.value.Some? ==> r.value.value == ParseFormBody(req).value[key]
  {
    var formBody := ParseFormBody(req);
    if formBody.Failure? then Failure(formBody.error)
    else if key !in formBody.value then Success(None)
    else Success(Some(formBody.value[key]))
  }

  /** No later pair in `params` has the same key as pair `k`. */
  predicate LastWithKey(params: seq<string>, k: nat)
    requires k < |params|
  {
    forall j :: k < j < |params| ==> PairKey(params[j]) != PairKey(params[k])
  }

  /** Decoding fails exactly when some pair is not well formed. */
  lemma {:induction false} PutPairsFailsIff(acc: map<string, string>, params: seq<string>)
    ensures PutPairs(acc, params).Failure? <==>
              exists k :: 0 <= k < |params| && !WellFormedPair(params[k])
    decreases |params|
  {
    if params != [] {
      PairDecodes(params[0]);
      if WellFormedPair(params[0]) {
        var kv := Split(params[0], KeyValueSeparator);
        var rest := params[1..];
        PutPairsFailsIff(acc[kv[0] := kv[1]], rest);
        if exists k :: 0 <= k < |rest| && !WellFormedPair(rest[k]) {
          var k :| 0 <= k < |rest| && !WellFormedPair(rest[k]);
          assert params[k + 1] == rest[k];
        }
        if exists k :: 0 <= k < |params| && !WellFormedPair(params[k]) {
          var k :| 0 <= k < |params| && !WellFormedPair(params[k]);
          assert rest[k - 1] == params[k];
        }
      }
    }
  }

  /** After a successful decoding every pair was well formed. */
  lemma WellFormedWhenDecoded(acc: map<string, string>, params: seq<string>)
    requires PutPairs(acc, params).Success?
    ensures forall k :: 0 <= k < |params| ==> WellFormedPair(params[k])
  {
    PutPairsFailsIff(acc, params);
  }

  /** One decoding step: the first pair is put, then the rest decoded. */
  lemma PutPairsStep(acc: map<string, string>, params: seq<string>)
    requires params != [] && WellFormedPair(params[0])
    ensures PutPairs(acc, params)
              == PutPairs(acc[PairKey(params[0]) := PairValue(params[0])], params[1..])
  {
    PairDecodes(params[0]);
  }

  /** The decoded keys are those of `acc` together with the keys of the pairs. */
  lemma {:induction false} PutPairsKeys(acc: map<string, string>, params: seq<string>)
    requires PutPairs(acc, params).Success?
    ensures forall key :: key in PutPairs(acc, params).value <==>
              key in acc || exists k :: 0 <= k < |params| && PairKey(params[k]) == key
    decreases |params|
  {
    if params != [] {
      WellFormedWhenDecoded(acc, params);
      var p := params[0];
      var rest := params[1..];
      var acc' := acc[PairKey(p) := PairValue(p)];
      PutPairsStep(acc, params);
      PutPairsKeys(acc', rest);
      var m := PutPairs(acc, params).value;
      forall key
        ensures key in m <==> key in acc || exists k :: 0 <= k < |params| && PairKey(params[k]) == key
      {
        if exists k :: 0 <= k < |rest| && PairKey(rest[k]) == key {
          var k :| 0 <= k < |rest| && PairKey(rest[k]) == key;
          assert params[k + 1] == rest[k];
        }
        if exists k :: 0 <= k < |params| && PairKey(params[k]) == key {
          var k :| 0 <= k < |params| && PairKey(params[k]) == key;
          if k > 0 {
            assert rest[k - 1] == params[k];
          }
        }
      }
    }
  }

  /** A key of `acc` that no pair mentions keeps its value. */
  lemma {:induction false} PutPairsUntouched(acc: map<string, string>, params: seq<string>, key: string)
    requires PutPairs(acc, params).Success?
    requires key in acc
    requires forall k :: 0 <= k < |params| ==> PairKey(params[k]) != key
    ensures key in PutPairs(acc, params).value
    ensures PutPairs(acc, params).value[key] == acc[key]
    decreases |params|
  {
    if params != [] {
      WellFormedWhenDecoded(acc, params);
      var p := params[0];
      var rest := params[1..];
      PutPairsStep(acc, params);
      assert PairKey(p) != key;
      forall k | 0 <= k < |rest| ensures PairKey(rest[k]) != key {
        assert rest[k] == params[k + 1];
      }
      PutPairsUntouched(acc[PairKey(p) := PairValue(p)], rest, key);
    }
  }

  /** Last one wins: a key takes the value of the last pair that carries it. */
  lemma {:induction false} PutPairsLastWins(acc: map<string, string>, params: seq<string>, k: nat)
    requires PutPairs(acc, params).Success?
    requires k < |params| && LastWithKey(params, k)
    ensures KeyValueSeparator in params[k]
    ensures PairKey(params[k]) in PutPairs(acc, params).value
    ensures PutPairs(acc, params).value[PairKey(params[k])] == PairValue(params[k])
    decreases |params|
  {
    WellFormedWhenDecoded(acc, params);
    var p := params[0];
    var rest := params[1..];
    var acc' := acc[PairKey(p) := PairValue(p)];
    PutPairsStep(acc, params);
    if k == 0 {
      forall j | 0 <= j < |rest| ensures PairKey(rest[j]) != PairKey(p) {
        assert rest[j] == params[j + 1];
      }
      PutPairsUntouched(acc', rest, PairKey(p));
    } else {
      assert rest[k - 1] == params[k];
      assert LastWithKey(rest, k - 1) by {
        forall j | k - 1 < j < |rest| ensures PairKey(rest[j]) != PairKey(rest[k - 1]) {
          assert rest[j] == params[j + 1];
        }
      }
      PutPairsLastWins(acc', rest, k - 1);
    }
  }

  /** parseFormBody on a present body: it fails exactly when some pair is
      malformed; otherwise its keys are exactly the pairs' keys. */
  lemma FormBodyDecodes(req: HttpRequest)
    requires req.body.Some?
    ensures ParseFormBody(req).Failure? <==>
              exists k :: 0 <= k < |FormPairs(req.body.value.body)|
                          && !WellFormedPair(FormPairs(req.body.value.body)[k])
    ensures ParseFormBody(req).Success? ==>
              forall key :: key in ParseFormBody(req).value <==>
                exists k :: 0 <= k < |FormPairs(req.body.value.body)|
                            && PairKey(FormPairs(req.body.value.body)[k]) == key
  {
    var pairs := FormPairs(req.body.value.body);
    PutPairsFailsIff(map[], pairs);
    if ParseFormBody(req).Success? {
      PutPairsKeys(map[], pairs);
    }
  }

  /** getFormValue on a decodable body: None exactly when no pair has the key. */
  lemma FormValueAbsentIff(req: HttpRequest, key: string)
    requires req.body.Some? && ParseFormBody(req).Success?
    ensures GetFormValue(req, key) == Success(None) <==>
              forall k :: 0 <= k < |FormPairs(req.body.value.body)| ==>
                PairKey(FormPairs(req.body.value.body)[k]) != key
  {
    FormBodyDecodes(req);
  }

  /** getFormValue on a decodable body returns the value of the last pair
      carrying the key. */
  lemma FormValueIsLastPair(req: HttpRequest, k: nat)
    requires req.body.Some? && ParseFormBody(req).Success?
    requires k < |FormPairs(req.body.value.body)| && LastWithKey(FormPairs(req.body.value.body), k)
    ensures KeyValueSeparator in FormPairs(req.body.value.body)[k]
    ensures GetFormValue(req, PairKey(FormPairs(req.body.value.body)[k]))
              == Success(Some(PairValue(FormPairs(req.body.value.body)[k])))
  {
    PutPairsLastWins(map[], FormPairs(req.body.value.body), k);
  }

  /** A trailing '&' is harmless: the split drops the empty last pair. */
  lemma TrailingSeparatorIgnored(req: HttpRequest, body: string)
    requires body != ""
    ensures ParseFormBody(SetBody(req, body + [PairSeparator])) == ParseFormBody(SetBody(req, body))
  {
    SplitTrailingSeparator(body, PairSeparator);
  }

  /** `"k=v".split("=")` for a one-character key and value. */
  lemma SplitSimplePair(k: char, v: char)
    requires k != KeyValueSeparator && v != KeyValueSeparator
    ensures Split([k, KeyValueSeparator, v], KeyValueSeparator) == [[k], [v]]
  {
    assert Join([[k], [v]], KeyValueSeparator) == [k, KeyValueSeparator, v];
    SplitOfJoin([[k], [v]], KeyValueSeparator);
  }

  /** An example body with two pairs decodes to two entries. */
  lemma FormBodyTwoPairs(req: HttpRequest)
    ensures ParseFormBody(SetBody(req, "a=1&b=2")) == Success(map["a" := "1", "b" := "2"])
  {
    var r := SetBody(req, "a=1&b=2");
    assert ParseFormBody(r) == PutPairs(map[], FormPairs("a=1&b=2"));
    TwoPairsSplit();
    TwoPairsDecode();
  }

  /** For FormBodyTwoPairs: the body splits into its two pairs. */
  lemma TwoPairsSplit()
    ensures FormPairs("a=1&b=2") == ["a=1", "b=2"]
  {
    var params := ["a=1", "b=2"];
    assert Join(params, '&') == "a=1&b=2";
    SplitOfJoin(params, '&');
  }

  /** For FormBodyTwoPairs: the two pairs decode into two entries. */
  lemma TwoPairsDecode()
    ensures PutPairs(map[], ["a=1", "b=2"]) == Success(map["a" := "1", "b" := "2"])
  {
    SplitSimplePair('a', '1');
    SplitSimplePair('b', '2');
    var params := ["a=1", "b=2"];
    var m1 := map["a" := "1"];
    assert PutPairs(map[], params) == PutPairs(m1, ["b=2"]) by {
      assert params[1..] == ["b=2"];
    }
    assert PutPairs(m1, ["b=2"]) == PutPairs(m1["b" := "2"], []);
  }

  /** A body without '&' is a single pair: it decodes if and only if that
      pair is well formed. So `""`, `"a"` and `"a="` fail. */
  lemma SinglePairBody(req: HttpRequest, body: string)
    requires PairSeparator !in body
    ensures ParseFormBody(SetBody(req, body)).Failure? <==> !WellFormedPair(body)
  {
    assert FormPairs(body) == [body];
    PutPairsFailsIff(map[], [body]);
  }

  /** The bodies `""`, `"a"` and `"a="` are single malformed pairs, so
      decoding each of them fails. */
  lemma MalformedSinglePairs(req: HttpRequest)
    ensures ParseFormBody(SetBody(req, "")) == Failure(IndexOutOfBounds)
    ensures ParseFormBody(SetBody(req, "a")) == Failure(IndexOutOfBounds)
    ensures ParseFormBody(SetBody(req, "a=")) == Failure(IndexOutOfBounds)
  {
    assert "a" + ['='] + "" == "a=";
    IndexOfAfterPrefix("a", "", '=');
    assert !WellFormedPair("") && !WellFormedPair("a") && !WellFormedPair("a=");
    assert PairSeparator !in "a" && PairSeparator !in "a=";
    SinglePairBody(req, "");
    SinglePairBody(req, "a");
    SinglePairBody(req, "a=");
  }

  /** An empty pair between two '&' makes decoding fail. */
  lemma EmptyInteriorPairFails(req: HttpRequest)
    ensures ParseFormBody(SetBody(req, "a=1&&b=2")) == Failure(IndexOutOfBounds)
  {
    var r := SetBody(req, "a=1&&b=2");
    assert ParseFormBody(r) == PutPairs(map[], FormPairs("a=1&&b=2"));
    EmptyInteriorPairSplit();
    var pairs := ["a=1", "", "b=2"];
    assert !WellFormedPair(pairs[1]);
    PutPairsFailsIff(map[], pairs);
  }

  /** For EmptyInteriorPairFails: the body splits with an empty middle pair. */
  lemma EmptyInteriorPairSplit()
    ensures FormPairs("a=1&&b=2") == ["a=1", "", "b=2"]
  {
    var pairs := ["a=1", "", "b=2"];
    assert Join(pairs, '&') == "a=1&&b=2";
    SplitOfJoin(pairs, '&');
  }

  /** A body made only of '&' decodes to the empty map. */
  lemma FormBodyOnlySeparators(req: HttpRequest)
    ensures ParseFormBody(SetBody(req, "&")) == Success(map[])
  {
    SplitEmptyIff("&", '&');
  }

  // ---------------------------------------------------------------------
  // Session cookie

  /** headers.getOrDefault("Cookie", ""): the header's value when the header
      is present, and the empty string when it is not. */
  function CookieValue(req: HttpRequest): (v: string)
    ensures CookieHeader in req.header.headers ==> v == req.header.headers[CookieHeader]
    ensures CookieHeader !in req.header.headers ==> v == ""
  {
    var headers := GetHeaders(req);
    if CookieHeader in headers then headers[CookieHeader] else ""
  }

  /** The loop of getSessionId: the first cookie whose text contains
      "JSESSIONID" decides; its `split("=")[1]` is the result. */
  function ScanCookies(cookies: seq<string>): (r: Result<string, Exception>)
    ensures r.Success? ==> KeyValueSeparator !in r.value
    ensures (forall k :: 0 <= k < |cookies| ==> CookieSeparator !in cookies[k]) && r.Success? ==>
              CookieSeparator !in r.value
    ensures (forall k :: 0 <= k < |cookies| ==> !Contains(cookies[k], SessionCookieName)) ==>
              r == Success("")
    ensures r.Failure? ==> r.error == IndexOutOfBounds
    decreases |cookies|
  {
    if cookies == [] then Success("")
    else if Contains(cookies[0], SessionCookieName) then
      var keyValue := Split(cookies[0], KeyValueSeparator);
      if |keyValue| < 2 then Failure(IndexOutOfBounds)
      else
        assert keyValue[1] == Pieces(cookies[0], KeyValueSeparator)[1];
        Success(keyValue[1])
    else
      assert forall k :: 0 <= k < |cookies| - 1 ==> cookies[1..][k] == cookies[k + 1];
      ScanCookies(cookies[1..])
  }

  /** getSessionId: scans `Cookie` split on ';'. */
  function GetSessionId(req: HttpRequest): (r: Result<string, Exception>)
    ensures r.Success? ==> KeyValueSeparator !in r.value && CookieSeparator !in r.value
    ensures CookieHeader !in GetHeaders(req) ==> r == Success("")
    ensures (forall k :: 0 <= k < |Split(CookieValue(req), CookieSeparator)| ==>
               !Contains(Split(CookieValue(req), CookieSeparator)[k], SessionCookieName)) ==>
              r == Success("")
  {
    var cookies := Split(CookieValue(req), CookieSeparator);
    assert CookieHeader !in GetHeaders(req) ==> cookies == [""] && !Contains("", SessionCookieName);
    ScanCookies(cookies)
  }

  /** The first matching cookie decides: its value when it has one after
      '=', a failure otherwise. */
  lemma {:induction false} FirstSessionCookieDecides(cookies: seq<string>, i: nat)
    requires i < |cookies| && Contains(cookies[i], SessionCookieName)
    requires forall j :: 0 <= j < i ==> !Contains(cookies[j], SessionCookieName)
    ensures WellFormedPair(cookies[i]) ==> ScanCookies(cookies) == Success(PairValue(cookies[i]))
    ensures !WellFormedPair(cookies[i]) ==> ScanCookies(cookies) == Failure(IndexOutOfBounds)
    decreases i
  {
    PairDecodes(cookies[i]);
    if i > 0 {
      assert !Contains(cookies[0], SessionCookieName);
      assert cookies[1..][i - 1] == cookies[i];
      FirstSessionCookieDecides(cookies[1..], i - 1);
    }
  }

  /** getSessionId in terms of the `Cookie` header: the first `;`-segment
      mentioning JSESSIONID supplies the text between its first and second
      '=', or the call throws when that segment has no value. */
  lemma SessionIdIsFirstMatch(req: HttpRequest, i: nat)
    requires i < |Split(CookieValue(req), CookieSeparator)|
    requires Contains(Split(CookieValue(req), CookieSeparator)[i], SessionCookieName)
    requires forall j :: 0 <= j < i ==> !Contains(Split(CookieValue(req), CookieSeparator)[j], SessionCookieName)
    ensures var cookie := Split(CookieValue(req), CookieSeparator)[i];
            && (WellFormedPair(cookie) ==> GetSessionId(req) == Success(PairValue(cookie)))
            && (!WellFormedPair(cookie) ==> GetSessionId(req) == Failure(IndexOutOfBounds))
  {
    FirstSessionCookieDecides(Split(CookieValue(req), CookieSeparator), i);
  }

  /** getSessionId reads only the `Cookie` header: the body and the other
      headers make no difference. */
  lemma SessionIdReadsCookieOnly(req1: HttpRequest, req2: HttpRequest)
    requires CookieValue(req1) == CookieValue(req2)
    ensures GetSessionId(req1) == GetSessionId(req2)
  {
  }

  /** Example: the first JSESSIONID cookie wins. */
  lemma SessionIdFirstWins(req: HttpRequest)
    ensures GetSessionId(req.(header := HttpHeader(map["Cookie" := "JSESSIONID=abc;JSESSIONID=def"])))
              == Success("abc")
  {
    var r := req.(header := HttpHeader(map["Cookie" := "JSESSIONID=abc;JSESSIONID=def"]));
    assert CookieValue(r) == "JSESSIONID=abc;JSESSIONID=def";
    var cookies := ["JSESSIONID=abc", "JSESSIONID=def"];
    TwoCookiesSplit();
    assert GetSessionId(r) == ScanCookies(cookies);
    TwoCookiesScan();
  }

  /** For SessionIdFirstWins: the scan stops at the first cookie. */
  lemma TwoCookiesScan()
    ensures ScanCookies(["JSESSIONID=abc", "JSESSIONID=def"]) == Success("abc")
  {
    var cookies := ["JSESSIONID=abc", "JSESSIONID=def"];
    assert OccursAt(cookies[0], SessionCookieName, 0);
    SessionPairSplit();
  }

  /** For SessionIdFirstWins: the header splits into its two cookies. */
  lemma TwoCookiesSplit()
    ensures Split("JSESSIONID=abc;JSESSIONID=def", ';') == ["JSESSIONID=abc", "JSESSIONID=def"]
  {
    var cookies := ["JSESSIONID=abc", "JSESSIONID=def"];
    assert Join(cookies, ';') == "JSESSIONID=abc;JSESSIONID=def";
    SplitOfJoin(cookies, ';');
  }

  /** For SessionIdFirstWins: the first cookie splits into name and value. */
  lemma SessionPairSplit()
    ensures Split("JSESSIONID=abc", '=') == ["JSESSIONID", "abc"]
  {
    assert Join(["JSESSIONID", "abc"], '=') == "JSESSIONID=abc";
    SplitOfJoin(["JSESSIONID", "abc"], '=');
  }

  /** A lone cookie that mentions JSESSIONID but has no '=' makes
      getSessionId throw, e.g. `Cookie: JSESSIONID`. */
  lemma SessionIdWithoutValueFails(req: HttpRequest, cookie: string)
    requires Contains(cookie, SessionCookieName)
    requires CookieSeparator !in cookie && KeyValueSeparator !in cookie
    ensures GetSessionId(req.(header := HttpHeader(map[CookieHeader := cookie]))) == Failure(IndexOutOfBounds)
  {
    var r := req.(header := HttpHeader(map[CookieHeader := cookie]));
    assert CookieValue(r) == cookie;
    assert GetSessionId(r) == ScanCookies([cookie]);
    PairDecodes(cookie);
  }

  /** `Cookie: JSESSIONID` (the name with no value) makes getSessionId throw. */
  lemma BareSessionCookieFails(req: HttpRequest)
    ensures GetSessionId(req.(header := HttpHeader(map["Cookie" := "JSESSIONID"])))
              == Failure(IndexOutOfBounds)
  {
    assert OccursAt("JSESSIONID", SessionCookieName, 0);
    assert CookieSeparator !in "JSESSIONID" && KeyValueSeparator !in "JSESSIONID";
    SessionIdWithoutValueFails(req, "JSESSIONID");
  }
}
