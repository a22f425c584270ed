/**
 * The REST client of the exporter: it learns the number of matching issues
 * with a probe search, plans one search per window of `WINDOW` results, sends
 * each search with an HTTP Basic `Authorization` header, and concatenates the
 * issues of the pages in request order.
 *
 * The JIRA server is a parameter: a function from a GET request to the
 * response it receives. A response with status 200 carries the decoded
 * search-results envelope.
 */
module RestClient {

  import opened Wrappers
  import opened Text
  import Utf8
  import Base64
  import FormEncoding
  import opened Config

  /** The number of results asked for by every page request. */
  const WINDOW: int := 100

  const SEARCH_PATH: string := "/rest/api/2/search"

  const JSON_CONTENT_TYPE: string := "application/json"

  const HTTP_OK: int := 200

  /** The first status for which `HttpURLConnection.getErrorStream` hands out the error data the server sent. */
  const HTTP_BAD_REQUEST: int := 400

  /** An issue as the search returns it: id, canonical URL, key and the requested fields. */
  datatype Issue = Issue(id: int, self: string, key: string, fields: map<string, string>)

  /** The search-results envelope: the total number of matches and the issues of one page. */
  datatype SearchResults = SearchResults(total: int, issues: seq<Issue>)

  datatype Request = Get(url: string, authorization: string, contentType: string)

  /**
   * The status code, the decoded body of a 200 answer, and the error data the
   * server sent with any other answer, if it sent any.
   */
  datatype Response = Response(status: int, results: SearchResults, errorData: Option<string>)

  type Server = Request -> Response

  /**
   * Why a query failed: the exception `performQuery` raises with the URL, the
   * status and the error body, or the `NullPointerException` that reading a
   * missing error stream raises before that message is built.
   */
  datatype QueryError = QueryFailed(url: string, status: int, body: string) | NullErrorStream

  /**
   * A client: its configuration, the order in which the field set is
   * iterated when it is joined, and the `Authorization` value computed once
   * when the client is built.
   */
  datatype Client = Client(config: Config, fieldOrder: seq<string>, authHeader: string)

  /** `order` lists the elements of `names`, each once, in some order. */
  predicate Enumerates(order: seq<string>, names: set<string>)
  {
    (set i | 0 <= i < |order| :: order[i]) == names &&
    (forall i, j :: 0 <= i < j < |order| ==> order[i] != order[j])
  }

  // ---------------------------------------------------------------------------
  // HTTP Basic authentication (section 2 of RFC 7617)
  // ---------------------------------------------------------------------------

  /** "Basic " followed by the Base 64 of the UTF-8 bytes of `username:password`. */
  function BasicAuth(username: string, password: string): (h: string)
    ensures |h| == 6 + 4 * ((|Utf8.Encode(username + ":" + password)| + 2) / 3)
    ensures h[..6] == "Basic "
  {
    "Basic " + Base64.Encode(Utf8.Encode(username + ":" + password))
  }

  /** The position of the first `c` in `s`. */
  function FirstIndex(s: string, c: char): (i: nat)
    requires c in s
    ensures i < |s| && s[i] == c && c !in s[..i]
  {
    if s[0] == c then 0
    else
      var i := 1 + FirstIndex(s[1..], c);
      assert s[..i] == [s[0]] + s[1..][..i - 1];
      i
  }

  /**
   * What a server reads from an `Authorization` value: the user-id is the
   * text before the first ':' of the decoded credentials, the password the rest.
   */
  function ParseBasicAuth(h: string): (r: Option<(string, string)>)
  {
    if |h| < 6 || h[..6] != "Basic " then None
    else match Base64.Decode(h[6..])
      case None => None
      case Some(bytes) =>
        match Utf8.Decode(bytes)
        case None => None
        case Some(text) =>
          if ':' !in text then None
          else
            var i := FirstIndex(text, ':');
            Some((text[..i], text[i + 1..]))
  }

  /** A user-id without ':' and any password are read back exactly from the header. */
  lemma BasicAuthRoundTrip(username: string, password: string)
    requires ':' !in username
    ensures ParseBasicAuth(BasicAuth(username, password)) == Some((username, password))
  {
    var text := username + ":" + password;
    var bytes := Utf8.Encode(text);
    var h := BasicAuth(username, password);
    assert h[6..] == Base64.Encode(bytes);
    Base64.DecodeEncode(bytes);
    Utf8.DecodeEncode(text);
    assert text[|username|] == ':' && text[..|username|] == username;
    var i := FirstIndex(text, ':');
    assert i == |username|;
    assert text[i + 1..] == password;
  }

  /** The header for user "bob" with password "secret". */
  lemma BasicAuthExample()
    ensures BasicAuth("bob", "secret") == "Basic Ym9iOnNlY3JldA=="
  {
    ExampleHeaderOf("bob", "secret");
  }

  lemma ExampleHeaderOf(username: string, password: string)
    requires username == "bob" && password == "secret"
    ensures BasicAuth(username, password) == "Basic Ym9iOnNlY3JldA=="
  {
    var text := username + ":" + password;
    ExampleText(username, password);
    ExampleBytes(text);
    ExampleBase64(Utf8.Encode(text));
    ExampleHeader(Base64.Encode(Utf8.Encode(text)));
  }

  lemma ExampleText(username: string, password: string)
    requires username == "bob" && password == "secret"
    ensures username + ":" + password == "bob:secret"
  {
  }

  lemma ExampleHeader(encoded: string)
    requires encoded == "Ym9iOnNlY3JldA=="
    ensures "Basic " + encoded == "Basic Ym9iOnNlY3JldA=="
  {
  }

  lemma ExampleBytes(text: string)
    requires text == "bob:secret"
    ensures Utf8.Encode(text) == [98, 111, 98, 58, 115, 101, 99, 114, 101, 116]
  {
    assert text[0] == 'b' && text[1] == 'o' && text[2] == 'b' && text[3] == ':' && text[4] == 's';
    assert text[5] == 'e' && text[6] == 'c' && text[7] == 'r' && text[8] == 'e' && text[9] == 't';
    Utf8.EncodeAscii(text);
  }

  lemma ExampleBase64(bytes: seq<Utf8.Byte>)
    requires bytes == [98, 111, 98, 58, 115, 101, 99, 114, 101, 116]
    ensures Base64.Encode(bytes) == "Ym9iOnNlY3JldA=="
  {
    var r1 := bytes[3..];
    var r2 := r1[3..];
    var r3 := r2[3..];
    assert bytes == [bytes[0], bytes[1], bytes[2]] + r1;
    assert r1 == [r1[0], r1[1], r1[2]] + r2;
    assert r2 == [r2[0], r2[1], r2[2]] + r3;
    Base64.EncodeGroups(bytes[0], bytes[1], bytes[2], r1);
    Base64.EncodeGroups(r1[0], r1[1], r1[2], r2);
    Base64.EncodeGroups(r2[0], r2[1], r2[2], r3);
    ExampleGroups();
  }

  lemma ExampleGroups()
    ensures Base64.EncodeBlock(98, 111, 98) == "Ym9i"
    ensures Base64.EncodeBlock(58, 115, 101) == "OnNl"
    ensures Base64.EncodeBlock(99, 114, 101) == "Y3Jl"
    ensures Base64.Encode([116]) == "dA=="
  {
  }

  /** The client as the constructor builds it: the header is computed once, from the user name and password. */
  function NewClient(cfg: Config, password: string, fieldOrder: seq<string>): (c: Client)
    requires Enumerates(fieldOrder, GetFields(cfg))
    ensures c.config == cfg && c.fieldOrder == fieldOrder
    ensures ':' !in cfg.username ==> ParseBasicAuth(c.authHeader) == Some((cfg.username, password))
  {
    var c := Client(cfg, fieldOrder, BasicAuth(cfg.username, password));
    if ':' in cfg.username then c
    else
      BasicAuthRoundTrip(cfg.username, password);
      c
  }

  // ---------------------------------------------------------------------------
  // The search URL
  // ---------------------------------------------------------------------------

  /**
   * The search URL: the normalised server, the search path, the form-encoded
   * JQL, the field names joined with ',', `startAt` through `Integer.toString`
   * and `maxResults` through the number format of `MessageFormat`.
   */
  function SearchUrl(c: Client, startAt: int, maxResults: int): (url: string)
    ensures GetServer(c.config) + SEARCH_PATH + "?" <= url
  {
    GetServer(c.config) + SEARCH_PATH + "?" + Query(c, startAt, maxResults)
  }

  /** The query string: the four parameters of the search, joined with '&', the encoded JQL first. */
  function Query(c: Client, startAt: int, maxResults: int): (q: string)
    ensures "jql=" + FormEncoding.Encode(c.config.jql) + "&" <= q
  {
    Join('&', QueryParts(c, startAt, maxResults))
  }

  /** When no field name holds '&', the query string falls apart on '&' into exactly its four parameters. */
  lemma QueryParameters(c: Client, startAt: int, maxResults: int)
    requires forall i :: 0 <= i < |c.fieldOrder| ==> '&' !in c.fieldOrder[i]
    ensures SplitAll(Query(c, startAt, maxResults), '&') == QueryParts(c, startAt, maxResults)
  {
    var parts := QueryParts(c, startAt, maxResults);
    ParametersAvoidAmpersand(c, startAt, maxResults);
    SplitFour(parts[0], parts[1], parts[2], parts[3]);
    assert [parts[0], parts[1], parts[2], parts[3]] == parts;
  }

  /** The four parameters jql, fields, startAt and maxResults, in that order. */
  function QueryParts(c: Client, startAt: int, maxResults: int): (parts: seq<string>)
    ensures |parts| == 4
  {
    ["jql=" + FormEncoding.Encode(c.config.jql), "fields=" + Join(',', c.fieldOrder),
     "startAt=" + Decimal(startAt), "maxResults=" + Grouped(maxResults)]
  }

  /** Only the field names can bring a '&' into the parameters: the encoded JQL and the numbers never hold one. */
  lemma ParametersAvoidAmpersand(c: Client, startAt: int, maxResults: int)
    ensures var parts := QueryParts(c, startAt, maxResults);
      '&' !in parts[0] && '&' !in parts[2] && '&' !in parts[3] &&
      ((forall i :: 0 <= i < |c.fieldOrder| ==> '&' !in c.fieldOrder[i]) ==> '&' !in parts[1])
  {
    var jql, fields := FormEncoding.Encode(c.config.jql), Join(',', c.fieldOrder);
    var start, max := Decimal(startAt), Grouped(maxResults);
    assert QueryParts(c, startAt, maxResults) == ["jql=" + jql, "fields=" + fields, "startAt=" + start, "maxResults=" + max];
    ParameterAvoids("jql=", jql);
    ParameterAvoids("startAt=", start);
    ParameterAvoids("maxResults=", max);
    if forall i :: 0 <= i < |c.fieldOrder| ==> '&' !in c.fieldOrder[i] {
      ParameterAvoids("fields=", fields);
    }
  }

  /** A parameter `key=value` holds a '&' only where its key or its value does. */
  lemma ParameterAvoids(key: string, value: string)
    requires '&' !in key && '&' !in value
    ensures '&' !in key + value
  {
  }

  /** The URL of the probe that only asks for the total: it is never the URL of a page request. */
  function ProbeUrl(c: Client): (url: string)
    ensures forall n {:trigger SearchUrl(c, n, WINDOW)} :: url != SearchUrl(c, n, WINDOW)
  {
    ProbeIsShorter(c);
    SearchUrl(c, 0, 0)
  }

  lemma SplitFour(p1: string, p2: string, p3: string, p4: string)
    requires '&' !in p1 && '&' !in p2 && '&' !in p3 && '&' !in p4
    ensures SplitAll(Join('&', [p1, p2, p3, p4]), '&') == [p1, p2, p3, p4]
  {
    var parts := [p1, p2, p3, p4];
    assert forall i :: 0 <= i < |parts| ==> '&' !in parts[i];
    SplitAllJoin(parts, '&');
  }

  /** The probe asks for "0" results, a page for "100": the probe URL is shorter than every page URL. */
  lemma ProbeIsShorter(c: Client)
    ensures forall n {:trigger SearchUrl(c, n, WINDOW)} :: |SearchUrl(c, 0, 0)| < |SearchUrl(c, n, WINDOW)|
  {
    PageSizesArePlainDecimal();
    UrlAroundOffset(c, 0, 0);
    assert |UrlTail(0)| == 13 && |UrlTail(WINDOW)| == 15;
    forall n ensures |SearchUrl(c, 0, 0)| < |SearchUrl(c, n, WINDOW)| {
      UrlAroundOffset(c, n, WINDOW);
    }
  }

  /** Both window sizes the client uses, 0 and 100, are written as plain decimal digits. */
  lemma PageSizesArePlainDecimal()
    ensures Grouped(WINDOW) == Decimal(WINDOW) == "100"
    ensures Grouped(0) == Decimal(0) == "0"
  {
    GroupedSmall(WINDOW);
    GroupedSmall(0);
    assert Digits(100) == Digits(10) + [DigitChar(0)];
    assert Digits(10) == Digits(1) + [DigitChar(0)];
  }

  lemma SameContext(x: string, m1: string, m2: string, y: string)
    requires x + m1 + y == x + m2 + y
    ensures m1 == m2
  {
    var u1, u2 := x + m1 + y, x + m2 + y;
    assert |m1| == |m2|;
    assert m1 == u1[|x|..|x| + |m1|];
    assert m2 == u2[|x|..|x| + |m2|];
  }

  lemma JoinFour(p1: string, p2: string, p3: string, p4: string, sep: char)
    ensures Join(sep, [p1, p2, p3, p4]) == p1 + [sep] + (p2 + [sep] + (p3 + [sep] + p4))
  {
    assert [p3, p4][1..] == [p4];
    assert Join(sep, [p3, p4]) == p3 + [sep] + p4;
    assert [p2, p3, p4][1..] == [p3, p4];
    assert Join(sep, [p2, p3, p4]) == p2 + [sep] + (p3 + [sep] + p4);
    assert [p1, p2, p3, p4][1..] == [p2, p3, p4];
  }

  /** Regrouping the concatenation of a search URL around the offset. */
  lemma Reassociate(base: string, p1: string, amp: string, p2: string, st: string, d: string, p4: string)
    ensures base + (p1 + amp + (p2 + amp + ((st + d) + amp + p4)))
         == (base + p1 + (amp + (p2 + (amp + st)))) + d + (amp + p4)
  {
  }

  /** Everything in a search URL before the `startAt` value. */
  function UrlHead(c: Client): string
  {
    GetServer(c.config) + SEARCH_PATH + "?" + ("jql=" + FormEncoding.Encode(c.config.jql))
    + ("&" + ("fields=" + Join(',', c.fieldOrder) + ("&" + "startAt=")))
  }

  /** Everything in a search URL after the `startAt` value. */
  function UrlTail(maxResults: int): string
  {
    "&" + ("maxResults=" + Grouped(maxResults))
  }

  lemma UrlAroundOffset(c: Client, n: int, maxResults: int)
    ensures SearchUrl(c, n, maxResults) == UrlHead(c) + Decimal(n) + UrlTail(maxResults)
  {
    var base := GetServer(c.config) + SEARCH_PATH + "?";
    var p1 := "jql=" + FormEncoding.Encode(c.config.jql);
    var p2 := "fields=" + Join(',', c.fieldOrder);
    var d := Decimal(n);
    var p4 := "maxResults=" + Grouped(maxResults);
    var amp := "&";
    assert [amp[0]] == amp;
    JoinFour(p1, p2, "startAt=" + d, p4, '&');
    Reassociate(base, p1, amp, p2, "startAt=", d, p4);
  }

  /** Different offsets give different URLs: a server can tell every page request apart. */
  lemma SearchUrlInjective(c: Client, a: int, b: int, maxResults: int)
    requires SearchUrl(c, a, maxResults) == SearchUrl(c, b, maxResults)
    ensures a == b
  {
    UrlAroundOffset(c, a, maxResults);
    UrlAroundOffset(c, b, maxResults);
    SameContext(UrlHead(c), Decimal(a), Decimal(b), UrlTail(maxResults));
    DecimalInjective(a, b);
  }

  // ---------------------------------------------------------------------------
  // Performing one query
  // ---------------------------------------------------------------------------

  /** The request the client sends for `url`: a GET with its header and a JSON content type. */
  function RequestFor(c: Client, url: string): (r: Request)
    ensures r.url == url && r.authorization == c.authHeader && r.contentType == JSON_CONTENT_TYPE
  {
    Get(url, c.authHeader, JSON_CONTENT_TYPE)
  }

  /**
   * One GET: a 200 answer yields its decoded body; any other status is the
   * failure `Failure` describes.
   */
  function PerformQuery(c: Client, url: string, server: Server): (r: Result<SearchResults, QueryError>)
    ensures var resp := server(RequestFor(c, url));
      (r.Ok? <==> resp.status == HTTP_OK) &&
      (r.Ok? ==> r.value == resp.results) &&
      (r.Err? ==> r.error == Failure(url, resp))
  {
    var resp := server(RequestFor(c, url));
    if resp.status == HTTP_OK then Ok(resp.results)
    else Err(Failure(url, resp))
  }

  /**
   * The failure of a query whose status is not 200. The error stream exists
   * only for a status of 400 or more with error data; without it `readStream`
   * throws a `NullPointerException` while the arguments of the message are
   * still being evaluated.
   */
  function Failure(url: string, resp: Response): (e: QueryError)
    ensures e.QueryFailed? <==> resp.status >= HTTP_BAD_REQUEST && resp.errorData.Some?
    ensures e.QueryFailed? ==> e.url == url && e.status == resp.status && e.body == resp.errorData.value
  {
    if resp.status >= HTTP_BAD_REQUEST && resp.errorData.Some? then QueryFailed(url, resp.status, resp.errorData.value)
    else NullErrorStream
  }

  /** `w` occurs in `s`. */
  ghost predicate Contains(s: string, w: string)
  {
    exists i :: 0 <= i <= |s| && w <= s[i..]
  }

  /**
   * `getMessage()` of the exception a failed query raises. The message built
   * at the failure names the URL, the status code appears between
   * parentheses exactly as `Integer.toString` writes it (every HTTP status
   * has three digits), and the server's error body follows; the
   * `NullPointerException` carries no message.
   */
  function ErrorMessage(e: QueryError): (m: Option<string>)
    ensures m.Some? <==> e.QueryFailed?
    ensures e.QueryFailed? ==> Contains(m.value, e.url)
    ensures e.QueryFailed? && -1000 < e.status < 1000 ==> Contains(m.value, "(" + Decimal(e.status) + ")")
    ensures e.QueryFailed? ==> Contains(m.value, e.body)
  {
    match e
    case NullErrorStream => None
    case QueryFailed(url, status, body) =>
      var prefix := "Could not perform query ";
      var code := "(" + Grouped(status) + ")";
      var m := prefix + url + " " + code + ":\n" + body;
      ContainsAfter(prefix, url, m);
      ContainsAfter(prefix + url + " ", code, m);
      ContainsAfter(prefix + url + " " + code + ":\n", body, m);
      if -1000 < status < 1000 then
        GroupedSmall(status);
        Some(m)
      else
        Some(m)
  }

  /**
   * A status other than 200 and below 400 (204, or a redirect the connection
   * does not follow by itself) ends the query with the exception that has
   * no message, whatever the server sent.
   */
  lemma StatusBelow400FailsWithoutMessage(c: Client, url: string, server: Server)
    requires server(RequestFor(c, url)).status != HTTP_OK && server(RequestFor(c, url)).status < HTTP_BAD_REQUEST
    ensures PerformQuery(c, url, server) == Err(NullErrorStream)
    ensures ErrorMessage(PerformQuery(c, url, server).error).None?
  {
  }

  /**
   * A status of 400 or more with error data ends the query with a message
   * that names the URL and carries the server's error body.
   */
  lemma ErrorStatusNamesQuery(c: Client, url: string, server: Server)
    requires server(RequestFor(c, url)).status >= HTTP_BAD_REQUEST && server(RequestFor(c, url)).errorData.Some?
    ensures var m := ErrorMessage(PerformQuery(c, url, server).error);
      m.Some? && Contains(m.value, url) && Contains(m.value, server(RequestFor(c, url)).errorData.value)
  {
  }

  /** `w` occurs in `s` when `s` starts with `a + w`. */
  lemma ContainsAfter(a: string, w: string, s: string)
    requires a + w <= s
    ensures Contains(s, w)
  {
    assert w <= s[|a|..];
  }

  /** The probe: a search for no results at all, read only for its total. */
  function CountResults(c: Client, server: Server): (r: Result<int, QueryError>)
    ensures r.Ok? <==> PerformQuery(c, ProbeUrl(c), server).Ok?
    ensures r.Ok? ==> r.value == PerformQuery(c, ProbeUrl(c), server).value.total
  {
    match PerformQuery(c, ProbeUrl(c), server)
    case Ok(results) => Ok(results.total)
    case Err(e) => Err(e)
  }

  // ---------------------------------------------------------------------------
  // Planning the windows
  // ---------------------------------------------------------------------------

  /** The offsets the counting loop visits from `i` on: `i`, `i + WINDOW`, ... while below `total`. */
  function OffsetsFrom(i: int, total: int): seq<int>
    decreases total - i
  {
    if i >= total then [] else [i] + OffsetsFrom(i + WINDOW, total)
  }

  /** The offsets of the page requests for `total` results. */
  function Offsets(total: int): (o: seq<int>)
    ensures |o| == PageCount(total)
  {
    OffsetsFromShape(0, total);
    OffsetsFrom(0, total)
  }

  /** The number of windows needed for `total` results: the ceiling of total / WINDOW, and none for total <= 0. */
  function PageCount(total: int): (n: nat)
    ensures total <= 0 ==> n == 0
    ensures total > 0 ==> (n - 1) * WINDOW < total <= n * WINDOW
  {
    if total <= 0 then 0 else (total + WINDOW - 1) / WINDOW
  }

  lemma {:induction false} OffsetsFromShape(i: int, total: int)
    ensures |OffsetsFrom(i, total)| == if i >= total then 0 else (total - i + WINDOW - 1) / WINDOW
    ensures forall k :: 0 <= k < |OffsetsFrom(i, total)| ==> OffsetsFrom(i, total)[k] == i + k * WINDOW
    decreases total - i
  {
    if i < total {
      OffsetsFromShape(i + WINDOW, total);
      var rest := OffsetsFrom(i + WINDOW, total);
      assert forall k :: 1 <= k < 1 + |rest| ==> OffsetsFrom(i, total)[k] == rest[k - 1];
    }
  }

  /**
   * The page offsets are 0, WINDOW, 2 * WINDOW, ...: there are ceil(total / WINDOW)
   * of them (none when total <= 0), each is below the total, consecutive ones
   * differ by WINDOW, and the list is strictly increasing.
   */
  lemma OffsetsArePlanned(total: int)
    ensures |Offsets(total)| == PageCount(total)
    ensures total <= 0 ==> Offsets(total) == []
    ensures forall k :: 0 <= k < |Offsets(total)| ==> Offsets(total)[k] == k * WINDOW
    ensures forall k :: 0 <= k < |Offsets(total)| ==> 0 <= Offsets(total)[k] < total
    ensures forall k :: 0 < k < |Offsets(total)| ==> Offsets(total)[k] - Offsets(total)[k - 1] == WINDOW
    ensures forall j, k :: 0 <= j < k < |Offsets(total)| ==> Offsets(total)[j] < Offsets(total)[k]
  {
    OffsetsFromShape(0, total);
  }

  /**
   * The windows [offset, offset + WINDOW) cover [0, total) with no gap and no
   * overlap: every result index lies in the window numbered index / WINDOW and in no other.
   */
  lemma WindowsCoverTotal(total: int, x: int)
    requires 0 <= x < total
    ensures x / WINDOW < |Offsets(total)|
    ensures Offsets(total)[x / WINDOW] <= x < Offsets(total)[x / WINDOW] + WINDOW
    ensures forall k :: 0 <= k < |Offsets(total)| && Offsets(total)[k] <= x < Offsets(total)[k] + WINDOW ==> k == x / WINDOW
  {
    OffsetsArePlanned(total);
  }

  /** The URLs of the page requests at the given offsets, each asking for WINDOW results. */
  function PageUrls(c: Client, offsets: seq<int>): (urls: seq<string>)
    ensures |urls| == |offsets|
  {
    if offsets == [] then [] else [SearchUrl(c, offsets[0], WINDOW)] + PageUrls(c, offsets[1..])
  }

  /** The k-th page URL asks for the window at the k-th offset. */
  lemma {:induction false} PageUrlsAt(c: Client, offsets: seq<int>)
    ensures forall k :: 0 <= k < |offsets| ==> PageUrls(c, offsets)[k] == SearchUrl(c, offsets[k], WINDOW)
  {
    if offsets != [] {
      PageUrlsAt(c, offsets[1..]);
    }
  }

  lemma {:induction false} PageUrlsSnoc(c: Client, offsets: seq<int>, i: int)
    ensures PageUrls(c, offsets + [i]) == PageUrls(c, offsets) + [SearchUrl(c, i, WINDOW)]
  {
    if offsets == [] {
      assert offsets + [i] == [i] && [i][1..] == [];
    } else {
      assert (offsets + [i])[0] == offsets[0];
      assert (offsets + [i])[1..] == offsets[1..] + [i];
      PageUrlsSnoc(c, offsets[1..], i);
    }
  }

  /** One turn of the counting loop: offset `i` moves from the offsets still to visit to the visited ones. */
  lemma PlanStep(planned: seq<int>, visited: seq<int>, i: int, total: int)
    requires i < total && planned == visited + OffsetsFrom(i, total)
    ensures planned == (visited + [i]) + OffsetsFrom(i + WINDOW, total)
  {
    var rest := OffsetsFrom(i + WINDOW, total);
    assert OffsetsFrom(i, total) == [i] + rest;
    assert visited + ([i] + rest) == (visited + [i]) + rest;
  }

  lemma UrlStep(c: Client, visited: seq<int>, urls: seq<string>, i: int)
    requires urls == PageUrls(c, visited)
    ensures urls + [SearchUrl(c, i, WINDOW)] == PageUrls(c, visited + [i])
  {
    PageUrlsSnoc(c, visited, i);
  }

  lemma PlanStart(c: Client, total: int)
    ensures Offsets(total) == [] + OffsetsFrom(0, total)
    ensures [] == PageUrls(c, [])
  {
    assert [] + OffsetsFrom(0, total) == OffsetsFrom(0, total);
  }

  lemma PlanDone(total: int, visited: seq<int>, i: int)
    requires i >= total && Offsets(total) == visited + OffsetsFrom(i, total)
    ensures visited == Offsets(total)
  {
    assert OffsetsFrom(i, total) == [];
  }

  // ---------------------------------------------------------------------------
  // Streaming the issues
  // ---------------------------------------------------------------------------

  /**
   * The visible result of an export run: the issues emitted, the URLs
   * requested, in order, and the error that ended the run, if any.
   */
  datatype Outcome = Outcome(issues: seq<Issue>, requested: seq<string>, error: Option<QueryError>)

  /**
   * The pages fetched in order, each page's issues emitted before the next
   * page is requested; the first failing query ends the run.
   */
  function FetchAll(c: Client, urls: seq<string>, server: Server): (o: Outcome)
    ensures |o.requested| <= |urls| && o.requested == urls[..|o.requested|]
    ensures o.error.None? <==> o.requested == urls && forall k :: 0 <= k < |urls| ==> PerformQuery(c, urls[k], server).Ok?
    ensures o.error.Some? ==> |o.requested| >= 1 && PerformQuery(c, urls[|o.requested| - 1], server) == Err(o.error.value)
  {
    if urls == [] then Outcome([], [], None)
    else
      match PerformQuery(c, urls[0], server)
      case Err(e) => Outcome([], [urls[0]], Some(e))
      case Ok(page) =>
        var rest := FetchAll(c, urls[1..], server);
        assert forall k :: 1 <= k < |urls| ==> urls[k] == urls[1..][k - 1];
        Outcome(page.issues + rest.issues, [urls[0]] + rest.requested, rest.error)
  }

  /** The issues each page's response carries, in request order. */
  function PageIssues(c: Client, urls: seq<string>, server: Server): (pages: seq<seq<Issue>>)
    ensures |pages| == |urls|
  {
    if urls == [] then [] else [server(RequestFor(c, urls[0])).results.issues] + PageIssues(c, urls[1..], server)
  }

  function Flatten(pages: seq<seq<Issue>>): seq<Issue>
  {
    if pages == [] then [] else pages[0] + Flatten(pages[1..])
  }

  /**
   * The export run: the probe, then one request per planned window. A failed
   * probe ends it before any page is requested; a total of zero or less
   * requests no page.
   */
  function Export(c: Client, server: Server): (o: Outcome)
    ensures |o.requested| >= 1 && o.requested[0] == ProbeUrl(c)
    ensures CountResults(c, server).Err? ==> o == Outcome([], [ProbeUrl(c)], Some(CountResults(c, server).error))
    ensures CountResults(c, server).Ok? && CountResults(c, server).value <= 0 ==> o == Outcome([], [ProbeUrl(c)], None)
  {
    match CountResults(c, server)
    case Err(e) => Outcome([], [ProbeUrl(c)], Some(e))
    case Ok(total) =>
      OffsetsArePlanned(total);
      var pages := FetchAll(c, PageUrls(c, Offsets(total)), server);
      Outcome(pages.issues, [ProbeUrl(c)] + pages.requested, pages.error)
  }

  /**
   * The counting loop of `stream()`: one search URL per window, at offsets
   * 0, WINDOW, 2 * WINDOW, ... while below `total`.
   */
  method PlanPages(c: Client, total: int) returns (urls: seq<string>)
    ensures urls == PageUrls(c, Offsets(total))
  {
    urls := [];
    ghost var planned, visited: seq<int> := Offsets(total), [];
    var i := 0;
    PlanStart(c, total);
    while i < total
      invariant planned == visited + OffsetsFrom(i, total)
      invariant urls == PageUrls(c, visited)
      decreases total - i
    {
      PlanStep(planned, visited, i, total);
      UrlStep(c, visited, urls, i);
      urls := urls + [SearchUrl(c, i, WINDOW)];
      visited := visited + [i];
      i := i + WINDOW;
    }
    PlanDone(total, visited, i);
  }

  /**
   * `stream()`: count the results, plan the page URLs, then fetch the pages
   * in order and concatenate their issues.
   */
  method Stream(c: Client, server: Server) returns (out: Outcome)
    ensures out == Export(c, server)
  {
    var count := CountResults(c, server);
    if count.Err? {
      return Outcome([], [ProbeUrl(c)], Some(count.error));
    }
    var urls := PlanPages(c, count.value);
    var pages := FetchAll(c, urls, server);
    out := Outcome(pages.issues, [ProbeUrl(c)] + pages.requested, pages.error);
  }

  // ---------------------------------------------------------------------------
  // What the run yields
  // ---------------------------------------------------------------------------

  /** When every page answers 200, the issues are the pages' issues concatenated in request order. */
  lemma {:induction false} FetchAllSucceeds(c: Client, urls: seq<string>, server: Server)
    requires forall k :: 0 <= k < |urls| ==> server(RequestFor(c, urls[k])).status == HTTP_OK
    ensures FetchAll(c, urls, server) == Outcome(Flatten(PageIssues(c, urls, server)), urls, None)
  {
    if urls != [] {
      assert forall k :: 0 <= k < |urls[1..]| ==> urls[1..][k] == urls[k + 1];
      FetchAllSucceeds(c, urls[1..], server);
      assert [urls[0]] + urls[1..] == urls;
    }
  }

  /**
   * When page `j` is the first to fail, the run has emitted the issues of the
   * pages before it, has requested nothing after it, and ends with its error.
   */
  lemma {:induction false} FetchAllStopsAtFailure(c: Client, urls: seq<string>, server: Server, j: nat)
    requires j < |urls|
    requires forall k :: 0 <= k < j ==> server(RequestFor(c, urls[k])).status == HTTP_OK
    requires server(RequestFor(c, urls[j])).status != HTTP_OK
    ensures FetchAll(c, urls, server) ==
      Outcome(Flatten(PageIssues(c, urls[..j], server)), urls[..j + 1],
              Some(Failure(urls[j], server(RequestFor(c, urls[j])))))
  {
    if j > 0 {
      var tail := urls[1..];
      assert forall k :: 0 <= k < |tail| ==> tail[k] == urls[k + 1];
      FetchAllStopsAtFailure(c, tail, server, j - 1);
      FetchAllOk(c, urls, server);
      assert urls[..j] == [urls[0]] + tail[..j - 1];
      FlattenCons(c, urls[0], tail[..j - 1], server);
      assert urls[..j + 1] == [urls[0]] + tail[..j];
    }
  }

  /** A first page that answers 200 contributes its issues and its URL ahead of the rest of the run. */
  lemma FetchAllOk(c: Client, urls: seq<string>, server: Server)
    requires urls != [] && server(RequestFor(c, urls[0])).status == HTTP_OK
    ensures var rest := FetchAll(c, urls[1..], server);
      FetchAll(c, urls, server) ==
        Outcome(server(RequestFor(c, urls[0])).results.issues + rest.issues, [urls[0]] + rest.requested, rest.error)
  {
  }

  /**
   * When the probe reports `total` and every page answers 200, the run asks
   * for the probe and then for exactly ceil(total / WINDOW) pages at offsets
   * 0, WINDOW, ..., and emits the pages' issues in that order.
   */
  lemma ExportAllPages(c: Client, server: Server, total: int)
    requires CountResults(c, server) == Ok(total)
    requires forall k :: 0 <= k < |Offsets(total)| ==> server(RequestFor(c, SearchUrl(c, Offsets(total)[k], WINDOW))).status == HTTP_OK
    ensures Export(c, server) ==
      Outcome(Flatten(PageIssues(c, PageUrls(c, Offsets(total)), server)), [ProbeUrl(c)] + PageUrls(c, Offsets(total)), None)
    ensures |Export(c, server).requested| == 1 + PageCount(total)
  {
    OffsetsArePlanned(total);
    PageUrlsAt(c, Offsets(total));
    FetchAllSucceeds(c, PageUrls(c, Offsets(total)), server);
  }

  /**
   * A failure on page `j` after a successful probe: the pages before it have
   * been emitted, the failing URL was the last request, and its status ends the run.
   */
  lemma ExportFailsOnPage(c: Client, server: Server, total: int, j: nat)
    requires CountResults(c, server) == Ok(total)
    requires j < |Offsets(total)|
    requires forall k :: 0 <= k < j ==> server(RequestFor(c, SearchUrl(c, Offsets(total)[k], WINDOW))).status == HTTP_OK
    requires server(RequestFor(c, SearchUrl(c, Offsets(total)[j], WINDOW))).status != HTTP_OK
    ensures var urls := PageUrls(c, Offsets(total));
      Export(c, server).issues == Flatten(PageIssues(c, urls[..j], server)) &&
      Export(c, server).requested == [ProbeUrl(c)] + urls[..j + 1] &&
      Export(c, server).error == Some(Failure(SearchUrl(c, j * WINDOW, WINDOW), server(RequestFor(c, SearchUrl(c, j * WINDOW, WINDOW)))))
  {
    OffsetsArePlanned(total);
    PageUrlsAt(c, Offsets(total));
    FetchAllStopsAtFailure(c, PageUrls(c, Offsets(total)), server, j);
  }

  function Min(a: int, b: int): int { if a <= b then a else b }

  /** The results a consistent server returns for `startAt` and `maxResults` out of the full list. */
  function Window(all: seq<Issue>, startAt: nat, maxResults: nat): seq<Issue>
  {
    all[Min(startAt, |all|)..Min(startAt + maxResults, |all|)]
  }

  /** A server that answers every search of this client with the matching window of one fixed result list. */
  ghost predicate ServesList(c: Client, server: Server, all: seq<Issue>)
  {
    forall startAt: nat, maxResults: nat {:trigger SearchUrl(c, startAt, maxResults)} ::
      server(RequestFor(c, SearchUrl(c, startAt, maxResults))).status == HTTP_OK &&
      server(RequestFor(c, SearchUrl(c, startAt, maxResults))).results == SearchResults(|all|, Window(all, startAt, maxResults))
  }

  lemma PageUrlsCons(c: Client, i: int, rest: seq<int>)
    ensures PageUrls(c, [i] + rest) == [SearchUrl(c, i, WINDOW)] + PageUrls(c, rest)
  {
    assert ([i] + rest)[1..] == rest;
  }

  lemma FlattenCons(c: Client, url: string, urls: seq<string>, server: Server)
    ensures Flatten(PageIssues(c, [url] + urls, server)) ==
      server(RequestFor(c, url)).results.issues + Flatten(PageIssues(c, urls, server))
  {
    assert ([url] + urls)[1..] == urls;
    var pages := PageIssues(c, [url] + urls, server);
    assert pages[1..] == PageIssues(c, urls, server);
  }

  lemma {:induction false} WindowsFrom(c: Client, server: Server, all: seq<Issue>, i: nat)
    requires ServesList(c, server, all)
    ensures Flatten(PageIssues(c, PageUrls(c, OffsetsFrom(i, |all|)), server)) == all[Min(i, |all|)..]
    decreases |all| - i
  {
    if i < |all| {
      WindowStep(c, server, all, i);
      WindowsFrom(c, server, all, i + WINDOW);
      WindowThenRest(all, i);
    } else {
      assert OffsetsFrom(i, |all|) == [];
      assert PageUrls(c, []) == [];
    }
  }

  /** The pages from offset `i` on: the window at `i`, then the pages from the next offset. */
  lemma WindowStep(c: Client, server: Server, all: seq<Issue>, i: nat)
    requires ServesList(c, server, all) && i < |all|
    ensures Flatten(PageIssues(c, PageUrls(c, OffsetsFrom(i, |all|)), server)) ==
      Window(all, i, WINDOW) + Flatten(PageIssues(c, PageUrls(c, OffsetsFrom(i + WINDOW, |all|)), server))
  {
    var rest := OffsetsFrom(i + WINDOW, |all|);
    var url := SearchUrl(c, i, WINDOW);
    assert OffsetsFrom(i, |all|) == [i] + rest;
    PageUrlsCons(c, i, rest);
    FlattenCons(c, url, PageUrls(c, rest), server);
    assert server(RequestFor(c, url)).results.issues == Window(all, i, WINDOW);
  }

  /** The results from `i` on are the window at `i` followed by the results after it. */
  lemma WindowThenRest(all: seq<Issue>, i: nat)
    requires i < |all|
    ensures all[i..] == Window(all, i, WINDOW) + all[Min(i + WINDOW, |all|)..]
  {
  }

  /**
   * Against a server that serves one fixed list of results consistently, the
   * run emits exactly that list, in order, with nothing dropped or repeated,
   * after 1 + ceil(n / WINDOW) requests.
   */
  lemma ExportOfConsistentServer(c: Client, server: Server, all: seq<Issue>)
    requires ServesList(c, server, all)
    ensures Export(c, server).issues == all
    ensures Export(c, server).error == None
    ensures Export(c, server).requested == [ProbeUrl(c)] + PageUrls(c, Offsets(|all|))
    ensures |Export(c, server).requested| == 1 + PageCount(|all|)
  {
    assert server(RequestFor(c, SearchUrl(c, 0, 0))).status == HTTP_OK;
    assert CountResults(c, server) == Ok(|all|);
    var offsets := Offsets(|all|);
    OffsetsArePlanned(|all|);
    forall k | 0 <= k < |offsets|
      ensures server(RequestFor(c, SearchUrl(c, offsets[k], WINDOW))).status == HTTP_OK
    {
      assert offsets[k] >= 0;
      var o: nat := offsets[k];
      assert server(RequestFor(c, SearchUrl(c, o, WINDOW))).status == HTTP_OK;
    }
    ExportAllPages(c, server, |all|);
    WindowsFrom(c, server, all, 0);
  }

  /** 237 results take three pages, at offsets 0, 100 and 200, after the probe. */
  lemma Example237(c: Client, server: Server, all: seq<Issue>)
    requires |all| == 237 && ServesList(c, server, all)
    ensures Offsets(|all|) == [0, 100, 200]
    ensures Export(c, server).requested == [ProbeUrl(c), SearchUrl(c, 0, WINDOW), SearchUrl(c, 100, WINDOW), SearchUrl(c, 200, WINDOW)]
    ensures Export(c, server).issues == all
  {
    ExportOfConsistentServer(c, server, all);
    ThreePages(|all|);
    PageUrlsOfThree(c, Offsets(|all|));
  }

  lemma PageUrlsOfThree(c: Client, offsets: seq<int>)
    requires offsets == [0, 100, 200]
    ensures PageUrls(c, offsets) == [SearchUrl(c, 0, WINDOW), SearchUrl(c, 100, WINDOW), SearchUrl(c, 200, WINDOW)]
  {
    var urls := PageUrls(c, offsets);
    PageUrlsAt(c, offsets);
    assert urls[0] == SearchUrl(c, offsets[0], WINDOW);
    assert urls[1] == SearchUrl(c, offsets[1], WINDOW);
    assert urls[2] == SearchUrl(c, offsets[2], WINDOW);
  }

  lemma ThreePages(total: int)
    requires 200 < total <= 300
    ensures Offsets(total) == [0, 100, 200]
  {
    OffsetsArePlanned(total);
  }

  // ---------------------------------------------------------------------------
  // The counting loop with Java `int` arithmetic
  // ---------------------------------------------------------------------------

  const INT_MIN: int := -0x8000_0000
  const INT_MAX: int := 0x7fff_ffff

  /** Java `int` addition: the exact sum brought back into [INT_MIN, INT_MAX] modulo 2^32. */
  function AddInt(a: int, b: int): (r: int)
    requires INT_MIN <= a <= INT_MAX && INT_MIN <= b <= INT_MAX
    ensures INT_MIN <= r <= INT_MAX
    ensures (a + b) - r == 0 || (a + b) - r == 0x1_0000_0000 || r - (a + b) == 0x1_0000_0000
    ensures INT_MIN <= a + b <= INT_MAX ==> r == a + b
  {
    var sum := a + b;
    if sum > INT_MAX then sum - 0x1_0000_0000 else if sum < INT_MIN then sum + 0x1_0000_0000 else sum
  }

  /** The value of `i` in `for (int i = 0; i < count; i += WINDOW)` after `n` increments, as Java computes it. */
  function AsWrittenIndex(n: nat): (i: int)
    ensures INT_MIN <= i <= INT_MAX
  {
    if n == 0 then 0 else AddInt(AsWrittenIndex(n - 1), WINDOW)
  }

  /** As long as no increment overflows, the Java loop visits the planned offsets. */
  lemma {:induction false} AsWrittenAgrees(n: nat)
    requires n * WINDOW <= INT_MAX
    ensures AsWrittenIndex(n) == n * WINDOW
  {
    if n > 0 {
      AsWrittenAgrees(n - 1);
    }
  }

  /** For totals up to 2147483600 the Java loop stops after exactly the planned windows. */
  lemma AsWrittenLoopMatchesPlan(total: int)
    requires 0 < total <= 2147483600
    ensures forall k :: 0 <= k < |Offsets(total)| ==> AsWrittenIndex(k) == Offsets(total)[k] < total
    ensures AsWrittenIndex(|Offsets(total)|) >= total
  {
    OffsetsArePlanned(total);
    forall k | 0 <= k <= |Offsets(total)| ensures AsWrittenIndex(k) == k * WINDOW {
      AsWrittenAgrees(k);
    }
  }

  lemma {:induction false} AsWrittenIndexIsMultipleOfFour(n: nat)
    ensures AsWrittenIndex(n) % 4 == 0
  {
    if n > 0 {
      AsWrittenIndexIsMultipleOfFour(n - 1);
    }
  }

  /**
   * With `count` equal to `Integer.MAX_VALUE` the Java loop never ends: `i`
   * is always a multiple of four, so it is never `count`, and `i < count`
   * holds after every number of increments. The increment after 2147483600
   * wraps to a negative offset.
   */
  lemma AsWrittenLoopNeverEnds(n: nat)
    ensures AsWrittenIndex(n) < INT_MAX
    ensures AsWrittenIndex(21474837) == -2147483596
  {
    AsWrittenIndexIsMultipleOfFour(n);
    AsWrittenAgrees(21474836);
  }
}
