/**
 * The multi-threaded server: each connection's request is parsed, its target is
 * routed to a fixed HTML fragment and status code, and the page is framed and sent.
 */
module ClassTask {
  import opened Wrappers
  import opened JavaText
  import opened Lines
  import opened Request
  import opened Response

  const HomeUri: string := "/"
  const AboutUri: string := "/about"

  const HomeFragment: string := "<h1>Home</h1>"
  const AboutFragment: string := "<h1>About</h1>"
  const NotFoundFragment: string := "<h1>Not found</h1>"

  /** The status code and body fragment chosen for a target. */
  datatype Routed = Routed(statusCode: nat, fragment: string)

  /**
   * The routing chain: the two known targets, compared exactly and case-sensitively,
   * are served with 200; every other target gets 404 and the "Not found" fragment.
   */
  function Route(target: string): (r: Routed)
    ensures r.statusCode == 200 <==> target == HomeUri || target == AboutUri
    ensures r.statusCode == 200 || r.statusCode == 404
    ensures r.fragment == if target == HomeUri then HomeFragment
                         else if target == AboutUri then AboutFragment
                         else NotFoundFragment
  {
    if target == HomeUri then Routed(200, HomeFragment)
    else if target == AboutUri then Routed(200, AboutFragment)
    else Routed(404, NotFoundFragment)
  }

  /** Near misses of the known targets are not found: matching is exact and case-sensitive. */
  lemma NearMissesNotFound()
    ensures Route("/about/") == Routed(404, NotFoundFragment)
    ensures Route("/About") == Routed(404, NotFoundFragment)
    ensures Route("/?q") == Routed(404, NotFoundFragment)
    ensures Route("") == Routed(404, NotFoundFragment)
  {
    assert "/about/" != AboutUri by { assert |"/about/"| != |AboutUri|; }
    assert "/About" != AboutUri by { assert "/About"[1] != AboutUri[1]; }
    assert "/?q" != HomeUri by { assert |"/?q"| != |HomeUri|; }
  }

  /** The reason phrase for a status code. */
  function StatusText(statusCode: int): (text: string)
    ensures text == "OK" <==> statusCode == 200
    ensures text == "Not Found" <==> statusCode == 404
    ensures text == "Unknown" <==> statusCode != 200 && statusCode != 404
    ensures '\n' !in text
  {
    if statusCode == 200 then "OK"
    else if statusCode == 404 then "Not Found"
    else "Unknown"
  }

  /** Routes the request's target and renders the response text written to the client. */
  function MakeResponse(request: HttpRequest, timestamp: string): string
  {
    var routed := Route(request.requestUri);
    Frame(routed.statusCode, StatusText(routed.statusCode), Page(routed.fragment, timestamp))
  }

  /**
   * A client reading the response finds the routed status code, a reason phrase that
   * is never "Unknown" and agrees with that code, the three fixed header lines, a
   * Content-length equal to the body's length, and as body the page around the
   * routed fragment.
   */
  lemma ResponseReadsBack(request: HttpRequest, timestamp: string)
    ensures var routed := Route(request.requestUri);
      var page := Page(routed.fragment, timestamp);
      && ReadResponse(MakeResponse(request, timestamp))
         == Some(Received(routed.statusCode, StatusText(routed.statusCode), FieldLines(|page|), page))
      && ContentLength(FieldLines(|page|)) == Some(|page|)
      && StatusText(routed.statusCode) != "Unknown"
  {
    var routed := Route(request.requestUri);
    FrameRoundTrip(routed.statusCode, StatusText(routed.statusCode), Page(routed.fragment, timestamp));
  }

  /** The body of every response shows the routed fragment and the timestamp. */
  lemma ResponseBodyShowsFragment(request: HttpRequest, timestamp: string)
    ensures var r := ReadResponse(MakeResponse(request, timestamp));
      && r.Some?
      && Contains(r.value.body, Route(request.requestUri).fragment)
      && Contains(r.value.body, NowLine(timestamp))
  {
    ResponseReadsBack(request, timestamp);
    PageContents(Route(request.requestUri).fragment, timestamp);
  }

  /**
   * Serves one connection: parses the request from the lines read and, when that
   * succeeds, returns the response text; a malformed request ends the connection
   * with no response.
   */
  method HandleClient(stream: seq<string>, timestamp: string)
    returns (r: Result<string, ParseError>, consumed: nat)
    requires IsLines(stream)
    ensures r.Ok? <==> Parse(HeadOf(stream)).Ok?
    ensures r.Ok? ==> r.value == MakeResponse(Parse(HeadOf(stream)).value, timestamp)
    ensures r.Err? ==> r.error == Parse(HeadOf(stream)).error
    ensures consumed == if |HeadOf(stream)| < |stream| then |HeadOf(stream)| + 1 else |stream|
  {
    var request;
    request, consumed := ParseRequest(stream);
    match request {
      case Err(e) => r := Err(e);
      case Ok(req) => r := Ok(MakeResponse(req, timestamp));
    }
  }

  /** The header line `Host: x` has name `Host` and value `x`. */
  lemma HostLine()
    ensures ':' in "Host: x"
    ensures FieldName("Host: x") == "Host" && FieldValue("Host: x") == "x"
  {
    assert "Host: x" == "Host" + ":" + " x";
    HeaderLine("Host", " x");
    assert TrimStart(" x") == "x" by { assert " x"[1..] == "x"; }
  }

  /** The header line `Host: x` alone gives the single entry Host -> x. */
  lemma HostHeader()
    ensures Headers(["Host: x"]) == Ok(map["Host" := "x"])
  {
    HostLine();
    SingleField("Host: x");
  }

  /** `GET / HTTP/1.1`, `Host: x` and a blank line parse, whatever follows the blank line. */
  lemma HomeRequest(after: seq<string>)
    ensures Parse(HeadOf(["GET / HTTP/1.1", "Host: x", ""] + after))
         == Ok(HttpRequest("GET", "/", "HTTP/1.1", map["Host" := "x"]))
  {
    assert ["GET / HTTP/1.1", "Host: x", ""] + after == ["GET / HTTP/1.1", "Host: x"] + [""] + after;
    HeadStopsAtBlank(["GET / HTTP/1.1", "Host: x"], after);
    assert "GET / HTTP/1.1" == "GET" + [' '] + "/" + [' '] + "HTTP/1.1" + "";
    assert ':' in "Host: x" by { assert "Host: x"[4] == ':'; }
    assert ["GET / HTTP/1.1", "Host: x"] == ["GET / HTTP/1.1"] + ["Host: x"];
    RequestLine("GET", "/", "HTTP/1.1", ' ', ' ', "", ["Host: x"]);
    HostHeader();
  }

  /**
   * The request above is answered with a 200 "OK" response whose body shows the
   * Home fragment.
   */
  lemma HomeScenario(after: seq<string>, timestamp: string)
    ensures Parse(HeadOf(["GET / HTTP/1.1", "Host: x", ""] + after)).Ok?
    ensures var response := ReadResponse(MakeResponse(Parse(HeadOf(["GET / HTTP/1.1", "Host: x", ""] + after)).value, timestamp));
      && response.Some?
      && response.value.code == 200
      && response.value.reason == "OK"
      && Contains(response.value.body, HomeFragment)
  {
    HomeRequest(after);
    var request := HttpRequest("GET", "/", "HTTP/1.1", map["Host" := "x"]);
    ResponseReadsBack(request, timestamp);
    ResponseBodyShowsFragment(request, timestamp);
  }
}
