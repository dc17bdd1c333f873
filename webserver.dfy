/**
 * The single-shot server: it parses the one request it accepts and answers it with
 * a fixed greeting page, whatever the request asked for.
 */
module WebServer {
  import opened Wrappers
  import opened JavaText
  import opened Lines
  import opened Request
  import opened Response

  const HelloFragment: string := "<h1>Hello World!</h1>"

  /**
   * The fixed page. Its text block is the shared document with the greeting written
   * in place of the fragment placeholder.
   */
  function HelloPage(timestamp: string): string
  {
    Page(HelloFragment, timestamp)
  }

  /** The response text block, whose status line is the literal `HTTP/1.1 200 OK`. */
  function MakeResponse(timestamp: string): string
  {
    var html := HelloPage(timestamp);
    "HTTP/1.1 200 OK\n"
    + "Content-type: text/html\n"
    + LengthFieldPrefix + Decimal(|html|) + "\n"
    + "Connection: close\n"
    + "\n"
    + html
  }

  /** The literal status line is the one the general framing writes for code 200. */
  lemma ResponseIsFrame(timestamp: string)
    ensures MakeResponse(timestamp) == Frame(200, "OK", HelloPage(timestamp))
  {
    assert Decimal(2) == "2";
    assert Decimal(20) == Decimal(2) + "0";
    assert Decimal(200) == Decimal(20) + "0";
    assert "HTTP/1.1 " + Decimal(200) + " " + "OK" + "\n" == "HTTP/1.1 200 OK\n";
  }

  /**
   * A client reading the response finds 200 "OK", the three header lines, a
   * Content-length equal to the body's length, and the greeting page as body.
   */
  lemma ResponseReadsBack(timestamp: string)
    ensures var page := HelloPage(timestamp);
      && ReadResponse(MakeResponse(timestamp)) == Some(Received(200, "OK", FieldLines(|page|), page))
      && ContentLength(FieldLines(|page|)) == Some(|page|)
  {
    ResponseIsFrame(timestamp);
    FrameRoundTrip(200, "OK", HelloPage(timestamp));
  }

  /** The page carries the title, the greeting and the "Now" line with the timestamp. */
  lemma HelloPageContents(timestamp: string)
    ensures Contains(HelloPage(timestamp), Title)
    ensures Contains(HelloPage(timestamp), HelloFragment)
    ensures Contains(HelloPage(timestamp), NowLine(timestamp))
  {
    PageContents(HelloFragment, timestamp);
  }

  /**
   * Serves the one connection: parses the request from the lines read and, when that
   * succeeds, answers with the fixed response whatever the request was; a malformed
   * request ends the connection with no response.
   */
  method Start(stream: seq<string>, timestamp: string)
    returns (r: Result<string, ParseError>, consumed: nat)
    requires IsLines(stream)
    ensures r.Ok? <==> Parse(HeadOf(stream)).Ok?
    ensures r.Ok? ==> r.value == MakeResponse(timestamp)
    ensures r.Err? ==> r.error == Parse(HeadOf(stream)).error
    ensures consumed == if |HeadOf(stream)| < |stream| then |HeadOf(stream)| + 1 else |stream|
  {
    var request;
    request, consumed := ParseRequest(stream);
    match request {
      case Err(e) => r := Err(e);
      case Ok(_) => r := Ok(MakeResponse(timestamp));
    }
  }
}
