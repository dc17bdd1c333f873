/**
 * Rendering: the HTML document both servers send and the response text around it,
 * together with a client-side reading of such a response (status line, header lines
 * up to the blank line, body) that the framing is proved against.
 */
module Response {
  import opened Wrappers
  import opened JavaText
  import opened Lines

  // The HTML text block with its incidental indentation stripped, cut at the two
  // placeholders and at the title.
  const DocumentStart: string := "<!doctype html>\n<html lang='en'>\n    <head>\n        "
  const Title: string := "<title>Hello Web World!</title>"
  const BodyStart: string := "\n    </head>\n    <body>\n        "
  const NowLineStart: string := "\n        "
  const DocumentEnd: string := "\n    </body>\n</html>\n"

  /** The line that shows the time the page was rendered. */
  function NowLine(timestamp: string): string
  {
    "<p>Now: " + timestamp + "</p>"
  }

  /** The HTML document with `fragment` in its body and `timestamp` on its "Now" line. */
  function Page(fragment: string, timestamp: string): string
  {
    DocumentStart + Title + BodyStart + fragment + NowLineStart + NowLine(timestamp) + DocumentEnd
  }

  /** `t` occurs in `s` starting at index `i`. */
  predicate OccursAt(s: string, t: string, i: int)
  {
    0 <= i <= |s| - |t| && s[i..i + |t|] == t
  }

  predicate Contains(s: string, t: string)
  {
    exists i | 0 <= i <= |s| - |t| :: OccursAt(s, t, i)
  }

  lemma ContainsMiddle(x: string, t: string, y: string)
    ensures Contains(x + t + y, t)
  {
    assert (x + t + y)[|x|..|x| + |t|] == t;
    assert OccursAt(x + t + y, t, |x|);
  }

  /** The page always carries the title, the fragment and the "Now" line with the timestamp. */
  lemma PageContents(fragment: string, timestamp: string)
    ensures Contains(Page(fragment, timestamp), Title)
    ensures Contains(Page(fragment, timestamp), fragment)
    ensures Contains(Page(fragment, timestamp), NowLine(timestamp))
  {
    var page := Page(fragment, timestamp);
    var rest := NowLineStart + NowLine(timestamp) + DocumentEnd;
    assert page == DocumentStart + Title + (BodyStart + fragment + rest);
    ContainsMiddle(DocumentStart, Title, BodyStart + fragment + rest);
    assert page == (DocumentStart + Title + BodyStart) + fragment + rest;
    ContainsMiddle(DocumentStart + Title + BodyStart, fragment, rest);
    assert page == (DocumentStart + Title + BodyStart + fragment + NowLineStart) + NowLine(timestamp) + DocumentEnd;
    ContainsMiddle(DocumentStart + Title + BodyStart + fragment + NowLineStart, NowLine(timestamp), DocumentEnd);
  }

  const LengthFieldPrefix: string := "Content-length: "

  /** The three header lines sent with a body of `length` characters. */
  function FieldLines(length: nat): seq<string>
  {
    ["Content-type: text/html", LengthFieldPrefix + Decimal(length), "Connection: close"]
  }

  /**
   * The response text block: status line, three header lines, a blank line and the
   * HTML, every line ended by LF. The declared length counts the HTML's characters.
   */
  function Frame(code: nat, reason: string, html: string): string
  {
    "HTTP/1.1 " + Decimal(code) + " " + reason + "\n"
    + "Content-type: text/html\n"
    + LengthFieldPrefix + Decimal(|html|) + "\n"
    + "Connection: close\n"
    + "\n"
    + html
  }

  /** What a client reads from a response. */
  datatype Received = Received(code: nat, reason: string, fields: seq<string>, body: string)

  /** Reads `HTTP/1.1 <digits> <reason>`. */
  function ReadStatusLine(line: string): Option<(nat, string)>
  {
    if |line| >= 9 && line[..9] == "HTTP/1.1 " then
      var parts := SplitFirst(line[9..], ' ');
      if |parts| == 2 then
        match ParseDecimal(parts[0])
        case Some(code) => Some((code, parts[1]))
        case None => None
      else None
    else None
  }

  /**
   * Reads a response: its lines up to the first empty one are the status line and the
   * header lines, and everything after that empty line is the body.
   */
  function ReadResponse(text: string): Option<Received>
  {
    var lines := Pieces(text, {'\n'});
    var head := HeadOf(lines);
    if head == [] || |head| == |lines| then None
    else
      match ReadStatusLine(head[0])
      case None => None
      case Some(status) =>
        Some(Received(status.0, status.1, head[1..], JoinWith(lines[|head| + 1..], '\n')))
  }

  /** The value of the first `Content-length` header line. */
  function ContentLength(fields: seq<string>): Option<nat>
    decreases |fields|
  {
    if fields == [] then None
    else if |fields[0]| >= |LengthFieldPrefix| && fields[0][..|LengthFieldPrefix|] == LengthFieldPrefix then
      ParseDecimal(fields[0][|LengthFieldPrefix|..])
    else ContentLength(fields[1..])
  }

  /** Reading back the status line gives the code and reason it was written with. */
  lemma StatusLineRoundTrip(code: nat, reason: string)
    ensures ReadStatusLine("HTTP/1.1 " + Decimal(code) + " " + reason) == Some((code, reason))
  {
    var line := "HTTP/1.1 " + Decimal(code) + " " + reason;
    assert line[..9] == "HTTP/1.1 ";
    assert line[9..] == Decimal(code) + [' '] + reason;
    assert ' ' !in Decimal(code) by {
      assert forall k | 0 <= k < |Decimal(code)| :: IsDigit(Decimal(code)[k]);
    }
    SplitFirstAt(Decimal(code), ' ', reason);
    DecimalRoundTrip(code);
  }

  /** The declared length is read back from the header lines. */
  lemma ContentLengthOfFields(length: nat)
    ensures ContentLength(FieldLines(length)) == Some(length)
  {
    var fields := FieldLines(length);
    assert fields[0][8] != LengthFieldPrefix[8];
    assert fields[0][..|LengthFieldPrefix|] != LengthFieldPrefix;
    assert fields[1..][0] == LengthFieldPrefix + Decimal(length);
    assert (LengthFieldPrefix + Decimal(length))[..|LengthFieldPrefix|] == LengthFieldPrefix;
    assert (LengthFieldPrefix + Decimal(length))[|LengthFieldPrefix|..] == Decimal(length);
    DecimalRoundTrip(length);
  }

  lemma FreeConcat(a: string, b: string, seps: set<char>)
    requires Free(a, seps) && Free(b, seps)
    ensures Free(a + b, seps)
  {
    assert forall k | |a| <= k < |a + b| :: (a + b)[k] == b[k - |a|];
  }

  lemma DecimalHasNoLF(n: nat)
    ensures Free(Decimal(n), {'\n'})
  {
    assert forall k | 0 <= k < |Decimal(n)| :: IsDigit(Decimal(n)[k]);
  }

  /** No line of the response head holds an LF. */
  lemma HeadLinesFree(code: nat, reason: string, length: nat)
    requires '\n' !in reason
    ensures Free("HTTP/1.1 " + Decimal(code) + " " + reason, {'\n'})
    ensures Free(LengthFieldPrefix + Decimal(length), {'\n'})
  {
    var nl := {'\n'};
    DecimalHasNoLF(code);
    DecimalHasNoLF(length);
    assert Free(reason, nl);
    FreeConcat("HTTP/1.1 ", Decimal(code), nl);
    FreeConcat("HTTP/1.1 " + Decimal(code), " ", nl);
    FreeConcat("HTTP/1.1 " + Decimal(code) + " ", reason, nl);
    FreeConcat(LengthFieldPrefix, Decimal(length), nl);
  }

  /** The response splits into its four head lines, the blank line and the pieces of the HTML. */
  lemma FrameLines(code: nat, reason: string, html: string)
    requires '\n' !in reason
    ensures var head := ["HTTP/1.1 " + Decimal(code) + " " + reason] + FieldLines(|html|);
      Pieces(Frame(code, reason, html), {'\n'}) == head + [""] + Pieces(html, {'\n'})
  {
    var l1 := "HTTP/1.1 " + Decimal(code) + " " + reason;
    var l3 := LengthFieldPrefix + Decimal(|html|);
    HeadLinesFree(code, reason, |html|);
    FrameShape(l1, "Content-type: text/html", l3, "Connection: close", code, reason, html);
    LinesPieces(l1, "Content-type: text/html", l3, "Connection: close", html);
  }

  /** Four LF-free lines, each ended by LF, then a blank line and the rest. */
  lemma LinesPieces(l1: string, l2: string, l3: string, l4: string, rest: string)
    requires Free(l1, {'\n'}) && Free(l2, {'\n'}) && Free(l3, {'\n'}) && Free(l4, {'\n'})
    ensures Pieces(l1 + (['\n'] + (l2 + (['\n'] + (l3 + (['\n'] + (l4 + (['\n'] + (['\n'] + rest)))))))), {'\n'})
         == [l1, l2, l3, l4] + [""] + Pieces(rest, {'\n'})
  {
    var nl := {'\n'};
    var blank := ['\n'] + rest;
    assert Pieces(blank, nl) == [""] + Pieces(rest, nl) by {
      assert blank[1..] == rest;
    }
    PiecesCons(l4, '\n', blank, nl);
    PiecesCons(l3, '\n', l4 + (['\n'] + blank), nl);
    PiecesCons(l2, '\n', l3 + (['\n'] + (l4 + (['\n'] + blank))), nl);
    PiecesCons(l1, '\n', l2 + (['\n'] + (l3 + (['\n'] + (l4 + (['\n'] + blank))))), nl);
  }

  lemma FrameShape(l1: string, l2: string, l3: string, l4: string, code: nat, reason: string, html: string)
    requires l1 == "HTTP/1.1 " + Decimal(code) + " " + reason
    requires l2 == "Content-type: text/html"
    requires l3 == LengthFieldPrefix + Decimal(|html|)
    requires l4 == "Connection: close"
    ensures Frame(code, reason, html)
         == l1 + (['\n'] + (l2 + (['\n'] + (l3 + (['\n'] + (l4 + (['\n'] + (['\n'] + html))))))))
  {
  }

  /**
   * A framed response reads back as the status line it was given, the three header
   * lines and exactly the HTML as body, and the declared Content-length is the length
   * of that body.
   */
  lemma FrameRoundTrip(code: nat, reason: string, html: string)
    requires '\n' !in reason
    ensures ReadResponse(Frame(code, reason, html)) == Some(Received(code, reason, FieldLines(|html|), html))
    ensures ContentLength(FieldLines(|html|)) == Some(|html|)
  {
    var l1 := "HTTP/1.1 " + Decimal(code) + " " + reason;
    var head := [l1] + FieldLines(|html|);
    var lines := Pieces(Frame(code, reason, html), {'\n'});
    FrameLines(code, reason, html);
    assert NoneEmpty(head);
    HeadStopsAtBlank(head, Pieces(html, {'\n'}));
    assert lines[|head| + 1..] == Pieces(html, {'\n'});
    JoinPieces(html, '\n');
    StatusLineRoundTrip(code, reason);
    assert head[1..] == FieldLines(|html|);
    ContentLengthOfFields(|html|);
  }
}
