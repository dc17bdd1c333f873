/**
 * The request parser both servers share: read lines up to the first empty one,
 * glue them with LF, split them again, cut the request line into method, target and
 * protocol on single whitespace characters, and file every further line under the
 * name before its first colon.
 */
module Request {
  import opened Wrappers
  import opened JavaText
  import opened Lines

  /** A parsed request (`method` in the Java class); header names are case-sensitive, as received. */
  datatype HttpRequest = HttpRequest(
    httpMethod: string,
    requestUri: string,
    httpProtocol: string,
    headers: map<string, string>)

  /** The two places where the parser indexes past the end of an array. */
  datatype ParseError =
    | MissingColon(line: string)     // a header line with no colon has no value part
    | ShortRequestLine(tokens: nat)  // the request line split into fewer than three tokens

  /** A header line's name: everything before its first colon, kept verbatim. */
  function FieldName(line: string): string
  {
    SplitFirst(line, ':')[0]
  }

  /** A header line's value: everything after its first colon, trimmed. */
  function FieldValue(line: string): string
    requires ':' in line
  {
    Trim(SplitFirst(line, ':')[1])
  }

  predicate AllHaveColon(ls: seq<string>)
  {
    forall j | 0 <= j < |ls| :: ':' in ls[j]
  }

  /** `ls[j]` is the first line of `ls` without a colon. */
  predicate FirstColonless(ls: seq<string>, j: int)
  {
    0 <= j < |ls| && ':' !in ls[j] && AllHaveColon(ls[..j])
  }

  /**
   * The (name, value) pair of every header line, in order; the first line without a
   * colon aborts the whole parse.
   */
  function Fields(ls: seq<string>): Result<seq<(string, string)>, ParseError>
    decreases |ls|
  {
    if ls == [] then Ok([])
    else
      var line := ls[|ls| - 1];
      match Fields(ls[..|ls| - 1])
      case Err(e) => Err(e)
      case Ok(ps) =>
        if ':' !in line then Err(MissingColon(line)) else Ok(ps + [(FieldName(line), FieldValue(line))])
  }

  /** The map after one `put` per pair, in order. */
  function PutAll<K, V>(ps: seq<(K, V)>): map<K, V>
    decreases |ps|
  {
    if ps == [] then map[] else PutAll(ps[..|ps| - 1])[ps[|ps| - 1].0 := ps[|ps| - 1].1]
  }

  /** The map holds exactly the keys that were put. */
  lemma {:induction false} PutAllKeys<K, V>(ps: seq<(K, V)>)
    ensures PutAll(ps).Keys == set i | 0 <= i < |ps| :: ps[i].0
    decreases |ps|
  {
    if ps != [] {
      var n := |ps| - 1;
      PutAllKeys(ps[..n]);
      var keys := set i | 0 <= i < |ps| :: ps[i].0;
      var frontKeys := set i | 0 <= i < n :: ps[..n][i].0;
      forall x | x in keys ensures x in frontKeys + {ps[n].0} {
        var i :| 0 <= i < |ps| && x == ps[i].0;
        if i < n { assert x == ps[..n][i].0; }
      }
      forall x | x in frontKeys ensures x in keys {
        var i :| 0 <= i < n && x == ps[..n][i].0;
        assert x == ps[i].0;
      }
    }
  }

  /** A key put several times maps to the value of its last `put`. */
  lemma {:induction false} PutAllLastWins<K, V>(ps: seq<(K, V)>, j: int)
    requires 0 <= j < |ps|
    requires forall k | j < k < |ps| :: ps[k].0 != ps[j].0
    ensures ps[j].0 in PutAll(ps) && PutAll(ps)[ps[j].0] == ps[j].1
    decreases |ps|
  {
    var n := |ps| - 1;
    if j < n {
      assert forall k | j < k < n :: ps[..n][k] == ps[k];
      PutAllLastWins(ps[..n], j);
    }
  }

  /**
   * The header map of the lines after the request line: one `put` per line in order,
   * or the error of the first line without a colon.
   */
  function Headers(fieldLines: seq<string>): Result<map<string, string>, ParseError>
  {
    match Fields(fieldLines)
    case Err(e) => Err(e)
    case Ok(ps) => Ok(PutAll(ps))
  }

  /**
   * Splitting the header lines succeeds exactly when every one has a colon, and then
   * gives each line's name and trimmed value in order.
   */
  lemma {:induction false} FieldsOk(ls: seq<string>)
    ensures Fields(ls).Ok? <==> AllHaveColon(ls)
    ensures Fields(ls).Ok? ==>
      && |Fields(ls).value| == |ls|
      && forall j | 0 <= j < |ls| :: Fields(ls).value[j] == (FieldName(ls[j]), FieldValue(ls[j]))
    decreases |ls|
  {
    if ls != [] {
      var front := ls[..|ls| - 1];
      FieldsOk(front);
      assert forall j | 0 <= j < |front| :: front[j] == ls[j];
    }
  }

  /** A failed split names the first header line without a colon. */
  lemma {:induction false} FieldsFirstError(ls: seq<string>)
    requires Fields(ls).Err?
    ensures exists j :: FirstColonless(ls, j) && Fields(ls).error == MissingColon(ls[j])
    decreases |ls|
  {
    var n := |ls| - 1;
    var front := ls[..n];
    if Fields(front).Err? {
      FieldsFirstError(front);
      var j :| FirstColonless(front, j) && Fields(front).error == MissingColon(front[j]);
      assert front[..j] == ls[..j];
      assert FirstColonless(ls, j);
    } else {
      FieldsOk(front);
      assert FirstColonless(ls, n);
    }
  }

  /** The header map has one entry per distinct header name. */
  lemma HeadersKeys(ls: seq<string>)
    requires Headers(ls).Ok?
    ensures Headers(ls).value.Keys == set j | 0 <= j < |ls| :: FieldName(ls[j])
  {
    var ps := Fields(ls).value;
    FieldsOk(ls);
    PutAllKeys(ps);
    var a := set i | 0 <= i < |ps| :: ps[i].0;
    var b := set j | 0 <= j < |ls| :: FieldName(ls[j]);
    forall x | x in a ensures x in b {
      var i :| 0 <= i < |ps| && x == ps[i].0;
      assert x == FieldName(ls[i]);
    }
    forall x | x in b ensures x in a {
      var j :| 0 <= j < |ls| && x == FieldName(ls[j]);
      assert x == ps[j].0;
    }
  }

  /** For a name that occurs on several lines, the trimmed value of the last one is kept. */
  lemma HeadersLastWins(ls: seq<string>, j: int)
    requires Headers(ls).Ok? && 0 <= j < |ls|
    requires forall k | j < k < |ls| :: FieldName(ls[k]) != FieldName(ls[j])
    ensures ':' in ls[j]
    ensures FieldName(ls[j]) in Headers(ls).value
    ensures Headers(ls).value[FieldName(ls[j])] == FieldValue(ls[j])
  {
    var ps := Fields(ls).value;
    FieldsOk(ls);
    assert forall k | j < k < |ps| :: ps[k].0 == FieldName(ls[k]);
    PutAllLastWins(ps, j);
  }

  /** A single header line with a colon gives a map with its one entry. */
  lemma SingleField(line: string)
    requires ':' in line
    ensures Headers([line]) == Ok(map[FieldName(line) := FieldValue(line)])
  {
    var p := (FieldName(line), FieldValue(line));
    var ps: seq<(string, string)> := [p];
    var none: map<string, string> := map[];
    assert [line][..0] == [];
    assert Fields([line][..0]) == Ok([]);
    assert [] + ps == ps;
    assert Fields([line]) == Ok(ps);
    assert ps[..0] == [];
    assert PutAll(ps[..0]) == none;
    assert PutAll(ps) == none[p.0 := p.1];
  }

  /** Building the header map fails exactly when some header line lacks a colon, at the first such line. */
  lemma HeadersErr(ls: seq<string>)
    ensures Headers(ls).Ok? <==> AllHaveColon(ls)
    ensures Headers(ls).Err? ==> exists j :: FirstColonless(ls, j) && Headers(ls).error == MissingColon(ls[j])
  {
    FieldsOk(ls);
    if Fields(ls).Err? {
      FieldsFirstError(ls);
    }
  }

  /** A header line splits at its first colon: the value may hold further colons. */
  lemma HeaderLine(name: string, value: string)
    requires ':' !in name
    ensures ':' in name + ":" + value
    ensures FieldName(name + ":" + value) == name
    ensures FieldValue(name + ":" + value) == Trim(value)
  {
    SplitFirstAt(name, ':', value);
  }

  /**
   * The parse of a request head: on success the method, target and protocol are the
   * first three whitespace tokens of the request line and the headers come from every
   * further line. An empty head is treated as the single empty line `[""]`. On failure
   * the header lines are judged first, as the header loop runs before the request line
   * is indexed: the first line without a colon is reported, and only when every line
   * has one is a short request line reported, with its token count.
   */
  function Parse(head: seq<string>): (r: Result<HttpRequest, ParseError>)
    ensures r.Ok? <==>
      head != [] && AllHaveColon(head[1..]) && |Split(head[0], Whitespace)| >= 3
    ensures r.Ok? ==>
      var tokens := Split(head[0], Whitespace);
      && r.value.httpMethod == tokens[0]
      && r.value.requestUri == tokens[1]
      && r.value.httpProtocol == tokens[2]
      && Headers(head[1..]) == Ok(r.value.headers)
    ensures r.Err? && r.error.ShortRequestLine? ==> r.error.tokens < 3
    ensures r.Err? ==>
      var fieldLines := if head == [] then [] else head[1..];
      var requestLine := if head == [] then "" else head[0];
      if AllHaveColon(fieldLines) then r.error == ShortRequestLine(|Split(requestLine, Whitespace)|)
      else exists j :: FirstColonless(fieldLines, j) && r.error == MissingColon(fieldLines[j])
  {
    var parts := if head == [] then [""] else head;
    assert head == [] ==> Split(parts[0], Whitespace) == [""];
    HeadersErr(parts[1..]);
    match Headers(parts[1..])
    case Err(e) => Err(e)
    case Ok(fields) =>
      var tokens := Split(parts[0], Whitespace);
      if |tokens| < 3 then Err(ShortRequestLine(|tokens|))
      else Ok(HttpRequest(tokens[0], tokens[1], tokens[2], fields))
  }

  /** A colonless header line is reported whatever the request line is, even an empty one. */
  lemma HeaderErrorFirst(requestLine: string, bad: string)
    requires ':' !in bad
    ensures Parse([requestLine, bad]) == Err(MissingColon(bad))
  {
    var r := Parse([requestLine, bad]);
    assert [requestLine, bad][1..] == [bad];
    assert !AllHaveColon([bad]) by { assert ':' !in [bad][0]; }
    var j :| FirstColonless([bad], j) && r.error == MissingColon([bad][j]);
    assert FirstColonless([bad], j);
    assert 0 <= j < |[bad]|;
    assert [bad][j] == bad;
  }

  /**
   * `method SP target SP protocol`, optionally followed by a whitespace character and
   * anything at all, splits into those three tokens first.
   */
  lemma RequestLineTokens(verb: string, target: string, protocol: string, sp1: char, sp2: char,
                          extra: string)
    requires protocol != ""
    requires Free(verb, Whitespace) && Free(target, Whitespace) && Free(protocol, Whitespace)
    requires sp1 in Whitespace && sp2 in Whitespace
    requires extra == [] || extra[0] in Whitespace
    ensures var tokens := Split(verb + [sp1] + target + [sp2] + protocol + extra, Whitespace);
      |tokens| >= 3 && tokens[..3] == [verb, target, protocol]
  {
    var line := verb + [sp1] + target + [sp2] + protocol + extra;
    assert line == verb + ([sp1] + (target + ([sp2] + (protocol + extra))));
    var rest := RequestLinePieces(verb, target, protocol, sp1, sp2, extra);
    DropTrailingEmptyAppend([verb, target, protocol], rest);
  }

  /** The pieces of a request line: the three tokens first, then whatever follows them. */
  lemma RequestLinePieces(verb: string, target: string, protocol: string, sp1: char, sp2: char,
                          extra: string) returns (rest: seq<string>)
    requires Free(verb, Whitespace) && Free(target, Whitespace) && Free(protocol, Whitespace)
    requires sp1 in Whitespace && sp2 in Whitespace
    requires extra == [] || extra[0] in Whitespace
    ensures Pieces(verb + ([sp1] + (target + ([sp2] + (protocol + extra)))), Whitespace)
         == [verb, target, protocol] + rest
  {
    rest := ProtocolPieces(protocol, extra);
    PiecesCons(target, sp2, protocol + extra, Whitespace);
    PiecesCons(verb, sp1, target + ([sp2] + (protocol + extra)), Whitespace);
  }

  /** The pieces of the protocol token and whatever follows it, the protocol first. */
  lemma ProtocolPieces(protocol: string, extra: string) returns (rest: seq<string>)
    requires Free(protocol, Whitespace)
    requires extra == [] || extra[0] in Whitespace
    ensures Pieces(protocol + extra, Whitespace) == [protocol] + rest
  {
    if extra == [] {
      assert protocol + extra == protocol;
      rest := [];
    } else {
      PiecesCons(protocol, extra[0], extra[1..], Whitespace);
      assert protocol + extra == protocol + ([extra[0]] + extra[1..]);
      rest := Pieces(extra[1..], Whitespace);
    }
  }

  /**
   * A request line of three whitespace-separated parts, possibly followed by more,
   * parses into exactly those parts, with headers from the remaining lines.
   */
  lemma RequestLine(verb: string, target: string, protocol: string, sp1: char, sp2: char,
                    extra: string, fields: seq<string>)
    requires protocol != ""
    requires Free(verb, Whitespace) && Free(target, Whitespace) && Free(protocol, Whitespace)
    requires sp1 in Whitespace && sp2 in Whitespace
    requires extra == [] || extra[0] in Whitespace
    requires AllHaveColon(fields)
    ensures Headers(fields).Ok?
    ensures Parse([verb + [sp1] + target + [sp2] + protocol + extra] + fields)
         == Ok(HttpRequest(verb, target, protocol, Headers(fields).value))
  {
    var head := [verb + [sp1] + target + [sp2] + protocol + extra] + fields;
    assert head[1..] == fields;
    RequestLineTokens(verb, target, protocol, sp1, sp2, extra);
    HeadersErr(fields);
  }

  /**
   * Reads lines until the first empty line or the end of the stream, appending each
   * kept line and an LF to the builder. `consumed` counts the lines taken from the
   * stream, the terminating empty line included.
   */
  method ReadHead(stream: seq<string>) returns (text: string, consumed: nat)
    ensures text == Joined(HeadOf(stream))
    ensures consumed == if |HeadOf(stream)| < |stream| then |HeadOf(stream)| + 1 else |stream|
  {
    ghost var head := HeadOf(stream);
    text := "";
    var n := 0;
    while n < |stream| && stream[n] != ""
      invariant n <= |head|
      invariant text == Joined(stream[..n])
    {
      JoinedAppend(stream[..n], [stream[n]]);
      assert stream[..n + 1] == stream[..n] + [stream[n]];
      text := text + stream[n] + "\n";
      n := n + 1;
    }
    assert stream[..n] == head;
    consumed := if n < |stream| then n + 1 else n;
  }

  /**
   * Parses one request from a stream of lines as `readLine` returns them. Only the
   * lines up to the first empty line are consumed; the outcome is `Parse` of them.
   */
  method ParseRequest(stream: seq<string>) returns (r: Result<HttpRequest, ParseError>, consumed: nat)
    requires IsLines(stream)
    ensures r == Parse(HeadOf(stream))
    ensures consumed == if |HeadOf(stream)| < |stream| then |HeadOf(stream)| + 1 else |stream|
  {
    var text;
    text, consumed := ReadHead(stream);
    ghost var head := HeadOf(stream);
    assert IsLines(head) by {
      assert forall i | 0 <= i < |head| :: head[i] == stream[i];
    }
    var parts := SplitLines(text);
    SplitJoinedLines(head);
    var requestLineParts := Split(parts[0], Whitespace);
    var headers := CollectHeaders(parts);
    HeadersErr(parts[1..]);
    match headers {
      case Err(e) =>
        r := Err(e);
      case Ok(h) =>
        if |requestLineParts| < 3 {
          r := Err(ShortRequestLine(|requestLineParts|));
        } else {
          r := Ok(HttpRequest(requestLineParts[0], requestLineParts[1], requestLineParts[2], h));
        }
    }
  }

  /**
   * The loop over every line after the request line, putting each line's name and
   * trimmed value into the map; a line without a colon ends the parse with an error.
   */
  method CollectHeaders(parts: seq<string>) returns (r: Result<map<string, string>, ParseError>)
    requires |parts| >= 1
    ensures r == Headers(parts[1..])
  {
    var headers: map<string, string> := map[];
    ghost var fields: seq<(string, string)> := [];
    var i := 1;
    while i < |parts|
      invariant 1 <= i <= |parts|
      invariant Fields(parts[1..i]) == Ok(fields)
      invariant headers == PutAll(fields)
    {
      var headerParts := SplitFirst(parts[i], ':');
      assert parts[1..i + 1][..i - 1] == parts[1..i];
      if |headerParts| < 2 {
        FieldsErrorSticks(parts[1..], i);
        assert parts[1..][..i] == parts[1..i + 1];
        return Err(MissingColon(parts[i]));
      }
      headers := headers[headerParts[0] := Trim(headerParts[1])];
      ghost var previous := fields;
      fields := fields + [(headerParts[0], Trim(headerParts[1]))];
      assert fields[..|fields| - 1] == previous;
      i := i + 1;
    }
    assert parts[1..i] == parts[1..];
    r := Ok(headers);
  }

  /** Once a prefix of the header lines fails, so does every extension of it, with the same error. */
  lemma {:induction false} FieldsErrorSticks(ls: seq<string>, k: nat)
    requires k <= |ls| && Fields(ls[..k]).Err?
    ensures Fields(ls) == Fields(ls[..k])
    decreases |ls| - k
  {
    if k == |ls| {
      assert ls[..k] == ls;
    } else {
      var front := ls[..|ls| - 1];
      assert front[..k] == ls[..k];
      FieldsErrorSticks(front, k);
    }
  }
}
