/**
 * Line-oriented text: the lines `BufferedReader.readLine` hands out, the head of a
 * message (its lines up to the first empty one), and the two ways the servers glue
 * lines together again.
 */
module Lines {
  import opened JavaText

  /** What `readLine` can return: no line holds a CR or an LF. */
  predicate IsLines(ls: seq<string>)
  {
    forall i | 0 <= i < |ls| :: '\r' !in ls[i] && '\n' !in ls[i]
  }

  predicate NoneEmpty(ls: seq<string>)
  {
    forall i | 0 <= i < |ls| :: ls[i] != ""
  }

  /**
   * The lines of `stream` before its first empty line, or all of them when there is
   * none: exactly the lines the request-reading loop keeps.
   */
  function HeadOf(stream: seq<string>): (head: seq<string>)
    ensures |head| <= |stream| && head == stream[..|head|]
    ensures NoneEmpty(head)
    ensures |head| < |stream| ==> stream[|head|] == ""
    decreases |stream|
  {
    if stream == [] || stream[0] == "" then [] else [stream[0]] + HeadOf(stream[1..])
  }

  /** The head ends at the first empty line: nothing after it matters. */
  lemma {:induction false} HeadStopsAtBlank(before: seq<string>, after: seq<string>)
    requires NoneEmpty(before)
    ensures HeadOf(before + [""] + after) == before
    decreases |before|
  {
    if before == [] {
      assert (before + [""] + after)[0] == "";
    } else {
      assert (before + [""] + after)[1..] == before[1..] + [""] + after;
      HeadStopsAtBlank(before[1..], after);
      assert [before[0]] + before[1..] == before;
    }
  }

  /** Each line followed by LF, the contents of the request builder once reading stops. */
  function Joined(ls: seq<string>): string
    decreases |ls|
  {
    if ls == [] then "" else ls[0] + "\n" + Joined(ls[1..])
  }

  lemma {:induction false} JoinedAppend(a: seq<string>, b: seq<string>)
    ensures Joined(a + b) == Joined(a) + Joined(b)
    decreases |a|
  {
    if a == [] {
      assert a + b == b;
    } else {
      assert (a + b)[1..] == a[1..] + b;
      JoinedAppend(a[1..], b);
    }
  }

  lemma {:induction false} LinePiecesOfJoined(ls: seq<string>)
    requires IsLines(ls)
    ensures LinePieces(Joined(ls)) == ls + [""]
    decreases |ls|
  {
    if ls != [] {
      LinePiecesCons(ls[0], Joined(ls[1..]));
      LinePiecesOfJoined(ls[1..]);
      assert [ls[0]] + (ls[1..] + [""]) == ls + [""];
    }
  }

  /**
   * Gluing the read lines with LF and splitting again on `(\r)?\n` gives back exactly
   * the lines read; an empty head comes back as the single empty string.
   */
  lemma SplitJoinedLines(ls: seq<string>)
    requires IsLines(ls) && NoneEmpty(ls)
    ensures SplitLines(Joined(ls)) == if ls == [] then [""] else ls
  {
    LinePiecesOfJoined(ls);
    if ls != [] {
      DropTrailingEmptyAppend(ls, [""]);
      assert DropTrailingEmpty([""]) == [];
      assert ls + [] == ls;
    }
  }

  /** The pieces glued back together with `sep` between neighbours. */
  function JoinWith(ps: seq<string>, sep: char): string
    decreases |ps|
  {
    if ps == [] then "" else if |ps| == 1 then ps[0] else ps[0] + [sep] + JoinWith(ps[1..], sep)
  }

  /** Splitting at every `c` and gluing with `c` gives back the text. */
  lemma {:induction false} JoinPieces(s: string, c: char)
    ensures JoinWith(Pieces(s, {c}), c) == s
    decreases |s|
  {
    if s != [] {
      var rest := Pieces(s[1..], {c});
      JoinPieces(s[1..], c);
      if s[0] == c {
        assert Pieces(s, {c}) == [""] + rest;
        assert ([""] + rest)[1..] == rest;
        assert s == [c] + s[1..];
      } else {
        assert Pieces(s, {c}) == [[s[0]] + rest[0]] + rest[1..];
        if |rest| > 1 {
          assert ([[s[0]] + rest[0]] + rest[1..])[1..] == rest[1..];
          assert JoinWith(rest, c) == rest[0] + [c] + JoinWith(rest[1..], c);
        }
        assert s == [s[0]] + s[1..];
      }
    }
  }
}
