/**
 * The pieces of java.lang.String and java.util.Formatter that the servers rely on:
 * `split` with a one-character regular expression (with and without a limit),
 * `split("(\\r)?\\n")`, `trim()` and `%d` of a non-negative int.
 */
module JavaText {
  import opened Wrappers

  /** The characters matched by the regular expression `\s` (no Unicode flag): [ \t\n\x0B\f\r]. */
  const Whitespace: set<char> := {' ', '\t', '\n', '\U{B}', '\U{C}', '\r'}

  /** No character of `s` belongs to `seps`. */
  predicate Free(s: string, seps: set<char>)
  {
    forall k | 0 <= k < |s| :: s[k] !in seps
  }

  /**
   * Every piece of `s` between single separator characters drawn from `seps`, empty
   * pieces included: what a regex split on a one-character class finds before Java
   * discards anything.
   */
  function Pieces(s: string, seps: set<char>): (r: seq<string>)
    ensures |r| >= 1
    ensures forall i | 0 <= i < |r| :: Free(r[i], seps)
    ensures |r| == 1 <==> Free(s, seps)
    ensures |r| == 1 ==> r[0] == s
    decreases |s|
  {
    if s == [] then [""]
    else
      var rest := Pieces(s[1..], seps);
      if s[0] in seps then [""] + rest
      else
        assert Free([s[0]] + rest[0], seps) by {
          assert forall k | 1 <= k < |rest[0]| + 1 :: ([s[0]] + rest[0])[k] == rest[0][k - 1];
        }
        [[s[0]] + rest[0]] + rest[1..]
  }

  /** A word free of separators followed by one separator is split off as the first piece. */
  lemma {:induction false} PiecesCons(w: string, c: char, t: string, seps: set<char>)
    requires Free(w, seps) && c in seps
    ensures Pieces(w + ([c] + t), seps) == [w] + Pieces(t, seps)
    decreases |w|
  {
    if w == [] {
      assert w + ([c] + t) == [c] + t;
    } else {
      assert (w + ([c] + t))[1..] == w[1..] + ([c] + t);
      PiecesCons(w[1..], c, t, seps);
      assert [w[0]] + w[1..] == w;
    }
  }

  /**
   * `ps` without its trailing empty strings, as Java's `split` with no limit returns it.
   */
  function DropTrailingEmpty(ps: seq<string>): (r: seq<string>)
    ensures |r| <= |ps| && r == ps[..|r|]
    ensures r == [] || r[|r| - 1] != ""
    ensures forall k | |r| <= k < |ps| :: ps[k] == ""
    decreases |ps|
  {
    if ps != [] && ps[|ps| - 1] == "" then DropTrailingEmpty(ps[..|ps| - 1]) else ps
  }

  /** Dropping trailing empties stops at a non-empty last element of the front part. */
  lemma {:induction false} DropTrailingEmptyAppend(p: seq<string>, q: seq<string>)
    requires p != [] && p[|p| - 1] != ""
    ensures DropTrailingEmpty(p + q) == p + DropTrailingEmpty(q)
    decreases |q|
  {
    if q == [] {
      assert p + q == p;
    } else if q[|q| - 1] == "" {
      assert (p + q)[..|p + q| - 1] == p + q[..|q| - 1];
      DropTrailingEmptyAppend(p, q[..|q| - 1]);
    }
  }

  /**
   * `s.split(regex)` for a regex matching exactly one character of `seps`: no match gives
   * back `[s]`, otherwise every piece with the trailing empty ones removed.
   */
  function Split(s: string, seps: set<char>): (r: seq<string>)
    ensures Free(s, seps) ==> r == [s]
    ensures !Free(s, seps) ==>
      && (r == [] || r[|r| - 1] != "") && |r| <= |Pieces(s, seps)| && r == Pieces(s, seps)[..|r|]
      && forall k | |r| <= k < |Pieces(s, seps)| :: Pieces(s, seps)[k] == ""
    ensures forall i | 0 <= i < |r| :: Free(r[i], seps)
  {
    var p := Pieces(s, seps);
    if |p| == 1 then p else DropTrailingEmpty(p)
  }

  /**
   * The pieces of `s` between matches of `(\r)?\n`, empty pieces included. A CR is
   * part of the separator only when an LF follows it.
   */
  function LinePieces(s: string): (r: seq<string>)
    ensures |r| >= 1
    ensures forall i | 0 <= i < |r| :: '\n' !in r[i]
    ensures |r| == 1 <==> '\n' !in s
    ensures |r| == 1 ==> r[0] == s
    decreases |s|
  {
    if s == [] then [""]
    else if s[0] == '\n' then [""] + LinePieces(s[1..])
    else if |s| >= 2 && s[0] == '\r' && s[1] == '\n' then [""] + LinePieces(s[2..])
    else
      var rest := LinePieces(s[1..]);
      assert s == [s[0]] + s[1..];
      [[s[0]] + rest[0]] + rest[1..]
  }

  /** `s.split("(\\r)?\\n")`: no match gives back `[s]`, otherwise trailing empty lines are removed. */
  function SplitLines(s: string): (r: seq<string>)
    ensures '\n' !in s ==> r == [s]
    ensures '\n' in s ==>
      && (r == [] || r[|r| - 1] != "") && |r| <= |LinePieces(s)| && r == LinePieces(s)[..|r|]
      && forall k | |r| <= k < |LinePieces(s)| :: LinePieces(s)[k] == ""
    ensures forall i | 0 <= i < |r| :: '\n' !in r[i]
  {
    var p := LinePieces(s);
    if |p| == 1 then p else DropTrailingEmpty(p)
  }

  /** A line free of CR and LF followed by LF is split off as the first piece. */
  lemma {:induction false} LinePiecesCons(l: string, t: string)
    requires '\r' !in l && '\n' !in l
    ensures LinePieces(l + "\n" + t) == [l] + LinePieces(t)
    decreases |l|
  {
    if l == [] {
      assert l + "\n" + t == "\n" + t;
      assert ("\n" + t)[1..] == t;
    } else {
      assert (l + "\n" + t)[1..] == l[1..] + "\n" + t;
      LinePiecesCons(l[1..], t);
      assert [l[0]] + l[1..] == l;
    }
  }

  /** A line free of CR and LF followed by CR LF is split off as the first piece: the CR goes with the separator. */
  lemma {:induction false} LinePiecesCrLf(l: string, t: string)
    requires '\r' !in l && '\n' !in l
    ensures LinePieces(l + "\r\n" + t) == [l] + LinePieces(t)
    decreases |l|
  {
    if l == [] {
      assert l + "\r\n" + t == "\r\n" + t;
      assert ("\r\n" + t)[2..] == t;
    } else {
      assert (l + "\r\n" + t)[1..] == l[1..] + "\r\n" + t;
      LinePiecesCrLf(l[1..], t);
      assert [l[0]] + l[1..] == l;
    }
  }

  /**
   * `s.split(String.valueOf(c), 2)` for a character `c` that is not a regex
   * metacharacter: the text before the first `c` and everything after it, empty
   * pieces kept, or `[s]` when `c` does not occur.
   */
  function SplitFirst(s: string, c: char): (r: seq<string>)
    ensures |r| == 1 || |r| == 2
    ensures |r| == 1 <==> c !in s
    decreases |s|
  {
    if s == [] then [""]
    else if s[0] == c then ["", s[1..]]
    else
      var rest := SplitFirst(s[1..], c);
      [[s[0]] + rest[0]] + rest[1..]
  }

  /**
   * What `SplitFirst` returns: `[s]` when `c` does not occur, otherwise the text before
   * the first `c` and the text after it.
   */
  lemma {:induction false} SplitFirstParts(s: string, c: char)
    ensures var r := SplitFirst(s, c);
      && (|r| == 1 ==> r[0] == s)
      && (|r| == 2 ==>
            && |r[0]| < |s| && s[|r[0]|] == c && c !in r[0]
            && r[0] == s[..|r[0]|] && r[1] == s[|r[0]| + 1..])
    decreases |s|
  {
    if s != [] && s[0] != c {
      var rest := SplitFirst(s[1..], c);
      SplitFirstParts(s[1..], c);
      assert SplitFirst(s, c) == [[s[0]] + rest[0]] + rest[1..];
      if |rest| == 2 {
        assert [s[0]] + rest[0] == s[..|rest[0]| + 1];
        assert rest[1] == s[|rest[0]| + 2..];
      } else {
        assert s == [s[0]] + s[1..];
      }
    }
  }

  /** A text free of `c`, then `c`, then anything: the split falls at that first `c`. */
  lemma SplitFirstAt(a: string, c: char, b: string)
    requires c !in a
    ensures SplitFirst(a + [c] + b, c) == [a, b]
  {
    var s := a + [c] + b;
    var p := SplitFirst(s, c);
    assert s[|a|] == c;
    SplitFirstParts(s, c);
    assert forall k | 0 <= k < |a| :: s[k] == a[k];
    assert |p[0]| == |a|;
    assert p[0] == s[..|a|] == a;
    assert p[1] == s[|a| + 1..] == b;
  }

  /** Strips the leading characters `<= ' '`. */
  function TrimStart(s: string): string
    decreases |s|
  {
    if s != [] && s[0] <= ' ' then TrimStart(s[1..]) else s
  }

  /** Strips the trailing characters `<= ' '`. */
  function TrimEnd(s: string): string
    decreases |s|
  {
    if s != [] && s[|s| - 1] <= ' ' then TrimEnd(s[..|s| - 1]) else s
  }

  /** `s.trim()`. */
  function Trim(s: string): string
  {
    TrimEnd(TrimStart(s))
  }

  /** `r` is `s[i..]` cut to `|r|` characters, and what lies outside it is all `<= ' '`. */
  predicate TrimmedAt(s: string, r: string, i: int)
  {
    0 <= i <= |s| - |r|
    && s[i..i + |r|] == r
    && (forall k | 0 <= k < i :: s[k] <= ' ')
    && (forall k | i + |r| <= k < |s| :: s[k] <= ' ')
  }

  lemma {:induction false} TrimStartSuffix(s: string)
    ensures var r := TrimStart(s);
      && |r| <= |s| && r == s[|s| - |r|..]
      && (forall k | 0 <= k < |s| - |r| :: s[k] <= ' ')
      && (r == [] || ' ' < r[0])
    decreases |s|
  {
    if s != [] && s[0] <= ' ' {
      TrimStartSuffix(s[1..]);
    }
  }

  lemma {:induction false} TrimEndPrefix(s: string)
    ensures var r := TrimEnd(s);
      && |r| <= |s| && r == s[..|r|]
      && (forall k | |r| <= k < |s| :: s[k] <= ' ')
      && (r == [] || ' ' < r[|r| - 1])
    decreases |s|
  {
    if s != [] && s[|s| - 1] <= ' ' {
      TrimEndPrefix(s[..|s| - 1]);
    }
  }

  /**
   * `s.trim()` is the infix of `s` that neither starts nor ends with a character
   * `<= ' '`, and everything cut off on either side is `<= ' '`.
   */
  lemma TrimSpec(s: string)
    ensures var r := Trim(s);
      && (r == [] || (' ' < r[0] && ' ' < r[|r| - 1]))
      && exists i :: TrimmedAt(s, r, i)
  {
    var l := TrimStart(s);
    var r := TrimEnd(l);
    TrimStartSuffix(s);
    TrimEndPrefix(l);
    var i := |s| - |l|;
    assert s[i..i + |r|] == r;
    assert TrimmedAt(s, r, i);
  }

  /** The decimal digit character for `d`. */
  function DigitChar(d: nat): (c: char)
    requires d < 10
    ensures IsDigit(c) && DigitValue(c) == d
  {
    ('0' as int + d) as char
  }

  predicate IsDigit(c: char)
  {
    '0' <= c <= '9'
  }

  /** The value of a decimal digit character. */
  function DigitValue(c: char): nat
    requires IsDigit(c)
  {
    c as int - '0' as int
  }

  /**
   * `String.format("%d", n)` for a non-negative `n` in a locale whose zero digit is
   * `'0'`: ASCII decimal digits, no sign, padding or grouping.
   */
  function Decimal(n: nat): (r: string)
    ensures |r| >= 1
    ensures forall k | 0 <= k < |r| :: IsDigit(r[k])
    ensures r[0] == '0' ==> n == 0
    decreases n
  {
    if n < 10 then [DigitChar(n)] else Decimal(n / 10) + [DigitChar(n % 10)]
  }

  /** The number a string of decimal digits denotes. */
  function DigitsValue(s: string): nat
    requires forall k | 0 <= k < |s| :: IsDigit(s[k])
    decreases |s|
  {
    if s == [] then 0
    else DigitsValue(s[..|s| - 1]) * 10 + DigitValue(s[|s| - 1])
  }

  /** Reads a non-empty string of decimal digits as a number; anything else is refused. */
  function ParseDecimal(s: string): (r: Option<nat>)
    ensures r.Some? <==> s != [] && forall k | 0 <= k < |s| :: IsDigit(s[k])
  {
    if s != [] && forall k | 0 <= k < |s| :: IsDigit(s[k]) then Some(DigitsValue(s)) else None
  }

  /** Reading back what `%d` printed gives the number. */
  lemma {:induction false} DecimalRoundTrip(n: nat)
    ensures ParseDecimal(Decimal(n)) == Some(n)
    decreases n
  {
    var d := Decimal(n);
    if n < 10 {
      assert d[..|d| - 1] == [];
      assert DigitsValue(d) == DigitValue(d[0]) == n;
    } else {
      DecimalRoundTrip(n / 10);
      assert d[..|d| - 1] == Decimal(n / 10);
    }
  }
}
