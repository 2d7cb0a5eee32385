/**
 * The JavaScript string operations that both front-ends lean on, over `string`
 * (a sequence of Unicode scalar values):
 * `String.prototype.trim`, `Array.prototype.join`, `String.prototype.split`
 * on `/\r?\n/` and on `','`, `indexOf`, number-to-text conversion and
 * ASCII case folding.
 */
module Strings {
  import opened Seqs

  /** The code points ECMAScript counts as WhiteSpace or LineTerminator: what `trim` removes. */
  predicate IsTrimmable(c: char) {
    || c == '\t' || c == '\n' || c == '\U{000B}' || c == '\U{000C}' || c == '\r' || c == ' '
    || c == '\U{00A0}' || c == '\U{1680}' || ('\U{2000}' <= c <= '\U{200A}')
    || c == '\U{2028}' || c == '\U{2029}' || c == '\U{202F}' || c == '\U{205F}'
    || c == '\U{3000}' || c == '\U{FEFF}'
  }

  /** The number of trimmable characters at the start of `s`. */
  function LeadingBlanks(s: string): (n: nat)
    ensures n <= |s|
    ensures forall k :: 0 <= k < n ==> IsTrimmable(s[k])
    ensures n == |s| || !IsTrimmable(s[n])
    decreases |s|
  {
    if s != [] && IsTrimmable(s[0]) then 1 + LeadingBlanks(s[1..]) else 0
  }

  /** The number of trimmable characters at the end of `s`. */
  function TrailingBlanks(s: string): (n: nat)
    ensures n <= |s|
    ensures forall k :: |s| - n <= k < |s| ==> IsTrimmable(s[k])
    ensures n == |s| || !IsTrimmable(s[|s| - n - 1])
    decreases |s|
  {
    if s != [] && IsTrimmable(s[|s| - 1]) then 1 + TrailingBlanks(s[..|s| - 1]) else 0
  }

  /** `s.trim()`: the leading and then the trailing trimmable characters are dropped. */
  function Trim(s: string): string {
    var t := s[LeadingBlanks(s)..];
    t[..|t| - TrailingBlanks(t)]
  }

  /**
   * `trim` keeps one contiguous slice of its input, drops only trimmable
   * characters around it, and the slice neither starts nor ends with one.
   */
  lemma TrimShape(s: string)
    ensures var r, a := Trim(s), LeadingBlanks(s);
      && a + |r| <= |s|
      && r == s[a..a + |r|]
      && (forall k :: 0 <= k < a ==> IsTrimmable(s[k]))
      && (forall k :: a + |r| <= k < |s| ==> IsTrimmable(s[k]))
      && (r == [] || (!IsTrimmable(r[0]) && !IsTrimmable(r[|r| - 1])))
  {
    TrimSlice(s);
    TrimDropsTail(s);
    TrimEnds(s);
  }

  lemma TrimSlice(s: string)
    ensures var r, a := Trim(s), LeadingBlanks(s); a + |r| <= |s| && r == s[a..a + |r|]
  {
    var a := LeadingBlanks(s);
    var t := s[a..];
    DropTake(s, a, |t| - TrailingBlanks(t));
  }

  lemma TrimDropsTail(s: string)
    ensures var r, a := Trim(s), LeadingBlanks(s); forall k :: a + |r| <= k < |s| ==> IsTrimmable(s[k])
  {
    var a := LeadingBlanks(s);
    var t := s[a..];
    var b := TrailingBlanks(t);
    forall k | a + |t| - b <= k < |s| ensures IsTrimmable(s[k]) {
      assert s[k] == t[k - a];
    }
  }

  lemma TrimEnds(s: string)
    ensures var r := Trim(s); r == [] || (!IsTrimmable(r[0]) && !IsTrimmable(r[|r| - 1]))
  {
    var a := LeadingBlanks(s);
    var t := s[a..];
    var b := TrailingBlanks(t);
    var r := t[..|t| - b];
    if r != [] {
      assert r[0] == s[a];
      assert r[|r| - 1] == t[|t| - b - 1];
    }
  }

  /** A string trims to nothing exactly when every character of it is trimmable. */
  lemma TrimEmptyIff(s: string)
    ensures Trim(s) == [] <==> forall k :: 0 <= k < |s| ==> IsTrimmable(s[k])
  {
    TrimShape(s);
  }

  /** Trimming twice is trimming once. */
  lemma TrimIdempotent(s: string)
    ensures Trim(Trim(s)) == Trim(s)
  {
    var r := Trim(s);
    TrimShape(s);
    assert LeadingBlanks(r) == 0;
    assert TrailingBlanks(r) == 0;
    assert r[0..] == r;
  }

  /** `pieces.join(sep)`. */
  function Join(pieces: seq<string>, sep: string): string
    decreases |pieces|
  {
    if |pieces| == 0 then ""
    else if |pieces| == 1 then pieces[0]
    else Join(pieces[..|pieces| - 1], sep) + sep + pieces[|pieces| - 1]
  }

  /** Joining the first `i + 1` pieces: the first `i` joined, the separator, then piece `i`. */
  lemma JoinStep(pieces: seq<string>, i: nat, sep: string)
    requires 0 < i < |pieces|
    ensures Join(pieces[..i + 1], sep) == Join(pieces[..i], sep) + sep + pieces[i]
  {
    TakeStep(pieces, i);
  }

  lemma {:induction false} JoinCons(a: string, rest: seq<string>, sep: string)
    requires |rest| > 0
    ensures Join([a] + rest, sep) == a + sep + Join(rest, sep)
    decreases |rest|
  {
    var all := [a] + rest;
    if |rest| == 1 {
      assert all[..1] == [a];
    } else {
      var n := |rest|;
      assert all[..|all| - 1] == [a] + rest[..n - 1];
      JoinCons(a, rest[..n - 1], sep);
      assert all[|all| - 1] == rest[n - 1];
    }
  }

  /** Whether the character ends a line for a regular-expression `.` (which does not match it). */
  predicate IsLineTerminator(c: char) {
    c == '\n' || c == '\r' || c == '\U{2028}' || c == '\U{2029}'
  }

  /**
   * `s.split(/\r?\n/)`: the pieces between the separators "\r\n" and "\n",
   * found from left to right. A lone "\r" is not a separator.
   */
  function SplitLines(s: string): (pieces: seq<string>)
    ensures |pieces| >= 1
    decreases |s|
  {
    if |s| == 0 then [""]
    else if s[0] == '\n' then [""] + SplitLines(s[1..])
    else if |s| >= 2 && s[0] == '\r' && s[1] == '\n' then [""] + SplitLines(s[2..])
    else
      var rest := SplitLines(s[1..]);
      [[s[0]] + rest[0]] + rest[1..]
  }

  /** `s` with every "\r\n" written as "\n". */
  function NormalizeNewlines(s: string): string
    decreases |s|
  {
    if |s| == 0 then ""
    else if |s| >= 2 && s[0] == '\r' && s[1] == '\n' then "\n" + NormalizeNewlines(s[2..])
    else [s[0]] + NormalizeNewlines(s[1..])
  }

  lemma Assoc(a: string, b: string, c: string)
    ensures (a + b) + c == a + (b + c)
  {
  }

  /** Joining the lines back with "\n" gives the text with its line ends normalised. */
  lemma {:induction false} JoinSplitLines(s: string)
    ensures Join(SplitLines(s), "\n") == NormalizeNewlines(s)
    decreases |s|
  {
    if |s| == 0 {
    } else if s[0] == '\n' {
      JoinSplitLines(s[1..]);
      JoinSplitLinesAtBreak(s, 1);
    } else if |s| >= 2 && s[0] == '\r' && s[1] == '\n' {
      JoinSplitLines(s[2..]);
      JoinSplitLinesAtBreak(s, 2);
    } else {
      JoinSplitLines(s[1..]);
      JoinSplitLinesAtChar(s);
    }
  }

  /** The step of `JoinSplitLines` for a text starting with a separator of length `n`. */
  lemma JoinSplitLinesAtBreak(s: string, n: nat)
    requires n == 1 || n == 2
    requires n <= |s|
    requires n == 1 ==> s[0] == '\n'
    requires n == 2 ==> s[0] == '\r' && s[1] == '\n'
    requires Join(SplitLines(s[n..]), "\n") == NormalizeNewlines(s[n..])
    ensures Join(SplitLines(s), "\n") == NormalizeNewlines(s)
  {
    var rest := SplitLines(s[n..]);
    assert SplitLines(s) == [""] + rest;
    assert NormalizeNewlines(s) == "\n" + NormalizeNewlines(s[n..]);
    JoinCons("", rest, "\n");
  }

  /** The step of `JoinSplitLines` for a text starting with a character that is not a separator. */
  lemma JoinSplitLinesAtChar(s: string)
    requires |s| > 0 && s[0] != '\n' && !(|s| >= 2 && s[0] == '\r' && s[1] == '\n')
    requires Join(SplitLines(s[1..]), "\n") == NormalizeNewlines(s[1..])
    ensures Join(SplitLines(s), "\n") == NormalizeNewlines(s)
  {
    var rest := SplitLines(s[1..]);
    var first := [s[0]] + rest[0];
    assert SplitLines(s) == [first] + rest[1..];
    assert NormalizeNewlines(s) == [s[0]] + NormalizeNewlines(s[1..]);
    if |rest| == 1 {
      assert [first] + rest[1..] == [first];
      assert Join(rest, "\n") == rest[0];
    } else {
      var tail := Join(rest[1..], "\n");
      JoinCons(first, rest[1..], "\n");
      JoinCons(rest[0], rest[1..], "\n");
      assert [rest[0]] + rest[1..] == rest;
      assert Join(rest, "\n") == rest[0] + "\n" + tail;
      Assoc([s[0]], rest[0], "\n");
      Assoc([s[0]], rest[0] + "\n", tail);
    }
  }

  /** A piece that `split(/\r?\n/)` leaves whole: no "\n" in it, and no "\r" at its end. */
  predicate SingleLine(p: string) {
    '\n' !in p && (p == [] || p[|p| - 1] != '\r')
  }

  lemma {:induction false} SplitLinesAfterSingleLine(a: string, t: string)
    requires SingleLine(a)
    ensures SplitLines(a + t) == [a + SplitLines(t)[0]] + SplitLines(t)[1..]
    decreases |a|
  {
    if |a| == 0 {
      assert a + t == t;
      assert a + SplitLines(t)[0] == SplitLines(t)[0];
      assert [a + SplitLines(t)[0]] + SplitLines(t)[1..] == SplitLines(t);
    } else {
      SingleLineTail(a);
      assert (a + t)[0] == a[0];
      assert (a + t)[1..] == a[1..] + t;
      if |a| >= 2 {
        assert (a + t)[1] == a[1];
      }
      SplitLinesAfterSingleLine(a[1..], t);
      var rest := SplitLines(a[1..] + t);
      assert SplitLines(a + t) == [[a[0]] + rest[0]] + rest[1..];
      Assoc([a[0]], a[1..], SplitLines(t)[0]);
      assert [a[0]] + a[1..] == a;
    }
  }

  /** Dropping the first character of a single line leaves a single line, and neither of its first two characters is "\n". */
  lemma SingleLineTail(a: string)
    requires SingleLine(a) && |a| > 0
    ensures SingleLine(a[1..])
    ensures a[0] != '\n' && (|a| >= 2 ==> a[1] != '\n')
  {
    assert a[0] in a;
    if |a| >= 2 {
      assert a[1] in a;
      assert a[1..][|a[1..]| - 1] == a[|a| - 1];
    }
    assert forall c :: c in a[1..] ==> c in a;
  }

  /** Splitting lines undoes joining single-line pieces with "\n". */
  lemma {:induction false} SplitLinesJoin(pieces: seq<string>)
    requires |pieces| >= 1
    requires forall k :: 0 <= k < |pieces| ==> SingleLine(pieces[k])
    ensures SplitLines(Join(pieces, "\n")) == pieces
    decreases |pieces|
  {
    var a := pieces[0];
    if |pieces| == 1 {
      SplitLinesAfterSingleLine(a, "");
      assert SplitLines("") == [""];
      assert a + "" == a;
      assert [a + SplitLines("")[0]] + SplitLines("")[1..] == [a];
      assert pieces == [a];
    } else {
      var rest := pieces[1..];
      assert pieces == [a] + rest;
      JoinCons(a, rest, "\n");
      SplitLinesJoin(rest);
      var j := Join(rest, "\n");
      assert a + "\n" + j == a + ("\n" + j);
      SplitLinesAfterSingleLine(a, "\n" + j);
      assert ("\n" + j)[0] == '\n' && ("\n" + j)[1..] == j;
      assert SplitLines("\n" + j) == [""] + rest;
      assert a + "" == a;
    }
  }

  /** `s.split(c)` for a one-character separator. */
  function SplitOn(s: string, c: char): (fields: seq<string>)
    ensures |fields| >= 1
    decreases |s|
  {
    if |s| == 0 then [""]
    else if s[0] == c then [""] + SplitOn(s[1..], c)
    else
      var rest := SplitOn(s[1..], c);
      [[s[0]] + rest[0]] + rest[1..]
  }

  /** `s.indexOf(c)`: the first position of `c`, or -1. */
  function IndexOf(s: string, c: char): (i: int)
    ensures -1 <= i < |s|
    ensures i == -1 <==> c !in s
    ensures 0 <= i ==> s[i] == c && c !in s[..i]
    decreases |s|
  {
    if |s| == 0 then -1
    else if s[0] == c then 0
    else
      var j := IndexOf(s[1..], c);
      if j == -1 then
        assert s == [s[0]] + s[1..];
        -1
      else
        assert s[..j + 1] == [s[0]] + s[1..][..j];
        j + 1
  }

  /** The second field of `s.split(c)` runs from just past the first `c` up to the next `c` or the end. */
  lemma {:induction false} SplitOnSecondField(s: string, c: char)
    requires c in s
    ensures |SplitOn(s, c)| >= 2
    ensures var tail := s[IndexOf(s, c) + 1..];
      SplitOn(s, c)[1] == if c in tail then tail[..IndexOf(tail, c)] else tail
    decreases |s|
  {
    if s[0] == c {
      assert s[1..] == s[IndexOf(s, c) + 1..];
      SplitOnFirstField(s[1..], c);
    } else {
      SplitOnSecondField(s[1..], c);
      assert s[1..][IndexOf(s[1..], c) + 1..] == s[IndexOf(s, c) + 1..];
    }
  }

  /** Without the separator, `s.split(c)` is `[s]`. */
  lemma {:induction false} SplitOnWithout(s: string, c: char)
    requires c !in s
    ensures SplitOn(s, c) == [s]
    decreases |s|
  {
    if |s| > 0 {
      assert c !in s[1..] by { forall d | d in s[1..] ensures d in s { } }
      SplitOnWithout(s[1..], c);
      assert [s[0]] + s[1..] == s;
    }
  }

  /** `s.split(c)` has a second field exactly when `c` occurs in `s`. */
  lemma SplitOnFields(s: string, c: char)
    ensures |SplitOn(s, c)| >= 2 <==> c in s
  {
    if c in s { SplitOnSecondField(s, c); } else { SplitOnWithout(s, c); }
  }

  /** The first field of `s.split(c)` is `s` up to the first `c`, or all of `s`. */
  lemma {:induction false} SplitOnFirstField(s: string, c: char)
    ensures SplitOn(s, c)[0] == if c in s then s[..IndexOf(s, c)] else s
    decreases |s|
  {
    if |s| == 0 {
    } else if s[0] == c {
    } else {
      SplitOnFirstField(s[1..], c);
      if c in s {
        assert c in s[1..] by { var k :| 0 <= k < |s| && s[k] == c; assert s[1..][k - 1] == c; }
        assert [s[0]] + s[1..][..IndexOf(s[1..], c)] == s[..IndexOf(s, c)];
      } else {
        assert c !in s[1..] by { forall d | d in s[1..] ensures d in s { } }
        assert [s[0]] + s[1..] == s;
      }
    }
  }

  function DigitChar(d: nat): char
    requires d < 10
  {
    (48 + d) as char
  }

  function DigitValue(c: char): nat {
    if '0' <= c <= '9' then (c as int - '0' as int) as nat else 0
  }

  /** `String(n)` for a non-negative integer: its decimal numeral, without leading zeros. */
  function NatToString(n: nat): (r: string)
    ensures |r| >= 1
    ensures forall k :: 0 <= k < |r| ==> '0' <= r[k] <= '9'
    ensures |r| == 1 || r[0] != '0'
    decreases n
  {
    if n < 10 then [DigitChar(n)] else NatToString(n / 10) + [DigitChar(n % 10)]
  }

  /** The value of a string of decimal digits. */
  function ParseNat(s: string): nat
    decreases |s|
  {
    if |s| == 0 then 0 else ParseNat(s[..|s| - 1]) * 10 + DigitValue(s[|s| - 1])
  }

  /** Reading the numeral back gives the number. */
  lemma {:induction false} ParseNatToString(n: nat)
    ensures ParseNat(NatToString(n)) == n
    decreases n
  {
    if n >= 10 {
      var s := NatToString(n);
      assert s[..|s| - 1] == NatToString(n / 10);
      ParseNatToString(n / 10);
    }
  }

  /** ASCII case folding to lower case, which is how `/i` compares letters in a pattern without the `u` flag. */
  function LowerAscii(c: char): char {
    if 'A' <= c <= 'Z' then (c as int + 32) as char else c
  }

  predicate StartsWith(s: string, prefix: string) {
    |prefix| <= |s| && s[..|prefix|] == prefix
  }

  /** The number of occurrences of `c` in `s`. */
  function CountChar(s: string, c: char): nat
    decreases |s|
  {
    if |s| == 0 then 0 else (if s[0] == c then 1 else 0) + CountChar(s[1..], c)
  }

  lemma {:induction false} CountCharAppend(a: string, b: string, c: char)
    ensures CountChar(a + b, c) == CountChar(a, c) + CountChar(b, c)
    decreases |a|
  {
    if |a| > 0 {
      assert (a + b)[1..] == a[1..] + b;
      CountCharAppend(a[1..], b, c);
    } else {
      assert a + b == b;
    }
  }
}
