/**
 * How the popup turns a reply into chat markup (popup.js, `formatAIResponse`
 * and `escapeHtml`). The reply is first escaped as the HTML Standard escapes a
 * text node when it serialises a fragment (section 13.3, "escaping a string":
 * `&`, U+00A0 NO-BREAK SPACE, `<` and `>` become entities), and only then
 * rewritten by five global regular-expression replacements: bold, italic,
 * line breaks, code blocks and inline code.
 *
 * The rewrites are modelled on a sequence of pieces, each a character of the
 * escaped text or a piece of markup an earlier rewrite inserted. Serialising
 * the pieces gives the string the popup builds. The two views agree because no
 * inserted markup holds a delimiter (`*`, `` ` ``, a line feed) or a line
 * terminator, so a pattern never starts or ends inside markup, and `.` matches
 * every character of it.
 */
module PopupFormat {
  import opened Optional
  import opened Strings
  import opened Seqs

  /** The characters `escapeHtml` replaces. */
  predicate NeedsEscape(c: char) {
    c == '&' || c == '\U{00A0}' || c == '<' || c == '>'
  }

  /** What `escapeHtml` writes for one character. */
  function EscapeChar(c: char): string {
    if c == '&' then "&amp;"
    else if c == '\U{00A0}' then "&nbsp;"
    else if c == '<' then "&lt;"
    else if c == '>' then "&gt;"
    else [c]
  }

  /** `escapeHtml`: the text's characters, each escaped; no `<` or `>` is left. */
  function EscapeHtml(t: string): (e: string)
    ensures '<' !in e && '>' !in e
    ensures |e| >= |t|
    decreases |t|
  {
    if |t| == 0 then ""
    else
      var head := EscapeChar(t[0]);
      assert '<' !in head && '>' !in head;
      head + EscapeHtml(t[1..])
  }

  /** Decoding the four entities `escapeHtml` writes; any other character stands for itself. */
  function Unescape(s: string): string
    decreases |s|
  {
    if |s| == 0 then ""
    else if StartsWith(s, "&amp;") then "&" + Unescape(s[5..])
    else if StartsWith(s, "&nbsp;") then "\U{00A0}" + Unescape(s[6..])
    else if StartsWith(s, "&lt;") then "<" + Unescape(s[4..])
    else if StartsWith(s, "&gt;") then ">" + Unescape(s[4..])
    else [s[0]] + Unescape(s[1..])
  }

  /** Decoding the entity (or character) written for `c` gives `c` back. */
  lemma UnescapeHead(c: char, rest: string)
    ensures Unescape(EscapeChar(c) + rest) == [c] + Unescape(rest)
  {
    var e := EscapeChar(c) + rest;
    if c == '&' {
      assert e[..5] == "&amp;" && e[5..] == rest;
    } else if c == '\U{00A0}' {
      assert e[..6] == "&nbsp;" && e[6..] == rest;
      assert !StartsWith(e, "&amp;") by { assert e[1] == 'n'; }
    } else if c == '<' {
      assert e[..4] == "&lt;" && e[4..] == rest;
      assert !StartsWith(e, "&amp;") && !StartsWith(e, "&nbsp;") by { assert e[1] == 'l'; }
    } else if c == '>' {
      assert e[..4] == "&gt;" && e[4..] == rest;
      assert !StartsWith(e, "&amp;") && !StartsWith(e, "&nbsp;") && !StartsWith(e, "&lt;") by { assert e[1] == 'g'; }
    } else {
      assert e[0] == c && e[1..] == rest;
      assert !StartsWith(e, "&amp;") && !StartsWith(e, "&nbsp;") && !StartsWith(e, "&lt;") && !StartsWith(e, "&gt;") by {
        assert e[0] != '&';
      }
    }
  }

  /** Escaping loses nothing: decoding the entities gives the reply back. */
  lemma {:induction false} UnescapeEscapeHtml(t: string)
    ensures Unescape(EscapeHtml(t)) == t
    decreases |t|
  {
    if |t| > 0 {
      UnescapeEscapeHtml(t[1..]);
      UnescapeHead(t[0], EscapeHtml(t[1..]));
      assert t == [t[0]] + t[1..];
    }
  }

  /** Text without the four special characters is left as it is. */
  lemma {:induction false} EscapeHtmlPlain(t: string)
    requires forall k :: 0 <= k < |t| ==> !NeedsEscape(t[k])
    ensures EscapeHtml(t) == t
    decreases |t|
  {
    if |t| > 0 {
      EscapeHtmlPlain(t[1..]);
      assert t == [t[0]] + t[1..];
    }
  }

  /** Escaping keeps the number of occurrences of any character that no entity contains. */
  lemma {:induction false} EscapeHtmlCountChar(t: string, c: char)
    requires c !in "&;abglmnpst" && !NeedsEscape(c)
    ensures CountChar(EscapeHtml(t), c) == CountChar(t, c)
    decreases |t|
  {
    if |t| > 0 {
      var head := EscapeChar(t[0]);
      EscapeHtmlCountChar(t[1..], c);
      CountCharAppend(head, EscapeHtml(t[1..]), c);
      assert CountChar(head, c) == if t[0] == c then 1 else 0 by {
        if !NeedsEscape(t[0]) {
          assert head == [t[0]];
          assert head[1..] == [];
        } else {
          CountCharAbsent(head, c);
        }
      }
    }
  }

  lemma {:induction false} CountCharAbsent(s: string, c: char)
    requires c !in s
    ensures CountChar(s, c) == 0
    decreases |s|
  {
    if |s| > 0 {
      assert s[0] != c;
      assert c !in s[1..] by {
        forall k | 0 <= k < |s[1..]| ensures s[1..][k] != c {
          assert s[1..][k] == s[k + 1];
        }
      }
      CountCharAbsent(s[1..], c);
    }
  }

  /** A piece of the text the rewrites work on: a character, or markup a rewrite inserted. */
  datatype Html = Chr(c: char) | Tag(markup: string)

  function Lift(s: string): (ts: seq<Html>)
    ensures |ts| == |s|
    ensures forall k :: 0 <= k < |s| ==> ts[k] == Chr(s[k])
  {
    seq(|s|, k requires 0 <= k < |s| => Chr(s[k]))
  }

  /** The string the pieces spell. */
  function Serialize(ts: seq<Html>): string
    decreases |ts|
  {
    if |ts| == 0 then ""
    else (match ts[0] case Chr(c) => [c] case Tag(m) => m) + Serialize(ts[1..])
  }

  lemma {:induction false} SerializeLift(s: string)
    ensures Serialize(Lift(s)) == s
    decreases |s|
  {
    if |s| > 0 {
      assert Lift(s)[1..] == Lift(s[1..]);
      SerializeLift(s[1..]);
      assert s == [s[0]] + s[1..];
    }
  }

  /** The number of times `x` occurs among the pieces. */
  function Count(ts: seq<Html>, x: Html): nat
    decreases |ts|
  {
    if |ts| == 0 then 0 else (if ts[0] == x then 1 else 0) + Count(ts[1..], x)
  }

  lemma {:induction false} CountAppend(a: seq<Html>, b: seq<Html>, x: Html)
    ensures Count(a + b, x) == Count(a, x) + Count(b, x)
    decreases |a|
  {
    if |a| == 0 {
      assert a + b == b;
    } else {
      assert (a + b)[1..] == a[1..] + b;
      CountAppend(a[1..], b, x);
    }
  }

  lemma {:induction false} CountZeroIff(ts: seq<Html>, x: Html)
    ensures Count(ts, x) == 0 <==> x !in ts
    decreases |ts|
  {
    if |ts| > 0 {
      CountZeroIff(ts[1..], x);
      assert ts == [ts[0]] + ts[1..];
    }
  }

  /** Characters are counted as in the string; there is no markup yet. */
  lemma {:induction false} CountLift(s: string, x: Html)
    ensures Count(Lift(s), x) == if x.Chr? then CountChar(s, x.c) else 0
    decreases |s|
  {
    if |s| > 0 {
      assert Lift(s)[1..] == Lift(s[1..]);
      CountLift(s[1..], x);
    }
  }

  /** Whether `.` matches the piece; with `dotAll` (the pattern `[\s\S]`) everything matches. */
  predicate Matches(t: Html, dotAll: bool) {
    t.Tag? || dotAll || !IsLineTerminator(t.c)
  }

  /** Whether the pieces begin with the characters of `d`. */
  predicate StartsWithText(ts: seq<Html>, d: string) {
    |d| <= |ts| && ts[..|d|] == Lift(d)
  }

  /**
   * The lazy group `(.*?)` followed by the delimiter `d`: the length of the
   * shortest run of matching pieces that `d` follows, if there is one.
   */
  function FindClose(ts: seq<Html>, d: string, dotAll: bool): (j: Option<nat>)
    ensures j.Some? ==> j.value + |d| <= |ts|
    decreases |ts|
  {
    if StartsWithText(ts, d) then Some(0)
    else if |ts| > 0 && Matches(ts[0], dotAll) then
      match FindClose(ts[1..], d, dotAll)
      case Some(j) => Some(j + 1)
      case None => None
    else None
  }

  /** The delimiter follows the run `FindClose` finds. */
  lemma {:induction false} FindCloseFound(ts: seq<Html>, d: string, dotAll: bool)
    requires FindClose(ts, d, dotAll).Some?
    ensures StartsWithText(ts[FindClose(ts, d, dotAll).value..], d)
    decreases |ts|
  {
    if !StartsWithText(ts, d) {
      var j := FindClose(ts[1..], d, dotAll).value;
      FindCloseFound(ts[1..], d, dotAll);
      DropDrop(ts, 1, j);
    }
  }

  /**
   * The run `FindClose` finds is the shortest: every piece of it matches `.`
   * and the delimiter starts nowhere inside it.
   */
  lemma {:induction false} FindCloseShortest(ts: seq<Html>, d: string, dotAll: bool)
    requires FindClose(ts, d, dotAll).Some?
    ensures forall k :: 0 <= k < FindClose(ts, d, dotAll).value ==>
      Matches(ts[k], dotAll) && !StartsWithText(ts[k..], d)
    decreases |ts|
  {
    var j := FindClose(ts, d, dotAll).value;
    if j > 0 {
      FindCloseShortest(ts[1..], d, dotAll);
      forall k | 1 <= k < j ensures ts[1..][k - 1..] == ts[k..] { }
    }
  }

  /** With no run found, every later delimiter is preceded by a piece `.` does not match. */
  lemma {:induction false} FindCloseNone(ts: seq<Html>, d: string, dotAll: bool, i: nat)
    requires FindClose(ts, d, dotAll).None?
    requires i <= |ts| && StartsWithText(ts[i..], d)
    ensures exists k :: 0 <= k < i && !Matches(ts[k], dotAll)
    decreases |ts|
  {
    if Matches(ts[0], dotAll) {
      assert ts[1..][i - 1..] == ts[i..];
      FindCloseNone(ts[1..], d, dotAll, i - 1);
      var k :| 0 <= k < i - 1 && !Matches(ts[1..][k], dotAll);
      assert ts[k + 1] == ts[1..][k];
    }
  }

  /**
   * `replace(/D(.*?)D/g, open + "$1" + close)` for the delimiter D: scanning
   * from the left, a D that a shortest run of `.` and another D follow is
   * replaced, with the run, by the run wrapped in `open` and `close`, and the
   * scan goes on after the second D; any other piece is kept.
   */
  function Replace(ts: seq<Html>, d: string, open: string, close: string, dotAll: bool): seq<Html>
    requires |d| > 0
    decreases |ts|
  {
    if |ts| == 0 then []
    else
      var (done, rest) := ReplaceFront(ts, d, open, close, dotAll);
      done + Replace(rest, d, open, close, dotAll)
  }

  /**
   * One step of the scan: the rewritten match at the front and what follows
   * it, or else the first piece as it is and the pieces after it.
   */
  function ReplaceFront(ts: seq<Html>, d: string, open: string, close: string, dotAll: bool)
    : (r: (seq<Html>, seq<Html>))
    requires |d| > 0 && |ts| > 0
    ensures |r.1| < |ts|
  {
    if StartsWithText(ts, d) && FindClose(ts[|d|..], d, dotAll).Some? then
      var j := FindClose(ts[|d|..], d, dotAll).value;
      ([Tag(open)] + ts[|d|..|d| + j] + [Tag(close)], ts[|d| + j + |d|..])
    else ([ts[0]], ts[1..])
  }

  /** A match at the front splits the pieces into the delimiter, the run, the delimiter again, and the rest. */
  lemma MatchParts(ts: seq<Html>, d: string, dotAll: bool) returns (j: nat)
    requires |d| > 0 && StartsWithText(ts, d) && FindClose(ts[|d|..], d, dotAll).Some?
    ensures FindClose(ts[|d|..], d, dotAll) == Some(j)
    ensures |d| + j + |d| <= |ts|
    ensures ts == Lift(d) + ts[|d|..|d| + j] + Lift(d) + ts[|d| + j + |d|..]
  {
    j := FindClose(ts[|d|..], d, dotAll).value;
    ClosingDelimiter(ts, d, dotAll, j);
    Split4(ts, |d|, j, |d|);
    Concat4Eq(ts, ts[..|d|], ts[|d|..|d| + j], ts[|d| + j..|d| + j + |d|], ts[|d| + j + |d|..], Lift(d), Lift(d));
  }

  /** The delimiter closing a match stands right after the run. */
  lemma ClosingDelimiter(ts: seq<Html>, d: string, dotAll: bool, j: nat)
    requires |d| <= |ts| && FindClose(ts[|d|..], d, dotAll) == Some(j)
    ensures |d| + j + |d| <= |ts|
    ensures ts[|d| + j..|d| + j + |d|] == Lift(d)
  {
    FindCloseFound(ts[|d|..], d, dotAll);
    DropDrop(ts, |d|, j);
    DropTake(ts, |d| + j, |d|);
  }

  lemma CountAppend4(a: seq<Html>, b: seq<Html>, c: seq<Html>, e: seq<Html>, x: Html)
    ensures Count(a + b + c + e, x) == Count(a, x) + Count(b, x) + Count(c, x) + Count(e, x)
  {
    CountAppend(a + b + c, e, x);
    CountAppend(a + b, c, x);
    CountAppend(a, b, x);
  }

  lemma CountOne(y: Html, x: Html)
    ensures Count([y], x) == if y == x then 1 else 0
  {
    assert [y][1..] == [];
  }

  lemma CountLiftOther(d: string, x: Html)
    requires x.Chr? ==> x.c !in d
    ensures Count(Lift(d), x) == 0
  {
    CountLift(d, x);
    if x.Chr? { CountCharAbsent(d, x.c); }
  }

  /**
   * One step of the scan: either a match at the front, whose run is `inner`,
   * or a single piece kept as it is; the scan goes on with `rest`.
   */
  lemma ReplaceStep(ts: seq<Html>, d: string, open: string, close: string, dotAll: bool)
    returns (matched: bool, inner: seq<Html>, rest: seq<Html>)
    requires |d| > 0 && |ts| > 0
    ensures |rest| < |ts|
    ensures matched ==> ts == Lift(d) + inner + Lift(d) + rest
    ensures matched ==> Replace(ts, d, open, close, dotAll) == [Tag(open)] + inner + [Tag(close)] + Replace(rest, d, open, close, dotAll)
    ensures !matched ==> ts == [ts[0]] + rest
    ensures !matched ==> Replace(ts, d, open, close, dotAll) == [ts[0]] + Replace(rest, d, open, close, dotAll)
  {
    matched := StartsWithText(ts, d) && FindClose(ts[|d|..], d, dotAll).Some?;
    if matched {
      inner, rest := ReplaceAtMatch(ts, d, open, close, dotAll);
    } else {
      inner, rest := [], ts[1..];
      ReplaceElsewhere(ts, d, open, close, dotAll);
    }
  }

  lemma ReplaceAtMatch(ts: seq<Html>, d: string, open: string, close: string, dotAll: bool)
    returns (inner: seq<Html>, rest: seq<Html>)
    requires |d| > 0 && |ts| > 0 && StartsWithText(ts, d) && FindClose(ts[|d|..], d, dotAll).Some?
    ensures |rest| < |ts|
    ensures ts == Lift(d) + inner + Lift(d) + rest
    ensures Replace(ts, d, open, close, dotAll) == [Tag(open)] + inner + [Tag(close)] + Replace(rest, d, open, close, dotAll)
  {
    var j := MatchParts(ts, d, dotAll);
    ReplaceUnfoldMatch(ts, d, open, close, dotAll, j);
    inner, rest := ts[|d|..|d| + j], ts[|d| + j + |d|..];
  }

  lemma ReplaceUnfoldMatch(ts: seq<Html>, d: string, open: string, close: string, dotAll: bool, j: nat)
    requires |d| > 0 && |ts| > 0 && StartsWithText(ts, d) && FindClose(ts[|d|..], d, dotAll) == Some(j)
    ensures |d| + j + |d| <= |ts|
    ensures Replace(ts, d, open, close, dotAll)
         == [Tag(open)] + ts[|d|..|d| + j] + [Tag(close)] + Replace(ts[|d| + j + |d|..], d, open, close, dotAll)
  {
    ReplaceUnfold(ts, d, open, close, dotAll);
    ReplaceFrontMatch(ts, d, open, close, dotAll, j);
  }

  lemma ReplaceUnfold(ts: seq<Html>, d: string, open: string, close: string, dotAll: bool)
    requires |d| > 0 && |ts| > 0
    ensures var (done, rest) := ReplaceFront(ts, d, open, close, dotAll);
      Replace(ts, d, open, close, dotAll) == done + Replace(rest, d, open, close, dotAll)
  {
  }

  lemma ReplaceFrontMatch(ts: seq<Html>, d: string, open: string, close: string, dotAll: bool, j: nat)
    requires |d| > 0 && |ts| > 0 && StartsWithText(ts, d) && FindClose(ts[|d|..], d, dotAll) == Some(j)
    ensures |d| + j + |d| <= |ts|
    ensures ReplaceFront(ts, d, open, close, dotAll) == ([Tag(open)] + ts[|d|..|d| + j] + [Tag(close)], ts[|d| + j + |d|..])
  {
  }

  lemma ReplaceElsewhere(ts: seq<Html>, d: string, open: string, close: string, dotAll: bool)
    requires |d| > 0 && |ts| > 0 && !(StartsWithText(ts, d) && FindClose(ts[|d|..], d, dotAll).Some?)
    ensures ts == [ts[0]] + ts[1..]
    ensures Replace(ts, d, open, close, dotAll) == [ts[0]] + Replace(ts[1..], d, open, close, dotAll)
  {
  }

  /** A rewrite adds only `open` and `close` and removes only delimiter characters: any other piece is kept as often as it was. */
  lemma {:induction false} ReplaceCount(ts: seq<Html>, d: string, open: string, close: string, dotAll: bool, x: Html)
    requires |d| > 0
    requires x != Tag(open) && x != Tag(close) && (x.Chr? ==> x.c !in d)
    ensures Count(Replace(ts, d, open, close, dotAll), x) == Count(ts, x)
    decreases |ts|
  {
    if |ts| > 0 {
      var matched, inner, rest := ReplaceStep(ts, d, open, close, dotAll);
      var tail := Replace(rest, d, open, close, dotAll);
      ReplaceCount(rest, d, open, close, dotAll, x);
      if matched {
        CountLiftOther(d, x);
        CountAppend4(Lift(d), inner, Lift(d), rest, x);
        CountOne(Tag(open), x);
        CountOne(Tag(close), x);
        CountAppend4([Tag(open)], inner, [Tag(close)], tail, x);
      } else {
        CountAppend([ts[0]], rest, x);
        CountAppend([ts[0]], tail, x);
      }
    }
  }

  /** Without the delimiter's first character there is nothing to rewrite. */
  lemma {:induction false} ReplaceAbsent(ts: seq<Html>, d: string, open: string, close: string, dotAll: bool)
    requires |d| > 0 && Chr(d[0]) !in ts
    ensures Replace(ts, d, open, close, dotAll) == ts
    decreases |ts|
  {
    if |ts| > 0 {
      assert ts[0] != Chr(d[0]);
      assert Chr(d[0]) !in ts[1..];
      ReplaceAbsent(ts[1..], d, open, close, dotAll);
      assert ts == [ts[0]] + ts[1..];
    }
  }

  /** Puts the delimiter back in place of each `open` and `close`. */
  function Restore(ts: seq<Html>, d: string, open: string, close: string): seq<Html>
    decreases |ts|
  {
    if |ts| == 0 then []
    else (if ts[0] == Tag(open) || ts[0] == Tag(close) then Lift(d) else [ts[0]]) + Restore(ts[1..], d, open, close)
  }

  lemma {:induction false} RestoreAppend(a: seq<Html>, b: seq<Html>, d: string, open: string, close: string)
    ensures Restore(a + b, d, open, close) == Restore(a, d, open, close) + Restore(b, d, open, close)
    decreases |a|
  {
    if |a| == 0 {
      assert a + b == b;
    } else {
      assert (a + b)[1..] == a[1..] + b;
      RestoreAppend(a[1..], b, d, open, close);
    }
  }

  lemma {:induction false} RestoreUntouched(ts: seq<Html>, d: string, open: string, close: string)
    requires Tag(open) !in ts && Tag(close) !in ts
    ensures Restore(ts, d, open, close) == ts
    decreases |ts|
  {
    if |ts| > 0 {
      assert Tag(open) !in ts[1..] && Tag(close) !in ts[1..];
      RestoreUntouched(ts[1..], d, open, close);
      assert ts == [ts[0]] + ts[1..];
    }
  }

  lemma RestoreAppend4(a: seq<Html>, b: seq<Html>, c: seq<Html>, e: seq<Html>, d: string, open: string, close: string)
    ensures Restore(a + b + c + e, d, open, close)
         == Restore(a, d, open, close) + Restore(b, d, open, close) + Restore(c, d, open, close) + Restore(e, d, open, close)
  {
    RestoreAppend(a + b + c, e, d, open, close);
    RestoreAppend(a + b, c, d, open, close);
    RestoreAppend(a, b, d, open, close);
  }

  lemma RestoreOne(y: Html, d: string, open: string, close: string)
    ensures Restore([y], d, open, close) == if y == Tag(open) || y == Tag(close) then Lift(d) else [y]
  {
    assert [y][1..] == [];
  }

  /**
   * A rewrite loses nothing: putting the delimiters back where it inserted
   * markup gives its input back, provided that input held no such markup.
   */
  lemma {:induction false} RestoreReplace(ts: seq<Html>, d: string, open: string, close: string, dotAll: bool)
    requires |d| > 0
    requires Tag(open) !in ts && Tag(close) !in ts
    ensures Restore(Replace(ts, d, open, close, dotAll), d, open, close) == ts
    decreases |ts|
  {
    if |ts| > 0 {
      var matched, inner, rest := ReplaceStep(ts, d, open, close, dotAll);
      var tail := Replace(rest, d, open, close, dotAll);
      assert Tag(open) !in rest && Tag(close) !in rest;
      RestoreReplace(rest, d, open, close, dotAll);
      if matched {
        assert Tag(open) !in inner && Tag(close) !in inner;
        RestoreUntouched(inner, d, open, close);
        RestoreOne(Tag(open), d, open, close);
        RestoreOne(Tag(close), d, open, close);
        RestoreAppend4([Tag(open)], inner, [Tag(close)], tail, d, open, close);
      } else {
        RestoreAppend([ts[0]], tail, d, open, close);
        RestoreOne(ts[0], d, open, close);
        assert Tag(open) != ts[0] && Tag(close) != ts[0];
      }
    }
  }

  /** `replace(/\n/g, '<br>')`. */
  function BreakLines(ts: seq<Html>): seq<Html>
    decreases |ts|
  {
    if |ts| == 0 then []
    else [if ts[0] == Chr('\n') then Tag("<br>") else ts[0]] + BreakLines(ts[1..])
  }

  /** Every line feed becomes one `<br>`; no line feed is left and nothing else changes. */
  lemma {:induction false} BreakLinesCount(ts: seq<Html>, x: Html)
    ensures Count(BreakLines(ts), x) ==
      if x == Chr('\n') then 0
      else if x == Tag("<br>") then Count(ts, x) + Count(ts, Chr('\n'))
      else Count(ts, x)
    decreases |ts|
  {
    if |ts| > 0 {
      BreakLinesCount(ts[1..], x);
      assert BreakLines(ts)[1..] == BreakLines(ts[1..]);
    }
  }

  lemma {:induction false} RestoreBreakLines(ts: seq<Html>)
    requires Tag("<br>") !in ts
    ensures Restore(BreakLines(ts), "\n", "<br>", "<br>") == ts
    decreases |ts|
  {
    if |ts| > 0 {
      assert Tag("<br>") !in ts[1..];
      RestoreBreakLines(ts[1..]);
      assert BreakLines(ts)[1..] == BreakLines(ts[1..]);
      assert Lift("\n") == [Chr('\n')];
      assert ts == [ts[0]] + ts[1..];
    }
  }

  lemma {:induction false} BreakLinesAbsent(ts: seq<Html>)
    requires Chr('\n') !in ts
    ensures BreakLines(ts) == ts
    decreases |ts|
  {
    if |ts| > 0 {
      assert Chr('\n') !in ts[1..];
      BreakLinesAbsent(ts[1..]);
      assert ts == [ts[0]] + ts[1..];
    }
  }

  /** The five rewrites, in the order `formatAIResponse` applies them, after escaping. */
  function FormatPieces(t: string): seq<Html> {
    var escaped := Lift(EscapeHtml(t));
    var bold := Replace(escaped, "**", "<strong>", "</strong>", false);
    var italic := Replace(bold, "*", "<em>", "</em>", false);
    var broken := BreakLines(italic);
    var blocks := Replace(broken, "```", "<pre><code>", "</code></pre>", true);
    Replace(blocks, "`", "<code>", "</code>", false)
  }

  /** `formatAIResponse`. */
  function FormatAIResponse(t: string): string {
    Serialize(FormatPieces(t))
  }

  /** The markup the rewrites insert. */
  predicate KnownTag(m: string) {
    m in {"<strong>", "</strong>", "<em>", "</em>", "<br>", "<pre><code>", "</code></pre>", "<code>", "</code>"}
  }

  /** A piece is counted as often after the five rewrites as in the escaped text, unless a rewrite adds or removes it. */
  lemma FormatCount(t: string, x: Html)
    requires x.Tag? ==> !KnownTag(x.markup)
    requires x.Chr? ==> x.c != '*' && x.c != '`' && x.c != '\n'
    ensures Count(FormatPieces(t), x) == Count(Lift(EscapeHtml(t)), x)
  {
    var escaped := Lift(EscapeHtml(t));
    var bold := Replace(escaped, "**", "<strong>", "</strong>", false);
    var italic := Replace(bold, "*", "<em>", "</em>", false);
    var broken := BreakLines(italic);
    var blocks := Replace(broken, "```", "<pre><code>", "</code></pre>", true);
    ReplaceCount(escaped, "**", "<strong>", "</strong>", false, x);
    ReplaceCount(bold, "*", "<em>", "</em>", false, x);
    BreakLinesCount(italic, x);
    ReplaceCount(broken, "```", "<pre><code>", "</code></pre>", true, x);
    ReplaceCount(blocks, "`", "<code>", "</code>", false, x);
  }

  /**
   * Escaping comes before the rewrites, so no `<` or `>` of the reply reaches
   * the chat as markup: every `<` and `>` of the result belongs to markup a
   * rewrite inserted, and no line feed is left.
   */
  lemma FormatIsSafe(t: string)
    ensures Chr('<') !in FormatPieces(t) && Chr('>') !in FormatPieces(t)
    ensures Chr('\n') !in FormatPieces(t)
    ensures forall m :: !KnownTag(m) ==> Tag(m) !in FormatPieces(t)
  {
    var e := EscapeHtml(t);
    var ts := FormatPieces(t);
    FormatCount(t, Chr('<'));
    CountLift(e, Chr('<'));
    CountCharAbsent(e, '<');
    CountZeroIff(ts, Chr('<'));
    FormatCount(t, Chr('>'));
    CountLift(e, Chr('>'));
    CountCharAbsent(e, '>');
    CountZeroIff(ts, Chr('>'));
    NoLineFeedLeft(t);
    forall m | !KnownTag(m) ensures Tag(m) !in ts {
      FormatCount(t, Tag(m));
      CountLift(e, Tag(m));
      CountZeroIff(ts, Tag(m));
    }
  }

  lemma NoLineFeedLeft(t: string)
    ensures Chr('\n') !in FormatPieces(t)
  {
    var escaped := Lift(EscapeHtml(t));
    var bold := Replace(escaped, "**", "<strong>", "</strong>", false);
    var italic := Replace(bold, "*", "<em>", "</em>", false);
    var broken := BreakLines(italic);
    var blocks := Replace(broken, "```", "<pre><code>", "</code></pre>", true);
    BreakLinesCount(italic, Chr('\n'));
    ReplaceCount(broken, "```", "<pre><code>", "</code></pre>", true, Chr('\n'));
    ReplaceCount(blocks, "`", "<code>", "</code>", false, Chr('\n'));
    CountZeroIff(FormatPieces(t), Chr('\n'));
  }

  /** Every line feed of the reply becomes exactly one `<br>`. */
  lemma FormatLineBreaks(t: string)
    ensures Count(FormatPieces(t), Tag("<br>")) == CountChar(t, '\n')
  {
    var e := EscapeHtml(t);
    var escaped := Lift(e);
    var bold := Replace(escaped, "**", "<strong>", "</strong>", false);
    var italic := Replace(bold, "*", "<em>", "</em>", false);
    var broken := BreakLines(italic);
    var blocks := Replace(broken, "```", "<pre><code>", "</code></pre>", true);
    ReplaceCount(escaped, "**", "<strong>", "</strong>", false, Tag("<br>"));
    ReplaceCount(bold, "*", "<em>", "</em>", false, Tag("<br>"));
    ReplaceCount(escaped, "**", "<strong>", "</strong>", false, Chr('\n'));
    ReplaceCount(bold, "*", "<em>", "</em>", false, Chr('\n'));
    BreakLinesCount(italic, Tag("<br>"));
    ReplaceCount(broken, "```", "<pre><code>", "</code></pre>", true, Tag("<br>"));
    ReplaceCount(blocks, "`", "<code>", "</code>", false, Tag("<br>"));
    CountLift(e, Tag("<br>"));
    CountLift(e, Chr('\n'));
    EscapeHtmlCountChar(t, '\n');
  }

  /** Undoing the rewrites in reverse order, then the escaping. */
  function Unformat(ts: seq<Html>): string {
    var blocks := Restore(ts, "`", "<code>", "</code>");
    var broken := Restore(blocks, "```", "<pre><code>", "</code></pre>");
    var italic := Restore(broken, "\n", "<br>", "<br>");
    var bold := Restore(italic, "*", "<em>", "</em>");
    var escaped := Restore(bold, "**", "<strong>", "</strong>");
    Unescape(Serialize(escaped))
  }

  /** Formatting loses none of the reply: undoing the rewrites and the escaping gives it back. */
  lemma FormatRoundTrip(t: string)
    ensures Unformat(FormatPieces(t)) == t
  {
    var e := EscapeHtml(t);
    var escaped := Lift(e);
    var bold := Replace(escaped, "**", "<strong>", "</strong>", false);
    var italic := Replace(bold, "*", "<em>", "</em>", false);
    var broken := BreakLines(italic);
    var blocks := Replace(broken, "```", "<pre><code>", "</code></pre>", true);
    // markup a later rewrite inserts is absent before it runs
    AbsentBefore(escaped, "**", "<strong>", "</strong>", false, "<em>");
    AbsentBefore(escaped, "**", "<strong>", "</strong>", false, "</em>");
    AbsentBefore(escaped, "**", "<strong>", "</strong>", false, "<br>");
    AbsentBefore(bold, "*", "<em>", "</em>", false, "<br>");
    AbsentBefore(escaped, "**", "<strong>", "</strong>", false, "<pre><code>");
    AbsentBefore(bold, "*", "<em>", "</em>", false, "<pre><code>");
    AbsentBefore(escaped, "**", "<strong>", "</strong>", false, "</code></pre>");
    AbsentBefore(bold, "*", "<em>", "</em>", false, "</code></pre>");
    AbsentBefore(escaped, "**", "<strong>", "</strong>", false, "<code>");
    AbsentBefore(bold, "*", "<em>", "</em>", false, "<code>");
    AbsentBefore(escaped, "**", "<strong>", "</strong>", false, "</code>");
    AbsentBefore(bold, "*", "<em>", "</em>", false, "</code>");
    BreakLinesKeepsTag(italic, "<pre><code>");
    BreakLinesKeepsTag(italic, "</code></pre>");
    BreakLinesKeepsTag(italic, "<code>");
    BreakLinesKeepsTag(italic, "</code>");
    AbsentBefore(broken, "```", "<pre><code>", "</code></pre>", true, "<code>");
    AbsentBefore(broken, "```", "<pre><code>", "</code></pre>", true, "</code>");
    CountLift(e, Tag("<strong>"));
    CountLift(e, Tag("</strong>"));
    CountZeroIff(escaped, Tag("<strong>"));
    CountZeroIff(escaped, Tag("</strong>"));
    RestoreReplace(blocks, "`", "<code>", "</code>", false);
    RestoreReplace(broken, "```", "<pre><code>", "</code></pre>", true);
    RestoreBreakLines(italic);
    RestoreReplace(bold, "*", "<em>", "</em>", false);
    RestoreReplace(escaped, "**", "<strong>", "</strong>", false);
    SerializeLift(e);
    UnescapeEscapeHtml(t);
  }

  /** Markup that is absent before a rewrite which does not insert it is absent after it. */
  lemma AbsentBefore(ts: seq<Html>, d: string, open: string, close: string, dotAll: bool, m: string)
    requires |d| > 0 && m != open && m != close
    requires Tag(m) !in ts
    ensures Tag(m) !in Replace(ts, d, open, close, dotAll)
  {
    CountZeroIff(ts, Tag(m));
    ReplaceCount(ts, d, open, close, dotAll, Tag(m));
    CountZeroIff(Replace(ts, d, open, close, dotAll), Tag(m));
  }

  lemma BreakLinesKeepsTag(ts: seq<Html>, m: string)
    requires m != "<br>" && Tag(m) !in ts
    ensures Tag(m) !in BreakLines(ts)
  {
    CountZeroIff(ts, Tag(m));
    BreakLinesCount(ts, Tag(m));
    CountZeroIff(BreakLines(ts), Tag(m));
  }

  /** A reply without `*`, `` ` `` or line feeds is only escaped. */
  lemma FormatWithoutMarkdown(t: string)
    requires '*' !in t && '`' !in t && '\n' !in t
    ensures FormatAIResponse(t) == EscapeHtml(t)
  {
    var e := EscapeHtml(t);
    var escaped := Lift(e);
    forall c | c in "*`\n" ensures Chr(c) !in escaped {
      CountCharAbsent(t, c);
      EscapeHtmlCountChar(t, c);
      CountLift(e, Chr(c));
      CountZeroIff(escaped, Chr(c));
    }
    ReplaceAbsent(escaped, "**", "<strong>", "</strong>", false);
    ReplaceAbsent(escaped, "*", "<em>", "</em>", false);
    BreakLinesAbsent(escaped);
    ReplaceAbsent(escaped, "```", "<pre><code>", "</code></pre>", true);
    ReplaceAbsent(escaped, "`", "<code>", "</code>", false);
    SerializeLift(e);
  }

  /** A plain reply, with nothing to escape and no markdown, is shown exactly as it came. */
  lemma FormatPlain(t: string)
    requires forall k :: 0 <= k < |t| ==> !NeedsEscape(t[k]) && t[k] != '*' && t[k] != '`' && t[k] != '\n'
    ensures FormatAIResponse(t) == t
  {
    FormatWithoutMarkdown(t);
    EscapeHtmlPlain(t);
  }

  /** Escaping works character by character, so it distributes over concatenation. */
  lemma {:induction false} EscapeHtmlAppend(a: string, b: string)
    ensures EscapeHtml(a + b) == EscapeHtml(a) + EscapeHtml(b)
    decreases |a|
  {
    if |a| == 0 {
      assert a + b == b;
    } else {
      assert (a + b)[1..] == a[1..] + b;
      EscapeHtmlAppend(a[1..], b);
    }
  }
}
