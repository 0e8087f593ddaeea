/** Where text sits in the template: the line splitting of `disassemble`
    and the line and column of an embedded span, as the regular
    expressions of the generator compute them. */
module Positions {

  import opened Errors
  import opened Text

  /** A position: lines count from 1, columns from 0. */
  datatype Pos = Pos(line: nat, col: nat)

  /** A source-map node: a chunk of text, the file it comes from and the
      position where it starts. */
  datatype SourceNode = SourceNode(line: nat, col: nat, file: string, chunk: string)

  // ---------------------------------------------------------------------
  // Lines
  // ---------------------------------------------------------------------

  /** The lookbehind `(?<=^|\r?\n)`: `p` is the start of the text or
      follows a line feed. */
  predicate LineStart(s: string, p: nat)
    requires p <= |s|
  {
    p == 0 || s[p - 1] == '\n'
  }

  /** `.*?(\r?\n|$)` from `j`: the end of the shortest run of characters
      other than line terminators that a line break or the end of the
      text follows; `None` when another line terminator comes first. */
  function LazyEnd(s: string, j: nat): (r: Option<nat>)
    requires j <= |s|
    ensures r.Some? ==> j <= r.value <= |s| && (j < |s| ==> j < r.value)
    decreases |s| - j
  {
    if j == |s| then Some(j)
    else if s[j] == '\n' then Some(j + 1)
    else if s[j] == '\r' && j + 1 < |s| && s[j + 1] == '\n' then Some(j + 2)
    else if IsLineTerminator(s[j]) then None
    else LazyEnd(s, j + 1)
  }

  /** `s.match(/(?<=^|\r?\n).*?(\r?\n|$)/g)` searching from `p`: the
      matches in order; after an empty match the search moves on by one
      character. */
  function LineMatches(s: string, p: nat): seq<string>
    requires p <= |s| + 1
    decreases |s| + 1 - p
  {
    if p > |s| then []
    else
      match (if LineStart(s, p) then LazyEnd(s, p) else None)
      case None => LineMatches(s, p + 1)
      case Some(e) => [s[p..e]] + LineMatches(s, if e == p then p + 1 else e)
  }

  /** The lines of `s` with their terminators. */
  function Lines(s: string): seq<string> {
    LineMatches(s, 0)
  }

  /** Text whose only line terminators are `\n` and `\r\n`. */
  predicate LineSafe(s: string) {
    forall k :: 0 <= k < |s| ==>
      s[k] != '\U{2028}' && s[k] != '\U{2029}' && (s[k] == '\r' ==> k + 1 < |s| && s[k + 1] == '\n')
  }

  /** A line of text: a line feed at most, and only at its end. */
  predicate IsLine(t: string) {
    forall k :: 0 <= k < |t| - 1 ==> t[k] != '\n'
  }

  /** A line that a line feed ends. */
  predicate IsBrokenLine(t: string) {
    IsLine(t) && t != [] && t[|t| - 1] == '\n'
  }

  /** Lines as the splitting gives them: all but the last end in a line
      feed, the last holds none. */
  predicate LineShaped(xs: seq<string>) {
    && |xs| > 0
    && (forall k :: 0 <= k < |xs| - 1 ==> IsBrokenLine(xs[k]))
    && '\n' !in xs[|xs| - 1]
  }

  /** In line-safe text the lazy match runs to just past the next line
      feed, or to the end when there is none. */
  lemma {:induction false} LazyEndSafe(s: string, j: nat)
    requires LineSafe(s) && j <= |s|
    ensures LazyEnd(s, j).Some?
    ensures var e := LazyEnd(s, j).value;
            && IsLine(s[j..e])
            && ((e == |s| && '\n' !in s[j..]) || (j < e && s[e - 1] == '\n'))
    decreases |s| - j
  {
    if j < |s| && s[j] != '\n' && !(s[j] == '\r' && j + 1 < |s| && s[j + 1] == '\n') {
      LazyEndSafe(s, j + 1);
      var e := LazyEnd(s, j + 1).value;
      assert s[j..e] == [s[j]] + s[j + 1..e];
      if e == |s| && '\n' !in s[j + 1..] {
        assert s[j..] == [s[j]] + s[j + 1..];
      }
    } else if j < |s| && s[j] == '\r' && j + 1 < |s| && s[j + 1] == '\n' {
      assert s[j..j + 2] == ['\r', '\n'];
    }
  }

  /** From a line start of line-safe text the matches are the lines of
      the rest: they spell it, and they are shaped as lines. */
  lemma {:induction false} LineMatchesSafe(s: string, p: nat)
    requires LineSafe(s) && p <= |s| && LineStart(s, p)
    ensures Concat(LineMatches(s, p)) == s[p..]
    ensures LineShaped(LineMatches(s, p))
    decreases |s| - p
  {
    LazyEndSafe(s, p);
    var e := LazyEnd(s, p).value;
    var xs := LineMatches(s, p);
    if e == p {
      assert xs == [""] + LineMatches(s, p + 1) == [""];
      ConcatFront("", []);
      assert [""] + [] == [""];
    } else if e == |s| && '\n' !in s[p..] {
      assert s[|s| - 1] == s[p..][|s| - 1 - p];
      assert !LineStart(s, |s|);
      assert LineMatches(s, |s|) == LineMatches(s, |s| + 1) == [];
      assert LazyEnd(s, p) == Some(e);
      assert xs == [s[p..e]] + LineMatches(s, e);
      assert s[p..e] == s[p..];
      ConcatFront(s[p..], []);
      assert [s[p..]] + [] == [s[p..]];
    } else {
      LineMatchesSafe(s, e);
      var ys := LineMatches(s, e);
      assert xs == [s[p..e]] + ys;
      ConcatFront(s[p..e], ys);
      assert s[p..] == s[p..e] + s[e..];
      forall k | 0 <= k < |xs| - 1 ensures IsBrokenLine(xs[k]) {
        if k > 0 {
          assert xs[k] == ys[k - 1];
        }
      }
      assert xs[|xs| - 1] == ys[|ys| - 1];
    }
  }

  /** A line feed or the end of the text ends each line-safe line, so the
      splitting never comes back empty. */
  lemma LinesSpell(s: string)
    requires LineSafe(s)
    ensures Concat(Lines(s)) == s
    ensures LineShaped(Lines(s))
  {
    LineMatchesSafe(s, 0);
  }

  /** Shaped lines hold one line feed fewer than there are lines. */
  lemma {:induction false} ShapedCount(xs: seq<string>)
    requires LineShaped(xs)
    ensures Count(Concat(xs), '\n') == |xs| - 1
    decreases |xs|
  {
    if |xs| == 1 {
      ConcatFront(xs[0], []);
      assert [xs[0]] + [] == xs;
    } else {
      var t := xs[0];
      assert t == t[..|t| - 1] + ['\n'];
      var u := t[..|t| - 1];
      assert '\n' !in u by {
        forall k | 0 <= k < |u| ensures u[k] != '\n' {
          assert u[k] == t[k];
        }
      }
      assert LineShaped(xs[1..]) by {
        forall k | 0 <= k < |xs| - 2 ensures IsBrokenLine(xs[1..][k]) {
          assert xs[1..][k] == xs[k + 1];
        }
      }
      ShapedCount(xs[1..]);
      ConcatFront(t, xs[1..]);
      assert [t] + xs[1..] == xs;
    }
  }

  /** Line-safe text splits into one line more than it has line feeds. */
  lemma LinesCount(s: string)
    requires LineSafe(s)
    ensures |Lines(s)| == Count(s, '\n') + 1
  {
    LinesSpell(s);
    ShapedCount(Lines(s));
  }

  /** A lone carriage return stops the line pattern: the text before it
      and up to the next line feed is lost. */
  lemma LoneReturnDropsText()
    ensures Lines("a\rb\nc") == ["c"]
  {
    var s := "a\rb\nc";
    assert LazyEnd(s, 1) == None;
    assert LazyEnd(s, 0) == None;
    assert LineMatches(s, 0) == LineMatches(s, 1) == LineMatches(s, 2) == LineMatches(s, 3) == LineMatches(s, 4);
    assert LazyEnd(s, 4) == LazyEnd(s, 5) == Some(5);
    assert LineMatches(s, 5) == LineMatches(s, 6) == [];
    assert LineMatches(s, 4) == [s[4..5]] + LineMatches(s, 5);
    assert s[4..5] == "c";
  }

  /** With no line feed after a lone carriage return, nothing matches. */
  lemma LoneReturnNoMatch()
    ensures Lines("a\rb") == []
  {
  }

  /** The chunks of a list of nodes. */
  function Chunks(nodes: seq<SourceNode>): seq<string> {
    seq(|nodes|, k requires 0 <= k < |nodes| => nodes[k].chunk)
  }

  /** `disassemble(source, pos)`: one node per line of `source`, the first
      at `pos` and each later one at column 0 of the next line. When the
      line pattern matches nothing, `content.length` reads `null` and
      throws. */
  method Disassemble(source: string, pos: Pos, file: string) returns (r: Result<seq<SourceNode>>)
    ensures r.Err? <==> Lines(source) == []
    ensures r.Err? ==> r.error.TypeError?
    ensures r.Ok? ==> Chunks(r.value) == Lines(source)
    ensures r.Ok? ==> forall k :: 0 <= k < |r.value| ==>
              && r.value[k].file == file
              && r.value[k].line == pos.line + k
              && r.value[k].col == (if k == 0 then pos.col else 0)
  {
    var content := Lines(source);
    if content == [] {
      return Err(TypeError("Cannot read properties of null (reading 'length')"));
    }
    var nodes: seq<SourceNode> := [];
    var current := pos;
    for k := 0 to |content|
      invariant |nodes| == k
      invariant current == (if k == 0 then pos else Pos(pos.line + k, 0))
      invariant forall i :: 0 <= i < k ==>
                  nodes[i] == SourceNode(pos.line + i, if i == 0 then pos.col else 0, file, content[i])
    {
      nodes := nodes + [SourceNode(current.line, current.col, file, content[k])];
      current := Pos(current.line + 1, 0);
    }
    return Ok(nodes);
  }

  /** The nodes of line-safe text spell it, and each but the last ends a
      line. */
  lemma DisassembleSpells(source: string, pos: Pos, file: string, nodes: seq<SourceNode>)
    requires LineSafe(source)
    requires Chunks(nodes) == Lines(source)
    ensures Concat(Chunks(nodes)) == source
    ensures |nodes| == Count(source, '\n') + 1
    ensures forall k :: 0 <= k < |nodes| - 1 ==> IsBrokenLine(nodes[k].chunk)
  {
    LinesSpell(source);
    LinesCount(source);
    forall k | 0 <= k < |nodes| - 1 ensures IsBrokenLine(nodes[k].chunk) {
      assert nodes[k].chunk == Chunks(nodes)[k];
    }
  }

  // ---------------------------------------------------------------------
  // Line and column of a span
  // ---------------------------------------------------------------------

  /** `(s.match(/^|\r?\n/g) || []).length` searching from `i`: `^`
      matches empty at the start, after which the search moves on by one
      character; then each `\r\n` or `\n` is one match. */
  function BreakMatches(s: string, i: nat): nat
    requires i <= |s| + 1
    decreases |s| + 1 - i
  {
    if i > |s| then 0
    else if i == 0 then 1 + BreakMatches(s, 1)
    else if i + 1 < |s| && s[i] == '\r' && s[i + 1] == '\n' then 1 + BreakMatches(s, i + 2)
    else if i < |s| && s[i] == '\n' then 1 + BreakMatches(s, i + 1)
    else BreakMatches(s, i + 1)
  }

  /** The line number the generator gives the end of `scope`. */
  function LineCount(scope: string): nat {
    BreakMatches(scope, 0)
  }

  /** Past the start, each line feed is one match. */
  lemma {:induction false} BreakMatchesCount(s: string, i: nat)
    requires 1 <= i <= |s|
    ensures BreakMatches(s, i) == Count(s[i..], '\n')
    decreases |s| - i
  {
    if i == |s| {
      assert s[i..] == [];
    } else if i + 1 < |s| && s[i] == '\r' && s[i + 1] == '\n' {
      BreakMatchesCount(s, i + 2);
      assert s[i..] == [s[i]] + [s[i + 1]] + s[i + 2..];
    } else {
      BreakMatchesCount(s, i + 1);
      assert s[i..] == [s[i]] + s[i + 1..];
    }
  }

  /** The line count is one more than the number of line feeds, except
      that a line feed at the very start is not counted: the empty match
      of `^` there makes the search step over it. */
  lemma LineCountSpec(scope: string)
    ensures LineCount(scope) == 1 + Count(scope, '\n') - (if scope != [] && scope[0] == '\n' then 1 else 0)
  {
    if scope == [] {
    } else {
      BreakMatchesCount(scope, 1);
      assert scope == [scope[0]] + scope[1..];
    }
  }

  /** The quirk on the smallest text: a single line feed is line 1. */
  lemma LeadingBreakUncounted()
    ensures LineCount("\n") == 1 && Count("\n", '\n') == 1
  {
    LineCountSpec("\n");
  }

  /** The position just past the last line feed before `j`, 0 when there
      is none. */
  function LastBreakBefore(s: string, j: nat): (b: nat)
    requires j <= |s|
    ensures b <= j
    ensures forall k :: b <= k < j ==> s[k] != '\n'
    ensures b == 0 || s[b - 1] == '\n'
  {
    if j == 0 then 0 else if s[j - 1] == '\n' then j else LastBreakBefore(s, j - 1)
  }

  /** `s.match(/(?<=^|\r?\n).*?$/)` from `p`: the first line start from
      which the rest of the text holds no line terminator. */
  function LastLineFrom(s: string, p: nat): (r: Option<nat>)
    requires p <= |s|
    ensures r.Some? ==> r.value <= |s|
    decreases |s| - p
  {
    if LineStart(s, p) && NoLineTerminator(s[p..]) then Some(p)
    else if p == |s| then None
    else LastLineFrom(s, p + 1)
  }

  /** The column the generator gives the end of `scope`: the `length`,
      in UTF-16 code units, of the last line; `None` where the match is
      `null` and reading its first element throws. */
  function Column(scope: string): Option<nat> {
    match LastLineFrom(scope, 0)
    case None => None
    case Some(p) => Some(Utf16Length(scope[p..]))
  }

  /** Before the last line feed no line start qualifies. */
  lemma {:induction false} LastLineBefore(s: string, p: nat, b: nat)
    requires b == LastBreakBefore(s, |s|) && p <= b
    ensures LastLineFrom(s, p) == LastLineFrom(s, b)
    decreases b - p
  {
    if p < b {
      assert s[p..][b - 1 - p] == s[b - 1];
      LastLineBefore(s, p + 1, b);
    }
  }

  /** After the last line feed no position is a line start. */
  lemma {:induction false} LastLineAfter(s: string, p: nat, b: nat)
    requires b == LastBreakBefore(s, |s|) && b < p <= |s|
    ensures LastLineFrom(s, p) == None
    decreases |s| - p
  {
    if p < |s| {
      LastLineAfter(s, p + 1, b);
    }
  }

  /** The column is the length in code units of the text after the last
      line feed, and the match fails exactly when that text holds another
      line terminator. */
  lemma ColumnSpec(scope: string)
    ensures var b := LastBreakBefore(scope, |scope|);
            Column(scope) == if NoLineTerminator(scope[b..]) then Some(Utf16Length(scope[b..])) else None
  {
    var b := LastBreakBefore(scope, |scope|);
    LastLineBefore(scope, 0, b);
    if !NoLineTerminator(scope[b..]) {
      LastLineAfter(scope, b + 1, b);
    }
  }

  /** On a single line the column is the line's length in code units. */
  lemma ColumnOneLine(scope: string)
    requires NoLineTerminator(scope)
    ensures Column(scope) == Some(Utf16Length(scope))
  {
    var b := LastBreakBefore(scope, |scope|);
    if b > 0 {
      assert IsLineTerminator(scope[b - 1]);
    }
    assert scope[b..] == scope;
    ColumnSpec(scope);
  }

  /** A character outside the Basic Multilingual Plane counts two columns:
      after an emoji and `<script>` the column is 10, not 9. */
  lemma AstralColumnCase()
    ensures Column("\U{1F600}" + "<script>") == Some(10)
  {
    var s := "\U{1F600}" + "<script>";
    assert NoLineTerminator(s);
    Utf16Plain("<script>");
    Utf16Astral('\U{1F600}', "<script>");
    ColumnOneLine(s);
  }

  /** `html.substring(0, html.indexOf(js))`: the text before the first
      occurrence of `js`; `substring` reads the -1 of no occurrence as 0. */
  function Before(html: string, js: string): string {
    match IndexOf(html, js, 0)
    case Some(i) => html[..i]
    case None => ""
  }

  /** `{ line, col }` for a script text `js` inside `html`. */
  function SpanPosition(html: string, js: string): Result<Pos> {
    var scope := Before(html, js);
    match Column(scope)
    case None => Err(TypeError("Cannot read properties of null (reading '0')"))
    case Some(c) => Ok(Pos(LineCount(scope), c))
  }

  /** The position of the first occurrence of `js`: one line more than
      the line feeds before it, except a leading one, and the length in
      code units of the text since the last of them; an error exactly when that text
      holds a carriage return or line separator. */
  lemma SpanPositionSpec(html: string, js: string)
    ensures var scope := Before(html, js);
            var b := LastBreakBefore(scope, |scope|);
            && (SpanPosition(html, js).Ok? <==> NoLineTerminator(scope[b..]))
            && (SpanPosition(html, js).Ok? ==>
                  && SpanPosition(html, js).value.line == 1 + Count(scope, '\n') - (if scope != [] && scope[0] == '\n' then 1 else 0)
                  && SpanPosition(html, js).value.col == Utf16Length(scope[b..]))
            && (SpanPosition(html, js).Err? ==> SpanPosition(html, js).error.TypeError?)
  {
    var scope := Before(html, js);
    LineCountSpec(scope);
    ColumnSpec(scope);
  }

  /** The text before a span is the text before the first occurrence of
      the span, and empty when it does not occur. */
  lemma BeforeSpec(html: string, js: string)
    ensures var scope := Before(html, js);
            && |scope| <= |html| && scope == html[..|scope|]
            && (IndexOf(html, js, 0).Some? ==> At(html, |scope|, js) && forall k :: 0 <= k < |scope| ==> !At(html, k, js))
            && (IndexOf(html, js, 0).None? ==> scope == [])
  {
  }
}
