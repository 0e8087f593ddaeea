/** `compile`: the template text cut at every `%end` and block opener,
    then resolved block by block. `Tokenize` is the scanning loop read as
    a function, `Compiled` the compiler's result, and `Compile` the
    compiler's own loop over its stack of nodes. */
module Compiler {

  import opened Errors
  import opened Text
  import opened Directives
  import opened Markers
  import opened Resolver

  // ---------------------------------------------------------------------
  // Scanning
  // ---------------------------------------------------------------------

  /** The marker text a segment ends with. */
  function MarkText(m: Mark): string {
    match m
    case Open(raw) => raw
    case End => "%end"
  }

  /** The segments before each leftmost marker, and the text after the
      last one. */
  function Tokenize(html: string): (r: (seq<Segment>, string))
    decreases |html|
  {
    match FindMarker(html, 0)
    case None => ([], html)
    case Some(m) =>
      var seg := Segment(html[..m.index], if m.kind == EndMark then End else Open(html[m.index..m.end]));
      var rest := Tokenize(html[m.end..]);
      ([seg] + rest.0, rest.1)
  }

  /** Segments and a tail written back out as text. */
  function Untokenize(segs: seq<Segment>, tail: string): string
    decreases |segs|
  {
    if |segs| == 0 then tail
    else segs[0].text + MarkText(segs[0].mark) + Untokenize(segs[1..], tail)
  }

  /** Scanning loses nothing: the segments, their markers and the tail
      spell the input. */
  lemma {:induction false} TokenizeRoundTrip(html: string)
    ensures Untokenize(Tokenize(html).0, Tokenize(html).1) == html
    decreases |html|
  {
    match FindMarker(html, 0)
    case None =>
    case Some(m) =>
      TokenizeRoundTrip(html[m.end..]);
      UntokenizeFirst(html, m);
      SplitAt(html, m.index, m.end);
  }

  /** The first segment written back is the text up to and including the
      leftmost marker. */
  lemma UntokenizeFirst(html: string, m: Marker)
    requires FindMarker(html, 0) == Some(m)
    ensures m.index <= m.end <= |html|
    ensures var r, t := Tokenize(html), Tokenize(html[m.end..]);
            Untokenize(r.0, r.1) == html[..m.index] + html[m.index..m.end] + Untokenize(t.0, t.1)
  {
    var r, t := Tokenize(html), Tokenize(html[m.end..]);
    assert r.0[1..] == t.0 && r.1 == t.1;
    assert MarkText(r.0[0].mark) == html[m.index..m.end];
  }

  /** One step of the scanning loop: the leftmost marker of `rest` ends
      the next segment, and scanning resumes after it. */
  lemma TokenizeStep(rest: string, segs: seq<Segment>, tail: string, i: nat, m: Marker)
    requires i <= |segs| && Tokenize(rest) == (segs[i..], tail)
    requires FindMarker(rest, 0) == Some(m)
    ensures i < |segs| && m.index <= m.end <= |rest|
    ensures segs[i].text == rest[..m.index]
    ensures segs[i].mark == (if m.kind == EndMark then End else Open(rest[m.index..m.end]))
    ensures Tokenize(rest[m.end..]) == (segs[i + 1..], tail)
  {
    var r := Tokenize(rest);
    assert r.0 == segs[i..];
    assert segs[i..][0] == segs[i];
    assert segs[i..][1..] == segs[i + 1..];
  }

  /** Scanning ends at the first text with no marker. */
  lemma TokenizeDone(rest: string, segs: seq<Segment>, tail: string, i: nat)
    requires i <= |segs| && Tokenize(rest) == (segs[i..], tail)
    requires FindMarker(rest, 0).None?
    ensures i == |segs| && tail == rest
  {
  }

  /** An opener text `raw` that the marker pattern matches whole, after
      plain text `c`, closes the first segment. */
  lemma TokenizeRaw(c: string, raw: string, rest: string)
    requires Plain(c) && MarkerAt(c + raw + rest, |c|) == Some((|c| + |raw|, OpenMark))
    ensures Tokenize(c + raw + rest) == ([Segment(c, Open(raw))] + Tokenize(rest).0, Tokenize(rest).1)
  {
    var s := c + raw + rest;
    Pieces(c, raw, rest);
    FirstMarker(s, c, |c| + |raw|, OpenMark);
  }

  /** An opener `%name (params):` after plain text `c` closes the first
      segment. */
  lemma TokenizeOpen(c: string, name: string, params: string, rest: string)
    requires Plain(c) && IsWord(name) && PlainParams(params) && !EndLike(name)
    ensures var raw := Opener(name, params);
            Tokenize(c + raw + rest) == ([Segment(c, Open(raw))] + Tokenize(rest).0, Tokenize(rest).1)
  {
    var raw := Opener(name, params);
    Pieces(c, raw, rest);
    OpenerMarker(c + raw + rest, |c|, name, params);
    TokenizeRaw(c, raw, rest);
  }

  /** `%end` after plain text `c` closes the first segment. */
  lemma TokenizeEnd(c: string, rest: string)
    requires Plain(c)
    ensures Tokenize(c + "%end" + rest) == ([Segment(c, End)] + Tokenize(rest).0, Tokenize(rest).1)
  {
    var s := c + "%end" + rest;
    var p := |c|;
    Pieces(c, "%end", rest);
    EndMarkerAt(s, p);
    FirstMarker(s, c, p + 4, EndMark);
  }

  /** Plain text is all tail. */
  lemma TokenizePlain(d: string)
    requires Plain(d)
    ensures Tokenize(d) == ([], d)
  {
    PlainNone(d);
  }

  /** A bare opener `%name text:` after plain text `c` closes the first
      segment. */
  lemma TokenizeBare(c: string, name: string, text: string, rest: string)
    requires Plain(c) && IsWord(name) && BareText(text) && !EndLike(name)
    ensures var raw := Bare(name, text);
            Tokenize(c + raw + rest) == ([Segment(c, Open(raw))] + Tokenize(rest).0, Tokenize(rest).1)
  {
    var raw := Bare(name, text);
    Pieces(c, raw, rest);
    BareMarker(c + raw + rest, |c|, name, text);
    TokenizeRaw(c, raw, rest);
  }

  /** A marker the scanner reads back whole: `%end`, an opener with a
      parameter list, or a bare opener. */
  ghost predicate Scannable(m: Mark) {
    match m
    case End => true
    case Open(raw) =>
      || (exists name, params :: raw == Opener(name, params) && IsWord(name) && PlainParams(params) && !EndLike(name))
      || (exists name, text :: raw == Bare(name, text) && IsWord(name) && BareText(text) && !EndLike(name))
  }

  /** Segments and a tail that, written out, scan back to themselves:
      plain text between markers the scanner reads whole. */
  ghost predicate Readable(segs: seq<Segment>, tail: string) {
    && (forall k :: 0 <= k < |segs| ==> Plain(segs[k].text) && Scannable(segs[k].mark))
    && Plain(tail)
  }

  /** A readable segment in front of any text closes the first segment. */
  lemma TokenizeSegment(s: Segment, rest: string)
    requires Plain(s.text) && Scannable(s.mark)
    ensures Tokenize(s.text + MarkText(s.mark) + rest) == ([s] + Tokenize(rest).0, Tokenize(rest).1)
  {
    match s.mark
    case End =>
      TokenizeEnd(s.text, rest);
    case Open(raw) =>
      if exists name, params :: raw == Opener(name, params) && IsWord(name) && PlainParams(params) && !EndLike(name) {
        var name, params :| raw == Opener(name, params) && IsWord(name) && PlainParams(params) && !EndLike(name);
        TokenizeOpen(s.text, name, params, rest);
      } else {
        var name, text :| raw == Bare(name, text) && IsWord(name) && BareText(text) && !EndLike(name);
        TokenizeBare(s.text, name, text, rest);
      }
  }

  lemma ReadableRest(segs: seq<Segment>, tail: string)
    requires |segs| > 0 && Readable(segs, tail)
    ensures Readable(segs[1..], tail)
    ensures Plain(segs[0].text) && Scannable(segs[0].mark)
  {
    forall k | 0 <= k < |segs| - 1 ensures Plain(segs[1..][k].text) && Scannable(segs[1..][k].mark) {
      assert segs[1..][k] == segs[k + 1];
    }
  }

  /** The other round trip: scanning well-formed segments written out
      gives them back. */
  lemma {:induction false} UntokenizeRoundTrip(segs: seq<Segment>, tail: string)
    requires Readable(segs, tail)
    ensures Tokenize(Untokenize(segs, tail)) == (segs, tail)
    decreases |segs|
  {
    if |segs| == 0 {
      TokenizePlain(tail);
    } else {
      ReadableRest(segs, tail);
      UntokenizeRoundTrip(segs[1..], tail);
      UntokenizeStep(segs, tail);
    }
  }

  /** One step of the round trip: the first segment scans back in front
      of the rest. */
  lemma UntokenizeStep(segs: seq<Segment>, tail: string)
    requires |segs| > 0 && Plain(segs[0].text) && Scannable(segs[0].mark)
    requires Tokenize(Untokenize(segs[1..], tail)) == (segs[1..], tail)
    ensures Tokenize(Untokenize(segs, tail)) == (segs, tail)
  {
    TokenizeSegment(segs[0], Untokenize(segs[1..], tail));
    assert [segs[0]] + segs[1..] == segs;
  }

  /** The compiler's result. */
  function Compiled(html: string): Result<string> {
    Resolve(Tokenize(html).0, Tokenize(html).1, Apply)
  }

  // ---------------------------------------------------------------------
  // Properties of the compiler
  // ---------------------------------------------------------------------

  /** Text with no marker comes back as it is. */
  lemma NoMarkerUnchanged(html: string)
    requires FindMarker(html, 0).None?
    ensures Compiled(html) == Ok(html)
  {
    assert Tokenize(html) == ([], html);
    assert Nest([], html, Apply, 0, 0) == Done(html, 0);
  }

  /** Plain text comes back as it is. */
  lemma PlainUnchanged(html: string)
    requires Plain(html)
    ensures Compiled(html) == Ok(html)
  {
    PlainNone(html);
    NoMarkerUnchanged(html);
  }

  /** A template written out from readable segments compiles as those
      segments resolve. */
  lemma CompiledSegments(segs: seq<Segment>, tail: string)
    requires Readable(segs, tail)
    ensures Compiled(Untokenize(segs, tail)) == Resolve(segs, tail, Apply)
  {
    UntokenizeRoundTrip(segs, tail);
  }

  /** A template that compiles has as many `%end` markers as openers, and
      no prefix of it closes more blocks than it opens. */
  lemma CompiledIsBalanced(html: string)
    requires Compiled(html).Ok?
    ensures var segs := Tokenize(html).0;
            Ends(segs, 0, |segs|) == Opens(segs, 0, |segs|) && NeverBelow(segs, 0, |segs|, 0)
  {
    ResolvedIsBalanced(Tokenize(html).0, Tokenize(html).1, Apply);
  }

  /** An `%end` before any opener is a syntax error naming `%end`. */
  lemma LeadingEnd(c: string, rest: string)
    requires Plain(c)
    ensures Compiled(c + "%end" + rest) == Err(SyntaxError("%end"))
  {
    TokenizeEnd(c, rest);
    StrayEnd(Tokenize(c + "%end" + rest).0, Tokenize(c + "%end" + rest).1, Apply, 0);
  }

  /** Text around a block, regrouped so the opener comes off the front. */
  lemma Regroup(x: string, body: string, d: string)
    ensures x + body + "%end" + d == x + (body + "%end" + d)
  {
    AppendAssoc(x, body + "%end", d);
    AppendAssoc(x, body, "%end");
  }

  /** Text kept in place of a block, regrouped. */
  lemma KeptRegroup(c: string, raw: string, body: string, d: string)
    ensures c + (raw + body + "%end") + d == c + raw + body + "%end" + d
  {
    AppendAssoc(c, raw + body, "%end");
    AppendAssoc(c, raw, body);
  }

  /** The segments of one block `c raw body %end d`. */
  lemma TokenizeOneBlock(c: string, raw: string, body: string, d: string)
    requires Tokenize(c + raw + (body + "%end" + d)) == ([Segment(c, Open(raw))] + Tokenize(body + "%end" + d).0, Tokenize(body + "%end" + d).1)
    requires Tokenize(body + "%end" + d) == ([Segment(body, End)] + Tokenize(d).0, Tokenize(d).1)
    requires Tokenize(d) == ([], d)
    ensures Tokenize(c + raw + body + "%end" + d) == ([Segment(c, Open(raw)), Segment(body, End)], d)
  {
    Regroup(c + raw, body, d);
    assert [Segment(c, Open(raw))] + ([Segment(body, End)] + []) == [Segment(c, Open(raw)), Segment(body, End)];
  }

  /** The segments of `c raw d` when `raw` is the last marker. */
  lemma TokenizeLastOpen(c: string, raw: string, d: string)
    requires Tokenize(c + raw + d) == ([Segment(c, Open(raw))] + Tokenize(d).0, Tokenize(d).1)
    requires Tokenize(d) == ([], d)
    ensures Tokenize(c + raw + d) == ([Segment(c, Open(raw))], d)
  {
    assert [Segment(c, Open(raw))] + [] == [Segment(c, Open(raw))];
  }

  /** One block with a parameter list: the directive's output replaces
      the opener, the body and the `%end`; the directive's error is the
      compiler's. */
  lemma OneBlockCompiled(c: string, name: string, params: string, body: string, d: string)
    requires Plain(c) && IsWord(name) && PlainParams(params) && !EndLike(name)
    requires Plain(body) && Plain(d)
    ensures NoLineTerminator(params)
    ensures Compiled(c + Opener(name, params) + body + "%end" + d)
            == match Dispatch(Call(name, Some(params)), body)
               case Err(e) => Err(e)
               case Ok(out) => Ok(c + out + d)
  {
    var raw := Opener(name, params);
    TokenizeOpen(c, name, params, body + "%end" + d);
    TokenizeEnd(body, d);
    TokenizePlain(d);
    TokenizeOneBlock(c, raw, body, d);
    CallOfOpener(name, params);
    OneBlock(c, raw, body, d, Apply);
  }

  /** An opener whose name is not a directive is a syntax error naming
      it. */
  lemma UnknownDirective(c: string, name: string, params: string, body: string, d: string)
    requires Plain(c) && IsWord(name) && PlainParams(params) && !EndLike(name)
    requires Plain(body) && Plain(d)
    requires name != "each" && name != "if" && !Inherited(name)
    ensures Compiled(c + Opener(name, params) + body + "%end" + d) == Err(SyntaxError(name))
  {
    OneBlockCompiled(c, name, params, body, d);
  }

  /** An opener without a parameter list names no call: the opener, its
      body and the `%end` are kept as they are. */
  lemma KeptBlock(c: string, name: string, text: string, body: string, d: string)
    requires Plain(c) && IsWord(name) && BareText(text) && !EndLike(name)
    requires Plain(body) && Plain(d)
    ensures Compiled(c + Bare(name, text) + body + "%end" + d) == Ok(c + Bare(name, text) + body + "%end" + d)
  {
    var raw := Bare(name, text);
    TokenizeBare(c, name, text, body + "%end" + d);
    TokenizeEnd(body, d);
    TokenizePlain(d);
    TokenizeOneBlock(c, raw, body, d);
    BareNoCall(name, text);
    OneBlock(c, raw, body, d, Apply);
    KeptRegroup(c, raw, body, d);
  }

  /** An opener that no `%end` closes is a syntax error naming the
      opener's text. */
  lemma UnclosedCompiled(c: string, name: string, params: string, d: string)
    requires Plain(c) && IsWord(name) && PlainParams(params) && !EndLike(name) && Plain(d)
    ensures Compiled(c + Opener(name, params) + d) == Err(SyntaxError(Opener(name, params)))
  {
    var raw := Opener(name, params);
    TokenizeOpen(c, name, params, d);
    TokenizePlain(d);
    TokenizeLastOpen(c, raw, d);
    UnclosedOpener([Segment(c, Open(raw))], d, Apply, 0);
  }

  /** An opener `%name (params):` the scanner reads back whole. */
  predicate CallOpener(name: string, params: string) {
    IsWord(name) && PlainParams(params) && !EndLike(name)
  }

  /** Two nested openers in front of readable segments are readable. */
  lemma NestedReadable(c: string, n1: string, p1: string, b1: string, n2: string, p2: string, rest: seq<Segment>, d: string)
    requires Plain(c) && Plain(b1) && CallOpener(n1, p1) && CallOpener(n2, p2)
    requires Readable(rest, d)
    ensures Readable([Segment(c, Open(Opener(n1, p1))), Segment(b1, Open(Opener(n2, p2)))] + rest, d)
  {
    assert Scannable(Open(Opener(n1, p1)));
    assert Scannable(Open(Opener(n2, p2)));
    var segs := [Segment(c, Open(Opener(n1, p1))), Segment(b1, Open(Opener(n2, p2)))] + rest;
    forall k | 0 <= k < |segs| ensures Plain(segs[k].text) && Scannable(segs[k].mark) {
      if k >= 2 {
        assert segs[k] == rest[k - 2];
      }
    }
  }

  /** Two opener segments in front of `rest`, written out. */
  lemma SpellTwo(c: string, r1: string, b1: string, r2: string, rest: seq<Segment>, d: string)
    ensures Untokenize([Segment(c, Open(r1)), Segment(b1, Open(r2))] + rest, d)
            == c + r1 + b1 + r2 + Untokenize(rest, d)
  {
    var segs := [Segment(c, Open(r1)), Segment(b1, Open(r2))] + rest;
    assert segs[1..] == [Segment(b1, Open(r2))] + rest;
    assert segs[1..][1..] == rest;
    var u := Untokenize(rest, d);
    AppendAssoc(c + r1, b1 + r2, u);
    AppendAssoc(c + r1, b1, r2);
  }

  /** Two nested openers in front of readable segments compile as the
      segments resolve. */
  lemma NestedSegments(c: string, n1: string, p1: string, b1: string, n2: string, p2: string, rest: seq<Segment>, d: string)
    requires Plain(c) && Plain(b1) && CallOpener(n1, p1) && CallOpener(n2, p2)
    requires Readable(rest, d)
    ensures Compiled(c + Opener(n1, p1) + b1 + Opener(n2, p2) + Untokenize(rest, d))
            == Resolve([Segment(c, Open(Opener(n1, p1))), Segment(b1, Open(Opener(n2, p2)))] + rest, d, Apply)
  {
    NestedReadable(c, n1, p1, b1, n2, p2, rest, d);
    SpellTwo(c, Opener(n1, p1), b1, Opener(n2, p2), rest, d);
    CompiledSegments([Segment(c, Open(Opener(n1, p1))), Segment(b1, Open(Opener(n2, p2)))] + rest, d);
  }

  /** One `%end` after plain text, then the tail. */
  lemma OneEnd(x: string, b2: string, d: string)
    requires Plain(b2) && Plain(d)
    ensures Readable([Segment(b2, End)], d)
    ensures x + b2 + "%end" + d == x + Untokenize([Segment(b2, End)], d)
  {
    assert Untokenize([Segment(b2, End)], d) == b2 + "%end" + d;
    Regroup(x, b2, d);
  }

  /** Two `%end` markers, each after plain text, then the tail. */
  lemma TwoEnds(x: string, b2: string, b3: string, d: string)
    requires Plain(b2) && Plain(b3) && Plain(d)
    ensures Readable([Segment(b2, End), Segment(b3, End)], d)
    ensures x + b2 + "%end" + b3 + "%end" + d == x + Untokenize([Segment(b2, End), Segment(b3, End)], d)
  {
    var segs := [Segment(b2, End), Segment(b3, End)];
    assert segs[1..] == [Segment(b3, End)];
    OneEnd(x + b2 + "%end", b3, d);
    assert Untokenize(segs, d) == b2 + "%end" + Untokenize([Segment(b3, End)], d);
    Regroup(x, b2, Untokenize([Segment(b3, End)], d));
  }

  /** Three `%end` markers, each after plain text, then the tail. */
  lemma ThreeEnds(x: string, b2: string, b3: string, b4: string, d: string)
    requires Plain(b2) && Plain(b3) && Plain(b4) && Plain(d)
    ensures Readable([Segment(b2, End), Segment(b3, End), Segment(b4, End)], d)
    ensures x + b2 + "%end" + b3 + "%end" + b4 + "%end" + d
            == x + Untokenize([Segment(b2, End), Segment(b3, End), Segment(b4, End)], d)
  {
    var segs := [Segment(b2, End), Segment(b3, End), Segment(b4, End)];
    assert segs[1..] == [Segment(b3, End), Segment(b4, End)];
    TwoEnds(x + b2 + "%end", b3, b4, d);
    assert Untokenize(segs, d) == b2 + "%end" + Untokenize(segs[1..], d);
    Regroup(x, b2, Untokenize(segs[1..], d));
    assert Readable(segs, d) by {
      forall k | 0 <= k < 3 ensures Plain(segs[k].text) && Scannable(segs[k].mark) {
        if k > 0 {
          assert segs[k] == segs[1..][k - 1];
        }
      }
    }
  }

  /** A block nested in a block: the inner directive runs first, on its
      own body; the outer one runs on its body with the inner output in
      place of the inner block. */
  lemma NestedCompiled(c: string, n1: string, p1: string, b1: string, n2: string, p2: string, b2: string, b3: string, d: string)
    requires Plain(c) && Plain(b1) && Plain(b2) && Plain(b3) && Plain(d)
    requires CallOpener(n1, p1) && CallOpener(n2, p2)
    ensures NoLineTerminator(p1) && NoLineTerminator(p2)
    ensures Compiled(c + Opener(n1, p1) + b1 + Opener(n2, p2) + b2 + "%end" + b3 + "%end" + d)
            == match Dispatch(Call(n2, Some(p2)), b2)
               case Err(e) => Err(e)
               case Ok(o2) =>
                 match Dispatch(Call(n1, Some(p1)), b1 + o2 + b3)
                 case Err(e) => Err(e)
                 case Ok(o1) => Ok(c + o1 + d)
  {
    var r1, r2 := Opener(n1, p1), Opener(n2, p2);
    var rest := [Segment(b2, End), Segment(b3, End)];
    TwoEnds(c + r1 + b1 + r2, b2, b3, d);
    NestedSegments(c, n1, p1, b1, n2, p2, rest, d);
    assert [Segment(c, Open(r1)), Segment(b1, Open(r2))] + rest
        == [Segment(c, Open(r1)), Segment(b1, Open(r2)), Segment(b2, End), Segment(b3, End)];
    CallOfOpener(n1, p1);
    CallOfOpener(n2, p2);
    InnerFirst(c, r1, b1, r2, b2, b3, d, Apply);
  }

  /** A nested block whose outer block is never closed: a syntax error
      naming the outer opener, once the inner directive has run. */
  lemma MissingEndCompiled(c: string, n1: string, p1: string, b1: string, n2: string, p2: string, b2: string, d: string)
    requires Plain(c) && Plain(b1) && Plain(b2) && Plain(d)
    requires CallOpener(n1, p1) && CallOpener(n2, p2)
    ensures NoLineTerminator(p2)
    ensures Compiled(c + Opener(n1, p1) + b1 + Opener(n2, p2) + b2 + "%end" + d)
            == match Dispatch(Call(n2, Some(p2)), b2)
               case Err(e) => Err(e)
               case Ok(_) => Err(SyntaxError(Opener(n1, p1)))
  {
    var r1, r2 := Opener(n1, p1), Opener(n2, p2);
    var rest := [Segment(b2, End)];
    OneEnd(c + r1 + b1 + r2, b2, d);
    NestedSegments(c, n1, p1, b1, n2, p2, rest, d);
    assert [Segment(c, Open(r1)), Segment(b1, Open(r2))] + rest
        == [Segment(c, Open(r1)), Segment(b1, Open(r2)), Segment(b2, End)];
    CallOfOpener(n2, p2);
    MissingEnd(c, r1, b1, r2, b2, d, Apply);
  }

  /** A nested block followed by one `%end` too many: a syntax error
      naming `%end`, once both directives have run. */
  lemma ExcessEndCompiled(c: string, n1: string, p1: string, b1: string, n2: string, p2: string, b2: string, b3: string, b4: string, d: string)
    requires Plain(c) && Plain(b1) && Plain(b2) && Plain(b3) && Plain(b4) && Plain(d)
    requires CallOpener(n1, p1) && CallOpener(n2, p2)
    ensures NoLineTerminator(p1) && NoLineTerminator(p2)
    ensures Compiled(c + Opener(n1, p1) + b1 + Opener(n2, p2) + b2 + "%end" + b3 + "%end" + b4 + "%end" + d)
            == match Dispatch(Call(n2, Some(p2)), b2)
               case Err(e) => Err(e)
               case Ok(o2) =>
                 match Dispatch(Call(n1, Some(p1)), b1 + o2 + b3)
                 case Err(e) => Err(e)
                 case Ok(_) => Err(SyntaxError("%end"))
  {
    var r1, r2 := Opener(n1, p1), Opener(n2, p2);
    var rest := [Segment(b2, End), Segment(b3, End), Segment(b4, End)];
    ThreeEnds(c + r1 + b1 + r2, b2, b3, b4, d);
    NestedSegments(c, n1, p1, b1, n2, p2, rest, d);
    assert [Segment(c, Open(r1)), Segment(b1, Open(r2))] + rest
        == [Segment(c, Open(r1)), Segment(b1, Open(r2)), Segment(b2, End), Segment(b3, End), Segment(b4, End)];
    CallOfOpener(n1, p1);
    CallOfOpener(n2, p2);
    ExcessEnd(c, r1, b1, r2, b2, b3, b4, d, Apply);
  }

  // ---------------------------------------------------------------------
  // The compiler's loop
  // ---------------------------------------------------------------------

  /** An `%end` marker: roll the stack up, handing the innermost block to
      its opener; the run left to do is unchanged by the step. */
  method CloseBlock(tree: seq<StackNode>, level: nat, ghost segs: seq<Segment>, ghost tail: string,
                    ghost frames: seq<Frame>, ghost top: seq<string>, ghost i: nat)
    returns (r: Result<seq<StackNode>>, ghost frames': seq<Frame>, ghost top': seq<string>)
    requires i < |segs| && segs[i].mark.End? && level == |frames|
    requires tree == Encode(frames) + AtLevel(top + [segs[i].text], level)
    ensures r.Err? ==> Pending(segs, tail, Apply, frames, top, i) == Err(r.error)
    ensures r.Ok? ==> level > 0 && |frames'| == level - 1
                      && r.value == Encode(frames') + AtLevel(top', level - 1)
                      && Pending(segs, tail, Apply, frames, top, i) == Pending(segs, tail, Apply, frames', top', i + 1)
  {
    if level == 0 {
      PendingStray(segs, tail, Apply, top, i);
    } else {
      PendingEnd(segs, tail, Apply, frames, top, i);
    }
    frames', top' := frames, top;
    r := RollUp(tree, level, frames, top + [segs[i].text]);
    if r.Ok? {
      var g := frames[level - 1];
      frames' := frames[..level - 1];
      top' := g.nodes + [Apply(g.raw, Concat(top + [segs[i].text])).value];
    }
  }

  /** One marker of the compiler's loop: push the text before it at the
      current level, then either open a block on the opener or roll the
      stack up at `%end`. The run left to do is unchanged by the step. */
  method Advance(tree: seq<StackNode>, level: nat, rest: string, m: Marker, ghost segs: seq<Segment>, ghost tail: string,
                 ghost frames: seq<Frame>, ghost top: seq<string>, ghost i: nat)
    returns (r: Result<(seq<StackNode>, nat)>, ghost frames': seq<Frame>, ghost top': seq<string>)
    requires i < |segs| && m.index <= m.end <= |rest|
    requires segs[i].text == rest[..m.index]
    requires segs[i].mark == (if m.kind == EndMark then End else Open(rest[m.index..m.end]))
    requires level == |frames| && tree == Encode(frames) + AtLevel(top, level)
    ensures r.Err? ==> Pending(segs, tail, Apply, frames, top, i) == Err(r.error)
    ensures r.Ok? ==> r.value.1 == |frames'| && r.value.0 == Encode(frames') + AtLevel(top', r.value.1)
                      && Pending(segs, tail, Apply, frames, top, i) == Pending(segs, tail, Apply, frames', top', i + 1)
  {
    var content := rest[..m.index];
    AtLevelSnoc(top, content, level);
    var t := tree + [(level, content)];
    if m.kind == OpenMark {
      var raw := rest[m.index..m.end];
      PendingOpen(segs, tail, Apply, frames, top, i);
      EncodeOpen(frames, top, content, raw);
      frames', top' := frames + [Frame(top + [content], raw)], [];
      r := Ok((t + [(level, raw)], level + 1));
    } else {
      var rolled;
      rolled, frames', top' := CloseBlock(t, level, segs, tail, frames, top, i);
      if rolled.Err? {
        return Err(rolled.error), frames', top';
      }
      r := Ok((rolled.value, level - 1));
    }
  }

  /** `compile(html)`: push the text before each marker and each opener on
      the stack at the current level, roll the stack up at each `%end`,
      and join the stack at the end of input. */
  method Compile(html: string) returns (r: Result<string>)
    ensures r == Compiled(html)
  {
    var level: nat := 0;
    var tree: seq<StackNode> := [];
    var rest := html;
    ghost var segs, tail := Tokenize(html).0, Tokenize(html).1;
    ghost var i: nat := 0;
    ghost var frames: seq<Frame> := [];
    ghost var top: seq<string> := [];
    var found := FindMarker(rest, 0);
    UnwindStart(segs, tail, Apply);
    ghost var goal := Compiled(html);
    while found.Some?
      invariant i <= |segs| && Tokenize(rest) == (segs[i..], tail)
      invariant found == FindMarker(rest, 0)
      invariant level == |frames|
      invariant tree == Encode(frames) + AtLevel(top, level)
      invariant goal == Pending(segs, tail, Apply, frames, top, i)
      decreases |rest|
    {
      var m := found.value;
      TokenizeStep(rest, segs, tail, i, m);
      var step;
      step, frames, top := Advance(tree, level, rest, m, segs, tail, frames, top, i);
      if step.Err? {
        return Err(step.error);
      }
      tree, level := step.value.0, step.value.1;
      rest := rest[m.end..];
      i := i + 1;
      found := FindMarker(rest, 0);
    }
    TokenizeDone(rest, segs, tail, i);
    PendingDone(segs, tail, Apply, frames, top);
    r := Finish(tree, level, rest, frames, top);
  }
}
