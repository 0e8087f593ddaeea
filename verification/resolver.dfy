/** The block structure of `compile`. The scanned text is a sequence of
    segments, each a run of text ended by a marker, followed by a tail.
    `Nest` reads the nesting recursively, resolving innermost blocks
    first; `RollUp` is the compiler's own `%end` step on its stack of
    `[level, text]` nodes, and `Unwind` relates that stack to `Nest`. */
module Resolver {

  import opened Errors
  import opened Text
  import opened Directives
  import opened Markers

  /** The marker that ends a segment: an opener with its text, or `%end`. */
  datatype Mark = Open(raw: string) | End

  /** Text up to a marker, and the marker. */
  datatype Segment = Segment(text: string, mark: Mark)

  // ---------------------------------------------------------------------
  // Handlers
  // ---------------------------------------------------------------------

  /** Names `cmd['_' + name]` finds on `Object.prototype` rather than on
      `cmd`: properties that are not handlers but are not missing either. */
  predicate Inherited(name: string) {
    name == "_proto__" || name == "_defineGetter__" || name == "_defineSetter__"
    || name == "_lookupGetter__" || name == "_lookupSetter__"
  }

  /** `fn(block[2], branch[1])` for `fn = cmd['_' + name]`. An absent
      parameter list passes `undefined`: `_each` fails on `undefined.trim()`
      and `_if` prints it as the condition. A name with no property throws
      `SyntaxError(name)`; an inherited property is not callable as a
      handler. */
  function Dispatch(call: Call, body: string): (r: Result<string>)
    requires call.params.Some? ==> NoLineTerminator(call.params.value)
    ensures call.name != "each" && call.name != "if" && !Inherited(call.name)
            ==> r == Err(SyntaxError(call.name))
    ensures Inherited(call.name) ==> r.Err? && r.error.TypeError?
    ensures r.Err? && r.error.SyntaxError? ==> r.error.msg == call.name
  {
    if call.name == "each" then
      match call.params
      case None => Err(TypeError("Cannot read properties of undefined (reading 'trim')"))
      case Some(p) => Each(p, body)
    else if call.name == "if" then
      Ok(If(call.params.GetOr("undefined"), body))
    else if call.name == "_proto__" then
      Err(TypeError("fn is not a function"))
    else if Inherited(call.name) then
      Err(TypeError("Object.prototype._" + call.name + " called on null or undefined"))
    else
      Err(SyntaxError(call.name))
  }

  /** What the opener `raw` makes of the resolved `body` at its `%end`:
      the handler's output, or, when the opener names no call, the
      opener, the body and the `%end` back as plain text. */
  function Apply(raw: string, body: string): (r: Result<string>)
    ensures BlockCall(raw).None? ==> r == Ok(raw + body + "%end")
    ensures BlockCall(raw).Some? ==> r == Dispatch(BlockCall(raw).value, body)
  {
    match BlockCall(raw)
    case None => Ok(raw + body + "%end")
    case Some(call) => Dispatch(call, body)
  }

  // ---------------------------------------------------------------------
  // The nesting, read recursively
  // ---------------------------------------------------------------------

  /** What an opener and its resolved body become at the `%end`; the
      compiler's is `Apply`, and the structural facts below hold for any. */
  type Handler = (string, string) -> Result<string>

  /** How the segments from some index on resolve at a nesting depth: the
      text collected at that depth and the index after the `%end` that
      closes it; the end of input inside an open block; or an error. */
  datatype Outcome = Done(text: string, next: nat) | Unterminated | Failed(error: Error)

  /** Text `x` in front of a `Done` outcome. */
  function Prepend(x: string, o: Outcome): (r: Outcome)
    ensures r.Done? <==> o.Done?
    ensures r.Done? ==> r == Done(x + o.text, o.next)
    ensures !r.Done? ==> r == o
  {
    if o.Done? then Done(x + o.text, o.next) else o
  }

  /** The segments from `i` on at nesting depth `depth`. An opener's block
      runs to its `%end` and is resolved before the text after it; an
      `%end` at depth 0 has no block to close; end of input inside a block
      is reported against the outermost opener still open. */
  function Nest(segs: seq<Segment>, tail: string, h: Handler, i: nat, depth: nat): (o: Outcome)
    requires i <= |segs|
    ensures o.Done? ==> i <= o.next <= |segs|
    ensures o.Done? && depth > 0 ==> i < o.next
    ensures o.Done? && depth == 0 ==> o.next == |segs|
    ensures depth == 0 ==> !o.Unterminated?
    decreases |segs| - i
  {
    if i == |segs| then
      if depth == 0 then Done(tail, i) else Unterminated
    else
      var seg := segs[i];
      match seg.mark
      case End =>
        if depth == 0 then Failed(SyntaxError("%end")) else Done(seg.text, i + 1)
      case Open(raw) =>
        match Nest(segs, tail, h, i + 1, depth + 1)
        case Failed(e) => Failed(e)
        case Unterminated => if depth == 0 then Failed(SyntaxError(raw)) else Unterminated
        case Done(body, j) =>
          match h(raw, body)
          case Err(e) => Failed(e)
          case Ok(out) => Prepend(seg.text + out, Nest(segs, tail, h, j, depth))
  }

  /** The result on segments `segs` and tail `tail`. */
  function Resolve(segs: seq<Segment>, tail: string, h: Handler): Result<string> {
    match Nest(segs, tail, h, 0, 0)
    case Done(t, _) => Ok(t)
    case Failed(e) => Err(e)
    case Unterminated => assert false; Err(SyntaxError("%end"))
  }

  // ---------------------------------------------------------------------
  // The stack of nodes
  // ---------------------------------------------------------------------

  /** A node of the compiler's stack: a nesting level and a text. */
  type StackNode = (nat, string)

  /** Texts `xs` as nodes at level `l`. */
  function AtLevel(xs: seq<string>, l: nat): (r: seq<StackNode>)
    ensures |r| == |xs|
    ensures forall k :: 0 <= k < |xs| ==> r[k] == (l, xs[k])
  {
    seq(|xs|, k requires 0 <= k < |xs| => (l, xs[k]))
  }

  lemma AtLevelSnoc(xs: seq<string>, x: string, l: nat)
    ensures AtLevel(xs + [x], l) == AtLevel(xs, l) + [(l, x)]
  {
  }

  /** An open block on the stack: the nodes pushed at its level before
      its opener, and the opener's text. */
  datatype Frame = Frame(nodes: seq<string>, raw: string)

  /** The stack holding the open blocks `frames`, outermost first: each
      block's nodes and opener at its level. */
  function Encode(frames: seq<Frame>): seq<StackNode>
    decreases |frames|
  {
    if |frames| == 0 then []
    else
      var n := |frames| - 1;
      Encode(frames[..n]) + AtLevel(frames[n].nodes, n) + [(n, frames[n].raw)]
  }

  lemma EncodeLast(frames: seq<Frame>)
    requires |frames| > 0
    ensures var n := |frames| - 1;
            Encode(frames) == Encode(frames[..n]) + AtLevel(frames[n].nodes, n) + [(n, frames[n].raw)]
  {
  }

  /** The rest of a run, from a stack with open blocks `frames` and text
      `acc` at the innermost level, once the segments still to come have
      produced `o` at that level: each closed block is handed to its
      opener, and the opener's output joins the level below. */
  ghost function Unwind(segs: seq<Segment>, tail: string, h: Handler, frames: seq<Frame>, acc: string, o: Outcome): Result<string>
    requires o.Done? ==> o.next <= |segs|
    decreases |frames|
  {
    match o
    case Failed(e) => Err(e)
    case Unterminated => Err(SyntaxError(if |frames| > 0 then frames[0].raw else "%end"))
    case Done(t, j) =>
      if |frames| == 0 then Ok(acc + t)
      else
        var n := |frames| - 1;
        match h(frames[n].raw, acc + t)
        case Err(e) => Err(e)
        case Ok(out) => Unwind(segs, tail, h, frames[..n], Concat(frames[n].nodes) + out, Nest(segs, tail, h, j, n))
  }

  /** A run starts with no open frame and no text. */
  lemma UnwindStart(segs: seq<Segment>, tail: string, h: Handler)
    ensures Resolve(segs, tail, h) == Unwind(segs, tail, h, [], Concat([]), Nest(segs, tail, h, 0, 0))
  {
    var o := Nest(segs, tail, h, 0, 0);
    if o.Done? {
      assert Concat([]) + o.text == o.text;
    }
  }

  /** Text in front of an outcome can be moved into the accumulated text. */
  lemma UnwindShift(segs: seq<Segment>, tail: string, h: Handler, frames: seq<Frame>, a: string, x: string, o: Outcome)
    requires o.Done? ==> o.next <= |segs|
    ensures Unwind(segs, tail, h, frames, a, Prepend(x, o)) == Unwind(segs, tail, h, frames, a + x, o)
  {
    if o.Done? {
      assert a + (x + o.text) == a + x + o.text;
    }
  }

  /** Pushing an opener's segment opens a frame. */
  lemma OpenStep(segs: seq<Segment>, tail: string, h: Handler, frames: seq<Frame>, top: seq<string>, i: nat)
    requires i < |segs| && segs[i].mark.Open?
    ensures var f := Frame(top + [segs[i].text], segs[i].mark.raw);
            Unwind(segs, tail, h, frames, Concat(top), Nest(segs, tail, h, i, |frames|))
            == Unwind(segs, tail, h, frames + [f], "", Nest(segs, tail, h, i + 1, |frames| + 1))
  {
    var seg, L := segs[i], |frames|;
    var f := Frame(top + [seg.text], seg.mark.raw);
    var G := frames + [f];
    assert G[..L] == frames;
    ConcatSnoc(top, seg.text);
    match Nest(segs, tail, h, i + 1, L + 1)
    case Failed(e) =>
    case Unterminated =>
    case Done(body, j) =>
      assert "" + body == body;
      match h(seg.mark.raw, body)
      case Err(e) =>
      case Ok(out) =>
        UnwindShift(segs, tail, h, frames, Concat(top), seg.text + out, Nest(segs, tail, h, j, L));
        assert Concat(top) + (seg.text + out) == Concat(top + [seg.text]) + out;
  }

  /** The stack after an opener's segment. */
  lemma EncodeOpen(frames: seq<Frame>, top: seq<string>, c: string, raw: string)
    ensures Encode(frames + [Frame(top + [c], raw)])
            == Encode(frames) + AtLevel(top, |frames|) + [(|frames|, c)] + [(|frames|, raw)]
  {
    var G := frames + [Frame(top + [c], raw)];
    EncodeLast(G);
    assert G[..|frames|] == frames;
    AtLevelSnoc(top, c, |frames|);
    AppendAssoc(Encode(frames), AtLevel(top, |frames|), [(|frames|, c)]);
  }

  /** `%end` inside a block hands the block to its opener. */
  lemma EndStep(segs: seq<Segment>, tail: string, h: Handler, frames: seq<Frame>, top: seq<string>, i: nat)
    requires i < |segs| && segs[i].mark.End? && |frames| > 0
    ensures var n, c := |frames| - 1, segs[i].text;
            var g := frames[n];
            Unwind(segs, tail, h, frames, Concat(top), Nest(segs, tail, h, i, |frames|))
            == match h(g.raw, Concat(top + [c]))
               case Err(e) => Err(e)
               case Ok(out) => Unwind(segs, tail, h, frames[..n], Concat(g.nodes + [out]), Nest(segs, tail, h, i + 1, n))
  {
    var n, c := |frames| - 1, segs[i].text;
    ConcatSnoc(top, c);
    match h(frames[n].raw, Concat(top + [c]))
    case Err(e) =>
    case Ok(out) => ConcatSnoc(frames[n].nodes, out);
  }

  // ---------------------------------------------------------------------
  // The `%end` step
  // ---------------------------------------------------------------------

  /** Joining the last two texts keeps the concatenation. */
  lemma ConcatJoinLast(ys: seq<string>)
    requires |ys| >= 2
    ensures var n := |ys|;
            Concat(ys[..n - 2] + [ys[n - 2] + ys[n - 1]]) == Concat(ys)
  {
    var n := |ys|;
    var zs := ys[..n - 2] + [ys[n - 2] + ys[n - 1]];
    ConcatAgree(zs, ys, n - 2);
    assert Concat(zs) == ConcatTo(zs, n - 2) + (ys[n - 2] + ys[n - 1]);
    assert ConcatTo(ys, n - 1) == ConcatTo(ys, n - 2) + ys[n - 2];
    assert Concat(ys) == ConcatTo(ys, n - 2) + ys[n - 2] + ys[n - 1];
  }

  lemma ConcatOne(x: string)
    ensures Concat([x]) == x
  {
    assert ConcatTo([x], 0) == "";
  }

  /** Merging the last two nodes of a level: the stack of the same frames
      with the last two top texts joined. */
  lemma MergeStep(frames: seq<Frame>, ys: seq<string>, l: nat)
    requires |ys| >= 2
    ensures var n, t := |ys|, Encode(frames) + AtLevel(ys, l);
            var u := t[..|t| - 1];
            && u[|u| - 1] == (l, ys[n - 2])
            && u[..|u| - 1] + [(l, u[|u| - 1].1 + t[|t| - 1].1)]
               == Encode(frames) + AtLevel(ys[..n - 2] + [ys[n - 2] + ys[n - 1]], l)
  {
    var n, E := |ys|, Encode(frames);
    var t := E + AtLevel(ys, l);
    var u := t[..|t| - 1];
    assert u == E + AtLevel(ys[..n - 1], l);
    assert u[..|u| - 1] == E + AtLevel(ys[..n - 2], l);
    AtLevelSnoc(ys[..n - 2], ys[n - 2] + ys[n - 1], l);
    AppendAssoc(E, AtLevel(ys[..n - 2], l), [(l, ys[n - 2] + ys[n - 1])]);
  }

  /** The last top text popped onto the opener of the innermost frame: the
      opener's node becomes `a`, the popped text `b` is appended to it, and
      the stack is that of the outer frames with `a + b` as the last text
      of the level below. */
  lemma FoldOpener(frames: seq<Frame>, y: string, a: string, b: string)
    requires |frames| > 0
    ensures var n, t := |frames| - 1, Encode(frames) + AtLevel([y], |frames|);
            var u := t[..|t| - 1];
            && t[|t| - 1] == (|frames|, y)
            && |u| > 0 && u[|u| - 1] == (n, frames[n].raw)
            && var v := u[..|u| - 1] + [(n, a)];
               v[..|v| - 1] + [(v[|v| - 1].0, v[|v| - 1].1 + b)]
               == Encode(frames[..n]) + AtLevel(frames[n].nodes + [a + b], n)
  {
    var n, E := |frames| - 1, Encode(frames);
    var g := frames[n];
    EncodeLast(frames);
    var t := E + AtLevel([y], |frames|);
    assert t[..|t| - 1] == E;
    var base := Encode(frames[..n]) + AtLevel(g.nodes, n);
    assert E[..|E| - 1] == base;
    var v := base + [(n, a)];
    assert v[..|v| - 1] == base;
    AtLevelSnoc(g.nodes, a + b, n);
    AppendAssoc(Encode(frames[..n]), AtLevel(g.nodes, n), [(n, a + b)]);
  }

  /** The opener node `opener` meeting the popped `body`: an opener that
      names a call has its text replaced by the handler's output and the
      body consumed; one that names no call keeps its text and the body
      gets its `%end` back. Either way the two read as `Apply`'s result. */
  method Reduce(opener: string, body: string) returns (r: Result<(string, string)>)
    ensures r.Err? <==> Apply(opener, body).Err?
    ensures r.Err? ==> r.error == Apply(opener, body).error
    ensures r.Ok? ==> r.value.0 + r.value.1 == Apply(opener, body).value
    ensures r.Ok? && BlockCall(opener).None? ==> r.value.0 == opener
  {
    match BlockCall(opener) {
      case Some(call) =>
        var out := Dispatch(call, body);
        if out.Err? {
          return Err(out.error);
        }
        assert out.value + "" == out.value;
        return Ok((out.value, ""));
      case None =>
        AppendAssoc(opener, body, "%end");
        return Ok((opener, body + "%end"));
    }
  }

  /** The stack after an `%end` at level `level` over open blocks `frames`
      whose innermost level holds `top`: the innermost block handed to its
      opener, whose output becomes the last text of the level below. At
      level 0 there is no block to close. */
  ghost function Rolled(frames: seq<Frame>, top: seq<string>): Result<seq<StackNode>> {
    if |frames| == 0 then Err(SyntaxError("%end"))
    else
      var n := |frames| - 1;
      match Apply(frames[n].raw, Concat(top))
      case Err(e) => Err(e)
      case Ok(out) => Ok(Encode(frames[..n]) + AtLevel(frames[n].nodes + [out], n))
  }

  /** One round of the `%end` loop: pop the last node and append it to
      the node before, which, on reaching the opener, first becomes the
      handler's output. */
  method PopStep(t: seq<StackNode>, level: nat, ghost frames: seq<Frame>, ghost ys: seq<string>, ghost top: seq<string>)
    returns (r: Result<seq<StackNode>>, ghost ys': seq<string>, ghost done: bool)
    requires level == |frames| && |ys| >= 1 && Concat(ys) == Concat(top)
    requires t == Encode(frames) + AtLevel(ys, level)
    ensures r.Err? ==> r == Rolled(frames, top)
    ensures r.Ok? ==> 1 <= |r.value| < |t|
    ensures r.Ok? && !done ==> |ys'| >= 1 && r.value == Encode(frames) + AtLevel(ys', level) && Concat(ys') == Concat(top)
    ensures r.Ok? && done ==> level > 0 && r == Rolled(frames, top) && r.value[|r.value| - 1].0 == level - 1
  {
    ys', done := ys, false;
    ghost var n := |ys|;
    var branch := t[|t| - 1];
    var u := t[..|t| - 1];
    if |u| == 0 {
      return Err(SyntaxError("%end")), ys', done;
    }
    var current := u[|u| - 1];
    if current.0 as int == level as int - 1 {
      if n >= 2 {
        MergeStep(frames, ys, level);
        assert false;
      }
      assert ys == [ys[0]];
      ConcatOne(ys[0]);
      assert u + [branch] == t;
      r := CloseOpener(u, branch, level, frames, ys[0], top);
      done := true;
    } else {
      if n == 1 {
        if level > 0 {
          FoldOpener(frames, ys[0], "", "");
        }
        assert false;
      }
      MergeStep(frames, ys, level);
      ConcatJoinLast(ys);
      ys' := ys[..n - 2] + [ys[n - 2] + ys[n - 1]];
      r := Ok(u[..|u| - 1] + [(u[|u| - 1].0, u[|u| - 1].1 + branch.1)]);
    }
  }

  /** The round that reaches the innermost opener: its node becomes the
      handler's output for the popped body. */
  method CloseOpener(u: seq<StackNode>, branch: StackNode, level: nat, ghost frames: seq<Frame>, ghost y: string, ghost top: seq<string>)
    returns (r: Result<seq<StackNode>>)
    requires level == |frames| && y == Concat(top) && |u| > 0
    requires u + [branch] == Encode(frames) + AtLevel([y], level)
    requires u[|u| - 1].0 as int == level as int - 1
    ensures r == Rolled(frames, top)
    ensures r.Ok? ==> 1 <= |r.value| <= |u| && r.value[|r.value| - 1].0 == level - 1
  {
    var current := u[|u| - 1];
    if level == 0 {
      assert false;
    }
    FoldOpener(frames, y, "", "");
    assert u == (u + [branch])[..|u|];
    var reduced := Reduce(current.1, branch.1);
    if reduced.Err? {
      return Err(reduced.error);
    }
    FoldOpener(frames, y, reduced.value.0, reduced.value.1);
    var v := u[..|u| - 1] + [(current.0, reduced.value.0)];
    r := Ok(v[..|v| - 1] + [(v[|v| - 1].0, v[|v| - 1].1 + reduced.value.1)]);
  }

  /** `%end` at level `level`: the compiler's loop that pops every node
      above `level - 1`, appending each to the node before it, until it
      reaches the opener at `level - 1` and replaces the opener's text by
      what the handler returns for the collected body. At level 0 there is
      no opener and the loop runs the stack empty. */
  method RollUp(tree: seq<StackNode>, level: nat, ghost frames: seq<Frame>, ghost top: seq<string>)
    returns (r: Result<seq<StackNode>>)
    requires level == |frames| && |top| >= 1
    requires tree == Encode(frames) + AtLevel(top, level)
    ensures r == Rolled(frames, top)
  {
    var t := tree;
    ghost var ys := top;
    ghost var done := false;
    while t[|t| - 1].0 as int > level as int - 1
      invariant |t| >= 1
      invariant !done ==> |ys| >= 1 && t == Encode(frames) + AtLevel(ys, level) && Concat(ys) == Concat(top)
      invariant done ==> level > 0 && Ok(t) == Rolled(frames, top) && t[|t| - 1].0 == level - 1
      decreases |t|
    {
      var step;
      step, ys, done := PopStep(t, level, frames, ys, top);
      if step.Err? {
        return step;
      }
      t := step.value;
    }
    return Ok(t);
  }

  // ---------------------------------------------------------------------
  // The last pass
  // ---------------------------------------------------------------------

  /** The texts of the first `k` nodes, in order. */
  function Joined(tree: seq<StackNode>, k: nat): string
    requires k <= |tree|
  {
    if k == 0 then "" else Joined(tree, k - 1) + tree[k - 1].1
  }

  /** The first `k` nodes are at level 0. */
  predicate Flat(tree: seq<StackNode>, k: nat)
    requires k <= |tree|
  {
    forall j :: 0 <= j < k ==> tree[j].0 == 0
  }

  /** The compiler's last pass over the stack: the texts joined when every
      node is at level 0; otherwise a SyntaxError carrying the text of the
      node before the first raised one. A raised first node has no node
      before it, and reading its text fails. */
  method Flatten(tree: seq<StackNode>) returns (r: Result<string>)
    ensures Flat(tree, |tree|) ==> r == Ok(Joined(tree, |tree|))
    ensures forall j :: 0 < j < |tree| && Flat(tree, j) && tree[j].0 != 0
                        ==> r == Err(SyntaxError(tree[j - 1].1))
    ensures |tree| > 0 && tree[0].0 != 0 ==> r.Err? && r.error.TypeError?
  {
    var html := "";
    var i := 0;
    while i < |tree|
      invariant 0 <= i <= |tree| && Flat(tree, i) && html == Joined(tree, i)
    {
      if tree[i].0 != 0 {
        if i == 0 {
          return Err(TypeError("Cannot read properties of undefined (reading '1')"));
        }
        return Err(SyntaxError(tree[i - 1].1));
      }
      html := html + tree[i].1;
      i := i + 1;
    }
    return Ok(html);
  }

  lemma {:induction false} JoinedAtLevel(xs: seq<string>, l: nat, k: nat)
    requires k <= |xs|
    ensures Joined(AtLevel(xs, l), k) == ConcatTo(xs, k)
  {
    if k > 0 {
      JoinedAtLevel(xs, l, k - 1);
    }
  }

  /** The stack of the outer `k` frames is a prefix of the whole stack,
      and every node after it is at level `k` or deeper. */
  lemma {:induction false} EncodeLevels(frames: seq<Frame>, k: nat)
    requires k <= |frames|
    ensures var e, p := Encode(frames), Encode(frames[..k]);
            && |p| <= |e| && e[..|p|] == p
            && forall j :: |p| <= j < |e| ==> e[j].0 >= k
    decreases |frames|
  {
    if k < |frames| {
      var n := |frames| - 1;
      EncodeLast(frames);
      assert frames[..n][..k] == frames[..k];
      EncodeLevels(frames[..n], k);
      var e, p, q := Encode(frames), Encode(frames[..k]), Encode(frames[..n]);
      assert e == q + (AtLevel(frames[n].nodes, n) + [(n, frames[n].raw)]);
      assert e[..|q|] == q;
      assert e[..|p|] == q[..|p|];
    } else {
      assert frames[..k] == frames;
    }
  }

  /** With a block still open at the end, the first raised node is the
      one after the outermost open opener. */
  lemma OpenLeftRaised(frames: seq<Frame>, x: seq<StackNode>)
    requires |frames| > 0 && |x| > 0
    requires forall j :: 0 <= j < |x| ==> x[j].0 >= 1
    ensures var t, p := Encode(frames) + x, |frames[0].nodes|;
            && p + 1 < |t| && Flat(t, p + 1) && t[p + 1].0 != 0 && t[p] == (0, frames[0].raw)
  {
    var e, f := Encode(frames), frames[..1];
    EncodeLevels(frames, 1);
    EncodeLast(f);
    assert f[..0] == [];
    assert Encode(f) == AtLevel(frames[0].nodes, 0) + [(0, frames[0].raw)];
    var t, p := e + x, |frames[0].nodes|;
    assert t[..p + 1] == Encode(f);
    assert t[p] == Encode(f)[p];
  }

  /** End of input: every block still open is unterminated, reported
      against the outermost one. */
  lemma FinishStep(segs: seq<Segment>, tail: string, h: Handler, frames: seq<Frame>, top: seq<string>)
    ensures Unwind(segs, tail, h, frames, Concat(top), Nest(segs, tail, h, |segs|, |frames|))
            == if |frames| == 0 then Ok(Concat(top + [tail])) else Err(SyntaxError(frames[0].raw))
  {
    ConcatSnoc(top, tail);
  }

  /** The compiler's last step: push the text after the last marker and
      join the stack, which succeeds exactly when no block is open, and
      otherwise names the outermost open opener. */
  method Finish(tree: seq<StackNode>, level: nat, rest: string, ghost frames: seq<Frame>, ghost top: seq<string>) returns (r: Result<string>)
    requires level == |frames| && tree == Encode(frames) + AtLevel(top, level)
    ensures r == if |frames| == 0 then Ok(Concat(top + [rest])) else Err(SyntaxError(frames[0].raw))
  {
    AtLevelSnoc(top, rest, level);
    var t := tree + [(level, rest)];
    r := Flatten(t);
    if level == 0 {
      assert t == AtLevel(top + [rest], 0);
      JoinedAtLevel(top + [rest], 0, |top| + 1);
    } else {
      AppendAssoc(Encode(frames), AtLevel(top, level), [(level, rest)]);
      assert t == Encode(frames) + AtLevel(top + [rest], level);
      OpenLeftRaised(frames, AtLevel(top + [rest], level));
      var p := |frames[0].nodes|;
      assert 0 < p + 1 < |t| && Flat(t, p + 1) && t[p + 1].0 != 0;
    }
  }

  /** The run left to do from segment `i`, with the open blocks `frames`
      and the texts `top` pushed at the innermost level since the last
      marker. */
  ghost function Pending(segs: seq<Segment>, tail: string, h: Handler, frames: seq<Frame>, top: seq<string>, i: nat): Result<string>
    requires i <= |segs|
  {
    Unwind(segs, tail, h, frames, Concat(top), Nest(segs, tail, h, i, |frames|))
  }

  /** An opener's segment opens a frame with nothing pushed in it yet. */
  lemma PendingOpen(segs: seq<Segment>, tail: string, h: Handler, frames: seq<Frame>, top: seq<string>, i: nat)
    requires i < |segs| && segs[i].mark.Open?
    ensures Pending(segs, tail, h, frames, top, i)
            == Pending(segs, tail, h, frames + [Frame(top + [segs[i].text], segs[i].mark.raw)], [], i + 1)
  {
    OpenStep(segs, tail, h, frames, top, i);
  }

  /** `%end` with no block open fails. */
  lemma PendingStray(segs: seq<Segment>, tail: string, h: Handler, top: seq<string>, i: nat)
    requires i < |segs| && segs[i].mark.End?
    ensures Pending(segs, tail, h, [], top, i) == Err(SyntaxError("%end"))
  {
  }

  /** `%end` inside a block: the block's text goes to its opener, and the
      opener's output joins the level below. */
  lemma PendingEnd(segs: seq<Segment>, tail: string, h: Handler, frames: seq<Frame>, top: seq<string>, i: nat)
    requires i < |segs| && segs[i].mark.End? && |frames| > 0
    ensures var n, g := |frames| - 1, frames[|frames| - 1];
            var a := h(g.raw, Concat(top + [segs[i].text]));
            && (a.Err? ==> Pending(segs, tail, h, frames, top, i) == Err(a.error))
            && (a.Ok? ==> Pending(segs, tail, h, frames, top, i) == Pending(segs, tail, h, frames[..n], g.nodes + [a.value], i + 1))
  {
    var n, g := |frames| - 1, frames[|frames| - 1];
    EndStep(segs, tail, h, frames, top, i);
    var a := h(g.raw, Concat(top + [segs[i].text]));
    if a.Ok? {
      assert |frames[..n]| == n;
    }
  }

  /** End of input: the run succeeds exactly when no block is open, and
      otherwise names the outermost open opener. */
  lemma PendingDone(segs: seq<Segment>, tail: string, h: Handler, frames: seq<Frame>, top: seq<string>)
    ensures Pending(segs, tail, h, frames, top, |segs|)
            == if |frames| == 0 then Ok(Concat(top + [tail])) else Err(SyntaxError(frames[0].raw))
  {
    FinishStep(segs, tail, h, frames, top);
  }

  // ---------------------------------------------------------------------
  // Properties of the nesting
  // ---------------------------------------------------------------------

  /** Openers among `segs[i..j]`. */
  function Opens(segs: seq<Segment>, i: nat, j: nat): nat
    requires i <= j <= |segs|
    decreases j - i
  {
    if i == j then 0 else (if segs[i].mark.Open? then 1 else 0) + Opens(segs, i + 1, j)
  }

  /** `%end` markers among `segs[i..j]`. */
  function Ends(segs: seq<Segment>, i: nat, j: nat): nat
    requires i <= j <= |segs|
    decreases j - i
  {
    if i == j then 0 else (if segs[i].mark.End? then 1 else 0) + Ends(segs, i + 1, j)
  }

  lemma {:induction false} CountSplit(segs: seq<Segment>, i: nat, j: nat, k: nat)
    requires i <= j <= k <= |segs|
    ensures Opens(segs, i, k) == Opens(segs, i, j) + Opens(segs, j, k)
    ensures Ends(segs, i, k) == Ends(segs, i, j) + Ends(segs, j, k)
    decreases j - i
  {
    if i < j {
      CountSplit(segs, i + 1, j, k);
    }
  }

  /** Well nested from `i`: no prefix of `segs[i..k]` closes more blocks
      than it opens, beyond the `extra` already open. */
  predicate NeverBelow(segs: seq<Segment>, i: nat, k: nat, extra: nat)
    requires i <= k <= |segs|
  {
    forall m :: i <= m <= k ==> Ends(segs, i, m) <= Opens(segs, i, m) + extra
  }

  /** A block read at depth `depth > 0` closes with one more `%end` than it
      opens blocks, and never dips below its own level before that; at
      depth 0 the segments balance and never close a block not opened. */
  lemma {:induction false} NestNested(segs: seq<Segment>, tail: string, h: Handler, i: nat, depth: nat)
    requires i <= |segs|
    requires Nest(segs, tail, h, i, depth).Done?
    ensures var j := Nest(segs, tail, h, i, depth).next;
            && Ends(segs, i, j) == Opens(segs, i, j) + (if depth > 0 then 1 else 0)
            && NeverBelow(segs, i, if depth > 0 then j - 1 else j, 0)
    decreases |segs| - i
  {
    var o := Nest(segs, tail, h, i, depth);
    if i == |segs| {
    } else {
      var seg := segs[i];
      match seg.mark
      case End =>
        assert o.next == i + 1;
        assert Ends(segs, i, i) == 0;
      case Open(raw) =>
        var inner := Nest(segs, tail, h, i + 1, depth + 1);
        var j1 := inner.next;
        NestNested(segs, tail, h, i + 1, depth + 1);
        var out := h(raw, inner.text).value;
        var rest := Nest(segs, tail, h, j1, depth);
        assert o == Prepend(seg.text + out, rest);
        NestNested(segs, tail, h, j1, depth);
        var j := o.next;
        CountSplit(segs, i + 1, j1, j);
        forall m | i <= m <= (if depth > 0 then j - 1 else j)
          ensures Ends(segs, i, m) <= Opens(segs, i, m)
        {
          if m > i {
            if m <= j1 - 1 {
              assert Ends(segs, i + 1, m) <= Opens(segs, i + 1, m);
            } else {
              CountSplit(segs, i + 1, j1, m);
              assert Ends(segs, j1, m) <= Opens(segs, j1, m);
            }
          }
        }
    }
  }

  /** A successful run has as many `%end` markers as openers, and no
      prefix closes a block that was not opened. */
  lemma ResolvedIsBalanced(segs: seq<Segment>, tail: string, h: Handler)
    requires Resolve(segs, tail, h).Ok?
    ensures Ends(segs, 0, |segs|) == Opens(segs, 0, |segs|)
    ensures NeverBelow(segs, 0, |segs|, 0)
  {
    NestNested(segs, tail, h, 0, 0);
  }

  /** With no `%end` to come, every block open at depth `depth > 0` stays
      open. */
  lemma {:induction false} NoEndStaysOpen(segs: seq<Segment>, tail: string, h: Handler, i: nat, depth: nat)
    requires i <= |segs| && depth > 0
    requires forall k :: i <= k < |segs| ==> segs[k].mark.Open?
    ensures Nest(segs, tail, h, i, depth) == Unterminated
    decreases |segs| - i
  {
    if i < |segs| {
      NoEndStaysOpen(segs, tail, h, i + 1, depth + 1);
    }
  }

  /** An opener at the top level that no `%end` follows is reported by
      its own text. */
  lemma UnclosedOpener(segs: seq<Segment>, tail: string, h: Handler, i: nat)
    requires i < |segs| && segs[i].mark.Open?
    requires forall k :: i < k < |segs| ==> segs[k].mark.Open?
    ensures Nest(segs, tail, h, i, 0) == Failed(SyntaxError(segs[i].mark.raw))
  {
    NoEndStaysOpen(segs, tail, h, i + 1, 1);
  }

  /** A `%end` at the top level: nothing is open to close. */
  lemma StrayEnd(segs: seq<Segment>, tail: string, h: Handler, i: nat)
    requires i < |segs| && segs[i].mark.End?
    ensures Nest(segs, tail, h, i, 0) == Failed(SyntaxError("%end"))
  {
  }

  /** One block: the handler's output replaces the opener, the body and
      the `%end`. */
  lemma OneBlock(c: string, raw: string, body: string, tail: string, h: Handler)
    ensures Resolve([Segment(c, Open(raw)), Segment(body, End)], tail, h)
            == match h(raw, body)
               case Err(e) => Err(e)
               case Ok(out) => Ok(c + out + tail)
  {
    var segs := [Segment(c, Open(raw)), Segment(body, End)];
    assert Nest(segs, tail, h, 1, 1) == Done(body, 2);
    assert Nest(segs, tail, h, 2, 0) == Done(tail, 2);
  }

  /** A block inside a block: the inner block is resolved first, and the
      outer handler's body is the outer text around the inner output. */
  lemma InnerFirst(c: string, r1: string, b1: string, r2: string, b2: string, b3: string, tail: string, h: Handler)
    ensures Resolve([Segment(c, Open(r1)), Segment(b1, Open(r2)), Segment(b2, End), Segment(b3, End)], tail, h)
            == match h(r2, b2)
               case Err(e) => Err(e)
               case Ok(o2) =>
                 match h(r1, b1 + o2 + b3)
                 case Err(e) => Err(e)
                 case Ok(o1) => Ok(c + o1 + tail)
  {
    var segs := [Segment(c, Open(r1)), Segment(b1, Open(r2)), Segment(b2, End), Segment(b3, End)];
    assert Nest(segs, tail, h, 2, 2) == Done(b2, 3);
    assert Nest(segs, tail, h, 3, 1) == Done(b3, 4);
    assert Nest(segs, tail, h, 4, 0) == Done(tail, 4);
    match h(r2, b2)
    case Err(e) =>
    case Ok(o2) =>
      assert Nest(segs, tail, h, 1, 1) == Done(b1 + o2 + b3, 4);
  }

  /** An inner block closed and the outer one left open: the outer
      opener is reported once the inner handler has run. */
  lemma MissingEnd(c: string, r1: string, b1: string, r2: string, b2: string, tail: string, h: Handler)
    ensures Resolve([Segment(c, Open(r1)), Segment(b1, Open(r2)), Segment(b2, End)], tail, h)
            == match h(r2, b2)
               case Err(e) => Err(e)
               case Ok(_) => Err(SyntaxError(r1))
  {
    var segs := [Segment(c, Open(r1)), Segment(b1, Open(r2)), Segment(b2, End)];
    assert Nest(segs, tail, h, 2, 2) == Done(b2, 3);
    assert Nest(segs, tail, h, 3, 1) == Unterminated;
    match h(r2, b2)
    case Err(e) =>
      assert Nest(segs, tail, h, 1, 1) == Failed(e);
    case Ok(o2) =>
      assert Nest(segs, tail, h, 1, 1) == Unterminated;
      assert Nest(segs, tail, h, 0, 0) == Failed(SyntaxError(r1));
  }

  /** Two blocks closed and one more `%end`: once both handlers have run,
      the third `%end` has nothing to close. */
  lemma ExcessEnd(c: string, r1: string, b1: string, r2: string, b2: string, b3: string, b4: string, tail: string, h: Handler)
    ensures Resolve([Segment(c, Open(r1)), Segment(b1, Open(r2)), Segment(b2, End), Segment(b3, End), Segment(b4, End)], tail, h)
            == match h(r2, b2)
               case Err(e) => Err(e)
               case Ok(o2) =>
                 match h(r1, b1 + o2 + b3)
                 case Err(e) => Err(e)
                 case Ok(_) => Err(SyntaxError("%end"))
  {
    var segs := [Segment(c, Open(r1)), Segment(b1, Open(r2)), Segment(b2, End), Segment(b3, End), Segment(b4, End)];
    assert Nest(segs, tail, h, 2, 2) == Done(b2, 3);
    assert Nest(segs, tail, h, 3, 1) == Done(b3, 4);
    assert Nest(segs, tail, h, 4, 0) == Failed(SyntaxError("%end"));
    match h(r2, b2)
    case Err(e) =>
    case Ok(o2) =>
      assert Nest(segs, tail, h, 1, 1) == Done(b1 + o2 + b3, 4);
  }
}
