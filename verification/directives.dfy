/** The two built-in directive handlers of the compiler, `cmd._each` and
    `cmd._if`: pure builders from a parameter text and a block body to a
    JavaScript template-literal expression. */
module Directives {

  import opened Errors
  import opened Text

  // ---------------------------------------------------------------------
  // %each
  // ---------------------------------------------------------------------

  /** The pattern `(.+?)\s+in\s+(.+)` matches the trimmed parameter text `t`
      from its first character with the binding `t[..m]` (text free of line
      terminators, so `.` matches every character). */
  predicate InAt(t: string, m: nat) {
    && 1 <= m < |t|
    && IsSpace(t[m])
    && At(t, SpaceEnd(t, m), "in")
    && SpaceEnd(t, m) + 2 < |t|
    && IsSpace(t[SpaceEnd(t, m) + 2])
    && SpaceEnd(t, SpaceEnd(t, m) + 2) < |t|
  }

  /** Where the iterated expression starts, once the binding ends at `m`. */
  function SourceStart(t: string, m: nat): (k: nat)
    requires InAt(t, m)
    ensures m < k < |t|
  {
    SpaceEnd(t, SpaceEnd(t, m) + 2)
  }

  /** The lazy `.+?`: the shortest binding end at or after `m`. */
  function FirstIn(t: string, m: nat): (r: Option<nat>)
    requires 1 <= m
    ensures r.Some? ==> m <= r.value && InAt(t, r.value)
    ensures forall j :: m <= j && (r.None? || j < r.value) ==> !InAt(t, j)
    decreases |t| - m
  {
    if m >= |t| then None
    else if InAt(t, m) then Some(m)
    else FirstIn(t, m + 1)
  }

  /** `t[..m]` is the binding the lazy `(.+?)` settles on: the first
      position where the rest of the pattern matches. */
  predicate BindingEnd(t: string, m: nat) {
    InAt(t, m) && forall j :: 1 <= j < m ==> !InAt(t, j)
  }

  /** The expression `_each` emits for binding `b`, array expression `e`
      and body `block`. */
  function EachCode(b: string, e: string, block: string): string {
    "${" + e + ".map(function (" + b + ") {\nreturn (`" + block + "`)}).join(`\\n`)}"
  }

  /** `cmd._each`: map the array expression with a function of the binding
      that returns the body as a template literal, joined by newlines. The
      parameter text comes from a `(.*?)` capture, so it holds no line
      terminator. */
  function Each(expr: string, block: string): (r: Result<string>)
    requires NoLineTerminator(expr)
    ensures var t := Trim(expr);
            r.Err? <==> forall m :: !InAt(t, m)
    ensures r.Err? ==> r.error == ReferenceError(expr)
    ensures var t := Trim(expr);
            r.Ok? ==> exists m: nat :: BindingEnd(t, m)
                                  && r.value == EachCode(t[..m], t[SourceStart(t, m)..], block)
  {
    var t := Trim(expr);
    var f := FirstIn(t, 1);
    if f.None? then
      Err(ReferenceError(expr))
    else
      var m := f.value;
      assert BindingEnd(t, m);
      Ok(EachCode(t[..m], t[SourceStart(t, m)..], block))
  }

  /** The lazy binding is unique. */
  lemma BindingUnique(t: string, m: nat, n: nat)
    requires BindingEnd(t, m) && BindingEnd(t, n)
    ensures m == n
  {
  }

  /** Once the binding end is known, `_each` emits the map/join expression
      over the text around it. */
  lemma EachAt(expr: string, block: string, m: nat)
    requires NoLineTerminator(expr)
    requires BindingEnd(Trim(expr), m)
    ensures var t := Trim(expr);
            Each(expr, block) == Ok(EachCode(t[..m], t[SourceStart(t, m)..], block))
  {
    var t := Trim(expr);
    var r := Each(expr, block);
    assert r.Ok?;
    var n: nat :| BindingEnd(t, n) && r.value == EachCode(t[..n], t[SourceStart(t, n)..], block);
    BindingUnique(t, m, n);
  }

  /** The parameter text `b in e` for a binding without whitespace. */
  lemma InSplitShape(b: string, e: string)
    requires b != [] && forall k :: 0 <= k < |b| ==> !IsSpace(b[k])
    requires e != [] && !IsSpace(e[0])
    ensures var t := b + " in " + e;
            BindingEnd(t, |b|) && SourceStart(t, |b|) == |b| + 4
            && t[..|b|] == b && t[|b| + 4..] == e
  {
    var t := b + " in " + e;
    var m := |b|;
    assert t[m] == ' ' && t[m + 1] == 'i' && t[m + 2] == 'n' && t[m + 3] == ' ';
    assert t[m + 4] == e[0];
    assert SpaceEnd(t, m + 1) == m + 1;
    assert SpaceEnd(t, m) == m + 1;
    assert SpaceEnd(t, m + 4) == m + 4;
    assert SpaceEnd(t, m + 3) == m + 4;
    assert t[m + 1..m + 3] == "in";
    assert InAt(t, m);
    forall j | 1 <= j < m ensures !InAt(t, j) {
      assert t[j] == b[j];
    }
    assert t[..m] == b;
    assert t[m + 4..] == e;
  }

  /** A binding without whitespace, ` in `, and a trimmed expression parse
      back into that binding and expression. */
  lemma EachRoundTrip(b: string, e: string, block: string)
    requires b != [] && forall k :: 0 <= k < |b| ==> !IsSpace(b[k])
    requires e != [] && !IsSpace(e[0]) && !IsSpace(e[|e| - 1]) && NoLineTerminator(e)
    ensures NoLineTerminator(b + " in " + e)
    ensures Each(b + " in " + e, block) == Ok(EachCode(b, e, block))
  {
    var t := b + " in " + e;
    forall k | 0 <= k < |t| ensures !IsLineTerminator(t[k]) {
      if k < |b| {
        assert t[k] == b[k];
        LineTerminatorIsSpace(b[k]);
      } else if k >= |b| + 4 {
        assert t[k] == e[k - |b| - 4];
      }
    }
    assert t[0] == b[0] && t[|t| - 1] == e[|e| - 1];
    TrimIdle(t);
    InSplitShape(b, e);
    EachAt(t, block, |b|);
  }

  // ---------------------------------------------------------------------
  // %if
  // ---------------------------------------------------------------------

  /** First line terminator at or after `i`, or the end of `s`. */
  function LineEnd(s: string, i: nat): (e: nat)
    requires i <= |s|
    ensures i <= e <= |s|
    ensures forall k :: i <= k < e ==> !IsLineTerminator(s[k])
    ensures e == |s| || IsLineTerminator(s[e])
    decreases |s| - i
  {
    if i < |s| && !IsLineTerminator(s[i]) then LineEnd(s, i + 1) else i
  }

  /** The greedy `(.+)\)` followed by `\s*:`: the LAST `)` in `[lo, hi)`
      that a colon follows, whitespace aside. */
  function LastClose(s: string, lo: nat, hi: nat): (r: Option<nat>)
    requires hi <= |s|
    ensures r.Some? ==> lo <= r.value < hi && CloseAt(s, r.value)
    ensures forall e :: (if r.Some? then r.value + 1 else lo) <= e < hi ==> !CloseAt(s, e)
    decreases hi
  {
    if hi <= lo then None
    else if CloseAt(s, hi - 1) then Some(hi - 1)
    else LastClose(s, lo, hi - 1)
  }

  /** The optional group `\s+if\s*\((.+)\)` after `%else`, at `q`, provided
      `\s*:` follows it: the captured condition and the index of its `)`. */
  function ElseIfGroup(s: string, q: nat): (r: Option<(string, nat)>)
    requires q <= |s|
    ensures r.Some? ==> q < r.value.1 < |s| && CloseAt(s, r.value.1)
    ensures r.Some? ==> r.value.0 != [] && NoLineTerminator(r.value.0)
  {
    var w := SpaceEnd(s, q);
    if w == q || !At(s, w, "if") then None
    else
      var u := SpaceEnd(s, w + 2);
      if u < |s| && s[u] == '(' then
        var line := LineEnd(s, u + 1);
        match LastClose(s, u + 2, line)
        case Some(e) =>
          Some((s[u + 1..e], e))
        case None => None
      else None
  }

  /** `/%else(?:\s+if\s*\((.+)\))?\s*:/` tried at position `i` of `s`:
      where the match ends and the captured condition, if any. */
  function ElseAt(s: string, i: nat): (r: Option<(nat, Option<string>)>)
    requires i <= |s|
    ensures r.Some? ==> i + 6 <= r.value.0 <= |s|
    ensures r.Some? && r.value.1.Some? ==> r.value.1.value != [] && NoLineTerminator(r.value.1.value)
  {
    if !At(s, i, "%else") then None
    else
      match ElseIfGroup(s, i + 5)
      case Some((cond, e)) => Some((SpaceEnd(s, e + 1) + 1, Some(cond)))
      case None => if ColonAhead(s, i + 5) then Some((SpaceEnd(s, i + 5) + 1, None)) else None
  }

  /** A match of the `%else` pattern: where it starts and ends in the
      block, and the condition of an `%else if`. */
  datatype ElseMatch = ElseMatch(index: nat, end: nat, cond: Option<string>)

  /** The leftmost `%else` marker at or after `i`; `block.match(...)` is
      `FindElse(block, 0)`. */
  function FindElse(s: string, i: nat): (r: Option<ElseMatch>)
    requires i <= |s|
    ensures r.Some? ==> i <= r.value.index && r.value.index + 6 <= r.value.end <= |s|
    ensures r.Some? ==> ElseAt(s, r.value.index) == Some((r.value.end, r.value.cond))
    ensures forall k :: i <= k <= |s| && (r.None? || k < r.value.index) ==> ElseAt(s, k).None?
    decreases |s| - i
  {
    match ElseAt(s, i)
    case Some((e, cond)) => Some(ElseMatch(i, e, cond))
    case None => if i == |s| then None else FindElse(s, i + 1)
  }

  /** The loop of `cmd._if` over the rest of the block: each marker closes
      the branch before it; a plain `%else` sets the sticky fallback flag
      that suppresses the empty final alternative. */
  function IfRest(block: string, fallback: bool): string
    decreases |block|
  {
    match FindElse(block, 0)
    case None => "`" + Trim(block) + "`" + (if fallback then "" else ":``") + "}"
    case Some(m) =>
      "`" + Trim(block[..m.index]) + "`:"
      + (if m.cond.Some? then m.cond.value + "?" else "")
      + IfRest(block[m.end..], fallback || m.cond.None?)
  }

  /** `cmd._if`: the ternary chain for condition `expr` and `block`. */
  function If(expr: string, block: string): string {
    "${" + expr + "?" + IfRest(block, false)
  }

  // ---------------------------------------------------------------------
  // Conditional chains
  // ---------------------------------------------------------------------

  /** An `%else if (cond):` arm of a conditional block and the text that
      follows it. */
  datatype Arm = Arm(cond: string, body: string)

  /** The markers and branches after the first branch of a chain. */
  function ChainTail(arms: seq<Arm>, otherwise: Option<string>): string
    decreases |arms|
  {
    if |arms| == 0 then (if otherwise.Some? then "%else:" + otherwise.value else "")
    else "%else if (" + arms[0].cond + "):" + arms[0].body + ChainTail(arms[1..], otherwise)
  }

  /** The alternatives of the ternary a chain stands for, after `C?`:
      each branch trimmed and quoted, each arm's condition before its
      branch, and the final `%else` branch or the empty literal last. */
  function ChainCode(first: string, arms: seq<Arm>, otherwise: Option<string>): string
    decreases |arms|
  {
    if |arms| == 0 then
      "`" + Trim(first) + "`:"
      + (if otherwise.Some? then "`" + Trim(otherwise.value) + "`}" else "``}")
    else
      "`" + Trim(first) + "`:" + arms[0].cond + "?" + ChainCode(arms[0].body, arms[1..], otherwise)
  }

  /** An arm the marker pattern reads back: a non-empty one-line condition,
      and a branch that starts on a new line and holds no `%`. The line
      break matters: the condition capture `(.+)` is greedy and would
      otherwise run on to the last `):` of the line. */
  predicate SeparateArm(a: Arm) {
    && a.cond != [] && NoLineTerminator(a.cond)
    && StartsLine(a.body)
    && '%' !in a.body
  }

  /** A marker starts with `%`. */
  lemma ElseAtPercent(s: string, k: nat)
    requires k <= |s| && ElseAt(s, k).Some?
    ensures k < |s| && s[k] == '%'
  {
    assert s[k..k + 5][0] == s[k];
  }

  lemma NoPercentNoElse(s: string)
    requires '%' !in s
    ensures FindElse(s, 0) == None
  {
    forall k | 0 <= k <= |s| ensures ElseAt(s, k).None? {
      if ElseAt(s, k).Some? {
        ElseAtPercent(s, k);
      }
    }
  }

  /** The leftmost marker is the one at `p` when no `%` comes before it. */
  lemma FirstElse(s: string, p: nat, e: nat, cond: Option<string>)
    requires p <= |s|
    requires forall k :: 0 <= k < p ==> s[k] != '%'
    requires ElseAt(s, p) == Some((e, cond))
    ensures FindElse(s, 0) == Some(ElseMatch(p, e, cond))
  {
    var r := FindElse(s, 0);
    assert r.Some? && r.value.index <= p;
    if r.value.index < p {
      ElseAtPercent(s, r.value.index);
    }
    assert r.value.index == p;
  }

  /** A plain `%else:` at `p`. */
  lemma ElseMarkerAt(s: string, p: nat)
    requires p + 6 <= |s|
    requires s[p..p + 5] == "%else" && s[p + 5] == ':'
    ensures ElseAt(s, p) == Some((p + 6, None))
  {
    assert At(s, p, "%else");
    assert SpaceEnd(s, p + 5) == p + 5;
  }

  lemma LineEndAt(s: string, i: nat, e: nat)
    requires i <= e < |s|
    requires forall k :: i <= k < e ==> !IsLineTerminator(s[k])
    requires IsLineTerminator(s[e])
    ensures LineEnd(s, i) == e
  {
  }

  /** An `%else if (c):` at `p`, with the condition on one line and a
      line break after the colon, read on index facts alone. */
  lemma ElseIfAt(s: string, p: nat, n: nat)
    requires 1 <= n && p + 12 + n < |s|
    requires s[p..p + 5] == "%else"
    requires s[p + 5] == ' ' && s[p + 6] == 'i' && s[p + 7] == 'f' && s[p + 8] == ' ' && s[p + 9] == '('
    requires forall k :: p + 10 <= k < p + 10 + n ==> !IsLineTerminator(s[k])
    requires s[p + 10 + n] == ')' && s[p + 11 + n] == ':' && IsLineTerminator(s[p + 12 + n])
    ensures ElseAt(s, p) == Some((p + 12 + n, Some(s[p + 10..p + 10 + n])))
  {
    assert At(s, p, "%else");
    assert SpaceEnd(s, p + 6) == p + 6;
    assert SpaceEnd(s, p + 5) == p + 6;
    assert s[p + 6..p + 8] == "if";
    assert SpaceEnd(s, p + 9) == p + 9;
    assert SpaceEnd(s, p + 8) == p + 9;
    LineEndAt(s, p + 10, p + 12 + n);
    assert SpaceEnd(s, p + 11 + n) == p + 11 + n;
    assert ColonAhead(s, p + 11 + n);
    assert LastClose(s, p + 11, p + 11 + n) == Some(p + 10 + n);
    assert LastClose(s, p + 11, p + 12 + n) == Some(p + 10 + n);
    assert ElseIfGroup(s, p + 5) == Some((s[p + 10..p + 10 + n], p + 10 + n));
  }

  /** `IfRest` on a block whose leftmost marker is known, with the text
      before and after the marker named. */
  lemma {:induction false} IfRestAt(block: string, fallback: bool, m: ElseMatch, before: string, after: string)
    requires FindElse(block, 0) == Some(m)
    requires before == block[..m.index] && after == block[m.end..]
    ensures IfRest(block, fallback)
            == "`" + Trim(before) + "`:"
               + (if m.cond.Some? then m.cond.value + "?" else "")
               + IfRest(after, fallback || m.cond.None?)
  {
  }

  /** The characters of `first + "%else if (" + c + "):" + more`. */
  lemma ElseIfLayout(first: string, c: string, more: string)
    requires StartsLine(more)
    ensures var s, p, n := first + ("%else if (" + c + "):" + more), |first|, |c|;
            && |s| == p + n + 12 + |more|
            && s[p..p + 5] == "%else"
            && s[p + 5] == ' ' && s[p + 6] == 'i' && s[p + 7] == 'f' && s[p + 8] == ' ' && s[p + 9] == '('
            && s[p + 10..p + 10 + n] == c
            && s[p + 10 + n] == ')' && s[p + 11 + n] == ':' && IsLineTerminator(s[p + 12 + n])
            && s[..p] == first && s[p + 12 + n..] == more
  {
    var s, p, n := first + ("%else if (" + c + "):" + more), |first|, |c|;
    assert s[p..p + 5] == "%else";
    assert s[p + 12 + n] == more[0];
    assert s[p + 10..p + 10 + n] == c;
    assert s[..p] == first;
    assert s[p + 12 + n..] == more;
  }

  /** No marker before `|first|` when `first` holds no `%`. */
  lemma PercentFree(first: string, s: string)
    requires '%' !in first && |first| <= |s| && s[..|first|] == first
    ensures forall k :: 0 <= k < |first| ==> s[k] != '%'
  {
    forall k | 0 <= k < |first| ensures s[k] != '%' {
      assert s[k] == s[..|first|][k];
    }
  }

  /** The leftmost marker of a branch followed by `%else if (c):`, on the
      characters `ElseIfLayout` lists. */
  lemma ElseIfFirst(s: string, first: string, c: string)
    requires '%' !in first
    requires c != [] && NoLineTerminator(c)
    requires var p, n := |first|, |c|;
            && p + n + 12 < |s|
            && s[p..p + 5] == "%else"
            && s[p + 5] == ' ' && s[p + 6] == 'i' && s[p + 7] == 'f' && s[p + 8] == ' ' && s[p + 9] == '('
            && s[p + 10..p + 10 + n] == c
            && s[p + 10 + n] == ')' && s[p + 11 + n] == ':' && IsLineTerminator(s[p + 12 + n])
            && s[..p] == first
    ensures FindElse(s, 0) == Some(ElseMatch(|first|, |first| + |c| + 12, Some(c)))
  {
    var p, n := |first|, |c|;
    forall k | p + 10 <= k < p + 10 + n ensures !IsLineTerminator(s[k]) {
      assert s[k] == s[p + 10..p + 10 + n][k - p - 10];
    }
    ElseIfAt(s, p, n);
    PercentFree(first, s);
    FirstElse(s, p, p + 12 + n, Some(c));
  }

  /** The leftmost marker of a branch followed by `%else:`. */
  lemma ElseFirst(first: string, e: string)
    requires '%' !in first
    ensures var s := first + ("%else:" + e);
            && FindElse(s, 0) == Some(ElseMatch(|first|, |first| + 6, None))
            && s[..|first|] == first && s[|first| + 6..] == e
  {
    var s := first + ("%else:" + e);
    var p := |first|;
    assert s[p..p + 5] == "%else" && s[p + 5] == ':';
    ElseMarkerAt(s, p);
    forall k | 0 <= k < p ensures s[k] != '%' {
      assert s[k] == first[k];
    }
    FirstElse(s, p, p + 6, None);
    assert s[..p] == first;
    assert s[p + 6..] == e;
  }

  /** `IfRest` on a block whose leftmost marker is an `%else if (c):`
      that ends `len` characters after it starts. */
  lemma IfRestCond(s: string, first: string, c: string, more: string)
    requires FindElse(s, 0) == Some(ElseMatch(|first|, |first| + |c| + 12, Some(c)))
    requires s[..|first|] == first && s[|first| + |c| + 12..] == more
    ensures IfRest(s, false) == "`" + Trim(first) + "`:" + c + "?" + IfRest(more, false)
  {
    IfRestAt(s, false, ElseMatch(|first|, |first| + |c| + 12, Some(c)), first, more);
    AppendAssoc("`" + Trim(first) + "`:", c, "?");
  }

  /** One `%else if` marker: the branch before it is closed and the
      condition opens the next alternative. */
  lemma IfRestElseIf(first: string, c: string, more: string)
    requires '%' !in first
    requires c != [] && NoLineTerminator(c)
    requires StartsLine(more)
    ensures IfRest(first + ("%else if (" + c + "):" + more), false)
            == "`" + Trim(first) + "`:" + c + "?" + IfRest(more, false)
  {
    var s := first + ("%else if (" + c + "):" + more);
    ElseIfLayout(first, c, more);
    ElseIfFirst(s, first, c);
    IfRestCond(s, first, c, more);
  }

  /** A final plain `%else`: the fallback flag drops the empty literal. */
  lemma IfRestElse(first: string, e: string)
    requires '%' !in first && '%' !in e
    ensures IfRest(first + ("%else:" + e), false) == "`" + Trim(first) + "`:`" + Trim(e) + "`}"
  {
    ElseFirst(first, e);
    IfRestAt(first + ("%else:" + e), false, ElseMatch(|first|, |first| + 6, None), first, e);
    NoPercentNoElse(e);
    LastBranchText(Trim(first), Trim(e));
  }

  lemma LastBranchText(a: string, b: string)
    ensures "`" + a + "`:" + "" + ("`" + b + "`" + "" + "}") == "`" + a + "`:`" + b + "`}"
  {
  }

  /** The loop of `_if` over a chain built from separate arms produces the
      chain's alternatives, conditions in their left-to-right order. */
  lemma {:induction false} IfRestChain(first: string, arms: seq<Arm>, otherwise: Option<string>)
    requires '%' !in first
    requires forall k :: 0 <= k < |arms| ==> SeparateArm(arms[k])
    requires otherwise.Some? ==> '%' !in otherwise.value
    ensures IfRest(first + ChainTail(arms, otherwise), false) == ChainCode(first, arms, otherwise)
    decreases |arms|
  {
    if |arms| == 0 {
      IfRestChainEnd(first, otherwise);
    } else {
      IfRestChain(arms[0].body, arms[1..], otherwise);
      IfRestChainStep(first, arms, otherwise);
    }
  }

  /** The end of a chain: the final `%else` branch, or none. */
  lemma IfRestChainEnd(first: string, otherwise: Option<string>)
    requires '%' !in first
    requires otherwise.Some? ==> '%' !in otherwise.value
    ensures IfRest(first + ChainTail([], otherwise), false) == ChainCode(first, [], otherwise)
  {
    if otherwise.Some? {
      IfRestElse(first, otherwise.value);
      ElseBranchText(Trim(first), Trim(otherwise.value));
    } else {
      assert first + ChainTail([], otherwise) == first;
      NoPercentNoElse(first);
      NoElseText(Trim(first));
    }
  }

  lemma ElseBranchText(a: string, b: string)
    ensures "`" + a + "`:`" + b + "`}" == "`" + a + "`:" + ("`" + b + "`}")
  {
  }

  lemma NoElseText(a: string)
    ensures "`" + a + "`" + ":``" + "}" == "`" + a + "`:" + "``}"
  {
  }

  /** One arm of a chain, given the chain after it. */
  lemma IfRestChainStep(first: string, arms: seq<Arm>, otherwise: Option<string>)
    requires '%' !in first
    requires |arms| > 0 && SeparateArm(arms[0])
    requires IfRest(arms[0].body + ChainTail(arms[1..], otherwise), false)
             == ChainCode(arms[0].body, arms[1..], otherwise)
    ensures IfRest(first + ChainTail(arms, otherwise), false) == ChainCode(first, arms, otherwise)
  {
    var a := arms[0];
    var more := a.body + ChainTail(arms[1..], otherwise);
    ChainStep(first, arms, otherwise);
    IfRestElseIf(first, a.cond, more);
  }

  /** The first arm of a chain, peeled off. */
  lemma ChainStep(first: string, arms: seq<Arm>, otherwise: Option<string>)
    requires |arms| > 0 && SeparateArm(arms[0])
    ensures var a, more := arms[0], arms[0].body + ChainTail(arms[1..], otherwise);
            && first + ChainTail(arms, otherwise) == first + ("%else if (" + a.cond + "):" + more)
            && StartsLine(more)
  {
    var a, more := arms[0], arms[0].body + ChainTail(arms[1..], otherwise);
    assert more[0] == a.body[0];
  }

  /** `_if(C, block)` on a chain of `%else if` arms and an optional final
      `%else`: `${C?`b0`:c1?`b1`:...:`e`}`, with an empty-string literal
      as the last alternative when no `%else` is given. */
  lemma IfChain(expr: string, first: string, arms: seq<Arm>, otherwise: Option<string>)
    requires '%' !in first
    requires forall k :: 0 <= k < |arms| ==> SeparateArm(arms[k])
    requires otherwise.Some? ==> '%' !in otherwise.value
    ensures If(expr, first + ChainTail(arms, otherwise))
            == "${" + expr + "?" + ChainCode(first, arms, otherwise)
  {
    IfRestChain(first, arms, otherwise);
  }

  /** Without a marker, `_if` trims the body and falls back to ``. */
  lemma IfPlain(expr: string, block: string)
    requires FindElse(block, 0).None?
    ensures If(expr, block) == "${" + expr + "?`" + Trim(block) + "`:``}"
  {
  }
}
