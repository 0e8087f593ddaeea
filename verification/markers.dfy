/** The scanner of `compile`: the leftmost `%end` or block opener in the
    remaining text (`/(%end)|(%\w+\s+.*?\s*:)/`), and the handler call an
    opener stands for (`/%(\w+)\s+(?:\((.*?)\))?(?=\s*:)/`). */
module Markers {

  import opened Errors
  import opened Text

  // ---------------------------------------------------------------------
  // %end and openers
  // ---------------------------------------------------------------------

  datatype Kind = EndMark | OpenMark

  /** The tail `.*?\s*:` of the opener pattern from `j`: the lazy `.*?`
      stops at the first position a colon follows, whitespace aside, and
      cannot cross a line terminator. The end of the match, if any. */
  function LazyColon(s: string, j: nat): (r: Option<nat>)
    requires j <= |s|
    ensures r.Some? ==> j < r.value <= |s| && s[r.value - 1] == ':'
    decreases |s| - j
  {
    if ColonAhead(s, j) then Some(SpaceEnd(s, j) + 1)
    else if j < |s| && !IsLineTerminator(s[j]) then LazyColon(s, j + 1)
    else None
  }

  /** The marker pattern tried at position `i`: `%end` first, then an
      opener `%` word, whitespace, and the lazy run to a colon. The
      greedy `\w+` and `\s+` are maximal: a shorter run cannot be
      followed by what comes next. The end of the match and its kind. */
  function MarkerAt(s: string, i: nat): (r: Option<(nat, Kind)>)
    requires i <= |s|
    ensures r.Some? ==> i + 4 <= r.value.0 <= |s| && s[i] == '%'
    ensures r.Some? ==> (r.value.1 == EndMark <==> At(s, i, "%end"))
    ensures r.Some? && r.value.1 == EndMark ==> r.value.0 == i + 4
  {
    if At(s, i, "%end") then
      assert s[i] == s[i..i + 4][0];
      Some((i + 4, EndMark))
    else if i < |s| && s[i] == '%' then
      var w := WordEnd(s, i + 1);
      var r := SpaceEnd(s, w);
      if w == i + 1 || r == w then None
      else
        match LazyColon(s, r)
        case Some(e) => Some((e, OpenMark))
        case None => None
    else None
  }

  /** A match of the marker pattern. */
  datatype Marker = Marker(index: nat, end: nat, kind: Kind)

  /** The leftmost marker at or after `i`; `html.match(...)` is
      `FindMarker(html, 0)`. */
  function FindMarker(s: string, i: nat): (r: Option<Marker>)
    requires i <= |s|
    ensures r.Some? ==> i <= r.value.index && r.value.index + 4 <= r.value.end <= |s|
    ensures r.Some? ==> MarkerAt(s, r.value.index) == Some((r.value.end, r.value.kind))
    ensures forall k :: i <= k <= |s| && (r.None? || k < r.value.index) ==> MarkerAt(s, k).None?
    decreases |s| - i
  {
    match MarkerAt(s, i)
    case Some((e, kind)) => Some(Marker(i, e, kind))
    case None => if i == |s| then None else FindMarker(s, i + 1)
  }

  // ---------------------------------------------------------------------
  // The handler call of an opener
  // ---------------------------------------------------------------------

  /** A handler call: the directive name and the parenthesised parameter
      text, absent when the opener has no parentheses. */
  datatype Call = Call(name: string, params: Option<string>)

  /** The lazy `(.*?)\)(?=\s*:)` from `k`: the first `)` a colon follows,
      not past a line terminator. */
  function LazyClose(s: string, k: nat): (r: Option<nat>)
    requires k <= |s|
    ensures r.Some? ==> k <= r.value < |s| && CloseAt(s, r.value)
    ensures r.Some? ==> forall j :: k <= j < r.value ==> !IsLineTerminator(s[j])
    decreases |s| - k
  {
    if k == |s| then None
    else if CloseAt(s, k) then Some(k)
    else if !IsLineTerminator(s[k]) then LazyClose(s, k + 1)
    else None
  }

  /** The call pattern tried at position `i`. The optional group is tried
      first; without it the lookahead must see a colon right after the
      whitespace run. */
  function CallAt(s: string, i: nat): (r: Option<Call>)
    requires i <= |s|
    ensures r.Some? ==> r.value.name != [] && forall k :: 0 <= k < |r.value.name| ==> IsWordChar(r.value.name[k])
    ensures r.Some? && r.value.params.Some? ==> NoLineTerminator(r.value.params.value)
  {
    if i < |s| && s[i] == '%' then
      var w := WordEnd(s, i + 1);
      var r := SpaceEnd(s, w);
      if w == i + 1 || r == w then None
      else
        var name := s[i + 1..w];
        assert forall k :: 0 <= k < |name| ==> name[k] == s[i + 1 + k];
        var group := if r < |s| && s[r] == '(' then LazyClose(s, r + 1) else None;
        match group
        case Some(k) =>
          var params := s[r + 1..k];
          assert forall j :: 0 <= j < |params| ==> params[j] == s[r + 1 + j];
          Some(Call(name, Some(params)))
        case None =>
          if ColonAhead(s, r) then Some(Call(name, None)) else None
    else None
  }

  /** The leftmost call at or after `i`. */
  function FindCall(s: string, i: nat): (r: Option<Call>)
    requires i <= |s|
    ensures r.Some? ==> exists k :: i <= k <= |s| && CallAt(s, k) == r
    ensures r.None? <==> forall k :: i <= k <= |s| ==> CallAt(s, k).None?
    decreases |s| - i
  {
    if CallAt(s, i).Some? then CallAt(s, i)
    else if i == |s| then None
    else FindCall(s, i + 1)
  }

  /** `current[1].match(/%(\w+)\s+(?:\((.*?)\))?(?=\s*:)/)` on an
      opener's text. */
  function BlockCall(raw: string): (r: Option<Call>)
    ensures r.Some? && r.value.params.Some? ==> NoLineTerminator(r.value.params.value)
  {
    FindCall(raw, 0)
  }

  // ---------------------------------------------------------------------
  // Reading markers back
  // ---------------------------------------------------------------------

  /** A `%end` at `p`. */
  lemma EndMarkerAt(s: string, p: nat)
    requires p + 4 <= |s| && s[p..p + 4] == "%end"
    ensures MarkerAt(s, p) == Some((p + 4, EndMark))
  {
    assert At(s, p, "%end");
  }

  /** The lazy run reaches the first colon at `q` when nothing before it
      is a colon or a line terminator and whitespace does not lead up to
      it. */
  lemma {:induction false} LazyColonTo(s: string, j: nat, q: nat)
    requires j <= q < |s| && s[q] == ':'
    requires forall k :: j <= k < q ==> s[k] != ':' && !IsLineTerminator(s[k])
    requires j < q ==> !IsSpace(s[q - 1])
    ensures LazyColon(s, j) == Some(q + 1)
    decreases q - j
  {
    if j == q {
      assert SpaceEnd(s, q) == q;
    } else {
      var e := SpaceEnd(s, j);
      assert !IsSpace(s[q - 1]);
      assert e < q;
      assert !ColonAhead(s, j);
      LazyColonTo(s, j + 1, q);
    }
  }

  /** A word run of length `n` at `p`. */
  lemma WordRunAt(s: string, p: nat, n: nat)
    requires p + n < |s|
    requires forall k :: p <= k < p + n ==> IsWordChar(s[k])
    requires !IsWordChar(s[p + n])
    ensures WordEnd(s, p) == p + n
    decreases n
  {
    if n > 0 {
      WordRunAt(s, p + 1, n - 1);
    }
  }

  /** A word with its characters named, as a predicate. */
  predicate IsWord(name: string) {
    name != [] && forall k :: 0 <= k < |name| ==> IsWordChar(name[k])
  }

  /** Text an opener's parameters may hold and still be read back whole:
      one line and no colon. */
  predicate PlainParams(p: string) {
    forall k :: 0 <= k < |p| ==> p[k] != ':' && !IsLineTerminator(p[k])
  }

  /** The opener `%name (params):`. */
  function Opener(name: string, params: string): string {
    "%" + name + " (" + params + "):"
  }

  /** The characters of an opener `%name (params):` with a name of
      length `n` and parameters of length `m`. */
  predicate OpenerShape(s: string, n: nat, m: nat) {
    && 1 <= n && n + m + 5 == |s|
    && s[0] == '%'
    && (forall k :: 1 <= k < 1 + n ==> IsWordChar(s[k]))
    && s[1 + n] == ' ' && s[2 + n] == '('
    && (forall k :: 3 + n <= k < 3 + n + m ==> s[k] != ':' && !IsLineTerminator(s[k]))
    && s[3 + n + m] == ')' && s[4 + n + m] == ':'
  }

  /** The characters of an opener in context. */
  lemma OpenerLayout(c: string, name: string, params: string, rest: string)
    ensures var s, p, n, m := c + Opener(name, params) + rest, |c|, |name|, |params|;
            && |s| == p + n + m + 5 + |rest|
            && s[p] == '%' && s[p + 1..p + 1 + n] == name
            && s[p + 1 + n] == ' ' && s[p + 2 + n] == '('
            && s[p + 3 + n..p + 3 + n + m] == params
            && s[p + 3 + n + m] == ')' && s[p + 4 + n + m] == ':'
            && s[..p] == c && s[p + 5 + n + m..] == rest
  {
    var s, p, n, m := c + Opener(name, params) + rest, |c|, |name|, |params|;
    assert s == c + (Opener(name, params) + rest);
    assert s[p + 1..p + 1 + n] == name;
    assert s[p + 3 + n..p + 3 + n + m] == params;
    assert s[..p] == c;
    assert s[p + 5 + n + m..] == rest;
  }

  /** An opener `%name (params):` at `p`, read on index facts. */
  lemma OpenerAt(s: string, p: nat, n: nat, m: nat)
    requires 1 <= n && p + n + m + 5 <= |s|
    requires s[p] == '%'
    requires forall k :: p + 1 <= k < p + 1 + n ==> IsWordChar(s[k])
    requires s[p + 1 + n] == ' ' && s[p + 2 + n] == '('
    requires forall k :: p + 3 + n <= k < p + 3 + n + m ==> s[k] != ':' && !IsLineTerminator(s[k])
    requires s[p + 3 + n + m] == ')' && s[p + 4 + n + m] == ':'
    requires !At(s, p, "%end")
    ensures MarkerAt(s, p) == Some((p + 5 + n + m, OpenMark))
  {
    WordRunAt(s, p + 1, n);
    assert SpaceEnd(s, p + 2 + n) == p + 2 + n;
    assert SpaceEnd(s, p + 1 + n) == p + 2 + n;
    LazyColonTo(s, p + 2 + n, p + 4 + n + m);
  }

  /** The call pattern at position 0 of an opener `%name (params):`,
      read on index facts. */
  lemma CallAtOpener(s: string, name: string, params: string)
    requires OpenerShape(s, |name|, |params|)
    requires s[1..1 + |name|] == name && s[3 + |name|..3 + |name| + |params|] == params
    ensures BlockCall(s) == Some(Call(name, Some(params)))
  {
    var n, m := |name|, |params|;
    WordRunAt(s, 1, n);
    assert SpaceEnd(s, 2 + n) == 2 + n;
    assert SpaceEnd(s, 1 + n) == 2 + n;
    CloseOnlyAtEnd(s, 3 + n, 3 + n + m);
    assert CallAt(s, 0) == Some(Call(name, Some(params)));
    FindCallHere(s, 0);
  }

  lemma OpenerChars(name: string, params: string)
    requires IsWord(name) && PlainParams(params)
    ensures var s, n, m := Opener(name, params), |name|, |params|;
            && OpenerShape(s, n, m)
            && s[1..1 + n] == name && s[3 + n..3 + n + m] == params
  {
    var s, n, m := Opener(name, params), |name|, |params|;
    assert s[1..1 + n] == name;
    assert s[3 + n..3 + n + m] == params;
    forall k | 1 <= k < 1 + n ensures IsWordChar(s[k]) {
      assert s[k] == name[k - 1];
    }
    forall k | 3 + n <= k < 3 + n + m ensures s[k] != ':' && !IsLineTerminator(s[k]) {
      assert s[k] == params[k - 3 - n];
    }
  }

  /** The call of an opener `%name (params):`: the lazy close stops at
      the last `)`, the only one a colon follows. */
  lemma CallOfOpener(name: string, params: string)
    requires IsWord(name) && PlainParams(params)
    ensures BlockCall(Opener(name, params)) == Some(Call(name, Some(params)))
  {
    OpenerChars(name, params);
    CallAtOpener(Opener(name, params), name, params);
  }

  /** A call at `i` is the leftmost one from `i`. */
  lemma FindCallHere(s: string, i: nat)
    requires i <= |s| && CallAt(s, i).Some?
    ensures FindCall(s, i) == CallAt(s, i)
  {
  }

  lemma {:induction false} CloseOnlyAtEnd(s: string, k: nat, q: nat)
    requires k <= q && q + 1 < |s| && s[q] == ')' && s[q + 1] == ':'
    requires forall j :: k <= j < q ==> s[j] != ':' && !IsLineTerminator(s[j])
    ensures LazyClose(s, k) == Some(q)
    decreases q - k
  {
    assert SpaceEnd(s, q + 1) == q + 1;
    if k < q {
      var e := SpaceEnd(s, k + 1);
      assert !IsSpace(s[q]);
      assert e <= q;
      assert !CloseAt(s, k);
      CloseOnlyAtEnd(s, k + 1, q);
    }
  }

  /** An opener without parentheses and without a colon right after its
      whitespace run, and no other `%` in it, stands for no call: the
      compiler keeps it verbatim. */
  lemma NoCallWithoutParens(raw: string)
    requires |raw| > 0 && raw[0] == '%' && '%' !in raw[1..]
    requires var r := SpaceEnd(raw, WordEnd(raw, 1));
             r < |raw| && raw[r] != '(' && raw[r] != ':'
    ensures BlockCall(raw) == None
  {
    forall k | 0 <= k <= |raw| ensures CallAt(raw, k).None? {
      if 0 < k < |raw| {
        assert raw[k] == raw[1..][k - 1];
      }
    }
  }

  // ---------------------------------------------------------------------
  // Markers in context
  // ---------------------------------------------------------------------

  /** No marker before `p` and one at `p`: that is the leftmost one. */
  lemma {:induction false} FindMarkerFrom(s: string, i: nat, p: nat, e: nat, kind: Kind)
    requires i <= p <= |s|
    requires forall k :: i <= k < p ==> MarkerAt(s, k).None?
    requires MarkerAt(s, p) == Some((e, kind))
    ensures FindMarker(s, i) == Some(Marker(p, e, kind))
    decreases p - i
  {
    if i < p {
      FindMarkerFrom(s, i + 1, p, e, kind);
    }
  }

  /** No marker from `i` on. */
  lemma {:induction false} FindMarkerNone(s: string, i: nat)
    requires i <= |s|
    requires forall k :: i <= k < |s| ==> MarkerAt(s, k).None?
    ensures FindMarker(s, i).None?
    decreases |s| - i
  {
    if i < |s| {
      FindMarkerNone(s, i + 1);
    }
  }

  /** A name the `%end` alternative claims first: `%end (p):` is read as
      `%end` followed by text. */
  predicate EndLike(name: string) {
    |name| >= 3 && name[..3] == "end"
  }

  /** A `%` at `k`. */
  predicate PercentAt(t: string, k: nat)
    requires k < |t|
  {
    t[k] == '%'
  }

  /** Text in which no `%` starts a marker, whatever text follows: no
      `%end`, and every other `%` is followed by a word that ends inside
      the text, on a character that is not whitespace unless the word is
      empty. */
  predicate Plain(t: string) {
    forall k :: 0 <= k < |t| && PercentAt(t, k) ==>
      && !At(t, k, "%end")
      && var w := WordEnd(t, k + 1);
         w < |t| && (w == k + 1 || !IsSpace(t[w]))
  }

  lemma NoPercentPlain(t: string)
    requires '%' !in t
    ensures Plain(t)
  {
  }

  /** A word run that ends inside a prefix ends there in the whole string. */
  lemma {:induction false} WordEndAgree(s: string, t: string, i: nat)
    requires |t| <= |s| && s[..|t|] == t && i <= |t| && WordEnd(t, i) < |t|
    ensures WordEnd(s, i) == WordEnd(t, i)
    decreases |t| - i
  {
    assert s[i] == t[i];
    if IsWordChar(t[i]) {
      WordEndAgree(s, t, i + 1);
    }
  }

  /** `%end` found at `k` with fewer than four characters of the prefix
      left: the prefix ends in a word run. */
  lemma CutEnd(s: string, t: string, k: nat)
    requires |t| <= |s| && s[..|t|] == t && k < |t| < k + 4 && At(s, k, "%end")
    ensures WordEnd(t, k + 1) == |t|
  {
    forall j | k + 1 <= j < |t| ensures IsWordChar(t[j]) {
      assert t[j] == s[j] == s[k..k + 4][j - k];
    }
  }

  /** Before the end of a plain prefix there is no marker. */
  lemma PlainNoMarker(s: string, t: string, k: nat)
    requires Plain(t) && |t| <= |s| && s[..|t|] == t && k < |t|
    ensures MarkerAt(s, k).None?
  {
    assert s[k] == t[k];
    if s[k] == '%' {
      assert PercentAt(t, k);
      var w := WordEnd(t, k + 1);
      if k + 4 <= |t| {
        assert s[k..k + 4] == t[k..k + 4];
      } else if At(s, k, "%end") {
        CutEnd(s, t, k);
      }
      WordEndAgree(s, t, k + 1);
      if w > k + 1 {
        assert s[w] == t[w];
      }
    }
  }

  /** A marker right after plain text `c` is the first one. */
  lemma FirstMarker(s: string, c: string, e: nat, kind: Kind)
    requires Plain(c) && |c| <= |s| && s[..|c|] == c
    requires MarkerAt(s, |c|) == Some((e, kind))
    ensures FindMarker(s, 0) == Some(Marker(|c|, e, kind))
  {
    forall k | 0 <= k < |c| ensures MarkerAt(s, k).None? {
      PlainNoMarker(s, c, k);
    }
    FindMarkerFrom(s, 0, |c|, e, kind);
  }

  /** Plain text holds no marker. */
  lemma PlainNone(d: string)
    requires Plain(d)
    ensures FindMarker(d, 0).None?
  {
    forall k | 0 <= k < |d| ensures MarkerAt(d, k).None? {
      PlainNoMarker(d, d, k);
    }
    FindMarkerNone(d, 0);
  }

  /** `%` and a whole word that is not `end...` does not start `%end`. */
  lemma NotEndAt(raw: string, name: string)
    requires IsWord(name) && !EndLike(name)
    requires |name| + 2 <= |raw| && raw[1..1 + |name|] == name && !IsWordChar(raw[1 + |name|])
    ensures !At(raw, 0, "%end")
  {
    var n := |name|;
    var j :| 0 <= j < 3 && j <= n && (j == n || name[j] != "end"[j]);
    assert j < n ==> raw[1 + j] == name[j];
    assert raw[1 + j] != "%end"[1 + j];
  }

  /** A pattern at `p` is a pattern at the start of the rest. */
  lemma AtSuffix(t: string, p: nat, pat: string)
    requires p <= |t|
    ensures At(t, p, pat) == At(t[p..], 0, pat)
  {
    if p + |pat| <= |t| {
      assert t[p..][0..|pat|] == t[p..p + |pat|];
    }
  }

  /** The characters of `a + "%" + w + b` around its one `%`. */
  lemma PercentWordChars(a: string, w: string, b: string)
    requires '%' !in a && '%' !in b && IsWord(w) && b != []
    ensures var t, p := a + "%" + w + b, |a|;
            && t[p] == '%' && t[p + 1 + |w|] == b[0]
            && (forall k :: p + 1 <= k < p + 1 + |w| ==> IsWordChar(t[k]))
            && (forall k :: 0 <= k < |t| && k != p ==> t[k] != '%')
            && t[p..][1..1 + |w|] == w
  {
    var t, p, n := a + "%" + w + b, |a|, |w|;
    forall k | p + 1 <= k < p + 1 + n ensures IsWordChar(t[k]) {
      assert t[k] == w[k - p - 1];
    }
    forall k | 0 <= k < |t| && k != p ensures t[k] != '%' {
      if k < p {
        assert t[k] == a[k];
      } else if k > p + n {
        assert t[k] == b[k - p - 1 - n];
      } else {
        assert IsWordChar(t[k]);
      }
    }
    assert t[p..][1..1 + n] == w;
  }

  /** A `%` followed by a word that is not `end...` and then by neither
      a word character nor whitespace, in text otherwise free of `%`,
      starts no marker. */
  lemma PercentWordPlain(a: string, w: string, b: string)
    requires '%' !in a && '%' !in b && IsWord(w) && !EndLike(w)
    requires b != [] && !IsWordChar(b[0]) && !IsSpace(b[0])
    ensures Plain(a + "%" + w + b)
  {
    var t, p, n := a + "%" + w + b, |a|, |w|;
    PercentWordChars(a, w, b);
    NotEndAt(t[p..], w);
    AtSuffix(t, p, "%end");
    WordRunAt(t, p + 1, n);
    forall k | 0 <= k < |t| && PercentAt(t, k)
      ensures !At(t, k, "%end") && var e := WordEnd(t, k + 1); e < |t| && (e == k + 1 || !IsSpace(t[e]))
    {
      assert k == p;
    }
  }

  /** An opener copied into `s` at `p` is a marker there. */
  lemma OpenerShift(s: string, p: nat, raw: string, n: nat, m: nat)
    requires OpenerShape(raw, n, m) && !At(raw, 0, "%end")
    requires p + |raw| <= |s| && s[p..p + |raw|] == raw
    ensures MarkerAt(s, p) == Some((p + |raw|, OpenMark))
  {
    SliceChars(s, p, raw);
    assert s[p] == raw[0];
    forall k | p + 1 <= k < p + 1 + n ensures IsWordChar(s[k]) {
      assert s[k] == raw[k - p];
    }
    assert s[p + 1 + n] == raw[1 + n] && s[p + 2 + n] == raw[2 + n];
    forall k | p + 3 + n <= k < p + 3 + n + m ensures s[k] != ':' && !IsLineTerminator(s[k]) {
      assert s[k] == raw[k - p];
    }
    assert s[p + 3 + n + m] == raw[3 + n + m] && s[p + 4 + n + m] == raw[4 + n + m];
    assert s[p..p + 4] == raw[0..4] by {
      forall k | 0 <= k < 4 ensures s[p..p + 4][k] == raw[0..4][k] {
        assert s[p + k] == raw[k];
      }
    }
    OpenerAt(s, p, n, m);
  }

  /** The opener `%name (params):` at `p` of `s` is a marker there. */
  lemma OpenerMarker(s: string, p: nat, name: string, params: string)
    requires IsWord(name) && PlainParams(params) && !EndLike(name)
    requires p + |Opener(name, params)| <= |s| && s[p..p + |Opener(name, params)|] == Opener(name, params)
    ensures MarkerAt(s, p) == Some((p + |Opener(name, params)|, OpenMark))
  {
    OpenerChars(name, params);
    NotEndAt(Opener(name, params), name);
    OpenerShift(s, p, Opener(name, params), |name|, |params|);
  }

  // ---------------------------------------------------------------------
  // Openers without a parameter list
  // ---------------------------------------------------------------------

  /** The text of a bare opener `%name text:`: one line, no colon and no
      `%`, not starting with `(` or whitespace, not ending in whitespace. */
  predicate BareText(t: string) {
    && t != [] && !IsSpace(t[0]) && t[0] != '(' && !IsSpace(t[|t| - 1])
    && forall k :: 0 <= k < |t| ==> t[k] != ':' && t[k] != '%' && !IsLineTerminator(t[k])
  }

  /** The opener `%name text:`, with no parenthesised parameters. */
  function Bare(name: string, text: string): string {
    "%" + name + " " + text + ":"
  }

  /** The characters of a bare opener with a name of length `n` and text
      of length `m`. */
  predicate BareShape(s: string, n: nat, m: nat) {
    && 1 <= n && 1 <= m && n + m + 3 == |s|
    && s[0] == '%'
    && (forall k :: 1 <= k < 1 + n ==> IsWordChar(s[k]))
    && s[1 + n] == ' ' && !IsSpace(s[2 + n]) && s[2 + n] != '('
    && (forall k :: 2 + n <= k < 2 + n + m ==> s[k] != ':' && s[k] != '%' && !IsLineTerminator(s[k]))
    && !IsSpace(s[1 + n + m]) && s[2 + n + m] == ':'
  }

  lemma BareChars(name: string, text: string)
    requires IsWord(name) && BareText(text)
    ensures var s := Bare(name, text);
            BareShape(s, |name|, |text|) && s[1..1 + |name|] == name
  {
    var s, n, m := Bare(name, text), |name|, |text|;
    assert s[1..1 + n] == name;
    forall k | 1 <= k < 1 + n ensures IsWordChar(s[k]) {
      assert s[k] == name[k - 1];
    }
    forall k | 2 + n <= k < 2 + n + m ensures s[k] != ':' && s[k] != '%' && !IsLineTerminator(s[k]) {
      assert s[k] == text[k - 2 - n];
    }
    assert s[2 + n] == text[0] && s[1 + n + m] == text[m - 1];
  }

  /** The marker pattern at `p` on a bare opener's characters: the lazy
      run stops at its only colon. */
  lemma BareAt(s: string, p: nat, n: nat, m: nat)
    requires 1 <= n && 1 <= m && p + n + m + 3 <= |s|
    requires s[p] == '%'
    requires forall k :: p + 1 <= k < p + 1 + n ==> IsWordChar(s[k])
    requires s[p + 1 + n] == ' ' && !IsSpace(s[p + 2 + n])
    requires forall k :: p + 2 + n <= k < p + 2 + n + m ==> s[k] != ':' && !IsLineTerminator(s[k])
    requires !IsSpace(s[p + 1 + n + m]) && s[p + 2 + n + m] == ':'
    requires !At(s, p, "%end")
    ensures MarkerAt(s, p) == Some((p + 3 + n + m, OpenMark))
  {
    WordRunAt(s, p + 1, n);
    assert SpaceEnd(s, p + 2 + n) == p + 2 + n;
    assert SpaceEnd(s, p + 1 + n) == p + 2 + n;
    LazyColonTo(s, p + 2 + n, p + 2 + n + m);
  }

  /** A bare opener copied into `s` at `p` is a marker there. */
  lemma BareShift(s: string, p: nat, raw: string, n: nat, m: nat)
    requires BareShape(raw, n, m) && !At(raw, 0, "%end")
    requires p + |raw| <= |s| && s[p..p + |raw|] == raw
    ensures MarkerAt(s, p) == Some((p + |raw|, OpenMark))
  {
    SliceChars(s, p, raw);
    assert s[p] == raw[0];
    forall k | p + 1 <= k < p + 1 + n ensures IsWordChar(s[k]) {
      assert s[k] == raw[k - p];
    }
    assert s[p + 1 + n] == raw[1 + n] && s[p + 2 + n] == raw[2 + n];
    forall k | p + 2 + n <= k < p + 2 + n + m ensures s[k] != ':' && !IsLineTerminator(s[k]) {
      assert s[k] == raw[k - p];
    }
    assert s[p + 1 + n + m] == raw[1 + n + m] && s[p + 2 + n + m] == raw[2 + n + m];
    assert s[p..p + 4] == raw[0..4] by {
      forall k | 0 <= k < 4 ensures s[p..p + 4][k] == raw[0..4][k] {
        assert s[p + k] == raw[k];
      }
    }
    BareAt(s, p, n, m);
  }

  /** The bare opener `%name text:` at `p` of `s` is a marker there. */
  lemma BareMarker(s: string, p: nat, name: string, text: string)
    requires IsWord(name) && BareText(text) && !EndLike(name)
    requires p + |Bare(name, text)| <= |s| && s[p..p + |Bare(name, text)|] == Bare(name, text)
    ensures MarkerAt(s, p) == Some((p + |Bare(name, text)|, OpenMark))
  {
    BareChars(name, text);
    NotEndAt(Bare(name, text), name);
    BareShift(s, p, Bare(name, text), |name|, |text|);
  }

  /** A bare opener names no call. */
  lemma BareNoCall(name: string, text: string)
    requires IsWord(name) && BareText(text)
    ensures BlockCall(Bare(name, text)) == None
  {
    var raw, n, m := Bare(name, text), |name|, |text|;
    BareChars(name, text);
    forall k | 0 <= k < |raw| - 1 ensures raw[1..][k] != '%' {
      assert raw[1..][k] == raw[k + 1];
    }
    WordRunAt(raw, 1, n);
    assert SpaceEnd(raw, 2 + n) == 2 + n;
    assert SpaceEnd(raw, 1 + n) == 2 + n;
    NoCallWithoutParens(raw);
  }
}
