/** The compiler's directive cases from its test suite, stated on the
    templates themselves. */
module Cases {

  import opened Errors
  import opened Text
  import opened Directives
  import opened Markers
  import opened Resolver
  import opened Compiler

  /** A binding without whitespace. */
  predicate Binding(b: string) {
    b != [] && forall k :: 0 <= k < |b| ==> !IsSpace(b[k])
  }

  /** An array expression with no surrounding whitespace on one line. */
  predicate Source(e: string) {
    e != [] && !IsSpace(e[0]) && !IsSpace(e[|e| - 1]) && NoLineTerminator(e) && ':' !in e
  }

  /** `b in e` holds no colon and no line break. */
  lemma EachParamsPlain(b: string, e: string)
    requires Binding(b) && Source(e) && ':' !in b
    ensures PlainParams(b + " in " + e)
  {
    var p := b + " in " + e;
    forall k | 0 <= k < |p| ensures p[k] != ':' && !IsLineTerminator(p[k]) {
      if k < |b| {
        assert p[k] == b[k];
        LineTerminatorIsSpace(b[k]);
      } else if k >= |b| + 4 {
        assert p[k] == e[k - |b| - 4];
      }
    }
  }

  /** `b in e` is a parameter list `_each` splits back into `b` and `e`. */
  lemma EachParams(b: string, e: string, body: string)
    requires Binding(b) && Source(e) && ':' !in b
    ensures PlainParams(b + " in " + e)
    ensures Dispatch(Call("each", Some(b + " in " + e)), body) == Ok(EachCode(b, e, body))
  {
    EachParamsPlain(b, e);
    EachRoundTrip(b, e, body);
  }

  /** `%each (b in e):` over a body without `%`. */
  lemma EachBlock(c: string, b: string, e: string, body: string, d: string)
    requires EachInputs(c, b, e, body, d)
    ensures Compiled(c + Opener("each", b + " in " + e) + body + "%end" + d) == Ok(c + EachCode(b, e, body) + d)
  {
    NoPercentPlain(c);
    NoPercentPlain(body);
    NoPercentPlain(d);
    EachWord();
    EachParams(b, e, body);
    OneBlockCompiled(c, "each", b + " in " + e, body, d);
  }

  predicate EachInputs(c: string, b: string, e: string, body: string, d: string) {
    '%' !in c && '%' !in body && '%' !in d && Binding(b) && Source(e) && ':' !in b
  }

  lemma EachWord()
    ensures IsWord("each") && !EndLike("each")
  {
    assert "each"[..3][1] == 'a';
  }

  /** Output placed between the text around a block, regrouped. */
  lemma Around(c: string, x: string, body: string, y: string, d: string)
    ensures c + (x + body + y) + d == c + x + body + y + d
  {
    AppendAssoc(c, x + body, y);
    AppendAssoc(c, x, body);
  }

  /** The opener and the inputs of the `%each` case. */
  lemma EachCaseParts()
    ensures "%each (i in array):" == Opener("each", "i" + " in " + "array")
    ensures EachInputs("<foo>", "i", "array", "<bar></bar>", "</foo>")
  {
  }

  /** The output the `%each` case expects, as `_each` builds it. */
  lemma EachCaseOut(body: string)
    ensures EachCode("i", "array", body) == "${array.map(function (i) {\nreturn (`" + body + "`)}).join(`\\n`)}"
  {
    assert "${" + "array" + ".map(function (" + "i" + ") {\nreturn (`" == "${array.map(function (i) {\nreturn (`";
  }

  /** `%each (i in array):` maps the array with a function of `i`: the
      first case of the suite, with its template split at the markers. */
  lemma EachCase()
    ensures Compiled("<foo>" + "%each (i in array):" + "<bar></bar>" + "%end" + "</foo>")
            == Ok("<foo>" + "${array.map(function (i) {\nreturn (`" + "<bar></bar>" + "`)}).join(`\\n`)}" + "</foo>")
  {
    EachCaseParts();
    EachCaseOut("<bar></bar>");
    Around("<foo>", "${array.map(function (i) {\nreturn (`", "<bar></bar>", "`)}).join(`\\n`)}", "</foo>");
    EachBlock("<foo>", "i", "array", "<bar></bar>", "</foo>");
  }

  // ---------------------------------------------------------------------
  // Conditional blocks
  // ---------------------------------------------------------------------

  /** `_if` is found for the name `if` and gets the condition as written. */
  lemma IfDispatch(expr: string, body: string)
    requires NoLineTerminator(expr)
    ensures Dispatch(Call("if", Some(expr)), body) == Ok(If(expr, body))
  {
  }

  /** A branch, then an optional `%else:` and its branch, none with a `%`
      of its own. */
  predicate IfInputs(c: string, expr: string, first: string, otherwise: Option<string>, d: string) {
    && '%' !in c && '%' !in first && '%' !in d && PlainParams(expr)
    && (otherwise.Some? ==> '%' !in otherwise.value)
  }

  lemma IfWords()
    ensures IsWord("if") && !EndLike("if")
    ensures IsWord("else") && !EndLike("else")
  {
    assert "else"[..3][1] == 'l';
  }

  /** A body with at most a plain `%else:` holds no compiler marker. */
  lemma IfBodyPlain(first: string, otherwise: Option<string>)
    requires '%' !in first && (otherwise.Some? ==> '%' !in otherwise.value)
    ensures Plain(first + ChainTail([], otherwise))
  {
    if otherwise.Some? {
      var x := otherwise.value;
      IfWords();
      PercentWordPlain(first, "else", ":" + x);
      assert "%else:" + x == "%" + "else" + (":" + x);
      AppendAssoc(first, "%" + "else", ":" + x);
      AppendAssoc(first, "%", "else");
    } else {
      assert first + ChainTail([], otherwise) == first;
      NoPercentPlain(first);
    }
  }

  /** `%if (expr):` over a branch and an optional `%else:` branch: the
      block becomes the ternary `${expr?`first`:`otherwise`}`, with an
      empty alternative when there is no `%else`. */
  lemma IfBlock(c: string, expr: string, first: string, otherwise: Option<string>, d: string)
    requires IfInputs(c, expr, first, otherwise, d)
    ensures Compiled(c + Opener("if", expr) + (first + ChainTail([], otherwise)) + "%end" + d)
            == Ok(c + ("${" + expr + "?" + ChainCode(first, [], otherwise)) + d)
  {
    var body := first + ChainTail([], otherwise);
    NoPercentPlain(c);
    NoPercentPlain(d);
    IfBodyPlain(first, otherwise);
    IfWords();
    OneBlockCompiled(c, "if", expr, body, d);
    IfDispatch(expr, body);
    IfChain(expr, first, [], otherwise);
  }

  /** The inputs and the branches of the two conditional cases. */
  lemma IfCaseParts()
    ensures "%if (!1):" == Opener("if", "!1")
    ensures IfInputs("<foo>", "!1", "<bar></bar>", None, "</foo>")
    ensures IfInputs("<foo>", "!1", "<bar></bar>", Some("<baz></baz>"), "</foo>")
    ensures "<bar></bar>" + ChainTail([], None) == "<bar></bar>"
  {
  }

  /** The output the `%if` case expects, as `_if` builds it. */
  lemma IfCaseOut()
    ensures "${" + "!1" + "?" + ChainCode("<bar></bar>", [], None) == "${!1?`<bar></bar>`:``}"
  {
    TrimIdle("<bar></bar>");
  }

  /** The two branches of the `%if`/`%else` case, quoted. */
  lemma IfElseBranches()
    ensures ChainCode("<bar></bar>", [], Some("<baz></baz>")) == "`<bar></bar>`:" + "`<baz></baz>`}"
  {
    TrimIdle("<bar></bar>");
    TrimIdle("<baz></baz>");
  }

  /** The output the `%if`/`%else` case expects, as `_if` builds it,
      split after the first alternative. */
  lemma IfElseCaseOut()
    ensures "${" + "!1" + "?" + ChainCode("<bar></bar>", [], Some("<baz></baz>")) == "${!1?`<bar></bar>`:" + "`<baz></baz>`}"
  {
    IfElseBranches();
    AppendAssoc("${" + "!1" + "?", "`<bar></bar>`:", "`<baz></baz>`}");
    assert "${" + "!1" + "?" + "`<bar></bar>`:" == "${!1?`<bar></bar>`:";
  }

  /** The body of the `%if`/`%else` case is a branch and an `%else` arm. */
  lemma IfElseCaseBody()
    ensures "<bar></bar>" + "%else:" + "<baz></baz>" == "<bar></bar>" + ChainTail([], Some("<baz></baz>"))
  {
    AppendAssoc("<bar></bar>", "%else:", "<baz></baz>");
  }

  /** `%if (!1):` without `%else`: the second case of the suite. */
  lemma IfCase()
    ensures Compiled("<foo>" + "%if (!1):" + "<bar></bar>" + "%end" + "</foo>")
            == Ok("<foo>" + "${!1?`<bar></bar>`:``}" + "</foo>")
  {
    IfCaseParts();
    IfCaseOut();
    IfBlock("<foo>", "!1", "<bar></bar>", None, "</foo>");
  }

  /** `%if (!1):` with `%else:`: the third case of the suite. */
  lemma IfElseCase()
    ensures Compiled("<foo>" + "%if (!1):" + ("<bar></bar>" + "%else:" + "<baz></baz>") + "%end" + "</foo>")
            == Ok("<foo>" + ("${!1?`<bar></bar>`:" + "`<baz></baz>`}") + "</foo>")
  {
    IfCaseParts();
    IfElseCaseBody();
    IfElseCaseOut();
    IfBlock("<foo>", "!1", "<bar></bar>", Some("<baz></baz>"), "</foo>");
  }

  // ---------------------------------------------------------------------
  // Errors
  // ---------------------------------------------------------------------

  /** The pieces of the typo case. */
  lemma TypoParts()
    ensures "%eac (x in [1,2 3]):" == Opener("eac", "x in [1,2 3]")
    ensures IsWord("eac") && PlainParams("x in [1,2 3]") && !EndLike("eac") && !Inherited("eac")
    ensures Plain("<foo>") && Plain("<bar></bar>") && Plain("</foo>")
  {
    assert "eac"[..3][1] == 'a';
    NoPercentPlain("<foo>");
    NoPercentPlain("<bar></bar>");
    NoPercentPlain("</foo>");
  }

  /** A misspelt directive name is a syntax error naming it: the last
      case of the suite. */
  lemma TypoCase()
    ensures Compiled("<foo>" + "%eac (x in [1,2 3]):" + "<bar></bar>" + "%end" + "</foo>") == Err(SyntaxError("eac"))
  {
    TypoParts();
    UnknownDirective("<foo>", "eac", "x in [1,2 3]", "<bar></bar>", "</foo>");
  }

  /** `%each` around `%if` closed by `%end%end%end`: once both
      directives have run, the third `%end` has nothing to close. */
  lemma ExcessEachIf(c: string, b: string, e: string, b1: string, expr: string, b2: string, d: string)
    requires EachInputs(c, b, e, b1, d) && '%' !in b2 && PlainParams(expr)
    ensures Compiled(c + Opener("each", b + " in " + e) + b1 + Opener("if", expr) + b2 + "%end" + "%end" + "%end" + d)
            == Err(SyntaxError("%end"))
  {
    var p1 := b + " in " + e;
    NoPercentPlain(c);
    NoPercentPlain(b1);
    NoPercentPlain(b2);
    NoPercentPlain(d);
    NoPercentPlain("");
    EachWord();
    IfWords();
    IfDispatch(expr, b2);
    var o2 := If(expr, b2);
    EachParams(b, e, b1 + o2 + "");
    ExcessEndCompiled(c, "each", p1, b1, "if", expr, b2, "", "", d);
    Adjacent(c + Opener("each", p1) + b1 + Opener("if", expr) + b2, d);
  }

  /** `%end` markers with nothing between them. */
  lemma Adjacent(x: string, d: string)
    ensures x + "%end" + "" + "%end" + "" + "%end" + d == x + "%end" + "%end" + "%end" + d
  {
  }

  /** `%each` around `%if` closed by one `%end`: the `%each` opener is
      left open. */
  lemma MissingEachIf(c: string, b: string, e: string, b1: string, expr: string, b2: string, d: string)
    requires EachInputs(c, b, e, b1, d) && '%' !in b2 && PlainParams(expr)
    ensures Compiled(c + Opener("each", b + " in " + e) + b1 + Opener("if", expr) + b2 + "%end" + d)
            == Err(SyntaxError(Opener("each", b + " in " + e)))
  {
    NoPercentPlain(c);
    NoPercentPlain(b1);
    NoPercentPlain(b2);
    NoPercentPlain(d);
    EachWord();
    IfWords();
    EachParamsPlain(b, e);
    IfDispatch(expr, b2);
    MissingEndCompiled(c, "each", b + " in " + e, b1, "if", expr, b2, d);
  }

  /** The openers of the two unbalanced cases. */
  lemma NestedCaseParts()
    ensures "%each (j in array):" == Opener("each", "j" + " in " + "array")
    ensures "%if (!0):" == Opener("if", "!0")
    ensures EachInputs("<foo>", "j", "array", "<bar></bar>", "</foo>")
    ensures '%' !in "<baz></baz>" && PlainParams("!0")
  {
  }

  /** `%each` around `%if` with only one `%end`: a syntax error naming the
      unclosed `%each` opener. */
  lemma MissingEndCase()
    ensures Compiled("<foo>" + "%each (j in array):" + "<bar></bar>" + "%if (!0):" + "<baz></baz>" + "%end" + "</foo>")
            == Err(SyntaxError("%each (j in array):"))
  {
    NestedCaseParts();
    MissingEachIf("<foo>", "j", "array", "<bar></bar>", "!0", "<baz></baz>", "</foo>");
  }

  /** `%each` around `%if` with three `%end` markers: a syntax error
      naming `%end`. */
  lemma ExcessEndCase()
    ensures Compiled("<foo>" + "%each (j in array):" + "<bar></bar>" + "%if (!0):" + "<baz></baz>" + "%end" + "%end" + "%end" + "</foo>")
            == Err(SyntaxError("%end"))
  {
    NestedCaseParts();
    ExcessEachIf("<foo>", "j", "array", "<bar></bar>", "!0", "<baz></baz>", "</foo>");
  }
  /** `%if :` has no parameter list, yet the call pattern still reads a
      call to `if`, and `_if` prints `undefined` as its condition. */
  lemma IfWithoutParams(body: string)
    ensures BlockCall("%if :") == Some(Call("if", None))
    ensures Apply("%if :", body) == Ok(If("undefined", body))
  {
    var s := "%if :";
    assert WordEnd(s, 3) == 3;
    assert WordEnd(s, 1) == 3;
    assert SpaceEnd(s, 4) == 4;
    assert SpaceEnd(s, 3) == 4;
    assert ColonAhead(s, 4);
    assert s[1..3] == "if";
  }
}
