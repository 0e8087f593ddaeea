/** The text side of `generate`: the escaping of the template, the
    observed-attribute list, the placeholder substitutions into the
    skeleton of the custom-element definition, and the gathering of the
    inline scripts. The DOM is abstracted to a record per top-level
    element. */
module Generator {

  import opened Errors
  import opened Text
  import opened Positions
  import opened Compiler
  import opened Replace

  // ---------------------------------------------------------------------
  // Backticks
  // ---------------------------------------------------------------------

  /** `html.replace(/`/g, '\\`')`: a backslash before every backtick, so
      the markup can sit inside a template literal. */
  function Escape(s: string): (r: string)
    decreases |s|
  {
    if s == [] then [] else (if s[0] == '`' then "\\`" else [s[0]]) + Escape(s[1..])
  }

  /** Undo `Escape`: each backslash-backtick pair stands for a backtick. */
  function Unescape(s: string): string
    decreases |s|
  {
    if |s| >= 2 && s[0] == '\\' && s[1] == '`' then "`" + Unescape(s[2..])
    else if s == [] then []
    else [s[0]] + Unescape(s[1..])
  }

  /** Escaped text never starts with a backtick. */
  lemma EscapeHead(s: string)
    ensures Escape(s) == [] || Escape(s)[0] != '`'
  {
  }

  /** Escaping loses nothing. */
  lemma {:induction false} EscapeRoundTrip(s: string)
    ensures Unescape(Escape(s)) == s
    decreases |s|
  {
    if s != [] {
      EscapeRoundTrip(s[1..]);
      var t := Escape(s[1..]);
      EscapeHead(s[1..]);
      if s[0] == '`' {
        assert Escape(s) == "\\`" + t;
        assert Escape(s)[2..] == t;
      } else {
        assert Escape(s) == [s[0]] + t;
        assert Escape(s)[1..] == t;
        assert s[0] == '\\' ==> !(|Escape(s)| >= 2 && Escape(s)[1] == '`');
      }
      assert s == [s[0]] + s[1..];
    }
  }

  /** The escaped text grows by one character per backtick. */
  lemma {:induction false} EscapeLength(s: string)
    ensures |Escape(s)| == |s| + Count(s, '`')
    decreases |s|
  {
    if s != [] {
      EscapeLength(s[1..]);
      assert s == [s[0]] + s[1..];
      assert multiset(s) == multiset([s[0]]) + multiset(s[1..]);
    }
  }

  /** Every backtick of the escaped text has a backslash before it. */
  lemma {:induction false} EscapeGuards(s: string)
    ensures var r := Escape(s);
            forall k :: 0 <= k < |r| && r[k] == '`' ==> 0 < k && r[k - 1] == '\\'
    decreases |s|
  {
    if s != [] {
      EscapeGuards(s[1..]);
      EscapeHead(s[1..]);
      var t := Escape(s[1..]);
      var h := if s[0] == '`' then "\\`" else [s[0]];
      var r := h + t;
      assert Escape(s) == r;
      forall k | 0 <= k < |r| && r[k] == '`' ensures 0 < k && r[k - 1] == '\\' {
        if k > |h| {
          assert r[k] == t[k - |h|];
          assert r[k - 1] == t[k - 1 - |h|];
        }
      }
    }
  }

  // ---------------------------------------------------------------------
  // Observed attributes
  // ---------------------------------------------------------------------

  /** The separator `,\s*|\s+` tried at `q`: a comma and the whitespace
      after it, or a run of whitespace; the end of the match. */
  function SeparatorAt(s: string, q: nat): (r: Option<nat>)
    requires q < |s|
    ensures r.Some? ==> q < r.value <= |s|
  {
    if s[q] == ',' then Some(SpaceEnd(s, q + 1))
    else if IsSpace(s[q]) then Some(SpaceEnd(s, q))
    else None
  }

  /** `s.split(/,\s*|\s+/)` with the current piece starting at `p` and
      the separator tried at `q`. */
  function SplitFrom(s: string, p: nat, q: nat): seq<string>
    requires p <= q <= |s|
    decreases |s| - q
  {
    if q == |s| then [s[p..]]
    else
      match SeparatorAt(s, q)
      case None => SplitFrom(s, p, q + 1)
      case Some(e) => [s[p..q]] + SplitFrom(s, e, e)
  }

  /** `observe.split(/,\s*|\s+/)`. */
  function SplitObserve(s: string): seq<string> {
    SplitFrom(s, 0, 0)
  }

  /** An attribute name the split keeps whole: no comma, no whitespace. */
  predicate Name(t: string) {
    forall k :: 0 <= k < |t| ==> t[k] != ',' && !IsSpace(t[k])
  }

  /** The pieces of a split are names. */
  lemma {:induction false} SplitFromNames(s: string, p: nat, q: nat)
    requires p <= q <= |s|
    requires forall k :: p <= k < q ==> s[k] != ',' && !IsSpace(s[k])
    ensures forall k :: 0 <= k < |SplitFrom(s, p, q)| ==> Name(SplitFrom(s, p, q)[k])
    decreases |s| - q
  {
    if q < |s| {
      match SeparatorAt(s, q)
      case None =>
        SplitFromNames(s, p, q + 1);
      case Some(e) =>
        SplitFromNames(s, e, e);
        var rest := SplitFrom(s, e, e);
        assert Name(s[p..q]) by {
          forall k | 0 <= k < q - p ensures s[p..q][k] != ',' && !IsSpace(s[p..q][k]) {
            assert s[p..q][k] == s[p + k];
          }
        }
        assert forall k :: 0 < k < |rest| + 1 ==> ([s[p..q]] + rest)[k] == rest[k - 1];
    } else {
      assert Name(s[p..]) by {
        forall k | 0 <= k < |s| - p ensures s[p..][k] != ',' && !IsSpace(s[p..][k]) {
          assert s[p..][k] == s[p + k];
        }
      }
    }
  }

  /** The split leaves no comma and no whitespace in any piece. */
  lemma SplitNames(s: string)
    ensures forall k :: 0 <= k < |SplitObserve(s)| ==> Name(SplitObserve(s)[k])
  {
    SplitFromNames(s, 0, 0);
  }

  /** A separator the split reads whole: a comma and optional
      whitespace, or whitespace alone. */
  predicate Separator(sep: string) {
    && sep != []
    && (sep[0] == ',' || IsSpace(sep[0]))
    && forall k :: 1 <= k < |sep| ==> IsSpace(sep[k])
  }

  /** Names joined by `sep`. */
  function Join(names: seq<string>, sep: string): string
    requires |names| > 0
    decreases |names|
  {
    if |names| == 1 then names[0] else names[0] + sep + Join(names[1..], sep)
  }

  /** The first character of joined names is that of the first name. */
  lemma JoinHead(names: seq<string>, sep: string)
    requires |names| > 0 && names[0] != []
    ensures Join(names, sep) != [] && Join(names, sep)[0] == names[0][0]
  {
  }

  /** Name characters never start a separator. */
  lemma {:induction false} SplitSkip(s: string, p: nat, q: nat, j: nat)
    requires p <= q <= j <= |s|
    requires forall k :: q <= k < j ==> s[k] != ',' && !IsSpace(s[k])
    ensures SplitFrom(s, p, q) == SplitFrom(s, p, j)
    decreases j - q
  {
    if q < j {
      SplitSkip(s, p, q + 1, j);
    }
  }

  /** A separator at `j` ends there and the next piece follows it. */
  lemma SeparatorEnds(s: string, j: nat, sep: string)
    requires j + |sep| <= |s| && s[j..j + |sep|] == sep && Separator(sep)
    requires j + |sep| == |s| || (s[j + |sep|] != ',' && !IsSpace(s[j + |sep|]))
    ensures SeparatorAt(s, j) == Some(j + |sep|)
  {
    var e := j + |sep|;
    assert s[j] == sep[0];
    assert SpaceBetween(s, j + 1, e) by {
      forall k | j + 1 <= k < e ensures IsSpace(s[k]) {
        assert s[k] == s[j..e][k - j];
      }
    }
    SpaceEndAt(s, j + 1, e);
    if sep[0] != ',' {
      SpaceEndAt(s, j, e);
    }
  }

  /** Names joined by a separator split back into the names. */
  lemma {:induction false} SplitJoinAt(s: string, p: nat, names: seq<string>, sep: string)
    requires p <= |s| && |names| > 0 && Separator(sep)
    requires forall k :: 0 <= k < |names| ==> names[k] != [] && Name(names[k])
    requires s[p..] == Join(names, sep)
    ensures SplitFrom(s, p, p) == names
    decreases |names|
  {
    var n0 := names[0];
    var j := p + |n0|;
    assert s[p..j] == n0 by {
      assert Join(names, sep)[..|n0|] == n0;
    }
    forall k | p <= k < j ensures s[k] != ',' && !IsSpace(s[k]) {
      assert s[k] == s[p..j][k - p];
    }
    SplitSkip(s, p, p, j);
    if |names| == 1 {
      assert j == |s|;
    } else {
      var rest := names[1..];
      var e := j + |sep|;
      assert s[p..] == n0 + sep + Join(rest, sep);
      assert s[j..e] == sep;
      assert s[e..] == Join(rest, sep);
      JoinHead(rest, sep);
      assert s[e] == s[e..][0] == rest[0][0];
      assert Name(rest[0]);
      SeparatorEnds(s, j, sep);
      SplitJoinAt(s, e, rest, sep);
      assert names == [n0] + rest;
    }
  }

  /** The attribute split undoes a join: `observe="height, width"` lists
      `height` and `width`. */
  lemma SplitJoin(names: seq<string>, sep: string)
    requires |names| > 0 && Separator(sep)
    requires forall k :: 0 <= k < |names| ==> names[k] != [] && Name(names[k])
    ensures SplitObserve(Join(names, sep)) == names
  {
    var s := Join(names, sep);
    assert s[0..] == s;
    SplitJoinAt(s, 0, names, sep);
  }

  // ---------------------------------------------------------------------
  // JSON
  // ---------------------------------------------------------------------

  /** A lower-case hexadecimal digit. */
  function HexDigit(n: nat): char
    requires n < 16
  {
    if n < 10 then ('0' as int + n) as char else ('a' as int + n - 10) as char
  }

  /** The value of a hexadecimal digit, either case. */
  function HexValue(c: char): (r: Option<nat>)
    ensures r.Some? ==> r.value < 16
  {
    if '0' <= c <= '9' then Some(c as int - '0' as int)
    else if 'a' <= c <= 'f' then Some(c as int - 'a' as int + 10)
    else if 'A' <= c <= 'F' then Some(c as int - 'A' as int + 10)
    else None
  }

  lemma HexDigitValue(n: nat)
    requires n < 16
    ensures HexValue(HexDigit(n)) == Some(n)
  {
  }

  /** One character of `JSON.stringify` on a string (section 25.5.2.2 of
      ECMA-262, QuoteJSONString): the seven short escapes, `\u00XX` for
      the other control characters, the character itself otherwise. */
  function QuoteChar(c: char): string {
    if c == '\U{0008}' then "\\b"
    else if c == '\t' then "\\t"
    else if c == '\n' then "\\n"
    else if c == '\U{000C}' then "\\f"
    else if c == '\r' then "\\r"
    else if c == '"' then "\\\""
    else if c == '\\' then "\\\\"
    else if c < ' ' then "\\u00" + [HexDigit(c as int / 16), HexDigit(c as int % 16)]
    else [c]
  }

  /** The characters of a string between the quotes. */
  function QuoteChars(s: string): string
    decreases |s|
  {
    if s == [] then [] else QuoteChar(s[0]) + QuoteChars(s[1..])
  }

  /** `JSON.stringify` of a string. */
  function Quote(s: string): string {
    "\"" + QuoteChars(s) + "\""
  }

  /** The items of a JSON array of strings, without the brackets. */
  function QuoteItems(xs: seq<string>): string
    decreases |xs|
  {
    if |xs| == 0 then ""
    else if |xs| == 1 then Quote(xs[0])
    else Quote(xs[0]) + "," + QuoteItems(xs[1..])
  }

  /** `JSON.stringify` of an array of strings. */
  function JsonList(xs: seq<string>): string {
    "[" + QuoteItems(xs) + "]"
  }

  /** The character a short escape `\e` stands for. */
  function ShortEscape(e: char): Option<char> {
    if e == 'b' then Some('\U{0008}')
    else if e == 't' then Some('\t')
    else if e == 'n' then Some('\n')
    else if e == 'f' then Some('\U{000C}')
    else if e == 'r' then Some('\r')
    else if e == '"' then Some('"')
    else if e == '\\' then Some('\\')
    else if e == '/' then Some('/')
    else None
  }

  /** The character of the four hexadecimal digits of a `\uXXXX` escape. */
  function UnicodeEscape(h: string): Option<char>
    requires |h| == 4
  {
    match (HexValue(h[0]), HexValue(h[1]), HexValue(h[2]), HexValue(h[3]))
    case (Some(a), Some(b), Some(c), Some(d)) =>
      var n := ((a * 16 + b) * 16 + c) * 16 + d;
      if 0xD800 <= n < 0xE000 then None else Some(n as char)
    case _ => None
  }

  /** `JSON.parse` of the inside of a string: the characters up to the
      closing quote, and what follows that quote. */
  function ParseChars(t: string): (r: Option<(string, string)>)
    ensures r.Some? ==> |r.value.1| < |t|
    decreases |t|
  {
    if t == [] || t[0] < ' ' then None
    else if t[0] == '"' then Some(([], t[1..]))
    else if t[0] != '\\' then
      match ParseChars(t[1..])
      case None => None
      case Some((u, rest)) => Some(([t[0]] + u, rest))
    else if |t| == 1 then None
    else if t[1] == 'u' then
      if |t| < 6 then None
      else
        match UnicodeEscape(t[2..6])
        case None => None
        case Some(c) =>
          match ParseChars(t[6..])
          case None => None
          case Some((u, rest)) => Some(([c] + u, rest))
    else
      match ShortEscape(t[1])
      case None => None
      case Some(c) =>
        match ParseChars(t[2..])
        case None => None
        case Some((u, rest)) => Some(([c] + u, rest))
  }

  /** The result of reading `c` and then the rest of a string. */
  function PrependChar(c: char, r: Option<(string, string)>): Option<(string, string)> {
    match r
    case None => None
    case Some((u, rest)) => Some(([c] + u, rest))
  }

  /** The characters the quoting writes with a short escape. */
  predicate ShortQuoted(c: char) {
    c == '\U{0008}' || c == '\t' || c == '\n' || c == '\U{000C}' || c == '\r' || c == '"' || c == '\\'
  }

  /** A short escape reads back as its character. */
  lemma ParseShort(c: char, t: string)
    requires ShortQuoted(c)
    ensures ParseChars(QuoteChar(c) + t) == PrependChar(c, ParseChars(t))
  {
    var w := QuoteChar(c) + t;
    assert w[2..] == t;
  }

  /** A `\u00XX` escape reads back as its control character. */
  lemma ParseControl(c: char, t: string)
    requires c < ' ' && !ShortQuoted(c)
    ensures ParseChars(QuoteChar(c) + t) == PrependChar(c, ParseChars(t))
  {
    var w := QuoteChar(c) + t;
    assert w[6..] == t;
    HexDigitValue(c as int / 16);
    HexDigitValue(c as int % 16);
    HexDigitValue(0);
    assert UnicodeEscape(w[2..6]) == Some(c);
  }

  /** A character the quoting keeps reads back as itself. */
  lemma ParsePlain(c: char, t: string)
    requires !(c < ' ') && !ShortQuoted(c)
    ensures ParseChars(QuoteChar(c) + t) == PrependChar(c, ParseChars(t))
  {
    var w := QuoteChar(c) + t;
    assert w[1..] == t;
  }

  /** One quoted character reads back as itself. */
  lemma ParseQuoteChar(c: char, t: string)
    ensures ParseChars(QuoteChar(c) + t) == PrependChar(c, ParseChars(t))
  {
    if ShortQuoted(c) {
      ParseShort(c, t);
    } else if c < ' ' {
      ParseControl(c, t);
    } else {
      ParsePlain(c, t);
    }
  }

  /** A quoted string's characters and closing quote read back as the
      string, leaving what follows. */
  lemma {:induction false} ParseQuoted(s: string, t: string)
    ensures ParseChars(QuoteChars(s) + "\"" + t) == Some((s, t))
    decreases |s|
  {
    var w := QuoteChars(s) + "\"" + t;
    if s == [] {
      assert w == "\"" + t;
      assert w[1..] == t;
    } else {
      var t' := QuoteChars(s[1..]) + "\"" + t;
      assert w == QuoteChar(s[0]) + t';
      ParseQuoted(s[1..], t);
      ParseQuoteChar(s[0], t');
      assert [s[0]] + s[1..] == s;
    }
  }

  /** `JSON.parse` of the items of an array of strings, and what follows
      the last one. */
  function ParseItems(t: string): (r: Option<(seq<string>, string)>)
    ensures r.Some? ==> |r.value.1| < |t|
    decreases |t|
  {
    if t == [] || t[0] != '"' then None
    else
      match ParseChars(t[1..])
      case None => None
      case Some((u, rest)) =>
        if rest != [] && rest[0] == ',' then
          match ParseItems(rest[1..])
          case None => None
          case Some((us, rest')) => Some(([u] + us, rest'))
        else Some(([u], rest))
  }

  /** `JSON.parse` of an array of strings. */
  function ParseList(t: string): Option<seq<string>> {
    if |t| < 2 || t[0] != '[' then None
    else if t[1..] == "]" then Some([])
    else
      match ParseItems(t[1..])
      case Some((xs, rest)) => if rest == "]" then Some(xs) else None
      case None => None
  }

  /** One quoted item read back, with what follows it. */
  lemma ParseItem(x: string, t: string)
    ensures var w := Quote(x) + t;
            w != [] && w[0] == '"' && ParseChars(w[1..]) == Some((x, t))
  {
    var w := Quote(x) + t;
    assert w[1..] == QuoteChars(x) + "\"" + t;
    ParseQuoted(x, t);
  }

  /** After one quoted item the reading goes on past a comma and stops
      at anything else. */
  lemma ParseItemsStep(x: string, t: string)
    ensures ParseItems(Quote(x) + t) ==
              if t != [] && t[0] == ',' then
                match ParseItems(t[1..])
                case None => None
                case Some((us, rest)) => Some(([x] + us, rest))
              else Some(([x], t))
  {
    ParseItem(x, t);
  }

  lemma QuoteItemsFront(xs: seq<string>, t: string)
    requires |xs| > 1
    ensures QuoteItems(xs) + t == Quote(xs[0]) + ("," + (QuoteItems(xs[1..]) + t))
  {
    var q, w := Quote(xs[0]), QuoteItems(xs[1..]);
    assert QuoteItems(xs) == q + "," + w;
    AppendAssoc(q + ",", w, t);
    AppendAssoc(q, ",", w + t);
  }

  /** Quoted items read back as the strings, up to a character that is
      not a comma. */
  lemma {:induction false} ParseQuotedItems(xs: seq<string>, t: string)
    requires |xs| > 0
    requires t == [] || t[0] != ','
    ensures ParseItems(QuoteItems(xs) + t) == Some((xs, t))
    decreases |xs|
  {
    if |xs| == 1 {
      ParseItemsStep(xs[0], t);
      assert [xs[0]] == xs;
    } else {
      var u := QuoteItems(xs[1..]) + t;
      QuoteItemsFront(xs, t);
      ParseItemsStep(xs[0], "," + u);
      assert ("," + u)[1..] == u;
      ParseQuotedItems(xs[1..], t);
      assert [xs[0]] + xs[1..] == xs;
    }
  }

  /** `JSON.parse` undoes `JSON.stringify` on a list of strings. */
  lemma JsonRoundTrip(xs: seq<string>)
    ensures ParseList(JsonList(xs)) == Some(xs)
  {
    var t := JsonList(xs);
    assert t[1..] == QuoteItems(xs) + "]";
    if |xs| > 0 {
      ParseQuotedItems(xs, "]");
    }
  }

  // ---------------------------------------------------------------------
  // The skeleton
  // ---------------------------------------------------------------------

  /** The placeholders of the skeleton, in the order they appear. */
  function Placeholders(): seq<string> {
    ["%NAME", "%CLASS", "%ATTR", "%JS", "%HTML"]
  }

  /** The fixed text of the skeleton around its placeholders; the last
      part carries the render call's second argument, `!!options.scoped`. */
  function SkeletonParts(scoped: bool): seq<string> {
    [ "window.customElements.define(\n'",
      "',\nclass extends ",
      " {\n",
      "\nconstructor () {\nsuper()\n",
      "\nthis._render(`",
      "`, " + (if scoped then "true" else "false") + ")\n}\n}\n)\n" ]
  }

  /** The custom-element definition before any substitution. */
  function Snippet(scoped: bool): string {
    Weave(SkeletonParts(scoped), Placeholders())
  }

  /** The fixed text of the `observedAttributes` getter around its
      placeholder. */
  function AttrParts(): seq<string> {
    ["static get observedAttributes () {\nreturn ", "\n}"]
  }

  /** The getter before substitution. */
  function AttrTemplate(): string {
    Weave(AttrParts(), ["%ATTR"])
  }

  /** The text the `%ATTR` slot receives: the getter returning the JSON
      list of observed attributes, or nothing when `observe` is absent or
      empty. */
  function AttrText(observe: Option<string>): string {
    if observe.None? || observe.value == [] then []
    else ReplaceAll(AttrTemplate(), "%ATTR", JsonList(SplitObserve(observe.value)))
  }

  /** `options.classname || classname`: the given base class, or the
      runtime's `Undertone` when none or an empty one is given. */
  function ClassName(classname: Option<string>): (r: string)
    ensures r != []
  {
    if classname.Some? && classname.value != [] then classname.value else "Undertone"
  }

  /** The three global substitutions made on the snippet for an element:
      its name, the base class and the observed attributes. */
  function FillHead(snippet: string, name: string, cls: string, attr: string): string {
    ReplaceAll(ReplaceAll(ReplaceAll(snippet, "%NAME", name), "%CLASS", cls), "%ATTR", attr)
  }

  /** The two first-occurrence substitutions that give the code: the
      markup, then the scripts. */
  function FillBody(snippet: string, html: string, js: string): string {
    ReplaceFirst(ReplaceFirst(snippet, "%HTML", html), "%JS", js)
  }

  /** The skeleton with its slots filled, spelled out. */
  lemma SkeletonText(scoped: bool, name: string, cls: string, attr: string, js: string, html: string)
    ensures Weave(SkeletonParts(scoped), [name, cls, attr, js, html])
            == "window.customElements.define(\n'" + (name + ("',\nclass extends " + (cls + (" {\n" + (attr
               + ("\nconstructor () {\nsuper()\n" + (js + ("\nthis._render(`" + (html
               + ("`, " + (if scoped then "true" else "false") + ")\n}\n}\n)\n"))))))))))
  {
    var p := SkeletonParts(scoped);
    var sl := [name, cls, attr, js, html];
    assert Weave(p[5..], sl[5..]) == p[5];
    assert Weave(p[4..], sl[4..]) == p[4] + (html + p[5]);
    assert Weave(p[3..], sl[3..]) == p[3] + (js + Weave(p[4..], sl[4..]));
    assert Weave(p[2..], sl[2..]) == p[2] + (attr + Weave(p[3..], sl[3..]));
    assert Weave(p[1..], sl[1..]) == p[1] + (cls + Weave(p[2..], sl[2..]));
    assert Weave(p, sl) == p[0] + (name + Weave(p[1..], sl[1..]));
  }

  /** The placeholders are five distinct tokens. */
  lemma PlaceholdersDistinct()
    ensures |Placeholders()| == 5
    ensures forall k :: 0 <= k < 5 ==> Token(Placeholders()[k])
    ensures forall k, l :: 0 <= k < 5 && 0 <= l < 5 && k != l ==> Placeholders()[k][1] != Placeholders()[l][1]
  {
  }

  /** The fixed text of the skeleton holds no placeholder. */
  lemma SkeletonUnmarked(scoped: bool)
    ensures |SkeletonParts(scoped)| == 6 && Unmarked(SkeletonParts(scoped))
  {
  }

  /** Replacing the placeholder in slot `j` of a skeleton whose other
      slots are text without `%` or other placeholders. */
  lemma FillSlot(parts: seq<string>, slots: seq<string>, j: nat, r: string)
    requires |parts| == 6 && Unmarked(parts) && |slots| == 5 && j < 5
    requires forall k :: 0 <= k < 5 ==> ('%' !in slots[k] || slots[k] == Placeholders()[k])
    requires slots[j] == Placeholders()[j]
    ensures ReplaceAll(Weave(parts, slots), Placeholders()[j], r) == Weave(parts, slots[j := r])
  {
    PlaceholdersDistinct();
    WeaveReplaceAll(parts, slots, j, Placeholders()[j], r);
  }

  /** The three global substitutions fill the name, class and attribute
      slots of the skeleton, given values without `%`. */
  lemma FillHeadSlots(parts: seq<string>, name: string, cls: string, attr: string)
    requires |parts| == 6 && Unmarked(parts)
    requires '%' !in name && '%' !in cls && '%' !in attr
    ensures FillHead(Weave(parts, Placeholders()), name, cls, attr)
            == Weave(parts, [name, cls, attr, "%JS", "%HTML"])
  {
    var p := Placeholders();
    var s1 := p[0 := name];
    var s2 := s1[1 := cls];
    var s3 := s2[2 := attr];
    FillSlot(parts, p, 0, name);
    FillSlot(parts, s1, 1, cls);
    FillSlot(parts, s2, 2, attr);
    assert s3 == [name, cls, attr, "%JS", "%HTML"];
  }

  /** The two first-occurrence substitutions fill the markup and script
      slots, whatever the markup and the scripts hold. */
  lemma FillBodySlots(parts: seq<string>, name: string, cls: string, attr: string, html: string, js: string)
    requires |parts| == 6 && Unmarked(parts)
    requires '%' !in name && '%' !in cls && '%' !in attr
    ensures FillBody(Weave(parts, [name, cls, attr, "%JS", "%HTML"]), html, js)
            == Weave(parts, [name, cls, attr, js, html])
  {
    var s4 := [name, cls, attr, "%JS", "%HTML"];
    var s5 := s4[4 := html];
    assert Inert("%HTML", "%JS");
    WeaveReplaceFirst(parts, s4, 4, "%HTML", html);
    WeaveReplaceFirst(parts, s5, 3, "%JS", js);
    assert s5[3 := js] == [name, cls, attr, js, html];
  }

  /** Quoting writes a `%` only for a `%`. */
  lemma QuoteCharUnmarked(c: char)
    requires c != '%'
    ensures '%' !in QuoteChar(c)
  {
  }

  /** Text without `%` quotes to text without `%`. */
  lemma {:induction false} QuoteCharsUnmarked(s: string)
    requires '%' !in s
    ensures '%' !in QuoteChars(s)
    decreases |s|
  {
    if s != [] {
      assert s == [s[0]] + s[1..];
      QuoteCharUnmarked(s[0]);
      QuoteCharsUnmarked(s[1..]);
    }
  }

  lemma {:induction false} QuoteItemsUnmarked(xs: seq<string>)
    requires forall k :: 0 <= k < |xs| ==> '%' !in xs[k]
    ensures '%' !in QuoteItems(xs)
    decreases |xs|
  {
    if xs != [] {
      QuoteCharsUnmarked(xs[0]);
      if |xs| > 1 {
        QuoteItemsUnmarked(xs[1..]);
      }
    }
  }

  /** The pieces of a split of text without `c` are without `c`. */
  lemma {:induction false} SplitFromWithout(s: string, p: nat, q: nat, c: char)
    requires p <= q <= |s| && c !in s
    ensures forall k :: 0 <= k < |SplitFrom(s, p, q)| ==> c !in SplitFrom(s, p, q)[k]
    decreases |s| - q
  {
    if q < |s| {
      match SeparatorAt(s, q)
      case None =>
        SplitFromWithout(s, p, q + 1, c);
      case Some(e) =>
        SplitFromWithout(s, e, e, c);
        var rest := SplitFrom(s, e, e);
        assert c !in s[p..q] by {
          forall k | 0 <= k < q - p ensures s[p..q][k] != c {
            assert s[p..q][k] == s[p + k];
          }
        }
        assert forall k :: 0 < k < |rest| + 1 ==> ([s[p..q]] + rest)[k] == rest[k - 1];
    } else {
      assert c !in s[p..] by {
        forall k | 0 <= k < |s| - p ensures s[p..][k] != c {
          assert s[p..][k] == s[p + k];
        }
      }
    }
  }

  /** The fixed text of the getter holds no placeholder. */
  lemma AttrPartsUnmarked()
    ensures |AttrParts()| == 2 && Unmarked(AttrParts())
  {
  }

  /** With `observe` present and non-empty, the attribute slot receives
      the getter returning the JSON list of its split. */
  lemma AttrTextSpec(observe: string)
    requires observe != []
    ensures AttrText(Some(observe))
            == AttrParts()[0] + (JsonList(SplitObserve(observe)) + AttrParts()[1])
  {
    var json := JsonList(SplitObserve(observe));
    AttrPartsUnmarked();
    assert Token("%ATTR");
    WeaveReplaceAll(AttrParts(), ["%ATTR"], 0, "%ATTR", json);
    assert ["%ATTR"][0 := json] == [json];
  }

  /** Without `%` in `observe`, nothing in the attribute slot is a
      placeholder. */
  lemma AttrTextUnmarked(observe: Option<string>)
    requires observe.Some? ==> '%' !in observe.value
    ensures '%' !in AttrText(observe)
  {
    if observe.Some? && observe.value != [] {
      var o := observe.value;
      AttrTextSpec(o);
      SplitFromWithout(o, 0, 0, '%');
      QuoteItemsUnmarked(SplitObserve(o));
      AttrPartsUnmarked();
    }
  }

  // ---------------------------------------------------------------------
  // Elements and scripts
  // ---------------------------------------------------------------------

  /** A top-level element of the compiled markup, as the DOM presents it:
      its tag name, its `observe` attribute, its markup, the text of its
      inline scripts in document order, and its markup once those scripts
      are removed. */
  datatype Element = Element(tag: string, observe: Option<string>, inner: string,
                             scripts: seq<string>, rendered: string)

  /** `String.prototype.trimEnd`. */
  function TrimEnd(s: string): (r: string)
    ensures |r| <= |s| && r == s[..|r|]
    ensures SpaceBetween(s, |r|, |s|)
    ensures r == [] || !IsSpace(r[|r| - 1])
  {
    s[..TrailStart(s, |s|)]
  }

  /** An element defines a component when its markup is not blank at the end. */
  predicate HasContent(e: Element) {
    TrimEnd(e.inner) != []
  }

  /** A collected script: where it starts in the escaped template, and its
      trimmed text. */
  datatype Entry = Entry(pos: Pos, js: string)

  /** A collected script is non-empty and sits where its position says. */
  predicate Located(html: string, e: Entry) {
    e.js != [] && SpanPosition(html, e.js) == Ok(e.pos)
  }

  /** The scripts collected from an element: each text trimmed and located
      in the escaped template; the empty ones located but not kept. A
      position whose column cannot be read fails the whole generation. */
  function ScriptEntries(html: string, scripts: seq<string>): (r: Result<seq<Entry>>)
    ensures r.Ok? ==> forall k :: 0 <= k < |r.value| ==> Located(html, r.value[k])
    decreases |scripts|
  {
    if scripts == [] then Ok([])
    else
      var js := Trim(scripts[0]);
      match SpanPosition(html, js)
      case Err(e) => Err(e)
      case Ok(pos) =>
        match ScriptEntries(html, scripts[1..])
        case Err(e) => Err(e)
        case Ok(rest) =>
          Ok((if js == [] then [] else [Entry(pos, js)]) + rest)
  }

  /** The collection fails exactly when some script's position cannot be
      read. */
  lemma {:induction false} ScriptEntriesOk(html: string, scripts: seq<string>)
    ensures ScriptEntries(html, scripts).Ok?
            <==> forall k :: 0 <= k < |scripts| ==> SpanPosition(html, Trim(scripts[k])).Ok?
    decreases |scripts|
  {
    if scripts != [] {
      ScriptEntriesOk(html, scripts[1..]);
      assert forall k :: 1 <= k < |scripts| ==> scripts[k] == scripts[1..][k - 1];
    }
  }

  /** The texts of the collected scripts, concatenated in order. */
  function JsText(entries: seq<Entry>): string
    decreases |entries|
  {
    if entries == [] then [] else entries[0].js + JsText(entries[1..])
  }

  /** The trimmed texts of the scripts, concatenated in order. */
  function TrimmedScripts(scripts: seq<string>): string
    decreases |scripts|
  {
    if scripts == [] then [] else Trim(scripts[0]) + TrimmedScripts(scripts[1..])
  }

  /** The JS slot holds the in-order concatenation of the trimmed inline
      scripts: dropping the empty ones changes nothing. */
  lemma {:induction false} ScriptsConcatenate(html: string, scripts: seq<string>)
    requires ScriptEntries(html, scripts).Ok?
    ensures JsText(ScriptEntries(html, scripts).value) == TrimmedScripts(scripts)
    decreases |scripts|
  {
    if scripts != [] {
      var js := Trim(scripts[0]);
      var rest := ScriptEntries(html, scripts[1..]).value;
      ScriptsConcatenate(html, scripts[1..]);
      var es := ScriptEntries(html, scripts).value;
      if js == [] {
        assert es == rest;
      } else {
        var pos := SpanPosition(html, js).value;
        assert es == [Entry(pos, js)] + rest;
        assert es[1..] == rest;
      }
    }
  }

  // ---------------------------------------------------------------------
  // Generation
  // ---------------------------------------------------------------------

  /** The loop over the top-level elements: each element with content
      fills the name, class and attribute placeholders of the running
      snippet for good, and sets the code to that snippet with its markup
      and scripts in place; elements without content are skipped. */
  function Render(es: seq<Element>, snippet: string, code: string, html: string, cls: string): Result<string>
    decreases |es|
  {
    if es == [] then Ok(code)
    else if !HasContent(es[0]) then Render(es[1..], snippet, code, html, cls)
    else
      var e := es[0];
      var snippet' := FillHead(snippet, Lower(e.tag), cls, AttrText(e.observe));
      match ScriptEntries(html, e.scripts)
      case Err(err) => Err(err)
      case Ok(entries) => Render(es[1..], snippet', FillBody(snippet', e.rendered, JsText(entries)), html, cls)
  }

  /** `generate(html, options).code` on the path without a source map.
      `html` is `None` when the input is not a string; `parse` stands for
      the DOM's reading of the compiled markup into its top-level
      elements. */
  function Generate(html: Option<string>, scoped: bool, classname: Option<string>,
                    parse: string -> seq<Element>): Result<string>
  {
    if html.None? || Trim(html.value) == [] then Ok([])
    else
      var h := Escape(html.value);
      match Compiled(h)
      case Err(e) => Err(e)
      case Ok(markup) => Render(parse(markup), Snippet(scoped), [], h, ClassName(classname))
  }

  /** Elements without content leave the code as it is. */
  lemma {:induction false} RenderIdle(es: seq<Element>, snippet: string, code: string, html: string, cls: string)
    requires forall k :: 0 <= k < |es| ==> !HasContent(es[k])
    ensures Render(es, snippet, code, html, cls) == Ok(code)
    decreases |es|
  {
    if es != [] {
      RenderIdle(es[1..], snippet, code, html, cls);
    }
  }

  /** With exactly one element with content, the code is the snippet
      filled for that element. */
  lemma {:induction false} RenderOne(es: seq<Element>, j: nat, snippet: string, code: string, html: string, cls: string)
    requires j < |es| && HasContent(es[j])
    requires forall k :: 0 <= k < |es| && k != j ==> !HasContent(es[k])
    requires ScriptEntries(html, es[j].scripts).Ok?
    ensures var e := es[j];
            Render(es, snippet, code, html, cls)
            == Ok(FillBody(FillHead(snippet, Lower(e.tag), cls, AttrText(e.observe)), e.rendered,
                           JsText(ScriptEntries(html, e.scripts).value)))
    decreases j
  {
    if j == 0 {
      var e := es[0];
      var snippet' := FillHead(snippet, Lower(e.tag), cls, AttrText(e.observe));
      var code' := FillBody(snippet', e.rendered, JsText(ScriptEntries(html, e.scripts).value));
      RenderIdle(es[1..], snippet', code', html, cls);
    } else {
      RenderOne(es[1..], j - 1, snippet, code, html, cls);
    }
  }

  /** A script whose position cannot be read, in the first element with
      content, fails the generation. */
  lemma {:induction false} RenderFails(es: seq<Element>, j: nat, snippet: string, code: string, html: string, cls: string)
    requires j < |es| && HasContent(es[j])
    requires forall k :: 0 <= k < j ==> !HasContent(es[k])
    requires ScriptEntries(html, es[j].scripts).Err?
    ensures Render(es, snippet, code, html, cls) == Err(ScriptEntries(html, es[j].scripts).error)
    decreases j
  {
    if j > 0 {
      RenderFails(es[1..], j - 1, snippet, code, html, cls);
    }
  }

  /** The code for a single component: the skeleton with the lower-cased
      tag name, the base class, the getter of the observed attributes,
      the trimmed scripts and the markup in its slots. */
  lemma RenderSkeleton(es: seq<Element>, j: nat, scoped: bool, html: string, cls: string)
    requires j < |es| && HasContent(es[j])
    requires forall k :: 0 <= k < |es| && k != j ==> !HasContent(es[k])
    requires ScriptEntries(html, es[j].scripts).Ok?
    requires '%' !in Lower(es[j].tag) && '%' !in cls
    requires es[j].observe.Some? ==> '%' !in es[j].observe.value
    ensures var e := es[j];
            Render(es, Snippet(scoped), [], html, cls)
            == Ok(Weave(SkeletonParts(scoped),
                        [Lower(e.tag), cls, AttrText(e.observe), TrimmedScripts(e.scripts), e.rendered]))
  {
    var e := es[j];
    var parts := SkeletonParts(scoped);
    var attr := AttrText(e.observe);
    var js := JsText(ScriptEntries(html, e.scripts).value);
    RenderOne(es, j, Snippet(scoped), [], html, cls);
    SkeletonUnmarked(scoped);
    AttrTextUnmarked(e.observe);
    FillHeadSlots(parts, Lower(e.tag), cls, attr);
    FillBodySlots(parts, Lower(e.tag), cls, attr, e.rendered, js);
    ScriptsConcatenate(html, e.scripts);
  }

  /** No string, or one that is empty or all whitespace, gives no code. */
  lemma GenerateEmpty(html: Option<string>, scoped: bool, classname: Option<string>,
                      parse: string -> seq<Element>)
    requires html.Some? ==> AllSpace(html.value)
    ensures Generate(html, scoped, classname, parse) == Ok([])
  {
    if html.Some? {
      TrimSpec(html.value);
    }
  }

  /** A directive error of the escaped template is the generation's error. */
  lemma GenerateCompileError(html: string, scoped: bool, classname: Option<string>,
                             parse: string -> seq<Element>)
    requires !AllSpace(html) && Compiled(Escape(html)).Err?
    ensures Generate(Some(html), scoped, classname, parse) == Err(Compiled(Escape(html)).error)
  {
    TrimSpec(html);
  }

  /** Markup without any element with content gives no code. */
  lemma GenerateNoContent(html: string, scoped: bool, classname: Option<string>,
                          parse: string -> seq<Element>)
    requires !AllSpace(html) && Compiled(Escape(html)).Ok?
    requires var es := parse(Compiled(Escape(html)).value);
             forall k :: 0 <= k < |es| ==> !HasContent(es[k])
    ensures Generate(Some(html), scoped, classname, parse) == Ok([])
  {
    TrimSpec(html);
    var es := parse(Compiled(Escape(html)).value);
    RenderIdle(es, Snippet(scoped), [], Escape(html), ClassName(classname));
  }

  /** One component: the code is the skeleton filled for it. */
  lemma GenerateOne(html: string, scoped: bool, classname: Option<string>,
                    parse: string -> seq<Element>, j: nat)
    requires !AllSpace(html) && Compiled(Escape(html)).Ok?
    requires var es := parse(Compiled(Escape(html)).value);
             && j < |es| && HasContent(es[j])
             && (forall k :: 0 <= k < |es| && k != j ==> !HasContent(es[k]))
             && ScriptEntries(Escape(html), es[j].scripts).Ok?
             && '%' !in Lower(es[j].tag) && '%' !in ClassName(classname)
             && (es[j].observe.Some? ==> '%' !in es[j].observe.value)
    ensures var e := parse(Compiled(Escape(html)).value)[j];
            Generate(Some(html), scoped, classname, parse)
            == Ok(Weave(SkeletonParts(scoped),
                        [Lower(e.tag), ClassName(classname), AttrText(e.observe), TrimmedScripts(e.scripts), e.rendered]))
  {
    TrimSpec(html);
    var es := parse(Compiled(Escape(html)).value);
    RenderSkeleton(es, j, scoped, Escape(html), ClassName(classname));
  }

  /** `observe="height, width"` splits into the two names. */
  lemma ObserveSplitCase()
    ensures SplitObserve("height, width") == ["height", "width"]
  {
    var names := ["height", "width"];
    assert Join(names, ", ") == "height, width";
    assert Name(names[0]) && Name(names[1]);
    SplitJoin(names, ", ");
  }

  /** Two names of lower-case letters as a JSON list. */
  lemma JsonPairCase(a: string, b: string)
    requires Letters(a)
    requires Letters(b)
    ensures JsonList([a, b]) == "[\"" + a + "\",\"" + b + "\"]"
  {
    QuotePlain(a);
    QuotePlain(b);
    var xs := [a, b];
    assert QuoteItems(xs) == Quote(a) + "," + QuoteItems(xs[1..]);
    assert xs[1..] == [b];
  }

  /** Lower-case ASCII letters only. */
  predicate Letters(s: string) {
    forall k :: 0 <= k < |s| ==> 'a' <= s[k] <= 'z'
  }

  lemma LettersCase()
    ensures Letters("height") && Letters("width")
  {
  }

  /** Text of letters is quoted as it is. */
  lemma {:induction false} QuoteCharsLetters(s: string)
    requires Letters(s)
    ensures QuoteChars(s) == s
    decreases |s|
  {
    if s != [] {
      QuoteCharsLetters(s[1..]);
      assert s == [s[0]] + s[1..];
    }
  }

  lemma QuotePlain(s: string)
    requires Letters(s)
    ensures Quote(s) == "\"" + s + "\""
  {
    QuoteCharsLetters(s);
  }

  /** The getter for an `observe` that splits into two names. */
  lemma AttrPairCase(observe: string, a: string, b: string)
    requires observe != [] && SplitObserve(observe) == [a, b]
    requires Letters(a)
    requires Letters(b)
    ensures AttrText(Some(observe))
            == AttrParts()[0] + (("[\"" + a + "\",\"" + b + "\"]") + AttrParts()[1])
  {
    JsonPairCase(a, b);
    AttrTextSpec(observe);
  }

  /** The getter for `observe="height, width"` returns `["height","width"]`. */
  lemma ObserveCase()
    ensures AttrText(Some("height, width"))
            == AttrParts()[0] + (("[\"" + "height" + "\",\"" + "width" + "\"]") + AttrParts()[1])
  {
    ObserveSplitCase();
    LettersCase();
    AttrPairCase("height, width", "height", "width");
  }
}
