/** Character classes and small string helpers with the meaning JavaScript
    gives them: `\s` and `String.prototype.trim` share one whitespace set,
    `\w` is ASCII word characters, and `.` stops at line terminators. */
module Text {

  import opened Errors

  /** JavaScript WhiteSpace or LineTerminator: the set matched by `\s` and
      removed by `trim`. */
  predicate IsSpace(c: char) {
    c == '\t' || c == '\n' || c == '\U{000B}' || c == '\U{000C}' || c == '\r'
    || c == ' ' || c == '\U{00A0}' || c == '\U{1680}'
    || ('\U{2000}' <= c <= '\U{200A}')
    || c == '\U{2028}' || c == '\U{2029}' || c == '\U{202F}' || c == '\U{205F}'
    || c == '\U{3000}' || c == '\U{FEFF}'
  }

  /** The characters a regular-expression `.` does not match. */
  predicate IsLineTerminator(c: char) {
    c == '\n' || c == '\r' || c == '\U{2028}' || c == '\U{2029}'
  }

  /** `\w`: ASCII letters, digits and underscore. */
  predicate IsWordChar(c: char) {
    ('a' <= c <= 'z') || ('A' <= c <= 'Z') || ('0' <= c <= '9') || c == '_'
  }

  predicate AllSpace(s: string) {
    forall k :: 0 <= k < |s| ==> IsSpace(s[k])
  }

  /** Every character of `s[i..j]` is whitespace. */
  predicate SpaceBetween(s: string, i: nat, j: nat)
    requires i <= j <= |s|
  {
    forall k :: i <= k < j ==> IsSpace(s[k])
  }

  predicate NoLineTerminator(s: string) {
    forall k :: 0 <= k < |s| ==> !IsLineTerminator(s[k])
  }

  /** `s` begins with a line terminator. */
  predicate StartsLine(s: string) {
    |s| > 0 && IsLineTerminator(s[0])
  }

  lemma LineTerminatorIsSpace(c: char)
    ensures IsLineTerminator(c) ==> IsSpace(c)
  {
  }

  /** End of the maximal run of whitespace starting at `i`. */
  function SpaceEnd(s: string, i: nat): (e: nat)
    requires i <= |s|
    ensures i <= e <= |s|
    ensures SpaceBetween(s, i, e)
    ensures e == |s| || !IsSpace(s[e])
    decreases |s| - i
  {
    if i < |s| && IsSpace(s[i]) then SpaceEnd(s, i + 1) else i
  }

  /** A whitespace run that stops at `e` is the maximal one. */
  lemma {:induction false} SpaceEndAt(s: string, i: nat, e: nat)
    requires i <= e <= |s| && SpaceBetween(s, i, e) && (e == |s| || !IsSpace(s[e]))
    ensures SpaceEnd(s, i) == e
    decreases e - i
  {
    if i < e {
      SpaceEndAt(s, i + 1, e);
    }
  }

  /** End of the maximal run of word characters starting at `i`. */
  function WordEnd(s: string, i: nat): (e: nat)
    requires i <= |s|
    ensures i <= e <= |s|
    ensures forall k :: i <= k < e ==> IsWordChar(s[k])
    ensures e == |s| || !IsWordChar(s[e])
    decreases |s| - i
  {
    if i < |s| && IsWordChar(s[i]) then WordEnd(s, i + 1) else i
  }

  /** The lookahead `(?=\s*:)` at position `i`. */
  predicate ColonAhead(s: string, i: nat)
    requires i <= |s|
  {
    var e := SpaceEnd(s, i);
    e < |s| && s[e] == ':'
  }

  /** A `)` at `e` that a colon follows, whitespace aside: where the
      directive patterns' `\)(?=\s*:)` and `\)\s*:` can close. */
  predicate CloseAt(s: string, e: nat)
    requires e < |s|
  {
    s[e] == ')' && ColonAhead(s, e + 1)
  }

  /** Start of the trailing whitespace run of `s[..j]`. */
  function TrailStart(s: string, j: nat): (b: nat)
    requires j <= |s|
    ensures b <= j
    ensures SpaceBetween(s, b, j)
    ensures b == 0 || !IsSpace(s[b - 1])
  {
    if j > 0 && IsSpace(s[j - 1]) then TrailStart(s, j - 1) else j
  }

  /** `String.prototype.trim`: drop the whitespace at both ends. */
  function Trim(s: string): (r: string)
    ensures |r| <= |s|
  {
    var a := SpaceEnd(s, 0);
    var b := if a == |s| then a else TrailStart(s, |s|);
    s[a..b]
  }

  /** What `Trim` keeps: a slice of `s` with no whitespace at either end,
      with only whitespace cut off around it; empty exactly when `s` is
      all whitespace. */
  lemma TrimSpec(s: string)
    ensures var r := Trim(s);
            && (r == [] <==> AllSpace(s))
            && (r != [] ==> !IsSpace(r[0]) && !IsSpace(r[|r| - 1]))
            && exists a :: 0 <= a <= |s| - |r| && r == s[a..a + |r|]
                           && SpaceBetween(s, 0, a) && SpaceBetween(s, a + |r|, |s|)
  {
    var a := SpaceEnd(s, 0);
    var b := if a == |s| then a else TrailStart(s, |s|);
    assert SpaceBetween(s, b, |s|);
    assert Trim(s) == s[a..b];
  }

  /** A string with no surrounding whitespace trims to itself. */
  lemma TrimIdle(s: string)
    requires s == [] || (!IsSpace(s[0]) && !IsSpace(s[|s| - 1]))
    ensures Trim(s) == s
  {
    if s != [] {
      assert SpaceEnd(s, 0) == 0;
      assert TrailStart(s, |s|) == |s|;
    }
  }

  lemma AppendAssoc<T>(a: seq<T>, b: seq<T>, c: seq<T>)
    ensures a + (b + c) == a + b + c
  {
  }

  /** A string is its three pieces cut at `a` and `b`. */
  lemma SplitAt<T>(s: seq<T>, a: nat, b: nat)
    requires a <= b <= |s|
    ensures s == s[..a] + s[a..b] + s[b..]
  {
  }

  /** The three pieces of `a + b + c`, sliced back out. */
  lemma Pieces<T>(a: seq<T>, b: seq<T>, c: seq<T>)
    ensures var s := a + b + c;
            s[..|a|] == a && s[|a|..|a| + |b|] == b && s[|a| + |b|..] == c
  {
  }

  /** The characters of a slice, read in the whole string. */
  lemma SliceChars(s: string, p: nat, t: string)
    requires p + |t| <= |s| && s[p..p + |t|] == t
    ensures forall k :: 0 <= k < |t| ==> s[p + k] == t[k]
  {
    forall k | 0 <= k < |t| ensures s[p + k] == t[k] {
      assert s[p..p + |t|][k] == s[p + k];
    }
  }

  /** The in-order concatenation of the first `k` strings of `xs`. */
  function ConcatTo(xs: seq<string>, k: nat): string
    requires k <= |xs|
  {
    if k == 0 then "" else ConcatTo(xs, k - 1) + xs[k - 1]
  }

  /** The in-order concatenation of a list of strings. */
  function Concat(xs: seq<string>): string {
    ConcatTo(xs, |xs|)
  }

  /** Lists that agree on their first `k` strings concatenate them alike. */
  lemma {:induction false} ConcatAgree(xs: seq<string>, ys: seq<string>, k: nat)
    requires k <= |xs| && k <= |ys|
    requires forall i :: 0 <= i < k ==> xs[i] == ys[i]
    ensures ConcatTo(xs, k) == ConcatTo(ys, k)
  {
    if k > 0 {
      ConcatAgree(xs, ys, k - 1);
    }
  }

  lemma {:induction false} ConcatToFront(x: string, xs: seq<string>, k: nat)
    requires k <= |xs|
    ensures ConcatTo([x] + xs, k + 1) == x + ConcatTo(xs, k)
  {
    if k == 0 {
      assert ConcatTo([x] + xs, 0) == "";
    } else {
      ConcatToFront(x, xs, k - 1);
      assert ([x] + xs)[k] == xs[k - 1];
      AppendAssoc(x, ConcatTo(xs, k - 1), xs[k - 1]);
    }
  }

  lemma ConcatFront(x: string, xs: seq<string>)
    ensures Concat([x] + xs) == x + Concat(xs)
  {
    ConcatToFront(x, xs, |xs|);
  }

  lemma ConcatSnoc(xs: seq<string>, x: string)
    ensures Concat(xs + [x]) == Concat(xs) + x
  {
    ConcatAgree(xs + [x], xs, |xs|);
  }

  /** Number of occurrences of `c` in `s`. */
  function Count(s: string, c: char): nat {
    multiset(s)[c]
  }

  /** Whether `pat` occurs in `s` at position `i`. */
  predicate At(s: string, i: nat, pat: string) {
    i + |pat| <= |s| && s[i..i + |pat|] == pat
  }

  /** `String.prototype.indexOf`: the first position of `pat` at or after `i`. */
  function IndexOf(s: string, pat: string, i: nat): (r: Option<nat>)
    requires i <= |s|
    ensures r.Some? ==> i <= r.value <= |s| && At(s, r.value, pat)
    ensures forall k :: i <= k < (if r.Some? then r.value else |s| + 1) ==> !At(s, k, pat)
    decreases |s| - i
  {
    if At(s, i, pat) then Some(i)
    else if i == |s| then None
    else IndexOf(s, pat, i + 1)
  }

  /** ASCII lower-casing, as `toLowerCase` does on HTML tag names. */
  function Lower(s: string): (r: string)
    ensures |r| == |s|
    ensures forall k :: 0 <= k < |s| ==>
      r[k] == (if 'A' <= s[k] <= 'Z' then (s[k] as int + 32) as char else s[k])
  {
    if |s| == 0 then ""
    else [if 'A' <= s[0] <= 'Z' then (s[0] as int + 32) as char else s[0]] + Lower(s[1..])
  }
  /** A character outside the Basic Multilingual Plane, which JavaScript
      stores as a surrogate pair. */
  predicate Astral(c: char) {
    c as int > 0xFFFF
  }

  /** `s.length` in JavaScript: the number of UTF-16 code units, two for
      each astral character and one for every other. */
  function Utf16Length(s: string): (n: nat)
    ensures |s| <= n <= 2 * |s|
    decreases |s|
  {
    if s == [] then 0 else (if Astral(s[0]) then 2 else 1) + Utf16Length(s[1..])
  }

  /** The code units of a concatenation are those of its parts. */
  lemma {:induction false} Utf16Append(a: string, b: string)
    ensures Utf16Length(a + b) == Utf16Length(a) + Utf16Length(b)
    decreases |a|
  {
    if a == [] {
      assert a + b == b;
    } else {
      assert (a + b)[1..] == a[1..] + b;
      Utf16Append(a[1..], b);
    }
  }

  /** Text without astral characters has one code unit per character. */
  lemma {:induction false} Utf16Plain(s: string)
    requires forall k :: 0 <= k < |s| ==> !Astral(s[k])
    ensures Utf16Length(s) == |s|
    decreases |s|
  {
    if s != [] {
      assert !Astral(s[0]);
      Utf16Plain(s[1..]);
    }
  }

  /** An astral character takes two code units. */
  lemma Utf16Astral(c: char, s: string)
    requires Astral(c)
    ensures Utf16Length([c] + s) == 2 + Utf16Length(s)
  {
    assert ([c] + s)[1..] == s;
  }
}
