/** `String.prototype.replace` with a literal pattern and a literal
    replacement, globally and for the first occurrence only, and the
    skeletons it fills: fixed text woven with placeholder slots. Every
    placeholder of the compiler is `%` followed by a word, so text without
    `%` can never hold one. */
module Replace {

  /** `s.replace(/pat/g, r)`: every leftmost non-overlapping occurrence
      of `pat` replaced by `r`, scanning on after each replacement. */
  function ReplaceAll(s: string, pat: string, r: string): string
    requires pat != []
    decreases |s|
  {
    if |s| < |pat| then s
    else if s[..|pat|] == pat then r + ReplaceAll(s[|pat|..], pat, r)
    else [s[0]] + ReplaceAll(s[1..], pat, r)
  }

  /** `s.replace(/pat/, r)`: the first occurrence of `pat` replaced by `r`. */
  function ReplaceFirst(s: string, pat: string, r: string): string
    requires pat != []
    decreases |s|
  {
    if |s| < |pat| then s
    else if s[..|pat|] == pat then r + s[|pat|..]
    else [s[0]] + ReplaceFirst(s[1..], pat, r)
  }

  /** A placeholder: `%` and then at least one character that is not `%`. */
  predicate Token(t: string) {
    |t| >= 2 && t[0] == '%' && '%' !in t[1..]
  }

  /** Text that the replacement of `pat` passes over unchanged: text
      without `%`, or another placeholder that differs from `pat` in its
      first letter. */
  predicate Inert(pat: string, s: string) {
    '%' !in s || (Token(s) && |pat| >= 2 && s[1] != pat[1])
  }

  /** Where `pat` does not start `s`, its first character is kept. */
  lemma ReplaceAllStep(s: string, pat: string, r: string)
    requires pat != [] && s != [] && (|s| < |pat| || s[..|pat|] != pat)
    ensures ReplaceAll(s, pat, r) == [s[0]] + ReplaceAll(s[1..], pat, r)
  {
    assert s == [s[0]] + s[1..];
  }

  /** Where `pat` does not start `s`, its first character is kept. */
  lemma ReplaceFirstStep(s: string, pat: string, r: string)
    requires pat != [] && s != [] && (|s| < |pat| || s[..|pat|] != pat)
    ensures ReplaceFirst(s, pat, r) == [s[0]] + ReplaceFirst(s[1..], pat, r)
  {
    assert s == [s[0]] + s[1..];
  }

  /** A placeholder other than `pat` does not start with `pat`. */
  lemma OtherAtFront(q: string, x: string, pat: string)
    requires Token(pat) && Token(q) && q[1] != pat[1]
    ensures var s := q + x; s != [] && (|s| < |pat| || s[..|pat|] != pat)
    ensures (q + x)[1..] == q[1..] + x && (q + x)[0] == q[0]
  {
    var s := q + x;
    assert s[1] == q[1];
    if |s| >= |pat| {
      assert s[..|pat|][1] == s[1];
    }
  }

  /** Text without `%` at the front is passed over. */
  lemma {:induction false} ReplaceAllUnmarked(a: string, x: string, pat: string, r: string)
    requires Token(pat) && '%' !in a
    ensures ReplaceAll(a + x, pat, r) == a + ReplaceAll(x, pat, r)
    decreases |a|
  {
    if a != [] {
      var s := a + x;
      assert s[0] == a[0];
      if |s| >= |pat| {
        assert s[..|pat|][0] != pat[0];
      }
      assert s[1..] == a[1..] + x;
      ReplaceAllUnmarked(a[1..], x, pat, r);
      assert a == [a[0]] + a[1..];
    } else {
      assert a + x == x;
    }
  }

  /** An occurrence at the front is replaced and the scan goes on after it. */
  lemma ReplaceAllToken(x: string, pat: string, r: string)
    requires pat != []
    ensures ReplaceAll(pat + x, pat, r) == r + ReplaceAll(x, pat, r)
  {
    var s := pat + x;
    assert s[..|pat|] == pat && s[|pat|..] == x;
  }

  /** Inert text at the front is passed over. */
  lemma ReplaceAllInert(q: string, x: string, pat: string, r: string)
    requires Token(pat) && Inert(pat, q)
    ensures ReplaceAll(q + x, pat, r) == q + ReplaceAll(x, pat, r)
  {
    if '%' !in q {
      ReplaceAllUnmarked(q, x, pat, r);
    } else {
      OtherAtFront(q, x, pat);
      ReplaceAllStep(q + x, pat, r);
      ReplaceAllUnmarked(q[1..], x, pat, r);
      assert q == [q[0]] + q[1..];
    }
  }

  /** Text without `%` at the front is passed over by the first replacement. */
  lemma {:induction false} ReplaceFirstUnmarked(a: string, x: string, pat: string, r: string)
    requires Token(pat) && '%' !in a
    ensures ReplaceFirst(a + x, pat, r) == a + ReplaceFirst(x, pat, r)
    decreases |a|
  {
    if a != [] {
      var s := a + x;
      assert s[0] == a[0];
      if |s| >= |pat| {
        assert s[..|pat|][0] != pat[0];
      }
      assert s[1..] == a[1..] + x;
      ReplaceFirstUnmarked(a[1..], x, pat, r);
      assert a == [a[0]] + a[1..];
    } else {
      assert a + x == x;
    }
  }

  /** The first occurrence at the front is replaced; the rest is kept. */
  lemma ReplaceFirstToken(x: string, pat: string, r: string)
    requires pat != []
    ensures ReplaceFirst(pat + x, pat, r) == r + x
  {
    var s := pat + x;
    assert s[..|pat|] == pat && s[|pat|..] == x;
  }

  /** Inert text at the front is passed over by the first replacement. */
  lemma ReplaceFirstInert(q: string, x: string, pat: string, r: string)
    requires Token(pat) && Inert(pat, q)
    ensures ReplaceFirst(q + x, pat, r) == q + ReplaceFirst(x, pat, r)
  {
    if '%' !in q {
      ReplaceFirstUnmarked(q, x, pat, r);
    } else {
      OtherAtFront(q, x, pat);
      ReplaceFirstStep(q + x, pat, r);
      ReplaceFirstUnmarked(q[1..], x, pat, r);
      assert q == [q[0]] + q[1..];
    }
  }

  /** Text without the placeholder's `%` has nothing to replace. */
  lemma ReplaceAllIdle(a: string, pat: string, r: string)
    requires Token(pat) && '%' !in a
    ensures ReplaceAll(a, pat, r) == a
  {
    ReplaceAllUnmarked(a, [], pat, r);
    assert a + [] == a;
  }

  // ---------------------------------------------------------------------
  // Skeletons
  // ---------------------------------------------------------------------

  /** Fixed parts with a slot between each two: `parts[0] + slots[0] +
      parts[1] + … + parts[n]`. */
  function Weave(parts: seq<string>, slots: seq<string>): string
    requires |parts| == |slots| + 1
    decreases |slots|
  {
    if slots == [] then parts[0]
    else parts[0] + (slots[0] + Weave(parts[1..], slots[1..]))
  }

  /** Fixed parts without `%`. */
  predicate Unmarked(parts: seq<string>) {
    forall k :: 0 <= k < |parts| ==> '%' !in parts[k]
  }

  /** Slots that the replacement of `pat` passes over. */
  predicate InertSlots(pat: string, slots: seq<string>) {
    forall k :: 0 <= k < |slots| ==> Inert(pat, slots[k])
  }

  /** A skeleton whose slots are all inert is left as it is. */
  lemma {:induction false} WeaveIdle(parts: seq<string>, slots: seq<string>, pat: string, r: string)
    requires |parts| == |slots| + 1 && Token(pat)
    requires Unmarked(parts) && InertSlots(pat, slots)
    ensures ReplaceAll(Weave(parts, slots), pat, r) == Weave(parts, slots)
    decreases |slots|
  {
    if slots == [] {
      ReplaceAllIdle(parts[0], pat, r);
    } else {
      var w := Weave(parts[1..], slots[1..]);
      WeaveIdle(parts[1..], slots[1..], pat, r);
      ReplaceAllUnmarked(parts[0], slots[0] + w, pat, r);
      ReplaceAllInert(slots[0], w, pat, r);
    }
  }

  /** Replacing a placeholder that fills exactly slot `j` of a skeleton
      puts `r` into that slot and changes nothing else. */
  lemma {:induction false} WeaveReplaceAll(parts: seq<string>, slots: seq<string>, j: nat, pat: string, r: string)
    requires |parts| == |slots| + 1 && Token(pat) && j < |slots|
    requires Unmarked(parts) && slots[j] == pat
    requires forall k :: 0 <= k < |slots| && k != j ==> Inert(pat, slots[k])
    ensures ReplaceAll(Weave(parts, slots), pat, r) == Weave(parts, slots[j := r])
    decreases |slots|
  {
    var w := Weave(parts[1..], slots[1..]);
    ReplaceAllUnmarked(parts[0], slots[0] + w, pat, r);
    if j == 0 {
      ReplaceAllToken(w, pat, r);
      WeaveIdle(parts[1..], slots[1..], pat, r);
      assert slots[j := r][1..] == slots[1..];
    } else {
      ReplaceAllInert(slots[0], w, pat, r);
      WeaveReplaceAll(parts[1..], slots[1..], j - 1, pat, r);
      assert slots[j := r][1..] == slots[1..][j - 1 := r];
    }
  }

  /** Replacing the first occurrence of a placeholder that fills slot `j`,
      with only inert text before it, puts `r` into that slot. */
  lemma {:induction false} WeaveReplaceFirst(parts: seq<string>, slots: seq<string>, j: nat, pat: string, r: string)
    requires |parts| == |slots| + 1 && Token(pat) && j < |slots|
    requires forall k :: 0 <= k <= j ==> '%' !in parts[k]
    requires slots[j] == pat
    requires forall k :: 0 <= k < j ==> Inert(pat, slots[k])
    ensures ReplaceFirst(Weave(parts, slots), pat, r) == Weave(parts, slots[j := r])
    decreases |slots|
  {
    var w := Weave(parts[1..], slots[1..]);
    ReplaceFirstUnmarked(parts[0], slots[0] + w, pat, r);
    if j == 0 {
      ReplaceFirstToken(w, pat, r);
      assert slots[j := r][1..] == slots[1..];
    } else {
      ReplaceFirstInert(slots[0], w, pat, r);
      WeaveReplaceFirst(parts[1..], slots[1..], j - 1, pat, r);
      assert slots[j := r][1..] == slots[1..][j - 1 := r];
    }
  }
}
