/**
 * The pieces of Rust's string library that the configuration store relies on,
 * over strings seen as sequences of Unicode scalar values:
 * `char::is_whitespace`, `str::trim` and `str::find` with a `char` pattern.
 */
module Text {
  import opened Wrappers

  /**
   * Rust's `char::is_whitespace`: the characters with the Unicode White_Space
   * property, U+0009 to U+000D, U+0020, U+0085, U+00A0, U+1680, U+2000 to
   * U+200A, U+2028, U+2029, U+202F, U+205F and U+3000.
   */
  predicate IsWhitespace(c: char)
  {
    var n := c as int;
    || 0x9 <= n <= 0xD
    || n == 0x20
    || (0x85 <= n && (n == 0x85 || n == 0xA0 || n == 0x1680 || 0x2000 <= n <= 0x200A
                      || n == 0x2028 || n == 0x2029 || n == 0x202F || n == 0x205F || n == 0x3000))
  }

  /**
   * The number of bytes `c` takes in UTF-8, the encoding of Rust's `str`:
   * one below U+0080, two below U+0800, three below U+10000, four above.
   */
  function Utf8Len(c: char): (n: nat)
    ensures 1 <= n <= 4
  {
    var v := c as int;
    if v < 0x80 then 1 else if v < 0x800 then 2 else if v < 0x1_0000 then 3 else 4
  }

  /** Neither end of `s` is whitespace. */
  predicate IsTrimmed(s: string)
  {
    s == [] || (!IsWhitespace(s[0]) && !IsWhitespace(s[|s| - 1]))
  }

  /**
   * `r` is the part of `s` that starts at position `a`, and everything in `s`
   * before and after that part is whitespace.
   */
  predicate CutAt(s: string, r: string, a: nat)
  {
    && a + |r| <= |s|
    && (forall i | 0 <= i < |r| :: r[i] == s[a + i])
    && (forall i | 0 <= i < a :: IsWhitespace(s[i]))
    && (forall i | a + |r| <= i < |s| :: IsWhitespace(s[i]))
  }

  /** `r` is a part of `s` obtained by cutting whitespace only, at both ends. */
  ghost predicate TrimmedFrom(s: string, r: string)
  {
    exists a: nat | a <= |s| :: CutAt(s, r, a)
  }

  /** The first position at or after `i` that does not hold whitespace (`|s|` if none); see `SkipWhitespaceSpec`. */
  function SkipWhitespace(s: string, i: nat): (k: nat)
    requires i <= |s|
    ensures i <= k <= |s|
    decreases |s| - i
  {
    if i < |s| && IsWhitespace(s[i]) then SkipWhitespace(s, i + 1) else i
  }

  /** Everything `SkipWhitespace` passes over is whitespace, and it stops before a non-whitespace character. */
  lemma {:induction false} SkipWhitespaceSpec(s: string, i: nat)
    requires i <= |s|
    ensures forall j | i <= j < SkipWhitespace(s, i) :: IsWhitespace(s[j])
    ensures SkipWhitespace(s, i) < |s| ==> !IsWhitespace(s[SkipWhitespace(s, i)])
    decreases |s| - i
  {
    if i < |s| && IsWhitespace(s[i]) {
      SkipWhitespaceSpec(s, i + 1);
    }
  }

  /**
   * The end of `s[lo..hi]` once its trailing whitespace is dropped; see
   * `SkipWhitespaceBackSpec`.
   */
  function SkipWhitespaceBack(s: string, lo: nat, hi: nat): (k: nat)
    requires lo <= hi <= |s|
    ensures lo <= k <= hi
    decreases hi - lo
  {
    if lo < hi && IsWhitespace(s[hi - 1]) then SkipWhitespaceBack(s, lo, hi - 1) else hi
  }

  /** The characters from `SkipWhitespaceBack` up to `hi` are whitespace, the one before it (if within `lo..hi`) is not. */
  lemma {:induction false} SkipWhitespaceBackSpec(s: string, lo: nat, hi: nat)
    requires lo <= hi <= |s|
    ensures forall j | SkipWhitespaceBack(s, lo, hi) <= j < hi :: IsWhitespace(s[j])
    ensures lo < SkipWhitespaceBack(s, lo, hi) ==> !IsWhitespace(s[SkipWhitespaceBack(s, lo, hi) - 1])
    decreases hi - lo
  {
    if lo < hi && IsWhitespace(s[hi - 1]) {
      SkipWhitespaceBackSpec(s, lo, hi - 1);
    }
  }

  /**
   * Rust's `str::trim`: whitespace removed at both ends and nowhere else (see
   * `TrimIsTrimmed`, `TrimIsSlice` and `TrimUnique`).
   */
  function Trim(s: string): (r: string)
    ensures |r| <= |s|
  {
    var a := SkipWhitespace(s, 0);
    var b := SkipWhitespaceBack(s, a, |s|);
    s[a..b]
  }

  /** Neither end of a trimmed string is whitespace. */
  lemma TrimIsTrimmed(s: string)
    ensures IsTrimmed(Trim(s))
  {
    var a := SkipWhitespace(s, 0);
    SkipWhitespaceSpec(s, 0);
    SkipWhitespaceBackSpec(s, a, |s|);
  }

  /** `Trim(s)` is `s` with whitespace cut at its two ends only. */
  lemma TrimIsSlice(s: string)
    ensures TrimmedFrom(s, Trim(s))
  {
    var a := SkipWhitespace(s, 0);
    SkipWhitespaceSpec(s, 0);
    SkipWhitespaceBackSpec(s, a, |s|);
    assert CutAt(s, Trim(s), a);
  }

  /** Trimming brings in no character that was not there. */
  lemma TrimAddsNothing(s: string, c: char)
    requires c !in s
    ensures c !in Trim(s)
  {
    var a := SkipWhitespace(s, 0);
    var b := SkipWhitespaceBack(s, a, |s|);
    assert forall i | 0 <= i < b - a :: s[a..b][i] == s[a + i];
  }

  /**
   * `str::trim` is determined by its two promises: the only trimmed slice of
   * `s` reached by cutting whitespace at the ends is `Trim(s)`.
   */
  lemma TrimUnique(s: string, r: string)
    requires TrimmedFrom(s, r) && IsTrimmed(r)
    ensures r == Trim(s)
  {
    var a: nat :| a <= |s| && CutAt(s, r, a);
    var b := a + |r|;
    if a < b {
      assert s[a] == r[0] && s[b - 1] == r[|r| - 1];
    }
    TrimIsCut(s, a, b);
    assert r == s[a..b];
  }

  /**
   * Cutting `s` at `a` and `b`, with only whitespace outside and no
   * whitespace at either end inside, gives `Trim(s)`.
   */
  lemma TrimIsCut(s: string, a: nat, b: nat)
    requires a <= b <= |s|
    requires forall i | 0 <= i < a :: IsWhitespace(s[i])
    requires forall i | b <= i < |s| :: IsWhitespace(s[i])
    requires a < b ==> !IsWhitespace(s[a]) && !IsWhitespace(s[b - 1])
    ensures Trim(s) == s[a..b]
  {
    if a == b {
      SkipWhitespaceStopsAt(s, 0, |s|);
      assert SkipWhitespaceBack(s, |s|, |s|) == |s|;
    } else {
      SkipWhitespaceStopsAt(s, 0, a);
      SkipWhitespaceBackStopsAt(s, a, |s|, b);
    }
  }

  /** `SkipWhitespace` from `i` stops at `a` when only whitespace lies between and `s[a]` is not whitespace. */
  lemma {:induction false} SkipWhitespaceStopsAt(s: string, i: nat, a: nat)
    requires i <= a <= |s|
    requires forall j | i <= j < a :: IsWhitespace(s[j])
    requires a < |s| ==> !IsWhitespace(s[a])
    ensures SkipWhitespace(s, i) == a
    decreases a - i
  {
    if i < a {
      SkipWhitespaceStopsAt(s, i + 1, a);
    }
  }

  /** `SkipWhitespaceBack` down from `hi` stops at `b` when only whitespace lies between and `s[b - 1]` is not. */
  lemma {:induction false} SkipWhitespaceBackStopsAt(s: string, lo: nat, hi: nat, b: nat)
    requires lo <= b <= hi <= |s|
    requires forall j | b <= j < hi :: IsWhitespace(s[j])
    requires lo < b ==> !IsWhitespace(s[b - 1])
    ensures SkipWhitespaceBack(s, lo, hi) == b
    decreases hi - b
  {
    if b < hi {
      SkipWhitespaceBackStopsAt(s, lo, hi - 1, b);
    }
  }

  /** `i` is the position of the first `c` in `s`. */
  predicate IsFirstIndex(s: string, c: char, i: int)
  {
    0 <= i < |s| && s[i] == c && forall j | 0 <= j < i :: s[j] != c
  }

  /** A character has at most one first position. */
  lemma FirstIndexUnique(s: string, c: char, i: int)
    requires IsFirstIndex(s, c, i)
    ensures forall j | IsFirstIndex(s, c, j) :: j == i
  {
  }

  /** The first position at or after `i` holding `c`, if any; see `FindFromSpec`. */
  function FindFrom(s: string, c: char, i: nat): (r: Option<nat>)
    requires i <= |s|
    ensures r.Some? ==> i <= r.value < |s|
    decreases |s| - i
  {
    if i == |s| then None
    else if s[i] == c then Some(i)
    else FindFrom(s, c, i + 1)
  }

  /** `FindFrom` finds nothing exactly when `c` is absent from `s[i..]`, and otherwise finds its first occurrence there. */
  lemma {:induction false} FindFromSpec(s: string, c: char, i: nat)
    requires i <= |s|
    ensures FindFrom(s, c, i).None? <==> forall j | i <= j < |s| :: s[j] != c
    ensures FindFrom(s, c, i).Some? ==>
      var p := FindFrom(s, c, i).value;
      s[p] == c && forall j | i <= j < p :: s[j] != c
    decreases |s| - i
  {
    if i < |s| && s[i] != c {
      FindFromSpec(s, c, i + 1);
    }
  }

  /**
   * Rust's `str::find` with a `char` pattern: the position of the first
   * occurrence of `c`, counted in characters; `None` when there is none
   * (see `FindFirstSpec`).
   */
  function FindFirst(s: string, c: char): (r: Option<nat>)
    ensures r.Some? ==> r.value < |s|
  {
    FindFrom(s, c, 0)
  }

  /** `FindFirst` is `None` exactly when `c` does not occur, and otherwise the first position of `c`. */
  lemma FindFirstSpec(s: string, c: char)
    ensures FindFirst(s, c).None? <==> c !in s
    ensures FindFirst(s, c).Some? ==> IsFirstIndex(s, c, FindFirst(s, c).value)
  {
    FindFromSpec(s, c, 0);
  }
}
