/**
 * The configuration store of src/conf.rs: a flat table from keys to string
 * values, seeded from defaults, whose values (never its keys) can be
 * overridden by `key<delim>value` lines.
 */
module Conf {
  import opened Wrappers
  import opened Text

  /** The delimiter used while none has been configured. */
  const DefaultDelim: char := ':'

  type Pairs = map<string, string>

  /**
   * Why `update` gave up, with the zero-based index and the text of the line:
   * the line has no delimiter (the `expect` at src/conf.rs:49), or the
   * delimiter takes more than one byte in UTF-8, so that the value slice,
   * which starts one byte after the delimiter's first byte, would begin
   * inside the delimiter (the slice at src/conf.rs:51).
   */
  datatype UpdateError =
    | BadLine(index: nat, line: string)
    | SliceInsideDelimiter(index: nat, line: string)

  // ---------------------------------------------------------------------------
  // Construction

  /**
   * The table built from the default pairs, entered one after the other so
   * that a repeated key keeps its last value. Every default key is present
   * and no other key is.
   */
  function PairsFrom(defaults: seq<(string, string)>): (m: Pairs)
    ensures forall k :: k in m <==> exists i | 0 <= i < |defaults| :: defaults[i].0 == k
    decreases |defaults|
  {
    if defaults == [] then map[]
    else
      var last := defaults[|defaults| - 1];
      var m := PairsFrom(defaults[..|defaults| - 1]);
      assert forall i | 0 <= i < |defaults| - 1 :: defaults[..|defaults| - 1][i] == defaults[i];
      m[last.0 := last.1]
  }

  // ---------------------------------------------------------------------------
  // One override line

  /**
   * Splits a line at the first occurrence of the delimiter into the trimmed
   * key before it and the trimmed value after it (see `SplitAtFirst`); `None`
   * exactly when the line has no delimiter.
   */
  function SplitLine(line: string, d: char): (r: Option<(string, string)>)
    ensures r.None? <==> d !in line
  {
    FindFirstSpec(line, d);
    match FindFirst(line, d)
    case None => None
    case Some(i) => Some((Trim(line[..i]), Trim(line[i + 1..])))
  }

  /** The split happens at the first delimiter, whatever follows it. */
  lemma SplitAtFirst(line: string, d: char, i: int)
    requires IsFirstIndex(line, d, i)
    ensures SplitLine(line, d) == Some((Trim(line[..i]), Trim(line[i + 1..])))
  {
    FindFirstSpec(line, d);
    FirstIndexUnique(line, d, i);
  }

  /** A key read from a line never contains the delimiter; the value may. */
  lemma SplitKeyLacksDelimiter(line: string, d: char)
    requires d in line
    ensures d !in SplitLine(line, d).value.0
  {
    FindFirstSpec(line, d);
    var i := FindFirst(line, d).value;
    assert forall j | 0 <= j < i :: line[..i][j] == line[j];
    TrimAddsNothing(line[..i], d);
  }

  /** The line splits and its key is `k`. */
  predicate Names(line: string, d: char, k: string)
  {
    var s := SplitLine(line, d);
    s.Some? && s.value.0 == k
  }

  /**
   * The effect of one well-formed line: the key it names, if present, takes
   * the line's value; every other key keeps its value and no key is inserted.
   */
  function ApplyLine(m: Pairs, line: string, d: char): (r: Pairs)
    ensures r.Keys == m.Keys
    ensures forall k | k in m :: r[k] == if Names(line, d, k) then SplitLine(line, d).value.1 else m[k]
  {
    var split := SplitLine(line, d);
    if split.Some? && split.value.0 in m then m[split.value.0 := split.value.1] else m
  }

  /**
   * The effect of a run of lines, applied first to last. The key set never
   * changes. (The store only ever applies lines that all contain the
   * delimiter; `ApplyLine` leaves the table alone on any other.)
   */
  function ApplyLines(m: Pairs, lines: seq<string>, d: char): (r: Pairs)
    ensures r.Keys == m.Keys
    decreases |lines|
  {
    if lines == [] then m
    else ApplyLine(ApplyLines(m, lines[..|lines| - 1], d), lines[|lines| - 1], d)
  }

  /** Applying one more line of `lines` is applying it to the table reached so far. */
  lemma ApplyLinesStep(m: Pairs, lines: seq<string>, i: nat, d: char)
    requires i < |lines|
    ensures ApplyLines(m, lines[..i + 1], d) == ApplyLine(ApplyLines(m, lines[..i], d), lines[i], d)
  {
    assert lines[..i + 1][..i] == lines[..i];
  }

  /**
   * One pass of the `update` loop gets through `line`: the line holds the
   * delimiter, and the delimiter is one byte long in UTF-8, so that the value
   * slice starts on a character boundary.
   */
  predicate Accepted(line: string, d: char)
  {
    d in line && Utf8Len(d) == 1
  }

  /**
   * The index of the first line `update` cannot get through: every line
   * before it is accepted; `None` exactly when every line is.
   */
  function FirstBadLine(lines: seq<string>, d: char): (r: Option<nat>)
    ensures r.None? <==> forall j | 0 <= j < |lines| :: Accepted(lines[j], d)
    ensures r.Some? ==>
      && r.value < |lines|
      && !Accepted(lines[r.value], d)
      && forall j | 0 <= j < r.value :: Accepted(lines[j], d)
  {
    if lines == [] then None
    else if !Accepted(lines[0], d) then Some(0)
    else match FirstBadLine(lines[1..], d)
      case None => None
      case Some(j) => Some(j + 1)
  }

  /**
   * The table after `update` over `lines`: the lines before the first bad one
   * (all of them if none is bad) applied in order. No key is added or removed.
   */
  function UpdatedPairs(m: Pairs, lines: seq<string>, d: char): (r: Pairs)
    ensures r.Keys == m.Keys
  {
    match FirstBadLine(lines, d)
    case None => ApplyLines(m, lines, d)
    case Some(j) => ApplyLines(m, lines[..j], d)
  }

  /**
   * The outcome `update` reports for `lines`: success when every line is
   * accepted, otherwise the first bad line, as a missing delimiter when it
   * has none and as a slice inside the delimiter when it has one.
   */
  function UpdateOutcome(lines: seq<string>, d: char): (r: Outcome<UpdateError>)
    ensures r.Pass? <==> forall j | 0 <= j < |lines| :: Accepted(lines[j], d)
    ensures r.Fail? ==>
      && r.error.index < |lines|
      && r.error.line == lines[r.error.index]
      && !Accepted(r.error.line, d)
      && (r.error.BadLine? <==> d !in r.error.line)
      && forall j | 0 <= j < r.error.index :: Accepted(lines[j], d)
  {
    match FirstBadLine(lines, d)
    case None => Pass
    case Some(j) => LineError(lines[j], j, d)
  }

  /** The error `update` reports for a line it cannot get through. */
  function LineError(line: string, index: nat, d: char): Outcome<UpdateError>
  {
    if d !in line then Fail(BadLine(index, line)) else Fail(SliceInsideDelimiter(index, line))
  }

  /**
   * `update` stops at the first line it cannot get through: it reports that
   * line, and the lines before it are the ones applied.
   */
  lemma UpdateStopsAtFirstBadLine(m: Pairs, lines: seq<string>, d: char, i: nat)
    requires i < |lines| && !Accepted(lines[i], d)
    requires forall j | 0 <= j < i :: Accepted(lines[j], d)
    ensures UpdateOutcome(lines, d) == LineError(lines[i], i, d)
    ensures UpdatedPairs(m, lines, d) == ApplyLines(m, lines[..i], d)
  {
    assert FirstBadLine(lines, d) == Some(i);
  }

  // ---------------------------------------------------------------------------
  // Rendering

  /** One rendered entry, without its line terminator (see `RenderLineLayout`). */
  function RenderLine(k: string, v: string, d: char): string
  {
    k + [d] + " " + v
  }

  /** A rendered entry is the key, the delimiter, one space, then the value. */
  lemma RenderLineLayout(k: string, v: string, d: char)
    ensures |RenderLine(k, v, d)| == |k| + |v| + 2
    ensures RenderLine(k, v, d)[..|k|] == k
    ensures RenderLine(k, v, d)[|k|] == d && RenderLine(k, v, d)[|k| + 1] == ' '
    ensures RenderLine(k, v, d)[|k| + 2..] == v
  {
    var r := RenderLine(k, v, d);
    assert r == k + ([d] + " " + v);
    assert r[..|k|] == k;
    assert r[|k| + 2..] == v;
  }

  /** The rendered entries for the keys of `m` listed in `order`. */
  function RenderLines(order: seq<string>, m: Pairs, d: char): (r: seq<string>)
    requires forall k | k in order :: k in m
    ensures |r| == |order|
    ensures forall i | 0 <= i < |order| :: r[i] == RenderLine(order[i], m[order[i]], d)
    decreases |order|
  {
    if order == [] then []
    else RenderLines(order[..|order| - 1], m, d) + [RenderLine(order[|order| - 1], m[order[|order| - 1]], d)]
  }

  /** Lines each followed by a newline, as `writeln!` emits them. */
  function JoinLines(lines: seq<string>): string
    decreases |lines|
  {
    if lines == [] then "" else JoinLines(lines[..|lines| - 1]) + lines[|lines| - 1] + "\n"
  }

  // ---------------------------------------------------------------------------
  // The store

  class Conf {
    var pairs: Pairs
    var delim: Option<char>
    /** The file `update` reads; `update` here is given that file's lines. */
    var confFileName: string
    /** Set once an `update` has gone through all its lines; read by `is_updated`. */
    var updated: bool

    /** `Conf::from`: the defaults as the table, no delimiter, no file, not updated. */
    constructor From(defaults: seq<(string, string)>)
      ensures pairs == PairsFrom(defaults)
      ensures delim == None && confFileName == "" && !updated
    {
      pairs := PairsFrom(defaults);
      delim := None;
      confFileName := "";
      updated := false;
    }

    /** `with_delim`: sets the delimiter and nothing else. */
    method WithDelim(c: char)
      modifies this
      ensures delim == Some(c) && Delim() == c
      ensures pairs == old(pairs) && confFileName == old(confFileName) && updated == old(updated)
    {
      delim := Some(c);
    }

    /** `delim`: the configured delimiter, or ':' while none is set. */
    function Delim(): (c: char)
      reads this
      ensures delim.None? ==> c == ':'
      ensures delim.Some? ==> c == delim.value
    {
      match delim
      case None => DefaultDelim
      case Some(c) => c
    }

    /** `with_conf_file`: records the file name and nothing else. */
    method WithConfFile(name: string)
      modifies this
      ensures ConfFile() == name
      ensures pairs == old(pairs) && delim == old(delim) && updated == old(updated)
    {
      confFileName := name;
    }

    /**
     * `update`, given the lines of the configuration file. Each line is split
     * at the first delimiter and overrides the value of an existing key. A
     * line without the delimiter, or any line when the delimiter is more
     * than one byte long, stops the call with an error: the lines before it
     * stay applied, the ones after it are not looked at, and `updated` is
     * left as it was. Otherwise `updated` becomes true.
     */
    method Update(lines: seq<string>) returns (r: Outcome<UpdateError>)
      modifies this
      ensures r == UpdateOutcome(lines, old(Delim()))
      ensures pairs == UpdatedPairs(old(pairs), lines, old(Delim()))
      ensures pairs.Keys == old(pairs).Keys
      ensures IsUpdated() == (r.Pass? || old(IsUpdated()))
      ensures delim == old(delim) && confFileName == old(confFileName)
    {
      var d := Delim();
      var i := 0;
      while i < |lines|
        invariant 0 <= i <= |lines|
        invariant forall j | 0 <= j < i :: Accepted(lines[j], d)
        invariant pairs == ApplyLines(old(pairs), lines[..i], d)
        invariant delim == old(delim) && confFileName == old(confFileName) && updated == old(updated)
      {
        var ok := OverrideLine(lines[i], d);
        if !ok {
          UpdateStopsAtFirstBadLine(old(pairs), lines, d, i);
          return LineError(lines[i], i, d);
        }
        ApplyLinesStep(old(pairs), lines, i, d);
        i := i + 1;
      }
      assert lines[..i] == lines;
      assert FirstBadLine(lines, d) == None;
      updated := true;
      return Pass;
    }

    /** `conf_file`: the recorded file name. */
    function ConfFile(): (name: string)
      reads this
      ensures name == confFileName
    {
      confFileName
    }

    /** `is_updated`: whether an `update` has gone through all its lines. */
    function IsUpdated(): (b: bool)
      reads this
      ensures b <==> updated
    {
      updated
    }

    /**
     * The body of the `update` loop for one line: find the first delimiter
     * (the `expect` fails when there is none), slice the key and the value
     * (the value slice fails when the delimiter is more than one byte long),
     * and overwrite the value only if the key already exists. `false` where
     * `update` gives up; the table is then untouched.
     */
    method OverrideLine(line: string, d: char) returns (ok: bool)
      modifies this
      ensures ok <==> Accepted(line, d)
      ensures pairs == if ok then ApplyLine(old(pairs), line, d) else old(pairs)
      ensures delim == old(delim) && confFileName == old(confFileName) && updated == old(updated)
    {
      var split := SplitLine(line, d);
      if split.None? {
        return false;
      }
      if Utf8Len(d) != 1 {
        return false;
      }
      var key, value := split.value.0, split.value.1;
      if key in pairs {
        pairs := pairs[key := value];
      }
      return true;
    }

    /** `Index::index`: the stored value, or the empty string for an absent key; never fails. */
    function Index(key: string): (v: string)
      reads this
      ensures key in pairs ==> v == pairs[key]
      ensures key !in pairs ==> v == ""
    {
      if key in pairs then pairs[key] else ""
    }

    /**
     * `get::<T>`: the stored value parsed by `parse` (the target type's
     * `FromStr`); `None` both for an absent key and for a value that does not parse.
     */
    function Get<T>(key: string, parse: string -> Option<T>): (r: Option<T>)
      reads this
      ensures key !in pairs ==> r == None
      ensures key in pairs ==> r == parse(pairs[key])
    {
      if key in pairs then parse(pairs[key]) else None
    }

    /**
     * `Display::fmt`: one `key<delim> value` line per entry, in the order the
     * table iterates in (`order`, each key exactly once).
     */
    method Fmt() returns (out: string, order: seq<string>)
      ensures |order| == |pairs|
      ensures forall k :: k in order <==> k in pairs
      ensures forall i, j | 0 <= i < j < |order| :: order[i] != order[j]
      ensures out == JoinLines(RenderLines(order, pairs, Delim()))
    {
      var d := Delim();
      var remaining := pairs.Keys;
      out, order := "", [];
      while remaining != {}
        invariant remaining <= pairs.Keys
        invariant forall k :: k in order <==> k in pairs && k !in remaining
        invariant |order| + |remaining| == |pairs|
        invariant forall i, j | 0 <= i < j < |order| :: order[i] != order[j]
        invariant out == JoinLines(RenderLines(order, pairs, d))
        decreases remaining
      {
        var k :| k in remaining;
        var line := RenderLine(k, pairs[k], d);
        out := out + line + "\n";
        order := order + [k];
        remaining := remaining - {k};
      }
    }
  }
}
