/**
 * What the configuration store promises, proved about the functions that
 * specify it: which line's value a key ends up with, what a bad line stops,
 * idempotence, reading the defaults back, splitting at the first delimiter,
 * and reloading the rendered table.
 */
module ConfProperties {
  import opened Wrappers
  import opened Text
  import opened Conf

  // ---------------------------------------------------------------------------
  // Construction

  /** A default pair is read back from the table unless a later default repeats its key. */
  lemma {:induction false} DefaultsReadBack(defaults: seq<(string, string)>, i: nat)
    requires i < |defaults|
    requires forall l | i < l < |defaults| :: defaults[l].0 != defaults[i].0
    ensures defaults[i].0 in PairsFrom(defaults)
    ensures PairsFrom(defaults)[defaults[i].0] == defaults[i].1
    decreases |defaults|
  {
    var n := |defaults| - 1;
    if i < n {
      var front := defaults[..n];
      assert PairsFrom(defaults) == PairsFrom(front)[defaults[n].0 := defaults[n].1];
      assert front[i] == defaults[i];
      assert forall l | i < l < |front| :: front[l] == defaults[l];
      DefaultsReadBack(front, i);
    }
  }

  // ---------------------------------------------------------------------------
  // Trimming and splitting

  /** A string with no whitespace at either end is its own trim. */
  lemma TrimIdempotent(s: string)
    requires IsTrimmed(s)
    ensures Trim(s) == s
  {
    TrimIsCut(s, 0, |s|);
  }

  /** Trimming a string that starts with a space is trimming the rest. */
  lemma TrimLeadingSpace(v: string)
    requires IsTrimmed(v)
    ensures Trim(" " + v) == v
  {
    var s := " " + v;
    TrimIsCut(s, 1, |s|);
    assert s[1..] == v;
  }

  /**
   * A line splits at its first delimiter: whatever the part after it holds
   * (more delimiters included), the key is the trimmed part before it and
   * the value the trimmed rest.
   */
  lemma SplitFirstDelimiter(prefix: string, d: char, suffix: string)
    requires d !in prefix
    ensures SplitLine(prefix + [d] + suffix, d) == Some((Trim(prefix), Trim(suffix)))
  {
    var line := prefix + [d] + suffix;
    var i := |prefix|;
    assert line[..i] == prefix;
    assert line[i + 1..] == suffix;
    assert forall j | 0 <= j < i :: line[j] == prefix[j];
    SplitAtFirst(line, d, i);
  }

  /** `host:127.0.0.1:8080` names `host` with the value `127.0.0.1:8080`. */
  lemma SplitHostAndPort()
    ensures SplitLine("host:127.0.0.1:8080", ':') == Some(("host", "127.0.0.1:8080"))
  {
    assert "host:127.0.0.1:8080" == "host" + [':'] + "127.0.0.1:8080";
    SplitFirstDelimiter("host", ':', "127.0.0.1:8080");
    TrimIdempotent("host");
    TrimIdempotent("127.0.0.1:8080");
  }

  /** The whitespace around the key and the value does not count: `  a  :  9  ` names `a` with `9`. */
  lemma SplitTrimsBothSides()
    ensures SplitLine("  a  :  9  ", ':') == Some(("a", "9"))
  {
    SpacedLineParts();
    SplitFirstDelimiter("  a  ", ':', "  9  ");
    SpacedTrims();
  }

  /** `  a  :  9  ` is `  a  `, the delimiter, then `  9  `. */
  lemma SpacedLineParts()
    ensures "  a  :  9  " == "  a  " + [':'] + "  9  "
  {
  }

  /** `  a  ` trims to `a` and `  9  ` to `9`. */
  lemma SpacedTrims()
    ensures Trim("  a  ") == "a" && Trim("  9  ") == "9"
  {
    assert "  a  " == "  " + ['a'] + "  ";
    TrimPadded('a');
    assert "  9  " == "  " + ['9'] + "  ";
    TrimPadded('9');
  }

  /** Two spaces on either side of a character are trimmed away. */
  lemma TrimPadded(c: char)
    requires !IsWhitespace(c)
    ensures Trim("  " + [c] + "  ") == [c]
  {
    var s := "  " + [c] + "  ";
    TrimIsCut(s, 2, 3);
    assert s[2..3] == [c];
  }

  // ---------------------------------------------------------------------------
  // Which value a key ends up with

  /** The index of the last line that names `k`, if any. */
  function LastNaming(lines: seq<string>, d: char, k: string): (r: Option<nat>)
    ensures r.None? <==> forall l | 0 <= l < |lines| :: !Names(lines[l], d, k)
    ensures r.Some? ==>
      && r.value < |lines|
      && Names(lines[r.value], d, k)
      && forall l | r.value < l < |lines| :: !Names(lines[l], d, k)
    decreases |lines|
  {
    if lines == [] then None
    else if Names(lines[|lines| - 1], d, k) then Some(|lines| - 1)
    else
      var r := LastNaming(lines[..|lines| - 1], d, k);
      assert forall l | 0 <= l < |lines| - 1 :: lines[..|lines| - 1][l] == lines[l];
      r
  }

  /**
   * The value of every key after a run of lines: the value of the last line
   * naming it, or its old value when no line names it.
   */
  lemma {:induction false} ApplyLinesValue(m: Pairs, lines: seq<string>, d: char, k: string)
    requires k in m
    ensures ApplyLines(m, lines, d)[k] ==
      match LastNaming(lines, d, k)
      case None => m[k]
      case Some(j) => SplitLine(lines[j], d).value.1
    decreases |lines|
  {
    if lines != [] {
      var front := lines[..|lines| - 1];
      assert forall l | 0 <= l < |front| :: front[l] == lines[l];
      ApplyLinesValue(m, front, d, k);
    }
  }

  /** A key takes the value of the last line that names it. */
  lemma ApplyLinesLastWins(m: Pairs, lines: seq<string>, d: char, j: nat, k: string)
    requires k in m
    requires j < |lines| && Names(lines[j], d, k)
    requires forall l | j < l < |lines| :: !Names(lines[l], d, k)
    ensures ApplyLines(m, lines, d)[k] == SplitLine(lines[j], d).value.1
  {
    ApplyLinesValue(m, lines, d, k);
  }

  /** A key that no line names keeps its value. */
  lemma ApplyLinesKeepsUnnamed(m: Pairs, lines: seq<string>, d: char, k: string)
    requires k in m
    requires forall l | 0 <= l < |lines| :: !Names(lines[l], d, k)
    ensures ApplyLines(m, lines, d)[k] == m[k]
  {
    ApplyLinesValue(m, lines, d, k);
  }

  /** Applying the same lines a second time changes nothing. */
  lemma ApplyLinesIdempotent(m: Pairs, lines: seq<string>, d: char)
    ensures ApplyLines(ApplyLines(m, lines, d), lines, d) == ApplyLines(m, lines, d)
  {
    var once := ApplyLines(m, lines, d);
    var twice := ApplyLines(once, lines, d);
    forall k | k in once
      ensures twice[k] == once[k]
    {
      ApplyLinesValue(m, lines, d, k);
      ApplyLinesValue(once, lines, d, k);
    }
  }

  // ---------------------------------------------------------------------------
  // What `update` applies

  /** Once a line is bad, the lines after it have no effect on the table or the outcome. */
  lemma UpdateIgnoresLinesAfterBadLine(m: Pairs, lines: seq<string>, rest: seq<string>, d: char)
    requires UpdateOutcome(lines, d).Fail?
    ensures UpdateOutcome(lines + rest, d) == UpdateOutcome(lines, d)
    ensures UpdatedPairs(m, lines + rest, d) == UpdatedPairs(m, lines, d)
  {
    var j := FirstBadLine(lines, d).value;
    var all := lines + rest;
    assert all[j] == lines[j];
    assert forall l | 0 <= l < j :: all[l] == lines[l];
    UpdateStopsAtFirstBadLine(m, all, d, j);
    UpdateStopsAtFirstBadLine(m, lines, d, j);
    assert all[..j] == lines[..j];
  }

  /**
   * With a delimiter longer than one byte in UTF-8, `update` over any
   * non-empty file gives up on its first line (at the `expect` or at the
   * value slice) and leaves the table as it was.
   */
  lemma MultiByteDelimiterFailsOnFirstLine(m: Pairs, lines: seq<string>, d: char)
    requires |lines| > 0 && Utf8Len(d) > 1
    ensures UpdateOutcome(lines, d) == LineError(lines[0], 0, d)
    ensures UpdatedPairs(m, lines, d) == m
  {
    UpdateStopsAtFirstBadLine(m, lines, d, 0);
    assert lines[..0] == [];
  }

  /** With `é` (two bytes in UTF-8) as the delimiter, the line `aéb` fails at the value slice. */
  lemma UpdateRejectsMultiByteDelimiter()
    ensures UpdateOutcome(["a\U{e9}b"], '\U{e9}') == Fail(SliceInsideDelimiter(0, "a\U{e9}b"))
    ensures UpdatedPairs(map["a" := "1"], ["a\U{e9}b"], '\U{e9}') == map["a" := "1"]
  {
    var lines := ["a\U{e9}b"];
    assert lines[0][1] == '\U{e9}';
    MultiByteDelimiterFailsOnFirstLine(map["a" := "1"], lines, '\U{e9}');
  }

  /** Running `update` twice over the same lines leaves the table as one run does. */
  lemma UpdatedPairsIdempotent(m: Pairs, lines: seq<string>, d: char)
    ensures UpdatedPairs(UpdatedPairs(m, lines, d), lines, d) == UpdatedPairs(m, lines, d)
  {
    match FirstBadLine(lines, d)
    case None => ApplyLinesIdempotent(m, lines, d);
    case Some(j) => ApplyLinesIdempotent(m, lines[..j], d);
  }

  /** Lines only override existing keys: `c:5` is ignored when there is no `c`. */
  lemma UpdateOverridesOnlyExistingKeys()
    ensures var m := map["a" := "1", "b" := "2"];
      && UpdateOutcome(["a:9", "c:5"], ':') == Pass
      && UpdatedPairs(m, ["a:9", "c:5"], ':') == map["a" := "9", "b" := "2"]
  {
    var lines := ["a:9", "c:5"];
    assert ':' in lines[0] && ':' in lines[1];
    assert Accepted(lines[0], ':') && Accepted(lines[1], ':');
    assert FirstBadLine(lines, ':') == None;
    OverrideOfA();
    IgnoreC();
    ApplyTwoLines(map["a" := "1", "b" := "2"], "a:9", "c:5", ':');
  }

  /** `a:9` overrides `a` and leaves `b` alone. */
  lemma OverrideOfA()
    ensures ApplyLine(map["a" := "1", "b" := "2"], "a:9", ':') == map["a" := "9", "b" := "2"]
  {
    LineSplitsAs("a:9", "a", "9");
    assert map["a" := "1", "b" := "2"]["a" := "9"] == map["a" := "9", "b" := "2"];
  }

  /** `c:5` names no existing key and changes nothing. */
  lemma IgnoreC()
    ensures ApplyLine(map["a" := "9", "b" := "2"], "c:5", ':') == map["a" := "9", "b" := "2"]
  {
    LineSplitsAs("c:5", "c", "5");
    assert "c"[0] != "a"[0] && "c"[0] != "b"[0];
    assert "c" !in map["a" := "9", "b" := "2"];
  }

  /** Two lines are applied one after the other. */
  lemma ApplyTwoLines(m: Pairs, first: string, second: string, d: char)
    ensures ApplyLines(m, [first, second], d) == ApplyLine(ApplyLine(m, first, d), second, d)
  {
    assert [first, second][..1] == [first];
    assert [first][..0] == [];
    assert ApplyLines(m, [first], d) == ApplyLine(m, first, d);
  }

  /** A malformed line in the middle: the line before it is applied, the one after it is not. */
  lemma UpdateAbortsOnMalformedLine()
    ensures var m := map["a" := "1", "b" := "2"];
      && UpdateOutcome(["a:9", "badline", "b:3"], ':') == Fail(BadLine(1, "badline"))
      && UpdatedPairs(m, ["a:9", "badline", "b:3"], ':') == map["a" := "9", "b" := "2"]
  {
    var m := map["a" := "1", "b" := "2"];
    var lines := ["a:9", "badline", "b:3"];
    assert ':' in lines[0] && Accepted(lines[0], ':');
    assert forall i | 0 <= i < |lines[1]| :: lines[1][i] != ':';
    UpdateStopsAtFirstBadLine(m, lines, ':', 1);
    assert lines[..1] == ["a:9"] && lines[..1][..0] == [];
    assert ApplyLines(m, lines[..1], ':') == ApplyLine(m, "a:9", ':');
    OverrideOfA();
  }

  /** A one-character key and value around the delimiter split back into themselves. */
  lemma LineSplitsAs(line: string, k: string, v: string)
    requires line == k + ":" + v
    requires |k| == 1 && |v| == 1 && k[0] != ':'
    requires !IsWhitespace(k[0]) && !IsWhitespace(v[0])
    ensures SplitLine(line, ':') == Some((k, v))
  {
    assert line == k + [':'] + v;
    SplitFirstDelimiter(k, ':', v);
    TrimIdempotent(k);
    TrimIdempotent(v);
  }

  // ---------------------------------------------------------------------------
  // Reloading what `Display` renders

  /**
   * The rendered line of a trimmed key without the delimiter and a trimmed
   * value splits back into that key and value.
   */
  lemma RenderedLineSplits(k: string, v: string, d: char)
    requires d !in k && IsTrimmed(k) && IsTrimmed(v)
    ensures SplitLine(RenderLine(k, v, d), d) == Some((k, v))
  {
    assert RenderLine(k, v, d) == k + [d] + (" " + v);
    SplitFirstDelimiter(k, d, " " + v);
    TrimIdempotent(k);
    TrimLeadingSpace(v);
  }

  /**
   * The last rendered entry naming a listed key carries that key's value:
   * every entry names its own key and no other.
   */
  lemma RenderedValue(order: seq<string>, m: Pairs, d: char, k: string)
    requires forall k | k in order :: k in m && d !in k && IsTrimmed(k) && IsTrimmed(m[k])
    requires k in order
    ensures LastNaming(RenderLines(order, m, d), d, k).Some?
    ensures SplitLine(RenderLines(order, m, d)[LastNaming(RenderLines(order, m, d), d, k).value], d).value.1 == m[k]
  {
    var lines := RenderLines(order, m, d);
    var l :| 0 <= l < |order| && order[l] == k;
    RenderedLineSplits(k, m[k], d);
    assert Names(lines[l], d, k);
    var j := LastNaming(lines, d, k).value;
    RenderedLineSplits(order[j], m[order[j]], d);
  }

  /**
   * Display and reload invert each other: feeding the rendered entries of
   * `m`, every key listed, to `update` on any table with the same keys (a
   * store freshly built from the same defaults, say) succeeds and yields
   * `m`, provided the delimiter is one byte long, no key holds it, and keys
   * and values carry no surrounding whitespace.
   */
  lemma RenderedLinesReload(order: seq<string>, m: Pairs, start: Pairs, d: char)
    requires Utf8Len(d) == 1
    requires forall k | k in order :: k in m && d !in k && IsTrimmed(k) && IsTrimmed(m[k])
    requires forall k | k in m :: k in order
    requires start.Keys == m.Keys
    ensures UpdateOutcome(RenderLines(order, m, d), d) == Pass
    ensures UpdatedPairs(start, RenderLines(order, m, d), d) == m
  {
    RenderedLinesAccepted(order, m, d);
    RenderedLinesRecover(order, m, start, d);
  }

  /** Every rendered entry gets through the `update` loop when the delimiter is one byte long. */
  lemma RenderedLinesAccepted(order: seq<string>, m: Pairs, d: char)
    requires Utf8Len(d) == 1
    requires forall k | k in order :: k in m
    ensures UpdateOutcome(RenderLines(order, m, d), d) == Pass
  {
    var lines := RenderLines(order, m, d);
    forall j | 0 <= j < |lines|
      ensures Accepted(lines[j], d)
    {
      RenderLineLayout(order[j], m[order[j]], d);
    }
  }

  /** Applying the rendered entries of `m`, every key listed, to a table with the same keys gives `m`. */
  lemma RenderedLinesRecover(order: seq<string>, m: Pairs, start: Pairs, d: char)
    requires forall k | k in order :: k in m && d !in k && IsTrimmed(k) && IsTrimmed(m[k])
    requires forall k | k in m :: k in order
    requires start.Keys == m.Keys
    ensures ApplyLines(start, RenderLines(order, m, d), d) == m
  {
    var r := ApplyLines(start, RenderLines(order, m, d), d);
    forall k | k in r
      ensures r[k] == m[k]
    {
      RenderedKeyRecovered(order, m, start, d, k);
    }
    SameEntries(r, m);
  }

  /** Two tables with the same keys and the same value at every key are equal. */
  lemma SameEntries(r: Pairs, m: Pairs)
    requires r.Keys == m.Keys
    requires forall k | k in r :: r[k] == m[k]
    ensures r == m
  {
  }

  /** One listed key: after the rendered entries it holds its value in `m`. */
  lemma RenderedKeyRecovered(order: seq<string>, m: Pairs, start: Pairs, d: char, k: string)
    requires forall k | k in order :: k in m && d !in k && IsTrimmed(k) && IsTrimmed(m[k])
    requires k in order && k in start
    ensures ApplyLines(start, RenderLines(order, m, d), d)[k] == m[k]
  {
    RenderedValue(order, m, d, k);
    ApplyLinesValue(start, RenderLines(order, m, d), d, k);
  }
}
