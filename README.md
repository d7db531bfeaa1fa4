# confee `Conf` store, modelled in Dafny

confee keeps an application's configuration in a `Conf` value. `Conf` is a flat
table from string keys to string values and is built from a fixed set of
default pairs. A configuration file can then override the values of existing
keys. Each line of the file has the form `key<delim>value`. The delimiter
defaults to `:` and can be changed with `with_delim`. Values are read back
in three ways:

- `get::<T>` parses the stored value.
- Indexing returns the raw string, or an empty string for a missing key.
- `Display` renders one `key<delim> value` line per entry.

The project has four modules:

- `Wrappers` (`wrappers.dfy`): `Option` and `Outcome`.
- `Text` (`text.dfy`): the parts of Rust's string library the store uses, on
  strings seen as sequences of Unicode scalar values. These are
  `char::is_whitespace` (the Unicode White_Space set), `str::trim` and
  `str::find` with a `char` pattern. Trim and find are pure functions. Their
  properties are lemmas: `Trim` is the unique trimmed slice reached by cutting
  whitespace at the ends, and `FindFirst` is the first occurrence.
- `Conf` (`conf.dfy`):
  - the specification functions `PairsFrom`, `SplitLine`, `ApplyLine`,
    `ApplyLines`, `FirstBadLine`, `UpdatedPairs`, `UpdateOutcome` and
    `RenderLines`;
  - the class `Conf`, whose fields (`pairs`, `delim`, `confFileName`,
    `updated`) are updated in place by its methods, as in the Rust struct.
    `Update` is the line loop of `update`, proved against `UpdatedPairs` and
    `UpdateOutcome`.
- `ConfProperties` (`conf_properties.dfy`): what the store promises, proved
  about those functions. It covers:
  - the last line naming a key wins;
  - unnamed keys keep their values;
  - keys are never added or removed;
  - a bad line stops the update and nothing after it matters;
  - idempotence;
  - default pairs read back;
  - first-delimiter splitting;
  - concrete examples;
  - rendered entries reload to the same table.

`update` reads its file and splits the contents into lines. Here it receives
those lines as a sequence instead. `update` panics in two places, and the
model returns an error for each:

- On a line without the delimiter (the `expect`), it returns
  `Fail(BadLine(index, line))`.
- On a line that holds a delimiter more than one byte long in UTF-8, it
  returns `Fail(SliceInsideDelimiter(index, line))`. `str::find` gives the
  byte offset of the delimiter's first byte, so the value slice `line[i + 1..]`
  would start inside the delimiter. With such a delimiter, any non-empty file
  fails on its first line.

The pairs changed by earlier lines stay changed, and `updated` is left
untouched, just as the state is left when the panic unwinds. With a one-byte
delimiter, byte offsets and character positions pick out the same key and
value, so the model counts characters.

## Model

| member | source | states |
|---|---|---|
| Conf.PairsFrom | src/conf.rs:18-20 | the table built from the defaults holds exactly the default keys |
| ConfProperties.DefaultsReadBack | src/conf.rs:18-20 | a default pair whose key no later default repeats is read back from the table |
| Conf.Conf.From | src/conf.rs:18-26 | a new store holds the default table, no delimiter, an empty file name, and is not updated |
| Conf.Conf.WithDelim | src/conf.rs:28-31 | sets the delimiter, which `Delim` then returns; the other fields are unchanged |
| Conf.Conf.Delim | src/conf.rs:32-34 | the configured delimiter, or `:` when none is set |
| Conf.Conf.WithConfFile | src/conf.rs:36-39 | records the file name, which `ConfFile` then returns; the other fields are unchanged |
| Conf.Conf.ConfFile | src/conf.rs:40-42 | the recorded file name |
| Conf.Conf.IsUpdated | src/conf.rs:66-68 | the `updated` flag: false on a new store, set by an `Update` that gets through all its lines, untouched by one that fails |
| Text.FindFirst | src/conf.rs:47-48 | a position `str::find` returns lies inside the line (see `FindFirstSpec`) |
| Text.FindFromSpec | src/conf.rs:47-48 | searching from a position finds nothing exactly when the character is absent after it, otherwise its first occurrence there |
| Text.FindFirstSpec | src/conf.rs:47-48 | `str::find` is `None` exactly when the character is absent, otherwise its first position |
| Text.Utf8Len | src/conf.rs:48-51 | the UTF-8 width of the delimiter, one to four bytes; only a one-byte delimiter lets the value slice start on a character boundary |
| Text.Trim | src/conf.rs:50-51 | the trimmed string is no longer than the input (see `TrimIsTrimmed`, `TrimIsSlice`, `TrimUnique`) |
| Text.SkipWhitespaceSpec | src/conf.rs:50-51 | the leading scan passes only whitespace and stops at a non-whitespace character or the end |
| Text.SkipWhitespaceBackSpec | src/conf.rs:50-51 | the trailing scan passes only whitespace and stops after a non-whitespace character or at the lower bound |
| Text.SkipWhitespaceStopsAt | src/conf.rs:50-51 | the leading scan stops exactly at the first non-whitespace character |
| Text.SkipWhitespaceBackStopsAt | src/conf.rs:50-51 | the trailing scan stops exactly after the last non-whitespace character |
| Text.TrimIsTrimmed | src/conf.rs:50-51 | a trimmed string starts and ends with non-whitespace, or is empty |
| Text.TrimIsSlice | src/conf.rs:50-51 | `trim` only cuts whitespace at the two ends of the string |
| Text.TrimUnique | src/conf.rs:50-51 | any trimmed part reached by cutting whitespace at the ends is the result of `trim` |
| Text.TrimIsCut | src/conf.rs:50-51 | cutting at the first and after the last non-whitespace character, with only whitespace outside, is `trim` |
| Text.TrimAddsNothing | src/conf.rs:50-51 | trimming introduces no character that the string did not contain |
| ConfProperties.TrimIdempotent | src/conf.rs:50-51 | a string without whitespace at its ends is unchanged by `trim` |
| ConfProperties.TrimLeadingSpace | src/conf.rs:51 | the value after a delimiter and a space trims to the stored value |
| ConfProperties.TrimPadded | src/conf.rs:50-51 | one non-whitespace character with exactly two spaces on each side trims to that character |
| ConfProperties.SpacedTrims | src/conf.rs:50-51 | `  a  ` trims to `a` and `  9  ` to `9` |
| Conf.SplitLine | src/conf.rs:47-51 | a line yields a key and a value exactly when it contains the delimiter (whether the value slice is valid is `Accepted`'s concern) |
| Conf.SplitAtFirst | src/conf.rs:47-51 | the key is the trimmed text before the first delimiter, the value the trimmed text after it |
| Conf.SplitKeyLacksDelimiter | src/conf.rs:47-50 | a key read from a line never contains the delimiter |
| ConfProperties.SplitFirstDelimiter | src/conf.rs:47-51 | a line `prefix<d>suffix` whose prefix has no delimiter splits into the trimmed prefix and the trimmed suffix, whatever the suffix holds |
| ConfProperties.SplitHostAndPort | src/conf.rs:47-51 | `host:127.0.0.1:8080` gives key `host` and value `127.0.0.1:8080` |
| ConfProperties.SplitTrimsBothSides | src/conf.rs:50-51 | `  a  :  9  ` gives key `a` and value `9` |
| ConfProperties.LineSplitsAs | src/conf.rs:47-51 | a line of one-character key, `:` and one-character value splits into that key and value |
| Conf.ApplyLine | src/conf.rs:52-54 | one line keeps the key set; the key it names takes the line's value, every other key keeps its value |
| Conf.ApplyLines | src/conf.rs:46-55 | applying override lines never adds or removes a key |
| Conf.ApplyLinesStep | src/conf.rs:46-55 | applying one more line is applying it to the table reached so far |
| ConfProperties.ApplyTwoLines | src/conf.rs:46-55 | two lines are applied in file order |
| ConfProperties.LastNaming | src/conf.rs:46-55 | the index of the last line naming a key is that line, and no later line names the key |
| ConfProperties.ApplyLinesValue | src/conf.rs:52-54 | after a run of lines each key holds the value of the last line naming it, or its old value |
| ConfProperties.ApplyLinesLastWins | src/conf.rs:46-55 | a key takes the value of the last line that names it |
| ConfProperties.ApplyLinesKeepsUnnamed | src/conf.rs:52-54 | a key that no line names keeps its value; an unknown key is never inserted |
| ConfProperties.ApplyLinesIdempotent | src/conf.rs:46-55 | applying the same lines twice gives the table of applying them once |
| Conf.FirstBadLine | src/conf.rs:47-51 | the first line the loop cannot get through (no delimiter, or a delimiter longer than one byte), every earlier line accepted; none exactly when all are accepted |
| Conf.UpdatedPairs | src/conf.rs:44-57 | the table after `update` keeps its key set |
| Conf.UpdateOutcome | src/conf.rs:44-57 | `update` succeeds exactly when every line is accepted; otherwise it names the first bad line, as `BadLine` exactly when that line lacks the delimiter and as `SliceInsideDelimiter` otherwise |
| Conf.UpdateStopsAtFirstBadLine | src/conf.rs:46-51 | a failing update reports the first line not accepted and applies exactly the lines before it |
| ConfProperties.UpdateIgnoresLinesAfterBadLine | src/conf.rs:46-51 | lines after a bad line affect neither the outcome nor the table |
| ConfProperties.MultiByteDelimiterFailsOnFirstLine | src/conf.rs:47-51 | with a delimiter longer than one byte, any non-empty file fails on its first line and leaves the table unchanged |
| ConfProperties.UpdateRejectsMultiByteDelimiter | src/conf.rs:47-51 | with delimiter `é`, the line `aéb` fails with `SliceInsideDelimiter` at line 0 and the table is unchanged |
| ConfProperties.UpdatedPairsIdempotent | src/conf.rs:44-57 | running `update` twice over the same lines leaves the table of a single run |
| ConfProperties.OverrideOfA | src/conf.rs:52-54 | with `a=1, b=2`, the line `a:9` gives `a=9, b=2` |
| ConfProperties.IgnoreC | src/conf.rs:52-54 | with `a=9, b=2`, the line `c:5` changes nothing |
| ConfProperties.UpdateOverridesOnlyExistingKeys | src/conf.rs:52-54 | with `a=1, b=2`, the lines `a:9` and `c:5` give `a=9, b=2` and success |
| ConfProperties.UpdateAbortsOnMalformedLine | src/conf.rs:46-55 | with `a=1, b=2`, the lines `a:9`, `badline`, `b:3` fail at line 1 and give `a=9, b=2` |
| Conf.Conf.Update | src/conf.rs:44-57 | the outcome is `UpdateOutcome` and the table is `UpdatedPairs` for the lines and the delimiter; keys are kept; `IsUpdated` becomes true on success and is left alone on failure; delimiter and file name are unchanged |
| Conf.Conf.OverrideLine | src/conf.rs:47-54 | one loop step succeeds exactly when the line is accepted; it then overwrites only an existing key, and on failure leaves the table untouched |
| Conf.Conf.Index | src/conf.rs:78-80 | the stored value for a present key, the empty string for an absent one |
| Conf.Conf.Get | src/conf.rs:70-72 | `None` for an absent key, otherwise the parse of the stored value |
| Conf.RenderLineLayout | src/conf.rs:91-97 | a rendered entry is the key, the delimiter, one space, then the value |
| Conf.RenderLines | src/conf.rs:84-98 | one `key<delim> value` entry per listed key, in that order |
| Conf.Conf.Fmt | src/conf.rs:83-100 | every key is rendered exactly once, in the order returned, as `key<delim> value` followed by a newline |
| ConfProperties.RenderedLineSplits | src/conf.rs:91-97 | a rendered entry splits back into its key and value when the key lacks the delimiter and both are trimmed |
| ConfProperties.RenderedValue | src/conf.rs:83-100 | the last rendered entry naming a listed key carries that key's value |
| ConfProperties.RenderedLinesAccepted | src/conf.rs:83-100 | with a one-byte delimiter, `update` gets through every rendered entry |
| ConfProperties.RenderedKeyRecovered | src/conf.rs:83-100 | after the rendered entries, a listed key holds its rendered value, whatever it held before |
| ConfProperties.RenderedLinesRecover | src/conf.rs:83-100 | applying the rendered entries, every key listed, to any table with the same keys gives the rendered table |
| ConfProperties.RenderedLinesReload | src/conf.rs:83-100 | display and reload invert each other: feeding the rendered entries to `update` on any table with the same keys succeeds and yields the rendered table, for a one-byte delimiter, keys without it, and trimmed keys and values |

## Left out

- File reading (`read_lines`, src/conf.rs:58-64): `Update` receives the file's lines as a parameter. A missing or unreadable file, where `unwrap` panics, is not modelled.
- `str::lines` splitting: how the file text becomes lines is not modelled. This includes `\r\n` handling and the empty final line. For the same reason the reload lemmas start from the rendered entries, not from the joined text.
- Conf.Conf.Update: the two panics of `update` (the `expect` and the value slice) are modelled as returned errors, `BadLine` and `SliceInsideDelimiter`. The state the model leaves is the state at the panic.
- Conf.PairsFrom: repeated default keys keep the last value. Rust's `HashMap::from` gives no order guarantee among duplicates, and the lemmas rely on this only for keys that are not repeated later.
- Conf.Conf.Get: the concrete `FromStr` parsers are not modelled. The parser is a function parameter.
- Byte offsets: the model counts characters, not bytes. Only the outcome of slicing is modelled: a one-byte delimiter gives the same key and value either way, and a longer one is the `SliceInsideDelimiter` error. Byte offsets themselves are not modelled.
- Text.IsWhitespace and Conf.JoinLines are plain definitions, `char::is_whitespace` and the newline after each `writeln!` entry. They carry no contract of their own and are used through the rows above.
- Conf.Conf.Fmt: the iteration order of the `HashMap` is modelled as an arbitrary order of the keys, returned alongside the text. A `Formatter` write error (`?`) is not modelled. Rendering an empty value through the shared empty string is the same text, so it is not modelled separately.
- `empty_string`: the shared empty string that indexing returns is modelled as the value `""`.
- Chaining: `with_delim` and `with_conf_file` return `&mut Self` for chaining. The methods here return nothing.
- `Debug` derive: not modelled.
- examples/main.rs: not part of this model.
