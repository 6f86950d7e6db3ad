# tez in Dafny

A Dafny model of the core of tez, an interactive fuzzy line filter. tez reads lines from standard input and lets the user type a query. It shows the matching lines in a scrollable list. Key binds map keys to actions.

The model covers five parts of the program:

- **The list cursor** (`Lazy`). The selection is `None`, `Start(k)` (counted from the first row) or `End(k)` (counted from the last row). The list keeps growing while lines arrive, and the cursor stays anchored to the edge the user last wrapped past. The model covers `set_len`, `next`, `previous`, `position`, `update_offset` and `real_position`, and the `LazyList` wrapper that delegates to them.
- **The search driver** (`Search`):
  - the debounced sender, which lets a redraw notification through only when more than the delay has passed since the last one;
  - the pattern update, which skips repeated patterns and flags extensions;
  - the window of results handed to the list.
- **The bind grammar**:
  - key specifications such as `ctrl+alt+a` (`Keys`);
  - the colon-group scan `find_last_adjacent` (`Utils`);
  - `key:action` binds (`Binding`);
  - action names (`Actions`).
- **The bind table and configuration merging**:
  - the bind table with its overriding merge and its no-clobber default binds (`BindTable`);
  - the configuration and the merge order of `load` (`AppConfig`);
  - the shared viewport settings and their placement arithmetic, in both revisions of the source (`Common`, `Partial` and `Layout`).
- **Small value parsers and decode tables**:
  - extents and alignments in their current (`Extents`, `Alignments`) and older (`LegacyExtents`, `LegacyAlignments`) forms;
  - the key-event decode tables (`Events`, `LegacyActions`);
  - the run flag (`AppState`).

How Rust types become Dafny types:

- Rust strings are `seq<char>`. Where the code mixes byte offsets with char counts, byte lengths are computed explicitly (`RustStr.Utf8Len`).
- `usize` is `nat`. `u8`, `u16`, `u32` and `i32` are bounded subset types of `int`.
- Each subtraction that can underflow in the source is a precondition of the member that performs it.

Objects whose methods update fields in place are classes:

- `LazyState`, `LazyList`, `Binds`, `CommonConfig`, `Config`, `State`, `DebouncedSender` and `Searcher`;
- each method states its whole new state in terms of a specification function of the old state.

Pure code is functions and lemmas. `Wrappers` holds `Option` and `Result`. `RustStr` holds the parts of Rust's standard library the parsers rely on:

- `trim`;
- `split`;
- `strip_prefix` and `strip_suffix`;
- integer parsing and formatting;
- the syntax of `f32` literals.

## Model

| member | source | states |
|---|---|---|
| Lazy.Resolve | src/tui/lazy.rs:68-74 | `position`: None exactly for no selection. `Start(k)` is row k and `End(k)` is the row k from the last. Under the invariant the row is below the length. An `End(k)` selection needs `k < len` to avoid underflow |
| Lazy.Clamped | src/tui/lazy.rs:29-36 | the selection `set_len` leaves keeps its tag. `k` becomes `min(k, len - 1)`, so a smaller `k` is unchanged. The result is in range. A selection on an empty list underflows |
| Lazy.Stepped | src/tui/lazy.rs:38-45 | `next` gives no selection exactly on an empty list, and it keeps the in-range invariant. From the last row or from no selection it wraps to `Start(0)`, so the cursor is then anchored at the start. Otherwise `Start(k)` becomes `Start(k + 1)` and `End(k)` becomes `End(k - 1)`, keeping the anchor |
| Lazy.SteppedBack | src/tui/lazy.rs:47-54 | `previous` gives no selection exactly on an empty list, and it keeps the in-range invariant. From the first row or from no selection it wraps to `End(0)`, so the cursor is then anchored at the end. Otherwise `End(k)` becomes `End(k + 1)` and `Start(k)` becomes `Start(k - 1)`, keeping the anchor |
| Lazy.NextWraps | src/tui/lazy.rs:38-45 | on a non-empty list, `next` moves the absolute row p to `(p + 1) mod len`, and from no selection to row 0 |
| Lazy.PreviousWraps | src/tui/lazy.rs:47-54 | on a non-empty list, `previous` moves the absolute row p to `(p + len - 1) mod len`, and from no selection to the last row |
| Lazy.StepsUndo | src/tui/lazy.rs:38-54 | `previous` after `next`, and `next` after `previous`, come back to the same absolute row |
| Lazy.NextN | src/tui/lazy.rs:38-45 | any number of `next` calls keeps the selection in range, and a selection on a non-empty list stays a selection |
| Lazy.NextCycle | src/tui/lazy.rs:38-45 | n calls of `next` advance the absolute row by n modulo the length, so the cursor walks the list cyclically |
| Lazy.GrowthKeepsAnchor | src/tui/lazy.rs:29-36 | when the list only grows, `set_len` leaves an in-range selection exactly as it was |
| Lazy.WrapForwardStaysFirst | src/tui/lazy.rs:9-45 | the direction of the last wrap is remembered: after `next` wraps past the last row, or selects for the first time, the cursor stays on the first row however many rows arrive |
| Lazy.WrapBackStaysLast | src/tui/lazy.rs:9-54 | after `previous` wraps past the first row, or selects for the first time, the cursor stays on the last row as more rows arrive |
| Lazy.Window | src/tui/lazy.rs:56-62 | the clamped offset puts the selected row among the `height` visible rows. An offset already in range is kept. An offset past the row becomes the row. An offset too far back moves just enough |
| Lazy.LazyState.constructor | src/tui/lazy.rs:21-26 | a new state has length 0, no selection and offset 0 |
| Lazy.LazyState.SetLen | src/tui/lazy.rs:29-36 | `set_len` stores the length and clamps the selection (Clamped). The offset is untouched and the invariant holds afterwards |
| Lazy.LazyState.Next | src/tui/lazy.rs:38-45 | `next` replaces the selection by Stepped, changes nothing else and keeps the invariant |
| Lazy.LazyState.Previous | src/tui/lazy.rs:47-54 | `previous` replaces the selection by SteppedBack, changes nothing else and keeps the invariant |
| Lazy.LazyState.Position | src/tui/lazy.rs:68-74 | `position` gives a row below the length while the invariant holds. An `End(k)` selection needs `k < len` |
| Lazy.LazyState.Offset | src/tui/lazy.rs:64-66 | `offset` reads the stored offset |
| Lazy.LazyState.UpdateOffset | src/tui/lazy.rs:56-62 | with a selection the offset becomes Window of the old offset, the selected row and the height. Without one nothing changes. A zero height underflows when there is a selection |
| Lazy.LazyState.RealPosition | src/tui/lazy.rs:76-78 | the selected row minus the offset, None exactly without a selection. It needs the offset not past the row |
| Lazy.UpdateThenReal | src/tui/lazy.rs:56-78 | after `update_offset(h)`, `real_position` is defined and lies in `[0, h - 1]` |
| Lazy.LazyList.constructor | src/tui/lazy.rs:87-92 | a new list has a fresh, empty cursor |
| Lazy.LazyList.Next | src/tui/lazy.rs:94-96 | delegates to the cursor's `next` |
| Lazy.LazyList.Previous | src/tui/lazy.rs:98-100 | delegates to the cursor's `previous` |
| Lazy.LazyList.UpdateHeight | src/tui/lazy.rs:102-104 | delegates to `update_offset`, which moves the window to the selection |
| Lazy.LazyList.Offset | src/tui/lazy.rs:106-108 | the cursor's offset |
| Lazy.LazyList.Render | src/tui/lazy.rs:125-131 | the cursor part of `render`: the length is set first and then the row to highlight is read, relative to the window |
| Search.Elapsed | src/searcher.rs:32 | `Instant::elapsed`: the time since the mark, zero if the clock reads earlier |
| Search.Forwards | src/searcher.rs:29-33 | the gate is open exactly when nothing was sent before or the clock reads strictly more than `delay` past the last send; a clock at or before the last send keeps it shut |
| Search.DebouncedSender.constructor | src/searcher.rs:21-26 | a new sender has sent nothing and has no send time |
| Search.DebouncedSender.Send | src/searcher.rs:28-39 | the data goes out exactly when nothing was sent before or strictly more than `delay` has passed, and then the time is recorded. Otherwise it is dropped and nothing changes. The spacing of send times is kept |
| Search.SpacedPairs | src/searcher.rs:28-39 | any two forwarded sends, not only successive ones, are more than the delay apart |
| Search.GateWindow | src/searcher.rs:28-33 | the first send always goes through. After a send at t, another is dropped until `t + delay` inclusive and let through after |
| Search.DebounceExample | src/searcher.rs:28-39 | with the 100 ms delay, sends at 0, 100 ms and 100 ms plus one nanosecond let through the first and the third |
| Search.IsExtension | src/searcher.rs:114-116 | the append flag holds exactly when there is a last pattern and the new pattern starts with it |
| Search.ExtensionExamples | src/searcher.rs:109-118 | "abc" to "abcd" is an extension, while "abc" to "ab" and "abc" to "abx" are not. The first search has no last pattern, and every pattern extends "" |
| Search.Searcher.constructor | src/searcher.rs:82-88 | construction searches for "" first, with the append flag false, and the notifier has sent nothing |
| Search.Searcher.Search | src/searcher.rs:100-119 | a pattern equal to the last one leaves everything as it was. Any other pattern is reparsed once with the extension flag and becomes the last pattern. The reparse-log invariant is kept |
| Search.Searcher.Tick | src/searcher.rs:121-123 | the engine's latest matches replace the old ones. The pattern state is unchanged |
| Search.Searcher.NotifyDraw | src/searcher.rs:75-77 | the engine callback sends a Draw action through the sender with the fixed 100 ms delay, and keeps the sender's spacing invariant |
| Search.Searcher.ResultCount | src/searcher.rs:125-127 | the number of matched items |
| Search.AsU32 | src/searcher.rs:130 | `as u32`: below 2^32, identical below 2^32, equal modulo 2^32 |
| Search.Searcher.Results | src/searcher.rs:129-137 | the items at `[min(o, max), min(o + h, max))` for o the offset cast to `u32`. There are at most h of them, none when `o >= max`, and item i is match `o + i`. The sum must not overflow `u32` |
| Search.ResultsSplit | src/searcher.rs:129-137 | two adjacent windows together are the window that spans both |
| Search.ResultsAll | src/searcher.rs:129-137 | a window from 0 as tall as the match count lists every match |
| Search.SearchExample | src/searcher.rs:100-119 | searching "a", "ab" and "ab" again logs two reparses, both extensions, and the repeat is skipped |
| Keys.ParseKeyCode | src/types/key.rs:37-64 | `parse_key`: an empty segment, and only that, is InvalidFormat. Any other error is InvalidKey carrying the segment. A single ASCII char is that char, and a Char result comes only from a one-char segment |
| Keys.ParseModifier | src/types/key.rs:66-73 | the result is one of shift, ctrl and alt. An error is InvalidModifier carrying the word |
| Keys.ParseModifierInjective | src/types/key.rs:66-73 | two modifier words give the same modifier exactly when they are the same word |
| Keys.NamedKey | src/types/key.rs:46-62 | the named-key table: every name has two or more chars and does not start with 'f', so neither the single-char arm nor the function-key arm shadows it, and no name gives a char or function key |
| Keys.FoldModifiers | src/types/key.rs:24-33 | the modifier fold: a success holds the starting set and adds only shift, ctrl and alt; a failure names one of the words, as InvalidModifier or DuplicateModifier (FoldModifiersOk and FoldModifiersErr give the exact iff) |
| Keys.Segments | src/types/key.rs:22 | the split on `+` keeps one segment per piece; no segment holds a `+`, and every segment is free of leading and trailing whitespace |
| Keys.ParseSpec | src/types/key.rs:17-35 | what `Key::parse` computes: an edge `+` is InvalidFormat, and a parsed key has only shift, ctrl and alt as modifiers and never a code outside the grammar (ParseOk gives the exact success condition) |
| Keys.FromStr | src/types/key.rs:89-95 | the input is trimmed before parsing: blank input, or input with a `+` at either trimmed edge, is InvalidFormat; a parsed key has only shift, ctrl and alt as modifiers |
| Keys.FoldModifiersOk | src/types/key.rs:24-33 | the modifier loop succeeds exactly when every word is a modifier and none repeats, and then yields the union of the modifiers |
| Keys.FoldModifiersErr | src/types/key.rs:26-33 | a failing modifier loop fails at the first bad word. An unknown word gives InvalidModifier, a repeated one DuplicateModifier, and every earlier word was valid and distinct |
| Keys.TrimAllAt | src/types/key.rs:22 | each segment is trimmed in place |
| Keys.ParseModifiers | src/types/key.rs:24-33 | the `for` loop with its early returns computes the modifier fold |
| Keys.Parse | src/types/key.rs:17-35 | `Key::parse` checks the edge `+` first, then parses the key segment, then the modifier segments |
| Keys.EdgePlusIsInvalidFormat | src/types/key.rs:18-20 | a leading or trailing `+` is InvalidFormat |
| Keys.BlankIsInvalidFormat | src/types/key.rs:89-94 | input that is empty after trimming is InvalidFormat |
| Keys.KeyErrorFirst | src/types/key.rs:23 | a bad key segment is reported whatever the modifier segments hold |
| Keys.ParseOk | src/types/key.rs:17-35 | parsing succeeds exactly without an edge `+`, with a valid key segment and with distinct valid modifiers. The result holds that key and the union of those modifiers |
| Keys.FunctionKeys | src/types/key.rs:41-45 | "f" and the decimal form of n is `F(n)` for n up to 255, and otherwise InvalidKey |
| Keys.NamedKeysParse | src/types/key.rs:46-62 | a segment of two or more chars that does not start with 'f' is a key exactly when it is in the named-key table |
| Keys.SegmentsOf | src/types/key.rs:22 | the trimmed `+`-separated segments of a joined list of pieces are the pieces' trims |
| Keys.FromStrOf | src/types/key.rs:89-94 | parsing a trimmed, joined list: the last piece is the key and the others are the modifiers |
| Keys.ParseExamples | src/types/key.rs:102-147 | the seventeen cases of the `parse` test |
| Utils.ScanFrom | src/utils.rs:13-23 | the scan only reports an occurrence of the char, and never forgets one it has recorded |
| Utils.LastAdjacent | src/utils.rs:13-23 | a reported index holds the char |
| Utils.ByteOffsetOf | src/utils.rs:15 | the byte offset `char_indices` reports for a char index. It is defined exactly when the index is, and it equals the index on ASCII text |
| Utils.ScanAfterFirst | src/utils.rs:16-21 | once the char is seen, the scan ends at the last occurrence before the first other non-whitespace char |
| Utils.LastAdjacentNone | src/utils.rs:14-22 | the result is None exactly when the char does not occur |
| Utils.LastAdjacentEndsGroup | src/utils.rs:16-21 | a reported index ends the first group. Everything from the first occurrence to it is the char or whitespace, and every later occurrence is cut off by another char |
| Utils.EndsFirstGroupUnique | src/utils.rs:18 | only one index ends the first group |
| Utils.LastAdjacentIff | src/utils.rs:13-23 | the scan reports k exactly when k ends the first group |
| Utils.FindLastAdjacent | src/utils.rs:13-23 | the loop with its break reports the byte offset of the index that ends the first group |
| Utils.FindLastAdjacentExamples | src/utils.rs:31-36 | "aa" gives 1, "aabaa" 1, "baa" 2 and "aa aa" 4 |
| Binding.Assemble | src/types/bind.rs:30-33 | a bind is built exactly when the key text and the action text both parse. A key error comes before an action error, and each error is wrapped |
| Binding.Parse | src/types/bind.rs:24-34 | InvalidFormat exactly when there is no colon |
| Binding.ParseAt | src/types/bind.rs:25-33 | the split is at the colon that ends the first colon group. The text before it is the key and the text after it the action |
| Binding.ParseSplit | src/types/bind.rs:29-33 | given the colon, the key text and the action text are parsed |
| Binding.FromStr | src/types/bind.rs:51-53 | the whole input is trimmed, and InvalidFormat comes exactly when the trimmed text has no colon. It uses the intended split |
| Binding.FromStrAsWritten | src/types/bind.rs:48-54 | `from_str` as written: InvalidFormat when the trimmed text has no colon, and the same result as the intended FromStr when the trimmed text is ASCII |
| Binding.FromStrAsWrittenPanics | src/types/bind.rs:51-53 | " éé:x " makes `from_str` as written panic, while the intended FromStr reports an invalid key |
| Binding.ParseAsWritten | src/types/bind.rs:24-34 | the code as written, with its byte offset reused as a char count. Input without a colon is InvalidFormat |
| Binding.AsWrittenAgreesOnAsciiPrefix | src/types/bind.rs:28 | when the text before the colon is ASCII, the code as written gives the intended result |
| Binding.AsWrittenAgreesOnAscii | src/types/bind.rs:28 | on ASCII input the code as written gives the intended result |
| Binding.AsWrittenPanics | src/types/bind.rs:28 | "éé:x" makes the code as written panic, where the intended split reports an invalid key |
| Binding.AsWrittenRejectsValid | src/types/bind.rs:28-32 | "a\u{a0}:exit" is rejected by the code as written and accepted by the intended split |
| Binding.ParseExamples | src/types/bind.rs:61-85 | the eight cases of the `parse` test |
| Actions.Name | src/types/action.rs:31-40 | the five actions that have a written name |
| Actions.Parse | src/types/action.rs:31-40 | an error carries the text it was given |
| Actions.ParseName | src/types/action.rs:31-40 | a string parses to an action exactly when it is that action's name, so matching is exact and case-sensitive |
| Actions.NameRoundTrip | src/types/action.rs:32-37 | every named action parses back from its name |
| Actions.FromStr | src/types/action.rs:50-52 | the input is trimmed, so an error carries the trimmed text |
| Actions.FromStrTrimmed | src/types/action.rs:50-52 | FromStr sees only the trimmed text and succeeds exactly when that text is a name |
| Actions.Deserialize | src/types/action.rs:73-78 | `visit_str` succeeds exactly when FromStr does, with FromStr's action, and wraps its error as a custom error |
| Actions.ParseExamples | src/types/action.rs:32-38 | the five names, with "Exit" and " exit" refused by the untrimmed parse |
| Actions.DeserializeExamples | src/types/action.rs:85-99 | "exit" deserialises to Exit and "invalid" to a custom error |
| BindTable.OrInsert | src/config/binds.rs:66 | `entry().or_insert()`: a bound key keeps its action, and a free key gets the new one |
| BindTable.Lookup | src/config/binds.rs:17-19 | the bound action, and None exactly for an unbound key |
| BindTable.InsertAll | src/config/binds.rs:31-68 | inserting binds in order keeps every existing binding and binds exactly the old keys and the binds' keys |
| BindTable.InsertAllFillsGaps | src/config/binds.rs:29-68 | inserting defaults equals the defaults alone overridden by the existing table, so only free keys are filled |
| BindTable.InsertAllIdempotent | src/config/binds.rs:31-67 | inserting the defaults twice is the same as once |
| BindTable.InsertAllFirst | src/config/binds.rs:66 | a free key gets the action of the first bind that names it |
| BindTable.Collect | src/config/binds.rs:71-79 | collecting binds into a map binds exactly their keys |
| BindTable.CollectLastWins | src/config/binds.rs:71-78 | the last bind of a repeated key is the one kept |
| BindTable.Binds.constructor | src/config/binds.rs:13-14 | `Binds::default` is empty |
| BindTable.Binds.FromMap | src/config/binds.rs:13-14 | the table is the given map |
| BindTable.Binds.FromBinds | src/config/binds.rs:71-79 | the table is Collect of the binds |
| BindTable.Binds.Clone | src/config/binds.rs:13-14 | a copy of the table |
| BindTable.Binds.ActionForKey | src/config/binds.rs:17-19 | the bound action, or None exactly for an unbound key |
| BindTable.Binds.Overwrite | src/config/binds.rs:23-27 | every key of the other table gets its action, and every other key keeps its binding. No key is removed |
| BindTable.Binds.InsertDefaults | src/config/binds.rs:31-68 | the new table is InsertAll of the old table and the default list |
| BindTable.Binds.OrInsertEach | src/config/binds.rs:65-67 | the `or_insert` loop over a list of binds computes InsertAll |
| BindTable.DefaultsDistinct | src/config/binds.rs:32-64 | no key appears twice among the 30 defaults |
| BindTable.DefaultsTable | src/config/binds.rs:32-64 | the default table has 30 binds, each key with no modifier or exactly one of ctrl and alt; the first five are exit and the list moves, the other 25 edit the input line |
| BindTable.DefaultsBound | src/config/binds.rs:32-66 | after the defaults are inserted, each default key that was free has its default action |
| BindTable.DefaultsStart | src/config/binds.rs:33-37 | the first five defaults are ctrl+c, ctrl+n, ctrl+p, alt+a and alt+e |
| BindTable.InsertDefaultsExamples | src/config/binds.rs:94-109 | a user's ctrl+c bound to next survives, and on an empty table ctrl+c exits |
| BindTable.CollectExample | src/config/binds.rs:71-78 | of two ctrl+c binds, the later one is kept |
| AppConfig.WithDefaults | src/config/mod.rs:50-54 | the table is unchanged when defaults are disabled, and otherwise gets the defaults. Every existing bind survives |
| AppConfig.Config.constructor | src/config/mod.rs:16-22 | a configuration holds the given settings and bind table |
| AppConfig.Config.Default | src/config/mod.rs:16-22 | the default configuration has empty settings and no binds |
| AppConfig.Config.Overwrite | src/config/mod.rs:43-48 | a fresh configuration whose settings are this one's overwritten by the other's (flag taken, options overridden) and whose table is this table overridden by the other's. This configuration is not modified |
| AppConfig.Config.InsertDefaultBinds | src/config/mod.rs:50-54 | nothing changes when defaults are disabled, and otherwise the defaults are inserted |
| AppConfig.Config.ActionForKey | src/config/mod.rs:56-58 | the lookup in the bind table |
| AppConfig.Load | src/config/mod.rs:27-33 | the command line's configuration over the file's, then the defaults unless the command line disables them |
| AppConfig.LoadedBind | src/config/mod.rs:27-32 | a command-line bind wins, and a file bind survives where the command line has none. A key bound by neither is bound exactly when defaults are enabled and it is a default key, to that default |
| AppConfig.InsertDefaultBindsExample | src/config/mod.rs:50-58 | a configuration with ctrl+c bound to next keeps that bind after the defaults go in |
| Layout.SaturatingSub | src/config/common.rs:60-63 | `u16::saturating_sub` |
| Layout.Override | src/config/common.rs:30-32 | `other.field.map(...)`: the other value when it is set, and otherwise the own value |
| Layout.ViewportOf | src/config/common.rs:39-45 | fullscreen exactly without a height. Otherwise inline, at the configured height but strictly below the terminal height. A zero terminal height underflows |
| Layout.AreaOf | src/config/common.rs:47-72 | without a width the area is unchanged. Otherwise the width is clipped and y and height are kept. x is placed by the alignment inside the area width. A left offset is kept while the row fits, and otherwise the row ends at the right edge. A right offset is measured from the right edge, and x stops at 0 when it does not fit. A centred row's margins differ by at most one. x is not shifted by the area's own x |
| Common.CommonConfig.constructor | src/config/common.rs:8-24 | the default settings: defaults enabled, nothing set |
| Common.CommonConfig.Of | src/config/common.rs:8-24 | settings built from their four fields |
| Common.CommonConfig.Clone | src/config/common.rs:8-24 | a field-by-field copy |
| Common.CommonConfig.Overwrite | src/config/common.rs:28-33 | the flag is always taken from the other settings, and each option only where the other has one |
| Common.CommonConfig.IsInline | src/config/common.rs:35-37 | inline exactly when a height is set |
| Common.CommonConfig.Viewport | src/config/common.rs:39-45 | fullscreen exactly when not inline. An inline height is below the terminal height and at most the configured one |
| Common.CommonConfig.Area | src/config/common.rs:47-72 | unchanged without a width. Otherwise a row of the area's height and y, at most the area's width wide, ending inside it |
| Common.OverwriteExample | src/config/common.rs:79-92 | a default configuration overwritten by a full one equals the full one |
| Partial.Default | src/config/partial.rs:8-24 | the default settings: defaults enabled, nothing set |
| Partial.Overwrite | src/config/partial.rs:28-35 | the result is built from the default, not from `self`, so it is the other configuration whatever `self` holds |
| Partial.IsInline | src/config/partial.rs:37-39 | inline exactly when a height is set |
| Partial.Viewport | src/config/partial.rs:41-46 | fullscreen exactly when not inline. An inline height is below the terminal height and at most the configured one |
| Partial.Area | src/config/partial.rs:49-74 | unchanged without a width. Otherwise a row of the area's height and y, at most the area's width wide, ending inside it |
| Partial.OverwriteExample | src/config/partial.rs:81-92 | the default overwritten by a full configuration is the full configuration |
| Extents.CellsOf | src/types/extent.rs:22-27 | a cell count is its own size in cells, whatever the available size |
| Extents.Display | src/types/extent.rs:30-37 | a cell count prints as a non-empty string of decimal digits |
| Extents.FromStr | src/types/extent.rs:43-56 | a cell count exactly when the whole text is a `u16` decimal. A percentage needs a final `%`, with an `f32` literal before it and only trailing whitespace between |
| Extents.DisplayRoundTrip | src/types/extent.rs:30-56 | parsing a displayed cell count gives it back |
| Extents.VisitI64 | src/types/extent.rs:76-85 | an integer is a cell count exactly when it lies in 0..=65535 |
| Extents.VisitStr | src/types/extent.rs:87-92 | `visit_str` succeeds exactly when FromStr does, with the same value |
| Extents.StrAndIntAgree | src/types/extent.rs:76-92 | a non-negative integer and its decimal text are accepted alike |
| Extents.PercentExamples | src/types/extent.rs:99-109 | "10%", "10.0%" and "10 %" are percentages |
| Extents.CellsExamples | src/types/extent.rs:99-109 | "1" is one cell, while "10.0", " 1 " and " 10% " are errors |
| Extents.DeserializeExamples | src/types/extent.rs:119-157 | 0 is accepted and -1 and 65536 are refused. "1" is one cell and "10.0" an error. `Cells(10).cells(100)` is 10 |
| LegacyExtents.CellsOf | src/utils/extent.rs:20-25 | a cell count is its own size in cells |
| LegacyExtents.FromStr | src/utils/extent.rs:35-44 | without a final `%`, a cell count exactly when the text is a `u16` decimal. With one, a percentage exactly when the rest, untrimmed, is an `f32` literal |
| LegacyExtents.VisitI64 | src/utils/extent.rs:65-72 | an integer is a cell count exactly when it lies in 0..=65535 |
| LegacyExtents.VisitStr | src/utils/extent.rs:74-79 | succeeds exactly when FromStr does, with the same value |
| LegacyExtents.StrAndIntAgree | src/utils/extent.rs:65-79 | every `i64` and its decimal text are accepted alike, both directions |
| LegacyExtents.ParseExamples | src/utils/extent.rs:86-94 | "1", "10%" and "10.0%" parse, while "10 %", "10.0" and "a" are errors |
| LegacyExtents.DeserializeExamples | src/utils/extent.rs:96-124 | 1, "1" and "1%" are accepted. -1 and `i64::MAX` are refused as integers and as text |
| Alignments.Default | src/types/alignment.rs:23-27 | left with a zero offset |
| Alignments.ParseOffset | src/types/alignment.rs:50-55 | an offset is `(`, text whose trim is an extent, then `)` |
| Alignments.ParseSide | src/types/alignment.rs:33-44 | nothing after the side name is a zero offset. Otherwise the offset is read after leading whitespace |
| Alignments.Parse | src/types/alignment.rs:30-48 | "center" exactly gives Center. A left or right result comes from that prefix and a valid offset after it |
| Alignments.FromStr | src/types/alignment.rs:74-80 | nothing is trimmed, so an accepted string never starts with whitespace |
| Alignments.Display | src/types/alignment.rs:58-68 | the output starts and ends with a non-space, so the untrimmed parser can read it; it is "center" exactly for Center and starts with the side name otherwise (DisplayRoundTrip proves it parses back) |
| Alignments.OffsetRoundTrip | src/types/alignment.rs:50-68 | a displayed offset parses back |
| Alignments.SideRoundTrip | src/types/alignment.rs:33-68 | the offset part of Display reads back through ParseSide |
| Alignments.ParseLeftTail | src/types/alignment.rs:33-38 | "left" followed by valid offset text gives that left alignment |
| Alignments.ParseRightTail | src/types/alignment.rs:39-44 | "right" followed by valid offset text gives that right alignment |
| Alignments.DisplayRoundTrip | src/types/alignment.rs:58-68 | parsing the Display output of a cell-offset alignment gives it back |
| Alignments.Deserialize | src/types/alignment.rs:100-105 | succeeds exactly when FromStr does, with the same value |
| Alignments.ParseOffsetWrapped | src/types/alignment.rs:50-55 | a parenthesised text is read as its trimmed contents |
| Alignments.PaddedExamples | src/types/alignment.rs:116-122 | " left ", " center " and " right " are errors |
| Alignments.ParseExamples | src/types/alignment.rs:112-143 | the ten cases of the `parse` test |
| Alignments.DeserializeExamples | src/types/alignment.rs:145-157 | "left(1)" deserialises and " center " is a custom error |
| LegacyAlignments.Default | src/utils/alignment.rs:7-11 | left |
| LegacyAlignments.Display | src/utils/alignment.rs:7-18 | a column prints as a signed decimal, and a named position as its ASCII name |
| LegacyAlignments.FromStr | src/utils/alignment.rs:24-38 | the exact names give the named positions. Any other string that is an `i32` gives that column. A named result prints back as the input |
| LegacyAlignments.DisplayRoundTrip | src/utils/alignment.rs:7-38 | parsing the Display output gives back the same alignment, for every `i32` column |
| LegacyAlignments.ParseExamples | src/utils/alignment.rs:44-51 | "left", "center", "right", "1" and "-1" |
| Events.HandleKeyEvent | src/events.rs:35-64 | never None. With exactly ctrl: c, n and p give exit, next and previous. With exactly alt: a and e give first and last. Each holds in both directions, and every other key event is forwarded as it came |
| Events.HandleEvent | src/events.rs:28-33 | None exactly for a non-key event. A key event goes to the table |
| Events.ShortcutsAreDefaults | src/events.rs:36-57 | every shortcut of the table is also one of the default binds, with the same action |
| Events.DecodeExamples | src/events.rs:35-64 | ctrl+c exits, ctrl+shift+c is forwarded, alt+a on release selects the first row, a plain key is forwarded and a resize is dropped |
| LegacyActions.HandleKeyEvent | src/actions.rs:39-59 | never None and never an error. With exactly ctrl: c, n and p give exit and scrolling down and up, in both directions. Everything else is forwarded |
| LegacyActions.HandleEvent | src/actions.rs:32-37 | None exactly for a non-key event |
| LegacyActions.AgreesWithEvents | src/actions.rs:39-59 | the older table agrees with the newer one on ctrl+c, n and p, and forwards alt+a |
| LegacyActions.ExactModifiers | src/actions.rs:41-44 | the modifier match is exact, so ctrl+shift+c does not exit |
| AppState.State.constructor | src/state.rs:5-9 | a new state is running |
| AppState.State.Running | src/state.rs:12-14 | reads the flag |
| AppState.State.Exit | src/state.rs:16-18 | the flag goes down |
| AppState.ExitExample | src/state.rs:11-19 | a state runs until exit, and a second exit leaves it stopped |

## Left out

- Floating point. A percentage extent keeps the text of its `f32` literal; its value, its conversion to cells and its display are not modelled. "10%" and "10.0%" are therefore two different percentages here, while in the source both are 0.1.
- Layout.ViewportOf, Layout.AreaOf, Common.CommonConfig.Viewport, Common.CommonConfig.Area, Partial.Viewport and Partial.Area: all require cell-count extents, because a percentage has no modelled size in cells.
- Alignments.DisplayRoundTrip: stated for cell-count offsets only, because percentage display is floating point.
- TOML and serde. Deserialisation is modelled only as the visitors' `visit_str` and `visit_i64`. The `deserialize` test of `Binds`, which reads a TOML table, is not modelled.
- `Config::parse` and `Config::load`'s reading of the configuration file and the command line. AppConfig.Load takes both configurations already parsed.
- The event loops and channels in src/events.rs and src/actions.rs, and the async streams. Only the decode tables are modelled.
- The matching engine: matching, ranking and snapshots. Search.Searcher.Tick takes the new matches as a parameter, and reparse calls go to a ghost log.
- Line ingestion: `SearcherSource::inject` and `iter` read stdin, and the `Command` branch is unimplemented. `init`'s spawned task is not modelled either.
- Search.DebouncedSender.Send and Search.SpacedPairs: each call of `send` is one atomic step. In the source the gate check and the stamp take the lock separately, and the callback may run on several threads, so two overlapping calls can both pass the gate and both forward. The spacing holds only for calls that do not overlap.
- Search.DebouncedSender.Send: the result of the channel send is ignored in the source. The model records the message as sent and stamps the time even when the receiving end is closed.
- Search.DebouncedSender.Send: the lock's poisoning cases are not modelled. The time is a parameter rather than a clock reading, and the same reading serves for the check and the stamp.
- Search.Searcher.Results: requires the `u32` sum of offset and height not to overflow. The source adds them on `u32`, where the sum would panic or wrap.
- Lazy.LazyState.SetLen and Lazy.LazyList.Render: require a non-empty list when there is a selection. The source evaluates `len - 1` on `usize` there, which underflows, and it does not reset the selection.
- Lazy.LazyState.UpdateOffset and Lazy.LazyList.UpdateHeight: require a non-zero height when there is a selection, because `height - 1` underflows.
- Lazy.LazyState.RealPosition and Lazy.LazyList.Render: require the offset not to be past the selected row, because `pos - offset` underflows.
- Lazy.Resolve, Lazy.LazyState.Position, Lazy.LazyState.UpdateOffset, Lazy.LazyState.RealPosition, Lazy.UpdateThenReal and Lazy.LazyList.UpdateHeight: require `k < len` for an `End(k)` selection, because `len - 1 - k` underflows.
- Layout.ViewportOf: requires a non-zero terminal height for an inline viewport, because `term_height - 1` underflows.
- Rendering. `LazyList`'s builder and the items it renders, ratatui's `ListState`, and the widgets of src/tui are not modelled. Lazy.LazyList.Render covers the cursor part only.
- Behaviour one might expect of the tool but absent from this code: cursor jumps to the first and last row, an empty list clearing the selection, a window clamp against the list's end, resetting the offset without a selection, and a deferred trailing redraw. The model follows the code, which has none of these.
- `TuiAction::Input` and `InputAction`. They are named by src/config/binds.rs but not defined in the files modelled. They are modelled as a `TuiAction` variant carrying the sixteen input actions that the default table names. `Action::parse` never yields them.

## Findings

| source | as written | input that shows it | evidently intended | confidence | as-written member | corrected member |
|---|---|---|---|---|---|---|
| src/types/bind.rs:28-32 | the byte offset from `find_last_adjacent` is used as a char count in `char_indices().nth`, and `get(1..)` drops one byte after the split | "éé:x" (and " éé:x " through `from_str`) panics on `unwrap`, and "a\u{a0}:exit" (no-break space, trimmed as whitespace) is rejected although it is a valid bind | split at the colon's own position, with the key before it and the action after it | high, not executed | Binding.ParseAsWritten (Binding.AsWrittenPanics, Binding.AsWrittenRejectsValid, Binding.FromStrAsWritten, Binding.FromStrAsWrittenPanics) | Binding.Parse (Binding.ParseAt, Binding.AsWrittenAgreesOnAscii, Binding.FromStr, Binding.ParseExamples) |
