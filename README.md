# Dotfiles tools: smart-quote placer and config linker

This project is a Dafny model of the two pieces of logic in the repository.

- **tools/fancy.py** puts curly quotes into a text file. `fancy left|right <file> <line:char> ...` does the following:
  - splits the file into lines, keeping their terminators;
  - picks U+201C for `left` or U+201D for `right`;
  - for every position that parses and is in range, overwrites the character at that 1-based line and column and counts it;
  - rejoins the lines and writes the text back.

  Module `Fancy` models `main`:
  - a method `Run` covers the argument checks and the three early exits;
  - a method `PlaceQuotes` covers the `for pos in positions` loop over an `array<string>` of lines and the `count` variable;
  - a method `PlaceOne` covers one turn of the loop body.

  Both methods are proved against the specification functions `PlaceAll` and `HitCount`, and the lemmas beside them state what the text looks like afterwards. Module `PyText` models the Python built-ins involved: `splitlines(keepends=True)`, `"".join`, `str.split(":")` and `int()`, together with `str()` of an integer. For `int()` the model covers the white space it skips, an optional sign, `_` separators and its 4300-digit limit.
- **script/files.ts** links configuration files from the repository into the home directory.
  - It takes the `links` table, plus `macos_links` on macOS.
  - For each entry it runs `mkdir -p` on the parent directory of the destination.
  - It skips the entry if the destination is already a link whose `readlink` output, trimmed, is the source path.
  - Otherwise it runs `rm -rf` on whatever is there and `ln -sfn` on the source.
  - At the end it reports how many entries the list has.

  Module `Shell` models the filesystem as a map from paths, written as component lists, to `File | Dir | Symlink(target)`. It also models the five shell commands as functions on that map. Module `Files` models the following:
  - the two tables and the `all_links` choice;
  - one loop turn (`Reconcile`);
  - the loop as a method `ReconcileEntries`, proved against the fold `RunAll`;
  - the whole script as `LinkFiles`.

  The properties proved are:
  - the end state of each destination;
  - the skip branch;
  - the replacement of a wrong destination, with no backup;
  - what stays the same;
  - that the filesystem stays a tree;
  - that a second run is a no-op;
  - that the script's own tables do not overlap.

Inputs that the scripts read from the outside world become parameters:
- `argv`;
- whether the file exists;
- the text `read_text` returns;
- the filesystem;
- `HOME`, the repository root and the platform flag.

A failed command in files.ts stops the script at that entry. `RunAll` records this as `Stopped(fs, at)`.

## Model

| member | source | states |
|---|---|---|
| Fancy.QuoteFor | tools/fancy.py:29-36 | `left` gives U+201C, `right` gives U+201D, and every other command is unknown (each as an if-and-only-if) |
| Fancy.Run | tools/fancy.py:20-59 | fewer than four argv entries gives the usage exit; an unknown command gives its error; a missing file gives file-not-found; otherwise the text written back is the joined `PlaceAll` of the split text and the reported count is `HitCount`; the exit status is 1 for the three early exits and 0 otherwise |
| Fancy.ExitStatus | tools/fancy.py:21-40 | computes the `sys.exit(1)` status of the usage, unknown-command and file-not-found exits, and 0 for a run that writes the file |
| Fancy.PlaceQuotes | tools/fancy.py:43-58 | after the loop the array holds `PlaceAll` of the original lines and `count` is `HitCount` of them |
| Fancy.PlaceOne | tools/fancy.py:46-57 | one loop turn leaves `Place` of the old lines and increments the count exactly when the position parses and is in range |
| Fancy.PlaceHit | tools/fancy.py:51-54 | replacing a line by `line[:col_idx] + char + line[col_idx + 1:]` is overwriting its character `col_idx` |
| Fancy.PlaceAllStep | tools/fancy.py:45-55 | one more position applies one more `Place`; the count grows by one exactly when that position is effective |
| Fancy.Place | tools/fancy.py:51-55 | one placement keeps the number of lines and every line's length |
| Fancy.PlaceAll | tools/fancy.py:45-58 | the loop keeps the number of lines and every line's length |
| Fancy.HitCount | tools/fancy.py:43-55 | the count is at most the number of positions |
| Fancy.EffectiveSameShape | tools/fancy.py:51-53 | whether a position is in range depends only on the number and lengths of the lines |
| Fancy.PlaceAt | tools/fancy.py:51-54 | one placement changes the addressed character only, to the quote |
| Fancy.PlaceAllAt | tools/fancy.py:45-58 | after the loop, a character is the quote if some position names it, else it is the original character |
| Fancy.TargetedSnoc | tools/fancy.py:45 | the positions naming a character are those of the earlier positions, plus possibly the last one |
| Fancy.TargetedInit | tools/fancy.py:45 | a position named among the earlier positions is named in the whole list |
| Fancy.TargetedSplit | tools/fancy.py:45 | a position named in the whole list is an earlier one or the last one |
| Fancy.PlaceAllWritesOnlyQuote | tools/fancy.py:54 | no character other than the chosen quote is ever written |
| Fancy.PlaceAllOrderFree | tools/fancy.py:45-55 | two position lists with the same elements, in any order and with any repeats, give the same lines |
| Fancy.PlaceAllIdempotent | tools/fancy.py:45-55 | placing the same positions again changes nothing |
| Fancy.IneffectiveIsSkipped | tools/fancy.py:46-57 | a position that does not parse, or is out of range (zero and negative numbers included), changes neither the lines nor the count |
| Fancy.NoHitsNoChange | tools/fancy.py:51-55 | with no effective position the lines come back unchanged |
| Fancy.TerminatorOverwritten | tools/fancy.py:42-54 | a line's terminator counts as a column: the last column of every line but the last holds a boundary character, and naming that column overwrites it with the quote (for line and column numbers within `int()`'s digit limit) |
| Fancy.InRange | tools/fancy.py:51-53 | computes the two bounds tests: 1-based line and column both address an existing character |
| Fancy.Effective | tools/fancy.py:47-53 | computes whether a position places a quote: it parses and is in range |
| Fancy.PlacedText | tools/fancy.py:42-59 | the text written back has the original length; the count is at most the number of positions; with no hits the text is the original |
| Fancy.ParsePosition | tools/fancy.py:47 | computes `map(int, pos.split(":"))` unpacked into two names: exactly two parts, each accepted by `int()`; None stands for the ValueError caught at lines 56-57 |
| Fancy.ParsePositionFormat | tools/fancy.py:47 | every `str(l) + ":" + str(c)` parses back to `(l, c)`, negative numbers included, when both numbers are within `int()`'s 4300-digit limit |
| Fancy.LeadingSeparatorPosition | tools/fancy.py:47 | a position starting with U+001C..U+001F does not parse, because `int()` does not skip these characters |
| Fancy.ParsePositionOneColon | tools/fancy.py:47 | a position that parses has exactly one colon |
| PyText.LineEnd | tools/fancy.py:42 | scanning a line ends just past a boundary character, or at the end of the text; no boundary comes earlier except the "\r" of a final "\r\n"; it never stops between the "\r" and the "\n" of one "\r\n" |
| PyText.SplitLines | tools/fancy.py:42 | every line is non-empty and has a boundary at most at its end; every line but the last ends in a boundary; no "\r\n" is split between two lines; no lines exactly for the empty text |
| PyText.IsLineBoundary | tools/fancy.py:42 | the ten characters `str.splitlines` breaks at: "\n", "\r", U+000B, U+000C, U+001C, U+001D, U+001E, U+0085, U+2028, U+2029 |
| PyText.LineEndAt | tools/fancy.py:42 | a line scan from an index with no boundary before it ends at `m` whenever `s[..m]` is a complete line: a boundary only at its end, ending in a boundary or at the end of the text, and not stopping inside a "\r\n" |
| PyText.BoundaryBefore | tools/fancy.py:42 | in a stretch with boundaries only at its end, a boundary before the last character can only be the "\r" of a final "\r\n" |
| PyText.LineInText | tools/fancy.py:42 | a line at the front of a text has, inside the text too, a boundary only at its end |
| PyText.SplitLinesUnique | tools/fancy.py:42 | the splitting is the only one: any sequence of lines that joins to the text, ends every line but the last in a boundary and splits no "\r\n" is exactly `SplitLines` of the text |
| PyText.ConcatSplitLines | tools/fancy.py:42 | joining the kept-end lines gives the text back |
| PyText.PrefixBoundaryOnlyAtEnd | tools/fancy.py:42 | a line cut from a text keeps its only-at-the-end terminator |
| PyText.Concat | tools/fancy.py:59 | computes `"".join(lines)`; `ConcatSplitLines` is its round trip with `SplitLines` |
| PyText.ConcatSameShape | tools/fancy.py:59 | lines of equal lengths join to texts of equal length |
| PyText.Split | tools/fancy.py:47 | `split(":")` gives at least one part and no part holds a colon |
| PyText.JoinSplit | tools/fancy.py:47 | joining the parts with the separator gives the string back |
| PyText.SplitNoSeparator | tools/fancy.py:47 | a string without the separator is one part |
| PyText.SplitAtFirst | tools/fancy.py:47 | the first separator ends the first part |
| PyText.DigitValue | tools/fancy.py:47 | an ASCII digit's value is below ten |
| PyText.DigitChar | tools/fancy.py:47 | the digit character written for a value reads back as that value |
| PyText.FormatNat | tools/fancy.py:47 | the decimal form of a natural number is a non-empty run of ASCII digits |
| PyText.FormatInt | tools/fancy.py:47 | the decimal form of an integer holds no colon |
| PyText.DigitsValueFormatNat | tools/fancy.py:47 | the digits of a natural number evaluate back to it |
| PyText.StripUnspaced | tools/fancy.py:47 | a string that starts and ends with a non-space is its own strip |
| PyText.ParseDigits | tools/fancy.py:47 | `int()` of a run of digits is their value |
| PyText.ParseMinus | tools/fancy.py:47 | `int()` of a stripped minus sign followed by digits is the negated value |
| PyText.ParseNegativeDigits | tools/fancy.py:47 | `int("-" + d)` is minus the value of the digits `d` |
| PyText.ParseInt | tools/fancy.py:47 | computes `int(s)`: skip the white space `int()` skips, read an optional sign, then an accepted run of digits; None stands for the ValueError |
| PyText.Decimal | tools/fancy.py:47 | computes the value of a run of digits with single `_` separators, refusing more than 4300 digits |
| PyText.DigitCount | tools/fancy.py:47 | the number of digits, which is at most the length |
| PyText.DigitCountAllDigits | tools/fancy.py:47 | in a run of digits every character counts towards the limit |
| PyText.DecimalFormatNat | tools/fancy.py:47 | the decimal form of a natural number within the limit is accepted with its value |
| PyText.ParseFormatNat | tools/fancy.py:47 | `int(str(n)) == n` for a natural number within the limit |
| PyText.ParseFormatMinus | tools/fancy.py:47 | `int("-" + str(n)) == -n` for a natural number within the limit |
| PyText.ParseFormatInt | tools/fancy.py:47 | `int(str(n)) == n` for every integer of at most 4300 digits |
| PyText.TooManyDigits | tools/fancy.py:47 | a run of more than 4300 digits is refused, leading zeros included |
| PyText.DigitsValue | tools/fancy.py:47 | the value of a run of ASCII digits with single underscores between digits, and nothing for anything else (a leading, trailing or doubled underscore, or any other character) |
| PyText.DigitsValueHead | tools/fancy.py:47 | an accepted run of digits starts with a digit |
| PyText.LeadingSeparatorRefused | tools/fancy.py:47 | a string starting with U+001C..U+001F is refused: `int()` does not skip these characters, although `str.isspace` accepts them |
| PyText.IsSpace | tools/fancy.py:47 | the white space `int()` skips around its argument: ASCII tab to carriage return, space, and the non-ASCII characters `str.isspace` accepts, but not U+001C..U+001F |
| PyText.StripStart | tools/fancy.py:47 | what remains does not start with white space that `int()` skips |
| PyText.StripStartSuffix | tools/fancy.py:47 | stripping the start leaves a suffix of the string, and every character it removes is white space that `int()` skips |
| PyText.StripEndRemovesSpace | tools/fancy.py:47 | stripping the end removes only white space that `int()` skips |
| PyText.StripEnd | tools/fancy.py:47 | what remains does not end with white space that `int()` skips |
| PyText.StripEndPrefix | tools/fancy.py:47 | stripping the end leaves a prefix |
| PyText.StripEndKeeps | tools/fancy.py:47 | stripping the end stops at a character that is not white space |
| PyText.Strip | tools/fancy.py:47 | what remains neither starts nor ends with white space that `int()` skips |
| PyText.StripRemovesOnlySpace | tools/fancy.py:47 | the strip keeps one contiguous slice of the string, and everything before and after that slice is white space that `int()` skips |
| Files.Links | script/files.ts:17-30 | the seven `[source, destination]` rows every platform gets, each source under `tools/` and each destination relative to the home directory |
| Files.MacosLinks | script/files.ts:32-46 | the seven rows added on macOS: Karabiner, Cursor settings and key bindings, Windsurf, VS Code, Warp key bindings and Claude settings |
| Files.AllLinks | script/files.ts:17-48 | 14 entries on macOS and 7 otherwise; `links` comes first; on macOS `macos_links` follows, and otherwise there is nothing else |
| Files.Render | script/files.ts:51 | a joined path string starts with "/" and ends in the last character of its last component |
| Files.IsJsSpace | script/files.ts:66 | the characters `String.prototype.trim` removes: ASCII tab to carriage return, space, U+00A0, U+1680, U+2000..U+200A, U+2028, U+2029, U+202F, U+205F, U+3000, U+FEFF |
| Files.TrimStart | script/files.ts:66 | what remains does not start with JavaScript white space |
| Files.TrimStartSuffix | script/files.ts:66 | trimming the start leaves a suffix of the string, and every character it removes is JavaScript white space |
| Files.TrimEnd | script/files.ts:66 | what remains does not end with JavaScript white space |
| Files.TrimEndPrefix | script/files.ts:66 | trimming the end leaves a prefix |
| Files.TrimEndRemovesSpace | script/files.ts:66 | trimming the end removes only JavaScript white space |
| Files.TrimEndKeeps | script/files.ts:66 | trimming the end stops at a character that is not white space |
| Files.Trim | script/files.ts:66 | `.trim()`: what remains neither starts nor ends with JavaScript white space |
| Files.TrimRemovesOnlySpace | script/files.ts:66 | `.trim()` keeps one contiguous slice of the string, and everything before and after that slice is JavaScript white space |
| Files.SrcPath | script/files.ts:51 | computes `join(root, src)` as the path string rendered from the root's and the source's components |
| Files.DstPath | script/files.ts:52 | computes `join(home, dst)` as the home components followed by the destination's |
| Files.AlreadyLinked | script/files.ts:65-66 | computes the `continue` test: `readlink` succeeds and its output, trimmed, equals the source path |
| Files.TrimReadLinkOutput | script/files.ts:65-66 | trimming `readlink`'s output for a link to `s` gives `s` back when `s` has no white space at its ends |
| Files.PlainSourceTrims | script/files.ts:51-66 | the source path of a table row survives the trim of `readlink` output, whatever the root |
| Files.Reconcile | script/files.ts:53-72 | one entry stops the script exactly when `mkdir -p` of its directory fails; otherwise the destination is afterwards a link |
| Files.ReconcileOne | script/files.ts:53-72 | the loop body, with its `continue`, ends as `Reconcile` does: it fails exactly when `Reconcile` aborts, and otherwise leaves `Reconcile`'s filesystem |
| Files.ReconcileLinks | script/files.ts:53-72 | after an entry, the destination directory exists and the destination is a link; a new link points exactly at the source path, a kept one passes the trimmed comparison |
| Files.ReconcileSkip | script/files.ts:63-66 | in a tree, a destination that already passes the comparison makes the entry change nothing |
| Files.ReconcileReplace | script/files.ts:63-72 | an existing destination that fails the comparison is removed with everything below it and replaced by the link; no backup or other new path appears |
| Files.ReconcileFrame | script/files.ts:50-74 | paths neither below the destination nor among its new ancestors keep their node or their absence; existing ancestors are untouched |
| Files.ReconcileWellFormed | script/files.ts:53-72 | an entry keeps the filesystem a tree |
| Files.RunAll | script/files.ts:50-74 | a stopped run stops at one of its entries |
| Files.RunAllStopped | script/files.ts:50-74 | after a failed command, later entries are not reached |
| Files.RunAllStep | script/files.ts:50-74 | the state after entry `i` is one `Reconcile` of the state before it |
| Files.ReconcileEntries | script/files.ts:50-74 | the loop ends in `RunAll`'s filesystem, and it completes exactly when `RunAll` does |
| Files.LinkFiles | script/files.ts:48-76 | the script ends in `RunAll` over `all_links`; it reports a count exactly when it completes, and the count is 14 on macOS and 7 otherwise, however many entries were skipped |
| Files.SettledSkips | script/files.ts:63-66 | an entry whose directory exists and whose link passes the comparison takes the `continue` branch |
| Files.ReconcileSettles | script/files.ts:53-72 | a completed entry leaves its own destination settled |
| Files.ReconcileKeepsSettled | script/files.ts:50-74 | an entry leaves every other settled destination settled, unless one destination lies inside the other |
| Files.ReconcilablePrefix | script/files.ts:50 | the entries processed so far meet the same conditions as the whole list |
| Files.LastKeepsSettled | script/files.ts:50-74 | the last entry settles itself and leaves the earlier entries settled |
| Files.RunAllSettles | script/files.ts:50-74 | after a run that completes, every destination is settled: its directory exists and it is a link passing the comparison |
| Files.RunAllWellFormed | script/files.ts:50-74 | a run keeps the filesystem a tree, whether it completes or stops |
| Files.RunAllAllSettled | script/files.ts:50-74 | over settled entries, the run completes and changes nothing |
| Files.RunAllIdempotent | script/files.ts:50-74 | a second run over unchanged inputs is a no-op: every entry takes the `continue` branch |
| Files.GroupHead | script/files.ts:17-46 | each table destination starts with its group's first component |
| Files.SameGroupApart | script/files.ts:17-46 | two table destinations in one group differ at a shared index |
| Files.Apart | script/files.ts:17-46 | paths that differ at a shared index are not prefixes of each other |
| Files.TablesNoNesting | script/files.ts:17-46 | no table destination equals another or lies below it |
| Files.TablesPlainSources | script/files.ts:17-46 | every table source ends in a character that trim keeps, and every destination is non-empty |
| Files.TablesReconcilable | script/files.ts:17-48 | both choices of `all_links` meet the conditions of `RunAllSettles` |
| Files.LinkFilesIdempotent | script/files.ts:17-76 | for the script's own tables, a run that completes leaves every destination a link whose trimmed target is the source path; a second run changes nothing, and every entry takes the `continue` branch |
| Shell.Dirname | script/files.ts:53 | the parent of a non-empty path is one component shorter and a proper prefix of it |
| Shell.Ancestry | script/files.ts:56 | the directories `mkdir -p d` has to have are exactly the non-empty prefixes of `d` |
| Shell.PrefixUnder | script/files.ts:52 | joining both paths below `home` keeps and reflects whether one lies inside the other |
| Shell.MkdirP | script/files.ts:56 | fails exactly when some prefix of the directory is there and is not a directory; otherwise every prefix is a directory, every existing path keeps its node, and the only new paths are those prefixes |
| Shell.MkdirPExisting | script/files.ts:56 | where the whole directory chain exists, `mkdir -p` changes nothing |
| Shell.Exists | script/files.ts:59-61 | computes `test -e p \|\| test -L p`: any node at the path, a dangling link included |
| Shell.ReadLink | script/files.ts:65 | succeeds exactly on a link, and then prints its target and a newline |
| Shell.RemoveTree | script/files.ts:68 | `rm -rf` removes the path and everything below it, and nothing else changes |
| Shell.Link | script/files.ts:72 | `ln -sfn` makes the path a link to the given string, and nothing else changes |
| Shell.PrefixTransitive | script/files.ts:50-74 | a path inside a path that is inside a third is inside the third |

## Left out

- script/macos.ts is not part of this model. It is a fixed sequence of `defaults write` commands, a process check and a framework call; there is no logic in it to state.
- File I/O in tools/fancy.py is not modelled:
  - `filepath.exists()` and the text returned by `read_text()` are parameters, so the newline translation of text mode, decoding errors, and a directory passing `exists()` all fall outside the model;
  - `write_text` is the `text` of the `Placed` outcome;
  - the printed usage text, the error messages and the "invalid position" and "placed" lines are left out;
  - `sys.exit(1)` is the outcome's exit status.
- PyText.ParseInt: `int()` also accepts non-ASCII decimal digits (for example Arabic-Indic digits); the model accepts ASCII digits only. The digit limit is fixed at its default of 4300; `PYTHONINTMAXSTRDIGITS` and `-X int_max_str_digits` can change it, and Pythons before 3.10.7 have no limit.
- The location of the home directory and the repository are parameters, taken as already-normalised component lists. This covers `Bun.env.HOME`, and the root `dirname(dirname(Bun.main))`.
- `path.join` is modelled as concatenation of plain components. Paths with `..`, `.`, empty components or a trailing `/` are outside the model, and so are the tables' own strings, which the model writes as component lists.
- Shell.MkdirP: an ancestor that is a symbolic link to a directory is not followed. In the model such an ancestor makes `mkdir -p` fail, and the model treats `mkdir -p` as all-or-nothing.
- Permission errors, a failing `rm -rf` or `ln -sfn`, and concurrent changes to the filesystem are not modelled. Only a failing `mkdir -p` stops the run.
- The `[files] ...` log lines are left out, except for the count that the last one reports.
- Files.ReconcileLinks: a kept link is only known to pass the trimmed comparison, so a target padded with white space that trims to the source path is kept as it is. Only a link made by the entry is known to point at exactly the source path.
- The code has no backup of replaced files, no skipping of missing sources and no merging of JSON settings, so the model has none of these either. A link may dangle.
