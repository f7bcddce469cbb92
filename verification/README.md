# Shortcut hub: execution pipeline and shortcut list, in Dafny

The shortcut hub lets a user keep a list of named shortcuts. Each is a URL, a
web app, a system command or a script, with parameters, a category and an
icon. The hub runs them through a small local server.

This project models two parts of it:

- **The server's `/api/execute` pipeline** (`server/index.js`):
  - the missing-target check and the `isValidExecutable` allow-list check;
  - the resolution of (type, executable, parameters, platform) into the program and arguments given to `spawn`;
  - the split of the parameter text into tokens;
  - the choice of working directory and the spawn timeout;
  - the mapping of the child's exit code to the JSON reply.
- **The front end's list operations** (`src/App.tsx`):
  - create, update by id, delete by id;
  - the `lastUsed` stamp on execute;
  - the collapsed-category toggle;
  - the search filter;
  - the grouping by category;
  - the `dd/mm/yy` date formatter.

The modules are:

| module | file | contents |
|---|---|---|
| `Wrappers` | `wrappers.dfy` | `Option` |
| `Text` | `text.dfy` | the JavaScript string built-ins the code uses: `toLowerCase` (ASCII), `endsWith`, `includes`, `split` on one character, `trim`, integer `toString`, `padStart`, `slice(-k)` |
| `NodePath` | `node_path.dfy` | Node's `path.extname` and `path.isAbsolute`, for POSIX and win32, with the platform as a parameter |
| `Execute` | `execute.dfy` | the `/api/execute` handler up to `spawn`, and the `close` handler's reply |
| `DateFormat` | `date_format.dfy` | the calendar fields of a `Date` and `formatDate` |
| `Shortcuts` | `shortcuts.dfy` | the shortcut record and the list handlers |
| `Grouping` | `grouping.dfy` | `groupedShortcuts` as written, and the intended grouping as a loop over a map |

Inputs the code reads from its environment are parameters:

- `process.platform` and `process.cwd()`;
- `Date.now()` and `new Date()`.

Each handler is modelled as the function from the old list (or set) to the new one.

Behaviours of the code worth knowing:

- The validator has no rule for URL schemes. A URL target such as `https://github.com` is rejected with `Invalid executable path`, so a URL shortcut only runs if it happens to pass one of the three rules. See `Execute.UrlTargetRejected`.
- On win32 a URL is opened by the program `start`, with an empty first argument. It is not run as `cmd /c start`.
- `.bat` and `.cmd` targets are never wrapped in `cmd`, on any platform and for any kind.
- The parameter text is split on the space character only, not on all whitespace. Empty and blank pieces are dropped; the kept pieces are not trimmed.
- The parameter tokens are appended for every kind. For `url` and `web-app` the raw parameter text is glued to the URL, and the same text is then passed again as separate arguments after it. See `Execute.UrlParametersTwice`.
- There is no finalize-once latch. The `close`, `error` and timer handlers each reply on their own. The model therefore claims nothing about exactly one reply per request (see "Left out").
- `path.extname` is modelled as Node implements it:
  - trailing separators are ignored;
  - on win32, `\` is also a separator and a drive prefix such as `C:` is skipped;
  - `..` has no extension.

  As a result, `..` passes validation as a bare command name. See `Execute.DotDotAccepted`.

## Model

| member | source | states |
|---|---|---|
| Execute.IsValidExecutable | server/index.js:21-33 | Definition, no contract of its own: an allowed extension in any case, or a bare command name (no extension, no `/`, no `\`), or an absolute path. Its properties are stated by `ValidationIgnoresCase`, `ListedExtensionPasses`, `NoListedExtensionEndsWith` and the examples. |
| Execute.OpenProgram | server/index.js:67-76 | Definition, no contract of its own: `start` on win32, `open` on darwin, `xdg-open` elsewhere. Used by `UrlParametersTwice`. |
| Execute.ScriptCommand | server/index.js:81-106 | Definition, no contract of its own: `python`, `node`, `powershell -ExecutionPolicy Bypass -File` or `bash` by lower-cased extension, otherwise the target itself. Stated by `TargetPassedVerbatim` and `BatchFilesRunDirectly`. |
| Execute.ResolveKind | server/index.js:63-114 | Definition, no contract of its own: the `switch (type)`, with a missing or unknown type running the target itself. Stated by `UrlParametersTwice`, `TargetPassedVerbatim` and `ResolvedProgramNonEmpty`. |
| Execute.Resolve | server/index.js:63-120 | Definition, no contract of its own: the kind's command, with the parameter tokens appended when there is parameter text. Stated by `ResolveAppendsTokens`. |
| Execute.Dispatch | server/index.js:36-120 | A missing or empty target gets a 400 with `Executable path is required`. A target that fails the validator gets a 400 with `Invalid executable path`. The pipeline reaches `spawn` exactly when neither check fails. It then spawns the resolved command in the requested working directory, or the server's own when none is given, with a 30000 ms timeout. |
| Execute.OnClose | server/index.js:142-158 | Status 200, and the exit code is always reported. Success holds exactly when the code is 0. Success carries the message `Command executed successfully` and stdout as output, and no error. Failure carries the error `Command failed with exit code <code>`, and stderr as output unless stderr is empty, then stdout. |
| Execute.ParameterTokens | server/index.js:116-120 | Every token is non-empty, contains no space, and is not all whitespace. |
| Execute.KeepNonBlank | server/index.js:118 | A piece is kept exactly when it trims to something non-empty: every kept piece is one of the pieces and is not blank, and every non-blank piece is kept. There are never more kept pieces than pieces. |
| Execute.KeepNonBlankAppend | server/index.js:118 | The filter keeps the order: filtering a concatenation of piece lists filters each part and concatenates the results. |
| Execute.ValidationIgnoresCase | server/index.js:21-32 | Lower-casing a target does not change whether it is valid. Only the extension rule folds case itself. |
| Execute.LowerEndsWithExtname | server/index.js:24 | When the target does not end in a separator, its lower-cased text ends with its lower-cased extension. |
| Execute.ListedExtensionPasses | server/index.js:23-24 | A target passes whatever its directory part when it does not end in a separator and its extension, in any case, is on the allow-list. |
| Execute.NoListedExtensionEndsWith | server/index.js:23-24 | A target whose last character folds to none of `e t d 1 h y s` has no allowed extension. |
| Execute.UpperCaseScriptAccepted | server/index.js:21-32 | `RUN.SH` is valid on every platform. |
| Execute.RelativeCommandRejected | server/index.js:21-32 | `sub/dir/thing` is invalid on every platform. |
| Execute.DotDotAccepted | server/index.js:27 | `..` is valid as a bare command name on every platform. |
| Execute.UrlTargetRejected | server/index.js:21-53 | `https://github.com` is answered with a 400 and `Invalid executable path` on every platform, whatever the type, parameters and working directory. |
| Execute.SplitPiecesStartNonBlank | server/index.js:118 | When the space is the only whitespace in the text, every piece of its split on spaces is empty or starts with a non-whitespace character. |
| Execute.KeepNonBlankConcat | server/index.js:118 | When every piece is empty or starts with a non-whitespace character, dropping the blank pieces loses no character. |
| Execute.TokensKeepText | server/index.js:116-120 | When the space is the only whitespace in the parameter text, the tokens, concatenated, are the text with its spaces removed. |
| Execute.SingleToken | server/index.js:118 | A non-empty word without whitespace becomes exactly one token, itself. |
| Execute.NoTextNoTokens | server/index.js:117-118 | Empty parameter text gives no tokens. |
| Execute.ResolveAppendsTokens | server/index.js:116-120 | For every type, the resolved command is the type's program, then its own arguments, then the parameter tokens. The `if (parameters)` guard makes no difference. |
| Execute.UrlParametersTwice | server/index.js:64-77 | For `url` and `web-app` the program is `start`, `open` or `xdg-open` by platform. The arguments are `''` on win32, then `target + parameters` as one argument, then the parameter tokens. |
| Execute.WindowsUrlExample | server/index.js:64-69 | On win32, `https://example.com` with `?x=1` resolves to `start` with `''`, `https://example.com?x=1` and `?x=1`. This is resolution alone: the handler rejects this target before resolving it. |
| Execute.TargetPassedVerbatim | server/index.js:79-113 | Outside the URL types the target is passed unchanged. Either it is the program, with no arguments before the tokens, or `python`, `node`, `powershell` or `bash` runs it as the last argument before the tokens. |
| Execute.BatchFilesRunDirectly | server/index.js:100-103 | A `script` whose extension is `.bat` or `.cmd`, in any case, runs as the program itself with only the tokens, on every platform. |
| Execute.ExtnameBuildScript | server/index.js:81 | The lower-cased extension of `build.sh` on Linux is `.sh`. |
| Execute.BuildScriptExample | server/index.js:79-120 | The script `build.sh` with `--fast` resolves on Linux to `bash build.sh --fast`. |
| Execute.ResolvedProgramNonEmpty | server/index.js:63-114 | A non-empty target never resolves to an empty program. |
| Execute.CodeTextInjective | server/index.js:153 | Distinct exit codes, including `null`, print as distinct texts. |
| Execute.FailureNamesCode | server/index.js:150-157 | Two failed runs with the same error text had the same exit code. |
| Execute.FailureOutputEmpty | server/index.js:154 | A failed run's output is empty exactly when both stdout and stderr are empty. |
| NodePath.Extname | server/index.js:27 | `path.extname`: the result is empty, or a dot followed by characters that are neither dots nor separators. |
| NodePath.IsAbsolute | server/index.js:30 | Definition, no contract of its own: `path.isAbsolute`, a leading `/` on POSIX; a leading separator or a drive letter followed by a separator on win32. Stated by `IsAbsoluteLower`. |
| NodePath.ExtnameIsSuffix | server/index.js:27 | When the path does not end in a separator, its extension is a suffix of it. |
| NodePath.ExtnameLower | server/index.js:81 | The extension of the lower-cased path is the lower-cased extension. |
| NodePath.IsAbsoluteLower | server/index.js:30 | Lower-casing a path does not change whether it is absolute. |
| NodePath.ExtnameAt | server/index.js:27 | For a path with no drive prefix and no trailing separator, the extension is that of the segment after the last separator. |
| NodePath.SegmentExtensionAt | server/index.js:27 | A segment whose last dot is at a position after the first runs from that dot on, unless the segment is `..`. |
| NodePath.ExtnameDotDot | server/index.js:27 | `..` has no extension. |
| NodePath.ExtnameDotFile | server/index.js:27 | `.bashrc` has no extension. |
| NodePath.ExtnameLastDot | server/index.js:81 | `a.tar.gz` has the extension `.gz`: only the last dot counts. |
| Text.Lower | src/App.tsx:274-277 | Definition: `toLowerCase` on ASCII letters, each character folded on its own; its ensures only spell this out. Its properties are stated by `LowerIdempotent`, `LowerKeepsNonLetter` and `NodePath.ExtnameLower`. |
| Text.EndsWith | server/index.js:24 | Definition, no contract of its own: `endsWith`, the string's last characters are the suffix. Stated by `Execute.LowerEndsWithExtname` and `Execute.ListedExtensionPasses`. |
| Text.Split | server/index.js:118 | `split` on one character gives at least one piece, and no piece holds the separator. With `SplitJoin`, joining the pieces gives back the string. |
| Text.Trim | server/index.js:118 | Definition, no contract of its own: whitespace dropped from both ends. Stated by `TrimShape` and `TrimEmptyIff`. |
| Text.TrimShape | server/index.js:118 | `trim()` never lengthens a string, and its result is empty or neither starts nor ends with whitespace. |
| Text.TrimStartShape | server/index.js:118 | Dropping leading whitespace leaves a suffix of the string that is empty or starts with a non-whitespace character. |
| Text.TrimEndShape | server/index.js:118 | Dropping trailing whitespace leaves a prefix of the string that is empty or ends with a non-whitespace character. |
| Text.PadStart | src/App.tsx:455-456 | Definition, no contract of its own: `padStart` with a one-character fill. Stated by `PadStartShape` and `PaddedTwoDigits`. |
| Text.PadStartShape | src/App.tsx:455-456 | The padded text has the larger of the string's length and the width, ends with the string, and has only fill characters before it. |
| Text.SliceLast | src/App.tsx:457 | Definition, no contract of its own: `slice(-k)` for a positive `k`. Stated by `SliceLastShape` and `LastTwoDigits`. |
| Text.SliceLastShape | src/App.tsx:457 | `slice(-k)` is the last `k` characters of the string, or the whole string when it is shorter. |
| Text.SplitJoin | server/index.js:118 | Joining the pieces of `split(sep)` with `sep` gives back the string. |
| Text.SplitKeepsOtherCharacters | server/index.js:118 | The pieces of a split, concatenated, are the string without its separators. |
| Text.SplitWithoutSeparator | server/index.js:118 | A string without the separator splits into itself alone. |
| Text.TrimEmptyIff | server/index.js:118 | `trim()` gives the empty (falsy) string exactly when the string is all whitespace. |
| Text.Contains | src/App.tsx:274-277 | `includes` holds exactly when the text occurs at some index. |
| Text.NatText | src/App.tsx:455-457 | Integer `toString` on a natural number gives at least one character, all digits, with no leading zero. |
| Text.NatTextValue | server/index.js:153 | Reading the decimal text of a natural number gives the number back. |
| Text.IntText | server/index.js:153 | Definition, no contract of its own: integer `toString`, the decimal digits with a leading `-` for a negative number (also used for `Date.now()` and the date fields at src/App.tsx:184 and 455-457). Stated by `IntTextInjective` and `IntTextFirst`. |
| Text.IntTextFirst | server/index.js:153 | The text of an integer is non-empty and starts with `-` or a digit. |
| Text.IntTextInjective | server/index.js:153 | Distinct integers print as distinct texts. |
| Text.LowerIdempotent | src/App.tsx:274-277 | Lower-casing twice is lower-casing once. |
| Text.LowerKeepsNonLetter | server/index.js:27 | A character that is not a letter occurs in the lower-cased string exactly when it occurs in the string. |
| DateFormat.FormatDate | src/App.tsx:454-459 | Definition, no contract of its own: day and month (counted from 1) padded to two digits, and the last two characters of the year, separated by `/`. Stated by `FormatDateShape`, `FormatDateReadsBack` and `ShortYearExample`. |
| DateFormat.PaddedTwoDigits | src/App.tsx:455-456 | A number below 100, converted with `toString` and `padStart(2, '0')`, is its tens digit followed by its units digit. |
| DateFormat.LastTwoDigits | src/App.tsx:457 | `slice(-2)` of the text of a year from 10 on is its tens digit followed by its units digit. |
| DateFormat.FormatDateShape | src/App.tsx:454-459 | A valid date formats as two day digits, `/`, two digits of the month counted from 1, `/`, and two year digits. |
| DateFormat.FormatDateReadsBack | src/App.tsx:454-459 | A valid date formats to 8 characters. Reading them back gives the day, the month counted from 1, and the year modulo 100. |
| DateFormat.ShortYearExample | src/App.tsx:457 | A year below 10 keeps a single digit, because `slice(-2)` does not pad: 1 January of year 5 formats as `01/01/5`. |
| Shortcuts.Create | src/App.tsx:181-189 | One shortcut is appended and the earlier entries are unchanged. It carries the draft's fields, the text of `Date.now()` as its id, and the creation time. |
| Shortcuts.CreateKeepsIdsUnique | src/App.tsx:181-188 | When ids are unique and each is the text of an earlier instant, they stay unique after a create. |
| Shortcuts.Update | src/App.tsx:192-194 | The length is kept. Every entry with the updated shortcut's id is replaced by it, and every other entry is unchanged. |
| Shortcuts.UpdateIdempotent | src/App.tsx:192-194 | Updating twice with the same shortcut is updating once. |
| Shortcuts.UpdateKeepsIds | src/App.tsx:192-194 | Update keeps every position's id, so unique ids stay unique. |
| Shortcuts.Delete | src/App.tsx:199-201 | The result holds exactly the entries whose id differs from the given one. No entry with that id remains, and the list does not grow. |
| Shortcuts.DeleteAppend | src/App.tsx:199-201 | Delete keeps the order: deleting from a concatenation deletes from each part. |
| Shortcuts.DeleteAbsent | src/App.tsx:199-201 | Deleting an id that no entry has changes nothing. |
| Shortcuts.CreateThenDelete | src/App.tsx:181-201 | Creating a shortcut and then deleting its fresh id gives back the original list. |
| Shortcuts.UpdateThenDelete | src/App.tsx:192-201 | Deleting an id after updating it is the same as deleting it. |
| Shortcuts.Touch | src/App.tsx:225-226 | The length is kept. Entries with another id are unchanged, and every entry with the executed shortcut's id becomes the executed shortcut with `lastUsed` set to now. |
| Shortcuts.TouchChangesOnlyLastUsed | src/App.tsx:225-226 | When ids are unique and the executed shortcut is an entry of the list, only that entry's `lastUsed` changes. |
| Shortcuts.Toggle | src/App.tsx:204-212 | The category's membership flips, and every other category's membership is unchanged. |
| Shortcuts.ToggleTwice | src/App.tsx:204-212 | Toggling a category twice restores the set. |
| Shortcuts.Matches | src/App.tsx:274-277 | Definition, no contract of its own: the lower-cased term is included in the lower-cased name, description, category or type. Stated by `SearchIgnoresCase`, `SearchEmptyTerm` and `MatchesOwnKind`. |
| Shortcuts.Search | src/App.tsx:273-278 | The result holds exactly the entries whose lower-cased name, description, category or type includes the lower-cased term. |
| Shortcuts.SearchAppend | src/App.tsx:273-278 | The filter keeps the order: filtering a concatenation filters each part. |
| Shortcuts.SearchEmptyTerm | src/App.tsx:273-278 | The empty term keeps every entry, in order. |
| Shortcuts.SearchIgnoresCase | src/App.tsx:273-278 | Whether an entry matches does not depend on the case of the term's letters. |
| Shortcuts.SearchIdempotent | src/App.tsx:273-278 | Filtering twice with the same term is filtering once. |
| Shortcuts.MatchesOwnKind | src/App.tsx:277 | Every shortcut matches the name of its own type. |
| Grouping.GroupsOf | src/App.tsx:280-286 | Definition, no contract of its own: the intended grouping, one key per occurring category mapped to that category's entries in order. Stated by `GroupsPartition`, `GroupsSnoc`, `OfCategoryAppend` and `GroupSizesSum`. |
| Grouping.GroupedAsWritten | src/App.tsx:280-286 | Definition, no contract of its own: the `reduce` as written, which fails when a category names an inherited `Object.prototype` member. Stated by `AsWrittenAgrees` and `ConstructorCategoryThrows`. |
| Grouping.GroupByCategory | src/App.tsx:280-286 | The loop over the list, with a map accumulator, builds exactly one group per occurring category, holding that category's entries. |
| Grouping.GroupsSnoc | src/App.tsx:281-284 | Grouping one more shortcut appends it to its category's group, creating the group if needed, and changes no other group. |
| Grouping.OfCategoryMembers | src/App.tsx:280-286 | A category's list holds exactly the entries of that category. |
| Grouping.GroupsPartition | src/App.tsx:280-286 | Every shortcut is in the group keyed by its category. Every member of a group has that group's category and comes from the list. No group is empty. |
| Grouping.OfCategoryAppend | src/App.tsx:280-286 | Groups keep the input order: grouping a concatenation appends the parts' groups. |
| Grouping.GroupSizesSum | src/App.tsx:280-286 | Summed over the categories, each counted once, the group sizes equal the number of shortcuts. |
| Grouping.SumOfCategoriesCovers | src/App.tsx:280-286 | Over distinct categories that cover the list, the category sizes add up to the list's length. |
| Grouping.AsWrittenAgrees | src/App.tsx:280-286 | When no category is the name of an `Object.prototype` member, the `reduce` as written builds the intended groups. |
| Grouping.ConstructorCategoryThrows | src/App.tsx:281-284 | A single shortcut filed under `constructor` makes the `reduce` as written throw, although its intended group exists. |

## Left out

- Spawning the child is not modelled. This covers the stdout/stderr buffers, `child.kill`, the `error` handler's reply and the 30-second timer's callback (server/index.js:125-177), since they are process I/O driven by events. The pipeline ends in a `Spawned` outcome naming the program, arguments, working directory and timeout.
- The model does not claim one reply per request. The code has no latch: `close`, `error` and the timer each call `res.json`. After a natural exit, `child.killed` stays false, so the timer still calls `res.json`. Which of these calls actually reaches the client, and what a second call does once a reply has been sent, depends on Express and Node and is not modelled.
- The outer `catch` and its 500 reply are not modelled, so neither are request bodies whose fields are not strings (a number target makes `toLowerCase` throw). Request fields are modelled as strings that may be missing.
- Express setup, CORS, routing, the health and system-information endpoints, `listen`, and all logging are not modelled.
- `spawn` without a shell cannot run `start`, which is a `cmd` built-in, on win32. What the operating system does with the command is outside the model.
- `toLowerCase` is ASCII case folding only. Full Unicode case mapping is not modelled.
- The front end's React state, `fetch`, `localStorage`, the polling interval, the auto-save effect, the modal form and all rendering are not modelled. The `Date.now()` value and the `new Date()` value are inputs.
- `Date` is given by its calendar fields, taken as given. Time zones and invalid dates are not modelled.
- Grouping.GroupByCategory: the model's map has no key order, so the insertion order of the keys of the record (the order in which the categories are rendered) is not captured.

## Findings

| source | as written | input that shows it | evidently intended | confidence | as-written member | corrected member |
|---|---|---|---|---|---|---|
| src/App.tsx:280-286 | The accumulator is a plain object `{}`. For a category named like an inherited `Object.prototype` member, `!acc[category]` sees that member, which is truthy. No group is created, and `acc[category].push` throws `TypeError`, breaking the render. | one shortcut whose category is `constructor` (also `toString`, `__proto__`, `valueOf`, ...) | every category, whatever its text, gets its own group | high; not executed | Grouping.ConstructorCategoryThrows | Grouping.GroupByCategory |
