# jtop start-up and key loop, in Dafny

This project models the two pieces of logic in `jtop/__main__.py`, the
entry point of jtop, the terminal dashboard of jetson_stats:

- **Board-variable import.** `import_os_variables` runs `env` after
  sourcing `/etc/jetson_easy/jetson_variables`. It reads each output line
  as `KEY=VALUE`: the line is stripped, split at the first `=`, and both
  halves are stripped. A later line with the same key wins. Only keys
  containing `PATTERN` (default `"JETSON_"`) are kept. A missing file
  gives the empty map. `main` then assigns every imported variable into
  `os.environ`.
- **Key dispatch loop.** `gui` calls `set(page)` once on the page model.
  It then reads one key per round. Left calls `decrease()`, right calls
  `increase()`, a digit `n` calls `set(n)`, and `q`/`Q` leaves the loop.
  Every other key, including the `getch()` timeout, does nothing.

Modules:

- `Text` (`text.dfy`): Python's `strip()`, `split('=', 1)` and substring `in`.
- `EnvImport` (`env_import.dfy`): line parsing, the dict comprehension, pattern filtering.
- `Environ` (`environ.dfy`): `os.environ` as a class, plus the assignment loop of `main`.
- `Keys` (`keys.dfy`): key codes and the pure `Dispatch` function.
- `GuiLoop` (`gui_loop.dfy`): an abstract page model that records the calls it gets, and the loop as a method.

The sourcing subprocess is replaced by two inputs: whether the file exists,
and the lines `env` prints. The keyboard is replaced by a finite sequence
of keys, as `getch()` would return them. The page model is a recorder of
`set`/`increase`/`decrease` calls. How pages react to those calls lives in
`jtopgui`, which is not part of this model.

The code does no range check on a digit key (`jtop/__main__.py:126-128`);
`Keys.DigitSelectsPage` shows that every digit 0-9 reaches `set` unchanged.

## Model

| member | source | states |
|---|---|---|
| `Text.Strip` | jtop/__main__.py:135 | `strip()` returns a text that starts and ends with non-whitespace (or is empty), no longer than its input |
| `Text.StripShape` | jtop/__main__.py:135 | the input is the stripped text with only whitespace before and after it |
| `Text.StripUnique` | jtop/__main__.py:135 | a stripped text surrounded by whitespace strips to exactly that text |
| `Text.StripIdempotent` | jtop/__main__.py:135 | `strip()` leaves a string unchanged exactly when it is already stripped, so stripping twice equals stripping once |
| `Text.StripKeepsNonSpace` | jtop/__main__.py:135 | a non-whitespace character such as `=` is in the stripped text exactly when it is in the original |
| `Text.SplitFirst` | jtop/__main__.py:135 | `split('=', 1)` gives one part exactly when there is no `=`; otherwise the two parts joined by `=` rebuild the input, and the first part has no `=` |
| `Text.SplitFirstUnique` | jtop/__main__.py:135 | the split is at the first `=`: for any `a` without `=`, `a + "=" + b` splits into `(a, b)`, even when `b` contains `=` |
| `Text.Contains` | jtop/__main__.py:136 | `PATTERN in k` as a substring test: the empty pattern is in every key, and a pattern longer than the key never is |
| `Text.ContainsInfix` | jtop/__main__.py:136 | `PATTERN in k` holds wherever the pattern sits in the key, with any text around it |
| `EnvImport.ParseLine` | jtop/__main__.py:135 | a line yields no entry exactly when it has no `=`; an entry's key and value are stripped, and the key has no `=` |
| `EnvImport.ParseLineSplit` | jtop/__main__.py:135 | for `before` without `=`, the line `before + "=" + after` yields key `strip(before)` and value `strip(after)` |
| `EnvImport.ParseLineOfRaw` | jtop/__main__.py:135 | for any line with `=`, the key is the stripped text before its first `=` and the value the stripped text after it |
| `EnvImport.ParseFormatLine` | jtop/__main__.py:135 | round trip: `KEY=VALUE`, with a key free of `=` and no whitespace around either part, reads back as that key and value |
| `EnvImport.ParseLines` | jtop/__main__.py:135 | the `map` over the output parses every line on its own, in order, one result per line |
| `EnvImport.Collect` | jtop/__main__.py:135 | the comprehension succeeds exactly when every line split; otherwise it reports the first line that did not split |
| `EnvImport.CollectLastWins` | jtop/__main__.py:135 | a key's value is the value of the last line with that key |
| `EnvImport.CollectFromEntries` | jtop/__main__.py:135 | every key in the result comes from a line with that key and value, and no later line has that key |
| `EnvImport.CollectKeys` | jtop/__main__.py:135 | the result's keys are exactly the keys of the lines |
| `EnvImport.ParseEnv` | jtop/__main__.py:135 | reading `env`'s output fails exactly when some line has no `=`, and the failure names the first such line |
| `EnvImport.SelectMatching` | jtop/__main__.py:136 | exactly the entries whose key contains the pattern are kept, with their values unchanged |
| `EnvImport.ImportOsVariables` | jtop/__main__.py:132-139 | a missing file gives the empty map; with the file present, the import fails exactly when a line lacks `=`; every imported key contains the pattern |
| `EnvImport.ImportOsVariablesEntry` | jtop/__main__.py:135-136 | the last line with a given key is imported exactly when its key contains the pattern, and then with that line's value |
| `EnvImport.ImportOsVariablesOnlyFromLines` | jtop/__main__.py:135-136 | a key that no line has is never imported |
| `Environ.Environment.Set` | jtop/__main__.py:159 | `os.environ[k] = v` updates that one key and leaves the rest unchanged |
| `Environ.Merged` | jtop/__main__.py:158-159 | after the merge, every imported key has its imported value, every other key keeps its old value, and no key is lost |
| `Environ.AssignAll` | jtop/__main__.py:158-159 | the assignment loop, visiting keys in any order, leaves the environment equal to the merge |
| `Environ.LoadJetsonVariables` | jtop/__main__.py:158-159 | the import reads `/etc/jetson_easy/jetson_variables` with the default pattern; when it fails, the environment is unchanged and the bad line is reported; otherwise the environment is the old one merged with the imported variables |
| `Keys.DigitCodes` | jtop/__main__.py:126 | `[ord(str(n)) for n in range(10)]` has ten codes, the one at index `n` being `n` past the code of `0` |
| `Keys.DigitCodesRange` | jtop/__main__.py:126 | `[ord(str(n)) for n in range(10)]` holds exactly the codes 48 to 57 |
| `Keys.DigitValue` | jtop/__main__.py:127 | `int(chr(key))` for a digit code gives the digit 0-9 whose `str` has that code, undoing `ord(str(n))` |
| `Keys.Dispatch` | jtop/__main__.py:120-130 | left maps to decrease, right to increase, codes 48-57 to `set(code - 48)` with a digit 0-9, 113/81 (`q`/`Q`) to quit, and everything else, including the timeout, to nothing; each direction holds both ways |
| `Keys.DigitSelectsPage` | jtop/__main__.py:126-128 | the key for digit `n` asks for page `n`, with no range check |
| `GuiLoop.PageModel.Set` | jtop/__main__.py:100 | a `set(n)` call is recorded after the earlier calls |
| `GuiLoop.PageModel.Increase` | jtop/__main__.py:125 | an `increase()` call is recorded after the earlier calls |
| `GuiLoop.PageModel.Decrease` | jtop/__main__.py:123 | a `decrease()` call is recorded after the earlier calls |
| `GuiLoop.KeysRead` | jtop/__main__.py:102-130 | the loop reads up to and including the first quit key, or every key if there is none; no earlier key quits |
| `GuiLoop.Calls` | jtop/__main__.py:120-130 | the page calls the loop makes: each one is the dispatched call of a key the loop reads |
| `GuiLoop.Trace` | jtop/__main__.py:100-130 | one run of `gui` starts with `set(page)` and makes at most one more call per key read |
| `GuiLoop.CallsBound` | jtop/__main__.py:120-130 | at most one page call per key read |
| `GuiLoop.CallsAppend` | jtop/__main__.py:102-130 | keys before any quit key act in order: their calls come first, then the calls of the keys after them |
| `GuiLoop.QuitEndsReading` | jtop/__main__.py:129-130 | keys after the first quit key are never read and add no call |
| `GuiLoop.IgnoredKeysCallNothing` | jtop/__main__.py:120-130 | timeouts and unbound keys make no page call |
| `GuiLoop.IgnoredKeysChangeNothing` | jtop/__main__.py:119-130 | appending timeouts or unbound keys to the input leaves the calls as they were, so running out of keys matches waiting forever |
| `GuiLoop.Gui` | jtop/__main__.py:100-130 | the loop first calls `set(page)`, then makes exactly the dispatched calls of the keys it reads; it reads up to the first quit key and reports a quit exactly when there was one |
| `GuiLoop.ExampleSession` | jtop/__main__.py:100-130 | starting on the default page 1, the keys left, left, right, `2`, `q`, right give `set(1)`, `decrease`, `decrease`, `increase`, `set(2)` |

## Left out

- Curses setup, colour pairs, cursor and keypad modes, and drawing are terminal I/O (lines 70-117). That includes the header text and the `os.getuid()` warning.
- The header reads `os.environ["JETSON_DESCRIPTION"]` and two other variables (line 110). It is drawing, so the model does not cover it or its `KeyError` when a variable is absent.
- `tegra.read` and `pages.draw(stat)` (lines 113-115) belong to `Tegrastats` and `JTOPGUI`. Those modules are not part of this model. Page clamping and page rendering are therefore not modelled; the page model only records calls.
- The `getch()` timeout `args.refresh` is timing and is not modelled. A timeout is the key `NoKey`.
- The `while True` loop runs over a finite key sequence. When the keys run out, the model stops. `GuiLoop.IgnoredKeysChangeNothing` shows that endless timeouts after that point would add no page call.
- The `bash -c 'source … && env'` subprocess is foreign process I/O. So is `os.path.isfile`. They are replaced by a `fileExists` flag (in `main`, membership of `/etc/jetson_easy/jetson_variables` in a given set of regular files) and the list of output lines. `logging.error` on a missing file is logging, and is not modelled.
- `Text.IsSpace`: whitespace is the ASCII set that byte strings strip (space, tab, line feed, vertical tab, form feed, carriage return). Python 3 `str.strip()` also strips other Unicode whitespace; that is not modelled.
- Under Python 3 the lines are bytes, and `split('=', 1)` with a `str` separator raises `TypeError`. That bytes-versus-text detail is not modelled; lines are text.
- `EnvImport.ImportOsVariables`: the `IndexError` for a line without `=` is modelled as a returned result naming the first such line, not as an exception. `Environ.LoadJetsonVariables` returns that index and leaves the environment untouched. It does not model the process ending.
- Exporting `os.environ` changes to child processes is a process side effect and is not modelled. The environment is a map.
- The SIGINT handler (lines 56-61, 156) is signal handling and is not modelled.
- Argument parsing and logging set-up (lines 143-154) are library glue and are not modelled. Only the `--page` default of 1 is kept, as `GuiLoop.DEFAULT_PAGE`, the starting page of `GuiLoop.ExampleSession`.
- Server mode (lines 162-169) is an endless print-and-sleep loop and is not modelled. Neither are the `with Tegrastats(...)` context and `curses.wrapper` (lines 161, 172).
- `KEY_LEFT` and `KEY_RIGHT` are ncurses' codes 260 and 261. They are not defined in the modelled file.
