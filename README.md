# log2script command pipeline in Dafny

log2script reads rows from an SQLite log table. It turns every row whose
message matches a configured regular expression into one line of a script,
orders the lines by row id and fills in the delay between consecutive lines.
This project models that pipeline and proves what it computes:

- `get_raw_cmds`, which turns one query's rows into raw commands;
- the body of `get_commands`, which merges, sorts in place, rewrites the
  delays in place and keeps the texts;
- the `previous_and_next` pairing helper;
- the mandatory-field schema check and the succeed-or-exit decision of the
  database wrapper's constructor.

Modules, one file each:

| file | module | what it holds |
|---|---|---|
| `wrappers.dfy` | `Wrappers` | `Option` |
| `pystr.dfy` | `PyStr` | The Python string operations the pipeline uses: `str.replace` (every non-overlapping occurrence, left to right), `str.strip` (the whitespace set of `str.isspace`), `str(int)` and `.lower()` on ASCII. Each has its laws: replace is join-of-split, strip is idempotent, and `str(int)` reads back. |
| `utils.dfy` | `Utils` | `previous_and_next` as `zip([None] + xs, xs)` on finite sequences, with its index laws. |
| `extraction.dfy` | `Extraction` | `get_raw_cmds`. The regex engine is the parameter `search`. Its type only promises that a match is a substring of the message. |
| `ordering.dfy` | `Ordering` | The stable sort by id. `SortById` specifies it, and `SortInPlace` is an in-place insertion sort on an array, proved to compute it. The file proves sortedness, permutation, stability, and that a stable sort by id has only one possible result. |
| `sequencing.dfy` | `Sequencing` | `get_commands` after the database is opened. `Commands` specifies it. `GetCommands` merges, then copies into an array, sorts in place, runs the indexed delay loop in place and projects the texts; it is proved equal to `Commands`. |
| `sqlite.dfy` | `Sqlite` | `__check_table_schema`, which compares Python's `sorted` of two string lists, and the constructor's outcome. |

The specification functions, each modelling source lines directly, are
`Extraction.GetRawCmds` (main.py:64-72), `Sequencing.Merge` (the
comprehension of main.py:91-94), `Sequencing.Inherited` and
`Sequencing.DelayFor` (the mode test and the delay of main.py:87 and 103),
`Sequencing.Resolve` (one iteration, main.py:102-106),
`Sequencing.ResolveAll` (the loop, main.py:100-107), `Sequencing.Texts`
(main.py:110), `Ordering.SortById` (main.py:97), `Utils.PreviousAndNext`
(utils.py:3-6), `Sqlite.ExistingFields` (the comprehension of sqlite.py:37),
`Sqlite.Sorted` (Python's `sorted`), `Sqlite.CheckTableSchema`
(sqlite.py:33-42) and `Sqlite.Open` (sqlite.py:12-25). The lemmas in the
table below state what they mean.

A query result row is kept with the columns the pipeline reads: 0 (id),
1 (timestamp) and 3 (message). A `Cmd` is the three-element list
`[id, timestamp, text]` that the pipeline builds and later rewrites.

The `<DELAY>` placeholder is replaced after `<ARG>`. So a matched substring
that itself contains `<DELAY>` is rewritten by the delay loop, as in
main.py: `Commands` applies `Resolve` to the text that `GetRawCmds` produced.

In the delay loop, `prev` is the list object that the previous iteration
already rewrote. That iteration only changed its text, and only `prev`'s
timestamp is read. So `ResolveDelays` pairs each command with its
predecessor from the sorted list before the loop, and the result is the same.

## Model

| member | source | states |
|---|---|---|
| `Extraction.Match` | main.py:71 | A row is kept only when the regex is truthy (present and not `''`), and the match is a substring of the message. |
| `Extraction.GetRawCmds` | main.py:64-72 | One command per matching row, so the result is no longer than the input. A falsy regex (`None` or `''`) yields the empty list. |
| `Extraction.GetRawCmdsAt` | main.py:69-72 | Matching row `i` yields the command at position "number of matching rows before `i`". That command carries the row's id and timestamp, and its text is the template with every `<ARG>` replaced by the whole match. |
| `Extraction.MatchCountGrows` | main.py:69-72 | Later matching rows land at strictly later positions, so the result keeps row order. |
| `Sequencing.MergeAppend` | main.py:91-94 | `script_cmds` is the concatenation of the per-query results in configured order: merging two runs of queries is concatenating their merges. |
| `Ordering.SortByIdSorted` | main.py:97 | After the sort, ids never decrease. |
| `Ordering.SortByIdPermutation` | main.py:97 | The sort is a permutation of the merged list. |
| `Ordering.SortByIdStable` | main.py:97 | Stability: for every id, the commands carrying it keep their merged relative order. |
| `Ordering.SortUnique` | main.py:97 | Any list that is sorted by id and keeps every id's commands in merged order equals `SortById`. So the model's sort gives the same list as Python's stable `list.sort`. |
| `Ordering.InsertInPlace` | main.py:97 | One insertion step on the array: the prefix up to `i` becomes `InsertAfter` of the old prefix and the old element `i`, and the suffix is unchanged. |
| `Ordering.SortInPlace` | main.py:97 | The in-place sort leaves the array equal to `SortById` of its old contents. |
| `Sequencing.ResolveDelays` | main.py:100-107 | The indexed loop over `previous_and_next` leaves the array equal to `ResolveAll` of its old contents. Each command is rewritten against its predecessor in sorted order. |
| `Sequencing.GetCommands` | main.py:91-112 | The step-by-step pipeline (merge, in-place sort, in-place delay loop, projection) returns exactly `Commands` of the merged raw commands. |
| `Sequencing.Commands` | main.py:110-112 | One output line per extracted command. |
| `Sequencing.CommandsFirst` | main.py:105-106 | The first command in id order gets `<DELAY>` replaced by `"0"` and is stripped, whatever the mode. |
| `Sequencing.CommandsLater` | main.py:102-104 | Line `k > 0` is the `k`-th sorted command's text with `<DELAY>` replaced by the delay computed from that command and its predecessor in id order, then stripped. |
| `Sequencing.InheritedDelay` | main.py:103 | When the lower-cased mode is `inherited`, the delay is a decimal numeral that reads back as the timestamp difference to the predecessor. |
| `Sequencing.FixedDelay` | main.py:103 | In any other mode, every later line uses the configured value string. |
| `Sequencing.FixedIgnoresTimestamps` | main.py:103 | Outside inherited mode the output does not depend on timestamps: two merged lists that differ only in timestamps give the same lines. |
| `Sequencing.SortByIdUntimed` | main.py:97 | The sort key is the id alone: clearing timestamps commutes with sorting. |
| `Sequencing.ResolveWithoutPlaceholder` | main.py:104-106 | A text without `<DELAY>` is only stripped, for the first command or any later one. |
| `Sequencing.ResolveAllAt` | main.py:101-106 | Command `k` of the loop's result is sorted command `k` with its text resolved against the pair whose second half it is. |
| `Utils.Zip` | utils.py:6 | `zip` stops at the shorter input. |
| `Utils.PreviousAndNext` | utils.py:3-6 | The result has as many pairs as the input has elements, so the empty input gives no pairs. |
| `Utils.PreviousAndNextAt` | utils.py:3-6 | Pair 0 is `(None, xs[0])`, and pair `k >= 1` is `(xs[k-1], xs[k])`. |
| `Utils.SecondsAreInput` | utils.py:4-6 | The second components reproduce the input exactly. |
| `Utils.FirstsAreShiftedInput` | utils.py:5-6 | The first components are `None` followed by every input element but the last. |
| `PyStr.ReplaceAllIsJoinOfSplit` | main.py:70 | `str.replace` replaces every non-overlapping occurrence: it equals splitting on the pattern and joining with the replacement. |
| `PyStr.SplitJoinRoundTrip` | main.py:70 | Splitting on a separator and joining with it gives back the string. |
| `PyStr.ReplaceAllBySelf` | main.py:70 | Replacing a pattern by itself changes nothing. |
| `PyStr.ReplaceAllAbsent` | main.py:104-106 | A string without the pattern is left unchanged. |
| `PyStr.Strip` | main.py:104-106 | `.strip()` leaves no whitespace at either end and never lengthens the string. |
| `PyStr.StripIsTrimmedSlice` | main.py:104-106 | `.strip()` is the slice between the first and the last non-whitespace character. |
| `PyStr.StripIdempotent` | main.py:104-106 | Stripping twice is stripping once. |
| `PyStr.LowerIsInheritedIff` | main.py:87 | The lower-cased mode equals `inherited` exactly when the mode spells `inherited` with each letter in either case. |
| `PyStr.NatToString` | main.py:103 | The numeral is non-empty, all decimal digits, with no leading zero. |
| `PyStr.IntToStringRoundTrip` | main.py:103 | `str(n)` of an integer is a decimal numeral that parses back to `n`. |
| `Sqlite.SortedIsSorted` | sqlite.py:39 | Python's `sorted` on strings yields a list that is ordered lexicographically by code point. |
| `Sqlite.SortedPermutation` | sqlite.py:39 | `sorted` is a permutation of its input. |
| `Sqlite.SortedEqualIffSameMultiset` | sqlite.py:39 | Two lists have equal `sorted` forms exactly when they hold the same elements with the same multiplicities. |
| `Sqlite.ExistingFieldsCount` | sqlite.py:37 | `existing_fields` holds field `f` (its count in `man_fields`) × (number of schema tuples containing `f`) times. |
| `Sqlite.CheckIsMultisetEquality` | sqlite.py:37-42 | The check returns True exactly when `existing_fields` and `man_fields` are equal as multisets. |
| `Sqlite.CheckIffEachFieldOnce` | sqlite.py:37-42 | The check passes exactly when every mandatory field is contained in exactly one schema tuple. |
| `Sqlite.MissingFieldFails` | sqlite.py:37-39 | A mandatory field that no schema tuple contains fails the check. |
| `Sqlite.DuplicateFieldFails` | sqlite.py:37-39 | A mandatory field contained in two different schema tuples is collected twice and fails the check. |
| `Sqlite.EmptyFieldsPass` | sqlite.py:37-39 | An empty mandatory-field list always passes. |
| `Sqlite.Open` | sqlite.py:12-25 | Every failed construction exits with status 1. |
| `Sqlite.OpenSucceedsIff` | sqlite.py:12-25 | Construction succeeds exactly when the file exists, the schema query succeeds, and every mandatory field is in exactly one schema tuple. Otherwise the process exits. |

## Left out

- The SQLite connection, cursor, `PRAGMA` execution, `query` and `__del__` are database I/O. The rows of each query and the `PRAGMA table_info` result are inputs. A schema query or connection that raises is the input `None` of `Sqlite.Open`.
- The `DataBase` class and `__check_table_schema` in main.py are the same code as the `Sqlite` class in sqlite.py. The one `Sqlite` module models both.
- `previous_and_next` at main.py:74-77 is the same code as in utils.py. The one `Utils.PreviousAndNext` models both.
- The schema check only sees the string-valued columns of each `PRAGMA table_info` row. Its integer columns and `None` defaults can never equal a field name.
- `Extraction.Row`: ids and timestamps are integers and messages are non-NULL strings. Not modelled: the `TypeError` that `re.search` raises on a NULL message (main.py:71), text ids that sort as strings (`"10"` before `"9"`) at main.py:97, the `TypeError` when NULL ids meet integer ids in that sort, and the `TypeError` of a subtraction on non-numeric timestamps at main.py:103.
- `load_config` is YAML and file I/O. The parsed queries and the delay mode and value are parameters of `GetCommands`. `str(config['delay']['value'])` is taken as already a string.
- `write_script` and the `__main__` block are left out: date stamps, reading the template file, `string.Template` substitution, and naming and writing the output file.
- The semantics of `re.search` are left out. The regex engine is the parameter `search`, and its type only says that a match is a substring of the message. main.py calls `re.search` twice per row (filter and value); the model calls it once, which is the same for a deterministic engine.
- `Sequencing.InheritedDelay`: timestamps are integers, so `round(curr[1] - prev[1])` is the exact difference. Float timestamps and round-half-to-even are not modelled.
- `PyStr.AsciiLower`: lower-casing is modelled for ASCII letters only. Full Unicode case mapping is not modelled. The result is only compared with `inherited`.
- `Ordering.SortInPlace`: Python's Timsort is modelled by a stable insertion sort. `Ordering.SortUnique` shows that every stable sort by id gives the same list, so the result is the same.
- The laziness of `tee`, `chain` and `zip` is not modelled: they become finite sequences.
- `print` diagnostics are left out. `exit(1)` becomes the outcome `Exited(1)` of `Sqlite.Open`.
