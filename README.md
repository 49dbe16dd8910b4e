# EAFITos shell core in Dafny

A model of the core of EAFITos, a small educational command shell written in
C. The model covers three parts:

- **The history manager** (`add_to_history`, `free_history`). It keeps a
  bounded log of at most MAX_HISTORY lines, oldest first. It ignores NULL and
  empty lines, and ignores a line equal to the newest entry. When the log is
  full, it evicts the oldest entry.
- **The read-eval loop** (`loop_shell`). Each iteration records the line in
  the history, splits it into arguments, and dispatches it through the command
  registry (`nombres_comandos` / `func_comandos`, `num_comandos`, `ejecutar`).
- **The logic of the advanced commands.** These are:
  - the `historial` listing;
  - the line-by-line search of `buscar`, which reads through a 1024-byte
    `fgets` buffer;
  - the line, word and character counts of `estadisticas`, together with its
    octal and `rwx` renderings of the permission bits.

Files:

- `wrappers.dfy`: `Option`.
- `text.dfy` (module `Text`) holds the string helpers:
  - `Occurs`, the `strstr` test, and its reference definition;
  - `Fields`, the maximal runs of non-delimiter characters, which is used for
    argument splitting and for word counting.
- `history.dfy` (module `History`) holds two things:
  - `Add`, the effect of one `add_to_history` call on the abstract log, with
    its lemmas;
  - the class `HistoryLog`. It stands for the global `history` array and the
    `history_count` counter, updated in place. Its methods are proved against
    `Add`.
- `shell.dfy` (module `Shell`) holds the registry, the dispatcher, one loop
  iteration (`Step` / `Iteration`), and the loop over a finite list of inputs
  (`Run` / `Session`).
- `commands.dfy` (module `Commands`) holds `historial`, `buscar` and
  `estadisticas`. The file system is replaced by a given `FileTable`.

MAX_HISTORY is defined in `shell.h`, which is not part of this model. It is
the constructor parameter `cap` (required positive) and the `cap` argument of
the pure functions.

The allocation failure of `strdup` is the boolean `copyFails`. A NULL line
from `leer_linea` is `None`. The outputs the commands print are structured
values: `ListingLine`, `SearchReport` and `StatsReport`. `Unknown(token)`
together with `UnknownDiagnostic(token)` stands for the diagnostic printed by
`ejecutar`.

Two behaviours of the code are worth stating on their own:

- **Unknown-command text.** `ejecutar` prints `Comando desconocido: <token>`,
  followed by a hint to run `ayuda` (`src/core/shell_loop.c:92`). This is the
  text `UnknownDiagnostic` builds.
- **A failed copy can still change a full log.** A full log loses its oldest
  entry before the copy is attempted (`src/utils/history_manager.c:37-52`).
  If `strdup` then fails, the log is left with `cap - 1` entries, not
  unchanged. `Add` and `AddCopyFailure` state this.

The header comments of `include/commands.h` describe `cmd_buscar` as a
file-name search and `cmd_estadisticas` as CPU and memory statistics. The code
does something else: it searches one file's lines for a text, and reports
statistics of one file. The model follows the code.

## Model

| member | source | states |
|---|---|---|
| Text.Occurs | src/commands/advanced_commands.c:115 | `strstr(s, t) != NULL`: a left-to-right scan of `s` for a block equal to `t` (no contract of its own; `OccursIff` and `EmptyOccurs` characterise it) |
| Text.OccursIff | src/commands/advanced_commands.c:115 | the `strstr` test `Occurs(t, s)` holds exactly when `t` appears at some position of `s` |
| Text.EmptyOccurs | src/commands/advanced_commands.c:115 | an empty search text is found in every line |
| Text.Fields | src/core/shell_loop.c:120 | every argument produced by splitting is non-empty and contains no separator |
| Text.FieldsEmptyIff | src/core/shell_loop.c:76-79 | a line splits into no arguments exactly when all its characters are separators |
| Text.SingleField | src/core/shell_loop.c:120 | a non-empty run without separators is one field, whole |
| Text.FieldsSplitAtDelimiter | src/core/shell_loop.c:120 | fields are maximal runs: cutting the text at a separator splits its fields there and nowhere else |
| Text.FieldsJoin | src/core/shell_loop.c:120 | the arguments, concatenated, are exactly the line's non-separator characters in their original order |
| History.Add | src/utils/history_manager.c:25-55 | one `add_to_history` call never leaves more than MAX_HISTORY entries |
| History.Accepted | src/utils/history_manager.c:27-34 | the command passes both early returns: non-NULL, non-empty, different from the newest entry (no contract of its own; see `AddChangesIffAccepted`) |
| History.AddChangesIffAccepted | src/utils/history_manager.c:27-34 | a successful call changes the log exactly when the command passes the two early returns |
| History.AddNewestIsCommand | src/utils/history_manager.c:32-54 | after a successful call on a non-empty command, that command is the newest entry |
| History.AddIgnoresEmpty | src/utils/history_manager.c:27-29 | a NULL or empty command leaves the log unchanged |
| History.AddSuppressesRepeat | src/utils/history_manager.c:32-34 | a command equal to the newest entry leaves the log unchanged |
| History.AddStoresRepeatAfterOther | src/utils/history_manager.c:32-54 | only the newest entry is compared: an older duplicate is stored again as the newest entry |
| History.AddAppends | src/utils/history_manager.c:47-54 | below capacity an accepted command is appended, earlier entries untouched |
| History.AddEvictsOldest | src/utils/history_manager.c:37-54 | at capacity the oldest entry is dropped, the rest shift forward, and the command becomes the newest entry |
| History.AddCopyFailure | src/utils/history_manager.c:37-52 | a failed copy leaves the log unchanged below capacity, and one entry short (oldest evicted) at capacity |
| History.AddPreservesWellFormed | src/utils/history_manager.c:25-55 | every call keeps the log within capacity, free of empty entries, and free of equal neighbours |
| History.AddAll | src/utils/history_manager.c:25-55 | a sequence of successful calls on non-NULL lines keeps the log within MAX_HISTORY |
| History.AddAllKeepsNewest | src/utils/history_manager.c:25-55 | from an empty log, lines that never repeat their predecessor leave exactly the MAX_HISTORY newest, oldest first |
| History.OverflowEvictsFirst | src/utils/history_manager.c:37-45 | after MAX_HISTORY + 1 such lines, the log is full and starts with the second line |
| History.SmallCapacityExample | src/utils/history_manager.c:37-45 | with MAX_HISTORY = 2, the lines "a", "b", "c" leave ["b", "c"] |
| History.HistoryLog.constructor | src/utils/history_manager.c:15-16 | the zero-initialised globals: every slot NULL, count 0, empty log |
| History.HistoryLog.AddToHistory | src/utils/history_manager.c:25-55 | the in-place update (early returns, shift loop, copy) yields `Add` of the old log and keeps the array invariant; a failed copy leaves slot `history_count` NULL |
| History.HistoryLog.FreeHistory | src/utils/history_manager.c:62-68 | every used slot becomes NULL, the count and the log become empty, and the slots past the old count are untouched |
| Shell.Names | src/core/shell_loop.c:24-37 | `nombres_comandos`: the ten command names in lookup order (a constant; `RegistryDistinct` and `LookupUnique` state its properties) |
| Shell.Handlers | src/core/shell_loop.c:45-58 | `func_comandos`: the ten handlers, `Handlers[i]` paired with `Names[i]` (a constant; `RegistryDistinct` and `DispatchRegistered` state its properties) |
| Shell.NumComandos | src/core/shell_loop.c:66-68 | the registry size is the length of both parallel tables, 10 |
| Shell.RegistryDistinct | src/core/shell_loop.c:24-59 | no command name and no handler is registered twice |
| Shell.FindFrom | src/core/shell_loop.c:82-89 | the scan from index `i` returns the first index holding the name, or reports that none does |
| Shell.Lookup | src/core/shell_loop.c:82-89 | lookup finds the first index whose name equals the token, and fails exactly when the token is not a registered name |
| Shell.LookupUnique | src/core/shell_loop.c:82-89 | since names are distinct, lookup returns `k` exactly when `Names[k]` is the token |
| Shell.UnknownDiagnostic | src/core/shell_loop.c:92 | the unknown-command message names the unresolved token |
| Shell.DispatchOf | src/core/shell_loop.c:75-93 | no arguments do nothing; otherwise the handler paired with the matching name runs with the full argument list; an unknown name is reported under that name, and this happens exactly when it is unregistered |
| Shell.DispatchRegistered | src/core/shell_loop.c:82-89 | any registered name runs its own handler with all the arguments |
| Shell.Ejecutar | src/core/shell_loop.c:75-93 | the loop with early return computes exactly `DispatchOf` |
| Shell.IsTokenDelimiter | src/core/shell_loop.c:120 | the separators assumed for `parsear_linea`: space, tab, CR, LF, BEL (no contract; an assumption listed under Left out) |
| Shell.Parse | src/core/shell_loop.c:120 | a NULL line gives no arguments, and every argument is non-empty and free of separators |
| Shell.ParseKeepsText | src/core/shell_loop.c:120 | splitting loses only separators and keeps the order of the rest |
| Shell.Step | src/core/shell_loop.c:108-129 | one iteration keeps the history within MAX_HISTORY |
| Shell.StepOnlyAddsLine | src/core/shell_loop.c:115-123 | the only history change of an iteration is the `add_to_history` call (the loop's non-empty test adds nothing to its early return); the dispatched command plays no part |
| Shell.StepRecordsBlankLine | src/core/shell_loop.c:115-120 | a line of separators only is recorded although it dispatches to nothing |
| Shell.StepRecordsUnknownCommand | src/core/shell_loop.c:115-123 | an unregistered command is recorded before dispatch and then reported as unknown |
| Shell.Exits | src/commands/basic_commands.c:60 | an outcome ends the process when it ran the `salir` handler, which calls `exit(0)` (no contract of its own; see `ExitsIffSalir`) |
| Shell.ExitsIffSalir | src/core/shell_loop.c:82-89 | a dispatch ends the process exactly when the first argument is `salir` |
| Shell.HistorialListsItself | src/core/shell_loop.c:115-123 | since the line is recorded before dispatch, the line `historial` runs the listing with itself as the newest entry |
| Shell.Run | src/core/shell_loop.c:104-130 | over any inputs the history stays within MAX_HISTORY and there is at most one outcome per input; only the last outcome can be `salir`, and a run stops before its inputs run out only because its last outcome is `salir` |
| Shell.RunDispatchesEachInput | src/core/shell_loop.c:108-129 | outcome `k` of a run is the dispatch of the parse of input `k`: every line read is dispatched once, in the order entered |
| Shell.SalirEndsRun | src/core/shell_loop.c:104-130 | after `salir` no further input is read, recorded or dispatched |
| Shell.AyudaIsRegistered | src/core/shell_loop.c:30 | the line "ayuda" dispatches to the help handler |
| Shell.FooIsNotRegistered | src/core/shell_loop.c:24-38 | the line "foo" is reported as unknown |
| Shell.RunThree | src/core/shell_loop.c:108-129 | three inputs, none exiting, run as three iterations in turn |
| Shell.AyudaFooAyudaExample | src/core/shell_loop.c:108-129 | with MAX_HISTORY = 5 the lines "ayuda", "foo", "ayuda" leave all three in the history, run help twice and report "foo" as unknown |
| Shell.Iteration | src/core/shell_loop.c:108-129 | one iteration on the shared history computes `Step` and keeps the history invariant |
| Shell.Session | src/core/shell_loop.c:104-130 | the loop over the inputs computes `Run`: same final history, same outcomes, stopping after `salir` |
| Commands.Historial | src/commands/advanced_commands.c:29-44 | the header names the count; an empty log prints only the notice; otherwise entry `i` is printed with number `i + 1`, oldest first, then a blank line |
| Commands.NewlineIndex | src/commands/advanced_commands.c:112 | the index of the first newline, or the length when there is none |
| Commands.ChunkLength | src/commands/advanced_commands.c:102-110 | one `fgets` call takes at least one and at most 1023 characters, stopping after the first newline |
| Commands.Chunks | src/commands/advanced_commands.c:110 | every string `fgets` returns is non-empty and fits the buffer |
| Commands.ChunksJoin | src/commands/advanced_commands.c:110 | the successive `fgets` results, concatenated, are the whole file |
| Commands.StripNewline | src/commands/advanced_commands.c:112 | the cut line is the prefix of the chunk up to its first newline (the whole chunk when there is none) |
| Commands.FileLines | src/commands/advanced_commands.c:102-112 | the loop sees one line per `fgets` call, line `k` being chunk `k` cut at its first newline |
| Commands.LongLineSplits | src/commands/advanced_commands.c:102-112 | a line longer than 1022 characters is seen as its first 1023 characters, then the rest as the next line |
| Commands.FileLinesOfShortLines | src/commands/advanced_commands.c:102-112 | a file of newline-terminated lines of at most 1022 characters is read back as exactly those lines |
| Commands.HitsFrom | src/commands/advanced_commands.c:103-120 | at most one report per line, each numbered within the file |
| Commands.Hits | src/commands/advanced_commands.c:102-121 | the reports for the whole file, lines numbered from 1 (no contract of its own; `HitsExact`, `HitsIncreasing` and `Scan` state its meaning) |
| Commands.HitsExact | src/commands/advanced_commands.c:110-120 | a (number, line) pair is reported exactly when that numbered line contains the search text |
| Commands.HitsIncreasing | src/commands/advanced_commands.c:103-120 | reports come in file order, each line number at most once |
| Commands.Scan | src/commands/advanced_commands.c:102-121 | the loop reports exactly `Hits`, and `matches` is the number of reports (at most the number of lines) |
| Commands.Buscar | src/commands/advanced_commands.c:82-132 | fewer than two operands prints the usage; an unopenable file prints the open error; otherwise the search of the text in the file's lines |
| Commands.IsSpace | src/commands/advanced_commands.c:190 | `isspace` in the C locale (no contract of its own; see `SpaceCodes`) |
| Commands.SpaceCodes | src/commands/advanced_commands.c:190 | the white space is exactly the space (32) and the codes 9 to 13 |
| Commands.WordsFrom | src/commands/advanced_commands.c:182-196 | never more words than characters |
| Commands.NewlineCount | src/commands/advanced_commands.c:188 | at most one newline per character, and zero exactly when there is no newline |
| Commands.LineCount | src/commands/advanced_commands.c:188-200 | at most one line per character, and at least one for non-empty content |
| Commands.LastLineWithoutNewline | src/commands/advanced_commands.c:188-200 | appending a last line without a newline leaves the count unchanged once the content has a newline; on its own such a line counts as one |
| Commands.LineCountExamples | src/commands/advanced_commands.c:188-200 | the counts of four fixed contents: "a\nb" has 1 line, "a\nb\n" has 2, "ab" has 1, "" has 0 |
| Commands.CountContent | src/commands/advanced_commands.c:180-207 | the loop counts every character, the words of the state machine and the adjusted line count |
| Commands.WordsAreFields | src/commands/advanced_commands.c:186-196 | the word state machine counts exactly the maximal runs of non-space characters |
| Commands.PermString | src/commands/advanced_commands.c:213-221 | the rendering has nine positions |
| Commands.PermStringBits | src/commands/advanced_commands.c:213-221 | position `k` shows `r`, `w`, `x` in turn exactly when mode bit `8 - k` is set, `-` otherwise |
| Commands.PermStringRoundTrip | src/commands/advanced_commands.c:210-221 | the `rwx` rendering determines the permission bits, `mode & 0777` |
| Commands.Octal | src/commands/advanced_commands.c:210 | `%o` prints octal digits only, with no leading zero |
| Commands.OctalRoundTrip | src/commands/advanced_commands.c:210 | the printed octal digits denote the number printed |
| Commands.PermissionOctalWidth | src/commands/advanced_commands.c:210 | `mode & 0777` prints as at most three octal digits |
| Commands.Estadisticas | src/commands/advanced_commands.c:148-244 | a missing operand prints the usage; a failed `stat` prints the error; otherwise the counts (when the file opens), the octal permissions and their `rwx` rendering |

## Left out

- Output formatting is not modelled. This covers the `printf` texts, field widths, ANSI colours and banners. The outputs are structured values instead.
- `cmd_limpiar` is dispatched as `Limpiar`, but its output, ANSI sequences and a banner, is not modelled.
- The handlers `listar`, `leer`, `tiempo`, `calc` and `ayuda` are dispatched as constructors of `Command`, but their behaviour is not modelled. `cmd_ayuda` and `cmd_tiempo` are in `src/commands/basic_commands.c`. `cmd_listar`, `cmd_leer` and `cmd_calc` are defined in files that are not part of this model. `salir` is modelled only as ending the loop, because `cmd_salir` calls `exit(0)` (`src/commands/basic_commands.c:60`).
- `leer_linea` and `parsear_linea` are declared in `shell.h`, which is not part of this model. `Parse` assumes the usual `strtok` splitting on space, tab, CR, LF and BEL, and gives a NULL line no arguments.
- `loop_shell` runs forever. `Session` runs over a finite list of inputs; it ends when `salir` exits or when the inputs run out. The behaviour of `leer_linea` at end of input is not modelled.
- `free_history` is never called by the loop, since `salir` exits the process. `FreeHistory` is modelled on its own.
- The file system is replaced by a `FileTable`. A missing name makes `stat` fail. A file whose content is `None` cannot be opened for reading. The content `fgets` reads and the content `fgetc` reads are taken to be the same.
- `estadisticas` size, KB and MB figures are left out (floating point). So are the modification and access dates, because they depend on `localtime` and the clock, and the file-type line (`S_ISREG` and so on).
- CountContent: compares characters, not the `char` result of `fgetc` against `EOF`. It therefore does not capture a 0xFF byte ending the loop early where `char` is signed, or never ending where `char` is unsigned. It also does not capture `isspace` on a negative `char`.
- Strings are taken to hold no NUL byte. `strstr`, `strcspn` and `strlen` would stop at one.
- The `int` counters (`line_num`, `matches`, `lines`, `words`, `chars`, `history_count`) are unbounded; overflow is not modelled.
- Memory management is not modelled apart from the failure of `strdup`. This covers `free`, `perror` and the freeing of `linea` and `args`.
- AddAll: folds only successful calls on non-NULL lines. NULL lines and failed copies are covered call by call by `Add` and its lemmas, not by `AddAll`.
- A model character stands for one byte, with a value below 256, of a line or a file's content. Multibyte encodings are not modelled. `fgets`' limit of 1023 (`ChunkLength`) and the `chars` count (`CountContent`) are therefore counts of bytes only for such content.
