# which: a Dafny model

This project models `which.c`, a small `which(1)`. The program takes a list of
program names. Each name that holds a '/' is tested as it stands. Every other
name is looked up along the `:`-separated directories of `PATH`. The first
executable candidate is printed, or every one under `-a`. Under `-p` each line
is prefixed with the name, and `-s` makes the run quiet. The exit status says
whether all, some or none of the names were found.

The model has four modules, one per piece of the program, and a fifth of worked examples:

- `SearchPath` (`search_path.dfy`) covers `create_path_items` and the walk over
  its packed buffer in `try_find`.
  - `Split` is what the entries of a search-path string mean.
  - `CreatePathItems` builds the NUL-packed buffer.
  - `Walk` steps through that buffer one NUL-terminated string at a time. Its
    contract says the walk yields exactly `Split` of the path.
  - Lemmas give the entry count, the round trip through `Join`, and the fact
    that an entry never holds a ':'. They also say exactly when some entry is
    empty.
- `PathNames` (`path_names.dfy`) covers `create_full_path` and the cut at the
  last '/' in the slash branch of `try_find`.
- `Resolver` (`resolver.dfy`) covers `try_print` and `try_find`.
  - The resolver is a pure function of:
    - the name;
    - the entries;
    - the search-path string;
    - the switches;
    - the set `exec` of paths `access(path, X_OK)` accepts, which stands in for
      `access(2)`;
    - the program name.
  - It returns an `Outcome`: whether the name was found, the candidates
    tested in order, and the lines written to standard output and standard
    error.
- `Driver` (`driver.dfy`) covers `main`: the fallback search path (`/usr/bin:/bin`, as
  which.c:35-37 defines `_PATH_DEFPATH` when `<paths.h>` does not), the
  loop over the names, and the errors/attempts tally that gives the exit status.
- `Scenarios` (`scenarios.dfy`) works out three concrete searches on the
  built-in path.

### Empty search-path entries

A leading, trailing or doubled ':' gives an empty entry. `Split` keeps it, as
`create_path_items` does. When the search reaches an empty entry,
`create_full_path` reads `dir[strlen(dir) - 1]`, which is the byte before the
entry (which.c:66). C leaves that read undefined. For a doubled or trailing
':' that byte is the NUL that replaced the ':', inside the buffer, so a common
flat-address build would go on to test "/" followed by the name there; only a
leading ':' reads before the start of the buffer. Either way the model stops at
the entry.

The model does not give empty entries any meaning. It does not treat them as
the current directory.
- `PathNames.FullPath` requires a non-empty directory.
- The search returns `EmptyEntry(i)` when it gets to an empty entry `i`.
- A run in which that happens is `Undefined`. It records which name and which
  entry caused it.

Empty entries are harmless in two cases:
- the search has already stopped at an earlier hit (without `-a`);
- the name holds a '/', so the entries are not consulted.

`Resolver.ReachesEmptyEntry` says exactly when an empty entry is reached.
`SearchPath.NoEmptyEntryIff` says exactly which strings have an empty entry.
`Resolver.DefinedOnWellFormedPath` says that a path without one always
resolves.

Two other facts about which.c shape the model:
- `create_path_items` keeps empty entries (which.c:153-158).
- A failed `malloc` is reported, but `main` then walks a null buffer with size
  `(size_t)-1` (which.c:195-201). That is undefined, and "## Left out" covers it.

## Model

| member | source | states |
|---|---|---|
| SearchPath.SplitCount | which.c:153-158 | a search-path string has exactly one entry more than it has ':' characters, empty entries included |
| SearchPath.JoinSplit | which.c:153-158 | putting a ':' back between neighbouring entries gives the original string: splitting loses nothing |
| SearchPath.SplitJoin | which.c:143-158 | splitting a ':'-join of ':'-free directories gives those directories back, in order |
| SearchPath.SplitEntriesFree | which.c:143-144 | no entry holds a ':', because the separator cannot be escaped |
| SearchPath.NoEmptyEntryIff | which.c:153-158 | every entry is non-empty exactly when the string is non-empty, neither starts nor ends with ':', and has no "::" |
| SearchPath.CreatePathItems | which.c:146-161 | the buffer is the path with every ':' replaced by NUL and every other character unchanged in place, plus one NUL at the end; the size reported is strlen(path) + 1 |
| SearchPath.Walk | which.c:117-119 | stepping through the packed buffer by strlen + 1 until the reported size visits exactly the entries of the path, in order, empty ones included |
| SearchPath.StrLen | which.c:119 | the length of the NUL-terminated string at an offset: the next NUL, with none before it |
| SearchPath.SplitPair | which.c:153-158 | two ':'-free directories joined by one ':' split into exactly those two entries, and when both are non-empty the string has no empty entry |
| PathNames.FullPath | which.c:62-68 | the candidate begins with the directory and ends with the file name, with a '/' just before the file name; it is one character longer than both together exactly when the directory does not already end in '/'; an empty directory is outside its domain |
| PathNames.SplitLastSlash | which.c:105-111 | the name is the directory part, a '/', then the base name, and the base name holds no '/' |
| PathNames.SplitLastSlashUnique | which.c:108-111 | that cut is the only one whose base name holds no '/' |
| PathNames.SplitFullPath | which.c:62-68 | cutting a candidate at its last '/' gives back the file name, and the directory less any trailing '/' |
| Resolver.Line | which.c:81-85 | the printed line ends with the path; under -p it is the name and ": " before it, otherwise the path alone |
| Resolver.DiagnosticFormat | which.c:128 | the standard-error line for a name not found: the program name, ": no ", the name, " in (", the searched directories, ")" (without the newline) |
| Resolver.TryPrint | which.c:74-88 | the candidate counts as found exactly when it is executable; one line is printed exactly when it is executable and the run is not quiet, and that line is the candidate's line |
| Resolver.Scan | which.c:117-125 | the search writes no diagnostic, tests at most one candidate per entry, prints nothing when quiet or when nothing was found, and reports only an empty entry as undefined |
| Resolver.Resolve | which.c:93-131 | a name with a '/' is the one candidate and is found exactly when it is executable; one diagnostic line is written exactly when nothing was found and the run is not quiet, and for a bare name it quotes the search-path string; a quiet run writes nothing |
| Resolver.ScanInOrder | which.c:117-120 | the candidates are tested in path order, each being its entry joined to the name, and an empty entry is reached only past non-empty entries |
| Resolver.ScanPrints | which.c:120-121 | the output is one line for each executable candidate, in the order tested, or nothing when quiet |
| Resolver.ScanFinds | which.c:121 | the name is found exactly when some tested candidate is executable |
| Resolver.FirstMatch | which.c:117-125 | without -a, every candidate before the last is not executable; the name is found exactly when the last one is; nothing found means every entry was tested; an empty entry is reached only after no hit |
| Resolver.TryAll | which.c:117-125 | with -a, every entry is tested |
| Resolver.ReachesEmptyEntry | which.c:117-120 | the search is undefined exactly when some empty entry is reached: with -a any empty entry, without -a one with no hit before it |
| Resolver.DefinedOnWellFormedPath | which.c:117-125 | a search path without empty entries always gives a defined result, with or without -a |
| Resolver.SlashBranch | which.c:105-113 | a name with a '/' tests only itself; the output and diagnostic use the base name and the directory part; the result does not depend on the search path at all |
| Resolver.SearchBranch | which.c:114-130 | a name without a '/' has exactly the search's outcome: undefined at the same empty entry, otherwise the same found flag, candidates and printed lines; the diagnostic, written exactly when nothing was found and the run is not quiet, quotes the name and the PATH string |
| Resolver.PrintedLines | which.c:80-85 | each line printed is a found executable, prefixed under -p with its own base name, in the order tested |
| Driver.Usage | which.c:54 | the usage line: the program name followed by " [-aps] [--] PROGRAM [...]" (without the newline) |
| Driver.EffectivePath | which.c:190-193 | the search path is PATH when it is set and non-empty, otherwise the fallback "/usr/bin:/bin" of which.c:35-37 |
| Driver.DefaultPathEntries | which.c:35-37 | the fallback search path has the two entries "/usr/bin" and "/bin", and no empty one |
| Driver.ExitStatus | which.c:209-213 | status 2 exactly when every attempt failed, 0 exactly when none failed and there was an attempt, 1 exactly when some but not all failed |
| Driver.OutcomeAt | which.c:200-206 | the outcome at each position is the resolution of the name at that position |
| Driver.RunOutcomeAt | which.c:200-206 | in a run, the outcome at each position is the lookup of that name against the run's search path |
| Driver.Failures | which.c:200-205 | the errors counter never exceeds the number of names tried |
| Driver.SomeFound | which.c:209-213 | the status is 1 exactly when some name was found and some name was not |
| Driver.TallyStep | which.c:200-206 | after one more resolved name, errors grows by one exactly when the name was not found, and its output is appended |
| Driver.TalliedStatus | which.c:209-213 | over the tallied names, the status is 0 exactly when all were found and 2 exactly when none was |
| Driver.ResolveAll | which.c:200-213 | the names are resolved in command-line order; the run is defined exactly when every name's search is; the status is ExitStatus of the number not found and the number tried, so 0 exactly when all are found, 2 exactly when none is, and 1 exactly when some but not all are; the output is the names' outputs in order |
| Driver.Which | which.c:165-214 | with no names, the usage line and status 2; otherwise the search path is built once from PATH or the default, and the run is as ResolveAll describes for that path's entries, status 1 included |
| Scenarios.FoundInSecondEntry | which.c:117-125 | `ls`, executable only as /bin/ls: /usr/bin/ls is tested first and misses, then /bin/ls is found and is the one line printed |
| Scenarios.EveryMatchLabelled | which.c:117-125 | `-a -p sh` with sh in both directories: both candidates are tested and both lines are printed, in path order, each prefixed with "sh: " |
| Scenarios.MissingPathName | which.c:105-128 | `/nonexistent/foo`, not executable: only that path is tested, nothing is printed, and the diagnostic names "foo" and shows "/nonexistent" |

## Left out

- Driver.EffectivePath: the fallback `_PATH_DEFPATH` is fixed to
  "/usr/bin:/bin", the definition which.c:35-37 supplies only when `<paths.h>`
  does not; a system header may define a different list, which the model does
  not cover.
- `access(2)` is replaced by the set `exec` of executable paths. The real
  filesystem is not modelled.
- `getenv` is replaced by the optional PATH value in `Invocation`.
- `printf` and `fprintf` are replaced by returned line sequences without their newlines.
- `getopt` is not modelled. The three switches arrive already parsed, and the
  names are the operands. An unknown option is not modelled either; it calls
  `usage()` (which.c:182-183). The model keeps only the no-operand usage exit
  (which.c:186-188).
- The `malloc` failure in `create_path_items` (which.c:148-151, 197-199) is left
  out. After it, `main` walks a null buffer with size `(size_t)-1`, which is
  undefined behaviour.
- `PATH_MAX` truncation by `snprintf` and `strncpy` (which.c:67, 107) is left
  out. Strings are unbounded.
- The in-place overwrite of the last '/' of `argv[i]` (which.c:110-111) is
  modelled as a pure cut of the name into directory and base name.
- The global `argv0` is a parameter.
- Searching an empty entry is undefined behaviour in C (which.c:66). The model
  stops there with `EmptyEntry` and says nothing more about the run.
- The `free` of the buffer (which.c:208) has no observable effect and is left out.
