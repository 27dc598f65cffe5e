/**
  Resolving one name, as try_find and try_print do in which.c.

  access(2) is abstracted by `exec`, the set of paths `access(path, X_OK)`
  accepts, a test made with the real user and group IDs; standard output and
  standard error become returned sequences of lines (without their newlines).
  A name holding a '/' is tested as it stands; any other name is joined to
  each search-path entry in turn, stopping at the first executable candidate
  unless every match is wanted (-a).
 */
module Resolver {

  import opened SearchPath
  import opened PathNames

  /** The switches -a (every match), -p (prefix lines with the name) and -s (quiet). */
  datatype Flags = Flags(tryAll: bool, prefixName: bool, quiet: bool)

  /**
    What resolving one name does. `tested` lists the candidates handed to the
    executability test, in the order they were tested; `stdout` and `stderr`
    are the lines written. `EmptyEntry(i)` is a search that reached entry `i`
    of the search path while that entry is empty: create_full_path then reads
    the character before the entry, which C leaves undefined, so nothing
    further is said about such a run.
   */
  datatype Outcome =
    | Resolved(found: bool, tested: seq<string>, stdout: seq<string>, stderr: seq<string>)
    | EmptyEntry(index: nat)

  /** The line printed for a found path: "name: path" under -p, else the path alone. */
  function Line(name: string, path: string, prefixName: bool): (line: string)
    ensures |line| >= |path| && line[|line| - |path|..] == path
    ensures prefixName ==> line[..|line| - |path|] == name + ": "
    ensures !prefixName ==> line == path
  {
    if prefixName then name + ": " + path else path
  }

  /** The standard-error line for a name nothing was found for. */
  function Diagnostic(argv0: string, name: string, searched: string): string
  {
    argv0 + ": no " + name + " in (" + searched + ")"
  }

  /**
    The pieces of the diagnostic, each at its place: the program name, ": no ",
    the name, " in (", and the searched directories closed by ")".
   */
  lemma DiagnosticFormat(argv0: string, name: string, searched: string)
    ensures var line := Diagnostic(argv0, name, searched);
      && |line| == |argv0| + |name| + |searched| + 11
      && line[..|argv0|] == argv0
      && line[|argv0|..|argv0| + 5] == ": no "
      && line[|argv0| + 5..|argv0| + 5 + |name|] == name
      && line[|argv0| + 5 + |name|..|argv0| + 10 + |name|] == " in ("
      && line[|line| - |searched| - 1..] == searched + ")"
  {
  }

  /** One test: whether the candidate is executable, and the lines it printed. */
  datatype Probe = Probe(hit: bool, lines: seq<string>)

  /**
    try_print: test one candidate and print it when it is executable and the
    run is not quiet.
   */
  function TryPrint(path: string, name: string, flags: Flags, exec: set<string>): (p: Probe)
    ensures p.hit <==> path in exec
    ensures |p.lines| <= 1
    ensures p.lines != [] <==> path in exec && !flags.quiet
    ensures forall i :: 0 <= i < |p.lines| ==> p.lines[i] == Line(name, path, flags.prefixName)
  {
    var hit := path in exec;
    Probe(hit, if hit && !flags.quiet then [Line(name, path, flags.prefixName)] else [])
  }

  /**
    The loop of try_find over the search-path entries: join each entry to the
    name, test it, and return at once on a hit unless -a is given. Found is the
    disjunction of the hits seen (`success |= ...` evaluates the test every
    time). No diagnostic is written here; Resolve adds it.
   */
  function Scan(entries: seq<string>, name: string, flags: Flags, exec: set<string>): (r: Outcome)
    ensures r.Resolved? ==> r.stderr == [] && |r.tested| <= |entries|
    ensures r.Resolved? && flags.quiet ==> r.stdout == []
    ensures r.Resolved? && !r.found ==> r.stdout == []
    ensures r.EmptyEntry? ==> r.index < |entries| && entries[r.index] == []
    decreases |entries|
  {
    if entries == [] then Resolved(false, [], [], [])
    else if entries[0] == [] then EmptyEntry(0)
    else
      var candidate := FullPath(entries[0], name);
      var probe := TryPrint(candidate, name, flags, exec);
      if probe.hit && !flags.tryAll then Resolved(true, [candidate], probe.lines, [])
      else
        match Scan(entries[1..], name, flags, exec)
        case EmptyEntry(i) => EmptyEntry(i + 1)
        case Resolved(found, tested, stdout, _) =>
          Resolved(probe.hit || found, [candidate] + tested, probe.lines + stdout, [])
  }

  /**
    try_find for one name. A name with a '/' is the one candidate, and its
    base name and directory part stand in for the name and the search path in
    the output; any other name is searched for along the entries, and the
    diagnostic then quotes the search-path string.
   */
  function Resolve(name: string, entries: seq<string>, path: string, flags: Flags,
                   exec: set<string>, argv0: string): (r: Outcome)
    ensures Slash in name ==> r.Resolved? && r.tested == [name] && (r.found <==> name in exec)
    ensures r.Resolved? ==> |r.stderr| <= 1 && (r.stderr != [] <==> !r.found && !flags.quiet)
    ensures r.Resolved? && flags.quiet ==> r.stdout == [] && r.stderr == []
    ensures r.Resolved? && !r.found ==> r.stdout == []
    ensures Slash !in name && r.Resolved? && r.stderr != []
        ==> r.stderr == [Diagnostic(argv0, name, path)]
  {
    if Slash in name then
      var (dir, base) := SplitLastSlash(name);
      var probe := TryPrint(name, base, flags, exec);
      Resolved(probe.hit, [name], probe.lines,
               if !probe.hit && !flags.quiet then [Diagnostic(argv0, base, dir)] else [])
    else
      match Scan(entries, name, flags, exec)
      case EmptyEntry(i) => EmptyEntry(i)
      case Resolved(found, tested, stdout, _) =>
        Resolved(found, tested, stdout,
                 if !found && !flags.quiet then [Diagnostic(argv0, name, path)] else [])
  }

  /** The executable ones among the candidates, in their order. */
  function Executables(candidates: seq<string>, exec: set<string>): (hits: seq<string>)
    ensures |hits| <= |candidates|
    ensures forall i :: 0 <= i < |hits| ==> hits[i] in exec
    decreases |candidates|
  {
    if candidates == [] then []
    else
      (if candidates[0] in exec then [candidates[0]] else []) + Executables(candidates[1..], exec)
  }

  /** The lines printed for the given found paths, one each. */
  function Lines(paths: seq<string>, name: string, prefixName: bool): (lines: seq<string>)
    ensures |lines| == |paths|
    ensures forall i :: 0 <= i < |paths| ==> lines[i] == Line(name, paths[i], prefixName)
  {
    seq(|paths|, i requires 0 <= i < |paths| => Line(name, paths[i], prefixName))
  }

  /** No entry before `k` is empty or holds an executable `name`. */
  predicate NoHitBefore(entries: seq<string>, name: string, exec: set<string>, k: nat)
    requires k <= |entries|
  {
    forall j :: 0 <= j < k ==> entries[j] != [] && FullPath(entries[j], name) !in exec
  }

  /** Unfolding the search past a non-empty first entry that does not end it. */
  lemma ScanStep(entries: seq<string>, name: string, flags: Flags, exec: set<string>,
                 r: Outcome, rest: Outcome)
    requires entries != [] && entries[0] != []
    requires !flags.tryAll ==> FullPath(entries[0], name) !in exec
    requires r == Scan(entries, name, flags, exec) && rest == Scan(entries[1..], name, flags, exec)
    ensures rest.EmptyEntry? ==> r == EmptyEntry(rest.index + 1)
    ensures rest.Resolved? ==>
      r == Resolved(FullPath(entries[0], name) in exec || rest.found,
                    [FullPath(entries[0], name)] + rest.tested,
                    TryPrint(FullPath(entries[0], name), name, flags, exec).lines + rest.stdout, [])
  {
  }

  /** Each candidate is the entry at its position joined to the name, that entry being non-empty. */
  predicate InOrder(entries: seq<string>, name: string, tested: seq<string>)
  {
    |tested| <= |entries| &&
    forall j :: 0 <= j < |tested| ==> entries[j] != [] && tested[j] == FullPath(entries[j], name)
  }

  /** No entry before `k` is empty. */
  predicate NonEmptyBefore(entries: seq<string>, k: nat)
  {
    k <= |entries| && forall j :: 0 <= j < k ==> entries[j] != []
  }

  lemma InOrderCons(entries: seq<string>, name: string, tested: seq<string>)
    requires entries != [] && entries[0] != [] && InOrder(entries[1..], name, tested)
    ensures InOrder(entries, name, [FullPath(entries[0], name)] + tested)
  {
    var all := [FullPath(entries[0], name)] + tested;
    forall j | 1 <= j < |all| ensures entries[j] != [] && all[j] == FullPath(entries[j], name) {
      assert all[j] == tested[j-1] && entries[1..][j-1] == entries[j];
    }
  }

  lemma NonEmptyBeforeCons(entries: seq<string>, k: nat)
    requires entries != [] && entries[0] != [] && NonEmptyBefore(entries[1..], k)
    ensures NonEmptyBefore(entries, k + 1)
  {
    forall j | 1 <= j < k + 1 ensures entries[j] != [] {
      assert entries[1..][j-1] == entries[j];
    }
  }

  /**
    In both modes the search tests the entries in path order from the first,
    each candidate being the entry joined to the name; a search that reached
    an empty entry met no empty entry before it.
   */
  lemma {:induction false} ScanInOrder(entries: seq<string>, name: string, flags: Flags,
                                       exec: set<string>, r: Outcome)
    requires r == Scan(entries, name, flags, exec)
    ensures r.Resolved? ==> InOrder(entries, name, r.tested)
    ensures r.EmptyEntry? ==> NonEmptyBefore(entries, r.index)
    decreases |entries|
  {
    if entries != [] && entries[0] != [] {
      var candidate := FullPath(entries[0], name);
      if candidate in exec && !flags.tryAll {
        InOrderCons(entries, name, []);
        assert [candidate] + [] == [candidate];
      } else {
        var rest := Scan(entries[1..], name, flags, exec);
        ScanStep(entries, name, flags, exec, r, rest);
        ScanInOrder(entries[1..], name, flags, exec, rest);
        if rest.Resolved? {
          InOrderCons(entries, name, rest.tested);
        } else {
          NonEmptyBeforeCons(entries, rest.index);
        }
      }
    }
  }

  /** The executable candidates of a longer list: the first one if executable, then the rest's. */
  lemma ExecutablesCons(candidate: string, rest: seq<string>, exec: set<string>)
    ensures Executables([candidate] + rest, exec)
         == (if candidate in exec then [candidate] else []) + Executables(rest, exec)
  {
    assert ([candidate] + rest)[1..] == rest;
  }

  /**
    What printing the executable ones among the candidates writes: one line
    each, nothing if quiet.
   */
  function Printed(tested: seq<string>, name: string, flags: Flags, exec: set<string>): seq<string>
  {
    if flags.quiet then [] else Lines(Executables(tested, exec), name, flags.prefixName)
  }

  /** Printing a longer list: the first candidate's test, then the rest. */
  lemma PrintedCons(candidate: string, tested: seq<string>, name: string, flags: Flags,
                    exec: set<string>)
    ensures Printed([candidate] + tested, name, flags, exec)
         == TryPrint(candidate, name, flags, exec).lines + Printed(tested, name, flags, exec)
  {
    ExecutablesCons(candidate, tested, exec);
    LinesAppend(if candidate in exec then [candidate] else [], Executables(tested, exec),
                name, flags.prefixName);
  }

  /**
    The search prints exactly the executable candidates it tested, one line
    each and in test order, unless quiet.
   */
  lemma {:induction false} ScanPrints(entries: seq<string>, name: string, flags: Flags,
                                      exec: set<string>, r: Outcome)
    requires r == Scan(entries, name, flags, exec)
    ensures r.Resolved? ==> r.stdout == Printed(r.tested, name, flags, exec)
    decreases |entries|
  {
    if entries != [] && entries[0] != [] {
      var candidate := FullPath(entries[0], name);
      if candidate in exec && !flags.tryAll {
        PrintedCons(candidate, [], name, flags, exec);
        assert [candidate] + [] == [candidate];
      } else {
        var rest := Scan(entries[1..], name, flags, exec);
        ScanStep(entries, name, flags, exec, r, rest);
        ScanPrints(entries[1..], name, flags, exec, rest);
        if rest.Resolved? {
          PrintedCons(candidate, rest.tested, name, flags, exec);
        }
      }
    }
  }

  /** Printing two lists of paths is printing the first, then the second. */
  lemma LinesAppend(a: seq<string>, b: seq<string>, name: string, prefixName: bool)
    ensures Lines(a + b, name, prefixName)
        == Lines(a, name, prefixName) + Lines(b, name, prefixName)
  {
  }

  /** Some candidate is executable. */
  predicate AnyExecutable(tested: seq<string>, exec: set<string>)
  {
    exists j :: 0 <= j < |tested| && tested[j] in exec
  }

  lemma AnyExecutableCons(candidate: string, tested: seq<string>, exec: set<string>)
    ensures AnyExecutable([candidate] + tested, exec)
        <==> candidate in exec || AnyExecutable(tested, exec)
  {
    var all := [candidate] + tested;
    assert all[0] == candidate;
    if AnyExecutable(tested, exec) {
      var j :| 0 <= j < |tested| && tested[j] in exec;
      assert all[j+1] == tested[j];
    }
    if AnyExecutable(all, exec) {
      var j :| 0 <= j < |all| && all[j] in exec;
      if j > 0 {
        assert tested[j-1] in exec;
      }
    }
  }

  /** The search finds something exactly when one of the candidates it tested is executable. */
  lemma {:induction false} ScanFinds(entries: seq<string>, name: string, flags: Flags,
                                     exec: set<string>, r: Outcome)
    requires r == Scan(entries, name, flags, exec)
    ensures r.Resolved? ==> (r.found <==> AnyExecutable(r.tested, exec))
    decreases |entries|
  {
    if entries != [] && entries[0] != [] {
      var candidate := FullPath(entries[0], name);
      if candidate in exec && !flags.tryAll {
        AnyExecutableCons(candidate, [], exec);
        assert [candidate] + [] == [candidate];
      } else {
        var rest := Scan(entries[1..], name, flags, exec);
        ScanStep(entries, name, flags, exec, r, rest);
        ScanFinds(entries[1..], name, flags, exec, rest);
        if rest.Resolved? {
          AnyExecutableCons(candidate, rest.tested, exec);
        }
      }
    }
  }

  /** Every candidate but the last is not executable. */
  predicate MissesBeforeLast(tested: seq<string>, exec: set<string>)
  {
    forall j :: 0 <= j < |tested| - 1 ==> tested[j] !in exec
  }

  lemma MissesBeforeLastCons(candidate: string, tested: seq<string>, exec: set<string>)
    requires candidate !in exec && MissesBeforeLast(tested, exec)
    ensures MissesBeforeLast([candidate] + tested, exec)
    ensures tested != [] ==> ([candidate] + tested)[|tested|] == tested[|tested| - 1]
  {
    var all := [candidate] + tested;
    forall j | 1 <= j < |all| - 1 ensures all[j] !in exec {
      assert all[j] == tested[j-1];
    }
  }

  lemma NoHitBeforeCons(entries: seq<string>, name: string, exec: set<string>, k: nat)
    requires entries != [] && entries[0] != [] && FullPath(entries[0], name) !in exec
    requires k <= |entries[1..]| && NoHitBefore(entries[1..], name, exec, k)
    ensures NoHitBefore(entries, name, exec, k + 1)
  {
    forall j | 1 <= j < k + 1 ensures entries[j] != [] && FullPath(entries[j], name) !in exec {
      assert entries[1..][j-1] == entries[j];
    }
  }

  /**
    Without -a the search stops at the first executable candidate: every
    candidate tested before the last one failed, the last one succeeded
    exactly when something was found, and a failed search tested every entry.
    A search that reached an empty entry had found nothing before it.
   */
  lemma {:induction false} FirstMatch(entries: seq<string>, name: string, flags: Flags,
                                      exec: set<string>, r: Outcome)
    requires !flags.tryAll
    requires r == Scan(entries, name, flags, exec)
    ensures r.Resolved? ==> MissesBeforeLast(r.tested, exec)
    ensures r.Resolved? ==> (r.found <==> r.tested != [] && r.tested[|r.tested| - 1] in exec)
    ensures r.Resolved? && !r.found ==> |r.tested| == |entries|
    ensures r.EmptyEntry? ==> NoHitBefore(entries, name, exec, r.index)
    decreases |entries|
  {
    if entries != [] && entries[0] != [] {
      var candidate := FullPath(entries[0], name);
      if candidate !in exec {
        var rest := Scan(entries[1..], name, flags, exec);
        ScanStep(entries, name, flags, exec, r, rest);
        FirstMatch(entries[1..], name, flags, exec, rest);
        if rest.Resolved? {
          MissesBeforeLastCons(candidate, rest.tested, exec);
        } else {
          NoHitBeforeCons(entries, name, exec, rest.index);
        }
      }
    }
  }

  /** With -a every entry is tested, unless the search reaches an empty one. */
  lemma {:induction false} TryAll(entries: seq<string>, name: string, flags: Flags,
                                  exec: set<string>, r: Outcome)
    requires flags.tryAll
    requires r == Scan(entries, name, flags, exec)
    ensures r.Resolved? ==> |r.tested| == |entries|
    decreases |entries|
  {
    if entries != [] && entries[0] != [] {
      var rest := Scan(entries[1..], name, flags, exec);
      ScanStep(entries, name, flags, exec, r, rest);
      TryAll(entries[1..], name, flags, exec, rest);
    }
  }

  /** The search gets to an empty entry at `k`: with -a always, without it only past no hit. */
  predicate ReachesAt(entries: seq<string>, name: string, flags: Flags, exec: set<string>, k: nat)
    requires k < |entries|
  {
    entries[k] == [] && (flags.tryAll || NoHitBefore(entries, name, exec, k))
  }

  /** Some empty entry is one the search gets to. */
  predicate Reaches(entries: seq<string>, name: string, flags: Flags, exec: set<string>)
  {
    exists k :: 0 <= k < |entries| && ReachesAt(entries, name, flags, exec, k)
  }

  /**
    The search ends on an empty entry exactly when there is one that it gets
    to: with -a, any empty entry; without, an empty entry with no hit before
    it.
   */
  lemma {:induction false} ReachesEmptyEntry(entries: seq<string>, name: string, flags: Flags,
                                             exec: set<string>, r: Outcome)
    requires r == Scan(entries, name, flags, exec)
    ensures r.EmptyEntry? <==> Reaches(entries, name, flags, exec)
    decreases |entries|
  {
    if entries != [] {
      if entries[0] == [] {
        assert ReachesAt(entries, name, flags, exec, 0);
      } else if FullPath(entries[0], name) in exec && !flags.tryAll {
        ReachesNotPastHit(entries, name, flags, exec);
      } else {
        var rest := Scan(entries[1..], name, flags, exec);
        ScanStep(entries, name, flags, exec, r, rest);
        ReachesEmptyEntry(entries[1..], name, flags, exec, rest);
        ReachesTail(entries, name, flags, exec);
      }
    }
  }

  /** Without -a, no empty entry is reached past a first entry that is a hit. */
  lemma ReachesNotPastHit(entries: seq<string>, name: string, flags: Flags, exec: set<string>)
    requires entries != [] && entries[0] != [] && FullPath(entries[0], name) in exec
        && !flags.tryAll
    ensures !Reaches(entries, name, flags, exec)
  {
    forall k | 0 <= k < |entries| ensures !ReachesAt(entries, name, flags, exec, k) {
    }
  }

  /**
    Past a non-empty first entry the search goes beyond, the empty entries
    reached are the tail's.
   */
  lemma ReachesTail(entries: seq<string>, name: string, flags: Flags, exec: set<string>)
    requires entries != [] && entries[0] != []
    requires !flags.tryAll ==> FullPath(entries[0], name) !in exec
    ensures Reaches(entries, name, flags, exec) <==> Reaches(entries[1..], name, flags, exec)
  {
    var tail := entries[1..];
    if Reaches(tail, name, flags, exec) {
      var k :| 0 <= k < |tail| && ReachesAt(tail, name, flags, exec, k);
      ReachesAtShift(entries, name, flags, exec, k + 1);
    }
    if Reaches(entries, name, flags, exec) {
      var k :| 0 <= k < |entries| && ReachesAt(entries, name, flags, exec, k);
      ReachesAtShift(entries, name, flags, exec, k);
    }
  }

  /**
    Past a non-empty first entry the search goes beyond, the empty entries
    reached are the tail's, one position later.
   */
  lemma ReachesAtShift(entries: seq<string>, name: string, flags: Flags, exec: set<string>, k: nat)
    requires 1 <= k < |entries| && entries[0] != []
    requires !flags.tryAll ==> FullPath(entries[0], name) !in exec
    ensures ReachesAt(entries, name, flags, exec, k)
        <==> ReachesAt(entries[1..], name, flags, exec, k - 1)
  {
    assert forall j :: 0 <= j < k - 1 ==> entries[1..][j] == entries[j + 1];
  }

  /** A search path with no empty entry always resolves, in both modes. */
  lemma DefinedOnWellFormedPath(name: string, entries: seq<string>, path: string, flags: Flags,
                                exec: set<string>, argv0: string)
    requires NoEmptyEntry(entries)
    ensures Resolve(name, entries, path, flags, exec, argv0).Resolved?
  {
    ReachesEmptyEntry(entries, name, flags, exec, Scan(entries, name, flags, exec));
  }

  /**
    A name with a '/' is its own and only candidate. The search path and the
    PATH string play no part: the printed name is the part after the last
    '/', and the diagnostic quotes the part before it.
   */
  lemma SlashBranch(name: string, entries: seq<string>, path: string, flags: Flags,
                    exec: set<string>, argv0: string)
    requires Slash in name
    ensures Resolve(name, entries, path, flags, exec, argv0)
         == Resolved(name in exec, [name],
                          if name in exec && !flags.quiet
                          then [Line(SplitLastSlash(name).1, name, flags.prefixName)] else [],
                          if name !in exec && !flags.quiet
                          then [Diagnostic(argv0, SplitLastSlash(name).1, SplitLastSlash(name).0)]
                          else [])
    ensures forall others: seq<string>, otherPath: string ::
              Resolve(name, others, otherPath, flags, exec, argv0)
              == Resolve(name, entries, path, flags, exec, argv0)
  {
  }

  /**
    A name without a '/' is searched for along the entries: the outcome is the
    search's, and the diagnostic, when there is one, quotes the PATH string.
   */
  lemma SearchBranch(name: string, entries: seq<string>, path: string, flags: Flags,
                     exec: set<string>, argv0: string)
    requires Slash !in name
    ensures var r := Resolve(name, entries, path, flags, exec, argv0);
            var s := Scan(entries, name, flags, exec);
      && (r.EmptyEntry? <==> s.EmptyEntry?)
      && (s.EmptyEntry? ==> r.index == s.index)
      && (s.Resolved? ==>
            && r.found == s.found && r.tested == s.tested && r.stdout == s.stdout
            && r.stderr == if !s.found && !flags.quiet then [Diagnostic(argv0, name, path)]
                           else [])
  {
  }

  /** The base name a found path is printed with under -p: the part after its last '/'. */
  function BaseName(p: string): string
  {
    if Slash in p then SplitLastSlash(p).1 else p
  }

  /** The lines for found paths, each prefixed under -p with its own base name. */
  function LabelledLines(paths: seq<string>, prefixName: bool): (lines: seq<string>)
    ensures |lines| == |paths|
  {
    seq(|paths|, i requires 0 <= i < |paths| => Line(BaseName(paths[i]), paths[i], prefixName))
  }

  /**
    In both branches every printed line is an executable tested candidate,
    in test order, prefixed under -p with that path's own base name.
   */
  lemma PrintedLines(name: string, entries: seq<string>, path: string, flags: Flags,
                     exec: set<string>, argv0: string)
    ensures Resolve(name, entries, path, flags, exec, argv0).Resolved? ==>
      Resolve(name, entries, path, flags, exec, argv0).stdout
      == if flags.quiet then []
         else LabelledLines(
                Executables(Resolve(name, entries, path, flags, exec, argv0).tested, exec),
                flags.prefixName)
  {
    var r := Resolve(name, entries, path, flags, exec, argv0);
    if r.Resolved? && !flags.quiet {
      if Slash in name {
        SlashBranch(name, entries, path, flags, exec, argv0);
        SlashLabelled(name, exec, flags.prefixName);
      } else {
        ScanLabelled(entries, name, flags, exec, Scan(entries, name, flags, exec));
      }
    }
  }

  /** The one line a found path name is printed with is its labelled line. */
  lemma SlashLabelled(name: string, exec: set<string>, prefixName: bool)
    requires Slash in name
    ensures LabelledLines(Executables([name], exec), prefixName)
         == if name in exec then [Line(SplitLastSlash(name).1, name, prefixName)] else []
  {
    ExecutablesCons(name, [], exec);
    assert [name] + [] == [name];
  }

  /** What the search prints, when not quiet, is the labelled lines of its hits. */
  lemma ScanLabelled(entries: seq<string>, name: string, flags: Flags, exec: set<string>,
                     s: Outcome)
    requires Slash !in name && !flags.quiet
    requires s == Scan(entries, name, flags, exec)
    ensures s.Resolved? ==>
      s.stdout == LabelledLines(Executables(s.tested, exec), flags.prefixName)
  {
    ScanInOrder(entries, name, flags, exec, s);
    ScanPrints(entries, name, flags, exec, s);
    if s.Resolved? {
      CandidatesLabelled(entries, name, s.tested, exec, flags.prefixName);
    }
  }

  /** A candidate built from the name is labelled with the name itself. */
  lemma CandidatesLabelled(entries: seq<string>, name: string, tested: seq<string>,
                           exec: set<string>, prefixName: bool)
    requires Slash !in name && InOrder(entries, name, tested)
    ensures Lines(Executables(tested, exec), name, prefixName)
        == LabelledLines(Executables(tested, exec), prefixName)
  {
    var hits := Executables(tested, exec);
    ExecutablesAreTested(tested, exec);
    forall i | 0 <= i < |hits| ensures BaseName(hits[i]) == name {
      assert hits[i] in tested;
      var j :| 0 <= j < |tested| && tested[j] == hits[i];
      SplitFullPath(entries[j], name);
    }
  }

  /** Every executable candidate kept is one of the candidates. */
  lemma {:induction false} ExecutablesAreTested(candidates: seq<string>, exec: set<string>)
    ensures forall h :: h in Executables(candidates, exec) ==> h in candidates
    decreases |candidates|
  {
    if candidates != [] {
      ExecutablesAreTested(candidates[1..], exec);
    }
  }
}
