/**
  The main function of which.c: pick the search-path string, build the
  entries once, resolve every name given on the command line in order, and
  fold the per-name results into the exit status.

  Option parsing is not modelled: the three switches arrive already parsed in
  `Flags`, and `names` are the operands left after them. The environment is
  the optional value of PATH.
 */
module Driver {

  import opened SearchPath
  import opened Resolver

  datatype Option<T> = None | Some(value: T)

  /**
    The search path used when PATH is unset or empty: _PATH_DEFPATH as the
    fallback of which.c:35-37 defines it, for systems whose <paths.h> lacks it.
   */
  const DefaultPath: string := "/usr/bin:/bin"

  /** Exit status when no name was resolved, or on a usage error. */
  const WhichNone: nat := 2
  /** Exit status when some but not all names were resolved. */
  const WhichNotAll: nat := 1

  /** One run of the program: its name, PATH if set, its switches and its operands. */
  datatype Invocation = Invocation(argv0: string, env: Option<string>, flags: Flags,
                                   names: seq<string>)

  /**
    What a run does: the exit status with everything written, or a run in
    which some name's search reached an empty search-path entry.
   */
  datatype Run =
    | Exited(status: nat, stdout: seq<string>, stderr: seq<string>)
    | Undefined(query: nat, entry: nat)

  /** The usage line written when no name is given. */
  function Usage(argv0: string): (line: string)
    ensures |line| == |argv0| + 26
    ensures line[..|argv0|] == argv0
    ensures line[|argv0|..] == " [-aps] [--] PROGRAM [...]"
  {
    argv0 + " [-aps] [--] PROGRAM [...]"
  }

  /** The search-path string: PATH itself, unless it is unset or empty. */
  function EffectivePath(env: Option<string>): (path: string)
    ensures path != []
    ensures env.Some? && env.value != [] ==> path == env.value
    ensures env.None? || env.value == [] ==> path == DefaultPath
  {
    match env
    case Some(value) => if value == [] then DefaultPath else value
    case None => DefaultPath
  }

  /** The built-in path has two entries, neither empty, so searching it is always defined. */
  lemma DefaultPathEntries()
    ensures Split(DefaultPath) == ["/usr/bin", "/bin"]
    ensures !Malformed(DefaultPath)
  {
    SplitPair("/usr/bin", "/bin");
    assert DefaultPath == "/usr/bin" + [Separator] + "/bin";
  }

  /**
    The tail of main: every name failed, some failed, or none did. Callers
    keep `errors <= attempts`, which turns the middle case into
    0 < errors < attempts.
   */
  function ExitStatus(errors: nat, attempts: nat): (status: nat)
    ensures status <= WhichNone
    ensures status == WhichNone <==> errors == attempts
    ensures status == 0 <==> errors == 0 && attempts > 0
    ensures errors <= attempts ==> (status == WhichNotAll <==> 0 < errors < attempts)
  {
    if errors == attempts then WhichNone
    else if errors != 0 then WhichNotAll
    else 0
  }

  /** The entries of the run's search-path string. */
  function Entries(inv: Invocation): seq<string>
  {
    Split(EffectivePath(inv.env))
  }

  /** Resolving one name of the run against the entries of its search-path string. */
  function Lookup(inv: Invocation, exec: set<string>, name: string): Outcome
  {
    Resolve(name, Entries(inv), EffectivePath(inv.env), inv.flags, exec, inv.argv0)
  }

  /**
    The outcome of each of the names, in order, resolved against the given
    entries and search-path string.
   */
  function Outcomes(names: seq<string>, entries: seq<string>, path: string, flags: Flags,
                    exec: set<string>, argv0: string): (outcomes: seq<Outcome>)
    ensures |outcomes| == |names|
  {
    if names == [] then []
    else
      Outcomes(names[..|names|-1], entries, path, flags, exec, argv0)
      + [Resolve(names[|names|-1], entries, path, flags, exec, argv0)]
  }

  /** The outcomes of a run's names. */
  function RunOutcomes(inv: Invocation, exec: set<string>): seq<Outcome>
  {
    Outcomes(inv.names, Entries(inv), EffectivePath(inv.env), inv.flags, exec, inv.argv0)
  }

  /** The outcome at position `i` is the resolution of the name at `i`. */
  lemma {:induction false} OutcomeAt(names: seq<string>, entries: seq<string>, path: string,
                                     flags: Flags, exec: set<string>, argv0: string, i: nat)
    requires i < |names|
    ensures Outcomes(names, entries, path, flags, exec, argv0)[i]
        == Resolve(names[i], entries, path, flags, exec, argv0)
    decreases |names|
  {
    if i < |names| - 1 {
      OutcomeAt(names[..|names|-1], entries, path, flags, exec, argv0, i);
    }
  }

  /** Each outcome of a run is the lookup of the name at its position. */
  lemma RunOutcomeAt(inv: Invocation, exec: set<string>, i: nat)
    requires i < |inv.names|
    ensures RunOutcomes(inv, exec)[i] == Lookup(inv, exec, inv.names[i])
  {
    OutcomeAt(inv.names, Entries(inv), EffectivePath(inv.env), inv.flags, exec, inv.argv0, i);
  }

  /** The outcomes of a prefix of the names are a prefix of the outcomes. */
  lemma {:induction false} OutcomesPrefix(names: seq<string>, entries: seq<string>, path: string,
                                          flags: Flags, exec: set<string>, argv0: string, k: nat)
    requires k <= |names|
    ensures Outcomes(names, entries, path, flags, exec, argv0)[..k]
        == Outcomes(names[..k], entries, path, flags, exec, argv0)
    decreases |names|
  {
    if k < |names| {
      var init := names[..|names|-1];
      OutcomesPrefix(init, entries, path, flags, exec, argv0, k);
      assert init[..k] == names[..k];
      SnocPrefix(Outcomes(init, entries, path, flags, exec, argv0),
                 Resolve(names[|names|-1], entries, path, flags, exec, argv0), k);
    } else {
      assert names[..k] == names;
    }
  }

  /** Appending an element leaves every prefix up to the old length as it was. */
  lemma SnocPrefix<T>(init: seq<T>, last: T, k: nat)
    requires k <= |init|
    ensures (init + [last])[..k] == init[..k]
  {
  }

  /** One more name, one more outcome. */
  lemma OutcomesSnoc(names: seq<string>, entries: seq<string>, path: string, flags: Flags,
                     exec: set<string>, argv0: string, i: nat)
    requires i < |names|
    ensures Outcomes(names[..i+1], entries, path, flags, exec, argv0)
         == Outcomes(names[..i], entries, path, flags, exec, argv0)
             + [Resolve(names[i], entries, path, flags, exec, argv0)]
  {
    var next := names[..i+1];
    assert next[..i] == names[..i] && next[i] == names[i];
  }

  /**
    A run that stops at name `i`: the outcomes before it, all resolved, are
    those of the whole list, and the outcome at `i` is that name's.
   */
  lemma StopsAt(names: seq<string>, entries: seq<string>, path: string, flags: Flags,
                exec: set<string>, argv0: string, i: nat, results: seq<Outcome>)
    requires i < |names|
    requires results == Outcomes(names[..i], entries, path, flags, exec, argv0)
    requires forall j :: 0 <= j < |results| ==> results[j].Resolved?
    ensures forall j :: 0 <= j < i ==>
                 Outcomes(names, entries, path, flags, exec, argv0)[j].Resolved?
    ensures Outcomes(names, entries, path, flags, exec, argv0)[i]
        == Resolve(names[i], entries, path, flags, exec, argv0)
  {
    var all := Outcomes(names, entries, path, flags, exec, argv0);
    var r := Resolve(names[i], entries, path, flags, exec, argv0);
    OutcomesPrefix(names, entries, path, flags, exec, argv0, i + 1);
    OutcomesSnoc(names, entries, path, flags, exec, argv0, i);
    assert all[..i+1] == results + [r];
    assert all[i] == all[..i+1][i];
    forall j | 0 <= j < i ensures all[j].Resolved? {
      assert all[j] == all[..i+1][j] == results[j];
    }
  }

  /** The name was found. */
  predicate Found(o: Outcome)
  {
    o.Resolved? && o.found
  }

  /** How many of the outcomes are not a find: the errors counter of main. */
  function Failures(outcomes: seq<Outcome>): (n: nat)
    ensures n <= |outcomes|
  {
    if outcomes == [] then 0
    else Failures(outcomes[..|outcomes|-1]) + (if Found(outcomes[|outcomes|-1]) then 0 else 1)
  }

  /** Standard output of the names, one after another. */
  function StdoutOf(outcomes: seq<Outcome>): seq<string>
  {
    if outcomes == [] then []
    else
      var o := outcomes[|outcomes|-1];
      StdoutOf(outcomes[..|outcomes|-1]) + (if o.Resolved? then o.stdout else [])
  }

  /** Standard error of the names, one after another. */
  function StderrOf(outcomes: seq<Outcome>): seq<string>
  {
    if outcomes == [] then []
    else
      var o := outcomes[|outcomes|-1];
      StderrOf(outcomes[..|outcomes|-1]) + (if o.Resolved? then o.stderr else [])
  }

  /** No failure means every name was found. */
  lemma {:induction false} NoFailures(outcomes: seq<Outcome>)
    ensures Failures(outcomes) == 0 <==> forall i :: 0 <= i < |outcomes| ==> Found(outcomes[i])
    decreases |outcomes|
  {
    if outcomes != [] {
      var init := outcomes[..|outcomes|-1];
      NoFailures(init);
      assert forall i :: 0 <= i < |init| ==> init[i] == outcomes[i];
    }
  }

  /** As many failures as outcomes means no name was found. */
  lemma {:induction false} AllFailures(outcomes: seq<Outcome>)
    ensures Failures(outcomes) == |outcomes|
        <==> forall i :: 0 <= i < |outcomes| ==> !Found(outcomes[i])
    decreases |outcomes|
  {
    if outcomes != [] {
      var init := outcomes[..|outcomes|-1];
      AllFailures(init);
      assert forall i :: 0 <= i < |init| ==> init[i] == outcomes[i];
    }
  }

  /** Status 1: some of the names were found and some were not. */
  lemma SomeFound(outcomes: seq<Outcome>)
    requires outcomes != []
    ensures ExitStatus(Failures(outcomes), |outcomes|) == WhichNotAll
        <==> (exists i :: 0 <= i < |outcomes| && Found(outcomes[i]))
             && (exists j :: 0 <= j < |outcomes| && !Found(outcomes[j]))
  {
    NoFailures(outcomes);
    AllFailures(outcomes);
  }

  /** The tallies of main after one more outcome. */
  lemma TallySnoc(outcomes: seq<Outcome>, o: Outcome)
    ensures Failures(outcomes + [o]) == Failures(outcomes) + (if Found(o) then 0 else 1)
    ensures StdoutOf(outcomes + [o]) == StdoutOf(outcomes) + (if o.Resolved? then o.stdout else [])
    ensures StderrOf(outcomes + [o]) == StderrOf(outcomes) + (if o.Resolved? then o.stderr else [])
  {
    assert (outcomes + [o])[..|outcomes|] == outcomes;
  }

  /**
    The counters and output of main after resolving `results`, all of which
    were resolved.
   */
  predicate Tallied(results: seq<Outcome>, errors: nat, stdout: seq<string>, stderr: seq<string>)
  {
    && (forall j :: 0 <= j < |results| ==> results[j].Resolved?)
    && errors == Failures(results)
    && stdout == StdoutOf(results)
    && stderr == StderrOf(results)
  }

  /** One more resolved name, tallied as main does. */
  lemma TallyStep(results: seq<Outcome>, errors: nat, stdout: seq<string>, stderr: seq<string>,
                  r: Outcome)
    requires Tallied(results, errors, stdout, stderr) && r.Resolved?
    ensures Tallied(results + [r], if Found(r) then errors else errors + 1,
                    stdout + r.stdout, stderr + r.stderr)
  {
    TallySnoc(results, r);
  }

  /** The status main computes from the tallies of every name. */
  lemma TalliedStatus(results: seq<Outcome>, errors: nat, stdout: seq<string>, stderr: seq<string>)
    requires Tallied(results, errors, stdout, stderr) && results != []
    ensures ExitStatus(errors, |results|) == 0
        <==> forall i :: 0 <= i < |results| ==> Found(results[i])
    ensures ExitStatus(errors, |results|) == WhichNone
        <==> forall i :: 0 <= i < |results| ==> !Found(results[i])
  {
    NoFailures(results);
    AllFailures(results);
  }

  /**
    The loop of main: every name is resolved in command-line order against
    the same entries; attempts counts the names tried and errors those not
    found, and the status is ExitStatus of the two: 0 when every name was
    found, 2 when none was, 1 when some but not all were. The output of the
    run is the output of its names in order. A name whose search reaches an
    empty entry ends the run as undefined.
   */
  method ResolveAll(names: seq<string>, entries: seq<string>, path: string, flags: Flags,
                    exec: set<string>, argv0: string) returns (run: Run)
    requires names != []
    ensures run.Exited? <==>
      forall i :: 0 <= i < |names| ==>
        Outcomes(names, entries, path, flags, exec, argv0)[i].Resolved?
    ensures run.Undefined? ==>
      && run.query < |names|
      && Outcomes(names, entries, path, flags, exec, argv0)[run.query] == EmptyEntry(run.entry)
      && forall i :: 0 <= i < run.query ==>
           Outcomes(names, entries, path, flags, exec, argv0)[i].Resolved?
    ensures run.Exited? ==>
      var outcomes := Outcomes(names, entries, path, flags, exec, argv0);
      && (run.status == 0 <==> forall i :: 0 <= i < |names| ==> Found(outcomes[i]))
      && (run.status == WhichNone <==> forall i :: 0 <= i < |names| ==> !Found(outcomes[i]))
      && run.status == ExitStatus(Failures(outcomes), |names|)
      && run.stdout == StdoutOf(outcomes)
      && run.stderr == StderrOf(outcomes)
  {
    var errors, attempts := 0, 0;
    var stdout, stderr := [], [];
    ghost var results: seq<Outcome> := [];
    var i := 0;
    while i < |names|
      invariant attempts == i <= |names|
      invariant results == Outcomes(names[..i], entries, path, flags, exec, argv0)
      invariant Tallied(results, errors, stdout, stderr)
    {
      var r := Resolve(names[i], entries, path, flags, exec, argv0);
      if r.EmptyEntry? {
        StopsAt(names, entries, path, flags, exec, argv0, i, results);
        return Undefined(i, r.index);
      }
      OutcomesSnoc(names, entries, path, flags, exec, argv0, i);
      TallyStep(results, errors, stdout, stderr, r);
      results := results + [r];
      if !Found(r) {
        errors := errors + 1;
      }
      attempts := attempts + 1;
      stdout := stdout + r.stdout;
      stderr := stderr + r.stderr;
      i := i + 1;
    }
    assert names[..i] == names;
    TalliedStatus(results, errors, stdout, stderr);
    run := Exited(ExitStatus(errors, attempts), stdout, stderr);
  }

  /**
    main: with no name, the usage line and status 2. Otherwise the search
    path is PATH or the built-in one, its packed entries are built once, and
    every name is resolved against them.
   */
  method Which(inv: Invocation, exec: set<string>) returns (run: Run)
    requires inv.env.Some? ==> Nul !in inv.env.value
    ensures inv.names == [] ==> run == Exited(WhichNone, [], [Usage(inv.argv0)])
    ensures inv.names != [] ==>
      (run.Exited? <==> forall i :: 0 <= i < |inv.names| ==> RunOutcomes(inv, exec)[i].Resolved?)
    ensures run.Undefined? ==>
      && run.query < |inv.names|
      && RunOutcomes(inv, exec)[run.query] == EmptyEntry(run.entry)
      && forall i :: 0 <= i < run.query ==> RunOutcomes(inv, exec)[i].Resolved?
    ensures run.Exited? && inv.names != [] ==>
      && (run.status == 0
          <==> forall i :: 0 <= i < |inv.names| ==> Found(RunOutcomes(inv, exec)[i]))
      && (run.status == WhichNone
          <==> forall i :: 0 <= i < |inv.names| ==> !Found(RunOutcomes(inv, exec)[i]))
      && run.status == ExitStatus(Failures(RunOutcomes(inv, exec)), |inv.names|)
      && (run.status == WhichNotAll <==> 0 < Failures(RunOutcomes(inv, exec)) < |inv.names|)
      && run.stdout == StdoutOf(RunOutcomes(inv, exec))
      && run.stderr == StderrOf(RunOutcomes(inv, exec))
  {
    if inv.names == [] {
      return Exited(WhichNone, [], [Usage(inv.argv0)]);
    }
    var path := EffectivePath(inv.env);
    if inv.env.None? || inv.env.value == [] {
      assert Nul !in DefaultPath;
    }
    var items, size := CreatePathItems(path);
    var entries := Walk(items, size, path);
    assert RunOutcomes(inv, exec) == Outcomes(inv.names, entries, path, inv.flags, exec, inv.argv0);
    run := ResolveAll(inv.names, entries, path, inv.flags, exec, inv.argv0);
  }
}
