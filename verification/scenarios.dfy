/**
  Concrete runs of the resolver against the built-in search path, worked out
  from the definitions (its entries are "/usr/bin" and "/bin", see
  Driver.DefaultPathEntries): the searches for a name found in one directory, for a
  name found in both under -a -p, and for a path name that is not there.
 */
module Scenarios {

  import opened Resolver
  import opened Driver
  import opened PathNames

  /** `ls` only in /bin: /usr/bin/ls is tested first and misses, /bin/ls is printed. */
  lemma FoundInSecondEntry()
    ensures Resolve("ls", ["/usr/bin", "/bin"], DefaultPath, Flags(false, false, false),
        {"/bin/ls"}, "which")
         == Resolved(true, ["/usr/bin/ls", "/bin/ls"], ["/bin/ls"], [])
  {
    var flags := Flags(false, false, false);
    var exec := {"/bin/ls"};
    var entries := ["/usr/bin", "/bin"];
    var last := Scan(["/bin"], "ls", flags, exec);
    assert last == Resolved(true, ["/bin/ls"], ["/bin/ls"], []) by {
      assert FullPath("/bin", "ls") == "/bin/ls";
      assert TryPrint("/bin/ls", "ls", flags, exec) == Probe(true, ["/bin/ls"]) by {
        assert Line("ls", "/bin/ls", false) == "/bin/ls";
      }
    }
    assert FullPath("/usr/bin", "ls") == "/usr/bin/ls" && "/usr/bin/ls" !in exec;
    assert TryPrint("/usr/bin/ls", "ls", flags, exec) == Probe(false, []);
    assert entries[1..] == ["/bin"];
    ScanStep(entries, "ls", flags, exec, Scan(entries, "ls", flags, exec), last);
    SearchBranch("ls", entries, DefaultPath, flags, exec, "which");
  }

  /** `-a -p sh` with sh in both directories: both are printed, labelled, in path order. */
  lemma EveryMatchLabelled()
    ensures Resolve("sh", ["/usr/bin", "/bin"], DefaultPath, Flags(true, true, false),
        {"/usr/bin/sh", "/bin/sh"}, "which")
         == Resolved(true, ["/usr/bin/sh", "/bin/sh"], ["sh: /usr/bin/sh", "sh: /bin/sh"], [])
  {
    var flags := Flags(true, true, false);
    var exec := {"/usr/bin/sh", "/bin/sh"};
    var first, second := "/usr/bin/sh", "/bin/sh";
    assert FullPath("/usr/bin", "sh") == first;
    assert FullPath("/bin", "sh") == second;
    assert TryPrint(first, "sh", flags, exec) == Probe(true, ["sh: /usr/bin/sh"]) by {
      assert Line("sh", first, true) == "sh: /usr/bin/sh";
    }
    assert TryPrint(second, "sh", flags, exec) == Probe(true, ["sh: /bin/sh"]) by {
      assert Line("sh", second, true) == "sh: /bin/sh";
    }
    var last := Scan(["/bin"], "sh", flags, exec);
    assert ["/bin"][1..] == [];
    assert last == Resolved(true, [second], ["sh: /bin/sh"], []);
    var entries := ["/usr/bin", "/bin"];
    assert entries[1..] == ["/bin"];
    ScanStep(entries, "sh", flags, exec, Scan(entries, "sh", flags, exec), last);
    SearchBranch("sh", entries, DefaultPath, flags, exec, "which");
  }

  /** A missing path name: the diagnostic names its base name and shows its directory part. */
  lemma MissingPathName()
    ensures Resolve("/nonexistent/foo", ["/usr/bin", "/bin"], DefaultPath,
                    Flags(false, false, false), {}, "which")
         == Resolved(false, ["/nonexistent/foo"], [], [Diagnostic("which", "foo", "/nonexistent")])
  {
    var name := "/nonexistent/foo";
    assert name == "/nonexistent" + [Slash] + "foo";
    SplitLastSlashUnique(name, "/nonexistent", "foo");
  }
}
