/**
  The search path of which.c: the PATH string cut into directory entries at
  every ':'. The separator has no escape (section 8.3 of the Single UNIX
  Specification, Base Definitions, on PATH), so an entry can never hold a ':'
  and empty entries (a leading, trailing or doubled ':') are kept as they are.

  `Split` is the abstract meaning of the entries. `CreatePathItems` builds the
  packed buffer the program really uses (each ':' turned into NUL, one more NUL
  at the end), and `Walk` steps through that buffer the way try_find does,
  one NUL-terminated string at a time; its contract says the walk yields
  exactly `Split` of the original string.
 */
module SearchPath {

  const Separator: char := ':'
  const Nul: char := '\0'

  /** Index of the first separator in `s`, or |s| when there is none (strchr). */
  function FirstSeparator(s: string): (k: nat)
    ensures k <= |s|
    ensures k < |s| ==> s[k] == Separator
  {
    if s == [] then 0
    else if s[0] == Separator then 0
    else 1 + FirstSeparator(s[1..])
  }

  /** No separator comes before the first one. */
  lemma {:induction false} FirstSeparatorFirst(s: string)
    ensures forall j :: 0 <= j < FirstSeparator(s) ==> s[j] != Separator
    decreases |s|
  {
    if s != [] && s[0] != Separator {
      FirstSeparatorFirst(s[1..]);
    }
  }

  /**
    The directory entries of a search-path string, in order, empty ones
    included: a separator closes the entry being read and opens an empty one,
    any other character extends the entry being read.
   */
  function Split(s: string): (entries: seq<string>)
    ensures |entries| > 0
    decreases |s|
  {
    if s == [] then [[]]
    else
      var rest := Split(s[1..]);
      if s[0] == Separator then [[]] + rest else [[s[0]] + rest[0]] + rest[1..]
  }

  /** Splitting at the first separator: the first entry, then the entries of the rest. */
  lemma {:induction false} SplitAt(s: string, k: nat)
    requires k < |s| && s[k] == Separator
    requires forall j :: 0 <= j < k ==> s[j] != Separator
    ensures Split(s) == [s[..k]] + Split(s[k+1..])
    decreases k
  {
    if k > 0 {
      var t := s[1..];
      SplitAt(t, k - 1);
      assert t[..k-1] == s[1..k] && t[k..] == s[k+1..];
      assert [s[0]] + s[1..k] == s[..k];
    }
  }

  /** A string with no separator is a single entry. */
  lemma {:induction false} SplitWhole(s: string)
    requires forall j :: 0 <= j < |s| ==> s[j] != Separator
    ensures Split(s) == [s]
    decreases |s|
  {
    if s != [] {
      SplitWhole(s[1..]);
      assert [s[0]] + s[1..] == s;
    }
  }

  /** Two separator-free strings joined by one separator are two entries: SplitJoin for a pair. */
  lemma SplitPair(a: string, b: string)
    requires Separator !in a && Separator !in b
    ensures Split(a + [Separator] + b) == [a, b]
    ensures a != [] && b != [] ==> !Malformed(a + [Separator] + b)
  {
    var pair := [a, b];
    assert pair[1..] == [b];
    assert Join(pair) == a + [Separator] + b;
    SplitJoin(pair);
    NoEmptyEntryIff(a + [Separator] + b);
  }

  /** A string is what comes before index `k`, the character there, and what follows. */
  lemma Around(s: string, k: nat)
    requires k < |s|
    ensures s == s[..k] + [s[k]] + s[k+1..]
  {
  }

  /** Taking apart a string glued from two pieces and one character. */
  lemma Pieces(a: string, c: char, b: string)
    ensures (a + [c] + b)[..|a|] == a && (a + [c] + b)[|a|] == c && (a + [c] + b)[|a|+1..] == b
    ensures forall j :: 0 <= j < |a| ==> (a + [c] + b)[j] == a[j]
  {
  }

  /** No entry holds a separator: the separator cannot be escaped. */
  lemma {:induction false} SplitEntriesFree(s: string)
    ensures forall i :: 0 <= i < |Split(s)| ==> Separator !in Split(s)[i]
    decreases |s|
  {
    var k := FirstSeparator(s);
    FirstSeparatorFirst(s);
    if k == |s| {
      SplitWhole(s);
      assert Separator !in s by {
        assert forall j :: 0 <= j < |s| ==> s[j] != Separator;
      }
    } else {
      var head := s[..k];
      SplitAt(s, k);
      assert Separator !in head by {
        assert forall j :: 0 <= j < k ==> head[j] != Separator;
      }
      SplitEntriesFree(s[k+1..]);
    }
  }

  /** How many separators `s` holds. */
  function Separators(s: string): nat
  {
    if s == [] then 0 else (if s[0] == Separator then 1 else 0) + Separators(s[1..])
  }

  /** Counting past the first separator. */
  lemma {:induction false} SeparatorsAfterFirst(s: string, k: nat)
    requires k < |s| && s[k] == Separator
    requires forall j :: 0 <= j < k ==> s[j] != Separator
    ensures Separators(s) == 1 + Separators(s[k+1..])
    decreases k
  {
    if k > 0 {
      SeparatorsAfterFirst(s[1..], k - 1);
      assert s[1..][k..] == s[k+1..];
    }
  }

  /** A string without separators counts none. */
  lemma {:induction false} SeparatorsNone(s: string)
    requires forall j :: 0 <= j < |s| ==> s[j] != Separator
    ensures Separators(s) == 0
    decreases |s|
  {
    if s != [] {
      SeparatorsNone(s[1..]);
    }
  }

  /** There is one entry more than there are separators, empty entries included. */
  lemma {:induction false} SplitCount(s: string)
    ensures |Split(s)| == Separators(s) + 1
    decreases |s|
  {
    var k := FirstSeparator(s);
    FirstSeparatorFirst(s);
    if k == |s| {
      SplitWhole(s);
      SeparatorsNone(s);
    } else {
      SplitAt(s, k);
      SeparatorsAfterFirst(s, k);
      SplitCount(s[k+1..]);
    }
  }

  /** The entries glued back together with the separator between neighbours. */
  function Join(entries: seq<string>): (s: string)
    requires |entries| > 0
    decreases |entries|
  {
    if |entries| == 1 then entries[0]
    else entries[0] + [Separator] + Join(entries[1..])
  }

  /** Joining a first entry onto more entries. */
  lemma JoinCons(head: string, rest: seq<string>)
    requires |rest| > 0
    ensures Join([head] + rest) == head + [Separator] + Join(rest)
  {
    assert ([head] + rest)[1..] == rest;
  }

  /** Joining the entries of a string gives the string back. */
  lemma {:induction false} JoinSplit(s: string)
    ensures Join(Split(s)) == s
    decreases |s|
  {
    var k := FirstSeparator(s);
    FirstSeparatorFirst(s);
    if k == |s| {
      SplitWhole(s);
    } else {
      var t := s[k+1..];
      SplitAt(s, k);
      JoinCons(s[..k], Split(t));
      JoinSplit(t);
      Around(s, k);
    }
  }

  /** Splitting a join of separator-free entries gives the entries back. */
  lemma {:induction false} SplitJoin(entries: seq<string>)
    requires |entries| > 0
    requires forall i :: 0 <= i < |entries| ==> Separator !in entries[i]
    ensures Split(Join(entries)) == entries
    decreases |entries|
  {
    var e := entries[0];
    if |entries| == 1 {
      SplitWhole(e);
    } else {
      var tail := entries[1..];
      var rest := Join(tail);
      Pieces(e, Separator, rest);
      SplitAt(e + [Separator] + rest, |e|);
      SplitJoin(tail);
      assert entries == [e] + tail;
    }
  }

  /** Every entry is a non-empty directory name. */
  predicate NoEmptyEntry(entries: seq<string>)
  {
    forall i :: 0 <= i < |entries| ==> entries[i] != []
  }

  /**
    A path yields an empty entry exactly when it is empty, begins or ends with
    the separator, or holds two separators in a row.
   */
  predicate Malformed(s: string)
  {
    || s == []
    || s[0] == Separator
    || s[|s|-1] == Separator
    || exists i :: 0 <= i < |s| - 1 && s[i] == Separator && s[i+1] == Separator
  }

  /** Cutting a non-empty first entry off leaves a malformed rest exactly when the whole was. */
  lemma MalformedAfterFirst(s: string, k: nat)
    requires 0 < k < |s| && s[k] == Separator
    requires forall j :: 0 <= j < k ==> s[j] != Separator
    ensures Malformed(s) <==> Malformed(s[k+1..])
  {
    var t := s[k+1..];
    if t != [] {
      assert s[|s|-1] == t[|t|-1];
      if t[0] == Separator {
        assert s[k+1] == Separator;
      }
      if exists i :: 0 <= i < |t| - 1 && t[i] == Separator && t[i+1] == Separator {
        var i :| 0 <= i < |t| - 1 && t[i] == Separator && t[i+1] == Separator;
        assert s[k+1+i] == Separator && s[k+2+i] == Separator;
      }
      if exists i :: 0 <= i < |s| - 1 && s[i] == Separator && s[i+1] == Separator {
        var i :| 0 <= i < |s| - 1 && s[i] == Separator && s[i+1] == Separator;
        if i > k {
          assert t[i-k-1] == Separator && t[i-k] == Separator;
        }
      }
    }
  }

  /** The entries are all non-empty exactly when the path is not malformed. */
  lemma {:induction false} NoEmptyEntryIff(s: string)
    ensures NoEmptyEntry(Split(s)) <==> !Malformed(s)
    decreases |s|
  {
    var k := FirstSeparator(s);
    FirstSeparatorFirst(s);
    if k == |s| {
      SplitWhole(s);
      assert Split(s)[0] == s;
      if s != [] {
        assert s[0] != Separator && s[|s|-1] != Separator;
        assert forall i :: 0 <= i < |s| ==> s[i] != Separator;
      }
    } else {
      var t := s[k+1..];
      SplitAt(s, k);
      NoEmptyEntryIff(t);
      if k == 0 {
        assert Split(s)[0] == [];
      } else {
        MalformedAfterFirst(s, k);
        assert NoEmptyEntry(Split(s)) <==> NoEmptyEntry(Split(t)) by {
          var rest := Split(t);
          assert forall i :: 0 <= i < |rest| ==> Split(s)[i+1] == rest[i];
        }
      }
    }
  }

  /** `items` is the packed form of `path`: separators are NUL, one NUL terminates it. */
  predicate Packs(items: string, path: string)
  {
    && |items| == |path| + 1
    && items[|path|] == Nul
    && forall i :: 0 <= i < |path| ==> items[i] == (if path[i] == Separator then Nul else path[i])
  }

  /**
    create_path_items: copy the path and overwrite every separator with NUL,
    jumping from one separator to the next as strchr does. The size reported
    is the buffer length, strlen(path) + 1.
   */
  method CreatePathItems(path: string) returns (items: string, size: nat)
    ensures size == |path| + 1
    ensures Packs(items, path)
  {
    items := path + [Nul];
    size := |path| + 1;
    var from := 0;
    while true
      invariant 0 <= from <= |path|
      invariant |items| == |path| + 1 && items[|path|] == Nul
      invariant forall i :: 0 <= i < from ==>
                 items[i] == (if path[i] == Separator then Nul else path[i])
      invariant forall i :: from <= i < |path| ==> items[i] == path[i]
      decreases |path| - from
    {
      var colon := from + FirstSeparator(items[from..|path|]);
      FirstSeparatorFirst(items[from..|path|]);
      if colon == |path| {
        forall i | from <= i < |path| ensures path[i] != Separator {
          assert items[from..|path|][i - from] == path[i];
        }
        break;
      }
      assert items[from..|path|][colon - from] == Separator;
      forall i | from <= i < colon ensures path[i] != Separator {
        assert items[from..|path|][i - from] == path[i];
      }
      items := items[colon := Nul];
      from := colon + 1;
    }
  }

  /** Length of the NUL-terminated string that starts at `from` in a buffer ending in NUL. */
  function StrLen(buffer: string, from: nat): (n: nat)
    requires from < |buffer| && buffer[|buffer|-1] == Nul
    ensures from + n < |buffer| && buffer[from + n] == Nul
    ensures forall j :: from <= j < from + n ==> buffer[j] != Nul
    decreases |buffer| - from
  {
    if buffer[from] == Nul then 0 else 1 + StrLen(buffer, from + 1)
  }

  /**
    The loop head of try_find's search: start at the buffer, step past each
    entry and its NUL, stop when the position reaches the buffer size. The
    entries visited are exactly the entries of the original path, in order.
   */
  method Walk(items: string, size: nat, ghost path: string) returns (entries: seq<string>)
    requires Nul !in path
    requires size == |items| && Packs(items, path)
    ensures entries == Split(path)
  {
    entries := [];
    var p := 0;
    ghost var todo := Split(path);
    while p < size
      invariant 0 <= p <= size
      invariant entries + todo == Split(path)
      invariant p <= |path| ==> todo == Split(path[p..])
      invariant p > |path| ==> todo == []
      decreases size - p
    {
      var n := StrLen(items, p);
      var entry := items[p..p+n];
      todo := WalkStep(items, path, entries, todo, p, n, entry);
      entries := entries + [entry];
      p := p + n + 1;
    }
  }

  /**
    One step of the walk: the string at `p` is the next entry, and the walk
    resumes after its NUL, at the next entry or at the end of the buffer.
   */
  lemma WalkStep(items: string, path: string, entries: seq<string>, todo: seq<string>,
                  p: nat, n: nat, entry: string) returns (later: seq<string>)
    requires Nul !in path && Packs(items, path) && p <= |path|
    requires entries + todo == Split(path) && todo == Split(path[p..])
    requires n == StrLen(items, p) && p + n < |items| && entry == items[p..p+n]
    ensures p + n <= |path|
    ensures entries + [entry] + later == Split(path)
    ensures p + n + 1 <= |path| ==> later == Split(path[p + n + 1..])
    ensures p + n + 1 > |path| ==> later == []
  {
    NextEntry(items, path, p, n, entry);
    if p + n < |path| {
      later := Split(path[p+n+1..]);
      assert todo == [entry] + later;
    } else {
      later := [];
      assert todo == [entry];
    }
    assert entries + ([entry] + later) == (entries + [entry]) + later;
  }

  /** The string at `p` in the packed buffer is the next entry of the path from `p`. */
  lemma NextEntry(items: string, path: string, p: nat, n: nat, entry: string)
    requires Nul !in path && Packs(items, path) && p <= |path|
    requires n == StrLen(items, p) && p + n < |items| && entry == items[p..p+n]
    ensures p + n <= |path|
    ensures p + n == |path| ==> Split(path[p..]) == [entry]
    ensures p + n < |path| ==> Split(path[p..]) == [entry] + Split(path[p+n+1..])
  {
    EntryAt(items, path, p);
    SplitFrom(path, p, n);
  }

  /**
    The string at `p` in the packed buffer is the path's text up to the next
    separator, or up to its end.
   */
  lemma EntryAt(items: string, path: string, p: nat)
    requires Nul !in path && Packs(items, path) && p <= |path|
    ensures p + StrLen(items, p) <= |path|
    ensures items[p..p + StrLen(items, p)] == path[p..p + StrLen(items, p)]
    ensures forall j :: p <= j < p + StrLen(items, p) ==> path[j] != Separator
    ensures p + StrLen(items, p) < |path| ==> path[p + StrLen(items, p)] == Separator
  {
    var n := StrLen(items, p);
    forall j | p <= j < p + n ensures items[j] == path[j] && path[j] != Separator {
      assert items[j] != Nul;
      assert path[j] != Nul;
    }
    if p + n < |path| {
      assert path[p+n] != Nul;
    }
  }

  /** The entries of the path from `p` on, when the next separator is `n` characters away. */
  lemma SplitFrom(path: string, p: nat, n: nat)
    requires p + n <= |path|
    requires forall j :: p <= j < p + n ==> path[j] != Separator
    requires p + n < |path| ==> path[p+n] == Separator
    ensures p + n == |path| ==> Split(path[p..]) == [path[p..p+n]]
    ensures p + n < |path| ==> Split(path[p..]) == [path[p..p+n]] + Split(path[p+n+1..])
  {
    var rest := path[p..];
    assert forall j :: 0 <= j < n ==> rest[j] == path[p+j];
    assert rest[..n] == path[p..p+n];
    if p + n == |path| {
      SplitWhole(rest);
      assert path[p..p+n] == rest;
    } else {
      SplitAt(rest, n);
      assert rest[n+1..] == path[p+n+1..];
    }
  }
}
