/**
 `ApplyMigrations`: the files in name order, each applied once and recorded, all
 in one transaction. A migration is an opaque transformer of the schema and its
 data; it may fail.
 */
module Migrations {
  import opened Wrappers
  import opened StringOrder

  /** A directory entry: its statement, or None if the file cannot be read. */
  datatype Entry<!D> = Entry(name: string, isDir: bool, content: Option<D -> Option<D>>)

  /** The database, with `schema_migrations` as a set of versions. */
  datatype State<D> = State(schema: D, applied: set<string>)

  // ---------------------------------------------------------------- what a run does

  function ApplyOne<D>(s: State<D>, entry: Entry<D>): Option<State<D>> {
    if entry.isDir || entry.name in s.applied then Some(s)
    else if entry.content.None? then None
    else
      var schema := entry.content.value(s.schema);
      if schema.None? then None else Some(State(schema.value, s.applied + {entry.name}))
  }

  function Run<D>(s: State<D>, entries: seq<Entry<D>>): Option<State<D>>
    decreases |entries|
  {
    if entries == [] then Some(s)
    else
      var next := ApplyOne(s, entries[0]);
      if next.None? then None else Run(next.value, entries[1..])
  }

  function Insert<D>(rank: Order, entry: Entry<D>, sorted: seq<Entry<D>>): seq<Entry<D>> {
    if sorted == [] || Less(rank, entry.name, sorted[0].name) then [entry] + sorted
    else [sorted[0]] + Insert(rank, entry, sorted[1..])
  }

  /** The entries in name order. */
  function Sort<D>(rank: Order, entries: seq<Entry<D>>): seq<Entry<D>> {
    if entries == [] then [] else Insert(rank, entries[0], Sort(rank, entries[1..]))
  }

  function Versions<D>(entries: seq<Entry<D>>): set<string> {
    set i | 0 <= i < |entries| && !entries[i].isDir :: entries[i].name
  }

  // ---------------------------------------------------------------- the program

  /** The statements that an entry takes: one to look a file up, and two more for one
      that is not recorded yet. */
  function EntryStatements<D>(applied: set<string>, entry: Entry<D>): nat {
    if entry.isDir then 0 else if entry.name in applied then 1 else 3
  }

  function FileStatements<D>(applied: set<string>, entries: seq<Entry<D>>): nat
    decreases |entries|
  {
    if entries == [] then 0
    else
      var entry := entries[0];
      EntryStatements(applied, entry) +
      FileStatements(if entry.isDir then applied else applied + {entry.name}, entries[1..])
  }

  /** All of them: the table is created first, and the transaction committed last. */
  function Statements<D>(applied: set<string>, entries: seq<Entry<D>>): nat {
    1 + FileStatements(applied, entries) + 1
  }

  ghost predicate NoneFails(fails: nat -> bool, from: nat, to: nat) {
    forall n :: from <= n < to ==> !fails(n)
  }

  /** The next entry of a run, and its statements. */
  lemma NextEntry<D>(s: State<D>, entries: seq<Entry<D>>, i: nat)
    requires i < |entries|
    ensures Run(s, entries[i..]) ==
      if ApplyOne(s, entries[i]).None? then None else Run(ApplyOne(s, entries[i]).value, entries[i + 1..])
    ensures ApplyOne(s, entries[i]).Some? ==>
      FileStatements(s.applied, entries[i..]) ==
        EntryStatements(s.applied, entries[i]) +
        FileStatements(ApplyOne(s, entries[i]).value.applied, entries[i + 1..])
  {
    assert entries[i..][1..] == entries[i + 1..];
    if entries[i].name in s.applied {
      assert s.applied + {entries[i].name} == s.applied;
    }
  }

  class Database<!D> {
    const rank: Order
    var state: State<D>

    constructor (rank: Order, state: State<D>)
      ensures this.rank == rank && this.state == state
    {
      this.rank := rank;
      this.state := state;
    }

    /** The turn of the loop for one file: looked up, and applied and recorded unless it
        is recorded already. */
    method ApplyFile(tx: State<D>, entry: Entry<D>, statements: nat, fails: nat -> bool)
      returns (next: Option<State<D>>)
      requires !entry.isDir
      ensures next.Some? <==>
        ApplyOne(tx, entry).Some? &&
        NoneFails(fails, statements, statements + EntryStatements(tx.applied, entry))
      ensures next.Some? ==> next == ApplyOne(tx, entry)
    {
      if fails(statements) {
        return None;
      }
      if entry.name in tx.applied {
        return Some(tx);
      }
      if entry.content.None? {
        return None;
      }
      var schema := entry.content.value(tx.schema);
      if fails(statements + 1) || fails(statements + 2) || schema.None? {
        return None;
      }
      return Some(State(schema.value, tx.applied + {entry.name}));
    }

    /** `fails(n)` says that the n-th database statement, or the commit, fails. */
    method ApplyMigrations(listing: seq<Entry<D>>, fails: nat -> bool) returns (ok: bool)
      modifies this
      ensures !ok ==> state == old(state)
      ensures ok ==> Run(old(state), Sort(rank, listing)) == Some(state)
      ensures ok <==>
        && Run(old(state), Sort(rank, listing)).Some?
        && NoneFails(fails, 0, Statements(old(state.applied), Sort(rank, listing)))
    {
      var statements := 0;
      if fails(statements) {
        return false;
      }
      statements := statements + 1;
      var entries := Sort(rank, listing);
      var tx := state;
      var i := 0;
      while i < |entries|
        invariant 0 <= i <= |entries|
        invariant Run(tx, entries[i..]) == Run(state, entries)
        invariant state == old(state) && NoneFails(fails, 0, statements)
        invariant Run(state, entries).Some? ==>
          statements + FileStatements(tx.applied, entries[i..]) + 1 == Statements(state.applied, entries)
      {
        var entry := entries[i];
        NextEntry(tx, entries, i);
        i := i + 1;
        if entry.isDir {
          continue;
        }
        var next := ApplyFile(tx, entry, statements, fails);
        if next.None? {
          return false;
        }
        statements := statements + if entry.name in tx.applied then 1 else 3;
        tx := next.value;
      }
      if fails(statements) {
        return false;
      }
      state := tx;
      return true;
    }
  }

  // ---------------------------------------------------------------- sorting

  ghost predicate InNameOrder<D>(rank: Order, entries: seq<Entry<D>>) {
    forall i, j :: 0 <= i < j < |entries| ==> !Less(rank, entries[j].name, entries[i].name)
  }

  lemma {:induction false} InsertKeeps<D>(rank: Order, entry: Entry<D>, sorted: seq<Entry<D>>)
    requires InNameOrder(rank, sorted)
    ensures InNameOrder(rank, Insert(rank, entry, sorted))
    ensures multiset(Insert(rank, entry, sorted)) == multiset(sorted) + multiset{entry}
  {
    InsertAdds(rank, entry, sorted);
    if sorted != [] && !Less(rank, entry.name, sorted[0].name) {
      var rest := Insert(rank, entry, sorted[1..]);
      InsertKeeps(rank, entry, sorted[1..]);
      forall j | 0 <= j < |rest| ensures !Less(rank, rest[j].name, sorted[0].name) {
        assert rest[j] in multiset(rest);
        assert rest[j] == entry || rest[j] in sorted[1..];
      }
    }
  }

  lemma {:induction false} InsertAdds<D>(rank: Order, entry: Entry<D>, sorted: seq<Entry<D>>)
    ensures multiset(Insert(rank, entry, sorted)) == multiset(sorted) + multiset{entry}
  {
    if sorted != [] {
      assert sorted == [sorted[0]] + sorted[1..];
      InsertAdds(rank, entry, sorted[1..]);
    }
  }

  /** The listing is applied in name order, each entry once. */
  lemma {:induction false} SortMeaning<D>(rank: Order, entries: seq<Entry<D>>)
    ensures InNameOrder(rank, Sort(rank, entries))
    ensures multiset(Sort(rank, entries)) == multiset(entries)
  {
    if entries != [] {
      SortMeaning(rank, entries[1..]);
      InsertKeeps(rank, entries[0], Sort(rank, entries[1..]));
      assert entries == [entries[0]] + entries[1..];
    }
  }

  // ---------------------------------------------------------------- directories

  function OnlyFiles<D>(entries: seq<Entry<D>>): (files: seq<Entry<D>>)
    ensures forall i :: 0 <= i < |files| ==> !files[i].isDir && files[i] in entries
  {
    if entries == [] then []
    else if entries[0].isDir then OnlyFiles(entries[1..])
    else [entries[0]] + OnlyFiles(entries[1..])
  }

  /** Directories count for nothing. */
  lemma {:induction false} DirectoriesSkipped<D>(s: State<D>, entries: seq<Entry<D>>)
    ensures Run(s, entries) == Run(s, OnlyFiles(entries))
    ensures Statements(s.applied, entries) == Statements(s.applied, OnlyFiles(entries))
    decreases |entries|
  {
    if entries != [] {
      assert !entries[0].isDir ==> OnlyFiles(entries)[1..] == OnlyFiles(entries[1..]);
      if entries[0].isDir {
        DirectoriesSkipped(s, entries[1..]);
      } else {
        var next := ApplyOne(s, entries[0]);
        DirectoriesSkipped(State(s.schema, s.applied + {entries[0].name}), entries[1..]);
        if next.Some? {
          DirectoriesSkipped(next.value, entries[1..]);
        }
        if entries[0].name in s.applied {
          assert s.applied + {entries[0].name} == s.applied;
        }
      }
    }
  }

  // ---------------------------------------------------------------- repeated and staged runs

  /** A run records exactly the files it saw, next to what was recorded before. */
  lemma {:induction false} RunRecords<D>(s: State<D>, entries: seq<Entry<D>>)
    requires Run(s, entries).Some?
    ensures Run(s, entries).value.applied == s.applied + Versions(entries)
    decreases |entries|
  {
    if entries != [] {
      var rest := entries[1..];
      RunRecords(ApplyOne(s, entries[0]).value, rest);
      assert Versions(entries) == Versions(rest) + if entries[0].isDir then {} else {entries[0].name} by {
        assert forall i :: 0 <= i < |rest| ==> rest[i] == entries[i + 1];
        forall v | v in Versions(entries)
          ensures v in Versions(rest) + if entries[0].isDir then {} else {entries[0].name}
        {
          var i :| 0 <= i < |entries| && !entries[i].isDir && entries[i].name == v;
          assert i > 0 ==> rest[i - 1] == entries[i];
        }
      }
    }
  }

  /** Files that are all recorded leave everything as it is. */
  lemma {:induction false} NothingPending<D>(s: State<D>, entries: seq<Entry<D>>)
    requires Versions(entries) <= s.applied
    ensures Run(s, entries) == Some(s)
    decreases |entries|
  {
    if entries != [] {
      assert entries[0].isDir || entries[0].name in Versions(entries);
      assert Versions(entries[1..]) <= Versions(entries) by {
        assert forall i :: 0 <= i < |entries[1..]| ==> entries[1..][i] == entries[i + 1];
      }
      NothingPending(s, entries[1..]);
    }
  }

  /** A second run over the same files is a no-op. */
  lemma SecondRunIsNoOp<D>(s: State<D>, entries: seq<Entry<D>>)
    requires Run(s, entries).Some?
    ensures Run(Run(s, entries).value, entries) == Run(s, entries)
  {
    RunRecords(s, entries);
    NothingPending(Run(s, entries).value, entries);
  }

  lemma {:induction false} RunConcat<D>(s: State<D>, first: seq<Entry<D>>, second: seq<Entry<D>>)
    ensures Run(s, first + second) ==
      if Run(s, first).None? then None else Run(Run(s, first).value, second)
    decreases |first|
  {
    if first == [] {
      assert first + second == second;
    } else {
      assert (first + second)[0] == first[0] && (first + second)[1..] == first[1..] + second;
      if ApplyOne(s, first[0]).Some? {
        RunConcat(ApplyOne(s, first[0]).value, first[1..], second);
      }
    }
  }

  /** Upgrading first to a sorted prefix of the files and then to all of them is
      one run over all of them. */
  lemma TwoStages<D>(s: State<D>, early: seq<Entry<D>>, all: seq<Entry<D>>)
    requires early <= all && Run(s, early).Some?
    ensures Run(Run(s, early).value, all) == Run(s, all)
  {
    var late := all[|early|..];
    assert all == early + late;
    RunConcat(s, early, late);
    RunConcat(Run(s, early).value, early, late);
    SecondRunIsNoOp(s, early);
  }

  /** Upgrades through releases whose sorted listings are `releases`. */
  function RunReleases<D>(s: State<D>, releases: seq<seq<Entry<D>>>): Option<State<D>>
    decreases |releases|
  {
    if releases == [] then Some(s)
    else
      var next := Run(s, releases[0]);
      if next.None? then None else RunReleases(next.value, releases[1..])
  }

  /** Any number of stages, each release extending the one before at its end,
      yields the database of one run over the last release. */
  lemma {:induction false} StagedUpgrade<D>(s: State<D>, releases: seq<seq<Entry<D>>>)
    requires releases != [] && RunReleases(s, releases).Some?
    requires forall i, j :: 0 <= i < j < |releases| ==> releases[i] <= releases[j]
    ensures RunReleases(s, releases) == Run(s, releases[|releases| - 1])
    decreases |releases|
  {
    if |releases| > 1 {
      var later := releases[1..];
      assert forall i :: 0 <= i < |later| ==> later[i] == releases[i + 1];
      StagedUpgrade(Run(s, releases[0]).value, later);
      TwoStages(s, releases[0], releases[|releases| - 1]);
    }
  }

  // ---------------------------------------------------------------- exactly when stages do not matter

  /** What the file of each name does. */
  type Contents<!D> = string -> D -> Option<D>

  function Files<D>(names: seq<string>, contents: Contents<D>): seq<Entry<D>> {
    seq(|names|, i requires 0 <= i < |names| => Entry(names[i], false, Some(contents(names[i]))))
  }

  function ReleaseFiles<D>(releases: seq<seq<string>>, contents: Contents<D>): seq<seq<Entry<D>>> {
    seq(|releases|, i requires 0 <= i < |releases| => Files(releases[i], contents))
  }

  function Names(names: seq<string>): set<string> {
    set name | name in names
  }

  /** The files of a release that are still to be applied, in order. */
  function Pending(applied: set<string>, names: seq<string>): seq<string>
    decreases |names|
  {
    if names == [] then []
    else if names[0] in applied then Pending(applied, names[1..])
    else [names[0]] + Pending(applied + {names[0]}, names[1..])
  }

  /** The order in which an upgrade through `releases` applies files. */
  function ApplyOrder(applied: set<string>, releases: seq<seq<string>>): seq<string>
    decreases |releases|
  {
    if releases == [] then []
    else Pending(applied, releases[0]) + ApplyOrder(applied + Names(releases[0]), releases[1..])
  }

  function Recorded(applied: set<string>, releases: seq<seq<string>>): set<string>
    decreases |releases|
  {
    if releases == [] then applied else Recorded(applied + Names(releases[0]), releases[1..])
  }

  /** Executes the files of `names` one after the other. */
  function Execute<D>(schema: D, names: seq<string>, contents: Contents<D>): Option<D> {
    if names == [] then Some(schema)
    else
      var next := contents(names[0])(schema);
      if next.None? then None else Execute(next.value, names[1..], contents)
  }

  function Recording<D>(schema: Option<D>, applied: set<string>): Option<State<D>> {
    if schema.None? then None else Some(State(schema.value, applied))
  }

  lemma {:induction false} RunExecutes<D>(s: State<D>, names: seq<string>, contents: Contents<D>)
    ensures Run(s, Files(names, contents)) ==
      Recording(Execute(s.schema, Pending(s.applied, names), contents), s.applied + Names(names))
    decreases |names|
  {
    if names == [] {
      assert s.applied + Names(names) == s.applied;
    } else {
      assert Files(names, contents)[1..] == Files(names[1..], contents);
      var next := ApplyOne(s, Files(names, contents)[0]);
      if next.Some? {
        RunExecutes(next.value, names[1..], contents);
        assert next.value.applied + Names(names[1..]) == s.applied + Names(names);
      }
      if names[0] !in s.applied {
        assert Pending(s.applied, names)[1..] == Pending(s.applied + {names[0]}, names[1..]);
      }
    }
  }

  /** A transaction has one statement for the table, one for each file, two more for
      each that is pending, and the commit. */
  lemma {:induction false} StatementCount<D>(applied: set<string>, names: seq<string>, contents: Contents<D>)
    ensures Statements(applied, Files(names, contents)) == 2 + |names| + 2 * |Pending(applied, names)|
    decreases |names|
  {
    if names != [] {
      assert Files(names, contents)[1..] == Files(names[1..], contents);
      StatementCount(applied + {names[0]}, names[1..], contents);
      if names[0] in applied {
        assert applied + {names[0]} == applied;
      }
    }
  }

  lemma {:induction false} ExecuteConcat<D>(schema: D, first: seq<string>, second: seq<string>, contents: Contents<D>)
    ensures Execute(schema, first + second, contents) ==
      if Execute(schema, first, contents).None? then None
      else Execute(Execute(schema, first, contents).value, second, contents)
    decreases |first|
  {
    if first == [] {
      assert first + second == second;
    } else {
      assert (first + second)[1..] == first[1..] + second;
      var next := contents(first[0])(schema);
      if next.Some? {
        ExecuteConcat(next.value, first[1..], second, contents);
      }
    }
  }

  lemma {:induction false} ReleasesExecute<D>(s: State<D>, releases: seq<seq<string>>, contents: Contents<D>)
    ensures RunReleases(s, ReleaseFiles(releases, contents)) ==
      Recording(Execute(s.schema, ApplyOrder(s.applied, releases), contents), Recorded(s.applied, releases))
    decreases |releases|
  {
    if releases != [] {
      var first := Pending(s.applied, releases[0]);
      RunExecutes(s, releases[0], contents);
      assert ReleaseFiles(releases, contents)[1..] == ReleaseFiles(releases[1..], contents);
      ExecuteConcat(s.schema, first, ApplyOrder(s.applied + Names(releases[0]), releases[1..]), contents);
      var next := Run(s, Files(releases[0], contents));
      if next.Some? {
        ReleasesExecute(next.value, releases[1..], contents);
      }
    }
  }

  lemma {:induction false} PendingNames(applied: set<string>, names: seq<string>)
    ensures Names(Pending(applied, names)) == Names(names) - applied
    decreases |names|
  {
    if names != [] {
      var rest := names[1..];
      assert names == [names[0]] + rest;
      NamesConcat([names[0]], rest);
      if names[0] in applied {
        PendingNames(applied, rest);
      } else {
        PendingNames(applied + {names[0]}, rest);
        NamesConcat([names[0]], Pending(applied + {names[0]}, rest));
      }
    }
  }

  lemma NamesConcat(a: seq<string>, b: seq<string>)
    ensures Names(a + b) == Names(a) + Names(b)
  {
  }

  lemma {:induction false} OrderNames(applied: set<string>, releases: seq<seq<string>>)
    ensures Recorded(applied, releases) == applied + Names(ApplyOrder(applied, releases))
    decreases |releases|
  {
    if releases != [] {
      var first, rest := Pending(applied, releases[0]), ApplyOrder(applied + Names(releases[0]), releases[1..]);
      PendingNames(applied, releases[0]);
      OrderNames(applied + Names(releases[0]), releases[1..]);
      NamesConcat(first, rest);
    }
  }

  /** The migration that appends its own name to a log. */
  function Logging(name: string): seq<string> -> Option<seq<string>> {
    (log: seq<string>) => Some(log + [name])
  }

  lemma {:induction false} LogsItsOrder(log: seq<string>, names: seq<string>)
    ensures Execute(log, names, Logging) == Some(log + names)
    decreases |names|
  {
    if names == [] {
      assert log + names == log;
    } else {
      LogsItsOrder(log + [names[0]], names[1..]);
      assert log + [names[0]] + names[1..] == log + names;
    }
  }

  /** Upgrading through `releases` yields what one run over `all` would, whatever
      the files do. */
  ghost predicate StagesAgree(applied: set<string>, releases: seq<seq<string>>, all: seq<string>) {
    forall contents: Contents<seq<string>>, log ::
      RunReleases(State(log, applied), ReleaseFiles(releases, contents)) ==
        Run(State(log, applied), Files(all, contents))
  }

  /** The files of the releases decide: stages do not matter, for any contents and
      any kind of schema, ... */
  lemma OrderDecides<D>(s: State<D>, releases: seq<seq<string>>, all: seq<string>, contents: Contents<D>)
    requires ApplyOrder(s.applied, releases) == Pending(s.applied, all)
    ensures RunReleases(s, ReleaseFiles(releases, contents)) == Run(s, Files(all, contents))
  {
    ReleasesExecute(s, releases, contents);
    RunExecutes(s, all, contents);
    OrderNames(s.applied, releases);
    PendingNames(s.applied, all);
    assert s.applied + (Names(all) - s.applied) == s.applied + Names(all);
  }

  /** ... if they are applied in the order of one run; and only if, since the
      files may record the order in which they are applied. */
  lemma StagesAgreeIff(applied: set<string>, releases: seq<seq<string>>, all: seq<string>)
    ensures StagesAgree(applied, releases, all) <==> ApplyOrder(applied, releases) == Pending(applied, all)
  {
    if StagesAgree(applied, releases, all) {
      LogsTellOrder(applied, releases, all);
    }
    if ApplyOrder(applied, releases) == Pending(applied, all) {
      forall contents: Contents<seq<string>>, log
        ensures RunReleases(State(log, applied), ReleaseFiles(releases, contents)) ==
          Run(State(log, applied), Files(all, contents))
      {
        OrderDecides(State(log, applied), releases, all, contents);
      }
    }
  }

  lemma LogsTellOrder(applied: set<string>, releases: seq<seq<string>>, all: seq<string>)
    requires
      var s := State([], applied);
      RunReleases(s, ReleaseFiles(releases, Logging)) == Run(s, Files(all, Logging))
    ensures ApplyOrder(applied, releases) == Pending(applied, all)
  {
    var s := State([], applied);
    ReleasesExecute(s, releases, Logging);
    RunExecutes(s, all, Logging);
    var staged, direct := ApplyOrder(applied, releases), Pending(applied, all);
    LogsItsOrder([], staged);
    LogsItsOrder([], direct);
    assert [] + staged == staged && [] + direct == direct;
  }

  // ---------------------------------------------------------------- an early release and a later one

  function Except(names: seq<string>, drop: set<string>): seq<string> {
    if names == [] then []
    else if names[0] in drop then Except(names[1..], drop)
    else [names[0]] + Except(names[1..], drop)
  }

  lemma {:induction false} PendingExcept(applied: set<string>, more: set<string>, names: seq<string>)
    ensures Pending(applied + more, names) == Except(Pending(applied, names), more)
    decreases |names|
  {
    if names != [] {
      if names[0] in applied {
        PendingExcept(applied, more, names[1..]);
      } else {
        PendingExcept(applied + {names[0]}, more, names[1..]);
        assert applied + {names[0]} + more == applied + more + {names[0]};
        assert names[0] in more ==> applied + more + {names[0]} == applied + more;
      }
    }
  }

  lemma {:induction false} PendingDistinct(applied: set<string>, names: seq<string>)
    ensures forall i, j :: 0 <= i < j < |Pending(applied, names)| ==>
      Pending(applied, names)[i] != Pending(applied, names)[j]
    decreases |names|
  {
    if names != [] && names[0] in applied {
      PendingDistinct(applied, names[1..]);
    } else if names != [] {
      var rest := Pending(applied + {names[0]}, names[1..]);
      PendingDistinct(applied + {names[0]}, names[1..]);
      PendingNames(applied + {names[0]}, names[1..]);
      forall i | 0 <= i < |rest| ensures rest[i] != names[0] {
        assert rest[i] in Names(rest);
      }
    }
  }

  lemma {:induction false} ExceptSplits(first: seq<string>, second: seq<string>, drop: set<string>)
    requires forall i :: 0 <= i < |first| ==> first[i] in drop
    requires forall i :: 0 <= i < |second| ==> second[i] !in drop
    ensures Except(first + second, drop) == second
    decreases |first| + |second|
  {
    if first != [] {
      assert (first + second)[1..] == first[1..] + second;
      ExceptSplits(first[1..], second, drop);
    } else if second != [] {
      assert first + second == second;
      ExceptSplits(first, second[1..], drop);
      assert first + second[1..] == second[1..];
    }
  }

  lemma FirstIsEarly(applied: set<string>, early: seq<string>, i: nat)
    requires i < |Pending(applied, early)|
    ensures Pending(applied, early)[i] in Names(early)
  {
    PendingNames(applied, early);
    assert Pending(applied, early)[i] in Names(Pending(applied, early));
  }

  lemma LaterIsNotEarly(applied: set<string>, early: seq<string>, all: seq<string>, i: nat)
    requires Pending(applied, early) <= Pending(applied, all)
    requires |Pending(applied, early)| <= i < |Pending(applied, all)|
    ensures Pending(applied, all)[i] !in Names(early)
  {
    var first, order := Pending(applied, early), Pending(applied, all);
    PendingNames(applied, early);
    PendingNames(applied, all);
    PendingDistinct(applied, all);
    assert order[i] in Names(order);
    assert forall j :: 0 <= j < |first| ==> first[j] == order[j] != order[i];
    assert order[i] !in Names(first);
  }

  lemma PendingAfter(applied: set<string>, more: set<string>, names: seq<string>, first: seq<string>, rest: seq<string>)
    requires Pending(applied, names) == first + rest
    requires forall i :: 0 <= i < |first| ==> first[i] in more
    requires forall i :: 0 <= i < |rest| ==> rest[i] !in more
    ensures Pending(applied + more, names) == rest
  {
    PendingExcept(applied, more, names);
    ExceptSplits(first, rest, more);
  }

  lemma EarlyFilesFirst(applied: set<string>, early: seq<string>, all: seq<string>)
    requires Pending(applied, early) <= Pending(applied, all)
    ensures Pending(applied + Names(early), all) == Pending(applied, all)[|Pending(applied, early)|..]
  {
    var first, order := Pending(applied, early), Pending(applied, all);
    var rest := order[|first|..];
    forall i | 0 <= i < |first| ensures first[i] in Names(early) {
      FirstIsEarly(applied, early, i);
    }
    forall i | 0 <= i < |rest| ensures rest[i] !in Names(early) {
      LaterIsNotEarly(applied, early, all, |first| + i);
    }
    PendingAfter(applied, Names(early), all, first, rest);
  }

  /** Upgrading to an early release and then to a later one is one run over the
      later, whatever the files do, if and only if what is pending of the early
      release comes first, in the same order, in what is pending of the later. */
  lemma TwoStagesIff(applied: set<string>, early: seq<string>, all: seq<string>)
    ensures StagesAgree(applied, [early, all], all) <==> Pending(applied, early) <= Pending(applied, all)
  {
    var releases := [early, all];
    var second := Pending(applied + Names(early), all);
    assert releases[1..] == [all] && [all][1..] == [];
    assert ApplyOrder(applied + Names(early), [all]) == second + [];
    assert ApplyOrder(applied, releases) == Pending(applied, early) + second;
    StagesAgreeIff(applied, releases, all);
    if Pending(applied, early) <= Pending(applied, all) {
      EarlyFilesFirst(applied, early, all);
    }
  }

  function AddOne(x: int): Option<int> { Some(x + 1) }

  function Twice(x: int): Option<int> { Some(2 * x) }

  /** The prefix matters: a file that sorts before one already applied is run
      after it, and the two orders may differ. */
  lemma LateEarlierFileDiffers()
    ensures
      var a, b := Entry("1", false, Some(AddOne)), Entry("2", false, Some(Twice));
      && Run(State(0, {}), [a, b]) == Some(State(2, {"1", "2"}))
      && RunReleases(State(0, {}), [[b], [a, b]]) == Some(State(1, {"1", "2"}))
  {
    var a, b := Entry("1", false, Some(AddOne)), Entry("2", false, Some(Twice));
    assert [a, b][1..] == [b];
    assert {} + {"1"} == {"1"} && {"1"} + {"2"} == {"1", "2"};
    RunSingle(State(1, {"1"}), b);
    assert {} + {"2"} == {"2"} && {"2"} + {"1"} == {"1", "2"};
    RunSingle(State(0, {}), b);
    RunSingle(State(1, {"1", "2"}), b);
    assert Run(State(0, {"2"}), [a, b]) == Some(State(1, {"1", "2"}));
    var releases := [[b], [a, b]];
    assert releases[1..] == [[a, b]] && [[a, b]][1..] == [];
    assert RunReleases(State(1, {"1", "2"}), releases[1..][1..]) == Some(State(1, {"1", "2"}));
    assert RunReleases(State(0, {"2"}), releases[1..]) == Some(State(1, {"1", "2"}));
  }

  lemma RunSingle<D>(s: State<D>, entry: Entry<D>)
    ensures Run(s, [entry]) == ApplyOne(s, entry)
  {
    assert [entry][1..] == [];
  }
}
