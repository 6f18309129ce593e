/**
 The archiver itself, in place: the class keeps the store and the window in fields, its methods change
 them statement by statement, and every call is shown to be a run of the archive machine.
 */
module ArchiveJob {
  import opened Calendar
  import opened Archive
  import opened ArchiveSafety

  lemma ReachesInv(a: State, b: State)
    requires Reaches(a, b) && Inv(a)
    ensures Inv(b)
  {
    var es :| ReachesBy(a, es, b);
    var ss :| IsRun(ss, es) && ss[0] == a && ss[|es|] == b;
    RunInv(ss, es);
  }

  // ---------------------------------------------------------------- the two statements sent to the database

  function Place(rs: seq<Row>, r: Row): (out: seq<Row>)
    requires Sorted(rs)
    ensures multiset(out) == multiset(rs) + multiset{r}
    ensures Sorted(out)
  {
    if rs == [] || InOrder(r, rs[0]) then
      [r] + rs
    else
      assert rs == [rs[0]] + rs[1..];
      var tail := Place(rs[1..], r);
      PlaceAfter(rs[0], rs[1..], r, tail);
      [rs[0]] + tail
  }

  lemma PlaceAfter(first: Row, rest: seq<Row>, r: Row, tail: seq<Row>)
    requires Sorted([first] + rest) && Sorted(tail) && !InOrder(r, first)
    requires multiset(tail) == multiset(rest) + multiset{r}
    ensures Sorted([first] + tail)
  {
    forall j | 0 <= j < |tail| ensures InOrder(first, tail[j]) {
      assert tail[j] in multiset(tail);
      if tail[j] in rest {
        var i :| 0 <= i < |rest| && rest[i] == tail[j];
        assert ([first] + rest)[0] == first && ([first] + rest)[i + 1] == tail[j];
      }
    }
  }

  function PlaceCopies(rs: seq<Row>, r: Row, n: nat): (out: seq<Row>)
    requires Sorted(rs)
    ensures Sorted(out)
    ensures forall q: Row :: multiset(out)[q] == multiset(rs)[q] + (if q == r then n else 0)
  {
    if n == 0 then rs else Place(PlaceCopies(rs, r, n - 1), r)
  }

  /** The SELECT has an answer, whatever the table and the catalogue hold. */
  method ExecuteSelect(t: multiset<Row>, cat: multiset<int>, hier: int) returns (rs: seq<Row>)
    ensures IsSelection(rs, t, cat, hier)
  {
    rs := [];
    var rest := t;
    while rest != multiset{}
      invariant Sorted(rs)
      invariant forall q: Row :: rest[q] == t[q] || rest[q] == 0
      invariant forall q: Row ::
        multiset(rs)[q] == if q.day == hier && rest[q] == 0 then JoinCount(t[q], cat[q.id]) else 0
      decreases |rest|
    {
      var r :| r in rest;
      if r.day == hier {
        rs := PlaceCopies(rs, r, JoinCount(t[r], cat[r.id]));
      }
      rest := rest[r := 0];
    }
  }

  /** The SELECT as nested loops over the catalogue and the table, before ordering. */
  function NestedLoops(cat: seq<int>, rows: seq<Row>, hier: int): seq<Row> {
    if cat == [] then [] else InnerLoop(cat[0], rows, hier) + NestedLoops(cat[1..], rows, hier)
  }

  /** The rows of the window with one id. */
  function InnerLoop(id: int, rows: seq<Row>, hier: int): seq<Row> {
    if rows == [] then []
    else (if rows[0].id == id && rows[0].day == hier then [rows[0]] else []) + InnerLoop(id, rows[1..], hier)
  }

  lemma {:induction false} InnerCount(id: int, rows: seq<Row>, hier: int, r: Row)
    ensures multiset(InnerLoop(id, rows, hier))[r] == if r.id == id && r.day == hier then multiset(rows)[r] else 0
  {
    if rows != [] {
      InnerCount(id, rows[1..], hier, r);
      assert rows == [rows[0]] + rows[1..];
    }
  }

  lemma CountOneMore(copies: nat, entries: nat)
    ensures JoinCount(copies, entries + 1) == JoinCount(copies, entries) + copies
  {
  }

  lemma {:induction false} LoopCount(cat: seq<int>, rows: seq<Row>, hier: int, r: Row)
    ensures multiset(NestedLoops(cat, rows, hier))[r] ==
            if r.day == hier then JoinCount(multiset(rows)[r], multiset(cat)[r.id]) else 0
  {
    if cat == [] {
      JoinKeeps(multiset(rows)[r], 0);
    } else {
      InnerCount(cat[0], rows, hier, r);
      LoopCount(cat[1..], rows, hier, r);
      CountConcat(InnerLoop(cat[0], rows, hier), NestedLoops(cat[1..], rows, hier), r);
      CountFirst(cat, r.id);
      CountOneMore(multiset(rows)[r], multiset(cat[1..])[r.id]);
    }
  }

  lemma CountConcat(a: seq<Row>, b: seq<Row>, r: Row)
    ensures multiset(a + b)[r] == multiset(a)[r] + multiset(b)[r]
  {
  }

  lemma CountFirst(cat: seq<int>, id: int)
    requires cat != []
    ensures multiset(cat)[id] == multiset(cat[1..])[id] + if cat[0] == id then 1 else 0
  {
    assert cat == [cat[0]] + cat[1..];
  }

  /** An answer to the SELECT is exactly an ordered rearrangement of what the nested loops give: a row of the
      window once for every catalogue entry with its id. */
  lemma SelectIsNestedLoops(rs: seq<Row>, cat: seq<int>, rows: seq<Row>, hier: int)
    ensures IsSelection(rs, multiset(rows), multiset(cat), hier) <==>
            multiset(rs) == multiset(NestedLoops(cat, rows, hier)) && ById(rs)
  {
    forall r: Row
      ensures multiset(NestedLoops(cat, rows, hier))[r] ==
              if r.day == hier then JoinCount(multiset(rows)[r], multiset(cat)[r.id]) else 0
    {
      LoopCount(cat, rows, hier, r);
    }
    SortedIsById(rs);
    if IsSelection(rs, multiset(rows), multiset(cat), hier) {
      SameCounts(multiset(rs), multiset(NestedLoops(cat, rows, hier)));
    }
  }

  method ExecuteDelete(t: multiset<Row>, hier: int) returns (t': multiset<Row>)
    ensures IsRemainder(t', t, hier)
  {
    t' := t;
    while exists r | r in t' :: r.day == hier
      invariant forall q: Row :: t'[q] == t[q] || (q.day == hier && t'[q] == 0)
      decreases |t'|
    {
      var r :| r in t' && r.day == hier;
      t' := t'[r := 0];
    }
    forall q: Row ensures t'[q] == if q.day == hier then 0 else t[q] {
      assert q.day == hier ==> q !in t';
    }
  }

  // ---------------------------------------------------------------- the effect of an undisturbed write

  datatype Store = Store(tables: Tables, files: map<FileKey, CsvFile>)

  /** What a `write` finds outside its tables and files: the catalogues, and the files that the operating
      system would refuse to delete. */
  datatype Env = Env(cats: Catalogues, stuck: set<FileKey>)

  /** Stores related by one `write` in which nothing failed, `rs` being the answer to its SELECT. An empty
      file is there afterwards only if it could not be deleted. */
  ghost predicate Wrote(a: Store, env: Env, hier: int, site: Site, rs: seq<Row>, b: Store) {
    var k := FileKey(site.ty, hier);
    && site.ty in a.tables
    && if k in a.files then b == a
       else
         && b.files == (if rs == [] && k !in env.stuck then a.files else a.files[k := CsvFile(rs, true)])
         && site.ty in b.tables
         && b.tables == a.tables[site.ty := b.tables[site.ty]]
         && IsRemainder(b.tables[site.ty], a.tables[site.ty], hier)
  }

  /** The files after `m` statements of a `write` that finds no file, the last of which threw: the SELECT, the
      creation, one for each row, the close and the DELETE. */
  function FilesLeft(files: map<FileKey, CsvFile>, k: FileKey, rs: seq<Row>, stuck: set<FileKey>, m: nat)
    : map<FileKey, CsvFile>
  {
    if m <= 2 then files
    else if m <= |rs| + 3 then files[k := CsvFile(rs[..m - 3], false)]
    else if rs == [] && k !in stuck then files
    else files[k := CsvFile(rs, true)]
  }

  /** Stores related by one `write` that an exception ended after `m` statements: the tables are as before,
      and the file is as far as those statements had brought it. */
  ghost predicate Stopped(a: Store, env: Env, hier: int, site: Site, rs: seq<Row>, m: nat, b: Store) {
    var k := FileKey(site.ty, hier);
    && 1 <= m <= (if k in a.files then 1 else |rs| + 4)
    && b.tables == a.tables && b.files == FilesLeft(a.files, k, rs, env.stuck, m)
  }

  /** Stores related by one `write` of `m` statements, undisturbed or not. */
  ghost predicate Ended(a: Store, env: Env, hier: int, site: Site, rs: seq<Row>, m: nat, ok: bool, b: Store) {
    if ok then Wrote(a, env, hier, site, rs, b) && m == if FileKey(site.ty, hier) in a.files then 1 else |rs| + 4
    else Stopped(a, env, hier, site, rs, m, b)
  }

  /** The same, the SELECT being answered truthfully if it gets that far. */
  ghost predicate Attempted(a: Store, env: Env, hier: int, site: Site, m: nat, ok: bool, b: Store) {
    exists rs ::
      IsSelection(rs, Rows(a.tables, site.ty), Listed(env.cats, site), hier) && Ended(a, env, hier, site, rs, m, ok, b)
  }

  lemma PartLeft(files: map<FileKey, CsvFile>, k: FileKey, rs: seq<Row>, stuck: set<FileKey>, cpt: nat)
    requires cpt <= |rs|
    ensures files[k := CsvFile([], false)][k := CsvFile(rs[..cpt], false)] == FilesLeft(files, k, rs, stuck, cpt + 3)
  {
  }

  lemma PutTwice(files: map<FileKey, CsvFile>, k: FileKey, f: CsvFile, g: CsvFile)
    ensures files[k := f][k := g] == files[k := g]
  {
  }

  lemma PutAndRemove(files: map<FileKey, CsvFile>, k: FileKey, f: CsvFile)
    requires k !in files
    ensures files[k := f] - {k} == files
  {
  }

  /** Created, filled, completed, and dropped again if it stayed empty and can be. */
  lemma WholeLeft(files: map<FileKey, CsvFile>, k: FileKey, rs: seq<Row>, stuck: set<FileKey>)
    requires k !in files
    ensures var whole := files[k := CsvFile([], false)][k := CsvFile(rs, false)][k := CsvFile(rs, true)];
            (if rs == [] && k !in stuck then whole - {k} else whole) ==
            if rs == [] && k !in stuck then files else files[k := CsvFile(rs, true)]
  {
    PutTwice(files, k, CsvFile([], false), CsvFile(rs, false));
    PutTwice(files, k, CsvFile(rs, false), CsvFile(rs, true));
    PutAndRemove(files, k, CsvFile(rs, true));
  }

  // ---------------------------------------------------------------- the class

  /** The statements numbered `from` to before `end` do not throw. */
  predicate Unthrown(throws: nat -> bool, from: nat, end: nat) {
    forall i | from <= i < end :: !throws(i)
  }

  function Thrown(throws: nat -> bool, from: nat, end: nat): nat {
    if end <= from then 0 else Thrown(throws, from, end - 1) + if throws(end - 1) then 1 else 0
  }

  /** A piece of work starts with statement `from`, ends before statement `end`, and stops at the first
      statement that throws; `ok` says that none did. */
  ghost predicate Tried(throws: nat -> bool, from: nat, end: nat, ok: bool) {
    && from <= end && ok == Unthrown(throws, from, end)
    && (!ok ==> Unthrown(throws, from, end - 1))
  }

  lemma TriedOn(throws: nat -> bool, from: nat, middle: nat, end: nat, ok: bool)
    requires Tried(throws, from, middle, true) && Tried(throws, middle, end, ok)
    ensures Tried(throws, from, end, ok)
  {
  }

  /** Such a piece of work throws once or not at all. */
  lemma {:induction false} ThrownOn(throws: nat -> bool, first: nat, from: nat, end: nat, ok: bool)
    requires first <= from && Tried(throws, from, end, ok)
    ensures Thrown(throws, first, end) == Thrown(throws, first, from) + if ok then 0 else 1
    decreases end
  {
    if from < end {
      ThrownOn(throws, first, from, end - 1, true);
    }
  }

  lemma {:induction false} NothingThrown(throws: nat -> bool, from: nat, end: nat)
    ensures Thrown(throws, from, end) == 0 <==> Unthrown(throws, from, end)
  {
    if from < end {
      NothingThrown(throws, from, end - 1);
    }
  }

  /** `throws` says which statements that can throw do so, counted over the life of the object. */
  class Bdd {
    const sites: seq<Site>
    const cats: Catalogues
    const stuck: set<FileKey>
    const throws: nat -> bool
    var statements: nat
    var tables: Tables
    var files: map<FileKey, CsvFile>
    var ojd: int
    var hier: int
    ghost var time: nat
    ghost var log: Tables
    ghost var kept: Tables
    ghost var swept: int
    ghost var job: Job

    /** The machine state this object stands for. */
    ghost function View(): State
      reads this
    {
      State(sites, cats, tables, files, ojd, time, job, log, kept, swept)
    }

    constructor (sites: seq<Site>, cats: Catalogues, stuck: set<FileKey>, throws: nat -> bool, tables: Tables,
                 files: map<FileKey, CsvFile>, today: Day)
      ensures this.stuck == stuck && this.throws == throws && statements == 0
      ensures this.sites == sites && this.cats == cats && this.tables == tables && this.files == files
      ensures ojd == DayNumber(today) && job.Idle?
      ensures NothingFromTheFuture(View()) && FilesInOrder(View()) ==> Init(View())
    {
      this.sites, this.cats, this.tables, this.files := sites, cats, tables, files;
      this.stuck, this.throws, statements := stuck, throws, 0;
      ojd, hier := DayNumber(today), DayNumber(Yesterday(today));
      time, log, swept, job := 0, tables, DayNumber(today), Idle;
      kept := map ty | ty in tables :: KnownPart(tables[ty], sites, cats, ty);
    }

    /** The next statement that can throw. */
    method Attempt() returns (ok: bool)
      modifies this`statements
      ensures statements == old(statements) + 1 && View() == old(View())
      ensures ok == !throws(old(statements)) && Tried(throws, old(statements), statements, ok)
    {
      ok := !throws(statements);
      statements := statements + 1;
    }

    // The statements of `write`, one machine step each.

    /** A caught exception ends the work on the current site. */
    method Fail(ghost start: State)
      requires Active(View()) && Reaches(start, View())
      modifies this`job
      ensures job == Running(old(job).hier, old(job).todo[1..], Start, multiset{}) && Reaches(start, View())
    {
      ghost var s := View();
      job := Running(job.hier, job.todo[1..], Start, multiset{});
      ReachesStep(start, s, Throw, View());
    }

    method Select(site: Site, ghost start: State) returns (rs: seq<Row>)
      requires Active(View()) && job.at.Start? && job.hier == hier && job.todo[0] == site && Reaches(start, View())
      requires site.ty in tables
      modifies this`job
      ensures IsSelection(rs, tables[site.ty], Listed(cats, site), hier)
      ensures job == old(job).(at := Selected(rs), seen := Listed(cats, site)) && Reaches(start, View())
    {
      rs := ExecuteSelect(tables[site.ty], Listed(cats, site), hier);
      ghost var s := View();
      job := job.(at := Selected(rs), seen := Listed(cats, site));
      ReachesStep(start, s, Query(rs), View());
    }

    method KeepExisting(ghost start: State)
      requires Active(View()) && job.at.Selected? && Key(View()) in files && Reaches(start, View())
      modifies this`job
      ensures job == Running(old(job).hier, old(job).todo[1..], Start, multiset{}) && Reaches(start, View())
    {
      ghost var s := View();
      job := Running(job.hier, job.todo[1..], Start, multiset{});
      ReachesStep(start, s, Skip, View());
    }

    method OpenFile(k: FileKey, ghost start: State)
      requires Active(View()) && job.at.Selected? && Key(View()) == k && k !in files && Reaches(start, View())
      modifies this`job, this`files
      ensures files == old(files)[k := CsvFile([], false)]
      ensures job == old(job).(at := Writing(old(job).at.rs, 0)) && Reaches(start, View())
    {
      ghost var s := View();
      files := files[k := CsvFile([], false)];
      job := job.(at := Writing(job.at.rs, 0));
      ReachesStep(start, s, Create, View());
    }

    method AppendRow(k: FileKey, r: Row, ghost start: State)
      requires Active(View()) && job.at.Writing? && job.at.n < |job.at.rs| && r == job.at.rs[job.at.n]
      requires Key(View()) == k && k in files && files[k] == CsvFile(job.at.rs[..job.at.n], false)
      requires Reaches(start, View())
      modifies this`job, this`files
      ensures files == old(files)[k := CsvFile(old(job).at.rs[..old(job).at.n + 1], false)]
      ensures job == old(job).(at := Writing(old(job).at.rs, old(job).at.n + 1)) && Reaches(start, View())
    {
      ghost var s := View();
      assert files[k].rows + [r] == job.at.rs[..job.at.n + 1];
      files := files[k := CsvFile(files[k].rows + [r], false)];
      job := job.(at := Writing(job.at.rs, job.at.n + 1));
      ReachesStep(start, s, WriteRow, View());
    }

    method CloseFile(k: FileKey, ghost start: State)
      requires Active(View()) && job.at.Writing? && job.at.n == |job.at.rs|
      requires Key(View()) == k && k in files && files[k].rows == job.at.rs && Reaches(start, View())
      modifies this`job, this`files
      ensures files == old(files)[k := CsvFile(old(job).at.rs, true)]
      ensures job == old(job).(at := Closed(old(job).at.rs)) && Reaches(start, View())
    {
      ghost var s := View();
      files := files[k := CsvFile(files[k].rows, true)];
      job := job.(at := Closed(job.at.rs));
      ReachesStep(start, s, Close, View());
    }

    method DropIfEmpty(k: FileKey, cpt: nat, ghost start: State)
      requires Active(View()) && job.at.Closed? && cpt == |job.at.rs|
      requires Key(View()) == k && Reaches(start, View())
      modifies this`job, this`files
      ensures files == if cpt == 0 && k !in stuck then old(files) - {k} else old(files)
      ensures job == old(job).(at := Dropped(old(job).at.rs)) && Reaches(start, View())
    {
      ghost var s := View();
      if cpt < 1 && k !in stuck {
        files := files - {k};
      }
      job := job.(at := Dropped(job.at.rs));
      ReachesStep(start, s, Drop(k !in stuck), View());
    }

    method DeleteWindow(site: Site, ghost start: State)
      requires Active(View()) && job.at.Dropped? && job.hier == hier && job.todo[0] == site && site.ty in tables
      requires Reaches(start, View())
      modifies this`job, this`tables
      ensures site.ty in tables && tables == old(tables)[site.ty := tables[site.ty]]
      ensures IsRemainder(tables[site.ty], old(tables)[site.ty], hier)
      ensures job == Running(hier, old(job).todo[1..], Start, multiset{}) && Reaches(start, View())
    {
      ghost var s := View();
      var rest := ExecuteDelete(tables[site.ty], hier);
      tables := tables[site.ty := rest];
      job := Running(hier, job.todo[1..], Start, multiset{});
      ReachesStep(start, s, Delete, View());
    }

    /** Archive one table. An exception may be thrown by any statement and is caught here. Either way
        the call is a run of the machine; it succeeds if and only if the table exists and no statement
        throws, and then has the effect of `Wrote`. If the file exists the only statement is the SELECT. */
    method Write(site: Site, ghost start: State) returns (ok: bool)
      requires Active(View()) && job.at.Start? && job.hier == hier && job.todo[0] == site && Reaches(start, View())
      modifies this`tables, this`files, this`job, this`statements
      ensures job == Running(hier, old(job).todo[1..], Start, multiset{}) && Reaches(start, View())
      ensures tables.Keys == old(tables).Keys
      ensures AttemptedFrom(old(Store(tables, files)), Env(cats, stuck), hier, site, throws,
                            old(statements), statements, ok, Store(tables, files))
    {
      ghost var a, env := Store(tables, files), Env(cats, stuck);
      ok := Attempt();
      if ok && site.ty in tables {
        ghost var rs;
        ok, rs := WriteTable(site, start);
        SelectAnswered(a, env, hier, site, rs, throws, old(statements), statements, ok, Store(tables, files));
      } else {
        ok := false;
        Fail(start);
        SelectThrew(a, env, hier, site, throws, old(statements));
      }
    }

    /** The SELECT has not thrown. */
    method WriteTable(site: Site, ghost start: State) returns (ok: bool, ghost answer: seq<Row>)
      requires Active(View()) && job.at.Start? && job.hier == hier && job.todo[0] == site && Reaches(start, View())
      requires site.ty in tables
      modifies this`tables, this`files, this`job, this`statements
      ensures job == Running(hier, old(job).todo[1..], Start, multiset{}) && Reaches(start, View())
      ensures tables.Keys == old(tables).Keys && Tried(throws, old(statements), statements, ok)
      ensures IsSelection(answer, old(tables)[site.ty], Listed(cats, site), hier)
      ensures Ended(old(Store(tables, files)), Env(cats, stuck), hier, site, answer, statements - old(statements) + 1,
                    ok, Store(tables, files))
    {
      var rs := Select(site, start);
      answer := rs;
      ok := WriteSelected(site, rs, start);
    }

    /** The rest of `write`: nothing if the file exists. */
    method WriteSelected(site: Site, rs: seq<Row>, ghost start: State) returns (ok: bool)
      requires Active(View()) && job.at == Selected(rs) && job.hier == hier && job.todo[0] == site
      requires site.ty in tables && Reaches(start, View())
      modifies this`tables, this`files, this`job, this`statements
      ensures job == Running(hier, old(job).todo[1..], Start, multiset{}) && Reaches(start, View())
      ensures tables.Keys == old(tables).Keys && Tried(throws, old(statements), statements, ok)
      ensures Ended(old(Store(tables, files)), Env(cats, stuck), hier, site, rs, statements - old(statements) + 1, ok,
                    Store(tables, files))
    {
      var tmpDir := FileKey(site.ty, hier);
      if tmpDir in files {
        KeepExisting(start);
        ok := true;
      } else {
        ok := WriteAndDelete(site, rs, start);
      }
    }

    /** What `write` does when there is no file yet. */
    method WriteAndDelete(site: Site, rs: seq<Row>, ghost start: State) returns (ok: bool)
      requires Active(View()) && job.at == Selected(rs) && job.hier == hier && job.todo[0] == site
      requires site.ty in tables && FileKey(site.ty, hier) !in files && Reaches(start, View())
      modifies this`tables, this`files, this`job, this`statements
      ensures job == Running(hier, old(job).todo[1..], Start, multiset{}) && Reaches(start, View())
      ensures tables.Keys == old(tables).Keys && Tried(throws, old(statements), statements, ok)
      ensures old(statements) < statements <= old(statements) + |rs| + 3
      ensures ok ==> statements == old(statements) + |rs| + 3
      ensures ok ==> Wrote(old(Store(tables, files)), Env(cats, stuck), hier, site, rs, Store(tables, files))
      ensures !ok ==> Stopped(old(Store(tables, files)), Env(cats, stuck), hier, site, rs,
                              statements - old(statements) + 1, Store(tables, files))
    {
      ok := WriteFile(FileKey(site.ty, hier), rs, start);
      if ok {
        ghost var middle := statements;
        ok := TryDelete(site, start);
        TriedOn(throws, old(statements), middle, statements, ok);
      }
    }

    /** The last statement of `write`: the DELETE, which can throw like the others. */
    method TryDelete(site: Site, ghost start: State) returns (ok: bool)
      requires Active(View()) && job.at.Dropped? && job.hier == hier && job.todo[0] == site && site.ty in tables
      requires Reaches(start, View())
      modifies this`job, this`tables, this`statements
      ensures Tried(throws, old(statements), statements, ok) && statements == old(statements) + 1
      ensures site.ty in tables && tables == old(tables)[site.ty := tables[site.ty]]
      ensures ok ==> IsRemainder(tables[site.ty], old(tables)[site.ty], hier)
      ensures !ok ==> tables == old(tables)
      ensures job == Running(hier, old(job).todo[1..], Start, multiset{}) && Reaches(start, View())
    {
      ok := Attempt();
      if ok {
        DeleteWindow(site, start);
      } else {
        Fail(start);
      }
    }

    /** The part of `write` between the existence check and the DELETE: create the file, write the
        rows, close it, and drop it if it stayed empty. */
    method WriteFile(k: FileKey, rs: seq<Row>, ghost start: State) returns (finished: bool)
      requires Active(View()) && job.at == Selected(rs) && Key(View()) == k && k !in files && Reaches(start, View())
      modifies this`files, this`job, this`statements
      ensures Reaches(start, View()) && Tried(throws, old(statements), statements, finished)
      ensures old(statements) < statements <= old(statements) + |rs| + 2
      ensures finished ==> statements == old(statements) + |rs| + 2
      ensures !finished ==> files == FilesLeft(old(files), k, rs, stuck, statements - old(statements) + 1)
      ensures !finished ==> job == Running(old(job).hier, old(job).todo[1..], Start, multiset{})
      ensures finished ==> job == old(job).(at := Dropped(rs))
      ensures finished ==>
                files == if rs == [] && k !in stuck then old(files) else old(files)[k := CsvFile(rs, true)]
    {
      finished := Attempt();
      if !finished {
        Fail(start);
        return;
      }
      ghost var before := files;
      OpenFile(k, start);
      var cpt;
      finished, cpt := WriteRows(k, rs, start);
      TriedOn(throws, old(statements), old(statements) + 1, statements, finished);
      if !finished {
        PartLeft(before, k, rs, stuck, cpt);
      } else {
        FinishFile(k, cpt, start);
        WholeLeft(before, k, rs, stuck);
      }
    }

    method FinishFile(k: FileKey, cpt: nat, ghost start: State)
      requires Active(View()) && job.at.Writing? && job.at.n == |job.at.rs| == cpt
      requires Key(View()) == k && k in files && files[k].rows == job.at.rs && Reaches(start, View())
      modifies this`files, this`job
      ensures var whole := old(files)[k := CsvFile(old(job).at.rs, true)];
              files == if cpt == 0 && k !in stuck then whole - {k} else whole
      ensures job == old(job).(at := Dropped(old(job).at.rs)) && Reaches(start, View())
    {
      CloseFile(k, start);
      DropIfEmpty(k, cpt, start);
    }

    /** The rows, one by one and counted, and then the close, which can throw as well. */
    method WriteRows(k: FileKey, rs: seq<Row>, ghost start: State) returns (finished: bool, cpt: nat)
      requires Active(View()) && job.at == Writing(rs, 0) && Key(View()) == k && Reaches(start, View())
      requires k in files && files[k] == CsvFile([], false)
      modifies this`files, this`job, this`statements
      ensures Reaches(start, View()) && Tried(throws, old(statements), statements, finished)
      ensures cpt <= |rs| && statements == old(statements) + cpt + 1
      ensures !finished ==> files == old(files)[k := CsvFile(rs[..cpt], false)]
      ensures !finished ==> job == Running(old(job).hier, old(job).todo[1..], Start, multiset{})
      ensures finished ==> cpt == |rs| && job == old(job).(at := Writing(rs, |rs|))
      ensures finished ==> files == old(files)[k := CsvFile(rs, false)]
    {
      cpt := 0;
      while cpt < |rs|
        invariant cpt <= |rs|
        invariant files == old(files)[k := CsvFile(rs[..cpt], false)]
        invariant job == old(job).(at := Writing(rs, cpt))
        invariant Reaches(start, View())
        invariant statements == old(statements) + cpt && Tried(throws, old(statements), statements, true)
      {
        finished := Attempt();
        TriedOn(throws, old(statements), old(statements) + cpt, statements, finished);
        if !finished {
          Fail(start);
          return;
        }
        AppendRow(k, rs[cpt], start);
        cpt := cpt + 1;
      }
      assert rs[..cpt] == rs;
      finished := Attempt();
      TriedOn(throws, old(statements), old(statements) + cpt, statements, finished);
      if !finished {
        Fail(start);
      }
    }

    /** The daily job: fix the window, then archive every site in turn. It is a run of the machine, so
        it keeps the safety invariant. If the tables exist, as many sites fail as statements throw, and if
        none does its effect is that of the calls in order. */
    method Run(today: Day) returns (oks: seq<bool>)
      requires job.Idle? && ojd <= DayNumber(today)
      modifies this
      ensures ojd == DayNumber(today) && hier == DayNumber(Yesterday(today)) && job.Idle?
      ensures |oks| == |sites|
      ensures Reaches(old(View()), View())
      ensures old(Inv(View())) ==> Inv(View())
      ensures AllThere(old(tables)) ==> multiset(oks)[false] == Thrown(throws, old(statements), statements)
      ensures AllThere(old(tables)) ==> (false !in oks <==> Unthrown(throws, old(statements), statements))
      ensures AttemptedAll(old(Store(tables, files)), Env(cats, stuck), hier, sites, throws,
                           old(statements), statements, oks, Store(tables, files))
      ensures false !in oks ==>
                WroteAll(old(Store(tables, files)), Env(cats, stuck), hier, sites, Store(tables, files))
    {
      ghost var start := View();
      StartRun(today);
      oks := WriteSites(start);
      NothingThrown(throws, old(statements), statements);
      if false !in oks {
        AllOk(old(Store(tables, files)), Env(cats, stuck), hier, sites, throws, old(statements), statements, oks,
              Store(tables, files));
      }
      EndRun(start);
      if Inv(start) {
        ReachesInv(start, View());
      }
    }

    /** The tables of all sites exist. */
    predicate AllThere(t: Tables) {
      forall site | site in sites :: site.ty in t
    }

    /** The sites in order. */
    method WriteSites(ghost start: State) returns (oks: seq<bool>)
      requires job == Running(hier, sites, Start, multiset{}) && Reaches(start, View())
      modifies this`tables, this`files, this`job, this`statements
      ensures |oks| == |sites| && job == Running(hier, [], Start, multiset{}) && Reaches(start, View())
      ensures AllThere(old(tables)) ==> multiset(oks)[false] == Thrown(throws, old(statements), statements)
      ensures AttemptedAll(old(Store(tables, files)), Env(cats, stuck), hier, sites, throws,
                           old(statements), statements, oks, Store(tables, files))
    {
      oks := [];
      ghost var before := Store(tables, files);
      ghost var via, marks := [before], [statements];
      for i := 0 to |sites|
        invariant |oks| == i && |via| == i + 1 && via[0] == before && via[i] == Store(tables, files)
        invariant |marks| == i + 1 && marks[0] == old(statements) && marks[i] == statements
        invariant Attempts(via, marks, Env(cats, stuck), hier, sites[..i], throws, oks)
        invariant old(statements) <= statements && tables.Keys == old(tables).Keys
        invariant AllThere(old(tables)) ==> multiset(oks)[false] == Thrown(throws, old(statements), statements)
        invariant job == Running(hier, sites[i..], Start, multiset{})
        invariant Reaches(start, View())
      {
        assert sites[i..][1..] == sites[i + 1..];
        ghost var middle := statements;
        var ok := Write(sites[i], start);
        if AllThere(old(tables)) {
          ThrownOn(throws, old(statements), middle, statements, ok);
        }
        ghost var after := Store(tables, files);
        AttemptsNext(via, marks, Env(cats, stuck), hier, sites, i, throws, oks, after, statements, ok);
        via, marks := via + [after], marks + [statements];
        oks := oks + [ok];
      }
      assert sites[..|sites|] == sites;
    }

    /** The clock is read once, at the start: the window is yesterday, up to this midnight. */
    method StartRun(today: Day)
      requires job.Idle? && ojd <= DayNumber(today)
      modifies this
      ensures ojd == DayNumber(today) && hier == DayNumber(Yesterday(today))
      ensures job == Running(hier, sites, Start, multiset{}) && tables == old(tables) && files == old(files)
      ensures statements == old(statements)
      ensures Reaches(old(View()), View())
    {
      ghost var start := View();
      ReachesSelf(start);
      ReadClock(DayNumber(today), start);
      Plan(DayNumber(Yesterday(today)), start);
    }

    method ReadClock(d: int, ghost start: State)
      requires ojd <= d && Reaches(start, View())
      modifies this`ojd, this`time
      ensures ojd == d && Reaches(start, View())
    {
      ghost var s := View();
      ojd := d;
      time := time + 1;
      ReachesStep(start, s, Tick(d, time), View());
    }

    method Plan(d: int, ghost start: State)
      requires job.Idle? && d == ojd - 1 && Reaches(start, View())
      modifies this`hier, this`job
      ensures hier == d && job == Running(d, sites, Start, multiset{}) && Reaches(start, View())
    {
      ghost var s := View();
      hier := d;
      job := Running(hier, sites, Start, multiset{});
      ReachesStep(start, s, Begin, View());
    }

    method EndRun(ghost start: State)
      requires job.Running? && job.todo == [] && Reaches(start, View())
      modifies this`job, this`swept
      ensures job.Idle? && Reaches(start, View())
    {
      ghost var s := View();
      swept := if job.hier == swept then swept + 1 else swept;
      job := Idle;
      ReachesStep(start, s, Finish, View());
    }
  }

  // ---------------------------------------------------------------- site by site

  /** One site, with the statements numbered `from` to before `end`: it succeeds if and only if its table
      exists and none of them throws, and leaves what the statements it made leave. */
  ghost predicate AttemptedFrom(a: Store, env: Env, hier: int, site: Site, throws: nat -> bool,
                                from: nat, end: nat, ok: bool, b: Store)
  {
    && from < end && Attempted(a, env, hier, site, end - from, ok, b)
    && if site.ty in a.tables then Tried(throws, from, end, ok) else !ok && end == from + 1
  }

  /** A SELECT that throws, or has no table, leaves everything as it was. */
  lemma SelectThrew(a: Store, env: Env, hier: int, site: Site, throws: nat -> bool, from: nat)
    requires site.ty in a.tables ==> throws(from)
    ensures AttemptedFrom(a, env, hier, site, throws, from, from + 1, false, a)
  {
    SelectionExists(Rows(a.tables, site.ty), Listed(env.cats, site), hier);
    var rs :| IsSelection(rs, Rows(a.tables, site.ty), Listed(env.cats, site), hier);
    assert Ended(a, env, hier, site, rs, 1, false, a);
  }

  lemma SelectAnswered(a: Store, env: Env, hier: int, site: Site, rs: seq<Row>, throws: nat -> bool,
                       from: nat, end: nat, ok: bool, b: Store)
    requires site.ty in a.tables && !throws(from) && Tried(throws, from + 1, end, ok)
    requires IsSelection(rs, a.tables[site.ty], Listed(env.cats, site), hier)
    requires Ended(a, env, hier, site, rs, end - from, ok, b)
    ensures AttemptedFrom(a, env, hier, site, throws, from, end, ok, b)
  {
    TriedOn(throws, from, from + 1, end, ok);
  }

  /** The stores and the statement numbers before, between and after the sites. */
  ghost predicate Attempts(via: seq<Store>, marks: seq<nat>, env: Env, hier: int, sites: seq<Site>,
                           throws: nat -> bool, oks: seq<bool>)
  {
    && |via| == |marks| == |sites| + 1 && |oks| == |sites|
    && forall i | 0 <= i < |sites| ::
         AttemptedFrom(via[i], env, hier, sites[i], throws, marks[i], marks[i + 1], oks[i], via[i + 1])
  }

  lemma AttemptsNext(via: seq<Store>, marks: seq<nat>, env: Env, hier: int, sites: seq<Site>, n: nat,
                     throws: nat -> bool, oks: seq<bool>, b: Store, end: nat, ok: bool)
    requires n < |sites| && Attempts(via, marks, env, hier, sites[..n], throws, oks)
    requires AttemptedFrom(via[n], env, hier, sites[n], throws, marks[n], end, ok, b)
    ensures Attempts(via + [b], marks + [end], env, hier, sites[..n + 1], throws, oks + [ok])
  {
    var via', marks', oks' := via + [b], marks + [end], oks + [ok];
    forall i | 0 <= i < n + 1
      ensures AttemptedFrom(via'[i], env, hier, sites[..n + 1][i], throws,
                            marks'[i], marks'[i + 1], oks'[i], via'[i + 1])
    {
      if i < n {
        assert AttemptedFrom(via[i], env, hier, sites[..n][i], throws, marks[i], marks[i + 1], oks[i], via[i + 1]);
      }
    }
  }

  /** A whole job, site by site. */
  ghost predicate AttemptedAll(a: Store, env: Env, hier: int, sites: seq<Site>, throws: nat -> bool,
                               from: nat, end: nat, oks: seq<bool>, b: Store)
  {
    exists via, marks ::
      && Attempts(via, marks, env, hier, sites, throws, oks)
      && via[0] == a && via[|sites|] == b && marks[0] == from && marks[|sites|] == end
  }

  lemma AllOk(a: Store, env: Env, hier: int, sites: seq<Site>, throws: nat -> bool,
              from: nat, end: nat, oks: seq<bool>, b: Store)
    requires AttemptedAll(a, env, hier, sites, throws, from, end, oks, b) && false !in oks
    ensures WroteAll(a, env, hier, sites, b)
  {
    var via, marks :|
      && Attempts(via, marks, env, hier, sites, throws, oks)
      && via[0] == a && via[|sites|] == b && marks[0] == from && marks[|sites|] == end;
    forall i | 0 <= i < |sites| ensures Called(via[i], env, hier, sites[i], via[i + 1]) {
      assert oks[i];
      assert AttemptedFrom(via[i], env, hier, sites[i], throws, marks[i], marks[i + 1], oks[i], via[i + 1]);
    }
    assert Stores(via, env, hier, sites);
  }

  // ---------------------------------------------------------------- repeated sites

  /** One undisturbed `write`, its SELECT being answered truthfully. */
  ghost predicate Called(a: Store, env: Env, hier: int, site: Site, b: Store) {
    exists rs ::
      IsSelection(rs, Rows(a.tables, site.ty), Listed(env.cats, site), hier) && Wrote(a, env, hier, site, rs, b)
  }

  /** The stores before, between and after undisturbed calls for the sites in order. */
  ghost predicate Stores(via: seq<Store>, env: Env, hier: int, sites: seq<Site>) {
    && |via| == |sites| + 1
    && forall i | 0 <= i < |sites| :: Called(via[i], env, hier, sites[i], via[i + 1])
  }

  lemma StoresOneMore(via: seq<Store>, env: Env, hier: int, sites: seq<Site>, site: Site, b: Store)
    requires Stores(via, env, hier, sites) && Called(via[|sites|], env, hier, site, b)
    ensures Stores(via + [b], env, hier, sites + [site])
  {
    var more, all := via + [b], sites + [site];
    forall i | 0 <= i < |all| ensures Called(more[i], env, hier, all[i], more[i + 1]) {
      if i < |sites| {
        assert Called(via[i], env, hier, sites[i], via[i + 1]);
      }
    }
  }

  /** `b` is an outcome of undisturbed calls for the sites in order, from store `a`. */
  ghost predicate WroteAll(a: Store, env: Env, hier: int, sites: seq<Site>, b: Store) {
    exists via :: Stores(via, env, hier, sites) && via[0] == a && via[|sites|] == b
  }

  /** The window of table `ty` has been dealt with: its file exists, or nothing is left in it and an empty
      file would be deleted. */
  ghost predicate DealtWith(a: Store, stuck: set<FileKey>, ty: string, hier: int) {
    var k := FileKey(ty, hier);
    ty in a.tables && (k in a.files || (k !in stuck && forall r: Row | r in a.tables[ty] :: r.day != hier))
  }

  lemma SameCounts(t: multiset<Row>, t': multiset<Row>)
    requires forall r: Row :: t[r] == t'[r]
    ensures t == t'
  {
  }

  /** A `write` deals with its table and leaves the others alone. */
  lemma WriteDealsWith(a: Store, env: Env, hier: int, site: Site, b: Store, ty: string)
    requires Called(a, env, hier, site, b)
    ensures DealtWith(b, env.stuck, site.ty, hier)
    ensures DealtWith(a, env.stuck, ty, hier) ==> DealtWith(b, env.stuck, ty, hier)
  {
  }

  lemma NothingToSelect(rs: seq<Row>, t: multiset<Row>, cat: multiset<int>, hier: int)
    requires IsSelection(rs, t, cat, hier) && forall r: Row | r in t :: r.day != hier
    ensures rs == []
  {
    forall r: Row ensures multiset(rs)[r] == 0 {
      JoinKeeps(0, cat[r.id]);
    }
    assert multiset(rs) == multiset{};
    assert |multiset(rs)| == |rs|;
  }

  /** Every SELECT has an answer. */
  lemma {:induction false} SelectionExists(t: multiset<Row>, cat: multiset<int>, hier: int)
    ensures exists rs :: IsSelection(rs, t, cat, hier)
    decreases |t|
  {
    if t == multiset{} {
      forall r: Row ensures JoinCount(t[r], cat[r.id]) == 0 {
        JoinKeeps(0, cat[r.id]);
      }
      assert IsSelection([], t, cat, hier);
    } else {
      var r :| r in t;
      SelectionExists(t[r := 0], cat, hier);
      var rest :| IsSelection(rest, t[r := 0], cat, hier);
      JoinKeeps(0, cat[r.id]);
      var rs := if r.day == hier then PlaceCopies(rest, r, JoinCount(t[r], cat[r.id])) else rest;
      assert IsSelection(rs, t, cat, hier);
    }
  }

  /** What the DELETE leaves of a table with nothing in the window is the table. */
  lemma NothingToDelete(t: multiset<Row>, t': multiset<Row>, hier: int)
    requires forall r: Row | r in t :: r.day != hier
    ensures IsRemainder(t', t, hier) <==> t' == t
  {
    forall r: Row ensures r.day == hier ==> t[r] == 0 {
      assert r.day == hier ==> r !in t;
    }
    if IsRemainder(t', t, hier) {
      SameCounts(t', t);
    }
  }

  /** Writing a table that has been dealt with succeeds and changes nothing, whatever its catalogue: the
      same store is the one and only outcome. */
  lemma SecondWriteIsNoOp(a: Store, env: Env, hier: int, site: Site, b: Store)
    requires DealtWith(a, env.stuck, site.ty, hier)
    ensures Called(a, env, hier, site, b) <==> b == a
  {
    var t, cat := a.tables[site.ty], Listed(env.cats, site);
    SelectionExists(t, cat, hier);
    forall rs | IsSelection(rs, t, cat, hier) ensures Wrote(a, env, hier, site, rs, b) <==> b == a {
      if FileKey(site.ty, hier) !in a.files {
        NothingToSelect(rs, t, cat, hier);
        EmptyWrite(a, env, site, hier, b);
      }
    }
  }

  lemma EmptyWrite(a: Store, env: Env, site: Site, hier: int, b: Store)
    requires DealtWith(a, env.stuck, site.ty, hier) && FileKey(site.ty, hier) !in a.files
    ensures Wrote(a, env, hier, site, [], b) <==> b == a
  {
    var t := a.tables[site.ty];
    assert a.tables[site.ty := t] == a.tables;
    NothingToDelete(t, t, hier);
    if site.ty in b.tables {
      NothingToDelete(t, b.tables[site.ty], hier);
    }
  }

  predicate Mentions(sites: seq<Site>, ty: string) {
    exists site | site in sites :: site.ty == ty
  }

  /** The sites without those whose table occurred before. */
  function FirstOfEachTable(sites: seq<Site>): seq<Site> {
    if sites == [] then []
    else
      var n := |sites| - 1;
      FirstOfEachTable(sites[..n]) + (if Mentions(sites[..n], sites[n].ty) then [] else [sites[n]])
  }

  ghost predicate AllDealt(b: Store, stuck: set<FileKey>, hier: int, sites: seq<Site>) {
    forall site | site in sites :: DealtWith(b, stuck, site.ty, hier)
  }

  lemma DealtOneMore(m: Store, env: Env, hier: int, front: seq<Site>, last: Site, b: Store)
    requires Called(m, env, hier, last, b) && AllDealt(m, env.stuck, hier, front)
    ensures AllDealt(b, env.stuck, hier, front + [last])
  {
    forall site | site in front + [last] ensures DealtWith(b, env.stuck, site.ty, hier) {
      WriteDealsWith(m, env, hier, last, b, site.ty);
    }
  }

  /** The calls deal with the tables of all their sites. */
  lemma {:induction false} AllDealtWith(a: Store, env: Env, hier: int, sites: seq<Site>, b: Store)
    requires WroteAll(a, env, hier, sites, b)
    ensures AllDealt(b, env.stuck, hier, sites)
    decreases |sites|
  {
    if sites != [] {
      var n := |sites| - 1;
      var front, last := sites[..n], sites[n];
      assert front + [last] == sites;
      LastCall(a, env, hier, front, last, b);
      var m :| WroteAll(a, env, hier, front, m) && Called(m, env, hier, last, b);
      AllDealtWith(a, env, hier, front, m);
      DealtOneMore(m, env, hier, front, last, b);
    }
  }

  /** The last site does nothing if its table occurred before. */
  lemma RepeatedLast(a: Store, env: Env, hier: int, sites: seq<Site>, b: Store)
    requires sites != [] && Mentions(sites[..|sites| - 1], sites[|sites| - 1].ty)
    ensures WroteAll(a, env, hier, sites, b) <==> WroteAll(a, env, hier, sites[..|sites| - 1], b)
  {
    var n := |sites| - 1;
    assert sites[..n] + [sites[n]] == sites;
    LastCall(a, env, hier, sites[..n], sites[n], b);
    forall m | WroteAll(a, env, hier, sites[..n], m)
      ensures Called(m, env, hier, sites[n], b) <==> b == m
    {
      AllDealtWith(a, env, hier, sites[..n], m);
      SecondWriteIsNoOp(m, env, hier, sites[n], b);
    }
  }

  ghost predicate SameOutcomes(a: Store, env: Env, hier: int, some: seq<Site>, other: seq<Site>) {
    forall b :: WroteAll(a, env, hier, some, b) <==> WroteAll(a, env, hier, other, b)
  }

  lemma LastCall(a: Store, env: Env, hier: int, front: seq<Site>, last: Site, b: Store)
    ensures WroteAll(a, env, hier, front + [last], b) <==>
            exists m :: WroteAll(a, env, hier, front, m) && Called(m, env, hier, last, b)
  {
    var sites := front + [last];
    if WroteAll(a, env, hier, sites, b) {
      var via :| Stores(via, env, hier, sites) && via[0] == a && via[|sites|] == b;
      var n := |front|;
      StoresFront(via, env, hier, front, last);
      assert WroteAll(a, env, hier, front, via[n]) && Called(via[n], env, hier, last, b);
    }
    if m :| WroteAll(a, env, hier, front, m) && Called(m, env, hier, last, b) {
      var via :| Stores(via, env, hier, front) && via[0] == a && via[|front|] == m;
      StoresOneMore(via, env, hier, front, last, b);
      assert WroteAll(a, env, hier, sites, b);
    }
  }

  lemma StoresFront(via: seq<Store>, env: Env, hier: int, front: seq<Site>, last: Site)
    requires Stores(via, env, hier, front + [last])
    ensures Stores(via[..|front| + 1], env, hier, front) && Called(via[|front|], env, hier, last, via[|front| + 1])
  {
    var n := |front|;
    assert (front + [last])[n] == last;
    forall i | 0 <= i < n ensures Called(via[..n + 1][i], env, hier, front[i], via[..n + 1][i + 1]) {
      assert (front + [last])[i] == front[i];
    }
  }

  lemma SameOneMore(a: Store, env: Env, hier: int, some: seq<Site>, other: seq<Site>, last: Site)
    requires SameOutcomes(a, env, hier, some, other)
    ensures SameOutcomes(a, env, hier, some + [last], other + [last])
  {
    forall b
      ensures WroteAll(a, env, hier, some + [last], b) <==> WroteAll(a, env, hier, other + [last], b)
    {
      LastCall(a, env, hier, some, last, b);
      LastCall(a, env, hier, other, last, b);
    }
  }

  lemma SameWithoutLast(a: Store, env: Env, hier: int, sites: seq<Site>)
    requires sites != [] && Mentions(sites[..|sites| - 1], sites[|sites| - 1].ty)
    ensures SameOutcomes(a, env, hier, sites, sites[..|sites| - 1])
  {
    forall b ensures WroteAll(a, env, hier, sites, b) <==> WroteAll(a, env, hier, sites[..|sites| - 1], b) {
      RepeatedLast(a, env, hier, sites, b);
    }
  }

  lemma SameTrans(a: Store, env: Env, hier: int, one: seq<Site>, two: seq<Site>, three: seq<Site>)
    requires SameOutcomes(a, env, hier, one, two) && SameOutcomes(a, env, hier, two, three)
    ensures SameOutcomes(a, env, hier, one, three)
  {
  }

  /** A site list that repeats tables, with whatever catalogues, has exactly the outcomes of the list of
      their first occurrences. */
  lemma {:induction false} RepeatsDoNothing(a: Store, env: Env, hier: int, sites: seq<Site>)
    ensures SameOutcomes(a, env, hier, sites, FirstOfEachTable(sites))
    decreases |sites|
  {
    if sites != [] {
      var n := |sites| - 1;
      var front, last := sites[..n], sites[n];
      RepeatsDoNothing(a, env, hier, front);
      if Mentions(front, last.ty) {
        SameWithoutLast(a, env, hier, sites);
        SameTrans(a, env, hier, sites, front, FirstOfEachTable(front));
        assert FirstOfEachTable(sites) == FirstOfEachTable(front);
      } else {
        SameOneMore(a, env, hier, front, FirstOfEachTable(front), last);
        assert front + [last] == sites && FirstOfEachTable(sites) == FirstOfEachTable(front) + [last];
      }
    }
  }
}
