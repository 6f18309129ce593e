/**
 No row is lost: over every run of the archive machine, whatever fails and whenever.
 */
module ArchiveSafety {
  import opened Archive

  /** Copies of a row in the complete file of its own table and day. */
  function Archived(files: map<FileKey, CsvFile>, ty: string, r: Row): nat {
    var k := FileKey(ty, r.day);
    if k in files && files[k].closed then multiset(files[k].rows)[r] else 0
  }

  /** Every copy of a row that was inserted while listed is still somewhere. */
  ghost predicate NoLoss(s: State) {
    forall ty, r: Row :: Rows(s.kept, ty)[r] <= Rows(s.tables, ty)[r] + Archived(s.files, ty, r)
  }

  ghost predicate NothingFromTheFuture(s: State) {
    forall ty, r: Row | r in Rows(s.tables, ty) :: r.day <= s.day
  }

  /** Rows that were listed when they were inserted are listed still: catalogues only grow. */
  ghost predicate KeptKnown(s: State) {
    forall ty, r: Row | r in Rows(s.kept, ty) :: Known(s.sites, s.cats, ty, r.id)
  }

  /** A complete file holds rows of its own day only, by id and date. */
  predicate WellFiled(k: FileKey, f: CsvFile) {
    f.closed ==> Sorted(f.rows) && forall r | r in f.rows :: r.day == k.day
  }

  predicate AllFiled(files: map<FileKey, CsvFile>) {
    forall k | k in files :: WellFiled(k, files[k])
  }

  predicate FilesInOrder(s: State) {
    AllFiled(s.files)
  }

  // ---------------------------------------------------------------- the run in hand

  /** Between the creation of a file and the DELETE of its window. */
  predicate MidWrite(s: State) {
    Active(s) && !s.job.at.Start? && !s.job.at.Selected?
  }

  ghost predicate Selection(s: State, rs: seq<Row>)
    requires Active(s)
  {
    IsSelection(rs, Rows(s.tables, Key(s).ty), s.job.seen, s.job.hier)
  }

  /** What the file in hand looks like between its creation and the DELETE. */
  predicate FileInv(s: State)
    requires MidWrite(s)
  {
    var k, rs := Key(s), s.job.at.rs;
    match s.job.at
    case Writing(_, n) => n <= |rs| && k in s.files && s.files[k] == CsvFile(rs[..n], false)
    case Closed(_) => k in s.files && s.files[k] == CsvFile(rs, true)
    case Dropped(_) => if k in s.files then s.files[k] == CsvFile(rs, true) else rs == []
  }

  /** The run stands at a site of the list, on a day gone by, with the answer to its SELECT. */
  ghost predicate JobShape(s: State) {
    s.job.Running? ==>
      && s.job.hier < s.day
      && (forall site | site in s.job.todo :: site in s.sites)
      && (!s.job.at.Start? ==> Active(s) && Selection(s, s.job.at.rs) && (MidWrite(s) ==> FileInv(s)))
  }

  /** The SELECT in hand saw the ids of all rows that were inserted while listed. */
  ghost predicate SeenKept(s: State) {
    Active(s) && !s.job.at.Start? ==>
      forall r: Row | r in Rows(s.kept, Key(s).ty) && r.day == s.job.hier :: s.job.seen[r.id] >= 1
  }

  /** While a file is in hand, the rows of its day are all still in the table. */
  ghost predicate Untouched(s: State) {
    MidWrite(s) ==>
      forall r: Row | r.day == s.job.hier :: Rows(s.kept, Key(s).ty)[r] <= Rows(s.tables, Key(s).ty)[r]
  }

  ghost predicate Inv(s: State) {
    && NoLoss(s) && NothingFromTheFuture(s) && KeptKnown(s) && FilesInOrder(s)
    && JobShape(s) && SeenKept(s) && Untouched(s)
  }

  /** The machine starts with nothing archived that it could lose: the histories are the tables and their
      listed part. */
  ghost predicate Init(s: State) {
    && s.job.Idle? && s.log == s.tables
    && (forall ty, r: Row ::
          Rows(s.kept, ty)[r] == if Known(s.sites, s.cats, ty, r.id) then Rows(s.tables, ty)[r] else 0)
    && NothingFromTheFuture(s) && FilesInOrder(s)
  }

  /** The rows of a table whose ids are listed. */
  ghost function KnownPart(t: multiset<Row>, sites: seq<Site>, cats: Catalogues, ty: string): (part: multiset<Row>)
    ensures forall r: Row :: part[r] == if Known(sites, cats, ty, r.id) then t[r] else 0
    decreases |t|
  {
    if t == multiset{} then t
    else
      var r :| r in t;
      var part := KnownPart(t[r := 0], sites, cats, ty);
      if Known(sites, cats, ty, r.id) then part[r := t[r]] else part
  }

  lemma InitInv(s: State)
    requires Init(s)
    ensures Inv(s)
  {
    forall ty, r: Row | r in Rows(s.kept, ty) ensures Known(s.sites, s.cats, ty, r.id) {
      assert Rows(s.kept, ty)[r] > 0;
    }
  }

  // ---------------------------------------------------------------- what a step leaves alone

  predicate TouchesFiles(e: Event) {
    e.Create? || e.WriteRow? || e.Close? || e.Drop?
  }

  lemma Frame(s: State, e: Event, s': State)
    requires Step(s, e, s')
    ensures !e.Insert? && !e.Delete? ==> s'.tables == s.tables
    ensures !e.Insert? ==> s'.kept == s.kept && s'.log == s.log
    ensures !TouchesFiles(e) ==> s'.files == s.files
    ensures !e.Enrol? ==> s'.cats == s.cats
    ensures s'.sites == s.sites && s.day <= s'.day
  {
    match e
    case Tick(_, _) =>
    case Insert(_, _, _) =>
    case Enrol(_, _) =>
    case Delete => DeleteFrame(s, e, s');
    case _ => assert s'.tables == s.tables && s'.kept == s.kept && s'.log == s.log && s'.cats == s.cats;
  }

  lemma DeleteFrame(s: State, e: Event, s': State)
    requires Step(s, e, s') && e.Delete?
    ensures s'.kept == s.kept && s'.log == s.log && s'.files == s.files && s'.cats == s.cats
    ensures s'.sites == s.sites && s'.day == s.day
  {
  }

  lemma JobFrame(s: State, e: Event, s': State)
    requires Step(s, e, s') && (e.Tick? || e.Insert? || e.Enrol?)
    ensures s'.job == s.job
  {
  }

  lemma KnownGrows(s: State, e: Event, s': State, ty: string, id: int)
    requires Step(s, e, s') && Known(s.sites, s.cats, ty, id)
    ensures Known(s'.sites, s'.cats, ty, id)
  {
    Frame(s, e, s');
    forall site | site in s'.sites && site.ty == ty ensures Listed(s'.cats, site)[id] >= 1 {
      assert Listed(s.cats, site)[id] >= 1;
    }
  }

  /** An insert adds one copy of one row to the table and to the histories. */
  lemma InsertCounts(s: State, e: Event, s': State, ty: string, r: Row)
    requires Step(s, e, s') && e.Insert?
    ensures var added := if ty == e.ty && r == Row(e.id, e.val, s.day, s.time) then 1 else 0;
            && Rows(s'.tables, ty)[r] == Rows(s.tables, ty)[r] + added
            && Rows(s'.log, ty)[r] == Rows(s.log, ty)[r] + added
            && Rows(s'.kept, ty)[r] ==
               Rows(s.kept, ty)[r] + if Known(s.sites, s.cats, ty, r.id) then added else 0
  {
    var r0 := Row(e.id, e.val, s.day, s.time);
    OneMore(s.tables, e.ty, r0, ty, r);
    OneMore(s.log, e.ty, r0, ty, r);
    OneMore(s.kept, e.ty, r0, ty, r);
  }

  lemma OneMore(t: Tables, at: string, r0: Row, ty: string, r: Row)
    ensures Rows(t[at := Rows(t, at) + multiset{r0}], ty)[r] == Rows(t, ty)[r] + if ty == at && r == r0 then 1 else 0
  {
  }

  ghost predicate SameWindow(t: multiset<Row>, t': multiset<Row>, hier: int) {
    forall r: Row | r.day == hier :: t'[r] == t[r]
  }

  /** A row inserted during a run is dated today, so it is outside the window in hand. */
  lemma InsertLeavesWindow(s: State, e: Event, s': State, ty: string, hier: int)
    requires Step(s, e, s') && e.Insert? && hier < s.day
    ensures SameWindow(Rows(s.tables, ty), Rows(s'.tables, ty), hier)
    ensures SameWindow(Rows(s.kept, ty), Rows(s'.kept, ty), hier)
  {
    forall r: Row | r.day == hier
      ensures Rows(s'.tables, ty)[r] == Rows(s.tables, ty)[r]
      ensures Rows(s'.kept, ty)[r] == Rows(s.kept, ty)[r]
    {
      InsertCounts(s, e, s', ty, r);
    }
  }

  lemma SelectionStable(rs: seq<Row>, t: multiset<Row>, t': multiset<Row>, cat: multiset<int>, hier: int)
    requires IsSelection(rs, t, cat, hier) && SameWindow(t, t', hier)
    ensures IsSelection(rs, t', cat, hier)
  {
  }

  lemma JoinKeeps(copies: nat, entries: nat)
    ensures entries >= 1 ==> JoinCount(copies, entries) >= copies
    ensures entries == 0 ==> JoinCount(copies, entries) == 0
    ensures JoinCount(0, entries) == 0
  {
  }

  /** A selection is filed as it should be. */
  lemma SelectionWellFiled(rs: seq<Row>, t: multiset<Row>, cat: multiset<int>, k: FileKey)
    requires IsSelection(rs, t, cat, k.day)
    ensures WellFiled(k, CsvFile(rs, true))
  {
  }

  // ---------------------------------------------------------------- each part of the invariant, step by step

  lemma FutureStep(s: State, e: Event, s': State)
    requires NothingFromTheFuture(s) && Step(s, e, s')
    ensures NothingFromTheFuture(s')
  {
    Frame(s, e, s');
    if e.Insert? {
      forall ty, r: Row | r in Rows(s'.tables, ty) ensures r.day <= s'.day {
        InsertCounts(s, e, s', ty, r);
      }
    } else if e.Delete? {
      forall ty, r: Row | r in Rows(s'.tables, ty) ensures r.day <= s'.day {
        Shrinks(s, e, s', ty, r);
      }
    }
  }

  /** The DELETE only takes away. */
  lemma Shrinks(s: State, e: Event, s': State, ty: string, r: Row)
    requires Step(s, e, s') && e.Delete? && r in Rows(s'.tables, ty)
    ensures r in Rows(s.tables, ty)
    ensures ty == Key(s).ty ==> r.day != s.job.hier
  {
    assert Rows(s'.tables, ty)[r] > 0;
  }

  lemma KeptStep(s: State, e: Event, s': State)
    requires KeptKnown(s) && Step(s, e, s')
    ensures KeptKnown(s')
  {
    Frame(s, e, s');
    forall ty, r: Row | r in Rows(s'.kept, ty) ensures Known(s'.sites, s'.cats, ty, r.id) {
      if e.Insert? {
        InsertCounts(s, e, s', ty, r);
      }
      assert Known(s.sites, s.cats, ty, r.id);
      KnownGrows(s, e, s', ty, r.id);
    }
  }

  lemma FileOneMore(files: map<FileKey, CsvFile>, k: FileKey, f: CsvFile)
    requires AllFiled(files) && WellFiled(k, f)
    ensures AllFiled(files[k := f])
  {
  }

  lemma OrderStep(s: State, e: Event, s': State)
    requires FilesInOrder(s) && JobShape(s) && Step(s, e, s')
    ensures FilesInOrder(s')
  {
    if TouchesFiles(e) {
      match e
      case Create => FileOneMore(s.files, Key(s), CsvFile([], false));
      case WriteRow => FileOneMore(s.files, Key(s), CsvFile(s.job.at.rs[..s.job.at.n + 1], false));
      case Close =>
        SelectionWellFiled(s.job.at.rs, Rows(s.tables, Key(s).ty), s.job.seen, Key(s));
        FileOneMore(s.files, Key(s), CsvFile(s.job.at.rs, true));
      case Drop(_) =>
    } else {
      Frame(s, e, s');
    }
  }

  lemma ShapeInsert(s: State, e: Event, s': State)
    requires JobShape(s) && Step(s, e, s') && e.Insert?
    ensures JobShape(s')
  {
    Frame(s, e, s');
    JobFrame(s, e, s');
    if s.job.Running? && !s.job.at.Start? {
      InsertLeavesWindow(s, e, s', Key(s).ty, s.job.hier);
      SelectionStable(s.job.at.rs, Rows(s.tables, Key(s).ty), Rows(s'.tables, Key(s).ty), s.job.seen, s.job.hier);
    }
  }

  /** Work on the file in hand leaves the rest of the run and the other files as they are. */
  lemma FilesFrame(s: State, e: Event, s': State)
    requires Step(s, e, s') && TouchesFiles(e)
    ensures Active(s) && !s.job.at.Start? && MidWrite(s') && Key(s') == Key(s)
    ensures s'.job.at.rs == s.job.at.rs && s'.job == s.job.(at := s'.job.at)
    ensures e.Create? <==> !MidWrite(s)
    ensures e.Create? ==> Key(s) !in s.files
    ensures s'.files - {Key(s)} == s.files - {Key(s)}
  {
  }

  lemma InHand(s: State, e: Event, s': State)
    requires Step(s, e, s') && TouchesFiles(e) && (MidWrite(s) ==> FileInv(s))
    ensures MidWrite(s') && FileInv(s')
  {
    match e
    case Close => assert s.job.at.rs[..|s.job.at.rs|] == s.job.at.rs;
    case _ =>
  }

  lemma ShapeFiles(s: State, e: Event, s': State)
    requires JobShape(s) && Step(s, e, s') && TouchesFiles(e)
    ensures JobShape(s')
  {
    Frame(s, e, s');
    FilesFrame(s, e, s');
    InHand(s, e, s');
    assert Selection(s', s.job.at.rs);
  }

  lemma ShapeNext(s: State, e: Event, s': State)
    requires JobShape(s) && Step(s, e, s') && (e.Skip? || e.Throw? || e.Delete?)
    ensures JobShape(s') && s'.job.Running? && s'.job.at.Start?
  {
    assert forall site | site in s.job.todo[1..] :: site in s.job.todo;
  }

  lemma ShapeStep(s: State, e: Event, s': State)
    requires JobShape(s) && Step(s, e, s')
    ensures JobShape(s')
  {
    if e.Insert? {
      ShapeInsert(s, e, s');
    } else if TouchesFiles(e) {
      ShapeFiles(s, e, s');
    } else if e.Skip? || e.Throw? || e.Delete? {
      ShapeNext(s, e, s');
    } else {
      Frame(s, e, s');
    }
  }

  /** At the SELECT, all rows inserted while listed are listed. */
  lemma SeenQuery(s: State, e: Event, s': State)
    requires KeptKnown(s) && JobShape(s) && Step(s, e, s') && e.Query?
    ensures SeenKept(s')
  {
    var site := s.job.todo[0];
    forall r: Row | r in Rows(s'.kept, site.ty) && r.day == s'.job.hier ensures s'.job.seen[r.id] >= 1 {
      assert Known(s.sites, s.cats, site.ty, r.id) && site in s.sites;
    }
  }

  lemma SeenStep(s: State, e: Event, s': State)
    requires KeptKnown(s) && JobShape(s) && SeenKept(s) && Step(s, e, s')
    ensures SeenKept(s')
  {
    if e.Query? {
      SeenQuery(s, e, s');
    } else if e.Insert? {
      JobFrame(s, e, s');
      if Active(s) && !s.job.at.Start? {
        InsertLeavesWindow(s, e, s', Key(s).ty, s.job.hier);
      }
    } else if TouchesFiles(e) {
      FilesFrame(s, e, s');
      Frame(s, e, s');
    } else if e.Skip? || e.Throw? || e.Delete? {
      ShapeNext(s, e, s');
    } else {
      Frame(s, e, s');
    }
  }

  /** Creating a file that does not exist hides nothing; from here on the window is untouched. */
  lemma UntouchedCreate(s: State, e: Event, s': State)
    requires NoLoss(s) && Step(s, e, s') && e.Create?
    ensures Untouched(s')
  {
    forall r: Row | r.day == s.job.hier
      ensures Rows(s.kept, Key(s).ty)[r] <= Rows(s.tables, Key(s).ty)[r]
    {
      assert Archived(s.files, Key(s).ty, r) == 0;
    }
  }

  lemma UntouchedStep(s: State, e: Event, s': State)
    requires NoLoss(s) && JobShape(s) && Untouched(s) && Step(s, e, s')
    ensures Untouched(s')
  {
    if e.Create? {
      UntouchedCreate(s, e, s');
    } else if e.Insert? {
      JobFrame(s, e, s');
      if MidWrite(s) {
        InsertLeavesWindow(s, e, s', Key(s).ty, s.job.hier);
      }
    } else if TouchesFiles(e) {
      FilesFrame(s, e, s');
      Frame(s, e, s');
    } else if e.Skip? || e.Throw? || e.Delete? {
      ShapeNext(s, e, s');
    } else {
      Frame(s, e, s');
    }
  }

  /** Opening, filling, completing or dropping the file in hand archives no less than before. */
  lemma FilesArchive(s: State, e: Event, s': State, ty: string, r: Row)
    requires JobShape(s) && Step(s, e, s') && TouchesFiles(e)
    ensures Archived(s'.files, ty, r) >= Archived(s.files, ty, r)
  {
  }

  /** The DELETE takes away the window of its table, nothing else. */
  lemma DeleteCounts(s: State, e: Event, s': State, ty: string, r: Row)
    requires Step(s, e, s') && e.Delete?
    ensures MidWrite(s) && s.job.at.Dropped? && s'.job.Running? && s'.job.at.Start?
    ensures Rows(s'.tables, ty)[r] == if ty == Key(s).ty && r.day == s.job.hier then 0 else Rows(s.tables, ty)[r]
  {
  }

  /** Before the DELETE, the complete file holds the rows of the window. */
  lemma FileKeeps(s: State, r: Row)
    requires Inv(s) && MidWrite(s) && s.job.at.Dropped? && r.day == s.job.hier
    ensures Rows(s.kept, Key(s).ty)[r] <= Archived(s.files, Key(s).ty, r)
  {
    var ty := Key(s).ty;
    JoinKeeps(Rows(s.tables, ty)[r], s.job.seen[r.id]);
    assert multiset(s.job.at.rs)[r] >= Rows(s.kept, ty)[r];
  }

  lemma DeleteKeeps(s: State, e: Event, s': State, ty: string, r: Row)
    requires Inv(s) && Step(s, e, s') && e.Delete?
    ensures Rows(s'.kept, ty)[r] <= Rows(s'.tables, ty)[r] + Archived(s'.files, ty, r)
  {
    DeleteFrame(s, e, s');
    DeleteCounts(s, e, s', ty, r);
    if ty == Key(s).ty && r.day == s.job.hier {
      FileKeeps(s, r);
    }
  }

  lemma LossStep(s: State, e: Event, s': State, ty: string, r: Row)
    requires Inv(s) && Step(s, e, s')
    ensures Rows(s'.kept, ty)[r] <= Rows(s'.tables, ty)[r] + Archived(s'.files, ty, r)
  {
    if e.Delete? {
      DeleteKeeps(s, e, s', ty, r);
    } else {
      Frame(s, e, s');
      if e.Insert? {
        InsertCounts(s, e, s', ty, r);
      } else if TouchesFiles(e) {
        FilesArchive(s, e, s', ty, r);
      }
    }
  }

  lemma StepInv(s: State, e: Event, s': State)
    requires Inv(s) && Step(s, e, s')
    ensures Inv(s')
  {
    assert NoLoss(s') by {
      forall ty, r: Row
        ensures Rows(s'.kept, ty)[r] <= Rows(s'.tables, ty)[r] + Archived(s'.files, ty, r)
      {
        LossStep(s, e, s', ty, r);
      }
    }
    FutureStep(s, e, s');
    KeptStep(s, e, s');
    OrderStep(s, e, s');
    ShapeStep(s, e, s');
    SeenStep(s, e, s');
    UntouchedStep(s, e, s');
  }

  lemma {:induction false} RunInv(ss: seq<State>, es: seq<Event>)
    requires IsRun(ss, es) && Inv(ss[0])
    ensures Inv(ss[|es|])
    decreases |es|
  {
    if es != [] {
      var n := |es| - 1;
      assert IsRun(ss[..n + 1], es[..n]);
      RunInv(ss[..n + 1], es[..n]);
      StepInv(ss[n], es[n], ss[n + 1]);
    }
  }

  /** An id that is listed at the start stays listed, so all copies of its rows are counted as such. */
  lemma {:induction false} KnownThroughout(ss: seq<State>, es: seq<Event>, ty: string, r: Row)
    requires IsRun(ss, es) && Init(ss[0]) && Known(ss[0].sites, ss[0].cats, ty, r.id)
    ensures var s := ss[|es|];
            Known(s.sites, s.cats, ty, r.id) && Rows(s.kept, ty)[r] == Rows(s.log, ty)[r]
    decreases |es|
  {
    if es != [] {
      var n := |es| - 1;
      assert IsRun(ss[..n + 1], es[..n]);
      KnownThroughout(ss[..n + 1], es[..n], ty, r);
      assert Step(ss[n], es[n], ss[n + 1]);
      KnownGrows(ss[n], es[n], ss[n + 1], ty, r.id);
      if es[n].Insert? {
        InsertCounts(ss[n], es[n], ss[n + 1], ty, r);
      } else {
        Frame(ss[n], es[n], ss[n + 1]);
      }
    }
  }

  lemma FilesById(files: map<FileKey, CsvFile>)
    requires AllFiled(files)
    ensures forall k | k in files && files[k].closed ::
              ById(files[k].rows) && forall q | q in files[k].rows :: q.day == k.day
  {
    forall k | k in files && files[k].closed
      ensures ById(files[k].rows) && forall q | q in files[k].rows :: q.day == k.day
    {
      assert WellFiled(k, files[k]);
      SortedIsById(files[k].rows);
    }
  }

  /** Over every run, with exceptions, deaths, restarts, inserts and growing catalogues: each copy of a row
      that was inserted while its id was listed is still in its table or in the complete file of its table
      and day, and so is every copy of a row whose id was listed from the start; complete files hold rows
      of their own day only, in order. */
  lemma NoRowLost(ss: seq<State>, es: seq<Event>, ty: string, r: Row)
    requires IsRun(ss, es) && Init(ss[0])
    ensures var s := ss[|es|];
            var held := Rows(s.tables, ty)[r] + Archived(s.files, ty, r);
            && Rows(s.kept, ty)[r] <= held
            && (Known(ss[0].sites, ss[0].cats, ty, r.id) ==> Rows(s.log, ty)[r] <= held)
            && forall k | k in s.files && s.files[k].closed ::
                 ById(s.files[k].rows) && forall q | q in s.files[k].rows :: q.day == k.day
  {
    InitInv(ss[0]);
    RunInv(ss, es);
    FilesById(ss[|es|].files);
    if Known(ss[0].sites, ss[0].cats, ty, r.id) {
      KnownThroughout(ss, es, ty, r);
    }
  }

  /** Ids do not go down, and for one id dates do not. */
  predicate ById(rs: seq<Row>) {
    forall i, j | 0 <= i < j < |rs| ::
      && rs[i].id <= rs[j].id
      && (rs[i].id == rs[j].id ==> rs[i].day <= rs[j].day)
      && (rs[i].id == rs[j].id && rs[i].day == rs[j].day ==> rs[i].time <= rs[j].time)
  }

  lemma SortedIsById(rs: seq<Row>)
    ensures Sorted(rs) <==> ById(rs)
  {
    forall i, j | 0 <= i < j < |rs|
      ensures InOrder(rs[i], rs[j]) <==>
              && rs[i].id <= rs[j].id
              && (rs[i].id == rs[j].id ==> rs[i].day <= rs[j].day)
              && (rs[i].id == rs[j].id && rs[i].day == rs[j].day ==> rs[i].time <= rs[j].time)
    {
    }
  }

  // ---------------------------------------------------------------- rows that are not listed

  /** Why the catalogue matters, in one step: the SELECT joins with it and the DELETE does not. A row that the
      DELETE takes out of the table is kept in a file if and only if its id was in the catalogue when the
      SELECT looked. */
  lemma SurvivesIffListed(s: State, s': State, r: Row)
    requires Inv(s) && Step(s, Delete, s')
    requires r.day == s.job.hier && r in Rows(s.tables, Key(s).ty)
    ensures r !in Rows(s'.tables, Key(s).ty)
    ensures Archived(s'.files, Key(s).ty, r) > 0 <==> r.id in s.job.seen
  {
    DeleteCounts(s, Delete, s', Key(s).ty, r);
    FileHolds(s, r);
    JoinKeeps(Rows(s.tables, Key(s).ty)[r], s.job.seen[r.id]);
  }

  /** The DELETE of this step takes out a row that the SELECT before it did not see. */
  predicate TakesUnlisted(s: State, e: Event, ty: string, r: Row) {
    && e.Delete? && Active(s) && Key(s) == FileKey(ty, r.day)
    && r in Rows(s.tables, ty) && r.id !in s.job.seen
  }

  /** Every copy of the row is in its table or in the complete file; while that file is in hand, all are in
      the table. */
  predicate Held(s: State, ty: string, r: Row) {
    && Rows(s.log, ty)[r] <= Rows(s.tables, ty)[r] + Archived(s.files, ty, r)
    && (MidWrite(s) && Key(s) == FileKey(ty, r.day) ==> Rows(s.log, ty)[r] <= Rows(s.tables, ty)[r])
  }

  predicate Lost(s: State, ty: string, r: Row) {
    && r in Rows(s.log, ty) && r !in Rows(s.tables, ty) && Archived(s.files, ty, r) == 0
    && r.day < s.day
  }

  /** Before the DELETE, what the SELECT saw of the window is in the complete file. */
  lemma FileHolds(s: State, r: Row)
    requires JobShape(s) && MidWrite(s) && s.job.at.Dropped? && r.day == s.job.hier
    ensures Archived(s.files, Key(s).ty, r) == JoinCount(Rows(s.tables, Key(s).ty)[r], s.job.seen[r.id])
  {
    assert multiset(s.job.at.rs)[r] == JoinCount(Rows(s.tables, Key(s).ty)[r], s.job.seen[r.id]);
  }

  lemma HeldDelete(s: State, e: Event, s': State, ty: string, r: Row)
    requires JobShape(s) && Held(s, ty, r) && Step(s, e, s') && e.Delete? && !TakesUnlisted(s, e, ty, r)
    ensures Held(s', ty, r)
  {
    DeleteFrame(s, e, s');
    DeleteCounts(s, e, s', ty, r);
    if ty == Key(s).ty && r.day == s.job.hier {
      FileHolds(s, r);
      JoinKeeps(Rows(s.tables, ty)[r], s.job.seen[r.id]);
    }
  }

  lemma HeldFiles(s: State, e: Event, s': State, ty: string, r: Row)
    requires JobShape(s) && Held(s, ty, r) && Step(s, e, s') && TouchesFiles(e)
    ensures Held(s', ty, r)
  {
    Frame(s, e, s');
    FilesFrame(s, e, s');
    FilesArchive(s, e, s', ty, r);
  }

  lemma HeldStep(s: State, e: Event, s': State, ty: string, r: Row)
    requires JobShape(s) && Held(s, ty, r) && Step(s, e, s') && !TakesUnlisted(s, e, ty, r)
    ensures Held(s', ty, r)
  {
    if e.Delete? {
      HeldDelete(s, e, s', ty, r);
    } else if TouchesFiles(e) {
      HeldFiles(s, e, s', ty, r);
    } else if e.Insert? {
      Frame(s, e, s');
      JobFrame(s, e, s');
      InsertCounts(s, e, s', ty, r);
    } else {
      HeldQuiet(s, e, s', ty, r);
    }
  }

  /** No other step puts a file in hand. */
  lemma NotInHand(s: State, e: Event, s': State)
    requires Step(s, e, s') && !TouchesFiles(e) && MidWrite(s')
    ensures MidWrite(s) && Key(s') == Key(s)
  {
  }

  lemma HeldQuiet(s: State, e: Event, s': State, ty: string, r: Row)
    requires Held(s, ty, r) && Step(s, e, s') && !e.Delete? && !e.Insert? && !TouchesFiles(e)
    ensures Held(s', ty, r)
  {
    Frame(s, e, s');
    if MidWrite(s') {
      NotInHand(s, e, s');
    }
  }

  lemma LostFiles(s: State, e: Event, s': State, ty: string, r: Row)
    requires JobShape(s) && Lost(s, ty, r) && Step(s, e, s') && TouchesFiles(e)
    ensures Archived(s'.files, ty, r) == 0
  {
    if e.Close? && Key(s) == FileKey(ty, r.day) {
      JoinKeeps(0, s.job.seen[r.id]);
      assert multiset(s.job.at.rs)[r] == JoinCount(Rows(s.tables, ty)[r], s.job.seen[r.id]);
    }
  }

  lemma LostStep(s: State, e: Event, s': State, ty: string, r: Row)
    requires JobShape(s) && Lost(s, ty, r) && Step(s, e, s')
    ensures Lost(s', ty, r)
  {
    Frame(s, e, s');
    if e.Insert? {
      InsertCounts(s, e, s', ty, r);
    } else if e.Delete? {
      DeleteCounts(s, e, s', ty, r);
    } else if TouchesFiles(e) {
      LostFiles(s, e, s', ty, r);
    }
  }

  lemma TakingLoses(s: State, e: Event, s': State, ty: string, r: Row)
    requires JobShape(s) && Rows(s.tables, ty)[r] <= Rows(s.log, ty)[r]
    requires Step(s, e, s') && TakesUnlisted(s, e, ty, r)
    ensures Lost(s', ty, r)
  {
    DeleteFrame(s, e, s');
    DeleteCounts(s, e, s', ty, r);
    FileHolds(s, r);
    JoinKeeps(Rows(s.tables, ty)[r], s.job.seen[r.id]);
  }

  predicate NeverTaken(ss: seq<State>, es: seq<Event>, ty: string, r: Row)
    requires |ss| == |es| + 1
  {
    forall i | 0 <= i < |es| :: !TakesUnlisted(ss[i], es[i], ty, r)
  }

  lemma NeverTakenSnoc(ss: seq<State>, es: seq<Event>, n: nat, ty: string, r: Row)
    requires |ss| == |es| + 1 == n + 2
    ensures NeverTaken(ss, es, ty, r) <==>
            NeverTaken(ss[..n + 1], es[..n], ty, r) && !TakesUnlisted(ss[n], es[n], ty, r)
  {
    if NeverTaken(ss, es, ty, r) {
      forall i | 0 <= i < n ensures !TakesUnlisted(ss[..n + 1][i], es[..n][i], ty, r) {
        assert !TakesUnlisted(ss[i], es[i], ty, r);
      }
    } else {
      var i :| 0 <= i < |es| && TakesUnlisted(ss[i], es[i], ty, r);
      assert i < n ==> TakesUnlisted(ss[..n + 1][i], es[..n][i], ty, r);
    }
  }

  /** What becomes of a row: it is held as long as no DELETE has taken it out unlisted, and lost from then
      on. */
  ghost predicate Fate(s: State, ty: string, r: Row, never: bool) {
    && Inv(s) && Rows(s.tables, ty)[r] <= Rows(s.log, ty)[r]
    && if never then Held(s, ty, r) else Lost(s, ty, r)
  }

  lemma FateStep(s: State, e: Event, s': State, ty: string, r: Row, never: bool)
    requires Fate(s, ty, r, never) && Step(s, e, s')
    ensures Fate(s', ty, r, never && !TakesUnlisted(s, e, ty, r))
  {
    StepInv(s, e, s');
    CoveredStep(s, e, s', ty, r);
    if TakesUnlisted(s, e, ty, r) {
      TakingLoses(s, e, s', ty, r);
    } else if never {
      HeldStep(s, e, s', ty, r);
    } else {
      LostStep(s, e, s', ty, r);
    }
  }

  lemma {:induction false} FateRun(ss: seq<State>, es: seq<Event>, ty: string, r: Row)
    requires IsRun(ss, es) && Init(ss[0])
    ensures Fate(ss[|es|], ty, r, NeverTaken(ss, es, ty, r))
    decreases |es|
  {
    if es == [] {
      InitInv(ss[0]);
    } else {
      var n := |es| - 1;
      assert IsRun(ss[..n + 1], es[..n]);
      FateRun(ss[..n + 1], es[..n], ty, r);
      assert Step(ss[n], es[n], ss[n + 1]);
      FateStep(ss[n], es[n], ss[n + 1], ty, r, NeverTaken(ss[..n + 1], es[..n], ty, r));
      NeverTakenSnoc(ss, es, n, ty, r);
    }
  }

  /** Tables hold nothing that was not inserted. */
  lemma CoveredStep(s: State, e: Event, s': State, ty: string, r: Row)
    requires Step(s, e, s') && Rows(s.tables, ty)[r] <= Rows(s.log, ty)[r]
    ensures Rows(s'.tables, ty)[r] <= Rows(s'.log, ty)[r]
  {
    if e.Insert? {
      InsertCounts(s, e, s', ty, r);
    } else if e.Delete? {
      DeleteFrame(s, e, s');
      DeleteCounts(s, e, s', ty, r);
    } else {
      Frame(s, e, s');
    }
  }

  /** Exactly which rows survive, over every run: every copy of a row that was ever inserted is still in its
      table or in the complete file of its table and day if and only if no DELETE took the row out after a
      SELECT that did not see its id. */
  lemma HeldIffNeverTakenUnlisted(ss: seq<State>, es: seq<Event>, ty: string, r: Row)
    requires IsRun(ss, es) && Init(ss[0])
    ensures var s := ss[|es|];
            Rows(s.log, ty)[r] <= Rows(s.tables, ty)[r] + Archived(s.files, ty, r) <==>
            forall i | 0 <= i < |es| :: !TakesUnlisted(ss[i], es[i], ty, r)
  {
    FateRun(ss, es, ty, r);
  }

  // ---------------------------------------------------------------- a file in the way

  /** No file is incomplete, except the one in hand. */
  predicate FilesClosed(s: State) {
    forall k | k in s.files :: s.files[k].closed || (MidWrite(s) && k == Key(s))
  }

  /** Exactly which interruptions leave a half-written file behind: those that come while rows are being
      written. */
  lemma InterruptionLeavesPartIff(s: State, e: Event, s': State)
    requires JobShape(s) && FilesClosed(s) && Step(s, e, s') && (e.Throw? || e.Die?)
    ensures FilesClosed(s') <==> !(Active(s) && s.job.at.Writing?)
  {
    assert !MidWrite(s') && s'.files == s.files;
    if Active(s) && s.job.at.Writing? {
      assert Key(s) in s'.files && !s'.files[Key(s)].closed;
    }
  }

  /** A file that is not in hand, and what table `k.ty` holds of its day. */
  ghost predicate InTheWay(s: State, k: FileKey, f: CsvFile, t: multiset<Row>) {
    && k in s.files && s.files[k] == f
    && k.day < s.day
    && SameWindow(t, Rows(s.tables, k.ty), k.day)
    && !(MidWrite(s) && Key(s) == k)
  }

  lemma InTheWayStep(s: State, e: Event, s': State, k: FileKey, f: CsvFile, t: multiset<Row>)
    requires InTheWay(s, k, f, t) && Step(s, e, s')
    ensures InTheWay(s', k, f, t)
  {
    if e.Insert? {
      InsertLeavesWindow(s, e, s', k.ty, k.day);
    } else if e.Delete? && Key(s).ty == k.ty {
      assert s.job.hier != k.day;
    }
  }

  /** Once a file is there and not in hand, it is never completed, replaced or removed, and the rows its
      table holds of that day are never deleted: those behind a half-written file stay unarchived, those
      that are also in a complete file stay duplicated, in every later state. */
  lemma {:induction false} FileInTheWayStays(ss: seq<State>, es: seq<Event>, k: FileKey, f: CsvFile, t: multiset<Row>)
    requires IsRun(ss, es) && InTheWay(ss[0], k, f, t)
    ensures InTheWay(ss[|es|], k, f, t)
    decreases |es|
  {
    if es != [] {
      var n := |es| - 1;
      assert IsRun(ss[..n + 1], es[..n]);
      FileInTheWayStays(ss[..n + 1], es[..n], k, f, t);
      InTheWayStep(ss[n], es[n], ss[n + 1], k, f, t);
    }
  }

  /** An exception or death between the creation of a file and the DELETE leaves that file in the way. */
  lemma InterruptionIsInTheWay(s: State, e: Event, s': State)
    requires JobShape(s) && Step(s, e, s') && (e.Throw? || e.Die?) && MidWrite(s) && Key(s) in s.files
    ensures InTheWay(s', Key(s), s.files[Key(s)], Rows(s.tables, Key(s).ty))
  {
  }

  /** So whatever happens after such an interruption, the file stays as it was left and its window is
      neither archived nor emptied. */
  lemma InterruptionStays(ss: seq<State>, es: seq<Event>)
    requires IsRun(ss, es) && es != [] && (es[0].Throw? || es[0].Die?)
    requires JobShape(ss[0]) && MidWrite(ss[0]) && Key(ss[0]) in ss[0].files
    ensures var k := Key(ss[0]);
            InTheWay(ss[|es|], k, ss[0].files[k], Rows(ss[0].tables, k.ty))
  {
    var k := Key(ss[0]);
    assert Step(ss[0], es[0], ss[1]);
    InterruptionIsInTheWay(ss[0], es[0], ss[1]);
    assert IsRun(ss[1..], es[1..]) by {
      forall i | 0 <= i < |es[1..]| ensures Step(ss[1..][i], es[1..][i], ss[1..][i + 1]) {
        assert Step(ss[i + 1], es[i + 1], ss[i + 2]);
      }
    }
    FileInTheWayStays(ss[1..], es[1..], k, ss[0].files[k], Rows(ss[0].tables, k.ty));
  }
}
