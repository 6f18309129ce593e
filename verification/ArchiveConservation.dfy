/**
 Exactly-once archiving: when tables and files together hold everything exactly once, and which
 interruptions break that.
 */
module ArchiveConservation {
  import opened Archive
  import opened ArchiveSafety

  /** The id is listed once in every catalogue that table `ty` is joined with. */
  ghost predicate ListedOnce(sites: seq<Site>, cats: Catalogues, ty: string, id: int) {
    forall site | site in sites && site.ty == ty :: Listed(cats, site)[id] == 1
  }

  /** A complete, non-empty file is there and its rows are not deleted yet. */
  predicate Exposed(s: State) {
    Active(s) && (s.job.at.Closed? || s.job.at.Dropped?) && s.job.at.rs != []
  }

  /** An exception or death comes between the completion of a non-empty file and the DELETE. */
  predicate Breaks(s: State, e: Event) {
    (e.Throw? || e.Die?) && Exposed(s)
  }

  /** Inserted ids are listed once, and only new ids are added to a catalogue. */
  ghost predicate Orderly(s: State, e: Event) {
    && (e.Insert? ==> ListedOnce(s.sites, s.cats, e.ty, e.id))
    && (e.Enrol? ==> e.id !in Entries(s.cats, e.cat))
  }

  ghost predicate Calm(s: State, e: Event) {
    Orderly(s, e) && !Breaks(s, e)
  }

  /** The rows of one table and day are all in the complete file, or all in the table. */
  predicate Settled(s: State, ty: string, r: Row) {
    var k, logged, there := FileKey(ty, r.day), Rows(s.log, ty)[r], Rows(s.tables, ty)[r];
    if k in s.files && s.files[k].closed && !(MidWrite(s) && k == Key(s)) then
      multiset(s.files[k].rows)[r] == logged && there == 0
    else
      there == logged
  }

  ghost predicate AllSettled(s: State) {
    forall ty, r: Row :: Settled(s, ty, r)
  }

  ghost predicate AllListed(s: State) {
    forall ty, r: Row | r in Rows(s.log, ty) :: ListedOnce(s.sites, s.cats, ty, r.id)
  }

  /** The SELECT in hand saw every id of its window once. */
  ghost predicate SeenOnce(s: State) {
    Active(s) && !s.job.at.Start? ==>
      forall r: Row | r in Rows(s.log, Key(s).ty) && r.day == s.job.hier :: s.job.seen[r.id] == 1
  }

  ghost predicate FiledBefore(files: map<FileKey, CsvFile>, day: int) {
    forall k | k in files :: WellFiled(k, files[k]) && k.day < day
  }

  ghost predicate CalmInv(s: State) {
    FiledBefore(s.files, s.day) && JobShape(s) && AllListed(s) && SeenOnce(s) && AllSettled(s)
  }

  /** With ids listed once, the file holds each row of the window as often as the table does. */
  lemma SelectionIsWindow(s: State, r: Row)
    requires CalmInv(s) && MidWrite(s) && r.day == s.job.hier
    ensures multiset(s.job.at.rs)[r] == Rows(s.tables, Key(s).ty)[r] == Rows(s.log, Key(s).ty)[r]
  {
    var ty := Key(s).ty;
    assert Settled(s, ty, r);
    if r in Rows(s.log, ty) {
      assert s.job.seen[r.id] == 1;
    } else {
      JoinKeeps(0, s.job.seen[r.id]);
    }
  }

  // ---------------------------------------------------------------- each part of the invariant, step by step

  lemma SettledQuiet(s: State, e: Event, s': State, ty: string, r: Row)
    requires Settled(s, ty, r) && Step(s, e, s')
    requires e.Tick? || e.Enrol? || e.Begin? || e.Query? || e.Skip? || e.Finish?
    ensures Settled(s', ty, r)
  {
  }

  lemma SettledInterrupt(s: State, e: Event, s': State, ty: string, r: Row)
    requires CalmInv(s) && Calm(s, e) && Step(s, e, s') && (e.Throw? || e.Die?)
    ensures Settled(s', ty, r)
  {
    assert Settled(s, ty, r);
    if MidWrite(s) && FileKey(ty, r.day) == Key(s) {
      SelectionIsWindow(s, r);
      assert !MidWrite(s');
    }
  }

  lemma SettledInHand(s: State, s': State, ty: string, r: Row)
    requires Settled(s, ty, r) && s'.tables == s.tables && s'.log == s.log
    requires Active(s) && MidWrite(s') && Key(s') == Key(s) && (MidWrite(s) || Key(s) !in s.files)
    requires s'.files - {Key(s)} == s.files - {Key(s)}
    ensures Settled(s', ty, r)
  {
    var k := FileKey(ty, r.day);
    if k != Key(s) {
      assert k in s'.files <==> k in s'.files - {Key(s)};
      assert k in s.files <==> k in s.files - {Key(s)};
      assert k in s.files ==> s'.files[k] == (s'.files - {Key(s)})[k] == s.files[k];
    }
  }

  lemma SettledFile(s: State, e: Event, s': State, ty: string, r: Row)
    requires Settled(s, ty, r) && Step(s, e, s') && TouchesFiles(e)
    ensures Settled(s', ty, r)
  {
    FilesFrame(s, e, s');
    Frame(s, e, s');
    SettledInHand(s, s', ty, r);
  }

  lemma SettledInsert(s: State, e: Event, s': State, ty: string, r: Row)
    requires Settled(s, ty, r) && FiledBefore(s.files, s.day) && JobShape(s) && Step(s, e, s') && e.Insert?
    ensures Settled(s', ty, r)
  {
    InsertCounts(s, e, s', ty, r);
    JobFrame(s, e, s');
  }

  lemma SettledDelete(s: State, e: Event, s': State, ty: string, r: Row)
    requires CalmInv(s) && Step(s, e, s') && e.Delete?
    ensures Settled(s', ty, r)
  {
    DeleteFrame(s, e, s');
    DeleteCounts(s, e, s', ty, r);
    SettledAfter(s, s', ty, r);
  }

  lemma SettledAfter(s: State, s': State, ty: string, r: Row)
    requires CalmInv(s) && MidWrite(s) && s.job.at.Dropped? && !MidWrite(s')
    requires s'.files == s.files && s'.log == s.log
    requires Rows(s'.tables, ty)[r] == if ty == Key(s).ty && r.day == s.job.hier then 0 else Rows(s.tables, ty)[r]
    ensures Settled(s', ty, r)
  {
    assert Settled(s, ty, r);
    if ty == Key(s).ty && r.day == s.job.hier {
      SelectionIsWindow(s, r);
    }
  }

  lemma SettledStep(s: State, e: Event, s': State, ty: string, r: Row)
    requires CalmInv(s) && Calm(s, e) && Step(s, e, s')
    ensures Settled(s', ty, r)
  {
    assert Settled(s, ty, r);
    if TouchesFiles(e) {
      SettledFile(s, e, s', ty, r);
    } else {
      match e
      case Insert(_, _, _) => SettledInsert(s, e, s', ty, r);
      case Delete => SettledDelete(s, e, s', ty, r);
      case Throw => SettledInterrupt(s, e, s', ty, r);
      case Die => SettledInterrupt(s, e, s', ty, r);
      case _ => SettledQuiet(s, e, s', ty, r);
    }
  }

  lemma ListedOnceStays(s: State, e: Event, s': State, ty: string, id: int)
    requires Step(s, e, s') && Calm(s, e) && ListedOnce(s.sites, s.cats, ty, id)
    ensures ListedOnce(s'.sites, s'.cats, ty, id)
  {
    Frame(s, e, s');
    forall site | site in s'.sites && site.ty == ty ensures Listed(s'.cats, site)[id] == 1 {
      assert Listed(s.cats, site)[id] == 1;
    }
  }

  lemma ListedStep(s: State, e: Event, s': State)
    requires AllListed(s) && Calm(s, e) && Step(s, e, s')
    ensures AllListed(s')
  {
    Frame(s, e, s');
    forall ty, r: Row | r in Rows(s'.log, ty) ensures ListedOnce(s'.sites, s'.cats, ty, r.id) {
      if e.Insert? {
        InsertCounts(s, e, s', ty, r);
      }
      ListedOnceStays(s, e, s', ty, r.id);
    }
  }

  lemma SeenOnceQuery(s: State, e: Event, s': State)
    requires AllListed(s) && JobShape(s) && Step(s, e, s') && e.Query?
    ensures SeenOnce(s')
  {
    var site := s.job.todo[0];
    forall r: Row | r in Rows(s'.log, site.ty) && r.day == s'.job.hier ensures s'.job.seen[r.id] == 1 {
      assert ListedOnce(s.sites, s.cats, site.ty, r.id) && site in s.sites;
    }
  }

  lemma SeenOnceInsert(s: State, e: Event, s': State)
    requires JobShape(s) && SeenOnce(s) && Step(s, e, s') && e.Insert?
    ensures SeenOnce(s')
  {
    JobFrame(s, e, s');
    if Active(s) && !s.job.at.Start? {
      forall r: Row | r in Rows(s'.log, Key(s).ty) && r.day == s.job.hier ensures s.job.seen[r.id] == 1 {
        InsertCounts(s, e, s', Key(s).ty, r);
      }
    }
  }

  lemma SeenOnceStep(s: State, e: Event, s': State)
    requires AllListed(s) && JobShape(s) && SeenOnce(s) && Step(s, e, s')
    ensures SeenOnce(s')
  {
    if e.Query? {
      SeenOnceQuery(s, e, s');
    } else if e.Insert? {
      SeenOnceInsert(s, e, s');
    } else if TouchesFiles(e) {
      FilesFrame(s, e, s');
      Frame(s, e, s');
    } else if e.Skip? || e.Throw? || e.Delete? {
      ShapeNext(s, e, s');
    } else {
      Frame(s, e, s');
    }
  }

  lemma FiledStep(s: State, e: Event, s': State)
    requires FiledBefore(s.files, s.day) && JobShape(s) && Step(s, e, s')
    ensures FiledBefore(s'.files, s'.day)
  {
    OrderStep(s, e, s');
    Frame(s, e, s');
    forall k | k in s'.files ensures k.day < s'.day {
      if k !in s.files {
        NewFileIsInHand(s, e, s', k);
      }
    }
  }

  lemma NewFileIsInHand(s: State, e: Event, s': State, k: FileKey)
    requires JobShape(s) && Step(s, e, s') && k in s'.files && k !in s.files
    ensures Active(s) && k == Key(s)
  {
    if !TouchesFiles(e) {
      Frame(s, e, s');
    }
  }

  lemma CalmStep(s: State, e: Event, s': State)
    requires CalmInv(s) && Calm(s, e) && Step(s, e, s')
    ensures CalmInv(s')
  {
    forall ty, r: Row ensures Settled(s', ty, r) {
      SettledStep(s, e, s', ty, r);
    }
    ListedStep(s, e, s');
    SeenOnceStep(s, e, s');
    FiledStep(s, e, s');
    ShapeStep(s, e, s');
  }

  // ---------------------------------------------------------------- calm runs

  ghost predicate CalmRun(ss: seq<State>, es: seq<Event>) {
    IsRun(ss, es) && forall i | 0 <= i < |es| :: Calm(ss[i], es[i])
  }

  /** A first day: no file yet, nothing running, listed ids, tables and history alike. */
  ghost predicate FreshStart(s: State) {
    Init(s) && s.files == map[] && AllListed(s)
  }

  lemma FreshSettled(s: State)
    requires FreshStart(s)
    ensures CalmInv(s)
  {
  }

  lemma {:induction false} CalmRunInv(ss: seq<State>, es: seq<Event>)
    requires CalmRun(ss, es) && CalmInv(ss[0])
    ensures CalmInv(ss[|es|])
    decreases |es|
  {
    if es != [] {
      var n := |es| - 1;
      assert CalmRun(ss[..n + 1], es[..n]);
      CalmRunInv(ss[..n + 1], es[..n]);
      CalmStep(ss[n], es[n], ss[n + 1]);
    }
  }

  /** Tables and complete files together hold everything ever inserted, every copy exactly once. */
  ghost predicate Conserved(s: State) {
    forall ty, r: Row :: Rows(s.log, ty)[r] == Rows(s.tables, ty)[r] + Archived(s.files, ty, r)
  }

  lemma SettledConserves(s: State)
    requires AllSettled(s) && !MidWrite(s)
    ensures Conserved(s)
  {
    forall ty, r: Row
      ensures Rows(s.log, ty)[r] == Rows(s.tables, ty)[r] + Archived(s.files, ty, r)
    {
      assert Settled(s, ty, r);
    }
  }

  /** Conservation over every calm run, at all times when no file is in hand; and a complete file holds
      exactly the rows of its table and day, in order, none of them left in the table. */
  lemma Conservation(ss: seq<State>, es: seq<Event>, k: FileKey, r: Row)
    requires CalmRun(ss, es) && FreshStart(ss[0]) && !MidWrite(ss[|es|])
    ensures Conserved(ss[|es|])
    ensures var s := ss[|es|];
            k in s.files && s.files[k].closed ==>
              && Sorted(s.files[k].rows)
              && multiset(s.files[k].rows)[r] == (if r.day == k.day then Rows(s.log, k.ty)[r] else 0)
              && (r.day == k.day ==> r !in Rows(s.tables, k.ty))
  {
    FreshSettled(ss[0]);
    CalmRunInv(ss, es);
    var s := ss[|es|];
    SettledConserves(s);
    if k in s.files && s.files[k].closed {
      assert WellFiled(k, s.files[k]);
      assert Settled(s, k.ty, r);
    }
  }

  /** Exactly which interruption breaks conservation: one that comes after a non-empty file was
      completed and before its rows were deleted. They are then in both places. */
  lemma InterruptionBreaksIff(s: State, e: Event, s': State)
    requires CalmInv(s) && Step(s, e, s') && (e.Throw? || e.Die?)
    ensures Conserved(s') <==> !Exposed(s)
  {
    if Exposed(s) {
      var r := s.job.at.rs[0];
      assert multiset(s.job.at.rs)[r] > 0;
      assert r.day == s.job.hier;
      SelectionIsWindow(s, r);
      assert Archived(s'.files, Key(s).ty, r) == multiset(s.job.at.rs)[r];
      assert Rows(s'.log, Key(s).ty)[r] < Rows(s'.tables, Key(s).ty)[r] + Archived(s'.files, Key(s).ty, r);
    } else {
      CalmStep(s, e, s');
      SettledConserves(s');
    }
  }

  // ---------------------------------------------------------------- exactly when, over whole runs

  /** The history of days gone by does not change. */
  lemma {:induction false} OldLogStays(ss: seq<State>, es: seq<Event>, ty: string, r: Row)
    requires IsRun(ss, es) && r.day < ss[0].day
    ensures Rows(ss[|es|].log, ty)[r] == Rows(ss[0].log, ty)[r] && ss[0].day <= ss[|es|].day
    decreases |es|
  {
    if es != [] {
      var n := |es| - 1;
      assert IsRun(ss[..n + 1], es[..n]);
      OldLogStays(ss[..n + 1], es[..n], ty, r);
      assert Step(ss[n], es[n], ss[n + 1]);
      Frame(ss[n], es[n], ss[n + 1]);
      if es[n].Insert? {
        InsertCounts(ss[n], es[n], ss[n + 1], ty, r);
      }
    }
  }

  /** The rows of an exposed file are in the table, the file and the history alike. */
  lemma ExposedRow(s: State) returns (r: Row)
    requires CalmInv(s) && Exposed(s)
    ensures r.day == s.job.hier < s.day && Key(s) in s.files && s.files[Key(s)] == CsvFile(s.job.at.rs, true)
    ensures 0 < multiset(s.job.at.rs)[r] == Rows(s.tables, Key(s).ty)[r] == Rows(s.log, Key(s).ty)[r]
  {
    r := s.job.at.rs[0];
    assert multiset(s.job.at.rs)[r] > 0;
    SelectionIsWindow(s, r);
  }

  /** Whatever happens after such an interruption, its rows stay in both places. */
  lemma BreakLasts(ss: seq<State>, es: seq<Event>)
    requires IsRun(ss, es) && es != [] && CalmInv(ss[0]) && Breaks(ss[0], es[0])
    ensures !Conserved(ss[|es|])
  {
    var s, s', k := ss[0], ss[|es|], Key(ss[0]);
    var r := ExposedRow(s);
    InterruptionStays(ss, es);
    OldLogStays(ss, es, k.ty, r);
    assert Rows(s'.tables, k.ty)[r] == Rows(s.tables, k.ty)[r];
    assert Archived(s'.files, k.ty, r) == multiset(s.job.at.rs)[r];
    assert Rows(s'.log, k.ty)[r] < Rows(s'.tables, k.ty)[r] + Archived(s'.files, k.ty, r);
  }

  lemma {:induction false} FirstBreak(ss: seq<State>, es: seq<Event>, i: nat) returns (j: nat)
    requires |ss| == |es| + 1 && i < |es| && Breaks(ss[i], es[i])
    ensures j <= i && Breaks(ss[j], es[j]) && forall k | 0 <= k < j :: !Breaks(ss[k], es[k])
    decreases i
  {
    if k :| 0 <= k < i && Breaks(ss[k], es[k]) {
      j := FirstBreak(ss, es, k);
    } else {
      j := i;
    }
  }

  lemma RunSuffix(ss: seq<State>, es: seq<Event>, j: nat)
    requires IsRun(ss, es) && j <= |es|
    ensures IsRun(ss[j..], es[j..])
  {
    forall i | 0 <= i < |es[j..]| ensures Step(ss[j..][i], es[j..][i], ss[j..][i + 1]) {
      assert Step(ss[j + i], es[j + i], ss[j + i + 1]);
    }
  }

  /** Exactly which runs conserve: from a first day on, with ids always listed once, whenever no file is in
      hand tables and complete files hold everything exactly once if and only if no exception or death has
      ever come between the completion of a non-empty file and the DELETE. */
  lemma ConservedIffNeverBroken(ss: seq<State>, es: seq<Event>)
    requires IsRun(ss, es) && FreshStart(ss[0]) && !MidWrite(ss[|es|])
    requires forall i | 0 <= i < |es| :: Orderly(ss[i], es[i])
    ensures Conserved(ss[|es|]) <==> forall i | 0 <= i < |es| :: !Breaks(ss[i], es[i])
  {
    if i :| 0 <= i < |es| && Breaks(ss[i], es[i]) {
      BrokenForGood(ss, es, i);
    } else {
      assert CalmRun(ss, es);
      FreshSettled(ss[0]);
      CalmRunInv(ss, es);
      SettledConserves(ss[|es|]);
    }
  }

  lemma BrokenForGood(ss: seq<State>, es: seq<Event>, i: nat)
    requires IsRun(ss, es) && FreshStart(ss[0]) && forall i | 0 <= i < |es| :: Orderly(ss[i], es[i])
    requires i < |es| && Breaks(ss[i], es[i])
    ensures !Conserved(ss[|es|])
  {
    var j := FirstBreak(ss, es, i);
    CalmSoFar(ss, es, j);
    BreakLastsFrom(ss, es, j);
  }

  lemma CalmSoFar(ss: seq<State>, es: seq<Event>, j: nat)
    requires IsRun(ss, es) && FreshStart(ss[0]) && forall i | 0 <= i < |es| :: Orderly(ss[i], es[i])
    requires j <= |es| && forall i | 0 <= i < j :: !Breaks(ss[i], es[i])
    ensures CalmInv(ss[j])
  {
    FreshSettled(ss[0]);
    assert CalmRun(ss[..j + 1], es[..j]);
    CalmRunInv(ss[..j + 1], es[..j]);
  }

  lemma BreakLastsFrom(ss: seq<State>, es: seq<Event>, j: nat)
    requires IsRun(ss, es) && j < |es| && CalmInv(ss[j]) && Breaks(ss[j], es[j])
    ensures !Conserved(ss[|es|])
  {
    RunSuffix(ss, es, j);
    BreakLasts(ss[j..], es[j..]);
  }

  // ---------------------------------------------------------------- the sweep

  /** No table of a site holds anything dated before the day swept to. */
  ghost predicate Swept(s: State) {
    forall site, r: Row | site in s.sites && r in Rows(s.tables, site.ty) :: r.day >= s.swept
  }

  ghost predicate WindowEmpty(t: multiset<Row>, hier: int) {
    forall r: Row | r in t :: r.day != hier
  }

  /** The number of sites the run in hand has done. */
  function Done(s: State): int
    requires s.job.Running?
  {
    |s.sites| - |s.job.todo|
  }

  /** The sites still to do are the last ones of the list. */
  predicate InSiteOrder(s: State) {
    s.job.Running? ==> |s.job.todo| <= |s.sites| && s.job.todo == s.sites[Done(s)..]
  }

  /** The sites already done hold nothing of the window. */
  ghost predicate DoneEmpty(s: State) {
    s.job.Running? ==>
      forall i | 0 <= i < Done(s) && i < |s.sites| :: WindowEmpty(Rows(s.tables, s.sites[i].ty), s.job.hier)
  }

  ghost predicate SweepInv(s: State) {
    Swept(s) && s.swept <= s.day && FilesClosed(s) && InSiteOrder(s) && DoneEmpty(s)
  }

  /** Nothing is thrown, and the process dies only while no file is in hand. */
  predicate Smooth(s: State, e: Event) {
    !e.Throw? && (e.Die? ==> !MidWrite(s))
  }

  lemma InSiteOrderNext(s: State, e: Event, s': State)
    requires InSiteOrder(s) && Step(s, e, s') && (e.Skip? || e.Delete?)
    ensures InSiteOrder(s') && s'.job.Running? && Done(s') == Done(s) + 1 && s'.job.hier == s.job.hier
    ensures 0 <= Done(s) < |s.sites| && s.sites[Done(s)] == s.job.todo[0]
    ensures s'.sites == s.sites && s'.swept == s.swept && s'.day == s.day
  {
    var n := Done(s);
    assert s.job.todo[1..] == s.sites[n + 1..];
  }

  lemma InSiteOrderStep(s: State, e: Event, s': State)
    requires InSiteOrder(s) && JobShape(s) && Step(s, e, s') && !e.Throw?
    ensures InSiteOrder(s')
  {
    if e.Skip? || e.Delete? {
      InSiteOrderNext(s, e, s');
    } else if s'.job.Running? && !e.Begin? {
      Frame(s, e, s');
      SameJob(s, e, s');
    }
  }

  lemma SameTodo(s: State, e: Event, s': State)
    requires JobShape(s) && Step(s, e, s') && TouchesFiles(e)
    ensures s'.job.Running? && s.job.Running? && s'.job.todo == s.job.todo && s'.job.hier == s.job.hier
    ensures s'.sites == s.sites && s'.swept == s.swept && s'.tables == s.tables
  {
  }

  /** What is in a table after a step was there before, or was inserted today. */
  lemma RowsAfter(s: State, e: Event, s': State, ty: string, r: Row)
    requires Step(s, e, s') && r in Rows(s'.tables, ty)
    ensures r in Rows(s.tables, ty) || r.day == s.day
  {
    if e.Insert? {
      InsertCounts(s, e, s', ty, r);
    } else if e.Delete? {
      Shrinks(s, e, s', ty, r);
    } else {
      Frame(s, e, s');
    }
  }

  lemma SweptStays(s: State, e: Event, s': State)
    requires Step(s, e, s') && !e.Finish?
    ensures s'.swept == s.swept
  {
  }

  lemma SweptStep(s: State, e: Event, s': State)
    requires Swept(s) && s.swept <= s.day && Step(s, e, s') && !e.Finish?
    ensures Swept(s') && s'.swept <= s'.day
  {
    Frame(s, e, s');
    SweptStays(s, e, s');
    forall site, r: Row | site in s'.sites && r in Rows(s'.tables, site.ty) ensures r.day >= s'.swept {
      RowsAfter(s, e, s', site.ty, r);
    }
  }

  lemma WindowStaysEmpty(s: State, e: Event, s': State, ty: string, hier: int)
    requires WindowEmpty(Rows(s.tables, ty), hier) && hier < s.day && Step(s, e, s')
    ensures WindowEmpty(Rows(s'.tables, ty), hier)
  {
    forall r: Row | r in Rows(s'.tables, ty) ensures r.day != hier {
      RowsAfter(s, e, s', ty, r);
    }
  }

  /** Skipping a site is safe for the sweep: a file that is there has emptied the window. */
  lemma WindowEmptied(s: State, e: Event, s': State)
    requires AllSettled(s) && FilesClosed(s) && Step(s, e, s') && (e.Skip? || e.Delete?)
    ensures WindowEmpty(Rows(s'.tables, Key(s).ty), s.job.hier)
  {
    forall r: Row | r in Rows(s'.tables, Key(s).ty) ensures r.day != s.job.hier {
      if e.Delete? {
        Shrinks(s, e, s', Key(s).ty, r);
      } else {
        Frame(s, e, s');
        assert Settled(s, Key(s).ty, r);
      }
    }
  }

  lemma DoneEmptyNext(s: State, e: Event, s': State)
    requires CalmInv(s) && SweepInv(s) && Step(s, e, s') && (e.Skip? || e.Delete?)
    ensures DoneEmpty(s')
  {
    InSiteOrderNext(s, e, s');
    forall i | 0 <= i < Done(s')
      ensures WindowEmpty(Rows(s'.tables, s'.sites[i].ty), s'.job.hier)
    {
      if i == Done(s) {
        WindowEmptied(s, e, s');
      } else {
        assert WindowEmpty(Rows(s.tables, s.sites[i].ty), s.job.hier);
        WindowStaysEmpty(s, e, s', s.sites[i].ty, s.job.hier);
      }
    }
  }

  lemma DoneEmptySame(s: State, e: Event, s': State)
    requires JobShape(s) && DoneEmpty(s) && Step(s, e, s')
    requires s.job.Running? && s'.job.Running? && s'.job.todo == s.job.todo && s'.job.hier == s.job.hier
    ensures DoneEmpty(s')
  {
    Frame(s, e, s');
    forall i | 0 <= i < Done(s') && i < |s'.sites|
      ensures WindowEmpty(Rows(s'.tables, s'.sites[i].ty), s'.job.hier)
    {
      assert WindowEmpty(Rows(s.tables, s.sites[i].ty), s.job.hier);
      WindowStaysEmpty(s, e, s', s.sites[i].ty, s.job.hier);
    }
  }

  /** Unless it begins or moves to the next site, a run that goes on has the same sites to do. */
  lemma SameJob(s: State, e: Event, s': State)
    requires JobShape(s) && Step(s, e, s') && s'.job.Running?
    requires !e.Begin? && !e.Skip? && !e.Delete? && !e.Throw?
    ensures s.job.Running? && s'.job.todo == s.job.todo && s'.job.hier == s.job.hier
  {
    if TouchesFiles(e) {
      SameTodo(s, e, s');
    }
  }

  lemma DoneEmptyStep(s: State, e: Event, s': State)
    requires CalmInv(s) && SweepInv(s) && Step(s, e, s') && Smooth(s, e)
    ensures DoneEmpty(s')
  {
    if e.Skip? || e.Delete? {
      DoneEmptyNext(s, e, s');
    } else if s'.job.Running? && !e.Begin? {
      SameJob(s, e, s');
      DoneEmptySame(s, e, s');
    }
  }

  lemma ClosedFiles(s: State, e: Event, s': State)
    requires JobShape(s) && FilesClosed(s) && Step(s, e, s') && TouchesFiles(e)
    ensures FilesClosed(s')
  {
    FilesFrame(s, e, s');
    forall k | k in s'.files && k != Key(s) ensures s'.files[k].closed {
      assert k in s'.files - {Key(s)} && k in s.files - {Key(s)};
      assert s'.files[k] == (s'.files - {Key(s)})[k] == s.files[k];
    }
  }

  lemma ClosedStep(s: State, e: Event, s': State)
    requires JobShape(s) && FilesClosed(s) && Step(s, e, s') && Smooth(s, e)
    ensures FilesClosed(s')
  {
    if TouchesFiles(e) {
      ClosedFiles(s, e, s');
    } else {
      Frame(s, e, s');
    }
  }

  lemma SweepFinish(s: State, e: Event, s': State)
    requires JobShape(s) && SweepInv(s) && Step(s, e, s') && e.Finish?
    ensures Swept(s') && s'.swept <= s'.day
    ensures s.job.Running? && (s.job.hier <= s.swept ==> s.job.hier < s'.swept)
  {
    forall site, r: Row | site in s'.sites && r in Rows(s'.tables, site.ty) ensures r.day >= s'.swept {
      assert r.day >= s.swept;
      var i :| 0 <= i < |s.sites| && s.sites[i] == site;
      assert WindowEmpty(Rows(s.tables, s.sites[i].ty), s.job.hier);
    }
  }

  lemma SweepStep(s: State, e: Event, s': State)
    requires CalmInv(s) && SweepInv(s) && Step(s, e, s') && Smooth(s, e)
    ensures SweepInv(s')
  {
    if e.Finish? {
      SweepFinish(s, e, s');
    } else {
      SweptStep(s, e, s');
    }
    InSiteOrderStep(s, e, s');
    DoneEmptyStep(s, e, s');
    ClosedStep(s, e, s');
  }

  lemma {:induction false} SweepRunInv(ss: seq<State>, es: seq<Event>)
    requires CalmRun(ss, es) && CalmInv(ss[0]) && SweepInv(ss[0])
    requires forall i | 0 <= i < |es| :: Smooth(ss[i], es[i])
    ensures SweepInv(ss[|es|])
    decreases |es|
  {
    if es != [] {
      var n := |es| - 1;
      assert CalmRun(ss[..n + 1], es[..n]);
      CalmRunInv(ss[..n + 1], es[..n]);
      SweepRunInv(ss[..n + 1], es[..n]);
      SweepStep(ss[n], es[n], ss[n + 1]);
    }
  }

  /** No day goes by without a finished run: a run begins only when everything before its window
      has been swept. */
  ghost predicate OnSchedule(ss: seq<State>, es: seq<Event>)
    requires |ss| == |es| + 1
  {
    forall i | 0 <= i < |es| && es[i].Begin? :: ss[i].day - 1 <= ss[i].swept
  }

  lemma ScheduleStep(s: State, e: Event, s': State)
    requires Step(s, e, s') && (e.Begin? ==> s.day - 1 <= s.swept)
    requires s.job.Running? ==> s.job.hier <= s.swept
    ensures s'.job.Running? ==> s'.job.hier <= s'.swept
  {
  }

  lemma {:induction false} ScheduleInv(ss: seq<State>, es: seq<Event>)
    requires IsRun(ss, es) && OnSchedule(ss, es) && ss[0].job.Idle?
    ensures ss[|es|].job.Running? ==> ss[|es|].job.hier <= ss[|es|].swept
    decreases |es|
  {
    if es != [] {
      var n := |es| - 1;
      assert IsRun(ss[..n + 1], es[..n]) && OnSchedule(ss[..n + 1], es[..n]);
      ScheduleInv(ss[..n + 1], es[..n]);
      ScheduleStep(ss[n], es[n], ss[n + 1]);
    }
  }

  /** Whenever a run on schedule finishes, the tables of the sites hold only rows dated on or after
      the day on which it began. */
  lemma TablesHoldOnlyToday(ss: seq<State>, es: seq<Event>, e: Event, s': State, site: Site, r: Row)
    requires CalmRun(ss, es) && FreshStart(ss[0]) && SweepInv(ss[0]) && OnSchedule(ss, es)
    requires forall i | 0 <= i < |es| :: Smooth(ss[i], es[i])
    requires Step(ss[|es|], e, s') && e.Finish?
    requires site in s'.sites && r in Rows(s'.tables, site.ty)
    ensures ss[|es|].job.Running? && r.day >= ss[|es|].job.hier + 1
  {
    var s0, s := ss[0], ss[|es|];
    FreshSettled(s0);
    CalmRunInv(ss, es);
    SweepRunInv(ss, es);
    ScheduleInv(ss, es);
    SweepFinish(s, e, s');
  }
}
