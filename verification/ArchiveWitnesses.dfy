/**
 Runs in which the archive does less than one might hope, for every site and every row: a row that is not
 listed is deleted unarchived, and an exception before the DELETE leaves a row in two places.
 */
module ArchiveWitnesses {
  import opened Archive
  import opened ArchiveSafety
  import opened ArchiveConservation

  type Files = map<FileKey, CsvFile>

  /** One site, whose table was given one row, on the day after that row. */
  function Scene(site: Site, r: Row, cats: Catalogues, kept: Tables, files: Files, job: Job): State {
    State([site], cats, map[site.ty := multiset{r}], files, r.day + 1, 0, job, map[site.ty := multiset{r}], kept, r.day)
  }

  function Before(site: Site, r: Row, cats: Catalogues, kept: Tables): State {
    Scene(site, r, cats, kept, map[], Idle)
  }

  function During(site: Site, r: Row, cats: Catalogues, kept: Tables, files: Files, p: Point): State {
    Scene(site, r, cats, kept, files, Running(r.day, [site], p, Listed(cats, site)))
  }

  function One(site: Site, r: Row, rs: seq<Row>, closed: bool): Files {
    map[FileKey(site.ty, r.day) := CsvFile(rs, closed)]
  }

  lemma ThreeMore(a: State, es: seq<Event>, s0: State, e1: Event, s1: State, e2: Event, s2: State, e3: Event, s3: State)
    requires ReachesBy(a, es, s0) && Step(s0, e1, s1) && Step(s1, e2, s2) && Step(s2, e3, s3)
    ensures ReachesBy(a, es + [e1, e2, e3], s3)
  {
    ReachesByStep(a, es, s0, e1, s1);
    ReachesByStep(a, es + [e1], s1, e2, s2);
    ReachesByStep(a, es + [e1] + [e2], s2, e3, s3);
    assert es + [e1] + [e2] + [e3] == es + [e1, e2, e3];
  }

  lemma Begins(site: Site, r: Row, cats: Catalogues, kept: Tables)
    ensures Step(Before(site, r, cats, kept), Begin,
                 Scene(site, r, cats, kept, map[], Running(r.day, [site], Start, multiset{})))
  {
  }

  lemma Queries(site: Site, r: Row, cats: Catalogues, kept: Tables, rs: seq<Row>)
    requires IsSelection(rs, multiset{r}, Listed(cats, site), r.day)
    ensures Step(Scene(site, r, cats, kept, map[], Running(r.day, [site], Start, multiset{})), Query(rs),
                 During(site, r, cats, kept, map[], Selected(rs)))
  {
  }

  lemma Creates(site: Site, r: Row, cats: Catalogues, kept: Tables, rs: seq<Row>)
    ensures Step(During(site, r, cats, kept, map[], Selected(rs)), Create,
                 During(site, r, cats, kept, One(site, r, [], false), Writing(rs, 0)))
  {
  }

  /** From the start of the run to the creation of the file. */
  lemma Created(site: Site, r: Row, cats: Catalogues, kept: Tables, rs: seq<Row>)
    requires IsSelection(rs, multiset{r}, Listed(cats, site), r.day)
    ensures ReachesBy(Before(site, r, cats, kept), [Begin, Query(rs), Create],
                      During(site, r, cats, kept, One(site, r, [], false), Writing(rs, 0)))
  {
    var a := Before(site, r, cats, kept);
    Begins(site, r, cats, kept);
    Queries(site, r, cats, kept, rs);
    Creates(site, r, cats, kept, rs);
    ReachesSelf(a);
    ThreeMore(a, [], a,
              Begin, Scene(site, r, cats, kept, map[], Running(r.day, [site], Start, multiset{})),
              Query(rs), During(site, r, cats, kept, map[], Selected(rs)),
              Create, During(site, r, cats, kept, One(site, r, [], false), Writing(rs, 0)));
    assert [] + [Begin, Query(rs), Create] == [Begin, Query(rs), Create];
  }

  // ---------------------------------------------------------------- a row that is not listed

  lemma UnlistedStart(site: Site, r: Row)
    ensures Init(Before(site, r, map[], map[]))
  {
    var s := Before(site, r, map[], map[]);
    forall ty, q: Row
      ensures Rows(s.kept, ty)[q] == if Known(s.sites, s.cats, ty, q.id) then Rows(s.tables, ty)[q] else 0
    {
      if ty == site.ty {
        assert site in s.sites && Listed(s.cats, site)[q.id] == 0;
        assert !Known(s.sites, s.cats, ty, q.id);
      }
    }
  }

  lemma NothingSelected(t: multiset<Row>, hier: int)
    ensures IsSelection([], t, multiset{}, hier)
  {
    forall r: Row ensures JoinCount(t[r], multiset{}[r.id]) == 0 {
      JoinKeeps(t[r], multiset{}[r.id]);
    }
  }

  lemma ClosesEmpty(site: Site, r: Row)
    ensures Step(During(site, r, map[], map[], One(site, r, [], false), Writing([], 0)), Close,
                 During(site, r, map[], map[], One(site, r, [], true), Closed([])))
  {
  }

  lemma DropsEmpty(site: Site, r: Row)
    ensures Step(During(site, r, map[], map[], One(site, r, [], true), Closed([])), Drop(true),
                 During(site, r, map[], map[], map[], Dropped([])))
  {
    assert One(site, r, [], true) - {FileKey(site.ty, r.day)} == map[];
  }

  function Gone(site: Site, r: Row): State {
    Scene(site, r, map[], map[], map[], Running(r.day, [], Start, multiset{})).(tables := map[site.ty := multiset{}])
  }

  lemma Deletes(site: Site, r: Row)
    ensures Step(During(site, r, map[], map[], map[], Dropped([])), Delete, Gone(site, r))
  {
    assert IsRemainder(multiset{}, multiset{r}, r.day);
    assert [site][1..] == [];
    assert map[site.ty := multiset{r}][site.ty := multiset{}] == map[site.ty := multiset{}];
  }

  /** Without any exception, the run leaves the row neither in the table nor in a file. */
  lemma UnlistedRowIsLost(site: Site, r: Row)
    ensures var a, b := Before(site, r, map[], map[]), Gone(site, r);
            && Init(a) && ReachesBy(a, [Begin, Query([]), Create, Close, Drop(true), Delete], b)
            && r in Rows(b.log, site.ty)
            && r !in Rows(b.tables, site.ty) && Archived(b.files, site.ty, r) == 0
  {
    UnlistedStart(site, r);
    NothingSelected(multiset{r}, r.day);
    Created(site, r, map[], map[], []);
    ClosesEmpty(site, r);
    DropsEmpty(site, r);
    Deletes(site, r);
    ThreeMore(Before(site, r, map[], map[]), [Begin, Query([]), Create],
              During(site, r, map[], map[], One(site, r, [], false), Writing([], 0)),
              Close, During(site, r, map[], map[], One(site, r, [], true), Closed([])),
              Drop(true), During(site, r, map[], map[], map[], Dropped([])),
              Delete, Gone(site, r));
    assert [Begin, Query([]), Create] + [Close, Drop(true), Delete] ==
           [Begin, Query([]), Create, Close, Drop(true), Delete];
  }

  // ---------------------------------------------------------------- an exception before the DELETE

  function ListedIn(site: Site, r: Row): Catalogues {
    map[site.cat := multiset{r.id}]
  }

  function Once(site: Site, r: Row): State {
    Before(site, r, ListedIn(site, r), map[site.ty := multiset{r}])
  }

  function OnceAt(site: Site, r: Row, files: Files, p: Point): State {
    During(site, r, ListedIn(site, r), map[site.ty := multiset{r}], files, p)
  }

  function Twice(site: Site, r: Row): State {
    Once(site, r).(files := One(site, r, [r], true), job := Running(r.day, [], Start, multiset{}))
  }

  lemma OnceStart(site: Site, r: Row)
    ensures FreshStart(Once(site, r))
  {
    var s := Once(site, r);
    assert ListedOnce(s.sites, s.cats, site.ty, r.id);
    assert Known(s.sites, s.cats, site.ty, r.id);
    assert s.kept == s.tables;
    forall ty, q: Row
      ensures Rows(s.kept, ty)[q] == if Known(s.sites, s.cats, ty, q.id) then Rows(s.tables, ty)[q] else 0
    {
      assert Rows(s.tables, ty)[q] > 0 ==> ty == site.ty && q == r;
    }
  }

  lemma RowSelected(r: Row)
    ensures IsSelection([r], multiset{r}, multiset{r.id}, r.day)
  {
    forall q: Row
      ensures multiset([r])[q] == if q.day == r.day then JoinCount(multiset{r}[q], multiset{r.id}[q.id]) else 0
    {
      JoinKeeps(0, multiset{r.id}[q.id]);
    }
  }

  lemma WritesOne(site: Site, r: Row)
    ensures Step(OnceAt(site, r, One(site, r, [], false), Writing([r], 0)), WriteRow,
                 OnceAt(site, r, One(site, r, [r], false), Writing([r], 1)))
  {
    assert [r][..1] == [r];
  }

  lemma ClosesOne(site: Site, r: Row)
    ensures Step(OnceAt(site, r, One(site, r, [r], false), Writing([r], 1)), Close,
                 OnceAt(site, r, One(site, r, [r], true), Closed([r])))
  {
  }

  lemma DropsNothing(site: Site, r: Row)
    ensures Step(OnceAt(site, r, One(site, r, [r], true), Closed([r])), Drop(true),
                 OnceAt(site, r, One(site, r, [r], true), Dropped([r])))
  {
  }

  lemma DeleteThrows(site: Site, r: Row)
    ensures Step(OnceAt(site, r, One(site, r, [r], true), Dropped([r])), Throw, Twice(site, r))
  {
    assert [site][1..] == [];
  }

  /** A run from a first day in which the DELETE throws: afterwards the row is in the complete file and
      in the table. */
  lemma ExceptionDuplicates(site: Site, r: Row)
    ensures var a, b := Once(site, r), Twice(site, r);
            && FreshStart(a) && ReachesBy(a, [Begin, Query([r]), Create, WriteRow, Close, Drop(true), Throw], b)
            && Rows(b.log, site.ty)[r] == 1
            && Rows(b.tables, site.ty)[r] == 1 && Archived(b.files, site.ty, r) == 1
            && !MidWrite(b) && !Conserved(b)
  {
    OnceStart(site, r);
    WholeWritten(site, r);
    DeleteThrows(site, r);
    var es := [Begin, Query([r]), Create, WriteRow, Close, Drop(true)];
    ReachesByStep(Once(site, r), es, OnceAt(site, r, One(site, r, [r], true), Dropped([r])), Throw, Twice(site, r));
    assert es + [Throw] == [Begin, Query([r]), Create, WriteRow, Close, Drop(true), Throw];
    assert Archived(Twice(site, r).files, site.ty, r) == 1;
  }

  // ---------------------------------------------------------------- an exception while rows are written

  function Half(site: Site, r: Row): State {
    Once(site, r).(files := One(site, r, [], false), job := Running(r.day, [], Start, multiset{}))
  }

  lemma ThrowsWriting(site: Site, r: Row)
    ensures Step(OnceAt(site, r, One(site, r, [], false), Writing([r], 0)), Throw, Half(site, r))
  {
    assert [site][1..] == [];
  }

  /** A run from a first day in which the first row cannot be written: an incomplete file is in the way of
      the row. */
  lemma ExceptionLeavesPart(site: Site, r: Row)
    ensures var a, b := Once(site, r), Half(site, r);
            && FreshStart(a) && FilesClosed(a) && ReachesBy(a, [Begin, Query([r]), Create, Throw], b)
            && !FilesClosed(b) && InTheWay(b, FileKey(site.ty, r.day), CsvFile([], false), multiset{r})
  {
    var a, es := Once(site, r), [Begin, Query([r]), Create];
    OnceStart(site, r);
    RowSelected(r);
    Created(site, r, ListedIn(site, r), map[site.ty := multiset{r}], [r]);
    ThrowsWriting(site, r);
    ReachesByStep(a, es, OnceAt(site, r, One(site, r, [], false), Writing([r], 0)), Throw, Half(site, r));
    assert es + [Throw] == [Begin, Query([r]), Create, Throw];
    assert FileKey(site.ty, r.day) in Half(site, r).files && !MidWrite(Half(site, r));
  }

  // ---------------------------------------------------------------- death at every point

  /** The process has died; the files are as they were left. */
  function Dead(site: Site, r: Row, files: Files): State {
    Once(site, r).(files := files)
  }

  lemma Dies(site: Site, r: Row, files: Files, p: Point)
    ensures Step(OnceAt(site, r, files, p), Die, Dead(site, r, files))
  {
  }

  /** A run from a first day in which the process dies while rows are written: an incomplete file is in the
      way of the row. */
  lemma DeathLeavesPart(site: Site, r: Row)
    ensures var a, b := Once(site, r), Dead(site, r, One(site, r, [], false));
            && FreshStart(a) && FilesClosed(a) && ReachesBy(a, [Begin, Query([r]), Create, Die], b)
            && b.job.Idle? && !FilesClosed(b)
            && InTheWay(b, FileKey(site.ty, r.day), CsvFile([], false), multiset{r})
  {
    var a, es, part := Once(site, r), [Begin, Query([r]), Create], One(site, r, [], false);
    OnceStart(site, r);
    RowSelected(r);
    Created(site, r, ListedIn(site, r), map[site.ty := multiset{r}], [r]);
    Dies(site, r, part, Writing([r], 0));
    ReachesByStep(a, es, OnceAt(site, r, part, Writing([r], 0)), Die, Dead(site, r, part));
    assert es + [Die] == [Begin, Query([r]), Create, Die];
    assert FileKey(site.ty, r.day) in part;
  }

  lemma WholeWritten(site: Site, r: Row)
    ensures ReachesBy(Once(site, r), [Begin, Query([r]), Create, WriteRow, Close, Drop(true)],
                      OnceAt(site, r, One(site, r, [r], true), Dropped([r])))
    ensures ReachesBy(Once(site, r), [Begin, Query([r]), Create, WriteRow, Close],
                      OnceAt(site, r, One(site, r, [r], true), Closed([r])))
  {
    var a, es := Once(site, r), [Begin, Query([r]), Create];
    var none := OnceAt(site, r, One(site, r, [], false), Writing([r], 0));
    var part := OnceAt(site, r, One(site, r, [r], false), Writing([r], 1));
    var whole := OnceAt(site, r, One(site, r, [r], true), Closed([r]));
    RowSelected(r);
    Created(site, r, ListedIn(site, r), map[site.ty := multiset{r}], [r]);
    WritesOne(site, r);
    ClosesOne(site, r);
    DropsNothing(site, r);
    ReachesByStep(a, es, none, WriteRow, part);
    ReachesByStep(a, es + [WriteRow], part, Close, whole);
    assert es + [WriteRow] + [Close] == [Begin, Query([r]), Create, WriteRow, Close];
    ThreeMore(a, es, none, WriteRow, part, Close, whole,
              Drop(true), OnceAt(site, r, One(site, r, [r], true), Dropped([r])));
    assert es + [WriteRow, Close, Drop(true)] == [Begin, Query([r]), Create, WriteRow, Close, Drop(true)];
  }

  /** Runs from a first day in which the process dies after the close, before or after the look for an
      empty file, and before the DELETE: the row is in the complete file and in the table. */
  lemma DeathDuplicates(site: Site, r: Row)
    ensures var a, b := Once(site, r), Dead(site, r, One(site, r, [r], true));
            && FreshStart(a)
            && ReachesBy(a, [Begin, Query([r]), Create, WriteRow, Close, Die], b)
            && ReachesBy(a, [Begin, Query([r]), Create, WriteRow, Close, Drop(true), Die], b)
            && Rows(b.log, site.ty)[r] == 1 && Rows(b.tables, site.ty)[r] == 1
            && Archived(b.files, site.ty, r) == 1 && b.job.Idle? && !Conserved(b)
  {
    var a, whole := Once(site, r), One(site, r, [r], true);
    var es := [Begin, Query([r]), Create, WriteRow, Close];
    OnceStart(site, r);
    WholeWritten(site, r);
    Dies(site, r, whole, Closed([r]));
    Dies(site, r, whole, Dropped([r]));
    ReachesByStep(a, es, OnceAt(site, r, whole, Closed([r])), Die, Dead(site, r, whole));
    assert es + [Die] == [Begin, Query([r]), Create, WriteRow, Close, Die];
    ReachesByStep(a, [Begin, Query([r]), Create, WriteRow, Close, Drop(true)],
                  OnceAt(site, r, whole, Dropped([r])), Die, Dead(site, r, whole));
    assert [Begin, Query([r]), Create, WriteRow, Close, Drop(true)] + [Die] ==
           [Begin, Query([r]), Create, WriteRow, Close, Drop(true), Die];
    assert Archived(Dead(site, r, whole).files, site.ty, r) == 1;
  }
}
