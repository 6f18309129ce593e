/**
 What can happen when: the machine leaves nothing out that the archiver or its surroundings can do.
 */
module ArchivePossible {
  import opened Archive
  import opened ArchiveSafety
  import ArchiveJob

  ghost predicate Possible(s: State, e: Event) {
    exists s' :: Step(s, e, s')
  }

  // ---------------------------------------------------------------- the surroundings

  /** Rows arrive and catalogues grow at any time, also while a file is in hand; the clock may go on to any
      later moment; a run may begin whenever none is in hand. */
  lemma SurroundingsAreFree(s: State, e: Event)
    ensures e.Insert? || e.Enrol? ==> Possible(s, e)
    ensures e.Tick? ==> (Possible(s, e) <==> e.day > s.day || (e.day == s.day && e.time >= s.time))
    ensures e.Begin? ==> (Possible(s, e) <==> s.job.Idle?)
  {
    match e
    case Insert(ty, id, val) =>
      var r := Row(id, val, s.day, s.time);
      var known := Known(s.sites, s.cats, ty, id);
      assert Step(s, e, s.(tables := s.tables[ty := Rows(s.tables, ty) + multiset{r}],
                           log := s.log[ty := Rows(s.log, ty) + multiset{r}],
                           kept := if known then s.kept[ty := Rows(s.kept, ty) + multiset{r}] else s.kept));
    case Enrol(cat, id) =>
      assert Step(s, e, s.(cats := s.cats[cat := Entries(s.cats, cat) + multiset{id}]));
    case Tick(day, time) =>
      if day > s.day || (day == s.day && time >= s.time) {
        assert Step(s, e, s.(day := day, time := time));
      }
    case Begin =>
      if s.job.Idle? {
        assert Step(s, e, s.(job := Running(s.day - 1, s.sites, Start, multiset{})));
      }
    case _ =>
  }

  /** What they change: an insert one row of one table, dated now; an enrolment one entry of one catalogue;
      the clock itself only; a beginning only the job, which is to do all sites for yesterday. */
  lemma SurroundingsChange(s: State, e: Event, s': State)
    requires Step(s, e, s')
    ensures e.Insert? ==>
              && Rows(s'.tables, e.ty) == Rows(s.tables, e.ty) + multiset{Row(e.id, e.val, s.day, s.time)}
              && (forall ty | ty != e.ty :: Rows(s'.tables, ty) == Rows(s.tables, ty))
              && s'.(tables := s.tables, log := s.log, kept := s.kept) == s
    ensures e.Enrol? ==>
              && Entries(s'.cats, e.cat) == Entries(s.cats, e.cat) + multiset{e.id}
              && (forall cat | cat != e.cat :: Entries(s'.cats, cat) == Entries(s.cats, cat))
              && s'.(cats := s.cats) == s
    ensures e.Tick? ==> s'.day == e.day && s'.time == e.time && s'.(day := s.day, time := s.time) == s
    ensures e.Begin? ==>
              s'.job.Running? && s'.job.hier == s.day - 1 && s'.job.todo == s.sites && s'.job.at.Start?
              && s'.(job := s.job) == s
  {
  }

  // ---------------------------------------------------------------- interruptions

  /** Whenever a run is in hand, the process may die, wherever it stands: all that goes is the job. And
      whenever a site is in hand, its work may be ended by an exception: the run goes on with the next. */
  lemma InterruptionsAreFree(s: State)
    ensures Possible(s, Die) <==> s.job.Running?
    ensures Possible(s, Throw) <==> Active(s)
    ensures forall s' :: Step(s, Die, s') ==> s'.job.Idle? && s'.(job := s.job) == s
    ensures forall s' :: Step(s, Throw, s') ==>
              Active(s) && s'.job.Running? && s'.job.hier == s.job.hier && s'.job.todo == s.job.todo[1..]
              && s'.job.at.Start? && s'.(job := s.job) == s
  {
    if s.job.Running? {
      assert Step(s, Die, s.(job := Idle));
    }
    if Active(s) {
      assert Step(s, Throw, NextSite(s));
    }
  }

  // ---------------------------------------------------------------- the archiver's own statements

  /** The statements of the archiver itself. */
  predicate Own(e: Event) {
    e.Query? || e.Skip? || TouchesFiles(e) || e.Delete? || e.Finish?
  }

  lemma {:induction false} RemainderExists(t: multiset<Row>, hier: int)
    ensures exists t' :: IsRemainder(t', t, hier)
    decreases |t|
  {
    if t == multiset{} {
      assert IsRemainder(t, t, hier);
    } else {
      var r :| r in t;
      RemainderExists(t[r := 0], hier);
      var rest :| IsRemainder(rest, t[r := 0], hier);
      assert IsRemainder(if r.day == hier then rest else rest[r := t[r]], t, hier);
    }
  }

  /** How far the work on the current site still has to go. */
  function Phase(s: State): nat {
    if !Active(s) then 0
    else
      match s.job.at
      case Start => 5
      case Selected(_) => 4
      case Writing(_, _) => 3
      case Closed(_) => 2
      case Dropped(_) => 1
  }

  function RowsLeft(s: State): int {
    if Active(s) && s.job.at.Writing? then |s.job.at.rs| - s.job.at.n else 0
  }

  /** The run in hand is over, or has got ahead. */
  predicate Ahead(s: State, s': State)
    requires s.job.Running?
  {
    s'.job.Running? ==>
      || |s'.job.todo| < |s.job.todo|
      || (|s'.job.todo| == |s.job.todo| && Phase(s') < Phase(s))
      || (|s'.job.todo| == |s.job.todo| && Phase(s') == Phase(s) && RowsLeft(s') < RowsLeft(s))
  }

  lemma NextQuery(s: State) returns (e: Event, s': State)
    requires Active(s) && s.job.at.Start?
    ensures Own(e) && Step(s, e, s') && Ahead(s, s')
  {
    var t, seen := Rows(s.tables, Key(s).ty), Listed(s.cats, s.job.todo[0]);
    ArchiveJob.SelectionExists(t, seen, s.job.hier);
    var rs :| IsSelection(rs, t, seen, s.job.hier);
    e, s' := Query(rs), s.(job := s.job.(at := Selected(rs), seen := seen));
  }

  lemma NextDelete(s: State) returns (e: Event, s': State)
    requires Active(s) && s.job.at.Dropped?
    ensures Own(e) && Step(s, e, s') && Ahead(s, s')
  {
    var ty := Key(s).ty;
    RemainderExists(Rows(s.tables, ty), s.job.hier);
    var rest :| IsRemainder(rest, Rows(s.tables, ty), s.job.hier);
    e, s' := Delete, NextSite(s).(tables := s.tables[ty := rest]);
  }

  lemma NextFile(s: State) returns (e: Event, s': State)
    requires JobShape(s) && Active(s) && !s.job.at.Start? && !s.job.at.Dropped?
    ensures Own(e) && Step(s, e, s') && Ahead(s, s')
  {
    var k, rs := Key(s), s.job.at.rs;
    match s.job.at
    case Selected(_) =>
      if k in s.files {
        e, s' := Skip, NextSite(s);
      } else {
        e, s' := Create, At(s, Writing(rs, 0)).(files := s.files[k := CsvFile([], false)]);
      }
    case Writing(_, n) =>
      if n < |rs| {
        e, s' := WriteRow, At(s, Writing(rs, n + 1)).(files := s.files[k := CsvFile(rs[..n + 1], false)]);
      } else {
        e, s' := Close, At(s, Closed(rs)).(files := s.files[k := CsvFile(rs, true)]);
      }
    case Closed(_) =>
      e, s' := Drop(true), At(s, Dropped(rs)).(files := if rs == [] then s.files - {k} else s.files);
  }

  /** A run in hand is never stuck: the archiver has a statement to make, and that brings it ahead. */
  lemma NextStatement(s: State) returns (e: Event, s': State)
    requires JobShape(s) && s.job.Running?
    ensures Own(e) && Step(s, e, s') && Ahead(s, s')
  {
    if s.job.todo == [] {
      e, s' := Finish, s.(job := Idle, swept := if s.job.hier == s.swept then s.swept + 1 else s.swept);
    } else if s.job.at.Start? {
      e, s' := NextQuery(s);
    } else if s.job.at.Dropped? {
      e, s' := NextDelete(s);
    } else {
      e, s' := NextFile(s);
    }
  }

  /** The statements in program order. */
  datatype Statement = Selects | Skips | Creates | Writes | Closes | Drops | Deletes | Finishes

  function StatementOf(e: Event): Statement
    requires Own(e)
  {
    match e
    case Query(_) => Selects
    case Skip => Skips
    case Create => Creates
    case WriteRow => Writes
    case Close => Closes
    case Drop(_) => Drops
    case Delete => Deletes
    case Finish => Finishes
  }

  /** The statement that is next: files are created only if they do not exist, closed only when all rows
      are written, looked at before the DELETE, and a run finishes only when all sites are done. */
  function Next(s: State): Statement
    requires s.job.Running?
  {
    if s.job.todo == [] then Finishes
    else
      match s.job.at
      case Start => Selects
      case Selected(_) => if Key(s) in s.files then Skips else Creates
      case Writing(rs, n) => if n < |rs| then Writes else Closes
      case Closed(_) => Drops
      case Dropped(_) => Deletes
  }

  lemma PossibleIsNext(s: State, e: Event)
    requires Own(e) && Possible(s, e)
    ensures s.job.Running? && Next(s) == StatementOf(e)
  {
    var s' :| Step(s, e, s');
    if TouchesFiles(e) {
      FileStatement(s, e, s');
    } else {
      OtherStatement(s, e, s');
    }
  }

  lemma FileStatement(s: State, e: Event, s': State)
    requires Step(s, e, s') && TouchesFiles(e)
    ensures s.job.Running? && Next(s) == StatementOf(e)
  {
  }

  lemma OtherStatement(s: State, e: Event, s': State)
    requires Step(s, e, s') && Own(e) && !TouchesFiles(e)
    ensures s.job.Running? && Next(s) == StatementOf(e)
  {
  }

  /** And never more than one: the statements come in program order. */
  lemma OneStatementAtATime(s: State, e: Event, f: Event)
    requires Own(e) && Own(f) && Possible(s, e) && Possible(s, f)
    ensures StatementOf(e) == StatementOf(f) && s.job.Running? && Next(s) == StatementOf(e)
  {
    PossibleIsNext(s, e);
    PossibleIsNext(s, f);
  }

  lemma {:induction false} ReachesByFirst(a: State, e: Event, b: State, es: seq<Event>, c: State)
    requires Step(a, e, b) && ReachesBy(b, es, c)
    ensures ReachesBy(a, [e] + es, c)
  {
    var ss :| IsRun(ss, es) && ss[0] == b && ss[|es|] == c;
    var ss', es' := [a] + ss, [e] + es;
    forall i | 0 <= i < |es'| ensures Step(ss'[i], es'[i], ss'[i + 1]) {
      if i > 0 {
        assert Step(ss[i - 1], es[i - 1], ss[i]);
      }
    }
    assert IsRun(ss', es') && ss'[0] == a && ss'[|es'|] == c;
  }

  /** From every point at which a run can stand, the archiver can finish it by its own statements alone. */
  lemma {:induction false} CanFinish(s: State) returns (es: seq<Event>, s': State)
    requires JobShape(s) && s.job.Running?
    ensures ReachesBy(s, es, s') && s'.job.Idle? && forall e | e in es :: Own(e)
    decreases |s.job.todo|, Phase(s), RowsLeft(s)
  {
    var e, m := NextStatement(s);
    ShapeStep(s, e, m);
    if m.job.Idle? {
      ReachesSelf(m);
      es, s' := [], m;
    } else {
      es, s' := CanFinish(m);
    }
    ReachesByFirst(s, e, m, es, s');
    es := [e] + es;
  }
}
