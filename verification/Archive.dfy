/**
 The daily archive protocol as a labelled step machine.

 The archiver selects yesterday's rows of a table, copies them to a CSV file unless that file already
 exists, drops the file again if it stayed empty, and deletes the window from the table. Any statement
 may throw, the process may die between any two statements, rows keep being inserted meanwhile, dated by
 the clock, and catalogues grow. A day is its number in the calendar (`Calendar.DayNumber`).
 */
module Archive {

  /** A value row. A NULL id is just an id that no catalogue lists. */
  datatype Row = Row(id: int, val: real, day: int, time: nat)

  /** The two columns of SITES that the archiver uses: a value table and the catalogue it joins with. */
  datatype Site = Site(ty: string, cat: string)

  datatype FileKey = FileKey(ty: string, day: int)

  /** Only a closed file has reached the disk completely. */
  datatype CsvFile = CsvFile(rows: seq<Row>, closed: bool)

  /** Where `write` stands for the first site still to do. */
  datatype Point =
    | Start
    | Selected(rs: seq<Row>)
    | Writing(rs: seq<Row>, n: nat)
    | Closed(rs: seq<Row>)
    | Dropped(rs: seq<Row>)

  /** `seen` is the catalogue as the SELECT in hand saw it (history). */
  datatype Job = Idle | Running(hier: int, todo: seq<Site>, at: Point, seen: multiset<int>)

  type Tables = map<string, multiset<Row>>

  type Catalogues = map<string, multiset<int>>

  /** The last three components are history: everything ever inserted, the part of it that was inserted
      while its id was listed, and the day before which the tables of the sites are known to hold nothing. */
  datatype State = State(
    sites: seq<Site>, cats: Catalogues,
    tables: Tables, files: map<FileKey, CsvFile>,
    day: int, time: nat, job: Job,
    log: Tables, kept: Tables, swept: int)

  datatype Event =
    | Tick(day: int, time: nat)
    | Insert(ty: string, id: int, val: real)
    | Enrol(cat: string, id: int)
    | Begin
    | Query(rs: seq<Row>)
    | Skip
    | Create
    | WriteRow
    | Close
    | Drop(gone: bool)
    | Delete
    | Finish
    | Throw
    | Die

  // ---------------------------------------------------------------- queries

  function Rows(t: Tables, ty: string): multiset<Row> {
    if ty in t then t[ty] else multiset{}
  }

  function Entries(cats: Catalogues, cat: string): multiset<int> {
    if cat in cats then cats[cat] else multiset{}
  }

  function Listed(cats: Catalogues, site: Site): multiset<int> {
    Entries(cats, site.cat)
  }

  /** Every site that archives table `ty` has the id in its catalogue. */
  ghost predicate Known(sites: seq<Site>, cats: Catalogues, ty: string, id: int) {
    forall site | site in sites && site.ty == ty :: Listed(cats, site)[id] >= 1
  }

  predicate InOrder(a: Row, b: Row) {
    a.id < b.id || (a.id == b.id && (a.day < b.day || (a.day == b.day && a.time <= b.time)))
  }

  predicate Sorted(rs: seq<Row>) {
    forall i, j | 0 <= i < j < |rs| :: InOrder(rs[i], rs[j])
  }

  /** How often the join shows a row: once per catalogue entry with its id. */
  function JoinCount(copies: nat, entries: nat): nat {
    copies * entries
  }

  /** `rs` answers the SELECT: the rows of day `hier`, joined with the catalogue, by id and date. */
  ghost predicate IsSelection(rs: seq<Row>, t: multiset<Row>, cat: multiset<int>, hier: int) {
    && Sorted(rs)
    && forall r: Row :: multiset(rs)[r] == if r.day == hier then JoinCount(t[r], cat[r.id]) else 0
  }

  /** `t'` is what the DELETE leaves of `t`. */
  ghost predicate IsRemainder(t': multiset<Row>, t: multiset<Row>, hier: int) {
    forall r: Row :: t'[r] == if r.day == hier then 0 else t[r]
  }

  // ---------------------------------------------------------------- steps

  predicate Active(s: State) {
    s.job.Running? && s.job.todo != []
  }

  function Key(s: State): FileKey
    requires Active(s)
  {
    FileKey(s.job.todo[0].ty, s.job.hier)
  }

  function At(s: State, p: Point): State
    requires Active(s)
  {
    s.(job := s.job.(at := p))
  }

  /** `write` is over for the current site, normally or by an exception. */
  function NextSite(s: State): State
    requires Active(s)
  {
    s.(job := Running(s.job.hier, s.job.todo[1..], Start, multiset{}))
  }

  ghost predicate Step(s: State, e: Event, s': State) {
    match e
    case Tick(day, time) =>
      && (day > s.day || (day == s.day && time >= s.time))
      && s' == s.(day := day, time := time)
    case Insert(ty, id, val) =>
      var r := Row(id, val, s.day, s.time);
      s' == s.(tables := s.tables[ty := Rows(s.tables, ty) + multiset{r}],
               log := s.log[ty := Rows(s.log, ty) + multiset{r}],
               kept := if Known(s.sites, s.cats, ty, id) then s.kept[ty := Rows(s.kept, ty) + multiset{r}] else s.kept)
    case Enrol(cat, id) =>
      s' == s.(cats := s.cats[cat := Entries(s.cats, cat) + multiset{id}])
    case Begin =>
      s.job.Idle? && s' == s.(job := Running(s.day - 1, s.sites, Start, multiset{}))
    case Query(rs) =>
      && Active(s) && s.job.at.Start?
      && IsSelection(rs, Rows(s.tables, Key(s).ty), Listed(s.cats, s.job.todo[0]), s.job.hier)
      && s' == s.(job := s.job.(at := Selected(rs), seen := Listed(s.cats, s.job.todo[0])))
    case Skip =>
      Active(s) && s.job.at.Selected? && Key(s) in s.files && s' == NextSite(s)
    case Create =>
      && Active(s) && s.job.at.Selected? && Key(s) !in s.files
      && s' == At(s, Writing(s.job.at.rs, 0)).(files := s.files[Key(s) := CsvFile([], false)])
    case WriteRow =>
      && Active(s) && s.job.at.Writing? && s.job.at.n < |s.job.at.rs|
      && var rs, n := s.job.at.rs, s.job.at.n;
         s' == At(s, Writing(rs, n + 1)).(files := s.files[Key(s) := CsvFile(rs[..n + 1], false)])
    case Close =>
      && Active(s) && s.job.at.Writing? && s.job.at.n == |s.job.at.rs|
      && s' == At(s, Closed(s.job.at.rs)).(files := s.files[Key(s) := CsvFile(s.job.at.rs, true)])
    case Drop(gone) =>
      && Active(s) && s.job.at.Closed?
      && var rs := s.job.at.rs;
         s' == At(s, Dropped(rs)).(files := if rs == [] && gone then s.files - {Key(s)} else s.files)
    case Delete =>
      && Active(s) && s.job.at.Dropped?
      && var ty := Key(s).ty;
         var rest := Rows(s'.tables, ty);
         IsRemainder(rest, Rows(s.tables, ty), s.job.hier) && s' == NextSite(s).(tables := s.tables[ty := rest])
    case Finish =>
      && s.job.Running? && s.job.todo == []
      && s' == s.(job := Idle, swept := if s.job.hier == s.swept then s.swept + 1 else s.swept)
    case Throw =>
      Active(s) && s' == NextSite(s)
    case Die =>
      s.job.Running? && s' == s.(job := Idle)
  }

  ghost predicate IsRun(ss: seq<State>, es: seq<Event>) {
    && |ss| == |es| + 1
    && forall i | 0 <= i < |es| :: Step(ss[i], es[i], ss[i + 1])
  }

  /** The events `es`, in order, lead from `a` to `b`. */
  ghost predicate ReachesBy(a: State, es: seq<Event>, b: State) {
    exists ss :: IsRun(ss, es) && ss[0] == a && ss[|es|] == b
  }

  ghost predicate Reaches(a: State, b: State) {
    exists es :: ReachesBy(a, es, b)
  }

  lemma ReachesSelf(a: State)
    ensures ReachesBy(a, [], a) && Reaches(a, a)
  {
    assert IsRun([a], []);
    assert ReachesBy(a, [], a);
  }

  lemma ReachesByStep(a: State, es: seq<Event>, b: State, e: Event, c: State)
    requires ReachesBy(a, es, b) && Step(b, e, c)
    ensures ReachesBy(a, es + [e], c)
  {
    var ss :| IsRun(ss, es) && ss[0] == a && ss[|es|] == b;
    RunOneMore(ss, es, e, c);
  }

  lemma RunOneMore(ss: seq<State>, es: seq<Event>, e: Event, c: State)
    requires IsRun(ss, es) && Step(ss[|es|], e, c)
    ensures IsRun(ss + [c], es + [e])
  {
    var ss', es' := ss + [c], es + [e];
    forall i | 0 <= i < |es'| ensures Step(ss'[i], es'[i], ss'[i + 1]) {
      if i < |es| {
        assert Step(ss[i], es[i], ss[i + 1]);
      }
    }
  }

  lemma ReachesStep(a: State, b: State, e: Event, c: State)
    requires Reaches(a, b) && Step(b, e, c)
    ensures Reaches(a, c)
  {
    var es :| ReachesBy(a, es, b);
    ReachesByStep(a, es, b, e, c);
  }
}
