/**
 The rows of an archive file as text: what can be read off a complete file.
 */
module ArchiveText {
  import opened Wrappers
  import opened Csv
  import opened Archive
  import opened ArchiveSafety
  import opened ArchiveConservation

  /** How the database driver renders the three columns. */
  datatype Columns = Columns(id: int -> string, val: real -> string, date: (int, nat) -> string)

  const LABELS: Line := ["ID", "VALEUR", "DATE"]

  function RowLine(x: Columns, r: Row): Line {
    [x.id(r.id), x.val(r.val), x.date(r.day, r.time)]
  }

  function RowLines(x: Columns, rs: seq<Row>): (ls: seq<Line>)
    ensures |ls| == |rs| && forall i | 0 <= i < |rs| :: ls[i] == RowLine(x, rs[i])
  {
    seq(|rs|, i requires 0 <= i < |rs| => RowLine(x, rs[i]))
  }

  function FileText(x: Columns, rs: seq<Row>): string {
    Render([LABELS] + RowLines(x, rs))
  }

  /** No column text holds a semicolon or starts with a line end. */
  ghost predicate CleanColumns(x: Columns) {
    && (forall i :: CleanField(x.id(i)))
    && (forall v :: CleanField(x.val(v)))
    && (forall d, t :: CleanField(x.date(d, t)))
  }

  /** Different ids, values and dates look different. */
  ghost predicate DistinctColumns(x: Columns) {
    && (forall i, j :: x.id(i) == x.id(j) ==> i == j)
    && (forall v, w :: x.val(v) == x.val(w) ==> v == w)
    && (forall d, t, e, u :: x.date(d, t) == x.date(e, u) ==> d == e && t == u)
  }

  ghost predicate Determines(x: Columns) {
    forall a, b :: FileText(x, a) == FileText(x, b) ==> a == b
  }

  lemma TextIsClean(x: Columns, rs: seq<Row>)
    requires CleanColumns(x)
    ensures Clean([LABELS] + RowLines(x, rs))
  {
    var ls := [LABELS] + RowLines(x, rs);
    forall i, j | 0 <= i < |ls| && 0 <= j < |ls[i]| ensures CleanField(ls[i][j]) {
      if i > 0 {
        assert ls[i] == RowLine(x, rs[i - 1]);
      }
    }
  }

  /** The column under a label. */
  function ColumnOf(header: Line, title: string): (j: nat)
    ensures j <= |header| && (j < |header| ==> header[j] == title) && (title in header ==> j < |header|)
  {
    if header == [] || header[0] == title then 0 else 1 + ColumnOf(header[1..], title)
  }

  /** What the lines of a file, the first being the header, say under a label in the `i`-th row. */
  function Under(ls: seq<Line>, title: string, i: nat): Option<string> {
    if i + 1 < |ls| && ColumnOf(ls[0], title) < |ls[0]| && ColumnOf(ls[0], title) < |ls[i + 1]|
    then Some(ls[i + 1][ColumnOf(ls[0], title)])
    else None
  }

  /** A reader who goes by the labels finds every row, in order: the id under ID, the value under VALEUR and
      the date under DATE. */
  lemma ReadByLabel(x: Columns, rs: seq<Row>, i: nat)
    requires CleanColumns(x) && i < |rs|
    ensures var parsed := Parse(FileText(x, rs));
            && parsed.Some? && |parsed.value| == |rs| + 1
            && Under(parsed.value, "ID", i) == Some(x.id(rs[i].id))
            && Under(parsed.value, "VALEUR", i) == Some(x.val(rs[i].val))
            && Under(parsed.value, "DATE", i) == Some(x.date(rs[i].day, rs[i].time))
  {
    var ls := [LABELS] + RowLines(x, rs);
    TextIsClean(x, rs);
    LinesReadBack(ls);
    assert ls[0] == LABELS && ls[i + 1] == RowLine(x, rs[i]);
    LabelsAt();
  }

  lemma LabelsAt()
    ensures ColumnOf(LABELS, "ID") == 0 && ColumnOf(LABELS, "VALEUR") == 1 && ColumnOf(LABELS, "DATE") == 2
  {
    assert LABELS[1..] == ["VALEUR", "DATE"] && ["VALEUR", "DATE"][1..] == ["DATE"];
    assert LABELS[0][0] != "VALEUR"[0] && LABELS[0][0] != "DATE"[0] && "VALEUR"[0] != "DATE"[0];
  }

  /** Equal texts have equal lines. */
  lemma SameTextSameLines(x: Columns, a: seq<Row>, b: seq<Row>)
    requires CleanColumns(x) && FileText(x, a) == FileText(x, b)
    ensures RowLines(x, a) == RowLines(x, b)
  {
    TextIsClean(x, a);
    TextIsClean(x, b);
    LinesReadBack([LABELS] + RowLines(x, a));
    LinesReadBack([LABELS] + RowLines(x, b));
    assert ([LABELS] + RowLines(x, a))[1..] == RowLines(x, a);
    assert ([LABELS] + RowLines(x, b))[1..] == RowLines(x, b);
  }

  lemma SameLineSameRow(x: Columns, q: Row, r: Row)
    requires DistinctColumns(x) && RowLine(x, q) == RowLine(x, r)
    ensures q == r
  {
    var k, l := RowLine(x, q), RowLine(x, r);
    assert k[0] == l[0] && k[1] == l[1] && k[2] == l[2];
  }

  lemma TextDeterminesRows(x: Columns, a: seq<Row>, b: seq<Row>)
    requires CleanColumns(x) && DistinctColumns(x) && FileText(x, a) == FileText(x, b)
    ensures a == b
  {
    SameTextSameLines(x, a, b);
    assert |a| == |RowLines(x, a)| == |b|;
    forall i | 0 <= i < |a| ensures a[i] == b[i] {
      assert RowLines(x, a)[i] == RowLines(x, b)[i];
      SameLineSameRow(x, a[i], b[i]);
    }
  }

  lemma SameRowText(x: Columns, q: Row, r: Row)
    requires Determines(x) && RowLine(x, q) == RowLine(x, r)
    ensures q == r
  {
    assert RowLines(x, [q]) == RowLines(x, [r]);
    assert FileText(x, [q]) == FileText(x, [r]);
    assert [q][0] == [r][0];
  }

  /** With clean columns, the text of a file determines its rows, whatever they are, if and only if
      different ids, values and dates look different. */
  lemma DeterminesIffDistinct(x: Columns)
    requires CleanColumns(x)
    ensures Determines(x) <==> DistinctColumns(x)
  {
    if DistinctColumns(x) {
      forall a, b | FileText(x, a) == FileText(x, b) ensures a == b {
        TextDeterminesRows(x, a, b);
      }
    }
    if Determines(x) {
      forall i, j | x.id(i) == x.id(j) ensures i == j {
        SameRowText(x, Row(i, 0.0, 0, 0), Row(j, 0.0, 0, 0));
      }
      forall v, w | x.val(v) == x.val(w) ensures v == w {
        SameRowText(x, Row(0, v, 0, 0), Row(0, w, 0, 0));
      }
      forall d, t, e, u | x.date(d, t) == x.date(e, u) ensures d == e && t == u {
        SameRowText(x, Row(0, 0.0, d, t), Row(0, 0.0, e, u));
      }
    }
  }

  ghost predicate CompleteAfter(ss: seq<State>, es: seq<Event>, k: FileKey) {
    && CalmRun(ss, es) && FreshStart(ss[0]) && !MidWrite(ss[|es|])
    && k in ss[|es|].files && ss[|es|].files[k].closed
  }

  /** What was inserted into a table on a day can be read off the text of the complete file: over any two
      calm runs, files of the same text stand for the same insertions. */
  lemma TextDeterminesHistory(
      x: Columns, k: FileKey, ss: seq<State>, es: seq<Event>, ss': seq<State>, es': seq<Event>, r: Row)
    requires CleanColumns(x) && DistinctColumns(x)
    requires CompleteAfter(ss, es, k) && CompleteAfter(ss', es', k)
    requires FileText(x, ss[|es|].files[k].rows) == FileText(x, ss'[|es'|].files[k].rows) && r.day == k.day
    ensures Rows(ss[|es|].log, k.ty)[r] == Rows(ss'[|es'|].log, k.ty)[r]
  {
    TextDeterminesRows(x, ss[|es|].files[k].rows, ss'[|es'|].files[k].rows);
    Conservation(ss, es, k, r);
    Conservation(ss', es', k, r);
  }
}
