/**
 The text of an archive file: a line of column labels, then one line per row, every field followed by
 a semicolon and every line by CR LF.
 */
module Csv {
  import opened Wrappers

  type Line = seq<string>

  const EOL := "\r\n"

  function RenderLine(l: Line): string {
    if l == [] then EOL else l[0] + ";" + RenderLine(l[1..])
  }

  function Render(ls: seq<Line>): string {
    if ls == [] then "" else RenderLine(ls[0]) + Render(ls[1..])
  }

  // ---------------------------------------------------------------- reading it back

  /** A field runs up to its semicolon. */
  function Field(s: string): (f: Option<string>)
    ensures f.Some? ==> |f.value| < |s| && s[|f.value|] == ';' && f.value == s[..|f.value|] && ';' !in f.value
    ensures f.None? ==> ';' !in s
  {
    if s == "" then None
    else if s[0] == ';' then Some("")
    else
      match Field(s[1..])
      case None => None
      case Some(r) => Some([s[0]] + r)
  }

  predicate AtEol(s: string) {
    |s| >= 2 && s[0] == '\r' && s[1] == '\n'
  }

  /** The fields of the first line, and the text after that line. */
  function ParseLine(s: string): (r: Option<(Line, string)>)
    ensures r.Some? ==> |r.value.1| < |s|
    decreases |s|
  {
    if AtEol(s) then Some(([], s[2..]))
    else
      match Field(s)
      case None => None
      case Some(f) =>
        match ParseLine(s[|f| + 1..])
        case None => None
        case Some((fs, rest)) => Some(([f] + fs, rest))
  }

  function Parse(s: string): Option<seq<Line>>
    decreases |s|
  {
    if s == "" then Some([])
    else
      match ParseLine(s)
      case None => None
      case Some((l, rest)) =>
        match Parse(rest)
        case None => None
        case Some(ls) => Some([l] + ls)
  }

  // ---------------------------------------------------------------- the round trip

  /** A field that the format can carry: it holds no semicolon and does not look like a line end. */
  predicate CleanField(f: string) {
    ';' !in f && !AtEol(f)
  }

  predicate Clean(ls: seq<Line>) {
    forall i, j | 0 <= i < |ls| && 0 <= j < |ls[i]| :: CleanField(ls[i][j])
  }

  predicate CleanLine(l: Line) {
    forall j | 0 <= j < |l| :: CleanField(l[j])
  }

  lemma {:induction false} FieldReadsBack(f: string, rest: string)
    requires ';' !in f
    ensures Field(f + ";" + rest) == Some(f)
  {
    var s := f + ";" + rest;
    if f != "" {
      FieldReadsBack(f[1..], rest);
      assert s[1..] == f[1..] + ";" + rest;
      assert f == [f[0]] + f[1..];
    }
  }

  lemma {:induction false} LineReadsBack(l: Line, rest: string)
    requires CleanLine(l)
    ensures ParseLine(RenderLine(l) + rest) == Some((l, rest))
  {
    var s := RenderLine(l) + rest;
    if l == [] {
      assert s[2..] == rest;
    } else {
      var tail := RenderLine(l[1..]) + rest;
      assert s == l[0] + ";" + tail;
      assert CleanField(l[0]);
      assert !AtEol(s);
      FieldReadsBack(l[0], tail);
      assert s[|l[0]| + 1..] == tail;
      LineReadsBack(l[1..], rest);
      assert l == [l[0]] + l[1..];
    }
  }

  lemma {:induction false} LinesReadBack(ls: seq<Line>)
    requires Clean(ls)
    ensures Parse(Render(ls)) == Some(ls)
  {
    if ls != [] {
      assert CleanLine(ls[0]) by {
        forall j | 0 <= j < |ls[0]| ensures CleanField(ls[0][j]) {}
      }
      LineReadsBack(ls[0], Render(ls[1..]));
      assert Clean(ls[1..]) by {
        forall i, j | 0 <= i < |ls[1..]| && 0 <= j < |ls[1..][i]| ensures CleanField(ls[1..][i][j]) {
          assert CleanField(ls[i + 1][j]);
        }
      }
      LinesReadBack(ls[1..]);
      assert ls == [ls[0]] + ls[1..];
    }
  }

  lemma {:induction false} ParsedLineIsClean(s: string)
    ensures ParseLine(s).Some? ==> CleanLine(ParseLine(s).value.0)
    decreases |s|
  {
    if !AtEol(s) && Field(s).Some? {
      var f := Field(s).value;
      ParsedLineIsClean(s[|f| + 1..]);
      assert AtEol(f) ==> AtEol(s);
    }
  }

  lemma {:induction false} ParsedIsClean(s: string)
    ensures Parse(s).Some? ==> Clean(Parse(s).value)
    decreases |s|
  {
    if s != "" && ParseLine(s).Some? {
      var (l, rest) := ParseLine(s).value;
      ParsedLineIsClean(s);
      ParsedIsClean(rest);
      if Parse(rest).Some? {
        var ls := Parse(rest).value;
        forall i, j | 0 <= i < |([l] + ls)| && 0 <= j < |([l] + ls)[i]| ensures CleanField(([l] + ls)[i][j]) {
          if i > 0 {
            assert CleanField(ls[i - 1][j]);
          }
        }
      }
    }
  }

  /** An archive file can be read back exactly when no field holds a semicolon or starts with CR LF:
      labels, dates and numbers qualify. */
  lemma RoundTripIffClean(ls: seq<Line>)
    ensures Parse(Render(ls)) == Some(ls) <==> Clean(ls)
  {
    if Clean(ls) {
      LinesReadBack(ls);
    } else {
      ParsedIsClean(Render(ls));
    }
  }

  // ---------------------------------------------------------------- writing it

  /** A line without its line end. */
  function Fields(l: Line): string {
    if l == [] then "" else l[0] + ";" + Fields(l[1..])
  }

  lemma {:induction false} FieldsSnoc(l: Line, f: string)
    ensures Fields(l + [f]) == Fields(l) + f + ";"
  {
    if l == [] {
      assert [f][1..] == [];
    } else {
      FieldsSnoc(l[1..], f);
      assert (l + [f])[1..] == l[1..] + [f];
    }
  }

  lemma {:induction false} FieldsEol(l: Line)
    ensures Fields(l) + EOL == RenderLine(l)
  {
    if l != [] {
      FieldsEol(l[1..]);
    }
  }

  lemma {:induction false} RenderSnoc(ls: seq<Line>, l: Line)
    ensures Render(ls + [l]) == Render(ls) + RenderLine(l)
  {
    if ls == [] {
      assert [l][1..] == [];
    } else {
      RenderSnoc(ls[1..], l);
      assert (ls + [l])[1..] == ls[1..] + [l];
    }
  }

  /** One line: the column loop of `write`. */
  method WriteFields(fw: string, l: Line) returns (out: string)
    ensures out == fw + RenderLine(l)
  {
    out := fw;
    for x := 0 to |l|
      invariant out == fw + Fields(l[..x])
    {
      FieldsSnoc(l[..x], l[x]);
      assert l[..x + 1] == l[..x] + [l[x]];
      out := out + (l[x] + ";");
    }
    assert l[..|l|] == l;
    FieldsEol(l);
    out := out + EOL;
  }

  /** The file as `write` produces it: labels, then the rows of the result set in order;
      `cpt` counts the rows. A reader that knows the format gets labels and rows back. */
  method WriteFile(labels: Line, rows: seq<Line>) returns (text: string, cpt: nat)
    ensures text == Render([labels] + rows) && cpt == |rows|
    ensures Clean([labels] + rows) ==> Parse(text) == Some([labels] + rows)
  {
    text := WriteFields("", labels);
    cpt := 0;
    assert [labels][1..] == [];
    while cpt < |rows|
      invariant cpt <= |rows|
      invariant text == Render([labels] + rows[..cpt])
    {
      RenderSnoc([labels] + rows[..cpt], rows[cpt]);
      assert [labels] + rows[..cpt] + [rows[cpt]] == [labels] + rows[..cpt + 1];
      text := WriteFields(text, rows[cpt]);
      cpt := cpt + 1;
    }
    assert rows[..cpt] == rows;
    RoundTripIffClean([labels] + rows);
  }
}
