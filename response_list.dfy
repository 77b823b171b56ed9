/**
 * The CSV text that the response list exports for a form: a header line of
 * column titles joined by commas without quoting, then one line per response
 * whose cells are each wrapped in double quotes (embedded quotes are not
 * escaped), lines joined by a single newline with none at the end.
 * The locale rendering of a timestamp is the parameter `fmt`.
 */
module ResponseList {
  import opened ArrayOps
  import opened FormTypes

  /** The title of the first column. */
  const SubmittedAt := "Submitted At"

  /** JavaScript truthiness of a looked-up answer: absent, `""` and `false` are falsy. */
  predicate Truthy(v: Option<Value>)
  {
    match v
    case None => false
    case Some(VStr(s)) => s != ""
    case Some(VBool(b)) => b
  }

  /** What a template literal makes of a stored answer. */
  function Show(v: Value): string
  {
    match v
    case VStr(s) => s
    case VBool(b) => if b then "true" else "false"
  }

  /** `response.responses[field.id]`: the answer under a key, if any. */
  function Lookup(m: map<string, Value>, key: string): Option<Value>
  {
    if key in m then Some(m[key]) else None
  }

  /** The text of `${v || ''}`: a falsy answer collapses to the empty string. */
  function CellText(v: Option<Value>): string
  {
    if Truthy(v) then Show(v.value) else ""
  }

  /** The header cells: the first column's title, then each field's label in field order. */
  function HeaderCells(form: Form): seq<string>
  {
    [SubmittedAt] + seq(|form.fields|, j requires 0 <= j < |form.fields| => form.fields[j].caption)
  }

  /** The cells of one data row: the formatted submission time, then one answer per field. */
  function RowCells(form: Form, r: FormResponse, fmt: int -> string): seq<string>
  {
    [fmt(r.submittedAt)]
      + seq(|form.fields|, j requires 0 <= j < |form.fields| =>
              CellText(Lookup(r.responses, form.fields[j].id)))
  }

  /** A cell wrapped in double quotes, with no escaping of quotes inside it. */
  function Quote(cell: string): string
  {
    "\"" + cell + "\""
  }

  function QuoteAll(cells: seq<string>): seq<string>
  {
    seq(|cells|, i requires 0 <= i < |cells| => Quote(cells[i]))
  }

  /** The header line: its cells joined by commas, unquoted. */
  function HeaderLine(form: Form): string
  {
    Join(HeaderCells(form), ',')
  }

  /** One data line: its cells quoted, then joined by commas. */
  function RowLine(form: Form, r: FormResponse, fmt: int -> string): string
  {
    Join(QuoteAll(RowCells(form, r, fmt)), ',')
  }

  /** The lines of the export: the header, then one per response in input order. */
  function Lines(form: Form, responses: seq<FormResponse>, fmt: int -> string): seq<string>
  {
    [HeaderLine(form)]
      + seq(|responses|, i requires 0 <= i < |responses| => RowLine(form, responses[i], fmt))
  }

  /** The exported text: the lines joined by newlines. */
  function ExportCsv(form: Form, responses: seq<FormResponse>, fmt: int -> string): string
  {
    Join(Lines(form, responses, fmt), '\n')
  }

  /** An empty cell is exactly a missing or falsy answer; a truthy one is rendered as itself. */
  lemma CellTextEmpty(v: Option<Value>)
    ensures CellText(v) == "" <==> !Truthy(v)
    ensures v.Some? && v.value.VStr? ==> CellText(v) == v.value.str
    ensures v.Some? && v.value.VBool? ==> CellText(v) == if v.value.b then "true" else ""
  {
  }

  /** The header has one column per field plus the first, in field order. */
  lemma HeaderShape(form: Form)
    ensures |HeaderCells(form)| == 1 + |form.fields|
    ensures HeaderCells(form)[0] == SubmittedAt
    ensures forall j :: 0 <= j < |form.fields| ==> HeaderCells(form)[j + 1] == form.fields[j].caption
  {
  }

  /** Each data row has one cell per field plus the first, each from the right place. */
  lemma RowShape(form: Form, r: FormResponse, fmt: int -> string)
    ensures |RowCells(form, r, fmt)| == 1 + |form.fields|
    ensures RowCells(form, r, fmt)[0] == fmt(r.submittedAt)
    ensures forall j :: 0 <= j < |form.fields| ==>
      RowCells(form, r, fmt)[j + 1] == (if form.fields[j].id in r.responses && Truthy(Some(r.responses[form.fields[j].id]))
                                        then Show(r.responses[form.fields[j].id]) else "")
  {
  }

  /** With no responses the export is the header line alone. */
  lemma ExportEmpty(form: Form, fmt: int -> string)
    ensures ExportCsv(form, [], fmt) == Join(HeaderCells(form), ',')
  {
  }

  /** With at least one response the text ends in a closing quote, not a newline. */
  lemma ExportEndsWithQuote(form: Form, responses: seq<FormResponse>, fmt: int -> string)
    requires |responses| > 0
    ensures |ExportCsv(form, responses, fmt)| > 0
    ensures ExportCsv(form, responses, fmt)[|ExportCsv(form, responses, fmt)| - 1] == '"'
  {
    var last := responses[|responses| - 1];
    var cells := QuoteAll(RowCells(form, last, fmt));
    var ln := Lines(form, responses, fmt);
    JoinLast(cells, ',');
    assert ln[|ln| - 1] == RowLine(form, last, fmt);
    JoinLast(ln, '\n');
  }

  /** No header cell holds `c`. */
  predicate HeaderFree(form: Form, c: char)
  {
    c !in SubmittedAt && forall j :: 0 <= j < |form.fields| ==> c !in form.fields[j].caption
  }

  /** No cell of any data row holds `c`. */
  predicate RowsFree(form: Form, responses: seq<FormResponse>, fmt: int -> string, c: char)
  {
    forall i, k :: 0 <= i < |responses| && 0 <= k < |RowCells(form, responses[i], fmt)| ==>
      c !in RowCells(form, responses[i], fmt)[k]
  }

  /** Quoting adds no character but the quote itself. */
  lemma QuoteFree(cell: string, c: char)
    requires c != '"' && c !in cell
    ensures c !in Quote(cell)
  {
  }

  /**
   * When no label, answer or formatted time holds a newline, the text splits
   * back into exactly 1 + |responses| lines: the header, then each
   * response's row in input order.
   */
  lemma ExportLines(form: Form, responses: seq<FormResponse>, fmt: int -> string)
    requires HeaderFree(form, '\n') && RowsFree(form, responses, fmt, '\n')
    ensures Split(ExportCsv(form, responses, fmt), '\n') == Lines(form, responses, fmt)
    ensures |Lines(form, responses, fmt)| == 1 + |responses|
    ensures Lines(form, responses, fmt)[0] == Join(HeaderCells(form), ',')
    ensures forall i :: 0 <= i < |responses| ==>
      Lines(form, responses, fmt)[i + 1] == Join(QuoteAll(RowCells(form, responses[i], fmt)), ',')
  {
    var ln := Lines(form, responses, fmt);
    forall i | 0 <= i < |ln| ensures '\n' !in ln[i] {
      if i == 0 {
        JoinFree(HeaderCells(form), ',', '\n');
      } else {
        var cells := RowCells(form, responses[i - 1], fmt);
        forall k | 0 <= k < |QuoteAll(cells)| ensures '\n' !in QuoteAll(cells)[k] {
          QuoteFree(cells[k], '\n');
        }
        JoinFree(QuoteAll(cells), ',', '\n');
      }
    }
    SplitJoin(ln, '\n');
  }

  /** A join of pieces that do not hold `c`, by a separator other than `c`, does not hold `c`. */
  lemma {:induction false} JoinFree(xs: seq<string>, sep: char, c: char)
    requires c != sep
    requires forall i :: 0 <= i < |xs| ==> c !in xs[i]
    ensures c !in Join(xs, sep)
  {
    if |xs| > 1 {
      JoinFree(xs[1..], sep, c);
    }
  }

  /**
   * When no label holds a comma, the header line splits back into
   * "Submitted At" and the labels.
   */
  lemma HeaderColumns(form: Form)
    requires HeaderFree(form, ',')
    ensures Split(HeaderLine(form), ',') == HeaderCells(form)
  {
    SplitJoin(HeaderCells(form), ',');
  }

  /** The position of the first double quote in `s`, or `|s|` when there is none. */
  function FindQuote(s: string): (k: nat)
    ensures k <= |s|
    ensures k < |s| ==> s[k] == '"'
    ensures forall j :: 0 <= j < k ==> s[j] != '"'
  {
    if s == [] then 0 else if s[0] == '"' then 0 else 1 + FindQuote(s[1..])
  }

  /**
   * A reader of a data line: quoted cells separated by commas, where a cell
   * ends at the next double quote (a quoted cell that holds no quote reads
   * the same under the common CSV convention). `None` for a malformed line.
   */
  function ReadRow(s: string): Option<seq<string>>
    decreases |s|
  {
    if s == [] || s[0] != '"' then None
    else
      var body := s[1..];
      var k := FindQuote(body);
      if k == |body| then None
      else
        var after := body[k + 1..];
        if after == [] then Some([body[..k]])
        else if after[0] != ',' then None
        else
          match ReadRow(after[1..])
          case None => None
          case Some(cells) => Some([body[..k]] + cells)
  }

  /** The reader takes a quoted cell to its first closing quote. */
  lemma {:induction false} FindQuoteAfter(c: string, t: string)
    requires '"' !in c
    ensures FindQuote(c + "\"" + t) == |c|
  {
    if c != [] {
      assert (c + "\"" + t)[1..] == c[1..] + "\"" + t;
      assert '"' !in c[1..] by {
        assert forall x :: x in c[1..] ==> x in c;
      }
      FindQuoteAfter(c[1..], t);
    }
  }

  /** A line that is one quoted cell reads as that cell. */
  lemma ReadLastCell(c: string)
    requires '"' !in c
    ensures ReadRow(Quote(c)) == Some([c])
  {
    var line := Quote(c);
    assert line[1..] == c + "\"" + "";
    FindQuoteAfter(c, "");
    assert line[1..][..|c|] == c;
    assert line[1..][|c| + 1..] == [];
  }

  /** A quoted cell followed by a comma reads as that cell, then the rest of the line. */
  lemma ReadCellThenRest(c: string, t: string)
    requires '"' !in c
    ensures ReadRow(Quote(c) + [','] + t) ==
      match ReadRow(t)
      case None => None
      case Some(cells) => Some([c] + cells)
  {
    var line := Quote(c) + [','] + t;
    assert line[1..] == c + "\"" + ([','] + t);
    FindQuoteAfter(c, [','] + t);
    assert line[1..][..|c|] == c;
    assert line[1..][|c| + 1..] == [','] + t;
    assert ([','] + t)[1..] == t;
  }

  /** The quoted line of two or more cells: the first quoted cell, a comma, the rest. */
  lemma JoinQuotedCons(cells: seq<string>)
    requires |cells| >= 2
    ensures Join(QuoteAll(cells), ',') == Quote(cells[0]) + [','] + Join(QuoteAll(cells[1..]), ',')
  {
    assert QuoteAll(cells)[1..] == QuoteAll(cells[1..]);
  }

  /** The reader gives back every quoted line of cells that hold no double quote. */
  lemma {:induction false} ReadQuotedCells(cells: seq<string>)
    requires |cells| >= 1
    requires forall k :: 0 <= k < |cells| ==> '"' !in cells[k]
    ensures ReadRow(Join(QuoteAll(cells), ',')) == Some(cells)
  {
    if |cells| == 1 {
      assert Join(QuoteAll(cells), ',') == Quote(cells[0]);
      ReadLastCell(cells[0]);
      assert cells == [cells[0]];
    } else {
      var rest := Join(QuoteAll(cells[1..]), ',');
      JoinQuotedCons(cells);
      ReadQuotedCells(cells[1..]);
      ReadCellThenRest(cells[0], rest);
      assert cells == [cells[0]] + cells[1..];
    }
  }

  /**
   * When no answer or formatted time holds a double quote, each data line
   * reads back as its 1 + |form.fields| cells, commas inside cells included.
   */
  lemma RowColumns(form: Form, r: FormResponse, fmt: int -> string)
    requires forall k :: 0 <= k < |RowCells(form, r, fmt)| ==> '"' !in RowCells(form, r, fmt)[k]
    ensures ReadRow(RowLine(form, r, fmt)) == Some(RowCells(form, r, fmt))
    ensures |RowCells(form, r, fmt)| == 1 + |form.fields|
  {
    ReadQuotedCells(RowCells(form, r, fmt));
  }

  /**
   * Quotes inside a cell are not escaped, so a cell holding `","` reads back
   * as two cells: the one answer `a","b` is read as `a` and `b`, never as
   * itself.
   */
  lemma UnescapedQuoteMisread(a: string, b: string)
    requires '"' !in a && '"' !in b
    ensures ReadRow(Quote(a + "\",\"" + b)) == Some([a, b])
    ensures ReadRow(Quote(a + "\",\"" + b)) != Some([a + "\",\"" + b])
  {
    assert Quote(a + "\",\"" + b) == Quote(a) + [','] + Quote(b);
    ReadLastCell(b);
    ReadCellThenRest(a, Quote(b));
    assert [a, b] == [a] + [b];
  }

  /**
   * The export reads nothing of a form but its fields' labels and ids, and
   * nothing of a response but its time and the answers under those ids: in
   * particular a field's kind does not matter (a checkbox is not shown as a
   * glyph).
   */
  lemma ExportDependsOnLabelsAndIds(f1: Form, f2: Form, responses: seq<FormResponse>, fmt: int -> string)
    requires |f1.fields| == |f2.fields|
    requires forall j :: 0 <= j < |f1.fields| ==>
      f1.fields[j].caption == f2.fields[j].caption && f1.fields[j].id == f2.fields[j].id
    ensures ExportCsv(f1, responses, fmt) == ExportCsv(f2, responses, fmt)
  {
    assert HeaderCells(f1) == HeaderCells(f2);
    forall i | 0 <= i < |responses| ensures RowCells(f1, responses[i], fmt) == RowCells(f2, responses[i], fmt) {
    }
    assert Lines(f1, responses, fmt) == Lines(f2, responses, fmt);
  }

  /**
   * A form with one text field "Name" and one response answering "Bob": the
   * header comes out unquoted, the data row quoted.
   */
  lemma ExportOneAnswer(t: int, fmt: int -> string)
    ensures var form := Form("form-1", "People", "", [FormField("f1", Text, "Name", true, None, None)], 0, 0);
      var r := FormResponse("resp-1", "form-1", map["f1" := VStr("Bob")], t);
      ExportCsv(form, [r], fmt) == "Submitted At,Name\n\"" + fmt(t) + "\",\"Bob\""
  {
    var form := Form("form-1", "People", "", [FormField("f1", Text, "Name", true, None, None)], 0, 0);
    var r := FormResponse("resp-1", "form-1", map["f1" := VStr("Bob")], t);
    assert HeaderCells(form) == ["Submitted At", "Name"];
    assert RowCells(form, r, fmt) == [fmt(t), "Bob"];
    assert QuoteAll(RowCells(form, r, fmt)) == [Quote(fmt(t)), Quote("Bob")];
    assert HeaderLine(form) == "Submitted At" + [','] + Join(["Name"], ',');
    assert RowLine(form, r, fmt) == Quote(fmt(t)) + [','] + Join([Quote("Bob")], ',');
    assert Lines(form, [r], fmt) == [HeaderLine(form), RowLine(form, r, fmt)];
    assert ExportCsv(form, [r], fmt) == HeaderLine(form) + ['\n'] + Join([RowLine(form, r, fmt)], '\n');
  }
}
