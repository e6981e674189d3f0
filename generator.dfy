/** `CertificateGenerator`: path validation, the per-name certificate
    renderer, and the batch loop `generate_certificates`.

    The spreadsheet arrives already read: its column names, and per row the
    `str(...)` of the cells in the chosen name and email columns. The
    renderer (template filling, .docx to .pdf conversion, file clean-up) is
    an oracle: `renderFails(i)` says whether rendering fails when row `i`
    reaches it. Each row reaches the renderer at most once and rows are
    visited in order, so every pattern of renderer outcomes is some
    `renderFails`. */
module Certificates {
  import opened PyStr
  import opened Results
  import opened EmailCheck
  import opened NameFormat
  import opened Paths

  /** One participant row: `str(row[name_column])`, `str(row[email_column])`. */
  datatype Row = Row(name: string, email: string)

  datatype Table = Table(columns: seq<string>, rows: seq<Row>)

  /** The three parallel lists `generate_certificates` returns. */
  datatype Batch = Batch(pdfPaths: seq<string>, validEmails: seq<string>, formattedNames: seq<string>)

  /** `DataFrame.empty`: no rows or no columns. */
  predicate IsEmpty(table: Table) {
    table.rows == [] || table.columns == []
  }

  /** A certificate generator. `__init__` sets its three paths, and nothing
      reassigns them. `calls` records the name passed to each
      `create_certificate` call, in call order. */
  class CertificateGenerator {
    const excelPath: string
    const templatePath: string
    const outputDir: string
    ghost var calls: seq<string>

    constructor(excelPath: string, templatePath: string, outputDir: string)
      ensures this.excelPath == excelPath && this.templatePath == templatePath && this.outputDir == outputDir
      ensures calls == []
    {
      this.excelPath := excelPath;
      this.templatePath := templatePath;
      this.outputDir := outputDir;
      calls := [];
    }

    /** `validate_paths`; `excelExists` and `templateExists` are the answers
        of the file-system checks `Path.exists()`. */
    function ValidatePaths(excelExists: bool, templateExists: bool): Result<()> {
      if !excelExists || Suffix(excelPath) != ExcelSuffix then Failure(InvalidExcelPath)
      else if !templateExists || Suffix(templatePath) != TemplateSuffix then Failure(InvalidTemplatePath)
      else Success(())
    }

    /** `create_certificate(name)`: renders the template with `NAMA = name`,
        converts it and returns the PDF's path, or re-raises the failure. */
    method CreateCertificate(name: string, renderFails: bool) returns (r: Result<string>)
      modifies this
      ensures calls == old(calls) + [name]
      ensures r.Success? <==> !renderFails
      ensures r.Success? ==> r.value == PdfPath(outputDir, name)
      ensures r.Failure? ==> r.error == RenderFailed(name)
    {
      calls := calls + [name];
      if renderFails {
        r := Failure(RenderFailed(name));
      } else {
        r := Success(PdfPath(outputDir, name));
      }
    }

    /** `generate_certificates(name_column, email_column)` over a table that
        `read_excel` has already read. Per row: skip it if the email is
        invalid, otherwise format the name and render; any failure skips the
        row and the loop goes on. */
    method GenerateCertificates(table: Table, nameColumn: string, emailColumn: string, renderFails: nat -> bool)
      returns (result: Result<Batch>)
      modifies this
      ensures IsEmpty(table) ==> result == Failure(EmptyTable)
      ensures !IsEmpty(table) && (nameColumn !in table.columns || emailColumn !in table.columns) ==>
        result == Failure(MissingColumns(nameColumn, emailColumn))
      ensures !IsEmpty(table) && nameColumn in table.columns && emailColumn in table.columns ==>
        result == Success(Expected(outputDir, CheckAll(table.rows), renderFails, |table.rows|))
      ensures result.Failure? ==> calls == old(calls)
      ensures result.Success? ==> calls == old(calls) + RendererCalls(CheckAll(table.rows), |table.rows|)
    {
      if IsEmpty(table) {
        return Failure(EmptyTable);
      }
      if nameColumn !in table.columns || emailColumn !in table.columns {
        return Failure(MissingColumns(nameColumn, emailColumn));
      }
      var rows := table.rows;
      ghost var cs := CheckAll(rows);
      var pdfPaths, validEmails, formattedNames := [], [], [];
      ghost var made: seq<string> := [];
      for i := 0 to |rows|
        invariant calls == old(calls) + made
        invariant made == RendererCalls(cs, i)
        invariant Batch(pdfPaths, validEmails, formattedNames) == Expected(outputDir, cs, renderFails, i)
      {
        var row := rows[i];
        var fails := renderFails(i);
        assert cs[i] == Check(row);
        if !ValidateEmail(row.email) {
          assert !ReachesRenderer(cs[i]);
          continue;
        }
        var formattedName := FormatName(row.name);
        if formattedName.Failure? {
          assert !ReachesRenderer(cs[i]);
          continue;
        }
        AppendOne(old(calls), made, formattedName.value);
        var pdfPath := CreateCertificate(formattedName.value, fails);
        made := made + [formattedName.value];
        if pdfPath.Failure? {
          assert !Survives(cs[i], fails);
          continue;
        }
        pdfPaths := pdfPaths + [pdfPath.value];
        validEmails := validEmails + [row.email];
        formattedNames := formattedNames + [formattedName.value];
      }
      result := Success(Batch(pdfPaths, validEmails, formattedNames));
    }
  }

  /** The paths pass exactly when both files exist, the spreadsheet's name
      ends in ".xlsx" and the template's in ".docx" (each after at least one
      other character of the file name); the spreadsheet is checked first. */
  lemma ValidatePathsAccepts(gen: CertificateGenerator, excelExists: bool, templateExists: bool)
    ensures gen.ValidatePaths(excelExists, templateExists).Success? <==>
      excelExists && EndsWithExtension(gen.excelPath, ExcelSuffix) &&
      templateExists && EndsWithExtension(gen.templatePath, TemplateSuffix)
    ensures !(excelExists && EndsWithExtension(gen.excelPath, ExcelSuffix)) ==>
      gen.ValidatePaths(excelExists, templateExists) == Failure(InvalidExcelPath)
  {
    assert IsExtension(ExcelSuffix);
    assert IsExtension(TemplateSuffix);
    SuffixIsExtension(gen.excelPath, ExcelSuffix);
    SuffixIsExtension(gen.templatePath, TemplateSuffix);
  }

  // ----- what generate_certificates computes -----

  /** What the loop finds out about one row before it calls the renderer:
      the row's email, whether that email passes `validate_email`, and what
      `format_name` makes of the row's name. */
  datatype Checked = Checked(email: string, emailValid: bool, formatted: Result<string>)

  function Check(row: Row): Checked {
    Checked(row.email, ValidateEmail(row.email), FormatName(row.name))
  }

  /** Every row of the table, checked. */
  function CheckAll(rows: seq<Row>): seq<Checked> {
    seq(|rows|, i requires 0 <= i < |rows| => Check(rows[i]))
  }

  /** The row gets past the email check and `format_name`, so the renderer is called. */
  predicate ReachesRenderer(c: Checked) {
    c.emailValid && c.formatted.Success?
  }

  /** The row ends up in the result. */
  predicate Survives(c: Checked, renderFails: bool) {
    ReachesRenderer(c) && !renderFails
  }

  /** The positions below `n` that `keep` selects, in increasing order. */
  function Positions(keep: nat -> bool, n: nat): seq<nat> {
    if n == 0 then []
    else Positions(keep, n - 1) + (if keep(n - 1) then [n - 1] else [])
  }

  /** Selects the rows that reach the renderer. */
  function Reaches(cs: seq<Checked>): nat -> bool {
    (i: nat) => i < |cs| && ReachesRenderer(cs[i])
  }

  /** Selects the rows that end up in the result. */
  function Survivors(cs: seq<Checked>, renderFails: nat -> bool): nat -> bool {
    (i: nat) => i < |cs| && Survives(cs[i], renderFails(i))
  }

  /** Positions, among the first `n` rows, of the rows that reach the renderer. */
  function Rendered(cs: seq<Checked>, n: nat): seq<nat> {
    Positions(Reaches(cs), n)
  }

  /** Positions, among the first `n` rows, of the rows that end up in the result. */
  function Kept(cs: seq<Checked>, renderFails: nat -> bool, n: nat): seq<nat> {
    Positions(Survivors(cs, renderFails), n)
  }

  /** The names `create_certificate` is called with while the loop goes
      through the first `n` rows, in call order. */
  function RendererCalls(cs: seq<Checked>, n: nat): seq<string>
    requires n <= |cs|
  {
    if n == 0 then []
    else if ReachesRenderer(cs[n - 1]) then RendererCalls(cs, n - 1) + [cs[n - 1].formatted.value]
    else RendererCalls(cs, n - 1)
  }

  /** Appending one element after a concatenation. */
  lemma AppendOne<T>(a: seq<T>, b: seq<T>, x: T)
    ensures (a + b) + [x] == a + (b + [x])
  {
  }

  /** `b` with one more certificate at its end. */
  function AddEntry(b: Batch, outputDir: string, email: string, formattedName: string): Batch {
    Batch(b.pdfPaths + [PdfPath(outputDir, formattedName)], b.validEmails + [email], b.formattedNames + [formattedName])
  }

  /** The batch the first `n` rows give: one certificate per surviving row,
      in row order. */
  function Expected(outputDir: string, cs: seq<Checked>, renderFails: nat -> bool, n: nat): (b: Batch)
    requires n <= |cs|
    ensures |b.pdfPaths| == |b.validEmails| == |b.formattedNames| <= n
  {
    if n == 0 then Batch([], [], [])
    else
      var b := Expected(outputDir, cs, renderFails, n - 1);
      var c := cs[n - 1];
      if Survives(c, renderFails(n - 1)) then AddEntry(b, outputDir, c.email, c.formatted.value)
      else b
  }

  /** Entry `k` of `b` is the certificate of the checked row `c`: its email,
      its formatted name, and the PDF path made from that name. */
  predicate EntryFor(b: Batch, k: nat, outputDir: string, c: Checked)
    requires k < |b.pdfPaths| && k < |b.validEmails| && k < |b.formattedNames|
  {
    c.formatted == Success(b.formattedNames[k]) &&
    b.validEmails[k] == c.email &&
    b.pdfPaths[k] == PdfPath(outputDir, b.formattedNames[k])
  }

  // ----- properties of the batch -----

  /** `Positions` lists each selected position below `n` once, in
      increasing order, and nothing else. */
  lemma {:induction false} PositionsExactly(keep: nat -> bool, n: nat)
    ensures |Positions(keep, n)| <= n
    ensures forall k :: 0 <= k < |Positions(keep, n)| ==> Positions(keep, n)[k] < n && keep(Positions(keep, n)[k])
    ensures forall k, l :: 0 <= k < l < |Positions(keep, n)| ==> Positions(keep, n)[k] < Positions(keep, n)[l]
    ensures forall i :: 0 <= i < n ==> (i in Positions(keep, n) <==> keep(i))
  {
    if n > 0 {
      PositionsExactly(keep, n - 1);
    }
  }

  /** The kept rows are listed in row order, each once, and a row among the
      first `n` is kept exactly when its email is valid, `format_name`
      accepts its name and its own rendering does not fail. */
  lemma KeptRows(rows: seq<Row>, renderFails: nat -> bool, n: nat)
    requires n <= |rows|
    ensures |Kept(CheckAll(rows), renderFails, n)| <= n
    ensures forall k :: 0 <= k < |Kept(CheckAll(rows), renderFails, n)| ==> Kept(CheckAll(rows), renderFails, n)[k] < n
    ensures forall k, l :: 0 <= k < l < |Kept(CheckAll(rows), renderFails, n)| ==>
      Kept(CheckAll(rows), renderFails, n)[k] < Kept(CheckAll(rows), renderFails, n)[l]
    ensures forall i :: 0 <= i < n ==>
      (i in Kept(CheckAll(rows), renderFails, n) <==>
       ValidateEmail(rows[i].email) && FormatName(rows[i].name).Success? && !renderFails(i))
  {
    var cs := CheckAll(rows);
    var keep := Survivors(cs, renderFails);
    PositionsExactly(keep, n);
    forall i | 0 <= i < n
      ensures keep(i) == (ValidateEmail(rows[i].email) && FormatName(rows[i].name).Success? && !renderFails(i))
    {
      assert cs[i] == Check(rows[i]);
    }
  }

  /** The renderer is called, in row order, exactly for the rows whose
      email is valid and whose name `format_name` accepts: a row with an
      invalid email never reaches it. A rendered row is kept unless its own
      rendering fails, and every kept row was rendered. */
  lemma RenderedRows(rows: seq<Row>, renderFails: nat -> bool, n: nat)
    requires n <= |rows|
    ensures forall k, l :: 0 <= k < l < |Rendered(CheckAll(rows), n)| ==>
      Rendered(CheckAll(rows), n)[k] < Rendered(CheckAll(rows), n)[l]
    ensures forall i :: 0 <= i < n ==>
      (i in Rendered(CheckAll(rows), n) <==> ValidateEmail(rows[i].email) && FormatName(rows[i].name).Success?)
    ensures forall i :: 0 <= i < n ==>
      (i in Kept(CheckAll(rows), renderFails, n) <==> i in Rendered(CheckAll(rows), n) && !renderFails(i))
  {
    var cs := CheckAll(rows);
    var reach := Reaches(cs);
    PositionsExactly(reach, n);
    KeptRows(rows, renderFails, n);
    forall i | 0 <= i < n
      ensures reach(i) == (ValidateEmail(rows[i].email) && FormatName(rows[i].name).Success?)
    {
      assert cs[i] == Check(rows[i]);
    }
  }

  /** The renderer's `k`-th call is for the `k`-th rendered row, with the
      name `format_name` made of that row's name. */
  lemma RendererCallsRows(rows: seq<Row>, n: nat)
    requires n <= |rows|
    ensures |RendererCalls(CheckAll(rows), n)| == |Rendered(CheckAll(rows), n)|
    ensures forall k :: 0 <= k < |RendererCalls(CheckAll(rows), n)| ==>
      Rendered(CheckAll(rows), n)[k] < n &&
      FormatName(rows[Rendered(CheckAll(rows), n)[k]].name) == Success(RendererCalls(CheckAll(rows), n)[k])
  {
    var cs := CheckAll(rows);
    var ps := Rendered(cs, n);
    RendererCallsAreRendered(cs, n);
    forall k | 0 <= k < |ps|
      ensures FormatName(rows[ps[k]].name) == Success(RendererCalls(cs, n)[k])
    {
      assert cs[ps[k]] == Check(rows[ps[k]]);
    }
  }

  /** The renderer calls are the formatted names of the rendered rows, in order. */
  lemma {:induction false} RendererCallsAreRendered(cs: seq<Checked>, n: nat)
    requires n <= |cs|
    ensures |RendererCalls(cs, n)| == |Rendered(cs, n)|
    ensures forall k :: 0 <= k < |Rendered(cs, n)| ==>
      Rendered(cs, n)[k] < n && cs[Rendered(cs, n)[k]].formatted == Success(RendererCalls(cs, n)[k])
  {
    if n > 0 {
      RendererCallsAreRendered(cs, n - 1);
      var calls, ps := RendererCalls(cs, n - 1), Rendered(cs, n - 1);
      if ReachesRenderer(cs[n - 1]) {
        assert Reaches(cs)(n - 1);
        assert Rendered(cs, n) == ps + [n - 1];
        assert RendererCalls(cs, n) == calls + [cs[n - 1].formatted.value];
      } else {
        assert !Reaches(cs)(n - 1);
        assert Rendered(cs, n) == ps;
      }
    }
  }

  /** The batch holds one entry per kept row, in order. */
  lemma {:induction false} ExpectedIsKept(outputDir: string, cs: seq<Checked>, renderFails: nat -> bool, n: nat)
    requires n <= |cs|
    ensures |Expected(outputDir, cs, renderFails, n).pdfPaths| == |Kept(cs, renderFails, n)|
    ensures forall k :: 0 <= k < |Kept(cs, renderFails, n)| ==>
      Kept(cs, renderFails, n)[k] < n &&
      EntryFor(Expected(outputDir, cs, renderFails, n), k, outputDir, cs[Kept(cs, renderFails, n)[k]])
  {
    if n > 0 {
      ExpectedIsKept(outputDir, cs, renderFails, n - 1);
      var b := Expected(outputDir, cs, renderFails, n - 1);
      var kept := Kept(cs, renderFails, n - 1);
      var c := cs[n - 1];
      if Survives(c, renderFails(n - 1)) {
        var b' := AddEntry(b, outputDir, c.email, c.formatted.value);
        var kept' := kept + [n - 1];
        assert Expected(outputDir, cs, renderFails, n) == b';
        assert Kept(cs, renderFails, n) == kept';
        forall k | 0 <= k < |kept'|
          ensures kept'[k] < n && EntryFor(b', k, outputDir, cs[kept'[k]])
        {
          if k < |kept| {
            assert kept'[k] == kept[k];
            assert EntryFor(b, k, outputDir, cs[kept[k]]);
          }
        }
      }
    }
  }

  /** Entry `k` of the returned lists is the certificate of the `k`-th kept
      row: that row's email, the `format_name` of its name, and the PDF
      path made from that name. */
  lemma ExpectedEntries(outputDir: string, rows: seq<Row>, renderFails: nat -> bool, b: Batch, kept: seq<nat>)
    requires b == Expected(outputDir, CheckAll(rows), renderFails, |rows|)
    requires kept == Kept(CheckAll(rows), renderFails, |rows|)
    ensures |b.pdfPaths| == |b.validEmails| == |b.formattedNames| == |kept|
    ensures forall k :: 0 <= k < |kept| ==>
      kept[k] < |rows| &&
      FormatName(rows[kept[k]].name) == Success(b.formattedNames[k]) &&
      b.validEmails[k] == rows[kept[k]].email &&
      b.pdfPaths[k] == PdfPath(outputDir, b.formattedNames[k])
  {
    var cs := CheckAll(rows);
    ExpectedIsKept(outputDir, cs, renderFails, |rows|);
    forall k | 0 <= k < |kept|
      ensures kept[k] < |rows| &&
        FormatName(rows[kept[k]].name) == Success(b.formattedNames[k]) &&
        b.validEmails[k] == rows[kept[k]].email &&
        b.pdfPaths[k] == PdfPath(outputDir, b.formattedNames[k])
    {
      assert EntryFor(b, k, outputDir, cs[kept[k]]);
      assert cs[kept[k]] == Check(rows[kept[k]]);
    }
  }

  /** What the caller of `generate_certificates` gets: every returned email
      passes `validate_email`, and two returned certificates share a path
      exactly when they share a name. */
  lemma BatchFacts(outputDir: string, rows: seq<Row>, renderFails: nat -> bool, b: Batch)
    requires b == Expected(outputDir, CheckAll(rows), renderFails, |rows|)
    ensures forall k :: 0 <= k < |b.validEmails| ==> ValidateEmail(b.validEmails[k])
    ensures forall k, l :: 0 <= k < |b.pdfPaths| && 0 <= l < |b.pdfPaths| ==>
      (b.pdfPaths[k] == b.pdfPaths[l] <==> b.formattedNames[k] == b.formattedNames[l])
  {
    var kept := Kept(CheckAll(rows), renderFails, |rows|);
    KeptRows(rows, renderFails, |rows|);
    ExpectedEntries(outputDir, rows, renderFails, b, kept);
    forall k | 0 <= k < |b.validEmails|
      ensures ValidateEmail(b.validEmails[k])
    {
      assert kept[k] in kept;
    }
    forall k, l | 0 <= k < |b.pdfPaths| && 0 <= l < |b.pdfPaths|
      ensures b.pdfPaths[k] == b.pdfPaths[l] <==> b.formattedNames[k] == b.formattedNames[l]
    {
      PdfPathInjective(outputDir, b.formattedNames[k], b.formattedNames[l]);
    }
  }

  /** `s` without the entry `j`. */
  function Without(s: seq<nat>, j: nat): seq<nat> {
    if s == [] then []
    else Without(s[..|s| - 1], j) + (if s[|s| - 1] == j then [] else [s[|s| - 1]])
  }

  lemma WithoutAppend(s: seq<nat>, t: seq<nat>, j: nat)
    requires |t| <= 1
    ensures Without(s + t, j) == Without(s, j) + Without(t, j)
  {
    if t != [] {
      assert (s + t)[..|s + t| - 1] == s;
      assert t[..0] == [];
    } else {
      assert s + t == s;
    }
  }

  /** Changing the selection at `j` alone changes the positions at `j` alone. */
  lemma {:induction false} PositionsIsolated(keep: nat -> bool, keep': nat -> bool, j: nat, n: nat)
    requires forall i :: i != j ==> keep(i) == keep'(i)
    ensures Without(Positions(keep, n), j) == Without(Positions(keep', n), j)
  {
    if n > 0 {
      PositionsIsolated(keep, keep', j, n - 1);
      WithoutAppend(Positions(keep, n - 1), if keep(n - 1) then [n - 1] else [], j);
      WithoutAppend(Positions(keep', n - 1), if keep'(n - 1) then [n - 1] else [], j);
    }
  }

  /** A rendering failure on row `j` costs row `j` only: whatever happens
      to it, the other rows are kept, in the same order, exactly as before. */
  lemma RenderFailureIsolated(rows: seq<Row>, f: nat -> bool, g: nat -> bool, j: nat, n: nat)
    requires n <= |rows|
    requires forall i :: i != j ==> f(i) == g(i)
    ensures Without(Kept(CheckAll(rows), f, n), j) == Without(Kept(CheckAll(rows), g, n), j)
  {
    var cs := CheckAll(rows);
    PositionsIsolated(Survivors(cs, f), Survivors(cs, g), j, n);
  }

  /** The number of rows, among the first `n`, whose email is invalid. */
  function InvalidEmails(cs: seq<Checked>, n: nat): nat
    requires n <= |cs|
  {
    if n == 0 then 0
    else InvalidEmails(cs, n - 1) + (if cs[n - 1].emailValid then 0 else 1)
  }

  lemma {:induction false} KeptCountChecked(cs: seq<Checked>, renderFails: nat -> bool, n: nat)
    requires n <= |cs|
    requires forall i :: 0 <= i < |cs| ==> !renderFails(i) && cs[i].formatted.Success?
    ensures |Kept(cs, renderFails, n)| == n - InvalidEmails(cs, n)
  {
    if n > 0 {
      KeptCountChecked(cs, renderFails, n - 1);
      assert !renderFails(n - 1) && cs[n - 1].formatted.Success?;
    }
  }

  /** When no rendering fails and no name is empty, a table of `n` rows of
      which `m` have an invalid email yields exactly `n - m` certificates. */
  lemma {:induction false} KeptCountWhenAllRender(rows: seq<Row>, renderFails: nat -> bool, n: nat)
    requires n <= |rows|
    requires forall i :: 0 <= i < |rows| ==> !renderFails(i) && rows[i].name != ""
    ensures |Kept(CheckAll(rows), renderFails, n)| == n - InvalidEmails(CheckAll(rows), n)
  {
    var cs := CheckAll(rows);
    forall i | 0 <= i < |rows|
      ensures cs[i].formatted.Success?
    {
      assert cs[i] == Check(rows[i]);
      FormatNameFailsOnlyOnEmpty(rows[i].name);
    }
    KeptCountChecked(cs, renderFails, n);
  }
}
