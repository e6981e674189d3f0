# Certificate generator: a Dafny model

This project models the core of the `CertificateGenerator` class of a
certificate batch tool. The tool reads a spreadsheet of seminar
participants, checks each participant's email address and normalises their
name, then renders one PDF certificate per participant from a Word
template. The model covers four parts of the class:

- `validate_email`: the anchored regular expression
  `^[a-zA-Z0-9._%+-]+@[a-zA-Z0-9.-]+\.[a-zA-Z]{2,}$`, matched with `re.match`.
- `format_name`: reject an empty name, keep the first three
  whitespace-separated words, apply `str.title()` to each word, and join
  them with single spaces.
- `create_certificate`: an oracle. It either fails, or succeeds and
  returns `output_dir/<name>.pdf`.
- `generate_certificates`: the batch loop.
  - It raises if the table is empty or if a requested column is missing.
  - It walks the rows in order.
  - It skips a row whose email is invalid, whose name is rejected, or whose
    rendering fails.
  - It appends each surviving row to three parallel lists.
- The suffix conditions of `validate_paths` are modelled too.

Layout:

| file | module | what it holds |
|---|---|---|
| `results.dfy` | `Results` | `Result` and the error kinds the source raises |
| `pystr.dfy` | `PyStr` | the Python `str` behaviour the core relies on: `isspace`, `split()`, `strip()`, `' '.join`, `title()`, `find`, `rfind`, with their laws |
| `email.dfy` | `EmailCheck` | `validate_email` as a scan, proved equal to the regular expression's meaning |
| `names.dfy` | `NameFormat` | `format_name` and its properties |
| `paths.dfy` | `Paths` | `Path.suffix` and the PDF location |
| `generator.dfy` | `Certificates` | `validate_paths`, `create_certificate`, and `generate_certificates` as a method with a loop |

Modelling choices:

- The regular expression is given meaning by `EmailCheck.PatternMatches`: some
  split of the string into local part, `@`, domain run, `.` and letters
  makes the whole string match. `$` without MULTILINE also matches just
  before one final newline, so `"a@b.co\n"` is accepted.
  `EmailCheck.ValidateEmail` is a backtracking-free scan: it takes the first
  `@` and the last `.`. It is proved to accept exactly the same strings.
- Whitespace is CPython's `str.isspace` set of code points, which is the set
  `split()` and `strip()` use. Casing treats only ASCII letters as cased
  (see Left out).
- `str.title()` works character by character. A character is upper-cased
  when it is first or follows an uncased character, and lower-cased
  otherwise. So `o'brien` becomes `O'Brien` and `3rd` becomes `3Rd`.
- The renderer is an oracle `renderFails: nat -> bool`, indexed by row
  position. Each row reaches the renderer at most once, and rows are
  visited in order. So any sequence of renderer outcomes is some
  `renderFails`.
- The table is already read. It is given as its column names plus, per row,
  `str(...)` of the cells in the chosen name and email columns. Before the
  column check, `generate_certificates` calls `read_excel`, which raises on
  an empty DataFrame (no rows or no columns). That check is modelled as
  `EmptyTable`.
- The generator is the class `Certificates.CertificateGenerator`. Its three
  paths are set once in `__init__` and never changed, so they are `const`
  fields. A ghost field `calls` logs, in order, the name passed to every
  `create_certificate` call. `CreateCertificate` is the only method that
  appends to it. `GenerateCertificates` states the calls it makes as the
  new value of that log.
- The loop's result is specified by `Certificates.Expected`, a function of
  the rows and the renderer's outcomes. It is built from the rows after
  their checks: a `Checked` value per row records the email,
  `validate_email` of the email, and `format_name` of the name.
  `Certificates.Kept` lists the positions of the rows that end up in the
  result, and `Certificates.Rendered` the positions of the rows the
  renderer was called for. Both are `Certificates.Positions` of a row
  selector. `Certificates.RendererCalls` lists the names the renderer is
  called with.
- `split()` is specified by positions: `PyStr.RunsFrom` says that token `k`
  is `s[starts[k]..ends[k]]`, that this is a maximal run of non-whitespace,
  that the runs are in order without overlap, and that together they cover
  every non-whitespace character.

Two behaviours of the code are easy to miss, and the model keeps both:

- Both a name column and an email column are always required
  (buatSertifikat.py:100). The tool has no mode without an email column.
- A formatted name can be empty. `format_name` rejects only `""`. A
  non-empty name made only of whitespace formats to `""`, and that row then
  gets a certificate at `output_dir/.pdf`.
  `NameFormat.FormatNameFailsOnlyOnEmpty` states this behaviour.

## Model

| member | source | states |
|---|---|---|
| `EmailCheck.ValidateEmail` | buatSertifikat.py:58-62 | `validate_email`. Its contract is carried by `ValidateEmailMatchesPattern` and `ValidEmailHasOneAt`. |
| `EmailCheck.ValidateEmailMatchesPattern` | buatSertifikat.py:58-62 | `validate_email(s)` is true exactly when the anchored pattern matches all of `s`, or all of `s` minus one final `\n`. The function is total, so it never raises. |
| `EmailCheck.AddressShapeIsFullMatch` | buatSertifikat.py:61 | Scanning for the first `@` and the last `.` accepts exactly the strings that some split of the regular expression matches in full. |
| `EmailCheck.ValidEmailHasOneAt` | buatSertifikat.py:61-62 | An accepted address has exactly one `@`, and it is not the first character. The only whitespace it can hold is one final newline. |
| `PyStr.Upper` | buatSertifikat.py:73 | Upper-casing leaves no lower-case letter, keeps letters letters, and changes nothing else. |
| `PyStr.Lower` | buatSertifikat.py:73 | Lower-casing leaves no upper-case letter, keeps letters letters, and changes nothing else. |
| `PyStr.Split` | buatSertifikat.py:71 | `split()` returns only non-empty tokens that contain no whitespace. Its full content is stated by `SplitRuns`. |
| `PyStr.SplitRuns` | buatSertifikat.py:71 | The tokens of `split()` are exactly the maximal runs of non-whitespace of `s`. Token `k` is `s[starts[k]..ends[k]]`. The runs are in order and do not overlap. Every non-whitespace character of `s` lies in one of them. |
| `PyStr.SplitStrip` | buatSertifikat.py:71 | `s.strip().split() == s.split()` |
| `PyStr.Strip` | buatSertifikat.py:71 | `strip()`. Its contract is carried by `StripStart` and `StripEnd` (only leading and trailing whitespace go) and by `SplitStrip`. |
| `PyStr.StripStart` | buatSertifikat.py:71 | `lstrip()` returns a suffix of `s` that does not start with whitespace, and everything it drops is whitespace. |
| `PyStr.StripEnd` | buatSertifikat.py:71 | `rstrip()` returns a prefix of `s` that does not end with whitespace, and everything it drops is whitespace. |
| `PyStr.JoinWords` | buatSertifikat.py:71-73 | `' '.join`. Its contract is carried by `SplitJoinWords` and `JoinWordsSingleSpaced`. |
| `PyStr.SplitJoinWords` | buatSertifikat.py:71-73 | Splitting `' '.join(words)` gives back exactly the words, so the second `split()` in `format_name` recovers the kept tokens. |
| `PyStr.JoinWordsSingleSpaced` | buatSertifikat.py:73 | `' '.join` of tokens has no whitespace at either end. Each whitespace character inside it is a single `' '` followed by a non-whitespace character. |
| `PyStr.SplitEmptyIffBlank` | buatSertifikat.py:71 | `split()` returns no tokens exactly when the string is all whitespace. |
| `PyStr.Title` | buatSertifikat.py:73 | `str.title()`. Its contract is carried by `TitleAt` and `TitleIdempotent`. |
| `PyStr.TitleAt` | buatSertifikat.py:73 | `title()` keeps the length. Position `i` is upper-cased when it is first or follows a non-letter, and lower-cased when it follows a letter. Non-letters are unchanged. |
| `PyStr.TitleIdempotent` | buatSertifikat.py:73 | `title()` is idempotent and keeps a token non-empty and free of whitespace. |
| `NameFormat.FormatName` | buatSertifikat.py:64-73 | `format_name`. Its contract is carried by the four `FormatName…` lemmas below. |
| `NameFormat.FormatNameDirect` | buatSertifikat.py:64-73 | For a non-empty name, `format_name` equals the `' '.join` of the title-cased first three tokens of `name.split()`. |
| `NameFormat.FormatNameFailsOnlyOnEmpty` | buatSertifikat.py:67-68 | `format_name` raises `ValueError` exactly on `""`. A non-empty name of whitespace only is accepted and yields `""`. |
| `NameFormat.FormatNameWords` | buatSertifikat.py:71-73 | The result has `min(3, n)` tokens, where `n` is the number of input tokens. Token `k` of the result is the title-case of input token `k`. The result is single-spaced, with no whitespace at either end. |
| `NameFormat.FormatNameIdempotent` | buatSertifikat.py:71-73 | When the result `r` is non-empty, `format_name(r) == r`. |
| `Paths.Suffix` | buatSertifikat.py:42-45 | `Path.suffix`. Its contract is carried by `SuffixIsExtension`. |
| `Paths.SuffixIsExtension` | buatSertifikat.py:42-45 | `Path(p).suffix == ext` holds exactly when `p` ends in `ext` and the character before `ext` is not `/`. This holds for `ext` such as `.xlsx` or `.docx`. |
| `Paths.PdfPath` | buatSertifikat.py:85 | `output_dir / f"{name}.pdf"`. Its contract is carried by `PdfPathInjective`. |
| `Paths.PdfPathInjective` | buatSertifikat.py:85 | Two PDF paths in the same output directory are equal exactly when the names are equal. Same-named participants therefore share one file. |
| `Certificates.CertificateGenerator.constructor` | buatSertifikat.py:13-25 | `__init__` stores the three paths. No `create_certificate` call has been made yet. |
| `Certificates.CertificateGenerator.ValidatePaths` | buatSertifikat.py:40-45 | `validate_paths`. Its contract is carried by `ValidatePathsAccepts`. |
| `Certificates.ValidatePathsAccepts` | buatSertifikat.py:40-45 | `validate_paths` passes exactly when both files exist, the spreadsheet ends in `.xlsx` and the template ends in `.docx`. A bad spreadsheet path is reported first. |
| `Certificates.CertificateGenerator.CreateCertificate` | buatSertifikat.py:75-94 | Each call is logged with its name. The renderer succeeds exactly when the oracle says so. On success it returns `output_dir + "/" + name + ".pdf"`. On failure it passes the failure on. |
| `Certificates.CertificateGenerator.GenerateCertificates` | buatSertifikat.py:96-128 | An empty table, or a missing name or email column, raises before any `create_certificate` call. Otherwise the method returns exactly the batch `Expected` gives for the table. It calls `create_certificate` exactly with the names `RendererCalls` lists, in that order, and makes no other call. |
| `Certificates.RendererCallsRows` | buatSertifikat.py:108-118 | The `k`-th `create_certificate` call is for the `k`-th row that reaches the renderer, with the name `format_name` gave for that row. |
| `Certificates.RendererCallsAreRendered` | buatSertifikat.py:112-118 | There is one renderer call per rendered row, in row order, each with that row's formatted name. |
| `Certificates.Expected` | buatSertifikat.py:104-126 | The three returned lists always have equal length, at most the number of rows looked at. |
| `Certificates.ExpectedIsKept` | buatSertifikat.py:108-126 | The batch has one entry per kept row, in the order of `Kept`. Each entry holds the row's email, the name `format_name` gave, and the PDF path made from that name. |
| `Certificates.ExpectedEntries` | buatSertifikat.py:108-126 | Entry `k` of the returned lists belongs to the `k`-th kept row. It holds that row's email and the `format_name` of its name. Its path is `output_dir/<formatted name>.pdf`. |
| `Certificates.KeptRows` | buatSertifikat.py:108-126 | Kept rows appear in increasing row order, each once, at most one per row. A row is kept exactly when its email is valid, `format_name` accepts its name, and its own rendering succeeds. |
| `Certificates.RenderedRows` | buatSertifikat.py:112-118 | The renderer is called, in row order, exactly for rows with a valid email and an accepted name, so an invalid email never reaches it. A rendered row is kept exactly when its rendering does not fail. |
| `Certificates.BatchFacts` | buatSertifikat.py:104-128 | Every returned email passes `validate_email`. Two returned PDF paths coincide exactly when the names do. |
| `Certificates.RenderFailureIsolated` | buatSertifikat.py:112-126 | Changing the renderer's outcome on row `j` changes the result on row `j` only. All other rows are kept or skipped as before, in the same order. |
| `Certificates.KeptCountChecked` | buatSertifikat.py:108-126 | If every row's name is accepted and no rendering fails, the kept rows number the rows looked at minus those with an invalid email. |
| `Certificates.KeptCountWhenAllRender` | buatSertifikat.py:108-126 | Suppose no rendering fails and no name is empty. Then a table of `n` rows, `m` of them with an invalid email, yields exactly `n - m` certificates. |

## Left out

- `main()` (buatSertifikat.py:130-183) is left out. It loads environment variables, prompts interactively and has a commented-out sending loop, all of which is I/O.
- `read_excel` parsing and `_setup_logging` are left out: parsing Excel files and configuring the logger are library I/O. The table is given already read, and only the `df.empty` check is kept. No log output is modelled.
- The rendering inside `create_certificate` is reduced to the oracle's success or failure: `DocxTemplate`, the `NAMA` placeholder, `mkdir`, saving the `.docx`, `docx2pdf.convert` and `unlink` are foreign library and file-system calls. The temporary `.docx` left behind on failure is not modelled.
- `Path.exists()` in `validate_paths` is file-system I/O. Its answers are boolean parameters.
- `pathlib` normalisation is left out. Paths are strings already in normal form. The model does not capture trailing `/`, `.` components, or a name containing `/` or starting with `/`, which `pathlib` would treat as subdirectories or as an absolute path.
- `PyStr.TitleAt`: casing covers ASCII letters only. Python also cases non-ASCII letters (for example `é` becomes `É` and counts as cased). The model leaves non-ASCII characters unchanged and uncased.
- Certificates.CertificateGenerator.CreateCertificate: only failures raised as `Exception` are caught (buatSertifikat.py:92, :124). A `BaseException` such as `KeyboardInterrupt` or `SystemExit` raised while rendering ends the whole batch instead. The oracle does not model this. `GenerateCertificates`, `KeptRows` and `RenderFailureIsolated` describe the outcome only when every rendering failure is an `Exception`.
- Non-string cells are left out. Each cell is modelled by its `str(...)`. The source appends the raw email cell to `valid_emails`, which is the same value whenever the cell is a string.
- main.py, sendemail.py and tes.py are not part of this model. They hold the interactive column picker, SMTP sending and a connectivity probe, all of which is I/O.
