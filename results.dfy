/** Outcomes of the certificate generator's operations: a value, or the
    reason the source raises (every such raise is a ValueError or an
    exception re-raised from the renderer in buatSertifikat.py). */
module Results {

  datatype Result<+T> = Success(value: T) | Failure(error: Error)

  datatype Error =
    | InvalidExcelPath                 // validate_paths: missing file or suffix other than .xlsx
    | InvalidTemplatePath              // validate_paths: missing file or suffix other than .docx
    | EmptyTable                       // read_excel: the sheet has no rows or no columns
    | MissingColumns(nameColumn: string, emailColumn: string)
    | InvalidName                      // format_name: empty name
    | RenderFailed(name: string)       // create_certificate: rendering or conversion raised
}
