/** The `pathlib` operations the generator uses: the final component's
    suffix (`Path.suffix`, checked by `validate_paths`) and the certificate
    location `output_dir / f"{name}.pdf"`. Paths are strings in normal form
    (no trailing '/', no '.' components). */
module Paths {
  import opened PyStr

  const ExcelSuffix := ".xlsx"
  const TemplateSuffix := ".docx"
  const PdfSuffix := ".pdf"

  /** `Path(p).suffix`: from the last '.' of the final component (the part
      after the last '/'), provided that '.' is neither the component's
      first nor its last character; "" otherwise. A '.' before the last '/'
      is not in the final component. */
  function Suffix(p: string): string {
    var slash := LastIndexOf(p, '/');
    var dot := LastIndexOf(p, '.');
    if slash + 1 < dot < |p| - 1 then p[dot..] else ""
  }

  /** A suffix such as ".xlsx": a '.' and at least one more character, with
      no further '.' or '/'. */
  predicate IsExtension(ext: string) {
    |ext| >= 2 && ext[0] == '.' && forall i :: 1 <= i < |ext| ==> ext[i] != '.' && ext[i] != '/'
  }

  /** `p` ends in `ext`, and something other than '/' comes just before it. */
  ghost predicate EndsWithExtension(p: string, ext: string) {
    |ext| < |p| && p[|p| - |ext|..] == ext && p[|p| - |ext| - 1] != '/'
  }

  /** A suffix equal to `ext` means `p` ends in `ext`, after a character of
      the final component. */
  lemma SuffixEndsPath(p: string, ext: string)
    requires IsExtension(ext) && Suffix(p) == ext
    ensures EndsWithExtension(p, ext)
  {
    var slash := LastIndexOf(p, '/');
    var dot := LastIndexOf(p, '.');
    assert slash + 1 < dot < |p| - 1 && p[dot..] == ext;
    assert |p| - |ext| == dot;
    assert p[dot - 1] != '/';
  }

  /** When `p` ends in `ext` after a non-separator, its last '.' is the one
      that starts `ext`, and its last '/' comes earlier. */
  lemma PathEndsSuffix(p: string, ext: string)
    requires IsExtension(ext) && EndsWithExtension(p, ext)
    ensures Suffix(p) == ext
  {
    var e := |p| - |ext|;
    forall j | e < j < |p|
      ensures p[j] != '.' && p[j] != '/'
    {
      assert p[j] == p[e..][j - e];
    }
    assert p[e] == p[e..][0] == '.';
    assert LastIndexOf(p, '.') == e;
    assert LastIndexOf(p, '/') < e - 1;
  }

  /** `Path(p).suffix == ext` exactly when `p` ends in `ext` with a
      non-separator before it. */
  lemma SuffixIsExtension(p: string, ext: string)
    requires IsExtension(ext)
    ensures Suffix(p) == ext <==> EndsWithExtension(p, ext)
  {
    if Suffix(p) == ext {
      SuffixEndsPath(p, ext);
    }
    if EndsWithExtension(p, ext) {
      PathEndsSuffix(p, ext);
    }
  }

  /** `output_dir / f"{name}.pdf"`. */
  function PdfPath(outputDir: string, name: string): string {
    outputDir + "/" + name + PdfSuffix
  }

  /** Two certificates share a PDF path exactly when they share a name (the
      source does not tell same-named participants apart). */
  lemma PdfPathInjective(outputDir: string, a: string, b: string)
    ensures PdfPath(outputDir, a) == PdfPath(outputDir, b) <==> a == b
  {
    if PdfPath(outputDir, a) == PdfPath(outputDir, b) {
      var start := |outputDir| + 1;
      assert |a| == |b|;
      assert a == PdfPath(outputDir, a)[start..start + |a|];
      assert b == PdfPath(outputDir, b)[start..start + |b|];
    }
  }
}
