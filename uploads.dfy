/** The extension check applied to uploaded template files. */
module Uploads {
  import opened Wrappers
  import opened Text

  const AllowedExtensions: set<string> := {"jpg", "pdf"}

  /** Index of the last '.' in `s`, if any. */
  function LastDot(s: string): (r: Option<nat>)
    ensures r.Some? ==> r.value < |s| && s[r.value] == '.' && forall j :: r.value < j < |s| ==> s[j] != '.'
    ensures r.None? ==> forall j :: 0 <= j < |s| ==> s[j] != '.'
  {
    if s == [] then None
    else if s[|s| - 1] == '.' then Some(|s| - 1)
    else LastDot(s[..|s| - 1])
  }

  /** The text after the last '.', lower-cased, is an allowed extension. */
  predicate HasAllowedExtension(filename: string)
  {
    exists i :: 0 <= i < |filename| && filename[i] == '.'
      && (forall j :: i < j < |filename| ==> filename[j] != '.')
      && Lower(filename[i + 1..]) in AllowedExtensions
  }

  /**
   * `allowed_file`: the name must contain a dot, and the text after its last
   * dot, lower-cased, must be one of the allowed extensions.
   */
  function AllowedFile(filename: string): (ok: bool)
    ensures ok <==> HasAllowedExtension(filename)
  {
    match LastDot(filename)
    case None => false
    case Some(i) =>
      var ok := Lower(filename[i + 1..]) in AllowedExtensions;
      assert ok ==> HasAllowedExtension(filename);
      assert HasAllowedExtension(filename) ==> ok by {
        if HasAllowedExtension(filename) {
          var i' :| 0 <= i' < |filename| && filename[i'] == '.'
            && (forall j :: i' < j < |filename| ==> filename[j] != '.')
            && Lower(filename[i' + 1..]) in AllowedExtensions;
          assert i' == i;
        }
      }
      ok
  }

  /**
   * A name ending in '.' followed by a dot-free extension is judged by that
   * extension alone, whatever the stem holds (dots included).
   */
  lemma ExtensionDecides(stem: string, ext: string)
    requires forall k :: 0 <= k < |ext| ==> ext[k] != '.'
    ensures AllowedFile(stem + "." + ext) <==> Lower(ext) in AllowedExtensions
  {
    var s := stem + "." + ext;
    assert s[|stem|] == '.';
    assert forall k :: |stem| < k < |s| ==> s[k] == ext[k - |stem| - 1];
    assert s[|stem| + 1..] == ext;
    assert LastDot(s) == Some(|stem|);
  }

  /** The PDF template name passes. */
  lemma PdfTemplateAllowed()
    ensures AllowedFile("certificate-template.pdf")
  {
    assert "certificate-template.pdf" == "certificate-template" + "." + "pdf";
    assert Lower("pdf") == "pdf";
    ExtensionDecides("certificate-template", "pdf");
  }

  /** The image template name passes. */
  lemma JpgTemplateAllowed()
    ensures AllowedFile("certificate-template.jpg")
  {
    assert "certificate-template.jpg" == "certificate-template" + "." + "jpg";
    assert Lower("jpg") == "jpg";
    ExtensionDecides("certificate-template", "jpg");
  }

  /** The extension is compared case-insensitively. */
  lemma UpperCaseExtensionAllowed()
    ensures AllowedFile("scan.PDF")
  {
    assert "scan.PDF" == "scan" + "." + "PDF";
    assert Lower("PDF") == "pdf";
    ExtensionDecides("scan", "PDF");
  }

  /** A name without any '.' is refused, even when it spells an extension. */
  lemma NoDotRejected(filename: string)
    requires forall k :: 0 <= k < |filename| ==> filename[k] != '.'
    ensures !AllowedFile(filename)
  {
  }

  /** Only the text after the LAST '.' is checked. */
  lemma InnerExtensionIgnored()
    ensures !AllowedFile("notes.pdf.txt")
  {
    assert "notes.pdf.txt" == "notes.pdf" + "." + "txt";
    assert Lower("txt") == "txt";
    ExtensionDecides("notes.pdf", "txt");
  }
}
