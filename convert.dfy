/**
  The extension gate (doc2pdf.py:63 and :100) and `doc2pdf` (doc2pdf.py:55-75)
  with the Word automation replaced by an oracle.
 */
module Convert {
  import opened Options
  import opened Paths

  /** `path.endswith('.doc') or path.endswith('.docx')`, case-sensitive. */
  predicate IsWordPath(path: string)
  {
    EndsWith(path, ".doc") || EndsWith(path, ".docx")
  }

  /**
    The Word automation of lines 65-70 for one document and one destination:
    `None` when the whole sequence completes, `Some(message)` when it raises.
   */
  type Automation = (string, string) -> Option<string>

  /** The pair `doc2pdf` returns: the success flag and the error information. */
  datatype Reply = Reply(ok: bool, info: string)

  /**
    `doc2pdf(doc_path, pdf_path)`. A Word path reports the automation's
    outcome; any other path reports success, since the failure pair built at
    line 74 is discarded and control reaches `return True, ''`.
   */
  function Doc2Pdf(docPath: string, pdfPath: string, automation: Automation): (r: Reply)
    ensures r.ok <==> !IsWordPath(docPath) || automation(docPath, pdfPath).None?
    ensures r.ok ==> r.info == ""
    ensures !r.ok ==> r.info == automation(docPath, pdfPath).value
  {
    if IsWordPath(docPath) then
      match automation(docPath, pdfPath)
      case Some(e) => Reply(false, e)
      case None => Reply(true, "")
    else
      Reply(true, "")
  }

  /** A path whose extension, as `splitext` finds it, is `.doc` or `.docx` passes the gate. */
  lemma WordExtensionPassesGate(path: string)
    requires Splitext(path).1 == ".doc" || Splitext(path).1 == ".docx"
    ensures IsWordPath(path)
  {
    var (root, ext) := Splitext(path);
    assert path == root + ext;
    assert path[|path| - |ext|..] == ext;
  }

  /**
    The gate looks at the end of the string only: a file named `.doc` passes
    it although `splitext` sees no extension, and upper-case names fail it.
   */
  lemma GateIsTextual()
    ensures IsWordPath("/in/.doc") && Splitext("/in/.doc").1 == ""
    ensures !IsWordPath("/in/REPORT.DOC") && !IsWordPath("/in/notes.txt")
    ensures IsWordPath("/in/report.doc") && IsWordPath("/in/report.docx")
  {
    LastIndexUnique("/in/.doc", Sep, 3);
    LastIndexUnique("/in/.doc", ExtSep, 4);
  }

  /**
    A non-Word path is reported as converted even by an automation that
    always fails: the failure pair at line 74 is built and dropped.
   */
  lemma DiscardedFailure(automation: Automation)
    requires forall d, p :: automation(d, p).Some?
    ensures Doc2Pdf("/in/notes.txt", "/out/notes.pdf", automation) == Reply(true, "")
  {
  }

  /** The evidently intended `doc2pdf`: an unsupported extension is reported as a failure. */
  function Doc2PdfChecked(docPath: string, pdfPath: string, automation: Automation): (r: Reply)
    ensures r.ok <==> IsWordPath(docPath) && automation(docPath, pdfPath).None?
    ensures r.ok ==> r.info == ""
    ensures !IsWordPath(docPath) ==> r.info == UnsupportedFormat
    ensures IsWordPath(docPath) && !r.ok ==> r.info == automation(docPath, pdfPath).value
  {
    if IsWordPath(docPath) then
      match automation(docPath, pdfPath)
      case Some(e) => Reply(false, e)
      case None => Reply(true, "")
    else
      Reply(false, UnsupportedFormat)
  }

  const UnsupportedFormat := "The file format is not supported, only doc or docx formats are supported"

  /** On the paths the driver hands over, the intended `doc2pdf` agrees with the written one. */
  lemma CheckedAgreesOnWordPaths(docPath: string, pdfPath: string, automation: Automation)
    requires IsWordPath(docPath)
    ensures Doc2PdfChecked(docPath, pdfPath, automation).ok == Doc2Pdf(docPath, pdfPath, automation).ok
  {
  }
}
