# doc2pdf: a Dafny model of the batch Word-to-PDF converter

`doc2pdf.py` walks a source path, picks the files whose names end in `.doc`
or `.docx`, and asks Word, through COM automation, to save each one as a
PDF. It counts the files it tried (`total`), the ones converted (`success`)
and the ones that raised (`failed`). With `-t/--target` the PDFs go to a
directory tree under the target root that mirrors the source tree, when the
source is a directory whose path does not recur below it. A single-file
source sends its PDF to the parent of the target root (`-s /x/a.docx -t /out`
writes `/a.pdf`), and an inner occurrence of the source path is rewritten
too (see below).

The model covers the sequential logic around the automation:

- `options.dfy`: the `Option` type.
- `paths.dfy` (module `Paths`): the parts of Python's `posixpath` the
  script uses (`join`, `basename`, `dirname`, `splitext`), plus
  `str.endswith` and `str.replace`. Paths are `/`-separated strings.
- `file_tree.dfy` (module `FileTree`): `get_all_files` as a recursive method
  over an immutable tree of entries. It is proved equal to a specification
  function. Lemmas show the listing is complete and free of duplicates.
- `convert.dfy` (module `Convert`): the extension gate and `doc2pdf`. The
  Word automation is an oracle, a function from document and destination to
  `None` (completed) or `Some(message)` (raised).
- `remap.dfy` (module `Remap`): the destination computed at lines 92-98.
- `driver.dfy` (module `Driver`): the `__main__` loop.
  - `HandleFile` is one pass of the loop at line 91.
  - `RunScript` is the whole script.
  - Both are proved against the fold `Process` of the step function `Visit`.
  - Lemmas state what a run counts and when it stops.

A run ends as `Going(result, made)` when it finishes, or as
`NameError(file, result, made)` when it stops at line 104. `made` lists the
directories passed to `os.makedirs`, in order.

Three behaviours of the code differ from what it evidently intends; the model follows the code:

- The target directory replaces every occurrence of the source root. It does
  not re-root the path relative to the source.
- Without `--target` no destination is ever bound. The first Word file
  raises `NameError` rather than reusing an earlier destination or writing
  beside the document.
- For a file whose extension is not `.doc` or `.docx`, `doc2pdf` builds the
  failure pair at line 74 and drops it, so it reports success. The driver
  gates on the extension first (line 100), so the script never reaches that
  path.

## Model

| member | source | states |
|---|---|---|
| FileTree.GetAllFiles | doc2pdf.py:36-52 | for an absolute path, the list is the specification listing: entry order, sub-directory listings spliced in, file paths appended; `[]` for a missing path, `[path]` for a regular file |
| FileTree.WalkComplete | doc2pdf.py:43-50 | a path is in the listing if and only if it is a regular file reachable from the root |
| FileTree.WalkDistinct | doc2pdf.py:43-48 | under an absolute root, with unique entry names per directory, no path is listed twice |
| FileTree.ReachesUnder | doc2pdf.py:46-48 | every reachable file lies at or below the directory it was reached from |
| FileTree.AbsoluteChildPath | doc2pdf.py:46-48 | below an absolute directory, `join(path, entry)` is the directory, one separator and the entry name |
| FileTree.RelativeChildPath | doc2pdf.py:46-48 | below a relative directory the directory prefix is doubled (`docs` + `a.doc` gives `docs/docs/a.doc`); this is why the listing is stated for absolute roots only |
| Paths.LastIndex | doc2pdf.py:92 | the result is the last position of the character, or -1 when it does not occur |
| Paths.Basename | doc2pdf.py:96 | the base name is the part of the path after its last separator: a suffix without a separator, preceded by a separator unless it is the whole path |
| Paths.Dirname | doc2pdf.py:95 | the directory name is the head up to the last separator with its trailing separators removed, unless the head is all separators; empty exactly when the path has no separator |
| Paths.StripTrailingSeps | doc2pdf.py:95 | the result is a prefix without a trailing separator, and only separators were removed |
| Paths.SplitextParts | doc2pdf.py:92 | root plus extension is the path; the extension is empty or a dot followed by no separator and no further dot; it is non-empty exactly when the base name has a non-dot before a later dot, and then a non-dot precedes it |
| Paths.SplitextOfBasename | doc2pdf.py:92-96 | splitting a whole path is splitting its base name with the directory part kept in front |
| Paths.DirnameOfChild | doc2pdf.py:95 | the directory name of `d/name` is `d` |
| Paths.BasenameOfJoin | doc2pdf.py:98 | the base name of a directory joined with a plain name is that name |
| Paths.ReplaceAbsent | doc2pdf.py:95 | replacing a pattern that does not occur leaves the string unchanged |
| Paths.ReplaceFront | doc2pdf.py:95 | a leading occurrence is replaced and the scan resumes after it |
| Paths.ReplacePrefixOnly | doc2pdf.py:95 | when the pattern occurs only as the prefix, replace-all is prefix replacement |
| Convert.Doc2Pdf | doc2pdf.py:55-75 | success exactly when the path fails the gate or the automation completes; on failure the message is the automation's |
| Convert.WordExtensionPassesGate | doc2pdf.py:63 | a path whose `splitext` extension is `.doc` or `.docx` passes the gate |
| Convert.GateIsTextual | doc2pdf.py:63 | the gate is textual and case-sensitive: `/in/.doc` passes with no extension, `REPORT.DOC` and `.txt` fail |
| Convert.DiscardedFailure | doc2pdf.py:73-75 | a `.txt` path is reported as `(True, '')` even when the automation always fails |
| Convert.Doc2PdfChecked | doc2pdf.py:73-75 | the corrected function: success exactly for Word paths the automation converts; other paths report the unsupported-format message |
| Convert.CheckedAgreesOnWordPaths | doc2pdf.py:63-75 | on Word paths the corrected and the written function agree |
| Remap.Stem | doc2pdf.py:96 | the stem is the base name with its `splitext` extension removed: a prefix of the base name, without a separator, that the extension completes |
| Remap.SiblingPdfPathShape | doc2pdf.py:92 | the sibling path is the directory part, the stem and `.pdf` |
| Remap.JoinName | doc2pdf.py:98 | a plain name joined onto a directory ends the result and is its base name |
| Remap.PdfNameOfJoin | doc2pdf.py:98 | a stem plus `.pdf` joined onto any directory ends with `.pdf` and is the base name |
| Remap.TargetPdfFileName | doc2pdf.py:96-98 | the destination ends with `.pdf` and its base name is the document's stem plus `.pdf` |
| Remap.PrefixOnlyRemap | doc2pdf.py:95 | when the source root occurs only as the prefix, the target directory is `dirname` of target root plus the rest |
| Remap.MirrorsSubdirectory | doc2pdf.py:95-98 | a document at `source/sub/name` goes to `target/sub`, as `target/sub/<stem>.pdf` |
| Remap.SingleFileSource | doc2pdf.py:95 | when the source is a single file, its target directory is the parent of the target root |
| Remap.InnerOccurrenceRewritten | doc2pdf.py:95 | with source `/d` and target `/o`, `/d/d/r.doc` is sent to `/o/o`, not `/o/d` |
| Remap.RebasedAgrees | doc2pdf.py:95 | where the source root occurs only as the prefix, prefix replacement agrees with the written replace-all |
| Remap.RebasedMirrors | doc2pdf.py:95-98 | with prefix replacement a document at `source/sub/name` goes to `target/sub/<stem>.pdf`, whatever `sub` contains |
| Remap.RebasedPdfFileName | doc2pdf.py:96-98 | the corrected destination ends with `.pdf` and is named after the stem |
| Remap.RebasedKeepsInnerName | doc2pdf.py:95 | with prefix replacement `/d/d/r.doc` is sent to `/o/d` |
| Driver.Tally | doc2pdf.py:100-110 | a gated file adds one to `total`; with no destination the run stops at that file; otherwise exactly one of `success`/`failed` grows, chosen by the automation's outcome |
| Driver.Visit | doc2pdf.py:91-110 | a non-Word file changes no counter; a Word file adds one to `total`; counters never decrease; the growth of `total` is the growth of `success` plus that of `failed`; a stopped run stays stopped |
| Driver.HandleFile | doc2pdf.py:91-110 | one pass of the loop, with the destination carried between passes, gives the run state `Visit` specifies |
| Driver.RunScript | doc2pdf.py:82-111 | the script's final state is the fold of `Visit` over `get_all_files(source)` |
| Driver.ProcessStopped | doc2pdf.py:104 | once `NameError` is raised no later file is processed |
| Driver.CompletedRun | doc2pdf.py:85-111 | when every Word file has a destination the run finishes; `total` grows by the number of Word files, `success` by those converted, `failed` by those rejected; every Word file is one of the two; `made` grows by the planned directories |
| Driver.NoTargetRun | doc2pdf.py:94-104 | without a target the run stops at the first Word file with `total` one higher and nothing else changed; with no Word file nothing changes |
| Driver.TargetRun | doc2pdf.py:94-98 | with a target every Word file gets a destination, and `os.makedirs` runs once for every listed file, Word document or not |
| Driver.FixedRunCompletes | doc2pdf.py:92-110 | with the corrected destinations the run always finishes with `total == success + failed ==` the number of Word files |
| Driver.DistinctWordCount | doc2pdf.py:100-101 | in a list without duplicates, the number of distinct Word paths is the number of Word entries |
| Driver.ScriptWithTarget | doc2pdf.py:82-111 | with a target, over a well-formed tree under an absolute root, the run finishes, `total` is the number of distinct Word paths listed, and `total == success + failed` |

## Left out

- The Word automation (`CreateObject`, `Documents.Open`, `SaveAs`, `Close`, `Quit`) is a foreign process. It is the `Automation` oracle; which exceptions it raises, and what an exception object prints as, are not modelled.
- Option parsing with `argparse`: the model takes the absolute source root and an optional absolute target root as inputs. An empty `-t` counts as absent, as `if args.target` treats it.
- `os.path.abspath` is not modelled; the roots are given already absolute.
- FileTree.GetAllFiles: requires an absolute path. Below a relative path the source joins the directory twice (line 46), looks that doubled path up on disk again and lists nothing beneath it; the tree does not model lookups by path, so relative roots are not modelled. The script itself always passes an absolute path (line 82).
- Logging and the wall-clock timing of the summary message are I/O and are left out.
- The real filesystem is an immutable tree whose entry order stands for `os.scandir` order. Symlinks, permissions, files changing during the walk and errors raised by `scandir` are not modelled.
- `os.makedirs` is recorded as the list of directories it is called with. Whether it fails, and what it creates on disk, are not modelled.
- Paths follow `posixpath` with `/` as the only separator. The Windows rules of `ntpath` (backslashes, drive letters) that the script meets in practice are not modelled.
- A `NameError` ends the model's run. The traceback and the missing summary line are not modelled.

## Findings

| source | as written | input that shows it | evidently intended | confidence | as-written member | corrected member |
|---|---|---|---|---|---|---|
| doc2pdf.py:94-104 | `target_pdf_file` is bound only under `if args.target` but read at line 104 for every Word file | no `-t`, a source holding `a.doc`: `total` becomes 1, then `NameError` aborts the run | write the PDF beside the document, at the path line 92 computes | high (not executed) | Driver.NoTargetRun | Driver.FixedRunCompletes |
| doc2pdf.py:95 | `str.replace` rewrites every occurrence of the source root in the path | source `/d`, target `/o`, document `/d/d/r.doc`: directory `/o/o` | replace only the leading source root: directory `/o/d` | medium (not executed) | Remap.InnerOccurrenceRewritten | Remap.RebasedMirrors |
| doc2pdf.py:73-75 | the failure pair for an unsupported format is built and dropped, so control reaches `return True, ''` | `notes.txt` with an automation that always fails: `(True, '')` | return the unsupported-format failure | high (not executed) | Convert.DiscardedFailure | Convert.Doc2PdfChecked |
