/**
  Where a converted document is written (doc2pdf.py:92-98): the name of the
  PDF, and, when a target root is given, the directory that mirrors the
  document's place under the source root.
 */
module Remap {
  import opened Paths

  /** Line 96: the document's base name without its extension. */
  function Stem(file: string): (r: string)
    ensures Sep !in r
    ensures IsPrefix(r, Basename(file))
    ensures r + Splitext(Basename(file)).1 == Basename(file)
  {
    SplitextParts(Basename(file));
    Splitext(Basename(file)).0
  }

  /**
    Line 92: the document's path with its extension replaced by `.pdf`, i.e.
    the PDF beside the document. The script computes it and never uses it.
   */
  function SiblingPdfPath(file: string): string
  {
    Splitext(file).0 + ".pdf"
  }

  /** The sibling PDF keeps the document's directory part and stem, and ends with `.pdf`. */
  lemma SiblingPdfPathShape(file: string)
    ensures EndsWith(SiblingPdfPath(file), ".pdf")
    ensures SiblingPdfPath(file) == Head(file) + Stem(file) + ".pdf"
  {
    SplitextOfBasename(file);
  }

  /** Line 95: the directory of the document's path after every occurrence of the source root is replaced by the target root. */
  function TargetDir(file: string, absSource: string, absTarget: string): string
  {
    Dirname(ReplaceAll(file, absSource, absTarget))
  }

  /** `name` joined onto `dir`: the result ends with `name`, which is its base name. */
  lemma JoinName(dir: string, name: string)
    requires name != [] && Sep !in name
    ensures EndsWith(Join(dir, name), name)
    ensures Basename(Join(dir, name)) == name
  {
    BasenameOfJoin(dir, name);
    var j := Join(dir, name);
    assert j[|j| - |name|..] == name;
  }

  /** A stem plus `.pdf` joined onto any directory: the result ends with `.pdf` and that name is its base name. */
  lemma PdfNameOfJoin(dir: string, stem: string)
    requires Sep !in stem
    ensures EndsWith(Join(dir, stem + ".pdf"), ".pdf")
    ensures Basename(Join(dir, stem + ".pdf")) == stem + ".pdf"
  {
    var name := stem + ".pdf";
    assert Sep !in name by {
      assert forall i :: 0 <= i < |stem| ==> name[i] == stem[i];
    }
    JoinName(dir, name);
    var r := Join(dir, name);
    assert r[|r| - 4..] == name[|name| - 4..];
  }

  /** Joining a relative name onto a directory without a trailing separator inserts one separator. */
  lemma JoinPlain(dir: string, name: string)
    requires dir != [] && dir[|dir| - 1] != Sep && name != [] && name[0] != Sep
    ensures Join(dir, name) == dir + [Sep] + name
  {
  }

  /** Line 98: the stem plus `.pdf`, joined onto the target directory. */
  function TargetPdfFile(file: string, absSource: string, absTarget: string): string
  {
    Join(TargetDir(file, absSource, absTarget), Stem(file) + ".pdf")
  }

  /** The PDF written under the target is named after the document's stem and ends with `.pdf`. */
  lemma TargetPdfFileName(file: string, absSource: string, absTarget: string)
    ensures EndsWith(TargetPdfFile(file, absSource, absTarget), ".pdf")
    ensures Basename(TargetPdfFile(file, absSource, absTarget)) == Stem(file) + ".pdf"
  {
    PdfNameOfJoin(TargetDir(file, absSource, absTarget), Stem(file));
  }

  /**
    When the source root occurs in the document's path only as its prefix,
    the target directory is the directory of the target root followed by the
    rest of the path.
   */
  lemma PrefixOnlyRemap(absSource: string, absTarget: string, rest: string)
    requires absSource != [] && !Occurs(rest, absSource)
    ensures TargetDir(absSource + rest, absSource, absTarget) == Dirname(absTarget + rest)
  {
    ReplacePrefixOnly(absSource, rest, absTarget);
  }

  /** The base name of `d + "/" + name` is `name`. */
  lemma BasenameOfChild(d: string, name: string)
    requires Sep !in name
    ensures Basename(d + [Sep] + name) == name
  {
    LastIndexUnique(d + [Sep] + name, Sep, |d|);
  }

  /**
    A document at `source + sub + "/" + name`, where the source root does not
    occur again, is written to `target + sub`, under its stem plus `.pdf`.
   */
  lemma MirrorsSubdirectory(absSource: string, absTarget: string, sub: string, name: string)
    requires absSource != [] && Sep !in name && !Occurs(sub + [Sep] + name, absSource)
    requires absTarget + sub != [] && (absTarget + sub)[|absTarget + sub| - 1] != Sep
    ensures TargetDir(absSource + sub + [Sep] + name, absSource, absTarget) == absTarget + sub
    ensures TargetPdfFile(absSource + sub + [Sep] + name, absSource, absTarget)
      == absTarget + sub + [Sep] + Stem(name) + ".pdf"
  {
    MirrorsSubdirectoryDir(absSource, absTarget, sub, name);
    PdfFileInDir(absSource + sub, absTarget + sub, name);
  }

  lemma MirrorsSubdirectoryDir(absSource: string, absTarget: string, sub: string, name: string)
    requires absSource != [] && Sep !in name && !Occurs(sub + [Sep] + name, absSource)
    requires absTarget + sub != [] && (absTarget + sub)[|absTarget + sub| - 1] != Sep
    ensures TargetDir(absSource + sub + [Sep] + name, absSource, absTarget) == absTarget + sub
  {
    var rest := sub + [Sep] + name;
    var d := absTarget + sub;
    calc {
      TargetDir(absSource + sub + [Sep] + name, absSource, absTarget);
      { assert absSource + sub + [Sep] + name == absSource + rest; }
      TargetDir(absSource + rest, absSource, absTarget);
      { PrefixOnlyRemap(absSource, absTarget, rest); }
      Dirname(absTarget + rest);
      { assert absTarget + rest == d + [Sep] + name; }
      Dirname(d + [Sep] + name);
      { DirnameOfChild(d, name); }
      d;
    }
  }

  /** The stem depends on the base name only. */
  lemma StemOfChild(prefix: string, name: string)
    requires Sep !in name
    ensures Stem(prefix + [Sep] + name) == Stem(name)
  {
    BasenameOfChild(prefix, name);
    LastIndexUnique(name, Sep, -1);
  }

  /** The PDF name of a document whose base name is `name`, joined onto `dir`. */
  lemma PdfFileInDir(prefix: string, dir: string, name: string)
    requires dir != [] && dir[|dir| - 1] != Sep && Sep !in name
    ensures Join(dir, Stem(prefix + [Sep] + name) + ".pdf") == dir + [Sep] + Stem(name) + ".pdf"
  {
    StemOfChild(prefix, name);
    JoinPdfName(dir, Stem(name));
  }

  /** A stem without a separator, plus `.pdf`, is joined with one separator. */
  lemma JoinPdfName(dir: string, stem: string)
    requires dir != [] && dir[|dir| - 1] != Sep && Sep !in stem
    ensures Join(dir, stem + ".pdf") == dir + [Sep] + stem + ".pdf"
  {
    var pdfName := stem + ".pdf";
    assert pdfName[0] != Sep by {
      assert pdfName[0] == if stem == [] then '.' else stem[0];
    }
    JoinPlain(dir, pdfName);
    assert dir + [Sep] + pdfName == dir + [Sep] + stem + ".pdf";
  }

  /**
    When the source is a single file, the path is the source root itself, so
    the target directory is the parent of the target root, not the target
    root.
   */
  lemma SingleFileSource(absSource: string, parent: string, leaf: string)
    requires absSource != [] && parent != [] && parent[|parent| - 1] != Sep && Sep !in leaf
    ensures TargetDir(absSource, absSource, parent + [Sep] + leaf) == parent
  {
    assert !OccursAt([], absSource, 0);
    PrefixOnlyRemap(absSource, parent + [Sep] + leaf, []);
    assert absSource + [] == absSource;
    assert parent + [Sep] + leaf + [] == parent + [Sep] + leaf;
    DirnameOfChild(parent, leaf);
  }

  /**
    Every occurrence of the source root is replaced, so a directory below the
    source whose path repeats the root's text is renamed as well: with source
    `/d` and target `/o`, the document `/d/d/r.doc` goes to `/o/o`, not `/o/d`.
   */
  lemma InnerOccurrenceRewritten()
    ensures TargetDir("/d/d/r.doc", "/d", "/o") == "/o/o"
  {
    InnerOccurrenceReplaced();
    ExampleLiterals();
    DirnameOfChild("/o/o", "r.doc");
  }

  /** `"/d/d/r.doc".replace("/d", "/o")` rewrites both occurrences. */
  lemma InnerOccurrenceReplaced()
    ensures ReplaceAll("/d/d/r.doc", "/d", "/o") == "/o/o/r.doc"
  {
    var pat, rep, rest := "/d", "/o", "/r.doc";
    assert !Occurs(rest, pat) by {
      forall i ensures !OccursAt(rest, pat, i) {
        if 0 <= i && i + 2 <= 6 {
          assert rest[i + 1] != 'd' || rest[i] != '/';
        }
      }
    }
    ReplacePrefixOnly(pat, rest, rep);
    ReplaceFront(pat, pat + rest, rep);
    ExampleLiterals();
  }

  /** How the example paths above are put together. */
  lemma ExampleLiterals()
    ensures "/d" + ("/d" + "/r.doc") == "/d/d/r.doc"
    ensures "/o" + ("/o" + "/r.doc") == "/o/o/r.doc"
    ensures "/o/o" + [Sep] + "r.doc" == "/o/o/r.doc"
    ensures "/o/o"[3] != Sep && Sep !in "r.doc"
  {
  }

  /** The evidently intended target directory: only the leading source root is replaced. */
  function RebasedDir(file: string, absSource: string, absTarget: string): string
  {
    if IsPrefix(absSource, file) then Dirname(absTarget + file[|absSource|..]) else Dirname(file)
  }

  function RebasedPdfFile(file: string, absSource: string, absTarget: string): string
  {
    Join(RebasedDir(file, absSource, absTarget), Stem(file) + ".pdf")
  }

  /** The PDF written under the target by the intended remapping is named like the script's. */
  lemma RebasedPdfFileName(file: string, absSource: string, absTarget: string)
    ensures EndsWith(RebasedPdfFile(file, absSource, absTarget), ".pdf")
    ensures Basename(RebasedPdfFile(file, absSource, absTarget)) == Stem(file) + ".pdf"
  {
    PdfNameOfJoin(RebasedDir(file, absSource, absTarget), Stem(file));
  }

  /** Whatever the sub-directory's text, the intended remapping mirrors it under the target root. */
  lemma RebasedMirrors(absSource: string, absTarget: string, sub: string, name: string)
    requires Sep !in name
    requires absTarget + sub != [] && (absTarget + sub)[|absTarget + sub| - 1] != Sep
    ensures RebasedDir(absSource + sub + [Sep] + name, absSource, absTarget) == absTarget + sub
    ensures RebasedPdfFile(absSource + sub + [Sep] + name, absSource, absTarget)
      == absTarget + sub + [Sep] + Stem(name) + ".pdf"
  {
    RebasedMirrorsDir(absSource, absTarget, sub, name);
    PdfFileInDir(absSource + sub, absTarget + sub, name);
  }

  lemma RebasedMirrorsDir(absSource: string, absTarget: string, sub: string, name: string)
    requires Sep !in name
    requires absTarget + sub != [] && (absTarget + sub)[|absTarget + sub| - 1] != Sep
    ensures RebasedDir(absSource + sub + [Sep] + name, absSource, absTarget) == absTarget + sub
  {
    var file := absSource + sub + [Sep] + name;
    var d := absTarget + sub;
    calc {
      RebasedDir(file, absSource, absTarget);
      { assert file[..|absSource|] == absSource; }
      Dirname(absTarget + file[|absSource|..]);
      { assert absTarget + file[|absSource|..] == d + [Sep] + name; }
      Dirname(d + [Sep] + name);
      { DirnameOfChild(d, name); }
      d;
    }
  }

  /** Where the source root occurs only as the prefix, the written and the intended remapping agree. */
  lemma RebasedAgrees(absSource: string, absTarget: string, rest: string)
    requires absSource != [] && !Occurs(rest, absSource)
    ensures RebasedDir(absSource + rest, absSource, absTarget) == TargetDir(absSource + rest, absSource, absTarget)
  {
    PrefixOnlyRemap(absSource, absTarget, rest);
    assert (absSource + rest)[..|absSource|] == absSource;
    assert (absSource + rest)[|absSource|..] == rest;
  }

  /** With the intended remapping the document `/d/d/r.doc` of the example above goes to `/o/d`. */
  lemma RebasedKeepsInnerName()
    ensures RebasedDir("/d/d/r.doc", "/d", "/o") == "/o/d"
  {
    RebasedMirrorsDir("/d", "/o", "/d", "r.doc");
    assert "/d" + "/d" + [Sep] + "r.doc" == "/d/d/r.doc";
  }
}
