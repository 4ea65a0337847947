/**
  The `__main__` block (doc2pdf.py:78-116): list the files under the source,
  and for every Word document among them count it, convert it and count the
  outcome.
 */
module Driver {
  import opened Options
  import opened Paths
  import opened FileTree
  import opened Convert
  import opened Remap

  /**
    The command line after `os.path.abspath`: `target` is `None` when `-t` is
    absent or empty, the two cases in which `if args.target` is false.
   */
  datatype Args = Args(absSource: string, target: Option<string>)

  /** The `result` dictionary of lines 85-89. */
  datatype Counters = Counters(total: nat, success: nat, failed: nat)

  const Zero := Counters(0, 0, 0)

  /**
    Where a run stands: still going (after the last file: finished), or
    stopped at `file` by the `NameError` of line 104. `made` lists, in order,
    the directories passed to `os.makedirs`.
   */
  datatype Run =
    | Going(result: Counters, made: seq<string>)
    | NameError(file: string, result: Counters, made: seq<string>)

  /**
    What lines 94-98 do for one file: the directory created, if any, and the
    value bound to `target_pdf_file`, if any.
   */
  datatype Plan = Plan(dir: Option<string>, pdf: Option<string>)

  /** Which destination rule a run follows: the script's own, or the corrected one. */
  datatype Script = AsWritten | Corrected

  /** Lines 94-98 as written: both are set when a target is given, neither otherwise. */
  function WrittenPlan(args: Args, file: string): Plan
  {
    match args.target
    case None => Plan(None, None)
    case Some(t) => Plan(Some(TargetDir(file, args.absSource, t)), Some(TargetPdfFile(file, args.absSource, t)))
  }

  /**
    The corrected rule: without a target the PDF goes beside the document
    (the path computed at line 92); with one, only the leading source root is
    replaced by the target root.
   */
  function FixedPlan(args: Args, file: string): Plan
  {
    match args.target
    case None => Plan(None, Some(SiblingPdfPath(file)))
    case Some(t) => Plan(Some(RebasedDir(file, args.absSource, t)), Some(RebasedPdfFile(file, args.absSource, t)))
  }

  /** The destination rule of a run, file by file. */
  function Planner(script: Script, args: Args): string -> Plan
  {
    (file: string) =>
      match script
      case AsWritten => WrittenPlan(args, file)
      case Corrected => FixedPlan(args, file)
  }

  /** Lines 100-110 for one file that passed the gate, given what `target_pdf_file` is bound to. */
  function Tally(result: Counters, file: string, pdf: Option<string>, automation: Automation, made: seq<string>): (r: Run)
    requires IsWordPath(file)
    ensures r.result.total == result.total + 1
    ensures r.Going? <==> pdf.Some?
    ensures r.NameError? ==> r.file == file && r.result.success == result.success && r.result.failed == result.failed
    ensures r.Going? ==>
      && r.result.success == result.success + (if automation(file, pdf.value).None? then 1 else 0)
      && r.result.failed == result.failed + (if automation(file, pdf.value).None? then 0 else 1)
    ensures r.made == made
  {
    var counted := result.(total := result.total + 1);
    match pdf
    case None => NameError(file, counted, made)
    case Some(dest) =>
      var reply := Doc2Pdf(file, dest, automation);
      if !reply.ok then Going(counted.(failed := counted.failed + 1), made)
      else Going(counted.(success := counted.success + 1), made)
  }

  /**
    One pass of the loop at line 91. A file that fails the gate changes no
    counter; one that passes it adds one to `total` and, unless the run
    stops, one to exactly one of `success` and `failed`. No counter ever
    decreases, and a stopped run stays as it is.
   */
  function Visit(run: Run, file: string, plan: Plan, automation: Automation): (r: Run)
    ensures run.NameError? ==> r == run
    ensures r.result.total >= run.result.total && r.result.success >= run.result.success && r.result.failed >= run.result.failed
    ensures run.Going? && !IsWordPath(file) ==> r.Going? && r.result == run.result
    ensures run.Going? && IsWordPath(file) ==> r.result.total == run.result.total + 1
    ensures run.Going? && r.Going? ==>
      r.result.total - run.result.total == (r.result.success - run.result.success) + (r.result.failed - run.result.failed)
  {
    match run
    case NameError(_, _, _) => run
    case Going(result, made) =>
      var made' := if plan.dir.Some? then made + [plan.dir.value] else made;
      if IsWordPath(file) then Tally(result, file, plan.pdf, automation, made')
      else Going(result, made')
  }

  /** The loop over all listed files. */
  function Process(files: seq<string>, plan: string -> Plan, automation: Automation, run: Run): Run
    decreases |files|
  {
    if files == [] then run
    else Process(files[1..], plan, automation, Visit(run, files[0], plan(files[0]), automation))
  }

  /**
    The body of the loop at line 91 for one file: compute the unused sibling
    path (line 92), create the mirrored directory and bind the destination
    when a target is given (lines 94-98), and count and convert the file when
    it passes the gate (lines 100-110). `stopped` reports the `NameError` of
    line 104. `targetPdfFile` keeps its value from one pass to the next, as a
    Python local does.
   */
  method HandleFile(args: Args, file: string, automation: Automation, result: Counters, made: seq<string>, targetPdfFile: Option<string>)
    returns (result': Counters, made': seq<string>, targetPdfFile': Option<string>, stopped: bool)
    requires args.target.None? ==> targetPdfFile.None?
    ensures args.target.None? ==> targetPdfFile'.None?
    ensures (if stopped then NameError(file, result', made') else Going(result', made'))
      == Visit(Going(result, made), file, WrittenPlan(args, file), automation)
  {
    ghost var plan := WrittenPlan(args, file);
    ghost var next := Visit(Going(result, made), file, plan, automation);
    result', made', targetPdfFile', stopped := result, made, targetPdfFile, false;
    var siblingPdf := SiblingPdfPath(file);
    if args.target.Some? {
      var dir := TargetDir(file, args.absSource, args.target.value);
      var stem := Stem(file);
      made' := made' + [dir];
      targetPdfFile' := Some(Join(dir, stem + ".pdf"));
    }
    assert targetPdfFile' == plan.pdf;
    assert made' == if plan.dir.Some? then made + [plan.dir.value] else made;
    if IsWordPath(file) {
      assert next == Tally(result, file, targetPdfFile', automation, made');
      result' := result'.(total := result'.total + 1);
      if targetPdfFile'.None? {
        stopped := true;
        assert next == NameError(file, result', made');
        return;
      }
      var ret := Doc2Pdf(file, targetPdfFile'.value, automation);
      if !ret.ok {
        result' := result'.(failed := result'.failed + 1);
        assert next == Going(result', made');
      } else {
        result' := result'.(success := result'.success + 1);
        assert next == Going(result', made');
      }
    } else {
      assert next == Going(result', made');
    }
  }

  /**
    The script: list the files under the source, then handle them in order
    until the last one or a `NameError`. The source root is absolute, as
    `os.path.abspath` at line 82 makes it.
   */
  method RunScript(args: Args, root: Option<Entry>, automation: Automation) returns (run: Run)
    requires Absolute(args.absSource)
    ensures run == Process(Listing(args.absSource, root), Planner(AsWritten, args), automation, Going(Zero, []))
  {
    var docFiles := GetAllFiles(args.absSource, root);
    var result := Zero;
    var made: seq<string> := [];
    var targetPdfFile: Option<string> := None;
    for i := 0 to |docFiles|
      invariant Process(docFiles[i..], Planner(AsWritten, args), automation, Going(result, made))
        == Process(docFiles, Planner(AsWritten, args), automation, Going(Zero, []))
      invariant args.target.None? ==> targetPdfFile.None?
    {
      ProcessStep(docFiles, i, Planner(AsWritten, args), automation, Going(result, made));
      assert Planner(AsWritten, args)(docFiles[i]) == WrittenPlan(args, docFiles[i]);
      var stopped;
      result, made, targetPdfFile, stopped := HandleFile(args, docFiles[i], automation, result, made, targetPdfFile);
      if stopped {
        run := NameError(docFiles[i], result, made);
        ProcessStopped(docFiles[i + 1..], Planner(AsWritten, args), automation, run);
        return;
      }
    }
    assert docFiles[|docFiles|..] == [];
    run := Going(result, made);
  }

  /** A stopped run is not resumed. */
  lemma {:induction false} ProcessStopped(files: seq<string>, plan: string -> Plan, automation: Automation, run: Run)
    requires run.NameError?
    ensures Process(files, plan, automation, run) == run
    decreases |files|
  {
    if files != [] {
      ProcessStopped(files[1..], plan, automation, run);
    }
  }

  /** Unfolding the loop once at position `i`. */
  lemma ProcessStep(files: seq<string>, i: int, plan: string -> Plan, automation: Automation, run: Run)
    requires 0 <= i < |files|
    ensures Process(files[i..], plan, automation, run)
      == Process(files[i + 1..], plan, automation, Visit(run, files[i], plan(files[i]), automation))
  {
    assert files[i..][0] == files[i] && files[i..][1..] == files[i + 1..];
  }

  /** The listed files that pass the gate, in order. */
  function WordFiles(files: seq<string>): seq<string>
  {
    if files == [] then []
    else (if IsWordPath(files[0]) then [files[0]] else []) + WordFiles(files[1..])
  }

  /** The Word files with a destination for which the automation completes. */
  function Converted(files: seq<string>, plan: string -> Plan, automation: Automation): seq<string>
  {
    if files == [] then []
    else
      var pdf := plan(files[0]).pdf;
      (if IsWordPath(files[0]) && pdf.Some? && automation(files[0], pdf.value).None? then [files[0]] else [])
        + Converted(files[1..], plan, automation)
  }

  /** The Word files with a destination for which the automation raises. */
  function Rejected(files: seq<string>, plan: string -> Plan, automation: Automation): seq<string>
  {
    if files == [] then []
    else
      var pdf := plan(files[0]).pdf;
      (if IsWordPath(files[0]) && pdf.Some? && automation(files[0], pdf.value).Some? then [files[0]] else [])
        + Rejected(files[1..], plan, automation)
  }

  /** The directories the plan creates for the files, in order. */
  function Dirs(files: seq<string>, plan: string -> Plan): seq<string>
  {
    if files == [] then []
    else
      var dir := plan(files[0]).dir;
      (if dir.Some? then [dir.value] else []) + Dirs(files[1..], plan)
  }

  /** Every Word file among `files` has a destination. */
  predicate Bound(files: seq<string>, plan: string -> Plan)
  {
    forall i :: 0 <= i < |files| && IsWordPath(files[i]) ==> plan(files[i]).pdf.Some?
  }

  /**
    When every Word file has a destination the run completes: `total` grows
    by the number of Word files, `success` by those the automation converts,
    `failed` by those it rejects, and each of them is one of the two.
   */
  lemma {:induction false} CompletedRun(files: seq<string>, plan: string -> Plan, automation: Automation, result: Counters, made: seq<string>)
    requires Bound(files, plan)
    ensures Process(files, plan, automation, Going(result, made)) == Going(
      Counters(
        result.total + |WordFiles(files)|,
        result.success + |Converted(files, plan, automation)|,
        result.failed + |Rejected(files, plan, automation)|),
      made + Dirs(files, plan))
    ensures |WordFiles(files)| == |Converted(files, plan, automation)| + |Rejected(files, plan, automation)|
    decreases |files|
  {
    if files != [] {
      var f := files[0];
      var p := plan(f);
      var next := Visit(Going(result, made), f, p, automation);
      BoundTail(files, plan);
      VisitBound(result, made, f, p, automation);
      CompletedRun(files[1..], plan, automation, next.result, next.made);
      var d := if p.dir.Some? then [p.dir.value] else [];
      assert Dirs(files, plan) == d + Dirs(files[1..], plan);
      AppendAssoc(made, d, Dirs(files[1..], plan));
      assert Process(files, plan, automation, Going(result, made))
        == Process(files[1..], plan, automation, next);
    }
  }

  lemma BoundTail(files: seq<string>, plan: string -> Plan)
    requires files != [] && Bound(files, plan)
    ensures Bound(files[1..], plan)
    ensures IsWordPath(files[0]) ==> plan(files[0]).pdf.Some?
  {
    forall i | 0 <= i < |files[1..]| && IsWordPath(files[1..][i])
      ensures plan(files[1..][i]).pdf.Some?
    {
      assert files[1..][i] == files[i + 1];
    }
  }

  /** One file with a destination if it is a Word file: the run goes on, with the counters and directories it adds. */
  lemma VisitBound(result: Counters, made: seq<string>, f: string, plan: Plan, automation: Automation)
    requires IsWordPath(f) ==> plan.pdf.Some?
    ensures Visit(Going(result, made), f, plan, automation) == Going(
      Counters(
        result.total + (if IsWordPath(f) then 1 else 0),
        result.success + (if IsWordPath(f) && automation(f, plan.pdf.value).None? then 1 else 0),
        result.failed + (if IsWordPath(f) && automation(f, plan.pdf.value).Some? then 1 else 0)),
      made + (if plan.dir.Some? then [plan.dir.value] else []))
  {
    if IsWordPath(f) {
      var made' := made + (if plan.dir.Some? then [plan.dir.value] else []);
      assert Visit(Going(result, made), f, plan, automation) == Tally(result, f, plan.pdf, automation, made');
    }
  }

  lemma AppendAssoc(a: seq<string>, b: seq<string>, c: seq<string>)
    ensures (a + b) + c == a + (b + c)
  {
  }

  /**
    Without a target the run as written stops at the first Word file, with
    that file counted in `total` and nothing else changed; with no Word file
    it completes with nothing changed.
   */
  lemma {:induction false} NoTargetRun(files: seq<string>, args: Args, automation: Automation, result: Counters, made: seq<string>)
    requires args.target.None?
    ensures WordFiles(files) == [] ==> Process(files, Planner(AsWritten, args), automation, Going(result, made)) == Going(result, made)
    ensures WordFiles(files) != [] ==>
      Process(files, Planner(AsWritten, args), automation, Going(result, made))
        == NameError(WordFiles(files)[0], result.(total := result.total + 1), made)
    decreases |files|
  {
    if files != [] {
      var f := files[0];
      assert Planner(AsWritten, args)(f) == Plan(None, None);
      var next := Visit(Going(result, made), f, Plan(None, None), automation);
      if IsWordPath(f) {
        assert next == NameError(f, result.(total := result.total + 1), made);
        ProcessStopped(files[1..], Planner(AsWritten, args), automation, next);
      } else {
        assert next == Going(result, made);
        NoTargetRun(files[1..], args, automation, result, made);
      }
    }
  }

  /** With a target every Word file has a destination, and a directory is created for every listed file, Word document or not. */
  lemma {:induction false} TargetRun(files: seq<string>, args: Args, t: string)
    requires args.target == Some(t)
    ensures Bound(files, Planner(AsWritten, args))
    ensures |Dirs(files, Planner(AsWritten, args))| == |files|
    ensures forall i :: 0 <= i < |files| ==> Dirs(files, Planner(AsWritten, args))[i] == TargetDir(files[i], args.absSource, t)
    decreases |files|
  {
    if files != [] {
      TargetRun(files[1..], args, t);
      var ds := Dirs(files, Planner(AsWritten, args));
      assert ds == [TargetDir(files[0], args.absSource, t)] + Dirs(files[1..], Planner(AsWritten, args));
      forall i | 0 <= i < |files|
        ensures ds[i] == TargetDir(files[i], args.absSource, t)
      {
        if i > 0 {
          assert files[1..][i - 1] == files[i];
        }
      }
    }
  }

  /** The corrected rule gives every file a destination, so its run always completes with every Word file counted once. */
  lemma FixedRunCompletes(files: seq<string>, args: Args, automation: Automation)
    ensures Process(files, Planner(Corrected, args), automation, Going(Zero, [])).Going?
    ensures Process(files, Planner(Corrected, args), automation, Going(Zero, [])).result.total == |WordFiles(files)|
    ensures Process(files, Planner(Corrected, args), automation, Going(Zero, [])).result.total
      == Process(files, Planner(Corrected, args), automation, Going(Zero, [])).result.success
        + Process(files, Planner(Corrected, args), automation, Going(Zero, [])).result.failed
  {
    CompletedRun(files, Planner(Corrected, args), automation, Zero, []);
  }

  /** The number of distinct Word paths in a sequence without duplicates is the length of its Word subsequence. */
  lemma {:induction false} DistinctWordCount(files: seq<string>)
    requires Distinct(files)
    ensures |set p | p in files && IsWordPath(p)| == |WordFiles(files)|
    decreases |files|
  {
    if files != [] {
      var rest := files[1..];
      assert Distinct(rest) by {
        forall i, j | 0 <= i < j < |rest|
          ensures rest[i] != rest[j]
        {
          assert rest[i] == files[i + 1] && rest[j] == files[j + 1];
        }
      }
      DistinctWordCount(rest);
      var all := set p | p in files && IsWordPath(p);
      var tail := set p | p in rest && IsWordPath(p);
      assert files[0] !in rest by {
        forall i | 0 <= i < |rest|
          ensures rest[i] != files[0]
        {
          assert rest[i] == files[i + 1];
        }
      }
      if IsWordPath(files[0]) {
        assert all == tail + {files[0]};
      } else {
        assert all == tail;
      }
    }
  }

  /**
    With a target, over a well-formed tree under an absolute source root, the
    script completes and its `total` is the number of distinct Word paths it
    lists, each counted as a success or a failure.
   */
  lemma ScriptWithTarget(args: Args, t: string, root: Entry, automation: Automation)
    requires args.target == Some(t) && Absolute(args.absSource) && WellFormed(root)
    ensures Process(Listing(args.absSource, Some(root)), Planner(AsWritten, args), automation, Going(Zero, [])).Going?
    ensures Process(Listing(args.absSource, Some(root)), Planner(AsWritten, args), automation, Going(Zero, [])).result.total
      == |set p | p in Listing(args.absSource, Some(root)) && IsWordPath(p)|
    ensures Process(Listing(args.absSource, Some(root)), Planner(AsWritten, args), automation, Going(Zero, [])).result.total
      == Process(Listing(args.absSource, Some(root)), Planner(AsWritten, args), automation, Going(Zero, [])).result.success
        + Process(Listing(args.absSource, Some(root)), Planner(AsWritten, args), automation, Going(Zero, [])).result.failed
  {
    var files := Listing(args.absSource, Some(root));
    WalkDistinct(args.absSource, root);
    DistinctWordCount(files);
    TargetRun(files, args, t);
    CompletedRun(files, Planner(AsWritten, args), automation, Zero, []);
  }
}
