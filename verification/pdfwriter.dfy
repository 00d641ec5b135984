/** The compile-job table of `PDFWriter` in 1l-tools.py, as a state machine.
    A job is recorded under its file name; `clean` collects every recorded
    job, moving the PDF of a successful compilation, or the log and the
    source of a failed one, into the job's parent directory, and raises
    FileNotFoundError when the file it moves was never made. Processes,
    scratch directories and the disk are abstract: what the compiler prints
    and leaves is an input of the model, a scratch directory is a number,
    and the disk maps (directory, file name) pairs to contents. */
module PdfWriter {
  import opened Wrappers
  import opened Text
  import opened Order

  /** Which compiler `shutil.which` finds: tectonic first, then pdflatex. */
  datatype Tool = Tectonic | Pdflatex | NoCompiler

  /** What a file holds: the LaTeX source, or what the compiler made of it. */
  datatype Content = TexSource(src: string) | Pdf(src: string) | CompileLog(src: string)

  /** What a compilation leaves behind: its terminal output (standard error
      is discarded), and whether a PDF and a log file are in its scratch
      directory afterwards. The source file is always there. The output is a
      pipe read once: `stdout` is what the next read returns, and the empty
      string once `clean` has read it. */
  datatype Compilation = Compilation(stdout: string, pdf: bool, log: bool)

  /** A launched compilation: its scratch directory, the directory its
      output belongs in, the source it compiles and what the compiler left. */
  datatype Job = Job(scratch: int, parent: string, src: string, out: Compilation)

  datatype Entry = Entry(fname: string, job: Job)

  /** The two messages `clean` prints for a failed job. */
  datatype Diagnostic = MissingPackage(fname: string) | SeeLog(fname: string)

  datatype Writer = Writer(
    procs: seq<Entry>,                      // the job table, in insertion order
    sequential: bool,
    dirs: set<string>,                      // directories made so far
    files: map<(string, string), Content>,  // (directory, file name) -> content
    scratch: set<int>,                      // scratch directories still on disk
    messages: seq<Diagnostic>)

  /** The result of `write`: the writer, and the exception it raised, if any. */
  datatype Outcome = Outcome(writer: Writer, error: Option<Error>)

  /** `PDFWriter()`: an empty job table in sequential mode. */
  function NewWriter(dirs: set<string>, files: map<(string, string), Content>): (w: Writer)
    ensures Valid(w) && w.sequential
  {
    Writer([], true, dirs, files, {}, [])
  }

  // ---------------------------------------------------------------------------
  // The job table (a dict keyed by file name)
  // ---------------------------------------------------------------------------

  predicate DistinctNames(procs: seq<Entry>) {
    forall i, j :: 0 <= i < j < |procs| ==> procs[i].fname != procs[j].fname
  }

  /** Where `fname` sits in the table, or -1. */
  function IndexOf(procs: seq<Entry>, fname: string): (k: int)
    ensures -1 <= k < |procs|
    ensures k >= 0 ==> procs[k].fname == fname
    ensures forall i :: 0 <= i < |procs| && (k < 0 || i < k) ==> procs[i].fname != fname
  {
    if |procs| == 0 then -1
    else if procs[0].fname == fname then 0
    else
      var k := IndexOf(procs[1..], fname);
      if k < 0 then -1 else k + 1
  }

  /** `procs.get(fname)`. */
  function Lookup(procs: seq<Entry>, fname: string): (r: Option<Job>)
    ensures r.None? <==> forall i :: 0 <= i < |procs| ==> procs[i].fname != fname
  {
    var k := IndexOf(procs, fname);
    if k < 0 then None else Some(procs[k].job)
  }

  /** `procs[fname] = job`: a new name goes last, an existing name keeps
      its place and gets the new job. */
  function Record(procs: seq<Entry>, fname: string, job: Job): (r: seq<Entry>)
    ensures Lookup(r, fname) == Some(job)
    ensures forall n :: n != fname ==> Lookup(r, n) == Lookup(procs, n)
    ensures Lookup(procs, fname).None? ==> r == procs + [Entry(fname, job)]
    ensures Lookup(procs, fname).Some? ==> (
      && |r| == |procs|
      && (forall i :: 0 <= i < |r| ==> r[i].fname == procs[i].fname)
      && r[IndexOf(procs, fname)] == Entry(fname, job)
      && (forall i :: 0 <= i < |r| && i != IndexOf(procs, fname) ==> r[i] == procs[i]))
  {
    var k := IndexOf(procs, fname);
    var r := if k < 0 then procs + [Entry(fname, job)] else procs[k := Entry(fname, job)];
    IndexOfIs(r, fname, if k < 0 then |procs| else k);
    forall n | n != fname
      ensures Lookup(r, n) == Lookup(procs, n)
    {
      IndexOfIs(r, n, IndexOf(procs, n));
    }
    r
  }

  /** The first position holding `fname` is determined by its definition. */
  lemma IndexOfIs(procs: seq<Entry>, fname: string, k: int)
    requires -1 <= k < |procs|
    requires k >= 0 ==> procs[k].fname == fname
    requires forall i :: 0 <= i < |procs| && (k < 0 || i < k) ==> procs[i].fname != fname
    ensures IndexOf(procs, fname) == k
  {
  }

  /** A recorded table keeps names distinct. */
  lemma RecordKeepsDistinct(procs: seq<Entry>, fname: string, job: Job)
    requires DistinctNames(procs)
    ensures DistinctNames(Record(procs, fname, job))
  {
  }

  /** The invariant of a writer between calls: one entry per name, every
      entry owns a live scratch directory of its own, and in sequential mode
      nothing is pending. */
  predicate Valid(w: Writer) {
    && DistinctNames(w.procs)
    && (forall i :: 0 <= i < |w.procs| ==> w.procs[i].job.scratch in w.scratch)
    && (forall i, j :: 0 <= i < j < |w.procs| ==> w.procs[i].job.scratch != w.procs[j].job.scratch)
    && (w.sequential ==> w.procs == [])
  }

  // ---------------------------------------------------------------------------
  // clean
  // ---------------------------------------------------------------------------

  /** A job failed when its terminal output mentions "error" or "Error". */
  predicate Failed(stdout: string) {
    Contains(stdout, "error") || Contains(stdout, "Error")
  }

  /** The file `clean` moves first is there: the log of a failed
      compilation, the PDF of any other. */
  predicate Complete(c: Compilation) {
    if Failed(c.stdout) then c.log else c.pdf
  }

  /** Every job of the table left the file `clean` moves first. */
  predicate AllComplete(procs: seq<Entry>) {
    forall i :: 0 <= i < |procs| ==> Complete(procs[i].job.out)
  }

  /** Every compilation leaves the file `clean` moves first. */
  ghost predicate Reliable(compile: string -> Compilation) {
    forall src :: Complete(compile(src))
  }

  /** The message printed for a failed job. */
  function Diagnose(fname: string, stdout: string): Diagnostic {
    if Contains(stdout, "not found") then MissingPackage(fname) else SeeLog(fname)
  }

  /** The paths a job's collection writes to. */
  function Targets(e: Entry): set<(string, string)> {
    if Failed(e.job.out.stdout) then {(e.job.parent, e.fname + ".log"), (e.job.parent, e.fname + ".tex")}
    else {(e.job.parent, e.fname + ".pdf")}
  }

  /** One pass of the `clean` loop. For a failed job the message is
      printed, then its log and source are moved to its parent and its
      scratch directory is kept; for any other job the PDF is moved to its
      parent and the scratch directory removed. Moving a file the compiler
      did not make raises FileNotFoundError and ends the loop. */
  function Collect(w: Writer, e: Entry): (r: Outcome)
    ensures r.writer.procs == w.procs && r.writer.sequential == w.sequential && r.writer.dirs == w.dirs
    ensures r.error.None? <==> Complete(e.job.out)
    ensures r.error.Some? ==> r.error == Some(FileNotFoundError) && r.writer.files == w.files
  {
    var p, n, j := e.job.parent, e.fname, e.job;
    if Failed(j.out.stdout) then
      var w1 := w.(messages := w.messages + [Diagnose(n, j.out.stdout)]);
      if !j.out.log then Outcome(w1, Some(FileNotFoundError))
      else Outcome(w1.(files := w.files[(p, n + ".log") := CompileLog(j.src)][(p, n + ".tex") := TexSource(j.src)]), None)
    else if !j.out.pdf then Outcome(w, Some(FileNotFoundError))
    else Outcome(w.(files := w.files[(p, n + ".pdf") := Pdf(j.src)], scratch := w.scratch - {j.scratch}), None)
  }

  /** The job with its output read: a second read of the pipe gives nothing. */
  function Drained(e: Entry): Entry {
    e.(job := e.job.(out := e.job.out.(stdout := "")))
  }

  /** The message `clean` prints for a job whose output reads `stdout`, if any. */
  function Printed(fname: string, stdout: string): seq<Diagnostic> {
    if Failed(stdout) then [Diagnose(fname, stdout)] else []
  }

  /** The position of the first job that did not leave the file `clean`
      moves first, or the length of the table when there is none. */
  function FirstIncomplete(es: seq<Entry>): (k: nat)
    ensures k <= |es|
    ensures forall i :: 0 <= i < k ==> Complete(es[i].job.out)
    ensures k < |es| ==> !Complete(es[k].job.out)
    decreases |es|
  {
    if |es| == 0 || !Complete(es[0].job.out) then 0
    else
      var k := FirstIncomplete(es[1..]);
      assert forall i :: 1 <= i < k + 1 ==> es[i] == es[1..][i - 1];
      k + 1
  }

  /** The table after a `clean` that read the first n outputs. */
  function Drain(es: seq<Entry>, n: int): seq<Entry> {
    seq(|es|, i requires 0 <= i < |es| => if i < n then Drained(es[i]) else es[i])
  }

  /** The `clean` loop over `es`, up to the first exception. */
  function CollectAll(w: Writer, es: seq<Entry>): (r: Outcome)
    ensures r.writer.procs == w.procs && r.writer.sequential == w.sequential && r.writer.dirs == w.dirs
    ensures r.error.Some? ==> r.error == Some(FileNotFoundError)
    decreases |es|
  {
    if |es| == 0 then Outcome(w, None)
    else
      var o := Collect(w, es[0]);
      if o.error.Some? then o else CollectAll(o.writer, es[1..])
  }

  /** `clean()`: every job collected in table order, then an empty table.
      An exception leaves the table in place, with the outputs read so far
      drained: those of the jobs up to and including the one whose file was
      missing. */
  function Clean(w: Writer): (r: Outcome)
    ensures r.writer.sequential == w.sequential && r.writer.dirs == w.dirs
    ensures r.error.None? ==> r.writer.procs == []
    ensures r.error.Some? ==> r.error == Some(FileNotFoundError) && |r.writer.procs| == |w.procs|
    ensures r.error.Some? ==>
              forall i :: 0 <= i < |w.procs| ==>
                r.writer.procs[i] == if i <= FirstIncomplete(w.procs) then Drained(w.procs[i]) else w.procs[i]
  {
    var o := CollectAll(w, w.procs);
    if o.error.Some? then Outcome(o.writer.(procs := Drain(w.procs, FirstIncomplete(w.procs) + 1)), o.error)
    else Outcome(o.writer.(procs := []), None)
  }

  /** What collecting a job named `n` for directory `p`, compiling `src`
      with outcome `out`, leaves on disk. */
  predicate DeliveredAs(files: map<(string, string), Content>, p: string, n: string, src: string, out: Compilation) {
    if Failed(out.stdout) then
      && (p, n + ".log") in files && files[(p, n + ".log")] == CompileLog(src)
      && (p, n + ".tex") in files && files[(p, n + ".tex")] == TexSource(src)
    else
      (p, n + ".pdf") in files && files[(p, n + ".pdf")] == Pdf(src)
  }

  predicate Delivered(files: map<(string, string), Content>, e: Entry) {
    DeliveredAs(files, e.job.parent, e.fname, e.job.src, e.job.out)
  }

  /** Collecting a job that raises nothing delivers it. */
  lemma CollectDelivers(w: Writer, e: Entry)
    ensures Collect(w, e).error.None? ==> Delivered(Collect(w, e).writer.files, e)
  {
    var n := e.fname;
    assert (n + ".log")[|n| + 1] != (n + ".tex")[|n| + 1];
  }

  /** Names with equally long suffixes are equal only when both parts are. */
  lemma SuffixedNames(n: string, m: string, a: string, b: string)
    requires |a| == |b| && n + a == m + b
    ensures n == m && a == b
  {
    assert n == (n + a)[..|n|];
    assert m == (m + b)[..|m|];
    assert a == (n + a)[|n|..];
    assert b == (m + b)[|m|..];
  }

  /** Jobs with different names never write to the same path. */
  lemma TargetsDisjoint(e: Entry, f: Entry)
    requires e.fname != f.fname
    ensures Targets(e) !! Targets(f)
  {
    forall x | x in Targets(e) && x in Targets(f)
      ensures false
    {
      var a :| a in [".log", ".tex", ".pdf"] && x == (e.job.parent, e.fname + a);
      var b :| b in [".log", ".tex", ".pdf"] && x == (f.job.parent, f.fname + b);
      SuffixedNames(e.fname, f.fname, a, b);
    }
  }

  /** The loop runs to its end exactly when every job left the file it
      moves first; otherwise it raises FileNotFoundError. */
  lemma {:induction false} CollectAllSucceeds(w: Writer, es: seq<Entry>)
    ensures CollectAll(w, es).error.None? <==> AllComplete(es)
    decreases |es|
  {
    if |es| > 0 {
      var o := Collect(w, es[0]);
      if o.error.None? {
        CollectAllSucceeds(o.writer, es[1..]);
        assert forall i :: 1 <= i < |es| ==> es[i] == es[1..][i - 1];
      }
    }
  }

  /** Collecting jobs leaves every path that none of them targets as it was. */
  lemma {:induction false} CollectAllKeeps(w: Writer, es: seq<Entry>, x: (string, string))
    requires forall i :: 0 <= i < |es| ==> x !in Targets(es[i])
    ensures (x in CollectAll(w, es).writer.files <==> x in w.files)
    ensures x in w.files ==> CollectAll(w, es).writer.files[x] == w.files[x]
    decreases |es|
  {
    if |es| > 0 && Collect(w, es[0]).error.None? {
      CollectAllKeeps(Collect(w, es[0]).writer, es[1..], x);
    }
  }

  /** Collecting jobs with distinct names to the end delivers every one of
      them. */
  lemma {:induction false} CollectAllDelivers(w: Writer, es: seq<Entry>, i: int)
    requires DistinctNames(es) && 0 <= i < |es|
    ensures CollectAll(w, es).error.None? ==> Delivered(CollectAll(w, es).writer.files, es[i])
    decreases |es|
  {
    var o := Collect(w, es[0]);
    if o.error.None? {
      var w1 := o.writer;
      if i == 0 {
        CollectDelivers(w, es[0]);
        forall x | x in Targets(es[0])
          ensures x in CollectAll(w1, es[1..]).writer.files && CollectAll(w1, es[1..]).writer.files[x] == w1.files[x]
        {
          forall k | 0 <= k < |es[1..]|
            ensures x !in Targets(es[1..][k])
          {
            TargetsDisjoint(es[0], es[k + 1]);
          }
          CollectAllKeeps(w1, es[1..], x);
        }
      } else {
        CollectAllDelivers(w1, es[1..], i - 1);
      }
    }
  }

  /** The scratch directories of the successful jobs. */
  function Released(es: seq<Entry>): set<int> {
    if |es| == 0 then {}
    else (if Failed(es[0].job.out.stdout) then {} else {es[0].job.scratch}) + Released(es[1..])
  }

  /** The messages of the failed jobs, in order. */
  function Diagnostics(es: seq<Entry>): seq<Diagnostic> {
    if |es| == 0 then []
    else
      var here := if Failed(es[0].job.out.stdout) then [Diagnose(es[0].fname, es[0].job.out.stdout)] else [];
      here + Diagnostics(es[1..])
  }

  /** Collecting to the end removes exactly the successful jobs' scratch
      directories and prints one message per failed job. */
  lemma {:induction false} CollectAllEffects(w: Writer, es: seq<Entry>)
    ensures CollectAll(w, es).error.None? ==>
              && CollectAll(w, es).writer.scratch == w.scratch - Released(es)
              && CollectAll(w, es).writer.messages == w.messages + Diagnostics(es)
    decreases |es|
  {
    if |es| > 0 && Collect(w, es[0]).error.None? {
      CollectAllEffects(Collect(w, es[0]).writer, es[1..]);
    }
  }

  /** `clean` raises FileNotFoundError exactly when some pending job lacks
      the file it moves, leaving the table in place with that job's output
      read. Otherwise it delivers
      every pending job, removes the scratch directories of the successful
      ones, prints one message per failed one and empties the table. */
  lemma CleanEffects(w: Writer)
    requires Valid(w)
    ensures var r := Clean(w);
      && (r.error.None? <==> AllComplete(w.procs))
      && (r.error.Some? ==>
            && r.error == Some(FileNotFoundError) && |r.writer.procs| == |w.procs|
            && FirstIncomplete(w.procs) < |w.procs|
            && r.writer.procs[FirstIncomplete(w.procs)] == Drained(w.procs[FirstIncomplete(w.procs)]))
      && (r.error.None? ==>
            && r.writer.procs == []
            && (forall i :: 0 <= i < |w.procs| ==> Delivered(r.writer.files, w.procs[i]))
            && r.writer.scratch == w.scratch - Released(w.procs)
            && r.writer.messages == w.messages + Diagnostics(w.procs))
  {
    CollectAllSucceeds(w, w.procs);
    forall i | 0 <= i < |w.procs|
      ensures Clean(w).error.None? ==> Delivered(Clean(w).writer.files, w.procs[i])
    {
      CollectAllDelivers(w, w.procs, i);
    }
    CollectAllEffects(w, w.procs);
  }

  /** Among the jobs `clean` collects, a failed job's scratch directory is
      not removed by `clean` itself; a successful one's is. */
  lemma {:induction false} ReleasedExactly(es: seq<Entry>, i: int)
    requires 0 <= i < |es|
    requires forall a, b :: 0 <= a < b < |es| ==> es[a].job.scratch != es[b].job.scratch
    ensures es[i].job.scratch in Released(es) <==> !Failed(es[i].job.out.stdout)
  {
    if i > 0 {
      ReleasedExactly(es[1..], i - 1);
    } else if Failed(es[0].job.out.stdout) && es[0].job.scratch in Released(es[1..]) {
      ReleasedOnlyOwn(es[1..], es[0].job.scratch);
    }
  }

  lemma {:induction false} ReleasedOnlyOwn(es: seq<Entry>, s: int)
    requires s in Released(es)
    ensures exists k :: 0 <= k < |es| && es[k].job.scratch == s
  {
    if !Failed(es[0].job.out.stdout) && s == es[0].job.scratch {
    } else {
      ReleasedOnlyOwn(es[1..], s);
      var k :| 0 <= k < |es[1..]| && es[1..][k].job.scratch == s;
      assert es[k + 1].job.scratch == s;
    }
  }

  // ---------------------------------------------------------------------------
  // call_ext and write
  // ---------------------------------------------------------------------------

  /** `call_ext`: a fresh scratch directory, the job recorded under its
      name (replacing an earlier job of that name), and in sequential mode
      an immediate `clean`. */
  function CallExt(w: Writer, parent: string, fname: string, src: string, out: Compilation): (r: Outcome)
  {
    var id := FreshId(w.scratch);
    var w1 := w.(scratch := w.scratch + {id}, procs := Record(w.procs, fname, Job(id, parent, src, out)));
    if w.sequential then Clean(w1) else Outcome(w1, None)
  }

  /** `write(parent, fname, src)`: the parent directory is made, then the
      compiler found decides the order of `call_ext` and the end of
      sequential mode; with no compiler the program exits. Only the `clean`
      of sequential mode can raise FileNotFoundError, and it does so before
      sequential mode ends. */
  function Write(w: Writer, tool: Tool, parent: string, fname: string, src: string, out: Compilation): (r: Outcome)
    ensures r.writer.dirs == w.dirs + {parent}
    ensures tool == NoCompiler ==> r.error == Some(SystemExit) && r.writer.procs == w.procs && r.writer.files == w.files
    ensures tool != NoCompiler && r.error.Some? ==>
              r.error == Some(FileNotFoundError) && tool == Tectonic && w.sequential && r.writer.sequential
    ensures r.error.None? ==> !r.writer.sequential
  {
    var w1 := w.(dirs := w.dirs + {parent});
    match tool
    case Tectonic =>
      var o := CallExt(w1, parent, fname, src, out);
      if o.error.Some? then o else Outcome(o.writer.(sequential := false), None)
    case Pdflatex => CallExt(w1.(sequential := false), parent, fname, src, out)
    case NoCompiler => Outcome(w1, Some(SystemExit))
  }

  /** `write` keeps the writer's invariant unless its `clean` raised. */
  lemma WriteKeepsValid(w: Writer, tool: Tool, parent: string, fname: string, src: string, out: Compilation)
    requires Valid(w)
    ensures Write(w, tool, parent, fname, src, out).error != Some(FileNotFoundError) ==>
              Valid(Write(w, tool, parent, fname, src, out).writer)
  {
    var w1 := w.(dirs := w.dirs + {parent});
    if tool != NoCompiler {
      var v := if tool == Pdflatex then w1.(sequential := false) else w1;
      RecordKeepsValid(v, parent, fname, src, out);
    }
  }

  lemma RecordKeepsValid(w: Writer, parent: string, fname: string, src: string, out: Compilation)
    requires Valid(w)
    ensures var id := FreshId(w.scratch);
      var procs := Record(w.procs, fname, Job(id, parent, src, out));
      && DistinctNames(procs)
      && (forall i :: 0 <= i < |procs| ==> procs[i].job.scratch in w.scratch + {id})
      && (forall i, j :: 0 <= i < j < |procs| ==> procs[i].job.scratch != procs[j].job.scratch)
  {
    var id := FreshId(w.scratch);
    var job := Job(id, parent, src, out);
    var procs := Record(w.procs, fname, job);
    var k := IndexOf(w.procs, fname);
    if k < 0 {
      assert procs == w.procs + [Entry(fname, job)];
      OneJobReplaced(w.procs, procs, w.scratch, |w.procs|, id);
    } else {
      OneJobReplaced(w.procs, procs, w.scratch, k, id);
    }
    RecordKeepsDistinct(w.procs, fname, job);
  }

  /** Putting a job with a fresh scratch directory at one position of a
      table, keeping the others, keeps every directory owned by one job. */
  lemma OneJobReplaced(procs: seq<Entry>, r: seq<Entry>, live: set<int>, at: int, id: int)
    requires forall i :: 0 <= i < |procs| ==> procs[i].job.scratch in live
    requires forall i, j :: 0 <= i < j < |procs| ==> procs[i].job.scratch != procs[j].job.scratch
    requires id !in live
    requires 0 <= at < |r| && |procs| <= |r| <= |procs| + 1 && (|r| > |procs| ==> at == |procs|)
    requires r[at].job.scratch == id
    requires forall i :: 0 <= i < |r| && i != at ==> r[i] == procs[i]
    ensures forall i :: 0 <= i < |r| ==> r[i].job.scratch in live + {id}
    ensures forall i, j :: 0 <= i < j < |r| ==> r[i].job.scratch != r[j].job.scratch
  {
    forall i, j | 0 <= i < j < |r|
      ensures r[i].job.scratch != r[j].job.scratch
    {
      if i != at && j != at {
        assert r[i] == procs[i] && r[j] == procs[j];
      } else if i == at {
        assert r[j] == procs[j];
      } else {
        assert r[i] == procs[i];
      }
    }
  }

  /** A write whose job left its files keeps every pending job complete. */
  lemma WriteKeepsComplete(w: Writer, tool: Tool, parent: string, fname: string, src: string, out: Compilation)
    requires AllComplete(w.procs) && Complete(out)
    ensures AllComplete(Write(w, tool, parent, fname, src, out).writer.procs)
  {
    if tool != NoCompiler {
      var id := FreshId(w.scratch);
      var procs := Record(w.procs, fname, Job(id, parent, src, out));
      var k := IndexOf(w.procs, fname);
      if k < 0 {
        assert procs == w.procs + [Entry(fname, Job(id, parent, src, out))];
      }
      assert AllComplete(procs);
      if tool == Tectonic && w.sequential {
        var w2 := w.(dirs := w.dirs + {parent}, scratch := w.scratch + {id}, procs := procs);
        CollectAllSucceeds(w2, procs);
      }
    }
  }

  /** With tectonic, the first job (sequential mode) is collected at once.
      When the compiler left its file, the output is delivered, the table is
      empty again and sequential mode ends; otherwise `clean` raises
      FileNotFoundError with the job still in the table, still in
      sequential mode. */
  lemma TectonicFirstJobCollected(w: Writer, parent: string, fname: string, src: string, out: Compilation)
    requires Valid(w) && w.sequential
    ensures var o := Write(w, Tectonic, parent, fname, src, out);
      var e := Entry(fname, Job(FreshId(w.scratch), parent, src, out));
      && (o.error.None? <==> Complete(out))
      && o.writer.messages == w.messages + Printed(fname, out.stdout)
      && (o.error.None? ==> o.writer.procs == [] && !o.writer.sequential && Delivered(o.writer.files, e))
      && (o.error.Some? ==> o.error == Some(FileNotFoundError) && o.writer.procs == [Drained(e)] && o.writer.sequential)
  {
    var id := FreshId(w.scratch);
    var w1 := w.(dirs := w.dirs + {parent});
    var w2 := w1.(scratch := w1.scratch + {id}, procs := Record(w1.procs, fname, Job(id, parent, src, out)));
    assert w2.procs == [Entry(fname, Job(id, parent, src, out))];
    CleanOne(w2, Entry(fname, Job(id, parent, src, out)));
  }

  /** `clean` of a table holding one job: it raises nothing exactly when the
      job left its file, and then delivers it and empties the table;
      otherwise the job stays with its output read. Either way the job's
      message, if any, is printed once. */
  lemma CleanOne(w: Writer, e: Entry)
    requires w.procs == [e]
    ensures var c := Clean(w);
      && (c.error.None? <==> Complete(e.job.out))
      && c.writer.messages == w.messages + Printed(e.fname, e.job.out.stdout)
      && (c.error.None? ==> c.writer.procs == [] && Delivered(c.writer.files, e))
      && (c.error.Some? ==> c.error == Some(FileNotFoundError) && c.writer.procs == [Drained(e)])
  {
    CollectAllSucceeds(w, w.procs);
    CollectAllDelivers(w, w.procs, 0);
    assert CollectAll(w, w.procs) == Collect(w, e) || CollectAll(w, w.procs) == CollectAll(Collect(w, e).writer, []);
  }

  /** Nothing read from a drained pipe mentions an error. */
  lemma DrainedNotFailed(e: Entry)
    ensures !Failed(Drained(e).job.out.stdout)
  {
    assert !Contains("", "error") && !Contains("", "Error");
  }

  /** When the first tectonic job's immediate `clean` raised, the job stays
      in the table with its output already read, and the `clean` that ends
      the `with` block reads nothing: the job now counts as a success. That
      second `clean` prints no further message; it moves the PDF, if the
      compiler left one, and empties the table, and otherwise raises
      FileNotFoundError again. */
  lemma SecondCleanReadsNothing(w: Writer, parent: string, fname: string, src: string, out: Compilation)
    requires Valid(w) && w.sequential && !Complete(out)
    ensures var o := Write(w, Tectonic, parent, fname, src, out);
      var c := Clean(o.writer);
      && o.error == Some(FileNotFoundError)
      && o.writer.messages == w.messages + Printed(fname, out.stdout)
      && (c.error.None? <==> out.pdf)
      && c.writer.messages == o.writer.messages
      && (c.error.None? ==>
            && c.writer.procs == []
            && (parent, fname + ".pdf") in c.writer.files && c.writer.files[(parent, fname + ".pdf")] == Pdf(src))
      && (c.error.Some? ==> c.error == Some(FileNotFoundError) && c.writer.procs == o.writer.procs)
  {
    TectonicFirstJobCollected(w, parent, fname, src, out);
    var e := Entry(fname, Job(FreshId(w.scratch), parent, src, out));
    var o := Write(w, Tectonic, parent, fname, src, out);
    DrainedNotFailed(e);
    CleanOne(o.writer, Drained(e));
    assert Drained(Drained(e)) == Drained(e);
  }

  /** Once out of sequential mode, a job is only recorded: the disk is
      untouched and the job waits under its name for `clean`. This holds for
      every pdflatex job and for every tectonic job after the first. */
  lemma LaterJobsDeferred(w: Writer, tool: Tool, parent: string, fname: string, src: string, out: Compilation)
    requires Valid(w) && tool != NoCompiler
    requires !w.sequential || tool == Pdflatex
    ensures var o := Write(w, tool, parent, fname, src, out);
      && o.error.None?
      && o.writer.files == w.files
      && o.writer.procs == Record(w.procs, fname, Job(FreshId(w.scratch), parent, src, out))
      && Lookup(o.writer.procs, fname).Some?
      && o.writer.scratch == w.scratch + {FreshId(w.scratch)}
  {
  }

  /** A job replaced by a later job of the same name is never collected: no
      entry refers to its scratch directory any more, so `clean` neither
      moves its output nor removes that directory. */
  lemma ReplacedJobNeverCollected(w: Writer, tool: Tool, parent: string, fname: string, src: string, out: Compilation)
    requires Valid(w) && tool != NoCompiler && !w.sequential
    requires Lookup(w.procs, fname).Some?
    ensures var r := Write(w, tool, parent, fname, src, out).writer;
      var prev := Lookup(w.procs, fname).value;
      && (forall i :: 0 <= i < |r.procs| ==> r.procs[i].job.scratch != prev.scratch)
      && prev.scratch !in Released(r.procs)
  {
    var id := FreshId(w.scratch);
    var job := Job(id, parent, src, out);
    var procs := Record(w.procs, fname, job);
    var k := IndexOf(w.procs, fname);
    assert w.procs[k].job.scratch in w.scratch;
    ScratchReplaced(w.procs, procs, k, id);
    assert Write(w, tool, parent, fname, src, out).writer.procs == procs;
    if w.procs[k].job.scratch in Released(procs) {
      ReleasedOnlyOwn(procs, w.procs[k].job.scratch);
    }
  }

  /** Replacing the job at one position by a job with another scratch
      directory leaves no entry with the old directory. */
  lemma ScratchReplaced(procs: seq<Entry>, r: seq<Entry>, at: int, id: int)
    requires forall i, j :: 0 <= i < j < |procs| ==> procs[i].job.scratch != procs[j].job.scratch
    requires 0 <= at < |procs| == |r|
    requires r[at].job.scratch == id != procs[at].job.scratch
    requires forall i :: 0 <= i < |r| && i != at ==> r[i] == procs[i]
    ensures forall i :: 0 <= i < |r| ==> r[i].job.scratch != procs[at].job.scratch
  {
    forall i | 0 <= i < |r| && i != at
      ensures r[i].job.scratch != procs[at].job.scratch
    {
      assert r[i] == procs[i];
    }
  }

  /** With no compiler, the program exits after making the parent directory;
      no job is recorded and the disk is unchanged. */
  lemma NoCompilerExits(w: Writer, parent: string, fname: string, src: string, out: Compilation)
    ensures var o := Write(w, NoCompiler, parent, fname, src, out);
      && o.error == Some(SystemExit)
      && o.writer == w.(dirs := w.dirs + {parent})
  {
  }

  // ---------------------------------------------------------------------------
  // A run of writes followed by clean
  // ---------------------------------------------------------------------------

  /** A job written under `fname` is either still pending with exactly that
      directory, source and outcome, or, with nothing pending under its
      name, already collected: complete and delivered. */
  predicate Settled(w: Writer, p: string, fname: string, src: string, out: Compilation) {
    match Lookup(w.procs, fname)
    case Some(j) => j.parent == p && j.src == src && j.out == out
    case None => Complete(out) && DeliveredAs(w.files, p, fname, src, out)
  }

  /** A write that raises nothing settles its own job. */
  lemma WriteSettlesNew(w: Writer, tool: Tool, parent: string, fname: string, src: string, out: Compilation)
    requires Valid(w)
    ensures var o := Write(w, tool, parent, fname, src, out);
      o.error.None? ==> Settled(o.writer, parent, fname, src, out)
  {
    if w.sequential && tool == Tectonic {
      TectonicFirstJobCollected(w, parent, fname, src, out);
    }
  }

  /** Collecting jobs none of which is named `g` leaves `g`'s delivery alone. */
  lemma CollectAllKeepsDelivery(w: Writer, es: seq<Entry>, p: string, g: string, src: string, out: Compilation)
    requires forall i :: 0 <= i < |es| ==> es[i].fname != g
    requires DeliveredAs(w.files, p, g, src, out)
    ensures DeliveredAs(CollectAll(w, es).writer.files, p, g, src, out)
  {
    var e := Entry(g, Job(0, p, src, out));
    forall x | x in Targets(e)
      ensures x in CollectAll(w, es).writer.files && CollectAll(w, es).writer.files[x] == w.files[x]
    {
      forall i | 0 <= i < |es|
        ensures x !in Targets(es[i])
      {
        TargetsDisjoint(e, es[i]);
      }
      CollectAllKeeps(w, es, x);
    }
  }

  /** A write under another name leaves a settled job settled. */
  lemma WriteKeepsSettled(w: Writer, tool: Tool, parent: string, fname: string, src: string, out: Compilation,
                          p: string, g: string, gsrc: string, gout: Compilation)
    requires Valid(w) && g != fname
    requires Settled(w, p, g, gsrc, gout)
    ensures var o := Write(w, tool, parent, fname, src, out);
      o.error.None? ==> Settled(o.writer, p, g, gsrc, gout)
  {
    if w.sequential && tool == Tectonic {
      var id := FreshId(w.scratch);
      var w1 := w.(dirs := w.dirs + {parent});
      var w2 := w1.(scratch := w1.scratch + {id}, procs := Record(w1.procs, fname, Job(id, parent, src, out)));
      assert w2.procs == [Entry(fname, Job(id, parent, src, out))];
      CollectAllKeepsDelivery(w2, w2.procs, p, g, gsrc, gout);
    }
  }

  /** `clean` delivers every settled job, unless it raises. */
  lemma CleanDeliversSettled(w: Writer, p: string, g: string, src: string, out: Compilation)
    requires Valid(w) && Settled(w, p, g, src, out)
    ensures Clean(w).error.None? ==> DeliveredAs(Clean(w).writer.files, p, g, src, out)
  {
    var k := IndexOf(w.procs, g);
    if k >= 0 {
      CollectAllDelivers(w, w.procs, k);
    } else {
      CollectAllKeepsDelivery(w, w.procs, p, g, src, out);
    }
  }

  /** A settled job whose compiler did not leave its file makes `clean`
      raise FileNotFoundError. */
  lemma CleanFailsOnIncomplete(w: Writer, p: string, g: string, src: string, out: Compilation)
    requires Valid(w) && Settled(w, p, g, src, out) && !Complete(out)
    ensures Clean(w).error == Some(FileNotFoundError)
  {
    var k := IndexOf(w.procs, g);
    assert !Complete(w.procs[k].job.out);
    CollectAllSucceeds(w, w.procs);
  }
}
