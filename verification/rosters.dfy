/** `RostersWriter` in 1l-tools.py: one generator per section roster, then
    one PDF per section and one PDF holding every section, all written into
    the folder "Lab N Blank Rosters". The lab N is the command-line text,
    written into names and titles as given. */
module RostersWriter {
  import opened Wrappers
  import opened Text
  import opened Names
  import opened CodeGen
  import opened Paths
  import opened PdfWriter

  datatype RostersWriter = RostersWriter(lab: string, checkpoints: seq<string>, generators: seq<Fragment>)

  /** `RostersWriter(lab, checkpoints, config)`: no rosters yet. */
  function NewRostersWriter(lab: string, checkpoints: seq<string>): (r: RostersWriter)
    ensures |r.generators| == 0
  {
    RostersWriter(lab, checkpoints, [])
  }

  /** `add_roster(roster)`: one more generator, for that roster's section only. */
  function AddRoster(rw: RostersWriter, section: int, groups: map<int, seq<StudentName>>): (r: RostersWriter)
    ensures r.lab == rw.lab && r.checkpoints == rw.checkpoints
    ensures |r.generators| == |rw.generators| + 1 && r.generators[..|rw.generators|] == rw.generators
    ensures Section(r.generators[|rw.generators|]) == Success(section)
  {
    SectionOfRoster(section, groups, rw.lab, rw.checkpoints);
    var g := FromRoster(section, groups, rw.lab, rw.checkpoints);
    var r := rw.(generators := rw.generators + [g]);
    assert r.generators[..|rw.generators|] == rw.generators;
    r
  }

  /** "Lab {lab} Blank Rosters". */
  function FolderName(lab: string): string {
    LabWord + lab + FolderWord
  }

  const LabWord: string := "Lab "
  const FolderWord: string := " Blank Rosters"
  const SectionWord: string := " Section "
  const RosterWord: string := " Roster"
  const AllWord: string := " Rosters (All)"

  /** "Lab {lab} Section {section} Roster". */
  function SectionFileName(lab: string, section: int): string {
    LabWord + lab + SectionWord + IntToString(section) + RosterWord
  }

  /** "Lab {lab} Rosters (All)". */
  function AllFileName(lab: string): string {
    LabWord + lab + AllWord
  }

  /** The output folder: under the configured rosters path when there is
      one, under the working directory otherwise. */
  function Parent(rostersPath: Option<string>, cwd: string, lab: string): string {
    PathJoin(rostersPath.GetOr(cwd), FolderName(lab))
  }

  /** Different sections get different file names. */
  lemma SectionFileNameInjective(lab: string, s: int, t: int)
    requires SectionFileName(lab, s) == SectionFileName(lab, t)
    ensures s == t
  {
    var pre := LabWord + lab + SectionWord;
    var a, b := IntToString(s), IntToString(t);
    DropPrefix(pre, a, RosterWord);
    DropPrefix(pre, b, RosterWord);
    assert SectionFileName(lab, s)[|pre|..] == SectionFileName(lab, t)[|pre|..];
    SuffixedNames(a, b, RosterWord, RosterWord);
    IntToStringInjective(s, t);
  }

  /** What follows a prefix. */
  lemma DropPrefix<T>(pre: seq<T>, mid: seq<T>, post: seq<T>)
    ensures (pre + mid + post)[|pre|..] == mid + post
  {
  }

  /** No section's file is the file of all sections. */
  lemma SectionFileIsNotAllFile(lab: string, s: int)
    ensures SectionFileName(lab, s) != AllFileName(lab)
  {
    var pre := LabWord + lab;
    CharAfter(pre, SectionWord, IntToString(s) + RosterWord);
    CharAfter(pre, AllWord, []);
    assert SectionWord[1] == 'S' && AllWord[1] == 'R';
  }

  /** The second character after a prefix. */
  lemma CharAfter<T>(pre: seq<T>, mid: seq<T>, rest: seq<T>)
    requires |mid| >= 2
    ensures (pre + mid + rest)[|pre| + 1] == mid[1]
  {
  }

  predicate OneSectionEach(fs: seq<Fragment>) {
    forall k :: 0 <= k < |fs| ==> Section(fs[k]).Success?
  }

  /** The first n generators report one section each. */
  predicate OneSectionUpTo(fs: seq<Fragment>, n: int)
    requires n <= |fs|
  {
    forall k :: 0 <= k < n ==> Section(fs[k]).Success?
  }

  lemma OneSectionMore(fs: seq<Fragment>, n: int)
    requires 0 <= n < |fs| && OneSectionUpTo(fs, n) && Section(fs[n]).Success?
    ensures OneSectionUpTo(fs, n + 1)
  {
  }

  /** The section a one-section generator reports (0 for any other). */
  function Sec(f: Fragment): int {
    if Section(f).Success? then Section(f).value else 0
  }

  /** No generator after the k-th among the first n reports its section. */
  predicate Last(fs: seq<Fragment>, k: int, n: int)
    requires 0 <= k < |fs| && n <= |fs|
  {
    forall a :: k < a < n ==> Sec(fs[a]) != Sec(fs[k])
  }

  predicate DistinctSections(fs: seq<Fragment>) {
    forall a, b :: 0 <= a < b < |fs| ==> Sec(fs[a]) != Sec(fs[b])
  }

  /** Every job among the first n that no later one replaces is settled. */
  predicate SettledUpTo(w: Writer, parent: string, lab: string, fs: seq<Fragment>, n: int,
                        render: Fragment -> string, compile: string -> Compilation)
    requires n <= |fs|
  {
    forall k :: 0 <= k < n && Last(fs, k, n) ==>
      Settled(w, parent, SectionFileName(lab, Sec(fs[k])), render(fs[k]), compile(render(fs[k])))
  }

  /** Writing the i-th section keeps the earlier jobs that it does not
      replace settled and settles the new one. */
  lemma SettledStep(w: Writer, tool: Tool, parent: string, lab: string, fs: seq<Fragment>, i: int,
                    render: Fragment -> string, compile: string -> Compilation)
    requires 0 <= i < |fs| && Valid(w)
    requires SettledUpTo(w, parent, lab, fs, i, render, compile)
    ensures var o := Write(w, tool, parent, SectionFileName(lab, Sec(fs[i])), render(fs[i]), compile(render(fs[i])));
      o.error.None? ==> SettledUpTo(o.writer, parent, lab, fs, i + 1, render, compile)
  {
    var o := Write(w, tool, parent, SectionFileName(lab, Sec(fs[i])), render(fs[i]), compile(render(fs[i])));
    forall k | 0 <= k < i + 1 && Last(fs, k, i + 1)
      ensures o.error.None? ==>
                Settled(o.writer, parent, SectionFileName(lab, Sec(fs[k])), render(fs[k]), compile(render(fs[k])))
    {
      StaysSettled(w, tool, parent, lab, fs, i, k, render, compile);
    }
  }

  /** The k-th job, not replaced among the first i + 1, is settled after
      the i-th is written. */
  lemma StaysSettled(w: Writer, tool: Tool, parent: string, lab: string, fs: seq<Fragment>, i: int, k: int,
                     render: Fragment -> string, compile: string -> Compilation)
    requires 0 <= k <= i < |fs| && Valid(w)
    requires Last(fs, k, i + 1)
    requires SettledUpTo(w, parent, lab, fs, i, render, compile)
    ensures var o := Write(w, tool, parent, SectionFileName(lab, Sec(fs[i])), render(fs[i]), compile(render(fs[i])));
      o.error.None? ==>
        Settled(o.writer, parent, SectionFileName(lab, Sec(fs[k])), render(fs[k]), compile(render(fs[k])))
  {
    var fname := SectionFileName(lab, Sec(fs[i]));
    var src := render(fs[i]);
    if k == i {
      WriteSettlesNew(w, tool, parent, fname, src, compile(src));
    } else {
      assert Last(fs, k, i);
      OtherFileName(lab, fs, k, i);
      var g := SectionFileName(lab, Sec(fs[k]));
      WriteKeepsSettled(w, tool, parent, fname, src, compile(src), parent, g, render(fs[k]), compile(render(fs[k])));
    }
  }

  /** A generator whose section no later one shares writes to another file. */
  lemma OtherFileName(lab: string, fs: seq<Fragment>, k: int, i: int)
    requires 0 <= k < i < |fs| && Last(fs, k, i + 1)
    ensures SectionFileName(lab, Sec(fs[k])) != SectionFileName(lab, Sec(fs[i]))
  {
    if SectionFileName(lab, Sec(fs[k])) == SectionFileName(lab, Sec(fs[i])) {
      SectionFileNameInjective(lab, Sec(fs[k]), Sec(fs[i]));
      assert false;
    }
  }

  /** Writing the combined document `all` keeps every settled section job
      settled and settles the new one. */
  lemma SettledAtExit(w: Writer, tool: Tool, parent: string, lab: string, fs: seq<Fragment>,
                      render: Fragment -> string, compile: string -> Compilation, all: string)
    requires Valid(w)
    requires SettledUpTo(w, parent, lab, fs, |fs|, render, compile)
    ensures var o := Write(w, tool, parent, AllFileName(lab), all, compile(all));
      o.error.None? ==>
        && Valid(o.writer)
        && Settled(o.writer, parent, AllFileName(lab), all, compile(all))
        && SettledUpTo(o.writer, parent, lab, fs, |fs|, render, compile)
  {
    var fname := AllFileName(lab);
    var o := Write(w, tool, parent, fname, all, compile(all));
    WriteKeepsValid(w, tool, parent, fname, all, compile(all));
    WriteSettlesNew(w, tool, parent, fname, all, compile(all));
    forall k | 0 <= k < |fs| && Last(fs, k, |fs|)
      ensures o.error.None? ==>
                Settled(o.writer, parent, SectionFileName(lab, Sec(fs[k])), render(fs[k]), compile(render(fs[k])))
    {
      SectionFileIsNotAllFile(lab, Sec(fs[k]));
      WriteKeepsSettled(w, tool, parent, fname, all, compile(all),
                        parent, SectionFileName(lab, Sec(fs[k])), render(fs[k]), compile(render(fs[k])));
    }
  }

  /** Leaving the `with` block with every job settled: `clean` delivers the
      combined document and every section no later generator replaces, and
      raises FileNotFoundError when any of them was left incomplete. */
  lemma ExitClean(w: Writer, parent: string, lab: string, fs: seq<Fragment>,
                  render: Fragment -> string, compile: string -> Compilation, all: string)
    requires Valid(w)
    requires Settled(w, parent, AllFileName(lab), all, compile(all))
    requires SettledUpTo(w, parent, lab, fs, |fs|, render, compile)
    ensures Clean(w).error.None? ==> DeliveredAs(Clean(w).writer.files, parent, AllFileName(lab), all, compile(all))
    ensures !Complete(compile(all)) ==> Clean(w).error == Some(FileNotFoundError)
    ensures forall k :: 0 <= k < |fs| && Last(fs, k, |fs|) ==>
              && (Clean(w).error.None? ==>
                    DeliveredAs(Clean(w).writer.files, parent, SectionFileName(lab, Sec(fs[k])), render(fs[k]), compile(render(fs[k]))))
              && (!Complete(compile(render(fs[k]))) ==> Clean(w).error == Some(FileNotFoundError))
  {
    CleanDeliversSettled(w, parent, AllFileName(lab), all, compile(all));
    if !Complete(compile(all)) {
      CleanFailsOnIncomplete(w, parent, AllFileName(lab), all, compile(all));
    }
    forall k | 0 <= k < |fs| && Last(fs, k, |fs|)
      ensures Clean(w).error.None? ==>
                DeliveredAs(Clean(w).writer.files, parent, SectionFileName(lab, Sec(fs[k])), render(fs[k]), compile(render(fs[k])))
      ensures !Complete(compile(render(fs[k]))) ==> Clean(w).error == Some(FileNotFoundError)
    {
      var g := SectionFileName(lab, Sec(fs[k]));
      CleanDeliversSettled(w, parent, g, render(fs[k]), compile(render(fs[k])));
      if !Complete(compile(render(fs[k]))) {
        CleanFailsOnIncomplete(w, parent, g, render(fs[k]), compile(render(fs[k])));
      }
    }
  }

  /** The first write of the loop raises FileNotFoundError: tectonic, in
      sequential mode, left no file to move for the first section. */
  predicate FirstJobFails(w0: Writer, tool: Tool, fs: seq<Fragment>, render: Fragment -> string, compile: string -> Compilation) {
    && tool == Tectonic && w0.sequential && |fs| > 0
    && Section(fs[0]).Success? && !Complete(compile(render(fs[0])))
  }

  /** The loop of `run` writing one file per section: it stops with the
      error of the first generator without a single section, of the first
      write that finds no compiler, or of the first job's immediate `clean`. */
  method WriteSections(w0: Writer, tool: Tool, parent: string, lab: string, fs: seq<Fragment>,
                       render: Fragment -> string, compile: string -> Compilation)
    returns (w: Writer, error: Option<Error>)
    requires Valid(w0)
    ensures error != Some(FileNotFoundError) ==> Valid(w)
    ensures SectionsEnd(w0, tool, fs, render, compile, error)
    ensures |fs| > 0 && error.None? ==> parent in w.dirs
    ensures w.dirs >= w0.dirs
    ensures error.None? ==> SettledUpTo(w, parent, lab, fs, |fs|, render, compile)
    ensures Reliable(compile) && AllComplete(w0.procs) ==> AllComplete(w.procs)
    ensures |fs| == 0 ==> w.sequential == w0.sequential
    ensures |fs| > 0 && error.None? ==> !w.sequential
    ensures error == Some(FileNotFoundError) ==>
              |fs| > 0 && LeftRead(w, parent, SectionFileName(lab, Sec(fs[0])), render(fs[0]), compile(render(fs[0])))
  {
    ghost var reliable := Reliable(compile) && AllComplete(w0.procs);
    w := w0;
    var i := 0;
    while i < |fs|
      invariant 0 <= i <= |fs|
      invariant i == 0 ==> w.sequential == w0.sequential
      invariant i > 0 ==> tool != NoCompiler && parent in w.dirs && !w.sequential
      invariant i > 0 ==> !FirstJobFails(w0, tool, fs, render, compile)
      invariant Valid(w)
      invariant w.dirs >= w0.dirs
      invariant OneSectionUpTo(fs, i)
      invariant SettledUpTo(w, parent, lab, fs, i, render, compile)
      invariant reliable ==> AllComplete(w.procs)
    {
      var section := Section(fs[i]);
      if section.Failure? {
        NoSectionEnds(w0, tool, fs, render, compile, i);
        return w, Some(section.error);
      }
      OneSectionMore(fs, i);
      var o := WriteSection(w0, w, tool, parent, lab, fs, i, render, compile, reliable);
      if o.error.Some? {
        WriteErrorEnds(w0, tool, fs, render, compile, i, o.error);
        return o.writer, o.error;
      }
      w := o.writer;
      i := i + 1;
    }
    AllWrittenEnds(w0, tool, fs, render, compile);
    error := None;
  }

  /** How the loop of `run` over the sections ends: normally exactly when
      every generator reports one section, a compiler is found (or there is
      nothing to write) and the first job's immediate `clean` succeeds;
      otherwise with FileNotFoundError exactly when that `clean` fails, with
      SystemExit when no compiler is found for the first section, and with
      ValueError when a generator without a single section is reached. */
  predicate SectionsEnd(w0: Writer, tool: Tool, fs: seq<Fragment>, render: Fragment -> string,
                        compile: string -> Compilation, error: Option<Error>) {
    && (error.Some? ==> error == Some(ValueError) || error == Some(SystemExit) || error == Some(FileNotFoundError))
    && (error.None? <==>
          OneSectionEach(fs) && (|fs| == 0 || tool != NoCompiler) && !FirstJobFails(w0, tool, fs, render, compile))
    && (error == Some(FileNotFoundError) <==> FirstJobFails(w0, tool, fs, render, compile))
    && (error.Some? && tool != NoCompiler && !FirstJobFails(w0, tool, fs, render, compile) ==> error == Some(ValueError))
    && (error.Some? && tool == NoCompiler && (|fs| == 0 || Section(fs[0]).Success?) ==> error == Some(SystemExit))
  }

  /** The loop stops at the i-th generator, which has no single section. */
  lemma NoSectionEnds(w0: Writer, tool: Tool, fs: seq<Fragment>, render: Fragment -> string,
                      compile: string -> Compilation, i: int)
    requires 0 <= i < |fs| && OneSectionUpTo(fs, i) && Section(fs[i]).Failure?
    requires i > 0 ==> tool != NoCompiler && !FirstJobFails(w0, tool, fs, render, compile)
    ensures SectionsEnd(w0, tool, fs, render, compile, Some(ValueError))
  {
  }

  /** The loop stops at the write of the i-th generator. */
  lemma WriteErrorEnds(w0: Writer, tool: Tool, fs: seq<Fragment>, render: Fragment -> string,
                       compile: string -> Compilation, i: int, error: Option<Error>)
    requires 0 <= i < |fs| && OneSectionUpTo(fs, i + 1)
    requires error == Some(SystemExit) || error == Some(FileNotFoundError)
    requires tool == NoCompiler <==> error == Some(SystemExit)
    requires error == Some(FileNotFoundError) <==> i == 0 && FirstJobFails(w0, tool, fs, render, compile)
    requires i > 0 ==> tool != NoCompiler
    ensures SectionsEnd(w0, tool, fs, render, compile, error)
  {
  }

  /** The loop writes every section. */
  lemma AllWrittenEnds(w0: Writer, tool: Tool, fs: seq<Fragment>, render: Fragment -> string,
                       compile: string -> Compilation)
    requires OneSectionUpTo(fs, |fs|)
    requires |fs| > 0 ==> tool != NoCompiler && !FirstJobFails(w0, tool, fs, render, compile)
    ensures SectionsEnd(w0, tool, fs, render, compile, None)
  {
  }

  /** What a first job's failed immediate `clean` leaves: that job alone in
      the table, with its output read. */
  predicate LeftRead(w: Writer, parent: string, fname: string, src: string, out: Compilation) {
    && |w.procs| == 1
    && w.procs[0] == Drained(Entry(fname, Job(w.procs[0].job.scratch, parent, src, out)))
  }

  /** The `clean` that ends the `with` block after a first job's failed
      `clean` reads a drained pipe: it moves the PDF, if there is one, and
      empties the table, printing nothing more; otherwise it raises
      FileNotFoundError again. */
  lemma CleanAfterLeftRead(w: Writer, parent: string, fname: string, src: string, out: Compilation)
    requires LeftRead(w, parent, fname, src, out)
    ensures var c := Clean(w);
      && (c.error.None? <==> out.pdf)
      && c.writer.messages == w.messages
      && (c.error.None? ==>
            c.writer.procs == [] && (parent, fname + ".pdf") in c.writer.files && c.writer.files[(parent, fname + ".pdf")] == Pdf(src))
      && (c.error.Some? ==> c.error == Some(FileNotFoundError) && c.writer.procs == w.procs)
  {
    var e := w.procs[0];
    DrainedNotFailed(e);
    CleanOne(w, e);
    assert Drained(e) == e;
  }

  /** The source and the file name of the first job of the `with` block:
      the first section's, or the combined document's when there is none. */
  function FirstSource(fs: seq<Fragment>, all: string, render: Fragment -> string): string {
    if |fs| > 0 then render(fs[0]) else all
  }

  function FirstName(lab: string, fs: seq<Fragment>): string {
    if |fs| > 0 then SectionFileName(lab, Sec(fs[0])) else AllFileName(lab)
  }

  /** The first job of the block is compiled by tectonic in sequential mode,
      and the `clean` that follows at once does not find its file. */
  predicate FirstCleanFails(w0: Writer, tool: Tool, fs: seq<Fragment>, all: string,
                            render: Fragment -> string, compile: string -> Compilation) {
    && tool == Tectonic && w0.sequential && (|fs| == 0 || Section(fs[0]).Success?)
    && !Complete(compile(FirstSource(fs, all, render)))
  }

  /** One turn of the loop, `writer.write(parent, fname, codegen.run())`
      for the i-th section: it raises SystemExit exactly without a compiler,
      FileNotFoundError only as the first job of tectonic's sequential mode,
      and otherwise keeps the writer valid and the jobs settled. */
  method WriteSection(w0: Writer, w: Writer, tool: Tool, parent: string, lab: string, fs: seq<Fragment>, i: int,
                      render: Fragment -> string, compile: string -> Compilation, ghost reliable: bool)
    returns (o: Outcome)
    requires 0 <= i < |fs| && Valid(w) && Section(fs[i]).Success?
    requires i == 0 ==> w.sequential == w0.sequential
    requires i > 0 ==> tool != NoCompiler && !w.sequential && !FirstJobFails(w0, tool, fs, render, compile)
    requires reliable ==> Reliable(compile) && AllComplete(w.procs)
    requires SettledUpTo(w, parent, lab, fs, i, render, compile)
    ensures o.writer.dirs == w.dirs + {parent}
    ensures tool == NoCompiler <==> o.error == Some(SystemExit)
    ensures o.error == Some(FileNotFoundError) <==> i == 0 && FirstJobFails(w0, tool, fs, render, compile)
    ensures o.error.Some? ==> o.error == Some(SystemExit) || o.error == Some(FileNotFoundError)
    ensures o.error != Some(FileNotFoundError) ==> Valid(o.writer)
    ensures reliable ==> AllComplete(o.writer.procs)
    ensures o.error.None? ==> !o.writer.sequential && SettledUpTo(o.writer, parent, lab, fs, i + 1, render, compile)
    ensures o.error == Some(FileNotFoundError) ==>
              LeftRead(o.writer, parent, SectionFileName(lab, Sec(fs[i])), render(fs[i]), compile(render(fs[i])))
  {
    var fname := SectionFileName(lab, Sec(fs[i]));
    var src := render(fs[i]);
    if tool == Tectonic && w.sequential {
      TectonicFirstJobCollected(w, parent, fname, src, compile(src));
    }
    WriteKeepsValid(w, tool, parent, fname, src, compile(src));
    if reliable {
      WriteKeepsComplete(w, tool, parent, fname, src, compile(src));
    }
    SettledStep(w, tool, parent, lab, fs, i, render, compile);
    o := Write(w, tool, parent, fname, src, compile(src));
  }

  /** The body of the `with PDFWriter() as writer` block of `run`, for any
      rendering of a generator to its LaTeX source: one file per section,
      then `all` (the source of the combined document) into the "all" file.
      Leaving the block, normally or by an exception, runs `clean`; an
      exception `clean` raises replaces the one that ended the block. */
  method WriteAll(w0: Writer, tool: Tool, parent: string, lab: string, fs: seq<Fragment>, all: string,
                  render: Fragment -> string, compile: string -> Compilation)
    returns (w: Writer, error: Option<Error>)
    requires Valid(w0)
    ensures error != Some(FileNotFoundError) ==> w.procs == []
    ensures error.Some? ==> error == Some(ValueError) || error == Some(SystemExit) || error == Some(FileNotFoundError)
    ensures error.None? ==> tool != NoCompiler && OneSectionEach(fs)
    ensures Reliable(compile) && AllComplete(w0.procs) ==> (error.None? <==> tool != NoCompiler && OneSectionEach(fs))
    ensures Reliable(compile) && AllComplete(w0.procs) && tool != NoCompiler && !OneSectionEach(fs) ==>
              error == Some(ValueError)
    ensures Reliable(compile) && AllComplete(w0.procs) && tool == NoCompiler && (|fs| == 0 || Section(fs[0]).Success?) ==>
              error == Some(SystemExit)
    ensures tool != NoCompiler && OneSectionEach(fs) && !Complete(compile(all)) ==> error == Some(FileNotFoundError)
    ensures tool != NoCompiler && OneSectionEach(fs) ==>
              forall k :: 0 <= k < |fs| && Last(fs, k, |fs|) && !Complete(compile(render(fs[k]))) ==>
                error == Some(FileNotFoundError)
    ensures error.None? ==> parent in w.dirs
    ensures error.None? ==> DeliveredAs(w.files, parent, AllFileName(lab), all, compile(all))
    ensures error.None? ==>
              forall k :: 0 <= k < |fs| && Last(fs, k, |fs|) ==>
                DeliveredAs(w.files, parent, SectionFileName(lab, Sec(fs[k])), render(fs[k]), compile(render(fs[k])))
    ensures FirstCleanFails(w0, tool, fs, all, render, compile) ==> error == Some(FileNotFoundError)
    ensures FirstCleanFails(w0, tool, fs, all, render, compile) ==>
              var src := FirstSource(fs, all, render);
              var n := FirstName(lab, fs);
              && (w.procs == [] <==> compile(src).pdf)
              && (compile(src).pdf ==> (parent, n + ".pdf") in w.files && w.files[(parent, n + ".pdf")] == Pdf(src))
  {
    ghost var reliable := Reliable(compile) && AllComplete(w0.procs);
    w, error := WriteSections(w0, tool, parent, lab, fs, render, compile);
    if error.Some? {
      if error != Some(FileNotFoundError) && reliable {
        CleanEffects(w);
      }
      if error == Some(FileNotFoundError) {
        CleanAfterLeftRead(w, parent, SectionFileName(lab, Sec(fs[0])), render(fs[0]), compile(render(fs[0])));
      }
      var c := Clean(w);
      return c.writer, if c.error.Some? then c.error else error;
    }
    var fname := AllFileName(lab);
    var o := Write(w, tool, parent, fname, all, compile(all));
    if tool == Tectonic && w.sequential {
      TectonicFirstJobCollected(w, parent, fname, all, compile(all));
      if o.error.Some? {
        CleanAfterLeftRead(o.writer, parent, fname, all, compile(all));
      }
    }
    WriteKeepsValid(w, tool, parent, fname, all, compile(all));
    if reliable {
      WriteKeepsComplete(w, tool, parent, fname, all, compile(all));
    }
    if o.error.Some? {
      if o.error != Some(FileNotFoundError) && reliable {
        CleanEffects(o.writer);
      }
      var c := Clean(o.writer);
      return c.writer, if c.error.Some? then c.error else o.error;
    }
    SettledAtExit(w, tool, parent, lab, fs, render, compile, all);
    ExitClean(o.writer, parent, lab, fs, render, compile, all);
    if reliable {
      CleanEffects(o.writer);
    }
    var c := Clean(o.writer);
    w, error := c.writer, c.error;
  }

  /** `RostersWriter.run()`. `tool` is the compiler on the search path,
      `compile` gives what the compiler prints and leaves for a source, and
      `dirs` and `files` are the file system before the run. Every generator
      must report a single section (otherwise the `section` property raises
      ValueError); each is rendered to "Lab N Section S Roster", then the
      sum of all of them to "Lab N Rosters (All)". A later generator for the
      same section replaces the earlier one's pending job, so the last one
      for each section is delivered. */
  method RunRosters(rw: RostersWriter, rostersPath: Option<string>, cwd: string, tool: Tool,
                    compile: string -> Compilation, dirs: set<string>, files: map<(string, string), Content>)
    returns (w: Writer, error: Option<Error>)
    ensures error != Some(FileNotFoundError) ==> w.procs == []
    ensures error.None? ==> tool != NoCompiler && OneSectionEach(rw.generators)
    ensures Reliable(compile) ==> (error.None? <==> tool != NoCompiler && OneSectionEach(rw.generators))
    ensures Reliable(compile) && tool != NoCompiler && !OneSectionEach(rw.generators) ==> error == Some(ValueError)
    ensures Reliable(compile) && tool == NoCompiler && (|rw.generators| == 0 || Section(rw.generators[0]).Success?) ==>
              error == Some(SystemExit)
    ensures tool != NoCompiler && OneSectionEach(rw.generators) && !Complete(compile(Run(Sum(rw.generators)))) ==>
              error == Some(FileNotFoundError)
    ensures error.None? ==> Parent(rostersPath, cwd, rw.lab) in w.dirs
    ensures error.None? ==>
              DeliveredAs(w.files, Parent(rostersPath, cwd, rw.lab), AllFileName(rw.lab),
                          Run(Sum(rw.generators)), compile(Run(Sum(rw.generators))))
    ensures error.None? ==>
              forall k :: 0 <= k < |rw.generators| && Last(rw.generators, k, |rw.generators|) ==>
                DeliveredAs(w.files, Parent(rostersPath, cwd, rw.lab), SectionFileName(rw.lab, Sec(rw.generators[k])),
                            Run(rw.generators[k]), compile(Run(rw.generators[k])))
    ensures FirstCleanFails(NewWriter(dirs, files), tool, rw.generators, Run(Sum(rw.generators)), Run, compile) ==>
              var src := FirstSource(rw.generators, Run(Sum(rw.generators)), Run);
              var n := FirstName(rw.lab, rw.generators);
              var p := Parent(rostersPath, cwd, rw.lab);
              && error == Some(FileNotFoundError)
              && (w.procs == [] <==> compile(src).pdf)
              && (compile(src).pdf ==> (p, n + ".pdf") in w.files && w.files[(p, n + ".pdf")] == Pdf(src))
  {
    w, error := WriteAll(NewWriter(dirs, files), tool, Parent(rostersPath, cwd, rw.lab), rw.lab, rw.generators,
                         Run(Sum(rw.generators)), Run, compile);
  }

  /** With distinct sections no generator is replaced by a later one. */
  lemma DistinctSectionsAllLast(fs: seq<Fragment>, k: int)
    requires DistinctSections(fs) && 0 <= k < |fs|
    ensures Last(fs, k, |fs|)
  {
  }

  /** The combined document has exactly the sections of the per-section
      generators. */
  lemma AllDocumentSections(fs: seq<Fragment>)
    requires OneSectionEach(fs)
    ensures forall s :: s in Sum(fs).code <==> exists k :: 0 <= k < |fs| && Sec(fs[k]) == s
  {
    SectionsOfGenerators(fs);
    SumSections(fs);
  }

  /** Some generator holds lines for section `s`. */
  predicate Held(fs: seq<Fragment>, s: int) {
    exists k :: 0 <= k < |fs| && s in fs[k].code
  }

  /** Some generator reports section `s`. */
  predicate Reported(fs: seq<Fragment>, s: int) {
    exists k :: 0 <= k < |fs| && Sec(fs[k]) == s
  }

  /** A section is held by some one-section generator exactly when some
      generator reports it. */
  lemma SectionsOfGenerators(fs: seq<Fragment>)
    requires OneSectionEach(fs)
    ensures forall s :: Held(fs, s) <==> Reported(fs, s)
  {
    forall s
      ensures Held(fs, s) <==> Reported(fs, s)
    {
      if k :| 0 <= k < |fs| && s in fs[k].code {
        OnlySection(fs[k], s);
      }
      if k :| 0 <= k < |fs| && Sec(fs[k]) == s {
        OnlySection(fs[k], s);
      }
    }
  }

  /** A one-section generator holds exactly the section it reports. */
  lemma OnlySection(f: Fragment, s: int)
    requires Section(f).Success?
    ensures s in f.code <==> Sec(f) == s
  {
  }

  /** With distinct sections, each section of the combined document has the
      lines its own generator gave it. */
  lemma AllDocumentKeepsEachSection(fs: seq<Fragment>, k: int)
    requires OneSectionEach(fs) && DistinctSections(fs) && 0 <= k < |fs|
    ensures Sec(fs[k]) in Sum(fs).code && Sum(fs).code[Sec(fs[k])] == fs[k].code[Sec(fs[k])]
  {
    var s := Sec(fs[k]);
    OnlySection(fs[k], s);
    forall j | k < j < |fs|
      ensures s !in fs[j].code
    {
      OnlySection(fs[j], s);
    }
    SumLastWins(fs, k, s);
  }

  /** The combined document carries the lab number of its first generator. */
  lemma AllDocumentLab(fs: seq<Fragment>, lab: string)
    requires |fs| > 0 && fs[0].lab == Some(lab)
    ensures Sum(fs).lab == Some(lab)
  {
    SumLab(fs);
  }
}
