/** LaTeX roster generators (`CodeGen` in 1l-tools.py). A generator holds the
    lines of each section's roster table keyed by section number, plus an
    optional lab (the text given on the command line) and an optional list
    of checkpoints. Generators form a
    monoid under `+`: the section maps merge with the right operand winning on
    a shared section, and the lab and checkpoints are the first present ones.
    `CodeGen.from_code(code, lab, checkpoints)` is the `Fragment` constructor
    itself. Lines are concrete strings, written exactly as the program
    formats them. */
module CodeGen {
  import opened Wrappers
  import opened Text
  import opened Order
  import opened Names

  datatype Fragment = Fragment(code: map<int, seq<string>>, lab: Option<string>, checkpoints: Option<seq<string>>)

  // ---------------------------------------------------------------------------
  // The monoid
  // ---------------------------------------------------------------------------

  /** `CodeGen.mempty()`: no sections, no lab, no checkpoints. */
  function Mempty(): (r: Fragment)
    ensures |r.code| == 0 && r.lab.None? && r.checkpoints.None?
  {
    Fragment(map[], None, None)
  }

  /** `a + b`: every section of either operand is kept, a section present in
      both takes `b`'s lines, and the lab and checkpoints are `a`'s when
      present and `b`'s otherwise. */
  function Add(a: Fragment, b: Fragment): (r: Fragment)
    ensures r.code.Keys == a.code.Keys + b.code.Keys
    ensures forall s :: s in b.code ==> r.code[s] == b.code[s]
    ensures forall s :: s in a.code && s !in b.code ==> r.code[s] == a.code[s]
    ensures a.lab.Some? ==> r.lab == a.lab
    ensures a.lab.None? ==> r.lab == b.lab
    ensures a.checkpoints.Some? ==> r.checkpoints == a.checkpoints
    ensures a.checkpoints.None? ==> r.checkpoints == b.checkpoints
  {
    Fragment(a.code + b.code, FirstPresent(a.lab, b.lab), FirstPresent(a.checkpoints, b.checkpoints))
  }

  /** `mempty` is a left and a right identity of `+`. */
  lemma Identity(f: Fragment)
    ensures Add(Mempty(), f) == f
    ensures Add(f, Mempty()) == f
  {
    assert Add(Mempty(), f).code == f.code;
    assert Add(f, Mempty()).code == f.code;
  }

  /** `+` is associative, also when sections overlap. */
  lemma Associative(a: Fragment, b: Fragment, c: Fragment)
    ensures Add(Add(a, b), c) == Add(a, Add(b, c))
  {
    var l := Add(Add(a, b), c);
    var r := Add(a, Add(b, c));
    assert l.code.Keys == r.code.Keys;
    forall s | s in l.code
      ensures l.code[s] == r.code[s]
    {
    }
    assert l.code == r.code;
  }

  /** On disjoint sections the order of the operands does not matter for
      the code; on a shared section it does. */
  lemma AddCodeCommutesWhenDisjoint(a: Fragment, b: Fragment)
    requires a.code.Keys !! b.code.Keys
    ensures Add(a, b).code == Add(b, a).code
  {
    var l := Add(a, b).code;
    var r := Add(b, a).code;
    forall s | s in l
      ensures l[s] == r[s]
    {
    }
  }

  lemma SharedSectionRightWins(a: Fragment, b: Fragment, s: int)
    requires s in a.code && s in b.code && a.code[s] != b.code[s]
    ensures Add(a, b).code[s] == b.code[s]
    ensures Add(a, b).code != Add(b, a).code
  {
    assert Add(b, a).code[s] == a.code[s];
  }

  /** `__radd__(self, rhs)`: `self + rhs`, the operands in the order written
      in the method rather than reflected. */
  function RAdd(self: Fragment, rhs: Fragment): (r: Fragment)
    ensures r.code.Keys == self.code.Keys + rhs.code.Keys
    ensures forall s :: s in rhs.code ==> r.code[s] == rhs.code[s]
  {
    Add(self, rhs)
  }

  /** The reflected sum is not `rhs + self`: with a shared section it keeps
      `rhs`'s lines where `rhs + self` keeps `self`'s. */
  lemma RAddIsNotReflected(self: Fragment, rhs: Fragment, s: int)
    requires s in self.code && s in rhs.code && self.code[s] != rhs.code[s]
    ensures RAdd(self, rhs) != Add(rhs, self)
  {
    SharedSectionRightWins(self, rhs, s);
    assert RAdd(self, rhs).code[s] != Add(rhs, self).code[s];
  }

  // ---------------------------------------------------------------------------
  // sum(generators, CodeGen.mempty())
  // ---------------------------------------------------------------------------

  /** Python's `sum(fs, CodeGen.mempty())`: `((mempty + fs[0]) + fs[1]) + ...`. */
  function Sum(fs: seq<Fragment>): Fragment
  {
    if |fs| == 0 then Mempty() else Add(Sum(fs[..|fs| - 1]), fs[|fs| - 1])
  }

  /** The sections of a sum are those of its terms. */
  lemma {:induction false} SumSections(fs: seq<Fragment>)
    ensures forall s :: s in Sum(fs).code <==> exists i :: 0 <= i < |fs| && s in fs[i].code
  {
    if |fs| > 0 {
      var init := fs[..|fs| - 1];
      SumSections(init);
      forall s
        ensures s in Sum(fs).code <==> exists i :: 0 <= i < |fs| && s in fs[i].code
      {
        if s in Sum(init).code {
          var i :| 0 <= i < |init| && s in init[i].code;
          assert s in fs[i].code;
        }
        if i :| 0 <= i < |fs| && s in fs[i].code {
          if i < |fs| - 1 {
            assert s in init[i].code;
          }
        }
      }
    }
  }

  /** A section takes the lines of the last term that has it. */
  lemma {:induction false} SumLastWins(fs: seq<Fragment>, i: int, s: int)
    requires 0 <= i < |fs| && s in fs[i].code
    requires forall j :: i < j < |fs| ==> s !in fs[j].code
    ensures s in Sum(fs).code && Sum(fs).code[s] == fs[i].code[s]
  {
    var init := fs[..|fs| - 1];
    if i < |fs| - 1 {
      SumLastWins(init, i, s);
      assert init[i] == fs[i];
    }
  }

  /** The lab of a sum is the lab of the first term that has one. */
  lemma {:induction false} SumLab(fs: seq<Fragment>)
    ensures Sum(fs).lab.None? <==> forall i :: 0 <= i < |fs| ==> fs[i].lab.None?
    ensures forall i :: 0 <= i < |fs| && fs[i].lab.Some? && (forall j :: 0 <= j < i ==> fs[j].lab.None?) ==>
              Sum(fs).lab == fs[i].lab
  {
    if |fs| > 0 {
      var init := fs[..|fs| - 1];
      SumLab(init);
      assert forall i :: 0 <= i < |init| ==> init[i] == fs[i];
    }
  }

  /** The checkpoints of a sum are those of the first term that has some. */
  lemma {:induction false} SumCheckpoints(fs: seq<Fragment>)
    ensures Sum(fs).checkpoints.None? <==> forall i :: 0 <= i < |fs| ==> fs[i].checkpoints.None?
    ensures forall i :: 0 <= i < |fs| && fs[i].checkpoints.Some? && (forall j :: 0 <= j < i ==> fs[j].checkpoints.None?) ==>
              Sum(fs).checkpoints == fs[i].checkpoints
  {
    if |fs| > 0 {
      var init := fs[..|fs| - 1];
      SumCheckpoints(init);
      assert forall i :: 0 <= i < |init| ==> init[i] == fs[i];
    }
  }

  /** Summing a concatenation is adding the two sums (the monoid law at work). */
  lemma {:induction false} SumAppend(fs: seq<Fragment>, gs: seq<Fragment>)
    ensures Sum(fs + gs) == Add(Sum(fs), Sum(gs))
    decreases |gs|
  {
    if |gs| == 0 {
      assert fs + gs == fs;
      Identity(Sum(fs));
    } else {
      var ginit := gs[..|gs| - 1];
      var last := gs[|gs| - 1];
      assert (fs + gs)[..|fs + gs| - 1] == fs + ginit;
      SumAppend(fs, ginit);
      Associative(Sum(fs), Sum(ginit), last);
    }
  }

  // ---------------------------------------------------------------------------
  // The lines of a roster table
  // ---------------------------------------------------------------------------

  /** LaTeX preceding the tables. */
  const Header: seq<string> := [
    @"\documentclass[11pt]{article}",
    @"\usepackage[margin=0.85in]{geometry}",
    @"\usepackage{multirow}",
    @"\usepackage{tabularx}",
    @"\usepackage{makecell}",
    @"\usepackage[sfdefault, lf]{carlito}",
    @"\newcolumntype{?}{!{\vrule width 2pt}}",
    @"\newcolumntype{C}{>{\centering\arraybackslash}X}",
    @"\setlength\arrayrulewidth{1pt}",
    @"\renewcommand{\arraystretch}{1.3}",
    @"\pagenumbering{gobble}",
    @"\begin{document}"]

  const Footer: seq<string> := [@"\end{document}"]

  const Hline: string := @"      \hline"
  const NewPage: string := @"\newpage"

  /** The empty cells after the student name: `'& ' * (n - 1)`. */
  function Seps(n: nat): string {
    Repeat("& ", n - 1)
  }

  /** The fixed pieces of a group's rows. */
  const MultirowCell: string := @"      & & \multirow{"
  const GroupCell: string := @"}{*}{\textbf{"
  const GroupCellEnd: string := "}} & "
  const LateCells: string := " & & "
  const LineBreak: string := @"\\"
  const ClineStart: string := @"      \cline{1-2}\cline{4-"
  const EmptyCells: string := @"      & & & "

  /** The first row of a group: the group number spans all its rows. */
  function FirstRow(group: int, nrows: nat, student: StudentName, n: nat): string {
    MultirowCell + IntToString(nrows) + GroupCell + IntToString(group) + GroupCellEnd
      + student.Str() + LateCells + Seps(n) + LineBreak
  }

  /** The rule between two rows of one group, skipping the group column. */
  function Cline(n: nat): string {
    ClineStart + IntToString(n + 5) + "}"
  }

  /** A further row of a group. */
  function StudentRow(student: StudentName, n: nat): string {
    EmptyCells + student.Str() + LateCells + Seps(n) + LineBreak
  }

  /** `sep` before each of `rows`. */
  function Interleave<T>(sep: T, rows: seq<T>): (r: seq<T>)
    ensures |r| == 2 * |rows|
  {
    if |rows| == 0 then [] else [sep, rows[0]] + Interleave(sep, rows[1..])
  }

  /** Between a first and a last line, the t-th row of an interleaving sits
      at 2t + 2, right after its separator. */
  lemma {:induction false} InterleaveBetween<T>(first: T, sep: T, rows: seq<T>, last: T, t: nat)
    requires t < |rows|
    ensures ([first] + Interleave(sep, rows) + [last])[2 * t + 1] == sep
    ensures ([first] + Interleave(sep, rows) + [last])[2 * t + 2] == rows[t]
  {
    var rest := Interleave(sep, rows[1..]);
    assert Interleave(sep, rows) == [sep, rows[0]] + rest;
    if t > 0 {
      InterleaveBetween(first, sep, rows[1..], last, t - 1);
      assert ([first] + rest + [last])[2 * t - 1] == ([first] + Interleave(sep, rows) + [last])[2 * t + 1];
      assert ([first] + rest + [last])[2 * t] == ([first] + Interleave(sep, rows) + [last])[2 * t + 2];
    }
  }

  /** The rules and rows for the students after the first. */
  function LaterRows(students: seq<StudentName>, n: nat): (r: seq<string>)
    ensures |r| == 2 * |students|
  {
    Interleave(Cline(n), seq(|students|, i requires 0 <= i < |students| => StudentRow(students[i], n)))
  }

  /** `add_group`: nothing for an empty group; otherwise the first row, a
      rule and a row for every further student, and a closing `\hline`. */
  function GroupLines(group: int, students: seq<StudentName>, n: nat): (r: seq<string>)
    ensures |students| == 0 ==> r == []
    ensures |students| > 0 ==> |r| == 2 * |students|
  {
    if |students| == 0 then []
    else [FirstRow(group, |students|, students[0], n)] + LaterRows(students[1..], n) + [Hline]
  }

  /** A group of k students takes 2k lines: the first row spanning all k
      rows, then a rule and a row for each further student in order, then
      `\hline`. */
  lemma GroupLayout(group: int, students: seq<StudentName>, n: nat)
    requires |students| > 0
    ensures var r := GroupLines(group, students, n);
      && r[0] == FirstRow(group, |students|, students[0], n)
      && (forall t :: 1 <= t < |students| ==> r[2 * t - 1] == Cline(n) && r[2 * t] == StudentRow(students[t], n))
      && r[|r| - 1] == Hline
  {
    var rest := students[1..];
    var rows := seq(|rest|, i requires 0 <= i < |rest| => StudentRow(rest[i], n));
    forall t | 1 <= t < |students|
      ensures rows[t - 1] == StudentRow(students[t], n)
    {
      assert rest[t - 1] == students[t];
    }
    GroupShape(FirstRow(group, |students|, students[0], n), Cline(n), rows, Hline);
  }

  /** The shape of a group's lines, whatever the lines say. */
  lemma GroupShape<T>(first: T, sep: T, rows: seq<T>, last: T)
    ensures var r := [first] + Interleave(sep, rows) + [last];
      && r[0] == first
      && (forall t :: 1 <= t <= |rows| ==> r[2 * t - 1] == sep && r[2 * t] == rows[t - 1])
      && r[|r| - 1] == last
  {
    forall t | 1 <= t <= |rows|
      ensures ([first] + Interleave(sep, rows) + [last])[2 * t - 1] == sep
      ensures ([first] + Interleave(sep, rows) + [last])[2 * t] == rows[t - 1]
    {
      InterleaveBetween(first, sep, rows, last, t - 1);
    }
  }

  /** The group blocks in the order of `keys`. */
  function Blocks(groups: map<int, seq<StudentName>>, keys: seq<int>, n: nat): seq<string>
    requires forall i :: 0 <= i < |keys| ==> keys[i] in groups
  {
    if |keys| == 0 then []
    else
      var last := keys[|keys| - 1];
      Blocks(groups, keys[..|keys| - 1], n) + GroupLines(last, groups[last], n)
  }

  /** Python's `lines[:-1]`. */
  function DropLast<T>(s: seq<T>): (r: seq<T>)
    ensures |s| > 0 ==> |r| == |s| - 1 && s == r + [s[|s| - 1]]
    ensures |s| == 0 ==> r == []
  {
    if |s| == 0 then [] else s[..|s| - 1]
  }

  /** A checkpoint heading: bold, with every `&` escaped. */
  function Heading(c: string): string {
    ReplaceChar(@"\textbf{" + c + "}", '&', @"\&")
  }

  function Headings(cps: seq<string>): (r: seq<string>)
    ensures |r| == |cps|
    ensures forall i :: 0 <= i < |cps| ==> r[i] == Heading(cps[i])
  {
    if |cps| == 0 then [] else [Heading(cps[0])] + Headings(cps[1..])
  }

  /** The fixed pieces of a section's table. */
  const BeginCenter: string := @"\begin{center}"
  const BeginTabular: string := @"  \begin{tabularx}{\textwidth}{?>{\hsize=5em}C|c|c|X|c|"
  const ThickRule: string := @"    \Xhline{2pt}"
  const LabCell: string := @"    \multicolumn{3}{?l}{\textbf{Lab "
  const SectionCell: string := @"}} & \multicolumn{1}{C}{\textbf{Section "
  const DateCell: string := @"}} & \multicolumn{"
  const DateCellEnd: string := @"}{l?}{\textbf{Date:}} \\"
  const ColumnHeadings: string := @"    \textbf{Signature} & \textbf{Late} & \textbf{Group} & \multicolumn{1}{c|}{\textbf{Student}} & \textbf{TA Check} & "
  const RowEnd: string := @" \\"

  /** The seven lines that open a section's table. The column line gives
      one `c` column per checkpoint after the five fixed columns, the title
      line names the lab exactly as it was given and then the section, and
      the heading line names the checkpoints. */
  function Opening(lab: string, section: int, cps: seq<string>): (r: seq<string>)
    ensures |r| == 7
    ensures |r[1]| >= |BeginTabular| && r[1][..|BeginTabular|] == BeginTabular
    ensures Count(r[1][|BeginTabular|..], 'c') == |cps|
    ensures |r[3]| >= |LabCell| + |lab| && r[3][..|LabCell| + |lab|] == LabCell + lab
    ensures var title := LabCell + lab + SectionCell + IntToString(section);
      |r[3]| >= |title| && r[3][..|title|] == title
    ensures |r[5]| >= |ColumnHeadings| + |RowEnd| && r[5][|ColumnHeadings|..|r[5]| - |RowEnd|] == Join(Headings(cps), " & ")
  {
    [BeginCenter, ColumnLine(|cps|), ThickRule, TitleLine(lab, section, |cps|), ThickRule, HeadingLine(cps), ThickRule]
  }

  /** `'|'.join(['c'] * n)` after the fixed columns, then `?}`. */
  function ColumnLine(n: nat): (line: string)
    ensures |line| >= |BeginTabular| && line[..|BeginTabular|] == BeginTabular
    ensures Count(line[|BeginTabular|..], 'c') == n
  {
    ColumnSpec(n);
    BeginTabular + Join(seq(n, _ => "c"), "|") + "?}"
  }

  /** The title row: lab, section, and a date cell spanning the last n + 1
      columns. */
  function TitleLine(lab: string, section: int, n: nat): (line: string)
    ensures |line| >= |LabCell| + |lab| && line[..|LabCell| + |lab|] == LabCell + lab
    ensures var title := LabCell + lab + SectionCell + IntToString(section);
      |line| >= |title| && line[..|title|] == title
  {
    var title := LabCell + lab + SectionCell + IntToString(section);
    var date := DateCell + IntToString(n + 1) + DateCellEnd;
    PrefixOf(title, date);
    PrefixOf(LabCell + lab + SectionCell, IntToString(section));
    PrefixOf(LabCell + lab, SectionCell);
    PrefixTransitive(LabCell + lab, LabCell + lab + SectionCell, title);
    PrefixTransitive(LabCell + lab, title, title + date);
    title + date
  }

  /** The heading row: the fixed headings, then one per checkpoint. */
  function HeadingLine(cps: seq<string>): (line: string)
    ensures |line| >= |ColumnHeadings| + |RowEnd|
    ensures line[|ColumnHeadings|..|line| - |RowEnd|] == Join(Headings(cps), " & ")
  {
    Middle(ColumnHeadings, Join(Headings(cps), " & "), RowEnd);
    ColumnHeadings + Join(Headings(cps), " & ") + RowEnd
  }

  /** The column line for `n` checkpoints: after the fixed columns,
      `'|'.join(['c'] * n)` and the closing `?}`, holding `n` columns `c`. */
  lemma ColumnSpec(n: nat)
    ensures var line := BeginTabular + Join(seq(n, _ => "c"), "|") + "?}";
      |line| >= |BeginTabular| && line[..|BeginTabular|] == BeginTabular && Count(line[|BeginTabular|..], 'c') == n
  {
    var cols := Join(seq(n, _ => "c"), "|");
    assert (BeginTabular + cols + "?}")[|BeginTabular|..] == cols + "?}";
    ColumnCount(n);
    CountAppend(cols, "?}", 'c');
  }

  /** `'|'.join(['c'] * n)` holds one `c` per checkpoint. */
  lemma {:induction false} ColumnCount(n: nat)
    ensures Count(Join(seq(n, _ => "c"), "|"), 'c') == n
  {
    if n > 1 {
      var cols := seq(n, _ => "c");
      assert cols[1..] == seq(n - 1, _ => "c");
      ColumnCount(n - 1);
      CountAppend("c|", Join(cols[1..], "|"), 'c');
    }
  }

  /** The middle part of a three-part concatenation. */
  lemma Middle<T>(a: seq<T>, b: seq<T>, c: seq<T>)
    ensures (a + b + c)[|a|..|a + b + c| - |c|] == b
  {
  }

  /** A prefix of a prefix is a prefix. */
  lemma PrefixTransitive<T>(x: seq<T>, y: seq<T>, s: seq<T>)
    requires |x| <= |y| <= |s| && s[..|y|] == y && y[..|x|] == x
    ensures s[..|x|] == x
  {
    assert s[..|x|] == s[..|y|][..|x|];
  }

  /** A concatenation starts with its first part. */
  lemma PrefixOf<T>(a: seq<T>, b: seq<T>)
    ensures (a + b)[..|a|] == a
  {
  }

  /** The four lines that close a section's table and end its page. */
  const Closing: seq<string> := [ThickRule, @"  \end{tabularx}", @"\end{center}", NewPage]

  /** `section_codegen`: the lines of one section. */
  function SectionLines(section: int, groups: map<int, seq<StudentName>>, lab: string, cps: seq<string>): seq<string>
  {
    Opening(lab, section, cps) + DropLast(Blocks(groups, SortedInts(groups.Keys), |cps|)) + Closing
  }

  /** A section's lines are the seven-line opening, the group blocks in
      ascending group order without the last `\hline`, and the four-line
      closing that ends the page. */
  lemma SectionLayout(section: int, groups: map<int, seq<StudentName>>, lab: string, cps: seq<string>)
    ensures var r := SectionLines(section, groups, lab, cps);
      && |r| >= 11
      && r[..7] == Opening(lab, section, cps)
      && r[7..|r| - 4] == DropLast(Blocks(groups, SortedInts(groups.Keys), |cps|))
      && r[|r| - 4..] == Closing
      && r[|r| - 1] == NewPage
  {
    Framed(Opening(lab, section, cps), DropLast(Blocks(groups, SortedInts(groups.Keys), |cps|)), Closing);
  }

  /** The three parts of `a + b + c` can be sliced back out. */
  lemma Framed<T>(a: seq<T>, b: seq<T>, c: seq<T>)
    ensures var r := a + b + c;
      && r[..|a|] == a
      && r[|a|..|r| - |c|] == b
      && r[|r| - |c|..] == c
  {
  }

  /** `CodeGen(roster, lab, checkpoints)`: a generator for exactly one
      section, the roster's, carrying the lab and the checkpoints. */
  function FromRoster(section: int, groups: map<int, seq<StudentName>>, lab: string, cps: seq<string>): (r: Fragment)
    ensures r.code.Keys == {section}
    ensures r.code[section] == SectionLines(section, groups, lab, cps)
    ensures r.lab == Some(lab) && r.checkpoints == Some(cps)
  {
    Fragment(map[section := SectionLines(section, groups, lab, cps)], Some(lab), Some(cps))
  }

  // ---------------------------------------------------------------------------
  // run and section
  // ---------------------------------------------------------------------------

  /** The sections' lines in the order of `keys`. */
  function Pages(code: map<int, seq<string>>, keys: seq<int>): seq<string>
  {
    if |keys| == 0 then []
    else (if keys[0] in code then code[keys[0]] else []) + Pages(code, keys[1..])
  }

  /** The lines of the document `run()` renders: the header, every section
      in ascending section order with the very last line (a `\newpage`)
      dropped, and the footer. */
  function RunLines(f: Fragment): (r: seq<string>)
    ensures |r| >= 13
    ensures r[..12] == Header && r[|r| - 1] == Footer[0]
    ensures r[12..|r| - 1] == DropLast(Pages(f.code, SortedInts(f.code.Keys)))
  {
    var body := DropLast(Pages(f.code, SortedInts(f.code.Keys)));
    var r := Header + body + Footer;
    assert r[12..|r| - 1] == body;
    r
  }

  /** `run()`: the document lines joined by newlines. */
  function Run(f: Fragment): string {
    Join(RunLines(f), "\n")
  }

  /** Splitting the rendered document at newlines gives back its lines,
      provided no line contains a newline itself. */
  lemma RunSplitsIntoLines(f: Fragment)
    requires forall i :: 0 <= i < |RunLines(f)| ==> '\n' !in RunLines(f)[i]
    ensures Split(Run(f), '\n') == RunLines(f)
  {
    JoinSplit(RunLines(f), '\n');
  }

  /** A one-section document is that section's lines framed by the header
      and footer, its `\newpage` dropped. */
  lemma RunOneSection(section: int, groups: map<int, seq<StudentName>>, lab: string, cps: seq<string>)
    ensures var lines := SectionLines(section, groups, lab, cps);
      RunLines(FromRoster(section, groups, lab, cps)) == Header + lines[..|lines| - 1] + Footer
  {
    var f := FromRoster(section, groups, lab, cps);
    SortedIntsUnique(f.code.Keys, [section]);
    PagesOfOne(f.code, section);
  }

  /** The pages of a single section are that section's lines. */
  lemma PagesOfOne(code: map<int, seq<string>>, k: int)
    requires k in code
    ensures Pages(code, [k]) == code[k]
  {
    assert [k][1..] == [];
  }

  /** Sections render in ascending order: if every section of `a` is below
      every section of `b`, the pages of `a + b` are `a`'s followed by `b`'s. */
  lemma PagesInSectionOrder(a: Fragment, b: Fragment)
    requires forall s, t :: s in a.code && t in b.code ==> s < t
    ensures Pages(Add(a, b).code, SortedInts(Add(a, b).code.Keys))
         == Pages(a.code, SortedInts(a.code.Keys)) + Pages(b.code, SortedInts(b.code.Keys))
  {
    PagesOfMerge(a.code, b.code);
  }

  lemma PagesOfMerge(a: map<int, seq<string>>, b: map<int, seq<string>>)
    requires forall s, t :: s in a && t in b ==> s < t
    ensures Pages(a + b, SortedInts(a.Keys + b.Keys)) == Pages(a, SortedInts(a.Keys)) + Pages(b, SortedInts(b.Keys))
  {
    var qa, qb := SortedInts(a.Keys), SortedInts(b.Keys);
    SortedUnion(a.Keys, b.Keys);
    PagesSplit(a + b, qa, qb);
    MergePagesLeft(a, b);
    MergePagesRight(a, b);
  }

  lemma MergePagesLeft(a: map<int, seq<string>>, b: map<int, seq<string>>)
    requires forall s, t :: s in a && t in b ==> s < t
    ensures Pages(a + b, SortedInts(a.Keys)) == Pages(a, SortedInts(a.Keys))
  {
    var c, qa := a + b, SortedInts(a.Keys);
    forall i | 0 <= i < |qa|
      ensures qa[i] in c && qa[i] in a && c[qa[i]] == a[qa[i]]
    {
      assert qa[i] in a.Keys;
      assert qa[i] !in b;
    }
    PagesAgree(c, a, qa);
  }

  lemma MergePagesRight(a: map<int, seq<string>>, b: map<int, seq<string>>)
    ensures Pages(a + b, SortedInts(b.Keys)) == Pages(b, SortedInts(b.Keys))
  {
    var c, qb := a + b, SortedInts(b.Keys);
    forall i | 0 <= i < |qb|
      ensures qb[i] in c && qb[i] in b && c[qb[i]] == b[qb[i]]
    {
      assert qb[i] in b.Keys;
    }
    PagesAgree(c, b, qb);
  }

  lemma {:induction false} PagesSplit(code: map<int, seq<string>>, p: seq<int>, q: seq<int>)
    ensures Pages(code, p + q) == Pages(code, p) + Pages(code, q)
  {
    if |p| > 0 {
      assert (p + q)[1..] == p[1..] + q;
      PagesSplit(code, p[1..], q);
    } else {
      assert p + q == q;
    }
  }

  lemma {:induction false} PagesAgree(c: map<int, seq<string>>, d: map<int, seq<string>>, q: seq<int>)
    requires forall i :: 0 <= i < |q| ==> q[i] in c && q[i] in d && c[q[i]] == d[q[i]]
    ensures Pages(c, q) == Pages(d, q)
  {
    if |q| > 0 {
      PagesAgree(c, d, q[1..]);
    }
  }

  /** The `section` property: the one section of a one-section generator; a
      ValueError for any other number of sections. */
  function Section(f: Fragment): (r: Result<int>)
    ensures r.Success? <==> |f.code| == 1
    ensures r.Success? ==> f.code.Keys == {r.value}
    ensures r.Failure? ==> r.error == ValueError
  {
    if |f.code| == 1 then
      var q := SortedInts(f.code.Keys);
      assert forall x :: x in f.code.Keys <==> x == q[0];
      Success(q[0])
    else Failure(ValueError)
  }

  /** The generator built for a roster reports that roster's section. */
  lemma SectionOfRoster(section: int, groups: map<int, seq<StudentName>>, lab: string, cps: seq<string>)
    ensures Section(FromRoster(section, groups, lab, cps)) == Success(section)
  {
  }

  /** Two different sections together have no single section. */
  lemma SectionOfSum(a: Fragment, b: Fragment)
    requires Section(a).Success? && Section(b).Success? && Section(a).value != Section(b).value
    ensures Section(Add(a, b)) == Failure(ValueError)
  {
    assert Add(a, b).code.Keys == {Section(a).value, Section(b).value};
  }
}
