# lab-tools roster pipeline, in Dafny

A model of the blank-roster pipeline of `1l-tools.py`, the lab-course tool of
macthecadillac/lab-tools. The tool reads each lab section's students and
shuffles them. It deals them into at most six groups and writes one LaTeX
roster table per section. Each table is compiled to PDF by an external
compiler (tectonic or pdflatex). A combined "all sections" document is made
by summing the per-section generators, which form a monoid.

Modules, one per concern of the program:

- `Wrappers`: `Option`, `Result` and the four exceptions the core raises
  (`IndexError`, `ValueError`, `SystemExit`, `FileNotFoundError`).
- `Text`: the Python string operations the core relies on. These are
  `str.strip`, `str.split` on one character, `str.join`, `in`, `replace`,
  `str(int)`, `int(str)` and string `<`.
- `Order`: the ascending list of a finite set of integers (Python's
  `sorted` on dictionary keys), and fresh identifiers.
- `Names`: `StudentName` and its canonical first-name-first form.
- `Grouping`: `Roster.set_groups` and `Rosters.generate_roster`.
- `CodeGen`: the `CodeGen` monoid, the lines of a section's table, `run`
  and `section`.
- `Paths`: POSIX `os.path.splitext`, `os.path.join` and
  `MaybeOverwrite.maybe_overwrite`.
- `PdfWriter`: `PDFWriter` as a state machine. It covers the job table,
  sequential mode, `write`, `call_ext` and `clean`.
- `RostersWriter`: `RostersWriter.add_roster` and `RostersWriter.run`, end
  to end.
- `Config`: how section numbers are spelled. This covers Canvas section
  strings, the sheet names of the TA workbook, and the section-to-TA table.

The random shuffle, the file system and the compiler are inputs of the
model:
- the shuffled order is any permutation of the students;
- the disk is a set of directories and a map from (directory, name) to
  content;
- the compiler is the `Tool` found on the search path plus a function from a
  LaTeX source to a `Compilation`: the compiler's terminal output and
  whether it left a PDF and a log file in its scratch directory.

## Model

| member | source | states |
|---|---|---|
| Text.Strip | 1l-tools.py:377-378 | `str.strip()`: the result is the input minus its leading and trailing whitespace, and neither end of a non-empty result is whitespace |
| Text.StripIdempotent | 1l-tools.py:377-378 | stripping twice is stripping once |
| Text.Split | 1l-tools.py:375 | `str.split(c)` gives one more piece than there are separators, and no piece holds the separator |
| Text.SplitJoin | 1l-tools.py:375 | joining the pieces of a split with the separator gives back the string |
| Text.JoinSplit | 1l-tools.py:188 | splitting a join of separator-free parts gives back the parts |
| Text.IntToString | 1l-tools.py:355 | `str(i)` is non-empty and has no space, comma or whitespace at its ends |
| Text.ParseIntRoundTrip | 1l-tools.py:719 | `int(str(i)) == i` |
| Text.IntToStringInjective | 1l-tools.py:355 | different integers print differently |
| Text.LexLessTrichotomy | 1l-tools.py:388-389 | Python string `<` is total: any two strings are equal or one is below the other |
| Text.LexLessTransitive | 1l-tools.py:388-389 | Python string `<` is transitive |
| Order.SortedInts | 1l-tools.py:171 | `sorted(keys)`: a strictly increasing list holding exactly the elements of the set |
| Order.SortedUnion | 1l-tools.py:185 | when all keys of one map are below all keys of another, sorting the union lists the first map's keys and then the second's |
| Order.SortedIntervalIsRange | 1l-tools.py:442 | the keys 1..G of the group table, sorted, are 1, 2, ..., G |
| Names.FormOf | 1l-tools.py:374-382 | a name text is read as "last, first" exactly when it has one comma; otherwise it is kept verbatim |
| Names.StudentName.Canonical | 1l-tools.py:405-410 | `canonical()` is "first last" for a "last, first" text and the text itself otherwise |
| Names.CanonicalizeProperties | 1l-tools.py:401-403 | `canonicalize()` keeps the name's identity and is idempotent, and `str()` of the result is the canonical text |
| Names.CanonicalOfLastFirst | 1l-tools.py:374-378 | "Last, First" canonicalises to "First Last" |
| Names.SpellingsAgree | 1l-tools.py:391-399 | "Last, First" and "First Last" are equal and hash alike, while `str()` returns each as written |
| Names.EqualNamesHashAlike | 1l-tools.py:391-397 | equal names hash alike |
| Names.LessIsStrictOrder | 1l-tools.py:388-399 | `<` is irreflexive, asymmetric and transitive, and two names are incomparable exactly when they are equal |
| Grouping.GroupCount | 1l-tools.py:440 | the group count is ceil(n/5) capped at 6: zero only for an empty section, never above n, and six exactly when n > 25 |
| Grouping.ColumnSizeFormula | 1l-tools.py:444-445 | dealing n students into g groups gives the first n mod g groups n/g + 1 students and the rest n/g |
| Grouping.DealtAt | 1l-tools.py:444-445 | group j + 1 holds the shuffled students at positions j, j + g, j + 2g, ..., in that order |
| Grouping.SetGroups | 1l-tools.py:434-445 | the groups are keyed exactly 1..G, group i is the i-th column of the deal, and together they hold exactly the students, counted with multiplicity |
| Grouping.DealAll | 1l-tools.py:442-445 | the dealing loop leaves keys 1..g, each group equal to its dealt column, and the members equal to the dealt students |
| Grouping.DealOne | 1l-tools.py:444-445 | one deal step extends exactly the group whose turn it is, by exactly one student |
| Grouping.GroupSizesBalanced | 1l-tools.py:443-445 | group sizes differ by at most one, and a lower-numbered group is never smaller |
| Grouping.GroupsNonEmpty | 1l-tools.py:438-445 | no group of a section is left empty |
| Grouping.AtMostFivePerGroup | 1l-tools.py:438-440 | below the cap of six groups, no group has more than five students |
| Grouping.SixStudentsMakeGroupsOfThree | 1l-tools.py:438-440 | six students make two groups of three, so groups smaller than four do occur |
| Grouping.TwentyThreeStudents | 1l-tools.py:440-445 | 23 students make five groups of sizes 5, 5, 5, 4, 4 |
| Grouping.HundredStudents | 1l-tools.py:440-445 | 100 students are capped at six groups, of sizes 17 and 16 |
| Grouping.GenerateRoster | 1l-tools.py:465-482 | the roster of canonicalised names has keys 1..G and holds exactly those names, and every grouped name is canonical |
| CodeGen.Mempty | 1l-tools.py:101-104 | `mempty()` has no sections, no lab and no checkpoints |
| CodeGen.Add | 1l-tools.py:84-89 | `a + b` keeps the sections of both, a shared section takes `b`'s lines, and the lab and checkpoints are the first present ones |
| CodeGen.Identity | 1l-tools.py:84-104 | `mempty()` is a left and right identity of `+` |
| CodeGen.Associative | 1l-tools.py:84-89 | `+` is associative |
| CodeGen.AddCodeCommutesWhenDisjoint | 1l-tools.py:84-89 | generators for disjoint sections merge to the same sections in either order |
| CodeGen.SharedSectionRightWins | 1l-tools.py:84-86 | on a shared section with different lines the right operand wins, so `+` is not commutative |
| CodeGen.RAdd | 1l-tools.py:91-92 | `__radd__(self, rhs)` computes `self + rhs`: the sections of both, `rhs` winning on a shared one |
| CodeGen.RAddIsNotReflected | 1l-tools.py:91-92 | `__radd__` is not the reflected sum `rhs + self` when a shared section differs |
| CodeGen.SumSections | 1l-tools.py:357 | the sections of `sum(fs, mempty())` are exactly those of its terms |
| CodeGen.SumLastWins | 1l-tools.py:357 | a section of a sum has the lines of the last term holding it |
| CodeGen.SumLab | 1l-tools.py:357 | the lab of a sum is that of the first term with one, and absent only when every term lacks one |
| CodeGen.SumCheckpoints | 1l-tools.py:357 | the checkpoints of a sum are those of the first term with some |
| CodeGen.SumAppend | 1l-tools.py:84-104 | summing a concatenation is adding the two sums |
| CodeGen.InterleaveBetween | 1l-tools.py:131-134 | between a group's first row and its closing line, the t-th further row sits right after its own `\cline` rule, at positions 2t + 1 and 2t + 2 |
| CodeGen.GroupLines | 1l-tools.py:117-135 | an empty group adds no lines, and a group of k students adds 2k lines |
| CodeGen.GroupLayout | 1l-tools.py:117-135 | a group's lines are the first row, then a rule and a row per further student, then `\hline` |
| CodeGen.Headings | 1l-tools.py:160 | one bold heading per checkpoint, in order, with `&` escaped |
| CodeGen.Opening | 1l-tools.py:146-162 | the table opening has seven lines; its column line is the fixed `tabularx` columns followed by exactly one `c` column per checkpoint, its title line opens with the bold "Lab " cell holding the lab text followed by the "Section " cell holding `str(section)`, and its heading line holds the checkpoint headings joined by ` & ` between the fixed headings and the row end |
| CodeGen.SectionLayout | 1l-tools.py:137-174 | a section's lines are the opening, the group blocks in ascending group order without the last `\hline`, then the closing ending in `\newpage` |
| CodeGen.FromRoster | 1l-tools.py:66-82 | a roster's generator has exactly that section, with the section's lines, the lab and the checkpoints |
| CodeGen.RunLines | 1l-tools.py:176-188 | the document is the 12-line header, every section in ascending order with the last line dropped, then the footer |
| CodeGen.RunSplitsIntoLines | 1l-tools.py:188 | splitting the rendered document at newlines gives back its lines |
| CodeGen.RunOneSection | 1l-tools.py:176-188 | a one-section document is the section's lines, minus the final `\newpage`, framed by header and footer |
| CodeGen.PagesInSectionOrder | 1l-tools.py:84-89 | if every section of `a` is below every section of `b`, the pages of `a + b` are `a`'s followed by `b`'s |
| CodeGen.Section | 1l-tools.py:190-196 | `section` succeeds exactly for a one-section generator and returns its only key; otherwise it raises ValueError |
| CodeGen.SectionOfRoster | 1l-tools.py:66-82 | a roster's generator reports the roster's section |
| CodeGen.SectionOfSum | 1l-tools.py:190-196 | the sum of two generators for different sections has no single section |
| Paths.RFind | 1l-tools.py:520 | `rfind` gives the last index of the character, or -1 |
| Paths.SplitExt | 1l-tools.py:520 | `splitext`: prefix and extension concatenate back to the path; the extension is empty or a dot followed by neither a dot nor a slash; it is non-empty whenever the last component has a dot after a non-dot |
| Paths.SplitExtOfName | 1l-tools.py:520 | "base.ext" splits at its one dot |
| Paths.PathJoin | 1l-tools.py:349-352 | `os.path.join(a, b)` is `b` for an absolute `b`; otherwise it starts with `a` and ends with `b`, with one `/` inserted between them exactly when `a` is non-empty and does not end in `/`; a separator-free `b` is the last path component |
| Paths.NumberedInjective | 1l-tools.py:522-523 | different numbers give different alternative names |
| Paths.TriedCount | 1l-tools.py:522-525 | before number i, exactly i - 1 distinct names have been tried |
| Paths.MaybeOverwrite | 1l-tools.py:507-527 | the path is kept when it is free or `inplace` is set; otherwise the result is `prefix(i)ext` for the least i >= 1 whose name is free; the result never overwrites another existing file |
| PdfWriter.NewWriter | 1l-tools.py:206-210 | a new writer has an empty job table, is in sequential mode and satisfies the writer invariant |
| PdfWriter.Lookup | 1l-tools.py:241 | a name is absent from the job table exactly when no entry carries it |
| PdfWriter.Record | 1l-tools.py:241 | `procs[fname] = job` finds the new job under its name and leaves other names alone; a new name goes last, and an existing name keeps its place |
| PdfWriter.RecordKeepsDistinct | 1l-tools.py:241 | the job table never holds a name twice |
| PdfWriter.Clean | 1l-tools.py:275-304 | `clean()` leaves the mode and the directories as they were; it empties the table when every move finds its file, and otherwise raises FileNotFoundError and keeps the table, with the outputs of the jobs it read (up to and including the first job whose file is missing) drained, so that a later read of them gives nothing |
| PdfWriter.CollectDelivers | 1l-tools.py:285-301 | collecting a job that raises nothing moves its PDF, or for a failed job its log and source, into the job's directory |
| PdfWriter.CollectAllSucceeds | 1l-tools.py:280-302 | the collecting loop raises nothing exactly when every job left the file it moves first: the log of a failed job, the PDF of any other |
| PdfWriter.CollectAllDelivers | 1l-tools.py:280-301 | a collecting loop that raises nothing delivers every job, since different names write to different paths |
| PdfWriter.CollectAllKeeps | 1l-tools.py:280-301 | collecting touches no path outside the jobs' targets |
| PdfWriter.CleanEffects | 1l-tools.py:275-304 | `clean()` raises nothing exactly when every pending job left its file, and then empties the table, delivers every pending job, removes exactly the successful jobs' scratch directories and prints one message per failed job in table order; otherwise it raises FileNotFoundError and keeps a table of the same length in which the first incomplete job's output has been read |
| PdfWriter.CleanOne | 1l-tools.py:280-303 | `clean()` of a one-job table raises nothing exactly when the job left its file, and then delivers it and empties the table; otherwise the job stays with its output read; either way its message is printed once |
| PdfWriter.ReleasedExactly | 1l-tools.py:287-302 | `clean` itself removes a job's scratch directory exactly when the job did not fail; a failed job's directory is not removed by `clean` |
| PdfWriter.ReleasedOnlyOwn | 1l-tools.py:302 | `clean` removes only scratch directories of its own jobs |
| PdfWriter.Write | 1l-tools.py:245-273 | `write` always makes the parent directory; with no compiler it raises SystemExit, leaving the table and disk alone; with a compiler the only exception is FileNotFoundError from the immediate `clean` of the first tectonic job, which leaves sequential mode set; a write that raises nothing leaves sequential mode |
| PdfWriter.WriteKeepsValid | 1l-tools.py:218-273 | unless it raises FileNotFoundError, `write` keeps the writer invariant: distinct names, live and distinct scratch directories, and an empty table in sequential mode |
| PdfWriter.WriteKeepsComplete | 1l-tools.py:234-243 | a write whose compilation leaves its file keeps every job of the table complete |
| PdfWriter.TectonicFirstJobCollected | 1l-tools.py:242-266 | with tectonic the first job is compiled and collected at once: when it left its file the table ends empty, the job is delivered and sequential mode is left; otherwise FileNotFoundError escapes with the job still in the table, its output read, and sequential mode still set; either way the job's message, if any, is printed once |
| PdfWriter.SecondCleanReadsNothing | 1l-tools.py:242-303 | after the first tectonic job's immediate `clean` raised, the `clean` that ends the `with` block reads a drained pipe, so the job counts as a success: it prints nothing more, moves the PDF when the compiler left one and empties the table, and otherwise raises FileNotFoundError again |
| PdfWriter.LaterJobsDeferred | 1l-tools.py:242-270 | once out of sequential mode, and for every pdflatex job, a job is only recorded and the disk is untouched |
| PdfWriter.ReplacedJobNeverCollected | 1l-tools.py:234-241 | a pending job overwritten by a job of the same name is never collected: no entry refers to its scratch directory, so `clean` neither moves its output nor removes that directory |
| PdfWriter.NoCompilerExits | 1l-tools.py:258-273 | with no compiler the program exits after making the parent directory, and nothing else changes |
| PdfWriter.WriteSettlesNew | 1l-tools.py:245-273 | after a `write` that raises nothing, its job is either pending with its directory, source and output, or already delivered |
| PdfWriter.WriteKeepsSettled | 1l-tools.py:245-273 | a write under another name that raises nothing keeps an earlier job pending or delivered |
| PdfWriter.CleanDeliversSettled | 1l-tools.py:275-304 | a `clean` that raises nothing delivers every pending or delivered job |
| PdfWriter.CleanFailsOnIncomplete | 1l-tools.py:280-301 | a pending job whose compilation left no file to move makes `clean` raise FileNotFoundError |
| RostersWriter.NewRostersWriter | 1l-tools.py:315-331 | a new rosters writer has no generators |
| RostersWriter.AddRoster | 1l-tools.py:333-342 | `add_roster` appends one generator, which reports the roster's section, and keeps the earlier ones |
| RostersWriter.SectionFileNameInjective | 1l-tools.py:355 | different sections get different file names |
| RostersWriter.SectionFileIsNotAllFile | 1l-tools.py:355-359 | no section's file name is the combined document's |
| RostersWriter.SettledStep | 1l-tools.py:354-356 | writing the next section without error keeps each earlier section not written again pending or delivered, and settles the new one |
| RostersWriter.WriteSection | 1l-tools.py:354-356 | one pass of the per-section loop makes the parent directory, raises SystemExit exactly when no compiler is found and FileNotFoundError exactly when the first tectonic job left no file (leaving that job alone in the table with its output read), and otherwise settles every section not written again later |
| RostersWriter.CleanAfterLeftRead | 1l-tools.py:280-303 | after the first job's failed `clean`, the `clean` that ends the `with` block succeeds exactly when that job left a PDF, and then moves it to the parent directory and empties the table, printing nothing more |
| RostersWriter.WriteSections | 1l-tools.py:354-356 | the per-section loop ends without error exactly when every generator has a single section, a compiler is found and the first tectonic job left its file; it stops with ValueError at the first generator without a single section, SystemExit when no compiler is found, FileNotFoundError when the first job's immediate `clean` fails, leaving that job alone in the table with its output read; on success every section not written again later is settled |
| RostersWriter.SettledAtExit | 1l-tools.py:358-360 | writing the combined document keeps the writer invariant, settles that document and keeps every section settled |
| RostersWriter.ExitClean | 1l-tools.py:215-216 | the `clean` on leaving the `with` block delivers the combined document and every section not written again later, and raises FileNotFoundError when any of their compilations left no file |
| RostersWriter.WriteAll | 1l-tools.py:346-360 | the `with` block ends with an empty job table unless `clean` raises FileNotFoundError; with a compiler that always leaves its file it fails exactly when there is no compiler or some generator lacks a single section; when a compiler is found and every generator has a single section, FileNotFoundError is raised whenever the combined document or the last generator of some section left no file; on success the combined document and the last generator of each section are delivered to the parent directory; when the first job's immediate `clean` fails (tectonic), the block ends with FileNotFoundError, and the table is empty exactly when that job left a PDF, which the closing `clean` then delivers |
| RostersWriter.RunRosters | 1l-tools.py:344-360 | `run()` writes each section's rendered roster to "Lab {lab} Section S Roster" and the rendered sum to "Lab {lab} Rosters (All)" under the configured rosters folder or the working directory; on success the sum and the last generator of each section are delivered there; the error cases, including the first tectonic job's failed `clean` and the PDF the closing `clean` then delivers, are those of the `with` block |
| RostersWriter.DistinctSectionsAllLast | 1l-tools.py:354-356 | when no two generators share a section, every generator is the last of its section, so every section is delivered |
| RostersWriter.AllDocumentSections | 1l-tools.py:357 | the combined document has exactly the sections of the generators |
| RostersWriter.AllDocumentKeepsEachSection | 1l-tools.py:357 | with distinct sections, each section of the combined document has its own generator's lines |
| RostersWriter.AllDocumentLab | 1l-tools.py:357 | the combined document carries the lab of its first generator |
| Config.SectionNumber | 1l-tools.py:704-719 | a section string without a space has no second-to-last field and raises IndexError |
| Config.SectionNumberOfCanvasSection | 1l-tools.py:704-719 | the section number of "course n term" is n |
| Config.SheetSection | 1l-tools.py:745 | a sheet name without a space raises IndexError |
| Config.SheetNameRoundTrip | 1l-tools.py:745-793 | reading a sheet name back gives the section it was written for |
| Config.SheetNameInjective | 1l-tools.py:793 | different sections get different sheets |
| Config.ReadSheetsOf | 1l-tools.py:744-755 | reading the sheets written for some sections gives back exactly those sections' data |
| Config.WorkbookRoundTrip | 1l-tools.py:744-793 | writing the workbook and reading it back gives the same table |
| Config.SectionTaMapInverts | 1l-tools.py:1023-1026 | the section-to-TA table holds exactly the listed sections, each mapped to the last TA listing it |
| Config.SectionTaMapExactInverse | 1l-tools.py:1023-1026 | with distinct TA names and no section listed twice, a section maps to a TA exactly when that TA lists it |

## Left out

- Reading the Canvas export, and the TA grade workbook beyond its sheet names, is left out. These use pandas, openpyxl and regular expressions.
- Plotting, the attendance sheet, the Canvas upload file, the configuration file and the command line are left out. They are I/O around the core, not part of it.
- The real disk is left out: `os.makedirs`, `shutil.move`, `os.path.exists` and `tempfile` become the `dirs`, `files` and `scratch` components of the writer, or the `existing` set.
- Changes of the working directory (`os.chdir` in `call_ext` and `clean`) are not modelled. In the program, a relative rosters path is resolved while the working directory is a scratch directory.
- Processes are not modelled. `subprocess.Popen`, `wait` and the reading of the output become a given `Compilation` per source, so the parallel compilation is not modelled either.
- The compiler's own files are abstracted. A compilation is its terminal output plus whether a PDF and a `.log` file were left; their contents are `Pdf(src)` and `CompileLog(src)`.
- The printed messages are modelled as a list of `Diagnostic` values. The "Working..." progress line is not modelled.
- PdfWriter.ReleasedExactly, PdfWriter.CleanEffects, PdfWriter.ReplacedJobNeverCollected: garbage collection of `TemporaryDirectory` objects is not modelled. CPython's finalizer removes every scratch directory that `clean` does not remove itself (a failed job's, a replaced job's, and all of them when `clean` raises) once the job table is dropped; the model keeps them in `scratch` and speaks only of what `clean` removes.
- `random.shuffle` is an input: any permutation of the students.
- The `hash` of a string is a function parameter, because Python salts it per process.
- Text.ParseInt: Python's `int()` also accepts underscores between digits and non-ASCII decimal digits. The model accepts only optional surrounding whitespace, an optional sign and ASCII digits.
- Text.Strip: whitespace is Python's `str.isspace` set, written out as a character list.
- Grouping.SetGroups: the comment promising at least four students per group does not hold for small sections. `SixStudentsMakeGroupsOfThree` shows groups of three.
- CodeGen.RAdd: `__radd__` is never reached by `sum`, because `mempty() + x` uses `__add__`. It is modelled as written.
- RostersWriter.WriteAll, RostersWriter.RunRosters: when a generator lacks a single section or no compiler is found while a pending compilation also left no file, the model does not say which of ValueError, SystemExit and FileNotFoundError escapes the `with` block.
- RostersWriter.RunRosters: its contract holds for an absolute configured rosters path or the working directory. A relative configured path is made by `os.makedirs` against the working directory, but every `shutil.move` in `clean` runs after `os.chdir` into a scratch directory, so the moves target a folder inside that scratch directory; the program then raises FileNotFoundError and delivers nothing, which the model does not show.
- PdfWriter.Collect, PdfWriter.Clean: `.decode('utf-8')` of the compiler's output raises UnicodeDecodeError (a ValueError) on bytes that are not UTF-8, for example an accented name split at a wrapped line; the model takes the output as already decoded text, so that exception of `clean` is not modelled.
- PdfWriter.Clean: the `os.chdir` into a scratch directory that an earlier, interrupted `clean` already removed is not modelled. The program calls `clean` a second time only after the first tectonic job's `clean` failed, when the table holds that one job and its directory is still there.
- Paths.SplitExt, Paths.PathJoin: only POSIX `posixpath` is modelled; `ntpath`, with drive letters and the `\` separator, is not.

## Behaviour worth knowing

- Group count. The code computes `min(6, ceil(n / 5))` for every n, so 35 students make 6 groups and 10 students make 2. `Grouping.GroupCount` states `g == 6 <==> n > 25`.
- Sequential compilation with tectonic. Only the first tectonic job is compiled and collected at once; the `sequential` flag is cleared after it, so later tectonic jobs wait for `clean` like pdflatex jobs. `PdfWriter.TectonicFirstJobCollected` and `PdfWriter.LaterJobsDeferred` state this.
- A missing output file. `clean` moves the PDF of any job whose output does not mention "error", and the log of any other, without checking that the file exists; `shutil.move` then raises FileNotFoundError, which ends `clean` before the table is emptied. `PdfWriter.CleanFailsOnIncomplete` states this.
- A second `clean`. When the first tectonic job's `clean` raises, the job stays in the table and `__exit__` calls `clean` again. The compiler's output pipe has already been read, so the second read is empty and the job is treated as a success: its PDF, if any, is moved and the table emptied, with no second message. `PdfWriter.SecondCleanReadsNothing` states this.
