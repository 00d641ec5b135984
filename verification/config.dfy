/** Section numbers as 1l-tools.py spells them: the number inside a Canvas
    section string, the sheet of the TA grade workbook named after a
    section, and the section-to-TA table derived from the configuration. */
module Config {
  import opened Wrappers
  import opened Text
  import opened Order

  // ---------------------------------------------------------------------------
  // Canvas section strings
  // ---------------------------------------------------------------------------

  /** `PublishedData.section_number(string)`: `int(string.split(' ')[-2])`.
      A string with no space has no second-to-last field (IndexError). */
  function SectionNumber(s: string): (r: Result<int>)
    ensures ' ' !in s ==> r == Failure(IndexError)
    ensures r.Success? ==> ' ' in s
  {
    var parts := Split(s, ' ');
    if |parts| < 2 then Failure(IndexError) else ParseInt(parts[|parts| - 2])
  }

  /** The section number of a Canvas section string "<course> <n> <term>"
      is n, whatever the course part holds, provided the last field has no
      space. */
  lemma SectionNumberOfCanvasSection(course: string, n: int, term: string)
    requires ' ' !in term
    ensures SectionNumber(course + " " + IntToString(n) + " " + term) == Success(n)
  {
    var num := IntToString(n);
    var s := course + " " + num + " " + term;
    assert s == course + [' '] + (num + [' '] + term);
    SplitConcat(course, num + [' '] + term, ' ');
    SplitConcat(num, term, ' ');
    SplitNoSep(num, ' ');
    SplitNoSep(term, ' ');
    SecondToLast(Split(course, ' '), num, term);
    ParseIntRoundTrip(n);
  }

  lemma SecondToLast<T>(p: seq<T>, x: T, y: T)
    ensures var q := p + [x] + [y]; |q| >= 2 && q[|q| - 2] == x
  {
  }

  // ---------------------------------------------------------------------------
  // Sheets of the TA grade workbook
  // ---------------------------------------------------------------------------

  const SheetWord: string := "section"

  /** `'section {}'.format(section)` in `TAGradeSheets.write_to_path`. */
  function SheetName(section: int): string {
    SheetWord + " " + IntToString(section)
  }

  /** `int(section.split(' ')[1])` in `TAGradeSheets.__init__`. */
  function SheetSection(name: string): (r: Result<int>)
    ensures ' ' !in name ==> r == Failure(IndexError)
  {
    var parts := Split(name, ' ');
    if |parts| < 2 then Failure(IndexError) else ParseInt(parts[1])
  }

  /** Reading a sheet name back gives the section it was written for. */
  lemma SheetNameRoundTrip(section: int)
    ensures SheetSection(SheetName(section)) == Success(section)
  {
    assert ' ' !in SheetWord;
    var num := IntToString(section);
    assert SheetName(section) == SheetWord + [' '] + num;
    SplitNoSep(SheetWord, ' ');
    SplitNoSep(num, ' ');
    SplitConcat(SheetWord, num, ' ');
    ParseIntRoundTrip(section);
  }

  /** Different sections get different sheets. */
  lemma SheetNameInjective(a: int, b: int)
    requires SheetName(a) == SheetName(b)
    ensures a == b
  {
    SheetNameRoundTrip(a);
    SheetNameRoundTrip(b);
  }

  /** The sheets written for the sections `q`, in that order. */
  function SheetsOf<T>(q: seq<int>, data: map<int, T>): (r: seq<(string, T)>)
    requires forall i :: 0 <= i < |q| ==> q[i] in data
    ensures |r| == |q|
  {
    seq(|q|, i requires 0 <= i < |q| => (SheetName(q[i]), data[q[i]]))
  }

  /** `write_to_path`: one sheet per section, in ascending section order. */
  function Workbook<T>(data: map<int, T>): (r: seq<(string, T)>)
    ensures |r| == |data|
  {
    SheetsOf(SortedInts(data.Keys), data)
  }

  /** `TAGradeSheets.__init__` on a workbook: each sheet is filed under the
      number its name carries, a later sheet replacing an earlier one with
      the same number; a name that does not parse stops the reading. */
  function ReadWorkbook<T>(sheets: seq<(string, T)>): (r: Result<map<int, T>>)
  {
    if |sheets| == 0 then Success(map[])
    else
      match ReadWorkbook(sheets[..|sheets| - 1])
      case Failure(e) => Failure(e)
      case Success(m) =>
        match SheetSection(sheets[|sheets| - 1].0)
        case Failure(e) => Failure(e)
        case Success(n) => Success(m[n := sheets[|sheets| - 1].1])
  }

  /** Reading the sheets written for the sections `q` gives back the data of
      exactly those sections. */
  lemma {:induction false} ReadSheetsOf<T>(q: seq<int>, data: map<int, T>)
    requires forall i :: 0 <= i < |q| ==> q[i] in data
    ensures ReadWorkbook(SheetsOf(q, data)).Success?
    ensures var m := ReadWorkbook(SheetsOf(q, data)).value;
            (forall n :: n in m <==> n in q) && forall n :: n in m ==> m[n] == data[n]
  {
    if |q| > 0 {
      var init := q[..|q| - 1];
      var last := q[|q| - 1];
      assert q == init + [last];
      var sheets := SheetsOf(q, data);
      assert sheets == SheetsOf(init, data) + [(SheetName(last), data[last])];
      ReadSheetsOf(init, data);
      SheetNameRoundTrip(last);
      ReadOneMore(SheetsOf(init, data), SheetName(last), data[last], last);
    }
  }

  /** Reading one more sheet files its data under the sheet's number. */
  lemma ReadOneMore<T>(sheets: seq<(string, T)>, name: string, v: T, n: int)
    requires ReadWorkbook(sheets).Success? && SheetSection(name) == Success(n)
    ensures ReadWorkbook(sheets + [(name, v)]) == Success(ReadWorkbook(sheets).value[n := v])
  {
    var more := sheets + [(name, v)];
    assert more[..|more| - 1] == sheets;
  }

  /** Writing a workbook and reading it back gives the same sections with
      the same data. */
  lemma WorkbookRoundTrip<T>(data: map<int, T>)
    ensures ReadWorkbook(Workbook(data)) == Success(data)
  {
    var q := SortedInts(data.Keys);
    ReadSheetsOf(q, data);
    var m := ReadWorkbook(SheetsOf(q, data)).value;
    MapsAgree(m, data);
  }

  /** Two maps with the same keys and the same values are equal. */
  lemma MapsAgree<T>(m: map<int, T>, d: map<int, T>)
    requires forall n :: n in m <==> n in d
    requires forall n :: n in m ==> m[n] == d[n]
    ensures m == d
  {
    forall n | n in m.Keys
      ensures n in d.Keys
    {
    }
    forall n | n in d.Keys
      ensures n in m.Keys
    {
    }
    assert m.Keys == d.Keys;
    assert forall n :: n in m.Keys ==> m[n] == d[n];
  }

  // ---------------------------------------------------------------------------
  // Section-to-TA table
  // ---------------------------------------------------------------------------

  /** `Configuration.section_ta_map`: inverts the TA-to-sections table (in
      the table's order) into a section-to-TA table; when two TAs list the
      same section, the later one wins. */
  function SectionTaMap(assignment: seq<(string, seq<int>)>): (r: map<int, string>)
  {
    if |assignment| == 0 then map[]
    else
      var prev := SectionTaMap(assignment[..|assignment| - 1]);
      var (ta, ns) := assignment[|assignment| - 1];
      map n | n in prev.Keys + (set x | x in ns) :: if n in ns then ta else prev[n]
  }

  /** The last TA listing a section. */
  predicate LastToList(assignment: seq<(string, seq<int>)>, i: int, n: int)
    requires 0 <= i < |assignment|
  {
    n in assignment[i].1 && forall j :: i < j < |assignment| ==> n !in assignment[j].1
  }

  /** Every listed section, and no other, is in the table, and it goes to
      the last TA listing it. */
  lemma {:induction false} SectionTaMapInverts(assignment: seq<(string, seq<int>)>)
    ensures forall n :: n in SectionTaMap(assignment) <==> exists i :: 0 <= i < |assignment| && n in assignment[i].1
    ensures forall i, n :: 0 <= i < |assignment| && LastToList(assignment, i, n) ==>
              n in SectionTaMap(assignment) && SectionTaMap(assignment)[n] == assignment[i].0
  {
    if |assignment| > 0 {
      var init := assignment[..|assignment| - 1];
      SectionTaMapInverts(init);
      var k := |assignment| - 1;
      forall n
        ensures n in SectionTaMap(assignment) <==> exists i :: 0 <= i < |assignment| && n in assignment[i].1
      {
        if n in SectionTaMap(assignment) && n !in assignment[k].1 {
          assert n in SectionTaMap(init);
          var i :| 0 <= i < |init| && n in init[i].1;
          assert assignment[i] == init[i];
        }
        if i :| 0 <= i < |assignment| && n in assignment[i].1 {
          if i < k {
            assert init[i] == assignment[i];
          }
        }
      }
      forall i, n | 0 <= i < |assignment| && LastToList(assignment, i, n)
        ensures n in SectionTaMap(assignment) && SectionTaMap(assignment)[n] == assignment[i].0
      {
        if i < k {
          assert init[i] == assignment[i];
          assert LastToList(init, i, n);
        }
      }
    }
  }

  /** With distinct TA names (they are the keys of a configuration table)
      and no section listed twice, the table is the exact inverse: a section
      goes to a TA iff that TA lists it. */
  lemma SectionTaMapExactInverse(assignment: seq<(string, seq<int>)>)
    requires forall i, j :: 0 <= i < j < |assignment| ==> assignment[i].0 != assignment[j].0
    requires forall i, j, n :: 0 <= i < j < |assignment| && n in assignment[i].1 ==> n !in assignment[j].1
    ensures forall i, n :: 0 <= i < |assignment| ==>
              (n in assignment[i].1 <==> n in SectionTaMap(assignment) && SectionTaMap(assignment)[n] == assignment[i].0)
  {
    SectionTaMapInverts(assignment);
    forall i, n | 0 <= i < |assignment| && n in assignment[i].1
      ensures LastToList(assignment, i, n)
    {
    }
    forall i, n | 0 <= i < |assignment| && n in SectionTaMap(assignment) && SectionTaMap(assignment)[n] == assignment[i].0
      ensures n in assignment[i].1
    {
      var j :| 0 <= j < |assignment| && n in assignment[j].1;
      assert LastToList(assignment, j, n);
    }
  }
}
