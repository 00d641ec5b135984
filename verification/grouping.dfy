/** Random grouping of a section (`Roster.set_groups` in 1l-tools.py). The
    students are shuffled, the number of groups is min(6, ceil(n / 5)), and the
    shuffled students are dealt into groups 1..G like cards: the student at
    shuffled position k joins group (k mod G) + 1. The shuffle itself is an
    input of the model: any permutation of the students. */
module Grouping {
  import opened Names
  import opened Order

  datatype Roster = Roster(section: int, students: seq<StudentName>, groups: map<int, seq<StudentName>>)

  /** A roster before grouping (`Roster(section, students)`). */
  function NewRoster(section: int, students: seq<StudentName>): (r: Roster)
    ensures r.groups == map[]
  {
    Roster(section, students, map[])
  }

  // ---------------------------------------------------------------------------
  // Arithmetic of dealing
  // ---------------------------------------------------------------------------

  lemma {:induction false} MulAtLeast(d: int, g: nat)
    ensures d >= 1 ==> d * g >= g
    decreases if d < 0 then 0 else d
  {
    if d > 1 {
      MulAtLeast(d - 1, g);
      assert d * g == (d - 1) * g + g;
    }
  }

  /** Euclidean division is determined by its defining equation. */
  lemma DivModUnique(a: int, g: int, q: int, r: int)
    requires g > 0 && a == q * g + r && 0 <= r < g
    ensures a / g == q && a % g == r
  {
    var q0, r0 := a / g, a % g;
    assert a == q0 * g + r0;
    MulAtLeast(q - q0, g);
    MulAtLeast(q0 - q, g);
    assert (q - q0) * g == q * g - q0 * g;
  }

  /** How `m / g` and `m % g` move when `m` grows by one. */
  lemma DivModStep(m: nat, g: nat)
    requires g > 0
    ensures m % g + 1 < g ==> (m + 1) / g == m / g && (m + 1) % g == m % g + 1
    ensures m % g + 1 == g ==> (m + 1) / g == m / g + 1 && (m + 1) % g == 0
  {
    if m % g + 1 < g {
      DivModUnique(m + 1, g, m / g, m % g + 1);
    } else {
      DivModUnique(m + 1, g, m / g + 1, 0);
    }
  }

  /** `ngroups`: min(6, n // 5 + (0 if n % 5 == 0 else 1)). It is the ceiling
      of n / 5 capped at 6: below the cap, the groups hold at most five
      students each on average, and one group fewer would not suffice. */
  function GroupCount(n: nat): (g: nat)
    ensures g <= 6 && g <= n
    ensures g == 0 <==> n == 0
    ensures g < 6 ==> 5 * (g - 1) < n <= 5 * g
    ensures g == 6 <==> n > 25
  {
    var c := n / 5 + (if n % 5 == 0 then 0 else 1);
    if c < 6 then c else 6
  }

  /** The number of positions k < n with k mod g == j: the size of group j + 1
      after dealing n students into g groups. */
  function ColumnSize(n: nat, g: nat, j: nat): nat
    requires g > 0
  {
    if n == 0 then 0 else ColumnSize(n - 1, g, j) + (if (n - 1) % g == j then 1 else 0)
  }

  /** Each of the first `n % g` groups gets `n / g + 1` students, the rest `n / g`. */
  lemma {:induction false} ColumnSizeFormula(n: nat, g: nat, j: nat)
    requires j < g
    ensures ColumnSize(n, g, j) == n / g + (if j < n % g then 1 else 0)
  {
    if n > 0 {
      ColumnSizeFormula(n - 1, g, j);
      DivModStep(n - 1, g);
    }
  }

  /** The students dealt to group j + 1 when `s` is dealt into g groups,
      defined like the dealing loop, one student at a time. */
  function Dealt<T>(s: seq<T>, g: nat, j: nat): (r: seq<T>)
    requires j < g
    ensures |r| == ColumnSize(|s|, g, j)
  {
    if |s| == 0 then []
    else
      var m := |s| - 1;
      var prev := Dealt(s[..m], g, j);
      if m % g == j then prev + [s[m]] else prev
  }

  /** Group j + 1 holds the students at positions j, j + g, j + 2g, ... of `s`,
      in that order. */
  lemma {:induction false} DealtAt<T>(s: seq<T>, g: nat, j: nat, t: nat)
    requires j < g && t < ColumnSize(|s|, g, j)
    ensures j + t * g < |s|
    ensures Dealt(s, g, j)[t] == s[j + t * g]
  {
    var m := |s| - 1;
    var prev := Dealt(s[..m], g, j);
    if t < |prev| {
      DealtAt(s[..m], g, j, t);
    } else {
      LastDealtPosition(m, g, j);
    }
  }

  /** A student dealt to group j + 1 after t others sits at position j + t * g. */
  lemma LastDealtPosition(m: nat, g: nat, j: nat)
    requires j < g && m % g == j
    ensures m == j + ColumnSize(m, g, j) * g
  {
    ColumnSizeFormula(m, g, j);
  }

  /** All students held by groups 1..g, counted with multiplicity. */
  function Members<T>(groups: map<int, seq<T>>, g: nat): multiset<T>
    requires forall i :: 1 <= i <= g ==> i in groups
  {
    if g == 0 then multiset{} else Members(groups, g - 1) + multiset(groups[g])
  }

  /** Appending one student to one group adds exactly that student. */
  lemma {:induction false} MembersAppend<T>(groups: map<int, seq<T>>, g: nat, key: int, x: T)
    requires forall i :: 1 <= i <= g ==> i in groups
    requires 1 <= key <= g
    ensures Members(groups[key := groups[key] + [x]], g) == Members(groups, g) + multiset{x}
  {
    var after := groups[key := groups[key] + [x]];
    if key < g {
      MembersAppend(groups, g - 1, key, x);
      assert after[g] == groups[g];
    } else {
      MembersAppendLast(groups, g, x);
    }
  }

  /** Appending to the last group: the groups before it are untouched. */
  lemma MembersAppendLast<T>(groups: map<int, seq<T>>, g: nat, x: T)
    requires forall i :: 1 <= i <= g ==> i in groups
    requires g >= 1
    ensures Members(groups[g := groups[g] + [x]], g) == Members(groups, g) + multiset{x}
  {
    var after := groups[g := groups[g] + [x]];
    MembersUnchanged(groups, after, g - 1);
    assert multiset(after[g]) == multiset(groups[g]) + multiset{x};
  }

  /** Groups that are all empty hold nobody. */
  lemma {:induction false} MembersOfEmptyGroups<T>(groups: map<int, seq<T>>, g: nat)
    requires forall i :: 1 <= i <= g ==> i in groups && groups[i] == []
    ensures Members(groups, g) == multiset{}
  {
    if g > 0 {
      MembersOfEmptyGroups(groups, g - 1);
    }
  }

  lemma {:induction false} MembersUnchanged<T>(a: map<int, seq<T>>, b: map<int, seq<T>>, g: nat)
    requires forall i :: 1 <= i <= g ==> i in a && i in b && a[i] == b[i]
    ensures Members(a, g) == Members(b, g)
  {
    if g > 0 {
      MembersUnchanged(a, b, g - 1);
    }
  }

  // ---------------------------------------------------------------------------
  // set_groups
  // ---------------------------------------------------------------------------

  /** `roster.set_groups()` with `shuffled` standing for the order that
      `random.shuffle` left the students in. The groups are keyed exactly
      1..G; group i is the i-th column of the deal (its students are the
      shuffled ones at positions i - 1, i - 1 + G, ..., see DealtAt); and
      together the groups hold exactly the students. */
  method SetGroups(roster: Roster, shuffled: seq<StudentName>) returns (r: Roster)
    requires multiset(shuffled) == multiset(roster.students)
    ensures r.section == roster.section && r.students == shuffled
    ensures r.groups.Keys == Interval(GroupCount(|roster.students|))
    ensures forall i :: i in r.groups ==>
              r.groups[i] == Dealt(shuffled, GroupCount(|roster.students|), i - 1)
    ensures Members(r.groups, GroupCount(|roster.students|)) == multiset(roster.students)
  {
    var n := |roster.students|;
    assert |shuffled| == n by {
      assert |multiset(shuffled)| == |multiset(roster.students)|;
    }
    var groups := DealAll(shuffled, GroupCount(n));
    r := Roster(roster.section, shuffled, groups);
  }

  /** The dealing loop: `{i + 1: [] for i in range(g)}`, then the student at
      position k is appended to group (k mod g) + 1. With no groups there is
      nobody to deal. */
  method DealAll(shuffled: seq<StudentName>, g: nat) returns (groups: map<int, seq<StudentName>>)
    requires g > 0 || |shuffled| == 0
    ensures groups.Keys == Interval(g)
    ensures forall i :: 1 <= i <= g ==> groups[i] == Dealt(shuffled, g, i - 1)
    ensures Members(groups, g) == multiset(shuffled)
  {
    groups := map i | i in Interval(g) :: [];
    MembersOfEmptyGroups(groups, g);
    var k := 0;
    forall i | 1 <= i <= g
      ensures groups[i] == Dealt(shuffled[..k], g, i - 1)
    {
      assert |shuffled[..k]| == 0;
    }
    while k < |shuffled|
      invariant 0 <= k <= |shuffled|
      invariant groups.Keys == Interval(g)
      invariant forall i :: 1 <= i <= g ==> groups[i] == Dealt(shuffled[..k], g, i - 1)
      invariant Members(groups, g) == multiset(shuffled[..k])
    {
      groups := DealOne(groups, shuffled, k, g);
      k := k + 1;
    }
    assert shuffled[..k] == shuffled;
  }

  /** Dealing the student at position k to group (k mod g) + 1 keeps every
      group equal to its dealt column and the members equal to the students
      dealt so far. */
  method DealOne(groups: map<int, seq<StudentName>>, s: seq<StudentName>, k: nat, g: nat)
    returns (next: map<int, seq<StudentName>>)
    requires k < |s| && g > 0
    requires groups.Keys == Interval(g)
    requires forall i :: 1 <= i <= g ==> groups[i] == Dealt(s[..k], g, i - 1)
    requires Members(groups, g) == multiset(s[..k])
    ensures next.Keys == Interval(g)
    ensures forall i :: 1 <= i <= g ==> next[i] == Dealt(s[..k + 1], g, i - 1)
    ensures Members(next, g) == multiset(s[..k + 1])
  {
    next := groups[k % g + 1 := groups[k % g + 1] + [s[k]]];
    DealOneGroups(groups, s, k, g);
    DealOneMembers(groups, s, k, g);
  }

  lemma DealOneGroups(groups: map<int, seq<StudentName>>, s: seq<StudentName>, k: nat, g: nat)
    requires k < |s| && g > 0
    requires groups.Keys == Interval(g)
    requires forall i :: 1 <= i <= g ==> groups[i] == Dealt(s[..k], g, i - 1)
    ensures var next := groups[k % g + 1 := groups[k % g + 1] + [s[k]]];
      forall i :: 1 <= i <= g ==> next[i] == Dealt(s[..k + 1], g, i - 1)
  {
    var key := k % g + 1;
    var next := groups[key := groups[key] + [s[k]]];
    forall i | 1 <= i <= g
      ensures next[i] == Dealt(s[..k + 1], g, i - 1)
    {
      DealtStep(s, k, g, i - 1);
    }
  }

  lemma DealOneMembers(groups: map<int, seq<StudentName>>, s: seq<StudentName>, k: nat, g: nat)
    requires k < |s| && g > 0
    requires groups.Keys == Interval(g)
    requires Members(groups, g) == multiset(s[..k])
    ensures Members(groups[k % g + 1 := groups[k % g + 1] + [s[k]]], g) == multiset(s[..k + 1])
  {
    MembersAppend(groups, g, k % g + 1, s[k]);
    assert s[..k + 1] == s[..k] + [s[k]];
  }

  /** One more dealt student extends exactly the group whose turn it is. */
  lemma DealtStep<T>(s: seq<T>, k: nat, g: nat, j: nat)
    requires k < |s| && j < g
    ensures Dealt(s[..k + 1], g, j) == Dealt(s[..k], g, j) + (if k % g == j then [s[k]] else [])
  {
    assert s[..k + 1][..k] == s[..k];
  }

  // ---------------------------------------------------------------------------
  // Properties of the dealt groups
  // ---------------------------------------------------------------------------

  /** Group sizes differ by at most one, and a lower-numbered group is never
      smaller than a higher-numbered one. */
  lemma GroupSizesBalanced(n: nat, g: nat, i: nat, j: nat)
    requires i <= j < g
    ensures ColumnSize(n, g, j) <= ColumnSize(n, g, i) <= ColumnSize(n, g, j) + 1
  {
    ColumnSizeFormula(n, g, i);
    ColumnSizeFormula(n, g, j);
  }

  /** Every group of a non-empty section gets at least one student. */
  lemma GroupsNonEmpty(n: nat, j: nat)
    requires j < GroupCount(n)
    ensures ColumnSize(n, GroupCount(n), j) >= 1
  {
    var g := GroupCount(n);
    ColumnSizeFormula(n, g, j);
    QuotientPositive(n, g);
  }

  /** Dividing by a positive number no larger than the dividend gives at least one. */
  lemma QuotientPositive(n: nat, g: nat)
    requires 0 < g <= n
    ensures n / g >= 1
  {
  }

  /** Multiplication by a positive number can be cancelled in comparisons. */
  lemma MulCancel(q: int, c: int, g: int)
    requires g > 0
    ensures q * g <= c * g ==> q <= c
    ensures q * g < c * g ==> q < c
  {
    MulAtLeast(q - c, g);
    MulAtLeast(q - c + 1, g);
    assert (q - c) * g == q * g - c * g;
    assert (q - c + 1) * g == q * g - c * g + g;
  }

  /** Below the cap of six groups, no group has more than five students. */
  lemma AtMostFivePerGroup(n: nat, j: nat)
    requires n <= 30 && j < GroupCount(n)
    ensures ColumnSize(n, GroupCount(n), j) <= 5
  {
    var g := GroupCount(n);
    ColumnSizeFormula(n, g, j);
    assert n <= 5 * g;
    CeilingAtMost(n, g, 5);
  }

  /** If n fits in g boxes of c, the ceiling of n / g is at most c. */
  lemma CeilingAtMost(n: nat, g: nat, c: nat)
    requires g > 0 && n <= c * g
    ensures n / g + (if n % g == 0 then 0 else 1) <= c
  {
    var q, r := n / g, n % g;
    assert n == q * g + r;
    MulCancel(q, c, g);
    assert r > 0 ==> q * g < c * g;
  }

  /** 23 students make five groups of sizes 5, 5, 5, 4, 4. */
  lemma TwentyThreeStudents()
    ensures GroupCount(23) == 5
    ensures ColumnSize(23, 5, 0) == 5 && ColumnSize(23, 5, 1) == 5 && ColumnSize(23, 5, 2) == 5
    ensures ColumnSize(23, 5, 3) == 4 && ColumnSize(23, 5, 4) == 4
  {
    ColumnSizeFormula(23, 5, 0);
    ColumnSizeFormula(23, 5, 1);
    ColumnSizeFormula(23, 5, 2);
    ColumnSizeFormula(23, 5, 3);
    ColumnSizeFormula(23, 5, 4);
  }

  /** Six students make two groups of three: groups of fewer than four occur. */
  lemma SixStudentsMakeGroupsOfThree()
    ensures GroupCount(6) == 2
    ensures ColumnSize(6, 2, 0) == 3 && ColumnSize(6, 2, 1) == 3
  {
    ColumnSizeFormula(6, 2, 0);
    ColumnSizeFormula(6, 2, 1);
  }

  /** Large sections are capped at six groups: 100 students make groups of
      17, 17, 17, 17, 16, 16. */
  lemma HundredStudents()
    ensures GroupCount(100) == 6
    ensures ColumnSize(100, 6, 3) == 17 && ColumnSize(100, 6, 4) == 16
  {
    ColumnSizeFormula(100, 6, 3);
    ColumnSizeFormula(100, 6, 4);
  }

  /** Whoever is dealt into a group comes from the dealt sequence. */
  lemma {:induction false} DealtFrom<T>(s: seq<T>, g: nat, j: nat, x: T)
    requires j < g && x in Dealt(s, g, j)
    ensures x in s
  {
    var m := |s| - 1;
    if x in Dealt(s[..m], g, j) {
      DealtFrom(s[..m], g, j, x);
      assert s[..m] <= s;
    }
  }

  /** Every name of a canonicalised list is canonical. */
  lemma CanonicalizedIsCanonical(names: seq<StudentName>, x: StudentName)
    requires x in CanonicalizeAll(names)
    ensures x.Canonicalize() == x
  {
    var students := CanonicalizeAll(names);
    var p :| 0 <= p < |students| && students[p] == x;
    CanonicalizeProperties(names[p]);
  }

  /** `Rosters.generate_roster`: the names are canonicalised, then grouped.
      Every grouped student is in canonical form. */
  method GenerateRoster(section: int, names: seq<StudentName>, shuffled: seq<StudentName>) returns (r: Roster)
    requires multiset(shuffled) == multiset(CanonicalizeAll(names))
    ensures r.section == section
    ensures r.groups.Keys == Interval(GroupCount(|names|))
    ensures Members(r.groups, GroupCount(|names|)) == multiset(CanonicalizeAll(names))
    ensures forall i, x :: i in r.groups && x in r.groups[i] ==> x.Canonicalize() == x
  {
    var students := CanonicalizeAll(names);
    r := SetGroups(NewRoster(section, students), shuffled);
    var g := GroupCount(|names|);
    forall i, x | i in r.groups && x in r.groups[i]
      ensures x.Canonicalize() == x
    {
      DealtFrom(shuffled, g, i - 1, x);
      assert x in multiset(shuffled);
      CanonicalizedIsCanonical(names, x);
    }
  }

  /** `[name.canonicalize() for name in names]`. */
  function CanonicalizeAll(names: seq<StudentName>): (r: seq<StudentName>)
    ensures |r| == |names|
    ensures forall i :: 0 <= i < |r| ==> r[i] == names[i].Canonicalize()
  {
    if |names| == 0 then [] else [names[0].Canonicalize()] + CanonicalizeAll(names[1..])
  }
}
