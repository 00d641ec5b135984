/** Ascending enumeration of a finite set of integers: the order in which
    Python's `sorted(d.items())` visits the int keys of a dict. */
module Order {

  predicate StrictlyIncreasing(q: seq<int>) {
    forall i, j :: 0 <= i < j < |q| ==> q[i] < q[j]
  }

  /** A set without elements is the empty set. */
  lemma EmptyIfNoElement<T>(s: set<T>)
    ensures (forall x :: x !in s) ==> s == {}
  {
    if forall x :: x !in s {
      assert s == {};
    }
  }

  /** Some element of a non-empty set. */
  lemma PickOne<T>(s: set<T>) returns (y: T)
    requires s != {}
    ensures y in s
  {
    EmptyIfNoElement(s);
    y :| y in s;
  }

  lemma {:induction false} MinExists(s: set<int>)
    requires s != {}
    ensures exists m :: m in s && forall x :: x in s ==> m <= x
  {
    var y := PickOne(s);
    if s != {y} {
      MinExists(s - {y});
      var m :| m in s - {y} && forall x :: x in s - {y} ==> m <= x;
      forall x | x in s && x != y
        ensures m <= x
      {
        assert x in s - {y};
      }
      if y < m {
        assert forall x :: x in s ==> y <= x;
      } else {
        assert m in s && forall x :: x in s ==> m <= x;
      }
    }
  }

  /** The least element of a non-empty finite set. */
  function Min(s: set<int>): (m: int)
    requires s != {}
    ensures m in s
    ensures forall x :: x in s ==> m <= x
  {
    MinExists(s);
    var m :| m in s && forall x :: x in s ==> m <= x;
    m
  }

  /** The elements of `s` in ascending order. */
  function SortedInts(s: set<int>): (q: seq<int>)
    ensures |q| == |s|
    ensures forall x :: x in s <==> x in q
    ensures StrictlyIncreasing(q)
    decreases |s|
  {
    if s == {} then []
    else
      var m := Min(s);
      var rest := SortedInts(s - {m});
      assert forall i :: 0 <= i < |rest| ==> m < rest[i] by {
        forall i | 0 <= i < |rest| ensures m < rest[i] {
          assert rest[i] in s - {m};
        }
      }
      [m] + rest
  }

  /** A strictly increasing enumeration of a set is its sorted enumeration. */
  lemma {:induction false} SortedIntsUnique(s: set<int>, q: seq<int>)
    requires StrictlyIncreasing(q)
    requires forall x :: x in s <==> x in q
    ensures q == SortedInts(s)
    decreases |q|
  {
    if |q| > 0 {
      assert q == [q[0]] + q[1..];
      HeadIsLeast(s, q);
      TailEnumeratesRest(s, q);
      SortedIntsUnique(s - {q[0]}, q[1..]);
    } else {
      EmptyIfNoElement(s);
    }
  }

  /** The first element of an increasing enumeration is the least. */
  lemma HeadIsLeast(s: set<int>, q: seq<int>)
    requires StrictlyIncreasing(q) && |q| > 0
    requires forall x :: x in s <==> x in q
    ensures s != {} && Min(s) == q[0]
  {
    assert q[0] in q;
    forall x | x in s
      ensures q[0] <= x
    {
      var i :| 0 <= i < |q| && q[i] == x;
    }
  }

  /** The rest of an increasing enumeration enumerates the rest of the set. */
  lemma TailEnumeratesRest(s: set<int>, q: seq<int>)
    requires StrictlyIncreasing(q) && |q| > 0
    requires forall x :: x in s <==> x in q
    ensures StrictlyIncreasing(q[1..])
    ensures forall x :: x in s - {q[0]} <==> x in q[1..]
  {
    forall x
      ensures x in s - {q[0]} <==> x in q[1..]
    {
      if x in q[1..] {
        var i :| 0 <= i < |q[1..]| && q[1..][i] == x;
        assert q[i + 1] == x;
      }
      if x in s - {q[0]} {
        var i :| 0 <= i < |q| && q[i] == x;
        assert q[1..][i - 1] == x;
      }
    }
  }

  /** Two increasing runs, the first below the second, make one. */
  lemma ConcatIncreasing(p: seq<int>, q: seq<int>)
    requires StrictlyIncreasing(p) && StrictlyIncreasing(q)
    requires forall i, j :: 0 <= i < |p| && 0 <= j < |q| ==> p[i] < q[j]
    ensures StrictlyIncreasing(p + q)
  {
    var r := p + q;
    forall i, j | 0 <= i < j < |r|
      ensures r[i] < r[j]
    {
      if j < |p| {
        assert r[i] == p[i] && r[j] == p[j];
      } else if i >= |p| {
        assert r[i] == q[i - |p|] && r[j] == q[j - |p|];
      } else {
        assert r[i] == p[i] && r[j] == q[j - |p|];
      }
    }
  }

  /** When every element of `a` is below every element of `b`, the sorted
      union lists `a` first, then `b`. */
  lemma SortedUnion(a: set<int>, b: set<int>)
    requires forall x, y :: x in a && y in b ==> x < y
    ensures SortedInts(a + b) == SortedInts(a) + SortedInts(b)
  {
    var qa, qb := SortedInts(a), SortedInts(b);
    forall i, j | 0 <= i < |qa| && 0 <= j < |qb|
      ensures qa[i] < qb[j]
    {
      assert qa[i] in a && qb[j] in b;
    }
    ConcatIncreasing(qa, qb);
    SortedIntsUnique(a + b, qa + qb);
  }

  /** The ascending run `lo, lo + 1, ..., hi - 1`. */
  function Range(lo: int, hi: int): (q: seq<int>)
    ensures |q| == if lo <= hi then hi - lo else 0
    ensures forall i :: 0 <= i < |q| ==> q[i] == lo + i
    decreases hi - lo
  {
    if lo >= hi then [] else [lo] + Range(lo + 1, hi)
  }

  /** The set `{1, ..., g}`: the keys of a dict built from `range(g)` shifted by one. */
  function Interval(g: nat): (r: set<int>)
    ensures forall i :: i in r <==> 1 <= i <= g
  {
    if g == 0 then {} else Interval(g - 1) + {g}
  }

  /** The keys `1..g` are visited as `1, 2, ..., g`. */
  lemma SortedIntervalIsRange(g: nat)
    ensures SortedInts(Interval(g)) == Range(1, g + 1)
  {
    var q := Range(1, g + 1);
    forall x
      ensures x in Interval(g) <==> x in q
    {
      if 1 <= x <= g {
        assert q[x - 1] == x;
      }
    }
    SortedIntsUnique(Interval(g), q);
  }

  /** An integer not in `s`, above every element of `s`. */
  function FreshId(s: set<int>): (r: int)
    ensures r !in s
    ensures forall x :: x in s ==> x < r
  {
    if s == {} then 0
    else
      var q := SortedInts(s);
      assert forall x :: x in s ==> x <= q[|q| - 1] by {
        forall x | x in s ensures x <= q[|q| - 1] {
          var i :| 0 <= i < |q| && q[i] == x;
        }
      }
      q[|q| - 1] + 1
  }
}
