/** Student names (`StudentName` in 1l-tools.py). A name is kept as the text it
    was built from; a text with exactly one comma reads as "last, first", any
    other text is taken to be in first-name-first form already. Identity,
    ordering and hashing all go through the canonical first-name-first form. */
module Names {
  import opened Text

  /** The two readings of a name text. */
  datatype Form =
    | LastFirst(last: string, first: string)   // both parts stripped
    | Verbatim                                   // kept as written

  /** How the constructor reads `text`: `text.split(',')` unpacked into
      exactly two parts, or the ValueError path that keeps the text. */
  function FormOf(text: string): (f: Form)
    ensures f.LastFirst? <==> Count(text, ',') == 1
    ensures f.LastFirst? ==> ',' !in f.last && ',' !in f.first
  {
    var parts := Split(text, ',');
    if |parts| == 2 then
      StripSubset(parts[0], ',');
      StripSubset(parts[1], ',');
      LastFirst(Strip(parts[0]), Strip(parts[1]))
    else Verbatim
  }

  datatype StudentName = StudentName(text: string) {

    /** `str(name)`: the text the name was built from. */
    function Str(): string {
      text
    }

    /** `canonical()`: "first last" for a "last, first" text, the text itself otherwise. */
    function Canonical(): (c: string)
      ensures FormOf(text).Verbatim? ==> c == text
      ensures FormOf(text).LastFirst? ==> c == FormOf(text).first + " " + FormOf(text).last
      ensures ',' !in text ==> c == text
    {
      match FormOf(text)
      case LastFirst(last, first) => first + " " + last
      case Verbatim => text
    }

    /** `canonicalize()`: a new name built from the canonical text. */
    function Canonicalize(): (n: StudentName)
      ensures n.Str() == Canonical()
    {
      StudentName(Canonical())
    }
  }

  /** `a == b`: the canonical forms agree. */
  predicate Eq(a: StudentName, b: StudentName) {
    a.Canonical() == b.Canonical()
  }

  /** `a < b`: the canonical forms compare as Python strings. */
  predicate Less(a: StudentName, b: StudentName) {
    LexLess(a.Canonical(), b.Canonical())
  }

  /** `hash(name)`: the (process-dependent) string hash `h` of the canonical form. */
  function Hash(n: StudentName, h: string -> int): int {
    h(n.Canonical())
  }

  /** The canonical text has no comma when the name was read as "last, first",
      so it is read back verbatim: canonical() is idempotent. */
  lemma CanonicalIdempotent(n: StudentName)
    ensures StudentName(n.Canonical()).Canonical() == n.Canonical()
  {
    var c := n.Canonical();
    if FormOf(n.text).LastFirst? {
      var f := FormOf(n.text);
      assert c == f.first + " " + f.last;
      assert ',' !in c;
    }
  }

  /** canonicalize() keeps the identity, and applying it twice changes nothing more. */
  lemma CanonicalizeProperties(n: StudentName)
    ensures Eq(n.Canonicalize(), n)
    ensures n.Canonicalize().Canonicalize() == n.Canonicalize()
    ensures n.Canonicalize().Str() == n.Canonical()
  {
    CanonicalIdempotent(n);
  }

  /** A text "last,first" with one comma canonicalises to the stripped first
      part, a space and the stripped last part. */
  lemma OneCommaCanonical(last: string, first: string)
    requires ',' !in last && ',' !in first
    ensures StudentName(last + "," + first).Canonical() == Strip(first) + " " + Strip(last)
  {
    SplitConcat(last, first, ',');
    assert last + "," + first == last + [','] + first;
    SplitNoSep(last, ',');
    SplitNoSep(first, ',');
  }

  predicate Trimmed(s: string) {
    |s| == 0 || (!IsSpace(s[0]) && !IsSpace(s[|s| - 1]))
  }

  lemma StripAfterSpace(first: string)
    requires Trimmed(first)
    ensures Strip(" " + first) == first
  {
    StripKeepsTrimmed(first);
    assert (" " + first)[1..] == first;
    if |first| > 0 {
      assert LeadingSpaces(" " + first) == 1;
    }
  }

  /** "Last, First" canonicalises to "First Last". */
  lemma CanonicalOfLastFirst(last: string, first: string)
    requires ',' !in last && ',' !in first
    requires Trimmed(last) && Trimmed(first)
    ensures StudentName(last + ", " + first).Canonical() == first + " " + last
  {
    assert last + ", " + first == last + "," + (" " + first);
    OneCommaCanonical(last, " " + first);
    StripKeepsTrimmed(last);
    StripAfterSpace(first);
  }

  /** "First Last" is already canonical. */
  lemma CanonicalOfFirstLast(last: string, first: string)
    requires ',' !in last && ',' !in first
    ensures StudentName(first + " " + last).Canonical() == first + " " + last
  {
    assert ',' !in first + " " + last;
  }

  /** "Last, First" and "First Last" name the same student: they are equal and
      hash alike, while str() still gives back each text as written. */
  lemma SpellingsAgree(last: string, first: string, h: string -> int)
    requires ',' !in last && ',' !in first
    requires Trimmed(last) && Trimmed(first)
    ensures Eq(StudentName(last + ", " + first), StudentName(first + " " + last))
    ensures Hash(StudentName(last + ", " + first), h) == Hash(StudentName(first + " " + last), h)
    ensures StudentName(last + ", " + first).Str() == last + ", " + first
  {
    CanonicalOfLastFirst(last, first);
    CanonicalOfFirstLast(last, first);
  }

  /** Names with equal canonical forms hash alike. */
  lemma EqualNamesHashAlike(a: StudentName, b: StudentName, h: string -> int)
    requires Eq(a, b)
    ensures Hash(a, h) == Hash(b, h)
  {
  }

  /** `<` is a strict ordering whose incomparable pairs are exactly the equal names. */
  lemma LessIsStrictOrder(a: StudentName, b: StudentName, c: StudentName)
    ensures !Less(a, a)
    ensures Less(a, b) ==> !Less(b, a)
    ensures Less(a, b) && Less(b, c) ==> Less(a, c)
    ensures Less(a, b) || Eq(a, b) || Less(b, a)
    ensures Eq(a, b) ==> !Less(a, b) && !Less(b, a)
  {
    LexLessIrreflexive(a.Canonical());
    LexLessTrichotomy(a.Canonical(), b.Canonical());
    if Less(a, b) && Less(b, c) {
      LexLessTransitive(a.Canonical(), b.Canonical(), c.Canonical());
    }
  }
}
