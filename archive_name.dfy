/**
 * `ArchiveItem.Name`: the display name of an archived file, taken from its
 * filename, compared by its string value.
 */
module ArchiveName {
  import opened Wrappers
  import opened Text

  /** Equality is value equality, as Swift's synthesised `Equatable`. */
  datatype Name = Name(value: string)

  datatype NameError = InvalidName

  /** `init(_:)`: keeps the given string as it is. */
  function FromString(value: string): (n: Name)
    ensures n.value == value
  {
    Name(value)
  }

  /** `init(stringLiteral:)`: the same as `init(_:)`. */
  function FromLiteral(value: string): (n: Name)
    ensures n == FromString(value)
  {
    Name(value)
  }

  /** `description`: the stored string, from which the name is rebuilt. */
  function Description(n: Name): (s: string)
    ensures FromString(s) == n
  {
    n.value
  }

  /**
   * `init(filename:)`: the first non-empty `.`-separated piece of the
   * filename; `InvalidName` when there is none.
   */
  function FromFilename(filename: string): (r: Result<Name, NameError>)
    ensures r.Failure? <==> forall i :: 0 <= i < |filename| ==> filename[i] == '.'
    ensures r.Success? ==>
      var v := r.value.value;
      var k := LeadingRun(filename, '.');
      && v != [] && '.' !in v
      && k + |v| <= |filename| && filename[k..k + |v|] == v
      && (k + |v| == |filename| || filename[k + |v|] == '.')
  {
    var pieces := Split(filename, '.');
    SplitEmpty(filename, '.');
    if pieces == [] then Failure(InvalidName)
    else
      SplitFirst(filename, '.');
      assert pieces[0] in pieces;
      Success(Name(pieces[0]))
  }

  /** A filename without any `.` is its own name. */
  lemma FromFilenameNoDot(filename: string)
    requires filename != [] && '.' !in filename
    ensures FromFilename(filename) == Success(Name(filename))
  {
    SplitSingle(filename, '.');
  }

  /** Round trip: a name followed by any extension parses back to the name. */
  lemma FromFilenameWithExtension(n: string, ext: string)
    requires n != [] && '.' !in n
    ensures FromFilename(n + "." + ext) == Success(Name(n))
  {
    SplitWord(n, '.', ext);
  }

  /** Lexicographic order on strings, character by character. */
  predicate StringLess(a: string, b: string)
    decreases |a|
  {
    if b == [] then false
    else if a == [] then true
    else if a[0] != b[0] then a[0] < b[0]
    else StringLess(a[1..], b[1..])
  }

  /** `<`: compares the string values; no name is below itself. */
  predicate Less(lhs: Name, rhs: Name)
    ensures Less(lhs, rhs) ==> lhs != rhs
  {
    StringLessIrreflexive(lhs.value);
    StringLess(lhs.value, rhs.value)
  }

  lemma {:induction false} StringLessIrreflexive(a: string)
    ensures !StringLess(a, a)
  {
    if a != [] {
      StringLessIrreflexive(a[1..]);
    }
  }

  lemma {:induction false} StringLessTransitive(a: string, b: string, c: string)
    requires StringLess(a, b) && StringLess(b, c)
    ensures StringLess(a, c)
    decreases |a|
  {
    if a != [] && a[0] == b[0] && b[0] == c[0] {
      StringLessTransitive(a[1..], b[1..], c[1..]);
    }
  }

  lemma {:induction false} StringLessTotal(a: string, b: string)
    requires a != b
    ensures StringLess(a, b) || StringLess(b, a)
    decreases |a|
  {
    if a != [] && b != [] && a[0] == b[0] {
      assert a == [a[0]] + a[1..] && b == [b[0]] + b[1..];
      StringLessTotal(a[1..], b[1..]);
    }
  }

  /** No name is below itself; equal names are never `<` each other. */
  lemma LessIrreflexive(a: Name, b: Name)
    requires a == b
    ensures !Less(a, b) && !Less(b, a)
  {
    StringLessIrreflexive(a.value);
  }

  lemma LessTransitive(a: Name, b: Name, c: Name)
    requires Less(a, b) && Less(b, c)
    ensures Less(a, c)
  {
    StringLessTransitive(a.value, b.value, c.value);
  }

  /** Two different names are always ordered one way or the other. */
  lemma LessTotal(a: Name, b: Name)
    requires a != b
    ensures Less(a, b) || Less(b, a)
  {
    StringLessTotal(a.value, b.value);
  }

  lemma LessAsymmetric(a: Name, b: Name)
    requires Less(a, b)
    ensures !Less(b, a)
  {
    if Less(b, a) {
      LessTransitive(a, b, a);
      StringLessIrreflexive(a.value);
    }
  }
}
