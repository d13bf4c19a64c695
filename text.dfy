/**
 * String helpers shared by the name parser and the device view model:
 * Swift's `split(separator:)` (which omits empty pieces) and the decimal
 * rendering of a Swift `Int` used by string interpolation.
 */
module Text {
  import opened Wrappers

  /** Number of copies of `sep` at the start of `s`. */
  function LeadingRun(s: string, sep: char): (k: nat)
    ensures k <= |s|
    ensures forall i :: 0 <= i < k ==> s[i] == sep
    ensures k == |s| || s[k] != sep
  {
    if s == [] || s[0] != sep then 0 else 1 + LeadingRun(s[1..], sep)
  }

  /** The longest prefix of `s` that holds no `sep`. */
  function Word(s: string, sep: char): (w: string)
    ensures |w| <= |s| && w == s[..|w|]
    ensures sep !in w
    ensures |w| == |s| || s[|w|] == sep
  {
    if s == [] || s[0] == sep then [] else [s[0]] + Word(s[1..], sep)
  }

  /**
   * Swift's `s.split(separator: sep)` with its default
   * `omittingEmptySubsequences: true`: the maximal runs of characters other
   * than `sep`, left to right. Every piece is non-empty and free of `sep`.
   */
  function Split(s: string, sep: char): (pieces: seq<string>)
    ensures forall p :: p in pieces ==> p != [] && sep !in p
    decreases |s|
  {
    if s == [] then []
    else if s[0] == sep then Split(s[1..], sep)
    else
      var w := Word(s, sep);
      [w] + Split(s[|w|..], sep)
  }

  /** `s` with every `sep` taken out. */
  function Without(s: string, sep: char): string
  {
    if s == [] then [] else (if s[0] == sep then [] else [s[0]]) + Without(s[1..], sep)
  }

  /** The pieces glued back together with nothing between them. */
  function Concat(pieces: seq<string>): string
  {
    if pieces == [] then [] else pieces[0] + Concat(pieces[1..])
  }

  lemma {:induction false} WithoutAppend(a: string, b: string, sep: char)
    ensures Without(a + b, sep) == Without(a, sep) + Without(b, sep)
  {
    if a == [] {
      assert a + b == b;
    } else {
      assert (a + b)[1..] == a[1..] + b;
      WithoutAppend(a[1..], b, sep);
    }
  }

  lemma {:induction false} WithoutFree(s: string, sep: char)
    requires sep !in s
    ensures Without(s, sep) == s
  {
    if s != [] {
      assert sep !in s[1..];
      WithoutFree(s[1..], sep);
    }
  }

  /** Nothing but separators is lost: gluing the pieces gives `s` without its separators. */
  lemma {:induction false} SplitConcat(s: string, sep: char)
    ensures Concat(Split(s, sep)) == Without(s, sep)
    decreases |s|
  {
    if s == [] {
    } else if s[0] == sep {
      SplitConcat(s[1..], sep);
    } else {
      var w := Word(s, sep);
      var rest := s[|w|..];
      assert s == w + rest;
      SplitConcat(rest, sep);
      WithoutAppend(w, rest, sep);
      WithoutFree(w, sep);
      assert Split(s, sep) == [w] + Split(rest, sep);
      assert ([w] + Split(rest, sep))[1..] == Split(rest, sep);
    }
  }

  /** There is no piece at all exactly when `s` holds nothing but separators. */
  lemma {:induction false} SplitEmpty(s: string, sep: char)
    ensures Split(s, sep) == [] <==> forall i :: 0 <= i < |s| ==> s[i] == sep
    decreases |s|
  {
    if s != [] && s[0] == sep {
      SplitEmpty(s[1..], sep);
      assert forall i :: 1 <= i < |s| ==> s[i] == s[1..][i - 1];
    }
  }

  /** The first piece is the word that follows the leading separators. */
  lemma {:induction false} SplitFirst(s: string, sep: char)
    requires Split(s, sep) != []
    ensures LeadingRun(s, sep) < |s|
    ensures Split(s, sep)[0] == Word(s[LeadingRun(s, sep)..], sep)
    decreases |s|
  {
    if s[0] == sep {
      SplitFirst(s[1..], sep);
      assert s[1..][LeadingRun(s[1..], sep)..] == s[LeadingRun(s, sep)..];
    }
  }

  /** A word followed by a separator is split off as the first piece. */
  lemma {:induction false} SplitWord(w: string, sep: char, rest: string)
    requires w != [] && sep !in w
    ensures Split(w + [sep] + rest, sep) == [w] + Split(rest, sep)
  {
    var s := w + [sep] + rest;
    WordOf(w, sep, [sep] + rest);
    assert s == w + ([sep] + rest);
    assert s[|w|..] == [sep] + rest;
    assert ([sep] + rest)[1..] == rest;
  }

  /** A non-empty string without separators is a single piece. */
  lemma SplitSingle(w: string, sep: char)
    requires w != [] && sep !in w
    ensures Split(w, sep) == [w]
  {
    WordOf(w, sep, []);
    assert w + [] == w;
  }

  /** The word of `w + rest` is `w` when `w` is separator-free and `rest` starts with one or is empty. */
  lemma {:induction false} WordOf(w: string, sep: char, rest: string)
    requires sep !in w
    requires rest == [] || rest[0] == sep
    ensures Word(w + rest, sep) == w
  {
    if w == [] {
      assert w + rest == rest;
    } else {
      assert (w + rest)[1..] == w[1..] + rest;
      assert sep !in w[1..];
      WordOf(w[1..], sep, rest);
    }
  }

  // ---------------------------------------------------------------------
  // Decimal rendering of integers (Swift's `"\(n)"` for an `Int`)

  predicate IsDigit(c: char) { '0' <= c <= '9' }

  function DigitChar(d: nat): (c: char)
    requires d < 10
    ensures IsDigit(c) && c as int - '0' as int == d
  {
    (d + '0' as int) as char
  }

  /** Decimal digits of `n`, most significant first, with no leading zero. */
  function NatToDecimal(n: nat): (s: string)
    ensures s != [] && forall i :: 0 <= i < |s| ==> IsDigit(s[i])
    ensures |s| > 1 ==> s[0] != '0'
    decreases n
  {
    if n < 10 then [DigitChar(n)] else NatToDecimal(n / 10) + [DigitChar(n % 10)]
  }

  /** The decimal text of an integer, with a leading `-` when it is negative. */
  function IntToDecimal(n: int): (s: string)
    ensures s != [] && '_' !in s && '.' !in s
  {
    if n < 0 then "-" + NatToDecimal(-n) else NatToDecimal(n)
  }

  /** Value of a non-empty run of decimal digits. */
  function DigitsValue(s: string): nat
    requires s != [] && forall i :: 0 <= i < |s| ==> IsDigit(s[i])
    decreases |s|
  {
    assert IsDigit(s[|s| - 1]);
    var d: nat := s[|s| - 1] as int - '0' as int;
    if |s| == 1 then d else 10 * DigitsValue(s[..|s| - 1]) + d
  }

  /** Reads back an optionally signed decimal integer; `None` on anything else. */
  function ParseDecimal(s: string): Option<int>
  {
    if s != [] && s[0] == '-' then
      (if |s| > 1 && forall i :: 1 <= i < |s| ==> IsDigit(s[i]) then Some(0 - DigitsValue(s[1..]) as int) else None)
    else if s != [] && forall i :: 0 <= i < |s| ==> IsDigit(s[i]) then Some(DigitsValue(s))
    else None
  }

  lemma {:induction false} NatDecimalRoundTrip(n: nat)
    ensures DigitsValue(NatToDecimal(n)) == n
    decreases n
  {
    if n >= 10 {
      var s := NatToDecimal(n);
      NatDecimalRoundTrip(n / 10);
      assert s[..|s| - 1] == NatToDecimal(n / 10);
    }
  }

  /** Rendering an integer and reading it back gives the integer. */
  lemma DecimalRoundTrip(n: int)
    ensures ParseDecimal(IntToDecimal(n)) == Some(n)
  {
    if n < 0 {
      var s := IntToDecimal(n);
      assert s[1..] == NatToDecimal(-n);
      NatDecimalRoundTrip(-n);
    } else {
      NatDecimalRoundTrip(n);
    }
  }
}
