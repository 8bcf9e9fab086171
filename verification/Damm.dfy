/** The Damm check digit (base/src/util/DAMM.cpp). */
module Damm {
  import opened Basics

  type Digit = d: int | 0 <= d < 10

  /** DAMM::table, row by row. */
  function Table(i: Digit, n: Digit): Digit {
    match i
    case 0 => (match n case 0 => 0 case 1 => 3 case 2 => 1 case 3 => 7 case 4 => 5
                case 5 => 9 case 6 => 8 case 7 => 6 case 8 => 4 case _ => 2)
    case 1 => (match n case 0 => 7 case 1 => 0 case 2 => 9 case 3 => 2 case 4 => 1
                case 5 => 5 case 6 => 4 case 7 => 8 case 8 => 6 case _ => 3)
    case 2 => (match n case 0 => 4 case 1 => 2 case 2 => 0 case 3 => 6 case 4 => 8
                case 5 => 7 case 6 => 1 case 7 => 3 case 8 => 5 case _ => 9)
    case 3 => (match n case 0 => 1 case 1 => 7 case 2 => 5 case 3 => 0 case 4 => 9
                case 5 => 8 case 6 => 3 case 7 => 4 case 8 => 2 case _ => 6)
    case 4 => (match n case 0 => 6 case 1 => 1 case 2 => 2 case 3 => 3 case 4 => 0
                case 5 => 4 case 6 => 5 case 7 => 9 case 8 => 7 case _ => 8)
    case 5 => (match n case 0 => 3 case 1 => 6 case 2 => 7 case 3 => 4 case 4 => 2
                case 5 => 0 case 6 => 9 case 7 => 5 case 8 => 8 case _ => 1)
    case 6 => (match n case 0 => 5 case 1 => 8 case 2 => 6 case 3 => 9 case 4 => 7
                case 5 => 2 case 6 => 0 case 7 => 1 case 8 => 3 case _ => 4)
    case 7 => (match n case 0 => 8 case 1 => 9 case 2 => 4 case 3 => 5 case 4 => 3
                case 5 => 6 case 6 => 2 case 7 => 0 case 8 => 1 case _ => 7)
    case 8 => (match n case 0 => 9 case 1 => 4 case 2 => 3 case 3 => 8 case 4 => 6
                case 5 => 1 case 6 => 7 case 7 => 2 case 8 => 0 case _ => 5)
    case _ => (match n case 0 => 2 case 1 => 5 case 2 => 8 case 3 => 1 case 4 => 4
                case 5 => 3 case 6 => 6 case 7 => 7 case 8 => 9 case _ => 0)
  }

  predicate IsDigit(c: char) { '0' <= c <= '9' }

  function DigitOf(c: char): Digit
    requires IsDigit(c)
  {
    c as int - '0' as int
  }

  function CharOf(d: Digit): (c: char)
    ensures IsDigit(c) && DigitOf(c) == d
  {
    (d + '0' as int) as char
  }

  predicate AllDigits(s: string) { forall c | c in s :: IsDigit(c) }

  /** Where the table leads from a digit along a string of digits. */
  function Fold(from: Digit, s: string): Digit
    requires AllDigits(s)
    decreases |s|
  {
    if s == [] then from else Fold(Table(from, DigitOf(s[0])), s[1..])
  }

  /** The loop of DAMM::compute; an unexpected character makes it throw. */
  method Compute(s: string) returns (result: Option<Digit>)
    ensures result == if AllDigits(s) then Some(Fold(0, s)) else None
  {
    var index: Digit := 0;
    for k := 0 to |s|
      invariant AllDigits(s[..k]) && index == Fold(0, s[..k])
    {
      if !IsDigit(s[k]) { return None; }
      assert s[..k + 1] == s[..k] + [s[k]];
      FoldSplit(0, s[..k], [s[k]]);
      index := Table(index, DigitOf(s[k]));
    }
    assert s[..|s|] == s;
    return Some(index);
  }

  lemma {:induction false} FoldSplit(from: Digit, s: string, t: string)
    requires AllDigits(s) && AllDigits(t)
    ensures AllDigits(s + t) && Fold(from, s + t) == Fold(Fold(from, s), t)
    decreases |s|
  {
    if s == [] {
      assert s + t == t;
    } else {
      assert (s + t)[1..] == s[1..] + t;
      FoldSplit(Table(from, DigitOf(s[0])), s[1..], t);
    }
  }

  // ----- what the table is: an anti-symmetric quasigroup with a zero diagonal

  lemma DiagonalIsZero(i: Digit)
    ensures Table(i, i) == 0
  {
  }

  lemma RowsAreInjective(i: Digit, a: Digit, b: Digit)
    ensures Table(i, a) == Table(i, b) ==> a == b
  {
  }

  lemma ColumnsAreInjective(i: Digit, j: Digit, n: Digit)
    ensures Table(i, n) == Table(j, n) ==> i == j
  {
  }

  lemma AntisymmetricBelow5(i: Digit, a: Digit, b: Digit)
    requires i < 5
    ensures Table(Table(i, a), b) == Table(Table(i, b), a) ==> a == b
  {
  }

  lemma AntisymmetricFrom5(i: Digit, a: Digit, b: Digit)
    requires i >= 5
    ensures Table(Table(i, a), b) == Table(Table(i, b), a) ==> a == b
  {
  }

  // ----- what the check digit detects, for strings of any length

  /** Different states stay different along the same digits. */
  lemma {:induction false} FoldInjective(i: Digit, j: Digit, s: string)
    requires AllDigits(s) && i != j
    ensures Fold(i, s) != Fold(j, s)
    decreases |s|
  {
    if s != [] {
      ColumnsAreInjective(i, j, DigitOf(s[0]));
      FoldInjective(Table(i, DigitOf(s[0])), Table(j, DigitOf(s[0])), s[1..]);
    }
  }

  /** A string that passes: its fold, check digit included, is zero. */
  predicate Passes(s: string) { AllDigits(s) && Fold(0, s) == 0 }

  /** Of the ten digits that can follow a string exactly one makes it pass: the computed one. */
  lemma CheckDigitIff(s: string, d: Digit)
    requires AllDigits(s)
    ensures Passes(s + [CharOf(d)]) <==> d == Fold(0, s)
  {
    FoldSplit(0, s, [CharOf(d)]);
    var i := Fold(0, s);
    assert Fold(i, [CharOf(d)]) == Table(i, d);
    DiagonalIsZero(i);
    RowsAreInjective(i, i, d);
  }

  /** Any single wrong digit makes a passing string fail. */
  lemma SingleErrorDetected(s: string, k: nat, c: char)
    requires Passes(s) && k < |s| && IsDigit(c) && c != s[k]
    ensures !Passes(s[k := c])
  {
    var before, after := s[..k], s[k + 1..];
    assert s == before + [s[k]] + after && s[k := c] == before + [c] + after;
    FoldSplit(0, before, [s[k]]);
    FoldSplit(0, before + [s[k]], after);
    FoldSplit(0, before, [c]);
    FoldSplit(0, before + [c], after);
    var i := Fold(0, before);
    RowsAreInjective(i, DigitOf(s[k]), DigitOf(c));
    FoldInjective(Table(i, DigitOf(s[k])), Table(i, DigitOf(c)), after);
  }

  /** So does any swap of two adjacent different digits. */
  lemma AdjacentSwapDetected(s: string, k: nat)
    requires Passes(s) && k + 1 < |s| && s[k] != s[k + 1]
    ensures !Passes(s[k := s[k + 1]][k + 1 := s[k]])
  {
    var a, b := s[k], s[k + 1];
    var before, after := s[..k], s[k + 2..];
    assert s == before + [a, b] + after && s[k := b][k + 1 := a] == before + [b, a] + after;
    FoldSplit(0, before, [a, b]);
    FoldSplit(0, before + [a, b], after);
    FoldSplit(0, before, [b, a]);
    FoldSplit(0, before + [b, a], after);
    var i := Fold(0, before);
    FoldTwo(i, a, b);
    FoldTwo(i, b, a);
    var x, y := DigitOf(a), DigitOf(b);
    if i < 5 { AntisymmetricBelow5(i, x, y); } else { AntisymmetricFrom5(i, x, y); }
    FoldInjective(Table(Table(i, x), y), Table(Table(i, y), x), after);
  }

  lemma FoldTwo(i: Digit, a: char, b: char)
    requires IsDigit(a) && IsDigit(b)
    ensures Fold(i, [a, b]) == Table(Table(i, DigitOf(a)), DigitOf(b))
  {
    assert [a, b][1..] == [b] && [b][1..] == [];
    assert Fold(i, [a, b]) == Fold(Table(i, DigitOf(a)), [b]);
  }
}
