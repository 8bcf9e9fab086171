/** Gateway identifiers: a version digit, data digits and a check digit, kept as one 64-bit number
    (base/src/model/GatewayID.cpp, GatewayID.h). */
module GatewayId {
  import opened Basics
  import opened Damm

  const LENGTH := 16
  const LIMIT64: nat := 0x1_0000_0000_0000_0000
  const DATA_LIMIT: nat := 100_000_000_000_000

  type Word = n: int | 0 <= n < LIMIT64

  datatype GatewayID = GatewayID(value: Word)
  {
    function ToString(): string { Decimal(value) }

    function Version(): int { DigitOf(Decimal(value)[0]) }

    function Data(): Option<Word> { Parse64(Decimal(value / 10)[1..]) }
  }

  /** std::to_string */
  function Decimal(n: nat): (s: string)
    ensures s != [] && AllDigits(s)
  {
    if n < 10 then [CharOf(n)] else Decimal(n / 10) + [CharOf(n % 10)]
  }

  /** The number that a string of digits denotes. */
  function Value(s: string): nat
    requires AllDigits(s)
  {
    if s == [] then 0 else 10 * Value(s[..|s| - 1]) + DigitOf(s[|s| - 1])
  }

  /** NumberParser::parseUnsigned64: an exception, here None, when it is no number or none of 64 bits. */
  function Parse64(s: string): Option<Word> {
    if s != [] && AllDigits(s) && Value(s) < LIMIT64 then Some(Value(s)) else None
  }

  function Zeros(k: nat): (s: string)
    ensures |s| == k && AllDigits(s)
  {
    if k == 0 then [] else Zeros(k - 1) + ['0']
  }

  /** format("%014Lu", n): at least 14 digits. */
  function Padded(n: nat): (s: string)
    ensures AllDigits(s) && |s| >= 14
  {
    var d := Decimal(n);
    if |d| < 14 then Zeros(14 - |d|) + d else d
  }

  /** Version, data and check digit, as the constructor puts them together. */
  function Text(version: Digit, data: nat): (s: string)
    ensures AllDigits(s)
  {
    var tmp := Decimal(version) + Padded(data);
    tmp + Decimal(Fold(0, tmp))
  }

  function Construct(version: int, data: Word): Option<GatewayID> {
    if version <= 0 || version >= 10 then None
    else match Parse64(Text(version, data)) case None => None case Some(value) => Some(GatewayID(value))
  }

  function Parse(s: string): Option<GatewayID> {
    if |s| != LENGTH then None
    else if !IsDigit(s[0]) then None
    else if DigitOf(s[0]) == 0 then None
    else
      var data := Parse64(s[1..|s| - 1]);
      if data.None? then None
      else if !IsDigit(s[|s| - 1]) then None
      else if !AllDigits(s[..|s| - 1]) then None  // thrown by DAMM::compute
      else if Fold(0, s[..|s| - 1]) != DigitOf(s[|s| - 1]) then None
      else Construct(DigitOf(s[0]), data.value)
  }

  // ----- numbers and digits

  function Power(k: nat): (p: nat)
    ensures p > 0
  {
    if k == 0 then 1 else 10 * Power(k - 1)
  }

  lemma {:induction false} ValueSplit(s: string, t: string)
    requires AllDigits(s) && AllDigits(t)
    ensures AllDigits(s + t) && Value(s + t) == Value(s) * Power(|t|) + Value(t)
    decreases |t|
  {
    if t == [] {
      assert s + t == s;
    } else {
      var front, last := t[..|t| - 1], t[|t| - 1];
      ValueSplit(s, front);
      assert (s + t)[..|s + t| - 1] == s + front;
      assert Value(s) * Power(|t|) == 10 * (Value(s) * Power(|front|));
    }
  }

  lemma {:induction false} ValueBelow(s: string)
    requires AllDigits(s)
    ensures Value(s) < Power(|s|)
    decreases |s|
  {
    if s != [] { ValueBelow(s[..|s| - 1]); }
  }

  lemma {:induction false} ValueOfDecimal(n: nat)
    ensures Value(Decimal(n)) == n
  {
    if n < 10 {
      assert Decimal(n) == [CharOf(n)] && [CharOf(n)][..0] == [];
    } else {
      ValueOfDecimal(n / 10);
      assert Decimal(n)[..|Decimal(n)| - 1] == Decimal(n / 10);
    }
  }

  lemma {:induction false} DecimalOfValue(s: string)
    requires s != [] && AllDigits(s) && s[0] != '0'
    ensures Value(s) > 0 && Decimal(Value(s)) == s
    decreases |s|
  {
    var front, last := s[..|s| - 1], s[|s| - 1];
    assert CharOf(DigitOf(last)) == last;
    if |s| == 1 {
      assert Value(front) == 0 && s == [last];
    } else {
      DecimalOfValue(front);
      assert Value(s) / 10 == Value(front) && Value(s) % 10 == DigitOf(last);
      assert s == front + [last];
    }
  }

  lemma {:induction false} ZerosAreZero(k: nat)
    ensures Value(Zeros(k)) == 0
  {
    if k > 0 {
      ZerosAreZero(k - 1);
      assert Zeros(k)[..k - 1] == Zeros(k - 1);
    }
  }

  lemma {:induction false} DecimalLength(n: nat)
    ensures n >= 10 ==> n >= Power(|Decimal(n)| - 1)
    ensures n < Power(|Decimal(n)|)
  {
    if n >= 10 {
      DecimalLength(n / 10);
      if n / 10 < 10 { assert |Decimal(n / 10)| == 1; }
    }
  }

  lemma Powers()
    ensures Power(14) == DATA_LIMIT
  {
    assert Power(4) == 10_000;
    assert Power(9) == 1_000_000_000;
    assert Power(13) == 10_000_000_000_000;
  }

  lemma {:induction false} PowerMonotone(j: nat, k: nat)
    requires j <= k
    ensures Power(j) <= Power(k)
    decreases k
  {
    if j < k { PowerMonotone(j, k - 1); }
  }

  lemma PaddedValue(n: nat)
    ensures Value(Padded(n)) == n
  {
    ValueOfDecimal(n);
    if |Decimal(n)| < 14 { ZerosAddNothing(14 - |Decimal(n)|, Decimal(n)); }
  }

  lemma ZerosAddNothing(k: nat, s: string)
    requires AllDigits(s)
    ensures AllDigits(Zeros(k) + s) && Value(Zeros(k) + s) == Value(s)
  {
    ZerosAreZero(k);
    ValueSplit(Zeros(k), s);
    assert Value(Zeros(k)) * Power(|s|) == 0;
  }

  lemma PaddedLength(n: nat)
    ensures |Padded(n)| == 14 <==> n < DATA_LIMIT
  {
    var k := |Decimal(n)|;
    DecimalLength(n);
    Powers();
    if k <= 14 { PowerMonotone(k, 14); } else { PowerMonotone(14, k - 1); }
  }

  /** Digits of the right number and length are the padded number. */
  lemma PaddedUnique(s: string)
    requires AllDigits(s) && |s| == 14
    ensures Padded(Value(s)) == s
  {
    ValueBelow(s);
    Powers();
    PaddedLength(Value(s));
    PaddedValue(Value(s));
    SameLengthSameValue(Padded(Value(s)), s);
  }

  lemma {:induction false} SameLengthSameValue(s: string, t: string)
    requires AllDigits(s) && AllDigits(t) && |s| == |t| && Value(s) == Value(t)
    ensures s == t
    decreases |s|
  {
    if s != [] {
      var last := |s| - 1;
      SameLengthSameValue(s[..last], t[..last]);
      assert DigitOf(s[last]) == DigitOf(t[last]);
      assert s == s[..last] + [s[last]] && t == t[..last] + [t[last]];
    }
  }

  // ----- main results

  /** The parts of an identifier's text. */
  lemma TextParts(version: Digit, data: nat)
    ensures var s := Text(version, data);
      && s == [CharOf(version)] + Padded(data) + [CharOf(Fold(0, s[..|s| - 1]))]
      && Passes(s) && DigitOf(s[0]) == version && s[1..|s| - 1] == Padded(data)
  {
    var front := Decimal(version) + Padded(data);
    var check := Fold(0, front);
    var s := Text(version, data);
    assert Decimal(version) == [CharOf(version)] && Decimal(check) == [CharOf(check)];
    assert s == front + [CharOf(check)] && s[..|s| - 1] == front;
    CheckDigitIff(front, check);
    assert s[0] == CharOf(version) && s[1..|s| - 1] == Padded(data);
  }

  /** Whatever the constructor is given, when it makes an identifier, the identifier prints as its text and
      version() and data() return the constructor's arguments. */
  lemma ConstructedParts(version: int, data: Word)
    requires Construct(version, data).Some?
    ensures var id := Construct(version, data).value;
      id.ToString() == Text(version, data) && id.Version() == version && id.Data() == Some(data)
  {
    var s := Text(version, data);
    TextParts(version, data);
    DecimalOfValue(s);
    FrontOfText(s);
    assert s[..|s| - 1][1..] == Padded(data);
    PaddedValue(data);
  }

  /** Dividing by ten takes the last digit off the text. */
  lemma FrontOfText(s: string)
    requires |s| >= 2 && AllDigits(s) && s[0] != '0'
    ensures Decimal(Value(s) / 10) == s[..|s| - 1]
  {
    var front, last := s[..|s| - 1], DigitOf(s[|s| - 1]);
    assert front[0] == s[0];
    DecimalOfValue(front);
    DropLast(Value(front), last);
    assert Value(s) == 10 * Value(front) + last;
  }

  lemma DropLast(n: nat, d: Digit)
    ensures (10 * n + d) / 10 == n
  {
  }

  /** Distinct arguments make distinct identifiers. */
  lemma ConstructInjective(v: int, d: Word, w: int, e: Word)
    requires Construct(v, d).Some? && Construct(v, d) == Construct(w, e)
    ensures v == w && d == e
  {
    ConstructedParts(v, d);
    ConstructedParts(w, e);
  }

  /** The constructor accepts a version from 1 to 9 with any data that fits the format. */
  lemma ConstructAccepts(version: int, data: Word)
    requires data < DATA_LIMIT
    ensures Construct(version, data).Some? <==> 1 <= version <= 9
    ensures Construct(version, data).Some? ==> |Construct(version, data).value.ToString()| == LENGTH
  {
    if 1 <= version <= 9 {
      var s := Text(version, data);
      TextParts(version, data);
      PaddedLength(data);
      ValueBelow(s);
      assert Power(16) == 100 * Power(14) by { Powers(); }
      Powers();
      ConstructedParts(version, data);
    }
  }

  /** parse() accepts exactly the strings of 16 digits whose first is not zero and whose last is the
      check digit of the others. */
  lemma ParseAcceptsIff(s: string)
    ensures Parse(s).Some? <==> |s| == LENGTH && AllDigits(s) && s[0] != '0' && Passes(s)
    ensures Parse(s).Some? ==> Parse(s).value.ToString() == s
  {
    if |s| == LENGTH {
      var front, last := s[..|s| - 1], s[|s| - 1];
      assert s == front + [last];
      if AllDigits(s) {
        assert CharOf(DigitOf(last)) == last;
        CheckDigitIff(front, DigitOf(last));
        if s[0] != '0' && Passes(s) { ParseAccepts(s); }
      }
      if Parse(s).Some? {
        assert forall c | c in s :: c in front || c == last;
        ParseAccepts(s);
      }
    }
  }

  lemma ParseAccepts(s: string)
    requires |s| == LENGTH && AllDigits(s) && s[0] != '0' && Fold(0, s[..|s| - 1]) == DigitOf(s[|s| - 1])
    ensures Parse(s).Some? && Parse(s).value.ToString() == s
  {
    var middle, version := s[1..|s| - 1], DigitOf(s[0]);
    ValueBelow(middle);
    Powers();
    PaddedUnique(middle);
    var data := Value(middle);
    assert Parse64(middle) == Some(data);
    TextIs(s, version, data);
    ConstructAccepts(version, data);
    ConstructedParts(version, data);
  }

  lemma TextIs(s: string, version: Digit, data: nat)
    requires |s| >= 2 && AllDigits(s) && version == DigitOf(s[0]) && s[1..|s| - 1] == Padded(data)
    requires Fold(0, s[..|s| - 1]) == DigitOf(s[|s| - 1])
    ensures Text(version, data) == s
  {
    var front, last := s[..|s| - 1], s[|s| - 1];
    assert CharOf(version) == s[0] && CharOf(DigitOf(last)) == last;
    assert Decimal(version) == [s[0]] && Decimal(DigitOf(last)) == [last];
    assert front == [s[0]] + Padded(data) && s == front + [last];
  }

  /** An identifier the constructor made comes back from its own text if and only if its data fits the 14
      digits of the format. */
  lemma RoundTripIff(version: int, data: Word)
    requires Construct(version, data).Some?
    ensures Parse(Construct(version, data).value.ToString()) == Construct(version, data) <==> data < DATA_LIMIT
  {
    var s := Text(version, data);
    ConstructedParts(version, data);
    TextParts(version, data);
    PaddedLength(data);
    PaddedValue(data);
    if data < DATA_LIMIT {
      ParseAccepts(s);
      assert Parse64(s[1..|s| - 1]) == Some(data);
    }
  }

  /** random(), given the 14 digits that the generator returns: always an identifier that parses. */
  method Random(version: int, rolls: seq<Digit>) returns (id: Option<GatewayID>)
    requires |rolls| == LENGTH - 2
    ensures id.Some? <==> 1 <= version <= 9
    ensures id.Some? ==> id.value.Version() == version && Parse(id.value.ToString()) == id
    ensures id.Some? ==>
      id.value.ToString()[1..LENGTH - 1] == seq(|rolls|, k requires 0 <= k < |rolls| => CharOf(rolls[k]))
  {
    var data: nat := 0;
    ghost var digits: string := [];
    for i := 0 to |rolls|
      invariant |digits| == i && AllDigits(digits) && data == Value(digits)
      invariant forall k | 0 <= k < i :: digits[k] == CharOf(rolls[k])
    {
      data := data * 10;
      data := data + rolls[i];
      digits := digits + [CharOf(rolls[i])];
      assert digits[..i] + [CharOf(rolls[i])] == digits;
    }
    ValueBelow(digits);
    Powers();
    PaddedUnique(digits);
    id := Construct(version, data);
    ConstructAccepts(version, data);
    if id.Some? {
      ConstructedParts(version, data);
      TextParts(version, data);
      RoundTripIff(version, data);
    }
  }
}
