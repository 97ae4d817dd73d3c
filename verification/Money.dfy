/** Printing paise and cents as amounts of money. */
module Money {
  import opened Options
  import opened Int64
  import opened Decimal

  /** n / 100 and n % 100 as Go computes them, truncating toward zero. */
  function Quot100(n: int64): int64 {
    var m: int := n;
    if m >= 0 then m / 100 else -(-m / 100)
  }

  function Rem100(n: int64): int64 {
    n - 100 * Quot100(n)
  }

  // ---------------------------------------------------------------------------
  // Digits and commas
  // ---------------------------------------------------------------------------

  /** What intToStr prints: the smallest int64 is its own negation, and prints as a bare minus sign. */
  function IntStr(n: int64): string {
    if n == 0 then "0"
    else if n > 0 then Digits(n)
    else if n == MIN then "-"
    else "-" + Digits(-n)
  }

  lemma Int64Fits(n: nat)
    requires n <= MAX
    ensures |Digits(n)| <= 19
  {
    assert Power10(5) == 100_000;
    assert Power10(10) == 10_000_000_000;
    assert Power10(15) == 1_000_000_000_000_000;
    assert Power10(19) == 10_000_000_000_000_000_000;
    DigitsFit(n, 19);
  }

  /** The loop of intToStr: writes digits from the end of the 32-byte buffer, and none unless n is positive. */
  method FillFromEnd(buf: array<char>, n0: int64) returns (i: nat)
    requires buf.Length == 32
    modifies buf
    ensures 13 <= i <= 32 && buf[i..] == if n0 > 0 then Digits(n0) else ""
  {
    hide Digits;
    var n: int := n0;
    i := buf.Length;
    if n <= 0 {
      return;
    }
    Int64Fits(n0);
    assert buf[i..] == "" && Digits(n0) + "" == Digits(n0);
    while n > 0
      invariant 0 <= n <= MAX && i <= 32
      invariant Digits(n0) == Digits(n) + buf[i..]
    {
      DigitsStep(n);
      ghost var done := buf[i..];
      assert |Digits(n0)| == |Digits(n)| + (32 - i);
      i := i - 1;
      buf[i] := CharOf(n % 10);
      assert buf[i..] == [CharOf(n % 10)] + done;
      Regroup(Digits(n / 10), [CharOf(n % 10)], done);
      n := n / 10;
    }
    DigitsOfZero();
    assert "" + buf[i..] == buf[i..];
  }

  lemma Regroup(a: string, b: string, c: string)
    ensures (a + b) + c == a + (b + c)
  {}

  lemma DigitsStep(n: nat)
    requires n > 0
    ensures Digits(n) == Digits(n / 10) + [CharOf(n % 10)]
  {}

  lemma DigitsOfZero()
    ensures Digits(0) == ""
  {}

  /** 19 digits and a sign never reach the start of the buffer. */
  method IntToStr(n0: int64) returns (s: string)
    ensures s == IntStr(n0)
  {
    hide Digits;
    var n := n0;
    if n == 0 {
      return "0";
    }
    var negative := n < 0;
    if negative {
      n := Wrap(-(n as int));
    }
    var buf := new char[32];
    var i := FillFromEnd(buf, n);
    if negative {
      ghost var done := buf[i..];
      i := i - 1;
      buf[i] := '-';
      assert buf[i..] == "-" + done;
    }
    return buf[i..];
  }

  /** Groups of three from the right. */
  function Grouped(s: string): string {
    if |s| <= 3 then s else Grouped(s[..|s| - 3]) + "," + s[|s| - 3..]
  }

  lemma GroupedSplit(a: string, b: string)
    requires a != "" && |b| == 3
    ensures Grouped(a + b) == Grouped(a) + ("," + b)
  {
    var s := a + b;
    assert s[..|s| - 3] == a && s[|s| - 3..] == b;
    assert Grouped(a) + "," + b == Grouped(a) + ("," + b);
  }

  /** Grouping seen from the left: a comma follows a digit that has a multiple of three after it. */
  lemma {:induction false} GroupedCons(c: char, s: string)
    ensures Grouped([c] + s) == [c] + (if s != "" && |s| % 3 == 0 then "," + Grouped(s) else Grouped(s))
  {
    if |s| >= 3 {
      hide Grouped;
      var front, back := s[..|s| - 3], s[|s| - 3..];
      assert [c] + s == ([c] + front) + back && s == front + back;
      GroupedSplit([c] + front, back);
      if front == "" {
        GroupedShort([c]);
        GroupedShort(s);
        assert [c] + front == [c];
      } else {
        GroupedCons(c, front);
        GroupedSplit(front, back);
        if |s| % 3 == 0 {
          Shuffle(c, ",", Grouped(front), "," + back);
        } else {
          Shuffle(c, "", Grouped(front), "," + back);
        }
      }
    }
  }

  lemma GroupedShort(s: string)
    requires |s| <= 3
    ensures Grouped(s) == s
  {}

  lemma Shuffle(c: char, comma: string, front: string, back: string)
    ensures ([c] + (comma + front)) + back == [c] + (comma + (front + back))
    ensures comma == "" ==> comma + front == front && comma + (front + back) == front + back
  {}

  method FormatIntWithCommas(n: int64) returns (r: string)
    ensures r == Grouped(IntStr(n))
  {
    if n == 0 {
      return "0";
    }
    var s := IntToStr(n);
    r := "";
    var i := |s| - 1;
    while i >= 0
      invariant -1 <= i < |s|
      invariant r == Grouped(s[i + 1..])
    {
      assert s[i..] == [s[i]] + s[i + 1..];
      GroupedCons(s[i], s[i + 1..]);
      if |s| - 1 - i > 0 && (|s| - 1 - i) % 3 == 0 {
        r := "," + r;
      }
      r := [s[i]] + r;
      i := i - 1;
    }
    assert s[0..] == s;
  }

  function TwoDigits(n: int64): string {
    if n < 10 then "0" + IntStr(n) else IntStr(n)
  }

  method PadTwoDigits(n: int64) returns (r: string)
    ensures r == TwoDigits(n)
    ensures 0 <= n < 100 ==> |r| == 2 && AllDigits(r) && Value(r) == n
  {
    hide Value;
    r := IntToStr(n);
    if n < 10 {
      r := "0" + r;
    }
    if 0 <= n < 100 {
      TwoDigitsReadBack(n);
    }
  }

  /** The printed form of an amount in hundredths. */
  function Money(amount: int64): string {
    var magnitude := if amount < 0 then Wrap(-(amount as int)) else amount;
    var unsigned := Grouped(IntStr(Quot100(magnitude))) + "." + TwoDigits(Rem100(magnitude));
    if amount < 0 then "-" + unsigned else unsigned
  }

  method FormatPaiseToINR(paise0: int64) returns (result: string)
    ensures result == Money(paise0)
    ensures paise0 >= 0 ==> Shaped(result, paise0)
    ensures MIN < paise0 < 0 ==> result[..1] == "-" && Shaped(result[1..], -paise0)
  {
    hide Grouped, IntStr, TwoDigits, Shaped;
    if paise0 != MIN {
      MoneyShape(paise0);
    }
    var paise := paise0;
    var negative := paise < 0;
    if negative {
      paise := Wrap(-(paise as int));
    }
    var rupees, paiseRemainder := Quot100(paise), Rem100(paise);
    var rs := FormatIntWithCommas(rupees);
    var pad := PadTwoDigits(paiseRemainder);
    result := rs + "." + pad;
    if negative {
      result := "-" + result;
    }
  }

  method FormatPaiseToUSD(cents0: int64) returns (result: string)
    ensures result == Money(cents0)
    ensures cents0 >= 0 ==> Shaped(result, cents0)
    ensures MIN < cents0 < 0 ==> result[..1] == "-" && Shaped(result[1..], -cents0)
  {
    hide Grouped, IntStr, TwoDigits, Shaped;
    if cents0 != MIN {
      MoneyShape(cents0);
    }
    var cents := cents0;
    var negative := cents < 0;
    if negative {
      cents := Wrap(-(cents as int));
    }
    var dollars, centsRemainder := Quot100(cents), Rem100(cents);
    var ds := FormatIntWithCommas(dollars);
    var pad := PadTwoDigits(centsRemainder);
    result := ds + "." + pad;
    if negative {
      result := "-" + result;
    }
  }

  // ---------------------------------------------------------------------------
  // Reading back
  // ---------------------------------------------------------------------------

  function WithoutCommas(s: string): string {
    if s == "" then ""
    else WithoutCommas(s[..|s| - 1]) + if s[|s| - 1] == ',' then "" else [s[|s| - 1]]
  }

  /** Digits with commas, a point, two digits. */
  function ReadMagnitude(s: string): Option<int> {
    if |s| < 4 || s[|s| - 3] != '.' then None
    else
      var whole, hundredths := WithoutCommas(s[..|s| - 3]), s[|s| - 2..];
      if whole != "" && AllDigits(whole) && AllDigits(hundredths) then
        Some(Value(whole) * 100 + Value(hundredths))
      else None
  }

  /** Reads a printed amount without looking at how it was printed. */
  function Read(s: string): Option<int> {
    if s != "" && s[0] == '-' then
      match ReadMagnitude(s[1..])
      case None => None
      case Some(n) => Some(-n)
    else
      match ReadMagnitude(s)
      case None => None
      case Some(n) => Some(n)
  }

  lemma {:induction false} WithoutCommasConcat(a: string, b: string)
    ensures WithoutCommas(a + b) == WithoutCommas(a) + WithoutCommas(b)
  {
    if b == "" {
      assert a + b == a;
    } else {
      assert (a + b)[..|a + b| - 1] == a + b[..|b| - 1];
      WithoutCommasConcat(a, b[..|b| - 1]);
    }
  }

  lemma {:induction false} DigitsHaveNoCommas(s: string)
    requires AllDigits(s)
    ensures WithoutCommas(s) == s
  {
    if s != "" {
      DigitsHaveNoCommas(s[..|s| - 1]);
    }
  }

  /** Removing the commas undoes the grouping. */
  lemma {:induction false} GroupingLosesNothing(s: string)
    requires AllDigits(s)
    ensures WithoutCommas(Grouped(s)) == s
  {
    if |s| <= 3 {
      DigitsHaveNoCommas(s);
    } else {
      hide WithoutCommas;
      var front, back := s[..|s| - 3], s[|s| - 3..];
      GroupingLosesNothing(front);
      DigitsHaveNoCommas(back);
      WithoutCommasConcat(Grouped(front) + ",", back);
      WithoutCommasConcat(Grouped(front), ",");
      CommaVanishes();
      assert Grouped(s) == (Grouped(front) + ",") + back;
      assert front + "" == front && s == front + back;
    }
  }

  lemma CommaVanishes()
    ensures WithoutCommas(",") == ""
  {
    assert ","[..0] == "";
  }

  /** Counting places from the right, every fourth is a comma and no other is. */
  lemma {:induction false} CommasEveryThreeDigits(s: string, j: nat)
    requires AllDigits(s) && j < |Grouped(s)|
    ensures FromRight(Grouped(s), j) == ',' <==> j % 4 == 3
  {
    if |s| > 3 {
      var front, back := s[..|s| - 3], s[|s| - 3..];
      assert Grouped(s) == (Grouped(front) + ",") + back;
      hide Grouped;
      FromRightConcat(Grouped(front) + ",", back, j);
      if j >= 3 {
        FromRightConcat(Grouped(front), ",", j - 3);
      }
      if j >= 4 {
        hide FromRight;
        CommasEveryThreeDigits(front, j - 4);
      }
    }
  }

  function FromRight(s: string, j: nat): char
    requires j < |s|
  {
    s[|s| - 1 - j]
  }

  lemma FromRightConcat(a: string, b: string, j: nat)
    requires j < |a + b|
    ensures FromRight(a + b, j) == if j < |b| then FromRight(b, j) else FromRight(a, j - |b|)
  {}

  lemma {:induction false} GroupedStartsAlike(s: string)
    requires s != ""
    ensures Grouped(s) != "" && Grouped(s)[0] == s[0]
  {
    if |s| > 3 {
      GroupedStartsAlike(s[..|s| - 3]);
    }
  }

  lemma ValueOfTwo(a: char, b: char)
    requires IsDigit(a) && IsDigit(b)
    ensures Value([a, b]) == DigitOf(a) * 10 + DigitOf(b)
  {
    assert [a, b][..1] == [a] && [a][..0] == "";
    assert Value([a]) == DigitOf(a);
  }

  lemma TwoDigitsAre(n: int64)
    requires 0 <= n < 100
    ensures TwoDigits(n) == [CharOf(n / 10), CharOf(n % 10)]
  {
    hide Digits;
    DigitsOfZero();
    if n > 0 {
      DigitsStep(n);
    }
    if n >= 10 {
      DigitsStep(n / 10);
    }
  }

  lemma TwoDigitsReadBack(n: int64)
    requires 0 <= n < 100
    ensures var s := TwoDigits(n);
            |s| == 2 && AllDigits(s) && Value(s) == n
  {
    hide Value;
    TwoDigitsAre(n);
    ValueOfTwo(CharOf(n / 10), CharOf(n % 10));
  }

  lemma PartsReadBack(whole: string, hundredths: string)
    requires whole != "" && AllDigits(whole) && |hundredths| == 2 && AllDigits(hundredths)
    ensures var s := Grouped(whole) + "." + hundredths;
            ReadMagnitude(s) == Some(Value(whole) * 100 + Value(hundredths)) && s[0] == whole[0]
  {
    hide Value;
    var s := Grouped(whole) + "." + hundredths;
    GroupingLosesNothing(whole);
    GroupedStartsAlike(whole);
    assert s[..|s| - 3] == Grouped(whole) && s[|s| - 2..] == hundredths;
  }

  /** The printed form without the sign. */
  function Unsigned(n: nat): string
    requires n <= MAX
  {
    Grouped(IntStr(n / 100)) + "." + TwoDigits(n % 100)
  }

  lemma MagnitudeReadsBack(n: nat)
    requires n <= MAX
    ensures var s := Unsigned(n);
            s != "" && ReadMagnitude(s) == Some(n) && s[0] != '-'
  {
    hide Value, Grouped, TwoDigits, ReadMagnitude;
    assert IntStr(n / 100) == Show(n / 100);
    ValueOfShow(n / 100);
    TwoDigitsReadBack(n % 100);
    PartsReadBack(Show(n / 100), TwoDigits(n % 100));
  }

  /** The smallest amount prints with a second and a third minus sign, which no reader accepts. */
  lemma SmallestIsUnreadable()
    ensures Read(Money(MIN)) == None
  {
    var magnitude := Wrap(-MIN);
    assert magnitude == MIN;
    assert Rem100(magnitude) == -8;
    assert TwoDigits(-8) == "0-8" by {
      assert Digits(8) == Digits(0) + [CharOf(8)] == "8";
    }
    var s := Money(MIN);
    assert s[|s| - 3..] == "0-8";
    assert s[|s| - 3] == s[|s| - 3..][0];
    assert |s| >= 5;
    assert s[1..][|s[1..]| - 3] == '0';
  }

  /** In full: the unit and the sign are those of the smallest int64, which stays negative. */
  lemma SmallestPrints()
    ensures Money(MIN) == "-" + Grouped("-" + Show(92_233_720_368_547_758)) + ".0-8"
  {
    hide Grouped, Digits;
    assert Wrap(-MIN) == MIN && Quot100(MIN) == -92_233_720_368_547_758 && Rem100(MIN) == -8;
    assert TwoDigits(-8) == "0-8" by {
      DigitsStep(8);
      DigitsOfZero();
    }
    hide IntStr, TwoDigits;
    var g := Grouped("-" + Show(92_233_720_368_547_758));
    assert IntStr(-92_233_720_368_547_758) == "-" + Show(92_233_720_368_547_758) by {
      NegativeShows(92_233_720_368_547_758);
    }
    assert "-" + (g + "." + "0-8") == "-" + g + ".0-8";
  }

  lemma NegativeShows(n: int64)
    requires n > 0
    ensures IntStr(-n) == "-" + Show(n)
  {
    hide Digits;
  }

  /** Every int64 but the smallest is printed as its digits, without a zero in front, and its sign. */
  lemma IntStrReads(n: int64)
    requires n != MIN
    ensures var s := if n < 0 then IntStr(n)[1..] else IntStr(n);
            && (n < 0 ==> IntStr(n)[..1] == "-")
            && AllDigits(s) && Value(s) == (if n < 0 then -n else n)
            && s != "" && (s[0] == '0' ==> s == "0")
  {
    hide Digits, Value;
    var m: nat := if n < 0 then -n else n;
    ValueOfShow(m);
    if n < 0 {
      NegativeShows(m);
      assert ("-" + Show(m))[1..] == Show(m) && ("-" + Show(m))[..1] == "-";
    }
    if m > 0 {
      NoZeroInFront(m);
    }
  }

  lemma {:induction false} NoZeroInFront(n: nat)
    requires n > 0
    ensures Digits(n) != "" && Digits(n)[0] != '0'
  {
    if n >= 10 {
      NoZeroInFront(n / 10);
    }
  }

  /** Printing loses nothing, for every int64 except the smallest. */
  lemma MoneyReadsBack(amount: int64)
    ensures Read(Money(amount)) == Some(amount) <==> amount != MIN
  {
    if amount == MIN {
      SmallestIsUnreadable();
    } else {
      hide ReadMagnitude, Money, Unsigned;
      var n := if amount < 0 then -amount else amount;
      MagnitudeReadsBack(n);
      MoneyIsSigned(amount, n);
      if amount < 0 {
        assert ("-" + Unsigned(n))[1..] == Unsigned(n);
      }
    }
  }

  lemma MoneyIsSigned(amount: int64, n: nat)
    requires amount != MIN && n == if amount < 0 then -amount else amount
    ensures Money(amount) == if amount < 0 then "-" + Unsigned(n) else Unsigned(n)
  {
    hide Grouped, IntStr, TwoDigits;
    assert Quot100(n) == n / 100 && Rem100(n) == n % 100;
  }

  /**
   Read from the right: two digits, a point, then the digits of the whole amount with a comma in every
   fourth place and in no other.
   */
  predicate Shaped(s: string, n: nat) {
    && |s| >= 4 && s[|s| - 3] == '.'
    && s[|s| - 2..] == [CharOf(n / 10 % 10), CharOf(n % 10)]
    && WithoutCommas(s[..|s| - 3]) == Show(n / 100)
    && forall j: nat | j < |s| - 3 :: FromRight(s[..|s| - 3], j) == ',' <==> j % 4 == 3
  }

  lemma UnsignedShape(n: nat)
    requires n <= MAX
    ensures Shaped(Unsigned(n), n)
  {
    hide Grouped, Digits, FromRight, WithoutCommas, TwoDigits, CharOf;
    var whole, last := Show(n / 100), TwoDigits(n % 100);
    assert IntStr(n / 100) == whole;
    hide IntStr, Show;
    TwoDigitsAre(n % 100);
    assert n % 100 / 10 == n / 10 % 10 && n % 100 % 10 == n % 10;
    GroupedStartsAlike(whole);
    GroupingLosesNothing(whole);
    CommasInGroups(whole);
    CutAtPoint(Grouped(whole), last);
  }

  lemma CommasInGroups(s: string)
    requires AllDigits(s)
    ensures forall j: nat | j < |Grouped(s)| :: FromRight(Grouped(s), j) == ',' <==> j % 4 == 3
  {
    hide Grouped, FromRight;
    forall j: nat | j < |Grouped(s)|
      ensures FromRight(Grouped(s), j) == ',' <==> j % 4 == 3
    {
      CommasEveryThreeDigits(s, j);
    }
  }

  lemma CutAtPoint(whole: string, last: string)
    requires |last| == 2
    ensures var s := whole + "." + last;
            s[..|s| - 3] == whole && s[|s| - 3] == '.' && s[|s| - 2..] == last
  {}

  /** Every amount but the smallest is printed so, with a minus sign in front of negative ones. */
  lemma MoneyShape(amount: int64)
    requires amount != MIN
    ensures amount >= 0 ==> Shaped(Money(amount), amount)
    ensures amount < 0 ==> Money(amount)[..1] == "-" && Shaped(Money(amount)[1..], -amount)
  {
    hide Money, Unsigned, Shaped;
    var n: nat := if amount < 0 then -amount else amount;
    MoneyIsSigned(amount, n);
    UnsignedShape(n);
    assert ("-" + Unsigned(n))[..1] == "-" && ("-" + Unsigned(n))[1..] == Unsigned(n);
  }

  /** The examples of the source's comments, and an amount below one. */
  lemma KnownAmounts()
    ensures Money(199900) == "1,999.00" && Money(2900) == "29.00" && Money(-5) == "-0.05"
  {
    hide Money, Grouped, IntStr, TwoDigits;
    MoneyIsSigned(199900, 199900);
    MoneyIsSigned(2900, 2900);
    MoneyIsSigned(-5, 5);
    KnownParts();
    KnownGroups();
  }

  lemma KnownGroups()
    ensures Grouped("1999") == "1,999" && Grouped("29") == "29" && Grouped("0") == "0"
  {
    assert "1999" == "1" + "999";
    GroupedSplit("1", "999");
    GroupedShort("1");
    GroupedShort("29");
    GroupedShort("0");
  }

  lemma KnownParts()
    ensures IntStr(1999) == "1999" && IntStr(29) == "29" && IntStr(0) == "0"
    ensures TwoDigits(0) == "00" && TwoDigits(5) == "05"
  {
    hide Digits;
    TwoDigitsAre(0);
    TwoDigitsAre(5);
    TwoDigitsAre(19);
    DigitsOfZero();
    DigitsStep(1);
    DigitsStep(19);
    DigitsStep(199);
    DigitsStep(1999);
    DigitsStep(2);
    DigitsStep(29);
  }

  /** Different amounts print differently. */
  lemma MoneyIsInjective(a: int64, b: int64)
    requires Money(a) == Money(b)
    ensures a == b
  {
    MoneyReadsBack(a);
    MoneyReadsBack(b);
    SmallestIsUnreadable();
  }
}
