/**
 Reading a pin number out of a configuration string such as "GPIO_NUM_12": GetPinIndexFromStr in
 niobeu4/liteos_m/hdf_drivers/gpio/gpio_esp32u4.c and, word for word, niobeu4/liteos_m/hdf_drivers/pwm/pwm_esp32u4.c.
 */
module PinIndex {
  import opened Machine

  const GPIO_NUM_NC: int := -1
  const PREFIX: string := "GPIO_NUM_"

  const INT_MIN: int := -0x8000_0000
  const INT_MAX: int := 0x7FFF_FFFF

  predicate IsDigit(c: char) {
    '0' <= c <= '9'
  }

  predicate AllDigits(s: string) {
    forall i :: 0 <= i < |s| ==> IsDigit(s[i])
  }

  /** The positional value of `s`; a character below '0' counts negatively. */
  function Numeral(s: string): int {
    if s == [] then 0 else 10 * Numeral(s[..|s| - 1]) + (s[|s| - 1] as int - '0' as int)
  }

  predicate InInt(x: int) {
    INT_MIN <= x <= INT_MAX
  }

  /** No intermediate result of reading all of `s` leaves the C type int. */
  predicate Fits(s: string) {
    s == [] || (Fits(s[..|s| - 1]) && InInt(10 * Numeral(s[..|s| - 1])) && InInt(Numeral(s)))
  }

  /** Where reading `s` stops: at the first character above '9', or at the end. */
  function Stop(s: string): (n: nat)
    ensures n <= |s| && forall j :: 0 <= j < n ==> s[j] <= '9'
    ensures n < |s| ==> s[n] > '9'
  {
    if s == [] || s[0] > '9' then 0 else 1 + Stop(s[1..])
  }

  /** Reading `s` overflows nowhere before it stops; an illegal character is noticed after the multiplication. */
  predicate NoOverflow(s: string) {
    var n := Stop(s);
    Fits(s[..n]) && (n < |s| ==> InInt(10 * Numeral(s[..n])))
  }

  lemma {:induction false} FitsPrefix(s: string, k: nat)
    requires Fits(s) && k <= |s|
    ensures Fits(s[..k]) && InInt(Numeral(s[..k])) && (k < |s| ==> InInt(10 * Numeral(s[..k])))
  {
    assert s[..|s|] == s;
    if k < |s| {
      FitsPrefix(s[..|s| - 1], k);
      assert s[..|s| - 1][..k] == s[..k];
    }
  }

  lemma NumeralSnoc(tail: string, i: nat)
    requires i < |tail|
    ensures Numeral(tail[..0]) == 0
    ensures Numeral(tail[..i + 1]) == 10 * Numeral(tail[..i]) + (tail[i] as int - '0' as int)
  {
    assert tail[..i + 1][..i] == tail[..i];
  }

  /** One turn of the reading loop stays within int, up to the character that stops it. */
  lemma OneCharacter(tail: string, i: nat)
    requires NoOverflow(tail) && i <= Stop(tail) && i < |tail|
    ensures InInt(10 * Numeral(tail[..i]))
    ensures i < Stop(tail) ==> InInt(Numeral(tail[..i + 1]))
  {
    hide Numeral, Fits, InInt;
    var read := tail[..Stop(tail)];
    assert read[..i] == tail[..i];
    FitsPrefix(read, i);
    if i < Stop(tail) {
      assert read[..i + 1] == tail[..i + 1];
      FitsPrefix(read, i + 1);
    }
  }

  /** What a tail is read as: None when it is rejected. */
  function Read(tail: string): Option<int> {
    if Stop(tail) < |tail| then None else Some(Numeral(tail))
  }

  /** The index a string stands for. */
  function PinOf(str: Option<string>): int {
    if str == None || |str.value| < 10 then GPIO_NUM_NC
    else match Read(str.value[9..])
      case None => GPIO_NUM_NC
      case Some(n) => n
  }

  type Int32 = x: int | InInt(x) witness 0

  method GetPinIndexFromStr(str: Option<string>) returns (pinIndex: Int32)
    requires str.Some? && |str.value| >= 10 ==> NoOverflow(str.value[9..])
    ensures pinIndex == PinOf(str)
  {
    if str == None {
      return GPIO_NUM_NC;
    }
    if |str.value| < 10 {
      return GPIO_NUM_NC;
    }
    var tail := str.value[9..];
    ghost var stop := Stop(tail);
    pinIndex := 0;
    for i := 0 to |tail|
      invariant i <= stop
      invariant pinIndex == Numeral(tail[..i])
    {
      hide Numeral, NoOverflow;
      NumeralSnoc(tail, i);
      OneCharacter(tail, i);
      if i != 0 {
        pinIndex := 10 * pinIndex;
      }
      var num: int := tail[i] as int - '0' as int;
      if num >= 10 {
        return GPIO_NUM_NC;
      }
      pinIndex := pinIndex + num;
    }
    assert tail[..|tail|] == tail;
  }

  /** For digits a prefix has no larger value, so it is enough that the value itself fits. */
  lemma {:induction false} DigitsFitIff(s: string)
    requires AllDigits(s)
    ensures Numeral(s) >= 0 && (Fits(s) <==> Numeral(s) <= INT_MAX)
  {
    if s != [] {
      assert AllDigits(s[..|s| - 1]);
      DigitsFitIff(s[..|s| - 1]);
    }
  }

  /** Digits are read to their end, and overflow nowhere exactly when their value fits. */
  lemma DigitsReadIff(s: string)
    requires AllDigits(s)
    ensures Read(s) == Some(Numeral(s)) && (NoOverflow(s) <==> Numeral(s) <= INT_MAX)
  {
    DigitsFitIff(s);
    assert s[..|s|] == s;
  }

  /** The usual decimal form. */
  function Decimal(n: nat): (s: string)
    ensures |s| > 0
  {
    if n < 10 then [('0' as int + n) as char] else Decimal(n / 10) + [('0' as int + n % 10) as char]
  }

  /** Reading a decimal form back gives the number. */
  lemma {:induction false} NumeralInvertsDecimal(n: nat)
    ensures AllDigits(Decimal(n)) && Numeral(Decimal(n)) == n
  {
    if n >= 10 {
      NumeralInvertsDecimal(n / 10);
      var s := Decimal(n);
      assert s[..|s| - 1] == Decimal(n / 10);
    } else {
      assert Decimal(n)[..0] == [];
    }
  }

  /** Every printed pin number comes back: its string has an accepted length, does not overflow, and stands for n. */
  lemma PrintedPinsComeBack(n: nat)
    requires n <= INT_MAX
    ensures var str := PREFIX + Decimal(n); |str| >= 10 && NoOverflow(str[9..]) && PinOf(Some(str)) == n
  {
    NumeralInvertsDecimal(n);
    DigitsReadIff(Decimal(n));
    assert (PREFIX + Decimal(n))[9..] == Decimal(n);
  }

  /** The intended reading: the number when the tail is a digit string, "not connected" otherwise. */
  function Intended(tail: string): int {
    if AllDigits(tail) then Numeral(tail) else GPIO_NUM_NC
  }

  /** NULL and strings shorter than "GPIO_NUM_" and one more character stand for no pin. */
  lemma TooShortIsNoPin(str: Option<string>)
    requires str == None || |str.value| < |PREFIX| + 1
    ensures PinOf(str) == GPIO_NUM_NC
  {
  }

  ghost predicate HasAboveNine(tail: string) {
    exists i :: 0 <= i < |tail| && tail[i] > '9'
  }

  ghost predicate HasBelowZero(tail: string) {
    exists i :: 0 <= i < |tail| && tail[i] < '0'
  }

  /** A tail that is no digit string gets through exactly when a character lies below '0' and none above '9'. */
  lemma IllFormedGetsThroughIff(tail: string)
    ensures !AllDigits(tail) && Read(tail).Some? <==> HasBelowZero(tail) && !HasAboveNine(tail)
  {
    if !AllDigits(tail) {
      var i :| 0 <= i < |tail| && !IsDigit(tail[i]);
      assert tail[i] < '0' || tail[i] > '9';
    }
    if Stop(tail) < |tail| {
      assert tail[Stop(tail)] > '9';
    }
  }

  /**
   For every string of accepted length the result is the intended one exactly when the tail is a digit string, has
   a character above '9', or happens to add up to the value -1 of "not connected".
   */
  lemma IntendedReadingIff(str: string)
    requires |str| >= 10
    ensures var tail := str[9..];
      PinOf(Some(str)) == Intended(tail) <==> AllDigits(tail) || HasAboveNine(tail) || Numeral(tail) == GPIO_NUM_NC
  {
    var tail := str[9..];
    if AllDigits(tail) {
      DigitsReadIff(tail);
    } else {
      IllFormedGetsThroughIff(tail);
    }
    if Stop(tail) < |tail| {
      assert tail[Stop(tail)] > '9';
    }
  }

  function Pow10(n: nat): nat {
    if n == 0 then 1 else 10 * Pow10(n - 1)
  }

  /** Every character's distance from '0', times the power of ten of its place. */
  function Weighted(s: string): int {
    if s == [] then 0 else (s[0] as int - '0' as int) * Pow10(|s| - 1) + Weighted(s[1..])
  }

  lemma {:induction false} WeightedSnoc(s: string, c: char)
    ensures Weighted(s + [c]) == 10 * Weighted(s) + (c as int - '0' as int)
  {
    if s == [] {
      assert s + [c] == [c];
      assert Weighted([c]) == (c as int - '0' as int) * Pow10(0) + Weighted([]);
    } else {
      assert (s + [c])[1..] == s[1..] + [c];
      WeightedSnoc(s[1..], c);
    }
  }

  lemma {:induction false} NumeralIsWeighted(s: string)
    ensures Numeral(s) == Weighted(s)
  {
    if s != [] {
      var front, last := s[..|s| - 1], s[|s| - 1];
      NumeralIsWeighted(front);
      WeightedSnoc(front, last);
      assert front + [last] == s;
    }
  }

  /** What any string of accepted length is read as: a character above '9' rejects it, any other counts by its place. */
  lemma ReadingIs(str: string)
    requires |str| >= 10
    ensures PinOf(Some(str)) == if HasAboveNine(str[9..]) then GPIO_NUM_NC else Weighted(str[9..])
  {
    var tail := str[9..];
    NumeralIsWeighted(tail);
    if Stop(tail) < |tail| {
      assert tail[Stop(tail)] > '9';
    }
  }

  /** The string "GPIO_NUM_1/" is read as pin 9. */
  lemma SlashReadsAsPin()
    ensures PinOf(Some(PREFIX + "1/")) == 9 && Intended("1/") == GPIO_NUM_NC
  {
    var tail := "1/";
    assert (PREFIX + tail)[9..] == tail;
    assert tail[..1] == "1" && "1"[..0] == "";
    assert Numeral("1") == 1;
    assert !IsDigit(tail[1]);
    assert tail[0] <= '9' && tail[1] <= '9';
  }

  /** A digit string without a leading zero is the decimal form of its value, so distinct ones name distinct pins. */
  lemma {:induction false} DecimalInvertsNumeral(s: string)
    requires AllDigits(s) && s != [] && (|s| > 1 ==> s[0] != '0')
    ensures Numeral(s) >= 0 && Decimal(Numeral(s)) == s
    ensures s[0] != '0' ==> Numeral(s) > 0
  {
    var front, last := s[..|s| - 1], s[|s| - 1];
    if |s| > 1 {
      DecimalInvertsNumeral(front);
      assert s == front + [last];
      assert Numeral(s) / 10 == Numeral(front) && Numeral(s) % 10 == last as int - '0' as int;
    } else {
      assert front == [] && s == [last];
    }
  }
}
