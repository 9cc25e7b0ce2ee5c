/**
 The decimal printer and parser of Task/CommunicationConfig.c, on a buffer of
 character codes.
 */
module Decimal {

  import opened Division

  const WORD: int := 0x1_0000_0000  // uint32_t
  const ZERO: int := 48             // '0'

  /** The decimal digits of n, without leading zeros. */
  function Digits(n: nat): (r: seq<int>)
    ensures |r| > 0
    ensures forall i :: 0 <= i < |r| ==> ZERO <= r[i] <= ZERO + 9
  {
    if n < 10 then [n + ZERO] else Digits(n / 10) + [n % 10 + ZERO]
  }

  predicate IsDigit(c: int) {
    ZERO <= c <= ZERO + 9
  }

  /** The value that StrToInt accumulates, in machine words; the last digit counts most recently. */
  function Value(s: seq<int>): (v: nat)
    ensures v < WORD
  {
    if s == [] then 0 else ((Value(s[..|s| - 1]) * 10) % WORD + Clamp(s[|s| - 1] - ZERO)) % WORD
  }

  function Clamp(d: int): nat {
    if d < 0 then 0 else d
  }

  /** What StrToInt returns for a string. */
  function Parsed(s: seq<int>): (v: nat)
    ensures v < WORD
  {
    if forall i :: 0 <= i < |s| ==> IsDigit(s[i]) then Value(s) else 0
  }

  lemma {:induction false} ValueOfDigits(n: nat)
    requires n < WORD
    ensures Value(Digits(n)) == n
  {
    var s := Digits(n);
    if n < 10 {
      assert s[..0] == [];
    } else {
      ValueOfDigits(n / 10);
      assert s[..|s| - 1] == Digits(n / 10);
    }
  }

  /** StrToInt undoes IntToStr for every 32-bit number. */
  lemma RoundTrip(n: nat)
    requires n < WORD
    ensures Parsed(Digits(n)) == n
  {
    ValueOfDigits(n);
  }

  /** StrToInt: the string ends before the first zero byte. */
  method StrToInt(s: seq<int>) returns (m: nat)
    ensures m == Parsed(s)
  {
    m := 0;
    for i := 0 to |s|
      invariant m == Value(s[..i])
      invariant forall j :: 0 <= j < i ==> IsDigit(s[j])
    {
      if s[i] < ZERO || s[i] > ZERO + 9 {
        assert !IsDigit(s[i]);
        return 0;
      }
      assert s[..i + 1][..i] == s[..i];
      m := m * 10 % WORD;
      m := (m + (s[i] - ZERO)) % WORD;
    }
    assert s[..|s|] == s;
  }

  lemma DigitsStep(h: nat, d: nat)
    requires d < 10 && h > 0
    ensures Digits(10 * h + d) == Digits(h) + [d + ZERO]
  {
  }

  /** The number n, cut after its leading part h: what follows is `rest`, in digits worth less than `unit`. */
  predicate CutAt(n: nat, h: nat, unit: nat, rest: nat) {
    n == h * unit + rest && rest < unit
  }

  /** The cut moves by one digit. */
  lemma DigitStep(n: nat, h: nat, divider: nat, rest: nat)
    requires divider > 0 && CutAt(n, h, 10 * divider, rest)
    ensures Quotient(rest, divider) < 10
    ensures CutAt(n, 10 * h + Quotient(rest, divider), divider, Remainder(rest, divider))
  {
    hide Quotient, Remainder;
    QuotientIs(rest, divider);
    var d := Quotient(rest, divider);
    if d >= 10 {
      ProductGap(9, d, divider);
    }
    assert (10 * h + d) * divider == h * (10 * divider) + d * divider;
  }

  lemma CutEnds(n: nat, h: nat, rest: nat)
    ensures CutAt(n, h, 1, rest) ==> h == n
    ensures n < Pow10(10) ==> CutAt(n, 0, Pow10(10), n)
  {
  }

  function Pow10(k: nat): (r: nat)
    ensures r > 0
  {
    if k == 0 then 1 else 10 * Pow10(k - 1)
  }

  lemma Pow10Is()
    ensures Pow10(9) == 1000000000 && Pow10(10) == 10000000000
  {
    assert Pow10(3) == 1000 && Pow10(6) == 1000 * Pow10(3) && Pow10(9) == 1000 * Pow10(6);
  }

  /** IntToStr: the digits, and behind them what was there; the string ends there only if the buffer was clear. */
  method IntToStr(str: array<int>, n: nat)
    requires n < WORD && str.Length >= 10
    modifies str
    ensures |Digits(n)| <= 10 && str[..|Digits(n)|] == Digits(n)
    ensures forall i :: |Digits(n)| <= i < str.Length ==> str[i] == old(str[i])
  {
    hide Pow10, CutAt, Quotient, Remainder;
    Pow10Is();
    CutEnds(n, 0, n);
    var intnum, divider, pos, status := n, 1000000000, 0, 0;
    ghost var h: nat := 0;
    for i := 0 to 10
      invariant 0 <= intnum && CutAt(n, h, Pow10(10 - i), intnum)
      invariant i < 10 ==> divider == Pow10(9 - i)
      invariant status >= 0 && (status == 0 <==> h == 0) && 0 <= pos <= i
      invariant h == 0 ==> pos == 0 && (i > 0 ==> str[0] == ZERO)
      invariant h > 0 ==> pos == |Digits(h)| && str[..pos] == Digits(h)
      invariant forall j :: (if pos == 0 then 1 else pos) <= j < str.Length ==> str[j] == old(str[j])
    {
      Pow10Step(10 - i);
      DigitStep(n, h, divider, intnum);
      var d := Quotient(intnum, divider);
      ghost var before := str[..pos];
      str[pos] := d + ZERO;
      pos := pos + 1;
      assert str[..pos] == before + [d + ZERO];
      intnum := Remainder(intnum, divider);
      if i < 9 {
        Pow10Step(9 - i);
      }
      divider := divider / 10;
      if str[pos - 1] == ZERO && status == 0 {
        pos := 0;
      } else {
        status := status + 1;
        if h > 0 {
          DigitsStep(h, d);
        }
        h := 10 * h + d;
      }
    }
    Pow10Zero();
    CutEnds(n, h, intnum);
    if n == 0 {
      assert str[..1] == [ZERO];
    }
  }

  lemma Pow10Step(k: nat)
    requires k > 0
    ensures Pow10(k) == 10 * Pow10(k - 1)
  {
  }

  lemma Pow10Zero()
    ensures Pow10(0) == 1
  {
  }
}
