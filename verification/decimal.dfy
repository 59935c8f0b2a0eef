/** Go's `strconv.Atoi` on a 64-bit platform, and the decimal rendering the
    menu uses for its 1-based indices. */
module Decimal {
  import opened Common

  const MaxInt64: int := 0x7FFF_FFFF_FFFF_FFFF
  const MinInt64: int := -0x8000_0000_0000_0000

  predicate IsDigit(c: char) {
    '0' <= c <= '9'
  }

  predicate AllDigits(s: string) {
    forall i :: 0 <= i < |s| ==> IsDigit(s[i])
  }

  /** The value of a string of decimal digits, most significant first. */
  function DigitsValue(s: string): nat
    requires AllDigits(s)
  {
    if s == [] then 0
    else DigitsValue(s[..|s| - 1]) * 10 + (s[|s| - 1] as int - '0' as int)
  }

  /** The syntax `Atoi` accepts: an optional sign, then one or more digits. */
  predicate IntSyntax(s: string) {
    var body := if |s| > 0 && (s[0] == '+' || s[0] == '-') then s[1..] else s;
    body != [] && AllDigits(body)
  }

  /** `strconv.Atoi`: a signed decimal that fits in 64 bits, or nothing. */
  function Atoi(s: string): (r: Option<int>)
    ensures r.Some? ==> IntSyntax(s) && MinInt64 <= r.value <= MaxInt64
    ensures !IntSyntax(s) ==> r.None?
    ensures r.Some? && r.value < 0 ==> s[0] == '-'
    ensures r.Some? && s[0] == '-' ==> r.value <= 0
  {
    if s == [] then None
    else
      var signed := s[0] == '+' || s[0] == '-';
      var body := if signed then s[1..] else s;
      if body == [] || !AllDigits(body) then None
      else
        var v: int := if s[0] == '-' then -(DigitsValue(body) as int) else DigitsValue(body);
        if MinInt64 <= v <= MaxInt64 then Some(v) else None
  }

  function DigitChar(d: nat): char
    requires d < 10
  {
    ('0' as int + d) as char
  }

  /** The shortest decimal spelling of `n`. */
  function ShowNat(n: nat): (r: string)
    ensures r != [] && AllDigits(r)
  {
    if n < 10 then [DigitChar(n)] else ShowNat(n / 10) + [DigitChar(n % 10)]
  }

  /** Reading back a rendered number gives the number. */
  lemma {:induction false} DigitsValueShowNat(n: nat)
    ensures DigitsValue(ShowNat(n)) == n
  {
    if n >= 10 {
      var s := ShowNat(n);
      assert s[..|s| - 1] == ShowNat(n / 10);
      DigitsValueShowNat(n / 10);
    }
  }

  /** `Atoi` inverts `ShowNat` on every value a 64-bit int can hold. */
  lemma AtoiShowNat(n: nat)
    requires n <= MaxInt64
    ensures Atoi(ShowNat(n)) == Some(n)
  {
    DigitsValueShowNat(n);
  }
}
