/** The small part of java.lang that the notifier relies on: Optional, thrown
    exceptions, 64-bit `long` values and their decimal text, and the String
    predicates and case mapping it calls. */
module JavaLang {

  /** java.util.Optional, failure-compatible so that decoders can use `:-`. */
  datatype Option<+T> = None | Some(value: T) {
    predicate IsFailure() { None? }

    function PropagateFailure<U>(): Option<U>
      requires None?
    {
      None
    }

    function Extract(): T
      requires Some?
    {
      value
    }
  }

  /** The unchecked exceptions the modelled code can raise. */
  datatype JavaException =
    | ArrayIndexOutOfBounds   // `parts[0]` on an empty split result
    | StringIndexOutOfBounds  // `substring(2)` on a string shorter than 2
    | NoSuchElement           // `Optional.get()` on an empty Optional

  /** A value, or the exception the Java code throws instead. */
  datatype Result<+T> = Ok(value: T) | Thrown(exception: JavaException)

  /** java.lang.Long. */
  newtype long = x: int | -0x8000_0000_0000_0000 <= x < 0x8000_0000_0000_0000

  predicate StartsWith(s: string, p: string) {
    |p| <= |s| && s[..|p|] == p
  }

  predicate EndsWith(s: string, q: string) {
    |q| <= |s| && s[|s| - |q|..] == q
  }

  /** String.indexOf(c): the position of the first c in s, with |s| in
      place of Java's -1 when there is none. */
  function IndexOf(s: string, c: char): (i: nat)
    ensures i <= |s|
    ensures i < |s| ==> s[i] == c
    ensures forall j :: 0 <= j < i ==> s[j] != c
  {
    if s == [] || s[0] == c then 0 else 1 + IndexOf(s[1..], c)
  }

  /** `\d` in java.util.regex without UNICODE_CHARACTER_CLASS. */
  predicate IsDigit(c: char) {
    '0' <= c <= '9'
  }

  function LowerChar(c: char): char {
    if 'A' <= c <= 'Z' then (c as int + 32) as char else c
  }

  /** String.toLowerCase() on ASCII letters; every other character is kept. */
  function ToLowerCase(s: string): (r: string)
    ensures |r| == |s|
  {
    seq(|s|, i requires 0 <= i < |s| => LowerChar(s[i]))
  }

  function DigitChar(d: nat): (c: char)
    requires d < 10
    ensures IsDigit(c)
  {
    ('0' as int + d) as char
  }

  function DigitValue(c: char): (d: nat)
    requires IsDigit(c)
    ensures d < 10 && DigitChar(d) == c
  {
    c as int - '0' as int
  }

  predicate AllDigits(s: string) {
    forall i :: 0 <= i < |s| ==> IsDigit(s[i])
  }

  /** Decimal digits of n, most significant first, no leading zeros. */
  function NatToDecimal(n: nat): (r: string)
    decreases n
    ensures 1 <= |r| && AllDigits(r)
    ensures n > 0 ==> r[0] != '0'
    ensures |r| > 1 ==> r[0] != '0'
  {
    if n < 10 then [DigitChar(n)] else NatToDecimal(n / 10) + [DigitChar(n % 10)]
  }

  /** Value of a string of decimal digits ("" reads as 0). */
  function DecimalValue(s: string): nat
    requires AllDigits(s)
  {
    if s == [] then 0 else 10 * DecimalValue(s[..|s| - 1]) + DigitValue(s[|s| - 1])
  }

  lemma {:induction false} DecimalRoundTrip(n: nat)
    ensures DecimalValue(NatToDecimal(n)) == n
  {
    if n >= 10 {
      var r := NatToDecimal(n);
      assert r[..|r| - 1] == NatToDecimal(n / 10);
      DecimalRoundTrip(n / 10);
    }
  }

  /** Long.toString: an optional '-' followed by the decimal digits. */
  function LongToString(x: long): (r: string)
    ensures forall i :: 0 <= i < |r| ==> r[i] == '-' || IsDigit(r[i])
  {
    if x < 0 then "-" + NatToDecimal(-(x as int)) else NatToDecimal(x as int)
  }

  /** The decimal reading of a long, as Long.parseLong accepts it. */
  function ParseLong(s: string): (r: Option<long>)
  {
    if |s| > 1 && s[0] == '-' && AllDigits(s[1..]) && DecimalValue(s[1..]) <= 0x8000_0000_0000_0000 then
      Some((0 - DecimalValue(s[1..]) as int) as long)
    else if |s| > 0 && AllDigits(s) && DecimalValue(s) < 0x8000_0000_0000_0000 then
      Some(DecimalValue(s) as long)
    else
      None
  }

  /** The text Long.toString produces reads back as the same value. */
  lemma LongRoundTrip(x: long)
    ensures ParseLong(LongToString(x)) == Some(x)
  {
    if x < 0 {
      var s := LongToString(x);
      assert s[1..] == NatToDecimal(-(x as int));
      DecimalRoundTrip(-(x as int));
    } else {
      DecimalRoundTrip(x as int);
      assert LongToString(x)[0] != '-';
    }
  }
}
