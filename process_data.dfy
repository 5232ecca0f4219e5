/**
 * `process_data(number, text, repeat=1, verbose=False)`: the text in upper
 * case when `number` is even and in lower case when it is odd, written out
 * `repeat` times. `verbose` only prints progress messages, so it has no part
 * in the result. Case conversion is modelled over ASCII letters.
 */
module OptionsAndFlags {

  predicate IsAsciiLower(c: char) {
    'a' <= c <= 'z'
  }

  predicate IsAsciiUpper(c: char) {
    'A' <= c <= 'Z'
  }

  /** `str.upper` on one character: ASCII lower-case letters become upper case. */
  function UpperChar(c: char): char {
    if IsAsciiLower(c) then (c as int - 32) as char else c
  }

  /** `str.lower` on one character: ASCII upper-case letters become lower case. */
  function LowerChar(c: char): char {
    if IsAsciiUpper(c) then (c as int + 32) as char else c
  }

  /** `text.upper()`. */
  function Upper(s: string): string {
    seq(|s|, i requires 0 <= i < |s| => UpperChar(s[i]))
  }

  /** `text.lower()`. */
  function Lower(s: string): string {
    seq(|s|, i requires 0 <= i < |s| => LowerChar(s[i]))
  }

  /**
   * Upper-casing leaves no ASCII lower-case letter and changes nothing else
   * than letters; doing it twice is doing it once; lower-casing afterwards is
   * lower-casing the original.
   */
  lemma UpperLaws(s: string)
    ensures |Upper(s)| == |s|
    ensures forall i :: 0 <= i < |s| ==> !IsAsciiLower(Upper(s)[i])
    ensures forall i :: 0 <= i < |s| && !IsAsciiLower(s[i]) ==> Upper(s)[i] == s[i]
    ensures Upper(Upper(s)) == Upper(s)
    ensures Lower(Upper(s)) == Lower(s)
  {
  }

  /** The mirror image of `UpperLaws` for lower-casing. */
  lemma LowerLaws(s: string)
    ensures |Lower(s)| == |s|
    ensures forall i :: 0 <= i < |s| ==> !IsAsciiUpper(Lower(s)[i])
    ensures forall i :: 0 <= i < |s| && !IsAsciiUpper(s[i]) ==> Lower(s)[i] == s[i]
    ensures Lower(Lower(s)) == Lower(s)
    ensures Upper(Lower(s)) == Upper(s)
  {
  }

  /** `s * n`: `s` written `n` times, and nothing when `n` is not positive. */
  function Repeat(s: string, n: int): string
    decreases if n <= 0 then 0 else n
  {
    if n <= 0 then "" else s + Repeat(s, n - 1)
  }

  /**
   * `s * n` has `|s| * max(n, 0)` characters, and its character at `k` is the
   * character of `s` at `k % |s|`.
   */
  lemma RepeatLaws(s: string, n: int)
    ensures var r := Repeat(s, n);
      |r| == |s| * (if n <= 0 then 0 else n) &&
      forall k :: 0 <= k < |r| ==> r[k] == s[k % |s|]
  {
    RepeatLength(s, n);
    if |s| > 0 {
      forall k | 0 <= k < |Repeat(s, n)|
        ensures Repeat(s, n)[k] == s[k % |s|]
      {
        RepeatAt(s, n, k);
      }
    }
  }

  lemma {:induction false} RepeatLength(s: string, n: int)
    decreases if n <= 0 then 0 else n
    ensures |Repeat(s, n)| == |s| * (if n <= 0 then 0 else n)
  {
    if n > 0 {
      RepeatLength(s, n - 1);
      Distribute(n, 1, |s|);
    }
  }

  lemma {:induction false} RepeatAt(s: string, n: int, k: int)
    requires |s| > 0 && 0 <= k < |Repeat(s, n)|
    decreases if n <= 0 then 0 else n
    ensures Repeat(s, n)[k] == s[k % |s|]
  {
    var t := Repeat(s, n - 1);
    assert Repeat(s, n) == s + t;
    if k < |s| {
      DivModUnique(k, |s|, 0, k);
    } else {
      RepeatAt(s, n - 1, k - |s|);
      ShiftMod(k, |s|);
    }
  }

  lemma ShiftMod(k: int, m: int)
    requires 0 < m <= k
    ensures (k - m) % m == k % m
  {
    var q, r := k / m, k % m;
    Distribute(q, 1, m);
    DivModUnique(k - m, m, q - 1, r);
  }

  /** A quotient and remainder in range are the ones `/` and `%` give. */
  lemma DivModUnique(a: int, m: int, q: int, r: int)
    requires 0 < m && 0 <= r < m && a == q * m + r
    ensures a % m == r
  {
    var q', r' := a / m, a % m;
    var d := q - q';
    Distribute(q, q', m);
    assert d * m == r' - r;
    if d > 0 {
      MulMono(d, m);
    } else if d < 0 {
      MulMono(-d, m);
    }
  }

  lemma Distribute(a: int, b: int, m: int)
    ensures (a - b) * m == a * m - b * m
  {
  }

  lemma MulMono(d: int, m: int)
    requires d >= 1 && m > 0
    ensures d * m >= m
  {
  }

  /** `s * 1` is `s`. */
  lemma RepeatOnce(s: string)
    ensures Repeat(s, 1) == s
  {
    assert Repeat(s, 0) == "";
    assert s + "" == s;
  }

  /** The text after the case change `number` selects. */
  function ModifiedText(number: int, text: string): string {
    if number % 2 == 0 then Upper(text) else Lower(text)
  }

  /** `process_data`; `verbose` selects only printed output, which is not modelled. */
  function ProcessData(number: int, text: string, repeat: int := 1, verbose: bool := false): string {
    Repeat(ModifiedText(number, text), repeat)
  }

  /**
   * The result is the case-changed text written out `repeat` times: upper
   * case for an even `number` (zero and negative even numbers included),
   * lower case for an odd one, with `|text| * max(repeat, 0)` characters.
   */
  lemma ProcessDataLaws(number: int, text: string, repeat: int, verbose: bool)
    ensures var r := ProcessData(number, text, repeat, verbose);
      |r| == |text| * (if repeat <= 0 then 0 else repeat) &&
      (forall k :: 0 <= k < |r| ==>
        r[k] == if number % 2 == 0 then UpperChar(text[k % |text|]) else LowerChar(text[k % |text|]))
  {
    var m := ModifiedText(number, text);
    RepeatLaws(m, repeat);
    assert |m| == |text|;
  }

  /** With the default `repeat=1` the result is the case-changed text itself. */
  lemma ProcessDataDefaultRepeat(number: int, text: string)
    ensures ProcessData(number, text) == if number % 2 == 0 then Upper(text) else Lower(text)
  {
    RepeatOnce(ModifiedText(number, text));
  }

  /** A `repeat` that is zero or negative gives the empty string. */
  lemma ProcessDataNoRepeat(number: int, text: string, repeat: int, verbose: bool)
    requires repeat <= 0
    ensures ProcessData(number, text, repeat, verbose) == ""
  {
  }

  /** `verbose` has no effect on the result. */
  lemma VerboseHasNoEffect(number: int, text: string, repeat: int)
    ensures ProcessData(number, text, repeat, true) == ProcessData(number, text, repeat, false)
  {
  }

  /** Python's `%` gives a result of the divisor's sign, so -3 is odd and -4 even, as here. */
  lemma NegativeNumbers()
    ensures ProcessData(-3, "MiXed") == "mixed"
    ensures ProcessData(-4, "MiXed", 2) == "MIXEDMIXED"
  {
    ProcessDataDefaultRepeat(-3, "MiXed");
    assert Lower("MiXed") == "mixed";
    var u := Upper("MiXed");
    assert u == "MIXED";
    assert Repeat(u, 2) == u + (u + "");
  }
}
