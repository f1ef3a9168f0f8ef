/** Character and digit helpers shared by the server and the browser code. */
module Text {
  import opened Wrappers

  /** Lower-cases an ASCII letter; every other character is unchanged. */
  function LowerChar(c: char): char {
    if 'A' <= c <= 'Z' then (c as int + 32) as char else c
  }

  function Lower(s: string): (r: string)
    ensures |r| == |s|
    ensures forall i :: 0 <= i < |s| ==> r[i] == LowerChar(s[i])
  {
    seq(|s|, i requires 0 <= i < |s| => LowerChar(s[i]))
  }

  /** `needle` occurs as a contiguous piece of `hay` (JavaScript `includes`). */
  predicate Contains(hay: string, needle: string) {
    exists i :: 0 <= i <= |hay| && OccursAt(hay, needle, i)
  }

  /** `needle` occurs in `hay` starting at position `i`. */
  predicate OccursAt(hay: string, needle: string, i: int) {
    0 <= i <= |hay| - |needle| && hay[i..i + |needle|] == needle
  }

  /** The last position of `c` in `s`, if any. */
  function LastIndexOf(s: string, c: char): (r: Option<nat>)
    ensures r.None? <==> c !in s
    ensures r.Some? ==> r.value < |s| && s[r.value] == c && c !in s[r.value + 1..]
  {
    if s == [] then None
    else if s[|s| - 1] == c then Some(|s| - 1)
    else
      var r := LastIndexOf(s[..|s| - 1], c);
      assert s == s[..|s| - 1] + [s[|s| - 1]];
      if r.Some? then
        assert s[r.value + 1..] == s[..|s| - 1][r.value + 1..] + [s[|s| - 1]];
        r
      else r
  }

  /** Two positions of `c`, each with no `c` after it, are the same position. */
  lemma LastOccurrenceUnique(s: string, c: char, i: nat, j: nat)
    requires i < |s| && s[i] == c && c !in s[i + 1..]
    requires j < |s| && s[j] == c && c !in s[j + 1..]
    ensures i == j
  {
  }

  /** The text before the first `c`, or all of `s` when `c` is absent (`s.split(c)[0]`). */
  function BeforeFirst(s: string, c: char): (r: string)
    ensures c !in r
    ensures r <= s
    ensures |r| < |s| ==> s[|r|] == c
  {
    if s == [] then []
    else if s[0] == c then []
    else [s[0]] + BeforeFirst(s[1..], c)
  }

  /** The text before the first `c` of `p + [c] + rest` is `p` when `p` has no `c`. */
  lemma {:induction false} BeforeFirstPrefix(p: string, c: char, rest: string)
    requires c !in p
    ensures BeforeFirst(p + [c] + rest, c) == p
  {
    if p != [] {
      BeforeFirstPrefix(p[1..], c, rest);
      assert (p + [c] + rest)[1..] == p[1..] + [c] + rest;
    }
  }

  /** JavaScript and Python truthiness of a string that may be null: present and non-empty. */
  predicate Truthy(s: Option<string>) {
    s.Some? && s.value != ""
  }

  // ---- decimal digits ----

  predicate IsDigit(c: char) {
    '0' <= c <= '9'
  }

  predicate AllDigits(s: string) {
    forall i :: 0 <= i < |s| ==> IsDigit(s[i])
  }

  function DigitChar(d: nat): (c: char)
    requires d < 10
    ensures IsDigit(c) && c as int - '0' as int == d
  {
    (d + '0' as int) as char
  }

  /** The value of a string of decimal digits, most significant first. */
  function DigitsValue(s: string): nat
    requires AllDigits(s)
  {
    if s == [] then 0
    else DigitsValue(s[..|s| - 1]) * 10 + (s[|s| - 1] as int - '0' as int)
  }

  /** A non-empty run of decimal digits, read as a number; anything else is None. */
  function ParseNat(s: string): Option<nat> {
    if s != [] && AllDigits(s) then Some(DigitsValue(s)) else None
  }

  /** The shortest decimal rendering of `n` (Python `str`, JavaScript template text). */
  function NatToString(n: nat): (s: string)
    ensures s != [] && AllDigits(s)
    ensures n >= 10 ==> s[0] != '0'
    ensures |s| == 1 <==> n < 10
  {
    if n < 10 then [DigitChar(n)] else NatToString(n / 10) + [DigitChar(n % 10)]
  }

  lemma {:induction false} NatToStringRoundTrip(n: nat)
    ensures ParseNat(NatToString(n)) == Some(n)
  {
    var s := NatToString(n);
    if n >= 10 {
      NatToStringRoundTrip(n / 10);
      assert s[..|s| - 1] == NatToString(n / 10);
      assert s[|s| - 1] == DigitChar(n % 10);
      assert DigitsValue(s) == (n / 10) * 10 + n % 10;
    }
  }

  function Pow10(w: nat): (p: nat)
    ensures p >= 1
  {
    if w == 0 then 1 else 10 * Pow10(w - 1)
  }

  /** The last `w` decimal digits of `n`, zero-padded on the left (strftime's `%02d`, `%04d`). */
  function PadDigits(n: nat, w: nat): (s: string)
    ensures |s| == w && AllDigits(s)
  {
    if w == 0 then [] else PadDigits(n / 10, w - 1) + [DigitChar(n % 10)]
  }

  lemma {:induction false} PadDigitsRoundTrip(n: nat, w: nat)
    requires n < Pow10(w)
    ensures DigitsValue(PadDigits(n, w)) == n
  {
    if w > 0 {
      var s := PadDigits(n, w);
      assert n / 10 < Pow10(w - 1);
      PadDigitsRoundTrip(n / 10, w - 1);
      assert s[..|s| - 1] == PadDigits(n / 10, w - 1);
    }
  }

  /** strftime("%H:%M"): two-digit hour, colon, two-digit minute. */
  function Clock(hour: nat, minute: nat): (s: string)
    ensures |s| == 5 && s[2] == ':'
  {
    PadDigits(hour, 2) + ":" + PadDigits(minute, 2)
  }
}
