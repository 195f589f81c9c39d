/** Surface keys `word-index`, as the parser names the ends of a dependency edge. */
module Keys {
  import opened Wrappers
  import opened Words

  /** The ValueError of `rindex('-')` (no hyphen) and of `int(...)` (no decimal index). */
  datatype KeyFormatError = NoHyphen | BadIndex

  predicate IsDigit(c: char) {
    '0' <= c <= '9'
  }

  predicate IsDecimal(s: string) {
    |s| > 0 && forall i :: 0 <= i < |s| ==> IsDigit(s[i])
  }

  /** The number a string of decimal digits denotes. */
  function DecimalValue(s: string): nat
    requires forall i :: 0 <= i < |s| ==> IsDigit(s[i])
  {
    if s == [] then 0
    else
      assert IsDigit(s[|s| - 1]);
      10 * DecimalValue(s[..|s| - 1]) + (s[|s| - 1] as int - '0' as int)
  }

  function Digit(d: nat): (c: char)
    requires d < 10
    ensures IsDigit(c)
  {
    ('0' as int + d) as char
  }

  /** The decimal notation of a natural number, as Python's string conversion writes it. */
  function NatToString(n: nat): (s: string)
    ensures IsDecimal(s)
    ensures '-' !in s
  {
    if n < 10 then [Digit(n)] else NatToString(n / 10) + [Digit(n % 10)]
  }

  /** The notation has no leading zero: it starts with `0` only for zero itself. */
  lemma {:induction false} NatToStringNoLeadingZero(n: nat)
    ensures NatToString(n)[0] == '0' <==> n == 0
  {
    if n >= 10 {
      NatToStringNoLeadingZero(n / 10);
      assert NatToString(n)[0] == NatToString(n / 10)[0];
    }
  }

  /** Reading the notation back gives the number. */
  lemma {:induction false} NatToStringValue(n: nat)
    ensures DecimalValue(NatToString(n)) == n
  {
    if n >= 10 {
      var s := NatToString(n);
      assert s[..|s| - 1] == NatToString(n / 10);
      NatToStringValue(n / 10);
    }
  }

  /** The position of the last hyphen of `s`, or None where Python raises ValueError. */
  function LastHyphen(s: string): (r: Option<nat>)
    ensures r.None? <==> '-' !in s
    ensures r.Some? ==> r.value < |s| && s[r.value] == '-' && '-' !in s[r.value + 1..]
  {
    if s == [] then None
    else if s[|s| - 1] == '-' then Some(|s| - 1)
    else
      var r := LastHyphen(s[..|s| - 1]);
      assert s == s[..|s| - 1] + [s[|s| - 1]];
      if r.Some? then
        assert s[r.value + 1..] == s[..|s| - 1][r.value + 1..] + [s[|s| - 1]];
        r
      else r
  }

  /** The word a `DependenciesTree` is built from: the text before the last '-' and the
      integer after it. */
  function ParseKey(key: string): (r: Result<Word, KeyFormatError>)
    ensures '-' !in key ==> r == Err(NoHyphen)
    ensures '-' in key && r.Err? ==> r == Err(BadIndex)
    ensures r.Ok? ==>
      var w := r.value.word;
      |w| < |key| && key[..|w|] == w && key[|w|] == '-' &&
      IsDecimal(key[|w| + 1..]) && r.value.index == DecimalValue(key[|w| + 1..]) &&
      r.value.pos == None
  {
    match LastHyphen(key)
    case None => Err(NoHyphen)
    case Some(h) =>
      var digits := key[h + 1..];
      if IsDecimal(digits) then Ok(Word(key[..h], DecimalValue(digits), None)) else Err(BadIndex)
  }

  /** Every key `w-d` with a decimal `d` parses, whatever hyphens `w` contains. */
  lemma ParseSplitKey(w: string, d: string)
    requires IsDecimal(d)
    ensures ParseKey(w + "-" + d) == Ok(Word(w, DecimalValue(d), None))
  {
    var key := w + "-" + d;
    assert key[|w|] == '-';
    assert LastHyphen(key) == Some(|w|);
    assert key[..|w|] == w && key[|w| + 1..] == d;
  }

  /** The key `computeTags` rebuilds from a surface form and a position: the form, a hyphen,
      and the decimal notation of the position. */
  function KeyOf(w: string, i: nat): string {
    w + "-" + NatToString(i)
  }

  lemma KeyRoundTrip(w: string, i: nat)
    ensures ParseKey(KeyOf(w, i)) == Ok(Word(w, i, None))
  {
    NatToStringValue(i);
    ParseSplitKey(w, NatToString(i));
  }

  /** Different (surface form, position) pairs give different keys. */
  lemma KeyOfInjective(w1: string, i1: nat, w2: string, i2: nat)
    requires KeyOf(w1, i1) == KeyOf(w2, i2)
    ensures w1 == w2 && i1 == i2
  {
    KeyRoundTrip(w1, i1);
    KeyRoundTrip(w2, i2);
  }
}
