/** Python run-time behaviour that the score extractor relies on: the
    exceptions its code paths can raise, the value `None`, step-1 slicing of a
    sequence (`s[start:stop]`, which numpy uses on each axis too) and `str()`
    of an integer. `ParseInt` is the inverse of `Str`, used to state what a
    decoded score text means. */
module PyValues {

  /** The exceptions the modelled code can raise. */
  datatype PyError =
    | NotSubscriptable  // TypeError: 'int' object is not subscriptable
    | IndexOutOfRange   // IndexError: list index out of range
    | EmptySequence     // ValueError: min() / max() arg is an empty sequence

  /** A value, or the exception that aborted the computation. */
  datatype Result<T> = Ok(value: T) | Raise(error: PyError)

  /** A Python value that may be `None`. */
  datatype Option<T> = None | Some(value: T)

  // ---------------------------------------------------------------------
  // Slicing
  // ---------------------------------------------------------------------

  /** One bound of a step-1 slice over a sequence of length `n`: a negative
      bound counts from the end, and the result is clamped into [0, n]. */
  function SliceBound(i: int, n: nat): (b: nat)
    ensures b <= n
  {
    if i < 0 then (if i + n < 0 then 0 else i + n)
    else if i < n then i
    else n
  }

  /** The index range [lo, hi) that `s[start:stop]` keeps of a sequence of
      length `n`; an empty slice is an empty range. A stop below the start
      gives an empty slice only when both bounds are on the same side of 0:
      `s[0:-1]` keeps all but the last element. */
  function SliceRange(start: int, stop: int, n: nat): (range: (nat, nat))
    ensures range.0 <= range.1 <= n
    ensures stop <= start && (0 <= stop || start < 0) ==> range.0 == range.1
    ensures 0 <= start && n <= start ==> range.0 == range.1
  {
    var lo := SliceBound(start, n);
    var hi := SliceBound(stop, n);
    if lo < hi then (lo, hi) else (lo, lo)
  }

  /** `s[start:stop]`: never fails, whatever the bounds; it is a contiguous
      run of `s`, and with non-negative bounds the run [start, stop) cut off
      at the end of `s`. */
  function Slice<T>(s: seq<T>, start: int, stop: int): (r: seq<T>)
    ensures |r| <= |s|
    ensures stop <= start && (0 <= stop || start < 0) ==> r == []
    ensures |r| == SliceRange(start, stop, |s|).1 - SliceRange(start, stop, |s|).0
    ensures forall i :: 0 <= i < |r| ==> r[i] == s[SliceRange(start, stop, |s|).0 + i]
    ensures 0 <= start <= stop ==> r == s[Min(start, |s|)..Min(stop, |s|)]
  {
    var range := SliceRange(start, stop, |s|);
    s[range.0..range.1]
  }

  function Min(a: int, b: int): int { if a <= b then a else b }

  /** With non-negative bounds a slice keeps the indices in [start, stop),
      cut off at the end of the sequence. */
  lemma SliceNonNegative(start: int, stop: int, n: nat)
    requires 0 <= start <= stop
    ensures SliceRange(start, stop, n) == (Min(start, n), Min(stop, n))
  {
  }

  /** A slice never spans more indices than the distance between its bounds. */
  lemma SliceShorterThanSpan(start: int, span: nat, n: nat)
    ensures SliceRange(start, start + span, n).1 - SliceRange(start, start + span, n).0 <= span
  {
  }

  // ---------------------------------------------------------------------
  // str() of an integer, and its inverse
  // ---------------------------------------------------------------------

  predicate IsDigit(c: char) { '0' <= c <= '9' }

  predicate AllDigits(s: string) { forall k :: 0 <= k < |s| ==> IsDigit(s[k]) }

  function DigitChar(d: nat): (c: char)
    requires d < 10
    ensures IsDigit(c)
  {
    ('0' as int + d) as char
  }

  function DigitValue(c: char): (d: nat)
    requires IsDigit(c)
    ensures d < 10
  {
    c as int - '0' as int
  }

  /** The decimal digits of `n`, most significant first, without leading
      zeros. */
  function NatText(n: nat): (s: string)
    ensures |s| >= 1 && AllDigits(s)
    ensures s[0] == '0' <==> n == 0
    decreases n
  {
    if n < 10 then [DigitChar(n)] else NatText(n / 10) + [DigitChar(n % 10)]
  }

  /** Python's `str(i)` for an integer `i`: a minus sign for negative values,
      then the decimal digits. */
  function Str(i: int): (s: string)
    ensures |s| >= 1
    ensures '.' !in s
  {
    if i < 0 then "-" + NatText(-i) else NatText(i)
  }

  /** The value of a string of decimal digits. */
  function ParseNat(s: string): nat
    requires AllDigits(s)
  {
    if s == [] then 0 else ParseNat(s[..|s| - 1]) * 10 + DigitValue(s[|s| - 1])
  }

  /** Reads an optionally signed decimal integer; `None` for anything else. */
  function ParseInt(s: string): Option<int>
  {
    if |s| > 1 && s[0] == '-' && AllDigits(s[1..]) then Some(-(ParseNat(s[1..]) as int))
    else if |s| > 0 && AllDigits(s) then Some(ParseNat(s))
    else None
  }

  lemma {:induction false} NatTextRoundTrip(n: nat)
    ensures ParseNat(NatText(n)) == n
    decreases n
  {
    var s := NatText(n);
    if n < 10 {
      assert s[..|s| - 1] == [];
    } else {
      assert s[..|s| - 1] == NatText(n / 10);
      NatTextRoundTrip(n / 10);
    }
  }

  /** `str` loses nothing: reading its text back gives the integer. */
  lemma StrRoundTrip(i: int)
    ensures ParseInt(Str(i)) == Some(i)
  {
    var s := Str(i);
    if i < 0 {
      assert s[1..] == NatText(-i);
      NatTextRoundTrip(-i);
    } else {
      NatTextRoundTrip(i);
    }
  }
}
