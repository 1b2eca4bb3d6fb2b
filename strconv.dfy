/**
 * Go's `strconv.Itoa` and `strconv.Atoi` on decimal strings, and the 64-bit
 * conversions `int(u)` / `uint(i)` that the whoami handler applies around them.
 * Go's `int` and `uint` are 64 bits wide on the platforms the server targets.
 */
module Strconv {
  import opened Wrappers

  const TwoTo63: int := 0x8000_0000_0000_0000
  const TwoTo64: int := 0x1_0000_0000_0000_0000

  /** Go's `uint` and `int`. */
  type Uint64 = u: int | 0 <= u < TwoTo64
  type Int64 = i: int | -TwoTo63 <= i < TwoTo63

  predicate IsDigit(c: char) { '0' <= c <= '9' }

  predicate AllDigits(s: string) { forall i :: 0 <= i < |s| ==> IsDigit(s[i]) }

  function DigitChar(d: nat): (c: char)
    requires d < 10
    ensures IsDigit(c) && c as int - '0' as int == d
  {
    (d + '0' as int) as char
  }

  /** Decimal digits of `n`, most significant first, without leading zeros. */
  function NatToDigits(n: nat): (s: string)
    ensures |s| >= 1 && AllDigits(s)
    ensures |s| > 1 ==> s[0] != '0'
    decreases n
  {
    if n < 10 then [DigitChar(n)] else NatToDigits(n / 10) + [DigitChar(n % 10)]
  }

  /** The value a string of decimal digits denotes. */
  function DigitsValue(s: string): nat
    requires AllDigits(s)
  {
    if s == [] then 0 else DigitsValue(s[..|s| - 1]) * 10 + (s[|s| - 1] as int - '0' as int)
  }

  /** `strconv.Itoa`: an optional minus sign followed by the decimal digits of |n|. */
  function Itoa(n: int): (s: string)
    ensures |s| >= 1
    ensures n < 0 <==> s[0] == '-'
  {
    if n < 0 then "-" + NatToDigits(-n) else NatToDigits(n)
  }

  /**
   * The syntax `strconv.Atoi` accepts in base 10: an optional '+' or '-'
   * followed by at least one decimal digit; the result is the exact value,
   * before the 64-bit range check.
   */
  function ParseInt(s: string): (r: Option<int>)
    ensures r.None? <==>
      (|s| == 0 || (s[0] in {'+', '-'} && (|s| == 1 || !AllDigits(s[1..])))
                || (s[0] !in {'+', '-'} && !AllDigits(s)))
  {
    if |s| == 0 then None
    else if s[0] == '-' then
      if |s| > 1 && AllDigits(s[1..]) then Some(0 - DigitsValue(s[1..]) as int) else None
    else if s[0] == '+' then
      if |s| > 1 && AllDigits(s[1..]) then Some(DigitsValue(s[1..])) else None
    else if AllDigits(s) then Some(DigitsValue(s))
    else None
  }

  /** `s` without its leading '+' or '-', if it has one. */
  function Unsigned(s: string): (u: string)
    ensures |s| > 0 && s[0] in {'+', '-'} ==> u == s[1..]
    ensures !(|s| > 0 && s[0] in {'+', '-'}) ==> u == s
  {
    if |s| > 0 && s[0] in {'+', '-'} then s[1..] else s
  }

  /** The longest prefix of `s` made of decimal digits. */
  function DigitRun(s: string): (r: string)
    ensures r <= s && AllDigits(r)
    ensures |r| < |s| ==> !IsDigit(s[|r|])
    ensures r == s <==> AllDigits(s)
  {
    if s == [] || !IsDigit(s[0]) then [] else [s[0]] + DigitRun(s[1..])
  }

  /**
   * The digits right after the sign already exceed `uint64`: Go's scan
   * stops there with a range error and never reads what follows.
   */
  predicate Overflows(s: string) {
    |s| > 0 && DigitsValue(DigitRun(Unsigned(s))) >= TwoTo64
  }

  /** How `strconv.ParseUint` ends: a value, a syntax error or a range error. */
  datatype UintScan = Parsed(n: nat) | SyntaxError | RangeError

  /**
   * The loop of `strconv.ParseUint(s, 10, 64)` from the accumulated value
   * `n` on: each character must be a digit, and the first digit that takes
   * the value past `2^64 - 1` ends the scan with a range error.
   */
  function ScanUint(s: string, n: nat): UintScan
    decreases |s|
  {
    if s == [] then Parsed(n)
    else if !IsDigit(s[0]) then SyntaxError
    else
      var n' := n * 10 + (s[0] as int - '0' as int);
      if n' >= TwoTo64 then RangeError else ScanUint(s[1..], n')
  }

  /**
   * `id, _ := strconv.Atoi(s)` on a 64-bit platform, following
   * `strconv.ParseInt(s, 10, 0)`: strip the sign, scan the digits, and
   * clamp to the signed range. With the error discarded, a syntax error
   * yields 0 and a range error the bound of the sign.
   */
  function AtoiIgnoringError(s: string): (id: Int64)
    ensures Overflows(s) ==> id == if s[0] == '-' then -TwoTo63 else TwoTo63 - 1
    ensures !Overflows(s) && ParseInt(s).None? ==> id == 0
    ensures ParseInt(s).Some? && -TwoTo63 <= ParseInt(s).value < TwoTo63 ==> id == ParseInt(s).value
    ensures ParseInt(s).Some? && ParseInt(s).value >= TwoTo63 ==> id == TwoTo63 - 1
    ensures ParseInt(s).Some? && ParseInt(s).value < -TwoTo63 ==> id == -TwoTo63
  {
    if s == [] then 0
    else
      var neg := s[0] == '-';
      var u := Unsigned(s);
      var scan := if u == [] then SyntaxError else ScanUint(u, 0);
      ScanCloses(u);
      match scan
      case SyntaxError => 0
      case RangeError => if neg then -TwoTo63 else TwoTo63 - 1
      case Parsed(un) =>
        if !neg && un >= TwoTo63 then TwoTo63 - 1
        else if neg && un > TwoTo63 then -TwoTo63
        else if neg then 0 - un else un
  }

  /** Appending digits never lowers the value. */
  lemma {:induction false} DigitsValueGrows(p: string, r: string)
    requires AllDigits(p) && AllDigits(r)
    ensures AllDigits(p + r) && DigitsValue(p) <= DigitsValue(p + r)
    decreases |r|
  {
    assert AllDigits(p + r);
    if r != [] {
      var k := |r| - 1;
      assert (p + r)[..|p + r| - 1] == p + r[..k];
      assert DigitsValue(p + r) == DigitsValue(p + r[..k]) * 10 + (r[k] as int - '0' as int);
      DigitsValueGrows(p, r[..k]);
    } else {
      assert p + r == p;
    }
  }

  /**
   * The scan, started after the digits `p`, agrees with the closed form:
   * a range error exactly when `p` and the digit run ahead exceed `uint64`,
   * otherwise a syntax error exactly when a non-digit follows the run, and
   * otherwise the value of `p` and the rest.
   */
  lemma {:induction false} ScanFrom(p: string, s: string)
    requires AllDigits(p) && DigitsValue(p) < TwoTo64
    ensures AllDigits(p + DigitRun(s))
    ensures DigitsValue(p + DigitRun(s)) >= TwoTo64 ==> ScanUint(s, DigitsValue(p)) == RangeError
    ensures DigitsValue(p + DigitRun(s)) < TwoTo64 && !AllDigits(s) ==> ScanUint(s, DigitsValue(p)) == SyntaxError
    ensures DigitsValue(p + DigitRun(s)) < TwoTo64 && AllDigits(s) ==>
              AllDigits(p + s) && ScanUint(s, DigitsValue(p)) == Parsed(DigitsValue(p + s))
    decreases |s|, 1
  {
    DigitsValueGrows(p, DigitRun(s));
    if s == [] {
      assert p + s == p;
    } else if !IsDigit(s[0]) {
      assert p + DigitRun(s) == p;
    } else {
      ScanFromDigit(p, s);
    }
  }

  /** The step of `ScanFrom` where the next character is a digit. */
  lemma {:induction false} ScanFromDigit(p: string, s: string)
    requires AllDigits(p) && DigitsValue(p) < TwoTo64
    requires s != [] && IsDigit(s[0])
    ensures AllDigits(p + DigitRun(s))
    ensures DigitsValue(p + DigitRun(s)) >= TwoTo64 ==> ScanUint(s, DigitsValue(p)) == RangeError
    ensures DigitsValue(p + DigitRun(s)) < TwoTo64 && !AllDigits(s) ==> ScanUint(s, DigitsValue(p)) == SyntaxError
    ensures DigitsValue(p + DigitRun(s)) < TwoTo64 && AllDigits(s) ==>
              AllDigits(p + s) && ScanUint(s, DigitsValue(p)) == Parsed(DigitsValue(p + s))
    decreases |s|, 0
  {
    var p' := p + [s[0]];
    DigitStep(p, s);
    DigitsValueGrows(p', DigitRun(s[1..]));
    if DigitsValue(p') < TwoTo64 {
      ScanFrom(p', s[1..]);
    }
  }

  /** Moving one digit from `s` to `p` keeps `p + s` and the digit run, and is one step of the scan. */
  lemma DigitStep(p: string, s: string)
    requires AllDigits(p) && s != [] && IsDigit(s[0])
    ensures AllDigits(p + [s[0]])
    ensures ScanUint(s, DigitsValue(p)) ==
              if DigitsValue(p + [s[0]]) >= TwoTo64 then RangeError else ScanUint(s[1..], DigitsValue(p + [s[0]]))
    ensures p + DigitRun(s) == (p + [s[0]]) + DigitRun(s[1..])
    ensures p + s == (p + [s[0]]) + s[1..]
    ensures AllDigits(s) <==> AllDigits(s[1..])
  {
    ScanAfterDigit(p, s);
    RunStep(s);
    MoveFirst(p, s);
    MoveFirst(p, [s[0]] + DigitRun(s[1..]));
    assert ([s[0]] + DigitRun(s[1..]))[1..] == DigitRun(s[1..]);
    assert forall i :: 0 < i < |s| ==> s[i] == s[1..][i - 1];
  }

  /** One digit of the scan, with the value so far read off the digits `p`. */
  lemma ScanAfterDigit(p: string, s: string)
    requires AllDigits(p) && s != [] && IsDigit(s[0])
    ensures AllDigits(p + [s[0]])
    ensures ScanUint(s, DigitsValue(p)) ==
              if DigitsValue(p + [s[0]]) >= TwoTo64 then RangeError else ScanUint(s[1..], DigitsValue(p + [s[0]]))
  {
    var n := DigitsValue(p);
    AppendDigit(p, s[0]);
    ScanStep(s, n);
  }

  /** Moving the first element of `s` to the end of `a` keeps the concatenation. */
  lemma MoveFirst(a: string, s: string)
    requires s != []
    ensures a + s == (a + [s[0]]) + s[1..]
  {
  }

  /** One digit of the scan. */
  lemma ScanStep(s: string, n: nat)
    requires s != [] && IsDigit(s[0])
    ensures var n' := n * 10 + (s[0] as int - '0' as int);
            ScanUint(s, n) == if n' >= TwoTo64 then RangeError else ScanUint(s[1..], n')
  {
  }

  /** A leading digit opens the digit run. */
  lemma RunStep(s: string)
    requires s != [] && IsDigit(s[0])
    ensures DigitRun(s) == [s[0]] + DigitRun(s[1..])
  {
  }

  /** The value of digits followed by one more digit. */
  lemma AppendDigit(p: string, c: char)
    requires AllDigits(p) && IsDigit(c)
    ensures AllDigits(p + [c])
    ensures DigitsValue(p + [c]) == DigitsValue(p) * 10 + (c as int - '0' as int)
  {
    assert (p + [c])[..|p|] == p;
  }

  /** `ParseUint` on the unsigned part, in closed form. */
  lemma ScanCloses(u: string)
    ensures u != [] ==>
              ScanUint(u, 0) ==
                if DigitsValue(DigitRun(u)) >= TwoTo64 then RangeError
                else if !AllDigits(u) then SyntaxError
                else Parsed(DigitsValue(u))
  {
    if u != [] {
      ScanFrom([], u);
      assert [] + DigitRun(u) == DigitRun(u);
      assert [] + u == u;
    }
  }

  /** The digit run of digits followed by a non-digit (or nothing) is those digits. */
  lemma {:induction false} DigitRunStopsAt(d: string, t: string)
    requires AllDigits(d) && (t == [] || !IsDigit(t[0]))
    ensures DigitRun(d + t) == d
    decreases |d|
  {
    if d == [] {
      assert d + t == t;
    } else {
      assert (d + t)[1..] == d[1..] + t;
      DigitRunStopsAt(d[1..], t);
    }
  }

  /**
   * Digits past `uint64` followed by anything that is not a digit: Go's scan
   * stops at the overflow, so the upper bound comes back even though the
   * text is not a number, rather than the syntax error's 0.
   */
  lemma OverflowBeforeGarbage(n: nat, t: string)
    requires n >= TwoTo64 && t != [] && !IsDigit(t[0])
    ensures ParseInt(NatToDigits(n) + t).None? && AtoiIgnoringError(NatToDigits(n) + t) == TwoTo63 - 1
  {
    var s := NatToDigits(n) + t;
    GarbageAfterDigits(n, t);
    assert s[0] == NatToDigits(n)[0];
    assert Unsigned(s) == s;
  }

  /** The same behind a minus sign: the lower bound comes back. */
  lemma NegativeOverflowBeforeGarbage(n: nat, t: string)
    requires n >= TwoTo64 && t != [] && !IsDigit(t[0])
    ensures ParseInt("-" + NatToDigits(n) + t).None? && AtoiIgnoringError("-" + NatToDigits(n) + t) == -TwoTo63
  {
    var s := NatToDigits(n) + t;
    var neg := "-" + NatToDigits(n) + t;
    GarbageAfterDigits(n, t);
    assert neg[0] == '-' && neg[1..] == s;
    assert Overflows(neg) by {
      assert Unsigned(neg) == s;
    }
    assert ParseInt(neg).None? by {
      assert !AllDigits(neg[1..]);
    }
  }

  /** The digits of `n >= 2^64` followed by a non-digit: the run is those digits, and the text is no number. */
  lemma GarbageAfterDigits(n: nat, t: string)
    requires n >= TwoTo64 && t != [] && !IsDigit(t[0])
    ensures DigitRun(NatToDigits(n) + t) == NatToDigits(n)
    ensures DigitsValue(NatToDigits(n)) >= TwoTo64
    ensures !AllDigits(NatToDigits(n) + t)
  {
    DigitsValueOfNatToDigits(n);
    DigitRunStopsAt(NatToDigits(n), t);
    assert (NatToDigits(n) + t)[|NatToDigits(n)|] == t[0];
  }

  /** Go's `int(u)` for a 64-bit unsigned `u`: two's-complement reinterpretation. */
  function IntOfUint(u: Uint64): (i: Int64)
    ensures i % TwoTo64 == u
  {
    if u < TwoTo63 then u else u - TwoTo64
  }

  /** Go's `uint(i)` for a 64-bit signed `i`. */
  function UintOfInt(i: Int64): (u: Uint64)
    ensures u % TwoTo64 == i % TwoTo64
  {
    if i < 0 then i + TwoTo64 else i
  }

  lemma {:induction false} DigitsValueOfNatToDigits(n: nat)
    ensures DigitsValue(NatToDigits(n)) == n
    decreases n
  {
    if n >= 10 {
      var s := NatToDigits(n);
      DigitsValueOfNatToDigits(n / 10);
      assert s[..|s| - 1] == NatToDigits(n / 10);
    }
  }

  /** Parsing what `Itoa` prints gives back the number. */
  lemma ParseIntItoa(n: int)
    ensures ParseInt(Itoa(n)) == Some(n)
  {
    if n < 0 {
      DigitsValueOfNatToDigits(-n);
      assert Itoa(n)[1..] == NatToDigits(-n);
    } else {
      DigitsValueOfNatToDigits(n);
    }
  }

  /**
   * The identifier round trip the session token relies on:
   * `uint(Atoi(Itoa(int(id))))` is `id` for every 64-bit unsigned `id`.
   */
  lemma IdRoundTrip(id: Uint64)
    ensures AtoiIgnoringError(Itoa(IntOfUint(id))) == IntOfUint(id)
    ensures UintOfInt(AtoiIgnoringError(Itoa(IntOfUint(id)))) == id
  {
    ParseIntItoa(IntOfUint(id));
  }
}
