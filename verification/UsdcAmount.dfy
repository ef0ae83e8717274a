/** Exact USDC amounts: the decimal parser and printer of src/bridge-engine.ts, the strict
    positive-decimal reader of src/errors.ts and the balance printer of src/onchain-balances.ts. */
module UsdcAmount {
  import opened Prelude

  // ── Digit strings ──

  predicate IsDigit(c: char) { '0' <= c <= '9' }

  predicate AllDigits(s: string) { forall i :: 0 <= i < |s| ==> IsDigit(s[i]) }

  /** BigInt of a digit string (empty reads as 0). */
  function Value(s: string): nat
    requires AllDigits(s)
  {
    if s == "" then 0 else 10 * Value(s[..|s| - 1]) + (s[|s| - 1] as int - '0' as int)
  }

  function DigitChar(n: nat): (c: char)
    requires n < 10
    ensures IsDigit(c) && c as int - '0' as int == n
  {
    (n + '0' as int) as char
  }

  /** bigint.toString() of a non-negative value. */
  function ToString(n: nat): (s: string)
    ensures s != "" && AllDigits(s)
  {
    if n < 10 then [DigitChar(n)] else ToString(n / 10) + [DigitChar(n % 10)]
  }

  function Zeros(n: nat): (s: string)
    ensures |s| == n && AllDigits(s) && forall i :: 0 <= i < n ==> s[i] == '0'
  {
    seq(n, i => '0')
  }

  function PadStart(s: string, d: nat): (p: string)
    ensures |s| <= d ==> |p| == d
    ensures AllDigits(s) ==> AllDigits(p)
  {
    if |s| < d then Zeros(d - |s|) + s else s
  }

  /** replace(/0+$/, ""): all trailing zeros off. */
  function StripZeros(s: string): (r: string)
    ensures |r| <= |s| && r == s[..|r|] && (forall i :: |r| <= i < |s| ==> s[i] == '0')
    ensures r != "" ==> r[|r| - 1] != '0'
  {
    if s != "" && s[|s| - 1] == '0' then StripZeros(s[..|s| - 1]) else s
  }

  // ── formatUnitsPlain and the balance printer ──

  /** bigint remainder of non-negative values. */
  function Rem(n: nat, p: nat): (r: nat)
    requires p >= 1
    ensures r < p
  {
    n % p
  }

  lemma QuotRem(n: nat, p: nat)
    requires p >= 1
    ensures Quot(n, p) * p + Rem(n, p) == n
    ensures Quot(n, p) == 0 ==> n == Rem(n, p)
  {
  }

  function FormatUnitsPlain(raw: nat, decimals: nat): (s: string)
  {
    var base := Ten(decimals);
    var frac := StripZeros(PadStart(ToString(Rem(raw, base)), decimals));
    if frac == "" then ToString(Quot(raw, base)) else ToString(Quot(raw, base)) + "." + frac
  }

  /** replace(/\.?0+$/, ""). */
  function StripDotZeros(s: string): string {
    var z := StripZeros(s);
    if |z| < |s| && z != "" && z[|z| - 1] == '.' then z[..|z| - 1] else z
  }

  /** The Solana balance rows: pad to one digit before the point, insert it, strip. */
  function BalanceString(raw: nat, decimals: nat): string {
    var s := PadStart(ToString(raw), decimals + 1);
    var at := if |s| >= decimals then |s| - decimals else 0;
    StripDotZeros(s[..at] + "." + s[at..])
  }

  // ── parsePositiveDecimal, parseUsdcAmount, usdcUnits ──

  /** White space and line terminators of String.prototype.trim. */
  predicate IsSpace(c: char) {
    var n := c as int;
    9 <= n <= 13 || n == 32 || n == 0xA0 || n == 0x1680 || 0x2000 <= n <= 0x200A || n == 0x2028 || n == 0x2029
    || n == 0x202F || n == 0x205F || n == 0x3000 || n == 0xFEFF
  }

  function Trim(s: string): string
    decreases |s|
  {
    if s != "" && IsSpace(s[0]) then Trim(s[1..])
    else if s != "" && IsSpace(s[|s| - 1]) then Trim(s[..|s| - 1])
    else s
  }

  /** indexOf("."), or the length when there is none. */
  function Dot(s: string): (i: nat)
    ensures i <= |s| && (forall k :: 0 <= k < i ==> s[k] != '.') && (i < |s| ==> s[i] == '.')
  {
    if s == "" || s[0] == '.' then 0 else 1 + Dot(s[1..])
  }

  function Whole(s: string): string { s[..Dot(s)] }

  function Frac(s: string): string { if Dot(s) < |s| then s[Dot(s) + 1..] else "" }

  /** /^(\d+(\.\d+)?|\.\d+)$/ */
  predicate Plain(s: string) {
    && AllDigits(Whole(s)) && AllDigits(Frac(s))
    && if Dot(s) < |s| then Frac(s) != "" else Whole(s) != ""
  }

  /** The decimal's digits as one integer: the value is Digits(s) / 10^|Frac(s)|, and Number(s) > 0 iff it is
      positive. */
  function Digits(s: string): nat
    requires Plain(s)
  {
    Value(Whole(s)) * Ten(|Frac(s)|) + Value(Frac(s))
  }

  function ParsePositiveDecimal(raw: string): Option<string> {
    var s := Trim(raw);
    if !Plain(s) || Digits(s) == 0 then None else Some(s)
  }

  /** usdcUnitsOf: the fraction is padded, or cut, to six digits. */
  function UnitsOf(s: string): nat
    requires Plain(s)
  {
    Value(Whole(s)) * Ten(6) + Value((Frac(s) + Zeros(6))[..6])
  }

  function ParseUsdcAmount(raw: string): Option<string> {
    var s := ParsePositiveDecimal(raw);
    if s.None? || |Frac(s.value)| > 6 then None else Some(FormatUnitsPlain(UnitsOf(s.value), 6))
  }

  /** usdcUnits: the units of the canonical string. */
  function UsdcUnits(raw: string): (u: Option<nat>)
  {
    var c := ParseUsdcAmount(raw);
    if c.Some? && Plain(c.value) then Some(UnitsOf(c.value)) else None
  }

  // ── Values of digit strings ──

  lemma {:induction false} ValueConcat(a: string, b: string)
    requires AllDigits(a) && AllDigits(b)
    ensures AllDigits(a + b) && Value(a + b) == Value(a) * Ten(|b|) + Value(b)
  {
    if b == "" {
      assert a + b == a;
    } else {
      var b' := b[..|b| - 1];
      ValueConcat(a, b');
      assert (a + b)[..|a + b| - 1] == a + b';
      TenfoldSum(Value(a), Ten(|b'|), Value(b'));
    }
  }

  lemma TenfoldSum(a: nat, p: nat, v: nat)
    ensures 10 * (a * p + v) == a * (10 * p) + 10 * v
  {
  }

  lemma {:induction false} ValueZeros(n: nat)
    ensures Value(Zeros(n)) == 0
  {
    if n > 0 {
      assert Zeros(n)[..n - 1] == Zeros(n - 1);
      ValueZeros(n - 1);
    }
  }

  lemma {:induction false} ValueBelow(s: string)
    requires AllDigits(s)
    ensures Value(s) < Ten(|s|)
  {
    if s != "" { ValueBelow(s[..|s| - 1]); }
  }

  /** Digit strings of one length are equal when their values are. */
  lemma {:induction false} SameLengthSameValue(a: string, b: string)
    requires AllDigits(a) && AllDigits(b) && |a| == |b| && Value(a) == Value(b)
    ensures a == b
  {
    if a != "" {
      var n := |a| - 1;
      SameLengthSameValue(a[..n], b[..n]);
      assert a == a[..n] + [a[n]] && b == b[..n] + [b[n]];
    }
  }

  lemma {:induction false} ValueToString(n: nat)
    ensures Value(ToString(n)) == n
  {
    if n >= 10 {
      ValueToString(n / 10);
      var s := ToString(n);
      assert s[..|s| - 1] == ToString(n / 10);
    } else {
      assert ToString(n)[..0] == "";
    }
  }

  /** toString has no leading zero, and is the only digit string of its value without one. */
  lemma {:induction false} ToStringUnique(s: string)
    requires AllDigits(s) && s != "" && (|s| > 1 ==> s[0] != '0')
    ensures ToString(Value(s)) == s
  {
    var n := |s| - 1;
    var init := s[..n];
    if n == 0 {
      assert Value(init) == 0;
      assert s == [s[0]];
    } else {
      NoLeadingZero(init);
      ToStringUnique(init);
      assert Value(s) / 10 == Value(init);
      assert s == init + [s[n]];
    }
  }

  lemma {:induction false} NoLeadingZero(s: string)
    requires AllDigits(s) && s != "" && s[0] != '0'
    ensures Value(s) >= 1
  {
    if |s| > 1 { NoLeadingZero(s[..|s| - 1]); } else { assert s[..0] == ""; }
  }

  lemma {:induction false} ToStringShort(n: nat, d: nat)
    requires n < Ten(d) && d > 0
    ensures |ToString(n)| <= d
  {
    if n >= 10 { ToStringShort(n / 10, d - 1); }
  }

  lemma {:induction false} ToStringLead(n: nat)
    ensures n > 0 ==> ToString(n)[0] != '0'
  {
    if n >= 10 { ToStringLead(n / 10); }
  }

  lemma ZeroTimes(p: nat)
    ensures 0 * p == 0
  {
  }

  lemma ValuePadStart(s: string, d: nat)
    requires AllDigits(s)
    ensures Value(PadStart(s, d)) == Value(s)
  {
    hide Value, Ten;
    if |s| < d {
      ValueConcat(Zeros(d - |s|), s);
      ValueZeros(d - |s|);
      ZeroTimes(Ten(|s|));
    }
  }

  /** The fraction printed is the stripped string, and padding it again gives all its digits. */
  lemma {:induction false} FracDigits(raw: nat, d: nat) returns (f: string)
    requires d > 0
    ensures f == PadStart(ToString(Rem(raw, Ten(d))), d)
    ensures |f| == d && AllDigits(f) && Value(f) == Rem(raw, Ten(d))
    ensures f == StripZeros(f) + Zeros(d - |StripZeros(f)|)
  {
    var r := Rem(raw, Ten(d));
    ToStringShort(r, d);
    ValueToString(r);
    ValuePadStart(ToString(r), d);
    f := PadStart(ToString(r), d);
  }

  lemma SplitAtDot(w: string, f: string)
    requires AllDigits(w)
    ensures Dot(w) == |w| && Whole(w) == w && Frac(w) == ""
    ensures Dot(w + "." + f) == |w| && Whole(w + "." + f) == w && Frac(w + "." + f) == f
  {
    var s := w + "." + f;
    assert s[|w|] == '.' && (forall i :: 0 <= i < |w| ==> s[i] != '.');
  }

  // ── The printer and the parser ──

  /** Parsing what formatUnitsPlain prints gives back the units, for every amount. */
  lemma {:induction false} PrintedUnits(u: nat)
    ensures Plain(FormatUnitsPlain(u, 6)) && |Frac(FormatUnitsPlain(u, 6))| <= 6 && UnitsOf(FormatUnitsPlain(u, 6)) == u
  {
    hide Ten, Quot, Rem;
    var f := FracDigits(u, 6);
    QuotRem(u, Ten(6));
    var frac, w := StripZeros(f), ToString(Quot(u, Ten(6)));
    ValueToString(Quot(u, Ten(6)));
    SplitAtDot(w, frac);
    assert AllDigits(frac);
    assert (frac + Zeros(6))[..6] == f;
  }

  /** The canonical string has the units of the text it was read from. */
  lemma {:induction false} CanonicalKeepsUnits(raw: string)
    requires ParseUsdcAmount(raw).Some?
    ensures UsdcUnits(raw) == Some(UnitsOf(Trim(raw)))
  {
    PrintedUnits(UnitsOf(Trim(raw)));
  }

  /** Those units are exactly a million times the decimal: nothing is rounded. */
  lemma {:induction false} UnitsAreExact(raw: string)
    requires ParseUsdcAmount(raw).Some?
    ensures UsdcUnits(raw).Some? && UsdcUnits(raw).value * Ten(|Frac(Trim(raw))|) == Digits(Trim(raw)) * Ten(6)
    ensures UsdcUnits(raw).value > 0
  {
    hide Ten, ParseUsdcAmount, UsdcUnits;
    var s := Trim(raw);
    Accepted(raw);
    CanonicalKeepsUnits(raw);
    UnitsDigits(s);
  }

  lemma Accepted(raw: string)
    ensures ParseUsdcAmount(raw).Some? <==> Plain(Trim(raw)) && Digits(Trim(raw)) > 0 && |Frac(Trim(raw))| <= 6
  {
  }

  lemma UnitsDigits(s: string)
    requires Plain(s) && |Frac(s)| <= 6
    ensures UnitsOf(s) * Ten(|Frac(s)|) == Digits(s) * Ten(6)
    ensures Digits(s) > 0 ==> UnitsOf(s) > 0
  {
    var f, n := Frac(s), |Frac(s)|;
    assert (f + Zeros(6))[..6] == f + Zeros(6 - n);
    ValueConcat(f, Zeros(6 - n));
    ValueZeros(6 - n);
    TenSum(n, 6 - n);
    Rescale(Value(Whole(s)), Value(f), Ten(n), Ten(6 - n), Ten(6));
  }

  lemma Rescale(w: nat, f: nat, p: nat, q: nat, m: nat)
    requires m == p * q && p >= 1 && q >= 1
    ensures (w * m + f * q) * p == (w * p + f) * m
    ensures w * p + f > 0 ==> w * m + f * q > 0
  {
    var wm, fq, wp := w * m, f * q, w * p;
    MulSum(wm, fq, p);
    MulSum(wp, f, m);
    MulSwap(w, m, p);
    MulAssoc(f, q, p);
    assert q * p == m;
    if w > 0 { Grows(w, m); } else { assert wp == 0; }
    if f > 0 { Grows(f, q); }
  }

  lemma MulSum(a: int, b: int, c: int)
    ensures (a + b) * c == a * c + b * c
  {
  }

  lemma MulSwap(a: int, b: int, c: int)
    ensures (a * b) * c == (a * c) * b
  {
  }

  lemma Grows(a: nat, b: nat)
    requires a >= 1 && b >= 1
    ensures a * b >= 1
  {
  }

  /** Exactly the plain positive decimals with at most six places are accepted, and a canonical
      string is its own canonical form. */
  lemma {:induction false} CanonicalIsIdempotent(u: nat)
    requires u > 0
    ensures ParseUsdcAmount(FormatUnitsPlain(u, 6)) == Some(FormatUnitsPlain(u, 6))
    ensures UsdcUnits(FormatUnitsPlain(u, 6)) == Some(u)
  {
    hide Ten, FormatUnitsPlain;
    var s := FormatUnitsPlain(u, 6);
    PrintedUnits(u);
    NothingToTrim(s);
    UnitsDigits(s);
    Accepted(s);
  }

  lemma NothingToTrim(s: string)
    requires Plain(s)
    ensures Trim(s) == s
  {
    var d := Dot(s);
    assert s == Whole(s) + (if d < |s| then "." + Frac(s) else "");
  }

  lemma {:induction false} CanonicalOfCanonical(raw: string)
    requires ParseUsdcAmount(raw).Some?
    ensures ParseUsdcAmount(ParseUsdcAmount(raw).value) == ParseUsdcAmount(raw)
  {
    hide Ten, FormatUnitsPlain, UnitsOf;
    UnitsAreExact(raw);
    CanonicalKeepsUnits(raw);
    CanonicalIsIdempotent(UnitsOf(Trim(raw)));
  }

  /** Two accepted texts are the same amount exactly when their canonical strings are equal. */
  lemma {:induction false} EqualUnitsEqualText(a: string, b: string)
    requires ParseUsdcAmount(a).Some? && ParseUsdcAmount(b).Some?
    ensures UsdcUnits(a) == UsdcUnits(b) <==> ParseUsdcAmount(a) == ParseUsdcAmount(b)
  {
    hide Ten, FormatUnitsPlain, UnitsOf;
    CanonicalKeepsUnits(a);
    CanonicalKeepsUnits(b);
  }

  // ── Two printers, one string ──

  /** Padding the whole number splits into the integer part and the padded fraction. */
  lemma {:induction false} PaddedSplits(raw: nat, d: nat)
    requires d > 0
    ensures PadStart(ToString(raw), d + 1) == ToString(Quot(raw, Ten(d))) + PadStart(ToString(Rem(raw, Ten(d))), d)
  {
    hide Ten, Quot, Rem, Value;
    var p := Ten(d);
    var q := Quot(raw, p);
    var f := FracDigits(raw, d);
    QuotRem(raw, p);
    if q == 0 {
      ToStringShort(raw, d);
      assert Zeros(d + 1 - |ToString(raw)|) == "0" + Zeros(d - |ToString(raw)|);
    } else {
      var c := ToString(q) + f;
      ValueConcat(ToString(q), f);
      ValueToString(q);
      ToStringLead(q);
      assert Value(c) == raw;
      ToStringUnique(c);
    }
  }

  lemma {:induction false} StripAfterDot(w: string, f: string)
    ensures StripZeros(w + "." + f) == w + "." + StripZeros(f)
    decreases |f|
  {
    var s := w + "." + f;
    if f != "" && f[|f| - 1] == '0' {
      assert s[..|s| - 1] == w + "." + f[..|f| - 1];
      StripAfterDot(w, f[..|f| - 1]);
    }
  }

  /** The balance printer and formatUnitsPlain print the same string, for every balance and every
      positive number of decimals. */
  lemma {:induction false} PrintersAgree(raw: nat, d: nat)
    requires d > 0
    ensures BalanceString(raw, d) == FormatUnitsPlain(raw, d)
  {
    hide Ten, Quot, Rem;
    var f := FracDigits(raw, d);
    var w := ToString(Quot(raw, Ten(d)));
    PaddedSplits(raw, d);
    var s := PadStart(ToString(raw), d + 1);
    assert s[..|s| - d] == w && s[|s| - d..] == f;
    StripAfterDot(w, f);
    var z := w + "." + StripZeros(f);
    if StripZeros(f) == "" {
      assert z == w + "." && z[..|z| - 1] == w;
    } else {
      assert z[|z| - 1] == StripZeros(f)[|StripZeros(f)| - 1];
    }
  }
}
