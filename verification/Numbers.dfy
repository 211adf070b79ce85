/** Printing and parsing numbers: ksprintn of kernel/utils/kprintf.c and strtouq of kernel/utils/strtouq.c. */
module Numbers {
  import opened Align
  import opened Time

  type byte = x: nat | x < 256

  const UQUAD_MAX: nat := U64 - 1
  const MAXNBUF := 65

  // ----- characters (kernel/sys/ctype.h) -----

  predicate IsSpace(c: byte) { c == 32 || 9 <= c <= 13 }

  predicate IsAscii(c: byte) { c < 128 }

  predicate IsUpper(c: byte) { 65 <= c <= 90 }

  predicate IsLower(c: byte) { 97 <= c <= 122 }

  predicate IsAlpha(c: byte) { IsUpper(c) || IsLower(c) }

  predicate IsDigit(c: byte) { 48 <= c <= 57 }

  function ToUpper(c: byte): byte { if IsLower(c) then c - 32 else c }

  /** hex2ascii. */
  function Hex2Ascii(d: nat): byte
    requires d < 36
  {
    if d < 10 then 48 + d else 87 + d
  }

  function Digit(d: nat, upper: bool): byte
    requires d < 36
  {
    if upper then ToUpper(Hex2Ascii(d)) else Hex2Ascii(d)
  }

  /** The value of a digit character, or 36 for any other character. */
  function DigitOf(c: byte): nat {
    if IsDigit(c) then c - 48 else if IsUpper(c) then c - 55 else if IsLower(c) then c - 87 else 36
  }

  lemma DigitRoundTrip(d: nat, upper: bool)
    requires d < 36
    ensures DigitOf(Digit(d, upper)) == d && IsAscii(Digit(d, upper)) && !IsSpace(Digit(d, upper))
    ensures Digit(d, upper) != 0 && Digit(d, upper) != 45 && Digit(d, upper) != 43
  {
  }

  const LOWER: string := "0123456789abcdefghijklmnopqrstuvwxyz"
  const UPPER: string := "0123456789ABCDEFGHIJKLMNOPQRSTUVWXYZ"

  /** The digit characters, by value: ksprintn writes them, strtouq reads them in either case and no others, and white
      space is the six characters of the C locale. */
  lemma DigitTable(d: nat, c: byte)
    ensures d < 36 ==> Digit(d, false) == LOWER[d] as int && Digit(d, true) == UPPER[d] as int
    ensures d < 36 ==> (DigitOf(c) == d <==> c == LOWER[d] as int || c == UPPER[d] as int)
    ensures DigitOf(c) <= 36
    ensures IsSpace(c) <==>
      (c == ' ' as int || c == '\t' as int || c == '\n' as int || c == 11 || c == 12 || c == '\r' as int)
  {
    if d < 36 { TableAt(d); }
  }

  lemma TableAt(d: nat)
    requires d < 36
    ensures LOWER[d] as int == (if d < 10 then 48 + d else 87 + d)
    ensures UPPER[d] as int == (if d < 10 then 48 + d else 55 + d)
  {
  }

  // ----- positional notation -----

  /** The number the digits name, most significant first. */
  ghost function Number(ds: seq<nat>, base: nat): nat {
    if ds == [] then 0 else Number(ds[..|ds| - 1], base) * base + ds[|ds| - 1]
  }

  /** The digits of a number, most significant first. */
  ghost function Digits(n: nat, base: nat): (ds: seq<nat>)
    requires base >= 2
    ensures |ds| >= 1 && forall i :: 0 <= i < |ds| ==> ds[i] < base
    decreases n
  {
    if n < base then [n] else DivLess(n, base); Digits(n / base, base) + [n % base]
  }

  lemma DivLess(n: nat, base: nat)
    requires base >= 2 && n >= base
    ensures n / base < n && n == n / base * base + n % base
  {
    var q, r := n / base, n % base;
    assert n == q * base + r;
    if q >= n { MulMore(q, n, base); }
  }

  lemma MulMore(q: nat, n: nat, base: nat)
    requires q >= n >= 1 && base >= 2
    ensures q * base > n
  {
    assert q * base >= q * 2;
  }

  lemma {:induction false} DigitsNumber(n: nat, base: nat)
    requires base >= 2
    ensures Number(Digits(n, base), base) == n
    decreases n
  {
    var ds := Digits(n, base);
    if n < base {
      assert ds[..0] == [];
    } else {
      DivLess(n, base);
      DigitsNumber(n / base, base);
      assert ds[..|ds| - 1] == Digits(n / base, base);
    }
  }

  /** A number below 2^k has at most k digits in any base. */
  lemma {:induction false} DigitsLength(n: nat, base: nat, k: nat)
    requires base >= 2 && n < Pow2(k) && k >= 1
    ensures |Digits(n, base)| <= k
    decreases n
  {
    if n >= base {
      DivLess(n, base);
      HalfBound(n, base, k);
      DigitsLength(n / base, base, k - 1);
    }
  }

  lemma HalfBound(n: nat, base: nat, k: nat)
    requires base >= 2 && base <= n < Pow2(k) && k >= 1
    ensures k >= 2 && n / base < Pow2(k - 1)
  {
    var q, p := n / base, Pow2(k - 1);
    DivLess(n, base);
    assert Pow2(k) == 2 * p;
    assert Pow2(0) == 1;
    assert q * base >= q * 2;
  }

  // ----- ksprintn -----

  /** A number as text. */
  ghost function Text(n: nat, base: nat, upper: bool): (t: seq<byte>)
    requires 2 <= base <= 36
    ensures |t| == |Digits(n, base)| && forall i :: 0 <= i < |t| ==> t[i] == Digit(Digits(n, base)[i], upper)
  {
    var ds := Digits(n, base);
    seq<byte>(|ds|, i requires 0 <= i < |ds| => Digit(ds[i], upper))
  }

  /** The digits still to be written, `n`, and those written, the last of `ds`. */
  lemma NextDigit(ds: seq<nat>, n: nat, base: nat)
    requires base >= 2 && ds == Digits(n, base)
    ensures ds[|ds| - 1] == n % base && (n / base == 0 <==> |ds| == 1)
    ensures n / base != 0 ==> ds[..|ds| - 1] == Digits(n / base, base)
  {
    if n >= base {
      DivLess(n, base);
      assert n / base != 0;
    } else {
      assert n / base == 0 && n % base == n;
    }
  }

  /** The last digit of `n`, and the others. */
  method Peel(n: nat, base: nat, ghost ds: seq<nat>) returns (c: byte, q: nat)
    requires 2 <= base <= 36 && ds == Digits(n, base)
    ensures ds != [] && ds[|ds| - 1] < 36 && c == Hex2Ascii(ds[|ds| - 1])
    ensures (q == 0 <==> |ds| == 1) && (q != 0 ==> ds[..|ds| - 1] == Digits(q, base))
  {
    NextDigit(ds, n, base);
    c := Hex2Ascii(n % base);
    q := n / base;
  }

  /** ksprintn: writes the digits backwards after a NUL and returns the place of the first one. It stays within
      MAXNBUF. */
  method Ksprintn(nbuf: array<byte>, num: u64, base: nat, upper: bool) returns (p: nat)
    requires nbuf.Length >= MAXNBUF && 2 <= base <= 36
    modifies nbuf
    ensures 1 <= p < MAXNBUF && nbuf[0] == 0 && p == |Text(num, base, upper)|
    ensures forall i :: 0 <= i < p ==> nbuf[p - i] == Text(num, base, upper)[i]
    ensures forall i :: p < i < nbuf.Length ==> nbuf[i] == old(nbuf[i])
  {
    hide Digits, Pow2;
    ghost var ds := Digits(num, base);
    Pow2_64();
    DigitsLength(num, base, 64);
    p := 0;
    nbuf[0] := 0;
    var n: nat := num;
    var more := true;
    ghost var left := ds;
    while more
      invariant 0 <= p <= |ds| && (more ==> left == Digits(n, base)) && left == ds[..|ds| - p] && (!more ==> p == |ds|)
      invariant nbuf[0] == 0 && forall i :: 1 <= i <= p ==> nbuf[i] == Digit(ds[|ds| - i], upper)
      invariant forall i :: p < i < nbuf.Length ==> nbuf[i] == old(nbuf[i])
      decreases more, |ds| - p
    {
      var c;
      c, n := Peel(n, base, left);
      p := p + 1;
      nbuf[p] := if upper then ToUpper(c) else c;
      more := n != 0;
      left := left[..|left| - 1];
    }
  }

  lemma Pow2_64()
    ensures Pow2(64) == U64
  {
    assert Pow2(8) == 256;
    Pow2Add(8, 8);
    Pow2Add(16, 16);
    Pow2Add(32, 32);
  }

  // ----- strtouq -----

  /** A C string: no NUL inside, and one just behind. */
  predicate CString(text: seq<byte>) { forall c :: c in text ==> c != 0 }

  function CharAt(text: seq<byte>, i: nat): byte
    requires i <= |text|
  {
    if i < |text| then text[i] else 0
  }

  function SkipSpaces(text: seq<byte>, i: nat): (j: nat)
    requires i <= |text|
    ensures i <= j <= |text| && !IsSpace(CharAt(text, j))
    decreases |text| - i
  {
    if i < |text| && IsSpace(text[i]) then SkipSpaces(text, i + 1) else i
  }

  /** Where the digits start, in which base, and whether there is a minus sign. */
  datatype Header = Header(neg: bool, base: nat, start: nat)

  function SignOf(text: seq<byte>): (h: Header)
    ensures h.start <= |text|
  {
    var i := SkipSpaces(text, 0);
    if CharAt(text, i) == 45 then Header(true, 0, i + 1)
    else if CharAt(text, i) == 43 then Header(false, 0, i + 1)
    else Header(false, 0, i)
  }

  /** A leading 0x is skipped whether or not a hexadecimal digit follows. */
  function HeaderOf(text: seq<byte>, base: nat): (h: Header)
    requires base == 0 || 2 <= base <= 36
    ensures h.start <= |text| && 2 <= h.base <= 36
  {
    var s := SignOf(text);
    var i := s.start;
    if (base == 0 || base == 16) && CharAt(text, i) == 48 &&
      (CharAt(text, i + 1) == 120 || CharAt(text, i + 1) == 88) then Header(s.neg, 16, i + 2)
    else Header(s.neg, if base != 0 then base else if CharAt(text, i) == 48 then 8 else 10, i)
  }

  /** Where the run of digits from `i` on ends. */
  function RunEnd(text: seq<byte>, i: nat, base: nat): (j: nat)
    requires i <= |text| && base <= 36
    ensures i <= j <= |text| && DigitOf(CharAt(text, j)) >= base
    ensures forall k :: i <= k < j ==> DigitOf(text[k]) < base
    decreases |text| - i
  {
    if i < |text| && DigitOf(text[i]) < base then RunEnd(text, i + 1, base) else i
  }

  ghost function Values(text: seq<byte>, i: nat, j: nat): (ds: seq<nat>)
    requires i <= j <= |text|
    ensures |ds| == j - i && forall k :: 0 <= k < j - i ==> ds[k] == DigitOf(text[i + k])
  {
    seq<nat>(j - i, k requires 0 <= k < j - i => DigitOf(text[i + k]))
  }

  /** What the standard's conversion gives: the number, saturated; negated modulo 2^64 after a minus sign. */
  ghost function Converted(neg: bool, any: bool, v: nat): u64 {
    if !any then 0 else if v > UQUAD_MAX then UQUAD_MAX else if neg then (U64 - v) % U64 else v
  }

  lemma MoreDigits(text: seq<byte>, i: nat, j: nat, base: nat)
    requires i <= j < |text|
    ensures Number(Values(text, i, j + 1), base) == Number(Values(text, i, j), base) * base + DigitOf(text[j])
  {
    var ds := Values(text, i, j + 1);
    assert ds[..|ds| - 1] == Values(text, i, j);
  }

  /** The overflow test is exact: one more digit fits precisely when the value stays within 64 bits. */
  lemma Cutoff(acc: nat, d: nat, base: nat)
    requires 2 <= base && d < base
    ensures acc > UQUAD_MAX / base || (acc == UQUAD_MAX / base && d > UQUAD_MAX % base) <==> acc * base + d > UQUAD_MAX
  {
    var q, r := UQUAD_MAX / base, UQUAD_MAX % base;
    assert UQUAD_MAX == q * base + r && r < base;
    if acc > q { MulGap(q, acc, base); }
    if acc < q { MulGap(acc, q, base); }
  }

  lemma StaysOver(v: nat, d: nat, base: nat)
    requires v > UQUAD_MAX && base >= 2
    ensures v * base + d > UQUAD_MAX
  {
    assert v * base >= v;
  }

  /** The digit loop, from `i` on in base `base`. */
  method ParseDigits(text: seq<byte>, i: nat, base: nat) returns (acc: u64, any: int, j: nat)
    requires CString(text) && i <= |text| && 2 <= base <= 36
    ensures j == RunEnd(text, i, base)
    ensures var v := Number(Values(text, i, j), base);
      if i == j then any == 0 && acc == 0 else if v > UQUAD_MAX then any == -1 else any == 1 && acc == v
  {
    hide Number, Values;
    var cutoff, cutlim := UQUAD_MAX / base, UQUAD_MAX % base;
    acc, any, j := 0, 0, i;
    Nothing(text, i, base);
    ghost var v: nat := 0;
    while true
      invariant i <= j <= |text| && RunEnd(text, i, base) == RunEnd(text, j, base)
      invariant v == Number(Values(text, i, j), base)
      invariant if any < 0 then v > UQUAD_MAX && any == -1 else acc == v && any == if i == j then 0 else 1
      invariant any < 0 ==> i < j
      decreases |text| - j
    {
      var c := CharAt(text, j);
      var d: nat;
      if !IsAscii(c) {
        break;
      }
      if IsDigit(c) {
        d := c - 48;
      } else if IsAlpha(c) {
        d := if IsUpper(c) then c - 55 else c - 87;
      } else {
        break;
      }
      if d >= base {
        break;
      }
      MoreDigits(text, i, j, base);
      Cutoff(acc, d, base);
      if any < 0 || acc > cutoff || (acc == cutoff && d > cutlim) {
        if any < 0 { StaysOver(v, d, base); }
        any := -1;
      } else {
        any := 1;
        acc := acc * base + d;
      }
      v := v * base + d;
      j := j + 1;
    }
  }

  lemma Nothing(text: seq<byte>, i: nat, base: nat)
    requires i <= |text|
    ensures Number(Values(text, i, i), base) == 0
  {
    assert Values(text, i, i) == [];
  }

  /** strtouq: the converted number, and where parsing stopped, which is the very start if there was no digit. */
  method Strtouq(text: seq<byte>, base: nat) returns (acc: u64, end: nat)
    requires CString(text) && (base == 0 || 2 <= base <= 36)
    ensures var h := HeaderOf(text, base);
      var j := RunEnd(text, h.start, h.base);
      && acc == Converted(h.neg, j > h.start, Number(Values(text, h.start, j), h.base))
      && end == if j > h.start then j else 0
    ensures forall sp, sign, rest, digits, after :: Parsed(text, sp, sign, rest, digits, after, base) ==>
      Means(sign, rest, digits, base, |text| - |after|, acc, end)
  {
    hide Number, Values, RunEnd, HeaderOf, Parsed, DigitValues, Radix;
    var neg, b, i := ParseHeader(text, base);
    var any, j;
    acc, any, j := ParseDigits(text, i, b);
    if any < 0 {
      acc := UQUAD_MAX;
    } else if neg {
      acc := if acc == 0 then 0 else U64 - acc;
    }
    end := if any != 0 then j else 0;
    forall sp, sign, rest, digits, after | Parsed(text, sp, sign, rest, digits, after, base)
      ensures |after| <= |text| && Means(sign, rest, digits, base, |text| - |after|, acc, end)
    {
      Meaning(text, sp, sign, rest, digits, after, base);
    }
  }

  /** White space, a sign and the prefix of a base. */
  method ParseHeader(text: seq<byte>, base: nat) returns (neg: bool, b: nat, i: nat)
    requires CString(text) && (base == 0 || 2 <= base <= 36)
    ensures Header(neg, b, i) == HeaderOf(text, base) && 2 <= b <= 36 && i <= |text|
  {
    i := 0;
    while IsSpace(CharAt(text, i))
      invariant i <= |text| && SkipSpaces(text, 0) == SkipSpaces(text, i)
      decreases |text| - i
    {
      i := i + 1;
    }
    neg := CharAt(text, i) == 45;
    if neg || CharAt(text, i) == 43 {
      i := i + 1;
    }
    b := base;
    if (b == 0 || b == 16) && CharAt(text, i) == 48 && (CharAt(text, i + 1) == 120 || CharAt(text, i + 1) == 88) {
      i := i + 2;
      b := 16;
    }
    if b == 0 {
      b := if CharAt(text, i) == 48 then 8 else 10;
    }
  }

  // ----- what strtouq reads -----

  /** `text` is white space, a sign or none, and the rest, which does not start with what belongs before it. */
  ghost predicate Leads(text: seq<byte>, sp: seq<byte>, sign: seq<byte>, rest: seq<byte>) {
    && text == sp + sign + rest && (forall c :: c in sp ==> IsSpace(c))
    && (sign == [] || sign == ['-' as int] || sign == ['+' as int])
    && (sign == [] && rest != [] ==> !IsSpace(rest[0]) && rest[0] != '-' as int && rest[0] != '+' as int)
  }

  /** The prefix of a hexadecimal number, and the base the text is read in. */
  ghost predicate Prefixed(rest: seq<byte>, base: nat) {
    (base == 0 || base == 16) && |rest| >= 2 && rest[0] == '0' as int &&
      (rest[1] == 'x' as int || rest[1] == 'X' as int)
  }

  ghost function Radix(rest: seq<byte>, base: nat): nat {
    if base != 0 then base
    else if Prefixed(rest, base) then 16
    else if rest != [] && rest[0] == '0' as int then 8
    else 10
  }

  lemma {:induction false} SkipAll(sp: seq<byte>, more: seq<byte>, i: nat)
    requires i <= |sp| && (forall c :: c in sp ==> IsSpace(c)) && (more != [] ==> !IsSpace(more[0]))
    ensures SkipSpaces(sp + more, i) == |sp|
    decreases |sp| - i
  {
    if i < |sp| {
      assert (sp + more)[i] == sp[i] && sp[i] in sp;
      SkipAll(sp, more, i + 1);
    }
  }

  /** The header of such a text. */
  lemma HeaderParts(text: seq<byte>, sp: seq<byte>, sign: seq<byte>, rest: seq<byte>, base: nat)
    requires Leads(text, sp, sign, rest) && (base == 0 || 2 <= base <= 36)
    ensures HeaderOf(text, base) ==
      Header(sign == ['-' as int], Radix(rest, base), |sp| + |sign| + if Prefixed(rest, base) then 2 else 0)
  {
    assert text == sp + (sign + rest);
    SkipAll(sp, sign + rest, 0);
    var i := |sp| + |sign|;
    assert sign != [] ==> text[|sp|] == sign[0];
    forall k | 0 <= k < |rest| ensures text[i + k] == rest[k] { }
  }

  /** Every text is of that form. */
  lemma Decompose(text: seq<byte>) returns (sp: seq<byte>, sign: seq<byte>, rest: seq<byte>)
    ensures Leads(text, sp, sign, rest)
  {
    var i := SkipSpaces(text, 0);
    SkippedSpaces(text, 0);
    sp, rest := text[..i], text[i..];
    sign := if rest != [] && (rest[0] == '-' as int || rest[0] == '+' as int) then [rest[0]] else [];
    rest := text[i + |sign|..];
  }

  lemma {:induction false} SkippedSpaces(text: seq<byte>, i: nat)
    requires i <= |text|
    ensures forall k :: i <= k < SkipSpaces(text, i) ==> IsSpace(text[k])
    decreases |text| - i
  {
    if i < |text| && IsSpace(text[i]) { SkippedSpaces(text, i + 1); }
  }

  /** The digits that follow, and what comes after them. */
  ghost predicate Reads(digits: seq<byte>, after: seq<byte>, base: nat) {
    (forall c :: c in digits ==> DigitOf(c) < base) && (after != [] ==> DigitOf(after[0]) >= base)
  }

  lemma {:induction false} RunOf(text: seq<byte>, i: nat, digits: seq<byte>, after: seq<byte>, base: nat)
    requires i <= |text| && text[i..] == digits + after && Reads(digits, after, base) && base <= 36
    ensures RunEnd(text, i, base) == i + |digits|
    decreases |digits|
  {
    if digits != [] {
      assert text[i] == text[i..][0] == digits[0] && digits[0] in digits;
      assert text[i + 1..] == text[i..][1..] == digits[1..] + after;
      RunOf(text, i + 1, digits[1..], after, base);
    } else if i < |text| {
      assert text[i] == text[i..][0] == after[0];
    }
  }

  /** A text in its parts: white space, a sign, a prefix, digits and what comes after them. */
  ghost predicate Parsed(text: seq<byte>, sp: seq<byte>, sign: seq<byte>, rest: seq<byte>, digits: seq<byte>,
      after: seq<byte>, base: nat) {
    && Leads(text, sp, sign, rest) && Reads(digits, after, Radix(rest, base))
    && rest[if Prefixed(rest, base) then 2 else 0..] == digits + after
  }

  ghost function DigitValues(digits: seq<byte>): (ds: seq<nat>)
    ensures |ds| == |digits| && forall k :: 0 <= k < |digits| ==> ds[k] == DigitOf(digits[k])
  {
    seq<nat>(|digits|, k requires 0 <= k < |digits| => DigitOf(digits[k]))
  }

  /** The text gives the number the digits name, saturated, and negated modulo 2^64 exactly after a minus sign; reading
      stops behind the digits, or at the start if there are none. */
  ghost predicate Means(sign: seq<byte>, rest: seq<byte>, digits: seq<byte>, base: nat, place: nat, acc: u64,
      end: nat) {
    var v := Number(DigitValues(digits), Radix(rest, base));
    if digits == [] then acc == 0 && end == 0
    else
      && end == place
      && acc == if v >= U64 then U64 - 1 else if sign == ['-' as int] && v > 0 then U64 - v else v
  }

  lemma Meaning(text: seq<byte>, sp: seq<byte>, sign: seq<byte>, rest: seq<byte>, digits: seq<byte>, after: seq<byte>,
      base: nat)
    requires Parsed(text, sp, sign, rest, digits, after, base) && (base == 0 || 2 <= base <= 36)
    ensures var h := HeaderOf(text, base);
      var j := RunEnd(text, h.start, h.base);
      && j == |text| - |after| && (j > h.start <==> digits != []) && Values(text, h.start, j) == DigitValues(digits)
      && h.base == Radix(rest, base) && (h.neg <==> sign == ['-' as int])
  {
    HeaderParts(text, sp, sign, rest, base);
    var h := HeaderOf(text, base);
    assert text[h.start..] == rest[if Prefixed(rest, base) then 2 else 0..];
    RunOf(text, h.start, digits, after, h.base);
    forall k | 0 <= k < |digits| ensures text[h.start + k] == digits[k] { assert text[h.start..][k] == digits[k]; }
  }

  /** Every text has such parts. */
  lemma HasParts(text: seq<byte>, base: nat)
    returns (sp: seq<byte>, sign: seq<byte>, rest: seq<byte>, digits: seq<byte>, after: seq<byte>)
    requires base == 0 || 2 <= base <= 36
    ensures Parsed(text, sp, sign, rest, digits, after, base)
  {
    sp, sign, rest := Decompose(text);
    var body := rest[if Prefixed(rest, base) then 2 else 0..];
    var j := RunEnd(body, 0, Radix(rest, base));
    digits, after := body[..j], body[j..];
  }

  // ----- the round trip -----

  /** The text of a number has no sign and no prefix, and is one run of digits. */
  lemma TextHeader(n: nat, base: nat, upper: bool)
    requires 2 <= base <= 36
    ensures var t := Text(n, base, upper);
      CString(t) && HeaderOf(t, base) == Header(false, base, 0) && RunEnd(t, 0, base) == |t|
    ensures var t := Text(n, base, upper); Values(t, 0, |t|) == Digits(n, base)
  {
    var t, ds := Text(n, base, upper), Digits(n, base);
    forall i | 0 <= i < |t| ensures DigitOf(t[i]) == ds[i] && !IsSpace(t[i]) && t[i] != 0 && t[i] != 45 && t[i] != 43 {
      DigitRoundTrip(ds[i], upper);
    }
    assert SkipSpaces(t, 0) == 0;
    RunAll(t, 0, base);
    if base == 16 && |t| > 1 { assert DigitOf(t[1]) < 16; }
    assert Values(t, 0, |t|) == ds;
  }

  lemma {:induction false} RunAll(t: seq<byte>, i: nat, base: nat)
    requires i <= |t| && base <= 36 && forall k :: i <= k < |t| ==> DigitOf(t[k]) < base
    ensures RunEnd(t, i, base) == |t|
    decreases |t| - i
  {
    if i < |t| { RunAll(t, i + 1, base); }
  }

  /** Parsing what ksprintn prints gives the number back, in every base and in either case. */
  lemma RoundTrip(n: u64, base: nat, upper: bool)
    requires 2 <= base <= 36
    ensures var t := Text(n, base, upper);
      var h := HeaderOf(t, base);
      var j := RunEnd(t, h.start, h.base);
      j == |t| > h.start && Converted(h.neg, true, Number(Values(t, h.start, j), h.base)) == n
  {
    TextHeader(n, base, upper);
    DigitsNumber(n, base);
  }

  /** The two methods together: the digits in the buffer, read from the end, parse to the number printed. */
  method PrintAndParse(n: u64, base: nat, upper: bool) returns (acc: u64, end: nat)
    requires 2 <= base <= 36
    ensures acc == n && end == |Text(n, base, upper)|
  {
    hide Text, Number, Values, HeaderOf;
    var nbuf := new byte[MAXNBUF](_ => 0);
    var p := Ksprintn(nbuf, n, base, upper);
    var t := seq(p, i requires 0 <= i < p reads nbuf => if 0 <= p - i < nbuf.Length then nbuf[p - i] else 0);
    assert t == Text(n, base, upper);
    TextHeader(n, base, upper);
    RoundTrip(n, base, upper);
    acc, end := Strtouq(t, base);
  }
}
