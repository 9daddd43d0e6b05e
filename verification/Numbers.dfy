/** Decimal and octal number fields: what the printers write and what the parsers accept. */
module Numbers {
  import opened Octets

  const DIGIT_ZERO: Byte := 48
  const SPACE: Byte := 32

  function Pow(base: nat, k: nat): (p: nat)
    ensures base > 0 ==> p > 0
  {
    if k == 0 then 1 else base * Pow(base, k - 1)
  }

  lemma {:induction false} PowMonotone(base: nat, j: nat, k: nat)
    requires base > 0 && j <= k
    ensures Pow(base, j) <= Pow(base, k)
    decreases k - j
  {
    if j < k {
      PowMonotone(base, j, k - 1);
      assert Pow(base, k) == base * Pow(base, k - 1) >= Pow(base, k - 1);
    }
  }

  // ---------------------------------------------------------------- decimal

  predicate IsDigit(b: Byte) { 48 <= b <= 57 }

  predicate AllDigits(s: seq<Byte>)
  {
    forall i :: 0 <= i < |s| ==> IsDigit(s[i])
  }

  /** The canonical decimal representation. */
  function Decimal(n: nat): (s: seq<Byte>)
    ensures |s| >= 1 && AllDigits(s)
  {
    if n < 10 then [DIGIT_ZERO + n] else Decimal(n / 10) + [DIGIT_ZERO + n % 10]
  }

  function DecimalValue(s: seq<Byte>): nat
    requires AllDigits(s)
  {
    if s == [] then 0
    else 10 * DecimalValue(s[..|s| - 1]) + (s[|s| - 1] - DIGIT_ZERO)
  }

  /** A nonempty run of ASCII digits whose value fits 64 bits; no sign is accepted. */
  function ParseDecimal(s: seq<Byte>): Option<U64>
  {
    if s == [] || !AllDigits(s) then None
    else
      var v := DecimalValue(s);
      if v < U64_LIMIT then Some(v) else None
  }

  lemma {:induction false} DecimalValueOfDecimal(n: nat)
    ensures DecimalValue(Decimal(n)) == n
  {
    if n < 10 {
      assert Decimal(n)[..0] == [];
    } else {
      DecimalValueOfDecimal(n / 10);
      var s := Decimal(n);
      assert s[..|s| - 1] == Decimal(n / 10);
    }
  }

  /** Every 64-bit number survives printing and parsing. */
  lemma DecimalRoundTrip(n: U64)
    ensures ParseDecimal(Decimal(n)) == Some(n)
  {
    DecimalValueOfDecimal(n);
  }

  /** The number of digits brackets the number between powers of ten. */
  lemma {:induction false} DecimalLength(n: nat)
    ensures n < Pow(10, |Decimal(n)|)
    ensures n > 0 ==> Pow(10, |Decimal(n)| - 1) <= n
  {
    if n < 10 {
      assert Pow(10, 1) == 10 * Pow(10, 0) && Pow(10, 0) == 1;
    } else {
      DecimalLength(n / 10);
      var k := |Decimal(n / 10)|;
      assert Pow(10, k + 1) == 10 * Pow(10, k);
      assert Pow(10, k) == 10 * Pow(10, k - 1);
    }
  }

  lemma DecimalLengthIs(n: nat, k: nat)
    requires k > 0 && n < Pow(10, k) && Pow(10, k - 1) <= n
    ensures |Decimal(n)| == k
  {
    DecimalLength(n);
    var d := |Decimal(n)|;
    assert n > 0;
    if d < k { PowMonotone(10, d, k - 1); }
    if d > k { PowMonotone(10, k, d - 1); }
  }

  lemma {:induction false} DecimalLengthMonotone(m: nat, n: nat)
    requires m <= n
    ensures |Decimal(m)| <= |Decimal(n)|
  {
    if n >= 10 && m >= 10 {
      DecimalLengthMonotone(m / 10, n / 10);
    }
  }

  lemma U64HasTwentyDigits(n: U64)
    ensures |Decimal(n)| <= 20
  {
    DecimalLengthMonotone(n, U64_LIMIT - 1);
    assert |Decimal(18446744073709551615)| == 20 by {
      assert Pow(10, 5) == 100000 by { assert Pow(10, 2) == 100; assert Pow(10, 3) == 1000; assert Pow(10, 4) == 10000; }
      assert Pow(10, 10) == 10000000000 by {
        assert Pow(10, 6) == 1000000; assert Pow(10, 7) == 10000000; assert Pow(10, 8) == 100000000;
        assert Pow(10, 9) == 1000000000;
      }
      assert Pow(10, 15) == 1000000000000000 by {
        assert Pow(10, 11) == 100000000000; assert Pow(10, 12) == 1000000000000;
        assert Pow(10, 13) == 10000000000000; assert Pow(10, 14) == 100000000000000;
      }
      assert Pow(10, 20) == 100000000000000000000 by {
        assert Pow(10, 16) == 10000000000000000; assert Pow(10, 17) == 100000000000000000;
        assert Pow(10, 18) == 1000000000000000000; assert Pow(10, 19) == 10000000000000000000;
      }
      assert Pow(10, 20) == 10 * Pow(10, 19);
      DecimalLengthIs(18446744073709551615, 20);
    }
  }

  /** The decimal digits of 0 to 99, two bytes each. */
  const DECIMAL_PAIRS: seq<Byte> :=
    seq(200, i requires 0 <= i < 200 => if i % 2 == 0 then DIGIT_ZERO + i / 2 / 10 else DIGIT_ZERO + i / 2 % 10)

  /** The bytes the pair table holds for `v`. */
  lemma PairDigits(v: nat)
    requires v < 100
    ensures DECIMAL_PAIRS[v * 2] == DIGIT_ZERO + v / 10
    ensures DECIMAL_PAIRS[v * 2 + 1] == DIGIT_ZERO + v % 10
  {
  }

  /** The last two digits come from the pair table. */
  lemma DecimalLastPair(n: nat)
    requires n >= 100
    ensures Decimal(n) == Decimal(n / 100) + [DECIMAL_PAIRS[n % 100 * 2], DECIMAL_PAIRS[n % 100 * 2 + 1]]
  {
    var tens := n / 10;
    assert tens / 10 == n / 100;
    assert Decimal(n) == Decimal(tens) + [DIGIT_ZERO + n % 10];
    assert Decimal(tens) == Decimal(n / 100) + [DIGIT_ZERO + tens % 10];
    PairDigits(n % 100);
  }

  lemma DecimalLastFour(n: nat)
    requires n >= 10_000
    ensures var quad := n % 10_000;
            Decimal(n) == Decimal(n / 10_000) +
            [DECIMAL_PAIRS[quad / 100 * 2], DECIMAL_PAIRS[quad / 100 * 2 + 1],
             DECIMAL_PAIRS[quad % 100 * 2], DECIMAL_PAIRS[quad % 100 * 2 + 1]]
  {
    hide Decimal, DECIMAL_PAIRS;
    var quad := n % 10_000;
    var high := n / 100;
    assert quad / 100 == high % 100 && quad % 100 == n % 100 && high / 100 == n / 10_000;
    DecimalLastPair(n);
    DecimalLastPair(high);
  }

  /** Writes `value` right-aligned into a twenty-byte buffer; the digits start at `start`. */
  method DecimalU64(value: U64, buffer: array<Byte>) returns (start: nat)
    requires buffer.Length == 20
    modifies buffer
    ensures start < 20
    ensures buffer[start..] == Decimal(value)
  {
    if value < 10 {
      buffer[19] := DIGIT_ZERO + value;
      return 19;
    }
    if value < 100 {
      var tens := value / 10;
      buffer[18] := DIGIT_ZERO + tens;
      buffer[19] := DIGIT_ZERO + (value - tens * 10);
      assert Decimal(value / 10) == [DIGIT_ZERO + tens];
      return 18;
    }
    if value < 1_000 {
      var hundreds := value / 100;
      var remainder := value - hundreds * 100;
      var tens := remainder / 10;
      buffer[17] := DIGIT_ZERO + hundreds;
      buffer[18] := DIGIT_ZERO + tens;
      buffer[19] := DIGIT_ZERO + (remainder - tens * 10);
      assert Decimal(value / 100) == [DIGIT_ZERO + hundreds];
      assert value / 10 / 10 == value / 100;
      assert Decimal(value / 10) == [DIGIT_ZERO + hundreds, DIGIT_ZERO + tens];
      return 17;
    }
    start := DecimalU64Large(value, buffer);
  }

  method DecimalU64Large(value: U64, buffer: array<Byte>) returns (start: nat)
    requires buffer.Length == 20
    requires value >= 1_000
    modifies buffer
    ensures start < 20
    ensures buffer[start..] == Decimal(value)
  {
    var remaining := value;
    start := 20;
    while remaining >= 10_000
      invariant 0 < remaining <= value && start <= 20
      invariant Decimal(value) == Decimal(remaining) + buffer[start..]
    {
      DecimalLastFour(remaining);
      var quad := remaining % 10_000;
      var quotient := remaining / 10_000;
      ghost var written := buffer[start..];
      LengthLeavesRoom(value, remaining, written, 5);
      start := start - 4;
      WritePair(buffer, start + 2, quad % 100);
      WritePair(buffer, start, quad / 100);
      FourMore(Decimal(quotient), DECIMAL_PAIRS[quad / 100 * 2], DECIMAL_PAIRS[quad / 100 * 2 + 1],
               DECIMAL_PAIRS[quad % 100 * 2], DECIMAL_PAIRS[quad % 100 * 2 + 1], written);
      remaining := quotient;
    }
    start := WriteLeadingGroup(value, remaining, buffer, start);
  }

  /** The leading one to four digits, in front of the quads already written. */
  method WriteLeadingGroup(ghost value: U64, leading: nat, buffer: array<Byte>, from: nat) returns (start: nat)
    requires buffer.Length == 20 && from <= 20 && 0 < leading < 10_000
    requires Decimal(value) == Decimal(leading) + buffer[from..]
    modifies buffer
    ensures start < 20
    ensures buffer[start..] == Decimal(value)
  {
    hide DECIMAL_PAIRS;
    var remaining := leading;
    start := from;
    if remaining >= 100 {
      DecimalLastPair(remaining);
      LengthLeavesRoom(value, remaining, buffer[start..], 3);
      start := start - 2;
      WritePair(buffer, start, remaining % 100);
      remaining := remaining / 100;
    }
    start := WriteLastDigits(value, remaining, buffer, start);
  }

  /** A number below 100 is one digit, or the two bytes of its pair. */
  lemma ShortDecimal(n: nat)
    requires n < 100
    ensures Decimal(n) == if n < 10 then [DIGIT_ZERO + n] else [DECIMAL_PAIRS[n * 2], DECIMAL_PAIRS[n * 2 + 1]]
  {
    PairDigits(n);
    hide DECIMAL_PAIRS;
    if n >= 10 { assert Decimal(n / 10) == [DIGIT_ZERO + n / 10]; }
  }

  /** One or two digits from a number below 100. */
  method WriteLastDigits(ghost value: U64, remaining: nat, buffer: array<Byte>, from: nat) returns (start: nat)
    requires buffer.Length == 20 && from <= 20 && 0 < remaining < 100
    requires Decimal(value) == Decimal(remaining) + buffer[from..]
    modifies buffer
    ensures start < 20
    ensures buffer[start..] == Decimal(value)
  {
    hide DECIMAL_PAIRS, Decimal;
    start := from;
    ShortDecimal(remaining);
    if remaining >= 10 {
      LengthLeavesRoom(value, remaining, buffer[start..], 2);
      start := start - 2;
      WritePair(buffer, start, remaining);
    } else {
      LengthLeavesRoom(value, remaining, buffer[start..], 1);
      start := start - 1;
      ghost var tail := buffer[start + 1..];
      buffer[start] := DIGIT_ZERO + remaining;
      assert buffer[start..] == [buffer[start]] + tail;
    }
  }

  lemma FourMore(head: seq<Byte>, a: Byte, b: Byte, c: Byte, d: Byte, tail: seq<Byte>)
    ensures head + [a, b, c, d] + tail == head + ([a, b] + ([c, d] + tail))
  {
  }

  lemma LengthLeavesRoom(value: U64, remaining: nat, written: seq<Byte>, digits: nat)
    requires Decimal(value) == Decimal(remaining) + written
    requires 1 <= digits <= 5
    requires digits == 1 || remaining >= if digits == 2 then 10 else if digits == 3 then 100 else 10_000
    ensures |written| + digits <= 20
  {
    U64HasTwentyDigits(value);
    DecimalLength(remaining);
    assert Pow(10, 1) == 10 && Pow(10, 2) == 100 && Pow(10, 3) == 1000 && Pow(10, 4) == 10_000 by {
      assert Pow(10, 0) == 1;
    }
    if |Decimal(remaining)| < digits {
      PowMonotone(10, |Decimal(remaining)|, digits - 1);
    }
  }

  method WritePair(buffer: array<Byte>, at: nat, v: nat)
    requires at + 2 <= buffer.Length && v < 100
    modifies buffer
    ensures buffer[at..] == [DECIMAL_PAIRS[v * 2], DECIMAL_PAIRS[v * 2 + 1]] + old(buffer[at + 2..])
  {
    buffer[at] := DECIMAL_PAIRS[v * 2];
    buffer[at + 1] := DECIMAL_PAIRS[v * 2 + 1];
  }

  /** Floor of the base-ten logarithm. */
  function ILog10(n: nat): nat
    requires n > 0
  {
    if n < 10 then 0 else 1 + ILog10(n / 10)
  }

  lemma {:induction false} ILog10CountsDigits(n: nat)
    requires n > 0
    ensures ILog10(n) + 1 == |Decimal(n)|
  {
    if n >= 10 { ILog10CountsDigits(n / 10); }
  }

  /** The length a record with `suffix` bytes after its own digits declares: one digit estimate, then one correction. */
  function SelfCountingLength(suffix: nat): nat
    requires suffix > 0
  {
    var tentative := ILog10(suffix) + 1 + suffix;
    ILog10(tentative) + 1 + suffix
  }

  /** Adding a number's own digit count lengthens it by at most one digit, and adding one more lengthens it no further. */
  lemma OneMoreDigit(suffix: nat)
    requires suffix > 0
    ensures var k := |Decimal(suffix)|;
            && k <= |Decimal(k + suffix)| <= k + 1
            && |Decimal(k + 1 + suffix)| <= k + 1
  {
    hide Decimal, Pow;
    var k := |Decimal(suffix)|;
    DecimalLength(suffix);
    DecimalLengthMonotone(suffix, k + suffix);
    DecimalLengthMonotone(k + suffix, k + 1 + suffix);
    PowExceeds(k);
    var longest := |Decimal(k + 1 + suffix)|;
    DecimalLength(k + 1 + suffix);
    if longest > k + 1 {
      PowMonotone(10, k + 1, longest - 1);
    }
  }

  /** One correction always reaches the least length that counts its own digits. */
  lemma SelfCountingLengthIsLeast(suffix: nat)
    requires suffix > 0
    ensures var len := SelfCountingLength(suffix);
            && len == |Decimal(len)| + suffix
            && forall other: nat :: other == |Decimal(other)| + suffix ==> len <= other
  {
    hide Decimal;
    var k := |Decimal(suffix)|;
    var tentative := k + suffix;
    ILog10CountsDigits(suffix);
    ILog10CountsDigits(tentative);
    OneMoreDigit(suffix);
    if |Decimal(tentative)| > k {
      DecimalLengthMonotone(tentative, k + 1 + suffix);
    }
    forall other: nat | other == |Decimal(other)| + suffix ensures tentative <= other {
      DecimalLengthMonotone(suffix, other);
    }
    forall other: nat | other == |Decimal(other)| + suffix ensures |Decimal(tentative)| + suffix <= other {
      DecimalLengthMonotone(tentative, other);
    }
  }

  lemma {:induction false} PowExceeds(k: nat)
    requires k > 0
    ensures Pow(10, k) + k + 2 < Pow(10, k + 1)
  {
    if k == 1 {
      assert Pow(10, 1) == 10 && Pow(10, 2) == 100;
    } else {
      PowExceeds(k - 1);
      assert Pow(10, k + 1) == 10 * Pow(10, k) && Pow(10, k) == 10 * Pow(10, k - 1);
    }
  }

  // ------------------------------------------------------------------ octal

  predicate IsOctal(b: Byte) { 48 <= b <= 55 }

  predicate AllOctal(s: seq<Byte>)
  {
    forall i :: 0 <= i < |s| ==> IsOctal(s[i])
  }

  /** The low `width` octal digits of `value`, most significant first. */
  function OctalDigits(value: nat, width: nat): (s: seq<Byte>)
    ensures |s| == width && AllOctal(s)
  {
    if width == 0 then [] else OctalDigits(value / 8, width - 1) + [DIGIT_ZERO + value % 8]
  }

  function OctalValue(s: seq<Byte>): nat
    requires AllOctal(s)
  {
    if s == [] then 0 else 8 * OctalValue(s[..|s| - 1]) + (s[|s| - 1] - DIGIT_ZERO)
  }

  lemma {:induction false} OctalValueOfDigits(value: nat, width: nat)
    requires value < Pow(8, width)
    ensures OctalValue(OctalDigits(value, width)) == value
  {
    if width > 0 {
      assert Pow(8, width) == 8 * Pow(8, width - 1);
      OctalValueOfDigits(value / 8, width - 1);
      var s := OctalDigits(value, width);
      assert s[..width - 1] == OctalDigits(value / 8, width - 1);
    }
  }

  /** Length of the longest prefix of octal digits. */
  function OctalPrefix(s: seq<Byte>): (k: nat)
    ensures k <= |s| && AllOctal(s[..k])
    ensures k < |s| ==> !IsOctal(s[k])
  {
    if s == [] || !IsOctal(s[0]) then 0
    else
      var k := OctalPrefix(s[1..]);
      assert s[..k + 1] == [s[0]] + s[1..][..k];
      k + 1
  }

  predicate IsTerminator(b: Byte) { b == 0 || b == SPACE }

  /** Octal digits, then only NULs and spaces, at least one of each; the value must fit 64 bits. */
  function ParseOctal(s: seq<Byte>): Option<U64>
  {
    var k := OctalPrefix(s);
    if 0 < k < |s| && (forall i :: k <= i < |s| ==> IsTerminator(s[i])) && OctalValue(s[..k]) < U64_LIMIT
    then Some(OctalValue(s[..k]))
    else None
  }

  lemma OctalPrefixIs(s: seq<Byte>, k: nat)
    requires k <= |s| && AllOctal(s[..k]) && (k < |s| ==> !IsOctal(s[k]))
    ensures OctalPrefix(s) == k
  {
    var p := OctalPrefix(s);
    assert forall i :: 0 <= i < p ==> s[i] == s[..p][i];
    assert forall i :: 0 <= i < k ==> s[i] == s[..k][i];
  }

  lemma {:induction false} OctalValueGrows(s: seq<Byte>, k: nat)
    requires k <= |s| && AllOctal(s)
    ensures OctalValue(s[..k]) <= OctalValue(s)
    decreases |s|
  {
    if k < |s| {
      OctalValueGrows(s[..|s| - 1], k);
      assert s[..|s| - 1][..k] == s[..k];
    } else {
      assert s[..k] == s;
    }
  }

  /** The scanning loop over a header field accepts exactly the fields `ParseOctal` describes. */
  method ParseOctalField(bytes: seq<Byte>) returns (r: Option<U64>)
    ensures r == ParseOctal(bytes)
  {
    var value: U64 := 0;
    var hasDigits, terminated := false, false;
    ghost var k: nat := 0;
    for i := 0 to |bytes|
      invariant k <= i && AllOctal(bytes[..k]) && value == OctalValue(bytes[..k])
      invariant hasDigits <==> k > 0
      invariant terminated <==> k < i
      invariant forall j :: k <= j < i ==> IsTerminator(bytes[j])
    {
      var byte := bytes[i];
      if IsOctal(byte) && !terminated {
        ghost var wider := bytes[..k + 1];
        assert wider[..k] == bytes[..k];
        var next := value * 8 + (byte - DIGIT_ZERO);
        if next >= U64_LIMIT {
          OverflowRejects(bytes, k + 1);
          return None;
        }
        value := next;
        hasDigits := true;
        k := k + 1;
      } else if IsTerminator(byte) {
        terminated := true;
      } else {
        if ParseOctal(bytes).Some? {
          OctalPrefixIs(bytes, OctalPrefix(bytes));
          RejectedByte(bytes, k, i);
        }
        return None;
      }
    }
    OctalPrefixIs(bytes, k);
    return if hasDigits && terminated then Some(value) else None;
  }

  lemma OverflowRejects(bytes: seq<Byte>, k: nat)
    requires k <= |bytes| && AllOctal(bytes[..k]) && OctalValue(bytes[..k]) >= U64_LIMIT
    ensures ParseOctal(bytes) == None
  {
    var p := OctalPrefix(bytes);
    assert forall i :: 0 <= i < k ==> bytes[i] == bytes[..k][i];
    assert bytes[..p][..k] == bytes[..k];
    OctalValueGrows(bytes[..p], k);
  }

  lemma RejectedByte(bytes: seq<Byte>, k: nat, i: nat)
    requires k <= i < |bytes| && AllOctal(bytes[..k])
    requires forall j :: k <= j < i ==> IsTerminator(bytes[j])
    requires !IsTerminator(bytes[i]) && (k == i ==> !IsOctal(bytes[i]))
    ensures ParseOctal(bytes) == None
  {
    OctalPrefixIs(bytes, k);
  }

  /** Fills a header field with octal digits and `suffix`; fails exactly when the digits do not fit. */
  method EncodeOctal(block: array<Byte>, lo: nat, hi: nat, value: U64, suffix: seq<Byte>) returns (ok: bool)
    requires lo <= hi <= block.Length
    modifies block
    ensures ok <==> |suffix| < hi - lo && value < Pow(8, hi - lo - |suffix|)
    ensures ok ==> block[..] == Splice(old(block[..]), lo, OctalDigits(value, hi - lo - |suffix|) + suffix)
    ensures block[..lo] == old(block[..lo]) && block[hi..] == old(block[hi..])
  {
    hide Pow, OctalDigits;
    if hi - lo <= |suffix| {
      return false;
    }
    var width := hi - lo - |suffix|;
    WriteSuffix(block, lo + width, hi, suffix);
    ghost var written := block[..];
    ok := EncodeOctalDigits(block, lo, lo + width, value);
    FieldFilled(old(block[..]), written, block[..], lo, lo + width, hi);
  }

  method WriteSuffix(block: array<Byte>, at: nat, hi: nat, suffix: seq<Byte>)
    requires at + |suffix| == hi <= block.Length
    modifies block
    ensures block[at..hi] == suffix && block[..at] == old(block[..at]) && block[hi..] == old(block[hi..])
  {
    forall i | 0 <= i < |suffix| {
      block[at + i] := suffix[i];
    }
  }

  /** Writing behind `mid` first, then between `lo` and `mid`, replaces the window from `lo` to `hi`. */
  lemma FieldFilled(before: seq<Byte>, written: seq<Byte>, after: seq<Byte>, lo: nat, mid: nat, hi: nat)
    requires lo <= mid <= hi <= |before| == |written| == |after|
    requires written[..mid] == before[..mid] && written[hi..] == before[hi..]
    requires after[..lo] == written[..lo] && after[mid..] == written[mid..]
    ensures after[..lo] == before[..lo] && after[hi..] == before[hi..]
    ensures after == Splice(before, lo, after[lo..mid] + written[mid..hi])
  {
    assert written[..mid][..lo] == written[..lo] && before[..mid][..lo] == before[..lo];
    assert after[mid..][hi - mid..] == after[hi..] && written[mid..][hi - mid..] == written[hi..];
    assert after[mid..][..hi - mid] == after[mid..hi] && written[mid..][..hi - mid] == written[mid..hi];
    assert after == after[..lo] + (after[lo..mid] + after[mid..hi]) + after[hi..];
  }

  /** Writes the low octal digits of `value` from the right; reports whether nothing is left over. */
  method EncodeOctalDigits(block: array<Byte>, lo: nat, hi: nat, value: U64) returns (fits: bool)
    requires lo <= hi <= block.Length
    modifies block
    ensures fits <==> value < Pow(8, hi - lo)
    ensures block[lo..hi] == OctalDigits(value, hi - lo)
    ensures block[..lo] == old(block[..lo]) && block[hi..] == old(block[hi..])
  {
    var rest := value;
    var at := hi;
    while at > lo
      invariant lo <= at <= hi
      invariant 0 <= rest <= value
      invariant OctalDigits(value, hi - lo) == OctalDigits(rest, at - lo) + block[at..hi]
      invariant value < Pow(8, hi - lo) <==> rest < Pow(8, at - lo)
      invariant block[..lo] == old(block[..lo]) && block[hi..] == old(block[hi..])
    {
      ghost var tail := block[at..hi];
      OctalStep(rest, at - lo, tail);
      at := at - 1;
      block[at] := DIGIT_ZERO + rest % 8;
      rest := rest / 8;
      assert block[at..hi] == [block[at]] + tail;
    }
    return rest == 0;
  }

  lemma OctalStep(rest: nat, width: nat, tail: seq<Byte>)
    requires width > 0
    ensures OctalDigits(rest, width) + tail == OctalDigits(rest / 8, width - 1) + ([DIGIT_ZERO + rest % 8] + tail)
    ensures rest < Pow(8, width) <==> rest / 8 < Pow(8, width - 1)
  {
    assert Pow(8, width) == 8 * Pow(8, width - 1);
  }

  /** Floor of the base-eight logarithm; none for zero. */
  function CheckedILog8(n: nat): Option<nat>
  {
    if n == 0 then None
    else if n < 8 then Some(0)
    else Some(1 + CheckedILog8(n / 8).value)
  }

  function FitsOctal(fieldLen: nat, value: nat): bool
  {
    var log := CheckedILog8(value);
    (if log.None? then 1 else log.value + 1) < fieldLen
  }

  lemma {:induction false} ILog8Bounds(n: nat)
    requires n > 0
    ensures CheckedILog8(n).Some?
    ensures Pow(8, CheckedILog8(n).value) <= n < Pow(8, CheckedILog8(n).value + 1)
  {
    if n < 8 {
      assert Pow(8, 1) == 8 * Pow(8, 0);
    } else {
      ILog8Bounds(n / 8);
      var k := CheckedILog8(n / 8).value;
      assert Pow(8, k + 1) == 8 * Pow(8, k);
      assert Pow(8, k + 2) == 8 * Pow(8, k + 1);
    }
  }

  /** The writer's size test agrees with the field encoder on every field length and value. */
  lemma FitsOctalIsEncodable(fieldLen: nat, value: nat)
    ensures FitsOctal(fieldLen, value) <==> fieldLen > 1 && value < Pow(8, fieldLen - 1)
  {
    if value > 0 {
      ILog8Bounds(value);
      var k := CheckedILog8(value).value;
      if k + 1 < fieldLen { PowMonotone(8, k + 1, fieldLen - 1); }
      else if fieldLen > 1 { PowMonotone(8, fieldLen - 1, k); }
    }
  }

  /** A field the encoder filled, with any nonempty terminator, parses back to its value. */
  lemma OctalRoundTrip(value: U64, width: nat, suffix: seq<Byte>)
    requires 0 < width && value < Pow(8, width)
    requires suffix != [] && forall i :: 0 <= i < |suffix| ==> IsTerminator(suffix[i])
    ensures ParseOctal(OctalDigits(value, width) + suffix) == Some(value)
  {
    var s := OctalDigits(value, width) + suffix;
    assert s[..width] == OctalDigits(value, width);
    assert s[width] == suffix[0];
    OctalPrefixIs(s, width);
    OctalValueOfDigits(value, width);
  }

  /** GNU numbers: octal, or base 256 behind a 0x80 byte; negative base 256 is refused. */
  function ParseGnuNumber(s: seq<Byte>): Option<U64>
  {
    if s == [] then None
    else if s[0] == 0x80 then Base256(s[1..])
    else if s[0] == 0xff then None
    else ParseOctal(s)
  }

  function Base256(s: seq<Byte>): Option<U64>
  {
    if s == [] then Some(0)
    else
      match Base256(s[..|s| - 1])
      case None => None
      case Some(v) =>
        var next := v * 256 + s[|s| - 1];
        if next < U64_LIMIT then Some(next) else None
  }

  // ------------------------------------------------ what a field's digits mean

  /** Digits weighted by their places, the first byte the most significant; `zero` is the byte that stands for 0. */
  function Positional(digits: seq<Byte>, base: nat, zero: nat): int
  {
    if digits == [] then 0 else (digits[0] - zero) * Pow(base, |digits| - 1) + Positional(digits[1..], base, zero)
  }

  /** The last digit counts once, all before it `base` times as much as on their own. */
  lemma {:induction false} PositionalLast(digits: seq<Byte>, base: nat, zero: nat)
    requires digits != []
    ensures Positional(digits, base, zero) == Positional(digits[..|digits| - 1], base, zero) * base + (digits[|digits| - 1] - zero)
    decreases |digits|
  {
    if |digits| == 1 {
      assert digits[1..] == [] && digits[..0] == [];
      assert Positional(digits[1..], base, zero) == 0 && Pow(base, 0) == 1;
    } else {
      hide Pow, Positional;
      var init := digits[..|digits| - 1];
      PositionalLast(digits[1..], base, zero);
      assert digits[1..][..|digits| - 2] == init[1..];
      PositionalFirst(digits, base, zero);
      PositionalFirst(init, base, zero);
      OnePlaceMore(base, |digits| - 2);
      Shifted(digits[0] - zero, Pow(base, |digits| - 2), Positional(init[1..], base, zero), base);
    }
  }

  lemma PositionalFirst(digits: seq<Byte>, base: nat, zero: nat)
    requires digits != []
    ensures Positional(digits, base, zero) == (digits[0] - zero) * Pow(base, |digits| - 1) + Positional(digits[1..], base, zero)
  {
  }

  lemma OnePlaceMore(base: nat, k: nat)
    ensures Pow(base, k + 1) == base * Pow(base, k)
  {
  }

  lemma Shifted(d: int, p: int, rest: int, base: int)
    ensures (d * p + rest) * base == d * (base * p) + rest * base
  {
  }

  lemma {:induction false} OctalIsPositional(digits: seq<Byte>)
    requires AllOctal(digits)
    ensures OctalValue(digits) == Positional(digits, 8, 48)
  {
    if digits != [] {
      OctalIsPositional(digits[..|digits| - 1]);
      PositionalLast(digits, 8, 48);
    }
  }

  lemma {:induction false} DecimalIsPositional(digits: seq<Byte>)
    requires AllDigits(digits)
    ensures DecimalValue(digits) == Positional(digits, 10, 48)
  {
    if digits != [] {
      DecimalIsPositional(digits[..|digits| - 1]);
      PositionalLast(digits, 10, 48);
    }
  }

  /** The base-256 reader gives the big-endian value of its bytes exactly when that fits 64 bits. */
  lemma {:induction false} Base256IsPositional(digits: seq<Byte>)
    ensures 0 <= Positional(digits, 256, 0)
    ensures Base256(digits) == if Positional(digits, 256, 0) < U64_LIMIT then Some(Positional(digits, 256, 0)) else None
  {
    if digits != [] {
      Base256IsPositional(digits[..|digits| - 1]);
      PositionalLast(digits, 256, 0);
    }
  }

  /** At least one octal digit, then at least one NUL or space and nothing else; the digits mean `v`. */
  predicate SpellsOctal(field: seq<Byte>, v: nat)
  {
    exists k :: 0 < k < |field| && OctalTo(field, k) && v == Positional(field[..k], 8, 48)
  }

  predicate OctalTo(field: seq<Byte>, k: nat)
    requires k <= |field|
  {
    AllOctal(field[..k]) && forall i :: k <= i < |field| ==> field[i] == 0 || field[i] == 32
  }

  /** The byte 128, then a big-endian number. */
  predicate SpellsBinary(field: seq<Byte>, v: nat)
  {
    field != [] && field[0] == 128 && v == Positional(field[1..], 256, 0)
  }

  /** An octal field is read exactly as what it spells. */
  lemma OctalReads(field: seq<Byte>, v: U64)
    ensures ParseOctal(field) == Some(v) <==> SpellsOctal(field, v)
  {
    hide OctalValue, Positional;
    var p := OctalPrefix(field);
    OctalIsPositional(field[..p]);
    if ParseOctal(field) == Some(v) {
      assert OctalTo(field, p);
    }
    if SpellsOctal(field, v) {
      var k :| 0 < k < |field| && OctalTo(field, k) && v == Positional(field[..k], 8, 48);
      OctalPrefixIs(field, k);
    }
  }

  /** A GNU number field is read exactly as what it spells, in octal or in base 256. */
  lemma GnuNumberReads(field: seq<Byte>, v: U64)
    ensures ParseGnuNumber(field) == Some(v) <==> SpellsOctal(field, v) || SpellsBinary(field, v)
  {
    hide Base256, Positional, ParseOctal;
    OctalReads(field, v);
    if field != [] {
      Base256IsPositional(field[1..]);
      assert forall k :: 0 < k < |field| && OctalTo(field, k) ==> field[..k][0] == field[0];
    }
  }
}
