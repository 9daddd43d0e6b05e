/** Bytes, fixed-width integers and the sequence facts every other module builds on. */
module Octets {
  type Byte = x: int | 0 <= x < 256

  const U64_LIMIT: nat := 0x1_0000_0000_0000_0000

  type U64 = x: int | 0 <= x < U64_LIMIT

  const BLOCK_SIZE: nat := 512

  const SLASH: Byte := 47
  const DOT: Byte := 46

  /** One physical tar block. */
  type Block = b: seq<Byte> | |b| == BLOCK_SIZE witness Zeros(BLOCK_SIZE)

  datatype Option<+T> = None | Some(value: T)

  datatype Result<+T, +E> = Ok(value: T) | Err(error: E)

  function Min(a: int, b: int): int { if a <= b then a else b }

  function Zeros(n: nat): (s: seq<Byte>)
    ensures |s| == n
  {
    seq(n, _ => 0)
  }

  /** How many blocks hold `n` payload bytes. */
  function BlocksFor(n: nat): nat { (n + 511) / 512 }

  /** The least multiple of the block size that is not below `n`. */
  function Padded(n: nat): nat { 512 * BlocksFor(n) }

  /** `field` written over `s` starting at `at`. */
  function Splice(s: seq<Byte>, at: nat, field: seq<Byte>): (r: seq<Byte>)
    requires at + |field| <= |s|
    ensures |r| == |s|
    ensures r[at..at + |field|] == field
  {
    s[..at] + field + s[at + |field|..]
  }

  /** A splice leaves every window it does not touch unchanged. */
  lemma SpliceElsewhere(s: seq<Byte>, at: nat, field: seq<Byte>, lo: nat, hi: nat)
    requires at + |field| <= |s| && lo <= hi <= |s|
    requires hi <= at || at + |field| <= lo
    ensures Splice(s, at, field)[lo..hi] == s[lo..hi]
  {
    var r := Splice(s, at, field);
    assert forall i :: lo <= i < hi ==> r[i] == s[i];
  }

  /** The sum of all bytes. */
  function ByteSum(s: seq<Byte>): nat
  {
    if s == [] then 0 else s[0] + ByteSum(s[1..])
  }

  lemma {:induction false} ByteSumConcat(a: seq<Byte>, b: seq<Byte>)
    ensures ByteSum(a + b) == ByteSum(a) + ByteSum(b)
  {
    if a == [] {
      assert a + b == b;
    } else {
      assert (a + b)[1..] == a[1..] + b;
      ByteSumConcat(a[1..], b);
    }
  }

  lemma {:induction false} ByteSumBound(s: seq<Byte>)
    ensures ByteSum(s) <= 255 * |s|
  {
    if s != [] { ByteSumBound(s[1..]); }
  }

  /** Index of the first occurrence of `b`, if there is one. */
  function Find(s: seq<Byte>, b: Byte): (r: Option<nat>)
    ensures r.Some? ==> r.value < |s| && s[r.value] == b && b !in s[..r.value]
    ensures r.None? <==> b !in s
  {
    if s == [] then None
    else if s[0] == b then Some(0)
    else
      match Find(s[1..], b)
      case None => None
      case Some(i) => assert s[..i + 1] == [s[0]] + s[1..][..i]; Some(i + 1)
  }

  /** The first occurrence of a byte after a prefix free of it. */
  lemma FindAfter(prefix: seq<Byte>, b: Byte, rest: seq<Byte>)
    requires b !in prefix
    ensures Find(prefix + [b] + rest, b) == Some(|prefix|)
  {
    var s := prefix + [b] + rest;
    assert s[|prefix|] == b;
    var i := Find(s, b).value;
    assert i <= |prefix| ==> s[..i] == prefix[..i];
    assert forall j :: 0 <= j < i ==> s[j] == s[..i][j];
  }

  /** The bytes before the first NUL, or all of them. */
  function TrimNul(s: seq<Byte>): (r: seq<Byte>)
    ensures r <= s && 0 !in r
    ensures |r| < |s| ==> s[|r|] == 0
  {
    match Find(s, 0)
    case None => s
    case Some(i) => s[..i]
  }

  predicate AllNul(s: seq<Byte>)
  {
    forall i :: 0 <= i < |s| ==> s[i] == 0
  }

  /** `text` in a NUL-filled field of `width` bytes. */
  function NulPadded(text: seq<Byte>, width: nat): (s: seq<Byte>)
    requires |text| <= width
    ensures |s| == width
  {
    text + Zeros(width - |text|)
  }

  lemma TrimNulPadded(text: seq<Byte>, width: nat)
    requires |text| <= width && 0 !in text
    ensures TrimNul(NulPadded(text, width)) == text
  {
    var s := NulPadded(text, width);
    if |text| == width {
      assert s == text;
    } else {
      assert s == text + [0] + Zeros(width - |text| - 1);
      FindAfter(text, 0, Zeros(width - |text| - 1));
    }
  }

  // ---- UTF-8 (the well-formed byte sequences of the Unicode standard) ----

  predicate Continuation(b: Byte) { 0x80 <= b <= 0xBF }

  predicate ThreeByteLead(a: Byte, b: Byte)
  {
    || (a == 0xE0 && 0xA0 <= b <= 0xBF)
    || (a == 0xED && 0x80 <= b <= 0x9F)
    || (0xE1 <= a <= 0xEF && a != 0xED && Continuation(b))
  }

  predicate FourByteLead(a: Byte, b: Byte)
  {
    || (a == 0xF0 && 0x90 <= b <= 0xBF)
    || (a == 0xF4 && 0x80 <= b <= 0x8F)
    || (0xF1 <= a <= 0xF3 && Continuation(b))
  }

  /** Length in bytes of the well-formed character at the front of `s`; 0 if there is none. */
  function CharLength(s: seq<Byte>): (n: nat)
    requires s != []
    ensures n <= |s|
  {
    if s[0] < 0x80 then 1
    else if |s| >= 2 && 0xC2 <= s[0] <= 0xDF && Continuation(s[1]) then 2
    else if |s| >= 3 && ThreeByteLead(s[0], s[1]) && Continuation(s[2]) then 3
    else if |s| >= 4 && FourByteLead(s[0], s[1]) && Continuation(s[2]) && Continuation(s[3]) then 4
    else 0
  }

  predicate ValidUtf8(s: seq<Byte>)
  {
    s == [] || (CharLength(s) > 0 && ValidUtf8(s[CharLength(s)..]))
  }

  /** UTF-8 text, held as its bytes. */
  type Text = s: seq<Byte> | ValidUtf8(s)

  lemma {:induction false} AsciiIsUtf8(s: seq<Byte>)
    requires forall i :: 0 <= i < |s| ==> s[i] < 0x80
    ensures ValidUtf8(s)
  {
    if s != [] {
      AsciiIsUtf8(s[1..]);
    }
  }
}
