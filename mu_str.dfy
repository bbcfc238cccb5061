// mu_str: non-owning views `(bytes, len)` onto read-only byte buffers.  A view
// is modelled as the whole underlying buffer plus the offset its `bytes`
// pointer points at, so that two views over one buffer (a slice and its
// source, a copy) can be told apart from two equal strings.  The predicate
// passed to match and trim is a Dafny function: its `void *arg` is bound in.

module MuStr {
  import opened Common

  /** MU_STR_END and MU_STR_NOT_FOUND are both PTRDIFF_MAX. */
  const STR_END: int := TWO63 - 1
  const NOT_FOUND: int := TWO63 - 1

  /** The decimal digits '0' .. '9'. */
  predicate IsDecimal(b: Byte)
  {
    '0' as int <= b <= '9' as int
  }

  // ---------------------------------------------------------------------------
  // Comparison

  /** Length of the longest common prefix of a and b. */
  function CommonPrefix(a: seq<Byte>, b: seq<Byte>): (k: nat)
    ensures k <= |a| && k <= |b|
    ensures a[..k] == b[..k]
    ensures k < |a| && k < |b| ==> a[k] != b[k]
    decreases |a|
  {
    if |a| == 0 || |b| == 0 || a[0] != b[0] then 0
    else
      var k := CommonPrefix(a[1..], b[1..]);
      assert a[..k + 1] == [a[0]] + a[1..][..k];
      assert b[..k + 1] == [b[0]] + b[1..][..k];
      k + 1
  }

  /** Lexicographic order on byte strings, a proper prefix sorting first. */
  predicate LexLess(a: seq<Byte>, b: seq<Byte>)
    decreases |a|
  {
    |b| > 0 && (|a| == 0 || a[0] < b[0] || (a[0] == b[0] && LexLess(a[1..], b[1..])))
  }

  /** What str_compare_aux returns: the first byte difference, else the length difference. */
  function CompareValue(a: seq<Byte>, b: seq<Byte>): int
  {
    var k := CommonPrefix(a, b);
    if k < |a| && k < |b| then a[k] - b[k] else |a| - |b|
  }

  /** The sign of the comparison is the lexicographic order, and zero is equality. */
  lemma {:induction false} CompareValueSign(a: seq<Byte>, b: seq<Byte>)
    ensures CompareValue(a, b) == 0 <==> a == b
    ensures CompareValue(a, b) < 0 <==> LexLess(a, b)
    ensures CompareValue(a, b) > 0 <==> LexLess(b, a)
    decreases |a|
  {
    if |a| == 0 || |b| == 0 {
    } else if a[0] != b[0] {
      assert CommonPrefix(a, b) == 0;
    } else {
      CompareValueSign(a[1..], b[1..]);
      assert CommonPrefix(a, b) == CommonPrefix(a[1..], b[1..]) + 1;
      assert CompareValue(a, b) == CompareValue(a[1..], b[1..]);
      assert a == [a[0]] + a[1..] && b == [b[0]] + b[1..];
    }
  }

  /** Equal prefixes up to a differing position fix the common prefix. */
  lemma CommonPrefixAt(a: seq<Byte>, b: seq<Byte>, i: nat)
    requires i <= |a| && i <= |b| && a[..i] == b[..i]
    requires i < |a| && i < |b| ==> a[i] != b[i]
    ensures CommonPrefix(a, b) == i
  {
  }

  // ---------------------------------------------------------------------------
  // Slicing

  /**
   * The byte range [s, e) that mu_str_slice selects from a view of `len`
   * bytes.  A negative index counts from the end, a non-negative one (or
   * MU_STR_END) is limited to len, and the end is never before the start.
   * A start below -len is never brought back into range, so it is excluded.
   */
  function SliceBounds(len: nat, start: I64, end: I64): (b: (nat, nat))
    requires -(len as int) <= start
    ensures b.0 <= b.1 <= len
    ensures start < 0 ==> b.0 == len + start
    ensures start >= 0 ==> b.0 == if start < len && start != STR_END then start else len
    ensures end < 0 ==> b.1 == if len + end < b.0 then b.0 else len + end
    ensures end >= 0 ==> b.1 == if end < len && end != STR_END then (if end < b.0 then b.0 else end) else len
  {
    var s := if start < 0 then len + start
             else if start > len || start == STR_END then len
             else start;
    var e := if end < 0 then len + end
             else if end >= len || end == STR_END then len
             else end;
    if e < s then (s, s) else (s, e)
  }

  /** A slice of a view is a view of the same buffer. */
  lemma SubSlice(b: seq<Byte>, o: nat, l: nat, s: nat, e: nat)
    requires o + l <= |b| && s <= e <= l
    ensures b[o..o + l][s..e] == b[o + s..o + s + (e - s)]
  {
    var v, w := b[o..o + l][s..e], b[o + s..o + s + (e - s)];
    assert forall i :: 0 <= i < e - s ==> v[i] == w[i];
  }

  /** Slicing [0, k) and [k, MU_STR_END) splits a view in two. */
  lemma SliceSplits(s: seq<Byte>, k: I64)
    requires 0 <= k
    ensures var lo := SliceBounds(|s|, 0, k);
            var hi := SliceBounds(|s|, k, STR_END);
            s[lo.0..lo.1] + s[hi.0..hi.1] == s
  {
    var lo := SliceBounds(|s|, 0, k);
    var hi := SliceBounds(|s|, k, STR_END);
    assert lo.1 == hi.0;
    assert s[..lo.1] + s[lo.1..] == s;
  }

  /**
   * Slicing from 0 to MU_STR_END keeps the whole view, and a slice of a
   * slice holds the same bytes as one slice of the original view, starting
   * at the sum of the two starts.
   */
  lemma SliceWholeAndNested(s: seq<Byte>, a: I64, b: I64, c: I64, d: I64)
    requires -(|s| as int) <= a
    requires -((SliceBounds(|s|, a, b).1 - SliceBounds(|s|, a, b).0) as int) <= c
    ensures SliceBounds(|s|, 0, STR_END) == (0, |s|)
    ensures var w := SliceBounds(|s|, 0, STR_END); s[w.0..w.1] == s
    ensures var o := SliceBounds(|s|, a, b);
            var i := SliceBounds(o.1 - o.0, c, d);
            o.0 + i.1 <= o.1 &&
            s[o.0..o.1][i.0..i.1] == s[o.0 + i.0..o.0 + i.1]
  {
    var o := SliceBounds(|s|, a, b);
    var i := SliceBounds(o.1 - o.0, c, d);
    SubSlice(s, o.0, o.1 - o.0, i.0, i.1);
  }

  // ---------------------------------------------------------------------------
  // Matching a predicate and trimming

  /** The first index whose predicate result equals `want`, if there is one. */
  function FirstWhere(s: seq<Byte>, pred: Byte -> bool, want: bool): (r: Option<nat>)
    ensures r.None? <==> forall i :: 0 <= i < |s| ==> pred(s[i]) != want
    ensures r.Some? ==> r.value < |s| && pred(s[r.value]) == want
    ensures r.Some? ==> forall i :: 0 <= i < r.value ==> pred(s[i]) != want
    decreases |s|
  {
    if |s| == 0 then None
    else if pred(s[0]) == want then Some(0)
    else
      match FirstWhere(s[1..], pred, want)
      case None =>
        assert forall i :: 1 <= i < |s| ==> s[i] == s[1..][i - 1];
        None
      case Some(i) =>
        assert forall k :: 1 <= k < i + 1 ==> s[k] == s[1..][k - 1];
        Some(i + 1)
  }

  /** The last index whose predicate result equals `want`, if there is one. */
  function LastWhere(s: seq<Byte>, pred: Byte -> bool, want: bool): (r: Option<nat>)
    ensures r.None? <==> forall i :: 0 <= i < |s| ==> pred(s[i]) != want
    ensures r.Some? ==> r.value < |s| && pred(s[r.value]) == want
    ensures r.Some? ==> forall i :: r.value < i < |s| ==> pred(s[i]) != want
    decreases |s|
  {
    if |s| == 0 then None
    else if pred(s[|s| - 1]) == want then Some(|s| - 1)
    else
      var r := LastWhere(s[..|s| - 1], pred, want);
      assert forall i :: 0 <= i < |s| - 1 ==> s[i] == s[..|s| - 1][i];
      r
  }

  /** mu_str_ltrim: the view from the first byte that fails the predicate; unchanged if none fails. */
  function TrimLeft(s: seq<Byte>, pred: Byte -> bool): seq<Byte>
  {
    match FirstWhere(s, pred, false)
    case None => s
    case Some(i) => s[i..]
  }

  /** mu_str_rtrim as the header describes it: up to and including the last byte that fails. */
  function TrimRight(s: seq<Byte>, pred: Byte -> bool): seq<Byte>
  {
    match LastWhere(s, pred, false)
    case None => s
    case Some(i) => s[..i + 1]
  }

  /** mu_str_rtrim as written: it slices to the last failing byte exclusive, dropping that byte. */
  function RTrimAsWritten(s: seq<Byte>, pred: Byte -> bool): seq<Byte>
  {
    match LastWhere(s, pred, false)
    case None => s
    case Some(i) => s[..i]
  }

  /** ltrim removes exactly a leading run of predicate bytes and stops at a failing byte. */
  lemma TrimLeftRemovesLeadingRun(s: seq<Byte>, pred: Byte -> bool)
    ensures var r := TrimLeft(s, pred);
            |r| <= |s| && r == s[|s| - |r|..] &&
            (forall i :: 0 <= i < |s| - |r| ==> pred(s[i])) &&
            (r == s || !pred(r[0]))
    ensures (forall i :: 0 <= i < |s| ==> pred(s[i])) ==> TrimLeft(s, pred) == s
  {
  }

  /** The corrected rtrim removes exactly a trailing run of predicate bytes. */
  lemma TrimRightRemovesTrailingRun(s: seq<Byte>, pred: Byte -> bool)
    ensures var r := TrimRight(s, pred);
            |r| <= |s| && r == s[..|r|] &&
            (forall i :: |r| <= i < |s| ==> pred(s[i])) &&
            (r == s || !pred(r[|r| - 1]))
    ensures (forall i :: 0 <= i < |s| ==> pred(s[i])) ==> TrimRight(s, pred) == s
  {
  }

  /** Trimming twice trims no more than trimming once. */
  lemma TrimIdempotent(s: seq<Byte>, pred: Byte -> bool)
    ensures TrimLeft(TrimLeft(s, pred), pred) == TrimLeft(s, pred)
    ensures TrimRight(TrimRight(s, pred), pred) == TrimRight(s, pred)
  {
    var l := TrimLeft(s, pred);
    match FirstWhere(s, pred, false)
    case None =>
    case Some(i) =>
      assert l[0] == s[i];
      assert FirstWhere(l, pred, false) == Some(0);
    var r := TrimRight(s, pred);
    match LastWhere(s, pred, false)
    case None =>
    case Some(i) =>
      assert r[i] == s[i];
      assert LastWhere(r, pred, false) == Some(i);
  }

  /** Whenever some byte fails the predicate, the rtrim as written loses the last such byte. */
  lemma RTrimAsWrittenLosesByte(s: seq<Byte>, pred: Byte -> bool)
    requires exists i :: 0 <= i < |s| && !pred(s[i])
    ensures var fixed := TrimRight(s, pred);
            |fixed| > 0 && RTrimAsWritten(s, pred) == fixed[..|fixed| - 1] &&
            !pred(fixed[|fixed| - 1])
  {
    var i :| 0 <= i < |s| && !pred(s[i]);
    assert LastWhere(s, pred, false).Some?;
  }

  /** The whitespace test "  abcde  ": as written, rtrim yields "  abcd"; "  abcde" is intended. */
  lemma RTrimAsWrittenExample()
    ensures var s: seq<Byte> := [32, 32, 97, 98, 99, 100, 101, 32, 32];
            var ws := (b: Byte) => b == 32;
            RTrimAsWritten(s, ws) == [32, 32, 97, 98, 99, 100] &&
            TrimRight(s, ws) == [32, 32, 97, 98, 99, 100, 101]
  {
    var s: seq<Byte> := [32, 32, 97, 98, 99, 100, 101, 32, 32];
    var ws := (b: Byte) => b == 32;
    assert !ws(s[6]) && ws(s[7]) && ws(s[8]);
    assert LastWhere(s, ws, false) == Some(6);
  }

  // ---------------------------------------------------------------------------
  // Substring search

  /** The needle occurs in the haystack starting at index i. */
  predicate MatchesAt(h: seq<Byte>, n: seq<Byte>, i: int)
  {
    0 <= i && i + |n| <= |h| && h[i..i + |n|] == n
  }

  /**
   * mu_str_find_aux as written, reading the memory behind the haystack view:
   * `buffer[offset..]` is everything readable from the view's start and the
   * view covers its first `hlen` bytes.  The scan runs while i is at most the
   * size_t difference hlen - |n|, which wraps to a huge value when the needle
   * is the longer; the scan stops where the modelled memory ends.
   */
  function FindAsWritten(buffer: seq<Byte>, offset: nat, hlen: nat, n: seq<Byte>, i: nat): int
    requires offset <= |buffer|
    decreases |buffer| - i
  {
    if |n| == 0 then 0
    else if i > (hlen - |n|) % TWO64 || offset + i + |n| > |buffer| then NOT_FOUND
    else if buffer[offset + i..offset + i + |n|] == n then i
    else FindAsWritten(buffer, offset, hlen, n, i + 1)
  }

  /** A view "a" over the buffer "ab": as written, find reports "ab" at index 0, beyond the view. */
  lemma FindAsWrittenOverreads()
    ensures var buffer: seq<Byte> := [97, 98];
            FindAsWritten(buffer, 0, 1, [97, 98], 0) == 0 &&
            !MatchesAt(buffer[..1], [97, 98], 0)
  {
    var buffer: seq<Byte> := [97, 98];
    assert buffer[0..2] == [97, 98];
  }

  // ---------------------------------------------------------------------------
  // Integer parsing

  /** The integer widths the parsers are instantiated at: 8, 16, 32 and 64 bits. */
  datatype Width = W8 | W16 | W32 | W64

  function Modulus(w: Width): (m: nat)
    ensures m >= 0x100 && m % 2 == 0
  {
    match w
    case W8 => 0x100
    case W16 => 0x1_0000
    case W32 => TWO32
    case W64 => TWO64
  }

  /** Storing an integer in the unsigned type of width w. */
  function WrapUnsigned(w: Width, x: int): (r: nat)
    ensures r < Modulus(w)
  {
    match w
    case W8 => x % 0x100
    case W16 => x % 0x1_0000
    case W32 => x % 0x1_0000_0000
    case W64 => x % 0x1_0000_0000_0000_0000
  }

  /** Storing in the unsigned type keeps the remainder modulo 2^w. */
  lemma WrapUnsignedIsMod(w: Width, x: int)
    ensures WrapUnsigned(w, x) == x % Modulus(w)
  {
    match w
    case W8 =>
    case W16 =>
    case W32 =>
    case W64 =>
  }

  /** Storing an integer in the two's complement signed type of width w. */
  function WrapSigned(w: Width, x: int): (r: int)
    ensures -(Modulus(w) / 2) <= r < Modulus(w) / 2
  {
    var m := WrapUnsigned(w, x);
    if m < Modulus(w) / 2 then m else m - Modulus(w)
  }

  /** Values the unsigned type can hold are stored unchanged, and storing is modulo 2^w. */
  lemma WrapUnsignedFacts(w: Width, x: int)
    ensures 0 <= x < Modulus(w) ==> WrapUnsigned(w, x) == x
    ensures WrapUnsigned(w, x + Modulus(w)) == WrapUnsigned(w, x)
  {
    WrapUnsignedIsMod(w, x);
    WrapUnsignedIsMod(w, x + Modulus(w));
    ModShift(x, 1, Modulus(w));
    if 0 <= x < Modulus(w) {
      ModUnique(x, 0, x, Modulus(w));
    }
  }

  /** Storing keeps the value modulo 2^w. */
  lemma WrapMod(w: Width, x: int)
    ensures WrapUnsigned(w, x) % Modulus(w) == x % Modulus(w)
    ensures WrapSigned(w, x) % Modulus(w) == x % Modulus(w)
  {
    WrapUnsignedIsMod(w, x);
    var m := x % Modulus(w);
    ModUnique(m, 0, m, Modulus(w));
    ModUnique(m - Modulus(w), -1, m, Modulus(w));
  }

  /** Values the signed type can hold are stored unchanged. */
  lemma WrapSignedInRange(w: Width, x: int)
    requires -(Modulus(w) / 2) <= x < Modulus(w) / 2
    ensures WrapSigned(w, x) == x
  {
    var m := Modulus(w);
    WrapUnsignedIsMod(w, x);
    if x >= 0 {
      ModUnique(x, 0, x, m);
    } else {
      ModUnique(x, -1, x + m, m);
    }
  }

  /** Congruent integers agree modulo m after the same affine step. */
  lemma ModAffine(a: int, b: int, c: int, d: int, m: int)
    requires m > 0 && a % m == b % m
    ensures (a * c + d) % m == (b * c + d) % m
  {
    var qa, qb := a / m, b / m;
    assert a == qa * m + a % m;
    assert b == qb * m + b % m;
    var x := b * c + d;
    var k := (qa - qb) * c;
    assert a * c + d == x + k * m;
    ModShift(x, k, m);
  }

  /** Adding a multiple of m does not change a remainder modulo m. */
  lemma ModShift(x: int, k: int, m: int)
    requires m > 0
    ensures (x + k * m) % m == x % m
  {
    var q, r := x / m, x % m;
    assert x == q * m + r && 0 <= r < m;
    assert x + k * m == (q + k) * m + r;
    ModUnique(x + k * m, q + k, r, m);
  }

  /** The Euclidean remainder is the unique r in [0, m) with n == q * m + r. */
  lemma ModUnique(n: int, q: int, r: int, m: int)
    requires m > 0 && 0 <= r < m && n == q * m + r
    ensures n % m == r
  {
    var q', r' := n / m, n % m;
    var t := q - q';
    assert q * m - q' * m == t * m;
    assert t * m == r' - r;
    if t >= 1 {
      MulAtLeast(t, m);
    } else if t <= -1 {
      MulAtLeast(-t, m);
    }
  }

  lemma MulAtLeast(t: int, m: int)
    requires t >= 1 && m > 0
    ensures t * m >= m
  {
    assert t * m == (t - 1) * m + m;
  }

  /** Integers congruent modulo 2^w are stored as the same signed value. */
  lemma WrapSignedCongruent(w: Width, a: int, b: int)
    requires a % Modulus(w) == b % Modulus(w)
    ensures WrapSigned(w, a) == WrapSigned(w, b)
  {
    WrapUnsignedIsMod(w, a);
    WrapUnsignedIsMod(w, b);
  }

  /** One accumulation step of the signed parsers keeps the stored value congruent to the exact one. */
  lemma SignedStep(w: Width, v: int, acc: int, c: int, d: int)
    requires v == WrapSigned(w, acc)
    ensures WrapSigned(w, v * c + d) == WrapSigned(w, acc * c + d)
  {
    WrapMod(w, acc);
    ModAffine(v, acc, c, d, Modulus(w));
    WrapSignedCongruent(w, v * c + d, acc * c + d);
  }

  /** One accumulation step of the unsigned parsers. */
  lemma UnsignedStep(w: Width, v: int, acc: int, d: int)
    requires v == WrapUnsigned(w, acc)
    ensures WrapUnsigned(w, v * 10 + d) == WrapUnsigned(w, acc * 10 + d)
  {
    WrapMod(w, acc);
    ModAffine(v, acc, 10, d, Modulus(w));
  }

  /** Extending a digit prefix by one digit. */
  lemma DecimalSnoc(s: seq<Byte>, k: nat)
    requires k < |s| && forall i :: 0 <= i <= k ==> IsDecimal(s[i])
    ensures DecimalValue(s[..k + 1]) == DecimalValue(s[..k]) * 10 + (s[k] - '0' as int)
  {
    assert s[..k + 1][..k] == s[..k];
  }

  /** The value of a string of decimal digits, most significant first. */
  function DecimalValue(s: seq<Byte>): nat
    requires forall i :: 0 <= i < |s| ==> IsDecimal(s[i])
  {
    if |s| == 0 then 0
    else
      assert IsDecimal(s[|s| - 1]);
      DecimalValue(s[..|s| - 1]) * 10 + (s[|s| - 1] - '0' as int)
  }

  /** The leading run of decimal digits. */
  function DigitPrefix(s: seq<Byte>): (r: seq<Byte>)
    ensures |r| <= |s| && r == s[..|r|]
    ensures forall i :: 0 <= i < |r| ==> IsDecimal(r[i])
    ensures |r| < |s| ==> !IsDecimal(s[|r|])
    decreases |s|
  {
    if |s| == 0 || !IsDecimal(s[0]) then []
    else
      var r := DigitPrefix(s[1..]);
      assert [s[0]] + r == s[..|r| + 1];
      [s[0]] + r
  }

  /** A leading digit run of length k. */
  lemma DigitPrefixAt(s: seq<Byte>, k: nat)
    requires k <= |s| && (forall i :: 0 <= i < k ==> IsDecimal(s[i]))
    requires k < |s| ==> !IsDecimal(s[k])
    ensures DigitPrefix(s) == s[..k]
  {
  }

  /** What the unsigned parsers return for view bytes s: the digit run's value, wrapped. */
  function UnsignedValue(w: Width, s: seq<Byte>): nat
  {
    WrapUnsigned(w, DecimalValue(DigitPrefix(s)))
  }

  /** What the signed parsers return: an optional '-' and the digit run's value, wrapped. */
  function SignedValue(w: Width, s: seq<Byte>): int
  {
    if |s| >= 1 && s[0] == '-' as int then WrapSigned(w, -(DecimalValue(DigitPrefix(s[1..])) as int))
    else WrapSigned(w, DecimalValue(DigitPrefix(s)))
  }

  /** The decimal text of n without leading zeros. */
  function Decimal(n: nat): (r: seq<Byte>)
    ensures |r| > 0 && forall i :: 0 <= i < |r| ==> IsDecimal(r[i])
  {
    if n < 10 then [n + '0' as int] else Decimal(n / 10) + [n % 10 + '0' as int]
  }

  /** Reading back the decimal text of n gives n. */
  lemma {:induction false} DecimalRoundTrip(n: nat)
    ensures DecimalValue(Decimal(n)) == n
  {
    if n >= 10 {
      DecimalRoundTrip(n / 10);
      var r := Decimal(n);
      assert r[..|r| - 1] == Decimal(n / 10);
    }
  }

  /** The unsigned parsers read back every value their type holds from its decimal text. */
  lemma ParseUnsignedRoundTrip(w: Width, n: nat, rest: seq<Byte>)
    requires n < Modulus(w) && (|rest| > 0 ==> !IsDecimal(rest[0]))
    ensures UnsignedValue(w, Decimal(n) + rest) == n
  {
    DigitsThenRest(n, rest);
    WrapUnsignedFacts(w, n);
  }

  /** The signed parsers read back every non-negative value their type holds. */
  lemma ParseSignedRoundTrip(w: Width, n: nat, rest: seq<Byte>)
    requires n < Modulus(w) / 2 && (|rest| > 0 ==> !IsDecimal(rest[0]))
    ensures SignedValue(w, Decimal(n) + rest) == n
  {
    DigitsThenRest(n, rest);
    var d := Decimal(n);
    assert (d + rest)[0] == d[0] && IsDecimal(d[0]);
    WrapSignedInRange(w, n);
  }

  /** With a leading '-', the signed parsers read back every negative value their type holds. */
  lemma ParseNegativeRoundTrip(w: Width, n: nat, rest: seq<Byte>)
    requires n <= Modulus(w) / 2 && (|rest| > 0 ==> !IsDecimal(rest[0]))
    ensures SignedValue(w, ['-' as int] + Decimal(n) + rest) == -(n as int)
  {
    NegativeDigitsThenRest(n, rest);
    WrapSignedInRange(w, -(n as int));
  }

  /** After a leading '-', the signed parsers read the digits that follow it. */
  lemma NegativeDigitsThenRest(n: nat, rest: seq<Byte>)
    requires |rest| > 0 ==> !IsDecimal(rest[0])
    ensures var s := ['-' as int] + Decimal(n) + rest;
            |s| >= 1 && s[0] == '-' as int && DecimalValue(DigitPrefix(s[1..])) == n
  {
    var s := ['-' as int] + Decimal(n) + rest;
    assert s[1..] == Decimal(n) + rest;
    DigitsThenRest(n, rest);
  }

  /** The digit run of n's decimal text followed by a non-digit has value n. */
  lemma DigitsThenRest(n: nat, rest: seq<Byte>)
    requires |rest| > 0 ==> !IsDecimal(rest[0])
    ensures DecimalValue(DigitPrefix(Decimal(n) + rest)) == n
  {
    var d := Decimal(n);
    DecimalRoundTrip(n);
    DigitPrefixAt(d + rest, |d|);
    assert (d + rest)[..|d|] == d;
  }

  // ---------------------------------------------------------------------------
  // strlen, for views made from C strings

  /** The length of the NUL-terminated string starting at b[o]. */
  method StrLen(b: seq<Byte>, o: nat) returns (n: nat)
    requires o <= |b| && exists k :: o <= k < |b| && b[k] == 0
    ensures o + n < |b| && b[o + n] == 0
    ensures forall k :: o <= k < o + n ==> b[k] != 0
  {
    n := 0;
    while b[o + n] != 0
      invariant o + n < |b|
      invariant forall k :: o <= k < o + n ==> b[k] != 0
      decreases |b| - (o + n)
    {
      n := n + 1;
      if o + n == |b| {
        var k :| o <= k < |b| && b[k] == 0;
        assert false;
      }
    }
  }

  // ---------------------------------------------------------------------------
  // The view

  class Str {
    /** The buffer the view's `bytes` pointer points into. */
    var buffer: seq<Byte>
    /** Where `bytes` points within buffer. */
    var offset: nat
    var len: nat

    ghost predicate Valid()
      reads this
    {
      offset + len <= |buffer|
    }

    constructor ()
      ensures Valid() && buffer == [] && offset == 0 && len == 0
    {
      buffer, offset, len := [], 0, 0;
    }

    /** mu_str_init: the view of the len bytes at buffer[offset]. */
    method Init(b: seq<Byte>, o: nat, l: nat)
      requires o + l <= |b|
      modifies this
      ensures Valid() && buffer == b && offset == o && len == l
    {
      buffer, offset, len := b, o, l;
    }

    /** mu_str_init_cstr: the view of a C string, its terminating NUL excluded. */
    method InitCstr(b: seq<Byte>, o: nat)
      requires o <= |b| && exists k :: o <= k < |b| && b[k] == 0
      modifies this
      ensures Valid() && buffer == b && offset == o
      ensures offset + len < |buffer| && buffer[offset + len] == 0
      ensures forall i :: 0 <= i < len ==> Bytes()[i] != 0
    {
      var n := StrLen(b, o);
      Init(b, o, n);
    }

    /** The bytes the view covers (mu_str_bytes gives a pointer to them). */
    function Bytes(): (r: seq<Byte>)
      requires Valid()
      reads this
      ensures |r| == len
      ensures forall i :: 0 <= i < len ==> r[i] == buffer[offset + i]
    {
      buffer[offset..offset + len]
    }

    function Length(): (r: nat)
      requires Valid()
      reads this
      ensures r == |Bytes()|
    {
      len
    }

    predicate IsEmpty()
      requires Valid()
      reads this
      ensures IsEmpty() <==> Bytes() == []
    {
      Length() == 0
    }

    /** mu_str_copy: a shallow copy, sharing the buffer. */
    method Copy(src: Str)
      requires src.Valid()
      modifies this
      ensures Valid() && buffer == old(src.buffer) && offset == old(src.offset) && len == old(src.len)
    {
      Init(src.buffer, src.offset, src.len);
    }

    /**
     * mu_str_compare.  The loop counter is a C int, so views of 2^31 bytes
     * or more are outside what the source handles.
     */
    method Compare(other: Str) returns (r: I32)
      requires Valid() && other.Valid() && len < TWO31 && other.len < TWO31
      ensures r == CompareValue(Bytes(), other.Bytes())
      ensures r == 0 <==> Bytes() == other.Bytes()
      ensures r < 0 <==> LexLess(Bytes(), other.Bytes())
      ensures r > 0 <==> LexLess(other.Bytes(), Bytes())
    {
      r := CompareBytes(Bytes(), other.Bytes());
      CompareValueSign(Bytes(), other.Bytes());
    }

    /** mu_str_slice into this view; src may be this view itself. */
    method Slice(src: Str, start: I64, end: I64)
      requires src.Valid() && -(src.len as int) <= start
      modifies this
      ensures Valid() && buffer == old(src.buffer)
      ensures var b := SliceBounds(old(src.len), start, end);
              offset == old(src.offset) + b.0 && len == b.1 - b.0
      ensures var b := SliceBounds(old(src.len), start, end);
              Bytes() == old(src.Bytes())[b.0..b.1]
    {
      var s := if start < 0 then src.len + start
               else if start > src.len || start == STR_END then src.len
               else start;
      var e := if end < 0 then src.len + end
               else if end >= src.len || end == STR_END then src.len
               else end;
      if e < s {
        e := s;
      }
      ghost var whole := src.Bytes();
      assert (s, e) == SliceBounds(src.len, start, end);
      SubSlice(src.buffer, src.offset, src.len, s, e);
      Init(src.buffer, src.offset + s, e - s);
      assert Bytes() == whole[s..e];
    }

    /** mu_str_has_prefix: the view starts with the needle's bytes. */
    method HasPrefix(other: Str) returns (r: bool)
      requires Valid() && other.Valid()
      ensures r <==> other.Bytes() <= Bytes()
    {
      var h, n := Bytes(), other.Bytes();
      if |n| == 0 {
        return true;
      } else if |n| > |h| {
        return false;
      }
      var i: nat := 0;
      while i < |h| && i < |n| && h[i] == n[i]
        invariant i <= |n|
        invariant h[..i] == n[..i]
      {
        assert h[..i + 1] == h[..i] + [h[i]] && n[..i + 1] == n[..i] + [n[i]];
        i := i + 1;
      }
      r := i == |n|;
      if !r {
        assert h[i] != n[i];
        assert n[i] == n[..i + 1][i];
      }
    }

    /** mu_str_has_suffix: the view ends with the needle's bytes. */
    method HasSuffix(other: Str) returns (r: bool)
      requires Valid() && other.Valid()
      ensures r <==> |other.Bytes()| <= |Bytes()| && Bytes()[|Bytes()| - |other.Bytes()|..] == other.Bytes()
    {
      var h, n := Bytes(), other.Bytes();
      if |n| == 0 {
        return true;
      } else if |n| > |h| {
        return false;
      }
      var i: nat := 0;
      while i < |h| && i < |n| && h[|h| - 1 - i] == n[|n| - 1 - i]
        invariant i <= |n|
        invariant h[|h| - i..] == n[|n| - i..]
      {
        assert h[|h| - (i + 1)..] == [h[|h| - 1 - i]] + h[|h| - i..];
        assert n[|n| - (i + 1)..] == [n[|n| - 1 - i]] + n[|n| - i..];
        i := i + 1;
      }
      r := i == |n|;
      if !r {
        ghost var t := h[|h| - |n|..];
        assert t[|n| - 1 - i] == h[|h| - 1 - i];
      }
    }

    /**
     * mu_str_find: the first occurrence of the needle, or one past it when
     * skip is set.  Unlike the code as written, a needle longer than the view
     * is reported missing (see FindAsWritten).
     */
    method Find(needle: Str, skip: bool) returns (r: nat)
      requires Valid() && needle.Valid() && len < TWO31 && needle.len < TWO31
      ensures needle.len == 0 ==> r == 0
      ensures needle.len > 0 && r == NOT_FOUND ==>
                forall i :: !MatchesAt(Bytes(), needle.Bytes(), i)
      ensures needle.len > 0 && r != NOT_FOUND ==>
                var i := if skip then r - needle.len else r;
                MatchesAt(Bytes(), needle.Bytes(), i) &&
                forall k :: 0 <= k < i ==> !MatchesAt(Bytes(), needle.Bytes(), k)
    {
      var h, n := Bytes(), needle.Bytes();
      if |n| == 0 {
        return 0;
      }
      var i: nat := 0;
      while i + |n| <= |h|
        invariant forall k :: 0 <= k < i ==> !MatchesAt(h, n, k)
      {
        var found := MatchAt(h, n, i);
        if found {
          return if skip then i + |n| else i;
        }
        i := i + 1;
      }
      return NOT_FOUND;
    }

    /** mu_str_rfind: the last occurrence of the needle, or one past it when skip is set. */
    method RFind(needle: Str, skip: bool) returns (r: nat)
      requires Valid() && needle.Valid() && len < TWO31 && needle.len < TWO31
      ensures needle.len == 0 ==> r == len
      ensures needle.len > 0 && r == NOT_FOUND ==>
                forall i :: !MatchesAt(Bytes(), needle.Bytes(), i)
      ensures needle.len > 0 && r != NOT_FOUND ==>
                var i := if skip then r - needle.len else r;
                MatchesAt(Bytes(), needle.Bytes(), i) &&
                forall k :: i < k ==> !MatchesAt(Bytes(), needle.Bytes(), k)
    {
      var h, n := Bytes(), needle.Bytes();
      if |n| == 0 {
        return |h|;
      }
      // The C int start index: negative, so no scan, when the needle is longer.
      var i: int := |h| - |n|;
      while i >= 0
        invariant i <= |h| - |n|
        invariant forall k :: i < k ==> !MatchesAt(h, n, k)
        decreases i
      {
        var found := MatchAt(h, n, i);
        if found {
          return if skip then i + |n| else i;
        }
        i := i - 1;
      }
      return NOT_FOUND;
    }

    /** mu_str_match: the first index whose predicate result is breakIf. */
    method Match(pred: Byte -> bool, breakIf: bool) returns (r: nat)
      requires Valid()
      ensures r == match FirstWhere(Bytes(), pred, breakIf)
                   case None => NOT_FOUND
                   case Some(i) => i
    {
      var h := Bytes();
      var i: nat := 0;
      while i < |h|
        invariant i <= |h|
        invariant forall k :: 0 <= k < i ==> pred(h[k]) != breakIf
      {
        if pred(h[i]) == breakIf {
          return i;
        }
        i := i + 1;
      }
      return NOT_FOUND;
    }

    /** mu_str_rmatch: the last index whose predicate result is breakIf. */
    method RMatch(pred: Byte -> bool, breakIf: bool) returns (r: nat)
      requires Valid()
      ensures r == match LastWhere(Bytes(), pred, breakIf)
                   case None => NOT_FOUND
                   case Some(i) => i
    {
      var h := Bytes();
      var i: nat := |h|;
      while i > 0
        invariant i <= |h|
        invariant forall k :: i <= k < |h| ==> pred(h[k]) != breakIf
      {
        if pred(h[i - 1]) == breakIf {
          return i - 1;
        }
        i := i - 1;
      }
      return NOT_FOUND;
    }

    /** mu_str_ltrim, in place. */
    method LTrim(pred: Byte -> bool)
      requires Valid() && len < STR_END
      modifies this
      ensures Valid() && buffer == old(buffer) && offset == old(offset) + (old(len) - len)
      ensures Bytes() == TrimLeft(old(Bytes()), pred)
    {
      var idx := Match(pred, false);
      if idx != NOT_FOUND {
        Slice(this, idx, STR_END);
      }
    }

    /** mu_str_rtrim, in place, keeping the last failing byte (see RTrimAsWritten). */
    method RTrim(pred: Byte -> bool)
      requires Valid() && len < STR_END
      modifies this
      ensures Valid() && buffer == old(buffer) && offset == old(offset)
      ensures Bytes() == TrimRight(old(Bytes()), pred)
    {
      var idx := RMatch(pred, false);
      if idx != NOT_FOUND {
        Slice(this, 0, idx + 1);
      }
    }

    /** mu_str_trim: rtrim after ltrim. */
    method Trim(pred: Byte -> bool)
      requires Valid() && len < STR_END
      modifies this
      ensures Valid() && buffer == old(buffer) && len <= old(len)
      ensures offset == old(offset) + (old(len) - |TrimLeft(old(Bytes()), pred)|)
      ensures Bytes() == TrimRight(TrimLeft(old(Bytes()), pred), pred)
    {
      LTrim(pred);
      RTrim(pred);
    }

    /** mu_str_to_cstr: copies the view and a NUL into buf[0 .. capacity) if they fit. */
    method ToCstr(buf: array<Byte>, capacity: nat) returns (ok: bool)
      requires Valid() && len < TWO31 && capacity <= buf.Length
      modifies buf
      ensures ok <==> len < capacity
      ensures !ok ==> buf[..] == old(buf[..])
      ensures ok ==> buf[..len] == Bytes() && buf[len] == 0
      ensures ok ==> buf[len + 1..] == old(buf[len + 1..])
    {
      if len >= capacity {
        return false;
      }
      var h := Bytes();
      var i: nat := 0;
      while i < len
        invariant i <= len
        invariant buf[..i] == h[..i]
        invariant buf[i..] == old(buf[i..])
      {
        buf[i] := h[i];
        i := i + 1;
      }
      ghost var before := buf[..];
      assert before[len + 1..] == before[len..][1..] == old(buf[len..])[1..] == old(buf[len + 1..]);
      buf[len] := 0;
      assert buf[len + 1..] == before[len + 1..] && buf[..len] == before[..len];
      return true;
    }

    /** The signed parsers (mu_str_parse_int, _int8 .. _int64) at width w. */
    method ParseSigned(w: Width) returns (r: int)
      requires Valid()
      ensures r == SignedValue(w, Bytes())
    {
      var h := Bytes();
      var negative := false;
      var digits := h;
      if |h| >= 1 && h[0] == '-' as int {
        digits := h[1..];
        negative := true;
      }
      var v, k := AccumulateSigned(w, digits);
      DigitPrefixAt(digits, k);
      if negative {
        SignedStep(w, v, DecimalValue(digits[..k]), -1, 0);
        r := WrapSigned(w, -v);
      } else {
        r := v;
      }
    }

    /** The unsigned parsers (mu_str_parse_uint8 .. _uint64, and the unsigned int one) at width w. */
    method ParseUnsigned(w: Width) returns (r: nat)
      requires Valid()
      ensures r == UnsignedValue(w, Bytes())
    {
      var h := Bytes();
      var v := 0;
      var k: nat := 0;
      while k < |h| && IsDecimal(h[k])
        invariant k <= |h|
        invariant forall i :: 0 <= i < k ==> IsDecimal(h[i])
        invariant v == WrapUnsigned(w, DecimalValue(h[..k]))
      {
        var d := h[k] - '0' as int;
        DecimalSnoc(h, k);
        UnsignedStep(w, v, DecimalValue(h[..k]), d);
        v := WrapUnsigned(w, v * 10 + d);
        k := k + 1;
      }
      DigitPrefixAt(h, k);
      r := v;
    }
  }

  /** The signed accumulation loop: the stored value after the leading digit run. */
  method AccumulateSigned(w: Width, digits: seq<Byte>) returns (v: int, k: nat)
    ensures k <= |digits| && (forall i :: 0 <= i < k ==> IsDecimal(digits[i]))
    ensures k < |digits| ==> !IsDecimal(digits[k])
    ensures v == WrapSigned(w, DecimalValue(digits[..k]))
  {
    v, k := 0, 0;
    while k < |digits| && IsDecimal(digits[k])
      invariant k <= |digits|
      invariant forall i :: 0 <= i < k ==> IsDecimal(digits[i])
      invariant v == WrapSigned(w, DecimalValue(digits[..k]))
    {
      var d := digits[k] - '0' as int;
      DecimalSnoc(digits, k);
      SignedStep(w, v, DecimalValue(digits[..k]), 10, d);
      v := WrapSigned(w, v * 10 + d);
      k := k + 1;
    }
  }

  /** str_compare_aux: the first byte difference, else the length difference. */
  method CompareBytes(a: seq<Byte>, b: seq<Byte>) returns (r: I32)
    requires |a| < TWO31 && |b| < TWO31
    ensures r == CompareValue(a, b)
  {
    var n := if |a| < |b| then |a| else |b|;
    var i: nat := 0;
    while i < n
      invariant i <= n
      invariant a[..i] == b[..i]
    {
      var d := a[i] as int - b[i] as int;
      if d != 0 {
        CommonPrefixAt(a, b, i);
        return d;
      }
      assert a[..i + 1] == a[..i] + [a[i]] && b[..i + 1] == b[..i] + [b[i]];
      i := i + 1;
    }
    CommonPrefixAt(a, b, i);
    // size_t difference converted to int: its low 32 bits, which is the
    // mathematical difference because both lengths are below 2^31.
    r := ToI32(|a| - |b|);
  }

  /** Whether the needle occurs at h[i], comparing the first byte and then the rest. */
  method MatchAt(h: seq<Byte>, n: seq<Byte>, i: nat) returns (found: bool)
    requires 0 < |n| && i + |n| <= |h|
    ensures found <==> MatchesAt(h, n, i)
  {
    if h[i] != n[0] {
      assert h[i..i + |n|][0] == h[i];
      return false;
    }
    var j: nat := 1;
    while j < |n| && h[i + j] == n[j]
      invariant 1 <= j <= |n|
      invariant h[i..i + j] == n[..j]
    {
      assert h[i..i + j + 1] == h[i..i + j] + [h[i + j]];
      assert n[..j + 1] == n[..j] + [n[j]];
      j := j + 1;
    }
    found := j == |n|;
    if !found {
      assert h[i..i + |n|][j] == h[i + j];
    }
  }
}
