/** Specifications over code-point sequences that CEGUI::String's comparison
    and search members are proved against, together with String's private
    comparison and search helpers (`utf32_comp_*`, `find_codepoint`).

    A narrow `std::string` or `char` array is a `seq<utf8>`: the source widens
    every char with `static_cast<utf32>(static_cast<unsigned char>(c))`, which
    is `Widen`. */
module Text {
  import opened Utf

  /** Code point `c` of a narrow string, zero-extended. */
  function Widen(b: seq<utf8>): seq<utf32>
  {
    seq(|b|, i requires 0 <= i < |b| => b[i] as utf32)
  }

  lemma {:induction false} WidenSlice(b: seq<utf8>, i: nat, j: nat)
    requires i <= j <= |b|
    ensures Widen(b[i..j]) == Widen(b)[i..j]
  {
  }

  // ---------------------------------------------------------------------
  // size_t arithmetic and the argument clamps
  // ---------------------------------------------------------------------

  /** `a + b` in size_t, which wraps: both are below 2^32, so at most one
      2^32 is dropped. */
  function AddSize(a: size_type, b: size_type): size_type
  {
    if a + b < SIZE_MOD then a + b else a + b - SIZE_MOD
  }

  /** The clamp `if ((len == npos) || (idx + len > total)) len = total - idx;`
      used by compare and replace; `idx + len` is a size_t sum. */
  function ClampSum(idx: size_type, len: size_type, total: size_type): (n: size_type)
    requires idx <= total
  {
    if len == NPOS || AddSize(idx, len) > total then total - idx else len
  }

  /** The clamp `if ((num == npos) || (num > total - idx)) num = total - idx;`
      used by assign, append and insert; it cannot overflow. */
  function ClampCount(idx: size_type, num: size_type, total: size_type): (n: size_type)
    requires idx <= total
    ensures idx + n <= total
    ensures n == (if num < total - idx then num else total - idx)
  {
    if num == NPOS || num > total - idx then total - idx else num
  }

  /** When `idx + len` does not wrap, ClampSum keeps the range inside the
      string; otherwise it may not, and the source then reads past the end. */
  lemma ClampSumInRange(idx: size_type, len: size_type, total: size_type)
    requires idx <= total && (len == NPOS || idx + len < SIZE_MOD)
    ensures idx + ClampSum(idx, len, total) <= total
    ensures ClampSum(idx, len, total) == (if len < total - idx then len else total - idx)
  {
  }

  /** A clamped range that the source can read without running off the end. */
  predicate SumInRange(idx: size_type, len: size_type, total: size_type)
  {
    idx <= total && idx + ClampSum(idx, len, total) <= total
  }

  // ---------------------------------------------------------------------
  // The utf32_comp_* helpers
  // ---------------------------------------------------------------------

  /** An unsigned 32-bit value read back as a two's-complement `int`. */
  function Signed32(x: size_type): (r: int)
    ensures -0x8000_0000 <= r < 0x8000_0000
    ensures r % SIZE_MOD == x
  {
    if x < 0x8000_0000 then x else x - SIZE_MOD
  }

  /** `*buf1 - *buf2`: an unsigned 32-bit subtraction returned as `int`. */
  function Diff32(a: utf32, b: utf32): int
  {
    Signed32((a - b) % SIZE_MOD)
  }

  /** The difference is zero exactly when the code points are equal. */
  lemma Diff32Zero(a: utf32, b: utf32)
    ensures Diff32(a, b) == 0 <==> a == b
  {
  }

  /** Below 2^31 the wrapped difference is the true difference. */
  lemma Diff32Exact(a: utf32, b: utf32)
    requires a < 0x8000_0000 && b < 0x8000_0000
    ensures Diff32(a, b) == a - b
  {
    if a >= b {
      assert (a - b) % SIZE_MOD == a - b;
    } else {
      assert (a - b) % SIZE_MOD == a - b + SIZE_MOD;
    }
  }

  /** At 2^31 and above the sign can be wrong: 0x80000000 compares below 0. */
  lemma Diff32WrapsAbove31()
    ensures Diff32(0x8000_0000, 0) < 0
  {
  }

  /** Index of the first of the first `n` positions where `a` and `b` differ,
      or `n` when there is none. */
  function Mismatch(a: seq<utf32>, b: seq<utf32>, n: nat): (m: nat)
    requires n <= |a| && n <= |b|
    ensures m <= n
    ensures forall j :: 0 <= j < m ==> a[j] == b[j]
    ensures m < n ==> a[m] != b[m]
  {
    if n == 0 then 0
    else if a[0] != b[0] then 0
    else 1 + Mismatch(a[1..], b[1..], n - 1)
  }

  /** Mismatch is characterised by its ensures. */
  lemma {:induction false} MismatchIs(a: seq<utf32>, b: seq<utf32>, n: nat, i: nat)
    requires i <= n <= |a| && n <= |b|
    requires forall j :: 0 <= j < i ==> a[j] == b[j]
    requires i == n || a[i] != b[i]
    ensures Mismatch(a, b, n) == i
  {
    if n > 0 && a[0] == b[0] {
      assert i > 0;
      MismatchIs(a[1..], b[1..], n - 1, i - 1);
    }
  }

  /** What utf32_comp_utf32 returns for `n` code points: 0 when they all
      agree, else the wrapped difference at the first mismatch. */
  function CompareN(a: seq<utf32>, b: seq<utf32>, n: nat): int
    requires n <= |a| && n <= |b|
  {
    var m := Mismatch(a, b, n);
    if m == n then 0 else Diff32(a[m], b[m])
  }

  /** utf32_comp_* return 0 exactly when the first `n` code points agree. */
  lemma CompareNZero(a: seq<utf32>, b: seq<utf32>, n: nat)
    requires n <= |a| && n <= |b|
    ensures CompareN(a, b, n) == 0 <==> a[..n] == b[..n]
  {
    var m := Mismatch(a, b, n);
    if m == n {
      assert a[..n] == b[..n];
    } else {
      assert a[..n][m] != b[..n][m];
      Diff32Zero(a[m], b[m]);
    }
  }

  /** utf32_comp_utf32(buf1, buf2, cp_count). */
  method Utf32CompUtf32(buf1: seq<utf32>, buf2: seq<utf32>, cpCount: nat) returns (r: int)
    requires cpCount <= |buf1| && cpCount <= |buf2|
    ensures r == CompareN(buf1, buf2, cpCount)
  {
    if cpCount == 0 {
      return 0;
    }
    var count := cpCount;
    var i := 0;
    count := count - 1;
    while count != 0 && buf1[i] == buf2[i]
      invariant i + count == cpCount - 1
      invariant forall j :: 0 <= j < i ==> buf1[j] == buf2[j]
    {
      i := i + 1;
      count := count - 1;
    }
    MismatchOrLast(buf1, buf2, cpCount, i);
    r := Diff32(buf1[i], buf2[i]);
  }

  /** Where the comparison loops stop: at the mismatch, or on the last
      position when everything before it agreed. */
  lemma MismatchOrLast(a: seq<utf32>, b: seq<utf32>, n: nat, i: nat)
    requires i < n <= |a| && n <= |b|
    requires forall j :: 0 <= j < i ==> a[j] == b[j]
    requires i == n - 1 || a[i] != b[i]
    ensures CompareN(a, b, n) == Diff32(a[i], b[i])
  {
    if a[i] != b[i] {
      MismatchIs(a, b, n, i);
    } else {
      MismatchIs(a, b, n, n);
      Diff32Zero(a[i], b[i]);
    }
  }

  /** utf32_comp_char(buf1, buf2, cp_count): the chars are widened. */
  method Utf32CompChar(buf1: seq<utf32>, buf2: seq<utf8>, cpCount: nat) returns (r: int)
    requires cpCount <= |buf1| && cpCount <= |buf2|
    ensures r == CompareN(buf1, Widen(buf2), cpCount)
  {
    if cpCount == 0 {
      return 0;
    }
    ghost var w := Widen(buf2);
    var count := cpCount;
    var i := 0;
    count := count - 1;
    while count != 0 && buf1[i] == buf2[i] as utf32
      invariant i + count == cpCount - 1
      invariant forall j :: 0 <= j < i ==> buf1[j] == w[j]
    {
      i := i + 1;
      count := count - 1;
    }
    MismatchOrLast(buf1, w, cpCount, i);
    r := Diff32(buf1[i], buf2[i] as utf32);
  }

  /** The code points `d[idx..]` still to come are what the bytes from `pos`
      decode to. */
  predicate DecodesTo(b: seq<utf8>, pos: nat, d: seq<utf32>, idx: nat)
  {
    pos <= |b| && idx <= |d| && d[idx..] == Decode(b[pos..])
  }

  /** The next character of a UTF-8 buffer, when Decode finds one. */
  lemma {:induction false} DecodeNext(b: seq<utf8>, pos: nat, d: seq<utf32>, idx: nat)
    requires DecodesTo(b, pos, d, idx) && idx < |d|
    ensures pos < |b| && pos + LeadLen(b[pos]) <= |b|
    ensures d[idx] == DecodeAt(b, pos)
    ensures DecodesTo(b, pos + LeadLen(b[pos]), d, idx + 1)
  {
    var rest := b[pos..];
    assert rest[0] == b[pos];
    assert rest[LeadLen(b[pos])..] == b[pos + LeadLen(b[pos])..];
    assert DecodeAt(rest, 0) == DecodeAt(b, pos);
    assert d[idx..][1..] == d[idx + 1..];
  }

  /** utf32_comp_utf8(buf1, buf2, cp_count): decodes one character of `buf2`
      per step.  The `cp_count` characters compared must be whole. */
  method Utf32CompUtf8(buf1: seq<utf32>, buf2: seq<utf8>, cpCount: nat) returns (r: int)
    requires cpCount <= |buf1| && cpCount <= |Decode(buf2)|
    ensures r == CompareN(buf1, Decode(buf2), cpCount)
  {
    if cpCount == 0 {
      return 0;
    }
    ghost var d := Decode(buf2);
    var pos: nat := 0;
    var i := 0;
    var count := cpCount;
    var cp: utf32;
    assert buf2[0..] == buf2;
    while true
      invariant i < cpCount && i + count == cpCount
      invariant forall j :: 0 <= j < i ==> buf1[j] == d[j]
      invariant DecodesTo(buf2, pos, d, i)
      decreases count
    {
      DecodeNext(buf2, pos, d, i);
      cp := DecodeChar(buf2, pos);
      pos := pos + LeadLen(buf2[pos]);
      if buf1[i] != cp {
        break;
      }
      count := count - 1;
      if count == 0 {
        break;
      }
      i := i + 1;
    }
    MismatchOrLast(buf1, d, cpCount, i);
    r := Diff32(buf1[i], cp);
  }

  // ---------------------------------------------------------------------
  // compare's result and the order it induces
  // ---------------------------------------------------------------------

  /** compare's final mapping of the helper's value and the two clamped
      lengths to -1, 0 or 1. */
  function CompareSign(val: int, len: nat, strLen: nat): (r: int)
    ensures -1 <= r <= 1
    ensures r == 0 <==> val == 0 && len == strLen
  {
    if val != 0 then (if val < 0 then -1 else 1)
    else if len < strLen then -1
    else if len == strLen then 0
    else 1
  }

  /** compare of two whole code-point sequences, as compare(str) computes it. */
  function Compare(a: seq<utf32>, b: seq<utf32>): int
  {
    var n := if |a| < |b| then |a| else |b|;
    var val := if |a| == 0 then 0 else CompareN(a, b, n);
    CompareSign(val, |a|, |b|)
  }

  /** compare returns -1, 0 or 1, and 0 exactly for equal strings. */
  lemma CompareZero(a: seq<utf32>, b: seq<utf32>)
    ensures -1 <= Compare(a, b) <= 1
    ensures Compare(a, b) == 0 <==> a == b
  {
    var n := if |a| < |b| then |a| else |b|;
    if |a| > 0 {
      CompareNZero(a, b, n);
    }
    assert |a| == |b| ==> a == a[..n] && b == b[..n];
  }

  /** Ordinary lexicographic order: first differing code point, and a proper
      prefix sorts first. */
  function LexCompare(a: seq<utf32>, b: seq<utf32>): (r: int)
  {
    if a == [] then (if b == [] then 0 else -1)
    else if b == [] then 1
    else if a[0] < b[0] then -1
    else if a[0] > b[0] then 1
    else LexCompare(a[1..], b[1..])
  }

  /** Every code point is below 2^31, where utf32_comp_* compute exactly. */
  predicate Below31(s: seq<utf32>)
  {
    forall i :: 0 <= i < |s| ==> s[i] < 0x8000_0000
  }

  lemma {:induction false} LexCompareAt(a: seq<utf32>, b: seq<utf32>, n: nat)
    requires n <= |a| && n <= |b|
    requires Mismatch(a, b, n) == n
    ensures LexCompare(a, b) == LexCompare(a[n..], b[n..])
  {
    if n > 0 {
      assert a[0] == b[0];
      LexCompareAt(a[1..], b[1..], n - 1);
      assert a[1..][n - 1..] == a[n..];
      assert b[1..][n - 1..] == b[n..];
    }
  }

  lemma {:induction false} LexCompareMismatch(a: seq<utf32>, b: seq<utf32>, n: nat)
    requires n <= |a| && n <= |b|
    requires Mismatch(a, b, n) < n
    ensures var m := Mismatch(a, b, n);
            LexCompare(a, b) == (if a[m] < b[m] then -1 else 1)
  {
    var m := Mismatch(a, b, n);
    if m > 0 {
      LexCompareMismatch(a[1..], b[1..], n - 1);
    }
  }

  /** compare is lexicographic order on code points below 2^31: the first
      differing code point decides, and a proper prefix sorts first. */
  lemma CompareIsLex(a: seq<utf32>, b: seq<utf32>)
    requires Below31(a) && Below31(b)
    ensures Compare(a, b) == LexCompare(a, b)
  {
    var n := if |a| < |b| then |a| else |b|;
    var m := Mismatch(a, b, n);
    if m < n {
      LexCompareMismatch(a, b, n);
      Diff32Exact(a[m], b[m]);
    } else {
      LexCompareAt(a, b, n);
      assert a[n..] == [] || b[n..] == [];
    }
  }

  /** Lexicographic order is antisymmetric. */
  lemma {:induction false} LexCompareAntisymmetric(a: seq<utf32>, b: seq<utf32>)
    ensures LexCompare(a, b) == -LexCompare(b, a)
  {
    if a != [] && b != [] && a[0] == b[0] {
      LexCompareAntisymmetric(a[1..], b[1..]);
    }
  }

  // ---------------------------------------------------------------------
  // FastLessCompare: length first, then memcmp of the little-endian buffers
  // ---------------------------------------------------------------------

  /** The four bytes of a utf32 in memory on the little-endian target. */
  function CpBytes(x: utf32): seq<utf8>
  {
    [x % 0x100, (x / 0x100) % 0x100, (x / 0x1_0000) % 0x100, x / 0x100_0000]
  }

  /** The bytes memcmp sees for a buffer of code points. */
  function Bytes(s: seq<utf32>): (r: seq<utf8>)
    ensures |r| == 4 * |s|
  {
    if s == [] then [] else CpBytes(s[0]) + Bytes(s[1..])
  }

  /** memcmp(...) < 0 on two byte sequences of the same length. */
  function MemLess(x: seq<utf8>, y: seq<utf8>): bool
    requires |x| == |y|
  {
    if x == [] then false
    else if x[0] != y[0] then x[0] < y[0]
    else MemLess(x[1..], y[1..])
  }

  /** String::FastLessCompare on the contents of the two strings. */
  predicate FastLess(a: seq<utf32>, b: seq<utf32>)
  {
    if |a| == |b| then MemLess(Bytes(a), Bytes(b)) else |a| < |b|
  }

  lemma {:induction false} MemLessIrreflexive(x: seq<utf8>)
    ensures !MemLess(x, x)
  {
    if x != [] {
      MemLessIrreflexive(x[1..]);
    }
  }

  lemma {:induction false} MemLessAsymmetric(x: seq<utf8>, y: seq<utf8>)
    requires |x| == |y|
    ensures MemLess(x, y) ==> !MemLess(y, x)
  {
    if x != [] && x[0] == y[0] {
      MemLessAsymmetric(x[1..], y[1..]);
    }
  }

  lemma {:induction false} MemLessTransitive(x: seq<utf8>, y: seq<utf8>, z: seq<utf8>)
    requires |x| == |y| == |z|
    requires MemLess(x, y) && MemLess(y, z)
    ensures MemLess(x, z)
  {
    if x[0] == y[0] && y[0] == z[0] {
      MemLessTransitive(x[1..], y[1..], z[1..]);
    }
  }

  lemma {:induction false} MemLessTotal(x: seq<utf8>, y: seq<utf8>)
    requires |x| == |y| && x != y
    ensures MemLess(x, y) || MemLess(y, x)
  {
    if x[0] == y[0] {
      assert x == [x[0]] + x[1..] && y == [y[0]] + y[1..];
      MemLessTotal(x[1..], y[1..]);
    }
  }

  /** A code point is recovered from its four bytes. */
  lemma CpBytesInjective(x: utf32, y: utf32)
    requires CpBytes(x) == CpBytes(y)
    ensures x == y
  {
    var bx, yb := CpBytes(x), CpBytes(y);
    assert bx[0] == yb[0] && bx[1] == yb[1] && bx[2] == yb[2] && bx[3] == yb[3];
    var q1, q2 := x / 0x100, x / 0x1_0000;
    assert x == q1 * 0x100 + bx[0];
    DivUnique(x, 0x1_0000, q1 / 0x100, (q1 % 0x100) * 0x100 + bx[0]);
    DivUnique(x, 0x100_0000, q2 / 0x100, ((q2 % 0x100) * 0x1_0000) + (q1 % 0x100) * 0x100 + bx[0]);
    var r1, r2 := y / 0x100, y / 0x1_0000;
    assert y == r1 * 0x100 + yb[0];
    DivUnique(y, 0x1_0000, r1 / 0x100, (r1 % 0x100) * 0x100 + yb[0]);
    DivUnique(y, 0x100_0000, r2 / 0x100, ((r2 % 0x100) * 0x1_0000) + (r1 % 0x100) * 0x100 + yb[0]);
    assert x == (bx[3] as int) * 0x100_0000 + (bx[2] as int) * 0x1_0000 + (bx[1] as int) * 0x100 + bx[0] as int;
    assert y == (yb[3] as int) * 0x100_0000 + (yb[2] as int) * 0x1_0000 + (yb[1] as int) * 0x100 + yb[0] as int;
  }

  lemma {:induction false} BytesInjective(a: seq<utf32>, b: seq<utf32>)
    requires |a| == |b| && Bytes(a) == Bytes(b)
    ensures a == b
  {
    if a != [] {
      var ba, bb := Bytes(a), Bytes(b);
      assert ba[..4] == CpBytes(a[0]) && bb[..4] == CpBytes(b[0]);
      assert ba[4..] == Bytes(a[1..]) && bb[4..] == Bytes(b[1..]);
      CpBytesInjective(a[0], b[0]);
      BytesInjective(a[1..], b[1..]);
      assert a == [a[0]] + a[1..] && b == [b[0]] + b[1..];
    }
  }

  /** A shorter string is always FastLess than a longer one. */
  lemma FastLessShorterFirst(a: seq<utf32>, b: seq<utf32>)
    requires |a| < |b|
    ensures FastLess(a, b) && !FastLess(b, a)
  {
  }

  /** FastLess is a strict total order: irreflexive, asymmetric, transitive,
      and any two different strings are related one way. */
  lemma FastLessIrreflexive(a: seq<utf32>)
    ensures !FastLess(a, a)
  {
    MemLessIrreflexive(Bytes(a));
  }

  lemma FastLessAsymmetric(a: seq<utf32>, b: seq<utf32>)
    ensures FastLess(a, b) ==> !FastLess(b, a)
  {
    if |a| == |b| {
      MemLessAsymmetric(Bytes(a), Bytes(b));
    }
  }

  lemma FastLessTransitive(a: seq<utf32>, b: seq<utf32>, c: seq<utf32>)
    requires FastLess(a, b) && FastLess(b, c)
    ensures FastLess(a, c)
  {
    if |a| == |b| == |c| {
      MemLessTransitive(Bytes(a), Bytes(b), Bytes(c));
    }
  }

  lemma FastLessTotal(a: seq<utf32>, b: seq<utf32>)
    requires a != b
    ensures FastLess(a, b) || FastLess(b, a)
  {
    if |a| == |b| {
      if Bytes(a) == Bytes(b) {
        BytesInjective(a, b);
      }
      MemLessTotal(Bytes(a), Bytes(b));
    }
  }

  /** FastLess is not compare's order: a shorter string sorts first even when
      it is lexicographically greater, and for equal lengths the low byte of a
      code point decides first, so U+0100 sorts before U+0001. */
  lemma FastLessIsNotLexicographic()
    ensures FastLess([0x62], [0x61, 0x61]) && Compare([0x62], [0x61, 0x61]) == 1
    ensures FastLess([0x100], [0x01]) && Compare([0x100], [0x01]) == 1
  {
    assert Bytes([0x100]) == [0x00, 0x01, 0x00, 0x00];
    assert Bytes([0x01]) == [0x01, 0x00, 0x00, 0x00];
    assert Mismatch([0x100], [0x01], 1) == 0;
    assert Mismatch([0x62], [0x61, 0x61], 1) == 0;
  }

  // ---------------------------------------------------------------------
  // Searches
  // ---------------------------------------------------------------------

  /** find(cp, idx): the first position at or after `idx` holding `cp`. */
  function FindCp(s: seq<utf32>, cp: utf32, idx: nat): (r: size_type)
    requires |s| < NPOS
    ensures r != NPOS ==> idx <= r < |s| && s[r] == cp
    ensures r != NPOS ==> forall j :: idx <= j < r ==> s[j] != cp
    ensures r == NPOS <==> forall j :: idx <= j < |s| ==> s[j] != cp
    decreases |s| - idx
  {
    if idx >= |s| then NPOS
    else if s[idx] == cp then idx
    else FindCp(s, cp, idx + 1)
  }

  /** The position rfind and the find_last_* searches start from:
      `min(idx, len - 1)`. */
  function LastStart(len: nat, idx: nat): int
  {
    if idx >= len then len - 1 else idx
  }

  /** rfind(cp, idx): the last position at or before `min(idx, len-1)`
      holding `cp`. */
  function RFindCp(s: seq<utf32>, cp: utf32, idx: size_type): (r: size_type)
    requires |s| < NPOS
    ensures r != NPOS ==> r <= LastStart(|s|, idx) && r < |s| && s[r] == cp
    ensures r != NPOS ==> forall j :: r < j <= LastStart(|s|, idx) ==> s[j] != cp
    ensures r == NPOS <==> forall j :: 0 <= j <= LastStart(|s|, idx) ==> s[j] != cp
  {
    RFindCpFrom(s, cp, LastStart(|s|, idx))
  }

  function RFindCpFrom(s: seq<utf32>, cp: utf32, i: int): (r: size_type)
    requires |s| < NPOS && -1 <= i < |s|
    ensures r != NPOS ==> 0 <= r <= i && s[r] == cp
    ensures r != NPOS ==> forall j :: r < j <= i ==> s[j] != cp
    ensures r == NPOS <==> forall j :: 0 <= j <= i ==> s[j] != cp
    decreases i + 1
  {
    if i < 0 then NPOS
    else if s[i] == cp then i
    else RFindCpFrom(s, cp, i - 1)
  }

  /** `t` occurs in `s` at position `i`. */
  predicate OccursAt(s: seq<utf32>, t: seq<utf32>, i: nat)
  {
    i + |t| <= |s| && s[i..i + |t|] == t
  }

  /** find(str, idx): an empty needle is found at `idx` when `idx < len`;
      otherwise the first occurrence at or after `idx`. */
  function FindSub(s: seq<utf32>, t: seq<utf32>, idx: size_type): (r: size_type)
    requires |s| < NPOS
    ensures r != NPOS ==> idx <= r && OccursAt(s, t, r)
    ensures r != NPOS ==> forall j :: idx <= j < r ==> !OccursAt(s, t, j)
    ensures r == NPOS <==> (|t| == 0 && idx >= |s|) || forall j :: idx <= j <= |s| ==> !OccursAt(s, t, j)
  {
    if |t| == 0 && idx < |s| then assert OccursAt(s, t, idx); idx
    else if idx < |s| then FindSubFrom(s, t, idx)
    else NPOS
  }

  function FindSubFrom(s: seq<utf32>, t: seq<utf32>, i: nat): (r: size_type)
    requires |s| < NPOS && i <= |s|
    ensures r != NPOS ==> i <= r && OccursAt(s, t, r)
    ensures r != NPOS ==> forall j :: i <= j < r ==> !OccursAt(s, t, j)
    ensures r == NPOS <==> forall j :: i <= j <= |s| ==> !OccursAt(s, t, j)
    decreases |s| - i
  {
    if |s| - i < |t| then NPOS
    else if s[i..i + |t|] == t then assert OccursAt(s, t, i); i
    else if i == |s| then NPOS
    else FindSubFrom(s, t, i + 1)
  }

  /** rfind(str, idx): an empty needle gives `min(idx, len)`; otherwise the
      last occurrence starting at or before `idx`. */
  function RFindSub(s: seq<utf32>, t: seq<utf32>, idx: size_type): (r: size_type)
    requires |s| < NPOS
    ensures |t| == 0 ==> r == (if idx < |s| then idx else |s|)
    ensures |t| > 0 && r != NPOS ==> r <= idx && OccursAt(s, t, r)
    ensures |t| > 0 && r != NPOS ==> forall j :: r < j <= idx ==> !OccursAt(s, t, j)
    ensures |t| > 0 ==> (r == NPOS <==> forall j :: 0 <= j <= idx ==> !OccursAt(s, t, j))
  {
    if |t| == 0 then (if idx < |s| then idx else |s|)
    else if |t| <= |s| then RFindSubFrom(s, t, if idx > |s| - |t| then |s| - |t| else idx)
    else NPOS
  }

  function RFindSubFrom(s: seq<utf32>, t: seq<utf32>, i: int): (r: size_type)
    requires |s| < NPOS && -1 <= i && i + |t| <= |s|
    ensures r != NPOS ==> 0 <= r <= i && OccursAt(s, t, r)
    ensures r != NPOS ==> forall j :: r < j <= i ==> !OccursAt(s, t, j)
    ensures r == NPOS <==> forall j :: 0 <= j <= i ==> !OccursAt(s, t, j)
    decreases i + 1
  {
    if i < 0 then NPOS
    else if s[i..i + |t|] == t then assert OccursAt(s, t, i); i
    else RFindSubFrom(s, t, i - 1)
  }

  /** find_first_of / find_first_not_of: the first position at or after `idx`
      whose code point is (`member`) or is not (`!member`) in `set_`. */
  function FindFirstIn(s: seq<utf32>, set_: seq<utf32>, member: bool, idx: nat): (r: size_type)
    requires |s| < NPOS
    ensures r != NPOS ==> idx <= r < |s| && (s[r] in set_) == member
    ensures r != NPOS ==> forall j :: idx <= j < r ==> (s[j] in set_) != member
    ensures r == NPOS <==> forall j :: idx <= j < |s| ==> (s[j] in set_) != member
    decreases |s| - idx
  {
    if idx >= |s| then NPOS
    else if (s[idx] in set_) == member then idx
    else FindFirstIn(s, set_, member, idx + 1)
  }

  /** find_last_of / find_last_not_of: the last position at or before
      `min(idx, len-1)` whose code point is (or is not) in `set_`. */
  function FindLastIn(s: seq<utf32>, set_: seq<utf32>, member: bool, i: int): (r: size_type)
    requires |s| < NPOS && -1 <= i < |s|
    ensures r != NPOS ==> 0 <= r <= i && (s[r] in set_) == member
    ensures r != NPOS ==> forall j :: r < j <= i ==> (s[j] in set_) != member
    ensures r == NPOS <==> forall j :: 0 <= j <= i ==> (s[j] in set_) != member
    decreases i + 1
  {
    if i < 0 then NPOS
    else if (s[i] in set_) == member then i
    else FindLastIn(s, set_, member, i - 1)
  }

  /** find_first_not_of(cp, idx), which differs from cp: the first position
      at or after `idx` not holding `cp`. */
  function FindFirstNotCp(s: seq<utf32>, cp: utf32, idx: nat): (r: size_type)
    requires |s| < NPOS
    ensures r != NPOS ==> idx <= r < |s| && s[r] != cp
    ensures r != NPOS ==> forall j :: idx <= j < r ==> s[j] == cp
    ensures r == NPOS <==> forall j :: idx <= j < |s| ==> s[j] == cp
    decreases |s| - idx
  {
    if idx >= |s| then NPOS
    else if s[idx] != cp then idx
    else FindFirstNotCp(s, cp, idx + 1)
  }

  /** find_last_not_of(cp, idx): the last position at or before
      `min(idx, len-1)` not holding `cp`. */
  function FindLastNotCp(s: seq<utf32>, cp: utf32, i: int): (r: size_type)
    requires |s| < NPOS && -1 <= i < |s|
    ensures r != NPOS ==> 0 <= r <= i && s[r] != cp
    ensures r != NPOS ==> forall j :: r < j <= i ==> s[j] == cp
    ensures r == NPOS <==> forall j :: 0 <= j <= i ==> s[j] == cp
    decreases i + 1
  {
    if i < 0 then NPOS
    else if s[i] != cp then i
    else FindLastNotCp(s, cp, i - 1)
  }

  // ---------------------------------------------------------------------
  // find_codepoint
  // ---------------------------------------------------------------------

  /** find_codepoint(const std::string&, cp) and find_codepoint(chars, len, cp):
      the first char position whose widened value is `cp`. */
  method FindCodepointNarrow(str: seq<utf8>, codePoint: utf32) returns (r: size_type)
    requires |str| < NPOS
    ensures r == FindCp(Widen(str), codePoint, 0)
    ensures r != NPOS <==> codePoint in Widen(str)
  {
    ghost var w := Widen(str);
    var idx := 0;
    while idx != |str|
      invariant idx <= |str|
      invariant FindCp(w, codePoint, idx) == FindCp(w, codePoint, 0)
    {
      if codePoint == str[idx] as utf32 {
        return idx;
      }
      idx := idx + 1;
    }
    r := NPOS;
  }

  /** find_codepoint(const utf8*, len, cp): `len` counts code points; each
      is decoded in turn. */
  method FindCodepointUtf8(str: seq<utf8>, len: nat, codePoint: utf32) returns (r: size_type)
    requires len <= |Decode(str)| && len < NPOS
    ensures r == FindCp(Decode(str)[..len], codePoint, 0)
    ensures r != NPOS <==> codePoint in Decode(str)[..len]
  {
    ghost var d := Decode(str);
    ghost var w := d[..len];
    var idx := 0;
    var pos: nat := 0;
    assert str[0..] == str;
    while idx != len
      invariant idx <= len
      invariant DecodesTo(str, pos, d, idx)
      invariant FindCp(w, codePoint, idx) == FindCp(w, codePoint, 0)
      decreases len - idx
    {
      DecodeNext(str, pos, d, idx);
      var cp := DecodeChar(str, pos);
      pos := pos + LeadLen(str[pos]);
      if codePoint == cp {
        return idx;
      }
      idx := idx + 1;
    }
    r := NPOS;
  }

  // ---------------------------------------------------------------------
  // The other side of a comparison or search
  // ---------------------------------------------------------------------

  /** What String's compare and find members compare against: another
      String's code points, a narrow string's chars, or UTF-8 bytes. */
  datatype Source =
    | Wide(cps: seq<utf32>)
    | Narrow(chars: seq<utf8>)
    | Utf8Bytes(bytes: seq<utf8>)

  /** The code points a Source stands for. */
  function Decoded(src: Source): seq<utf32>
  {
    match src
    case Wide(cps) => cps
    case Narrow(chars) => Widen(chars)
    case Utf8Bytes(bytes) => Decode(bytes)
  }

  /** CompareN looks at the first `n` positions only. */
  lemma CompareNPrefix(a: seq<utf32>, b: seq<utf32>, a2: seq<utf32>, b2: seq<utf32>, n: nat)
    requires n <= |a| && n <= |b| && n <= |a2| && n <= |b2|
    requires a[..n] == a2[..n] && b[..n] == b2[..n]
    ensures CompareN(a, b, n) == CompareN(a2, b2, n)
  {
    var m := Mismatch(a, b, n);
    forall j | 0 <= j < m
      ensures a2[j] == b2[j]
    {
      assert a[..n][j] == a2[..n][j] && b[..n][j] == b2[..n][j];
    }
    if m < n {
      assert a[..n][m] == a2[..n][m] && b[..n][m] == b2[..n][m];
    }
    MismatchIs(a2, b2, n, m);
  }

  /** compare's last step is Compare of the two clamped ranges: `val` is
      what utf32_comp_* returned for their first min(len, str_len) code
      points (0 for an empty first range). */
  lemma CompareOfRanges(a: seq<utf32>, b: seq<utf32>, big: seq<utf32>, val: int)
    requires |b| <= |big| && big[..|b|] == b
    requires val == (if |a| == 0 then 0 else CompareN(a, big, if |a| < |b| then |a| else |b|))
    ensures CompareSign(val, |a|, |b|) == Compare(a, b)
  {
    var n := if |a| < |b| then |a| else |b|;
    if |a| > 0 {
      assert a[..n] == a[..n] && big[..n] == b[..n];
      CompareNPrefix(a, big, a, b, n);
    }
  }

  /** utf32_comp_utf32, utf32_comp_char or utf32_comp_utf8, as the source
      kind requires, over the first `n` code points. */
  method CompareCount(buf: seq<utf32>, src: Source, n: nat) returns (val: int)
    requires n <= |buf| && n <= |Decoded(src)|
    ensures val == CompareN(buf, Decoded(src), n)
  {
    match src
    case Wide(cps) =>
      val := Utf32CompUtf32(buf, cps, n);
    case Narrow(chars) =>
      val := Utf32CompChar(buf, chars, n);
    case Utf8Bytes(bytes) =>
      val := Utf32CompUtf8(buf, bytes, n);
  }

  /** find(code_point, idx) over a code-point buffer of length `|s|`. */
  method FindIn(s: seq<utf32>, cp: utf32, idx: size_type) returns (r: size_type)
    requires |s| < NPOS
    ensures r == FindCp(s, cp, idx)
  {
    if idx < |s| {
      var i := idx;
      while i < |s|
        invariant idx <= i <= |s|
        invariant FindCp(s, cp, i) == FindCp(s, cp, idx)
        decreases |s| - i
      {
        if s[i] == cp {
          return i;
        }
        i := i + 1;
      }
    }
    return NPOS;
  }

  /** rfind(code_point, idx): the backward do-while loop from
      `min(idx, len - 1)`. */
  method RFindIn(s: seq<utf32>, cp: utf32, idx: size_type) returns (r: size_type)
    requires |s| < NPOS
    ensures r == RFindCp(s, cp, idx)
  {
    if |s| > 0 {
      var i: nat := if idx >= |s| then |s| - 1 else idx;
      while true
        invariant i < |s|
        invariant RFindCpFrom(s, cp, i) == RFindCp(s, cp, idx)
        decreases i
      {
        if s[i] == cp {
          return i;
        }
        if i == 0 {
          break;
        }
        i := i - 1;
      }
    }
    return NPOS;
  }

  /** The membership test of the find_*_of loops: `str.find(cp)` for a
      String, `find_codepoint` for the other kinds, over the first `n` code
      points of the source. */
  method Holds(src: Source, n: nat, cp: utf32) returns (found: bool)
    requires n <= |Decoded(src)| && n < NPOS
    ensures found <==> cp in Decoded(src)[..n]
  {
    match src
    case Wide(cps) =>
      var r := FindIn(cps[..n], cp, 0);
      found := r != NPOS;
    case Narrow(chars) =>
      WidenSlice(chars, 0, n);
      var r := FindCodepointNarrow(chars[..n], cp);
      found := r != NPOS;
    case Utf8Bytes(bytes) =>
      var r := FindCodepointUtf8(bytes, n, cp);
      found := r != NPOS;
  }
}
