/** Code units, sizes and the UTF-8 <-> UTF-32 transcoding that CEGUI::String
    performs internally (the private `encode`, `encoded_size` and `utf_length`
    members of CEGUIString.h).  The bit layout is that of section 3 of RFC 3629;
    like the original, the decoder does not validate continuation bytes.

    Bit operations are written as exact arithmetic: `x & 0x3F` is `x % 0x40`,
    `x << 6` is `x * 0x40`, `x >> 6` is `x / 0x40`, and `a | b` is `a + b`
    wherever the two operands have no bit in common. */
module Utf {

  /** size_t on the 32-bit target. */
  const SIZE_MOD: int := 0x1_0000_0000
  type size_type = x: int | 0 <= x < 0x1_0000_0000
  /** String::npos, `(size_type)(-1)`. */
  const NPOS: size_type := 0xFFFF_FFFF

  /** A UTF-32 code unit (`uint32`) and a UTF-8 code unit (`uint8`). */
  type utf32 = x: int | 0 <= x < 0x1_0000_0000
  type utf8 = x: int | 0 <= x < 0x100

  /** Largest code point whose 4-byte form keeps every bit (21 bits). */
  const CODE_LIMIT: int := 0x20_0000

  // ---------------------------------------------------------------------
  // UTF-32 -> UTF-8
  // ---------------------------------------------------------------------

  /** encoded_size(utf32): bytes needed for one code point. */
  function EncodedSizeCp(cp: utf32): (n: nat)
    ensures 1 <= n <= 4
    ensures n == 1 <==> cp < 0x80
    ensures n == 4 <==> 0x10000 <= cp
  {
    if cp < 0x80 then 1
    else if cp < 0x0800 then 2
    else if cp < 0x10000 then 3
    else 4
  }

  /** The bytes the encoder writes for one code point.  In the 4-byte form the
      lead `(utf8)((cp >> 18) | 0xF0)` keeps only the low four bits of
      `cp >> 18`. */
  function EncodeCp(cp: utf32): seq<utf8>
  {
    if cp < 0x80 then [cp]
    else if cp < 0x0800 then [0xC0 + cp / 0x40, 0x80 + cp % 0x40]
    else if cp < 0x10000 then
      [0xE0 + cp / 0x1000, 0x80 + (cp / 0x40) % 0x40, 0x80 + cp % 0x40]
    else
      [0xF0 + (cp / 0x4_0000) % 0x10, 0x80 + (cp / 0x1000) % 0x40,
       0x80 + (cp / 0x40) % 0x40, 0x80 + cp % 0x40]
  }

  /** UTF-8 form of a whole code-point sequence. */
  function Utf8Of(s: seq<utf32>): seq<utf8>
  {
    if s == [] then [] else EncodeCp(s[0]) + Utf8Of(s[1..])
  }

  /** encoded_size(const utf32*, len): total bytes for a code-point sequence. */
  function EncodedSize(s: seq<utf32>): nat
  {
    if s == [] then 0 else EncodedSizeCp(s[0]) + EncodedSize(s[1..])
  }

  /** How many leading code points of `s` the encoder writes into `cap` bytes:
      it stops at the first one that does not fit. */
  function FitCount(s: seq<utf32>, cap: nat): (k: nat)
    ensures k <= |s|
  {
    if s == [] || cap < EncodedSizeCp(s[0]) then 0
    else 1 + FitCount(s[1..], cap - EncodedSizeCp(s[0]))
  }

  lemma {:induction false} EncodeCpSize(cp: utf32)
    ensures |EncodeCp(cp)| == EncodedSizeCp(cp)
  {
  }

  lemma {:induction false} Utf8OfLength(s: seq<utf32>)
    ensures |Utf8Of(s)| == EncodedSize(s)
  {
    if s != [] {
      Utf8OfLength(s[1..]);
    }
  }

  lemma {:induction false} Utf8OfAppend(a: seq<utf32>, b: seq<utf32>)
    ensures Utf8Of(a + b) == Utf8Of(a) + Utf8Of(b)
  {
    if a == [] {
      assert a + b == b;
    } else {
      assert (a + b)[1..] == a[1..] + b;
      Utf8OfAppend(a[1..], b);
    }
  }

  lemma {:induction false} EncodedSizeAppend(a: seq<utf32>, b: seq<utf32>)
    ensures EncodedSize(a + b) == EncodedSize(a) + EncodedSize(b)
  {
    if a == [] {
      assert a + b == b;
    } else {
      assert (a + b)[1..] == a[1..] + b;
      EncodedSizeAppend(a[1..], b);
    }
  }

  /** The encoder writes exactly the code points that fit: the bytes of the
      first FitCount code points fit, and one more would not. */
  lemma {:induction false} FitCountIsMaximal(s: seq<utf32>, cap: nat)
    ensures EncodedSize(s[..FitCount(s, cap)]) <= cap
    ensures FitCount(s, cap) < |s| ==> cap < EncodedSize(s[..FitCount(s, cap) + 1])
  {
    var k := FitCount(s, cap);
    if s == [] {
    } else if cap < EncodedSizeCp(s[0]) {
      assert s[..1][1..] == [];
    } else {
      var c := cap - EncodedSizeCp(s[0]);
      FitCountIsMaximal(s[1..], c);
      assert s[..k][1..] == s[1..][..k - 1];
      if k < |s| {
        assert s[..k + 1][1..] == s[1..][..k];
      }
    }
  }

  /** When the buffer is large enough the whole sequence is written. */
  lemma {:induction false} FitCountAll(s: seq<utf32>, cap: nat)
    requires EncodedSize(s) <= cap
    ensures FitCount(s, cap) == |s|
  {
    if s != [] {
      FitCountAll(s[1..], cap - EncodedSizeCp(s[0]));
    }
  }

  // ---------------------------------------------------------------------
  // UTF-8 -> UTF-32
  // ---------------------------------------------------------------------

  /** Bytes taken by the character whose lead byte is `cu`, as the decoder
      reads them: below 0x80 one, below 0xE0 two, below 0xF0 three, else four. */
  function LeadLen(cu: utf8): (n: nat)
    ensures 1 <= n <= 4
  {
    if cu < 0x80 then 1 else if cu < 0xE0 then 2 else if cu < 0xF0 then 3 else 4
  }

  /** The code point decoded from the character starting at `b[i]`. */
  function DecodeAt(b: seq<utf8>, i: nat): utf32
    requires i < |b| && i + LeadLen(b[i]) <= |b|
  {
    var cu := b[i] as int;
    if cu < 0x80 then cu
    else if cu < 0xE0 then (cu % 0x20) * 0x40 + Cont(b, i + 1)
    else if cu < 0xF0 then
      (cu % 0x10) * 0x1000 + Cont(b, i + 1) * 0x40 + Cont(b, i + 2)
    else
      (cu % 0x08) * 0x4_0000 + Cont(b, i + 1) * 0x1000
        + Cont(b, i + 2) * 0x40 + Cont(b, i + 3)
  }

  /** The six payload bits of a continuation byte, `b[j] & 0x3F`. */
  function Cont(b: seq<utf8>, j: nat): (v: int)
    requires j < |b|
    ensures 0 <= v < 0x40
  {
    (b[j] as int) % 0x40
  }

  /** Code points of the complete characters at the front of `b`; decoding
      stops before a character whose bytes run past the end. */
  function Decode(b: seq<utf8>): seq<utf32>
  {
    if b == [] || |b| < LeadLen(b[0]) then []
    else [DecodeAt(b, 0)] + Decode(b[LeadLen(b[0])..])
  }

  /** `b` is a whole number of characters (no truncated last character). */
  predicate Complete(b: seq<utf8>)
  {
    b == [] || (LeadLen(b[0]) <= |b| && Complete(b[LeadLen(b[0])..]))
  }

  /** What encoded_size(const utf8*, len) counts: every lead byte it meets,
      including that of a truncated last character. */
  function LeadCount(b: seq<utf8>): nat
  {
    if b == [] then 0
    else if |b| < LeadLen(b[0]) then 1
    else 1 + LeadCount(b[LeadLen(b[0])..])
  }

  lemma {:induction false} LeadCountOfComplete(b: seq<utf8>)
    requires Complete(b)
    ensures LeadCount(b) == |Decode(b)|
  {
    if b != [] {
      LeadCountOfComplete(b[LeadLen(b[0])..]);
    }
  }

  /** encoded_size(const utf8*, len) never counts more characters than bytes. */
  lemma {:induction false} LeadCountBound(b: seq<utf8>)
    ensures LeadCount(b) <= |b|
    ensures LeadCount(b) == 0 <==> b == []
  {
    if b != [] && LeadLen(b[0]) <= |b| {
      LeadCountBound(b[LeadLen(b[0])..]);
    }
  }

  /** Decoding a code point's encoding gives it back, for every code point
      that fits in 21 bits (all of Unicode, up to 0x10FFFF, included). */
  lemma DecodeEncodeCp(cp: utf32)
    requires cp < CODE_LIMIT
    ensures LeadLen(EncodeCp(cp)[0]) == |EncodeCp(cp)|
    ensures DecodeAt(EncodeCp(cp), 0) == cp
  {
    if cp < 0x80 {
    } else if cp < 0x0800 {
      DecodeEncode2(cp);
    } else if cp < 0x10000 {
      DecodeEncode3(cp);
    } else {
      DecodeEncode4(cp);
    }
  }

  lemma DecodeEncode2(cp: utf32)
    requires 0x80 <= cp < 0x0800
    ensures LeadLen(EncodeCp(cp)[0]) == 2 == |EncodeCp(cp)|
    ensures DecodeAt(EncodeCp(cp), 0) == cp
  {
    var e := EncodeCp(cp);
    var q1, d := cp / 0x40, cp % 0x40;
    assert e == [0xC0 + q1, 0x80 + d];
    assert e[0] as int % 0x20 == q1;
    assert Cont(e, 1) == d;
  }

  lemma DecodeEncode3(cp: utf32)
    requires 0x0800 <= cp < 0x10000
    ensures LeadLen(EncodeCp(cp)[0]) == 3 == |EncodeCp(cp)|
    ensures DecodeAt(EncodeCp(cp), 0) == cp
  {
    var e := EncodeCp(cp);
    var q1, d := cp / 0x40, cp % 0x40;
    var q2, c := q1 / 0x40, q1 % 0x40;
    assert cp == q2 * 0x1000 + c * 0x40 + d;
    DivUnique(cp, 0x1000, q2, c * 0x40 + d);
    assert e == [0xE0 + q2, 0x80 + c, 0x80 + d];
    assert e[0] as int % 0x10 == q2;
    assert Cont(e, 1) == c;
    assert Cont(e, 2) == d;
  }

  lemma DecodeEncode4(cp: utf32)
    requires 0x10000 <= cp < CODE_LIMIT
    ensures LeadLen(EncodeCp(cp)[0]) == 4 == |EncodeCp(cp)|
    ensures DecodeAt(EncodeCp(cp), 0) == cp
  {
    var e := EncodeCp(cp);
    var q1, d := cp / 0x40, cp % 0x40;
    var q2, c := q1 / 0x40, q1 % 0x40;
    var q3, b := q2 / 0x40, q2 % 0x40;
    assert cp == q3 * 0x4_0000 + b * 0x1000 + c * 0x40 + d;
    DivUnique(cp, 0x1000, q2, c * 0x40 + d);
    DivUnique(cp, 0x4_0000, q3, b * 0x1000 + c * 0x40 + d);
    assert q3 < 8;
    assert e == [0xF0 + q3, 0x80 + b, 0x80 + c, 0x80 + d];
    assert e[0] as int % 0x08 == q3;
    assert Cont(e, 1) == b;
    assert Cont(e, 2) == c;
    assert Cont(e, 3) == d;
  }

  /** Quotient and remainder are determined by any decomposition. */
  lemma DivUnique(x: int, m: int, q: int, r: int)
    requires m > 0 && x == q * m + r && 0 <= r < m
    ensures x / m == q && x % m == r
  {
    var k := x / m - q;
    assert k * m == r - x % m;
    MulBound(k, m);
  }

  /** A multiple of `m` strictly between `-m` and `m` is zero. */
  lemma MulBound(k: int, m: int)
    requires m > 0
    ensures k >= 1 ==> k * m >= m
    ensures k <= -1 ==> k * m <= -m
  {
    if k >= 1 {
      assert k * m == (k - 1) * m + m;
      MulNonneg(k - 1, m);
    } else if k <= -1 {
      assert k * m == (k + 1) * m - m;
      MulNonneg(-(k + 1), m);
      assert -(k + 1) * m == -((k + 1) * m);
    }
  }

  lemma MulNonneg(a: int, b: int)
    requires a >= 0 && b >= 0
    ensures a * b >= 0
  {
  }

  /** One character followed by anything decodes to that character's code
      point followed by the rest. */
  lemma {:induction false} DecodeCons(x: seq<utf8>, y: seq<utf8>)
    requires x != [] && LeadLen(x[0]) == |x|
    ensures Decode(x + y) == [DecodeAt(x, 0)] + Decode(y)
    ensures Complete(y) ==> Complete(x + y)
  {
    var xy := x + y;
    assert xy[0] == x[0];
    assert xy[LeadLen(xy[0])..] == y;
    assert DecodeAt(xy, 0) == DecodeAt(x, 0);
  }

  /** Decoding a whole number of characters followed by anything gives
      their code points followed by the rest's. */
  lemma {:induction false} DecodeAppend(x: seq<utf8>, y: seq<utf8>)
    requires Complete(x)
    ensures Decode(x + y) == Decode(x) + Decode(y)
  {
    if x != [] {
      var k := LeadLen(x[0]);
      var h, t := x[..k], x[k..];
      assert h[0] == x[0];
      assert x == h + t && x + y == h + (t + y);
      DecodeCons(h, t);
      DecodeCons(h, t + y);
      DecodeAppend(t, y);
      assert Decode(x + y) == [DecodeAt(h, 0)] + (Decode(t) + Decode(y));
    } else {
      assert x + y == y;
    }
  }

  /** A complete prefix of the bytes decodes to a prefix of their decoding:
      what a decoder that stops after a counted number of code points sees. */
  lemma DecodePrefix(b: seq<utf8>, n: nat)
    requires n <= |b| && Complete(b[..n])
    ensures |Decode(b[..n])| <= |Decode(b)|
    ensures Decode(b)[..|Decode(b[..n])|] == Decode(b[..n])
  {
    assert b == b[..n] + b[n..];
    DecodeAppend(b[..n], b[n..]);
  }

  /** The round trip of the whole transcoder: UTF-8 produced by the encoder
      decodes back to the original code points. */
  lemma {:induction false} DecodeUtf8Of(s: seq<utf32>)
    requires forall i :: 0 <= i < |s| ==> s[i] < CODE_LIMIT
    ensures Complete(Utf8Of(s))
    ensures Decode(Utf8Of(s)) == s
  {
    if s != [] {
      DecodeUtf8Of(s[1..]);
      DecodeEncodeCp(s[0]);
      DecodeCons(EncodeCp(s[0]), Utf8Of(s[1..]));
    }
  }

  // ---------------------------------------------------------------------
  // Null-terminated buffers
  // ---------------------------------------------------------------------

  /** Index of the first zero code unit: utf_length / strlen. */
  function ZeroIndex<T(==)>(s: seq<T>, zero: T): (n: nat)
    requires zero in s
    ensures n < |s| && s[n] == zero
    ensures forall j :: 0 <= j < n ==> s[j] != zero
  {
    if s[0] == zero then 0 else 1 + ZeroIndex(s[1..], zero)
  }

  /** utf_length(const utf8*): number of bytes before the terminating 0. */
  method Utf8Length(s: seq<utf8>) returns (cnt: nat)
    requires 0 in s
    ensures cnt == ZeroIndex(s, 0)
  {
    cnt := 0;
    while s[cnt] != 0
      invariant cnt <= ZeroIndex(s, 0)
      decreases ZeroIndex(s, 0) - cnt
    {
      cnt := cnt + 1;
    }
  }

  /** utf_length(const utf32*): number of code units before the terminating 0. */
  method Utf32Length(s: seq<utf32>) returns (cnt: nat)
    requires 0 in s
    ensures cnt == ZeroIndex(s, 0)
  {
    cnt := 0;
    while s[cnt] != 0
      invariant cnt <= ZeroIndex(s, 0)
      decreases ZeroIndex(s, 0) - cnt
    {
      cnt := cnt + 1;
    }
  }

  /** The source length the encoders use: 0 means "up to the terminator". */
  function SourceLength<T(==)>(s: seq<T>, zero: T, srcLen: nat): nat
    requires srcLen == 0 ==> zero in s
  {
    if srcLen == 0 then ZeroIndex(s, zero) else srcLen
  }

  // ---------------------------------------------------------------------
  // The encoding loops
  // ---------------------------------------------------------------------

  /** encoded_size(const utf32*, len): the counting loop. */
  method EncodedSizeOf(buf: seq<utf32>, len: nat) returns (count: nat)
    requires len <= |buf|
    ensures count == EncodedSize(buf[..len])
  {
    count := 0;
    var i := 0;
    while i < len
      invariant i <= len
      invariant count == EncodedSize(buf[..i])
    {
      EncodedSizeAppend(buf[..i], [buf[i]]);
      assert buf[..i + 1] == buf[..i] + [buf[i]];
      count := count + EncodedSizeCp(buf[i]);
      i := i + 1;
    }
  }

  /** encoded_size(const utf8*, len): the character-counting loop; it reads
      only lead bytes inside the first `len` bytes. */
  method Utf8EncodedSize(buf: seq<utf8>, len: nat) returns (count: nat)
    requires len <= |buf|
    ensures count == LeadCount(buf[..len])
  {
    count := 0;
    var pos := 0;
    var rest := len;
    while rest > 0
      invariant pos + rest == len && pos <= len
      invariant count + LeadCount(buf[pos..len]) == LeadCount(buf[..len])
      decreases rest
    {
      var tcp := buf[pos];
      rest := rest - 1;
      count := count + 1;
      var size := LeadLen(tcp) - 1;
      assert buf[pos..len][0] == tcp;
      if rest >= size {
        assert buf[pos..len][LeadLen(tcp)..] == buf[pos + 1 + size..len];
        rest := rest - size;
        pos := pos + 1 + size;
      } else {
        assert LeadCount(buf[pos..len]) == 1;
        assert LeadCount(buf[pos..len]) == 1 + 0;
        break;
      }
    }
  }

  /** `s` with the elements from index `at` on replaced by `e`. */
  function Overwrite<T>(s: seq<T>, at: nat, e: seq<T>): (r: seq<T>)
    requires at + |e| <= |s|
    ensures |r| == |s|
    ensures forall j :: 0 <= j < |e| ==> r[at + j] == e[j]
    ensures forall j :: 0 <= j < |s| && !(at <= j < at + |e|) ==> r[j] == s[j]
  {
    s[..at] + e + s[at + |e|..]
  }

  /** A slice of a prefix is a slice of the whole. */
  lemma SliceOfPrefix<T>(s: seq<T>, n: nat, i: nat, j: nat)
    requires i <= j <= n <= |s|
    ensures s[..n][i..j] == s[i..j]
  {
  }

  /** A prefix of an overwritten sequence, cut at or after the written part. */
  lemma OverwritePrefix<T>(s: seq<T>, at: nat, e: seq<T>, hi: nat)
    requires at + |e| <= hi <= |s|
    ensures Overwrite(s, at, e)[..hi] == s[..at] + e + s[at + |e|..hi]
  {
    assert Overwrite(s, at, e)[..hi] == (s[..at] + e + s[at + |e|..])[..hi];
  }

  /** `now` holds `mid` at `off` and agrees with `before` everywhere else. */
  ghost predicate Spliced<T>(now: seq<T>, before: seq<T>, off: nat, mid: seq<T>)
  {
    && |now| == |before| && off + |mid| <= |now|
    && (forall j :: 0 <= j < off ==> now[j] == before[j])
    && (forall j :: 0 <= j < |mid| ==> now[off + j] == mid[j])
    && (forall j :: off + |mid| <= j < |now| ==> now[j] == before[j])
  }

  /** Writing `e` just after `mid` extends the spliced part. */
  lemma SplicedStep<T>(cur: seq<T>, before: seq<T>, off: nat, mid: seq<T>, e: seq<T>)
    requires Spliced(cur, before, off, mid) && off + |mid| + |e| <= |cur|
    ensures Spliced(Overwrite(cur, off + |mid|, e), before, off, mid + e)
  {
    var now := Overwrite(cur, off + |mid|, e);
    var m := mid + e;
    forall j | 0 <= j < |m|
      ensures now[off + j] == m[j]
    {
      if j >= |mid| {
        assert now[off + |mid| + (j - |mid|)] == e[j - |mid|];
      }
    }
  }

  /** A spliced buffer, as a sequence. */
  lemma SplicedIs<T>(now: seq<T>, before: seq<T>, off: nat, mid: seq<T>)
    requires Spliced(now, before, off, mid)
    ensures now == before[..off] + mid + before[off + |mid|..]
  {
    var r := before[..off] + mid + before[off + |mid|..];
    assert |now| == |r|;
    forall j | 0 <= j < |now|
      ensures now[j] == r[j]
    {
      if j < off {
      } else if j < off + |mid| {
        assert now[off + (j - off)] == mid[j - off];
      } else {
      }
    }
  }

  /** Writes `e` just after the spliced part `mid`, extending it.  The
      encoders write one character at a time with this. */
  method Put<T>(dest: array<T>, ghost before: seq<T>, ghost off: nat, ghost mid: seq<T>, at: nat, e: seq<T>)
    requires at == off + |mid|
    requires Spliced(dest[..], before, off, mid) && off + |mid| + |e| <= dest.Length
    modifies dest
    ensures Spliced(dest[..], before, off, mid + e)
  {
    SplicedStep(dest[..], before, off, mid, e);
    WriteAt(dest, at, e);
  }

  /** Copies `e` into `dest` at index `at`, as memcpy does; nothing else
      changes. */
  method WriteAt<T>(dest: array<T>, at: nat, e: seq<T>)
    requires at + |e| <= dest.Length
    modifies dest
    ensures dest[..] == Overwrite(old(dest[..]), at, e)
  {
    forall k | 0 <= k < |e| {
      dest[at + k] := e[k];
    }
    assert dest[..] == Overwrite(old(dest[..]), at, e);
  }

  /** The encoder's loop state: after `idx` code points it has produced
      `bytes`, the UTF-8 form of `s[..idx]`, and `capacity` bytes remain.  */
  predicate EncodeState(s: seq<utf32>, destLen: nat, idx: nat, capacity: nat, bytes: seq<utf8>)
  {
    && idx <= |s| && capacity <= destLen
    && |bytes| == destLen - capacity == EncodedSize(s[..idx])
    && bytes == Utf8Of(s[..idx])
    && idx + FitCount(s[idx..], capacity) == FitCount(s, destLen)
  }

  /** One encoder step: a code point that fits is appended. */
  lemma {:induction false} EncodeStep(s: seq<utf32>, destLen: nat, idx: nat, capacity: nat, bytes: seq<utf8>)
    requires EncodeState(s, destLen, idx, capacity, bytes)
    requires idx < |s| && EncodedSizeCp(s[idx]) <= capacity
    ensures |EncodeCp(s[idx])| == EncodedSizeCp(s[idx])
    ensures EncodeState(s, destLen, idx + 1, capacity - EncodedSizeCp(s[idx]), bytes + EncodeCp(s[idx]))
  {
    EncodeCpSize(s[idx]);
    assert s[..idx + 1] == s[..idx] + [s[idx]];
    Utf8OfAppend(s[..idx], [s[idx]]);
    EncodedSizeAppend(s[..idx], [s[idx]]);
    assert Utf8Of([s[idx]]) == EncodeCp(s[idx]) + Utf8Of([]);
    assert s[idx..][0] == s[idx] && s[idx..][1..] == s[idx + 1..];
  }

  /** The encoder stops exactly after FitCount code points. */
  lemma {:induction false} EncodeDone(s: seq<utf32>, destLen: nat, idx: nat, capacity: nat, bytes: seq<utf8>)
    requires EncodeState(s, destLen, idx, capacity, bytes)
    requires idx == |s| || capacity < EncodedSizeCp(s[idx])
    ensures idx == FitCount(s, destLen)
    ensures bytes == Utf8Of(s[..FitCount(s, destLen)])
    ensures |bytes| == EncodedSize(s[..FitCount(s, destLen)]) <= destLen
  {
    if idx == |s| {
      assert s[idx..] == [];
    } else {
      assert s[idx..][0] == s[idx];
    }
  }

  /** encode(const utf32* src, utf8* dest, dest_len, src_len): writes the UTF-8
      form of as many leading code points as fit into `destLen` bytes of `dest`
      (starting at `destOff`) and returns the number of bytes written.  A
      `srcLen` of 0 encodes up to the source's terminating 0. */
  method EncodeToUtf8(src: seq<utf32>, dest: array<utf8>, destOff: nat, destLen: nat, srcLen: nat)
    returns (written: nat)
    requires srcLen == 0 ==> 0 in src
    requires srcLen <= |src|
    requires destOff + destLen <= dest.Length
    modifies dest
    ensures var s := src[..SourceLength(src, 0, srcLen)];
            && written == EncodedSize(s[..FitCount(s, destLen)]) <= destLen
            && dest[..] == old(dest[..destOff]) + Utf8Of(s[..FitCount(s, destLen)])
                           + old(dest[destOff + written..])
  {
    var n := srcLen;
    if n == 0 {
      n := Utf32Length(src);
    }
    written := EncodeLoop(src[..n], dest, destOff, destLen);
  }

  /** The loop of `encode`: code points of `s` are written while they fit. */
  method EncodeLoop(s: seq<utf32>, dest: array<utf8>, destOff: nat, destLen: nat)
    returns (written: nat)
    requires destOff + destLen <= dest.Length
    modifies dest
    ensures written == EncodedSize(s[..FitCount(s, destLen)]) <= destLen
    ensures dest[..] == old(dest[..destOff]) + Utf8Of(s[..FitCount(s, destLen)])
                        + old(dest[destOff + written..])
  {
    ghost var before := dest[..];
    ghost var bytes: seq<utf8> := [];
    var capacity: nat := destLen;
    var out := destOff;
    var idx: nat := 0;
    while idx < |s|
      invariant EncodeState(s, destLen, idx, capacity, bytes)
      invariant out == destOff + |bytes|
      invariant Spliced(dest[..], before, destOff, bytes)
    {
      var cp := s[idx];
      if capacity < EncodedSizeCp(cp) {
        break;
      }
      var e := EncodeCp(cp);
      EncodeStep(s, destLen, idx, capacity, bytes);
      Put(dest, before, destOff, bytes, out, e);
      bytes := bytes + e;
      out := out + |e|;
      capacity := capacity - |e|;
      idx := idx + 1;
    }
    EncodeDone(s, destLen, idx, capacity, bytes);
    written := destLen - capacity;
    SplicedIs(dest[..], before, destOff, bytes);
  }

  /** The decoder's loop state: the bytes before `idx` have produced `cps`,
      and `capacity` code units remain. */
  predicate DecodeState(b: seq<utf8>, destLen: nat, idx: nat, capacity: nat, cps: seq<utf32>)
  {
    && idx <= |b| && capacity <= destLen
    && |cps| == destLen - capacity
    && (destLen > 0 ==> Complete(b[idx..]))
    && Decode(b) == cps + Decode(b[idx..])
  }

  /** One decoder step: the character at `b[idx]` is the next code point. */
  lemma {:induction false} DecodeStep(b: seq<utf8>, destLen: nat, idx: nat, capacity: nat, cps: seq<utf32>)
    requires DecodeState(b, destLen, idx, capacity, cps)
    requires idx < |b| && capacity > 0
    ensures idx + LeadLen(b[idx]) <= |b|
    ensures DecodeState(b, destLen, idx + LeadLen(b[idx]), capacity - 1, cps + [DecodeAt(b, idx)])
  {
    var rest := b[idx..];
    assert rest[0] == b[idx];
    assert rest[LeadLen(b[idx])..] == b[idx + LeadLen(b[idx])..];
    assert DecodeAt(rest, 0) == DecodeAt(b, idx);
  }

  /** The decoder stops when the input or the room runs out. */
  lemma {:induction false} DecodeDone(b: seq<utf8>, destLen: nat, idx: nat, capacity: nat, cps: seq<utf32>)
    requires DecodeState(b, destLen, idx, capacity, cps)
    requires idx == |b| || capacity == 0
    ensures |cps| == (if destLen < |Decode(b)| then destLen else |Decode(b)|)
    ensures cps == Decode(b)[..|cps|]
  {
    if idx == |b| {
      assert b[idx..] == [];
    }
  }

  /** The body of the decoding loop: one character's code point assembled
      from its lead byte and continuation bytes. */
  method DecodeChar(b: seq<utf8>, idx: nat) returns (cp: utf32)
    requires idx < |b| && idx + LeadLen(b[idx]) <= |b|
    ensures cp == DecodeAt(b, idx)
  {
    var cu := b[idx];
    if cu < 0x80 {
      cp := cu;
    } else if cu < 0xE0 {
      cp := (cu as int % 0x20) * 0x40 + b[idx + 1] as int % 0x40;
    } else if cu < 0xF0 {
      cp := (cu as int % 0x10) * 0x1000 + (b[idx + 1] as int % 0x40) * 0x40
        + b[idx + 2] as int % 0x40;
    } else {
      cp := (cu as int % 0x08) * 0x4_0000 + (b[idx + 1] as int % 0x40) * 0x1000
        + (b[idx + 2] as int % 0x40) * 0x40 + b[idx + 3] as int % 0x40;
    }
  }

  /** encode(const utf8* src, utf32* dest, dest_len, src_len): decodes the
      first `srcLen` bytes of `src` (up to the terminator when `srcLen` is 0)
      into at most `destLen` code points at `dest[destOff..]`, returning how
      many were written.  Continuation bytes are read without bounds checks,
      so when there is room for any the decoded bytes must form whole
      characters. */
  method DecodeToUtf32(src: seq<utf8>, dest: array<utf32>, destOff: nat, destLen: nat, srcLen: nat)
    returns (written: nat)
    requires srcLen == 0 ==> 0 in src
    requires srcLen <= |src|
    requires destLen > 0 ==> Complete(src[..SourceLength(src, 0, srcLen)])
    requires destOff + destLen <= dest.Length
    modifies dest
    ensures var d := Decode(src[..SourceLength(src, 0, srcLen)]);
            && written == (if destLen < |d| then destLen else |d|)
            && dest[..] == old(dest[..destOff]) + d[..written] + old(dest[destOff + written..])
  {
    var n := srcLen;
    if n == 0 {
      n := Utf8Length(src);
    }
    written := DecodeLoop(src[..n], dest, destOff, destLen);
  }

  /** The loop of `encode` in the UTF-8 to UTF-32 direction. */
  method DecodeLoop(b: seq<utf8>, dest: array<utf32>, destOff: nat, destLen: nat)
    returns (written: nat)
    requires destLen > 0 ==> Complete(b)
    requires destOff + destLen <= dest.Length
    modifies dest
    ensures written == (if destLen < |Decode(b)| then destLen else |Decode(b)|)
    ensures dest[..] == old(dest[..destOff]) + Decode(b)[..written] + old(dest[destOff + written..])
  {
    ghost var before := dest[..];
    ghost var cps: seq<utf32> := [];
    var capacity: nat := destLen;
    var idx: nat := 0;
    var out := destOff;
    assert b[0..] == b;
    while idx < |b| && capacity > 0
      invariant DecodeState(b, destLen, idx, capacity, cps)
      invariant out == destOff + |cps|
      invariant Spliced(dest[..], before, destOff, cps)
      decreases |b| - idx
    {
      DecodeStep(b, destLen, idx, capacity, cps);
      var cu := b[idx];
      var cp := DecodeChar(b, idx);
      Put(dest, before, destOff, cps, out, [cp]);
      cps := cps + [cp];
      idx := idx + LeadLen(cu);
      out := out + 1;
      capacity := capacity - 1;
    }
    DecodeDone(b, destLen, idx, capacity, cps);
    written := destLen - capacity;
    SplicedIs(dest[..], before, destOff, cps);
  }
}
