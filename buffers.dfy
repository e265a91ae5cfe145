/** The write loops CEGUI::String uses to fill part of its code-point
    buffer, and the facts about a buffer after room has been made, data
    written and the terminator placed. */
module Buffers {
  import opened Utf
  import opened Text

  /** `num` copies of `cp`. */
  function Repeat(cp: utf32, num: nat): (r: seq<utf32>)
    ensures |r| == num
    ensures forall i :: 0 <= i < num ==> r[i] == cp
  {
    if num == 0 then [] else Repeat(cp, num - 1) + [cp]
  }

  /** Writing `x` just before `mid` extends the spliced part downwards. */
  lemma SplicedStepBack<T>(cur: seq<T>, before: seq<T>, off: nat, mid: seq<T>, x: T)
    requires Spliced(cur, before, off, mid) && 0 < off
    ensures Spliced(cur[off - 1 := x], before, off - 1, [x] + mid)
  {
    var now := cur[off - 1 := x];
    var m := [x] + mid;
    forall j | 0 <= j < |m|
      ensures now[off - 1 + j] == m[j]
    {
      if j > 0 {
        assert now[off + (j - 1)] == mid[j - 1];
      }
    }
  }

  /** One step of a `*pt-- = x` loop. */
  method PutBack<T>(dest: array<T>, ghost before: seq<T>, off: nat, ghost mid: seq<T>, x: T)
    requires Spliced(dest[..], before, off, mid) && 0 < off
    modifies dest
    ensures Spliced(dest[..], before, off - 1, [x] + mid)
  {
    SplicedStepBack(dest[..], before, off, mid, x);
    dest[off - 1] := x;
  }

  /** `while (num--) *p++ = code_point;` starting at `dest[at]`. */
  method FillForward(dest: array<utf32>, at: nat, num: nat, cp: utf32)
    requires at + num <= dest.Length
    modifies dest
    ensures dest[..] == Overwrite(old(dest[..]), at, Repeat(cp, num))
  {
    ghost var before := dest[..];
    var p: nat := at;
    var n: nat := num;
    while n > 0
      invariant at <= p && p + n == at + num
      invariant Spliced(dest[..], before, at, Repeat(cp, p - at))
    {
      Put(dest, before, at, Repeat(cp, p - at), p, [cp]);
      p := p + 1;
      n := n - 1;
    }
    SplicedIs(dest[..], before, at, Repeat(cp, num));
  }

  lemma RepeatCons(cp: utf32, n: nat)
    ensures [cp] + Repeat(cp, n) == Repeat(cp, n + 1)
  {
  }

  /** `pt = &ptr()[at + num - 1]; while (num--) *pt-- = code_point;` */
  method FillBackward(dest: array<utf32>, at: nat, num: nat, cp: utf32)
    requires at + num <= dest.Length
    modifies dest
    ensures dest[..] == Overwrite(old(dest[..]), at, Repeat(cp, num))
  {
    ghost var before := dest[..];
    var n: nat := num;
    while n > 0
      invariant n <= num
      invariant Spliced(dest[..], before, at + n, Repeat(cp, num - n))
    {
      PutBack(dest, before, at + n, Repeat(cp, num - n), cp);
      RepeatCons(cp, num - n);
      n := n - 1;
    }
    SplicedIs(dest[..], before, at, Repeat(cp, num));
  }

  /** `for (i = 0; i < len; ++i) *pt++ = (unsigned char)*chars++;` */
  method WidenForward(dest: array<utf32>, at: nat, src: seq<utf8>)
    requires at + |src| <= dest.Length
    modifies dest
    ensures dest[..] == Overwrite(old(dest[..]), at, Widen(src))
  {
    ghost var before := dest[..];
    var i := 0;
    while i < |src|
      invariant i <= |src|
      invariant Spliced(dest[..], before, at, Widen(src)[..i])
    {
      assert Widen(src)[..i] + [src[i] as utf32] == Widen(src)[..i + 1];
      Put(dest, before, at, Widen(src)[..i], at + i, [src[i] as utf32]);
      i := i + 1;
    }
    assert Widen(src)[..|src|] == Widen(src);
    SplicedIs(dest[..], before, at, Widen(src));
  }

  /** `pt = &ptr()[at + n - 1]; while (n--) *pt-- = (unsigned char)src[n];` */
  method WidenBackward(dest: array<utf32>, at: nat, src: seq<utf8>)
    requires at + |src| <= dest.Length
    modifies dest
    ensures dest[..] == Overwrite(old(dest[..]), at, Widen(src))
  {
    ghost var before := dest[..];
    var n: nat := |src|;
    assert Widen(src)[|src|..] == [];
    while n > 0
      invariant n <= |src|
      invariant Spliced(dest[..], before, at + n, Widen(src)[n..])
    {
      assert [src[n - 1] as utf32] + Widen(src)[n..] == Widen(src)[n - 1..];
      PutBack(dest, before, at + n, Widen(src)[n..], src[n - 1] as utf32);
      n := n - 1;
    }
    SplicedIs(dest[..], before, at, Widen(src));
  }

  /** `encode(src, dest + at, encsz, num)` where `encsz` is
      `encoded_size(src, num)`: the decoder writes exactly the code points
      the first `num` bytes decode to. */
  method DecodeInto(dest: array<utf32>, at: nat, src: seq<utf8>, num: nat, encsz: nat)
    requires num <= |src| && Complete(src[..num]) && encsz == LeadCount(src[..num])
    requires at + encsz <= dest.Length
    modifies dest
    ensures encsz == |Decode(src[..num])|
    ensures dest[..] == Overwrite(old(dest[..]), at, Decode(src[..num]))
  {
    LeadCountOfComplete(src[..num]);
    LeadCountBound(src[..num]);
    ghost var d := Decode(src[..num]);
    if encsz > 0 {
      var _ := DecodeToUtf32(src, dest, at, encsz, num);
      assert dest[..] == Overwrite(old(dest[..]), at, d);
    } else {
      assert d == [];
      assert dest[..] == Overwrite(old(dest[..]), at, d);
    }
  }

  /** The three memcpy calls through a temporary that exchange the
      contents of two equally long buffers. */
  method ExchangeQuick(a: array<utf32>, b: array<utf32>)
    requires a != b && a.Length == b.Length
    modifies a, b
    ensures a[..] == old(b[..]) && b[..] == old(a[..])
  {
    var t := a[..];
    forall k | 0 <= k < a.Length {
      a[k] := b[k];
    }
    forall k | 0 <= k < b.Length {
      b[k] := t[k];
    }
  }

  /** encode(src, buf, |buf|, |x|) when the encoding of `x` fits: it all
      lands at the start of `buf` (an empty `x` writes nothing). */
  method EncodeAll(x: seq<utf32>, buf: array<utf8>) returns (written: nat)
    requires EncodedSize(x) <= buf.Length
    modifies buf
    ensures written == |Utf8Of(x)| <= buf.Length
    ensures buf[..] == Utf8Of(x) + old(buf[written..])
  {
    if x == [] {
      assert buf[..] == buf[0..];
      return 0;
    }
    ghost var before := buf[..];
    written := EncodeToUtf8(x, buf, 0, buf.Length, |x|);
    EncodedWhole(x, buf.Length, before, buf[..], written);
  }

  /** What encode leaves behind, given its contract, when all of `x` fits. */
  lemma EncodedWhole(x: seq<utf32>, cap: nat, before: seq<utf8>, after: seq<utf8>, written: nat)
    requires x != [] && EncodedSize(x) <= cap == |before|
    requires var s := x[..SourceLength(x, 0, |x|)];
             && written == EncodedSize(s[..FitCount(s, cap)]) <= cap
             && after == before[..0] + Utf8Of(s[..FitCount(s, cap)]) + before[written..]
    ensures written == |Utf8Of(x)| && after == Utf8Of(x) + before[written..]
  {
    Utf8OfLength(x);
    FitCountAll(x, cap);
    assert x[..|x|] == x;
    assert before[..0] == [];
  }

  /** The encoding of `x` followed by a 0 terminator, as build_utf8_buff()
      leaves it at the start of its cache. */
  method EncodeTerminated(x: seq<utf32>, buf: array<utf8>) returns (written: nat)
    requires EncodedSize(x) < buf.Length
    modifies buf
    ensures written == EncodedSize(x) == |Utf8Of(x)| < buf.Length
    ensures buf[..written + 1] == Utf8Of(x) + [0] && buf[..written] == Utf8Of(x)
  {
    written := EncodeAll(x, buf);
    Utf8OfLength(x);
    ghost var e := buf[..];
    buf[written] := 0;
    assert buf[..written] == e[..written];
  }
}
