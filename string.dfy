/** CEGUI::String: a buffer of UTF-32 code points that lives in a 32-slot
    inline "quick buffer" while it fits and in a heap array otherwise, always
    followed by a 0 terminator, with a cached UTF-8 rendering of its text. */
module Strings {
  import opened Utf
  import opened Text
  import opened Buffers
  import opened Errors

  /** STR_QUICKBUFF_SIZE. */
  const QUICKBUFF_SIZE: nat := 32

  /** max_size(): the greatest size_t divided by sizeof(utf32). */
  const MAX_SIZE: size_type := NPOS / 4

  /** The bytes of a UTF-8 argument the source reads: `num` of them, or up
      to the terminator when `num` is 0. */
  predicate Utf8Arg(bytes: seq<utf8>, num: nat)
  {
    num <= |bytes| && (num == 0 ==> 0 in bytes)
  }

  /** What the utf8 search overloads rely on: encoded_size counts the code
      points of the first `len` bytes, and decoding the whole buffer starts
      with them. */
  lemma Utf8Needle(bytes: seq<utf8>, len: nat, sze: nat)
    requires len <= |bytes| && Complete(bytes[..len]) && sze == LeadCount(bytes[..len])
    ensures sze <= len && sze <= |Decode(bytes)|
    ensures sze == |Decode(bytes[..len])| && Decode(bytes)[..sze] == Decode(bytes[..len])
  {
    LeadCountOfComplete(bytes[..len]);
    LeadCountBound(bytes[..len]);
    DecodePrefix(bytes, len);
  }

  class String {
    /** d_cplength: code points in the string, terminator excluded. */
    var cplength: nat
    /** d_reserve: code points the live buffer holds, terminator included. */
    var reserve: nat
    /** d_encodedbuff, d_encodeddatlen, d_encodedbufflen: the UTF-8 cache. */
    var encodedbuff: array?<utf8>
    var encodeddatlen: nat
    var encodedbufflen: nat
    /** d_quickbuff: the inline buffer, used while `reserve` is at most 32. */
    const quickbuff: array<utf32>
    /** d_buffer: the heap buffer, used when `reserve` exceeds 32. */
    var buffer: array?<utf32>
    ghost var Repr: set<object>

    /** ptr(): the live buffer. */
    function Ptr(): array<utf32>
      reads this
      requires reserve > QUICKBUFF_SIZE ==> buffer != null
    {
      if reserve > QUICKBUFF_SIZE then buffer else quickbuff
    }

    /** The buffers are allocated as `reserve` says; the terminator is not
        yet required. */
    ghost predicate Allocated()
      reads this, Repr
    {
      && this in Repr && quickbuff in Repr
      && quickbuff.Length == QUICKBUFF_SIZE
      && QUICKBUFF_SIZE <= reserve < SIZE_MOD
      && (reserve > QUICKBUFF_SIZE ==>
            buffer != null && buffer in Repr && buffer != quickbuff && buffer.Length == reserve)
      && (encodedbufflen > 0 ==>
            encodedbuff != null && encodedbuff in Repr && encodedbuff.Length == encodedbufflen)
      && encodeddatlen <= encodedbufflen
    }

    /** The class invariant: the string and its terminator fit in the live
        buffer, and `ptr()[d_cplength]` is 0. */
    ghost predicate Valid()
      reads this, Repr
    {
      Allocated() && cplength < reserve && Ptr()[cplength] == 0
    }

    /** The code points of the string. */
    ghost function Contents(): seq<utf32>
      reads this, Repr
      requires Valid()
    {
      Ptr()[..cplength]
    }

    /** The live buffer is the quick buffer exactly when `reserve` is at
        most 32, and it is always `reserve` long. */
    lemma PtrIsQuickBuffer()
      requires Allocated()
      ensures Ptr() == quickbuff <==> reserve <= QUICKBUFF_SIZE
      ensures reserve <= QUICKBUFF_SIZE ==> reserve == QUICKBUFF_SIZE
      ensures Ptr().Length == reserve
    {
    }

    /** String(): init(). */
    constructor()
      ensures Valid() && fresh(Repr)
      ensures Contents() == [] && reserve == QUICKBUFF_SIZE
      ensures buffer == null && encodedbuff == null && encodedbufflen == 0
    {
      var q := new utf32[QUICKBUFF_SIZE];
      quickbuff := q;
      reserve := QUICKBUFF_SIZE;
      encodedbuff := null;
      encodedbufflen := 0;
      encodeddatlen := 0;
      buffer := null;
      cplength := 0;
      Repr := {this, q};
      new;
      q[0] := 0;
    }

    /** size() and length(). */
    function Length(): (n: nat)
      reads this, Repr
      requires Valid()
      ensures n == |Contents()| && n < reserve
    {
      cplength
    }

    /** empty(). */
    function Empty(): (b: bool)
      reads this, Repr
      requires Valid()
      ensures b <==> Contents() == []
    {
      cplength == 0
    }

    /** capacity(): room for code points besides the terminator. */
    function Capacity(): (n: nat)
      reads this, Repr
      requires Valid()
      ensures |Contents()| <= n && n + 1 == Ptr().Length
    {
      reserve - 1
    }

    /** setlen(len): sets the length and writes the terminator. */
    method SetLen(len: nat)
      requires Allocated() && len < reserve
      modifies this, Ptr()
      ensures Valid() && cplength == len && Contents() == old(Ptr()[..len])
      ensures Ptr() == old(Ptr()) && Ptr()[..] == old(Ptr()[..])[len := 0]
      ensures reserve == old(reserve) && buffer == old(buffer) && Repr == old(Repr)
      ensures encodedbuff == old(encodedbuff) && encodedbufflen == old(encodedbufflen)
      ensures encodeddatlen == old(encodeddatlen)
    {
      cplength := len;
      Ptr()[len] := 0;
    }

    /** grow(new_size): makes room for `new_size` code points and the
        terminator.  The "too big" check at max_size() constructs an
        exception it never throws, so every size below npos is accepted;
        at npos the increment below would wrap. */
    method Grow(newSize: nat) returns (grew: bool)
      requires Valid() && newSize < NPOS
      modifies this
      ensures Valid() && fresh(Repr - old(Repr))
      ensures grew <==> newSize + 1 > old(reserve)
      ensures reserve == (if grew then newSize + 1 else old(reserve))
      ensures cplength == old(cplength)
      ensures Ptr()[..cplength + 1] == old(Ptr()[..cplength + 1])
      ensures grew ==> fresh(Ptr()) && Ptr() == buffer
      ensures !grew ==> Ptr() == old(Ptr()) && buffer == old(buffer)
      ensures encodedbuff == old(encodedbuff) && encodedbufflen == old(encodedbufflen)
      ensures encodeddatlen == old(encodeddatlen)
    {
      var size := newSize + 1;
      if size > reserve {
        var temp := new utf32[size];
        var live := Ptr();
        forall k | 0 <= k < cplength + 1 {
          temp[k] := live[k];
        }
        assert temp[..cplength + 1] == live[..cplength + 1];
        buffer := temp;
        reserve := size;
        Repr := Repr + {temp};
        return true;
      }
      return false;
    }

    /** trim(): gives back unused heap space, moving back into the quick
        buffer when the string and terminator fit in it. */
    method Trim()
      requires Valid()
      modifies this, quickbuff
      ensures Valid() && fresh(Repr - old(Repr))
      ensures Contents() == old(Contents())
      ensures old(reserve) > QUICKBUFF_SIZE && old(reserve) > cplength + 1 ==>
                reserve == (if cplength + 1 <= QUICKBUFF_SIZE then QUICKBUFF_SIZE else cplength + 1)
      ensures !(old(reserve) > QUICKBUFF_SIZE && old(reserve) > cplength + 1) ==>
                reserve == old(reserve) && Ptr() == old(Ptr())
      ensures encodedbuff == old(encodedbuff) && encodedbufflen == old(encodedbufflen)
      ensures encodeddatlen == old(encodeddatlen)
    {
      var minSize := cplength + 1;
      if reserve > QUICKBUFF_SIZE && reserve > minSize {
        var live := buffer;
        if minSize <= QUICKBUFF_SIZE {
          forall k | 0 <= k < minSize {
            quickbuff[k] := live[k];
          }
          reserve := QUICKBUFF_SIZE;
          assert Ptr()[..minSize] == live[..minSize];
          assert Ptr()[cplength] == live[cplength];
        } else {
          var temp := new utf32[minSize];
          forall k | 0 <= k < minSize {
            temp[k] := live[k];
          }
          buffer := temp;
          reserve := minSize;
          Repr := Repr + {temp};
          assert Ptr()[..minSize] == live[..minSize];
          assert Ptr()[cplength] == live[cplength];
        }
      }
    }

    /** reserve(num): trims when `num` is 0 and grows otherwise. */
    method Reserve(num: nat)
      requires Valid() && num < NPOS
      modifies this, quickbuff
      ensures Valid() && fresh(Repr - old(Repr))
      ensures Contents() == old(Contents())
      ensures num > 0 ==> reserve == (if num + 1 > old(reserve) then num + 1 else old(reserve))
    {
      if num == 0 {
        Trim();
      } else {
        var _ := Grow(num);
        assert Contents() == Ptr()[..cplength + 1][..cplength];
      }
    }

    /** operator[](idx): no bounds check; any slot of the live buffer can be
        read, the terminator included. */
    method Get(idx: nat) returns (cp: utf32)
      requires Valid() && idx < reserve
      ensures cp == Ptr()[idx]
      ensures idx < |Contents()| ==> cp == Contents()[idx]
      ensures idx == |Contents()| ==> cp == 0
    {
      cp := Ptr()[idx];
    }

    /** at(idx): out_of_range unless `idx` is a position of the string. */
    method At(idx: size_type) returns (r: Result<utf32>)
      requires Valid()
      ensures r.Fail? <==> idx >= |Contents()|
      ensures r.Fail? ==> r.error == OutOfRange
      ensures r.Ok? ==> r.value == Contents()[idx]
    {
      if cplength <= idx {
        return Fail(OutOfRange);
      }
      return Ok(Ptr()[idx]);
    }

    // -------------------------------------------------------------------
    // Editing.  Each member checks its arguments as the source does, grows
    // the buffer, moves the tail, writes the new code points with the
    // source's own loop, and places the terminator.
    // -------------------------------------------------------------------

    /** grow(newsz) followed, when anything follows the replaced range
        `[idx, idx + len)`, by the memmove of that tail to just after the `n`
        code points about to be written.  (insert's memmove is not guarded,
        but then the range is empty and nothing moves when the tail is.) */
    method MakeRoom(idx: nat, len: nat, n: nat)
      requires Valid() && idx + len <= cplength && cplength - len + n < NPOS
      modifies this, Ptr()
      ensures Allocated() && fresh(Repr - old(Repr))
      ensures cplength == old(cplength) && cplength - len + n < reserve
      ensures Ptr()[..idx] == old(Contents()[..idx])
      ensures Ptr()[idx + n..cplength - len + n] == old(Contents()[idx + len..])
      ensures encodedbuff == old(encodedbuff) && encodedbufflen == old(encodedbufflen)
      ensures encodeddatlen == old(encodeddatlen)
      ensures old(cplength) - len + n < old(reserve) ==> reserve == old(reserve)
    {
      ghost var c := Contents();
      var _ := Grow(cplength - len + n);
      assert Ptr()[..idx] == c[..idx] && Ptr()[idx + len..cplength] == c[idx + len..] by {
        assert Ptr()[..cplength] == Ptr()[..cplength + 1][..cplength];
      }
      if idx + len < cplength {
        WriteAt(Ptr(), idx + n, Ptr()[idx + len..cplength]);
      }
    }

    /** The shared body of append, insert and replace when the new code
        points are memcpy'd from another String: grow, move the tail, copy
        `e` to `idx`, setlen. */
    method SpliceCopy(idx: nat, len: nat, e: seq<utf32>)
      requires Valid() && idx + len <= cplength && cplength - len + |e| < NPOS
      modifies Repr
      ensures Valid() && fresh(Repr - old(Repr))
      ensures Contents() == old(Contents()[..idx]) + e + old(Contents()[idx + len..])
    {
      var newsz := cplength - len + |e|;
      MakeRoom(idx, len, |e|);
      ghost var a := Ptr()[..];
      WriteAt(Ptr(), idx, e);
      OverwritePrefix(a, idx, e, newsz);
      SetLen(newsz);
    }

    /** As SpliceCopy, the new code points being the chars of `src`,
        zero-extended and written by the backward loop. */
    method SpliceWiden(idx: nat, len: nat, src: seq<utf8>)
      requires Valid() && idx + len <= cplength && cplength - len + |src| < NPOS
      modifies Repr
      ensures Valid() && fresh(Repr - old(Repr))
      ensures Contents() == old(Contents()[..idx]) + Widen(src) + old(Contents()[idx + len..])
    {
      ghost var c := Contents();
      var newsz := cplength - len + |src|;
      MakeRoom(idx, len, |src|);
      var p := Ptr();
      ghost var a := p[..];
      WidenBackward(p, idx, src);
      OverwritePrefix(a, idx, Widen(src), newsz);
      assert p[..newsz] == c[..idx] + Widen(src) + c[idx + len..];
      SetLen(newsz);
    }

    /** As SpliceCopy, the new code points being `num` copies of `cp`,
        written by the backward loop. */
    method SpliceFill(idx: nat, len: nat, num: nat, cp: utf32)
      requires Valid() && idx + len <= cplength && cplength - len + num < NPOS
      modifies Repr
      ensures Valid() && fresh(Repr - old(Repr))
      ensures Contents() == old(Contents()[..idx]) + Repeat(cp, num) + old(Contents()[idx + len..])
    {
      var newsz := cplength - len + num;
      MakeRoom(idx, len, num);
      ghost var a := Ptr()[..];
      FillBackward(Ptr(), idx, num, cp);
      OverwritePrefix(a, idx, Repeat(cp, num), newsz);
      SetLen(newsz);
    }

    /** As SpliceCopy, the new code points being decoded from the first
        `num` bytes of `bytes`: encoded_size counts them, and the decoder
        writes at most that many. */
    method SpliceDecode(idx: nat, len: nat, bytes: seq<utf8>, num: nat)
      requires Valid() && idx + len <= cplength
      requires num <= |bytes| && Complete(bytes[..num])
      requires cplength - len + |Decode(bytes[..num])| < NPOS
      modifies Repr
      ensures Valid() && fresh(Repr - old(Repr))
      ensures Contents() == old(Contents()[..idx]) + Decode(bytes[..num]) + old(Contents()[idx + len..])
    {
      ghost var c := Contents();
      var encsz := Utf8EncodedSize(bytes, num);
      ghost var d := Decode(bytes[..num]);
      LeadCountOfComplete(bytes[..num]);
      assert encsz == |d|;
      var newsz := cplength - len + encsz;
      MakeRoom(idx, len, encsz);
      assert Ptr()[..idx] == c[..idx] && Ptr()[idx + encsz..newsz] == c[idx + len..];
      var p := Ptr();
      ghost var a := p[..];
      DecodeInto(p, idx, bytes, num, encsz);
      OverwritePrefix(a, idx, d, newsz);
      assert p[..newsz] == c[..idx] + d + c[idx + len..];
      SetLen(newsz);
    }

    /** grow(n) then setlen(n): the first step of the assign forms. */
    method Reset(n: nat)
      requires Valid() && n < NPOS
      modifies Repr
      ensures Allocated() && fresh(Repr - old(Repr))
      ensures cplength == n < reserve && Ptr()[n] == 0
    {
      var _ := Grow(n);
      SetLen(n);
    }

    /** assign(str, str_idx, str_num): out_of_range when `str_idx` is past
        the end of `str`; otherwise the string becomes the clamped
        sub-string of `str`. */
    method Assign(str: String, strIdx: size_type, strNum: size_type) returns (r: Outcome)
      requires Valid() && str.Valid() && Repr !! str.Repr
      modifies Repr
      ensures Valid() && fresh(Repr - old(Repr))
      ensures r == (if old(str.cplength) < strIdx then Failure(OutOfRange) else Success)
      ensures r.Success? ==>
                Contents() == old(str.Contents()[strIdx..strIdx + ClampCount(strIdx, strNum, str.cplength)])
      ensures r.Failure? ==> Contents() == old(Contents())
    {
      if str.cplength < strIdx {
        return Failure(OutOfRange);
      }
      var n := ClampCount(strIdx, strNum, str.cplength);
      var e := str.Ptr()[strIdx..strIdx + n];
      assert e == str.Contents()[strIdx..strIdx + n];
      Reset(n);
      ghost var a := Ptr()[..];
      WriteAt(Ptr(), 0, e);
      OverwritePrefix(a, 0, e, n);
      return Success;
    }

    /** assign(std_str, str_idx, str_num): as assign(str, ...), each char
        zero-extended, copied by a backward loop. */
    method AssignStd(stdStr: seq<utf8>, strIdx: size_type, strNum: size_type) returns (r: Outcome)
      requires Valid() && |stdStr| < NPOS
      modifies Repr
      ensures Valid() && fresh(Repr - old(Repr))
      ensures r == (if |stdStr| < strIdx then Failure(OutOfRange) else Success)
      ensures r.Success? ==>
                Contents() == Widen(stdStr[strIdx..strIdx + ClampCount(strIdx, strNum, |stdStr|)])
      ensures r.Failure? ==> Contents() == old(Contents())
    {
      if |stdStr| < strIdx {
        return Failure(OutOfRange);
      }
      var n := ClampCount(strIdx, strNum, |stdStr|);
      var src := stdStr[strIdx..strIdx + n];
      Reset(n);
      ghost var a := Ptr()[..];
      WidenBackward(Ptr(), 0, src);
      OverwritePrefix(a, 0, Widen(src), n);
      return Success;
    }

    /** assign(utf8_str, str_num): length_error for npos; otherwise the
        string becomes the decoding of the first `str_num` bytes.  With
        `str_num` 0 the decoder runs up to the terminator into the buffer,
        but the length is then set to 0. */
    method AssignUtf8(bytes: seq<utf8>, strNum: size_type) returns (r: Outcome)
      requires Valid()
      requires strNum != NPOS ==> Utf8Arg(bytes, strNum) && Complete(bytes[..SourceLength(bytes, 0, strNum)])
      modifies Repr
      ensures Valid() && fresh(Repr - old(Repr))
      ensures r == (if strNum == NPOS then Failure(LengthError) else Success)
      ensures r.Success? ==> Contents() == Decode(bytes[..strNum])
      ensures r.Failure? ==> Contents() == old(Contents())
    {
      if strNum == NPOS {
        return Failure(LengthError);
      }
      var encSize := Utf8EncodedSize(bytes, strNum);
      LeadCountBound(bytes[..strNum]);
      var _ := Grow(encSize);
      ghost var d := Decode(bytes[..SourceLength(bytes, 0, strNum)]);
      var _ := DecodeToUtf32(bytes, Ptr(), 0, reserve, strNum);
      if strNum > 0 {
        LeadCountOfComplete(bytes[..strNum]);
        assert Ptr()[..encSize] == d;
      }
      SetLen(encSize);
      return Success;
    }

    /** assign(num, code_point): length_error for npos; otherwise `num`
        copies of `code_point`. */
    method AssignRepeat(num: size_type, cp: utf32) returns (r: Outcome)
      requires Valid()
      modifies Repr
      ensures Valid() && fresh(Repr - old(Repr))
      ensures r == (if num == NPOS then Failure(LengthError) else Success)
      ensures r.Success? ==> Contents() == Repeat(cp, num)
      ensures r.Failure? ==> Contents() == old(Contents())
    {
      if num == NPOS {
        return Failure(LengthError);
      }
      Reset(num);
      ghost var a := Ptr()[..];
      FillForward(Ptr(), 0, num, cp);
      OverwritePrefix(a, 0, Repeat(cp, num), num);
      return Success;
    }

    /** assign(chars, chars_len): the first `chars_len` chars, zero-extended.
        There is no npos check here; `grow` then wraps, so the length must
        stay below npos. */
    method AssignChars(chars: seq<utf8>, charsLen: size_type)
      requires Valid() && charsLen <= |chars| && charsLen < NPOS
      modifies Repr
      ensures Valid() && fresh(Repr - old(Repr))
      ensures Contents() == Widen(chars[..charsLen])
    {
      var src := chars[..charsLen];
      var _ := Grow(charsLen);
      ghost var a := Ptr()[..];
      WidenForward(Ptr(), 0, src);
      OverwritePrefix(a, 0, Widen(src), charsLen);
      SetLen(charsLen);
    }

    /** append(str, str_idx, str_num): out_of_range when `str_idx` is past
        the end of `str`; otherwise the clamped sub-string is added at the
        end. */
    method Append(str: String, strIdx: size_type, strNum: size_type) returns (r: Outcome)
      requires Valid() && str.Valid() && Repr !! str.Repr
      requires strIdx <= str.cplength ==> cplength + ClampCount(strIdx, strNum, str.cplength) < NPOS
      modifies Repr
      ensures Valid() && fresh(Repr - old(Repr))
      ensures r == (if old(str.cplength) < strIdx then Failure(OutOfRange) else Success)
      ensures r.Success? ==>
                Contents() == old(Contents()) + old(str.Contents()[strIdx..strIdx + ClampCount(strIdx, strNum, str.cplength)])
      ensures r.Failure? ==> Contents() == old(Contents())
    {
      if str.cplength < strIdx {
        return Failure(OutOfRange);
      }
      var n := ClampCount(strIdx, strNum, str.cplength);
      var e := str.Ptr()[strIdx..strIdx + n];
      assert e == str.Contents()[strIdx..strIdx + n];
      SpliceCopy(cplength, 0, e);
      return Success;
    }

    /** append(std_str, str_idx, str_num) as evidently intended: the clamped
        sub-string starting at `str_idx`, zero-extended, is added at the
        end. */
    method AppendStd(stdStr: seq<utf8>, strIdx: size_type, strNum: size_type) returns (r: Outcome)
      requires Valid() && |stdStr| < NPOS
      requires strIdx <= |stdStr| ==> cplength + ClampCount(strIdx, strNum, |stdStr|) < NPOS
      modifies Repr
      ensures Valid() && fresh(Repr - old(Repr))
      ensures r == (if |stdStr| < strIdx then Failure(OutOfRange) else Success)
      ensures r.Success? ==>
                Contents() == old(Contents()) + Widen(stdStr[strIdx..strIdx + ClampCount(strIdx, strNum, |stdStr|)])
      ensures r.Failure? ==> Contents() == old(Contents())
    {
      if |stdStr| < strIdx {
        return Failure(OutOfRange);
      }
      var n := ClampCount(strIdx, strNum, |stdStr|);
      ghost var c := Contents();
      var src := stdStr[strIdx..strIdx + n];
      SpliceWiden(cplength, 0, src);
      assert c[..|c|] == c;
      return Success;
    }

    /** append(std_str, str_idx, str_num) as written: the backward loop
        reads `std_str[str_num]` rather than `std_str[str_idx + str_num]`, so
        the clamped count is taken from the START of `std_str`. */
    method AppendStdAsWritten(stdStr: seq<utf8>, strIdx: size_type, strNum: size_type) returns (r: Outcome)
      requires Valid() && |stdStr| < NPOS
      requires strIdx <= |stdStr| ==> cplength + ClampCount(strIdx, strNum, |stdStr|) < NPOS
      modifies Repr
      ensures Valid() && fresh(Repr - old(Repr))
      ensures r == (if |stdStr| < strIdx then Failure(OutOfRange) else Success)
      ensures r.Success? ==>
                Contents() == old(Contents()) + Widen(stdStr[..ClampCount(strIdx, strNum, |stdStr|)])
      ensures r.Failure? ==> Contents() == old(Contents())
    {
      if |stdStr| < strIdx {
        return Failure(OutOfRange);
      }
      var n := ClampCount(strIdx, strNum, |stdStr|);
      ghost var c := Contents();
      var src := stdStr[..n];
      SpliceWiden(cplength, 0, src);
      assert c[..|c|] == c;
      return Success;
    }

    /** append(utf8_str, len): length_error for npos; otherwise the
        decoding of the first `len` bytes is added at the end. */
    method AppendUtf8(bytes: seq<utf8>, len: size_type) returns (r: Outcome)
      requires Valid()
      requires len != NPOS ==>
                 len <= |bytes| && Complete(bytes[..len]) && cplength + |Decode(bytes[..len])| < NPOS
      modifies Repr
      ensures Valid() && fresh(Repr - old(Repr))
      ensures r == (if len == NPOS then Failure(LengthError) else Success)
      ensures r.Success? ==> Contents() == old(Contents()) + Decode(bytes[..len])
      ensures r.Failure? ==> Contents() == old(Contents())
    {
      if len == NPOS {
        return Failure(LengthError);
      }
      SpliceDecode(cplength, 0, bytes, len);
      return Success;
    }

    /** append(num, code_point): length_error for npos; otherwise `num`
        copies of `code_point` are added at the end by a forward loop. */
    method AppendRepeat(num: size_type, cp: utf32) returns (r: Outcome)
      requires Valid() && (num != NPOS ==> cplength + num < NPOS)
      modifies Repr
      ensures Valid() && fresh(Repr - old(Repr))
      ensures r == (if num == NPOS then Failure(LengthError) else Success)
      ensures r.Success? ==> Contents() == old(Contents()) + Repeat(cp, num)
      ensures r.Failure? ==> Contents() == old(Contents())
      ensures old(cplength) + num < old(reserve) ==> reserve == old(reserve)
    {
      if num == NPOS {
        return Failure(LengthError);
      }
      ghost var c := Contents();
      var newsz := cplength + num;
      MakeRoom(cplength, 0, num);
      var p := Ptr();
      ghost var a := p[..];
      FillForward(p, cplength, num, cp);
      OverwritePrefix(a, cplength, Repeat(cp, num), newsz);
      assert p[..newsz] == c + Repeat(cp, num);
      SetLen(newsz);
      return Success;
    }

    /** push_back(code_point) and operator+=(code_point): append(1, code_point). */
    method PushBack(cp: utf32)
      requires Valid() && cplength + 1 < NPOS
      modifies Repr
      ensures Valid() && fresh(Repr - old(Repr))
      ensures Contents() == old(Contents()) + [cp]
      ensures old(cplength) + 1 < old(reserve) ==> reserve == old(reserve)
    {
      var _ := AppendRepeat(1, cp);
      assert Repeat(cp, 1) == [cp];
    }

    /** append(chars, chars_len): length_error for npos; otherwise the
        chars, zero-extended, are added at the end by a backward loop. */
    method AppendChars(chars: seq<utf8>, charsLen: size_type) returns (r: Outcome)
      requires Valid() && (charsLen != NPOS ==> charsLen <= |chars| && cplength + charsLen < NPOS)
      modifies Repr
      ensures Valid() && fresh(Repr - old(Repr))
      ensures r == (if charsLen == NPOS then Failure(LengthError) else Success)
      ensures r.Success? ==> Contents() == old(Contents()) + Widen(chars[..charsLen])
      ensures r.Failure? ==> Contents() == old(Contents())
    {
      if charsLen == NPOS {
        return Failure(LengthError);
      }
      ghost var c := Contents();
      var src := chars[..charsLen];
      SpliceWiden(cplength, 0, src);
      assert c[..|c|] == c;
      return Success;
    }

    /** insert(idx, str, str_idx, str_num): out_of_range when `idx` or
        `str_idx` is past the end of its string; otherwise the clamped
        sub-string of `str` is inserted before position `idx`. */
    method Insert(idx: size_type, str: String, strIdx: size_type, strNum: size_type) returns (r: Outcome)
      requires Valid() && str.Valid() && Repr !! str.Repr
      requires idx <= cplength && strIdx <= str.cplength ==>
                 cplength + ClampCount(strIdx, strNum, str.cplength) < NPOS
      modifies Repr
      ensures Valid() && fresh(Repr - old(Repr))
      ensures r == (if old(cplength) < idx || old(str.cplength) < strIdx then Failure(OutOfRange) else Success)
      ensures r.Success? ==>
                Contents() == old(Contents()[..idx])
                            + old(str.Contents()[strIdx..strIdx + ClampCount(strIdx, strNum, str.cplength)])
                            + old(Contents()[idx..])
      ensures r.Failure? ==> Contents() == old(Contents())
    {
      if cplength < idx || str.cplength < strIdx {
        return Failure(OutOfRange);
      }
      var n := ClampCount(strIdx, strNum, str.cplength);
      var e := str.Ptr()[strIdx..strIdx + n];
      assert e == str.Contents()[strIdx..strIdx + n];
      SpliceCopy(idx, 0, e);
      return Success;
    }

    /** insert(idx, std_str, str_idx, str_num): as insert(idx, str, ...),
        the chars zero-extended and copied by a backward loop. */
    method InsertStd(idx: size_type, stdStr: seq<utf8>, strIdx: size_type, strNum: size_type) returns (r: Outcome)
      requires Valid() && |stdStr| < NPOS
      requires idx <= cplength && strIdx <= |stdStr| ==> cplength + ClampCount(strIdx, strNum, |stdStr|) < NPOS
      modifies Repr
      ensures Valid() && fresh(Repr - old(Repr))
      ensures r == (if old(cplength) < idx || |stdStr| < strIdx then Failure(OutOfRange) else Success)
      ensures r.Success? ==>
                Contents() == old(Contents()[..idx])
                            + Widen(stdStr[strIdx..strIdx + ClampCount(strIdx, strNum, |stdStr|)])
                            + old(Contents()[idx..])
      ensures r.Failure? ==> Contents() == old(Contents())
    {
      if cplength < idx {
        return Failure(OutOfRange);
      }
      if |stdStr| < strIdx {
        return Failure(OutOfRange);
      }
      var n := ClampCount(strIdx, strNum, |stdStr|);
      SpliceWiden(idx, 0, stdStr[strIdx..strIdx + n]);
      return Success;
    }

    /** insert(idx, utf8_str, len): out_of_range when `idx` is past the end,
        then length_error for npos; otherwise the decoding of the first
        `len` bytes is inserted before position `idx`. */
    method InsertUtf8(idx: size_type, bytes: seq<utf8>, len: size_type) returns (r: Outcome)
      requires Valid()
      requires idx <= cplength && len != NPOS ==>
                 len <= |bytes| && Complete(bytes[..len]) && cplength + |Decode(bytes[..len])| < NPOS
      modifies Repr
      ensures Valid() && fresh(Repr - old(Repr))
      ensures r == (if old(cplength) < idx then Failure(OutOfRange)
                    else if len == NPOS then Failure(LengthError) else Success)
      ensures r.Success? ==>
                Contents() == old(Contents()[..idx]) + Decode(bytes[..len]) + old(Contents()[idx..])
      ensures r.Failure? ==> Contents() == old(Contents())
    {
      if cplength < idx {
        return Failure(OutOfRange);
      }
      if len == NPOS {
        return Failure(LengthError);
      }
      SpliceDecode(idx, 0, bytes, len);
      return Success;
    }

    /** insert(idx, num, code_point): out_of_range when `idx` is past the
        end, then length_error for npos; otherwise `num` copies of
        `code_point` are inserted before position `idx`. */
    method InsertRepeat(idx: size_type, num: size_type, cp: utf32) returns (r: Outcome)
      requires Valid() && (idx <= cplength && num != NPOS ==> cplength + num < NPOS)
      modifies Repr
      ensures Valid() && fresh(Repr - old(Repr))
      ensures r == (if old(cplength) < idx then Failure(OutOfRange)
                    else if num == NPOS then Failure(LengthError) else Success)
      ensures r.Success? ==>
                Contents() == old(Contents()[..idx]) + Repeat(cp, num) + old(Contents()[idx..])
      ensures r.Failure? ==> Contents() == old(Contents())
    {
      if cplength < idx {
        return Failure(OutOfRange);
      }
      if num == NPOS {
        return Failure(LengthError);
      }
      SpliceFill(idx, 0, num, cp);
      return Success;
    }

    /** insert(idx, chars, chars_len): out_of_range when `idx` is past the
        end, then length_error for npos; otherwise the chars, zero-extended,
        are inserted before position `idx`. */
    method InsertChars(idx: size_type, chars: seq<utf8>, charsLen: size_type) returns (r: Outcome)
      requires Valid()
      requires idx <= cplength && charsLen != NPOS ==> charsLen <= |chars| && cplength + charsLen < NPOS
      modifies Repr
      ensures Valid() && fresh(Repr - old(Repr))
      ensures r == (if old(cplength) < idx then Failure(OutOfRange)
                    else if charsLen == NPOS then Failure(LengthError) else Success)
      ensures r.Success? ==>
                Contents() == old(Contents()[..idx]) + Widen(chars[..charsLen]) + old(Contents()[idx..])
      ensures r.Failure? ==> Contents() == old(Contents())
    {
      if cplength < idx {
        return Failure(OutOfRange);
      }
      if charsLen == NPOS {
        return Failure(LengthError);
      }
      SpliceWiden(idx, 0, chars[..charsLen]);
      return Success;
    }

    /** clear(): setlen(0) then trim(), which always leaves the string
        empty in its quick buffer. */
    method Clear()
      requires Valid()
      modifies Repr
      ensures Valid() && fresh(Repr - old(Repr))
      ensures Contents() == [] && reserve == QUICKBUFF_SIZE && Ptr() == quickbuff
    {
      SetLen(0);
      Trim();
      PtrIsQuickBuffer();
    }

    /** The count erase(idx, len) removes: all of the rest for npos. */
    function EraseCount(idx: nat, len: size_type): (n: nat)
      reads this, Repr
      requires Valid() && idx < cplength
      requires len == NPOS || idx + len <= cplength
      ensures idx + n <= |Contents()|
      ensures len != NPOS ==> n == len
    {
      if len == NPOS then cplength - idx else len
    }

    /** erase(idx, len): nothing for a zero length; out_of_range when `idx`
        is not a position of the string; otherwise the `len` code points at
        `idx` (all of the rest for npos) are removed.  A length that runs
        past the end is not clamped, so it must not be given. */
    method Erase(idx: size_type, len: size_type) returns (r: Outcome)
      requires Valid()
      requires len == 0 || cplength <= idx || len == NPOS || idx + len <= cplength
      modifies Repr
      ensures Valid() && fresh(Repr - old(Repr))
      ensures r == (if len != 0 && old(cplength) <= idx then Failure(OutOfRange) else Success)
      ensures r.Success? && len != 0 ==>
                Contents() == old(Contents()[..idx] + Contents()[idx + EraseCount(idx, len)..])
      ensures r.Failure? || len == 0 ==> Contents() == old(Contents())
    {
      if len == 0 {
        return Success;
      }
      if cplength <= idx {
        return Failure(OutOfRange);
      }
      ghost var c := Contents();
      var n := EraseCount(idx, len);
      var newsz := cplength - n;
      var p := Ptr();
      ghost var a := p[..];
      var tail := p[idx + n..cplength];
      assert tail == c[idx + n..];
      WriteAt(p, idx, tail);
      OverwritePrefix(a, idx, tail, newsz);
      assert a[..idx] == c[..idx];
      assert p[..newsz] == c[..idx] + c[idx + n..];
      SetLen(newsz);
      return Success;
    }

    /** resize(num, code_point): truncates to `num` code points, or pads
        with `code_point` up to `num` through append -- whose npos check
        fires when `num` is npos and the string is empty. */
    method Resize(num: size_type, cp: utf32) returns (r: Outcome)
      requires Valid() && (num == NPOS ==> cplength == 0)
      modifies Repr
      ensures Valid() && fresh(Repr - old(Repr))
      ensures r == (if num == NPOS then Failure(LengthError) else Success)
      ensures r.Success? && num < old(cplength) ==> Contents() == old(Contents()[..num])
      ensures r.Success? && num >= old(cplength) ==>
                Contents() == old(Contents()) + Repeat(cp, num - old(cplength))
      ensures r.Success? ==> |Contents()| == num
      ensures r.Failure? ==> Contents() == old(Contents())
    {
      if num < cplength {
        ghost var c := Contents();
        SetLen(num);
        assert Contents() == c[..num];
        return Success;
      }
      r := AppendRepeat(num - cplength, cp);
    }

    /** replace(idx, len, str, str_idx, str_num): out_of_range when `idx`
        or `str_idx` is past the end of its string; otherwise both ranges
        are clamped with the wrapping size_t test and the replaced range
        gives way to the sub-string of `str`. */
    method Replace(idx: size_type, len: size_type, str: String, strIdx: size_type, strNum: size_type)
      returns (r: Outcome)
      requires Valid() && str.Valid() && Repr !! str.Repr
      requires idx <= cplength && strIdx <= str.cplength ==>
                 && SumInRange(idx, len, cplength) && SumInRange(strIdx, strNum, str.cplength)
                 && cplength - ClampSum(idx, len, cplength) + ClampSum(strIdx, strNum, str.cplength) < NPOS
      modifies Repr
      ensures Valid() && fresh(Repr - old(Repr))
      ensures r == (if old(cplength) < idx || old(str.cplength) < strIdx then Failure(OutOfRange) else Success)
      ensures r.Success? ==>
                Contents() == old(Contents()[..idx])
                            + old(str.Contents()[strIdx..strIdx + ClampSum(strIdx, strNum, str.cplength)])
                            + old(Contents()[idx + ClampSum(idx, len, cplength)..])
      ensures r.Failure? ==> Contents() == old(Contents())
    {
      if cplength < idx || str.cplength < strIdx {
        return Failure(OutOfRange);
      }
      var n := ClampSum(strIdx, strNum, str.cplength);
      var k := ClampSum(idx, len, cplength);
      assert strIdx + n <= str.cplength && idx + k <= cplength;
      var e := str.Ptr()[strIdx..strIdx + n];
      assert e == str.Contents()[strIdx..strIdx + n];
      SpliceCopy(idx, k, e);
      return Success;
    }

    /** replace(idx, len, std_str, str_idx, str_num): as replace(idx, len,
        str, ...), the chars zero-extended and copied by a backward loop. */
    method ReplaceStd(idx: size_type, len: size_type, stdStr: seq<utf8>, strIdx: size_type, strNum: size_type)
      returns (r: Outcome)
      requires Valid() && |stdStr| < NPOS
      requires idx <= cplength && strIdx <= |stdStr| ==>
                 && SumInRange(idx, len, cplength) && SumInRange(strIdx, strNum, |stdStr|)
                 && cplength - ClampSum(idx, len, cplength) + ClampSum(strIdx, strNum, |stdStr|) < NPOS
      modifies Repr
      ensures Valid() && fresh(Repr - old(Repr))
      ensures r == (if old(cplength) < idx || |stdStr| < strIdx then Failure(OutOfRange) else Success)
      ensures r.Success? ==>
                Contents() == old(Contents()[..idx])
                            + Widen(stdStr[strIdx..strIdx + ClampSum(strIdx, strNum, |stdStr|)])
                            + old(Contents()[idx + ClampSum(idx, len, cplength)..])
      ensures r.Failure? ==> Contents() == old(Contents())
    {
      if cplength < idx {
        return Failure(OutOfRange);
      }
      if |stdStr| < strIdx {
        return Failure(OutOfRange);
      }
      var n := ClampSum(strIdx, strNum, |stdStr|);
      var k := ClampSum(idx, len, cplength);
      SpliceWiden(idx, k, stdStr[strIdx..strIdx + n]);
      return Success;
    }

    /** replace(idx, len, utf8_str, str_len): out_of_range when `idx` is
        past the end, then length_error for npos; otherwise the clamped
        range gives way to the decoding of the first `str_len` bytes. */
    method ReplaceUtf8(idx: size_type, len: size_type, bytes: seq<utf8>, strLen: size_type)
      returns (r: Outcome)
      requires Valid()
      requires idx <= cplength && strLen != NPOS ==>
                 && SumInRange(idx, len, cplength)
                 && strLen <= |bytes| && Complete(bytes[..strLen])
                 && cplength - ClampSum(idx, len, cplength) + |Decode(bytes[..strLen])| < NPOS
      modifies Repr
      ensures Valid() && fresh(Repr - old(Repr))
      ensures r == (if old(cplength) < idx then Failure(OutOfRange)
                    else if strLen == NPOS then Failure(LengthError) else Success)
      ensures r.Success? ==>
                Contents() == old(Contents()[..idx]) + Decode(bytes[..strLen])
                            + old(Contents()[idx + ClampSum(idx, len, cplength)..])
      ensures r.Failure? ==> Contents() == old(Contents())
    {
      if cplength < idx {
        return Failure(OutOfRange);
      }
      if strLen == NPOS {
        return Failure(LengthError);
      }
      var k := ClampSum(idx, len, cplength);
      SpliceDecode(idx, k, bytes, strLen);
      return Success;
    }

    /** replace(idx, len, num, code_point): out_of_range when `idx` is past
        the end, then length_error for npos; otherwise the clamped range
        gives way to `num` copies of `code_point`. */
    method ReplaceRepeat(idx: size_type, len: size_type, num: size_type, cp: utf32) returns (r: Outcome)
      requires Valid()
      requires idx <= cplength && num != NPOS ==>
                 SumInRange(idx, len, cplength) && cplength - ClampSum(idx, len, cplength) + num < NPOS
      modifies Repr
      ensures Valid() && fresh(Repr - old(Repr))
      ensures r == (if old(cplength) < idx then Failure(OutOfRange)
                    else if num == NPOS then Failure(LengthError) else Success)
      ensures r.Success? ==>
                Contents() == old(Contents()[..idx]) + Repeat(cp, num)
                            + old(Contents()[idx + ClampSum(idx, len, cplength)..])
      ensures r.Failure? ==> Contents() == old(Contents())
    {
      if cplength < idx {
        return Failure(OutOfRange);
      }
      if num == NPOS {
        return Failure(LengthError);
      }
      var k := ClampSum(idx, len, cplength);
      SpliceFill(idx, k, num, cp);
      return Success;
    }

    /** replace(idx, len, chars, chars_len): out_of_range when `idx` is
        past the end, then length_error for npos; otherwise the clamped
        range gives way to the chars, zero-extended. */
    method ReplaceChars(idx: size_type, len: size_type, chars: seq<utf8>, charsLen: size_type)
      returns (r: Outcome)
      requires Valid()
      requires idx <= cplength && charsLen != NPOS ==>
                 && SumInRange(idx, len, cplength) && charsLen <= |chars|
                 && cplength - ClampSum(idx, len, cplength) + charsLen < NPOS
      modifies Repr
      ensures Valid() && fresh(Repr - old(Repr))
      ensures r == (if old(cplength) < idx then Failure(OutOfRange)
                    else if charsLen == NPOS then Failure(LengthError) else Success)
      ensures r.Success? ==>
                Contents() == old(Contents()[..idx]) + Widen(chars[..charsLen])
                            + old(Contents()[idx + ClampSum(idx, len, cplength)..])
      ensures r.Failure? ==> Contents() == old(Contents())
    {
      if cplength < idx {
        return Failure(OutOfRange);
      }
      if charsLen == NPOS {
        return Failure(LengthError);
      }
      var k := ClampSum(idx, len, cplength);
      SpliceWiden(idx, k, chars[..charsLen]);
      return Success;
    }

    /** replace(iter_beg, iter_end, iter_newBeg, iter_newEnd), iterators
        given as the positions `first` and `last` of this string and the
        code points `e` of the new range: an empty new range erases
        `[first, last)`; otherwise that range gives way to `e`.  The append
        and insert forms taking an iterator range are built on it. */
    method ReplaceRange(first: size_type, last: size_type, e: seq<utf32>)
      requires Valid() && first <= last <= cplength && cplength - (last - first) + |e| < NPOS
      modifies Repr
      ensures Valid() && fresh(Repr - old(Repr))
      ensures Contents() == old(Contents()[..first]) + e + old(Contents()[last..])
    {
      if |e| == 0 {
        var _ := Erase(first, last - first);
      } else {
        SpliceCopy(first, last - first, e);
      }
    }

    /** The objects the fields point at and the string uses: the quick
        buffer, the heap buffer while it is live, and the UTF-8 cache. */
    ghost function Owned(): set<object>
      reads this
    {
      {this, quickbuff}
      + (if reserve > QUICKBUFF_SIZE && buffer != null then {buffer} else {})
      + (if encodedbufflen > 0 && encodedbuff != null then {encodedbuff} else {})
    }

    /** swap(str) as evidently intended: lengths, reserves and heap buffers
        are exchanged, and so are the quick buffers' contents whenever
        either string lives in its quick buffer. */
    method Swap(str: String)
      requires Valid() && str.Valid() && Repr !! str.Repr
      modifies this, str, quickbuff, str.quickbuff
      ensures Valid() && str.Valid() && Repr !! str.Repr
      ensures Repr <= old(Repr) + old(str.Repr) && str.Repr <= old(Repr) + old(str.Repr)
      ensures Contents() == old(str.Contents()) && str.Contents() == old(Contents())
    {
      ghost var mine, theirs := Contents(), str.Contents();
      ghost var myPtr, theirPtr := Ptr(), str.Ptr();
      var inline := reserve <= QUICKBUFF_SIZE || str.reserve <= QUICKBUFF_SIZE;
      ExchangeFields(str);
      if inline {
        ExchangeQuick(quickbuff, str.quickbuff);
      }
      assert Ptr() == (if reserve > QUICKBUFF_SIZE then theirPtr else quickbuff);
      assert Ptr()[..cplength] == theirs;
      assert str.Ptr()[..str.cplength] == mine;
      Repr := Owned();
      str.Repr := str.Owned();
    }

    /** swap(str) as written: the quick buffers' contents are exchanged
        only when THIS string lived in its quick buffer.  When this string
        was on the heap and `str` inline, `str` is fine but this string
        takes `str`'s length and reads its own, unchanged, quick buffer. */
    method SwapAsWritten(str: String)
      requires Valid() && str.Valid() && Repr !! str.Repr
      modifies this, str, quickbuff, str.quickbuff
      ensures Allocated() && str.Valid() && Repr !! str.Repr
      ensures Repr <= old(Repr) + old(str.Repr) && str.Repr <= old(Repr) + old(str.Repr)
      ensures cplength == old(str.cplength) && reserve == old(str.reserve)
      ensures str.Contents() == old(Contents())
      ensures !(old(reserve) > QUICKBUFF_SIZE && old(str.reserve) <= QUICKBUFF_SIZE) ==>
                Valid() && Contents() == old(str.Contents())
      ensures old(reserve) > QUICKBUFF_SIZE && old(str.reserve) <= QUICKBUFF_SIZE ==>
                Ptr() == quickbuff && quickbuff[..] == old(quickbuff[..])
    {
      ghost var mine, theirs := Contents(), str.Contents();
      ghost var myPtr, theirPtr := Ptr(), str.Ptr();
      var tempRes := reserve;
      ExchangeFields(str);
      if tempRes <= QUICKBUFF_SIZE {
        ExchangeQuick(quickbuff, str.quickbuff);
      }
      assert str.Ptr()[..str.cplength] == mine;
      if !(tempRes > QUICKBUFF_SIZE && reserve <= QUICKBUFF_SIZE) {
        assert Ptr() == (if reserve > QUICKBUFF_SIZE then theirPtr else quickbuff);
        assert Ptr()[..cplength] == theirs;
      }
      Repr := Owned();
      str.Repr := str.Owned();
    }

    /** The field exchanges swap begins with: lengths, reserves and heap
        buffers. */
    method ExchangeFields(str: String)
      requires str != this
      modifies this, str
      ensures cplength == old(str.cplength) && str.cplength == old(cplength)
      ensures reserve == old(str.reserve) && str.reserve == old(reserve)
      ensures buffer == old(str.buffer) && str.buffer == old(buffer)
      ensures encodedbuff == old(encodedbuff) && encodedbufflen == old(encodedbufflen)
      ensures encodeddatlen == old(encodeddatlen) && Repr == old(Repr)
      ensures str.encodedbuff == old(str.encodedbuff) && str.encodedbufflen == old(str.encodedbufflen)
      ensures str.encodeddatlen == old(str.encodeddatlen) && str.Repr == old(str.Repr)
    {
      var tempLen := cplength;
      cplength := str.cplength;
      str.cplength := tempLen;
      var tempRes := reserve;
      reserve := str.reserve;
      str.reserve := tempRes;
      var tempBuf := buffer;
      buffer := str.buffer;
      str.buffer := tempBuf;
    }

    /** substr(idx, len): out_of_range when `idx` is past the end;
        otherwise a new String holding the clamped sub-string. */
    method Substr(idx: size_type, len: size_type) returns (r: Result<String>)
      requires Valid()
      ensures r.Fail? <==> cplength < idx
      ensures r.Fail? ==> r.error == OutOfRange
      ensures r.Ok? ==> && r.value.Valid() && fresh(r.value.Repr)
                        && r.value.Contents() == Contents()[idx..idx + ClampCount(idx, len, cplength)]
    {
      if cplength < idx {
        return Fail(OutOfRange);
      }
      var t := new String();
      var _ := t.Assign(this, idx, len);
      return Ok(t);
    }

    // -------------------------------------------------------------------
    // Comparison
    // -------------------------------------------------------------------

    /** The common tail of the compare members, once both ranges are
        clamped: utf32_comp_* over the shorter length (nothing when the
        first range is empty), then the sign and the length tie-break. */
    method CompareCore(idx: nat, len: nat, src: Source, srcLen: nat) returns (r: int)
      requires Valid() && idx + len <= cplength && srcLen <= |Decoded(src)|
      ensures r == Compare(Contents()[idx..idx + len], Decoded(src)[..srcLen])
    {
      var a := Ptr()[idx..idx + len];
      assert a == Contents()[idx..idx + len] by {
        SliceOfPrefix(Ptr()[..], cplength, idx, idx + len);
      }
      var m := if len < srcLen then len else srcLen;
      var val := 0;
      if len != 0 {
        val := CompareCount(a, src, m);
      }
      CompareOfRanges(a, Decoded(src)[..srcLen], Decoded(src), val);
      r := CompareSign(val, len, srcLen);
    }

    /** CompareCore against `strLen` code points of `str` from `strIdx`. */
    method CompareWide(idx: nat, len: nat, str: String, strIdx: nat, strLen: nat) returns (r: int)
      requires Valid() && str.Valid() && idx + len <= cplength && strIdx + strLen <= str.cplength
      ensures r == Compare(Contents()[idx..idx + len], str.Contents()[strIdx..strIdx + strLen])
    {
      var other := str.Ptr()[strIdx..strIdx + strLen];
      assert other == str.Contents()[strIdx..strIdx + strLen] by {
        SliceOfPrefix(str.Ptr()[..], str.cplength, strIdx, strIdx + strLen);
      }
      assert Decoded(Wide(other))[..strLen] == other;
      r := CompareCore(idx, len, Wide(other), strLen);
    }

    /** CompareCore against a whole run of narrow chars. */
    method CompareNarrow(idx: nat, len: nat, chars: seq<utf8>) returns (r: int)
      requires Valid() && idx + len <= cplength
      ensures r == Compare(Contents()[idx..idx + len], Widen(chars))
    {
      assert Decoded(Narrow(chars))[..|chars|] == Widen(chars);
      r := CompareCore(idx, len, Narrow(chars), |chars|);
    }

    /** compare(idx, len, str, str_idx, str_len): out_of_range when either
        index is past its string's end; otherwise the two clamped ranges
        compared.  `str` may be this string. */
    method CompareRange(idx: size_type, len: size_type, str: String, strIdx: size_type,
                        strLen: size_type) returns (r: Result<int>)
      requires Valid() && str.Valid()
      requires idx <= cplength && strIdx <= str.cplength ==>
                 SumInRange(idx, len, cplength) && SumInRange(strIdx, strLen, str.cplength)
      ensures cplength < idx || str.cplength < strIdx ==> r == Fail(OutOfRange)
      ensures idx <= cplength && strIdx <= str.cplength ==>
                r == Ok(Compare(Contents()[idx..idx + ClampSum(idx, len, cplength)],
                                str.Contents()[strIdx..strIdx + ClampSum(strIdx, strLen, str.cplength)]))
    {
      if cplength < idx || str.cplength < strIdx {
        r := Fail(OutOfRange);
      } else {
        var c := CompareWide(idx, ClampSum(idx, len, cplength),
                             str, strIdx, ClampSum(strIdx, strLen, str.cplength));
        r := Ok(c);
      }
    }

    /** compare(str): the whole of both strings. */
    method CompareWith(str: String) returns (r: int)
      requires Valid() && str.Valid()
      ensures r == Compare(Contents(), str.Contents())
    {
      var res := CompareRange(0, cplength, str, 0, NPOS);
      assert Contents()[0..cplength] == Contents();
      assert str.Contents()[0..str.cplength] == str.Contents();
      r := res.value;
    }

    /** compare(idx, len, std_str, str_idx, str_len): out_of_range when
        either index is past its end; otherwise the clamped range against
        the clamped chars, zero-extended. */
    method CompareRangeStd(idx: size_type, len: size_type, stdStr: seq<utf8>, strIdx: size_type,
                           strLen: size_type) returns (r: Result<int>)
      requires Valid() && |stdStr| < NPOS
      requires idx <= cplength && strIdx <= |stdStr| ==>
                 SumInRange(idx, len, cplength) && SumInRange(strIdx, strLen, |stdStr|)
      ensures cplength < idx || |stdStr| < strIdx ==> r == Fail(OutOfRange)
      ensures idx <= cplength && strIdx <= |stdStr| ==>
                r == Ok(Compare(Contents()[idx..idx + ClampSum(idx, len, cplength)],
                                Widen(stdStr[strIdx..strIdx + ClampSum(strIdx, strLen, |stdStr|)])))
    {
      if cplength < idx || |stdStr| < strIdx {
        r := Fail(OutOfRange);
      } else {
        var c := CompareNarrow(idx, ClampSum(idx, len, cplength),
                               stdStr[strIdx..strIdx + ClampSum(strIdx, strLen, |stdStr|)]);
        r := Ok(c);
      }
    }

    /** compare(std_str): the whole string against all the chars. */
    method CompareWithStd(stdStr: seq<utf8>) returns (r: int)
      requires Valid() && |stdStr| < NPOS
      ensures r == Compare(Contents(), Widen(stdStr))
    {
      var res := CompareRangeStd(0, cplength, stdStr, 0, NPOS);
      assert Contents()[0..cplength] == Contents();
      assert stdStr[0..|stdStr|] == stdStr;
      r := res.value;
    }

    /** compare(idx, len, utf8_str, str_cplen): out_of_range when `idx` is
        past the end, then length_error for npos; otherwise the clamped
        range against the first `str_cplen` code points the bytes decode
        to. */
    method CompareRangeUtf8(idx: size_type, len: size_type, bytes: seq<utf8>, strCplen: size_type)
      returns (r: Result<int>)
      requires Valid()
      requires idx <= cplength && strCplen != NPOS ==>
                 SumInRange(idx, len, cplength) && strCplen <= |Decode(bytes)|
      ensures cplength < idx ==> r == Fail(OutOfRange)
      ensures idx <= cplength && strCplen == NPOS ==> r == Fail(LengthError)
      ensures idx <= cplength && strCplen != NPOS ==>
                r == Ok(Compare(Contents()[idx..idx + ClampSum(idx, len, cplength)], Decode(bytes)[..strCplen]))
    {
      if cplength < idx {
        r := Fail(OutOfRange);
      } else if strCplen == NPOS {
        r := Fail(LengthError);
      } else {
        var c := CompareCore(idx, ClampSum(idx, len, cplength), Utf8Bytes(bytes), strCplen);
        r := Ok(c);
      }
    }

    /** compare(utf8_str): the whole string against the code points of the
        bytes before the terminator, counted with encoded_size. */
    method CompareWithUtf8(bytes: seq<utf8>) returns (r: int)
      requires Valid() && 0 in bytes && |bytes| < NPOS
      requires Complete(bytes[..ZeroIndex(bytes, 0)])
      ensures r == Compare(Contents(), Decode(bytes[..ZeroIndex(bytes, 0)]))
    {
      var z := Utf8Length(bytes);
      var cplen := Utf8EncodedSize(bytes, z);
      LeadCountOfComplete(bytes[..z]);
      LeadCountBound(bytes[..z]);
      DecodePrefix(bytes, z);
      var res := CompareRangeUtf8(0, cplength, bytes, cplen);
      assert Contents()[0..cplength] == Contents();
      r := res.value;
    }

    /** compare(idx, len, chars, chars_len): out_of_range when `idx` is
        past the end, then length_error for npos; otherwise the clamped
        range against the chars, zero-extended. */
    method CompareRangeChars(idx: size_type, len: size_type, chars: seq<utf8>, charsLen: size_type)
      returns (r: Result<int>)
      requires Valid()
      requires idx <= cplength && charsLen != NPOS ==>
                 SumInRange(idx, len, cplength) && charsLen <= |chars|
      ensures cplength < idx ==> r == Fail(OutOfRange)
      ensures idx <= cplength && charsLen == NPOS ==> r == Fail(LengthError)
      ensures idx <= cplength && charsLen != NPOS ==>
                r == Ok(Compare(Contents()[idx..idx + ClampSum(idx, len, cplength)], Widen(chars[..charsLen])))
    {
      if cplength < idx {
        r := Fail(OutOfRange);
      } else if charsLen == NPOS {
        r := Fail(LengthError);
      } else {
        var c := CompareNarrow(idx, ClampSum(idx, len, cplength), chars[..charsLen]);
        r := Ok(c);
      }
    }

    /** compare(cstr): the whole string against the chars before the
        terminator. */
    method CompareWithChars(cstr: seq<utf8>) returns (r: int)
      requires Valid() && 0 in cstr && |cstr| < NPOS
      ensures r == Compare(Contents(), Widen(cstr[..ZeroIndex(cstr, 0)]))
    {
      var n := Utf8Length(cstr);
      var res := CompareRangeChars(0, cplength, cstr, n);
      assert Contents()[0..cplength] == Contents();
      r := res.value;
    }

    // -------------------------------------------------------------------
    // Searching
    // -------------------------------------------------------------------

    /** find(code_point, idx). */
    method Find(cp: utf32, idx: size_type) returns (r: size_type)
      requires Valid()
      ensures r == FindCp(Contents(), cp, idx)
    {
      r := FindIn(Ptr()[..cplength], cp, idx);
    }

    /** rfind(code_point, idx); find_last_of(code_point, idx) is the same. */
    method RFind(cp: utf32, idx: size_type) returns (r: size_type)
      requires Valid()
      ensures r == RFindCp(Contents(), cp, idx)
    {
      r := RFindIn(Ptr()[..cplength], cp, idx);
    }

    /** compare(i, n, needle, ...) == 0 inside the search loops, where the
        window `[i, i + n)` lies inside the string, so nothing is clamped. */
    method MatchesAt(i: nat, src: Source, n: nat) returns (b: bool)
      requires Valid() && i + n <= cplength && n <= |Decoded(src)|
      ensures b <==> OccursAt(Contents(), Decoded(src)[..n], i)
    {
      var c := CompareCore(i, n, src, n);
      CompareZero(Contents()[i..i + n], Decoded(src)[..n]);
      b := c == 0;
    }

    /** The loop the find members share: an empty needle is found at `idx`
        when `idx` is inside the string; otherwise each window that still
        fits is compared with the first `n` code points of `src`. */
    method FindSource(src: Source, n: nat, idx: size_type) returns (r: size_type)
      requires Valid() && n <= |Decoded(src)|
      ensures r == FindSub(Contents(), Decoded(src)[..n], idx)
    {
      ghost var s, t := Contents(), Decoded(src)[..n];
      if n == 0 && idx < cplength {
        return idx;
      }
      if idx < cplength {
        var i := idx;
        while cplength - i >= n
          invariant idx <= i <= cplength
          invariant FindSubFrom(s, t, i) == FindSub(s, t, idx)
          decreases cplength - i
        {
          var found := MatchesAt(i, src, n);
          if found {
            return i;
          }
          i := i + 1;
        }
      }
      return NPOS;
    }

    /** The loop the rfind members share: an empty needle gives
        `min(idx, length())`; otherwise windows are compared from
        `min(idx, length() - n)` down to 0. */
    method RFindSource(src: Source, n: nat, idx: size_type) returns (r: size_type)
      requires Valid() && n <= |Decoded(src)|
      ensures r == RFindSub(Contents(), Decoded(src)[..n], idx)
    {
      ghost var s, t := Contents(), Decoded(src)[..n];
      if n == 0 {
        return if idx < cplength then idx else cplength;
      }
      if n <= cplength {
        var i: nat := if idx > cplength - n then cplength - n else idx;
        while true
          invariant i + n <= cplength
          invariant RFindSubFrom(s, t, i) == RFindSub(s, t, idx)
          decreases i
        {
          var found := MatchesAt(i, src, n);
          if found {
            return i;
          }
          if i == 0 {
            break;
          }
          i := i - 1;
        }
      }
      return NPOS;
    }

    /** The loop of find_first_of (`member`) and find_first_not_of
        (`!member`): the first position from `idx` whose code point is, or
        is not, among the first `n` code points of `src`. */
    method FirstOfSource(src: Source, n: nat, idx: size_type, member: bool) returns (r: size_type)
      requires Valid() && n <= |Decoded(src)| && n < NPOS
      ensures r == FindFirstIn(Contents(), Decoded(src)[..n], member, idx)
    {
      ghost var s, t := Contents(), Decoded(src)[..n];
      if idx < cplength {
        var i := idx;
        while true
          invariant idx <= i < cplength
          invariant FindFirstIn(s, t, member, i) == FindFirstIn(s, t, member, idx)
          decreases cplength - i
        {
          var found := Holds(src, n, Ptr()[i]);
          if found == member {
            return i;
          }
          i := i + 1;
          if i == cplength {
            break;
          }
        }
      }
      return NPOS;
    }

    /** The loop of find_last_of (`member`) and find_last_not_of
        (`!member`): the last such position at or before
        `min(idx, length() - 1)`. */
    method LastOfSource(src: Source, n: nat, idx: size_type, member: bool) returns (r: size_type)
      requires Valid() && n <= |Decoded(src)| && n < NPOS
      ensures r == FindLastIn(Contents(), Decoded(src)[..n], member, LastStart(cplength, idx))
    {
      ghost var s, t := Contents(), Decoded(src)[..n];
      if cplength > 0 {
        var i: nat := if idx >= cplength then cplength - 1 else idx;
        while true
          invariant i < cplength
          invariant FindLastIn(s, t, member, i) == FindLastIn(s, t, member, LastStart(cplength, idx))
          decreases i
        {
          var found := Holds(src, n, Ptr()[i]);
          if found == member {
            return i;
          }
          if i == 0 {
            break;
          }
          i := i - 1;
        }
      }
      return NPOS;
    }

    /** find(str, idx): against another String. */
    method FindString(str: String, idx: size_type) returns (r: size_type)
      requires Valid() && str.Valid()
      ensures r == FindSub(Contents(), str.Contents(), idx)
    {
      var cps := str.Ptr()[..str.cplength];
      assert Decoded(Wide(cps))[..|cps|] == str.Contents();
      r := FindSource(Wide(cps), |cps|, idx);
    }

    /** find(stdStr, idx): against a std::string, its chars zero-extended. */
    method FindStd(stdStr: seq<utf8>, idx: size_type) returns (r: size_type)
      requires Valid() && |stdStr| < NPOS
      ensures r == FindSub(Contents(), Widen(stdStr), idx)
    {
      assert Decoded(Narrow(stdStr))[..|stdStr|] == Widen(stdStr);
      r := FindSource(Narrow(stdStr), |stdStr|, idx);
    }

    /** find(bytes, idx, strLen): against the code points of `str_len` UTF-8 bytes; length_error for npos. */
    method FindUtf8(bytes: seq<utf8>, idx: size_type, strLen: size_type) returns (r: Result<size_type>)
      requires Valid() && (strLen != NPOS ==> strLen <= |bytes| && Complete(bytes[..strLen]))
      ensures strLen == NPOS ==> r == Fail(LengthError)
      ensures strLen != NPOS ==> r == Ok(FindSub(Contents(), Decode(bytes[..strLen]), idx))
    {
      if strLen == NPOS {
        r := Fail(LengthError);
      } else {
        var sze := Utf8EncodedSize(bytes, strLen);
        Utf8Needle(bytes, strLen, sze);
        var p := FindSource(Utf8Bytes(bytes), sze, idx);
        r := Ok(p);
      }
    }

    /** find(chars, idx, charsLen): against `chars_len` chars, zero-extended; length_error for npos. */
    method FindChars(chars: seq<utf8>, idx: size_type, charsLen: size_type) returns (r: Result<size_type>)
      requires Valid() && (charsLen != NPOS ==> charsLen <= |chars|)
      ensures charsLen == NPOS ==> r == Fail(LengthError)
      ensures charsLen != NPOS ==> r == Ok(FindSub(Contents(), Widen(chars[..charsLen]), idx))
    {
      if charsLen == NPOS {
        r := Fail(LengthError);
      } else {
        var c := chars[..charsLen];
        assert Decoded(Narrow(c))[..charsLen] == Widen(c);
        var p := FindSource(Narrow(c), charsLen, idx);
        r := Ok(p);
      }
    }

    /** rfind(str, idx): against another String. */
    method RFindString(str: String, idx: size_type) returns (r: size_type)
      requires Valid() && str.Valid()
      ensures r == RFindSub(Contents(), str.Contents(), idx)
    {
      var cps := str.Ptr()[..str.cplength];
      assert Decoded(Wide(cps))[..|cps|] == str.Contents();
      r := RFindSource(Wide(cps), |cps|, idx);
    }

    /** rfind(stdStr, idx): against a std::string, its chars zero-extended. */
    method RFindStd(stdStr: seq<utf8>, idx: size_type) returns (r: size_type)
      requires Valid() && |stdStr| < NPOS
      ensures r == RFindSub(Contents(), Widen(stdStr), idx)
    {
      assert Decoded(Narrow(stdStr))[..|stdStr|] == Widen(stdStr);
      r := RFindSource(Narrow(stdStr), |stdStr|, idx);
    }

    /** rfind(bytes, idx, strLen): against the code points of `str_len` UTF-8 bytes; length_error for npos. */
    method RFindUtf8(bytes: seq<utf8>, idx: size_type, strLen: size_type) returns (r: Result<size_type>)
      requires Valid() && (strLen != NPOS ==> strLen <= |bytes| && Complete(bytes[..strLen]))
      ensures strLen == NPOS ==> r == Fail(LengthError)
      ensures strLen != NPOS ==> r == Ok(RFindSub(Contents(), Decode(bytes[..strLen]), idx))
    {
      if strLen == NPOS {
        r := Fail(LengthError);
      } else {
        var sze := Utf8EncodedSize(bytes, strLen);
        Utf8Needle(bytes, strLen, sze);
        var p := RFindSource(Utf8Bytes(bytes), sze, idx);
        r := Ok(p);
      }
    }

    /** rfind(chars, idx, charsLen): against `chars_len` chars, zero-extended; length_error for npos. */
    method RFindChars(chars: seq<utf8>, idx: size_type, charsLen: size_type) returns (r: Result<size_type>)
      requires Valid() && (charsLen != NPOS ==> charsLen <= |chars|)
      ensures charsLen == NPOS ==> r == Fail(LengthError)
      ensures charsLen != NPOS ==> r == Ok(RFindSub(Contents(), Widen(chars[..charsLen]), idx))
    {
      if charsLen == NPOS {
        r := Fail(LengthError);
      } else {
        var c := chars[..charsLen];
        assert Decoded(Narrow(c))[..charsLen] == Widen(c);
        var p := RFindSource(Narrow(c), charsLen, idx);
        r := Ok(p);
      }
    }

    /** find_first_of(str, idx): against another String. */
    method FindFirstOfString(str: String, idx: size_type) returns (r: size_type)
      requires Valid() && str.Valid()
      ensures r == FindFirstIn(Contents(), str.Contents(), true, idx)
    {
      var cps := str.Ptr()[..str.cplength];
      assert Decoded(Wide(cps))[..|cps|] == str.Contents();
      r := FirstOfSource(Wide(cps), |cps|, idx, true);
    }

    /** find_first_of(stdStr, idx): against a std::string, its chars zero-extended. */
    method FindFirstOfStd(stdStr: seq<utf8>, idx: size_type) returns (r: size_type)
      requires Valid() && |stdStr| < NPOS
      ensures r == FindFirstIn(Contents(), Widen(stdStr), true, idx)
    {
      assert Decoded(Narrow(stdStr))[..|stdStr|] == Widen(stdStr);
      r := FirstOfSource(Narrow(stdStr), |stdStr|, idx, true);
    }

    /** find_first_of(bytes, idx, strLen): against the code points of `str_len` UTF-8 bytes; length_error for npos. */
    method FindFirstOfUtf8(bytes: seq<utf8>, idx: size_type, strLen: size_type) returns (r: Result<size_type>)
      requires Valid() && (strLen != NPOS ==> strLen <= |bytes| && Complete(bytes[..strLen]))
      ensures strLen == NPOS ==> r == Fail(LengthError)
      ensures strLen != NPOS ==> r == Ok(FindFirstIn(Contents(), Decode(bytes[..strLen]), true, idx))
    {
      if strLen == NPOS {
        r := Fail(LengthError);
      } else {
        var sze := Utf8EncodedSize(bytes, strLen);
        Utf8Needle(bytes, strLen, sze);
        var p := FirstOfSource(Utf8Bytes(bytes), sze, idx, true);
        r := Ok(p);
      }
    }

    /** find_first_of(chars, idx, charsLen): against `chars_len` chars, zero-extended; length_error for npos. */
    method FindFirstOfChars(chars: seq<utf8>, idx: size_type, charsLen: size_type) returns (r: Result<size_type>)
      requires Valid() && (charsLen != NPOS ==> charsLen <= |chars|)
      ensures charsLen == NPOS ==> r == Fail(LengthError)
      ensures charsLen != NPOS ==> r == Ok(FindFirstIn(Contents(), Widen(chars[..charsLen]), true, idx))
    {
      if charsLen == NPOS {
        r := Fail(LengthError);
      } else {
        var c := chars[..charsLen];
        assert Decoded(Narrow(c))[..charsLen] == Widen(c);
        var p := FirstOfSource(Narrow(c), charsLen, idx, true);
        r := Ok(p);
      }
    }

    /** find_first_not_of(str, idx): against another String. */
    method FindFirstNotOfString(str: String, idx: size_type) returns (r: size_type)
      requires Valid() && str.Valid()
      ensures r == FindFirstIn(Contents(), str.Contents(), false, idx)
    {
      var cps := str.Ptr()[..str.cplength];
      assert Decoded(Wide(cps))[..|cps|] == str.Contents();
      r := FirstOfSource(Wide(cps), |cps|, idx, false);
    }

    /** find_first_not_of(stdStr, idx): against a std::string, its chars zero-extended. */
    method FindFirstNotOfStd(stdStr: seq<utf8>, idx: size_type) returns (r: size_type)
      requires Valid() && |stdStr| < NPOS
      ensures r == FindFirstIn(Contents(), Widen(stdStr), false, idx)
    {
      assert Decoded(Narrow(stdStr))[..|stdStr|] == Widen(stdStr);
      r := FirstOfSource(Narrow(stdStr), |stdStr|, idx, false);
    }

    /** find_first_not_of(bytes, idx, strLen): against the code points of `str_len` UTF-8 bytes; length_error for npos. */
    method FindFirstNotOfUtf8(bytes: seq<utf8>, idx: size_type, strLen: size_type) returns (r: Result<size_type>)
      requires Valid() && (strLen != NPOS ==> strLen <= |bytes| && Complete(bytes[..strLen]))
      ensures strLen == NPOS ==> r == Fail(LengthError)
      ensures strLen != NPOS ==> r == Ok(FindFirstIn(Contents(), Decode(bytes[..strLen]), false, idx))
    {
      if strLen == NPOS {
        r := Fail(LengthError);
      } else {
        var sze := Utf8EncodedSize(bytes, strLen);
        Utf8Needle(bytes, strLen, sze);
        var p := FirstOfSource(Utf8Bytes(bytes), sze, idx, false);
        r := Ok(p);
      }
    }

    /** find_first_not_of(chars, idx, charsLen): against `chars_len` chars, zero-extended; length_error for npos. */
    method FindFirstNotOfChars(chars: seq<utf8>, idx: size_type, charsLen: size_type) returns (r: Result<size_type>)
      requires Valid() && (charsLen != NPOS ==> charsLen <= |chars|)
      ensures charsLen == NPOS ==> r == Fail(LengthError)
      ensures charsLen != NPOS ==> r == Ok(FindFirstIn(Contents(), Widen(chars[..charsLen]), false, idx))
    {
      if charsLen == NPOS {
        r := Fail(LengthError);
      } else {
        var c := chars[..charsLen];
        assert Decoded(Narrow(c))[..charsLen] == Widen(c);
        var p := FirstOfSource(Narrow(c), charsLen, idx, false);
        r := Ok(p);
      }
    }

    /** find_last_of(str, idx): against another String. */
    method FindLastOfString(str: String, idx: size_type) returns (r: size_type)
      requires Valid() && str.Valid()
      ensures r == FindLastIn(Contents(), str.Contents(), true, LastStart(cplength, idx))
    {
      var cps := str.Ptr()[..str.cplength];
      assert Decoded(Wide(cps))[..|cps|] == str.Contents();
      r := LastOfSource(Wide(cps), |cps|, idx, true);
    }

    /** find_last_of(stdStr, idx): against a std::string, its chars zero-extended. */
    method FindLastOfStd(stdStr: seq<utf8>, idx: size_type) returns (r: size_type)
      requires Valid() && |stdStr| < NPOS
      ensures r == FindLastIn(Contents(), Widen(stdStr), true, LastStart(cplength, idx))
    {
      assert Decoded(Narrow(stdStr))[..|stdStr|] == Widen(stdStr);
      r := LastOfSource(Narrow(stdStr), |stdStr|, idx, true);
    }

    /** find_last_of(bytes, idx, strLen): against the code points of `str_len` UTF-8 bytes; length_error for npos. */
    method FindLastOfUtf8(bytes: seq<utf8>, idx: size_type, strLen: size_type) returns (r: Result<size_type>)
      requires Valid() && (strLen != NPOS ==> strLen <= |bytes| && Complete(bytes[..strLen]))
      ensures strLen == NPOS ==> r == Fail(LengthError)
      ensures strLen != NPOS ==> r == Ok(FindLastIn(Contents(), Decode(bytes[..strLen]), true, LastStart(cplength, idx)))
    {
      if strLen == NPOS {
        r := Fail(LengthError);
      } else {
        var sze := Utf8EncodedSize(bytes, strLen);
        Utf8Needle(bytes, strLen, sze);
        var p := LastOfSource(Utf8Bytes(bytes), sze, idx, true);
        r := Ok(p);
      }
    }

    /** find_last_of(chars, idx, charsLen): against `chars_len` chars, zero-extended; length_error for npos. */
    method FindLastOfChars(chars: seq<utf8>, idx: size_type, charsLen: size_type) returns (r: Result<size_type>)
      requires Valid() && (charsLen != NPOS ==> charsLen <= |chars|)
      ensures charsLen == NPOS ==> r == Fail(LengthError)
      ensures charsLen != NPOS ==> r == Ok(FindLastIn(Contents(), Widen(chars[..charsLen]), true, LastStart(cplength, idx)))
    {
      if charsLen == NPOS {
        r := Fail(LengthError);
      } else {
        var c := chars[..charsLen];
        assert Decoded(Narrow(c))[..charsLen] == Widen(c);
        var p := LastOfSource(Narrow(c), charsLen, idx, true);
        r := Ok(p);
      }
    }

    /** find_last_not_of(str, idx): against another String. */
    method FindLastNotOfString(str: String, idx: size_type) returns (r: size_type)
      requires Valid() && str.Valid()
      ensures r == FindLastIn(Contents(), str.Contents(), false, LastStart(cplength, idx))
    {
      var cps := str.Ptr()[..str.cplength];
      assert Decoded(Wide(cps))[..|cps|] == str.Contents();
      r := LastOfSource(Wide(cps), |cps|, idx, false);
    }

    /** find_last_not_of(stdStr, idx): against a std::string, its chars zero-extended. */
    method FindLastNotOfStd(stdStr: seq<utf8>, idx: size_type) returns (r: size_type)
      requires Valid() && |stdStr| < NPOS
      ensures r == FindLastIn(Contents(), Widen(stdStr), false, LastStart(cplength, idx))
    {
      assert Decoded(Narrow(stdStr))[..|stdStr|] == Widen(stdStr);
      r := LastOfSource(Narrow(stdStr), |stdStr|, idx, false);
    }

    /** find_last_not_of(bytes, idx, strLen): against the code points of `str_len` UTF-8 bytes; length_error for npos. */
    method FindLastNotOfUtf8(bytes: seq<utf8>, idx: size_type, strLen: size_type) returns (r: Result<size_type>)
      requires Valid() && (strLen != NPOS ==> strLen <= |bytes| && Complete(bytes[..strLen]))
      ensures strLen == NPOS ==> r == Fail(LengthError)
      ensures strLen != NPOS ==> r == Ok(FindLastIn(Contents(), Decode(bytes[..strLen]), false, LastStart(cplength, idx)))
    {
      if strLen == NPOS {
        r := Fail(LengthError);
      } else {
        var sze := Utf8EncodedSize(bytes, strLen);
        Utf8Needle(bytes, strLen, sze);
        var p := LastOfSource(Utf8Bytes(bytes), sze, idx, false);
        r := Ok(p);
      }
    }

    /** find_last_not_of(chars, idx, charsLen): against `chars_len` chars, zero-extended; length_error for npos. */
    method FindLastNotOfChars(chars: seq<utf8>, idx: size_type, charsLen: size_type) returns (r: Result<size_type>)
      requires Valid() && (charsLen != NPOS ==> charsLen <= |chars|)
      ensures charsLen == NPOS ==> r == Fail(LengthError)
      ensures charsLen != NPOS ==> r == Ok(FindLastIn(Contents(), Widen(chars[..charsLen]), false, LastStart(cplength, idx)))
    {
      if charsLen == NPOS {
        r := Fail(LengthError);
      } else {
        var c := chars[..charsLen];
        assert Decoded(Narrow(c))[..charsLen] == Widen(c);
        var p := LastOfSource(Narrow(c), charsLen, idx, false);
        r := Ok(p);
      }
    }

    /** find_first_not_of(code_point, idx) as evidently intended: the first
        position from `idx` whose code point differs from `cp`. */
    method FindFirstNotOfCp(cp: utf32, idx: size_type) returns (r: size_type)
      requires Valid()
      ensures r == FindFirstNotCp(Contents(), cp, idx)
    {
      ghost var s := Contents();
      if idx < cplength {
        var i := idx;
        while true
          invariant idx <= i < cplength
          invariant FindFirstNotCp(s, cp, i) == FindFirstNotCp(s, cp, idx)
          decreases cplength - i
        {
          var c := Get(i);
          if c != cp {
            return i;
          }
          i := i + 1;
          if i == cplength {
            break;
          }
        }
      }
      return NPOS;
    }

    /** find_first_not_of(code_point, idx) as written: the loop test
        `idx++ < d_cplength` lets it look at position `d_cplength` too, so
        the terminator is examined as if it belonged to the string. */
    method FindFirstNotOfCpAsWritten(cp: utf32, idx: size_type) returns (r: size_type)
      requires Valid() && cplength + 1 < NPOS
      ensures r == (if idx < cplength then FindFirstNotCp(Contents() + [0], cp, idx) else NPOS)
    {
      ghost var s := Contents() + [0];
      if idx < cplength {
        var i := idx;
        while true
          invariant idx <= i <= cplength
          invariant FindFirstNotCp(s, cp, i) == FindFirstNotCp(s, cp, idx)
          decreases cplength - i
        {
          var c := Get(i);
          assert c == s[i];
          if c != cp {
            return i;
          }
          if i == cplength {
            break;
          }
          i := i + 1;
        }
      }
      return NPOS;
    }

    /** find_last_not_of(code_point, idx): the last position at or before
        `min(idx, length() - 1)` whose code point differs from `cp`. */
    method FindLastNotOfCp(cp: utf32, idx: size_type) returns (r: size_type)
      requires Valid()
      ensures r == FindLastNotCp(Contents(), cp, LastStart(cplength, idx))
    {
      ghost var s := Contents();
      if cplength > 0 {
        var i: nat := if idx >= cplength then cplength - 1 else idx;
        while true
          invariant i < cplength
          invariant FindLastNotCp(s, cp, i) == FindLastNotCp(s, cp, LastStart(cplength, idx))
          decreases i
        {
          var c := Get(i);
          if c != cp {
            return i;
          }
          if i == 0 {
            break;
          }
          i := i - 1;
        }
      }
      return NPOS;
    }

    // -------------------------------------------------------------------
    // UTF-8 output
    // -------------------------------------------------------------------

    /** utf8_stream_len(num, idx): out_of_range when `idx` is past the end;
        otherwise the number of bytes the UTF-8 encoding of at most `num`
        code points from `idx` takes, which is what Copy writes. */
    method Utf8StreamLen(num: size_type, idx: size_type) returns (r: Result<size_type>)
      requires Valid()
      requires idx <= cplength ==>
                 EncodedSize(Contents()[idx..idx + ClampCount(idx, num, cplength)]) < SIZE_MOD
      ensures cplength < idx ==> r == Fail(OutOfRange)
      ensures idx <= cplength ==>
                r == Ok(|Utf8Of(Contents()[idx..idx + ClampCount(idx, num, cplength)])|)
    {
      if cplength < idx {
        r := Fail(OutOfRange);
      } else {
        var maxlen := cplength - idx;
        var n := if num < maxlen then num else maxlen;
        var src := Ptr()[idx..cplength];
        var count := EncodedSizeOf(src, n);
        assert src[..n] == Contents()[idx..idx + n];
        Utf8OfLength(src[..n]);
        r := Ok(count);
      }
    }

    /** build_utf8_buff(), behind c_str() and data(): the cache is
        reallocated when the encoding and its terminator do not fit, then
        holds the UTF-8 encoding of the string followed by a 0.  For code
        points that UTF-8 can carry, decoding it gives the string back. */
    method BuildUtf8Buff() returns (data: array<utf8>)
      requires Valid() && EncodedSize(Contents()) < NPOS
      modifies this
      modifies if encodedbuff != null then {encodedbuff} else {}
      ensures Valid() && fresh(Repr - old(Repr)) && Contents() == old(Contents())
      ensures data == encodedbuff && encodeddatlen == EncodedSize(Contents()) + 1
      ensures encodeddatlen <= data.Length
      ensures data[..encodeddatlen] == Utf8Of(Contents()) + [0]
      ensures (forall i :: 0 <= i < |Contents()| ==> Contents()[i] < CODE_LIMIT) ==>
                Decode(data[..encodeddatlen - 1]) == Contents()
    {
      ghost var c := Contents();
      var live := Ptr();
      var sz := EncodedSizeOf(live[..], cplength);
      assert live[..][..cplength] == c;
      var dest := ReserveEncoded(sz + 1);
      // encode(ptr(), d_encodedbuff, buffsize, d_cplength): the whole
      // string fits, so the destination length does not cut it short.
      var w := EncodeTerminated(live[..cplength], dest);
      encodeddatlen := w + 1;
      data := dest;
      if forall i :: 0 <= i < |c| ==> c[i] < CODE_LIMIT {
        DecodeUtf8Of(c);
      }
    }

    /** The reallocation step of build_utf8_buff(): a cache shorter than
        `size` is replaced by a new one of exactly `size` code units. */
    method ReserveEncoded(size: nat) returns (dest: array<utf8>)
      requires Valid() && 0 < size
      modifies this
      ensures Valid() && fresh(Repr - old(Repr)) && Contents() == old(Contents())
      ensures dest == encodedbuff && dest in Repr
      ensures size <= encodedbufflen == dest.Length
      ensures old(encodedbufflen) < size ==> fresh(dest) && dest.Length == size
      ensures size <= old(encodedbufflen) ==> dest == old(encodedbuff)
      ensures cplength == old(cplength) && reserve == old(reserve) && buffer == old(buffer)
      ensures encodeddatlen == old(encodeddatlen)
    {
      if size > encodedbufflen {
        var b := new utf8[size];
        encodedbuff := b;
        encodedbufflen := size;
        Repr := Repr + {b};
      }
      dest := encodedbuff;
    }

    /** copy(buf, len, idx) as evidently intended: out_of_range when `idx`
        is past the end; otherwise at most `len` code points from `idx`,
        never past the end, are encoded into `buf`, and the number of bytes
        written is returned.  `buf` must be large enough. */
    method Copy(buf: array<utf8>, len: size_type, idx: size_type) returns (r: Result<size_type>)
      requires Valid() && buf.Length < SIZE_MOD
      requires idx <= cplength ==>
                 EncodedSize(Contents()[idx..idx + ClampCount(idx, len, cplength)]) <= buf.Length
      modifies buf
      ensures cplength < idx ==> r == Fail(OutOfRange) && buf[..] == old(buf[..])
      ensures idx <= cplength ==>
                var e := Utf8Of(old(Contents()[idx..idx + ClampCount(idx, len, cplength)]));
                |e| <= buf.Length && r == Ok(|e|) && buf[..] == e + old(buf[|e|..])
    {
      if cplength < idx {
        return Fail(OutOfRange);
      }
      var n := ClampCount(idx, len, cplength);
      var src := Ptr()[idx..idx + n];
      assert src == Contents()[idx..idx + n] by {
        SliceOfPrefix(Ptr()[..], cplength, idx, idx + n);
      }
      var w := EncodeAll(src, buf);
      return Ok(w);
    }

    /** The code points copy(buf, len, idx) as written encodes: npos stands
        for the whole length whatever `idx` is, a `len` reaching past the
        end is not cut back, and a `len` of 0 means "up to the first 0",
        which is at the latest the terminator. */
    ghost function CopiedAsWritten(len: size_type, idx: size_type): seq<utf32>
      reads this, Repr
      requires Valid() && idx <= cplength
      requires var n := if len == NPOS then cplength else len; n == 0 || idx + n <= reserve
    {
      var n := if len == NPOS then cplength else len;
      PtrIsQuickBuffer();
      if n == 0 then Ptr()[idx..][..ZeroIndex(Ptr()[idx..], 0)] else Ptr()[idx..idx + n]
    }

    /** Within the string, and with a positive length, copy as written
        encodes the range that was asked for. */
    lemma CopiedInRange(len: size_type, idx: size_type)
      requires Valid() && idx <= cplength && 0 < len <= cplength - idx
      ensures CopiedAsWritten(len, idx) == Contents()[idx..idx + len]
    {
      PtrIsQuickBuffer();
      SliceOfPrefix(Ptr()[..], cplength, idx, idx + len);
    }

    /** copy(buf, len, idx) as written: out_of_range when `idx` is past the
        end; otherwise CopiedAsWritten is encoded into `buf`.  The buffer
        the string lives in must hold what is read. */
    method CopyAsWritten(buf: array<utf8>, len: size_type, idx: size_type) returns (r: Result<size_type>)
      requires Valid() && buf.Length < SIZE_MOD
      requires idx <= cplength ==>
                 && (var n := if len == NPOS then cplength else len; n == 0 || idx + n <= reserve)
                 && EncodedSize(CopiedAsWritten(len, idx)) <= buf.Length
      modifies buf
      ensures cplength < idx ==> r == Fail(OutOfRange) && buf[..] == old(buf[..])
      ensures idx <= cplength ==>
                var e := Utf8Of(old(CopiedAsWritten(len, idx)));
                |e| <= buf.Length && r == Ok(|e|) && buf[..] == e + old(buf[|e|..])
    {
      if cplength < idx {
        return Fail(OutOfRange);
      }
      var n := len;
      if n == NPOS {
        n := cplength;
      }
      PtrIsQuickBuffer();
      var src := Ptr()[idx..];
      assert cplength - idx < |src| && src[cplength - idx] == 0;
      if n == 0 {
        n := Utf32Length(src);
      }
      assert src[..n] == CopiedAsWritten(len, idx);
      var w := EncodeAll(src[..n], buf);
      return Ok(w);
    }
  }

  /** The terminator is reported as a position of the string: in "aa",
      find_first_not_of('a') as written answers 2, one past the end, where
      the intended answer is npos. */
  lemma FindFirstNotOfCpReadsTerminator()
    ensures FindFirstNotCp([0x61, 0x61] + [0], 0x61, 0) == 2
    ensures FindFirstNotCp([0x61, 0x61], 0x61, 0) == NPOS
  {
    var s, t := [0x61, 0x61] + [0], [0x61, 0x61];
    assert FindFirstNotCp(s, 0x61, 2) == 2;
    assert FindFirstNotCp(s, 0x61, 1) == 2;
    assert FindFirstNotCp(t, 0x61, 2) == NPOS;
    assert FindFirstNotCp(t, 0x61, 1) == NPOS;
  }

  /** "ab".copy(buf, npos, 1) as written encodes two code points, 'b' and
      the terminator, where the intended answer is the one byte of 'b'. */
  method CopyWitness() returns (overread: size_type, intended: size_type)
    ensures overread == 2 && intended == 1
  {
    var s := new String();
    s.AssignChars([0x61, 0x62], 2);
    assert s.Contents() == [0x61, 0x62];
    assert s.Ptr()[1] == 0x62 && s.Ptr()[2] == 0;
    assert s.Ptr()[1..3] == [0x62, 0];
    assert Utf8Of([0x62, 0]) == [0x62, 0];
    assert s.Contents()[1..2] == [0x62];
    assert Utf8Of([0x62]) == [0x62];
    var buf := new utf8[8];
    var r2 := s.Copy(buf, NPOS, 1);
    var r1 := s.CopyAsWritten(buf, NPOS, 1);
    overread, intended := r1.value, r2.value;
  }

  /** "ab".copy(buf, 0) as written encodes both characters where nothing
      was asked for. */
  method CopyZeroWitness() returns (asWritten: size_type, intended: size_type)
    ensures asWritten == 2 && intended == 0
  {
    var s := new String();
    s.AssignChars([0x61, 0x62], 2);
    assert s.Contents() == [0x61, 0x62];
    assert s.Ptr()[1] == 0x62 && s.Ptr()[2] == 0;
    var buf := new utf8[8];
    assert s.Ptr()[0..][..ZeroIndex(s.Ptr()[0..], 0)] == [0x61, 0x62];
    assert Utf8Of([0x61, 0x62]) == [0x61, 0x62];
    var r1 := s.CopyAsWritten(buf, 0, 0);
    var r2 := s.Copy(buf, 0, 0);
    asWritten, intended := r1.value, r2.value;
  }

  /** A String on the heap swapped, as written, with one in its quick
      buffer: afterwards it has the other's length, 1, but reads its own
      stale quick buffer, whose first code point is 0 rather than 'y'. */
  method SwapWitness() returns (len: nat, first: utf32)
    ensures len == 1 && first == 0
  {
    var a := new String();
    var _ := a.Grow(40);
    var b := new String();
    b.PushBack(0x79);
    a.SwapAsWritten(b);
    len, first := a.cplength, a.Ptr()[0];
  }

  /** append(std_str, str_idx, str_num) as written takes the chars from the
      start of `std_str`: appending "ab" from index 1, one char, gives 'a'
      where 'b' is meant. */
  method AppendStdWitness() returns (asWritten: utf32, intended: utf32)
    ensures asWritten == 0x61 && intended == 0x62
  {
    var s := new String();
    var t := new String();
    var _ := s.AppendStdAsWritten([0x61, 0x62], 1, 1);
    var _ := t.AppendStd([0x61, 0x62], 1, 1);
    assert s.Contents() == [0x61] && t.Contents() == [0x62];
    asWritten := s.Get(0);
    intended := t.Get(0);
  }

  /** String::FastLessCompare: the shorter string first, and strings of the
      same length in the order memcmp gives their little-endian buffers. */
  method FastLessCompare(a: String, b: String) returns (r: bool)
    requires a.Valid() && b.Valid()
    ensures r == FastLess(a.Contents(), b.Contents())
  {
    var la, lb := a.cplength, b.cplength;
    if la == lb {
      r := MemLess(Bytes(a.Ptr()[..la]), Bytes(b.Ptr()[..lb]));
    } else {
      r := la < lb;
    }
  }
}
