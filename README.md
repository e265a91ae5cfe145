# CEGUI core: String, events, properties and the registry iterator

This project models four in-memory subsystems of the CEGUI library (the
MyCEGUI copy) and proves properties of the model.

- **`CEGUI::String`** is a class `Strings.String`. It holds a 32-slot quick
  buffer `array`, an optional heap `array`, `cplength`, `reserve` and the
  UTF-8 cache `array`. Its contents, a `seq<utf32>`, are read off the live
  buffer, and the class invariant puts a 0 at `ptr()[d_cplength]`.
  - Every editing form (`assign`, `append`, `insert`, `erase`, `replace`,
    `resize`, `swap`) is a method. Each states the new contents as a
    function of the old ones, with `out_of_range` / `length_error` as a
    `Failure` outcome.
  - The write loops (`*pt-- = …`), `grow`/`trim` and `build_utf8_buff`
    are methods over arrays with loop invariants.
  - The UTF-32→UTF-8 encoder and the UTF-8→UTF-32 decoder (module `Utf`)
    follow the bit layout of section 3 of RFC 3629. They are proved to be
    inverse for every code point below 2^21.
  - `compare`, the `utf32_comp_*` helpers and the 24 search functions are
    in modules `Text` and `Strings`.
  - The free operators are in `StringOps`.
- **The event system** is made of:
  - `RefCounting.RefCounted<T>`, handles that share a `Counter` object;
  - `Events.Event`, whose group-ordered sequence of `BoundSlot`s stands for
    the `std::multimap<Group, Connection>`;
  - `Events.ScopedConnection`;
  - `EventSets.EventSet`, a name → `Event` map with a mute flag;
  - `EventSets.GlobalEventSet`, which re-dispatches under
    `namespace + "/" + name`.

  Subscribers are opaque functor ids. The boolean each returns is a given
  function `outcome`.
- **Properties** are made of:
  - `Properties.Property`, with its receiver modelled as a name → value
    table and the XML serializer modelled as the trace of calls made on it;
  - `PropertySets.PropertySet`, whose registry is a sequence kept in
    `FastLessCompare` order. That is the iteration order of its
    `std::map<String, Property*, FastLessCompare>`.
- **`ConstBaseIterator`** is `Iterators.ConstBaseIterator`, a cursor over
  positions `[start, end]` of a copy of the collection's entries.

The target is 32-bit x86:
- `size_t` is 32 bits;
- `npos` is 2^32 − 1;
- `max_size()` is `npos / 4`;
- `memcmp` sees the little-endian bytes of each code point.

`uint` in `EventArgs::handled` wraps modulo 2^32. All of this is written
out in the model.

## Model

| member | source | states |
|---|---|---|
| Strings.String.PtrIsQuickBuffer | MyCEGUI/cegui/CEGUIString.h:554-563 | The live buffer is the quick buffer exactly when `reserve <= 32`; a quick-buffer string has `reserve == 32`; the live buffer is always `reserve` long. |
| Strings.String.Ptr | MyCEGUI/cegui/CEGUIString.h:554-563 | `ptr()` is the heap buffer while `reserve` exceeds 32 and the quick buffer otherwise; `PtrIsQuickBuffer` states that this choice is exact and that the live buffer is `reserve` long. |
| Strings.String.constructor | MyCEGUI/cegui/CEGUIString.h:290-293 | `String()` is empty, lives in the quick buffer (`reserve == 32`), has no heap buffer and no UTF-8 cache, and satisfies the class invariant. |
| Strings.String.Length | MyCEGUI/cegui/CEGUIString.h:368-376 | `size()`/`length()` is the number of code points, and it is always below `reserve`, which leaves room for the terminator. |
| Strings.String.Empty | MyCEGUI/cegui/CEGUIString.h:378-381 | `empty()` holds exactly when the contents are the empty sequence. |
| Strings.String.Capacity | MyCEGUI/cegui/CEGUIString.h:390-393 | `capacity()` is at least the length and is one less than the live buffer's size. |
| Strings.String.SetLen | MyCEGUI/cegui/CEGUIString.h:2133-2137 | `setlen(len)` makes the contents the first `len` slots of the live buffer, writes the 0 terminator at `len` and touches nothing else, which restores the class invariant. |
| Strings.String.Grow | MyCEGUI/cegui/CEGUIString.cpp:24-54 | `grow(n)` reallocates exactly when `n + 1 > reserve`, returns whether it did, sets `reserve` to `max(reserve, n + 1)` and keeps the first `len + 1` code points. It has no error outcome. |
| Strings.String.Trim | MyCEGUI/cegui/CEGUIString.cpp:58-82 | `trim()` keeps the contents. A heap buffer with slack moves to the quick buffer when `len + 1 <= 32` and otherwise shrinks to exactly `len + 1`; a quick-buffer or exactly-sized string is unchanged. |
| Strings.String.Reserve | MyCEGUI/cegui/CEGUIString.h:396-402 | `reserve(num)` keeps the contents; for `num > 0` the new reserve is `max(reserve, num + 1)`. |
| Strings.String.Get | MyCEGUI/cegui/CEGUIString.h:513-516 | `operator[]` reads the live buffer unchecked: inside the string it is the code point, at the length it is the 0 terminator. |
| Strings.String.At | MyCEGUI/cegui/CEGUIString.h:525-540 | `at(idx)` fails with `out_of_range` exactly when `idx >= length()`, and otherwise returns the code point at `idx`. |
| Strings.String.Assign | MyCEGUI/cegui/CEGUIString.h:599-612 | `assign(str, str_idx, str_num)` fails with `out_of_range` exactly when `str_idx > str.length()`, leaving the contents alone; otherwise the contents become the clamped sub-string of `str`. |
| Strings.String.AssignStd | MyCEGUI/cegui/CEGUIString.h:622-639 | The same for a `std::string`, each char zero-extended. |
| Strings.String.AssignUtf8 | MyCEGUI/cegui/CEGUIString.h:656-668 | `assign(utf8_str, str_num)` fails with `length_error` exactly for `npos`; otherwise the contents become the decoding of the first `str_num` bytes. |
| Strings.String.AssignRepeat | MyCEGUI/cegui/CEGUIString.h:676-689 | `assign(num, cp)` fails with `length_error` exactly for `npos`; otherwise the contents become `num` copies of `cp`. |
| Strings.String.AssignChars | MyCEGUI/cegui/CEGUIString.h:704-716 | `assign(chars, chars_len)` makes the contents the first `chars_len` chars, zero-extended. |
| Strings.String.Append | MyCEGUI/cegui/CEGUIString.h:752-764 | `append(str, str_idx, str_num)` fails with `out_of_range` exactly when `str_idx > str.length()`; otherwise the old contents are followed by the clamped sub-string of `str`. |
| Strings.String.AppendStd | MyCEGUI/cegui/CEGUIString.h:774-792 | Corrected `append(std_str, str_idx, str_num)`: the clamped sub-string starting at `str_idx` is appended (see Findings). |
| Strings.String.AppendStdAsWritten | MyCEGUI/cegui/CEGUIString.h:787-788 | As written, the clamped number of chars is copied from the start of `std_str`, not from `str_idx`. |
| Strings.String.AppendUtf8 | MyCEGUI/cegui/CEGUIString.h:807-820 | `append(utf8_str, len)` fails with `length_error` exactly for `npos`; otherwise the decoding of the first `len` bytes is appended. |
| Strings.String.AppendRepeat | MyCEGUI/cegui/CEGUIString.h:829-845 | `append(num, cp)` fails with `length_error` exactly for `npos`; otherwise `num` copies of `cp` are appended, without reallocating when they fit. |
| Strings.String.PushBack | MyCEGUI/cegui/CEGUIString.h:848-851 | `push_back(cp)` appends exactly `cp`. |
| Strings.String.AppendChars | MyCEGUI/cegui/CEGUIString.h:873-890 | `append(chars, chars_len)` fails with `length_error` exactly for `npos`; otherwise the zero-extended chars are appended. |
| Strings.String.Insert | MyCEGUI/cegui/CEGUIString.h:901-916 | `insert(idx, str, str_idx, n)` fails with `out_of_range` exactly when `idx > length()` or `str_idx > str.length()`; otherwise the result is `s[..idx] + str[str_idx..str_idx + n'] + s[idx..]` with `n'` the clamped count. |
| Strings.String.InsertStd | MyCEGUI/cegui/CEGUIString.h:927-951 | The same for a `std::string`, zero-extended. |
| Strings.String.InsertUtf8 | MyCEGUI/cegui/CEGUIString.h:962-979 | `out_of_range` for `idx > length()`, then `length_error` for `npos`; otherwise the decoding of `len` bytes is inserted before `idx`. |
| Strings.String.InsertRepeat | MyCEGUI/cegui/CEGUIString.h:983-1004 | `out_of_range` for `idx > length()`, then `length_error` for `npos`; otherwise `num` copies of `cp` are inserted before `idx`. |
| Strings.String.InsertChars | MyCEGUI/cegui/CEGUIString.h:1034-1055 | `out_of_range`, then `length_error`, otherwise the zero-extended chars are inserted before `idx`. |
| Strings.String.Clear | MyCEGUI/cegui/CEGUIString.h:1057-1061 | `clear()` leaves the string empty, in its quick buffer, with `reserve == 32`. |
| Strings.String.EraseCount | MyCEGUI/cegui/CEGUIString.h:1085-1086 | The count erased stays inside the string and is `len` itself unless `len` is `npos`. |
| Strings.String.Erase | MyCEGUI/cegui/CEGUIString.h:1076-1094 | `erase(idx, len)`: `len == 0` changes nothing, whatever `idx` is; otherwise `idx >= length()` fails with `out_of_range`; otherwise the result is `s[..idx] + s[idx + len..]`, with `npos` erasing to the end. An unclamped `len` past the end is excluded by `requires`. |
| Strings.String.Resize | MyCEGUI/cegui/CEGUIString.h:1113-1124 | `resize(num, cp)` fails with `length_error` for `npos`; otherwise the length becomes `num`, by truncation or by appending copies of `cp`. |
| Strings.String.Replace | MyCEGUI/cegui/CEGUIString.h:1141-1163 | `replace(idx, len, str, str_idx, str_num)` fails with `out_of_range` when either index is past its string's end; otherwise the clamped range gives way to the clamped sub-string of `str`, and the rest is kept. |
| Strings.String.ReplaceStd | MyCEGUI/cegui/CEGUIString.h:1180-1209 | The same for a `std::string`, zero-extended. |
| Strings.String.ReplaceUtf8 | MyCEGUI/cegui/CEGUIString.h:1226-1249 | `out_of_range`, then `length_error` for `npos`; otherwise the clamped range gives way to the decoding of `str_len` bytes. |
| Strings.String.ReplaceRepeat | MyCEGUI/cegui/CEGUIString.h:1259-1285 | `out_of_range`, then `length_error`; otherwise the clamped range gives way to `num` copies of `cp`. |
| Strings.String.ReplaceChars | MyCEGUI/cegui/CEGUIString.h:1340-1365 | `out_of_range`, then `length_error`; otherwise the clamped range gives way to the zero-extended chars. |
| Strings.String.ReplaceRange | MyCEGUI/cegui/CEGUIString.h:1295-1323 | The iterator-range `replace` (iterators as indices): `[first, last)` gives way to the new code points, and the rest is kept. |
| Strings.String.Swap | MyCEGUI/cegui/CEGUIString.h:718-742 | Corrected `swap(str)`: the two strings exchange contents, both stay valid and their footprints stay disjoint (see Findings). |
| Strings.String.SwapAsWritten | MyCEGUI/cegui/CEGUIString.h:718-742 | As written: `str` gets this string's contents, and this string gets `str`'s length and reserve. When this string was on the heap and `str` in its quick buffer, this string is left reading its own unchanged quick buffer. |
| Strings.String.Substr | MyCEGUI/cegui/CEGUIString.h:2080-2086 | `substr(idx, len)` fails with `out_of_range` exactly when `idx > length()`; otherwise it is a new string holding the clamped sub-string. |
| Strings.String.CompareRange | MyCEGUI/cegui/CEGUIString.h:410-424 | `compare(idx, len, str, str_idx, str_len)` fails with `out_of_range` when either index is past its end; otherwise it is `Compare` of the two clamped ranges. |
| Strings.String.CompareWith | MyCEGUI/cegui/CEGUIString.h:404-407 | `compare(str)` is `Compare` of the two whole strings. |
| Strings.String.CompareRangeStd | MyCEGUI/cegui/CEGUIString.h:433-450 | The same against a `std::string`, zero-extended. |
| Strings.String.CompareWithStd | MyCEGUI/cegui/CEGUIString.h:427-430 | `compare(std_str)` on the whole string. |
| Strings.String.CompareRangeUtf8 | MyCEGUI/cegui/CEGUIString.h:467-481 | `out_of_range`, then `length_error` for `npos`; otherwise `Compare` against the first `str_cplen` decoded code points. |
| Strings.String.CompareWithUtf8 | MyCEGUI/cegui/CEGUIString.h:454-457 | `compare(utf8_str)` against the decoding of the bytes before the terminator. |
| Strings.String.CompareRangeChars | MyCEGUI/cegui/CEGUIString.h:496-510 | `out_of_range`, then `length_error`; otherwise `Compare` against the zero-extended chars. |
| Strings.String.CompareWithChars | MyCEGUI/cegui/CEGUIString.h:483-486 | `compare(cstr)` against the chars before the terminator. |
| Text.CompareZero | MyCEGUI/cegui/CEGUIString.h:410-424 | `compare` returns −1, 0 or 1, and 0 exactly for equal sequences. |
| Text.CompareIsLex | MyCEGUI/cegui/CEGUIString.h:410-424 | For code points below 2^31, `compare` is lexicographic order: the first differing code point decides, and a proper prefix sorts first. |
| Text.LexCompareAntisymmetric | MyCEGUI/cegui/CEGUIString.h:410-424 | Lexicographic order is antisymmetric, so `a.compare(b) == -b.compare(a)` below 2^31. |
| Text.CompareSign | MyCEGUI/cegui/CEGUIString.h:421-423 | The final mapping gives −1, 0 or 1, and 0 exactly when the helper found no difference and the two lengths are equal. |
| Text.Utf32CompUtf32 | MyCEGUI/cegui/CEGUIString.h:2370-2379 | The comparison loop returns `CompareN`: 0 when all `n` code points agree, otherwise the wrapped 32-bit difference at the first mismatch. |
| Text.Utf32CompChar | MyCEGUI/cegui/CEGUIString.h:2382-2391 | The same against zero-extended chars. |
| Text.Utf32CompUtf8 | MyCEGUI/cegui/CEGUIString.h:2394-2432 | The same against the code points decoded one character per step. |
| Text.CompareNZero | MyCEGUI/cegui/CEGUIString.h:2370-2432 | The helpers return 0 exactly when the first `n` code points agree. |
| Text.Diff32Exact | MyCEGUI/cegui/CEGUIString.h:2376 | Below 2^31 the unsigned subtraction read as `int` is the true difference. |
| Text.Diff32WrapsAbove31 | MyCEGUI/cegui/CEGUIString.h:2376 | At 2^31 and above the sign is wrong: `0x80000000 - 0` reads as negative. |
| Text.Diff32Zero | MyCEGUI/cegui/CEGUIString.h:2376 | The wrapped difference is 0 exactly for equal code points. |
| Strings.FastLessCompare | MyCEGUI/cegui/CEGUIString.h:277-287 | `FastLessCompare` is `FastLess` of the two contents: the shorter first, and equal lengths in `memcmp` order of their little-endian buffers. |
| Text.FastLessShorterFirst | MyCEGUI/cegui/CEGUIString.h:279-282 | A shorter string is always less, and never greater. |
| Text.FastLessIrreflexive | MyCEGUI/cegui/CEGUIString.h:277-287 | No string is FastLess than itself. |
| Text.FastLessAsymmetric | MyCEGUI/cegui/CEGUIString.h:277-287 | FastLess never holds both ways. |
| Text.FastLessTransitive | MyCEGUI/cegui/CEGUIString.h:277-287 | FastLess is transitive. |
| Text.FastLessTotal | MyCEGUI/cegui/CEGUIString.h:277-287 | Any two different strings are FastLess one way, so equal-length strings are ordered by content. |
| Text.FastLessIsNotLexicographic | MyCEGUI/cegui/CEGUIString.h:277-287 | FastLess is not `compare`'s order: "b" < "aa", and U+0100 sorts before U+0001 because memcmp reads the low byte first. |
| Text.BytesInjective | MyCEGUI/cegui/CEGUIString.h:284 | Equal byte images of equal-length buffers mean equal code points, so `memcmp == 0` means equal strings. |
| Strings.String.Find | MyCEGUI/cegui/CEGUIString.h:1373-1390 | `find(cp, idx)` is `FindCp`: the least `i >= idx` with `s[i] == cp`, else `npos`. |
| Text.FindCp | MyCEGUI/cegui/CEGUIString.h:1373-1390 | Its result is the least position at or after `idx` holding `cp`, and it is `npos` exactly when there is none. |
| Strings.String.RFind | MyCEGUI/cegui/CEGUIString.h:1392-1411 | `rfind(cp, idx)` is `RFindCp`; `find_last_of(cp, idx)` is the same. |
| Text.RFindCp | MyCEGUI/cegui/CEGUIString.h:1392-1411 | The greatest position at or before `min(idx, len - 1)` holding `cp`, and `npos` exactly when there is none. |
| Strings.String.FindString | MyCEGUI/cegui/CEGUIString.h:1413-1432 | `find(str, idx)` is `FindSub` of the contents. |
| Text.FindSub | MyCEGUI/cegui/CEGUIString.h:1413-1432 | The first occurrence at or after `idx`. An empty needle is found at `idx` only when `idx < length()`, and the result is `npos` exactly when there is no such occurrence. |
| Strings.String.FindStd | MyCEGUI/cegui/CEGUIString.h:1456-1477 | `find(std_str, idx)` is `FindSub` against the zero-extended chars. |
| Strings.String.FindUtf8 | MyCEGUI/cegui/CEGUIString.h:1516-1540 | `length_error` for `npos`; otherwise `FindSub` against the decoded bytes. |
| Strings.String.FindChars | MyCEGUI/cegui/CEGUIString.h:1583-1605 | `length_error` for `npos`; otherwise `FindSub` against the chars. |
| Strings.String.RFindString | MyCEGUI/cegui/CEGUIString.h:1434-1454 | `rfind(str, idx)` is `RFindSub`. |
| Text.RFindSub | MyCEGUI/cegui/CEGUIString.h:1434-1454 | An empty needle gives `min(idx, len)`; otherwise the last occurrence starting at or before `idx`, and `npos` exactly when there is none. |
| Strings.String.RFindStd | MyCEGUI/cegui/CEGUIString.h:1479-1501 | `rfind(std_str, idx)` is `RFindSub` against the chars. |
| Strings.String.RFindUtf8 | MyCEGUI/cegui/CEGUIString.h:1543-1568 | `length_error` for `npos`; otherwise `RFindSub` against the decoded bytes. |
| Strings.String.RFindChars | MyCEGUI/cegui/CEGUIString.h:1608-1631 | `length_error` for `npos`; otherwise `RFindSub` against the chars. |
| Strings.String.FindFirstOfString | MyCEGUI/cegui/CEGUIString.h:1633-1649 | `find_first_of(str, idx)` is `FindFirstIn` with membership. |
| Text.FindFirstIn | MyCEGUI/cegui/CEGUIString.h:1633-1667 | The first position at or after `idx` whose code point is in the set (`find_first_of`) or is not (`find_first_not_of`), and `npos` exactly when there is none. |
| Strings.String.FindFirstOfStd | MyCEGUI/cegui/CEGUIString.h:1669-1685 | The same against a `std::string`. |
| Strings.String.FindFirstOfUtf8 | MyCEGUI/cegui/CEGUIString.h:1718-1739 | `length_error` for `npos`; otherwise the same against the decoded bytes. |
| Strings.String.FindFirstOfChars | MyCEGUI/cegui/CEGUIString.h:1800-1819 | `length_error` for `npos`; otherwise the same against the chars. |
| Strings.String.FindFirstNotOfString | MyCEGUI/cegui/CEGUIString.h:1651-1667 | `find_first_not_of(str, idx)` is `FindFirstIn` without membership. |
| Strings.String.FindFirstNotOfStd | MyCEGUI/cegui/CEGUIString.h:1687-1703 | The same against a `std::string`. |
| Strings.String.FindFirstNotOfUtf8 | MyCEGUI/cegui/CEGUIString.h:1742-1763 | `length_error` for `npos`; otherwise the same against the decoded bytes. |
| Strings.String.FindFirstNotOfChars | MyCEGUI/cegui/CEGUIString.h:1822-1841 | `length_error` for `npos`; otherwise the same against the chars. |
| Strings.String.FindLastOfString | MyCEGUI/cegui/CEGUIString.h:1843-1862 | `find_last_of(str, idx)` is `FindLastIn` from `min(idx, len - 1)`, with membership. |
| Text.FindLastIn | MyCEGUI/cegui/CEGUIString.h:1843-1883 | The last position at or before the start position whose code point is (or is not) in the set, and `npos` exactly when there is none. |
| Strings.String.FindLastOfStd | MyCEGUI/cegui/CEGUIString.h:1885-1904 | The same against a `std::string`. |
| Strings.String.FindLastOfUtf8 | MyCEGUI/cegui/CEGUIString.h:1940-1964 | `length_error` for `npos`; otherwise the same against the decoded bytes. |
| Strings.String.FindLastOfChars | MyCEGUI/cegui/CEGUIString.h:2030-2052 | `length_error` for `npos`; otherwise the same against the chars. |
| Strings.String.FindLastNotOfString | MyCEGUI/cegui/CEGUIString.h:1864-1883 | `find_last_not_of(str, idx)` is `FindLastIn` without membership. |
| Strings.String.FindLastNotOfStd | MyCEGUI/cegui/CEGUIString.h:1906-1925 | The same against a `std::string`. |
| Strings.String.FindLastNotOfUtf8 | MyCEGUI/cegui/CEGUIString.h:1967-1991 | `length_error` for `npos`; otherwise the same against the decoded bytes. |
| Strings.String.FindLastNotOfChars | MyCEGUI/cegui/CEGUIString.h:2055-2077 | `length_error` for `npos`; otherwise the same against the chars. |
| Strings.String.FindFirstNotOfCp | MyCEGUI/cegui/CEGUIString.h:1771-1785 | Corrected `find_first_not_of(cp, idx)`: the first position at or after `idx` not holding `cp`, else `npos` (see Findings). |
| Text.FindFirstNotCp | MyCEGUI/cegui/CEGUIString.h:1771-1785 | Its result holds a different code point with only `cp` before it, and it is `npos` exactly when every position from `idx` holds `cp`. |
| Strings.String.FindFirstNotOfCpAsWritten | MyCEGUI/cegui/CEGUIString.h:1777-1781 | As written, the loop examines the terminator as if it were part of the string. |
| Strings.String.FindLastNotOfCp | MyCEGUI/cegui/CEGUIString.h:1998-2015 | `find_last_not_of(cp, idx)` is the last position at or before `min(idx, len - 1)` not holding `cp`, else `npos`. |
| Text.FindLastNotCp | MyCEGUI/cegui/CEGUIString.h:1998-2015 | Its result holds a different code point with only `cp` after it, and it is `npos` exactly when there is none. |
| Text.FindCodepointNarrow | MyCEGUI/cegui/CEGUIString.h:2435-2448 | `find_codepoint(std_str, cp)` is the first position whose zero-extended char is `cp`, and it is not `npos` exactly when `cp` occurs. |
| Text.FindCodepointUtf8 | MyCEGUI/cegui/CEGUIString.h:2451-2491 | `find_codepoint(utf8_str, len, cp)` is the first of the `len` decoded code points equal to `cp`, and it is not `npos` exactly when `cp` occurs. |
| Strings.String.Utf8StreamLen | MyCEGUI/cegui/CEGUIString.h:581-591 | `utf8_stream_len(num, idx)` fails with `out_of_range` past the end; otherwise it is the byte length of the UTF-8 form of the clamped range. |
| Strings.String.Copy | MyCEGUI/cegui/CEGUIString.h:568-577 | Corrected `copy(buf, len, idx)`: `out_of_range` past the end, leaving `buf` alone; otherwise `buf` starts with the UTF-8 form of the clamped range, the rest of `buf` is kept, and that form's length is returned (see Findings). |
| Strings.String.CopyAsWritten | MyCEGUI/cegui/CEGUIString.h:573-576 | As written, `npos` sets the count to the whole length whatever `idx` is, and `len == 0` takes the count from the terminator. |
| Strings.String.CopiedInRange | MyCEGUI/cegui/CEGUIString.h:573-576 | For a positive `len` inside the string, the as-written copy encodes exactly the range asked for. |
| Strings.String.BuildUtf8Buff | MyCEGUI/cegui/CEGUIString.cpp:86-109 | `build_utf8_buff()` leaves the UTF-8 form of the contents followed by one 0 in the cache, with `encodeddatlen == encoded_size + 1`. Decoding that form gives the contents back. |
| Strings.String.ReserveEncoded | MyCEGUI/cegui/CEGUIString.cpp:91-100 | The cache is reallocated, to exactly the needed size, only when it is too small; otherwise the same array is reused. |
| Utf.EncodedSizeCp | MyCEGUI/cegui/CEGUIString.h:2269-2279 | `encoded_size(cp)` is 1 to 4 bytes: 1 exactly below 0x80 and 4 exactly from 0x10000. |
| Utf.EncodeCpSize | MyCEGUI/cegui/CEGUIString.h:2168-2219 | The encoder writes exactly `encoded_size(cp)` bytes for each code point. |
| Utf.DecodeEncodeCp | MyCEGUI/cegui/CEGUIString.h:2222-2266 | For every code point below 2^21 (all of Unicode), the decoder reads the encoder's bytes as one character of the right length and gets the code point back. |
| Utf.DecodeUtf8Of | MyCEGUI/cegui/CEGUIString.h:2168-2266 | Round trip: the UTF-8 produced by the encoder is complete and decodes back to the original code points. |
| Utf.FitCountIsMaximal | MyCEGUI/cegui/CEGUIString.h:2176-2215 | The encoder stops at the first code point that does not fit: what it wrote fits, and one more would not. |
| Utf.EncodeToUtf8 | MyCEGUI/cegui/CEGUIString.h:2168-2219 | `encode(src, dest, dest_len, src_len)` (UTF-32 to UTF-8) writes the UTF-8 form of the code points that fit at the start of `dest` and returns its length. `src_len == 0` means up to the terminator, and the rest of `dest` is kept. |
| Utf.DecodeToUtf32 | MyCEGUI/cegui/CEGUIString.h:2222-2266 | `encode(src, dest, dest_len, src_len)` (UTF-8 to UTF-32) writes `min(dest_len, n)` decoded code points and returns that count, keeping the rest of `dest`. |
| Utf.EncodedSizeOf | MyCEGUI/cegui/CEGUIString.h:2288-2298 | `encoded_size(buf, len)` is the total UTF-8 size of the first `len` code points. |
| Utf.Utf8EncodedSize | MyCEGUI/cegui/CEGUIString.h:2307-2344 | `encoded_size(utf8 buf, len)` counts the lead bytes in the first `len` bytes. |
| Utf.LeadCountOfComplete | MyCEGUI/cegui/CEGUIString.h:2307-2344 | For complete UTF-8 that count equals the number of decoded code points. |
| Utf.Utf8Length | MyCEGUI/cegui/CEGUIString.h:2347-2354 | `utf_length(utf8*)` is the index of the first 0 byte. |
| Utf.Utf32Length | MyCEGUI/cegui/CEGUIString.h:2357-2364 | `utf_length(utf32*)` is the index of the first 0 code unit. |
| Text.ClampCount | MyCEGUI/cegui/CEGUIString.h:605-606 | The assign/append/insert clamp keeps the range inside the source and is `min(num, total - idx)`. |
| Text.ClampSumInRange | MyCEGUI/cegui/CEGUIString.h:416-417 | The compare/replace clamp keeps the range inside the string whenever the 32-bit `idx + len` does not wrap. |
| StringOps.Relate | MyCEGUI/cegui/CEGUIString.cpp:112-245 | The String/String `==, !=, <, >, <=, >=` are `compare` tested against 0. |
| StringOps.TestCompare | MyCEGUI/cegui/CEGUIString.cpp:112-245 | For code points below 2^31 each operator means what it says: equality, or the position in lexicographic order. |
| StringOps.RelateStd | MyCEGUI/cegui/CEGUIString.cpp:117-250 | The operators with a `std::string` on the right test `str.compare(std_str)`. |
| StringOps.RelateUtf8 | MyCEGUI/cegui/CEGUIString.cpp:127-260 | The operators with a UTF-8 C string on the right test `str.compare(utf8_str)`. |
| StringOps.RelateChars | MyCEGUI/cegui/CEGUIString.cpp:267-320 | The operators with a char C string on the right test `str.compare(c_str)`. |
| StringOps.RelateStdLeftAsWritten | MyCEGUI/cegui/CEGUIString.cpp:174-177 | As written, a `std::string` on the left makes `<` test `compare >= 0`, `>` test `compare <= 0`, and so on. |
| StringOps.TestReversedAsWritten | MyCEGUI/cegui/CEGUIString.cpp:174-205 | Those reversed operators agree with the intended meaning except `<` and `>` on equal strings, where they answer true. |
| StringOps.RelateStdLeft | MyCEGUI/cegui/CEGUIString.cpp:122-255 | Corrected: the converse operator applied to `str.compare(std_str)` (see Findings). |
| StringOps.TestConverse | MyCEGUI/cegui/CEGUIString.cpp:122-255 | The converse operator on the swapped compare means the operator with its operands in written order. |
| StringOps.RelateUtf8LeftAsWritten | MyCEGUI/cegui/CEGUIString.cpp:184-187 | As written, the same reversal with a UTF-8 string on the left. |
| StringOps.RelateUtf8Left | MyCEGUI/cegui/CEGUIString.cpp:132-265 | Corrected: the converse operator for a UTF-8 string on the left. |
| StringOps.RelateCharsLeftAsWritten | MyCEGUI/cegui/CEGUIString.cpp:292-295 | As written, the same reversal with a char string on the left. |
| StringOps.RelateCharsLeft | MyCEGUI/cegui/CEGUIString.cpp:272-325 | Corrected: the converse operator for a char string on the left. |
| StringOps.ReversedLessOfEqual | MyCEGUI/cegui/CEGUIString.cpp:174-177 | `x < x` with the narrow string on the left holds as written, although it is never meant to. |
| StringOps.ReversedLessWitness | MyCEGUI/cegui/CEGUIString.cpp:174-177 | `"a" < String("a")` is true as written and false as intended. |
| StringOps.Concat | MyCEGUI/cegui/CEGUIString.cpp:330-335 | `str1 + str2` is a new string holding `str1` then `str2`, of length `len1 + len2`; neither operand changes. |
| StringOps.ConcatStd | MyCEGUI/cegui/CEGUIString.cpp:337-342 | `str + std_str` is a new string holding `str` then the zero-extended chars. |
| StringOps.ConcatStdLeft | MyCEGUI/cegui/CEGUIString.cpp:344-349 | `std_str + str` is the chars then `str`. |
| StringOps.ConcatUtf8 | MyCEGUI/cegui/CEGUIString.cpp:351-356 | `str + utf8_str` is `str` then the decoded bytes before the terminator. |
| StringOps.ConcatUtf8Left | MyCEGUI/cegui/CEGUIString.cpp:358-363 | `utf8_str + str` is the decoded bytes then `str`. |
| StringOps.ConcatCp | MyCEGUI/cegui/CEGUIString.cpp:365-370 | `str + cp` is `str` then `cp`. |
| StringOps.ConcatCpLeft | MyCEGUI/cegui/CEGUIString.cpp:372-377 | `cp + str` is `cp` then `str`. |
| StringOps.ConcatChars | MyCEGUI/cegui/CEGUIString.cpp:379-384 | `str + c_str` is `str` then the chars before the terminator. |
| StringOps.ConcatCharsLeft | MyCEGUI/cegui/CEGUIString.cpp:386-391 | `c_str + str` is the chars then `str`. |
| StringOps.Swap | MyCEGUI/cegui/CEGUIString.cpp:398-401 | The free `swap(str1, str2)` exchanges contents (through the corrected member swap). |
| Strings.FindFirstNotOfCpReadsTerminator | MyCEGUI/cegui/CEGUIString.h:1777-1781 | On "aa" with `cp = 'a'`, the as-written search answers 2 (the terminator's position) where `npos` is meant. |
| Strings.CopyWitness | MyCEGUI/cegui/CEGUIString.h:573-574 | `"ab".copy(buf, npos, 1)` as written writes two code points, 'b' and the terminator, where one byte is meant. |
| Strings.CopyZeroWitness | MyCEGUI/cegui/CEGUIString.h:575-576 | `"ab".copy(buf, 0)` as written writes both characters where nothing was asked for. |
| Strings.SwapWitness | MyCEGUI/cegui/CEGUIString.h:733 | Swapping an empty string grown onto the heap with the quick-buffer string "y" gives the first string length 1, but it reads its own stale quick buffer, whose first code point is 0 rather than 'y'. |
| Strings.AppendStdWitness | MyCEGUI/cegui/CEGUIString.h:787-788 | `append("ab", 1, 1)` as written adds 'a' where 'b' is meant. |
| Buffers.FillForward | MyCEGUI/cegui/CEGUIString.h:837-841 | The forward `*p++ = code_point` loop writes exactly `num` copies of `cp` at `at` and nothing else. |
| Buffers.FillBackward | MyCEGUI/cegui/CEGUIString.h:996-1001 | The backward `*pt-- = code_point` loop writes the same. |
| Buffers.WidenForward | MyCEGUI/cegui/CEGUIString.h:707-713 | The forward char loop writes the zero-extended chars at `at` and nothing else. |
| Buffers.WidenBackward | MyCEGUI/cegui/CEGUIString.h:882-887 | The backward char loop writes the same. |
| Buffers.DecodeInto | MyCEGUI/cegui/CEGUIString.h:812-817 | `encoded_size` then `encode` write exactly the decoding of the first `num` bytes at `at`. |
| Buffers.ExchangeQuick | MyCEGUI/cegui/CEGUIString.h:735-739 | The three `memcpy`s through a temporary exchange the two quick buffers. |
| Buffers.EncodeAll | MyCEGUI/cegui/CEGUIString.h:568-577 | When the UTF-8 form fits, `encode` puts all of it at the start of `buf` and returns its length. |
| Buffers.EncodeTerminated | MyCEGUI/cegui/CEGUIString.cpp:102-106 | The cache holds the UTF-8 form followed by the 0 terminator. |
| RefCounting.RefCounted.Null | MyCEGUI/cegui/CEGUIRefCounted.h:11-15 | Default construction gives a handle with no object and no counter. |
| RefCounting.RefCounted.SameObject | MyCEGUI/cegui/CEGUIRefCounted.h:54-62 | `operator==` compares the pointees only, and `operator!=` is its negation. A handle equals itself, and equal handles are both valid or both null. |
| RefCounting.RefCounted.IsValid | MyCEGUI/cegui/CEGUIRefCounted.h:89-92 | `isValid()` holds when an object is bound. In a valid handle that is exactly when a counter is held, and the counter is live and at least 1. |
| RefCounting.RefCounted.Of | MyCEGUI/cegui/CEGUIRefCounted.h:17-21 | A non-null object gets a new counter at 1; a null pointer gives no counter. |
| RefCounting.RefCounted.Copy | MyCEGUI/cegui/CEGUIRefCounted.h:23-29 | The copy shares the object and the counter, and the count rises by one. |
| RefCounting.RefCounted.AddRef | MyCEGUI/cegui/CEGUIRefCounted.h:95-98 | `addRef()` increments the shared count. |
| RefCounting.RefCounted.Release | MyCEGUI/cegui/CEGUIRefCounted.h:99-108 | `release()` decrements the shared count. At zero the object and the counter are deleted and the handle is cleared; otherwise the handle is unchanged. |
| RefCounting.RefCounted.Destroy | MyCEGUI/cegui/CEGUIRefCounted.h:31-35 | Destroying a valid handle decrements the shared count, and the object is deleted exactly when it reaches zero. A null handle changes nothing. |
| RefCounting.RefCounted.Assign | MyCEGUI/cegui/CEGUIRefCounted.h:37-51 | Assigning a handle to the same object changes nothing. Otherwise the old object is released first, then the new one is shared and its count rises by one. |
| RefCounting.SharedLifetime | MyCEGUI/cegui/CEGUIRefCounted.h:23-35 | A handle and its copy count 2; after one dies the object lives on at 1; after both die it is deleted. |
| Events.EventArgs.constructor | MyCEGUI/cegui/CEGUIEventArgs.h:11 | `handled` starts at 0. |
| Events.BoundSlot.constructor | MyCEGUI/cegui/CEGUIBoundSlot.h:13 | A bound slot records its group and event and owns a new connected subscriber. |
| Events.BoundSlot.Disconnect | MyCEGUI/cegui/CEGUIBoundSlot.h:20-21 | `disconnect()` cleans up the subscriber, then has the event, if any, drop this slot through `Event::unsubscribe`, and clears the back-reference. A second call finds nothing to do. |
| Events.BoundSlot.Connected | MyCEGUI/cegui/CEGUIBoundSlot.h:19 | `connected()` is the subscriber's state. A new bound slot is connected and `disconnect()` leaves it unconnected, as those two members' contracts state. |
| Events.SubscriberSlot.Cleanup | MyCEGUI/cegui/CEGUISubscriberSlot.h:29-34 | After `cleanup()` the subscriber is no longer connected. |
| Events.UpperBound | MyCEGUI/cegui/CEGUIEvent.cpp:53-58 | In a group-sorted sequence, the multimap insertion point: every slot before it has a group `<= g`, every slot after it a greater one. |
| Events.InsertedSorted | MyCEGUI/cegui/CEGUIEvent.h:76-77 | Inserting at the upper bound of its group keeps the slots in ascending group order. |
| Events.UpperBoundOfDefault | MyCEGUI/cegui/CEGUIEvent.cpp:47-50 | The default group is the largest `Group`, so a default subscription goes last. |
| Events.Event.constructor | MyCEGUI/cegui/CEGUIEvent.cpp:28-31 | A new event has its name and no slots. |
| Events.Event.Subscribe | MyCEGUI/cegui/CEGUIEvent.cpp:53-58 | `subscribe(group, slot)` returns a new connection to a new bound slot. In the model its count is 1, because the container's own copy of the connection is not counted (see "## Left out"; in the source the caller's copy is at 2). Exactly that slot is inserted after every slot of a group `<= group`, and the order of the others is unchanged. |
| Events.Event.SubscribeDefault | MyCEGUI/cegui/CEGUIEvent.cpp:47-50 | `subscribe(slot)` appends the new slot at the end, in the default group. |
| Events.Event.Fire | MyCEGUI/cegui/CEGUIEvent.cpp:60-69 | `operator()(args)` invokes every subscriber once, in slot order, with no short-circuit; `handled` rises by the number that returned true, modulo 2^32. |
| Events.HandledBounds | MyCEGUI/cegui/CEGUIEvent.cpp:60-69 | The handled count is at most the number of slots; it equals it exactly when every subscriber returns true, and is 0 exactly when none does. |
| Events.Event.Unsubscribe | MyCEGUI/cegui/CEGUIEvent.cpp:71-82 | `unsubscribe(slot)` removes the first entry whose subscriber equals the slot's and keeps the rest in order. |
| Events.FirstOf | MyCEGUI/cegui/CEGUIEvent.cpp:73-80 | The search of `unsubscribe` stops at the first entry comparing equal, or at the end when there is none. |
| Events.UnsubscribedSorted | MyCEGUI/cegui/CEGUIEvent.cpp:71-82 | Unsubscribing keeps the slots in group order. |
| Events.UnsubscribedRemovesOne | MyCEGUI/cegui/CEGUIEvent.cpp:71-82 | It removes exactly one entry when one matches and changes nothing when none does. |
| Events.UnsubscribeUndoesSubscribe | MyCEGUI/cegui/CEGUIEvent.cpp:53-82 | Subscribing a new subscriber and then unsubscribing it gives back the original slots. |
| Events.Event.Destroy | MyCEGUI/cegui/CEGUIEvent.cpp:33-45 | `~Event()` clears every bound slot's back-reference, cleans up its subscriber and empties the container. |
| Events.ScopedConnection.constructor | MyCEGUI/cegui/CEGUIEvent.h:27 | A default scoped connection holds an empty handle. |
| Events.ScopedConnection.Of | MyCEGUI/cegui/CEGUIEvent.h:32-34 | Construction from a connection shares it, raising its count by one. |
| Events.ScopedConnection.Assign | MyCEGUI/cegui/CEGUIEvent.h:36-40 | Assignment replaces the held handle by the new connection. Assigning the same connection changes no count. For another connection, its count rises by one, and the old connection's count drops by one; the old one is deleted exactly when that was its last reference. The frame leaves the old bound slot untouched, so the old subscription is released but not disconnected. |
| Events.ScopedConnection.Disconnect | MyCEGUI/cegui/CEGUIEvent.h:45-46 | Afterwards `connected()` is false. A bound slot is unsubscribed from its event and loses its back-reference; an empty handle changes nothing. |
| Events.ScopedConnection.Connected | MyCEGUI/cegui/CEGUIEvent.h:42-43 | `connected()` is false for an empty handle; when it holds, a bound slot is held and that slot is connected. |
| Events.ScopedConnection.Destroy | MyCEGUI/cegui/CEGUIEvent.h:29-30 | The destructor disconnects the subscription and releases the held handle. |
| EventSets.EventSet.constructor | MyCEGUI/cegui/CEGUIEventSet.cpp:10-13 | A new set has no events and is not muted. |
| EventSets.EventSet.AddEvent | MyCEGUI/cegui/CEGUIEventSet.cpp:20-28 | `addEvent(name)` fails with `AlreadyExists` when `name` is present and changes nothing; otherwise the map gains exactly `name`, bound to a new event with no slots. |
| EventSets.EventSet.IsEventPresent | MyCEGUI/cegui/CEGUIEventSet.cpp:55-58 | An absent name reaches no subscriber when fired; a present one, in an unmuted set, reaches exactly the slots of its event. |
| EventSets.EventSet.RemoveEvent | MyCEGUI/cegui/CEGUIEventSet.cpp:30-40 | `removeEvent(name)` removes exactly `name`, a no-op when absent. The removed event is destroyed, disconnecting its slots. |
| EventSets.EventSet.RemoveAllEvents | MyCEGUI/cegui/CEGUIEventSet.cpp:42-53 | `removeAllEvents()` destroys every event, leaving each with no slots, and leaves the map empty. Every bound slot of every removed event loses its back-reference and has its subscriber cleaned up, so every earlier connection to them is disconnected. |
| EventSets.EventSet.FindEventObject | MyCEGUI/cegui/CEGUIEventSet.cpp:115-134 | `getEventObject(name)` without auto-add returns the named event, or null for an absent name, and changes nothing. |
| EventSets.EventSet.GetEventObject | MyCEGUI/cegui/CEGUIEventSet.cpp:115-134 | With auto-add, an absent name gets a new empty event, which is returned; a present name returns its event with the map unchanged. |
| EventSets.EventSet.SubscribeEvent | MyCEGUI/cegui/CEGUIEventSet.cpp:90-94 | `subscribeEvent(name, group, sub)` creates the event if absent, then subscribes to it. Afterwards `name` is present, no other event changes, and the slots of `name` are as `Event::subscribe` leaves them. |
| EventSets.EventSet.SubscribeEventDefault | MyCEGUI/cegui/CEGUIEventSet.cpp:84-88 | The same with the default group: the slot goes last. |
| EventSets.EventSet.FireEventImpl | MyCEGUI/cegui/CEGUIEventSet.cpp:137-145 | `fireEvent_impl` dispatches exactly when the event exists and the set is not muted; otherwise nothing is invoked and `args` is unchanged. In both cases the result is the subscribers `Reached(name)` held before the call. |
| EventSets.EventSet.FireEvent | MyCEGUI/cegui/CEGUIEventSet.cpp:96-102 | `fireEvent` first runs the global set's subscribers of `ns + "/" + name`, then the local ones. `handled` counts both, so muting this set suppresses only the local step. |
| EventSets.EventSet.SetMutedState | MyCEGUI/cegui/CEGUIEventSet.cpp:110-113 | `setMutedState(b)` makes `isMuted()` return `b` and leaves the events alone. |
| EventSets.EventSet.IsMuted | MyCEGUI/cegui/CEGUIEventSet.cpp:104-107 | A muted set reaches no subscriber of any name when fired. |
| EventSets.GlobalEventSet.constructor | MyCEGUI/cegui/CEGUIGlobalEventSet.h:18 | A new global set has no events and is not muted. |
| EventSets.GlobalEventSet.FireEvent | MyCEGUI/cegui/CEGUIGlobalEventSet.cpp:54-57 | Global firing runs exactly the subscribers of the key `ns + "/" + name` through `fireEvent_impl`. It creates no event, does not re-forward, and does nothing while the global set is muted. |
| EventSets.SeparatorIndexOfGlobal | MyCEGUI/cegui/CEGUIGlobalEventSet.cpp:56 | In a global key whose namespace has no '/', the first '/' is right after the namespace. |
| EventSets.GlobalNameInjective | MyCEGUI/cegui/CEGUIGlobalEventSet.cpp:56 | Two global keys with '/'-free namespaces are equal only for the same namespace and name, so namespaces never collide. |
| EventSets.LateBinding | MyCEGUI/cegui/CEGUIGlobalEventSet.h:10-14 | A global subscription to the key `"Win/Clk"` made before anything is fired is invoked by a later `EventSet.FireEvent` of `"Clk"` in namespace `"Win"` on a local set that has no event `"Clk"`, and `handled` becomes 1. |
| Properties.Set | MyCEGUI/cegui/CEGUIProperty.h:32-34 | `set(receiver, value)` gives the receiver a value for this property's name and no other new name. |
| Properties.GetAfterSet | MyCEGUI/cegui/CEGUIProperty.h:32-34 | `get` after `set` returns the value set, and the other properties' values do not move. |
| Properties.IsDefaultAfterSet | MyCEGUI/cegui/CEGUIProperty.cpp:10-13 | `isDefault` compares `get` with the default string: a receiver with no value is at the default, and after `set` it is at the default exactly when the value set is the default. |
| Properties.GetDefault | MyCEGUI/cegui/CEGUIProperty.cpp:18-21 | `getDefault` returns the stored default whatever the receiver: it is the value `isDefault` compares `get` against, and the value a receiver holding nothing for the property reads. |
| Properties.Get | MyCEGUI/cegui/CEGUIProperty.h:32 | `get(receiver)` is the value the receiver holds for this property when it holds one. It is always either the default or one of the values the receiver holds. |
| Properties.IsDefault | MyCEGUI/cegui/CEGUIProperty.cpp:10-13 | A receiver holding nothing for the property is at its default; a receiver that is not at its default holds a value for it that differs from the default. |
| Properties.XmlSerializer.constructor | MyCEGUI/cegui/CEGUIXMLSerializer.h:79-106 | A new serializer has an empty trace. |
| Properties.XmlSerializer.OpenTag | MyCEGUI/cegui/CEGUIXMLSerializer.h:79 | `openTag` appends one step. |
| Properties.XmlSerializer.Attribute | MyCEGUI/cegui/CEGUIXMLSerializer.h:97 | `attribute` appends one step. |
| Properties.XmlSerializer.Text | MyCEGUI/cegui/CEGUIXMLSerializer.h:106 | `text` appends one step. |
| Properties.XmlSerializer.CloseTag | MyCEGUI/cegui/CEGUIXMLSerializer.h:86 | `closeTag` appends one step. |
| Properties.WriteXMLToStream | MyCEGUI/cegui/CEGUIProperty.cpp:23-42 | `writeXMLToStream` appends exactly `Emission(p, get(receiver))` to the trace. |
| Properties.EmissionIsOneElement | MyCEGUI/cegui/CEGUIProperty.cpp:23-42 | With `d_writeXML` false nothing is emitted. Otherwise the steps are `openTag("Property")`, `attribute("Name", name)`, then `text(value)` exactly when the value holds '\n' and `attribute("Value", value)` exactly when it does not, then `closeTag`. That is one balanced element with a single open tag. |
| Properties.NestedAppend | MyCEGUI/cegui/CEGUIProperty.cpp:27-40 | Balanced pieces written one after another stay balanced, so properties written in turn form a well-nested document. |
| Properties.DepthAppend | MyCEGUI/cegui/CEGUIProperty.cpp:27-40 | Tag depth adds up over concatenated traces. |
| PropertySets.LookupFinds | MyCEGUI/cegui/CEGUIPropertySet.cpp:50-53 | Lookup finds a property exactly when its name is registered, and the property found carries that name. |
| PropertySets.LookupUnique | MyCEGUI/cegui/CEGUIPropertySet.h:36-37 | In an ordered registry names are unique, so the property stored under a name is the one lookup returns. |
| PropertySets.InsertSpec | MyCEGUI/cegui/CEGUIPropertySet.cpp:11-24 | Inserting a new name keeps the registry in FastLess order, adds exactly one entry, keeps every other entry, and adds exactly that name. |
| PropertySets.InsertLookup | MyCEGUI/cegui/CEGUIPropertySet.cpp:11-24 | After the insertion the new name finds the new property, and every other name finds what it found before. |
| PropertySets.RemoveKeeps | MyCEGUI/cegui/CEGUIPropertySet.cpp:29-37 | Removal keeps exactly the entries with other names, and drops exactly that name. |
| PropertySets.RemoveOrdered | MyCEGUI/cegui/CEGUIPropertySet.cpp:29-37 | Removal keeps the registry in FastLess order. |
| PropertySets.RemoveLookup | MyCEGUI/cegui/CEGUIPropertySet.cpp:29-37 | After removal the name is unknown, and other names find what they found before. |
| PropertySets.RemoveAbsent | MyCEGUI/cegui/CEGUIPropertySet.cpp:32-36 | Removing an unregistered name changes nothing. |
| PropertySets.PropertySet.constructor | MyCEGUI/cegui/CEGUIPropertySet.h:36-37 | A new set has an empty registry. |
| PropertySets.PropertySet.AddProperty | MyCEGUI/cegui/CEGUIPropertySet.cpp:11-24 | `addProperty(null)` fails with `NullObject`, and a registered name fails with `AlreadyExists`; both leave the registry alone. Otherwise the registry gains exactly that name, which then finds the new property, and no other name changes. |
| PropertySets.PropertySet.RemoveProperty | MyCEGUI/cegui/CEGUIPropertySet.cpp:29-37 | `removeProperty(name)` drops exactly `name`, a no-op when it is absent. |
| PropertySets.PropertySet.ClearProperties | MyCEGUI/cegui/CEGUIPropertySet.cpp:42-45 | `clearProperties()` empties the registry. |
| PropertySets.PropertySet.GetPropertyHelp | MyCEGUI/cegui/CEGUIPropertySet.cpp:58-68 | It succeeds exactly when the name is registered, and then gives that property's help; otherwise it fails with `UnknownObject`. |
| PropertySets.PropertySet.IsPropertyPresent | MyCEGUI/cegui/CEGUIPropertySet.cpp:50-53 | `isPropertyPresent(name)` holds exactly when `name` is among the registered names. |
| PropertySets.PropertySet.GetProperty | MyCEGUI/cegui/CEGUIPropertySet.cpp:73-84 | It succeeds exactly when the name is registered, and then gives the property's `get` on this receiver; otherwise it fails with `UnknownObject`. |
| PropertySets.PropertySet.SetProperty | MyCEGUI/cegui/CEGUIPropertySet.cpp:89-99 | An unregistered name fails with `UnknownObject` and changes nothing. Otherwise the receiver now holds the value, and `getProperty` returns it. The registry never changes. |
| PropertySets.PropertySet.IsPropertyDefault | MyCEGUI/cegui/CEGUIPropertySet.cpp:115-125 | It succeeds exactly when the name is registered, and then tells whether `get` equals the default; otherwise it fails with `UnknownObject`. |
| PropertySets.PropertySet.GetPropertyDefault | MyCEGUI/cegui/CEGUIPropertySet.cpp:131-141 | It succeeds exactly when the name is registered, and then gives the stored default; otherwise it fails with `UnknownObject`. |
| PropertySets.PropertySet.GetIterator | MyCEGUI/cegui/CEGUIPropertySet.cpp:106-109 | `getIterator()` is a new iterator at the start of all the entries. Their keys are strictly increasing in `FastLessCompare` order and are exactly the registered names. |
| PropertySets.SetThenQuery | MyCEGUI/cegui/CEGUIPropertySet.cpp:89-125 | After `setProperty("Alpha", "1")`, `getProperty` gives "1", `isPropertyDefault` gives false, and an unregistered name fails with `UnknownObject`. |
| Iterators.ConstBaseIterator.constructor | MyCEGUI/cegui/CEGUIIteratorBase.h:28-33 | A new iterator is positioned at the start of its range. |
| Iterators.ConstBaseIterator.Copy | MyCEGUI/cegui/CEGUIIteratorBase.h:49-54 | A copy has the same range and position. |
| Iterators.ConstBaseIterator.Assign | MyCEGUI/cegui/CEGUIIteratorBase.h:61-68 | `operator=` takes over the range and the position. |
| Iterators.ConstBaseIterator.CurrentKey | MyCEGUI/cegui/CEGUIIteratorBase.h:75-78 | `getCurrentKey()` is the key of the entry at the current position. |
| Iterators.ConstBaseIterator.CurrentValue | MyCEGUI/cegui/CEGUIIteratorBase.h:85-88 | `getCurrentValue()` and `operator*` give the mapped value of that entry. |
| Iterators.ConstBaseIterator.Increment | MyCEGUI/cegui/CEGUIIteratorBase.h:118-124 | `++` advances one position unless at the end, where it does nothing, and keeps `start <= curr <= end`. |
| Iterators.ConstBaseIterator.PostIncrement | MyCEGUI/cegui/CEGUIIteratorBase.h:134-140 | Postfix `++` returns a new iterator at the prior position and moves like `++`. |
| Iterators.ConstBaseIterator.Decrement | MyCEGUI/cegui/CEGUIIteratorBase.h:150-156 | `--` retreats one position unless at the start, where it does nothing, and keeps `start <= curr <= end`. |
| Iterators.ConstBaseIterator.PostDecrement | MyCEGUI/cegui/CEGUIIteratorBase.h:166-172 | Postfix `--` returns a new iterator at the prior position and moves like `--`. |
| Iterators.ConstBaseIterator.ToStart | MyCEGUI/cegui/CEGUIIteratorBase.h:209-212 | `toStart()` puts the iterator at the start (`isAtStart()`), keeping the range. |
| Iterators.ConstBaseIterator.ToEnd | MyCEGUI/cegui/CEGUIIteratorBase.h:219-222 | `toEnd()` puts the iterator at the end (`isAtEnd()`), keeping the range. |
| Iterators.ConstBaseIterator.IsAtEnd | MyCEGUI/cegui/CEGUIIteratorBase.h:95-98 | Inside a valid range, an iterator that is not at the end has a current entry to read. |
| Iterators.ConstBaseIterator.IsAtStart | MyCEGUI/cegui/CEGUIIteratorBase.h:105-108 | Inside a valid range, an iterator that is not at the start has an entry before it. |
| Iterators.ConstBaseIterator.Equals | MyCEGUI/cegui/CEGUIIteratorBase.h:179-182 | `==` holds exactly when the current positions agree. An iterator equals itself, and two iterators at the start of ranges that begin at the same position are equal. |
| Iterators.ConstBaseIterator.NotEquals | MyCEGUI/cegui/CEGUIIteratorBase.h:189-192 | `!=` is the negation of `==` taken the other way round, so the comparison is symmetric, and no iterator differs from itself. |
| Iterators.DecrementUndoesIncrement | MyCEGUI/cegui/CEGUIIteratorBase.h:118-156 | From inside the range, `++` then `--` returns to the same position, which stays inside the range. |
| Iterators.IncrementUndoesDecrement | MyCEGUI/cegui/CEGUIIteratorBase.h:118-156 | From past the start, `--` then `++` returns to the same position. |
| Iterators.IncrementedTimesClamps | MyCEGUI/cegui/CEGUIIteratorBase.h:118-124 | `n` applications of `++` reach `min(curr + n, end)`: the iterator never passes the end. |
| Iterators.EqualityIsPositionOnly | MyCEGUI/cegui/CEGUIIteratorBase.h:179-192 | `==` compares positions only: two iterators at position 0 of ranges with different ends are equal, and after one `++` they are not. |

## Left out

- Memory management is not modelled: the `String` destructor, `delete[]` and allocation failure. Heap buffers are fresh arrays.
- `String` with an argument string aliased to itself (`s.append(s)`, `s.insert(0, s)`) is excluded: the String-argument methods require disjoint footprints. Only `compare` allows the same string on both sides.
- The other `String` constructors are not members of their own. Each is `init()` followed by the `assign` form with the same arguments, which is modelled.
- The overloads that only supply default arguments or forward to another overload are not separate members: `erase()`, `erase(idx)`, `resize(num)`, `operator=`, `operator+=`, and `append`/`insert`/`assign` without a length. Their targets are modelled.
- `data()`, `c_str()` and `ptr()` as raw pointers are not modelled; `Ptr()` and `BuildUtf8Buff` stand for them.
- String iterators, `begin`/`end`/`rbegin`/`rend` and `safe_iter_dif` are not modelled: positions are indices, and `ReplaceRange` takes them.
- `operator<<` and stream output are not modelled.
- Code points at or above 2^31 are outside the meaning lemmas (`Text.CompareIsLex`, `StringOps.TestCompare`), because `utf32_comp_*` subtract unsigned values into `int`. The wrap itself is modelled exactly (`Text.Diff32`).
- Malformed UTF-8 is excluded: the decoder reads continuation bytes without bounds checks, so the UTF-8 forms require a whole number of characters (`Complete`).
- Strings.String.Grow: the `length_error` that `grow` constructs but never throws (CEGUIString.cpp:27-28) is faithfully no error at all. Callers therefore require their results to stay below `npos`.
- Strings.String.Erase: requires `len` to be `npos` or to stay inside the string, because `erase` does not clamp it and would read past the end.
- Strings.String.Replace: requires the 32-bit sums `idx + len` not to wrap, because a wrapped sum escapes the clamp and the source reads outside the string. The same holds for the other `Replace*` and `CompareRange*` methods.
- StringOps.Concat: the `operator+` forms require the result to stay below `npos`, the limit the underlying `append` relies on.
- Subscribers are opaque functor ids. What each returns is a parameter `outcome`, so the slot adapter types (free function, member function, functor reference) are not part of this model.
- The `BoundSlot` and `SubscriberSlot` bodies (CEGUIBoundSlot.cpp, CEGUISubscriberSlot.cpp) are not part of this model.
  - `BoundSlot::disconnect` is taken to be `Event::unsubscribe` followed by clearing the back-reference and cleaning up the subscriber.
  - `BoundSlot::operator==` is taken to compare subscribers, as its header says.
- In the container, a slot's `Connection` copy is not modelled. An `Event` holds its bound slots directly, so the copy's share of the reference count is not represented.
- Events.Event.Fire: the outcome function stands for the subscriber calls, so a subscriber that reenters the event or throws is not modelled.
- `subscribeScriptedEvent` is not modelled: it needs the System singleton and a scripting module.
- `EventSet::getIterator` and the `EventSet` destructor are not separate members. The destructor is `removeAllEvents()`, which is modelled. The event map's `FastLessCompare` order is modelled only for the property registry.
- The `GlobalEventSet` singleton is passed explicitly to `EventSet.FireEvent`. Composition (`base`) stands for the `EventSet` base class.
- `Property::get` and `Property::set` are pure virtual, and each concrete property converts the value differently. The model uses a receiver table with the default as fallback. Subclass conversions and the `InvalidRequestException` of read-only properties are not modelled.
- The XML serializer is a trace of calls. Entity escaping, indentation, the output stream and its error flag are not modelled.
- A `PropertySet` is its own receiver, as in the source. The receiver table stands for the properties' state in the `PropertyReceiver` base.
- The iterator holds a copy of the entries, so invalidation by a later change to the collection is not modelled.
- The pointer argument of `addProperty` is an `Option`, with `None` for null.
- Strings.String.BuildUtf8Buff: the round-trip clause holds only for code points below 2^21, which the encoder's four-byte form can carry.

## Findings

| source | as written | input that shows it | evidently intended | confidence | as-written member | corrected member |
|---|---|---|---|---|---|---|
| MyCEGUI/cegui/CEGUIString.h:787-788 | `append(std_str, str_idx, str_num)` copies the clamped count from `std_str[0]`, ignoring `str_idx` | `String s; s.append(std::string("ab"), 1, 1)` gives "a" | the sub-string from `str_idx` is appended, giving "b" | not executed | Strings.String.AppendStdAsWritten, Strings.AppendStdWitness | Strings.String.AppendStd |
| MyCEGUI/cegui/CEGUIString.h:733 | `swap` exchanges the quick buffers only when this string is in its own quick buffer | an empty string grown to a heap buffer, swapped with the quick-buffer string "y": it now has length 1 but reads its own old quick buffer, whose first code point is 0 | both strings exchange contents whatever buffers they use | not executed | Strings.String.SwapAsWritten, Strings.SwapWitness | Strings.String.Swap |
| MyCEGUI/cegui/CEGUIString.h:1777-1781 | the `find_first_not_of(code_point, idx)` loop runs to `i <= d_cplength`, so it examines the 0 terminator | `String("aa").find_first_not_of('a')` returns 2 | `npos` when every code point from `idx` equals `code_point` | not executed | Strings.String.FindFirstNotOfCpAsWritten, Strings.FindFirstNotOfCpReadsTerminator | Strings.String.FindFirstNotOfCp |
| MyCEGUI/cegui/CEGUIString.cpp:174-177 | with a `std::string`, UTF-8 or char string on the left, `<` tests `compare >= 0` and `>` tests `compare <= 0`, and so on (also 184-187, 292-295) | `std::string("a") < String("a")` is true | the converse operator: `x < s` is `s.compare(x) > 0` | not executed | StringOps.RelateStdLeftAsWritten, StringOps.ReversedLessWitness | StringOps.RelateStdLeft |
| MyCEGUI/cegui/CEGUIString.h:573-576 | `copy(buf, len, idx)` sets `len = d_cplength` for `npos` ignoring `idx`, and treats `len == 0` as "up to the terminator" | `String("ab").copy(buf, npos, 1)` encodes 'b' and the terminator; `String("ab").copy(buf, 0)` encodes both characters | `npos` copies from `idx` to the end; `len == 0` copies nothing | not executed | Strings.String.CopyAsWritten, Strings.CopyWitness | Strings.String.Copy |
