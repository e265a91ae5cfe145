// The free functions of CEGUIString.cpp: the relational operators, which
// test the result of compare against 0, the concatenation operators, which
// append to a fresh copy, and the free swap.

module StringOps {
  import opened Utf
  import opened Text
  import opened Errors
  import opened Buffers
  import opened Strings

  /** ==, !=, <, >, <= and >=. */
  datatype Relation = Eq | Ne | Lt | Gt | Le | Ge

  /** The test an operator applies to the value compare returned. */
  function Test(rel: Relation, c: int): bool
  {
    match rel
    case Eq => c == 0
    case Ne => c != 0
    case Lt => c < 0
    case Gt => c > 0
    case Le => c <= 0
    case Ge => c >= 0
  }

  /** What `a <op> b` is meant to say about two sequences of code points:
      equality, or a position in lexicographic order. */
  function Intended(rel: Relation, a: seq<utf32>, b: seq<utf32>): bool
  {
    match rel
    case Eq => a == b
    case Ne => a != b
    case Lt => LexCompare(a, b) < 0
    case Gt => LexCompare(a, b) > 0
    case Le => LexCompare(a, b) <= 0
    case Ge => LexCompare(a, b) >= 0
  }

  /** The operator to apply to str.compare(x) when `x` stands on the left:
      `x < str` is `str > x`, and so on. */
  function Converse(rel: Relation): Relation
  {
    match rel
    case Eq => Eq
    case Ne => Ne
    case Lt => Gt
    case Gt => Lt
    case Le => Ge
    case Ge => Le
  }

  /** The operator the source applies to str.compare(x) when a std::string,
      utf8 or char string `x` stands on the left: `<` tests `>= 0` and `>`
      tests `<= 0`. */
  function ReversedAsWritten(rel: Relation): Relation
  {
    match rel
    case Eq => Eq
    case Ne => Ne
    case Lt => Ge
    case Gt => Le
    case Le => Ge
    case Ge => Le
  }

  /** For code points below 2^31, an operator tested on compare means what
      it is meant to mean. */
  lemma TestCompare(rel: Relation, a: seq<utf32>, b: seq<utf32>)
    requires Below31(a) && Below31(b)
    ensures Test(rel, Compare(a, b)) == Intended(rel, a, b)
  {
    CompareZero(a, b);
    CompareIsLex(a, b);
  }

  /** The converse operator on the swapped compare gives the meaning of the
      operator with its operands in their written order. */
  lemma TestConverse(rel: Relation, x: seq<utf32>, s: seq<utf32>)
    requires Below31(x) && Below31(s)
    ensures Test(Converse(rel), Compare(s, x)) == Intended(rel, x, s)
  {
    CompareZero(s, x);
    CompareIsLex(s, x);
    LexCompareAntisymmetric(x, s);
  }

  /** The reversed operators as written agree with the intended ones except
      for `<` and `>` on equal strings, where they answer true. */
  lemma TestReversedAsWritten(rel: Relation, x: seq<utf32>, s: seq<utf32>)
    requires Below31(x) && Below31(s)
    ensures Test(ReversedAsWritten(rel), Compare(s, x)) ==
              (Intended(rel, x, s) || ((rel == Lt || rel == Gt) && x == s))
  {
    TestConverse(rel, x, s);
    CompareZero(s, x);
  }

  /** "a" < "a" with the narrow string on the left is true as written. */
  lemma ReversedLessOfEqual(x: seq<utf32>)
    requires Below31(x)
    ensures Test(ReversedAsWritten(Lt), Compare(x, x))
    ensures !Intended(Lt, x, x)
  {
    TestReversedAsWritten(Lt, x, x);
    TestConverse(Lt, x, x);
  }

  /** operator==, !=, <, >, <=, >= (String, String). */
  method Relate(rel: Relation, a: String, b: String) returns (r: bool)
    requires a.Valid() && b.Valid()
    ensures r == Test(rel, Compare(a.Contents(), b.Contents()))
  {
    var c := a.CompareWith(b);
    r := Test(rel, c);
  }

  /** The operators with a std::string on the right. */
  method RelateStd(rel: Relation, s: String, stdStr: seq<utf8>) returns (r: bool)
    requires s.Valid() && |stdStr| < NPOS
    ensures r == Test(rel, Compare(s.Contents(), Widen(stdStr)))
  {
    var c := s.CompareWithStd(stdStr);
    r := Test(rel, c);
  }

  /** The operators with a null-terminated utf8 string on the right. */
  method RelateUtf8(rel: Relation, s: String, bytes: seq<utf8>) returns (r: bool)
    requires s.Valid() && 0 in bytes && |bytes| < NPOS
    requires Complete(bytes[..ZeroIndex(bytes, 0)])
    ensures r == Test(rel, Compare(s.Contents(), Decode(bytes[..ZeroIndex(bytes, 0)])))
  {
    var c := s.CompareWithUtf8(bytes);
    r := Test(rel, c);
  }

  /** The operators with a null-terminated char string on the right. */
  method RelateChars(rel: Relation, s: String, cstr: seq<utf8>) returns (r: bool)
    requires s.Valid() && 0 in cstr && |cstr| < NPOS
    ensures r == Test(rel, Compare(s.Contents(), Widen(cstr[..ZeroIndex(cstr, 0)])))
  {
    var c := s.CompareWithChars(cstr);
    r := Test(rel, c);
  }

  /** The operators with a std::string on the left, as written. */
  method RelateStdLeftAsWritten(rel: Relation, stdStr: seq<utf8>, s: String) returns (r: bool)
    requires s.Valid() && |stdStr| < NPOS
    ensures r == Test(ReversedAsWritten(rel), Compare(s.Contents(), Widen(stdStr)))
  {
    var c := s.CompareWithStd(stdStr);
    r := Test(ReversedAsWritten(rel), c);
  }

  /** The operators with a std::string on the left, as evidently intended:
      the converse operator on str.compare(std_str). */
  method RelateStdLeft(rel: Relation, stdStr: seq<utf8>, s: String) returns (r: bool)
    requires s.Valid() && |stdStr| < NPOS
    ensures r == Test(Converse(rel), Compare(s.Contents(), Widen(stdStr)))
  {
    var c := s.CompareWithStd(stdStr);
    r := Test(Converse(rel), c);
  }

  /** The operators with a utf8 string on the left, as written. */
  method RelateUtf8LeftAsWritten(rel: Relation, bytes: seq<utf8>, s: String) returns (r: bool)
    requires s.Valid() && 0 in bytes && |bytes| < NPOS
    requires Complete(bytes[..ZeroIndex(bytes, 0)])
    ensures r == Test(ReversedAsWritten(rel), Compare(s.Contents(), Decode(bytes[..ZeroIndex(bytes, 0)])))
  {
    var c := s.CompareWithUtf8(bytes);
    r := Test(ReversedAsWritten(rel), c);
  }

  /** The operators with a utf8 string on the left, as evidently intended. */
  method RelateUtf8Left(rel: Relation, bytes: seq<utf8>, s: String) returns (r: bool)
    requires s.Valid() && 0 in bytes && |bytes| < NPOS
    requires Complete(bytes[..ZeroIndex(bytes, 0)])
    ensures r == Test(Converse(rel), Compare(s.Contents(), Decode(bytes[..ZeroIndex(bytes, 0)])))
  {
    var c := s.CompareWithUtf8(bytes);
    r := Test(Converse(rel), c);
  }

  /** The operators with a char string on the left, as written. */
  method RelateCharsLeftAsWritten(rel: Relation, cstr: seq<utf8>, s: String) returns (r: bool)
    requires s.Valid() && 0 in cstr && |cstr| < NPOS
    ensures r == Test(ReversedAsWritten(rel), Compare(s.Contents(), Widen(cstr[..ZeroIndex(cstr, 0)])))
  {
    var c := s.CompareWithChars(cstr);
    r := Test(ReversedAsWritten(rel), c);
  }

  /** The operators with a char string on the left, as evidently intended. */
  method RelateCharsLeft(rel: Relation, cstr: seq<utf8>, s: String) returns (r: bool)
    requires s.Valid() && 0 in cstr && |cstr| < NPOS
    ensures r == Test(Converse(rel), Compare(s.Contents(), Widen(cstr[..ZeroIndex(cstr, 0)])))
  {
    var c := s.CompareWithChars(cstr);
    r := Test(Converse(rel), c);
  }

  /** operator<(std_str, str) as written holds for equal strings: "a" < "a". */
  method ReversedLessWitness() returns (asWritten: bool, intended: bool)
    ensures asWritten && !intended
  {
    var s := new String();
    s.AssignChars([0x61], 1);
    asWritten := RelateStdLeftAsWritten(Lt, [0x61], s);
    intended := RelateStdLeft(Lt, [0x61], s);
    assert Widen([0x61]) == [0x61] == s.Contents();
    CompareZero([0x61], [0x61]);
  }

  // ---------------------------------------------------------------------
  // Concatenation: a fresh copy of the left operand, then append
  // ---------------------------------------------------------------------

  /** operator+(str1, str2). */
  method Concat(a: String, b: String) returns (t: String)
    requires a.Valid() && b.Valid() && a.Length() + b.Length() < NPOS
    ensures t.Valid() && fresh(t.Repr)
    ensures t.Contents() == a.Contents() + b.Contents()
    ensures t.Length() == a.Length() + b.Length()
  {
    t := new String();
    var _ := t.Assign(a, 0, NPOS);
    var _ := t.Append(b, 0, NPOS);
  }

  /** operator+(str, std_str). */
  method ConcatStd(a: String, stdStr: seq<utf8>) returns (t: String)
    requires a.Valid() && a.Length() + |stdStr| < NPOS
    ensures t.Valid() && fresh(t.Repr)
    ensures t.Contents() == a.Contents() + Widen(stdStr)
  {
    t := new String();
    var _ := t.Assign(a, 0, NPOS);
    var _ := t.AppendStd(stdStr, 0, NPOS);
    assert stdStr[0..|stdStr|] == stdStr;
  }

  /** operator+(std_str, str). */
  method ConcatStdLeft(stdStr: seq<utf8>, b: String) returns (t: String)
    requires b.Valid() && |stdStr| + b.Length() < NPOS
    ensures t.Valid() && fresh(t.Repr)
    ensures t.Contents() == Widen(stdStr) + b.Contents()
  {
    t := new String();
    var _ := t.AssignStd(stdStr, 0, NPOS);
    assert stdStr[0..|stdStr|] == stdStr;
    var _ := t.Append(b, 0, NPOS);
  }

  /** operator+(str, utf8_str): the bytes before the terminator. */
  method ConcatUtf8(a: String, bytes: seq<utf8>) returns (t: String)
    requires a.Valid() && 0 in bytes && |bytes| < NPOS && Complete(bytes[..ZeroIndex(bytes, 0)])
    requires a.Length() + |Decode(bytes[..ZeroIndex(bytes, 0)])| < NPOS
    ensures t.Valid() && fresh(t.Repr)
    ensures t.Contents() == a.Contents() + Decode(bytes[..ZeroIndex(bytes, 0)])
  {
    t := new String();
    var _ := t.Assign(a, 0, NPOS);
    var z := Utf8Length(bytes);
    var _ := t.AppendUtf8(bytes, z);
  }

  /** operator+(utf8_str, str). */
  method ConcatUtf8Left(bytes: seq<utf8>, b: String) returns (t: String)
    requires b.Valid() && 0 in bytes && |bytes| < NPOS && Complete(bytes[..ZeroIndex(bytes, 0)])
    requires |Decode(bytes[..ZeroIndex(bytes, 0)])| + b.Length() < NPOS
    ensures t.Valid() && fresh(t.Repr)
    ensures t.Contents() == Decode(bytes[..ZeroIndex(bytes, 0)]) + b.Contents()
  {
    t := new String();
    var z := Utf8Length(bytes);
    var _ := t.AssignUtf8(bytes, z);
    var _ := t.Append(b, 0, NPOS);
  }

  /** operator+(str, code_point). */
  method ConcatCp(a: String, cp: utf32) returns (t: String)
    requires a.Valid() && a.Length() + 1 < NPOS
    ensures t.Valid() && fresh(t.Repr)
    ensures t.Contents() == a.Contents() + [cp]
  {
    t := new String();
    var _ := t.Assign(a, 0, NPOS);
    var _ := t.AppendRepeat(1, cp);
  }

  /** operator+(code_point, str). */
  method ConcatCpLeft(cp: utf32, b: String) returns (t: String)
    requires b.Valid() && 1 + b.Length() < NPOS
    ensures t.Valid() && fresh(t.Repr)
    ensures t.Contents() == [cp] + b.Contents()
  {
    t := new String();
    var _ := t.AssignRepeat(1, cp);
    var _ := t.Append(b, 0, NPOS);
  }

  /** operator+(str, c_str): the chars before the terminator. */
  method ConcatChars(a: String, cstr: seq<utf8>) returns (t: String)
    requires a.Valid() && 0 in cstr && a.Length() + ZeroIndex(cstr, 0) < NPOS
    ensures t.Valid() && fresh(t.Repr)
    ensures t.Contents() == a.Contents() + Widen(cstr[..ZeroIndex(cstr, 0)])
  {
    t := new String();
    var _ := t.Assign(a, 0, NPOS);
    var n := Utf8Length(cstr);
    var _ := t.AppendChars(cstr, n);
  }

  /** operator+(c_str, str). */
  method ConcatCharsLeft(cstr: seq<utf8>, b: String) returns (t: String)
    requires b.Valid() && 0 in cstr && ZeroIndex(cstr, 0) + b.Length() < NPOS
    ensures t.Valid() && fresh(t.Repr)
    ensures t.Contents() == Widen(cstr[..ZeroIndex(cstr, 0)]) + b.Contents()
  {
    t := new String();
    var n := Utf8Length(cstr);
    t.AssignChars(cstr, n);
    var _ := t.Append(b, 0, NPOS);
  }

  /** The free swap(str1, str2): str1.swap(str2). */
  method Swap(a: String, b: String)
    requires a.Valid() && b.Valid() && a.Repr !! b.Repr
    modifies a, b, a.quickbuff, b.quickbuff
    ensures a.Valid() && b.Valid() && a.Repr !! b.Repr
    ensures a.Contents() == old(b.Contents()) && b.Contents() == old(a.Contents())
  {
    a.Swap(b);
  }
}
