/**
 * The console demo of Win32Test/main.cpp as a client of the MString model:
 * each step's result follows from the contracts alone. Each method starts
 * from a literal holding the string the previous step ends with, so the
 * steps are checked one at a time rather than as one chain.
 */
module Win32Test {
  import opened CStrings
  import opened MStrings

  /** A string literal: its characters followed by the terminator the compiler adds. */
  method Literal(s: seq<char>) returns (p: seq<char>)
    requires NulFree(s)
    ensures Terminated(p) && Text(p) == s && StrLen(p) == |s|
  {
    p := s + [NUL];
    TextOfTerminated(s, []);
    assert s + [NUL] + [] == p;
  }

  /** InsertAt followed by RemoveAt of the same run gives back the original text and count. */
  method InsertThenRemove(s: MString, idx: nat, p: seq<char>)
    requires s.Valid() && Terminated(p)
    modifies s
    ensures s.Valid() && s.Contents() == old(s.Contents()) && s.count == old(s.count)
  {
    ghost var s0 := s.Contents();
    s.InsertAtCStr(idx, p);
    s.RemoveAt(idx, StrLen(p));
    if idx <= |s0| {
      InsertRemoveRoundTrip(s0, idx, Text(p));
    }
  }

  /** main.cpp lines 9-11: a copy of "Test", then Append("2"). */
  method DemoAppendCStr()
  {
    var lit1 := Literal("Test");
    var test := new MString.FromCStr(lit1);
    var test2 := new MString.Copy(test);
    var lit2 := Literal("2");
    test2.AppendCStr(lit2);
    assert test2.Contents() == "Test2";
  }

  /** main.cpp line 12: the bounded constructor over the buffer of "Test2". */
  method DemoBounded()
  {
    var lit3 := Literal("Test2");
    var test2 := new MString.FromCStr(lit3);
    var test3 := new MString.FromCStrBounded(test2.Str(), 4);
    assert test3.Contents() == "Test";
  }

  /** main.cpp line 13: Append of an MString. */
  method DemoAppend()
  {
    var lit4 := Literal("Test");
    var test := new MString.FromCStr(lit4);
    var lit5 := Literal("Test2");
    var test2 := new MString.FromCStr(lit5);
    test2.Append(test);
    assert test2.Contents() == "Test2Test";
  }

  /** main.cpp lines 15-17: a copy of test2, then += "Try". */
  method DemoAddAssign()
  {
    var lit6 := Literal("Test2Test");
    var test2 := new MString.FromCStr(lit6);
    var test4 := new MString.Copy(test2);
    var lit7 := Literal("Try");
    test4.AddAssignCStr(lit7);
    assert test4.Contents() == "Test2TestTry";
  }

  /** main.cpp lines 18-19: == against a C string. */
  method DemoEquals()
  {
    var lit8 := Literal("Test2Test");
    var test2 := new MString.FromCStr(lit8);
    var lit9 := Literal("Test2TestTry");
    var res := test2.EqualsCStr(lit9);
    assert !res;
  }

  /** main.cpp line 21 on test4 == "Test2TestTry": indexing. */
  method DemoIndex()
  {
    var lit10 := Literal("Test2TestTry");
    var test4 := new MString.FromCStr(lit10);
    assert test4.At(3) == 't';
  }

  /** main.cpp line 22: Contains(MString("Try")). */
  method DemoContains()
  {
    var lit11 := Literal("Test2TestTry");
    var test4 := new MString.FromCStr(lit11);
    var lit12 := Literal("Try");
    var tryStr := new MString.FromCStr(lit12);
    assert OccursAt(test4.Contents(), tryStr.Contents(), 9);
    assert test4.Contains(tryStr);
  }

  /** main.cpp lines 23-24: Empty, then Count. */
  method DemoEmpty()
  {
    var lit13 := Literal("Test2TestTry");
    var test4 := new MString.FromCStr(lit13);
    test4.Empty();
    assert test4.Count() == 0;
  }

  lemma LowerDemo()
    ensures Lower("Test2TestTry") == "test2testtry"
  {
  }

  lemma UpperDemo()
    ensures Upper("Test2TestTry") == "TEST2TESTTRY"
  {
  }

  /** main.cpp lines 25-26: ToLower. */
  method DemoToLower()
  {
    var lit14 := Literal("Test2TestTry");
    var finalStr := new MString.FromCStr(lit14);
    var lower := finalStr.ToLower();
    LowerDemo();
    assert lower.Contents() == "test2testtry";
  }

  /** main.cpp line 27: ToUpper. */
  method DemoToUpper()
  {
    var lit15 := Literal("Test2TestTry");
    var finalStr := new MString.FromCStr(lit15);
    var upper := finalStr.ToUpper();
    UpperDemo();
    assert upper.Contents() == "TEST2TESTTRY";
  }

  /** main.cpp line 29: InsertAt(1, "ry"). */
  method DemoInsertCStr()
  {
    var lit16 := Literal("Test2TestTry");
    var finalStr := new MString.FromCStr(lit16);
    ghost var before := finalStr.Contents();
    assert before[..1] == "T" && before[1..] == "est2TestTry";
    var lit17 := Literal("ry");
    finalStr.InsertAtCStr(1, lit17);
    assert finalStr.Contents() == "T" + "ry" + "est2TestTry";
  }

  /** main.cpp lines 30-31: RemoveAt(1, 2) on a copy of "Tryest2TestTry". */
  method DemoRemove()
  {
    var lit18 := Literal("Tryest2TestTry");
    var finalStr := new MString.FromCStr(lit18);
    var finalCopy := new MString.Copy(finalStr);
    ghost var before := finalCopy.Contents();
    assert before[..1] == "T" && before[3..] == "est2TestTry";
    finalCopy.RemoveAt(1, 2);
    assert finalCopy.Contents() == "T" + "est2TestTry";
  }

  /** main.cpp line 33 on finalStr == "Tryest2TestTry": InsertAt of an MString. */
  method DemoInsertMString()
  {
    var lit19 := Literal("Tryest2TestTry");
    var finalStr := new MString.FromCStr(lit19);
    var lit20 := Literal("Margoulin");
    var margoulin := new MString.FromCStr(lit20);
    ghost var before := finalStr.Contents();
    assert before[..5] == "Tryes" && before[5..] == "t2TestTry";
    finalStr.InsertAt(5, margoulin);
    assert finalStr.Contents() == "Tryes" + "Margoulin" + "t2TestTry";
  }
}
