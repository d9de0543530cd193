/** The expected values of the library's unit tests, derived from the model. */
module ReferenceValues {
  import opened CsTypes
  import opened UnicodeTables
  import opened Sequences
  import opened Utf16
  import opened OneAtATime
  import opened Extensions

  /** "foo" */
  const Foo: seq<CodeUnit> := [0x66, 0x6F, 0x6F]

  /** "test" */
  const Test: seq<CodeUnit> := [0x74, 0x65, 0x73, 0x74]

  /** "Test" */
  const CapitalTest: seq<CodeUnit> := [0x54, 0x65, 0x73, 0x74]

  /** "43test abc" */
  const Digits43TestAbc: seq<CodeUnit> := [0x34, 0x33, 0x74, 0x65, 0x73, 0x74, 0x20, 0x61, 0x62, 0x63]

  /** "ú" */
  const SmallUAcute: seq<CodeUnit> := [0xFA]

  /** "Ú" */
  const CapitalUAcute: seq<CodeUnit> := [0xDA]

  /** "test abc" */
  const TestAbc: seq<CodeUnit> := [0x74, 0x65, 0x73, 0x74, 0x20, 0x61, 0x62, 0x63]

  /** "test foo" */
  const TestFoo: seq<CodeUnit> := [0x74, 0x65, 0x73, 0x74, 0x20, 0x66, 0x6F, 0x6F]

  /** "abc" */
  const Abc: seq<CodeUnit> := [0x61, 0x62, 0x63]

  /** "xyz" */
  const Xyz: seq<CodeUnit> := [0x78, 0x79, 0x7A]

  /** "43test" */
  const Digits43Test: seq<CodeUnit> := [0x34, 0x33, 0x74, 0x65, 0x73, 0x74]

  /** " abc" */
  const SpaceAbc: seq<CodeUnit> := [0x20, 0x61, 0x62, 0x63]

  /** "a0b1c2" */
  const A0B1C2: seq<CodeUnit> := [0x61, 0x30, 0x62, 0x31, 0x63, 0x32]

  /** "012" */
  const Digits012: seq<CodeUnit> := [0x30, 0x31, 0x32]

  /** "(51)3344-4303" */
  const Phone: seq<CodeUnit> := [0x28, 0x35, 0x31, 0x29, 0x33, 0x33, 0x34, 0x34, 0x2D, 0x34, 0x33, 0x30, 0x33]

  /** "5133444303" */
  const PhoneDigits: seq<CodeUnit> := [0x35, 0x31, 0x33, 0x33, 0x34, 0x34, 0x34, 0x33, 0x30, 0x33]

  /** "foo" holds no surrogate, so the encoder copies it unchanged. */
  lemma FooHasNoSurrogates()
    ensures ReplaceUnpairedSurrogates(Foo) == Foo
  {
    assert ReplaceUnpairedSurrogates([]) == [];
    assert ReplaceUnpairedSurrogates([0x6F]) == [0x6F];
    assert ReplaceUnpairedSurrogates([0x6F, 0x6F]) == [0x6F, 0x6F];
  }

  /** "foo" is the UTF-16 little-endian byte sequence 66 00 6F 00 6F 00, and hashes to 1628994470. */
  lemma HashOfFoo()
    ensures GetBytes(Foo) == [0x66, 0x00, 0x6F, 0x00, 0x6F, 0x00]
    ensures HashOf(Foo) == 1628994470
  {
    FooHasNoSurrogates();
    var bytes := GetBytes(Foo);
    assert bytes == [0x66, 0x00, 0x6F, 0x00, 0x6F, 0x00];
    // The accumulator after each byte.
    assert Step(0, 0x66) == 0x19e07;
    assert Step(0x19e07, 0x00) == 0x6605cef;
    assert Step(0x6605cef, 0x6F) == 0x85ca820b;
    assert Step(0x85ca820b, 0x00) == 0xad6de4b3;
    assert Step(0xad6de4b3, 0x6F) == 0x64966496;
    assert Step(0x64966496, 0x00) == 0xbcd01e64;
    assert Accumulate(0xbcd01e64, []) == 0xbcd01e64;
    assert Accumulate(0x64966496, [0x00]) == 0xbcd01e64;
    assert Accumulate(0xad6de4b3, [0x6F, 0x00]) == 0xbcd01e64;
    assert Accumulate(0x85ca820b, [0x00, 0x6F, 0x00]) == 0xbcd01e64;
    assert Accumulate(0x6605cef, [0x6F, 0x00, 0x6F, 0x00]) == 0xbcd01e64;
    assert Accumulate(0x19e07, [0x00, 0x6F, 0x00, 0x6F, 0x00]) == 0xbcd01e64;
    assert Accumulate(0, bytes) == 0xbcd01e64;
    assert Finalize(0xbcd01e64) == 0x61187ba6;
  }
  /** A lone high surrogate is encoded as U+FFFD, bytes FD FF, and "\uD800" hashes to 1837416090. */
  lemma HashOfLoneSurrogate()
    ensures GetBytes([0xD800]) == [0xFD, 0xFF]
    ensures HashOf([0xD800]) == 1837416090
  {
    assert ReplaceUnpairedSurrogates([0xD800]) == [ReplacementCharacter];
    var bytes := GetBytes([0xD800]);
    assert bytes == [0xFD, 0xFF];
    assert Step(0, 0xFD) == 0x3fb2e;
    assert Step(0x3fb2e, 0xFF) == 0xfcb62ed;
    assert Accumulate(0xfcb62ed, []) == 0xfcb62ed;
    assert Accumulate(0x3fb2e, [0xFF]) == 0xfcb62ed;
    assert Accumulate(0, bytes) == 0xfcb62ed;
    assert Finalize(0xfcb62ed) == 0x6d84be9a;
  }


  lemma CapitalizeFirstLetterExamples()
    ensures CapitalizeFirstLetter(None) == None
    ensures CapitalizeFirstLetter(Some([])) == Some([])
    ensures CapitalizeFirstLetter(Some(Test)) == Some(CapitalTest)
    ensures CapitalizeFirstLetter(Some(Digits43TestAbc)) == Some(Digits43TestAbc)
    ensures CapitalizeFirstLetter(Some(SmallUAcute)) == Some(CapitalUAcute)
  {
    assert [CapitalTest[0]] + Test[1..] == CapitalTest;
    assert [Digits43TestAbc[0]] + Digits43TestAbc[1..] == Digits43TestAbc;
    assert ToUpper(0xFA) == 0xDA;
    assert [CapitalUAcute[0]] + SmallUAcute[1..] == CapitalUAcute;
  }

  lemma ContainsExamples()
    ensures !Contains(None, Some([Some(Abc), Some(Foo), Some(Xyz)]))
    ensures !ReachesNullOption(TestFoo, [Some(Abc), Some(Foo), Some(Xyz)])
            && Contains(Some(TestFoo), Some([Some(Abc), Some(Foo), Some(Xyz)]))
  {
    assert OccursAt(Foo, TestFoo, 5);
    assert !ReachesNullOption(TestFoo, [Some(Abc), Some(Foo), Some(Xyz)]);
  }

  /** The first word of `s` is `s[i..j]`. */
  lemma FirstWordIs(s: seq<CodeUnit>, i: nat, j: nat)
    requires IsFirstWordAt(s, i, j)
    ensures GetFirstWord(Some(s)) == Some(s[i..j])
  {
    var i': nat, j': nat :| IsFirstWordAt(s, i', j') && GetFirstWord(Some(s)).value == s[i'..j'];
    FirstWordUnique(s, i, j, i', j');
  }

  lemma GetFirstWordExamples()
    ensures GetFirstWord(None) == None
    ensures GetFirstWord(Some([])) == Some([])
  {
  }

  lemma GetFirstWordOfTestAbc()
    ensures GetFirstWord(Some(TestAbc)) == Some(Test)
  {
    FirstWordIs(TestAbc, 0, 4);
    assert TestAbc[0..4] == Test;
  }

  lemma GetFirstWordOf43TestAbc()
    ensures GetFirstWord(Some(Digits43TestAbc)) == Some(Digits43Test)
  {
    FirstWordIs(Digits43TestAbc, 0, 6);
    assert Digits43TestAbc[0..6] == Digits43Test;
  }

  lemma GetFirstWordOfSpaceAbc()
    ensures GetFirstWord(Some(SpaceAbc)) == Some(Abc)
  {
    FirstWordIs(SpaceAbc, 1, 4);
    assert SpaceAbc[1..4] == Abc;
  }

  lemma GetNumbersExamples()
    ensures GetNumbers(None) == []
    ensures GetNumbers(Some(TestAbc)) == []
  {
    FilterKeepsNone(TestAbc, IsDigit);
  }

  lemma GetNumbersOfA0B1C2()
    ensures GetNumbers(Some(A0B1C2)) == Digits012
  {
    var s := A0B1C2;
    FilterHead(s, IsDigit);
    FilterHead(s[1..], IsDigit);
    FilterHead(s[2..], IsDigit);
    FilterHead(s[3..], IsDigit);
    FilterHead(s[4..], IsDigit);
    FilterHead(s[5..], IsDigit);
    assert s[1..][1..] == s[2..];
    assert s[2..][1..] == s[3..];
    assert s[3..][1..] == s[4..];
    assert s[4..][1..] == s[5..];
    assert s[5..][1..] == [];
  }

  lemma DigitsOfPhoneFront()
    ensures Filter(Phone[0..7], IsDigit) == [0x35, 0x31, 0x33, 0x33, 0x34]
  {
    var s := Phone[0..7];
    FilterHead(s[0..], IsDigit);
    FilterHead(s[1..], IsDigit);
    FilterHead(s[2..], IsDigit);
    FilterHead(s[3..], IsDigit);
    FilterHead(s[4..], IsDigit);
    FilterHead(s[5..], IsDigit);
    FilterHead(s[6..], IsDigit);
    assert s[0..][1..] == s[1..];
    assert s[1..][1..] == s[2..];
    assert s[2..][1..] == s[3..];
    assert s[3..][1..] == s[4..];
    assert s[4..][1..] == s[5..];
    assert s[5..][1..] == s[6..];
    assert s[6..][1..] == [];
    assert s[0..] == s;
  }

  lemma DigitsOfPhoneBack()
    ensures Filter(Phone[7..13], IsDigit) == [0x34, 0x34, 0x33, 0x30, 0x33]
  {
    var s := Phone[7..13];
    FilterHead(s[0..], IsDigit);
    FilterHead(s[1..], IsDigit);
    FilterHead(s[2..], IsDigit);
    FilterHead(s[3..], IsDigit);
    FilterHead(s[4..], IsDigit);
    FilterHead(s[5..], IsDigit);
    assert s[0..][1..] == s[1..];
    assert s[1..][1..] == s[2..];
    assert s[2..][1..] == s[3..];
    assert s[3..][1..] == s[4..];
    assert s[4..][1..] == s[5..];
    assert s[5..][1..] == [];
    assert s[0..] == s;
  }

  lemma GetNumbersOfPhone()
    ensures GetNumbers(Some(Phone)) == PhoneDigits
  {
    DigitsOfPhoneFront();
    DigitsOfPhoneBack();
    FilterConcat(Phone[..7], Phone[7..], IsDigit);
    assert Phone[..7] + Phone[7..] == Phone;
    assert Phone[0..7] == Phone[..7] && Phone[7..13] == Phone[7..];
  }

  lemma LeftExamples()
    ensures Left(None, 4) == None
    ensures Left(Some(TestAbc), 4) == Some(Test)
    ensures Left(Some(TestAbc), 40) == Some(TestAbc)
  {
    assert TestAbc[..4] == Test;
  }
}
