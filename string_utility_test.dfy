/** The cases of the library's StringUtility test suite, each stated as a
    fact about the model. A spy built with `returnValue(true)` is the answer
    sequence [true]; one built with `returnValues(a, b, ...)` answers its
    calls with a, b, ... in turn. */
module StringUtilityTest {
  import opened Chars
  import opened Decimal
  import opened StringUtility

  // ----------------------------------------------------- uid (lines 26-49)

  /** `uid()` is its own upper-case form. */
  lemma BareUidIsUppercase(segment: string)
    requires IsSegment(segment)
    ensures Upper(Uid(None, None, segment)) == Uid(None, None, segment)
  {
    UidBareIsUppercase(None, None, segment);
  }
  /** `uid('foobar')` starts with "foobar-". */
  lemma UidWithPrefix(segment: string)
    ensures var r := Uid(Some("foobar"), None, segment);
      |r| >= 7 && r[..7] == "foobar-"
  {
  }
  /** `uid(null, 'ics')` ends with ".ics". */
  lemma UidWithSuffix(segment: string)
    ensures var r := Uid(None, Some("ics"), segment);
      |r| >= 4 && r[|r| - 4..] == ".ics"
  {
  }
  /** `uid('foobar', 'ics')` starts with "foobar-" and ends with ".ics". */
  lemma UidWithPrefixAndSuffix(segment: string)
    ensures var r := Uid(Some("foobar"), Some("ics"), segment);
      |r| >= 7 && r[..7] == "foobar-" && r[|r| - 4..] == ".ics"
  {
  }
  // ------------------------------------------------- facts the uri cases share

  /** An ASCII text without capitals is its own fold. */
  lemma FoldedAscii(text: string)
    requires forall i :: 0 <= i < |text| ==> IsAscii(text[i]) && !IsUpper(text[i])
    ensures Folded(text) == text
  {
    assert StripNonAscii(text) == text;
    LowerWithoutCapitals(text);
  }
  /** Normalisation assembled from its two stages. */
  lemma NormalizeFrom(text: string, folded: string, core: string)
    requires Folded(text) == folded
    requires TrimTrailingHyphens(TrimLeadingHyphens(folded)) == core && core != []
    ensures Normalize(text) == core
  {
  }
  /** The counters the suite reaches, as decimal numerals. */
  lemma SmallNumerals()
    ensures FromNat(1) == "1" && FromNat(2) == "2" && FromNat(3) == "3" && FromNat(4) == "4"
  {
  }
  lemma CandidatesUsed()
    ensures Candidate("abc", 1) == "abc-1" && Candidate("123", 1) == "123-1"
    ensures Candidate("a-bc", 1) == "a-bc-1" && Candidate("a-bc", 2) == "a-bc-2"
    ensures Candidate("a-bc", 3) == "a-bc-3" && Candidate("a-bc", 4) == "a-bc-4"
  {
    SmallNumerals();
  }
  /** With `returnValue(true)`, the first probe is accepted. */
  lemma ResolveOnFirstCall(text: string, base: string)
    requires Normalize(text) == base
    ensures Resolve(text, [true]) == Resolution(base, [base])
  {
  }
  /** With `returnValues(false, true)`, the second probe is accepted. */
  lemma ResolveOnSecondCall(text: string, base: string)
    requires Normalize(text) == base
    ensures Resolve(text, [false, true]) == Resolution(Candidate(base, 1), [base, Candidate(base, 1)])
  {
    assert [false, true][1..] == [true];
  }
  /** With `returnValues(false, false, false, false, true)`, the fifth probe
      is accepted. */
  lemma FifthCallAccepted()
    ensures FirstAvailable([false, false, false, false, true]) == 4
  {
    var answers := [false, false, false, false, true];
    assert answers[1..] == [false, false, false, true];
    assert answers[2..] == [false, false, true];
    assert answers[3..] == [false, true];
    assert answers[4..] == [true];
  }
  lemma FiveProbes()
    ensures ProbeLog("a-bc", 4) == ["a-bc", "a-bc-1", "a-bc-2", "a-bc-3", "a-bc-4"]
  {
    CandidatesUsed();
    var log := ProbeLog("a-bc", 4);
    assert log[0] == "a-bc" && log[1] == "a-bc-1" && log[2] == "a-bc-2";
    assert log[3] == "a-bc-3" && log[4] == "a-bc-4";
  }
  // ------------------------------------------ the names the uri cases normalise to

  lemma NormalizeAbc()
    ensures Normalize("abc") == "abc"
  {
    assert IsNormalForm("abc");
    NormalizeFixedPoints("abc");
  }
  lemma TrimTrailingOfAbc()
    ensures TrimTrailingHyphens("abc-") == "abc"
  {
    assert "abc-"[..3] == "abc";
  }
  lemma NormalizeTrailingHyphen()
    ensures Normalize("abc-") == "abc"
  {
    FoldedAscii("abc-");
    assert TrimLeadingHyphens("abc-") == "abc-";
    TrimTrailingOfAbc();
    NormalizeFrom("abc-", "abc-", "abc");
  }
  lemma InnerHyphenNormalForm()
    ensures IsNormalForm("a-bc")
  {
  }
  lemma NormalizeInnerHyphen()
    ensures Normalize("a-bc") == "a-bc"
  {
    InnerHyphenNormalForm();
    NormalizeFixedPoints("a-bc");
  }
  lemma StripCapitals()
    ensures StripNonAscii("A-BC") == "A-BC"
  {
  }
  lemma LowerCapitals()
    ensures Lower("A-BC") == "a-bc"
  {
  }
  lemma NormalizeCapitals()
    ensures Normalize("A-BC") == "a-bc"
  {
    StripCapitals();
    LowerCapitals();
  }
  lemma StripModifier()
    ensures StripNonAscii("\U{1F3FC}-123") == "-123"
  {
    assert StripNonAscii("-123") == "-123";
    assert "\U{1F3FC}-123"[1..] == "-123";
  }
  lemma StripEmoji()
    ensures StripNonAscii("\U{1F481}\U{1F3FC}-123") == "-123"
  {
    StripModifier();
    assert "\U{1F481}\U{1F3FC}-123"[1..] == "\U{1F3FC}-123";
  }
  lemma FoldEmoji()
    ensures Folded("\U{1F481}\U{1F3FC}-123") == "-123"
  {
    StripEmoji();
    LowerWithoutCapitals("-123");
  }
  lemma TrimLeadingOf123()
    ensures TrimLeadingHyphens("-123") == "123"
  {
    assert "-123"[1..] == "123";
  }
  lemma NormalizeEmoji()
    ensures Normalize("\U{1F481}\U{1F3FC}-123") == "123"
  {
    FoldEmoji();
    TrimLeadingOf123();
    assert TrimTrailingHyphens("123") == "123";
    NormalizeFrom("\U{1F481}\U{1F3FC}-123", "-123", "123");
  }
  // ---------------------------------------------------- uri (lines 51-130)

  lemma ReturnsNameIfAvailable()
    ensures Resolve("abc", [true]) == Resolution("abc", ["abc"])
  {
    NormalizeAbc();
    ResolveOnFirstCall("abc", "abc");
  }
  lemma NeverReturnsEmptyName()
    ensures Resolve("", [true]) == Resolution("-", ["-"])
  {
    ResolveOnFirstCall("", "-");
  }
  lemma AppendsOne()
    ensures Resolve("abc", [false, true]) == Resolution("abc-1", ["abc", "abc-1"])
  {
    NormalizeAbc();
    CandidatesUsed();
    ResolveOnSecondCall("abc", "abc");
  }
  lemma TrimsTrailingHyphenBeforeProbing()
    ensures Resolve("abc-", [false, true]) == Resolution("abc-1", ["abc", "abc-1"])
  {
    NormalizeTrailingHyphen();
    CandidatesUsed();
    ResolveOnSecondCall("abc-", "abc");
  }
  lemma KeepsInnerHyphen()
    ensures Resolve("a-bc", [false, true]) == Resolution("a-bc-1", ["a-bc", "a-bc-1"])
  {
    NormalizeInnerHyphen();
    CandidatesUsed();
    ResolveOnSecondCall("a-bc", "a-bc");
  }
  lemma CountsUpToFirstFreeName()
    ensures Resolve("a-bc", [false, false, false, false, true]) ==
            Resolution("a-bc-4", ["a-bc", "a-bc-1", "a-bc-2", "a-bc-3", "a-bc-4"])
  {
    NormalizeInnerHyphen();
    CandidatesUsed();
    FifthCallAccepted();
    FiveProbes();
  }
  lemma LowerCasesBeforeProbing()
    ensures Resolve("A-BC", [false, true]) == Resolution("a-bc-1", ["a-bc", "a-bc-1"])
  {
    NormalizeCapitals();
    CandidatesUsed();
    ResolveOnSecondCall("A-BC", "a-bc");
  }
  /** The text is U+1F481 (information desk person), U+1F3FC (skin tone
      modifier), then "-123". */
  lemma DeletesEmojiAndTrimsHyphen()
    ensures Resolve("\U{1F481}\U{1F3FC}-123", [false, true]) == Resolution("123-1", ["123", "123-1"])
  {
    NormalizeEmoji();
    CandidatesUsed();
    ResolveOnSecondCall("\U{1F481}\U{1F3FC}-123", "123");
  }
}
