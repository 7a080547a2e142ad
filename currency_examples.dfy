/**
 * Worked results of `convertCurrency` (src/components/Input/CurrencyInput.tsx,
 * lines 57-69), derived from the model through its layout lemmas.
 */
module CurrencyExamples {
  import opened Currency
  import opened CurrencyLaws

  /**
   * For an input without full-width forms, the result is what the strip step
   * leaves of the minus replacement (a sign, digits and a tail from the first
   * '.' on), with the digits grouped.
   */
  lemma Worked(s: string, m: string, sign: string, digits: string, tail: string, r: string)
    requires s != ""
    requires forall i | 0 <= i < |s| :: !IsFullWidthNumeric(s[i])
    requires ReplaceFirstMinus(s) == m
    requires Strip(m) == sign + digits + tail
    requires sign == "" || sign == "-"
    requires AllDigits(digits) && (tail == [] || tail[0] == '.')
    requires sign + GroupDigits(digits) + tail == r
    ensures ConvertCurrency(Some(s)) == r
  {
    var t := Strip(m);
    assert HalfWidth(s) == s;
    StripShaped(m);
    FormatLayout(t);
    PartsOf(t, sign, digits, tail);
  }

  /** "1234" groups as "1,234". */
  lemma GroupFour()
    ensures GroupDigits("1234") == "1,234"
  {
    assert "1234" == "1" + "234";
    GroupDigitsAppendGroup("1", "234");
    GroupDigitsShort("1");
  }

  /** Absent and empty input give "" (lines 58-60). */
  lemma EmptyInput()
    ensures ConvertCurrency(None) == "" && ConvertCurrency(Some("")) == ""
  {
  }

  /** "1234567" groups as "1,234,567". */
  lemma GroupSeven()
    ensures GroupDigits("1234567") == "1,234,567"
  {
    assert "1234567" == "1234" + "567";
    GroupDigitsAppendGroup("1234", "567");
    GroupFour();
  }

  /**
   * Commas every three digits from the right (line 66). The input is a
   * parameter fixed by the precondition so that the verifier reaches the
   * result through the layout lemmas instead of unfolding the literal.
   */
  lemma GroupsThousands(s: string)
    requires s == "1234567"
    ensures ConvertCurrency(Some(s)) == "1,234,567"
  {
    assert GroupDigits(s) == "1,234,567" by {
      GroupSeven();
    }
    assert ConvertCurrency(Some(s)) == GroupDigits(s) by {
      assert AllDigits(s);
      ConvertPlain("", s, "");
      assert "" + s + DecimalTail("") == s;
    }
  }

  /** "1234.56" is a plain number: only "1234" is regrouped and ".56" is copied. */
  lemma DecimalsPlain(s: string)
    requires s == "1234.56"
    ensures ConvertCurrency(Some(s)) == GroupDigits("1234") + ".56"
  {
    assert AllDigits("1234") && AllDigits("56");
    ConvertPlain("", "1234", "56");
    assert "" + "1234" + DecimalTail("56") == s;
    assert "" + GroupDigits("1234") + DecimalTail("56") == GroupDigits("1234") + ".56";
  }

  /** The decimal part is copied without commas (lines 65-68). The input is a parameter, as in GroupsThousands. */
  lemma KeepsDecimals(s: string)
    requires s == "1234.56"
    ensures ConvertCurrency(Some(s)) == "1,234.56"
  {
    DecimalsPlain(s);
    GroupFour();
    assert GroupDigits("1234") + ".56" == "1,234.56";
  }

  /** A leading '-' stays in front of the grouped digits. The input is a parameter, as in GroupsThousands. */
  lemma LeadingMinus(s: string)
    requires s == "-1234"
    ensures ConvertCurrency(Some(s)) == "-1,234"
  {
    assert "-" + GroupDigits("1234") == "-1,234" by {
      GroupFour();
    }
    assert ConvertCurrency(Some(s)) == "-" + GroupDigits("1234") by {
      assert AllDigits("1234");
      ConvertPlain("-", "1234", "");
      assert "-" + "1234" + DecimalTail("") == s;
      assert "-" + GroupDigits("1234") + DecimalTail("") == "-" + GroupDigits("1234");
    }
  }

  /** Four digits get one comma. */
  lemma GroupsFour()
    ensures ConvertCurrency(Some("1234")) == "1,234"
  {
    assert ConvertCurrency(Some("1234")) == "" + GroupDigits("1234") + DecimalTail("") by {
      assert AllDigits("1234");
      ConvertPlain("", "1234", "");
      assert "" + "1234" + DecimalTail("") == "1234";
    }
    assert "" + GroupDigits("1234") + DecimalTail("") == "1,234" by {
      GroupFour();
    }
  }

  /** Full-width digits are read as ASCII digits (line 62). */
  lemma FullWidthDigits()
    ensures ConvertCurrency(Some("\U{FF11}\U{FF12}\U{FF13}\U{FF14}")) == "1,234"
  {
    var s := "\U{FF11}\U{FF12}\U{FF13}\U{FF14}";
    var h := HalfWidth(s);
    assert h == "1234" by {
      assert |h| == 4;
      assert h[0] == '1' && h[1] == '2' && h[2] == '3' && h[3] == '4';
    }
    ConvertIgnoresWidth(s);
    GroupsFour();
  }

  /** A '-' that is not at index 0 is deleted, and the digits around it join up. */
  lemma InnerMinusDeleted()
    ensures ConvertCurrency(Some("1-2")) == "12"
  {
    GroupDigitsShort("12");
    Worked("1-2", "1-2", "", "12", "", "12");
  }

  /** "12-34" holds no wide minus, so line 63 leaves it unchanged. */
  lemma InnerMinusUnreplaced()
    ensures ReplaceFirstMinus("12-34") == "12-34"
  {
  }

  /** The strip step deletes the '-' of "12-34", which is not at index 0. */
  lemma InnerMinusStripped()
    ensures Strip("12-34") == "1234"
  {
  }

  /** "12-34" gives "1,234": the inner '-' is deleted and the joined digits are grouped as one number. */
  lemma InnerMinusJoinsDigits()
    ensures ConvertCurrency(Some("12-34")) == "1,234"
  {
    InnerMinusUnreplaced();
    InnerMinusStripped();
    assert "" + GroupDigits("1234") + "" == "1,234" by {
      GroupFour();
    }
    assert AllDigits("1234");
    Worked("12-34", "12-34", "", "1234", "", "1,234");
  }

  /** The '-' test is made before deletion: a '-' after deleted text is still not at index 0. */
  lemma MinusAfterJunkDeleted()
    ensures ConvertCurrency(Some("x-5")) == "5"
  {
    GroupDigitsShort("5");
    Worked("x-5", "x-5", "", "5", "", "5");
  }

  /** Only the first wide minus becomes '-'; the second stays a wide minus and is deleted. */
  lemma FirstWideMinusOnly()
    ensures ConvertCurrency(Some("\U{2212}1\U{30FC}2")) == "-12"
  {
    GroupDigitsShort("12");
    Worked("\U{2212}1\U{30FC}2", "-1\U{30FC}2", "-", "12", "", "-12");
  }

  /** Characters outside [0-9.-] are deleted. */
  lemma JunkDeleted()
    ensures ConvertCurrency(Some("a1b")) == "1"
  {
    GroupDigitsShort("1");
    Worked("a1b", "a1b", "", "1", "", "1");
  }

  /** A lone '.' is a leading run of dots and is deleted; a lone '-' is kept. */
  lemma LoneDotAndMinus()
    ensures ConvertCurrency(Some(".")) == "" && ConvertCurrency(Some("-")) == "-"
  {
    Worked(".", ".", "", "", "", "");
    Worked("-", "-", "-", "", "", "-");
  }

  /**
   * Every inner '.' is kept and the pieces after the first are copied
   * unchanged. As in GroupsThousands, the literal is passed as a parameter
   * so that the proof goes through the layout lemmas.
   */
  lemma InnerDotsKept(s: string)
    requires s == "1.2.3"
    ensures ConvertCurrency(Some(s)) == s
  {
    assert Shaped(s) && NoDanglingDot(s);
    TidyShape(s);
    assert s == "" + "1" + ".2.3";
    PartsOf(s, "", "1", ".2.3");
    FormatLayout(s);
    GroupDigitsShort("1");
    assert "" + GroupDigits("1") + ".2.3" == s;
  }

  /** The dot anchors are judged before deletion: the '.' of "a.5" is not leading, so it is kept. */
  lemma LeadingAnchorBeforeDeletion()
    ensures ConvertCurrency(Some("a.5")) == ".5"
  {
    Worked("a.5", "a.5", "", "", ".5", ".5");
  }

  /** Likewise the '.' of "5.a" is not trailing, so it is kept. */
  lemma TrailingAnchorBeforeDeletion()
    ensures ConvertCurrency(Some("5.a")) == "5."
  {
    GroupDigitsShort("5");
    Worked("5.a", "5.a", "", "5", ".", "5.");
  }

  /** Normalising twice differs from normalising once: "a.5" gives ".5", which gives "5". */
  lemma NotIdempotent()
    ensures ConvertCurrency(Some(ConvertCurrency(Some("a.5")))) != ConvertCurrency(Some("a.5"))
  {
    LeadingAnchorBeforeDeletion();
    GroupDigitsShort("5");
    Worked(".5", ".5", "", "5", "", "5");
  }
}
