/**
 * Sessions of the `CurrencyInput` component
 * (src/components/Input/CurrencyInput.tsx, lines 18-43): a field is mounted,
 * focused, edited, updated by its owner and blurred, and what it shows along
 * the way is stated in terms of `convertCurrency`.
 */
module CurrencyFieldExamples {
  import opened Currency
  import opened CurrencyLaws
  import opened CurrencyField

  /**
   * Focusing and then blurring a field without typing: while focused it shows
   * the normalised value without commas, and that text normalises back to
   * what was shown before exactly when it has no dangling '.'.
   */
  method Refocus(value: Option<string>) returns (before: string, editing: string, after: string)
    ensures before == ConvertCurrency(value) && after == before
    ensures editing == RemoveCommas(before) && ',' !in editing
    ensures value.Some? ==> (ConvertCurrency(Some(editing)) == before <==> NoDanglingDot(before))
  {
    var field := new CurrencyInput.Init(value, None, false, false, false);
    before := field.display;
    field.Focus();
    editing := field.display;
    field.Blur();
    after := field.display;
    if value.Some? {
      RefocusRoundTrip(value.value);
    }
  }

  /**
   * An owner that feeds every `onChange` text back as `value`: the field
   * shows the typed text verbatim while focused and its normalised form
   * after the blur, and exactly one change was forwarded.
   */
  method EchoedEdit(value: Option<string>, typed: string) returns (editing: string, shown: string, events: seq<Forwarded>)
    ensures editing == typed
    ensures shown == ConvertCurrency(Some(typed))
    ensures events == [ChangeForwarded(typed)]
  {
    var field := new CurrencyInput.Init(value, None, true, false, false);
    field.Focus();
    field.Change(typed);
    field.SetValue(Some(typed));
    editing := field.display;
    field.Blur();
    shown := field.display;
    events := field.forwarded;
  }

  /**
   * An owner that ignores `onChange`: the typed text is shown while focused
   * and discarded on blur, when the field returns to the normalised `value`.
   */
  method IgnoredEdit(value: Option<string>, typed: string) returns (editing: string, shown: string)
    ensures editing == typed
    ensures shown == ConvertCurrency(value)
  {
    var field := new CurrencyInput.Init(value, None, false, false, false);
    field.Focus();
    field.Change(typed);
    editing := field.display;
    field.Blur();
    shown := field.display;
  }

  /**
   * The owner replaces `value` while the field is focused: the shown text
   * does not move until the blur, and then it is the new value, normalised.
   */
  method UpdateWhileEditing(value: Option<string>, update: Option<string>) returns (editing: string, shown: string)
    ensures editing == RemoveCommas(ConvertCurrency(value))
    ensures shown == ConvertCurrency(update)
  {
    var field := new CurrencyInput.Init(value, None, false, false, false);
    field.Focus();
    field.SetValue(update);
    editing := field.display;
    field.Blur();
    shown := field.display;
  }

  /** "1000" groups as "1,000". */
  lemma GroupThousand()
    ensures GroupDigits("1000") == "1,000"
  {
    assert "1000" == "1" + "000";
    GroupDigitsAppendGroup("1", "000");
    GroupDigitsShort("1");
  }

  /**
   * "1000" normalises to "1,000". This lemma and the ones after it take
   * their literal as a parameter fixed by the precondition, so that the
   * verifier reaches the result through the layout lemmas instead of
   * unfolding the literal.
   */
  lemma Thousand(s: string)
    requires s == "1000"
    ensures ConvertCurrency(Some(s)) == "1,000"
  {
    assert GroupDigits(s) == "1,000" by {
      GroupThousand();
    }
    assert ConvertCurrency(Some(s)) == GroupDigits(s) by {
      assert AllDigits(s);
      ConvertPlain("", s, "");
      assert "" + s + DecimalTail("") == s;
    }
  }

  /** Removing the comma of "1,000" gives "1000". */
  lemma ThousandUngrouped(g: string)
    requires g == "1,000"
    ensures RemoveCommas(g) == "1000"
  {
    assert GroupDigits("1000") == g by {
      GroupThousand();
    }
    assert AllDigits("1000");
    GroupDigitsRemoveCommas("1000");
  }

  /** "5" normalises to itself. */
  lemma Five(s: string)
    requires s == "5"
    ensures ConvertCurrency(Some(s)) == s
  {
    assert AllDigits(s);
    GroupDigitsShort(s);
    ConvertPlain("", s, "");
    assert "" + s + DecimalTail("") == s;
    assert "" + GroupDigits(s) + DecimalTail("") == s;
  }

  /** "10005" normalises to "10,005". */
  lemma TenThousandFive(s: string)
    requires s == "10005"
    ensures ConvertCurrency(Some(s)) == "10,005"
  {
    assert GroupDigits(s) == "10,005" by {
      assert s == "10" + "005";
      GroupDigitsAppendGroup("10", "005");
      GroupDigitsShort("10");
    }
    assert ConvertCurrency(Some(s)) == GroupDigits(s) by {
      assert AllDigits(s);
      ConvertPlain("", s, "");
      assert "" + s + DecimalTail("") == s;
    }
  }

  /**
   * A field mounted with "1000" shows "1,000"; focused it shows "1000";
   * after typing "10005", echoed back by the owner, and a blur it shows
   * "10,005".
   */
  method FocusCycle() returns (mounted: string, focused: string, typed: string, blurred: string)
    ensures mounted == "1,000" && focused == "1000"
    ensures typed == "10005" && blurred == "10,005"
  {
    Thousand("1000");
    ThousandUngrouped("1,000");
    TenThousandFive("10005");
    var field := new CurrencyInput.Init(Some("1000"), None, true, false, false);
    mounted := field.display;
    field.Focus();
    focused := field.display;
    field.Change("10005");
    field.SetValue(Some("10005"));
    typed := field.display;
    field.Blur();
    blurred := field.display;
  }

  /**
   * Mounting without `value` but with `defaultValue` "5": the initial state
   * of line 18 is "5", but the effect runs after the first render and the
   * field shows "".
   */
  method MountDropsDefault() returns (initial: string, shown: string)
    ensures initial == "5" && shown == ""
  {
    Five("5");
    initial := InitialDisplay(None, Some("5"));
    var field := new CurrencyInput.Init(None, Some("5"), false, false, false);
    shown := field.display;
  }
}
