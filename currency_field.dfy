/**
 * The state of the `CurrencyInput` component
 * (src/components/Input/CurrencyInput.tsx, lines 18-43).
 *
 * The component keeps two pieces of state, the text shown in the field
 * (`controlledValue`, here `display`) and whether the field has focus
 * (`isFocused`, here `focused`), and receives the `value` prop from its owner.
 * Each event handler is a method. React's effect at lines 39-43 re-runs after
 * a render in which `value` or `isFocused` changed; here it is the method
 * `Sync`, which every handler calls exactly when one of the two changed.
 * The consumer callbacks receive opaque event objects; a handler records in
 * `forwarded` that it passed its event on.
 */
module CurrencyField {
  import opened Currency

  /** An event handed on to a consumer callback (lines 23, 30 and 36). */
  datatype Forwarded = ChangeForwarded(text: string) | FocusForwarded | BlurForwarded

  /** Line 18: `convertCurrency(value || defaultValue)`; an empty `value` falls through to `defaultValue`. */
  function InitialDisplay(value: Option<string>, defaultValue: Option<string>): (d: string)
    ensures value.Some? && value.value != "" ==> d == ConvertCurrency(value)
    ensures value.None? || value == Some("") ==> d == ConvertCurrency(defaultValue)
  {
    ConvertCurrency(if value.Some? && value.value != "" then value else defaultValue)
  }

  class CurrencyInput {
    /** `controlledValue`: the text shown in the field. */
    var display: string
    /** `isFocused`. */
    var focused: bool
    /** The `value` prop as last received from the owner. */
    var value: Option<string>
    /** The events handed on to the consumer callbacks, oldest first. */
    var forwarded: seq<Forwarded>
    /** Whether the owner supplied `onChange`, `onFocus` and `onBlur`. */
    const hasOnChange: bool
    const hasOnFocus: bool
    const hasOnBlur: bool

    /** The rule of the effect: while the field is not focused it shows the normalised `value`. */
    predicate Settled()
      reads this
    {
      !focused ==> display == ConvertCurrency(value)
    }

    /**
     * Mounting: the state starts as `InitialDisplay(value, defaultValue)`
     * and unfocused (lines 18-19); the effect runs after the first render
     * and replaces that text with `convertCurrency(value)` (lines 39-43).
     */
    constructor Init(value: Option<string>, defaultValue: Option<string>, hasOnChange: bool, hasOnFocus: bool, hasOnBlur: bool)
      ensures this.value == value && !focused && forwarded == []
      ensures display == ConvertCurrency(value)
      ensures Settled()
      ensures this.hasOnChange == hasOnChange && this.hasOnFocus == hasOnFocus && this.hasOnBlur == hasOnBlur
    {
      this.value := value;
      display := InitialDisplay(value, defaultValue);
      focused := false;
      forwarded := [];
      this.hasOnChange := hasOnChange;
      this.hasOnFocus := hasOnFocus;
      this.hasOnBlur := hasOnBlur;
      new;
      Sync();
    }

    /** The effect (lines 39-43): when not focused, show the normalised `value`. */
    method Sync()
      modifies this`display
      ensures display == if focused then old(display) else ConvertCurrency(value)
      ensures Settled()
    {
      if !focused {
        display := ConvertCurrency(value);
      }
    }

    /**
     * A keystroke (lines 21-24): the field shows the typed text verbatim,
     * without normalising it, and the event is forwarded. No dependency of
     * the effect changes, so the effect does not run.
     */
    method Change(text: string)
      modifies this`display, this`forwarded
      ensures display == text
      ensures forwarded == old(forwarded) + (if hasOnChange then [ChangeForwarded(text)] else [])
    {
      display := text;
      if hasOnChange {
        forwarded := forwarded + [ChangeForwarded(text)];
      }
    }

    /**
     * Gaining focus (lines 26-31): every ',' is removed from the shown text
     * and nothing else changes. The effect re-runs when the flag was off,
     * and does nothing because the field is now focused.
     */
    method Focus()
      modifies this`display, this`focused, this`forwarded
      ensures focused
      ensures display == RemoveCommas(old(display))
      ensures forall c :: c in display <==> c in old(display) && c != ','
      ensures forwarded == old(forwarded) + (if hasOnFocus then [FocusForwarded] else [])
    {
      var wasFocused := focused;
      focused := true;
      display := RemoveCommas(display);
      if hasOnFocus {
        forwarded := forwarded + [FocusForwarded];
      }
      if !wasFocused {
        Sync();
      }
    }

    /**
     * Losing focus (lines 33-37): line 35 normalises the shown text, but when
     * the field was focused the flag changes, the effect re-runs and the
     * field ends up showing the normalised `value` instead. Only a blur
     * without a preceding focus keeps the result of line 35.
     */
    method Blur()
      modifies this`display, this`focused, this`forwarded
      ensures !focused
      ensures old(focused) ==> display == ConvertCurrency(value) && Settled()
      ensures !old(focused) ==> display == ConvertCurrency(Some(old(display)))
      ensures forwarded == old(forwarded) + (if hasOnBlur then [BlurForwarded] else [])
    {
      var wasFocused := focused;
      focused := false;
      display := ConvertCurrency(Some(display));
      if hasOnBlur {
        forwarded := forwarded + [BlurForwarded];
      }
      if wasFocused {
        Sync();
      }
    }

    /**
     * The owner passes a new `value` prop. The effect re-runs only when the
     * prop differs from the previous one, and then changes the shown text
     * only while the field is not focused.
     */
    method SetValue(v: Option<string>)
      modifies this`value, this`display
      ensures value == v
      ensures focused ==> display == old(display)
      ensures !focused && v != old(value) ==> display == ConvertCurrency(v)
      ensures v == old(value) ==> display == old(display)
      ensures old(Settled()) ==> Settled()
    {
      var changed := v != value;
      value := v;
      if changed {
        Sync();
      }
    }
  }
}
