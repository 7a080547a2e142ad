# CurrencyInput: a verified model

This project models the currency text field of smarthr-ui
(`src/components/Input/CurrencyInput.tsx`). The model has two parts.

- `convertCurrency` (lines 57-69) normalises what the user typed into a formatted amount. The steps are:
  - full-width digits and the full-width full stop become ASCII (line 62);
  - the first `−` or `ー` becomes `-` (line 63);
  - everything outside `[0-9.-]` is deleted, as is every `-` after index 0 and every run of dots at either end (line 64);
  - commas are inserted every three digits into the part before the first `.` (lines 65-68).
- The `CurrencyInput` component (lines 18-43) keeps the shown text and a focus flag:
  - a keystroke shows the raw text;
  - focusing removes the commas;
  - losing focus normalises;
  - an effect re-normalises the `value` prop whenever the field is not focused.

The files:

- `currency.dfy` (module `Currency`): the normaliser. It is pure, so it consists of functions.
  - Each regular expression is a hand-written scan that follows JavaScript's global-replace semantics.
  - Anchors and look-arounds are judged on the string before any deletion.
- `currency_laws.dfy` (module `CurrencyLaws`): partners for each scan and the properties of `convertCurrency`.
  - Each scan has an independent reference definition and a lemma connecting the two:
    - `StripFrom` against the per-position filter `KeptIn`;
    - `GroupFrom` against `GroupDigits`;
    - `Split` against `Join`.
  - The properties proved include:
    - the layout of a result;
    - the character set of a result;
    - the sign;
    - width independence;
    - the focus/blur round trip.
- `currency_examples.dfy` (module `CurrencyExamples`): worked results of `convertCurrency`, including edge cases of the regular expressions.
- `currency_field.dfy` (module `CurrencyField`): the component as a class.
  - `display` is `controlledValue`, `focused` is `isFocused`, and `value` is the prop.
  - The handlers are methods.
  - React's effect (lines 39-43) is the method `Sync`. A handler calls it exactly when it changed one of the effect's dependencies, `value` or `isFocused`.
- `currency_field_examples.dfy` (module `CurrencyFieldExamples`): whole sessions of a field, namely mount, focus, typing, owner updates and blur.

### Where the code's behaviour is easy to misread

The model follows the code as written. The following behaviours are proved:

- A lone `"."` normalises to `""`, because it is a leading run of dots (`CurrencyExamples.LoneDotAndMinus`).
- A `-` after index 0 is deleted and the digits around it join up, so `"1-2"` gives `"12"` and `"12-34"` gives `"1,234"` (`CurrencyExamples.InnerMinusDeleted`, `CurrencyExamples.InnerMinusJoinsDigits`).
- `convertCurrency` is not idempotent. `"a.5"` gives `".5"`, because the `.` was not leading before `a` was deleted, and `".5"` gives `"5"` (`CurrencyExamples.NotIdempotent`).
  - Normalising a result again gives it back exactly when the result neither starts nor ends with `.` (`CurrencyLaws.RefocusRoundTrip`).
- After a focus and a blur, the field shows `convertCurrency(value)`, not the normalised typed text.
  - The effect re-runs when `isFocused` turns false and overrides line 35.
  - The typed text therefore survives a blur only when the owner feeds `onChange` back into `value` (`CurrencyFieldExamples.EchoedEdit`, `CurrencyFieldExamples.IgnoredEdit`).
- The initial state `convertCurrency(value || defaultValue)` uses `||`, so an empty `value` falls through to `defaultValue`. The mount effect then replaces that state with `convertCurrency(value)`, so `defaultValue` is never shown after the first effect (`CurrencyFieldExamples.MountDropsDefault`).

## Model

| member | source | states |
|---|---|---|
| Currency.ToHalfWidth | src/components/Input/CurrencyInput.tsx:62 | a full-width digit U+FF10+k becomes the ASCII digit of value k, `．` becomes `.`, no full-width form survives, and any other character is unchanged |
| Currency.HalfWidth | src/components/Input/CurrencyInput.tsx:62 | the global replace converts every position with ToHalfWidth: the length is kept, no full-width digit or stop remains, and no other character changes |
| CurrencyLaws.HalfWidthIdempotent | src/components/Input/CurrencyInput.tsx:62 | converting the width twice is converting once |
| CurrencyLaws.WidthRoundTrip | src/components/Input/CurrencyInput.tsx:62 | against the reference inverse ToFullWidth: an ASCII digit or `.` comes back from its full-width form, and a full-width form comes back from its ASCII form |
| CurrencyLaws.HalfWidthOfFullWidth | src/components/Input/CurrencyInput.tsx:62 | a number of digits and `.` written in full-width forms converts back to itself |
| Currency.FirstWideMinus | src/components/Input/CurrencyInput.tsx:63 | the index of the first `−`/`ー`, with none before it |
| Currency.ReplaceFirstMinus | src/components/Input/CurrencyInput.tsx:63 | without the `g` flag only the first wide minus becomes `-`; every other character, later wide minuses included, is kept |
| Currency.StripFrom | src/components/Input/CurrencyInput.tsx:64 | the global replace from a scan position: its result is no longer than what is left and holds only `[0-9.-]`; StripFromMatchesFilter gives its exact meaning |
| Currency.Strip | src/components/Input/CurrencyInput.tsx:64 | the strip step is no longer than its input and keeps only `[0-9.-]`; StripMatchesFilter and StripShaped give its exact meaning |
| Currency.DotRunEnd | src/components/Input/CurrencyInput.tsx:64 | the end of the maximal run of `.` that `\.+` consumes |
| CurrencyLaws.StripFromMatchesFilter | src/components/Input/CurrencyInput.tsx:64 | from any point of the scan, the regex scan keeps exactly the characters the per-position filter `Kept` keeps, with anchors judged before deletion |
| CurrencyLaws.StripMatchesFilter | src/components/Input/CurrencyInput.tsx:64 | the strip step equals the reference filter on the whole string |
| CurrencyLaws.KeptInSkipsLeadingDots | src/components/Input/CurrencyInput.tsx:64 | the leading run of dots (`^\.+`) contributes nothing |
| CurrencyLaws.KeptInDropsTrailingDots | src/components/Input/CurrencyInput.tsx:64 | the trailing run of dots (`\.+$`) contributes nothing |
| CurrencyLaws.KeptInShaped | src/components/Input/CurrencyInput.tsx:64 | the filter keeps only `[0-9.-]`, and a `-` only if it stood at index 0 |
| CurrencyLaws.StripShaped | src/components/Input/CurrencyInput.tsx:64 | the strip result is Shaped, and it starts with `-` exactly when its input does |
| CurrencyLaws.StripTidy | src/components/Input/CurrencyInput.tsx:64 | on formatted-looking text without a `.` at either end, the strip step deletes exactly the commas |
| CurrencyLaws.StripDropsLastDot | src/components/Input/CurrencyInput.tsx:64 | a trailing `.` is deleted without changing what happens to any other character |
| CurrencyLaws.StripFormattedFirst | src/components/Input/CurrencyInput.tsx:64 | stripping formatted text never leaves a leading `.` |
| CurrencyLaws.StripFormattedLast | src/components/Input/CurrencyInput.tsx:64 | stripping formatted text never leaves a trailing `.` |
| Currency.RemoveCommas | src/components/Input/CurrencyInput.tsx:28 | the result holds exactly the characters of the input other than `,`, and is no longer |
| CurrencyLaws.RemoveCommasAppend | src/components/Input/CurrencyInput.tsx:28 | comma removal distributes over concatenation |
| CurrencyLaws.RemoveCommasNoComma | src/components/Input/CurrencyInput.tsx:28 | comma removal leaves text without commas unchanged |
| Currency.Join | src/components/Input/CurrencyInput.tsx:68 | `join('.')`; it has no contract of its own, and JoinSplit, SplitJoin and JoinReplaceHead give its meaning |
| Currency.Format | src/components/Input/CurrencyInput.tsx:65-68 | split, write the grouped piece 0 into slot 0, join; it has no contract of its own, and FormatHead and FormatLayout give its meaning |
| Currency.Shape | src/components/Input/CurrencyInput.tsx:61-64 | the three replaces in order; it has no contract of its own, and ConvertLayout, TidyShape and ShapeOfOutputChars give its meaning |
| Currency.FirstDot | src/components/Input/CurrencyInput.tsx:65 | the index of the first `.`, with none before it |
| Currency.Split | src/components/Input/CurrencyInput.tsx:65 | `split('.')` always yields at least one piece |
| CurrencyLaws.JoinSplit | src/components/Input/CurrencyInput.tsx:65-68 | joining the pieces of a split with `.` gives the string back |
| CurrencyLaws.SplitJoin | src/components/Input/CurrencyInput.tsx:65-68 | splitting a join of dot-free pieces gives the pieces back |
| CurrencyLaws.SplitPieces | src/components/Input/CurrencyInput.tsx:65 | piece 0 is the text before the first `.`, and no piece contains a `.` |
| CurrencyLaws.SplitDotFree | src/components/Input/CurrencyInput.tsx:65 | a string without `.` splits into itself alone |
| CurrencyLaws.SplitAfterPiece | src/components/Input/CurrencyInput.tsx:65 | a dot-free piece before a `.` is split off as the first piece |
| CurrencyLaws.JoinReplaceHead | src/components/Input/CurrencyInput.tsx:67-68 | writing x into slot 0 and joining puts x in front of what followed piece 0 |
| Currency.DigitRun | src/components/Input/CurrencyInput.tsx:66 | the length of the maximal digit run at a position, as `(\d{3})+(?!\d)` sees it |
| Currency.CommaAfter | src/components/Input/CurrencyInput.tsx:66 | `(\d)(?=(\d{3})+(?!\d))` matches at a position exactly when it holds a digit followed by a digit run whose length is a positive multiple of three; GroupFromDigits gives the resulting comma layout |
| Currency.GroupFrom | src/components/Input/CurrencyInput.tsx:66 | the global replace from a scan position inserts only commas: no character is lost and no other character is added; GroupFromDigits gives the exact layout |
| Currency.GroupInteger | src/components/Input/CurrencyInput.tsx:66 | the replace on piece 0; it has no contract of its own, and GroupIntegerPart gives its meaning |
| CurrencyLaws.GroupFromDigits | src/components/Input/CurrencyInput.tsx:66 | on digits, the regex scan inserts exactly the commas of the reference grouping `GroupDigits` |
| CurrencyLaws.GroupDigitsWellGrouped | src/components/Input/CurrencyInput.tsx:66 | grouping n digits yields n + (n-1)/3 characters, with the same first and last digit, a first group of 1-3 digits and then groups of exactly 3 |
| CurrencyLaws.GroupDigitsRemoveCommas | src/components/Input/CurrencyInput.tsx:66 | removing the commas of a grouping gives the digits back |
| CurrencyLaws.GroupDigitsShort | src/components/Input/CurrencyInput.tsx:66 | up to three digits get no comma |
| CurrencyLaws.GroupDigitsAppendGroup | src/components/Input/CurrencyInput.tsx:66 | appending three digits appends `,` and those digits to the grouping (the right-to-left reading of the regex) |
| CurrencyLaws.WellGroupedCommasBetweenDigits | src/components/Input/CurrencyInput.tsx:66 | in a grouping every `,` stands between two digits |
| CurrencyLaws.GroupIntegerPart | src/components/Input/CurrencyInput.tsx:66 | in a dot-free Shaped piece only the digits are grouped and a leading `-` stays in front |
| CurrencyLaws.ShapedParts | src/components/Input/CurrencyInput.tsx:61-65 | a shaped string is an optional `-`, digits, and a tail that is empty or starts at the first `.` and holds no `-` |
| CurrencyLaws.PartsOf | src/components/Input/CurrencyInput.tsx:61-65 | conversely, a sign, digits and a tail starting with `.` are read back as exactly those parts |
| CurrencyLaws.FormatHead | src/components/Input/CurrencyInput.tsx:65-68 | lines 65-68 rewrite only the text before the first `.`; the rest is copied |
| CurrencyLaws.IntPartGrouped | src/components/Input/CurrencyInput.tsx:66 | the integer part of a shaped string is its sign followed by its grouped digits |
| CurrencyLaws.FormatLayout | src/components/Input/CurrencyInput.tsx:65-68 | formatting a shaped string gives sign + grouped digits + the unchanged tail, every later `.` included |
| CurrencyLaws.FormatRemoveCommas | src/components/Input/CurrencyInput.tsx:65-68 | formatting only adds commas: removing them gives the shaped string back |
| CurrencyLaws.FormatFormatted | src/components/Input/CurrencyInput.tsx:65-68 | formatting a shaped string gives formatted text |
| CurrencyLaws.FormatEnds | src/components/Input/CurrencyInput.tsx:65-68 | formatting keeps the first and last character of a non-empty shaped string |
| CurrencyLaws.FormatSign | src/components/Input/CurrencyInput.tsx:65-68 | formatting adds no `-` and removes none |
| CurrencyLaws.PartsFormatted | src/components/Input/CurrencyInput.tsx:65-68 | a sign, a grouping and a comma-free tail together form formatted text |
| Currency.ConvertCurrency | src/components/Input/CurrencyInput.tsx:57-60 | an absent or empty value gives `""` |
| CurrencyLaws.ConvertLayout | src/components/Input/CurrencyInput.tsx:57-69 | a non-empty input gives the sign, grouped digits and tail of its shaped string, and removing the commas gives the shaped string |
| CurrencyLaws.ConvertFormatted | src/components/Input/CurrencyInput.tsx:57-69 | every result is made of `[0-9.,-]`, has a `-` only at index 0, and has a `,` only between two digits |
| CurrencyLaws.ConvertIgnoresWidth | src/components/Input/CurrencyInput.tsx:62 | full-width digits and `．` give the same result as their ASCII forms |
| CurrencyLaws.ConvertSign | src/components/Input/CurrencyInput.tsx:63-64 | the result has a `-` exactly when the input starts with `-`, `−` or `ー` |
| CurrencyLaws.ConvertFormattedText | src/components/Input/CurrencyInput.tsx:57-69 | normalising formatted text never leaves a `.` at either end |
| CurrencyLaws.ShapedFormatted | src/components/Input/CurrencyInput.tsx:61-64 | a shaped string is formatted text (it holds no comma) |
| CurrencyLaws.TidyResultShape | src/components/Input/CurrencyInput.tsx:28-35 | a result without a dangling `.` and its comma-free form both shape to the shaped string it was formatted from |
| CurrencyLaws.RefocusRoundTrip | src/components/Input/CurrencyInput.tsx:28-35 | removing the commas of a result and normalising again gives the result back, and so does normalising it directly, exactly when it has no `.` at either end (both directions) |
| CurrencyLaws.TidyShape | src/components/Input/CurrencyInput.tsx:61-64 | shaped text without a `.` at either end passes lines 62-64 unchanged |
| CurrencyLaws.ConvertPlain | src/components/Input/CurrencyInput.tsx:57-69 | a number `-?digits(.digits)?` is shaped to itself and comes out with only its integer digits grouped |
| CurrencyLaws.PlainNumberRoundTrip | src/components/Input/CurrencyInput.tsx:28-35 | for such a number, focusing the result gives the number back and blurring that gives the result again |
| CurrencyExamples.Worked | src/components/Input/CurrencyInput.tsx:57-69 | for an input without full-width forms, the result is the stripped sign, the grouped digits and the tail |
| CurrencyExamples.EmptyInput | src/components/Input/CurrencyInput.tsx:58-60 | `undefined` and `""` give `""` |
| CurrencyExamples.GroupFour | src/components/Input/CurrencyInput.tsx:66 | `1234` groups as `1,234` |
| CurrencyExamples.GroupSeven | src/components/Input/CurrencyInput.tsx:66 | `1234567` groups as `1,234,567` |
| CurrencyExamples.GroupsThousands | src/components/Input/CurrencyInput.tsx:57-69 | `"1234567"` gives `"1,234,567"` |
| CurrencyExamples.DecimalsPlain | src/components/Input/CurrencyInput.tsx:65-68 | `"1234.56"` comes out as the grouping of `"1234"` followed by `".56"` |
| CurrencyExamples.KeepsDecimals | src/components/Input/CurrencyInput.tsx:65-68 | `"1234.56"` gives `"1,234.56"`: the decimal part gets no comma |
| CurrencyExamples.LeadingMinus | src/components/Input/CurrencyInput.tsx:64-66 | `"-1234"` gives `"-1,234"` |
| CurrencyExamples.GroupsFour | src/components/Input/CurrencyInput.tsx:57-69 | `"1234"` gives `"1,234"` |
| CurrencyExamples.FullWidthDigits | src/components/Input/CurrencyInput.tsx:62 | `"１２３４"` gives `"1,234"` |
| CurrencyExamples.InnerMinusDeleted | src/components/Input/CurrencyInput.tsx:64 | `"1-2"` gives `"12"` |
| CurrencyExamples.InnerMinusUnreplaced | src/components/Input/CurrencyInput.tsx:63 | `"12-34"` holds no wide minus, so line 63 leaves it unchanged |
| CurrencyExamples.InnerMinusStripped | src/components/Input/CurrencyInput.tsx:64 | the strip step turns `"12-34"` into `"1234"` |
| CurrencyExamples.InnerMinusJoinsDigits | src/components/Input/CurrencyInput.tsx:57-69 | `"12-34"` gives `"1,234"`: the joined digits are grouped as one number |
| CurrencyExamples.MinusAfterJunkDeleted | src/components/Input/CurrencyInput.tsx:64 | `"x-5"` gives `"5"`: the minus is judged at its index before `x` is deleted |
| CurrencyExamples.FirstWideMinusOnly | src/components/Input/CurrencyInput.tsx:63-64 | `"−1ー2"` gives `"-12"` |
| CurrencyExamples.JunkDeleted | src/components/Input/CurrencyInput.tsx:64 | `"a1b"` gives `"1"` |
| CurrencyExamples.LoneDotAndMinus | src/components/Input/CurrencyInput.tsx:64 | `"."` gives `""` and `"-"` gives `"-"` |
| CurrencyExamples.InnerDotsKept | src/components/Input/CurrencyInput.tsx:65-68 | `"1.2.3"` gives itself: every inner `.` is kept |
| CurrencyExamples.LeadingAnchorBeforeDeletion | src/components/Input/CurrencyInput.tsx:64 | `"a.5"` gives `".5"` |
| CurrencyExamples.TrailingAnchorBeforeDeletion | src/components/Input/CurrencyInput.tsx:64 | `"5.a"` gives `"5."` |
| CurrencyExamples.NotIdempotent | src/components/Input/CurrencyInput.tsx:57-69 | normalising `"a.5"` twice differs from normalising it once |
| CurrencyField.InitialDisplay | src/components/Input/CurrencyInput.tsx:18 | the initial state normalises `value` when it is non-empty, and `defaultValue` otherwise |
| CurrencyField.CurrencyInput.Init | src/components/Input/CurrencyInput.tsx:18-19 | after mounting and the first effect, the field is unfocused, shows `convertCurrency(value)` and has forwarded nothing |
| CurrencyField.CurrencyInput.Sync | src/components/Input/CurrencyInput.tsx:39-43 | when unfocused the field shows `convertCurrency(value)`; when focused nothing changes |
| CurrencyField.CurrencyInput.Change | src/components/Input/CurrencyInput.tsx:21-24 | the field shows the typed text verbatim, and the change is forwarded once if `onChange` is given |
| CurrencyField.CurrencyInput.Focus | src/components/Input/CurrencyInput.tsx:26-31 | the field is focused and shows its previous text with every `,` removed and nothing else changed; the focus is forwarded once if `onFocus` is given |
| CurrencyField.CurrencyInput.Blur | src/components/Input/CurrencyInput.tsx:33-37 | the field is unfocused; after a focus it shows `convertCurrency(value)` because the effect re-runs, otherwise the normalised previous text; the blur is forwarded once if `onBlur` is given |
| CurrencyField.CurrencyInput.SetValue | src/components/Input/CurrencyInput.tsx:39-43 | a new `value` is shown normalised only while unfocused; a focused field keeps its text; the effect's rule is preserved |
| CurrencyFieldExamples.Refocus | src/components/Input/CurrencyInput.tsx:26-43 | focusing and blurring without typing returns to the shown text; while focused the text has no comma, and it normalises back exactly when it has no dangling `.` |
| CurrencyFieldExamples.EchoedEdit | src/components/Input/CurrencyInput.tsx:21-43 | with an owner that echoes `onChange`, the typed text is shown while editing and its normalised form after the blur, with exactly one change forwarded |
| CurrencyFieldExamples.IgnoredEdit | src/components/Input/CurrencyInput.tsx:21-43 | with an owner that ignores `onChange`, the blur discards the typed text and shows the normalised `value` |
| CurrencyFieldExamples.UpdateWhileEditing | src/components/Input/CurrencyInput.tsx:26-43 | a `value` update while focused is not shown until the blur, which shows it normalised |
| CurrencyFieldExamples.GroupThousand | src/components/Input/CurrencyInput.tsx:66 | `1000` groups as `1,000` |
| CurrencyFieldExamples.Thousand | src/components/Input/CurrencyInput.tsx:57-69 | `"1000"` gives `"1,000"` |
| CurrencyFieldExamples.ThousandUngrouped | src/components/Input/CurrencyInput.tsx:28 | removing the comma of `"1,000"` gives `"1000"` |
| CurrencyFieldExamples.TenThousandFive | src/components/Input/CurrencyInput.tsx:57-69 | `"10005"` gives `"10,005"` |
| CurrencyFieldExamples.Five | src/components/Input/CurrencyInput.tsx:57-69 | `"5"` gives `"5"` |
| CurrencyFieldExamples.FocusCycle | src/components/Input/CurrencyInput.tsx:18-43 | mounting with `"1000"` shows `"1,000"`; focusing shows `"1000"`; typing `"10005"` (echoed) shows it; the blur shows `"10,005"` |
| CurrencyFieldExamples.MountDropsDefault | src/components/Input/CurrencyInput.tsx:18 | with no `value` and `defaultValue` `"5"`, the initial state is `"5"` but the mounted field shows `""` |

## Left out

- The JSX (lines 45-54) and the wrapped `Input` component: the field is modelled by its state, and `Input` is not part of this model.
- The event objects passed to `onChange`, `onFocus` and `onBlur`. A callback is modelled by a flag saying whether it was supplied and a log entry when the event is forwarded. `onChange` is logged with the typed text.
- React's scheduling. State updates take effect immediately, and the effect runs synchronously once, right after a handler that changed `value` or `isFocused`. Batching, the intermediate render between line 35 and the effect, and Strict-Mode double effects are not modelled.
- The owner's re-render is the explicit call `SetValue`; other props passed through to `Input` are not modelled.
- `String.fromCharCode` on UTF-16 code units: characters are Dafny `char`s, so strings with lone surrogates are not distinguished from code points.
- The TypeScript prop types (`Props`, lines 5-8); `value` and `defaultValue` are `Option<string>`.
