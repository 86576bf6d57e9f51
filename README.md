# dd360-components: the decision logic of five UI components, in Dafny

This project models the parts of the dd360 React component library that make
decisions rather than only apply styles, and proves what those decisions
promise:

- **PercentageInput** (`percentage_input.dfy`): the `validatePercentage`
  regular expression, written as an explicit predicate over character
  sequences. The model tries the three lengths the whole-number group can
  take, and writes the `(?!\.)` lookahead as a test on the next character.
  A reference definition stands beside it: a `Percentage` record holding a
  whole part, an optional point and decimals. The model proves that the
  accepted strings are exactly the texts of well-formed percentages, that
  each names one value between 0 and 100, and that the first alternative is
  redundant. The field's stored value (`localValue`) is a class. Its
  `HandleChange` clears, stores or ignores an edit. `SetValue` is the effect
  that copies a truthy `value` prop. The class keeps the invariant that
  `onChange` only ever receives non-empty, accepted strings.
- **Button** (`button.dfy`): the padding priority chain, split into the rule
  that wins (`EffectivePadding`) and the class it renders. A parser
  (`ParsePadding`) reads the class back, which shows that the class
  determines the rule and its values. Also modelled: the variant and size
  tables, the argument list passed to `composeClasses`, the click guard and
  its link to the `cursor-not-allowed` class, and the loading content.
  Integer-to-string interpolation (`${n}`) is in `numerals.dfy`, proved to
  read back.
- **Language** (`language.dfy`): the `es`/`en` switcher, as a class whose
  `Toggle` records each `changeLanguage` call. The rendered entries are a
  pure function. Exactly one entry is highlighted, and the labels and
  separators follow fixed rules.
- **TimelineItem** (`timeline_item.dfy`): the effective position, the
  positional reading of the three children, the left/right ordering (always
  a permutation with the separator in the middle), and the inline style
  merge.
- **DownloadCard** (`download_card.dfy`): the `show` flag as a class driven
  by mount, the `isActive` prop and the close control, plus the render
  branches. The class keeps the invariant that the card is shown only while
  it is active.

Observations that the model makes precise:
- In PercentageInput.tsx:16, the inner `=== ''` test can never be true.
  Line 11 has already returned for the empty string, so the model stores
  the edit directly.
- In DownloadCard.tsx:36, the `'invisible'` class is unreachable, because
  the card renders only when `show` holds (`RenderedIsVisible`).
- The first regex alternative in PercentageInput.tsx:10 accepts a subset of
  the second (`ValidateIsSecondAlternative`).
- The variants `tertiary`, `outline`, `link`, `ghost` and `disabled` are
  declared but have no styling. The table's `error` key is not a declared
  variant (`VariantTableGaps`).

## Model

| member | source | states |
|---|---|---|
| `PercentageInput.AcceptedIffWellFormed` | src/components/Form/Input/PercentageInput.tsx:10 | the validator accepts a string exactly when it is "100", or one or two digits optionally followed by '.' and up to two digits |
| `PercentageInput.TextInjective` | src/components/Form/Input/PercentageInput.tsx:10 | an accepted string splits into whole part, point and decimals in only one way |
| `PercentageInput.AcceptedDenotesPercent` | src/components/Form/Input/PercentageInput.tsx:10 | every accepted string denotes a single value between 0 and 100 inclusive |
| `PercentageInput.Hundredths` | src/components/Form/Input/PercentageInput.tsx:10 | a well-formed percentage is at most 100.00, and reaches it only for "100" |
| `PercentageInput.ValidateIsSecondAlternative` | src/components/Form/Input/PercentageInput.tsx:10 | the first alternative accepts a subset of the second, so the validator is the second alternative alone |
| `PercentageInput.AlternativeMonotone` | src/components/Form/Input/PercentageInput.tsx:10 | demanding more decimals only narrows an alternative |
| `PercentageInput.ShapeOfMatch` | src/components/Form/Input/PercentageInput.tsx:10 | a match of the lenient alternative spells a well-formed percentage |
| `PercentageInput.MatchOfShape` | src/components/Form/Input/PercentageInput.tsx:10 | every well-formed percentage is matched, with its whole part as the group |
| `PercentageInput.HundredTakesNoPoint` | src/components/Form/Input/PercentageInput.tsx:10 | "100" is accepted; "100.", "100.5", "101", "1000", "", ".5" and "5.123" are rejected; "5.", "99." and "99.99" are accepted |
| `PercentageInput.PercentageField.constructor` | src/components/Form/Input/PercentageInput.tsx:4-6 | a fresh field holds the prop when truthy, else 0, has reported nothing and satisfies the invariant that every reported value is accepted and non-empty |
| `PercentageInput.PercentageField.HandleChange` | src/components/Form/Input/PercentageInput.tsx:8-21 | an empty edit stores '' without a report; an accepted edit is stored and reported once if `onChange` exists; a rejected edit changes nothing; the report invariant is kept |
| `PercentageInput.PercentageField.SetValue` | src/components/Form/Input/PercentageInput.tsx:23-25 | a changed truthy prop overwrites the stored value; a falsy or unchanged prop leaves it |
| `Numerals.NatToString` | src/components/Buttons/Button.tsx:90-102 | the numeral interpolated for a non-negative number is a digit string with no leading zero (other than "0") that parses back to the number |
| `Numerals.NatToStringOfParse` | src/components/Buttons/Button.tsx:90-102 | every digit string without a leading zero is exactly the numeral printed for the number it denotes, so the printed numeral is unique |
| `Numerals.IntToString` | src/components/Buttons/Button.tsx:90-102 | the numeral interpolated for an integer is canonical (a '-' only before a non-zero numeral, no leading zero), contains no space and parses back to the integer |
| `Numerals.IntToStringOfParse` | src/components/Buttons/Button.tsx:90-102 | every canonical integer numeral is exactly the numeral printed for the integer it denotes |
| `Button.EffectivePadding` | src/components/Buttons/Button.tsx:88-106 | both axes win over x alone, x over y, y over `padding`, `padding` over the default; each rule carries the value of the prop it came from |
| `Button.PaddingIgnoredWhenAxisSet` | src/components/Buttons/Button.tsx:89-102 | `padding` does not affect the class once `paddingX` or `paddingY` is truthy |
| `Button.ZeroCountsAsAbsent` | src/components/Buttons/Button.tsx:89-102 | a padding prop of 0 gives the same class as an absent one |
| `Button.PaddingClassRoundTrip` | src/components/Buttons/Button.tsx:90-105 | each padding class reads back as the rule and values that produced it ("p-2" as padding 2) |
| `Button.ButtonPaddingReadsBack` | src/components/Buttons/Button.tsx:88-106 | for any props, `buttonPadding()` reads back as the rule that won the priority chain |
| `Button.VariantTableGaps` | src/components/Buttons/Button.tsx:12-63 | tertiary, outline, link, ghost and disabled are declared but unstyled, and "error" is styled but not declared |
| `Button.VariantClass` | src/components/Buttons/Button.tsx:53-63 | a declared variant gets no class exactly when it is one of the five unstyled ones; the undeclared "error" key is styled; a styled variant's class is never empty |
| `Button.SizeClass` | src/components/Buttons/Button.tsx:82-86 | "large" gives 'rounded-lg w-auto'; "small", "medium" and every other string that is not an inherited object property name give '' |
| `Button.ButtonClasses` | src/components/Buttons/Button.tsx:111-119 | seven class arguments in order; the defaults are primary and medium; 'cursor-not-allowed' is present exactly when loading or disabled |
| `Button.ClickAllowedIffNoForbiddenCursor` | src/components/Buttons/Button.tsx:116-124 | with no handler a click calls nothing; with one, a click reaches it exactly when the not-allowed argument of the class list is empty |
| `Button.LoadingContent` | src/components/Buttons/Button.tsx:40-51 | a supplied component wins and is shown as given; otherwise a spinner with `textLoading`, or 'Cargando...' when that is absent |
| `Button.LoadingReplacesChildren` | src/components/Buttons/Button.tsx:40-127 | loading never shows the children: a supplied loading component is shown as given, otherwise a spinner with `textLoading` or 'Cargando...'; without loading the children are shown, or the default children when none are passed |
| `Language.InitialLanguage` | src/components/Navbar/Language.tsx:23 | the language starts as `defaultLanguage` when given, else 'es', and is one of the two codes |
| `Language.Toggled` | src/components/Navbar/Language.tsx:30 | a toggle always lands on one of the two codes, and never on the current one |
| `Language.ToggleTwiceRestores` | src/components/Navbar/Language.tsx:30 | toggling twice restores the language exactly when it was 'es' or 'en' |
| `Language.ExactlyOneHighlighted` | src/components/Navbar/Language.tsx:38-41 | of the rendered entries, exactly one is highlighted: the one whose code is the current language |
| `Language.EntriesLayout` | src/components/Navbar/Language.tsx:4-42 | Spanish then English; labelled `getLangName(name)` when supplied, else 'ESP' and 'ENG'; a '/' follows every entry but the last |
| `Language.Switcher.constructor` | src/components/Navbar/Language.tsx:22-23 | a fresh switcher holds the initial language and has announced nothing |
| `Language.Switcher.Toggle` | src/components/Navbar/Language.tsx:29-33 | the language flips, and `changeLanguage`, when supplied, is called once with the new language; it stays one of the two codes |
| `TimelineItem.Arrange` | src/components/Timeline/TimelineItem.tsx:31-43 | the children are read by position (`undefined` past the end); with the effective position 'left' (the item's own position, else the timeline's) the order is content, separator, opposite, otherwise opposite, separator, content; the separator is always in the middle, and the output is a permutation of the three slots |
| `TimelineItem.SidesMirror` | src/components/Timeline/TimelineItem.tsx:41-43 | for any two position choices, one left and one not, the left order is the other order reversed |
| `TimelineItem.ExtraChildrenIgnored` | src/components/Timeline/TimelineItem.tsx:32 | children after the third never appear |
| `TimelineItem.ItemStyle` | src/components/Timeline/TimelineItem.tsx:39 | minHeight is 70 unless the caller's style sets it; every caller key passes through unchanged, and no other key is added |
| `DownloadCard.Render` | src/components/Card/DownloadCard.tsx:31-69 | nothing is rendered exactly when `show` is false; a shown card has a button when `onDownload` is given, else an anchor to `downloadURL` with target "_blank" and the download attribute; the close control is always there |
| `DownloadCard.RenderedIsVisible` | src/components/Card/DownloadCard.tsx:31-36 | a rendered card carries 'visible' and never 'invisible' |
| `DownloadCard.Card.constructor` | src/components/Card/DownloadCard.tsx:19-20 | `show` starts false, and `isActive` defaults to true |
| `DownloadCard.Card.Mount` | src/components/Card/DownloadCard.tsx:27-29 | the mount effect sets `show` to `isActive` |
| `DownloadCard.Card.SetIsActive` | src/components/Card/DownloadCard.tsx:27-29 | a change of the defaulted `isActive` sets `show` to it; an unchanged one leaves `show` alone; the card is shown only while active |
| `DownloadCard.Card.Close` | src/components/Card/DownloadCard.tsx:22-25 | closing a shown card hides it and calls `onClose` once if it is supplied |
| `DownloadCard.Card.ClickDownload` | src/components/Card/DownloadCard.tsx:46-47 | the download button calls `onDownload` once and does not hide the card |

## Left out

- The date input component: its implementation file (DateInput.tsx) is not part of this model. Only its tests are available, and those depend on the clock and on document-level listeners.
- Circle.tsx, lib/font.ts and the Storybook stories: they hold styling and constant tables, with no decisions to verify.
- Rendering itself: `forwardRef`, when hooks run, element trees, icons, and the `Card`, `Text`, `Anchor`, `Spinner` and `BaseInput` components. Each view is a datatype of the decisions it carries.
- `composeClasses` (lib/classes) is not part of this model. Class lists are the argument sequences passed to it. `None` stands for an `undefined` or `false` argument; an empty string is passed as `Some("")`, as the source passes it, and what `composeClasses` does with it is not modelled. The card's class string is its list of tokens.
- Styling that depends only on `isNavbar` (Language.tsx:37,40) and `className` on TimelineItem (TimelineItem.tsx:38): each is a fixed class choice with no decision in it.
- Button.EffectivePadding: padding props are integers. Fractional numbers and NaN are not modelled, so neither is their interpolation (for example "px-2.5").
- Numerals.IntToString: JavaScript prints integers of magnitude 1e21 or more in exponent form ("1e+21", so "px-1e+21"), and numbers beyond 2^53 are not exact; the model prints every integer as plain decimal digits.
- Button.SizeClass: the tables are plain JavaScript objects, so a key inherited from the object prototype ("constructor", "toString", "__proto__") yields a function or object there; the model treats such keys like any other missing key. Button.VariantClass has the same gap.
- PercentageInput.PercentageField: number props are integers. Fractional numbers are not modelled, and neither is NaN (falsy, so `value || 0` gives 0); no decision depends on them beyond truthiness.
- PercentageInput.PercentageField.SetValue: a change of the prop is decided by datatype equality. JavaScript's `Object.is` differences for numbers (NaN, -0) are not modelled.
- Event objects are reduced to the string they carry. Callbacks are modelled as whether they are supplied, plus a record of their calls. What the callbacks do is outside the component.
- Callback presence is fixed for an object's lifetime: `hasOnChange`, `hasChangeLanguage`, `hasOnClose` and `hasOnDownload` are constants. The source re-reads `onChange`, `changeLanguage` and `onDownload` on every render, so a parent adding or removing one of these later is not modelled.
- DownloadCard's `handleClose` has an empty dependency list, so it keeps the first `onClose` it saw. The model treats `onClose` as fixed for the card's lifetime, so a later change of that prop is not modelled.
- A click on the download anchor navigates the browser, which is not modelled. `LinkComponent` and `width` are passed through untouched.
- TimelineItem.Child: `children` is taken to be an array. A single non-array child, which the `as ReactElement[]` cast hides, is not modelled. A style key whose value is explicitly `undefined` is not modelled either.
- `getLangName` is a total function on strings. One that throws is not modelled.
