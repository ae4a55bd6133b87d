# libia form controls in Dafny

This project models the state and value logic of the React form controls of
the libia component library: Select, Slider, Input (with its currency and
date kinds and its date picker panel), Textarea, Checkbox, Switch,
RadioButton, Progress and Button, the design-token class tables they use,
and the `useTheme` hook. It leaves out the styling.

Each component is one module:

- `Select` holds search filtering, selection membership, option clicks,
  keyboard focus, the trigger's text and clearing. Its class
  `SelectState` holds the dropdown's open flag, its position, the pending
  repositioning frame and the open dropdown's query and focus index.
- `Slider` holds pointer-to-value conversion with step snapping and
  clamping, percentages, keyboard steps, drag and track-click commits,
  marks and the fill. Its class `SliderCell` holds the value cell and the
  drag session: the dragged thumb, the cached track rectangle and the
  pending animation frame.
- `InputFormat` holds the pure helpers of Input: the `DD/MM/YYYY` mask,
  the ISO conversions, the currency digits and the locale table. `Input`
  holds the `InputField` class: the value cell, the display text and the
  date picker's open flag and position.
- `Calendar` holds Gregorian month lengths and weekdays. `DatePicker`
  holds the 42-cell month grid, computed by a loop method that is proved
  against a cell function, and the `Picker` class with the shown month
  and the selected day.
- `Textarea` holds the value cell, the character counter and the
  `aria-describedby` choice.
- `Toggle` holds the checked state that Checkbox, Switch and RadioButton
  share.
- `Progress` holds the percentage, what the bar shows and its ARIA
  attributes.
- `Button` holds the disabled rule, the content, the alignment wrapper and
  margin precedence.
- `Classes` holds the spacing class factories and tables.
- `Theme` holds the hook's theme, its storage and the `dark` root class.
- `Common` and `Text` hold the JavaScript primitives the core relies on:
  `Math.round`, clamping, `replace(/\D/g, '')`, `String(n)`,
  `padStart`, `toLowerCase`, `includes` and `split`.

In every controlled/uncontrolled value cell, the control reads the prop
when controlled and the internal value otherwise. A change writes the
internal value only when the control is uncontrolled, and always reports
the value to the callback. Input, Textarea and Slider are controlled when
`value` is given. Checkbox, Switch and RadioButton are controlled when
`onChange` is given, whatever `checked` is.

The code has three traits that the model keeps:

- The control mode is worked out again on every render, so
  `Rerender`/`ReceiveValue` let a control switch between controlled and
  uncontrolled.
- Checkbox, Switch and RadioButton count as controlled when `onChange` is
  passed, not when `checked` is.
- Only Select re-anchors its dropdown on scroll and resize. Input's date
  picker is placed once, when it opens.

The `InputField` class runs Input's value effect as written
(`InputFormat.ValueAmountAsWritten`, `InputFormat.DateValueDisplayAsWritten`).
The corrected effect (`InputFormat.ValueAmount`,
`InputFormat.DateValueDisplay`) is modelled only as the corrected half of
the findings below. Likewise `TextareaField.Counter` renders the counter
as written (`Textarea.CounterTextAsWritten`), and `Textarea.CounterText` is
the corrected half of its finding.

## Model

| member | source | states |
|---|---|---|
| Common.Round | src/components/Progress/Progress.tsx:143 | `Math.round`: the integer within half a unit of the input, ties going up; a non-negative input rounds to a non-negative integer |
| Common.Clamp | src/components/Slider/Slider.tsx:156 | `Math.max(lo, Math.min(hi, x))` lies in `[lo, hi]`, is `x` inside the range and the nearer bound outside it |
| Text.DigitsOf | src/components/Input/Input.tsx:296 | `replace(/\D/g, '')` keeps only digits and is never longer than its input |
| Text.DigitsOfAppend | src/components/Input/Input.tsx:324 | stripping non-digits distributes over concatenation |
| Text.NatToStringValue | src/components/Select/Select.tsx:629 | the decimal text of a number reads back as that number |
| Text.NatToStringInjective | src/components/Select/Select.tsx:629 | different numbers print differently |
| Text.PadStartValue | src/components/Input/DatePicker.tsx:111-112 | `String(n).padStart(2, '0')` of a number below 100 is two digits reading back as `n` |
| Text.Lower | src/components/Select/Select.tsx:192 | `toLowerCase` keeps the length and lowers each character |
| Text.Utf16Length | src/components/Textarea/Textarea.tsx:98 | `.length` counts at least one and at most two units per character, exactly one each for text inside the Basic Multilingual Plane |
| Text.Utf16LengthOfEmoji | src/components/Textarea/Textarea.tsx:98 | an emoji beyond U+FFFF counts as two |
| Text.LowerIdempotent | src/components/Select/Select.tsx:192 | lowering twice is lowering once |
| Text.ContainsIffOccurs | src/components/Select/Select.tsx:192 | `includes` holds exactly when the needle occurs at some index |
| Text.JoinSplit | src/components/Input/Input.tsx:340 | joining the pieces of `split(sep)` with `sep` rebuilds the text, so `split` loses nothing |
| Text.SplitThree | src/components/Input/Input.tsx:340-342 | three separator-free pieces joined by the separator split back into exactly those three |
| Classes.CreateSpacingClasses | src/tokens/classes.ts:15-20 | the record built key by key holds every spacing key, mapped to `${prefix}-${value}` |
| Classes.BuildMarginClasses | src/tokens/classes.ts:38-53 | the margin table has every direction and key, each mapped to its margin class |
| Classes.BuildPaddingClasses | src/tokens/classes.ts:59-74 | the padding table has every direction and key, each mapped to its padding class |
| Classes.MarginClassInjective | src/tokens/classes.ts:38-53 | distinct direction/key pairs give distinct margin classes |
| Classes.MarginPaddingDisjoint | src/tokens/classes.ts:38-74 | no margin class is also a padding class |
| Classes.AlignClass | src/tokens/classes.ts:81-85 | left, center and right map to `justify-start`, `justify-center` and `justify-end` |
| Button.MarginClassList | src/components/Button/Button.tsx:152-158 | the margin classes are those of the entries whose guard holds, in order |
| Button.MarginEntriesResolvePrecedence | src/components/Button/Button.tsx:151-158 | each side gets exactly the class picked by `margin` over the axis prop over the side prop, or none |
| Button.MarginPropWins | src/components/Button/Button.tsx:152-158 | with `margin` set, the only margin class is `m-*` |
| Button.VerticalOverridesSides | src/components/Button/Button.tsx:153-156 | with `marginVertical` set, `marginTop` and `marginBottom` change nothing |
| Button.HorizontalOverridesSides | src/components/Button/Button.tsx:154-158 | with `marginHorizontal` set, `marginLeft` and `marginRight` change nothing |
| Button.NativeDisabled | src/components/Button/Button.tsx:140 | the element is disabled exactly when `disabled` or `loading` |
| Button.ButtonContent | src/components/Button/Button.tsx:165-184 | loading shows the spinner content and nothing else; otherwise caption and both icons |
| Button.WrapperClasses | src/components/Button/Button.tsx:189-198 | full width has no wrapper; otherwise the wrapper is `flex` with the alignment class |
| Progress.Percentage | src/components/Progress/Progress.tsx:93 | indeterminate is 100; otherwise `value / max * 100` clamped to `[0, 100]`, 100 at or over `max`, 0 at or under 0, NaN exactly for `0 / 0` |
| Progress.PercentageMonotone | src/components/Progress/Progress.tsx:93 | a larger value never shows a smaller percentage |
| Progress.RoundedText | src/components/Progress/Progress.tsx:143 | the rounded percentage is printed as digits that read back as `Math.round(pct)`; NaN prints "NaN" |
| Progress.BarWidth | src/components/Progress/Progress.tsx:163 | an indeterminate bar is half width; otherwise the width is the percentage |
| Progress.HeaderShown | src/components/Progress/Progress.tsx:115 | the header row shows exactly for a label or a top-positioned value |
| Progress.TopValueShown | src/components/Progress/Progress.tsx:128 | the top value shows exactly when asked for, positioned at the top and not indeterminate |
| Progress.InsideValueShown | src/components/Progress/Progress.tsx:175 | the inside value shows exactly when asked for, inside, determinate and above 10 % |
| Progress.ValueShownOnce | src/components/Progress/Progress.tsx:128-175 | the value never shows both at the top and inside |
| Progress.AriaValueNow | src/components/Progress/Progress.tsx:140 | `aria-valuenow` is the value, absent exactly when indeterminate |
| Progress.AriaLabel | src/components/Progress/Progress.tsx:143 | the label wins; otherwise "Loading" or the rounded percentage with "% complete" |
| Progress.HalfwayLabel | src/components/Progress/Progress.tsx:143 | 50 of 100 is announced as "50% complete" |
| Textarea.TextareaField.constructor | src/components/Textarea/Textarea.tsx:87 | the internal value starts from `value`, or empty |
| Textarea.TextareaField.HandleChange | src/components/Textarea/Textarea.tsx:131-140 | the typed text is reported; the internal value takes it only when uncontrolled; the shown value is the prop when controlled, else the text |
| Textarea.TextareaField.Current | src/components/Textarea/Textarea.tsx:94-95 | the prop when `value` is given, else the internal value |
| Textarea.TextareaField.CharCount | src/components/Textarea/Textarea.tsx:98 | `charCount` is the `.length` of the current text, counted in UTF-16 code units |
| Textarea.TextareaField.Counter | src/components/Textarea/Textarea.tsx:243-244 | the rendered counter is the as-written counter text for the length of the current text: it starts with that length in decimal, and is only that without a limit |
| Textarea.TextareaField.CounterTone | src/components/Textarea/Textarea.tsx:98-99 | the counter is red exactly when the current text is at or over a real limit, neutral without one |
| Textarea.TextareaField.Rerender | src/components/Textarea/Textarea.tsx:94-95 | a new prop replaces the old one and leaves the internal value alone |
| Textarea.MaxCount | src/components/Textarea/Textarea.tsx:99 | `maxLength \|\| Infinity`: an absent or zero limit means no limit |
| Textarea.CountTone | src/components/Textarea/Textarea.tsx:239-240 | red exactly at or over the limit, orange exactly over 90 % and under it, neutral with no limit |
| Textarea.CountToneMonotone | src/components/Textarea/Textarea.tsx:239-240 | typing more never calms the counter's colour |
| Textarea.CounterTextAsWritten | src/components/Textarea/Textarea.tsx:243-244 | the count, then nothing without a limit, "0" for a zero limit, and " / m" for any other limit m |
| Textarea.CounterTextZeroLimit | src/components/Textarea/Textarea.tsx:243-244 | as written, a zero limit appends "0", so 5 characters read "50" |
| Textarea.CounterText | src/components/Textarea/Textarea.tsx:243-244 | the count alone without a real limit, else the count, " / " and the limit; the first word reads back as the count, and the text is only digits exactly when there is no limit |
| Textarea.DescribedBy | src/components/Textarea/Textarea.tsx:182 | the error wins, then the helper text, else nothing |
| Textarea.HelperShown | src/components/Textarea/Textarea.tsx:205 | the helper paragraph shows exactly when there is helper text and no error |
| Textarea.DescribedByIsRendered | src/components/Textarea/Textarea.tsx:182-205 | `aria-describedby` names the helper exactly when the helper paragraph is shown |
| Textarea.RowsAndResize | src/components/Textarea/Textarea.tsx:180-194 | auto-resize forces one row and no manual resize; otherwise the props apply |
| Toggle.Initial | src/components/Checkbox/Checkbox.tsx:144 | the first render shows the `checked` prop |
| Toggle.Step | src/components/Checkbox/Checkbox.tsx:163-172 | a change leaves a controlled state untouched and stores the new value in an uncontrolled one; a re-render takes the new `checked` and `onChange` presence, keeps the internal state, and shows the prop exactly when `onChange` is now passed |
| Toggle.Notified | src/components/Checkbox/Checkbox.tsx:171 | `onChange` gets the new checked value exactly on a change when it is passed |
| Toggle.ControlledIgnoresClicks | src/components/Checkbox/Checkbox.tsx:149-150 | any number of clicks on a controlled control leave it showing its prop |
| Toggle.UncontrolledShowsLastChange | src/components/Checkbox/Checkbox.tsx:163-172 | an uncontrolled control shows the last change and stays uncontrolled |
| Toggle.CheckedCell.constructor | src/components/Switch/Switch.tsx:150 | the cell starts in the initial state for its props |
| Toggle.Displayed | src/components/Checkbox/Checkbox.tsx:149-150 | `currentChecked` is the prop when `onChange` is passed, else the internal state |
| Toggle.CheckedCell.CurrentChecked | src/components/Switch/Switch.tsx:155-156 | the shown value is the prop when controlled, else the internal state |
| Toggle.CheckedCell.HandleChange | src/components/RadioButton/RadioButton.tsx:184-193 | the cell takes the step of a change and reports what `onChange` gets |
| Toggle.CheckedCell.Rerender | src/components/RadioButton/RadioButton.tsx:170-171 | the cell takes the step of a re-render: the new props, with the internal state kept |
| Theme.Saved | src/hooks/useTheme.ts:11-15 | with no saved entry, or a saved `''` or `"system"`, the theme is `system`; any other non-empty saved text is taken as the theme's name |
| Theme.SavedName | src/hooks/useTheme.ts:75-78 | a theme written to storage reads back as itself |
| Theme.Resolve | src/hooks/useTheme.ts:23-28 | `system` resolves to dark when the system prefers dark and to light otherwise; any other theme is kept |
| Theme.Toggled | src/hooks/useTheme.ts:81-83 | toggling sets dark from light and light from anything else, never `system` |
| Theme.ToggleTwice | src/hooks/useTheme.ts:81-83 | toggling twice from a light or dark page returns to it |
| Theme.ThemeStore.constructor | src/hooks/useTheme.ts:11-17 | the theme is the saved one; storage and preference are kept |
| Theme.ThemeStore.ApplyTheme | src/hooks/useTheme.ts:31-40 | the resolved theme and the root `dark` class follow the theme and the preference |
| Theme.ThemeStore.SetTheme | src/hooks/useTheme.ts:75-78 | the theme is set and written to storage under "libia-theme" |
| Theme.ThemeStore.ToggleTheme | src/hooks/useTheme.ts:81-83 | the theme becomes the opposite of the resolved one, is stored and is applied |
| Theme.ThemeStore.SystemPreferenceChanged | src/hooks/useTheme.ts:44-53 | the page follows a preference change only when the theme is `system` |
| Calendar.MonthLength | src/components/Input/DatePicker.tsx:37-39 | a month has 28 to 31 days, and February has 29 exactly in leap years |
| Calendar.Normalize | src/components/Input/DatePicker.tsx:38 | an out-of-range month index rolls into the neighbouring year, as `new Date(year, month, …)` does |
| Calendar.DaysInMonth | src/components/Input/DatePicker.tsx:37-39 | `getDaysInMonth` gives the length of the (normalised) month |
| Calendar.PrevMonthOf | src/components/Input/DatePicker.tsx:90-97 | the previous month is one month earlier, wrapping January to December of the year before |
| Calendar.NextMonthOf | src/components/Input/DatePicker.tsx:99-106 | the next month is one month later, wrapping December to January of the next year |
| Calendar.PrevNextInverse | src/components/Input/DatePicker.tsx:90-106 | the previous and next month arrows undo each other |
| Calendar.DaysInPreviousMonth | src/components/Input/DatePicker.tsx:50 | `getDaysInMonth(currentMonth - 1, …)` is the length of the previous month, also in January |
| Calendar.Weekday | src/components/Input/DatePicker.tsx:41-44 | `getDay` is a weekday from 0 (Sunday) to 6 |
| Calendar.FirstDayOfMonth | src/components/Input/DatePicker.tsx:41-44 | the weekday of the first of the month is from 0 to 6 |
| DatePicker.GenerateCalendarDays | src/components/Input/DatePicker.tsx:47-88 | the three loops produce exactly the 42 grid cells |
| DatePicker.GridIsConsecutiveDays | src/components/Input/DatePicker.tsx:47-88 | the cells are valid dates on consecutive days, cell `i` falling on weekday `i % 7` |
| DatePicker.CurrentMonthCells | src/components/Input/DatePicker.tsx:66-73 | a cell is marked current exactly when its date is in the shown month, numbered from 1 |
| DatePicker.MonthFitsGrid | src/components/Input/DatePicker.tsx:75-77 | every day of the month has its cell within the 42 |
| DatePicker.GridDatesDistinct | src/components/Input/DatePicker.tsx:47-88 | no date appears in two cells |
| DatePicker.LeapFebruaryGrid | src/components/Input/DatePicker.tsx:37-44 | February 2024 has 29 days and starts on a Thursday |
| DatePicker.DayIsoSplits | src/components/Input/DatePicker.tsx:110-113 | for a non-negative year the emitted text splits on `-` into the year, the padded month and the padded day |
| DatePicker.DayIsoShape | src/components/Input/DatePicker.tsx:110-113 | for four-digit years the text is `YYYY-MM-DD` reading back as the year, month and day |
| DatePicker.DayIsoShortYear | src/components/Input/DatePicker.tsx:110 | years below 1000 are not padded |
| DatePicker.PanelMinWidth | src/components/Input/DatePicker.tsx:157 | the panel is at least 280 px and at least as wide as the field |
| DatePicker.Picker.constructor | src/components/Input/DatePicker.tsx:20-34 | the picker opens on the parsed value's month, or today's; a non-empty value selects that date, or today when it does not parse |
| DatePicker.Picker.PrevMonth | src/components/Input/DatePicker.tsx:90-97 | the shown month moves one back; the selection stays |
| DatePicker.Picker.NextMonth | src/components/Input/DatePicker.tsx:99-106 | the shown month moves one forward; the selection stays |
| DatePicker.Picker.CalendarDays | src/components/Input/DatePicker.tsx:47-88 | the grid of the shown month |
| DatePicker.Picker.DayClick | src/components/Input/DatePicker.tsx:108-116 | the clicked day becomes selected and its ISO text is emitted; the month stays |
| DatePicker.Picker.IsToday | src/components/Input/DatePicker.tsx:118-124 | exactly today's date is highlighted as today |
| DatePicker.Picker.IsSelected | src/components/Input/DatePicker.tsx:126-133 | exactly the selected date is highlighted |
| InputFormat.MaskDigitsDigits | src/components/Input/Input.tsx:327-335 | laying digits out as `DD/MM/YYYY` keeps at most 10 characters and exactly the first 8 digits, in order |
| InputFormat.MaskDigitsLayout | src/components/Input/Input.tsx:327-335 | up to 2 digits carry no slash, 3 to 4 digits one slash after the day, 5 or more two slashes after the day and the month |
| InputFormat.FormatDateMask | src/components/Input/Input.tsx:322-336 | the mask is at most 10 characters, keeps the first 8 digits in order, is empty exactly when there are no digits, and splits at its slashes into `D`/`DD`, then `M`/`MM`, then up to four year digits, as far as they were typed |
| InputFormat.FormatDateMaskIdempotent | src/components/Input/Input.tsx:322-336 | masking a masked text changes nothing |
| InputFormat.FormatDateMaskNoDigits | src/components/Input/Input.tsx:324-326 | a text without digits masks to empty |
| InputFormat.ParseDate | src/components/Input/Input.tsx:338-348 | non-empty exactly for three `/` pieces of lengths 2, 2 and 4, then `year-month-day` |
| InputFormat.FormatDateDisplay | src/components/Input/Input.tsx:350-359 | empty for empty input or anything but three `-` pieces; otherwise `day/month/year` |
| InputFormat.ParseMaskComplete | src/components/Input/Input.tsx:322-348 | a typed text gives a date exactly when it has at least 8 digits, and then that date is built from them |
| InputFormat.DisplayParseMask | src/components/Input/Input.tsx:322-359 | a complete mask survives the trip to ISO and back to display |
| InputFormat.ParseDisplayIso | src/components/Input/Input.tsx:338-359 | an all-digit ISO date survives the trip to display and back |
| InputFormat.DateEchoClears | src/components/Input/Input.tsx:367-373 | as written, echoing an incomplete date blanks the field the user is typing in |
| InputFormat.NoDateForShortYear | src/components/Input/Input.tsx:338-348 | a year piece not 4 long gives no date |
| InputFormat.DateValueDisplayAsWritten | src/components/Input/Input.tsx:367-373 | as written, an empty `value` blanks the display and an ISO `value` is shown as text that parses back to it |
| InputFormat.DateValueDisplay | src/components/Input/Input.tsx:367-373 | an echoed value that the field already shows keeps the typed text; any other value is displayed |
| InputFormat.DateEchoStable | src/components/Input/Input.tsx:439-453 | echoing what typing emitted keeps the typed mask |
| InputFormat.DateValueDisplayIso | src/components/Input/Input.tsx:367-373 | a new ISO value is always displayed |
| InputFormat.CurrencyAmount | src/components/Input/Input.tsx:294-308 | no amount without digits; otherwise the digits read as cents |
| InputFormat.CentsTextRoundTrip | src/components/Input/Input.tsx:310-319 | the decimal text of an amount in cents parses back to that amount |
| InputFormat.UnformatCurrency | src/components/Input/Input.tsx:310-319 | empty exactly without digits; otherwise a decimal reading back as the typed cents |
| InputFormat.CurrencyEchoShrinks | src/components/Input/Input.tsx:367-373 | as written, echoing "12.3" back shows 1.23 instead of 12.30 |
| InputFormat.ValueAmountAsWritten | src/components/Input/Input.tsx:367-373 | as written, no amount exactly when `value` has no digits; otherwise its digits read as cents |
| InputFormat.ValueAmount | src/components/Input/Input.tsx:367-373 | a decimal `value` is read as its amount; anything else falls back to its digits as cents |
| InputFormat.CurrencyEchoStable | src/components/Input/Input.tsx:367-373 | echoing what typing emitted shows the typed amount again |
| InputFormat.CurrencyFromLocale | src/components/Input/Input.tsx:119-159 | a listed locale gives its currency; any other gives USD; the result is a three-letter code |
| InputFormat.CurrencyTableCodes | src/components/Input/Input.tsx:120-156 | every currency in the table is a three-letter code |
| InputFormat.CurrencyExamples | src/components/Input/Input.tsx:158 | "pt-BR" gives BRL and an unknown locale USD |
| Input.CurrencyShown | src/components/Input/Input.tsx:423-438 | the field is empty exactly without digits and otherwise shows the typed cents |
| Input.Emitted | src/components/Input/Input.tsx:421-462 | plain types report the text, currency its decimal, date the parsed mask |
| Input.DateEmitsIsoOrNothing | src/components/Input/Input.tsx:439-453 | a date input reports `''` or an all-digit ISO date, the latter exactly with 8 digits typed |
| Input.PickedDayRoundTrip | src/components/Input/Input.tsx:465-479 | a picked day with a four-digit year is shown as text that parses back to its ISO value |
| Input.EffectDisplay | src/components/Input/Input.tsx:367-373 | the value effect as written: plain types keep the display; currency clears it exactly when `value` has no digits and else shows those digits as cents; date shows `formatDateDisplay(value)` |
| Input.InputField.constructor | src/components/Input/Input.tsx:276-277 | the internal value is `value \|\| ''`; the display is what the value effect's mount run gives; the picker is closed |
| Input.InputField.ValueEffect | src/components/Input/Input.tsx:367-373 | the display becomes what the as-written effect gives for `value`; nothing else changes |
| Input.InputField.Current | src/components/Input/Input.tsx:290-291 | the prop when `value` is given, else the internal value |
| Input.InputField.HandleChange | src/components/Input/Input.tsx:421-462 | the display shows the formatted text; the reported value is `Emitted`; the internal value takes it only when uncontrolled |
| Input.InputField.ReceiveValue | src/components/Input/Input.tsx:367-373 | an unchanged or absent prop leaves the display alone; a changed, given prop sets it as the value effect does |
| Input.InputField.HandleDateSelect | src/components/Input/Input.tsx:465-479 | the picked ISO date is displayed, reported and stored when uncontrolled |
| Input.InputField.ToggleDatePicker | src/components/Input/Input.tsx:482-492 | opening places the panel 8 px under the field, shifted by the page scroll; closing keeps the position |
| Input.InputField.IconClick | src/components/Input/Input.tsx:582-586 | the icon toggles the picker exactly for an enabled date input without error |
| Input.InputField.OutsideMouseDown | src/components/Input/Input.tsx:376-399 | a press outside field and panel closes the picker and forgets its position |
| Input.InputField.ClosePicker | src/components/Input/Input.tsx:614 | the panel's close hides it and keeps the position |
| Input.InputField.PickDay | src/components/Input/Input.tsx:609-614 | a picked day is shown, reported, stored when uncontrolled, closes the panel keeping its position and the prop, and for four-digit years parses back to the value |
| Input.InputField.PickerRendered | src/components/Input/Input.tsx:609 | the panel is on the page exactly for an enabled, open date input |
| Slider.SnapNearest | src/components/Slider/Slider.tsx:155 | snapping gives a multiple of the step within half a step of the raw value |
| Slider.SnapFixesMultiples | src/components/Slider/Slider.tsx:155 | a multiple of the step snaps to itself |
| Slider.Fraction | src/components/Slider/Slider.tsx:151 | the pointer's track fraction lies in `[0, 1]` |
| Slider.ValueFromPosition | src/components/Slider/Slider.tsx:146-157 | without a rectangle the value is `min`; the value lies in `[min, max]`, and strictly inside it is a step multiple |
| Slider.Percentage | src/components/Slider/Slider.tsx:141-143 | `min` is 0 %, `max` is 100 %, and values in range lie between |
| Slider.PositionRoundTrip | src/components/Slider/Slider.tsx:141-157 | a reachable value clicked where it is drawn gives back that value |
| Slider.ValueFromPositionMonotone | src/components/Slider/Slider.tsx:146-157 | further right never gives a smaller value |
| Slider.SnapCountsFromZero | src/components/Slider/Slider.tsx:155 | snapping counts steps from 0, not from `min`: with min 1 and step 2 the left edge gives 2 |
| Slider.KeyResult | src/components/Slider/Slider.tsx:283-357 | only the six navigation keys act; a single thumb keeps a single value; a range thumb moves only its own end |
| Slider.SingleKeys | src/components/Slider/Slider.tsx:289-309 | arrows step within the bounds, Home and End jump to them, other keys do nothing |
| Slider.RangeKeysStopAtOtherThumb | src/components/Slider/Slider.tsx:313-355 | a range thumb's keys stop at the other thumb |
| Slider.KeysKeepOrder | src/components/Slider/Slider.tsx:283-357 | keys keep an ordered in-bounds value ordered and in bounds |
| Slider.DragCommit | src/components/Slider/Slider.tsx:239-249 | a single drag commits the new value; a range drag moves its end but not past the other end |
| Slider.DragKeepsOrder | src/components/Slider/Slider.tsx:244-248 | a drag keeps an ordered value ordered |
| Slider.TrackClickCommit | src/components/Slider/Slider.tsx:203-215 | a single value jumps to the click; a range moves its low end to a click below the midpoint and its high end to any other click |
| Slider.TrackClickMovesNearestThumb | src/components/Slider/Slider.tsx:203-212 | the moved thumb is a nearest one and the range stays ordered |
| Slider.InBounds | src/components/Slider/Slider.tsx:364 | the explicit marks kept are exactly those within the bounds |
| Slider.GetMarks | src/components/Slider/Slider.tsx:360-371 | no marks, the in-bounds explicit marks, or five evenly spaced marks from `min` to `max` |
| Slider.FillOnTrack | src/components/Slider/Slider.tsx:439-442 | the fill starts and ends on the track |
| Slider.SliderCell.constructor | src/components/Slider/Slider.tsx:117-119 | the internal value starts from `value`, else `min`; no drag is in progress |
| Slider.SliderCell.Current | src/components/Slider/Slider.tsx:132 | the prop when `value` is given, else the internal value |
| Slider.SliderCell.HandleValueChange | src/components/Slider/Slider.tsx:160-165 | the value is reported and stored only when uncontrolled |
| Slider.SliderCell.PointerDown | src/components/Slider/Slider.tsx:168-194 | an enabled press starts dragging its thumb and caches the track rectangle |
| Slider.SliderCell.PointerMove | src/components/Slider/Slider.tsx:222-230 | during a drag a move replaces the pending frame with its position |
| Slider.SliderCell.AnimationFrame | src/components/Slider/Slider.tsx:230-252 | the pending frame commits its drag value and is consumed; an ordered uncontrolled value stays ordered |
| Slider.SliderCell.PointerUp | src/components/Slider/Slider.tsx:255-264 | the drag, cached rectangle and pending frame are cleared |
| Slider.SliderCell.TrackClick | src/components/Slider/Slider.tsx:197-216 | an enabled click while not dragging commits the nearest-thumb value |
| Slider.SliderCell.KeyDown | src/components/Slider/Slider.tsx:283-357 | an enabled key reports `KeyResult`; an ordered uncontrolled value stays ordered |
| Select.Matching | src/components/Select/Select.tsx:191-193 | exactly the options whose lower-cased caption contains the lower-cased query |
| Select.MatchingAppend | src/components/Select/Select.tsx:191-193 | filtering keeps the options' order |
| Select.FilterOptions | src/components/Select/Select.tsx:190-194 | an empty query keeps every option; otherwise the matching ones |
| Select.FilterIgnoresCase | src/components/Select/Select.tsx:190-194 | the query's case does not change which options show |
| Select.DropdownValue | src/components/Select/Select.tsx:782 | `value \|\| (multiple ? [] : '')`: falsy values become the empty default; arrays and non-empty strings pass |
| Select.Without | src/components/Select/Select.tsx:209 | removing a value drops it and keeps every other |
| Select.ToggleMembership | src/components/Select/Select.tsx:207-210 | the clicked value flips membership, is appended when new, and nothing else changes |
| Select.ToggleTwice | src/components/Select/Select.tsx:207-210 | clicking a new value twice restores the selection |
| Select.OptionClick | src/components/Select/Select.tsx:205-217 | single mode reports the value and closes; multiple mode reports the toggled selection and stays open |
| Select.NextFocus | src/components/Select/Select.tsx:221-226 | ArrowDown moves down to at most the last option, ArrowUp up to at least 0 |
| Select.ArrowsStayOnList | src/components/Select/Select.tsx:221-226 | from a focus on the list the arrows keep it on the list |
| Select.ArrowDownOnEmptyList | src/components/Select/Select.tsx:221-229 | ArrowDown on an empty list gives index -1, where Enter selects nothing |
| Select.EnterTarget | src/components/Select/Select.tsx:227-232 | Enter picks the focused option exactly when it exists and is enabled |
| Select.Find | src/components/Select/Select.tsx:626 | `find` gives the first option with that value, or none when no option has it |
| Select.CaptionOr | src/components/Select/Select.tsx:626-627 | the found option's caption, or the placeholder when no option has the value or its label is empty |
| Select.SingleModeSelectsOne | src/components/Select/Select.tsx:197-202 | in single mode at most one option value counts as selected |
| Select.HasValueIffSomeSelected | src/components/Select/Select.tsx:638-640 | in multiple mode there is a value exactly when some option is selected; in single mode exactly when a non-empty option is |
| Select.DisplayText | src/components/Select/Select.tsx:621-635 | placeholder without a value and for an array in single mode; the caption of one selection; "N itens selecionados" for more |
| Select.CountTextReadsBack | src/components/Select/Select.tsx:629 | the text's first word reads back as the number of selections |
| Select.ClearEmission | src/components/Select/Select.tsx:613-618 | clearing reports `[]` in multiple mode and `''` in single mode unless disabled, and a parent storing it has no value |
| Select.ClickThenSelected | src/components/Select/Select.tsx:197-217 | after a click the option is selected, or in multiple mode deselected when it was selected |
| Select.Below | src/components/Select/Select.tsx:543-552 | the dropdown sits 8 px under the trigger, as wide as it |
| Select.SelectState.constructor | src/components/Select/Select.tsx:499-500 | closed, unplaced, no frame pending, empty query, focus 0 |
| Select.SelectState.DropdownRendered | src/components/Select/Select.tsx:778 | the dropdown is on the page exactly when open, enabled and placed |
| Select.SelectState.Toggle | src/components/Select/Select.tsx:603-610 | a disabled toggle changes nothing; an enabled one flips the dropdown and drops any pending frame; opening places it under the trigger and starts a fresh query and focus; closing keeps position, query and focus |
| Select.SelectState.TriggerKey | src/components/Select/Select.tsx:695-700 | Enter and Space act as a click on the trigger, with the same placement and reset on opening; other keys, or a disabled trigger, change nothing |
| Select.SelectState.Close | src/components/Select/Select.tsx:792-795 | closing hides and unplaces the dropdown and drops the pending frame |
| Select.SelectState.OutsideMouseDown | src/components/Select/Select.tsx:518-539 | a press outside trigger and dropdown closes and unplaces it |
| Select.SelectState.Scroll | src/components/Select/Select.tsx:559-576 | a scroll outside the open dropdown schedules a repositioning frame |
| Select.SelectState.Resize | src/components/Select/Select.tsx:578-587 | a resize with the dropdown open schedules a repositioning frame |
| Select.SelectState.Frame | src/components/Select/Select.tsx:572-575 | a pending frame re-places the dropdown under the trigger and is consumed |
| Select.SelectState.SetQuery | src/components/Select/Select.tsx:294-295 | typing sets the query and leaves the focus index where it was |
| Select.SelectState.ClickOption | src/components/Select/Select.tsx:329 | a disabled option changes nothing; otherwise the click's value is reported, single mode closes and unplaces the dropdown, multiple mode leaves it as it is; query and focus are kept |
| Select.SelectState.DropdownKey | src/components/Select/Select.tsx:220-237 | arrows move the focus, Enter picks the focused enabled option (closing in single mode), Escape closes; the query is kept and nothing else changes |

## Left out

- Styling, class merging (`cn`), icons, JSX structure, stories, type files and barrel exports are not modelled. ThemeContext, ThemeToggle and IconButton are not part of this model.
- Event plumbing is not modelled: registering and removing listeners, the `setTimeout(…, 0)` that arms outside-click listeners, animation frame ids, focus, `scrollIntoView`, `preventDefault` and `stopPropagation`. Each handler is one method, called by whoever delivers the event.
- Stale closures are not modelled: a handler always sees the current state. The Slider's animation frame reads the value at frame time, as its "fresh value" does.
- Measurements are parameters: the bounding rectangles, the page scroll offsets, whether a press or scroll lands inside an element, the system dark preference, and today's date (also for the "Hoje" button).
- `Intl.NumberFormat` is not modelled. A currency display is held as an amount in cents, and `CurrencyFromLocale` only picks the code.
- Floating point is modelled by exact reals. `numberValue.toString()` is modelled for the cent amounts it prints (`CentsText`), not for general doubles.
- JavaScript `Date` parsing is left out. The picker receives the parsed date of its `value` as a parameter. The mapping of years 0 to 99 to the 1900s is not modelled, and the calendar is the proleptic Gregorian one over all integer years.
- `toLowerCase` is modelled on ASCII letters only. No Unicode case mapping is done.
- Generated element ids (`Math.random`) and ref merging are not modelled.
- `currencyMap[locale]` on inherited object keys such as "constructor" is not modelled: a locale is either in the table or not.
- The browser's handling of a native disabled input is not modelled. So is the fact that a radio input only fires a change when it becomes checked: `Toggle.Step` takes whatever change it is given.
- Input.InputField.ToggleDatePicker: adds the page scroll offsets to the position, as the code does, although the panel is `position: fixed`. The model records this and does not resolve it.
- The Select dropdown remounts each time it opens. This is modelled as a reset of query and focus on open, plus the `SetQuery` method for typing in its search box.
- A Select that becomes disabled while open is not modelled. Its dropdown unmounts but `showDropdown` stays true.
- Slider.SliderCell.constructor: requires `min < max` and `step > 0` (`ValidBounds`), which the source assumes but does not check. The bounds are a constant of the cell. Changing `min`, `max` or `step` props is not modelled.
- Slider.ValueFromPosition: requires a non-empty track (`width > 0`). With a zero-width track the source divides by zero.
- Slider.SliderCell.PointerDown: requires a measured track to be non-empty, for the same reason.
- Slider.SliderCell.AnimationFrame: requires a measured track to be non-empty, for the same reason.
- Slider.SliderCell.TrackClick: requires a measured track to be non-empty, for the same reason.
- The Slider's hover state and tooltip are not modelled.
- Select.SelectState.TriggerKey: does not model that a disabled trigger cannot receive focus; it applies the same `disabled` guard as a click.

## Findings

| source | as written | input that shows it | evidently intended | confidence | as-written member | corrected member |
|---|---|---|---|---|---|---|
| src/components/Textarea/Textarea.tsx:244 | `{maxLength && ...}` renders the number 0 when `maxLength` is 0 | `maxLength={0}`, 5 characters: the counter reads "50" | a zero limit shows no limit text, as `maxLength \|\| Infinity` on line 99 treats it as no limit | high, not executed | Textarea.CounterTextZeroLimit | Textarea.CounterText |
| src/components/Input/Input.tsx:367-373 | the value effect runs `formatCurrency` on the decimal that `unformatCurrency` (lines 310-319) reported, reading its digits as cents | controlled currency input: typing "R$ 12,30" reports "12.3", whose echo displays 1.23 | the echoed value shows the amount that was typed | high, not executed | InputFormat.CurrencyEchoShrinks | InputFormat.CurrencyEchoStable |
| src/components/Input/Input.tsx:367-373 | the value effect runs `formatDateDisplay('')` when an edit makes the mask incomplete and the parent echoes the reported `''` | controlled date input showing 15/01/2024: deleting the last digit reports `''`, the echoed `''` differs from the previous value, and the field is blanked | the field keeps the text being typed until it is a complete date | medium, not executed | InputFormat.DateEchoClears | InputFormat.DateEchoStable |
