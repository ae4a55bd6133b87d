/**
 * The Textarea control (src/components/Textarea/Textarea.tsx): controlled
 * and uncontrolled value, the character counter with its warning tones,
 * the accessible description and the auto-resize switches.
 */
module Textarea {
  import opened Common
  import Text

  /**
   * The state React keeps for one Textarea: the `value` prop of the latest
   * render (`None` when absent) and the internal value used when uncontrolled.
   */
  class TextareaField {
    var valueProp: Option<string>
    var internal: string

    /** First render: the internal value starts from `value || ''`. */
    constructor (valueProp: Option<string>)
      ensures this.valueProp == valueProp
      ensures internal == valueProp.GetOr("")
    {
      this.valueProp := valueProp;
      internal := valueProp.GetOr("");
    }

    predicate Controlled()
      reads this
    {
      valueProp.Some?
    }

    /** The text shown: the prop when controlled, else the internal value. */
    function Current(): (c: string)
      reads this
      ensures valueProp.Some? ==> c == valueProp.value
      ensures valueProp.None? ==> c == internal
    {
      if valueProp.Some? then valueProp.value else internal
    }

    /** `charCount`: the length of the current text in UTF-16 code units (an absent value counts as empty). */
    function CharCount(): (n: nat)
      reads this
      ensures n == Text.Utf16Length(Current())
      ensures |Current()| <= n <= 2 * |Current()|
      ensures valueProp.None? ==> n == Text.Utf16Length(internal)
    {
      Text.Utf16Length(Current())
    }

    /** The counter under the field, as rendered: it starts with the length of the current text. */
    function Counter(maxLength: Option<int>): (s: string)
      reads this
      ensures var n := Text.NatToString(Text.Utf16Length(Current()));
              |n| <= |s| && s[..|n|] == n && Text.DigitsValue(n) == Text.Utf16Length(Current())
      ensures maxLength.None? ==> s == Text.NatToString(Text.Utf16Length(Current()))
      ensures s == CounterTextAsWritten(Text.Utf16Length(Current()), maxLength)
    {
      Text.NatToStringValue(CharCount());
      CounterTextAsWritten(CharCount(), maxLength)
    }

    /** The counter's colour for the current text. */
    function CounterTone(maxLength: Option<int>): (t: Tone)
      reads this
      ensures t == AtLimit <==> MaxCount(maxLength).Some? && Text.Utf16Length(Current()) >= MaxCount(maxLength).value
      ensures MaxCount(maxLength).None? ==> t == Neutral
    {
      CountTone(CharCount(), maxLength)
    }

    /**
     * A change event with the element's new text: stored internally only when
     * uncontrolled, and always passed to `onChange` (the returned value).
     */
    method HandleChange(text: string) returns (emitted: string)
      modifies this
      ensures emitted == text
      ensures valueProp == old(valueProp)
      ensures internal == (if old(valueProp).Some? then old(internal) else text)
      ensures Current() == (if Controlled() then valueProp.value else text)
      ensures !Controlled() ==> CharCount() == Text.Utf16Length(text)
    {
      if valueProp.None? {
        internal := text;
      }
      emitted := text;
    }

    /** A re-render with a new `value` prop; the internal value is kept. */
    method Rerender(newProp: Option<string>)
      modifies this
      ensures valueProp == newProp && internal == old(internal)
    {
      valueProp := newProp;
    }
  }

  /** `maxLength || Infinity`: absent and zero mean no limit (`None`). */
  function MaxCount(maxLength: Option<int>): (m: Option<int>)
    ensures m.None? <==> maxLength.None? || maxLength.value == 0
    ensures m.Some? ==> m == maxLength
  {
    if maxLength.None? || maxLength.value == 0 then None else maxLength
  }

  /** The counter's colour; when both class conditions hold the red class wins. */
  datatype Tone = Neutral | Warning | AtLimit

  function ToneRank(t: Tone): nat {
    match t
    case Neutral => 0
    case Warning => 1
    case AtLimit => 2
  }

  /** `charCount > maxCount * 0.9` for orange, `charCount >= maxCount` for red. */
  function CountTone(count: nat, maxLength: Option<int>): (t: Tone)
    ensures t == AtLimit <==> MaxCount(maxLength).Some? && count >= MaxCount(maxLength).value
    ensures t == Warning <==> MaxCount(maxLength).Some? && 10 * count > 9 * MaxCount(maxLength).value
                              && count < MaxCount(maxLength).value
    ensures MaxCount(maxLength).None? ==> t == Neutral
  {
    match MaxCount(maxLength)
    case None => Neutral
    case Some(m) =>
      if count >= m then AtLimit
      else if 10 * count > 9 * m then Warning
      else Neutral
  }

  /** Typing more never calms the counter down. */
  lemma CountToneMonotone(c1: nat, c2: nat, maxLength: Option<int>)
    requires c1 <= c2
    ensures ToneRank(CountTone(c1, maxLength)) <= ToneRank(CountTone(c2, maxLength))
  {
  }

  /**
   * The counter text as written: `{charCount}{maxLength && ` / ${maxLength}`}`.
   * React renders the number `0` that `0 && …` evaluates to.
   */
  function CounterTextAsWritten(count: nat, maxLength: Option<int>): (s: string)
    ensures |Text.NatToString(count)| <= |s| && s[..|Text.NatToString(count)|] == Text.NatToString(count)
    ensures maxLength.None? ==> s == Text.NatToString(count)
    ensures maxLength == Some(0) ==> s == Text.NatToString(count) + "0"
    ensures maxLength.Some? && maxLength.value != 0 ==>
              s == Text.NatToString(count) + " / " + Text.IntToString(maxLength.value)
  {
    Text.NatToString(count)
    + match maxLength
      case None => ""
      case Some(m) => if m == 0 then "0" else " / " + Text.IntToString(m)
  }

  /** With `maxLength={0}`, five characters read "50". */
  lemma CounterTextZeroLimit()
    ensures CounterTextAsWritten(5, Some(0)) == "50"
    ensures Text.DigitsValue(Text.Split(CounterTextAsWritten(5, Some(0)), ' ')[0]) == 50
  {
    assert Text.NatToString(5) == "5";
    Text.SplitNoSep("50", ' ');
  }

  /** The counter text as intended: the count, then ` / limit` only for a real limit. */
  function CounterText(count: nat, maxLength: Option<int>): (s: string)
    ensures Text.AllDigits(Text.Split(s, ' ')[0])
    ensures Text.DigitsValue(Text.Split(s, ' ')[0]) == count
    ensures MaxCount(maxLength).None? <==> Text.AllDigits(s)
    ensures MaxCount(maxLength).None? ==> s == Text.NatToString(count)
    ensures MaxCount(maxLength).Some? ==> s == Text.NatToString(count) + " / " + Text.IntToString(maxLength.value)
  {
    var n := Text.NatToString(count);
    Text.NatToStringValue(count);
    Text.DigitsHaveNoSep(n, ' ');
    match MaxCount(maxLength)
    case None =>
      Text.SplitNoSep(n, ' ');
      n
    case Some(m) =>
      Text.SplitCons(n, "/ " + Text.IntToString(m), ' ');
      assert n + " / " + Text.IntToString(m) == n + [' '] + ("/ " + Text.IntToString(m));
      assert (n + " / " + Text.IntToString(m))[|n|] == ' ';
      n + " / " + Text.IntToString(m)
  }

  /** Which message `aria-describedby` points at. */
  datatype Description = ErrorMessage | HelperMessage | NoDescription

  function DescribedBy(error: string, helperText: string): (d: Description)
    ensures error != [] ==> d == ErrorMessage
    ensures error == [] && helperText != [] ==> d == HelperMessage
    ensures d == NoDescription <==> error == [] && helperText == []
  {
    if error != [] then ErrorMessage else if helperText != [] then HelperMessage else NoDescription
  }

  /** The helper paragraph is hidden while an error shows. */
  function HelperShown(error: string, helperText: string): (b: bool)
    ensures b <==> helperText != [] && error == []
  {
    helperText != [] && error == []
  }

  /** `aria-describedby` only ever names a paragraph that is on screen. */
  lemma DescribedByIsRendered(error: string, helperText: string)
    ensures DescribedBy(error, helperText) == HelperMessage <==> HelperShown(error, helperText)
    ensures DescribedBy(error, helperText) == ErrorMessage <==> error != []
  {
  }

  datatype Resize = ResizeNone | ResizeVertical | ResizeHorizontal | ResizeBoth

  /** Auto-resize pins the element to one row and disables manual resizing. */
  function RowsAndResize(autoResize: bool, rows: int, resize: Resize): (r: (int, Resize))
    ensures autoResize ==> r == (1, ResizeNone)
    ensures !autoResize ==> r == (rows, resize)
  {
    if autoResize then (1, ResizeNone) else (rows, resize)
  }
}
