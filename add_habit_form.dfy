/** The add-habit dialog's form state: the fields being edited, the blank-name
    check on submit, and the reset to defaults after a habit is handed over. */
module AddHabitForm {
  import opened HabitModel

  /** The first colour of the palette, purple. */
  const DefaultColor := "#8B5CF6"

  /** The form as first shown and as left after each successful submit. */
  const DefaultForm := Draft("", "", "", DefaultColor, 7)

  /** The values of the weekly-target select: one to seven days a week. */
  const FrequencyOptions: seq<int> := [1, 2, 3, 4, 5, 6, 7]

  /** The select offers exactly the targets 1..7, in ascending order, and the default is one of them. */
  lemma FrequencyOptionsAreOneToSeven()
    ensures forall f :: f in FrequencyOptions <==> 1 <= f <= 7
    ensures forall k :: 0 <= k < |FrequencyOptions| ==> FrequencyOptions[k] == k + 1
    ensures DefaultForm.targetFrequency in FrequencyOptions
  {
  }

  /** The characters `String.prototype.trim` removes: the ECMAScript white
      space and line terminator code points. */
  predicate IsWhitespace(c: char)
  {
    c == '\U{9}' || c == '\U{A}' || c == '\U{B}' || c == '\U{C}' || c == '\U{D}'
    || c == '\U{20}' || c == '\U{A0}' || c == '\U{1680}' || ('\U{2000}' <= c <= '\U{200A}')
    || c == '\U{2028}' || c == '\U{2029}' || c == '\U{202F}' || c == '\U{205F}'
    || c == '\U{3000}' || c == '\U{FEFF}'
  }

  /** Drops the leading white space: what is dropped is all white space and
      what remains, if anything, starts with a non-space. */
  function TrimStart(s: string): (r: string)
    ensures |r| <= |s| && r == s[|s| - |r|..]
    ensures forall k :: 0 <= k < |s| - |r| ==> IsWhitespace(s[k])
    ensures r != [] ==> !IsWhitespace(r[0])
  {
    if s != [] && IsWhitespace(s[0]) then TrimStart(s[1..]) else s
  }

  /** Drops the trailing white space: what is dropped is all white space and
      what remains, if anything, ends with a non-space. */
  function TrimEnd(s: string): (r: string)
    ensures |r| <= |s| && r == s[..|r|]
    ensures forall k :: |r| <= k < |s| ==> IsWhitespace(s[k])
    ensures r != [] ==> !IsWhitespace(r[|r| - 1])
  {
    if s != [] && IsWhitespace(s[|s| - 1]) then TrimEnd(s[..|s| - 1]) else s
  }

  /** Removes white space from both ends. */
  function Trim(s: string): string
  {
    TrimEnd(TrimStart(s))
  }

  /** A name is blank when nothing is left of it after trimming. */
  predicate IsBlank(name: string)
  {
    Trim(name) == ""
  }

  /** A name is blank exactly when every character of it is white space. */
  lemma BlankIffAllWhitespace(name: string)
    ensures IsBlank(name) <==> forall k :: 0 <= k < |name| ==> IsWhitespace(name[k])
  {
    var t := TrimStart(name);
    if !forall k :: 0 <= k < |name| ==> IsWhitespace(name[k]) {
      var k :| 0 <= k < |name| && !IsWhitespace(name[k]);
      assert t != [];
      assert !IsWhitespace(t[0]);
    }
  }

  /** One edit of the form: which field is set, and to what. */
  datatype FieldChange =
    | SetName(name: string)
    | SetDescription(description: string)
    | SetCategory(category: string)
    | SetColor(color: string)
    | SetTargetFrequency(targetFrequency: int)

  /** The form after one edit: the named field takes the value, the others stay. */
  function Applied(form: Draft, change: FieldChange): (r: Draft)
    ensures change.SetName? ==> r == form.(name := change.name)
    ensures change.SetDescription? ==> r == form.(description := change.description)
    ensures change.SetCategory? ==> r == form.(category := change.category)
    ensures change.SetColor? ==> r == form.(color := change.color)
    ensures change.SetTargetFrequency? ==> r == form.(targetFrequency := change.targetFrequency)
  {
    match change
    case SetName(v) => Draft(v, form.description, form.category, form.color, form.targetFrequency)
    case SetDescription(v) => Draft(form.name, v, form.category, form.color, form.targetFrequency)
    case SetCategory(v) => Draft(form.name, form.description, v, form.color, form.targetFrequency)
    case SetColor(v) => Draft(form.name, form.description, form.category, v, form.targetFrequency)
    case SetTargetFrequency(v) => Draft(form.name, form.description, form.category, form.color, v)
  }

  /** Setting a field twice keeps only the second value. */
  lemma AppliedLastWins(form: Draft, first: FieldChange, second: FieldChange)
    requires first.SetName? == second.SetName? && first.SetDescription? == second.SetDescription?
    requires first.SetCategory? == second.SetCategory? && first.SetColor? == second.SetColor?
    ensures Applied(Applied(form, first), second) == Applied(form, second)
  {
  }

  /** The dialog's `formData` state. */
  class Form {
    var formData: Draft

    /** A new form holds the defaults. */
    constructor ()
      ensures formData == DefaultForm
    {
      formData := DefaultForm;
    }

    /** `handleSubmit`: a blank name does nothing; otherwise the current form,
        untrimmed, is handed to `onAddHabit` and the form goes back to defaults. */
    method Submit() returns (emitted: Option<Draft>)
      modifies this
      ensures IsBlank(old(formData).name) ==> emitted == None && formData == old(formData)
      ensures !IsBlank(old(formData).name) ==> emitted == Some(old(formData)) && formData == DefaultForm
    {
      if IsBlank(formData.name) {
        emitted := None;
        return;
      }
      emitted := Some(formData);
      formData := DefaultForm;
    }

    /** Applies one edit to the form. */
    method HandleInputChange(change: FieldChange)
      modifies this
      ensures formData == Applied(old(formData), change)
    {
      formData := Applied(formData, change);
    }
  }

  /** Whether a submit hands a draft over depends only on the name. */
  lemma SubmitDependsOnlyOnName(form: Draft, change: FieldChange)
    requires !change.SetName?
    ensures IsBlank(Applied(form, change).name) == IsBlank(form.name)
  {
  }
}
