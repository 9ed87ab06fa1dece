/**
 * The name check of `handleCreate` in the workflow list
 * (client/src/components/WorkflowList.tsx): the typed name is trimmed, then
 * checked for emptiness, for length and for its characters, in that order;
 * the first failure is shown, and a name that passes is created and the form
 * reset.
 */
module WorkflowList {
  import opened Wrappers
  import opened TextUtil

  const EmptyNameMessage: string := "Workflow name cannot be empty"
  const TooLongMessage: string := "Workflow name cannot exceed 50 characters"
  const CharsetMessage: string := "Workflow name can only contain letters, numbers, and spaces"

  const MaxNameLength: nat := 50

  /** The number of trailing characters that `trim()` removes. */
  function Trail(s: string): (n: nat)
    ensures n <= |s|
    ensures forall k :: |s| - n <= k < |s| ==> IsJsSpace(s[k])
    ensures n < |s| ==> !IsJsSpace(s[|s| - n - 1])
  {
    if s == [] || !IsJsSpace(s[|s| - 1]) then 0 else 1 + Trail(s[..|s| - 1])
  }

  /** `String.prototype.trim`. */
  function Trim(s: string): (r: string)
    ensures r == [] <==> forall k :: 0 <= k < |s| ==> IsJsSpace(s[k])
    ensures r != [] ==> !IsJsSpace(r[0]) && !IsJsSpace(r[|r| - 1])
    ensures r != [] ==> r == s[SpaceRun(s)..|s| - Trail(s)]
  {
    var a := SpaceRun(s);
    if a == |s| then []
    else
      assert !IsJsSpace(s[a]);
      s[a..|s| - Trail(s)]
  }

  /** `.length` of a JavaScript string: characters outside the Basic Multilingual Plane count twice. */
  function Utf16Length(s: string): (n: nat)
    ensures |s| <= n <= 2 * |s|
  {
    if s == [] then 0 else (if s[0] as int > 0xFFFF then 2 else 1) + Utf16Length(s[1..])
  }

  predicate IsAsciiAlphanumeric(c: char)
  {
    'a' <= c <= 'z' || 'A' <= c <= 'Z' || '0' <= c <= '9'
  }

  /** A character of the class `[a-zA-Z0-9\s]`. */
  predicate AllowedChar(c: char)
  {
    IsAsciiAlphanumeric(c) || IsJsSpace(c)
  }

  /** The names that are accepted, stated apart from the order of the checks. */
  predicate ValidWorkflowName(name: string)
  {
    |name| > 0 && Utf16Length(name) <= MaxNameLength && forall k :: 0 <= k < |name| ==> AllowedChar(name[k])
  }

  datatype Form = Form(creating: bool, name: string, validationError: Option<string>)

  /** The form after the click, and the name passed to `onCreateWorkflow` if it was called. */
  datatype CreateOutcome = CreateOutcome(form: Form, created: Option<string>)

  function HandleCreate(form: Form): (r: CreateOutcome)
    ensures r.created.Some? <==> ValidWorkflowName(Trim(form.name))
    ensures r.created.Some? ==> r.created.value == Trim(form.name) && r.form == Form(false, "", None)
    ensures r.created.None? ==>
      && r.form.creating == form.creating
      && r.form.name == form.name
      && r.form.validationError.Some?
      && r.form.validationError.value in {EmptyNameMessage, TooLongMessage, CharsetMessage}
  {
    var trimmedName := Trim(form.name);
    if Utf16Length(trimmedName) == 0 then
      CreateOutcome(form.(validationError := Some(EmptyNameMessage)), None)
    else if Utf16Length(trimmedName) > MaxNameLength then
      CreateOutcome(form.(validationError := Some(TooLongMessage)), None)
    else if exists k :: 0 <= k < |trimmedName| && !AllowedChar(trimmedName[k]) then
      CreateOutcome(form.(validationError := Some(CharsetMessage)), None)
    else
      CreateOutcome(Form(false, "", None), Some(trimmedName))
  }

  /** The checks run in order and the first failure is the message shown. */
  lemma CheckOrder(form: Form)
    ensures var t := Trim(form.name);
      && (t == [] ==> HandleCreate(form).form.validationError == Some(EmptyNameMessage))
      && (t != [] && Utf16Length(t) > MaxNameLength ==>
            HandleCreate(form).form.validationError == Some(TooLongMessage))
      && (t != [] && Utf16Length(t) <= MaxNameLength && !ValidWorkflowName(t) ==>
            HandleCreate(form).form.validationError == Some(CharsetMessage))
  {
  }

  /** A blank name, however many spaces it has, is reported as empty. */
  lemma BlankNameIsEmpty(form: Form)
    requires forall k :: 0 <= k < |form.name| ==> IsJsSpace(form.name[k])
    ensures HandleCreate(form).form.validationError == Some(EmptyNameMessage)
    ensures HandleCreate(form).created.None?
  {
  }

  /**
   * A created name has between 1 and 50 characters and starts and ends with
   * a letter or a digit: the inner spaces are kept, the outer ones trimmed.
   */
  lemma CreatedNameShape(form: Form)
    requires HandleCreate(form).created.Some?
    ensures var name := HandleCreate(form).created.value;
      && 1 <= |name| <= MaxNameLength
      && IsAsciiAlphanumeric(name[0]) && IsAsciiAlphanumeric(name[|name| - 1])
  {
    var name := Trim(form.name);
    assert AllowedChar(name[0]) && AllowedChar(name[|name| - 1]);
  }

  /** Surrounding spaces do not change the outcome. */
  lemma {:induction false} TrimIdempotent(s: string)
    ensures Trim(Trim(s)) == Trim(s)
  {
    var t := Trim(s);
    if t != [] {
      assert SpaceRun(t) == 0;
      assert Trail(t) == 0;
      assert t[0..|t|] == t;
    }
  }
}
