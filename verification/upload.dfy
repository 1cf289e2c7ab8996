/**
 * The upload flow around the crop editor: the file-type gate, validation of
 * the crop form, the submit button and error note it toggles, the sync of
 * the form fields with the editor in both directions, the submit gate, the
 * status message, and disposal of the editor.
 */
module Upload {
  import opened Wrappers
  import opened Web
  import opened Geometry
  import opened Cropper

  // ---------------------------------------------------------------------------
  // File-type gate.
  // ---------------------------------------------------------------------------

  /** The keys of the file-type table, in the order they are joined into the pattern. */
  const FileTypeKeys: seq<string> := ["GIF", "JPEG", "PNG", "SVG+XML"]

  /**
   * The type test: the pattern `^image/(GIF|JPEG|PNG|SVG\+XML)$` with the `i`
   * flag, built from the keys with the '+' escaped, so the whole type must
   * equal one of the four names, compared without regard to ASCII case.
   */
  predicate FileTypeAccepted(mime: string) {
    exists k :: 0 <= k < |FileTypeKeys| && EqualsIgnoringAsciiCase(mime, "image/" + FileTypeKeys[k])
  }

  /** The upper-case form of the `k`-th accepted type. */
  function UpperType(k: int): string
    requires 0 <= k < 4
  {
    "IMAGE/" + FileTypeKeys[k]
  }

  lemma KeyUpper(k: int)
    requires 0 <= k < 4
    ensures AsciiUpperString("image/" + FileTypeKeys[k]) == UpperType(k)
  {
    UpperAppend("image/", FileTypeKeys[k]);
    assert AsciiUpperString("image/") == "IMAGE/";
    KeyHasNoLowerCase(k);
    UpperOfUpper(FileTypeKeys[k]);
  }

  lemma KeyHasNoLowerCase(k: int)
    requires 0 <= k < 4
    ensures forall i :: 0 <= i < |FileTypeKeys[k]| ==> FileTypeKeys[k][i] < 'a'
  {
  }

  lemma UpperAppend(s: string, t: string)
    ensures AsciiUpperString(s + t) == AsciiUpperString(s) + AsciiUpperString(t)
  {
    var l, r := AsciiUpperString(s + t), AsciiUpperString(s) + AsciiUpperString(t);
    assert |l| == |r|;
    forall i | 0 <= i < |l|
      ensures l[i] == r[i]
    {
      if i >= |s| {
        assert (s + t)[i] == t[i - |s|];
      }
    }
  }

  /** A string of characters below 'a' is its own upper-case form. */
  lemma UpperOfUpper(s: string)
    requires forall i :: 0 <= i < |s| ==> s[i] < 'a'
    ensures AsciiUpperString(s) == s
  {
  }

  /** The type is accepted exactly when its upper-case form is one of the four listed types. */
  lemma FileTypeGate(mime: string)
    ensures FileTypeAccepted(mime) <==> exists k :: 0 <= k < 4 && AsciiUpperString(mime) == UpperType(k)
  {
    forall k | 0 <= k < 4
      ensures EqualsIgnoringAsciiCase(mime, "image/" + FileTypeKeys[k]) <==> AsciiUpperString(mime) == UpperType(k)
    {
      KeyUpper(k);
      EqualsIgnoringCaseIffUpper(mime, "image/" + FileTypeKeys[k]);
    }
  }

  /** The seventh character of an accepted type's upper-case form is the first of its key: G, J, P or S. */
  lemma SeventhChar(k: int)
    requires 0 <= k < 4
    ensures |UpperType(k)| == 6 + |FileTypeKeys[k]| && |FileTypeKeys[k]| >= 3
    ensures UpperType(k)[6] == FileTypeKeys[k][0]
    ensures FileTypeKeys[k][0] in ['G', 'J', 'P', 'S']
    ensures forall j :: 0 <= j < 4 && FileTypeKeys[j][0] == FileTypeKeys[k][0] ==> j == k
  {
  }

  /** A prefix or suffix around an accepted type is rejected: the pattern is anchored at both ends. */
  lemma FileTypeGateIsAnchored(mime: string, extra: string)
    requires FileTypeAccepted(mime) && extra != ""
    ensures !FileTypeAccepted(mime + extra)
  {
    FileTypeGate(mime);
    FileTypeGate(mime + extra);
    var u := AsciiUpperString(mime);
    var v := AsciiUpperString(mime + extra);
    var i :| 0 <= i < 4 && u == UpperType(i);
    SeventhChar(i);
    if j :| 0 <= j < 4 && v == UpperType(j) {
      SeventhChar(j);
      assert false;
    }
  }

  /** Only types of 9, 10 or 13 characters can pass. */
  lemma RejectedByLength(mime: string)
    requires |mime| != 9 && |mime| != 10 && |mime| != 13
    ensures !FileTypeAccepted(mime)
  {
    forall k | 0 <= k < 4
      ensures !EqualsIgnoringAsciiCase(mime, "image/" + FileTypeKeys[k])
    {
      assert |"image/" + FileTypeKeys[k]| == 6 + |FileTypeKeys[k]|;
    }
  }

  /** Only types whose seventh character is G, J, P or S, in either case, can pass. */
  lemma RejectedBySeventhChar(mime: string)
    requires |mime| > 6
    requires var c := AsciiUpper(mime[6]); c != 'G' && c != 'J' && c != 'P' && c != 'S'
    ensures !FileTypeAccepted(mime)
  {
    FileTypeGate(mime);
    if k :| 0 <= k < 4 && AsciiUpperString(mime) == UpperType(k) {
      SeventhChar(k);
      assert false;
    }
  }

  /** Upper-casing a type never changes whether it passes. */
  lemma CaseDoesNotMatter(mime: string)
    ensures FileTypeAccepted(mime) <==> FileTypeAccepted(AsciiUpperString(mime))
  {
    FileTypeGate(mime);
    FileTypeGate(AsciiUpperString(mime));
    UpperIdempotent(mime);
  }

  lemma UpperIdempotent(s: string)
    ensures AsciiUpperString(AsciiUpperString(s)) == AsciiUpperString(s)
  {
    var u := AsciiUpperString(s);
    var uu := AsciiUpperString(u);
    assert |uu| == |u|;
    forall i | 0 <= i < |u|
      ensures uu[i] == u[i]
    {
      assert uu[i] == AsciiUpper(u[i]);
    }
  }

  /** Each listed type passes, written as in the table or in upper case. */
  lemma ListedTypesAccepted(k: int)
    requires 0 <= k < 4
    ensures FileTypeAccepted("image/" + FileTypeKeys[k])
    ensures FileTypeAccepted(UpperType(k))
  {
    assert EqualsIgnoringAsciiCase("image/" + FileTypeKeys[k], "image/" + FileTypeKeys[k]);
    CaseDoesNotMatter("image/" + FileTypeKeys[k]);
    KeyUpper(k);
  }

  /** Examples of rejection: an unlisted type, and the SVG type without its "+". */
  lemma FileTypeRejections()
    ensures !FileTypeAccepted("image/bmp")
    ensures !FileTypeAccepted("image/svgxml")
  {
    RejectedBySeventhChar("image/bmp");
    RejectedByLength("image/svgxml");
  }

  // ---------------------------------------------------------------------------
  // Crop form validation and the controls it toggles.
  // ---------------------------------------------------------------------------

  /** The crop form's numeric fields, as read with unary `+`. */
  datatype FormFields = FormFields(x: real, y: real, size: real)

  /**
   * The form is valid unless a field is negative or the square sticks out of
   * the image on the right or at the bottom. A size of 0 passes.
   */
  function ResizeFormIsValid(f: FormFields, naturalWidth: nat, naturalHeight: nat): (valid: bool)
    ensures valid <==>
      && 0.0 <= f.x && 0.0 <= f.y && 0.0 <= f.size
      && f.x + f.size <= naturalWidth as real
      && f.y + f.size <= naturalHeight as real
  {
    if f.x < 0.0 || f.y < 0.0 || f.size < 0.0 then false
    else if f.x + f.size > naturalWidth as real then false
    else if f.y + f.size > naturalHeight as real then false
    else true
  }

  /**
   * The submit button, how many error notes the controls hold, and whether
   * the module's reference to an error note is set.
   */
  datatype ResizeControls = ResizeControls(submitDisabled: bool, errorNotes: nat, errorRef: bool)

  /** The reference to the error note is set exactly when the one error note exists. */
  predicate Consistent(c: ResizeControls) {
    c.errorNotes <= 1 && (c.errorRef <==> c.errorNotes == 1)
  }

  /**
   * Valid: enable submit and remove the referenced note, if any. Invalid:
   * disable submit and add a note, unless one is referenced already.
   */
  function ValidateResizeForm(c: ResizeControls, valid: bool): (c': ResizeControls)
    requires c.errorRef ==> c.errorNotes > 0
    ensures c'.errorRef ==> c'.errorNotes > 0
    ensures Consistent(c) ==> Consistent(c')
    ensures valid ==> !c'.submitDisabled && !c'.errorRef
    ensures !valid ==> c'.submitDisabled && c'.errorRef
    ensures Consistent(c) && valid ==> c'.errorNotes == 0
    ensures Consistent(c) && !valid ==> c'.errorNotes == 1
  {
    if valid then
      ResizeControls(false, if c.errorRef then c.errorNotes - 1 else c.errorNotes, false)
    else
      ResizeControls(true, if c.errorRef then c.errorNotes else c.errorNotes + 1, true)
  }

  /** Repeating a validation with the same outcome changes nothing; in particular no second note appears. */
  lemma ValidateIsIdempotent(c: ResizeControls, valid: bool)
    requires c.errorRef ==> c.errorNotes > 0
    ensures ValidateResizeForm(ValidateResizeForm(c, valid), valid) == ValidateResizeForm(c, valid)
  {
  }

  /** A form change first re-reads the reference from the controls: set when a note is present. */
  function RequeryErrorNote(c: ResizeControls): (c': ResizeControls)
    ensures c'.errorRef <==> c.errorNotes > 0
    ensures c.errorNotes <= 1 ==> Consistent(c')
  {
    c.(errorRef := c.errorNotes > 0)
  }

  // ---------------------------------------------------------------------------
  // The status message.
  // ---------------------------------------------------------------------------

  datatype Action = Error | Uploading | Custom

  /** The message box: its markup, whether it is shown, and whether it has the error style. */
  datatype MessageBox = MessageBox(markup: string, visible: bool, errorStyle: bool)

  const UploadingText: string := "Кексограмим&hellip;"

  /** The default error markup, linking back to the current page at `location`. */
  function ErrorText(location: string): string {
    "Неподдерживаемый формат файла<br> <a href=\"" + location + "\">Попробовать еще раз</a>."
  }

  /**
   * Shows a message. For uploading and error the supplied text is used when it
   * is a non-empty string, and the action's default otherwise; a custom
   * message is shown as supplied, an absent one as the text "undefined".
   * Only the error action gets the error style.
   */
  function ShowMessage(action: Action, message: Option<string>, location: string): (m: MessageBox)
    ensures m.visible
    ensures m.errorStyle <==> action.Error?
    ensures Truthy(message) ==> m.markup == message.value
    ensures !Truthy(message) && action.Uploading? ==> m.markup == UploadingText
    ensures !Truthy(message) && action.Error? ==> m.markup == ErrorText(location)
    ensures action.Custom? ==> m.markup == message.GetOr("undefined")
  {
    match action
    case Uploading => MessageBox(if Truthy(message) then message.value else UploadingText, true, false)
    case Error => MessageBox(if Truthy(message) then message.value else ErrorText(location), true, true)
    case Custom => MessageBox(message.GetOr("undefined"), true, false)
  }

  function HideMessage(m: MessageBox): (m': MessageBox)
    ensures !m'.visible && m'.markup == m.markup && m'.errorStyle == m.errorStyle
  {
    m.(visible := false)
  }

  // ---------------------------------------------------------------------------
  // The upload state and its transitions.
  // ---------------------------------------------------------------------------

  /** Which of the three forms is shown. */
  datatype Stage = ChooseFile | Cropping | Filtering

  datatype UploadState = UploadState(
    stage: Stage,
    fields: FormFields,
    controls: ResizeControls,
    resizer: Option<Resizer>,
    preview: Option<Exported>,
    message: MessageBox)

  /** Disposes of the editor, if there is one. */
  function CleanupResizer(s: UploadState): (s': UploadState)
    ensures s'.resizer.None?
    ensures s' == s.(resizer := None)
  {
    if s.resizer.Some? then s.(resizer := None) else s
  }

  lemma CleanupIsIdempotent(s: UploadState)
    ensures CleanupResizer(CleanupResizer(s)) == CleanupResizer(s)
  {
  }

  /** The result of a handler: the new state, or the TypeError the script stops with. */
  datatype Outcome = Done(state: UploadState) | Threw

  /**
   * A file was chosen; `files` lists the MIME types of the input's file list.
   * The first file's type is read without a check, so an empty list throws.
   * An accepted type shows the uploading message (the file is then read and
   * handed to `FileRead`); any other type shows the error message and nothing
   * else changes.
   */
  function FileChosen(s: UploadState, files: seq<string>, location: string): (o: Outcome)
    ensures files == [] <==> o.Threw?
    ensures files != [] && FileTypeAccepted(files[0]) ==> o == Done(s.(message := ShowMessage(Uploading, None, location)))
    ensures files != [] && !FileTypeAccepted(files[0]) ==> o == Done(s.(message := ShowMessage(Error, None, location)))
    ensures o.Done? ==> (o.state.message.errorStyle <==> !FileTypeAccepted(files[0]))
  {
    if files == [] then Threw
    else if FileTypeAccepted(files[0]) then Done(s.(message := ShowMessage(Uploading, None, location)))
    else Done(s.(message := ShowMessage(Error, None, location)))
  }

  /** The file has been read: a new editor replaces the old one and the crop form is shown. */
  function FileRead(s: UploadState): (s': UploadState)
    ensures s'.stage == Cropping && s'.resizer == Some(NewResizer()) && !s'.message.visible
    ensures s'.message.markup == s.message.markup && s'.message.errorStyle == s.message.errorStyle
    ensures s' == s.(stage := s'.stage, resizer := s'.resizer, message := s'.message)
  {
    CleanupResizer(s).(resizer := Some(NewResizer()), stage := Cropping, message := HideMessage(s.message))
  }

  /** The editor's natural size, as the validation reads it. */
  function NaturalSize(r: Resizer): (nat, nat) {
    (r.image.width, r.image.height)
  }

  function FieldsValid(s: UploadState): bool
    requires s.resizer.Some?
  {
    ResizeFormIsValid(s.fields, s.resizer.value.image.width, s.resizer.value.image.height)
  }

  /**
   * The editor announced a change: the controls are validated against the
   * fields as they still are, and only then do the fields receive the floors
   * of the editor's square.
   */
  function UpdateResizeForm(s: UploadState): (s': UploadState)
    requires s.resizer.Some? && Loaded(s.resizer.value) && (s.controls.errorRef ==> s.controls.errorNotes > 0)
    ensures var c := s.resizer.value.constraint.value;
      s'.fields == FormFields(c.x.Floor as real, c.y.Floor as real, c.side.Floor as real)
    ensures s'.controls == ValidateResizeForm(s.controls, FieldsValid(s))
    ensures s' == s.(fields := s'.fields, controls := s'.controls)
  {
    var c := s.resizer.value.constraint.value;
    s.(controls := ValidateResizeForm(s.controls, FieldsValid(s)),
       fields := FormFields(c.x.Floor as real, c.y.Floor as real, c.side.Floor as real))
  }

  /**
   * The crop form changed: re-read the error note, validate, then hand all
   * three fields to the editor.
   */
  function OnResizeFormChange(s: UploadState): (s': UploadState)
    requires s.resizer.Some? && Loaded(s.resizer.value)
    ensures s'.controls == ValidateResizeForm(RequeryErrorNote(s.controls), FieldsValid(s))
    ensures s'.resizer == Some(SetConstraint(s.resizer.value, Some(s.fields.x), Some(s.fields.y), Some(s.fields.size)))
    ensures s' == s.(controls := s'.controls, resizer := s'.resizer)
  {
    var r := s.resizer.value;
    s.(controls := ValidateResizeForm(RequeryErrorNote(s.controls), FieldsValid(s)),
       resizer := Some(SetConstraint(r, Some(s.fields.x), Some(s.fields.y), Some(s.fields.size))))
  }

  /**
   * Whole-number fields survive the round trip through the editor: after the
   * form change and the change the editor then announces, the fields are as
   * typed and the controls show the form's validity.
   */
  lemma FieldsSurviveRoundTrip(s: UploadState)
    requires s.resizer.Some? && Loaded(s.resizer.value)
    requires Integral(s.fields.x) && Integral(s.fields.y) && Integral(s.fields.size)
    ensures var s' := UpdateResizeForm(OnResizeFormChange(s));
      && s'.fields == s.fields
      && (s'.controls.submitDisabled <==> !FieldsValid(s))
  {
  }

  /**
   * Submitting the crop form: only when the fields are valid is the cropped
   * picture exported into the filter form, which is then shown.
   */
  function SubmitResize(s: UploadState): (s': UploadState)
    requires s.resizer.Some? && (FieldsValid(s) ==> Loaded(s.resizer.value))
    ensures FieldsValid(s) ==> s'.stage == Filtering && s'.preview == Some(Export(s.resizer.value))
    ensures FieldsValid(s) ==> s' == s.(stage := s'.stage, preview := s'.preview)
    ensures !FieldsValid(s) ==> s' == s
  {
    if FieldsValid(s) then s.(preview := Some(Export(s.resizer.value)), stage := Filtering) else s
  }

  /**
   * Valid whole-number fields, matching the editor's square, export exactly
   * the source pixels under the square.
   */
  lemma ValidSubmitExportsCoveredPixels(s: UploadState, x: nat, y: nat, size: nat)
    requires s.resizer.Some? && s.resizer.value.image.Valid()
    requires s.fields == FormFields(x as real, y as real, size as real)
    requires s.resizer.value.constraint == Some(Square(x as real, y as real, size as real))
    requires FieldsValid(s) && size <= 2147483647
    ensures var p := SubmitResize(s).preview.value;
      var image := s.resizer.value.image;
      && p.width == size && p.height == size
      && forall i, j :: 0 <= i < size && 0 <= j < size ==> p.pixels[j][i] == Source(image.rows[y + j][x + i])
  {
    ExportCopiesCoveredPixels(s.resizer.value, x, y, size);
  }

  /** Resetting the crop form disposes of the editor and goes back to choosing a file. */
  function ResetResize(s: UploadState): (s': UploadState)
    ensures s'.stage == ChooseFile && s'.resizer.None?
    ensures s' == s.(stage := s'.stage, resizer := s'.resizer)
  {
    CleanupResizer(s).(stage := ChooseFile)
  }

  /** Resetting the filter form goes back to cropping with the same editor. */
  function ResetFilter(s: UploadState): (s': UploadState)
    ensures s'.stage == Cropping && s'.resizer == s.resizer
    ensures s' == s.(stage := s'.stage)
  {
    s.(stage := Cropping)
  }

  /**
   * Submitting the filter form, once the filter is saved, does what resetting
   * the crop form does: the editor is disposed of and a file is chosen anew.
   */
  function SubmitFilter(s: UploadState): (s': UploadState)
    ensures s'.stage == ChooseFile && s'.resizer.None?
    ensures s' == s.(stage := s'.stage, resizer := s'.resizer)
  {
    ResetResize(s)
  }

  /** A size of 0 passes validation, and a freshly loaded image's floored square is valid. */
  lemma ZeroSizeAccepted(width: nat, height: nat, x: real, y: real)
    requires 0.0 <= x <= width as real && 0.0 <= y <= height as real
    ensures ResizeFormIsValid(FormFields(x, y, 0.0), width, height)
  {
  }

  /** The floors of the initial square always pass validation. */
  lemma InitialFieldsAreValid(width: nat, height: nat)
    ensures var c := InitialConstraint(width, height);
      ResizeFormIsValid(FormFields(c.x.Floor as real, c.y.Floor as real, c.side.Floor as real), width, height)
  {
    var c := InitialConstraint(width, height);
    FloorSumBound(c.x, c.side);
    FloorSumBound(c.y, c.side);
  }

  lemma FloorSumBound(a: real, b: real)
    requires 0.0 <= a && 0.0 <= b
    ensures 0 <= a.Floor && 0 <= b.Floor
    ensures a.Floor as real + b.Floor as real <= a + b
  {
  }
}
