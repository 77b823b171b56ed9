/**
 * The edits the form builder makes to the form it is editing. Each edit
 * takes the current form and gives the next one; the id of a new field is a
 * parameter standing for the source's `uuidv4()`.
 */
module FormBuilder {
  import opened ArrayOps
  import opened FormTypes

  /** Two forms agree on everything but their fields. */
  predicate SameHeader(a: Form, b: Form)
  {
    a.id == b.id && a.title == b.title && a.description == b.description
      && a.createdAt == b.createdAt && a.updatedAt == b.updatedAt
  }

  /** The field that adding a field of kind `kind` creates. */
  function NewField(id: string, kind: FieldType): FormField
  {
    FormField(id, kind, "New " + TypeName(kind) + " field", false,
              if HasOptions(kind) then Some(["Option 1"]) else None, None)
  }

  /** Appends a fresh field of kind `kind`. */
  function AddField(form: Form, id: string, kind: FieldType): (r: Form)
    ensures SameHeader(form, r)
    ensures |r.fields| == |form.fields| + 1
    ensures r.fields[..|form.fields|] == form.fields
    ensures var f := r.fields[|form.fields|];
      && f.id == id && f.kind == kind
      && f.caption == "New " + TypeName(kind) + " field"
      && !f.required && f.placeholder == None
      && (f.options.Some? <==> HasOptions(kind))
      && (f.options.Some? ==> f.options.value == ["Option 1"])
  {
    form.(fields := form.fields + [NewField(id, kind)])
  }

  /** A fresh id keeps the field ids of the form unique. */
  lemma AddFieldKeepsIdsUnique(form: Form, id: string, kind: FieldType)
    requires UniqueFieldIds(form)
    requires forall f :: f in form.fields ==> f.id != id
    ensures UniqueFieldIds(AddField(form, id, kind))
  {
  }

  /**
   * `Partial<FormField>` as the builder passes it: each present entry
   * overrides that attribute. No call site passes an `id`, so a patch has none.
   */
  datatype FieldPatch = FieldPatch(
    kind: Option<FieldType>,
    caption: Option<string>,
    required: Option<bool>,
    options: Option<seq<string>>,
    placeholder: Option<string>)

  /** The patch the label input sends. */
  function CaptionPatch(s: string): FieldPatch
  {
    FieldPatch(None, Some(s), None, None, None)
  }

  /** The patch the Required checkbox sends. */
  function RequiredPatch(b: bool): FieldPatch
  {
    FieldPatch(None, None, Some(b), None, None)
  }

  /** The patch both option handlers send. */
  function OptionsPatch(o: seq<string>): FieldPatch
  {
    FieldPatch(None, None, None, Some(o), None)
  }

  /** `{ ...field, ...updates }` */
  function ApplyPatch(f: FormField, u: FieldPatch): (g: FormField)
    ensures g.id == f.id
  {
    FormField(
      f.id,
      if u.kind.Some? then u.kind.value else f.kind,
      if u.caption.Some? then u.caption.value else f.caption,
      if u.required.Some? then u.required.value else f.required,
      if u.options.Some? then Some(u.options.value) else f.options,
      if u.placeholder.Some? then Some(u.placeholder.value) else f.placeholder)
  }

  /** Applies the patch to every field whose id is `fieldId`. */
  function UpdateField(form: Form, fieldId: string, u: FieldPatch): (r: Form)
    ensures SameHeader(form, r)
    ensures |r.fields| == |form.fields|
    ensures FieldIds(r.fields) == FieldIds(form.fields)
  {
    var fs := seq(|form.fields|, i requires 0 <= i < |form.fields| =>
                if form.fields[i].id == fieldId then ApplyPatch(form.fields[i], u) else form.fields[i]);
    assert FieldIds(fs) == FieldIds(form.fields);
    form.(fields := fs)
  }

  /**
   * Updating changes exactly the fields that carry `fieldId`, each by the
   * patch, and leaves the others and the order alone.
   */
  lemma UpdateFieldAt(form: Form, fieldId: string, u: FieldPatch)
    ensures forall i :: 0 <= i < |form.fields| ==>
      (form.fields[i].id == fieldId ==> UpdateField(form, fieldId, u).fields[i] == ApplyPatch(form.fields[i], u))
      && (form.fields[i].id != fieldId ==> UpdateField(form, fieldId, u).fields[i] == form.fields[i])
  {
  }

  /**
   * The label input and the Required checkbox change exactly that one
   * attribute of the fields carrying the id.
   */
  lemma CaptionAndRequiredEdits(form: Form, fieldId: string, s: string, b: bool)
    ensures forall i :: 0 <= i < |form.fields| && form.fields[i].id == fieldId ==>
      UpdateField(form, fieldId, CaptionPatch(s)).fields[i] == form.fields[i].(caption := s)
      && UpdateField(form, fieldId, RequiredPatch(b)).fields[i] == form.fields[i].(required := b)
  {
  }

  /** Updating a field no field carries changes nothing. */
  lemma UpdateFieldAbsent(form: Form, fieldId: string, u: FieldPatch)
    requires forall f :: f in form.fields ==> f.id != fieldId
    ensures UpdateField(form, fieldId, u) == form
  {
  }

  /** Updating keeps the field ids of the form unique. */
  lemma UpdateFieldKeepsIdsUnique(form: Form, fieldId: string, u: FieldPatch)
    requires UniqueFieldIds(form)
    ensures UniqueFieldIds(UpdateField(form, fieldId, u))
  {
  }

  /** Applying the same patch twice is applying it once. */
  lemma UpdateFieldIdempotent(form: Form, fieldId: string, u: FieldPatch)
    ensures UpdateField(UpdateField(form, fieldId, u), fieldId, u) == UpdateField(form, fieldId, u)
  {
  }

  /** The test `field.id !== fieldId` that removing a field keeps the others by. */
  function OtherField(fieldId: string): FormField -> bool
  {
    (f: FormField) => f.id != fieldId
  }

  /** Drops every field whose id is `fieldId`. */
  function RemoveField(form: Form, fieldId: string): (r: Form)
    ensures SameHeader(form, r)
    ensures forall f :: f in r.fields <==> f in form.fields && f.id != fieldId
  {
    form.(fields := Filter(form.fields, OtherField(fieldId)))
  }

  /**
   * Removing keeps the remaining fields in order and keeps ids unique;
   * removing an id no field carries changes nothing.
   */
  lemma RemoveFieldKeepsRest(form: Form, fieldId: string)
    ensures Subseq(RemoveField(form, fieldId).fields, form.fields)
    ensures |RemoveField(form, fieldId).fields| == Count(form.fields, OtherField(fieldId))
    ensures UniqueFieldIds(form) ==> UniqueFieldIds(RemoveField(form, fieldId))
    ensures (forall f :: f in form.fields ==> f.id != fieldId) ==> RemoveField(form, fieldId) == form
  {
    FilterIsSubseq(form.fields, OtherField(fieldId));
    FilterLength(form.fields, OtherField(fieldId));
    if UniqueFieldIds(form) {
      FilterDistinct(form.fields, OtherField(fieldId), FieldId);
    }
    if forall f :: f in form.fields ==> f.id != fieldId {
      FilterAll(form.fields, OtherField(fieldId));
    }
  }

  /** `field.options || []`: a field without options counts as having none. */
  function OptionsOrEmpty(field: FormField): seq<string>
  {
    if field.options.Some? then field.options.value else []
  }

  /**
   * The handler of the input for option `index` of `field`: copies the
   * options, overwrites that one slot with `value`, and updates the field.
   * It is only wired to inputs rendered for the options the field has.
   */
  method EditOption(form: Form, field: FormField, index: nat, value: string) returns (r: Form)
    requires field.options.Some? && index < |field.options.value|
    ensures SameHeader(form, r)
    ensures |r.fields| == |form.fields|
    ensures forall i :: 0 <= i < |form.fields| && form.fields[i].id != field.id ==> r.fields[i] == form.fields[i]
    ensures forall i :: 0 <= i < |form.fields| && form.fields[i].id == field.id ==>
      var o := r.fields[i].options;
      && r.fields[i] == form.fields[i].(options := o)
      && o.Some? && |o.value| == |field.options.value|
      && o.value[index] == value
      && forall k :: 0 <= k < |o.value| && k != index ==> o.value[k] == field.options.value[k]
  {
    var current := OptionsOrEmpty(field);
    var copy := new string[|current|](k requires 0 <= k < |current| => current[k]);
    copy[index] := value;
    r := UpdateField(form, field.id, OptionsPatch(copy[..]));
    UpdateFieldAt(form, field.id, OptionsPatch(copy[..]));
  }

  /** The Add Option button: appends an empty option to `field`'s options. */
  function AddOption(form: Form, field: FormField): (r: Form)
    ensures SameHeader(form, r)
    ensures |r.fields| == |form.fields|
    ensures forall i :: 0 <= i < |form.fields| && form.fields[i].id != field.id ==> r.fields[i] == form.fields[i]
    ensures forall i :: 0 <= i < |form.fields| && form.fields[i].id == field.id ==>
      r.fields[i] == form.fields[i].(options := Some(OptionsOrEmpty(field) + [""]))
  {
    UpdateFieldAt(form, field.id, OptionsPatch(OptionsOrEmpty(field) + [""]));
    UpdateField(form, field.id, OptionsPatch(OptionsOrEmpty(field) + [""]))
  }

  /**
   * On the field it is rendered for, Add Option grows the options by one
   * empty entry, and a field without options gets the single option `""`.
   */
  lemma AddOptionOnOwnField(form: Form, k: nat)
    requires k < |form.fields| && UniqueFieldIds(form)
    ensures var field := form.fields[k];
      var r := AddOption(form, field);
      && r.fields[k].options.Some?
      && r.fields[k].options.value == OptionsOrEmpty(field) + [""]
      && |r.fields[k].options.value| == |OptionsOrEmpty(field)| + 1
      && (field.options.None? ==> r.fields[k].options.value == [""])
      && forall i :: 0 <= i < |form.fields| && i != k ==> r.fields[i] == form.fields[i]
  {
  }
}
