/**
 * The records of the form builder: a form definition, its fields, and a
 * submitted response. Timestamps are the integers a clock hands out; ids are
 * opaque strings.
 */
module FormTypes {
  import opened ArrayOps

  datatype Option<+T> = None | Some(value: T)

  /** The six kinds of input a field can be. */
  datatype FieldType = Text | Number | Date | Checkbox | Select | Radio

  /** The spelling of each kind in the source (`'text'`, `'number'`, ...). */
  function TypeName(t: FieldType): string
  {
    match t
    case Text => "text"
    case Number => "number"
    case Date => "date"
    case Checkbox => "checkbox"
    case Select => "select"
    case Radio => "radio"
  }

  /** The kinds whose field carries a list of options to choose from. */
  predicate HasOptions(t: FieldType)
  {
    t == Select || t == Radio
  }

  /** One input of a form (`caption` is the source's `label`, a Dafny keyword); `options` and `placeholder` may be absent. */
  datatype FormField = FormField(
    id: string,
    kind: FieldType,
    caption: string,
    required: bool,
    options: Option<seq<string>>,
    placeholder: Option<string>)

  /** A form definition; the order of `fields` is the order of its inputs and CSV columns. */
  datatype Form = Form(
    id: string,
    title: string,
    description: string,
    fields: seq<FormField>,
    createdAt: int,
    updatedAt: int)

  /**
   * A stored answer: the text of a text, number, date, select or radio input,
   * or the checked state of a checkbox.
   */
  datatype Value = VStr(str: string) | VBool(b: bool)

  /** One submission: the answers keyed by field id, for the fields the user touched. */
  datatype FormResponse = FormResponse(
    id: string,
    formId: string,
    responses: map<string, Value>,
    submittedAt: int)

  function FormId(f: Form): string { f.id }

  function FieldId(f: FormField): string { f.id }

  function ResponseId(r: FormResponse): string { r.id }

  /** No two fields of the form share an id. */
  predicate UniqueFieldIds(form: Form)
  {
    DistinctBy(form.fields, FieldId)
  }

  /** The ids of a form's fields, in field order. */
  function FieldIds(fields: seq<FormField>): (ids: seq<string>)
    ensures |ids| == |fields|
    ensures forall i :: 0 <= i < |fields| ==> ids[i] == fields[i].id
  {
    seq(|fields|, i requires 0 <= i < |fields| => fields[i].id)
  }
}
