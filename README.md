# Form builder: store, CSV export and builder edits in Dafny

This project models the logic inside a small React application for building
forms, publishing them and collecting responses. It has three parts.

- **The form store** (`form_store.dfy`, module `Store`). This is the
  application's one state container. It is the class `FormStore`, with two
  sequence fields: `forms` in creation order and `responses` in submission
  order. Its methods create, update, delete with cascade, submit, and query,
  and each contract states the new value of both fields. A ghost set `issued`
  records every id handed out. `Valid()` keeps form ids and response ids
  unique (they are uuids in the source). Referential integrity (every response
  belongs to an existing form) is deliberately **not** an invariant, because
  `submitResponse` does not check the form id. Instead, each method says how it
  affects integrity, as the predicate `ReferentiallyIntact()`.
- **The CSV export** (`response_list.dfy`, module `ResponseList`). This is the
  text that `exportCSV` builds. The header line is `Submitted At` and the field
  labels, joined by commas and **not** quoted. Then there is one line per
  response: the formatted submission time and one cell per field, each cell
  wrapped in double quotes without escaping. Lines are joined by a single
  newline. A missing or falsy answer (`""`, `false`) becomes an empty cell. The
  lemmas prove the shape of the output by splitting it back into lines and
  cells (`ArrayOps.Split` is proved to be the inverse of `ArrayOps.Join`).
  A data line is read back with a quote-aware reader, `ReadRow`. The line
  reads back correctly whenever no cell holds a double quote, even if a cell
  holds a comma. A cell that does hold a quote is misread, because quotes
  are not escaped.
- **The builder edits** (`form_builder.dfy`, module `FormBuilder`). These are
  add, update and remove field, and the two option handlers, as functions from
  the form being edited to the next form. The option-edit handler copies the
  options into a fresh array and overwrites one slot, as the source does.

Shared pieces:

- `form_types.dfy` holds the records of `src/types/form.ts`.
- `array_ops.dfy` holds JavaScript's `filter` and `join`, with reference
  definitions used to specify them: subsequence, count, distinct keys, split.
  `Filter` is proved to be the unique order-keeping subsequence that holds
  exactly the matching elements.
- `app.dfy` holds the new-form save from `src/App.tsx`, and `CascadeScenario`,
  a client of the store that creates two forms with one response each, deletes
  the first, and asserts that only the second form and its response remain.

Modelling choices:

- A stored answer is `VStr(string)` or `VBool(bool)`. Number inputs store the
  input's text, and only checkboxes store a boolean.
- Timestamps are integers the caller's clock supplies.
- `uuidv4()` becomes an id parameter that must be new: not in `issued` for the
  store. For a new field that is enough to keep the form's field ids unique.
- `toLocaleString` becomes the function parameter `fmt: int -> string`.
- A field's `label` is named `caption`, because `label` is a Dafny keyword.

Four behaviours of the code are kept as written, though one might expect otherwise:

- The CSV header is not quoted; only the data cells are.
- A double quote inside a data cell is not doubled, so such a cell does not
  read back as itself (`ResponseList.UnescapedQuoteMisread`).
- `createForm` reads the clock twice, once for `createdAt` and once for
  `updatedAt`, so the two need not be equal.
- Nothing guarantees `updatedAt >= createdAt`. `updateForm` even copies the
  caller's `createdAt`, and the new-form save keeps the builder's own creation
  time.

## Model

| member | source | states |
|---|---|---|
| `Store.FormStore.constructor` | src/store/formStore.ts:16-17 | the store starts with no forms, no responses and no ids handed out |
| `Store.FormStore.CreateForm` | src/store/formStore.ts:19-31 | appends exactly one form, with the given id, title, description and timestamps and no fields; returns that same form; earlier forms keep their order; responses are untouched; ids stay unique; integrity is kept |
| `Store.FormStore.UpdateForm` | src/store/formStore.ts:33-37 | every form carrying `form.id` becomes `form` stamped with `now`, the others are unchanged; length, order and ids are kept; an id no form carries leaves `forms` unchanged; responses are untouched; integrity is kept |
| `Store.FormStore.DeleteForm` | src/store/formStore.ts:39-44 | afterwards no form has that id and no response has that form id; the rest of both collections is kept, in order, as filters of the old ones; no response of that form can be queried; integrity is kept |
| `Store.FormStore.SubmitResponse` | src/store/formStore.ts:46-57 | appends exactly one response with the given id, form id, answers and time, whether or not the form exists; forms are unchanged; that form's query gains exactly this response at the end; integrity holds afterwards iff it held before and the form exists |
| `Store.FormStore.GetFormResponses` | src/store/formStore.ts:59-61 | returns exactly the responses whose form id matches: each one is in the store, each matching one is returned, submission order is kept, and the count equals the number of matches; state is not changed |
| `Store.ReplaceKeepsIds` | src/store/formStore.ts:35 | the update map keeps the length and the id at every position, so the set of form ids is unchanged |
| `Store.ReplaceAbsent` | src/store/formStore.ts:35 | updating with an id no form carries gives back the same forms |
| `Store.ReplaceIdempotent` | src/store/formStore.ts:35 | updating twice with the same form equals updating once, stamped with the later time |
| `Store.ReplaceLast` | src/store/formStore.ts:35 | updating the form just appended, under an id no earlier form has, rewrites only that last form |
| `Store.DeleteIdempotent` | src/store/formStore.ts:41-42 | deleting the same id twice leaves forms and responses as deleting it once |
| `Store.DeleteAbsent` | src/store/formStore.ts:41-42 | deleting an id that no form or response mentions changes neither collection |
| `ArrayOps.Filter` | src/store/formStore.ts:41-42 | `filter` returns elements of the input that pass the test, and every element that passes, with no more elements than the input |
| `ArrayOps.FilterIsSubseq` | src/store/formStore.ts:41-42 | filtering keeps the remaining elements in their original relative order |
| `ArrayOps.FilterLength` | src/store/formStore.ts:60 | a filter returns exactly as many elements as pass the test |
| `ArrayOps.FilterUnique` | src/store/formStore.ts:60 | any order-keeping subsequence holding only passing elements, as many as pass, equals the filter |
| `ArrayOps.FilterAll` | src/store/formStore.ts:41-42 | when every element passes, the filter is the identity |
| `ArrayOps.FilterNone` | src/store/formStore.ts:60 | when no element passes, the filter is empty |
| `ArrayOps.FilterIdempotent` | src/store/formStore.ts:41-42 | filtering twice by one test is filtering once |
| `ArrayOps.FilterAppend` | src/store/formStore.ts:55 | filtering a sequence with one element appended gives the old filter plus that element when it passes |
| `ArrayOps.FilterDistinct` | src/components/FormBuilder.tsx:41 | filtering keeps keys (ids) pairwise distinct |
| `ArrayOps.DistinctAppend` | src/store/formStore.ts:29 | appending an element with a new key keeps keys pairwise distinct |
| `ArrayOps.SplitJoin` | src/components/ResponseList.tsx:18-21 | joining pieces that do not hold the separator is undone by splitting at it |
| `ArrayOps.JoinSplit` | src/components/ResponseList.tsx:18-21 | every string is the join of its split pieces, so split is a true inverse of join |
| `ResponseList.CellTextEmpty` | src/components/ResponseList.tsx:15 | a cell is empty exactly when the answer is missing or falsy; a string answer shows as itself and `true` as "true" |
| `ResponseList.HeaderShape` | src/components/ResponseList.tsx:12 | the header has 1 + the number of fields cells: "Submitted At", then each label in field order |
| `ResponseList.RowShape` | src/components/ResponseList.tsx:13-16 | each row has 1 + the number of fields cells: the formatted time, then each field's answer or "", in field order |
| `ResponseList.ExportEmpty` | src/components/ResponseList.tsx:18-21 | with no responses the output is the header line alone |
| `ResponseList.ExportEndsWithQuote` | src/components/ResponseList.tsx:18-21 | with responses the output ends in a closing quote, so there is no trailing newline |
| `ResponseList.ExportLines` | src/components/ResponseList.tsx:18-21 | when no cell holds a newline, the output splits into exactly 1 + the number of responses lines: the unquoted header, then each response's quoted row, in input order |
| `ResponseList.HeaderColumns` | src/components/ResponseList.tsx:19 | when no label holds a comma, the header line splits back into "Submitted At" and the labels, unquoted |
| `ResponseList.RowColumns` | src/components/ResponseList.tsx:20 | when no answer and no formatted time holds a double quote, a quote-aware CSV reader gives back each data line as exactly its 1 + the number of fields cells, commas inside cells included |
| `ResponseList.ReadQuotedCells` | src/components/ResponseList.tsx:20 | any non-empty list of cells without double quotes, each wrapped in quotes and joined by commas, reads back as that list |
| `ResponseList.UnescapedQuoteMisread` | src/components/ResponseList.tsx:20 | because quotes are not escaped, one answer of the form `a","b` is read back as the two cells `a` and `b`, never as itself |
| `ResponseList.ExportDependsOnLabelsAndIds` | src/components/ResponseList.tsx:11-21 | the output is determined by the fields' labels and ids, the responses and `fmt` alone; field kinds do not matter, so a checkbox is not shown as a glyph |
| `ResponseList.ExportOneAnswer` | src/components/ResponseList.tsx:11-21 | one field "Name" and one answer "Bob" give `Submitted At,Name`, a newline, then the quoted time and `"Bob"` |
| `FormBuilder.AddField` | src/components/FormBuilder.tsx:14-26 | appends exactly one field at the end with the given id and kind, label "New <kind> field", not required, no placeholder, options ["Option 1"] exactly for select and radio; earlier fields and the form's id, title, description and timestamps are unchanged |
| `FormBuilder.AddFieldKeepsIdsUnique` | src/components/FormBuilder.tsx:14-26 | a fresh id keeps the form's field ids unique |
| `FormBuilder.ApplyPatch` | src/components/FormBuilder.tsx:33 | merging a patch never changes the field's id |
| `FormBuilder.UpdateField` | src/components/FormBuilder.tsx:29-36 | keeps the number of fields, the id at every position, and the form's id, title, description and timestamps |
| `FormBuilder.UpdateFieldAt` | src/components/FormBuilder.tsx:32-34 | fields carrying the id are patched, every other field is unchanged |
| `FormBuilder.CaptionAndRequiredEdits` | src/components/FormBuilder.tsx:71-87 | the label input changes only the label of the fields carrying the id, and the Required checkbox only their `required` flag |
| `FormBuilder.UpdateFieldAbsent` | src/components/FormBuilder.tsx:32-34 | updating an id no field carries gives back the same form |
| `FormBuilder.UpdateFieldKeepsIdsUnique` | src/components/FormBuilder.tsx:29-36 | updating keeps the field ids unique |
| `FormBuilder.UpdateFieldIdempotent` | src/components/FormBuilder.tsx:29-36 | applying the same patch twice equals applying it once |
| `FormBuilder.RemoveField` | src/components/FormBuilder.tsx:38-43 | the remaining fields are exactly the old ones without that id; the form's id, title, description and timestamps are unchanged |
| `FormBuilder.RemoveFieldKeepsRest` | src/components/FormBuilder.tsx:41 | the remaining fields keep their order, as many remain as lack the id, ids stay unique, and removing an absent id is a no-op |
| `FormBuilder.EditOption` | src/components/FormBuilder.tsx:101-104 | on each field carrying the edited field's id, only slot `index` of the options changes, to the new text, and the number of options is kept; other fields and the form's header are unchanged |
| `FormBuilder.AddOption` | src/components/FormBuilder.tsx:111-113 | each field carrying the id gets options equal to its former options (absent counts as empty) with "" appended; other fields and the header are unchanged |
| `FormBuilder.AddOptionOnOwnField` | src/components/FormBuilder.tsx:111-113 | on the field it is rendered for, in a form with unique field ids, Add Option grows the options by exactly one empty entry (a field without options gets [""]), and it touches no other field |
| `App.SaveNewForm` | src/App.tsx:56-59 | create then update leaves exactly one new form at the end, with the builder's fields, title, description and creation time under the new id, stamped with the save time; exactly the new id is added to the ids handed out; responses are unchanged; ids stay unique |

## Left out

- Rendering, styling, and the React hooks plumbing (`useState`, `setFormData`) are not modelled. These are user interface code. The builder's state is only the form value that each edit returns.
- The title and description inputs of the builder (src/components/FormBuilder.tsx:51,57) are not modelled. Each is a one-attribute record update outside the field edits.
- A React handler sees the form as it was when the handler was rendered. The model applies each edit to the current form.
- A patch cannot set an attribute to `undefined`. No call site does.
- Option edits at an index past the end are not modelled, because no input is rendered there. In JavaScript such a write would grow the array.
- Routing, URL parsing, `alert` and redirects in src/App.tsx are not modelled. This is navigation. Only the new-form save is kept.
- The input wiring and the browser-enforced `required` check in src/components/FormView.tsx are not modelled. They only show which answer values exist.
- src/components/FormList.tsx is not modelled. It is rendering plus the clipboard, which is input/output.
- The file download in src/components/ResponseList.tsx:23-29 (Blob, object URL, anchor, file name) is not modelled. This is browser input/output.
- `uuidv4()` and `new Date()` are foreign calls. They become id and timestamp parameters.
- `toLocaleString` depends on the locale. It becomes the uninterpreted parameter `fmt`.
- Looking up a key that exists only on JavaScript's object prototype (such as `constructor`) is not modelled. An answer map holds only its own keys.
- The state library's `create`/`set` and any concurrency are not modelled. The application is single-threaded, and every store method is one atomic step.
