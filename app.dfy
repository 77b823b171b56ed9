/**
 * The one piece of the application shell that combines store operations:
 * saving a form built on the "new form" page creates a form to obtain an id,
 * then updates the store with the builder's form under that id.
 */
module App {
  import opened FormTypes
  import opened Store

  /**
   * `createForm(form.title, form.description)` then
   * `updateForm({ ...form, id: newForm.id })`. The store ends up with exactly
   * one more form, at the end: the builder's form (its fields, title,
   * description and creation time) under the new id, stamped with `savedAt`.
   * The timestamps `createForm` takes are overwritten.
   */
  method SaveNewForm(store: FormStore, draft: Form, id: string, createdAt: int, updatedAt: int, savedAt: int)
    requires store.Valid() && id !in store.issued
    modifies store
    ensures store.Valid()
    ensures store.forms == old(store.forms) + [draft.(id := id, updatedAt := savedAt)]
    ensures store.responses == old(store.responses)
    ensures store.FormIds() == old(store.FormIds()) + {id}
    ensures store.issued == old(store.issued) + {id}
    ensures old(store.ReferentiallyIntact()) ==> store.ReferentiallyIntact()
  {
    ghost var before := store.forms;
    assert id !in IdsOf(before);
    var created := store.CreateForm(id, draft.title, draft.description, createdAt, updatedAt);
    ReplaceLast(before, created, draft.(id := created.id), savedAt);
    store.UpdateForm(draft.(id := created.id), savedAt);
  }

  /**
   * Two forms, one response each, then the first form is deleted: only the
   * second form and its response remain.
   */
  method CascadeScenario()
  {
    var store := new FormStore();
    var f1 := store.CreateForm("form-1", "Survey", "desc", 1, 1);
    var f2 := store.CreateForm("form-2", "Poll", "", 2, 2);
    store.SubmitResponse("resp-1", f1.id, map["f1" := VStr("Alice")], 3);
    store.SubmitResponse("resp-2", f2.id, map["f1" := VStr("Bob")], 4);
    store.DeleteForm(f1.id);
    assert store.forms == [f2];
    var gone := store.GetFormResponses(f1.id);
    assert gone == [];
    var kept := store.GetFormResponses(f2.id);
    assert kept == [FormResponse("resp-2", "form-2", map["f1" := VStr("Bob")], 4)];
  }
}
