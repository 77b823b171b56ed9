/**
 * The form store: the application's one state container, holding every form
 * definition in creation order and every response in submission order.
 * The `uuidv4()` ids and the `new Date()` readings of the source become
 * parameters: an id must not have been handed out before, a timestamp is any
 * integer the caller's clock supplies.
 */
module Store {
  import opened ArrayOps
  import opened FormTypes

  /** The test `f.id !== id` that deleting a form keeps the other forms by. */
  function OtherForm(id: string): Form -> bool
  {
    (f: Form) => f.id != id
  }

  /** The test `r.formId !== id` that deleting a form keeps the other responses by. */
  function NotOfForm(id: string): FormResponse -> bool
  {
    (r: FormResponse) => r.formId != id
  }

  /** The test `r.formId === formId` that selects one form's responses. */
  function OfForm(formId: string): FormResponse -> bool
  {
    (r: FormResponse) => r.formId == formId
  }

  /** `forms.map(f => f.id === form.id ? { ...form, updatedAt: now } : f)` */
  function Replace(forms: seq<Form>, form: Form, now: int): seq<Form>
  {
    seq(|forms|, i requires 0 <= i < |forms| =>
      if forms[i].id == form.id then form.(updatedAt := now) else forms[i])
  }

  /** The ids of the forms in a sequence. */
  function IdsOf(forms: seq<Form>): set<string>
  {
    set f | f in forms :: f.id
  }

  /** Replacing never changes which form sits at which position, nor its id. */
  lemma ReplaceKeepsIds(forms: seq<Form>, form: Form, now: int)
    ensures |Replace(forms, form, now)| == |forms|
    ensures forall i :: 0 <= i < |forms| ==> Replace(forms, form, now)[i].id == forms[i].id
    ensures IdsOf(Replace(forms, form, now)) == IdsOf(forms)
  {
  }

  /** Updating with an id no form carries leaves the forms as they were. */
  lemma ReplaceAbsent(forms: seq<Form>, form: Form, now: int)
    requires form.id !in IdsOf(forms)
    ensures Replace(forms, form, now) == forms
  {
  }

  /** Updating twice with the same form is updating once, stamped with the second time. */
  lemma ReplaceIdempotent(forms: seq<Form>, form: Form, t1: int, t2: int)
    ensures Replace(Replace(forms, form, t1), form, t2) == Replace(forms, form, t2)
  {
  }

  /** Updating a just-appended form whose id no earlier form carries rewrites only that form. */
  lemma ReplaceLast(forms: seq<Form>, last: Form, form: Form, now: int)
    requires form.id == last.id && last.id !in IdsOf(forms)
    ensures Replace(forms + [last], form, now) == forms + [form.(updatedAt := now)]
  {
  }

  class FormStore {
    /** The forms, in creation order. */
    var forms: seq<Form>
    /** The responses, in submission order. */
    var responses: seq<FormResponse>
    /** Every id handed out so far, kept so that an id is never reused. */
    ghost var issued: set<string>

    /** Ids are unique within each collection and all come from `issued`. */
    ghost predicate Valid()
      reads this
    {
      && DistinctBy(forms, FormId)
      && DistinctBy(responses, ResponseId)
      && (forall f :: f in forms ==> f.id in issued)
      && (forall r :: r in responses ==> r.id in issued)
    }

    /** The ids of the forms currently in the store. */
    ghost function FormIds(): set<string>
      reads this
    {
      IdsOf(forms)
    }

    /** Every response belongs to a form that is still in the store. */
    ghost predicate ReferentiallyIntact()
      reads this
    {
      forall r :: r in responses ==> r.formId in FormIds()
    }

    constructor ()
      ensures Valid() && ReferentiallyIntact()
      ensures forms == [] && responses == [] && issued == {}
    {
      forms := [];
      responses := [];
      issued := {};
    }

    /**
     * Appends a new form with no fields and returns it. The two timestamps are
     * the two clock readings the source takes, in order.
     */
    method CreateForm(id: string, title: string, description: string, createdAt: int, updatedAt: int)
      returns (f: Form)
      requires Valid() && id !in issued
      modifies this
      ensures Valid()
      ensures f == Form(id, title, description, [], createdAt, updatedAt)
      ensures forms == old(forms) + [f]
      ensures responses == old(responses)
      ensures issued == old(issued) + {id}
      ensures FormIds() == old(FormIds()) + {id}
      ensures old(ReferentiallyIntact()) ==> ReferentiallyIntact()
    {
      f := Form(id, title, description, [], createdAt, updatedAt);
      DistinctAppend(forms, f, FormId);
      forms := forms + [f];
      issued := issued + {id};
    }

    /**
     * Every form carrying `form.id` becomes `form` stamped with `now`; the
     * others stay. No form carrying that id makes it a silent no-op.
     */
    method UpdateForm(form: Form, now: int)
      requires Valid()
      modifies this`forms
      ensures Valid()
      ensures forms == Replace(old(forms), form, now)
      ensures |forms| == |old(forms)|
      ensures forall i :: 0 <= i < |forms| ==> forms[i].id == old(forms)[i].id
      ensures form.id !in old(FormIds()) ==> forms == old(forms)
      ensures responses == old(responses)
      ensures FormIds() == old(FormIds())
      ensures old(ReferentiallyIntact()) ==> ReferentiallyIntact()
    {
      ReplaceKeepsIds(forms, form, now);
      if form.id !in IdsOf(forms) {
        ReplaceAbsent(forms, form, now);
      }
      var r := Replace(forms, form, now);
      forall f | f in r ensures f.id in issued {
        var k :| 0 <= k < |r| && r[k] == f;
        assert forms[k] in forms;
      }
      forms := r;
    }

    /**
     * Removes the form with that id and, in the same step, every response
     * that belongs to it; everything else keeps its order.
     */
    method DeleteForm(id: string)
      requires Valid()
      modifies this`forms, this`responses
      ensures Valid()
      ensures forms == Filter(old(forms), OtherForm(id))
      ensures responses == Filter(old(responses), NotOfForm(id))
      ensures forall f :: f in forms ==> f.id != id
      ensures forall r :: r in responses ==> r.formId != id
      ensures Subseq(forms, old(forms)) && Subseq(responses, old(responses))
      ensures FormIds() == old(FormIds()) - {id}
      ensures Filter(responses, OfForm(id)) == []
      ensures old(ReferentiallyIntact()) ==> ReferentiallyIntact()
    {
      FilterDistinct(forms, OtherForm(id), FormId);
      FilterDistinct(responses, NotOfForm(id), ResponseId);
      FilterIsSubseq(forms, OtherForm(id));
      FilterIsSubseq(responses, NotOfForm(id));
      var keptForms := Filter(forms, OtherForm(id));
      forall x | x in IdsOf(forms) - {id} ensures x in IdsOf(keptForms) {
        var f :| f in forms && f.id == x;
        assert OtherForm(id)(f);
      }
      forms := keptForms;
      responses := Filter(responses, NotOfForm(id));
      FilterNone(responses, OfForm(id));
    }

    /**
     * Appends one response for `formId` with the given answers. Whether a
     * form with that id exists is not checked.
     */
    method SubmitResponse(id: string, formId: string, values: map<string, Value>, now: int)
      requires Valid() && id !in issued
      modifies this`responses, this`issued
      ensures Valid()
      ensures responses == old(responses) + [FormResponse(id, formId, values, now)]
      ensures forms == old(forms)
      ensures issued == old(issued) + {id}
      ensures Filter(responses, OfForm(formId)) == Filter(old(responses), OfForm(formId)) + [responses[|responses| - 1]]
      ensures ReferentiallyIntact() <==> old(ReferentiallyIntact()) && formId in FormIds()
    {
      var r := FormResponse(id, formId, values, now);
      DistinctAppend(responses, r, ResponseId);
      FilterAppend(responses, r, OfForm(formId));
      responses := responses + [r];
      issued := issued + {id};
    }

    /** The responses that belong to `formId`, in submission order. */
    method GetFormResponses(formId: string) returns (rs: seq<FormResponse>)
      ensures rs == Filter(responses, OfForm(formId))
      ensures forall r :: r in rs <==> r in responses && r.formId == formId
      ensures Subseq(rs, responses)
      ensures |rs| == Count(responses, OfForm(formId))
    {
      rs := Filter(responses, OfForm(formId));
      FilterIsSubseq(responses, OfForm(formId));
      FilterLength(responses, OfForm(formId));
      assert forall r :: r in rs ==> OfForm(formId)(r);
    }
  }

  /** Deleting the same id twice leaves the store as deleting it once. */
  lemma DeleteIdempotent(forms: seq<Form>, responses: seq<FormResponse>, id: string)
    ensures Filter(Filter(forms, OtherForm(id)), OtherForm(id)) == Filter(forms, OtherForm(id))
    ensures Filter(Filter(responses, NotOfForm(id)), NotOfForm(id)) == Filter(responses, NotOfForm(id))
  {
  }

  /** Deleting an id no form or response mentions changes nothing. */
  lemma DeleteAbsent(forms: seq<Form>, responses: seq<FormResponse>, id: string)
    requires id !in IdsOf(forms)
    requires forall r :: r in responses ==> r.formId != id
    ensures Filter(forms, OtherForm(id)) == forms
    ensures Filter(responses, NotOfForm(id)) == responses
  {
  }
}
