/** What the create/edit pages share: the create-or-update call a valid
    submit issues and where the page goes afterwards, the archive toggle,
    the status change, the delete button and the multi-select fields. */
module Forms {
  import opened Common
  import opened JsValue

  /** The write a submit issues: `create(payload)` for a new record, or
      `update(id, payload)` when the route carries an id. */
  datatype Call<P> = Create(payload: P) | Update(id: string, payload: P)

  /** When a page leaves after the write: only on a response whose `success`
      is truthy, or after any write that did not throw (the pages that never
      look at the response). */
  datatype NavPolicy = OnSuccess | UnlessThrown

  predicate Proceeds(policy: NavPolicy, reply: Reply<Value>) {
    match policy
    case OnSuccess => reply.Ok?
    case UnlessThrown => !reply.Threw?
  }

  /** What a submit leaves behind: the write it issued, the navigation, and
      the `isSubmitting` flag. */
  datatype Submitted<P> = Submitted(call: Option<Call<P>>, nav: Option<Navigation>, isSubmitting: bool)

  /** `const isEditing = !!id` for the route parameter. */
  predicate IsEditing(id: Option<string>) {
    id.Some? && id.value != ""
  }

  /** A submit handler: a form that fails its checks issues nothing and
      stays; a valid one issues exactly one write and leaves for `target`
      as its policy says. `reply` is how that write ends. */
  function Submit<P>(valid: bool, id: Option<string>, payload: P, policy: NavPolicy,
                     target: string, reply: Reply<Value>): (r: Submitted<P>)
    ensures !r.isSubmitting
    ensures r.call.Some? <==> valid
    ensures r.call.Some? ==> r.call.value.payload == payload
    ensures r.call.Some? ==> (r.call.value.Update? <==> IsEditing(id))
    ensures r.call.Some? && r.call.value.Update? ==> r.call.value.id == id.value
    ensures r.nav.Some? ==> valid && r.nav.value == Navigate(target, false)
    ensures valid ==> (r.nav.Some? <==> Proceeds(policy, reply))
  {
    if !valid then Submitted(None, None, false)
    else
      var call := if IsEditing(id) then Update(id.value, payload) else Create(payload);
      var nav := if Proceeds(policy, reply) then Some(Navigate(target, false)) else None;
      Submitted(Some(call), nav, false)
  }

  /** A submit that is turned away never reaches the server, whatever the
      server would have said. */
  lemma RefusedSubmitIgnoresServer<P>(id: Option<string>, payload: P, policy: NavPolicy,
                                   target: string, a: Reply<Value>, b: Reply<Value>)
    ensures Submit(false, id, payload, policy, target, a) == Submit(false, id, payload, policy, target, b)
    ensures Submit(false, id, payload, policy, target, a) == Submitted(None, None, false)
  {
  }

  /** The result of `handleArchiveToggle`: the status sent, if any, the new
      `isArchived`, and the loading flag. */
  datatype Toggled = Toggled(sent: Option<string>, isArchived: Value, loading: bool)

  /** The status the toggle asks for: the opposite of the current one. */
  function ToggleTarget(isArchived: Value): string {
    if Truthy(isArchived) then "unarchived" else "archived"
  }

  /** `handleArchiveToggle` of the media and blog forms: nothing without an
      id; otherwise ask for the opposite status and flip the flag only when
      the response says `success`. */
  function ArchiveToggle(id: Option<string>, isArchived: Value, reply: Reply<Value>): (r: Toggled)
    ensures !r.loading
    ensures !IsEditing(id) ==> r.sent.None? && r.isArchived == isArchived
    ensures IsEditing(id) ==> r.sent == Some(if Truthy(isArchived) then "unarchived" else "archived")
    ensures IsEditing(id) && reply.Ok? ==> r.isArchived == Bool(!Truthy(isArchived))
    ensures !(IsEditing(id) && reply.Ok?) ==> r.isArchived == isArchived
  {
    if !IsEditing(id) then Toggled(None, isArchived, false)
    else
      var flag := if reply.Ok? then Bool(!Truthy(isArchived)) else isArchived;
      Toggled(Some(ToggleTarget(isArchived)), flag, false)
  }

  /** `handleStatusChange(id, newStatus)` of the category and product forms:
      on success the flag records whether the new status is "archived"; on
      anything else it stays. */
  function StatusChange(isArchived: Value, newStatus: string, reply: Reply<Value>): (r: Value)
    ensures reply.Ok? ==> r.Bool? && (r.b <==> newStatus == "archived")
    ensures !reply.Ok? ==> r == isArchived
  {
    if reply.Ok? then Bool(newStatus == "archived") else isArchived
  }

  /** The toggle and the status change agree: the flag a successful toggle
      sets is the one a successful status change to the status the toggle
      sent would set. */
  lemma ToggleAgreesWithStatusChange(id: Option<string>, isArchived: Value, d: Value)
    requires IsEditing(id)
    ensures var t := ArchiveToggle(id, isArchived, Ok(d));
            t.sent.Some? && t.isArchived == StatusChange(isArchived, t.sent.value, Ok(d))
  {
  }

  /** Two successful toggles bring the archived state back. */
  lemma ToggleTwice(id: Option<string>, isArchived: Value, d1: Value, d2: Value)
    requires IsEditing(id)
    ensures var once := ArchiveToggle(id, isArchived, Ok(d1));
            var twice := ArchiveToggle(id, once.isArchived, Ok(d2));
            Truthy(twice.isArchived) == Truthy(isArchived)
            && twice.sent.value != once.sent.value
  {
  }

  /** The result of a delete button on an edit page. */
  datatype Deleted = Deleted(requested: bool, form: Object, nav: Option<Navigation>, busy: bool)

  /** `handleDelete(id)` on an edit page: nothing unless confirmed; a
      successful delete resets the form when the page has a reset value and
      leaves for `target`; anything else leaves the form as it was. */
  function DeleteRecord(confirmed: bool, reply: Reply<Value>, form: Object, reset: Option<Object>,
                        target: string): (r: Deleted)
    ensures !r.busy
    ensures r.requested <==> confirmed
    ensures r.nav.Some? <==> confirmed && reply.Ok?
    ensures r.nav.Some? ==> r.nav.value == Navigate(target, false)
    ensures confirmed && reply.Ok? && reset.Some? ==> r.form == reset.value
    ensures !(confirmed && reply.Ok? && reset.Some?) ==> r.form == form
  {
    if !confirmed then Deleted(false, form, None, false)
    else if reply.Ok? then
      Deleted(true, if reset.Some? then reset.value else form, Some(Navigate(target, false)), false)
    else Deleted(true, form, None, false)
  }

  /** A react-select option; `caption` is its `label`. */
  datatype SelectOption = SelectOption(caption: Value, value: Value)

  function SelectedValues(selected: seq<SelectOption>): (r: seq<Value>)
    ensures |r| == |selected|
    ensures forall k :: 0 <= k < |selected| ==> r[k] == selected[k].value
  {
    seq(|selected|, k requires 0 <= k < |selected| => selected[k].value)
  }

  /** `setFormData(prev => ({ ...prev, [field]: newValue.map(o => o.value) }))` */
  function SelectField(form: Object, field: string, selected: seq<SelectOption>): (r: Object)
    ensures Get(r, field) == Arr(SelectedValues(selected))
    ensures forall k :: k != field ==> Get(r, k) == Get(form, k)
  {
    With(form, field, Arr(SelectedValues(selected)))
  }

  /** The options a list of records offers: `{ label: r[labelKey], value: r._id }`. */
  function OptionsOf(records: seq<Value>, labelKey: string): (r: seq<SelectOption>)
    ensures |r| == |records|
    ensures forall k :: 0 <= k < |records| ==>
              r[k] == SelectOption(Field(records[k], labelKey), Field(records[k], "_id"))
  {
    seq(|records|, k requires 0 <= k < |records| =>
                      SelectOption(Field(records[k], labelKey), Field(records[k], "_id")))
  }

  /** Selecting the options made from some records stores exactly those
      records' ids, in order; the labels play no part. */
  lemma SelectingRecordsStoresIds(form: Object, field: string, records: seq<Value>, labelKey: string)
    ensures var stored := Get(SelectField(form, field, OptionsOf(records, labelKey)), field);
            stored.Arr? && |stored.items| == |records|
            && forall k :: 0 <= k < |records| ==> stored.items[k] == Field(records[k], "_id")
  {
  }
}

/** The category edit page. */
module CategoryForm {
  import opened Common
  import opened JsValue
  import Slug
  import Forms

  /** `handleChange` for a text input: the value goes under the input's name,
      and an edit of `name` also rewrites `slug` from it. */
  function HandleChange(form: Object, name: string, value: string): (r: Object)
    ensures Get(r, name) == Str(value)
    ensures name == "name" ==> Get(r, "slug") == Str(Slug.MakeSlug(value))
    ensures forall k :: k != name && (name != "name" || k != "slug") ==> Get(r, k) == Get(form, k)
  {
    var edited := With(form, name, Str(value));
    if name == "name" then With(edited, "slug", Str(Slug.MakeSlug(value))) else edited
  }

  /** After a name edit the slug field holds a valid slug, and typing the
      same name again changes nothing. */
  lemma NameEditKeepsSlugValid(form: Object, value: string)
    ensures var r := HandleChange(form, "name", value);
            Get(r, "slug").Str? && Slug.IsSlug(Get(r, "slug").s)
    ensures HandleChange(HandleChange(form, "name", value), "name", value) == HandleChange(form, "name", value)
  {
  }

  /** Editing any other field leaves the slug as it was, so a slug typed by
      hand survives until the name changes again. */
  lemma OtherEditsKeepSlug(form: Object, name: string, value: string)
    requires name != "name" && name != "slug"
    ensures Get(HandleChange(form, name, value), "slug") == Get(form, "slug")
  {
  }

  /** `handleSubmit`: an empty name stops the submit before any request. */
  function HandleSubmit(form: Object, id: Option<string>, reply: Reply<Value>): (r: Forms.Submitted<Object>)
    ensures !r.isSubmitting
    ensures !Truthy(Get(form, "name")) ==> r.call.None? && r.nav.None?
    ensures Truthy(Get(form, "name")) ==> r.call.Some? && r.call.value.payload == form
    ensures Truthy(Get(form, "name")) ==> (r.call.value.Update? <==> Forms.IsEditing(id))
    ensures r.call.Some? && r.call.value.Update? ==> r.call.value.id == id.value
    ensures r.nav.Some? <==> Truthy(Get(form, "name")) && reply.Ok?
    ensures r.nav.Some? ==> r.nav.value == Navigate("/categories", false)
  {
    Forms.Submit(Truthy(Get(form, "name")), id, form, Forms.OnSuccess, "/categories", reply)
  }

  /** `selectHandleChange`: the chosen products' ids, in the order chosen. */
  function SelectProducts(form: Object, selected: seq<Forms.SelectOption>): (r: Object)
    ensures Get(r, "productIds").Arr?
    ensures |Get(r, "productIds").items| == |selected|
    ensures forall k :: 0 <= k < |selected| ==> Get(r, "productIds").items[k] == selected[k].value
    ensures forall k :: k != "productIds" ==> Get(r, k) == Get(form, k)
  {
    Forms.SelectField(form, "productIds", selected)
  }

  /** `handleStatusChange`: only `isArchived` can change, and only on success. */
  function HandleStatusChange(form: Object, newStatus: string, reply: Reply<Value>): (r: Object)
    ensures reply.Ok? ==> Get(r, "isArchived") == Bool(newStatus == "archived")
    ensures !reply.Ok? ==> r == form
    ensures forall k :: k != "isArchived" ==> Get(r, k) == Get(form, k)
  {
    if reply.Ok? then With(form, "isArchived", Forms.StatusChange(Get(form, "isArchived"), newStatus, reply))
    else form
  }
}

/** The variation edit page. */
module VariationForm {
  import opened Common
  import opened JsValue
  import Forms

  /** `initialData`, which a successful delete restores. */
  const Initial: Object := map["name" := Str(""), "options" := Arr([])]

  /** `handleSubmit`: an empty name stops the submit before any request; the
      page leaves only on a response that reports success. */
  function HandleSubmit(form: Object, id: Option<string>, reply: Reply<Value>): (r: Forms.Submitted<Object>)
    ensures !r.isSubmitting
    ensures r.call.Some? <==> Truthy(Get(form, "name"))
    ensures r.call.Some? ==> r.call.value.payload == form && (r.call.value.Update? <==> Forms.IsEditing(id))
    ensures r.call.Some? && r.call.value.Update? ==> r.call.value.id == id.value
    ensures r.nav.Some? <==> Truthy(Get(form, "name")) && reply.Ok?
    ensures r.nav.Some? ==> r.nav.value == Navigate("/variations", false)
  {
    Forms.Submit(Truthy(Get(form, "name")), id, form, Forms.OnSuccess, "/variations", reply)
  }

  /** The options a loaded variation shows as selected:
      `{ label: option.value, value: option._id }`. */
  function LoadedOptions(options: seq<Value>): (r: seq<Forms.SelectOption>)
    ensures |r| == |options|
    ensures forall k :: 0 <= k < |options| ==>
              r[k].caption == Field(options[k], "value") && r[k].value == Field(options[k], "_id")
  {
    Forms.OptionsOf(options, "value")
  }

  /** `selectHandleChange` */
  function SelectOptions(form: Object, selected: seq<Forms.SelectOption>): (r: Object)
    ensures Get(r, "options") == Arr(Forms.SelectedValues(selected))
    ensures forall k :: k != "options" ==> Get(r, k) == Get(form, k)
  {
    Forms.SelectField(form, "options", selected)
  }

  /** Re-selecting exactly the options a variation was loaded with stores
      their ids, in the same order. */
  lemma ReselectLoadedOptions(form: Object, options: seq<Value>)
    ensures var stored := Get(SelectOptions(form, LoadedOptions(options)), "options");
            stored.Arr? && |stored.items| == |options|
            && forall k :: 0 <= k < |options| ==> stored.items[k] == Field(options[k], "_id")
  {
    Forms.SelectingRecordsStoresIds(form, "options", options, "value");
  }

  /** `handleDelete`: a successful delete resets the form to the empty
      variation and leaves for the list. */
  function HandleDelete(form: Object, confirmed: bool, reply: Reply<Value>): (r: Forms.Deleted)
    ensures r.requested <==> confirmed
    ensures confirmed && reply.Ok? ==> r.form == Initial && r.nav == Some(Navigate("/variations", false))
    ensures !(confirmed && reply.Ok?) ==> r.form == form && r.nav.None?
  {
    Forms.DeleteRecord(confirmed, reply, form, Some(Initial), "/variations")
  }
}

/** The option edit page. */
module OptionForm {
  import opened Common
  import opened JsValue
  import Forms

  const Initial: Object := map["value" := Str("")]

  /** `handleSubmit`: an empty value stops the submit before any request. */
  function HandleSubmit(form: Object, id: Option<string>, reply: Reply<Value>): (r: Forms.Submitted<Object>)
    ensures !r.isSubmitting
    ensures r.call.Some? <==> Truthy(Get(form, "value"))
    ensures r.call.Some? ==> r.call.value.payload == form
    ensures r.call.Some? ==> (r.call.value.Update? <==> Forms.IsEditing(id))
    ensures r.call.Some? && r.call.value.Update? ==> r.call.value.id == id.value
    ensures r.nav.Some? <==> Truthy(Get(form, "value")) && reply.Ok?
    ensures r.nav.Some? ==> r.nav.value == Navigate("/options", false)
  {
    Forms.Submit(Truthy(Get(form, "value")), id, form, Forms.OnSuccess, "/options", reply)
  }

  /** `handleDelete`: a successful delete resets the form to `{ value: '' }`. */
  function HandleDelete(form: Object, confirmed: bool, reply: Reply<Value>): (r: Forms.Deleted)
    ensures r.requested <==> confirmed
    ensures confirmed && reply.Ok? ==> r.form == Initial && r.nav == Some(Navigate("/options", false))
    ensures !(confirmed && reply.Ok?) ==> r.form == form && r.nav.None?
  {
    Forms.DeleteRecord(confirmed, reply, form, Some(Initial), "/options")
  }

  /** Whatever the server says, a submit never leaves the page busy, and a
      refused submit never reaches the server. */
  lemma SubmitSettles(form: Object, id: Option<string>, a: Reply<Value>, b: Reply<Value>)
    requires !Truthy(Get(form, "value"))
    ensures HandleSubmit(form, id, a) == HandleSubmit(form, id, b)
  {
    Forms.RefusedSubmitIgnoresServer(id, form, Forms.OnSuccess, "/options", a, b);
  }
}

/** The banner edit page. */
module BannerForm {
  import opened Common
  import opened JsValue
  import Forms

  /** The edit-mode load: each text field is `data.x || ""` and the image is
      `data.image || {}`. */
  function LoadBanner(banner: Value): (form: Object)
    ensures form.Keys == {"title", "subtitle", "panel", "index", "screenType", "image"}
    ensures forall k :: k in {"title", "subtitle", "panel", "index", "screenType"} ==>
              form[k] == (if Truthy(Field(banner, k)) then Field(banner, k) else Str(""))
    ensures form["image"] == (if Truthy(Field(banner, "image")) then Field(banner, "image") else Obj(map[]))
  {
    map["title" := Or(Field(banner, "title"), Str("")),
        "subtitle" := Or(Field(banner, "subtitle"), Str("")),
        "panel" := Or(Field(banner, "panel"), Str("")),
        "index" := Or(Field(banner, "index"), Str("")),
        "screenType" := Or(Field(banner, "screenType"), Str("")),
        "image" := Or(Field(banner, "image"), Obj(map[]))]
  }

  /** A stored index of 0 is falsy, so `||` turns it into "". */
  lemma IndexZeroLoadsEmpty(banner: Value)
    requires Field(banner, "index") == Num(0)
    ensures LoadBanner(banner)["index"] == Str("")
  {
  }

  /** Title, panel, screen type and an uploaded image are required;
      subtitle and index are not. */
  predicate Complete(form: Object) {
    Truthy(Get(form, "title")) && Truthy(Get(form, "panel")) && Truthy(Get(form, "screenType"))
    && Truthy(Field(Get(form, "image"), "location"))
  }

  /** `handleSubmit` */
  function HandleSubmit(form: Object, id: Option<string>, reply: Reply<Value>): (r: Forms.Submitted<Object>)
    ensures !r.isSubmitting
    ensures r.call.Some? <==> Complete(form)
    ensures r.call.Some? ==> r.call.value.payload == form && (r.call.value.Update? <==> Forms.IsEditing(id))
    ensures r.call.Some? && r.call.value.Update? ==> r.call.value.id == id.value
    ensures r.nav.Some? <==> Complete(form) && reply.Ok?
    ensures r.nav.Some? ==> r.nav.value == Navigate("/banners", false)
  {
    Forms.Submit(Complete(form), id, form, Forms.OnSuccess, "/banners", reply)
  }

  /** Subtitle and index never decide whether a banner can be saved. */
  lemma OptionalFieldsIgnored(form: Object, subtitle: Value, index: Value)
    ensures Complete(With(With(form, "subtitle", subtitle), "index", index)) <==> Complete(form)
  {
  }

  /** `handleDelete`: the form is kept; a successful delete leaves for the
      list, and the delete spinner always stops. */
  function HandleDelete(form: Object, confirmed: bool, reply: Reply<Value>): (r: Forms.Deleted)
    ensures !r.busy && r.form == form
    ensures r.requested <==> confirmed
    ensures r.nav.Some? <==> confirmed && reply.Ok?
    ensures r.nav.Some? ==> r.nav.value == Navigate("/banners", false)
  {
    Forms.DeleteRecord(confirmed, reply, form, None, "/banners")
  }
}
