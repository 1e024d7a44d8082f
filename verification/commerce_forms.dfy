/** The discount edit page: input coercion, the checks a submit runs in
    order, and the payload it normalises. Dates are day numbers; turning the
    date text into one is the `parseDate` parameter. */
module DiscountForm {
  import opened Common
  import opened JsValue
  import Forms

  /** The kind of input that fired `onChange`. */
  datatype Input = Checkbox(checked: bool) | NumberInput | TextInput

  /** `handleChange`: checkboxes store `checked`, number inputs store "" or
      `Number(value)`, everything else stores the text. */
  function HandleChange(form: Object, name: string, value: string, input: Input): (r: Object)
    ensures input.Checkbox? ==> Get(r, name) == Bool(input.checked)
    ensures input.NumberInput? && value == "" ==> Get(r, name) == Str("")
    ensures input.NumberInput? && value != "" ==> Get(r, name) == ToNumber(Str(value))
    ensures input.TextInput? ==> Get(r, name) == Str(value)
    ensures forall k :: k != name ==> Get(r, k) == Get(form, k)
  {
    var stored := match input
      case Checkbox(checked) => Bool(checked)
      case NumberInput => if value == "" then Str("") else ToNumber(Str(value))
      case TextInput => Str(value);
    With(form, name, stored)
  }

  /** A number input never stores text other than "": what it holds is a
      number, `NaN`, or "". */
  lemma NumberInputsStoreNumbers(form: Object, name: string, value: string)
    ensures var v := Get(HandleChange(form, name, value, NumberInput), name);
            v.Num? || v.NaN? || v == Str("")
  {
  }

  /** Why a submit stopped, in the order the checks run, or `Passed`. */
  datatype Check = Passed | MissingFields | InvalidDates | EndNotAfterStart | BadPercentage | BadFixed

  predicate HasRequired(form: Object) {
    Truthy(Get(form, "code")) && Truthy(Get(form, "discountValue"))
    && Truthy(Get(form, "startDate")) && Truthy(Get(form, "endDate"))
  }

  /** What a saved discount satisfies, stated as one condition. */
  predicate Accepted(form: Object, parseDate: Value -> Option<int>) {
    var v := Get(form, "discountValue");
    var start := parseDate(Get(form, "startDate"));
    var end := parseDate(Get(form, "endDate"));
    HasRequired(form) && start.Some? && end.Some? && start.value < end.value
    && (Get(form, "discountType") == Str("percentage") ==> !AtMost(v, 0) && !Above(v, 100))
    && (Get(form, "discountType") == Str("fixed") ==> !AtMost(v, 0))
  }

  /** The checks of `handleSubmit`, first failure wins. */
  function Validate(form: Object, parseDate: Value -> Option<int>): (c: Check)
    ensures c == Passed <==> Accepted(form, parseDate)
    ensures c == MissingFields <==> !HasRequired(form)
    ensures c == InvalidDates <==>
              HasRequired(form)
              && (parseDate(Get(form, "startDate")).None? || parseDate(Get(form, "endDate")).None?)
    ensures var start, end := parseDate(Get(form, "startDate")), parseDate(Get(form, "endDate"));
            c == EndNotAfterStart <==>
              HasRequired(form) && start.Some? && end.Some? && start.value >= end.value
    ensures var start, end := parseDate(Get(form, "startDate")), parseDate(Get(form, "endDate"));
            var v := Get(form, "discountValue");
            c == BadPercentage <==>
              HasRequired(form) && start.Some? && end.Some? && start.value < end.value
              && Get(form, "discountType") == Str("percentage") && (AtMost(v, 0) || Above(v, 100))
    ensures var start, end := parseDate(Get(form, "startDate")), parseDate(Get(form, "endDate"));
            var v := Get(form, "discountValue");
            c == BadFixed <==>
              HasRequired(form) && start.Some? && end.Some? && start.value < end.value
              && Get(form, "discountType") == Str("fixed") && AtMost(v, 0)
  {
    var v := Get(form, "discountValue");
    var start := parseDate(Get(form, "startDate"));
    var end := parseDate(Get(form, "endDate"));
    if !HasRequired(form) then MissingFields
    else if start.None? || end.None? then InvalidDates
    else if start.value >= end.value then EndNotAfterStart
    else if Get(form, "discountType") == Str("percentage") && (AtMost(v, 0) || Above(v, 100)) then BadPercentage
    else if Get(form, "discountType") == Str("fixed") && AtMost(v, 0) then BadFixed
    else Passed
  }

  /** A saved percentage discount given as a number lies in 1..100, and a
      value of 0 never gets past the first check. */
  lemma PercentageInRange(form: Object, parseDate: Value -> Option<int>, n: int)
    requires Get(form, "discountValue") == Num(n) && Get(form, "discountType") == Str("percentage")
    ensures Validate(form, parseDate) == Passed ==> 0 < n <= 100
    ensures n == 0 ==> Validate(form, parseDate) == MissingFields
  {
  }

  /** `amount === "" ? null : Number(amount)` */
  function OptionalAmount(v: Value): (r: Value)
    ensures r.Null? <==> v == Str("")
    ensures !r.Null? ==> r.Num? || r.NaN?
  {
    if v == Str("") then Null else ToNumber(v)
  }

  /** The payload: the form with the value and amounts made numbers (or
      `null`) and the two dates normalised. Both dates parse, as the checks
      before it have established. */
  function Payload(form: Object, parseDate: Value -> Option<int>): (p: Object)
    requires parseDate(Get(form, "startDate")).Some? && parseDate(Get(form, "endDate")).Some?
    ensures Get(p, "discountValue") == ToNumber(Get(form, "discountValue"))
    ensures Get(p, "minOrderAmount") == OptionalAmount(Get(form, "minOrderAmount"))
    ensures Get(p, "maxDiscountAmount") == OptionalAmount(Get(form, "maxDiscountAmount"))
    ensures Get(p, "startDate") == Num(parseDate(Get(form, "startDate")).value)
    ensures Get(p, "endDate") == Num(parseDate(Get(form, "endDate")).value)
    ensures forall k :: k !in {"discountValue", "minOrderAmount", "maxDiscountAmount", "startDate", "endDate"} ==>
              Get(p, k) == Get(form, k)
  {
    var p1 := With(form, "discountValue", ToNumber(Get(form, "discountValue")));
    var p2 := With(p1, "minOrderAmount", OptionalAmount(Get(form, "minOrderAmount")));
    var p3 := With(p2, "maxDiscountAmount", OptionalAmount(Get(form, "maxDiscountAmount")));
    var p4 := With(p3, "startDate", Num(parseDate(Get(form, "startDate")).value));
    With(p4, "endDate", Num(parseDate(Get(form, "endDate")).value))
  }

  datatype DiscountSubmit = DiscountSubmit(check: Check, submitted: Forms.Submitted<Object>)

  /** `handleSubmit`: every failed check stops before the write and still
      clears `isSubmitting`; a passed form leaves for the list after any
      write that did not throw. */
  function HandleSubmit(form: Object, parseDate: Value -> Option<int>, id: Option<string>,
                        reply: Reply<Value>): (r: DiscountSubmit)
    ensures r.check == Validate(form, parseDate)
    ensures !r.submitted.isSubmitting
    ensures r.submitted.call.Some? <==> Accepted(form, parseDate)
    ensures r.submitted.call.Some? ==> r.submitted.call.value.payload == Payload(form, parseDate)
    ensures r.submitted.call.Some? ==> (r.submitted.call.value.Update? <==> Forms.IsEditing(id))
    ensures r.submitted.call.Some? && r.submitted.call.value.Update? ==> r.submitted.call.value.id == id.value
    ensures r.submitted.nav.Some? <==> Accepted(form, parseDate) && !reply.Threw?
    ensures r.submitted.nav.Some? ==> r.submitted.nav.value == Navigate("/discounts", false)
  {
    var c := Validate(form, parseDate);
    var payload := if c == Passed then Payload(form, parseDate) else form;
    DiscountSubmit(c, Forms.Submit(c == Passed, id, payload, Forms.UnlessThrown, "/discounts", reply))
  }
}

/** The product edit page: the three string lists edited as select options,
    the required fields, the variant items and their specs, and the
    name-keyed change handler. Fresh ids (`crypto.randomUUID()`) are
    parameters. */
module ProductForm {
  import opened Common
  import opened JsValue
  import Sequences
  import Forms

  /** The option object a stored string is shown as: `{ label: x, value: x }`. */
  function OptionEntry(x: Value): Value {
    Obj(map["label" := x, "value" := x])
  }

  /** `list?.map(item => ({ label: item, value: item }))`: `None` when the
      call throws, which it does for anything but an array, `null` or
      `undefined`. */
  function ToOptions(list: Value): (r: Option<Value>)
    ensures list.Arr? ==> r == Some(Arr(seq(|list.items|, k requires 0 <= k < |list.items| => OptionEntry(list.items[k]))))
    ensures list.Null? || list.Undefined? ==> r == Some(Undefined)
    ensures r.None? <==> !(list.Arr? || list.Null? || list.Undefined?)
  {
    match list
    case Arr(items) => Some(Arr(seq(|items|, k requires 0 <= k < |items| => OptionEntry(items[k]))))
    case Null => Some(Undefined)
    case Undefined => Some(Undefined)
    case _ => None
  }

  /** `options?.map(item => item?.value)`, with the same failure cases. */
  function FromOptions(options: Value): (r: Option<Value>)
    ensures options.Arr? ==> r == Some(Arr(seq(|options.items| , k requires 0 <= k < |options.items| => Field(options.items[k], "value"))))
    ensures options.Null? || options.Undefined? ==> r == Some(Undefined)
    ensures r.None? <==> !(options.Arr? || options.Null? || options.Undefined?)
  {
    match options
    case Arr(items) => Some(Arr(seq(|items|, k requires 0 <= k < |items| => Field(items[k], "value"))))
    case Null => Some(Undefined)
    case Undefined => Some(Undefined)
    case _ => None
  }

  /** A list loaded into options and read back is the same list. */
  lemma OptionsRoundTrip(items: seq<Value>)
    ensures FromOptions(ToOptions(Arr(items)).value) == Some(Arr(items))
  {
    var opts := ToOptions(Arr(items)).value.items;
    var back := seq(|opts|, k requires 0 <= k < |opts| => Field(opts[k], "value"));
    assert back == items;
  }

  /** Options whose label and value agree are rebuilt exactly from their
      values. */
  lemma ValuesRoundTrip(options: seq<Value>)
    requires forall k :: 0 <= k < |options| ==> options[k] == OptionEntry(Field(options[k], "value"))
    ensures var values := FromOptions(Arr(options)).value;
            ToOptions(values) == Some(Arr(options))
  {
    var values := FromOptions(Arr(options)).value.items;
    var rebuilt := seq(|values|, k requires 0 <= k < |values| => OptionEntry(values[k]));
    assert rebuilt == options;
  }

  /** The three list fields shown as options. */
  const ListFields: seq<string> := ["careTips", "features", "tags"]

  /** A stored spec as the form holds it: `{ variationId:
      sitem?.variationId?._id, optionId: sitem?.optionId?._id, specId }`
      with a fresh `specId`. */
  function LoadSpec(sitem: Value, specId: string): Value {
    Obj(map["variationId" := Field(Field(sitem, "variationId"), "_id"),
            "optionId" := Field(Field(sitem, "optionId"), "_id"),
            "specId" := Str(specId)])
  }

  /** The edit-mode load of one variant item: `vitem.specs =
      vitem?.specs?.map(…)` then `vitem.itemId = crypto.randomUUID()`.
      `None` when it throws: assigning a property of anything but an object
      fails, and so does `map` on specs other than an array, `null` or
      `undefined`. The j-th spec gets the fresh id `specId(j)`. */
  function LoadVariantItem(vitem: Value, itemId: string, specId: nat -> string): (r: Option<Value>)
    ensures r.Some? <==> vitem.Obj? && ToOptions(Field(vitem, "specs")).Some?
    ensures r.Some? ==> r.value.Obj? && Field(r.value, "itemId") == Str(itemId)
    ensures r.Some? ==> forall k :: k != "specs" && k != "itemId" ==> Field(r.value, k) == Field(vitem, k)
    ensures r.Some? && !Field(vitem, "specs").Arr? ==> Field(r.value, "specs") == Undefined
    ensures r.Some? && Field(vitem, "specs").Arr? ==>
              var before, after := Field(vitem, "specs").items, Field(r.value, "specs");
              after.Arr? && |after.items| == |before|
              && forall j :: 0 <= j < |before| ==>
                   Field(after.items[j], "specId") == Str(specId(j))
                   && Field(after.items[j], "variationId") == Field(Field(before[j], "variationId"), "_id")
                   && Field(after.items[j], "optionId") == Field(Field(before[j], "optionId"), "_id")
  {
    if !vitem.Obj? then None
    else
      var specs := Field(vitem, "specs");
      if specs.Arr? then
        var loaded := seq(|specs.items|, j requires 0 <= j < |specs.items| => LoadSpec(specs.items[j], specId(j)));
        Some(Obj(With(With(vitem.fields, "specs", Arr(loaded)), "itemId", Str(itemId))))
      else if specs.Null? || specs.Undefined? then
        Some(Obj(With(With(vitem.fields, "specs", Undefined), "itemId", Str(itemId))))
      else None
  }

  /** `result?.variantItems?.map(…)`: the k-th item gets the fresh id
      `itemId(k)` and its specs the fresh ids `specIds(k)`; `None` when the
      call throws. */
  function LoadVariantItems(list: Value, itemId: nat -> string, specIds: nat -> nat -> string): (r: Option<Value>)
    ensures list.Null? || list.Undefined? ==> r == Some(Undefined)
    ensures r.Some? <==>
              (list.Null? || list.Undefined?
               || (list.Arr? && forall k :: 0 <= k < |list.items| ==> LoadVariantItem(list.items[k], itemId(k), specIds(k)).Some?))
    ensures r.Some? && list.Arr? ==>
              r.value.Arr? && |r.value.items| == |list.items|
              && forall k :: 0 <= k < |list.items| ==>
                   r.value.items[k] == LoadVariantItem(list.items[k], itemId(k), specIds(k)).value
  {
    match list
    case Arr(items) =>
      if forall k :: 0 <= k < |items| ==> LoadVariantItem(items[k], itemId(k), specIds(k)).Some? then
        Some(Arr(seq(|items|, k requires 0 <= k < |items| => LoadVariantItem(items[k], itemId(k), specIds(k)).value)))
      else None
    case Null => Some(Undefined)
    case Undefined => Some(Undefined)
    case _ => None
  }

  /** With an id source that never repeats, the loaded items carry pairwise
      different ids, so each one can be edited and removed on its own. */
  lemma LoadedItemIdsDistinct(list: Value, itemId: nat -> string, specIds: nat -> nat -> string)
    requires forall a: nat, b: nat :: itemId(a) == itemId(b) ==> a == b
    requires list.Arr? && LoadVariantItems(list, itemId, specIds).Some?
    ensures var items := LoadVariantItems(list, itemId, specIds).value.items;
            forall a, b :: 0 <= a < b < |items| ==> Field(items[a], "itemId") != Field(items[b], "itemId")
  {
    var items := LoadVariantItems(list, itemId, specIds).value.items;
    forall a, b | 0 <= a < b < |items|
      ensures Field(items[a], "itemId") != Field(items[b], "itemId")
    {
      assert Field(items[a], "itemId") == Str(itemId(a));
      assert Field(items[b], "itemId") == Str(itemId(b));
    }
  }

  /** `{ ...o, careTips: c, features: f, tags: t, variantItems: v }` */
  function WithLoaded(o: Object, c: Value, f: Value, t: Value, v: Value): (r: Object)
    ensures Get(r, "careTips") == c && Get(r, "features") == f && Get(r, "tags") == t
    ensures Get(r, "variantItems") == v
    ensures forall k :: k !in ListFields && k != "variantItems" ==> Get(r, k) == Get(o, k)
  {
    o["careTips" := c]["features" := f]["tags" := t]["variantItems" := v]
  }

  /** The edit-mode load of a product (`{ ...result, careTips: …, features:
      …, tags: …, variantItems: … }`); `None` when one of the maps throws. */
  function LoadProduct(result: Object, itemId: nat -> string, specIds: nat -> nat -> string): (r: Option<Object>)
    ensures r.Some? <==> (forall f :: f in ListFields ==> ToOptions(Get(result, f)).Some?)
                         && LoadVariantItems(Get(result, "variantItems"), itemId, specIds).Some?
    ensures r.Some? ==> forall f :: f in ListFields ==> Get(r.value, f) == ToOptions(Get(result, f)).value
    ensures r.Some? ==> Get(r.value, "variantItems") == LoadVariantItems(Get(result, "variantItems"), itemId, specIds).value
    ensures r.Some? ==> forall k :: k !in ListFields && k != "variantItems" ==> Get(r.value, k) == Get(result, k)
  {
    var c, f, t := ToOptions(Get(result, "careTips")), ToOptions(Get(result, "features")), ToOptions(Get(result, "tags"));
    var v := LoadVariantItems(Get(result, "variantItems"), itemId, specIds);
    if c.Some? && f.Some? && t.Some? && v.Some? then
      Some(WithLoaded(result, c.value, f.value, t.value, v.value))
    else None
  }

  /** The submit payload: the form with the three option lists turned back
      into their values; `None` when one of the maps throws. */
  function Payload(form: Object): (r: Option<Object>)
    ensures r.Some? <==> forall f :: f in ListFields ==> FromOptions(Get(form, f)).Some?
    ensures r.Some? ==> forall f :: f in ListFields ==> Get(r.value, f) == FromOptions(Get(form, f)).value
    ensures r.Some? ==> forall k :: k !in ListFields ==> Get(r.value, k) == Get(form, k)
  {
    var c, f, t := FromOptions(Get(form, "careTips")), FromOptions(Get(form, "features")), FromOptions(Get(form, "tags"));
    if c.Some? && f.Some? && t.Some? then
      Some(With(With(With(form, "careTips", c.value), "features", f.value), "tags", t.value))
    else None
  }

  /** Saving a product straight after loading it sends its three lists back
      as they were stored. */
  lemma SaveAfterLoad(result: Object, careTips: seq<Value>, features: seq<Value>, tags: seq<Value>,
                      itemId: nat -> string, specIds: nat -> nat -> string)
    requires Get(result, "careTips") == Arr(careTips) && Get(result, "features") == Arr(features)
    requires Get(result, "tags") == Arr(tags)
    requires LoadVariantItems(Get(result, "variantItems"), itemId, specIds).Some?
    ensures LoadProduct(result, itemId, specIds).Some? && Payload(LoadProduct(result, itemId, specIds).value).Some?
    ensures var p := Payload(LoadProduct(result, itemId, specIds).value).value;
            Get(p, "careTips") == Arr(careTips) && Get(p, "features") == Arr(features)
            && Get(p, "tags") == Arr(tags)
  {
    OptionsRoundTrip(careTips);
    OptionsRoundTrip(features);
    OptionsRoundTrip(tags);
  }

  /** `handleSubmit`: name and price must be truthy before anything is sent;
      the page then leaves for the product list unless the write throws. */
  function HandleSubmit(form: Object, id: Option<string>, reply: Reply<Value>): (r: Forms.Submitted<Object>)
    ensures !r.isSubmitting
    ensures r.call.Some? <==> Truthy(Get(form, "name")) && Truthy(Get(form, "price")) && Payload(form).Some?
    ensures r.call.Some? ==> r.call.value.payload == Payload(form).value
    ensures r.call.Some? ==> (r.call.value.Update? <==> Forms.IsEditing(id))
    ensures r.call.Some? && r.call.value.Update? ==> r.call.value.id == id.value
    ensures r.nav.Some? <==> r.call.Some? && !reply.Threw?
    ensures r.nav.Some? ==> r.nav.value == Navigate("/products", false)
  {
    var valid := Truthy(Get(form, "name")) && Truthy(Get(form, "price"));
    var payload := Payload(form);
    if valid && payload.None? then Forms.Submitted(None, None, false)
    else Forms.Submit(valid, id, if payload.Some? then payload.value else form, Forms.UnlessThrown, "/products", reply)
  }

  /** A specification row of a variant item. */
  datatype Spec = Spec(specId: string, variationId: Value, optionId: Value)

  /** A variant item of the product. */
  datatype VariantItem = VariantItem(itemId: string, sku: Value, stock: Value, extraPrice: Value, specs: seq<Spec>)

  function ItemId(item: VariantItem): string { item.itemId }

  function SpecId(spec: Spec): string { spec.specId }

  /** `addVarItem`: one blank item at the end. */
  function AddVarItem(items: seq<VariantItem>, freshId: string): (r: seq<VariantItem>)
    ensures |r| == |items| + 1 && r[..|items|] == items
    ensures r[|items|] == VariantItem(freshId, Str(""), Num(0), Num(0), [])
  {
    items + [VariantItem(freshId, Str(""), Num(0), Num(0), [])]
  }

  /** `removeVarItem(itemId)` */
  function RemoveVarItem(items: seq<VariantItem>, itemId: string): (r: seq<VariantItem>)
    ensures Sequences.IsSubsequence(r, items)
    ensures forall x :: x in r <==> x in items && x.itemId != itemId
    ensures |r| == |items| - Sequences.CountKey(items, ItemId, itemId)
  {
    Sequences.WithoutKeySpec(items, ItemId, itemId);
    Sequences.WithoutKey(items, ItemId, itemId)
  }

  /** The `setData` a variant item calls: the item with that id is replaced. */
  function ReplaceVarItem(items: seq<VariantItem>, itemId: string, val: VariantItem): (r: seq<VariantItem>)
    ensures |r| == |items|
    ensures forall k :: 0 <= k < |items| ==> r[k] == if items[k].itemId == itemId then val else items[k]
  {
    Sequences.MapWhereKey(items, ItemId, itemId, (_: VariantItem) => val)
  }

  /** Removing a freshly added item gives back the list before the add. */
  lemma RemoveUndoesAdd(items: seq<VariantItem>, freshId: string)
    requires forall k :: 0 <= k < |items| ==> items[k].itemId != freshId
    ensures RemoveVarItem(AddVarItem(items, freshId), freshId) == items
  {
    var added := VariantItem(freshId, Str(""), Num(0), Num(0), []);
    Sequences.WithoutKeyAppend(items, [added], ItemId, freshId);
    Sequences.WithoutKeyCons([added], ItemId, freshId);
    Sequences.WithoutAbsentKey(items, ItemId, freshId);
  }

  /** Editing an item and then removing it is the same as removing it. */
  lemma RemoveAfterReplace(items: seq<VariantItem>, itemId: string, val: VariantItem)
    requires val.itemId == itemId
    ensures RemoveVarItem(ReplaceVarItem(items, itemId, val), itemId) == RemoveVarItem(items, itemId)
    decreases |items|
  {
    var r := ReplaceVarItem(items, itemId, val);
    ReplaceRemove(items, r, itemId);
  }

  lemma {:induction false} ReplaceRemove(items: seq<VariantItem>, r: seq<VariantItem>, itemId: string)
    requires |r| == |items|
    requires forall k :: 0 <= k < |items| ==> (r[k].itemId == itemId <==> items[k].itemId == itemId)
    requires forall k :: 0 <= k < |items| && items[k].itemId != itemId ==> r[k] == items[k]
    ensures Sequences.WithoutKey(r, ItemId, itemId) == Sequences.WithoutKey(items, ItemId, itemId)
    decreases |items|
  {
    if |items| > 0 {
      ReplaceRemove(items[1..], r[1..], itemId);
      Sequences.WithoutKeyCons(items, ItemId, itemId);
      Sequences.WithoutKeyCons(r, ItemId, itemId);
    }
  }

  /** `addSpec` on one item: one blank spec at the end, other fields kept. */
  function AddSpec(item: VariantItem, freshId: string): (r: VariantItem)
    ensures r.itemId == item.itemId && r.sku == item.sku && r.stock == item.stock && r.extraPrice == item.extraPrice
    ensures |r.specs| == |item.specs| + 1 && r.specs[..|item.specs|] == item.specs
    ensures r.specs[|item.specs|] == Spec(freshId, Str(""), Str(""))
  {
    item.(specs := item.specs + [Spec(freshId, Str(""), Str(""))])
  }

  /** `removeSpec(specId)` on one item. */
  function RemoveSpec(item: VariantItem, specId: string): (r: VariantItem)
    ensures r.itemId == item.itemId && r.sku == item.sku && r.stock == item.stock && r.extraPrice == item.extraPrice
    ensures Sequences.IsSubsequence(r.specs, item.specs)
    ensures forall s :: s in r.specs <==> s in item.specs && s.specId != specId
    ensures |r.specs| == |item.specs| - Sequences.CountKey(item.specs, SpecId, specId)
  {
    Sequences.WithoutKeySpec(item.specs, SpecId, specId);
    item.(specs := Sequences.WithoutKey(item.specs, SpecId, specId))
  }

  /** The `setData` a spec row calls: the spec with that id is replaced. */
  function ReplaceSpec(item: VariantItem, specId: string, val: Spec): (r: VariantItem)
    ensures r.itemId == item.itemId && r.sku == item.sku && r.stock == item.stock && r.extraPrice == item.extraPrice
    ensures |r.specs| == |item.specs|
    ensures forall k :: 0 <= k < |item.specs| ==>
              r.specs[k] == if item.specs[k].specId == specId then val else item.specs[k]
  {
    item.(specs := Sequences.MapWhereKey(item.specs, SpecId, specId, (_: Spec) => val))
  }

  /** Removing a freshly added spec gives back the item before the add. */
  lemma RemoveSpecUndoesAdd(item: VariantItem, freshId: string)
    requires forall k :: 0 <= k < |item.specs| ==> item.specs[k].specId != freshId
    ensures RemoveSpec(AddSpec(item, freshId), freshId) == item
  {
    var added := Spec(freshId, Str(""), Str(""));
    Sequences.WithoutKeyAppend(item.specs, [added], SpecId, freshId);
    Sequences.WithoutKeyCons([added], SpecId, freshId);
    Sequences.WithoutAbsentKey(item.specs, SpecId, freshId);
  }

  /** `handleChange`: the value goes under the input's name, `checked` for a
      checkbox. */
  function HandleChange(form: Object, name: string, value: string, checkbox: Option<bool>): (r: Object)
    ensures checkbox.Some? ==> Get(r, name) == Bool(checkbox.value)
    ensures checkbox.None? ==> Get(r, name) == Str(value)
    ensures forall k :: k != name ==> Get(r, k) == Get(form, k)
  {
    With(form, name, if checkbox.Some? then Bool(checkbox.value) else Str(value))
  }

  /** The featured checkbox as written: it shows `isFeatured` but its input
      is named "featured". */
  function FeaturedCheckbox(form: Object, checked: bool): (r: Object)
    ensures Get(r, "featured") == Bool(checked)
    ensures forall k :: k != "featured" ==> Get(r, k) == Get(form, k)
  {
    HandleChange(form, "featured", "on", Some(checked))
  }

  /** Clicking the box never changes the flag it shows. */
  lemma FeaturedCheckboxMissesFlag(form: Object, checked: bool)
    requires Get(form, "isFeatured") == Bool(!checked)
    ensures Get(FeaturedCheckbox(form, checked), "isFeatured") == Bool(!checked)
    ensures Get(FeaturedCheckbox(form, checked), "isFeatured") != Bool(checked)
  {
  }

  /** The featured checkbox writing the flag it shows. */
  function FeaturedCheckboxFixed(form: Object, checked: bool): (r: Object)
    ensures forall k :: k != "isFeatured" ==> Get(r, k) == Get(form, k)
  {
    HandleChange(form, "isFeatured", "on", Some(checked))
  }

  /** With the input named after the flag, a click shows what was clicked. */
  lemma FeaturedCheckboxFixedShowsClick(form: Object, checked: bool)
    ensures Get(FeaturedCheckboxFixed(form, checked), "isFeatured") == Bool(checked)
  {
  }

  /** `handleStatusChange` */
  function HandleStatusChange(form: Object, newStatus: string, reply: Reply<Value>): (r: Object)
    ensures reply.Ok? ==> Get(r, "isArchived") == Bool(newStatus == "archived")
    ensures !reply.Ok? ==> r == form
    ensures forall k :: k != "isArchived" ==> Get(r, k) == Get(form, k)
  {
    if reply.Ok? then With(form, "isArchived", Forms.StatusChange(Get(form, "isArchived"), newStatus, reply))
    else form
  }
}
