/** The order-status widget: which step is current, which steps are lit,
    how wide the progress bar is, and which buttons can be pressed. */
module OrderStatus {
  import opened Common
  import Text

  /** The colour names `statusConfig` and `getColorClass` use. */
  datatype Color = Warning | Primary | Accent | Success | Error | Neutral

  /** `statusConfig[key]?.color || "neutral"`: only the five configured
      statuses have a colour of their own. */
  function ConfigColor(key: Option<string>): (c: Color)
    ensures c != Neutral ==> key.Some? && key.value in {"pending", "processing", "shipped", "delivered", "cancelled"}
    ensures key == Some("billed") || key == Some("packed") || key.None? ==> c == Neutral
  {
    if key == Some("pending") then Warning
    else if key == Some("processing") then Primary
    else if key == Some("shipped") then Accent
    else if key == Some("delivered") then Success
    else if key == Some("cancelled") then Error
    else Neutral
  }

  /** `orderStatus?.toLowerCase()` */
  function LowerStatus(orderStatus: Option<string>): Option<string> {
    if orderStatus.Some? then Some(Text.Lower(orderStatus.value)) else None
  }

  predicate SameStatus(step: string, orderStatus: Option<string>) {
    LowerStatus(orderStatus) == Some(Text.Lower(step))
  }

  /** `statuses.findIndex(s => s.toLowerCase() === orderStatus?.toLowerCase())` */
  function CurrentIndex(statuses: seq<string>, orderStatus: Option<string>): (i: int)
    ensures -1 <= i < |statuses|
    ensures i == -1 <==> forall k :: 0 <= k < |statuses| ==> !SameStatus(statuses[k], orderStatus)
    ensures i >= 0 ==> SameStatus(statuses[i], orderStatus)
    ensures i >= 0 ==> forall k :: 0 <= k < i ==> !SameStatus(statuses[k], orderStatus)
    decreases |statuses|
  {
    if |statuses| == 0 then -1
    else if SameStatus(statuses[0], orderStatus) then 0
    else
      var rest := CurrentIndex(statuses[1..], orderStatus);
      if rest == -1 then -1 else rest + 1
  }

  /** `index <= currentIndex` */
  predicate IsActive(index: int, currentIndex: int) {
    index <= currentIndex
  }

  /** The lit steps are exactly the first `currentIndex + 1`; a status that is
      not in the list lights none. */
  lemma ActiveStepsArePrefix(statuses: seq<string>, orderStatus: Option<string>)
    ensures var ci := CurrentIndex(statuses, orderStatus);
            forall k :: 0 <= k < |statuses| ==> (IsActive(k, ci) <==> k < ci + 1)
    ensures (forall k :: 0 <= k < |statuses| ==> !SameStatus(statuses[k], orderStatus)) ==>
              forall k :: 0 <= k < |statuses| ==> !IsActive(k, CurrentIndex(statuses, orderStatus))
  {
  }

  /** The progress bar width, in percent. */
  function ProgressPercent(currentIndex: int, count: nat): (w: real)
    requires currentIndex < count
    ensures currentIndex < 0 ==> w == 0.0
    ensures currentIndex >= 0 ==> 0.0 < w <= 100.0
    ensures currentIndex >= 0 ==> (w == 100.0 <==> currentIndex == count - 1)
  {
    if currentIndex >= 0 then ((currentIndex + 1) as real / count as real) * 100.0 else 0.0
  }

  /** The bar grows as the order moves along the steps. */
  lemma ProgressGrows(i: int, j: int, count: nat)
    requires 0 <= i < j < count
    ensures ProgressPercent(i, count) < ProgressPercent(j, count)
  {
  }

  /** What one status button does. */
  datatype Button = Button(disabled: bool, sends: string, color: Color)

  function StatusButton(step: string, orderStatus: Option<string>, loading: bool): (b: Button)
    ensures b.disabled <==> SameStatus(step, orderStatus) || loading
    ensures b.sends == Text.Lower(step)
  {
    var isCurrent := SameStatus(step, orderStatus);
    Button(isCurrent || loading, Text.Lower(step), ConfigColor(Some(Text.Lower(step))))
  }

  /** When the step names differ case-insensitively and the order's status is
      one of them, outside loading exactly the current step's button is
      disabled. */
  lemma OnlyCurrentButtonDisabled(statuses: seq<string>, orderStatus: Option<string>)
    requires forall a, b :: 0 <= a < b < |statuses| ==> Text.Lower(statuses[a]) != Text.Lower(statuses[b])
    requires CurrentIndex(statuses, orderStatus) >= 0
    ensures forall k :: 0 <= k < |statuses| ==>
              (StatusButton(statuses[k], orderStatus, false).disabled <==> k == CurrentIndex(statuses, orderStatus))
  {
  }
}

/** The order page: the fixed status flow, the status update and the page
    count of the invoice PDF. */
module OrderDetails {
  import opened Common
  import opened JsValue

  /** `statusFlow` */
  const StatusFlow: seq<string> := ["Pending", "Processing", "Billed", "Packed", "Shipped", "Delivered"]

  datatype Toast = ToastSuccess(message: string) | ToastError(message: string)

  datatype StatusUpdate = StatusUpdate(order: Value, toast: Toast, statusUpdating: bool)

  /** `handleStatusChange(newStatus)`; `now` is `new Date().toISOString()`. */
  function HandleStatusChange(order: Value, newStatus: string, now: string, reply: Reply<Value>): (r: StatusUpdate)
    ensures !r.statusUpdating
    ensures reply.Ok? ==>
              r.order.Obj?
              && Get(r.order.fields, "status") == Str(newStatus)
              && Get(r.order.fields, "updatedAt") == Str(now)
              && forall k :: k != "status" && k != "updatedAt" ==> Get(r.order.fields, k) == Get(Spread(order), k)
    ensures !reply.Ok? ==> r.order == order
    ensures !reply.Threw? ==> r.toast == ToastSuccess("Order status updated to " + newStatus)
    ensures reply.Threw? ==> r.toast == ToastError("Failed to update order status")
  {
    match reply
    case Ok(_) =>
      var updated := With(With(Spread(order), "status", Str(newStatus)), "updatedAt", Str(now));
      StatusUpdate(Obj(updated), ToastSuccess("Order status updated to " + newStatus), false)
    case NotOk => StatusUpdate(order, ToastSuccess("Order status updated to " + newStatus), false)
    case Threw => StatusUpdate(order, ToastError("Failed to update order status"), false)
  }

  const ImgWidth: real := 210.0
  const PageHeight: real := 297.0

  /** `(canvasHeight * imgWidth) / canvasWidth`, in millimetres. */
  function ImageHeight(canvasWidth: nat, canvasHeight: nat): real
    requires canvasWidth > 0
  {
    (canvasHeight as real * ImgWidth) / canvasWidth as real
  }

  /** The vertical offsets of the `addImage` calls in `generateInvoice`, in
      order, or `None` when a zero canvas size aborts before the PDF is
      built. Each page shows the next 297 mm slice of the same image. */
  method InvoicePositions(canvasWidth: nat, canvasHeight: nat) returns (r: Option<seq<real>>)
    ensures r.None? <==> canvasWidth == 0 || canvasHeight == 0
    ensures r.Some? ==>
              var h := ImageHeight(canvasWidth, canvasHeight);
              var n := |r.value|;
              n >= 1 && (n - 1) as real * PageHeight < h <= n as real * PageHeight
    ensures r.Some? ==> forall j :: 0 <= j < |r.value| ==> r.value[j] == -(j as real) * PageHeight
  {
    if canvasWidth == 0 || canvasHeight == 0 {
      return None;
    }
    var imgHeight := ImageHeight(canvasWidth, canvasHeight);
    var heightLeft := imgHeight;
    var position: real := 0.0;
    var positions := [position];
    heightLeft := heightLeft - PageHeight;
    while heightLeft > 0.0
      invariant |positions| >= 1
      invariant heightLeft == imgHeight - |positions| as real * PageHeight
      invariant (|positions| - 1) as real * PageHeight < imgHeight
      invariant forall j :: 0 <= j < |positions| ==> positions[j] == -(j as real) * PageHeight
      decreases imgHeight.Floor - (|positions| - 1) * 297
    {
      position := heightLeft - imgHeight;
      positions := positions + [position];
      heightLeft := heightLeft - PageHeight;
    }
    return Some(positions);
  }
}
