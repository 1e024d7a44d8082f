/** Shared vocabulary: optional values, the three ways an awaited service
    call can end, and the ceiling division the pages use for `Math.ceil`. */
module Common {

  datatype Option<T> = None | Some(value: T)

  /** What a page observes after awaiting a service call: a body whose
      `success` is truthy, a body without it (several services catch their
      own errors and return them, which looks the same to the page), or an
      exception that reaches the page's `catch`. */
  datatype Reply<T> = Ok(data: T) | NotOk | Threw

  /** A call of react-router's `navigate(to, { replace })`. */
  datatype Navigation = Navigate(to: string, replace: bool)

  /** `Math.ceil(a / b)` for a natural `a` and a positive `b`. */
  function CeilDiv(a: nat, b: nat): (q: nat)
    requires b > 0
    ensures q * b >= a
    ensures q > 0 ==> (q - 1) * b < a
  {
    (a + b - 1) / b
  }

  lemma CeilDivMonotone(a: nat, a': nat, b: nat)
    requires b > 0 && a <= a'
    ensures CeilDiv(a, b) <= CeilDiv(a', b)
  {
    DivMonotone(a + b - 1, a' + b - 1, b);
  }

  lemma DivMonotone(x: nat, y: nat, b: nat)
    requires b > 0 && x <= y
    ensures x / b <= y / b
  {
    var qx, rx := x / b, x % b;
    var qy, ry := y / b, y % b;
    assert qx * b + rx == x && qy * b + ry == y;
    assert qx * b <= y < (qy + 1) * b;
    MulCancel(qx, qy + 1, b);
  }

  lemma MulCancel(x: nat, y: nat, b: nat)
    requires b > 0 && x * b < y * b
    ensures x < y
  {
    if y <= x {
      MulMonotone(y, x, b);
    }
  }

  lemma MulMonotone(x: nat, y: nat, b: nat)
    requires x <= y
    ensures x * b <= y * b
  {
  }

  lemma CeilDivOne(a: nat, b: nat)
    requires b > 0 && 1 <= a <= b
    ensures CeilDiv(a, b) == 1
  {
  }
}
