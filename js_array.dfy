/** The array built-in that key derivation relies on: the value `Array.prototype.pop` returns. */
module JsArray {
  import opened Wrappers

  /** The value `xs.pop()` returns: the last element, or `undefined` when `xs` is empty. */
  function Pop<T>(xs: seq<T>): (r: Option<T>)
    ensures r.None? <==> |xs| == 0
    ensures r.Some? ==> r.value in xs
  {
    if |xs| == 0 then None else Some(xs[|xs| - 1])
  }

  /** `pop` undoes `push`: it returns the element that was pushed last. */
  lemma PopAfterPush<T>(ys: seq<T>, x: T)
    ensures Pop(ys + [x]) == Some(x)
  {
  }
}
