/**
 * The invoker of the tooltip-component event: it asks each registered
 * listener in turn for a tooltip component for the hovered item stack and
 * returns the first one offered, without asking the listeners after it.
 */
module RenderTooltipComponentCallback {

  import opened Wrappers

  /** One call of a listener's `run`: which listener, and the stack it was given. */
  datatype Call<S> = Call(listener: nat, stack: S)

  /** What the invoker returns, together with the listener calls it made, in order. */
  datatype Dispatch<S, C> = Dispatch(result: Option<C>, calls: seq<Call<S>>)

  /**
   * The invoker lambda for the listeners from index `from` on: calls them
   * one by one with the same `stack` and stops at the first present result.
   */
  function InvokeFrom<S, C>(listeners: seq<S -> Option<C>>, stack: S, from: nat): (d: Dispatch<S, C>)
    requires from <= |listeners|
    ensures |d.calls| <= |listeners| - from
    ensures forall j :: 0 <= j < |d.calls| ==> d.calls[j] == Call(from + j, stack)
    ensures forall j :: from <= j < from + |d.calls| - 1 ==> listeners[j](stack).None?
    ensures d.result.Some? ==> |d.calls| > 0 && d.result == listeners[from + |d.calls| - 1](stack)
    ensures d.result.None? <==> forall j :: from <= j < |listeners| ==> listeners[j](stack).None?
    ensures d.result.None? ==> |d.calls| == |listeners| - from
    decreases |listeners| - from
  {
    if from == |listeners| then
      Dispatch(None, [])
    else
      var result := listeners[from](stack);
      if result.Some? then
        Dispatch(result, [Call(from, stack)])
      else
        var rest := InvokeFrom(listeners, stack, from + 1);
        Dispatch(rest.result, [Call(from, stack)] + rest.calls)
  }

  /**
   * `EVENT.invoker().run(stack)`: the result is the first present result in
   * listener order, or empty when there is none (no listeners at all
   * included); listeners are called in order, each with `stack`, and none
   * after the one whose result is returned.
   */
  function Invoke<S, C>(listeners: seq<S -> Option<C>>, stack: S): (d: Dispatch<S, C>)
    ensures |d.calls| <= |listeners|
    ensures forall j :: 0 <= j < |d.calls| ==> d.calls[j] == Call(j, stack)
    ensures d.result.Some? ==>
              |d.calls| > 0 && d.result == listeners[|d.calls| - 1](stack) &&
              forall j :: 0 <= j < |d.calls| - 1 ==> listeners[j](stack).None?
    ensures d.result.None? <==> forall j :: 0 <= j < |listeners| ==> listeners[j](stack).None?
    ensures d.result.None? ==> |d.calls| == |listeners|
  {
    InvokeFrom(listeners, stack, 0)
  }

  /**
   * The first listener with a present result decides: whatever the listeners
   * after it would return, the invoker returns its result and calls exactly
   * the listeners up to it.
   */
  lemma FirstPresentWins<S, C>(listeners: seq<S -> Option<C>>, stack: S, i: nat)
    requires i < |listeners| && listeners[i](stack).Some?
    requires forall j :: 0 <= j < i ==> listeners[j](stack).None?
    ensures Invoke(listeners, stack).result == listeners[i](stack)
    ensures |Invoke(listeners, stack).calls| == i + 1
  {
  }
}
