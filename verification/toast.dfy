/**
 * Toast notifications (src/components/ui/Toast.tsx): the provider's list of visible toasts,
 * oldest first, and the hook that finds the provider.
 */
module Toast {
  import opened Wrappers
  import opened JsStrings
  import opened JsArrays

  datatype ToastType = SuccessToast | ErrorToast | InfoToast

  datatype ToastItem = ToastItem(id: string, message: string, kind: ToastType)

  /** `prev.filter(t => t.id !== id)` */
  function WithoutToast(toasts: seq<ToastItem>, id: string): (r: seq<ToastItem>)
    ensures r == Filter((t: ToastItem) => t.id != id, toasts)
    ensures forall t :: t in r <==> t in toasts && t.id != id
    ensures |r| <= |toasts|
  {
    if toasts == [] then []
    else if toasts[0].id == id then WithoutToast(toasts[1..], id)
    else [toasts[0]] + WithoutToast(toasts[1..], id)
  }

  /** Removing an id no toast has leaves the list unchanged. */
  lemma {:induction false} WithoutAbsentToast(toasts: seq<ToastItem>, id: string)
    requires forall t | t in toasts :: t.id != id
    ensures WithoutToast(toasts, id) == toasts
  {
    if toasts != [] {
      WithoutAbsentToast(toasts[1..], id);
    }
  }

  /** A toast added under a fresh id is the one removed by its own timer. */
  lemma {:induction false} RemoveAddedToast(toasts: seq<ToastItem>, t: ToastItem)
    requires forall u | u in toasts :: u.id != t.id
    ensures WithoutToast(toasts + [t], t.id) == toasts
  {
    if toasts == [] {
    } else {
      assert (toasts + [t])[1..] == toasts[1..] + [t];
      RemoveAddedToast(toasts[1..], t);
    }
  }

  class ToastProvider {
    var toasts: seq<ToastItem>

    constructor ()
      ensures toasts == []
    {
      toasts := [];
    }

    /** `removeToast` */
    method RemoveToast(id: string)
      modifies this
      ensures toasts == WithoutToast(old(toasts), id)
    {
      toasts := WithoutToast(toasts, id);
    }

    /** `addToast`; `now` is the clock reading that becomes the id. */
    method AddToast(message: string, kind: ToastType, now: nat)
      modifies this
      ensures toasts == old(toasts) + [ToastItem(NatToString(now), message, kind)]
    {
      var id := NatToString(now);
      toasts := toasts + [ToastItem(id, message, kind)];
    }

    method Success(message: string, now: nat)
      modifies this
      ensures toasts == old(toasts) + [ToastItem(NatToString(now), message, SuccessToast)]
    {
      AddToast(message, SuccessToast, now);
    }

    method Error(message: string, now: nat)
      modifies this
      ensures toasts == old(toasts) + [ToastItem(NatToString(now), message, ErrorToast)]
    {
      AddToast(message, ErrorToast, now);
    }

    method Info(message: string, now: nat)
      modifies this
      ensures toasts == old(toasts) + [ToastItem(NatToString(now), message, InfoToast)]
    {
      AddToast(message, InfoToast, now);
    }
  }

  /** `useToast`: outside a provider it throws. */
  function UseToast(context: Option<ToastProvider>): (r: Result<ToastProvider, string>)
    ensures context.None? <==> r == Failure("useToast must be used within a ToastProvider")
    ensures context.Some? ==> r == Success(context.value)
  {
    match context
    case None => Failure("useToast must be used within a ToastProvider")
    case Some(p) => Success(p)
  }
}
