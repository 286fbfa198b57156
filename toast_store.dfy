/** The toast list (frontend/src/store/toastStore.ts): toasts are appended with
    the current time as their id and removed by id. The clock is a parameter. */
module Toasts {
  import opened Text
  import opened Tables

  datatype ToastType = Success | Error | Warning

  datatype ToastItem = ToastItem(id: string, kind: ToastType, message: string)

  function NotId(id: string): ToastItem -> bool { (t: ToastItem) => t.id != id }

  /** `toasts.filter((toast) => toast.id !== id)`: every toast with another id
      stays, in order, and none with this id does; the list never grows, and an
      unknown id changes nothing. */
  lemma RemovalKeepsTheRest(toasts: seq<ToastItem>, id: string)
    ensures forall t | t in Filter(toasts, NotId(id)) :: t in toasts && t.id != id
    ensures forall t | t in toasts && t.id != id :: t in Filter(toasts, NotId(id))
    ensures |Filter(toasts, NotId(id))| <= |toasts|
    ensures (forall k | 0 <= k < |toasts| :: toasts[k].id != id) ==> Filter(toasts, NotId(id)) == toasts
  {
    FilterMembers(toasts, NotId(id));
    forall t | t in Filter(toasts, NotId(id)) ensures t.id != id {
      assert NotId(id)(t);
    }
    forall t | t in toasts && t.id != id ensures t in Filter(toasts, NotId(id)) {
      assert NotId(id)(t);
    }
    if forall k | 0 <= k < |toasts| :: toasts[k].id != id {
      forall k | 0 <= k < |toasts| ensures NotId(id)(toasts[k]) {
      }
      FilterAllPass(toasts, NotId(id));
    }
  }

  /** Removing toasts keeps the relative order of the rest: the filter of a
      concatenation is the concatenation of the filters. */
  lemma RemovalKeepsOrder(earlier: seq<ToastItem>, later: seq<ToastItem>, id: string)
    ensures Filter(earlier + later, NotId(id)) == Filter(earlier, NotId(id)) + Filter(later, NotId(id))
  {
    FilterConcat(earlier, later, NotId(id));
  }

  /** Two toasts added in the same millisecond share their id, so removing one
      of them removes both. */
  lemma SameMillisecondToastsLeaveTogether(toasts: seq<ToastItem>, now: nat, a: ToastItem, b: ToastItem)
    requires a.id == IntToString(now) && b.id == IntToString(now)
    ensures Filter(toasts + [a, b], NotId(IntToString(now))) == Filter(toasts, NotId(IntToString(now)))
  {
    var id := IntToString(now);
    FilterConcat(toasts, [a, b], NotId(id));
    assert [a, b][1..] == [b];
    assert [b][1..] == [];
  }

  class ToastStore {
    var toasts: seq<ToastItem>

    constructor()
      ensures toasts == []
    {
      toasts := [];
    }

    /** `addToast`: one toast at the end, with `Date.now().toString()` as its id. */
    method AddToast(kind: ToastType, message: string, now: nat)
      modifies this
      ensures toasts == old(toasts) + [ToastItem(IntToString(now), kind, message)]
    {
      var id := IntToString(now);
      var newToast := ToastItem(id, kind, message);
      toasts := toasts + [newToast];
    }

    /** `removeToast`: every toast with that id leaves; see `RemovalKeepsTheRest`. */
    method RemoveToast(id: string)
      modifies this
      ensures toasts == Filter(old(toasts), NotId(id))
      ensures forall t | t in toasts :: t in old(toasts) && t.id != id
      ensures forall t | t in old(toasts) && t.id != id :: t in toasts
    {
      RemovalKeepsTheRest(toasts, id);
      toasts := Filter(toasts, NotId(id));
    }
  }
}
