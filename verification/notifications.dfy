/**
 * The notification surface: at most one notification is visible. Showing one
 * removes every visible notification first; the auto-hide timers and the
 * close button remove a notification only while it is still attached.
 */
module Notifications {

  datatype Severity = Success | Error | Warning | Info

  /** A notification element; `id` stands for its identity as a DOM node. */
  datatype Notice = Notice(id: nat, message: string, severity: Severity)

  /** The visible notifications after the one with identity `id` is removed, if it is attached. */
  function Detach(visible: seq<Notice>, id: nat): (r: seq<Notice>)
    ensures forall n :: n in r <==> n in visible && n.id != id
    ensures |r| <= |visible|
  {
    if visible == [] then []
    else (if visible[0].id == id then [] else [visible[0]]) + Detach(visible[1..], id)
  }

  /** Removing a notification that is not attached changes nothing. */
  lemma {:induction false} DetachAbsent(visible: seq<Notice>, id: nat)
    requires forall k :: 0 <= k < |visible| ==> visible[k].id != id
    ensures Detach(visible, id) == visible
  {
    if visible != [] {
      DetachAbsent(visible[1..], id);
    }
  }

  /** Removing the same notification twice is the same as removing it once. */
  lemma DetachIdempotent(visible: seq<Notice>, id: nat)
    ensures Detach(Detach(visible, id), id) == Detach(visible, id)
  {
    var r := Detach(visible, id);
    assert forall k :: 0 <= k < |r| ==> r[k] in r;
    DetachAbsent(r, id);
  }

  class NotificationCenter {
    /** The notification elements attached to the page, in document order. */
    var visible: seq<Notice>
    /** The identity the next created element gets. */
    var nextId: nat

    ghost predicate Valid()
      reads this
    {
      && |visible| <= 1
      && forall k :: 0 <= k < |visible| ==> visible[k].id < nextId
    }

    constructor ()
      ensures Valid() && visible == [] && nextId == 0
    {
      visible := [];
      nextId := 0;
    }

    predicate Attached(id: nat)
      reads this
    {
      exists k :: 0 <= k < |visible| && visible[k].id == id
    }

    /**
     * `showNotification(message, type)`: removes every notification element
     * found on the page, then attaches a new one; `type` defaults to info.
     */
    method Show(message: string, severity: Severity := Info) returns (id: nat)
      requires Valid()
      modifies this
      ensures Valid()
      ensures id == old(nextId) && nextId == old(nextId) + 1
      ensures visible == [Notice(id, message, severity)]
    {
      var existing := visible;
      for k := 0 to |existing|
        invariant visible == existing[k..] && nextId == old(nextId)
      {
        assert existing[k..] == [existing[k]] + existing[k + 1..];
        visible := Detach(visible, existing[k].id);
      }
      id := nextId;
      nextId := nextId + 1;
      visible := visible + [Notice(id, message, severity)];
    }

    /**
     * Removal of notification `id`: what the close button does, and what
     * each auto-hide step does after checking that the element is still
     * attached. Nothing happens once it is gone.
     */
    method Dismiss(id: nat)
      requires Valid()
      modifies this
      ensures Valid() && nextId == old(nextId)
      ensures visible == Detach(old(visible), id)
      ensures !Attached(id)
      ensures !old(Attached(id)) ==> visible == old(visible)
    {
      if Attached(id) {
        visible := Detach(visible, id);
      } else {
        DetachAbsent(visible, id);
      }
    }
  }

  /** Two notifications shown in a row leave only the second; the first one's late timer then removes nothing. */
  method ShowTwiceThenLateTimer(center: NotificationCenter)
    requires center.Valid()
    modifies center
  {
    var a := center.Show("A");
    var b := center.Show("B", Warning);
    assert center.visible == [Notice(b, "B", Warning)];
    center.Dismiss(a);
    assert center.visible == [Notice(b, "B", Warning)];
    center.Dismiss(b);
    center.Dismiss(b);
    assert center.visible == [];
  }
}
