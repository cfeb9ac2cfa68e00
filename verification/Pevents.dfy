/**
 The event registrations of src/pevent.c: what a pevent_t records, what epoll holds for its
 descriptor, and how the calls keep the two together.
 */
module Pevents {
  import opened Texts

  /** What a descriptor is registered for. */
  datatype Interest = Idle | Read | Write

  datatype CtlOp = Add | Mod | Del

  /** `state` is pevent->state, `kernel` what epoll has registered. */
  datatype Registration = Registration(state: Interest, kernel: Interest)

  /**
   epoll_ctl: only what is registered can be modified or deleted, only what is not can be added;
   `ok` is whether it succeeds then.
   */
  function EpollCtl(kernel: Interest, op: CtlOp, want: Interest, ok: bool): Option<Interest> {
    if !ok || (op == Add) != (kernel == Idle) then None
    else Some(if op == Del then Idle else want)
  }

  /** pevent_signal. */
  function AfterSignal(r: Registration, want: Interest, ok: bool): (Registration, int) {
    if want == Idle then
      match EpollCtl(r.kernel, Del, Idle, ok)
      case None => (r.(state := Idle), 0)
      case Some(k) => (Registration(Idle, k), 0)
    else
      match EpollCtl(r.kernel, if r.state == Idle then Add else Mod, want, ok)
      case None => (r, -1)
      case Some(k) => (Registration(want, k), 0)
  }

  /** pevent_set. */
  function AfterSet(r: Registration, want: Interest, ok: bool): (Registration, int) {
    if r.state == want then (r, -1) else AfterSignal(r, want, ok)
  }

  predicate Agrees(r: Registration) {
    r.state == r.kernel
  }

  /** What pevent_set comes to while record and epoll agree. */
  function PeventSet(state: Interest, want: Interest, ok: bool): Option<Interest> {
    if state == want || !ok then None else Some(want)
  }

  /**
   While record and epoll agree, the choice between adding and modifying is always right: setting an
   interest fails exactly if it is set already or epoll fails, a failure changes nothing, and
   success sets both.
   */
  lemma SetAgreeing(r: Registration, want: Interest, ok: bool)
    requires Agrees(r) && want != Idle
    ensures
      match PeventSet(r.state, want, ok)
      case None => AfterSet(r, want, ok) == (r, -1)
      case Some(state) => AfterSet(r, want, ok) == (Registration(state, state), 0)
  {
  }

  /**
   Whether or not they agree: setting an interest succeeds exactly if epoll does and the record is right
   about there being a registration; withdrawing always clears the record.
   */
  lemma SignalExactly(r: Registration, want: Interest, ok: bool)
    ensures want != Idle ==>
              AfterSignal(r, want, ok) ==
                if ok && (r.state == Idle <==> r.kernel == Idle) then (Registration(want, want), 0) else (r, -1)
    ensures AfterSignal(r, Idle, ok) == (Registration(Idle, if ok then Idle else r.kernel), 0)
    ensures AfterSet(r, want, ok) == if r.state == want then (r, -1) else AfterSignal(r, want, ok)
  {
  }

  /** Only withdrawing can part them: exactly when there is something to withdraw and epoll fails. */
  lemma WithdrawParts(r: Registration, ok: bool)
    requires Agrees(r)
    ensures Agrees(AfterSignal(r, Idle, ok).0) <==> r.state == Idle || ok
    ensures AfterSignal(r, Idle, ok).1 == 0 && AfterSignal(r, Idle, ok).0.state == Idle
  {
  }

  /** pevent_t; `open` is whether its descriptor is. */
  class Pevent {
    const fd: int
    var state: Interest
    var kernel: Interest
    ghost var open: bool

    /** pevent_new. */
    constructor (fd: int)
      ensures this.fd == fd && state == kernel == Idle && open
    {
      this.fd, state, kernel, open := fd, Idle, Idle, true;
    }

    ghost function View(): Registration
      reads this
    {
      Registration(state, kernel)
    }

    /** Open, and registered as recorded. */
    ghost predicate Valid()
      reads this
    {
      open && Agrees(View())
    }

    /** epoll_ctl on this descriptor. */
    method Ctl(op: CtlOp, want: Interest, ok: bool) returns (ret: int)
      modifies `kernel
      ensures
        match EpollCtl(old(kernel), op, want, ok)
        case None => ret == -1 && kernel == old(kernel)
        case Some(k) => ret == 0 && kernel == k
    {
      var k := EpollCtl(kernel, op, want, ok);
      if k.None? {
        return -1;
      }
      kernel := k.value;
      ret := 0;
    }

    /** pevent_signal. */
    method Signal(want: Interest, ok: bool) returns (ret: int)
      modifies this
      ensures (View(), ret) == AfterSignal(old(View()), want, ok) && open == old(open)
    {
      var mode := if state == Idle then Add else Mod;
      if want != Idle {
        ret := Ctl(mode, want, ok);
        if ret == -1 {
          return;
        }
        state := want;
      } else {
        var deleted := Ctl(Del, Idle, ok);
        state := Idle;
      }
      ret := 0;
    }

    /** pevent_set. */
    method Set(want: Interest, ok: bool) returns (ret: int)
      modifies this
      ensures (View(), ret) == AfterSet(old(View()), want, ok) && open == old(open)
    {
      if state == want {
        return -1;
      }
      ret := Signal(want, ok);
    }

    /** Change the interest of a valid registration. */
    method Change(want: Interest, ok: bool) returns (ret: int)
      requires Valid() && want != Idle
      modifies this
      ensures Valid()
      ensures
        match PeventSet(old(state), want, ok)
        case None => ret == -1 && state == old(state)
        case Some(s) => ret == 0 && state == s
    {
      SetAgreeing(View(), want, ok);
      ret := Set(want, ok);
    }

    /** pevent_free: whether or not epoll lets it go, closing the descriptor ends its registration. */
    method Free(ok: bool)
      modifies this
      ensures !open && kernel == Idle && state == old(state)
    {
      if state != Idle {
        var deleted := Ctl(Del, Idle, ok);
      }
      open := false;
      kernel := Idle;
    }

    /** pevent_free_no_close: a recorded registration is withdrawn if epoll lets it go; nothing else changes. */
    method FreeNoClose(ok: bool)
      modifies this
      ensures open == old(open) && state == old(state)
      ensures kernel == if old(state) != Idle && ok then Idle else old(kernel)
    {
      if state != Idle {
        var deleted := Ctl(Del, Idle, ok);
      }
    }
  }
}
