/**
 The camera lifecycle of src/v4l2port.c and src/video_manager.c as values: a port with its
 descriptor, flags and mapped buffers, the manager's slots, and whole runs of them in which
 every call into the driver may fail.
 */
module CameraSpec {
  import opened Seqs
  import opened HttpSpec
  import opened Pevents
  import opened Texts
  import opened FeedSpec

  const REQ_BUFFER_MAX: nat := 1
  const MAX_VIDEO_COUNT: nat := 10

  /** What the driver answered to STREAMON and STREAMOFF, and that the device was closed. */
  datatype Call = On(ok: bool) | Off(ok: bool) | Closed

  /** Whether the driver streams: the last STREAMON that succeeded has not been undone. */
  function Streaming(calls: seq<Call>): bool {
    if calls == [] then false
    else
      match calls[|calls| - 1]
      case On(ok) => ok || Streaming(calls[..|calls| - 1])
      case Off(ok) => !ok && Streaming(calls[..|calls| - 1])
      case Closed => false
  }

  /**
   `bufs` are the recorded mappings; `mapped`, `leaked` and `open` are what the kernel holds, and
   `calls` is the history of the driver's answers.
   */
  datatype Port = Port(
    fd: int,
    init: bool,
    stream: bool,
    bufs: seq<int>,
    mapped: set<int>,
    leaked: set<int>,   // mapped but recorded nowhere
    open: set<int>,
    calls: seq<Call>)

  function NewPort(): Port {
    Port(0, false, false, [], {}, {}, {}, [])
  }

  /**
   What the driver answers while buffers are set up; `unmapOld` and `unmap` tell which munmap calls
   succeed, for earlier mappings and for these.
   */
  datatype MapResults = MapResults(
    reqbufs: bool,
    granted: nat,
    query: nat -> bool,
    mmap: nat -> Option<int>,
    queue: nat -> bool,
    unmapOld: int -> bool,
    unmap: int -> bool)

  /** What opening a device meets, step by step. */
  datatype OpenResults = OpenResults(fd: int, cap: bool, streaming: bool, format: bool, parm: bool)

  function ToSet(s: seq<int>): set<int> {
    set x | x in s
  }

  // ----- v4l2port.c

  /** v4l2port_mmap_release: the records go, whether or not munmap succeeds. */
  function MmapRelease(p: Port, unmap: int -> bool): Port {
    var gone := set x | x in p.bufs && unmap(x);
    var kept := set x | x in p.bufs && !unmap(x);
    p.(bufs := [], mapped := p.mapped - gone, leaked := p.leaked + kept)
  }

  predicate Mappable(r: MapResults, i: nat) {
    r.query(i) && r.mmap(i).Some?
  }

  /** How many buffers are mapped before one fails. */
  function MappedCount(r: MapResults, i: nat, n: nat): (k: nat)
    requires i <= n
    ensures i <= k <= n
    ensures forall j | i <= j < k :: Mappable(r, j)
    ensures k < n ==> !Mappable(r, k)
    decreases n - i
  {
    if i == n || !Mappable(r, i) then i else MappedCount(r, i + 1, n)
  }

  function Addresses(r: MapResults, n: nat): (s: seq<int>)
    requires forall j | 0 <= j < n :: Mappable(r, j)
    ensures |s| == n
  {
    seq(n, i requires 0 <= i < n && Mappable(r, i) => r.mmap(i).value)
  }

  /** With `k` buffers mapped and recorded. */
  function WithBuffers(p: Port, r: MapResults, k: nat): Port
    requires forall j | 0 <= j < k :: Mappable(r, j)
  {
    p.(bufs := Addresses(r, k), mapped := p.mapped + ToSet(Addresses(r, k)))
  }

  predicate AllQueued(r: MapResults, n: nat) {
    forall j | 0 <= j < n :: r.queue(j)
  }

  /** v4l2port_mmap_init, and whether it succeeds. */
  function MmapInit(p: Port, r: MapResults): (Port, bool) {
    var q := if p.bufs != [] then MmapRelease(p, r.unmapOld) else p;
    if !r.reqbufs || r.granted < REQ_BUFFER_MAX then (q, false)
    else
      var k := MappedCount(r, 0, REQ_BUFFER_MAX);
      if k < REQ_BUFFER_MAX || !AllQueued(r, REQ_BUFFER_MAX) then (MmapRelease(WithBuffers(q, r, k), r.unmap), false)
      else (WithBuffers(q, r, k), true)
  }

  /** v4l2port_stream to switch on; `on` is whether STREAMON succeeds. */
  function StreamOn(p: Port, r: MapResults, on: bool): (Port, bool) {
    if p.stream then (p, false)
    else
      var (q, ok) := MmapInit(p, r);
      if !ok then (q, false)
      else
        var q := q.(calls := q.calls + [On(on)]);
        if !on then (q, false) else (q.(stream := true), true)
  }

  /** v4l2port_stream to switch off; `off` is whether STREAMOFF succeeds. */
  function StreamOff(p: Port, off: bool, unmap: int -> bool): (Port, bool) {
    if !p.stream then (p, false)
    else
      var p := p.(calls := p.calls + [Off(off)]);
      if !off then (p, false) else (MmapRelease(p, unmap).(stream := false), true)
  }

  function Uninit(p: Port, off: bool, unmap: int -> bool): Port {
    var q := StreamOff(p, off, unmap).0;
    if q.fd >= 0 then q.(open := q.open - {q.fd}, fd := 0, init := false, stream := false, calls := q.calls + [Closed])
    else q.(init := false, stream := false)
  }

  /** v4l2port_init, and whether it succeeds. */
  function Init(p: Port, r: OpenResults, off: bool, unmap: int -> bool): (Port, bool) {
    var q := if p.init then Uninit(p, off, unmap) else p;
    if r.fd < 0 then (q, false)
    else if !(r.cap && r.streaming && r.format && r.parm) then
      (q.(open := if r.fd > 0 then q.open - {r.fd} else q.open + {r.fd}), false)
    else (q.(open := q.open + {r.fd}, fd := r.fd, init := true), true)
  }

  // ----- what every operation keeps

  ghost predicate PortOk(p: Port) {
    && |p.bufs| <= REQ_BUFFER_MAX && NoDup(p.bufs)
    && p.mapped == ToSet(p.bufs) + p.leaked && ToSet(p.bufs) !! p.leaked
    && (p.stream ==> p.init && p.bufs != [])
    && (p.stream <==> Streaming(p.calls))
    && (p.init ==> p.fd >= 0 && p.fd in p.open)
    && (forall d | d != 0 :: d in p.open <==> p.init && d == p.fd)
    && (!p.init ==> p.fd == 0)
  }

  /** The kernel maps at addresses that are not mapped. */
  ghost predicate LegalMaps(p: Port, r: MapResults) {
    var q := if p.bufs != [] then MmapRelease(p, r.unmapOld) else p;
    && (forall i: nat | r.mmap(i).Some? :: r.mmap(i).value !in q.mapped)
    && (forall i: nat, j: nat | i < j && r.mmap(i).Some? && r.mmap(j).Some? :: r.mmap(i).value != r.mmap(j).value)
  }

  predicate LegalOpen(p: Port, r: OpenResults) {
    r.fd >= 0 ==> r.fd !in p.open || (p.init && r.fd == p.fd)
  }

  lemma ReleaseOk(p: Port, unmap: int -> bool)
    requires p.mapped == ToSet(p.bufs) + p.leaked && ToSet(p.bufs) !! p.leaked
    ensures var q := MmapRelease(p, unmap); q.mapped == q.leaked && ToSet(q.bufs) == {} && q.bufs == []
    ensures p.leaked <= MmapRelease(p, unmap).leaked
  {
  }

  /** A mapping is lost exactly when munmap fails on a recorded one. */
  lemma ReleaseLoses(p: Port, unmap: int -> bool)
    requires ToSet(p.bufs) !! p.leaked
    ensures p.leaked <= MmapRelease(p, unmap).leaked
    ensures Refused(p.bufs, unmap) <==> MmapRelease(p, unmap).leaked != p.leaked
  {
    if Refused(p.bufs, unmap) {
      var i :| 0 <= i < |p.bufs| && !unmap(p.bufs[i]);
      assert p.bufs[i] in ToSet(p.bufs) && p.bufs[i] in MmapRelease(p, unmap).leaked;
    } else {
      assert MmapRelease(p, unmap).leaked == p.leaked;
    }
  }

  lemma WithBuffersOk(p: Port, r: MapResults, k: nat)
    requires p.bufs == [] && p.mapped == p.leaked
    requires forall j | 0 <= j < k :: Mappable(r, j)
    requires forall i: nat | r.mmap(i).Some? :: r.mmap(i).value !in p.mapped
    requires forall i: nat, j: nat | i < j && r.mmap(i).Some? && r.mmap(j).Some? :: r.mmap(i).value != r.mmap(j).value
    ensures
      var q := WithBuffers(p, r, k);
      q.mapped == ToSet(q.bufs) + q.leaked && ToSet(q.bufs) !! q.leaked && NoDup(q.bufs) && |q.bufs| == k
  {
    var s := Addresses(r, k);
    forall i, j | 0 <= i < j < k ensures s[i] != s[j] {
      assert Mappable(r, i) && Mappable(r, j);
    }
    forall a | a in ToSet(s) ensures a !in p.leaked {
      var i :| 0 <= i < k && s[i] == a;
      assert Mappable(r, i);
    }
  }

  /** Mappings: after a failed set-up none is recorded, after a successful one all are; nothing else changes. */
  lemma MmapInitOk(p: Port, r: MapResults)
    requires PortOk(p) && !p.stream && LegalMaps(p, r)
    ensures
      var (q, ok) := MmapInit(p, r);
      && PortOk(q) && p.leaked <= q.leaked
      && q.bufs == (if ok then Addresses(r, REQ_BUFFER_MAX) else [])
      && (q.fd, q.init, q.stream, q.open, q.calls) == (p.fd, p.init, p.stream, p.open, p.calls)
  {
    ReleaseOk(p, r.unmapOld);
    var q := if p.bufs != [] then MmapRelease(p, r.unmapOld) else p;
    assert q.mapped == q.leaked;
    var k := MappedCount(r, 0, REQ_BUFFER_MAX);
    WithBuffersOk(q, r, k);
    ReleaseOk(WithBuffers(q, r, k), r.unmap);
  }

  lemma StreamOnOk(p: Port, r: MapResults, on: bool)
    requires PortOk(p) && p.init && LegalMaps(p, r)
    ensures var (q, ok) := StreamOn(p, r, on); PortOk(q) && (ok ==> q.stream) && q.init && q.fd == p.fd
  {
    hide MmapInit;
    if !p.stream {
      MmapInitOk(p, r);
    }
  }

  lemma StreamOffOk(p: Port, off: bool, unmap: int -> bool)
    requires PortOk(p)
    ensures var (q, ok) := StreamOff(p, off, unmap); PortOk(q) && (ok ==> !q.stream) && q.init == p.init && q.fd == p.fd
  {
    ReleaseOk(p, unmap);
  }

  lemma UninitOk(p: Port, off: bool, unmap: int -> bool)
    requires PortOk(p)
    ensures var q := Uninit(p, off, unmap); PortOk(q) && !q.init && !q.stream
  {
    StreamOffOk(p, off, unmap);
  }

  lemma InitOk(p: Port, r: OpenResults, off: bool, unmap: int -> bool)
    requires PortOk(p) && LegalOpen(p, r)
    ensures var (q, ok) := Init(p, r, off, unmap); PortOk(q) && ok == q.init && !q.stream
  {
    UninitOk(p, off, unmap);
  }

  /** Opening leaves a descriptor behind exactly when the descriptor is 0 and a later step fails. */
  lemma InitLoses(p: Port, r: OpenResults, off: bool, unmap: int -> bool)
    requires PortOk(p) && LegalOpen(p, r) && (0 in p.open ==> p.init && p.fd == 0)
    ensures
      var (q, ok) := Init(p, r, off, unmap);
      0 in q.open && !ok <==> r.fd == 0 && !(r.cap && r.streaming && r.format && r.parm)
  {
  }

  // ----- video_manager.c

  datatype Watch = Watch(fd: int, state: Interest)

  /** One of the manager's slots: the port if a device was added, its registration, and last_check_time. */
  datatype Slot = Slot(port: Option<Port>, pevent: Option<Watch>, last: int)

  /** Everything the driver and the event loop answer during one operation. */
  datatype Driver = Driver(
    opening: OpenResults,
    maps: MapResults,
    on: bool,
    off: bool,
    unmapOff: int -> bool,
    registered: bool,
    deleted: bool)

  /** Initialised and streaming, as far as it goes. */
  function Prepare(p: Port, d: Driver): (Port, bool) {
    var (p1, isOpen) := if p.init then (p, true) else Init(p, d.opening, d.off, d.unmapOff);
    if !isOpen then (p1, false)
    else if p1.stream then (p1, true)
    else StreamOn(p1, d.maps, d.on)
  }

  /** The part of video_manager_stream_start behind the check time: the slot, and the result. */
  function Start(s: Slot, p: Port, d: Driver): (Slot, int) {
    var (q, ok) := Prepare(p, d);
    if !ok then (s.(port := Some(q)), -1)
    else
      match PeventSet(Idle, Read, d.registered)
      case None => (s.(port := Some(StreamOff(q, d.off, d.unmapOff).0)), -1)
      case Some(state) => (s.(port := Some(q), pevent := Some(Watch(q.fd, state))), 0)
  }

  /** video_manager_stream_start on a slot. */
  function StreamStart(s: Slot, now: int, d: Driver): (Slot, int) {
    if s.port.None? then (s, -1)
    else
      var s := s.(last := now);
      if s.pevent.Some? then (s, 0) else Start(s, s.port.value, d)
  }

  /** video_manager_init_video on a slot. */
  function InitVideo(s: Slot, d: Driver): (Slot, int) {
    if s.port.None? then (s, -1)
    else
      var (p, ok) := Init(s.port.value, d.opening, d.off, d.unmapOff);
      (s.(port := Some(p), pevent := None), if ok then 0 else -1)
  }

  /** The timeout branch of on_video_event at time `now`. */
  predicate TimedOut(s: Slot, now: int, timeout: nat) {
    timeout > 0 && now - s.last > timeout && s.pevent.Some?
  }

  function TurnOff(s: Slot, d: Driver): Slot {
    if s.port.None? then s
    else s.(port := Some(StreamOff(s.port.value, d.off, d.unmapOff).0), pevent := None)
  }

  /**
   on_video_event for a readable device: if a frame is dequeued it is delivered at time `t0`, and
   the check time set if the delivery count is positive; at time `t1` the idle check is made.
   */
  function VideoEvent(s: Slot, dequeued: bool, count: nat, t0: int, t1: int, timeout: nat, d: Driver): Slot {
    var s := if s.port.Some? && s.port.value.stream && dequeued && count > 0 then s.(last := t0) else s;
    if TimedOut(s, t1, timeout) then TurnOff(s, d) else s
  }

  // ----- the coupling of flags, descriptor, buffers and registration

  ghost predicate SlotOk(s: Slot) {
    && (s.port.None? ==> s.pevent.None?)
    && (s.port.Some? ==> PortOk(s.port.value))
    && (s.pevent.Some? ==>
          && s.port.value.init && s.port.value.stream
          && s.pevent.value == Watch(s.port.value.fd, Read))
  }

  /** The driver answers with a descriptor and addresses that are free. */
  ghost predicate LegalDriver(s: Slot, d: Driver) {
    s.port.Some? ==>
      && LegalOpen(s.port.value, d.opening)
      && var p := s.port.value;
         LegalMaps(if p.init then p else Init(p, d.opening, d.off, d.unmapOff).0, d.maps)
  }

  lemma PrepareOk(p: Port, d: Driver)
    requires PortOk(p) && LegalOpen(p, d.opening)
    requires LegalMaps(if p.init then p else Init(p, d.opening, d.off, d.unmapOff).0, d.maps)
    ensures var (q, ok) := Prepare(p, d); PortOk(q) && (ok ==> q.init && q.stream)
  {
    hide PortOk, LegalMaps, LegalOpen, Init, StreamOn;
    var p1 := if p.init then p else Init(p, d.opening, d.off, d.unmapOff).0;
    if !p.init {
      InitOk(p, d.opening, d.off, d.unmapOff);
    }
    if p1.init {
      StreamOnOk(p1, d.maps, d.on);
    }
  }

  lemma StartOk(s: Slot, p: Port, d: Driver)
    requires SlotOk(s) && s.port == Some(p) && s.pevent.None? && LegalDriver(s, d)
    ensures SlotOk(Start(s, p, d).0) && (Start(s, p, d).1 == 0 <==> Start(s, p, d).0.pevent.Some?)
  {
    hide PortOk, LegalMaps, LegalOpen, Init, Prepare, StreamOff;
    PrepareOk(p, d);
    StreamOffOk(Prepare(p, d).0, d.off, d.unmapOff);
  }

  lemma StreamStartOk(s: Slot, now: int, d: Driver)
    requires SlotOk(s) && LegalDriver(s, d)
    ensures SlotOk(StreamStart(s, now, d).0)
    ensures StreamStart(s, now, d).1 == 0 <==> s.port.Some? && StreamStart(s, now, d).0.pevent.Some?
  {
    hide PortOk, Start;
    if s.port.Some? && s.pevent.None? {
      StartOk(s.(last := now), s.port.value, d);
    }
  }

  lemma InitVideoOk(s: Slot, d: Driver)
    requires SlotOk(s) && LegalDriver(s, d)
    ensures SlotOk(InitVideo(s, d).0)
  {
    hide PortOk, Init;
    if s.port.Some? {
      InitOk(s.port.value, d.opening, d.off, d.unmapOff);
    }
  }

  lemma VideoEventOk(s: Slot, dequeued: bool, count: nat, t0: int, t1: int, timeout: nat, d: Driver)
    requires SlotOk(s)
    ensures SlotOk(VideoEvent(s, dequeued, count, t0, t1, timeout, d))
  {
    hide PortOk, StreamOff;
    if s.port.Some? {
      StreamOffOk(s.port.value, d.off, d.unmapOff);
    }
  }

  // ----- runs of the manager

  datatype Manager = Manager(count: nat, slots: seq<Slot>)

  function NewManager(): Manager {
    Manager(0, seq(MAX_VIDEO_COUNT, _ => Slot(None, None, 0)))
  }

  /** A frame on its way: whether one was dequeued, the connections at that moment, and what their sockets do. */
  datatype Delivery = Delivery(dequeued: bool, frame: Frame, conns: seq<Conn>, ios: seq<(Io, Io)>)

  datatype Event =
    | AddDevice(d: Driver)
    | Request(index: nat, now: int, d: Driver)                         // video_manager_stream_start
    | Reinit(index: nat, d: Driver)                                    // video_manager_init_video
    | Ready(index: nat, frames: Delivery, t0: int, t1: int, d: Driver)  // on_video_event

  predicate LegalDelivery(v: Delivery, index: nat) {
    |v.conns| == |v.ios| && v.frame.device == index
  }

  function Count(v: Delivery): nat {
    if |v.conns| == |v.ios| then Iter(v.conns, v.frame, v.ios).1 else 0
  }

  function Step(m: Manager, e: Event, timeout: nat): Manager {
    match e
    case AddDevice(d) =>
      if m.count < MAX_VIDEO_COUNT && m.count < |m.slots| then
        var s := m.slots[m.count].(port := Some(NewPort()));
        Manager(m.count + 1, m.slots[m.count := InitVideo(s, d).0])
      else m
    case Request(i, now, d) =>
      if i < |m.slots| then m.(slots := m.slots[i := StreamStart(m.slots[i], now, d).0]) else m
    case Reinit(i, d) =>
      if i < |m.slots| then m.(slots := m.slots[i := InitVideo(m.slots[i], d).0]) else m
    case Ready(i, v, t0, t1, d) =>
      if i < |m.slots| && m.slots[i].pevent.Some? then
        m.(slots := m.slots[i := VideoEvent(m.slots[i], v.dequeued, Count(v), t0, t1, timeout, d)])
      else m
  }

  function Run(es: seq<Event>, timeout: nat): Manager {
    if es == [] then NewManager() else Step(Run(es[..|es| - 1], timeout), es[|es| - 1], timeout)
  }

  /** The driver's answers are possible, event by event. */
  ghost predicate LegalEvent(m: Manager, e: Event) {
    match e
    case AddDevice(d) => LegalDriver(Slot(Some(NewPort()), None, 0), d)
    case Request(i, now, d) => i < |m.slots| ==> LegalDriver(m.slots[i], d)
    case Reinit(i, d) => i < |m.slots| ==> LegalDriver(m.slots[i], d)
    case Ready(i, v, t0, t1, d) => LegalDelivery(v, i)
  }

  ghost predicate LegalRun(es: seq<Event>, timeout: nat) {
    es != [] ==>
      LegalRun(es[..|es| - 1], timeout) && LegalEvent(Run(es[..|es| - 1], timeout), es[|es| - 1])
  }

  ghost predicate ManagerOk(m: Manager) {
    && m.count <= |m.slots| == MAX_VIDEO_COUNT
    && (forall i | 0 <= i < |m.slots| :: SlotOk(m.slots[i]))
    && (forall i | 0 <= i < |m.slots| :: m.slots[i].port.Some? <==> i < m.count)
  }

  lemma StepOk(m: Manager, e: Event, timeout: nat)
    requires ManagerOk(m) && LegalEvent(m, e)
    ensures ManagerOk(Step(m, e, timeout))
  {
    hide SlotOk, LegalDriver, StreamStart, InitVideo, VideoEvent;
    match e
    case AddDevice(d) =>
      NewSlotOk();
      if m.count < MAX_VIDEO_COUNT {
        EmptySlot(m.slots[m.count]);
        AddedOk(m.slots[m.count], d);
      }
    case Request(i, now, d) =>
      if i < |m.slots| {
        StreamStartOk(m.slots[i], now, d);
        Ports(m.slots[i], now, d);
      }
    case Reinit(i, d) =>
      if i < |m.slots| {
        InitVideoOk(m.slots[i], d);
        Ports(m.slots[i], 0, d);
      }
    case Ready(i, v, t0, t1, d) =>
      if i < |m.slots| {
        VideoEventOk(m.slots[i], v.dequeued, Count(v), t0, t1, timeout, d);
        VideoEventPort(m.slots[i], v.dequeued, Count(v), t0, t1, timeout, d);
      }
  }

  lemma NewSlotOk()
    ensures PortOk(NewPort())
  {
  }

  lemma EmptySlot(s: Slot)
    requires SlotOk(s) && s.port.None?
    ensures s.pevent.None?
  {
  }

  lemma AddedOk(s: Slot, d: Driver)
    requires s.pevent.None? && LegalDriver(Slot(Some(NewPort()), None, 0), d)
    ensures var t := s.(port := Some(NewPort())); SlotOk(InitVideo(t, d).0) && InitVideo(t, d).0.port.Some?
  {
    NewSlotOk();
    InitVideoOk(s.(port := Some(NewPort())), d);
  }

  lemma Ports(s: Slot, now: int, d: Driver)
    ensures StreamStart(s, now, d).0.port.Some? <==> s.port.Some?
    ensures InitVideo(s, d).0.port.Some? <==> s.port.Some?
  {
  }

  lemma VideoEventPort(s: Slot, dequeued: bool, count: nat, t0: int, t1: int, timeout: nat, d: Driver)
    ensures VideoEvent(s, dequeued, count, t0, t1, timeout, d).port.Some? <==> s.port.Some?
  {
  }

  /**
   Over every run, whichever calls into the driver fail: a registered device is initialised and
   streaming, and registered for reading on its own descriptor; a streaming device is initialised
   and has mapped buffers; what the kernel has mapped is what is recorded, plus mappings munmap
   refused to give back.
   */
  lemma {:induction false} RunOk(es: seq<Event>, timeout: nat)
    requires LegalRun(es, timeout)
    ensures ManagerOk(Run(es, timeout))
  {
    if es != [] {
      RunOk(es[..|es| - 1], timeout);
      StepOk(Run(es[..|es| - 1], timeout), es[|es| - 1], timeout);
    }
  }

  // ----- exactly when the calls succeed

  /** The device opens, and passes every check. */
  predicate Opens(r: OpenResults) {
    r.fd >= 0 && r.cap && r.streaming && r.format && r.parm
  }

  /** The one buffer is granted, queried, mapped and queued. */
  predicate SetsUp(r: MapResults) {
    r.reqbufs && r.granted >= 1 && r.query(0) && r.mmap(0).Some? && r.queue(0)
  }

  lemma MmapInitExactly(p: Port, r: MapResults)
    ensures MmapInit(p, r).1 <==> SetsUp(r)
  {
    hide MmapRelease;
    var k := MappedCount(r, 0, REQ_BUFFER_MAX);
    if k == REQ_BUFFER_MAX {
      assert forall i: nat | i < REQ_BUFFER_MAX :: Mappable(r, i);
    }
  }

  /** The stream is switched on exactly if it was off, the buffers are set up and STREAMON succeeds. */
  lemma StreamOnExactly(p: Port, r: MapResults, on: bool)
    ensures StreamOn(p, r, on).1 <==> !p.stream && SetsUp(r) && on
    ensures StreamOn(p, r, on).0.stream <==> p.stream || (SetsUp(r) && on)
  {
    hide MmapRelease, SetsUp, MmapInit;
    MmapInitExactly(p, r);
    MmapInitStream(p, r);
  }

  lemma MmapInitStream(p: Port, r: MapResults)
    ensures MmapInit(p, r).0.stream == p.stream && MmapInit(p, r).0.init == p.init
  {
    hide MappedCount;
  }

  /** It is switched off, and its buffers given back, exactly if it was on and STREAMOFF succeeds. */
  lemma StreamOffExactly(p: Port, off: bool, unmap: int -> bool)
    ensures StreamOff(p, off, unmap).1 <==> p.stream && off
    ensures StreamOff(p, off, unmap).0.stream <==> p.stream && !off
    ensures StreamOff(p, off, unmap).0.bufs == if p.stream && off then [] else p.bufs
  {
  }

  /** Opening succeeds exactly if every step of it does, and then the port has that descriptor. */
  lemma InitExactly(p: Port, r: OpenResults, off: bool, unmap: int -> bool)
    requires PortOk(p)
    ensures
      var (q, ok) := Init(p, r, off, unmap);
      && (ok <==> Opens(r)) && (q.init <==> ok) && !q.stream
      && (ok ==> q.fd == r.fd && q.fd in q.open)
  {
    hide StreamOff;
    StreamOffOk(p, off, unmap);
  }

  /** Everything video_manager_stream_start needs, if the device is not registered already. */
  predicate Starts(p: Port, d: Driver) {
    && (p.init || Opens(d.opening))
    && (p.stream || (SetsUp(d.maps) && d.on))
    && d.registered
  }

  /**
   A stream starts exactly if there is a port and it is registered already, or: it is initialised or
   opens, it streams already or its buffers are set up and STREAMON succeeds, and it can be registered.
   The request is stamped whether or not it succeeds.
   */
  lemma StreamStartExactly(s: Slot, now: int, d: Driver)
    requires SlotOk(s) && LegalDriver(s, d)
    ensures StreamStart(s, now, d).1 == if s.port.Some? && (s.pevent.Some? || Starts(s.port.value, d)) then 0 else -1
    ensures StreamStart(s, now, d).0.last == if s.port.Some? then now else s.last
  {
    hide PortOk, Init, StreamOn, StreamOff, LegalOpen, LegalMaps, Opens, SetsUp;
    if s.port.Some? && s.pevent.None? {
      var p := s.port.value;
      NotOpenNotStreaming(p);
      InitExactly(p, d.opening, d.off, d.unmapOff);
      var p1 := if p.init then p else Init(p, d.opening, d.off, d.unmapOff).0;
      StreamOnExactly(p1, d.maps, d.on);
    }
  }

  lemma NotOpenNotStreaming(p: Port)
    requires PortOk(p)
    ensures !p.init ==> !p.stream
  {
  }

  /** A device is initialised anew exactly if there is a port and it opens; it is not registered afterwards. */
  lemma InitVideoExactly(s: Slot, d: Driver)
    requires SlotOk(s)
    ensures InitVideo(s, d).1 == if s.port.Some? && Opens(d.opening) then 0 else -1
    ensures InitVideo(s, d).0.pevent.None?
  {
    hide PortOk, Init, Opens;
    if s.port.Some? {
      InitExactly(s.port.value, d.opening, d.off, d.unmapOff);
    }
  }

  /** A device is added exactly while there are fewer than ten, in the next slot, and initialised if it opens. */
  lemma AddDeviceExactly(m: Manager, d: Driver, timeout: nat)
    requires ManagerOk(m) && LegalEvent(m, AddDevice(d))
    ensures
      var n := Step(m, AddDevice(d), timeout);
      && |n.slots| == |m.slots| == 10
      && n.count == (if m.count < 10 then m.count + 1 else m.count)
      && (forall i | 0 <= i < 10 && i != m.count :: n.slots[i] == m.slots[i])
      && (m.count < 10 ==> n.slots[m.count].port.Some? && (n.slots[m.count].port.value.init <==> Opens(d.opening)))
  {
    hide PortOk, Init, Opens, LegalDriver;
    NewSlotOk();
    InitExactly(NewPort(), d.opening, d.off, d.unmapOff);
  }

  /** Call `k` was a STREAMON that succeeded, and nothing behind it undid that. */
  predicate OnSince(calls: seq<Call>, k: nat) {
    k < |calls| && calls[k] == On(true) && forall j | k < j < |calls| :: calls[j].On? || calls[j] == Off(false)
  }

  lemma OnSinceNext(calls: seq<Call>, c: Call, k: nat)
    ensures OnSince(calls + [c], k) <==>
            if k == |calls| then c == On(true) else OnSince(calls, k) && (c.On? || c == Off(false))
  {
    var all := calls + [c];
    assert forall j | 0 <= j < |calls| :: all[j] == calls[j];
    if OnSince(all, k) && k < |calls| {
      assert all[|calls|] == c;
    }
  }

  lemma {:induction false} StreamingMeans(calls: seq<Call>)
    ensures Streaming(calls) <==> exists k :: OnSince(calls, k)
  {
    if calls != [] {
      hide OnSince;
      var n := |calls| - 1;
      var prior := calls[..n];
      StreamingMeans(prior);
      assert calls == prior + [calls[n]];
      forall k: nat
        ensures OnSince(calls, k) <==>
                if k == n then calls[n] == On(true)
                else OnSince(prior, k) && (calls[n].On? || calls[n] == Off(false))
      {
        OnSinceNext(prior, calls[n], k);
      }
      assert OnSince(calls, n) <==> calls[n] == On(true);
    }
  }

  /**
   Over every run, a port believes that it streams exactly if the driver does: some STREAMON
   succeeded, and since then no STREAMOFF has and the device was not closed.
   */
  lemma StreamsExactly(es: seq<Event>, timeout: nat, i: nat)
    requires LegalRun(es, timeout) && i < MAX_VIDEO_COUNT
    ensures |Run(es, timeout).slots| == MAX_VIDEO_COUNT
    ensures
      var s := Run(es, timeout).slots[i];
      s.port.Some? ==> (s.port.value.stream <==> exists k :: OnSince(s.port.value.calls, k))
  {
    hide Run, Streaming, OnSince;
    RunOk(es, timeout);
    var s := Run(es, timeout).slots[i];
    assert SlotOk(s);
    if s.port.Some? {
      StreamingMeans(s.port.value.calls);
    }
  }

  // ----- mappings over a run

  /** munmap refuses one of the recorded mappings `s`. */
  predicate Refused(s: seq<int>, unmap: int -> bool) {
    exists i | 0 <= i < |s| :: !unmap(s[i])
  }

  predicate OffRefused(p: Port, off: bool, unmap: int -> bool) {
    p.stream && off && Refused(p.bufs, unmap)
  }

  /** Of the mappings from before, or of the new ones when setting them up fails. */
  predicate MapRefused(p: Port, r: MapResults) {
    var k := MappedCount(r, 0, REQ_BUFFER_MAX);
    || Refused(p.bufs, r.unmapOld)
    || (r.reqbufs && r.granted >= REQ_BUFFER_MAX && (k < REQ_BUFFER_MAX || !AllQueued(r, REQ_BUFFER_MAX))
        && Refused(Addresses(r, k), r.unmap))
  }

  predicate PrepareRefused(p: Port, d: Driver) {
    var (q, isOpen) := if p.init then (p, true) else Init(p, d.opening, d.off, d.unmapOff);
    isOpen && !q.stream && MapRefused(q, d.maps)
  }

  /** While preparing, or when the registration fails and the stream is switched off again. */
  predicate StartRefused(p: Port, d: Driver) {
    var (q, ok) := Prepare(p, d);
    PrepareRefused(p, d) || (ok && !d.registered && OffRefused(q, d.off, d.unmapOff))
  }

  /** In event `e` a munmap of a mapping that port `i` has recorded fails. */
  predicate Refuses(m: Manager, e: Event, timeout: nat, i: nat) {
    i < |m.slots| && m.slots[i].port.Some? &&
    var p := m.slots[i].port.value;
    match e
    case AddDevice(d) => false
    case Request(j, now, d) => i == j && m.slots[i].pevent.None? && StartRefused(p, d)
    case Reinit(j, d) => i == j && p.init && OffRefused(p, d.off, d.unmapOff)
    case Ready(j, v, t0, t1, d) => TurnsOff(m, e, i, timeout) && OffRefused(p, d.off, d.unmapOff)
  }

  /** From `p` to `q` mappings have been lost exactly if `refused`. */
  ghost predicate Loses(p: Port, q: Port, refused: bool) {
    p.leaked <= q.leaked && (refused <==> q.leaked != p.leaked)
  }

  lemma OffLoses(p: Port, off: bool, unmap: int -> bool)
    requires PortOk(p)
    ensures Loses(p, StreamOff(p, off, unmap).0, OffRefused(p, off, unmap))
  {
    hide MmapRelease;
    ReleaseLoses(p.(calls := p.calls + [Off(off)]), unmap);
  }

  lemma InitLosesBuffers(p: Port, r: OpenResults, off: bool, unmap: int -> bool)
    requires PortOk(p)
    ensures Loses(p, Init(p, r, off, unmap).0, p.init && OffRefused(p, off, unmap))
  {
    hide StreamOff, OffRefused, PortOk;
    OffLoses(p, off, unmap);
  }

  lemma MapLoses(p: Port, r: MapResults)
    requires PortOk(p) && !p.stream && LegalMaps(p, r)
    ensures Loses(p, MmapInit(p, r).0, MapRefused(p, r))
  {
    hide MmapRelease, Refused, MappedCount, WithBuffers, AllQueued;
    var q := if p.bufs != [] then MmapRelease(p, r.unmapOld) else p;
    var k := MappedCount(r, 0, REQ_BUFFER_MAX);
    OldReleased(p, r);
    WithBuffersOk(q, r, k);
    WithBuffersLeaks(q, r, k);
    ReleaseLoses(WithBuffers(q, r, k), r.unmap);
  }

  lemma OldReleased(p: Port, r: MapResults)
    requires PortOk(p)
    ensures
      var q := if p.bufs != [] then MmapRelease(p, r.unmapOld) else p;
      Loses(p, q, Refused(p.bufs, r.unmapOld)) && q.bufs == [] && q.mapped == q.leaked
  {
    ReleaseLoses(p, r.unmapOld);
    ReleaseOk(p, r.unmapOld);
  }

  lemma WithBuffersLeaks(p: Port, r: MapResults, k: nat)
    requires forall j | 0 <= j < k :: Mappable(r, j)
    ensures WithBuffers(p, r, k).leaked == p.leaked && WithBuffers(p, r, k).bufs == Addresses(r, k)
  {
  }

  lemma PrepareLoses(p: Port, d: Driver)
    requires PortOk(p) && LegalDriver(Slot(Some(p), None, 0), d)
    ensures Loses(p, Prepare(p, d).0, PrepareRefused(p, d))
  {
    hide PortOk, LegalMaps, LegalOpen, Init, MmapInit, MapRefused, OffRefused;
    var p1 := if p.init then p else Init(p, d.opening, d.off, d.unmapOff).0;
    InitLosesBuffers(p, d.opening, d.off, d.unmapOff);
    if !p.init {
      InitOk(p, d.opening, d.off, d.unmapOff);
    }
    if !p1.stream {
      MapLoses(p1, d.maps);
    }
  }

  lemma StartLoses(s: Slot, p: Port, d: Driver)
    requires PortOk(p) && s.port == Some(p) && s.pevent.None? && LegalDriver(s, d)
    ensures Start(s, p, d).0.port.Some? && Loses(p, Start(s, p, d).0.port.value, StartRefused(p, d))
  {
    hide PortOk, LegalMaps, LegalOpen, Prepare, PrepareRefused, StreamOff, OffRefused;
    PrepareLoses(p, d);
    PrepareOk(p, d);
    OffLoses(Prepare(p, d).0, d.off, d.unmapOff);
  }

  function Leaked(s: Slot): set<int> {
    if s.port.Some? then s.port.value.leaked else {}
  }

  lemma StepLoses(m: Manager, e: Event, timeout: nat, i: nat)
    requires ManagerOk(m) && LegalEvent(m, e) && i < |m.slots|
    ensures
      var s, t := m.slots[i], Step(m, e, timeout).slots[i];
      Leaked(s) <= Leaked(t) && (Refuses(m, e, timeout, i) <==> Leaked(t) != Leaked(s))
  {
    hide PortOk, LegalOpen, LegalMaps, Start, StartRefused, Init, StreamOff, OffRefused, Count;
    var s := m.slots[i];
    assert SlotOk(s);
    if s.port.Some? {
      var p := s.port.value;
      match e
      case AddDevice(d) =>
      case Request(j, now, d) =>
        if i == j && s.pevent.None? {
          StartLoses(s.(last := now), p, d);
        }
      case Reinit(j, d) => InitLosesBuffers(p, d.opening, d.off, d.unmapOff);
      case Ready(j, v, t0, t1, d) => OffLoses(p, d.off, d.unmapOff);
    } else if e.AddDevice? {
      NewLoses(e.d);
    }
  }

  lemma NewLoses(d: Driver)
    ensures Init(NewPort(), d.opening, d.off, d.unmapOff).0.leaked == {}
  {
  }

  /** No munmap of a mapping that port `i` had recorded has failed in the run. */
  ghost predicate NeverRefused(es: seq<Event>, timeout: nat, i: nat) {
    forall k | 0 <= k < |es| :: !Refuses(Run(es[..k], timeout), es[k], timeout, i)
  }

  lemma RefusedNext(es: seq<Event>, timeout: nat, i: nat)
    requires es != []
    ensures
      var n := |es| - 1;
      NeverRefused(es, timeout, i)
      <==> NeverRefused(es[..n], timeout, i) && !Refuses(Run(es[..n], timeout), es[n], timeout, i)
  {
    hide Run, Refuses;
    var n := |es| - 1;
    assert forall k | 0 <= k < n :: es[..n][..k] == es[..k] && es[..n][k] == es[k];
  }

  lemma {:induction false} RunLoses(es: seq<Event>, timeout: nat, i: nat)
    requires LegalRun(es, timeout) && i < MAX_VIDEO_COUNT
    ensures |Run(es, timeout).slots| == MAX_VIDEO_COUNT
    ensures Leaked(Run(es, timeout).slots[i]) == {} <==> NeverRefused(es, timeout, i)
  {
    hide Run, Step, LegalEvent, Refuses, ManagerOk, Leaked, NeverRefused;
    RunShape(es, timeout, i);
    if es != [] {
      var n := |es| - 1;
      RunOk(es[..n], timeout);
      RunShape(es[..n], timeout, i);
      RunLoses(es[..n], timeout, i);
      StepLoses(Run(es[..n], timeout), es[n], timeout, i);
      RunStep(es, timeout);
      RefusedNext(es, timeout, i);
    }
  }

  lemma RunShape(es: seq<Event>, timeout: nat, i: nat)
    requires LegalRun(es, timeout)
    ensures |Run(es, timeout).slots| == MAX_VIDEO_COUNT
    ensures es == [] && i < MAX_VIDEO_COUNT ==>
              Leaked(Run(es, timeout).slots[i]) == {} && NeverRefused(es, timeout, i)
  {
    RunOk(es, timeout);
  }

  /**
   Over every run, however starts and stops fail: what is mapped for a port is exactly what it has
   recorded if and only if no munmap of a recorded mapping of it has failed so far.
   */
  lemma MappedIsRecorded(es: seq<Event>, timeout: nat, i: nat)
    requires LegalRun(es, timeout) && i < MAX_VIDEO_COUNT
    ensures
      var m := Run(es, timeout);
      && |m.slots| == MAX_VIDEO_COUNT
      && (m.slots[i].port.Some? ==>
            (m.slots[i].port.value.mapped == ToSet(m.slots[i].port.value.bufs)
             <==> NeverRefused(es, timeout, i)))
  {
    hide Run, SlotOk, NeverRefused;
    RunOk(es, timeout);
    RunLoses(es, timeout, i);
    var s := Run(es, timeout).slots[i];
    if s.port.Some? {
      SlotPort(s);
    }
  }

  lemma SlotPort(s: Slot)
    requires SlotOk(s) && s.port.Some?
    ensures s.port.value.mapped == ToSet(s.port.value.bufs) + s.port.value.leaked
    ensures ToSet(s.port.value.bufs) !! s.port.value.leaked
  {
  }

  /**
   Entry `i` of reqbufs is written while the granted buffers are mapped, or read to give them back
   after a failure.
   */
  predicate Touches(r: MapResults, i: nat) {
    && r.reqbufs && r.granted >= REQ_BUFFER_MAX
    && var k := MappedCount(r, 0, r.granted);
       i < k || (i == k < r.granted && r.query(i)) || (i < r.granted && (k < r.granted || !AllQueued(r, r.granted)))
  }

  /** v4l2port_mmap_init stays inside its array exactly if the driver grants no more buffers than it was asked for. */
  lemma StaysInside(r: MapResults)
    ensures (forall i: nat | Touches(r, i) :: i < REQ_BUFFER_MAX) <==> !r.reqbufs || r.granted <= REQ_BUFFER_MAX
  {
    hide MappedCount;
    if r.reqbufs && r.granted > REQ_BUFFER_MAX {
      assert Touches(r, REQ_BUFFER_MAX);
    }
  }

  // ----- the idle timeout

  /** A device in use: a stream was asked for while it exists, or a client was served a frame of it. */
  predicate Uses(m: Manager, e: Event, i: nat) {
    i < |m.slots| &&
    match e
    case Request(j, now, d) => i == j && m.slots[i].port.Some?
    case Ready(j, v, t0, t1, d) =>
      && i == j && m.slots[i].pevent.Some? && m.slots[i].port.Some? && m.slots[i].port.value.stream && v.dequeued
      && LegalDelivery(v, j) && AnyServed(v.conns, v.frame, v.ios)
    case _ => false
  }

  /** When an event happens: its first and its last look at the clock. */
  function Begins(e: Event): Option<int> {
    match e
    case Request(_, now, _) => Some(now)
    case Ready(_, _, t0, _, _) => Some(t0)
    case _ => None
  }

  function Ends(e: Event): Option<int> {
    match e
    case Request(_, now, _) => Some(now)
    case Ready(_, _, _, t1, _) => Some(t1)
    case _ => None
  }

  /** The clock never goes back. */
  predicate Monotone(es: seq<Event>) {
    && (forall k | 0 <= k < |es| && es[k].Ready? :: es[k].t0 <= es[k].t1)
    && (forall j, k | 0 <= j < k < |es| && Ends(es[j]).Some? && Begins(es[k]).Some? ::
          Ends(es[j]).value <= Begins(es[k]).value)
  }

  /** The last event of the run turns device `i` off for idleness. */
  predicate TurnsOff(m: Manager, e: Event, i: nat, timeout: nat) {
    e.Ready? && e.index == i && i < |m.slots| && m.slots[i].pevent.Some? && Step(m, e, timeout).slots[i].pevent.None?
  }

  /** The events that set the check time of device `i`: a stream asked for, or a positive delivery count. */
  predicate Stamps(m: Manager, e: Event, i: nat) {
    i < |m.slots| &&
    match e
    case Request(j, now, d) => i == j && m.slots[i].port.Some?
    case Ready(j, v, t0, t1, d) =>
      i == j && m.slots[i].pevent.Some? && m.slots[i].port.Some? && m.slots[i].port.value.stream && v.dequeued
      && Count(v) > 0
    case _ => false
  }

  /** A use of the device sets its check time. */
  lemma UseStamps(m: Manager, e: Event, i: nat)
    requires Uses(m, e, i)
    ensures Stamps(m, e, i)
  {
    if e.Ready? {
      var v := e.frames;
      var j :| 0 <= j < |v.conns| && Served(v.conns[j], v.frame, v.ios[j].0, v.ios[j].1);
      ServedCounts(v.conns, v.frame, v.ios, j);
    }
  }

  /** What sets the check time of a device is no later than its check time. */
  lemma {:induction false} CheckTimeCovers(es: seq<Event>, timeout: nat, i: nat, k: nat)
    requires Monotone(es) && k < |es| && i < MAX_VIDEO_COUNT && Stamps(Run(es[..k], timeout), es[k], i)
    ensures |Run(es, timeout).slots| == MAX_VIDEO_COUNT
    ensures Begins(es[k]).value <= Run(es, timeout).slots[i].last
  {
    hide Run, Step;
    var n := |es| - 1;
    var m, e := Run(es[..n], timeout), es[n];
    SlotCount(es[..n], timeout);
    RunStep(es, timeout);
    StampStep(m, e, timeout, i);
    if k < n {
      assert es[..n][..k] == es[..k];
      CheckTimeCovers(es[..n], timeout, i, k);
      assert Begins(es[k]).value <= Ends(es[k]).value;
    }
  }

  lemma RunStep(es: seq<Event>, timeout: nat)
    requires es != []
    ensures Run(es, timeout) == Step(Run(es[..|es| - 1], timeout), es[|es| - 1], timeout)
  {
  }

  lemma {:induction false} SlotCount(es: seq<Event>, timeout: nat)
    ensures |Run(es, timeout).slots| == MAX_VIDEO_COUNT
  {
    if es != [] {
      SlotCount(es[..|es| - 1], timeout);
    }
  }

  /**
   Over every run with a clock that never goes back: if a video event at time t turns a device off,
   then no stream was asked for on it, and no client was served a frame of it, in the `timeout`
   seconds before t.
   */
  lemma IdleTimeoutSafe(es: seq<Event>, timeout: nat, i: nat, k: nat)
    requires Monotone(es) && i < MAX_VIDEO_COUNT && es != [] && k < |es|
    requires TurnsOff(Run(es[..|es| - 1], timeout), es[|es| - 1], i, timeout)
    requires Uses(Run(es[..k], timeout), es[k], i)
    ensures es[|es| - 1].t1 - Begins(es[k]).value > timeout
  {
    hide Run;
    var n := |es| - 1;
    UseStamps(Run(es[..k], timeout), es[k], i);
    CheckTimeCovers(es, timeout, i, k);
    RunStep(es, timeout);
    OffMeansIdle(Run(es[..n], timeout), es[n], i, timeout);
  }

  lemma OffMeansIdle(m: Manager, e: Event, i: nat, timeout: nat)
    requires TurnsOff(m, e, i, timeout)
    ensures e.t1 - Step(m, e, timeout).slots[i].last > timeout
  {
  }

  /** Whenever a frame of device `i` is delivered, no client waits for anything else. */
  predicate OnlyItsOwn(es: seq<Event>, i: nat) {
    forall k | 0 <= k < |es| && es[k].Ready? && es[k].index == i ::
      LegalDelivery(es[k].frames, i) && OwnWaiters(es[k].frames.conns, i)
  }

  lemma StampsIsUse(m: Manager, e: Event, i: nat)
    requires e.Ready? && e.index == i ==> LegalDelivery(e.frames, i) && OwnWaiters(e.frames.conns, i)
    ensures Stamps(m, e, i) <==> Uses(m, e, i)
  {
    if e.Ready? && e.index == i {
      CountedIsServed(e.frames.conns, e.frames.frame, e.frames.ios);
    }
  }

  lemma StampStep(m: Manager, e: Event, timeout: nat, i: nat)
    requires i < |m.slots|
    ensures |Step(m, e, timeout).slots| == |m.slots|
    ensures
      var s, t := m.slots[i], Step(m, e, timeout).slots[i];
      && t.last == (if Stamps(m, e, i) then Begins(e).value else s.last)
      && (t.pevent.Some? && !Stamps(m, e, i) ==> s.pevent.Some?)
  {
    hide Init, Prepare, StreamOff;
  }

  /** The check time of a registered device is the time of one of the events that set it. */
  lemma {:induction false} CheckTimeIsStamp(es: seq<Event>, timeout: nat, i: nat) returns (k: nat)
    requires i < MAX_VIDEO_COUNT
    ensures |Run(es, timeout).slots| == MAX_VIDEO_COUNT
    ensures Run(es, timeout).slots[i].pevent.Some? ==>
              k < |es| && Stamps(Run(es[..k], timeout), es[k], i)
              && Begins(es[k]).value == Run(es, timeout).slots[i].last
  {
    SlotCount(es, timeout);
    k := 0;
    if es != [] {
      var n := |es| - 1;
      SlotCount(es[..n], timeout);
      k := CheckTimeIsStamp(es[..n], timeout, i);
      StampStep(Run(es[..n], timeout), es[n], timeout, i);
      if Stamps(Run(es[..n], timeout), es[n], i) {
        k := n;
      } else if k < n {
        assert es[..n][..k] == es[..k];
      }
    }
  }

  /** At a video event: what the idle check compares with. */
  lemma OffExactly(m: Manager, e: Event, timeout: nat, i: nat)
    requires i < |m.slots| && e.Ready? && e.index == i && m.slots[i].pevent.Some? && m.slots[i].port.Some?
    ensures TurnsOff(m, e, i, timeout) <==>
              timeout > 0 && e.t1 - (if Stamps(m, e, i) then e.t0 else m.slots[i].last) > timeout
  {
    hide StreamOff;
  }

  /** Nothing has set the check time of device `i` in the `timeout` seconds before time `t`. */
  predicate Unstamped(es: seq<Event>, timeout: nat, i: nat, t: int) {
    forall k | 0 <= k < |es| && Stamps(Run(es[..k], timeout), es[k], i) :: t - Begins(es[k]).value > timeout
  }

  /** Device `i` has not been used in the `timeout` seconds before time `t`. */
  predicate Unused(es: seq<Event>, timeout: nat, i: nat, t: int) {
    forall k | 0 <= k < |es| && Uses(Run(es[..k], timeout), es[k], i) :: t - Begins(es[k]).value > timeout
  }

  /** The last event of the run is a video event of the registered device `i`. */
  predicate LastReady(es: seq<Event>, timeout: nat, i: nat) {
    && es != [] && es[|es| - 1].Ready? && es[|es| - 1].index == i
    && var m := Run(es[..|es| - 1], timeout); i < |m.slots| && m.slots[i].pevent.Some?
  }

  /**
   Exactly when a device is turned off, over every run with a clock that never goes back: a video
   event at time t does it if no stream was asked for on it, and no delivery of a frame of it had a
   positive count, in the `timeout` seconds before t.
   */
  lemma TurnedOffExactly(es: seq<Event>, timeout: nat, i: nat)
    requires Monotone(es) && LegalRun(es, timeout) && i < MAX_VIDEO_COUNT && LastReady(es, timeout, i)
    ensures TurnsOff(Run(es[..|es| - 1], timeout), es[|es| - 1], i, timeout)
            <==> timeout > 0 && Unstamped(es, timeout, i, es[|es| - 1].t1)
  {
    hide Run, Stamps, Step, LegalRun, TurnsOff;
    var n := |es| - 1;
    var m, e := Run(es[..n], timeout), es[n];
    RegisteredHasPort(es, timeout, i);
    OffExactly(m, e, timeout, i);
    RunStep(es, timeout);
    StampStep(m, e, timeout, i);
    if TurnsOff(m, e, i, timeout) {
      OffMeansIdle(m, e, i, timeout);
      forall k | 0 <= k < |es| && Stamps(Run(es[..k], timeout), es[k], i)
        ensures Begins(es[k]).Some? && e.t1 - Begins(es[k]).value > timeout
      {
        StampBegins(Run(es[..k], timeout), es[k], i);
        CheckTimeCovers(es, timeout, i, k);
      }
    } else if !Stamps(m, e, i) {
      var k := CheckTimeIsStamp(es[..n], timeout, i);
      assert es[..n][..k] == es[..k];
    }
  }

  lemma StampBegins(m: Manager, e: Event, i: nat)
    requires Stamps(m, e, i)
    ensures Begins(e).Some?
  {
  }

  /**
   When an unused device is turned off: if its frames find no client waiting for anything else, a
   video event at time t turns it off exactly if it has not been used in the `timeout` seconds
   before t. A client that waits for another device keeps it on, by CountTellsExactly.
   */
  lemma IdleTimeoutExact(es: seq<Event>, timeout: nat, i: nat)
    requires Monotone(es) && LegalRun(es, timeout) && i < MAX_VIDEO_COUNT && LastReady(es, timeout, i)
    requires OnlyItsOwn(es, i)
    ensures TurnsOff(Run(es[..|es| - 1], timeout), es[|es| - 1], i, timeout)
            <==> timeout > 0 && Unused(es, timeout, i, es[|es| - 1].t1)
  {
    hide Run, Stamps, Uses, LegalRun, TurnsOff, Monotone;
    TurnedOffExactly(es, timeout, i);
    forall k | 0 <= k < |es|
      ensures Stamps(Run(es[..k], timeout), es[k], i) <==> Uses(Run(es[..k], timeout), es[k], i)
    {
      StampsIsUse(Run(es[..k], timeout), es[k], i);
    }
  }

  lemma RegisteredHasPort(es: seq<Event>, timeout: nat, i: nat)
    requires LegalRun(es, timeout) && LastReady(es, timeout, i)
    ensures Run(es[..|es| - 1], timeout).slots[i].port.Some?
  {
    RunOk(es[..|es| - 1], timeout);
    assert SlotOk(Run(es[..|es| - 1], timeout).slots[i]);
  }
}
