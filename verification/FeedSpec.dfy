/**
 How a video frame reaches the connections that wait for it: camhttp_on_send_jpeg of
 src/camhttp.c and http_server_keeplive_delay_iter of src/http.c.
 */
module FeedSpec {
  import opened Seqs
  import opened HeaderSpec
  import opened HttpSpec
  import opened Pevents
  import opened Texts

  const SNAPSHOT: int := 1
  const STREAM: int := 2

  /** A frame of a device, with the headers it is sent under. */
  datatype Frame = Frame(device: nat, snapshotText: string, streamText: string, bytes: string)

  /** What on_get_snapshot and on_get_stream store as the delay_ptr. */
  function Flag(kind: int, device: nat): int {
    kind * 65536 + device
  }

  function Device(flag: int): int {
    var low := flag % 65536;
    if low < 32768 then low else low - 65536
  }

  function Kind(flag: int): int {
    flag / 65536
  }

  /** A flag is split as `flag << 16 >> 16` and `flag >> 16` do: the low half has a sign. */
  lemma FlagSplits(flag: int)
    ensures -32768 <= Device(flag) < 32768 && (flag - Device(flag)) % 65536 == 0
    ensures 65536 * Kind(flag) <= flag < 65536 * Kind(flag) + 65536
  {
  }

  lemma FlagParts(kind: int, device: nat)
    requires device < 32768
    ensures Device(Flag(kind, device)) == device && Kind(Flag(kind, device)) == kind
  {
  }

  /** camhttp_on_send_jpeg. */
  function OnSendJpeg(f: Frame, flag: int): Answer {
    if f.device != Device(flag) then Answer(None, None)
    else if Kind(flag) == SNAPSHOT then Answer(Some(Response(f.snapshotText, f.bytes)), Some(0))
    else if Kind(flag) == STREAM then Answer(Some(Response(f.streamText, f.bytes)), None)
    else Answer(None, Some(0))
  }

  /** One client of the table, and what it adds to the count. */
  function IterOne(c: Conn, f: Frame, io1: Io, io2: Io): (Conn, nat) {
    if Waiting(c) then
      var (d, counted) := Deliver(c, OnSendJpeg(f, c.delay), io1, io2);
      (d, if counted then 1 else 0)
    else (c, 0)
  }

  /** keeplive_delay_iter over the client table; freed clients stay in the list as dead connections. */
  function Iter(cs: seq<Conn>, f: Frame, ios: seq<(Io, Io)>): (r: (seq<Conn>, nat))
    requires |cs| == |ios|
    ensures |r.0| == |cs|
  {
    if cs == [] then ([], 0)
    else
      var n := |cs| - 1;
      var (ds, count) := Iter(cs[..n], f, ios[..n]);
      var (d, k) := IterOne(cs[n], f, ios[n].0, ios[n].1);
      (ds + [d], count + k)
  }

  /** `c` waits for a frame of the device. */
  predicate WaitsFor(c: Conn, device: nat) {
    && c.live && c.delay != 0 && !c.writing && !c.reading
    && Device(c.delay) == device && (Kind(c.delay) == SNAPSHOT || Kind(c.delay) == STREAM)
  }

  /** `c` waits for the frame, and the response with it goes through: no send of it fails. */
  predicate Served(c: Conn, f: Frame, io1: Io, io2: Io) {
    WaitsFor(c, f.device) && Answered(c, OnSendJpeg(f, c.delay), io1, io2).live
  }

  /**
   A client is served exactly if it waits for the device and is counted, and then the frame was
   sent whole, under its header; a client whose frame fails is freed.
   */
  lemma ServedExactly(c: Conn, f: Frame, io1: Io, io2: Io)
    requires Inv(c)
    ensures Served(c, f, io1, io2) <==> WaitsFor(c, f.device) && IterOne(c, f, io1, io2).1 == 1
    ensures Served(c, f, io1, io2) ==> IterOne(c, f, io1, io2).0.sent == c.sent + Whole(OnSendJpeg(f, c.delay))
    ensures WaitsFor(c, f.device) && !Served(c, f, io1, io2) ==> !IterOne(c, f, io1, io2).0.live
  {
    hide Compile;
    if WaitsFor(c, f.device) {
      var a := OnSendJpeg(f, c.delay);
      CompileSent(Delayed(c, a), a.response.value, io1, io2);
    }
  }

  lemma {:induction false} IterAt(cs: seq<Conn>, f: Frame, ios: seq<(Io, Io)>, j: nat)
    requires |cs| == |ios| && j < |cs|
    ensures Iter(cs, f, ios).0[j] == IterOne(cs[j], f, ios[j].0, ios[j].1).0
    ensures Iter(cs, f, ios).1 >= IterOne(cs[j], f, ios[j].0, ios[j].1).1
  {
    var n := |cs| - 1;
    if j < n {
      IterAt(cs[..n], f, ios[..n], j);
    }
  }

  /** If any client was served, the count is positive, so the device's check time is set. */
  lemma ServedCounts(cs: seq<Conn>, f: Frame, ios: seq<(Io, Io)>, j: nat)
    requires |cs| == |ios| && j < |cs| && Served(cs[j], f, ios[j].0, ios[j].1)
    ensures Iter(cs, f, ios).1 > 0
  {
    IterAt(cs, f, ios, j);
  }

  predicate AnyServed(cs: seq<Conn>, f: Frame, ios: seq<(Io, Io)>)
    requires |cs| == |ios|
  {
    exists j :: 0 <= j < |cs| && Served(cs[j], f, ios[j].0, ios[j].1)
  }

  /** Whoever waits, waits for this device. */
  predicate OwnWaiters(cs: seq<Conn>, device: nat) {
    forall j | 0 <= j < |cs| :: Waiting(cs[j]) ==> WaitsFor(cs[j], device)
  }

  /** A positive count counts someone. */
  lemma {:induction false} CountsSomeone(cs: seq<Conn>, f: Frame, ios: seq<(Io, Io)>) returns (j: nat)
    requires |cs| == |ios| && Iter(cs, f, ios).1 > 0
    ensures j < |cs| && IterOne(cs[j], f, ios[j].0, ios[j].1).1 == 1
    decreases |cs|
  {
    var n := |cs| - 1;
    if IterOne(cs[n], f, ios[n].0, ios[n].1).1 == 1 {
      j := n;
    } else {
      j := CountsSomeone(cs[..n], f, ios[..n]);
    }
  }

  /** If only this device is waited for, a positive count means that someone was served. */
  lemma CountedIsServed(cs: seq<Conn>, f: Frame, ios: seq<(Io, Io)>)
    requires |cs| == |ios| && OwnWaiters(cs, f.device)
    ensures Iter(cs, f, ios).1 > 0 <==> AnyServed(cs, f, ios)
  {
    if Iter(cs, f, ios).1 > 0 {
      var j := CountsSomeone(cs, f, ios);
      assert Waiting(cs[j]);
      assert Served(cs[j], f, ios[j].0, ios[j].1);
    }
    if j :| 0 <= j < |cs| && Served(cs[j], f, ios[j].0, ios[j].1) {
      ServedCounts(cs, f, ios, j);
    }
  }

  /** Sockets on which every write fails. */
  function Failing(n: nat): (ios: seq<(Io, Io)>)
    ensures |ios| == n && forall j | 0 <= j < n :: ios[j] == (Io(-1, true), Io(-1, true))
  {
    seq(n, _ => (Io(-1, true), Io(-1, true)))
  }

  /** A client that waits for nothing, or is still busy, is left alone and not counted. */
  lemma IdleClients(c: Conn, f: Frame, io1: Io, io2: Io)
    ensures !c.live || c.delay == 0 || c.writing || c.reading ==> IterOne(c, f, io1, io2) == (c, 0)
  {
  }

  /**
   In full, for each waiting client: one of another device is left alone and counted; for a device's
   own, it is as AnswerEnds and Goes say, and a flag that asks for neither a snapshot nor a stream
   ends the connection.
   */
  lemma PassExactly(c: Conn, f: Frame, io1: Io, io2: Io)
    requires Inv(c) && c.live && c.delay != 0 && !c.writing && !c.reading
    ensures
      var (d, n) := IterOne(c, f, io1, io2);
      var own, kind := Device(c.delay) == f.device, Kind(c.delay);
      var r := Response(if kind == 1 then f.snapshotText else f.streamText, f.bytes);
      && (!own ==> (d, n) == (c, 1))
      && (own && kind != 1 && kind != 2 ==> !d.live && n == 1)
      && (own && (kind == 1 || kind == 2) ==>
            && (n == 1 <==> Goes(false, 0, r, io1, io2))
            && (d.live <==> n == 1 && (kind == 1 ==> !AllTaken(r, io1, io2))))
  {
    hide Answered, AnswerEnds, Goes, AllTaken;
    var a := OnSendJpeg(f, c.delay);
    AnswerExactly(c, a, io1, io2);
    AnswerEndsIs(c, a, io1, io2);
    if a == Answer(None, None) {
      assert Answered(c, a, io1, io2) == c by { LeavesAlone(c, a, io1, io2); }
    }
  }

  lemma AnswerEndsIs(c: Conn, a: Answer, io1: Io, io2: Io)
    requires !c.writing && c.queue == ""
    ensures
      var delay := if a.delay.Some? then a.delay.value else c.delay;
      AnswerEnds(c, a, io1, io2) <==>
        || (a.response.Some? && !Goes(false, 0, a.response.value, io1, io2))
        || (delay == 0 && (a.response.Some? ==> AllTaken(a.response.value, io1, io2)))
  {
    hide Goes, AllTaken;
  }

  lemma LeavesAlone(c: Conn, a: Answer, io1: Io, io2: Io)
    requires a == Answer(None, None)
    ensures Answered(c, a, io1, io2) == c
  {
  }

  /** A client that waits for something else is counted whatever its socket does. */
  lemma OthersCount(c: Conn, f: Frame, io1: Io, io2: Io)
    requires Waiting(c) && !WaitsFor(c, f.device)
    ensures IterOne(c, f, io1, io2).1 == 1 && IterOne(c, f, io1, io2).0.sent == c.sent
  {
  }

  /**
   Exactly when a count tells of a served client, whatever the sockets do: when no client waits for
   anything but this device. A client of another device is counted on every pass.
   */
  lemma CountTellsExactly(cs: seq<Conn>, f: Frame)
    ensures (forall ios: seq<(Io, Io)> | |ios| == |cs| :: Iter(cs, f, ios).1 > 0 ==> AnyServed(cs, f, ios))
            <==> OwnWaiters(cs, f.device)
  {
    if OwnWaiters(cs, f.device) {
      forall ios: seq<(Io, Io)> | |ios| == |cs| ensures Iter(cs, f, ios).1 > 0 ==> AnyServed(cs, f, ios) {
        CountedIsServed(cs, f, ios);
      }
    } else {
      var j :| 0 <= j < |cs| && Waiting(cs[j]) && !WaitsFor(cs[j], f.device);
      var ios := Failing(|cs|);
      OthersCount(cs[j], f, ios[j].0, ios[j].1);
      IterAt(cs, f, ios, j);
      assert !AnyServed(cs, f, ios);
    }
  }

  /**
   A client whose delay is Flag(kind, n) is answered exactly for frames of device n if it asked for
   a snapshot or a stream, with that frame; its delay is cleared by a frame of its device exactly
   if it is not a stream.
   */
  lemma FlagAnswered(f: Frame, kind: int, n: nat)
    requires n < 32768
    ensures
      var a := OnSendJpeg(f, Flag(kind, n));
      && (a.response.Some? <==> f.device == n && (kind == SNAPSHOT || kind == STREAM))
      && (a.response.Some? ==>
            a.response.value == Response(if kind == SNAPSHOT then f.snapshotText else f.streamText, f.bytes))
      && (a.delay == Some(0) <==> f.device == n && kind != STREAM)
      && (a.delay == None <==> f.device != n || kind == STREAM)
  {
    FlagParts(kind, n);
  }

  /** Nothing more will be sent: gone, or only emptying the buffer. */
  predicate Closing(c: Conn) {
    !c.live || (c.writing && c.interest == Write && c.delay == 0)
  }

  lemma {:induction false} DrainCloses(c: Conn, results: seq<int>, ok: bool)
    requires c.live && Closing(c)
    ensures Closing(Drain(c, results, ok))
    decreases |results|
  {
    if c.cur < |c.queue| && results != [] {
      var w := WriteResult(results[0], |c.queue| - c.cur);
      if w > 0 {
        DrainCloses(Wrote(c, w), results[1..], ok);
      }
    }
  }

  /** Whatever happens to it, a closing connection is sent nothing further. */
  lemma {:induction false} ClosingStays(c: Conn, es: seq<Event>, kind: string -> LineKind)
    requires Closing(c)
    ensures Closing(RunFrom(c, es, kind)) && RunFrom(c, es, kind).sent == c.sent
  {
    if es != [] {
      var n := |es| - 1;
      ClosingStays(c, es[..n], kind);
      var d := RunFrom(c, es[..n], kind);
      if d.live && es[n].Writable? {
        DrainCloses(d, es[n].results, es[n].ok);
        DrainSent(d, es[n].results, es[n].ok);
      }
    }
  }

  /** A snapshot client gets one frame: after it has been given one, over every run, nothing else is sent to it. */
  lemma SnapshotOnce(c: Conn, f: Frame, io1: Io, io2: Io, es: seq<Event>, kind: string -> LineKind)
    requires Inv(c) && WaitsFor(c, f.device) && Kind(c.delay) == SNAPSHOT
    ensures
      var d := IterOne(c, f, io1, io2).0;
      Closing(d) && RunFrom(d, es, kind).sent == d.sent && Prefix(d.sent, c.sent + f.snapshotText + f.bytes)
  {
    var a := OnSendJpeg(f, c.delay);
    var d := IterOne(c, f, io1, io2).0;
    DeliverOk(c, a, io1, io2);
    AnswerSent(c, a, io1, io2);
    CompileOk(Delayed(c, a), a.response.value, io1, io2);
    assert c.sent + f.snapshotText + f.bytes == c.sent + (f.snapshotText + f.bytes);
    ClosingStays(d, es, kind);
  }

  /** Delivery keeps every connection's invariant. */
  lemma IterKeepsInv(cs: seq<Conn>, f: Frame, ios: seq<(Io, Io)>, j: nat)
    requires |cs| == |ios| && j < |cs| && Inv(cs[j])
    ensures Inv(Iter(cs, f, ios).0[j])
  {
    IterAt(cs, f, ios, j);
    if Waiting(cs[j]) {
      DeliverOk(cs[j], OnSendJpeg(f, cs[j].delay), ios[j].0, ios[j].1);
    }
  }

  /** The pass so far, and one client more. */
  lemma IterNext(cs: seq<Conn>, f: Frame, ios: seq<(Io, Io)>, k: nat, ds: seq<Conn>)
    requires k < |cs| == |ios| && ds == Iter(cs[..k], f, ios[..k]).0 + cs[k..]
    ensures
      var (d, n) := IterOne(cs[k], f, ios[k].0, ios[k].1);
      && ds[k] == cs[k] && ds[k := d][..k + 1] == ds[..k] + [d]
      && ds[k := d] == Iter(cs[..k + 1], f, ios[..k + 1]).0 + cs[k + 1..]
      && Iter(cs[..k + 1], f, ios[..k + 1]).1 == Iter(cs[..k], f, ios[..k]).1 + n
  {
    hide IterOne;
    assert cs[..k + 1][..k] == cs[..k] && ios[..k + 1][..k] == ios[..k];
  }

  // ----- the server's connections over a run

  /** A client is accepted, one of them has an event, or a frame is offered to all. */
  datatype ServerEvent =
    | Accepted
    | Happens(index: nat, event: Event)
    | Feeds(frame: Frame, ios: seq<(Io, Io)>)

  predicate IsLive(c: Conn) {
    c.live
  }

  /** The live connections of the table, in its order. */
  ghost function ServerStep(cs: seq<Conn>, s: ServerEvent, kind: string -> LineKind): seq<Conn> {
    match s
    case Accepted => cs + [NewConn()]
    case Happens(k, e) =>
      if k >= |cs| then cs
      else if Step(cs[k], e, kind).live then cs[k := Step(cs[k], e, kind)]
      else cs[..k] + cs[k + 1..]
    case Feeds(f, ios) => if |ios| == |cs| then Filter(Iter(cs, f, ios).0, IsLive) else cs
  }

  ghost function ServerRun(ss: seq<ServerEvent>, kind: string -> LineKind): seq<Conn> {
    if ss == [] then [] else ServerStep(ServerRun(ss[..|ss| - 1], kind), ss[|ss| - 1], kind)
  }

  /** What the pass does to a client is the video event of its own run. */
  lemma FrameIsEvent(c: Conn, f: Frame, io1: Io, io2: Io, kind: string -> LineKind)
    requires c.live
    ensures IterOne(c, f, io1, io2).0 == Step(c, Video(flag => OnSendJpeg(f, flag), io1, io2), kind)
  {
  }

  /** `c` lives and is what a run of one connection comes to. */
  ghost predicate IsRun(c: Conn, kind: string -> LineKind) {
    c.live && exists es: seq<Event> :: Run(es, kind) == c
  }

  lemma RunOn(c: Conn, e: Event, kind: string -> LineKind)
    requires IsRun(c, kind)
    ensures Step(c, e, kind).live ==> IsRun(Step(c, e, kind), kind)
  {
    hide Step;
    var es: seq<Event> :| Run(es, kind) == c;
    assert (es + [e])[..|es|] == es;
    assert Run(es + [e], kind) == Step(c, e, kind);
  }

  lemma StepRuns(cs: seq<Conn>, s: ServerEvent, kind: string -> LineKind)
    requires forall c | c in cs :: IsRun(c, kind)
    ensures forall c | c in ServerStep(cs, s, kind) :: IsRun(c, kind)
  {
    hide Step, IsRun, Iter;
    match s
    case Accepted => NewRun(kind);
    case Happens(k, e) =>
      if k < |cs| {
        RunOn(cs[k], e, kind);
      }
    case Feeds(f, ios) =>
      if |ios| == |cs| {
        var ds := Iter(cs, f, ios).0;
        FilterSub(ds, IsLive);
        forall j | 0 <= j < |ds| && ds[j].live ensures IsRun(ds[j], kind) {
          FedRuns(cs, f, ios, j, kind);
        }
      }
  }

  lemma NewRun(kind: string -> LineKind)
    ensures IsRun(NewConn(), kind)
  {
    assert Run([], kind) == NewConn();
  }

  lemma FedRuns(cs: seq<Conn>, f: Frame, ios: seq<(Io, Io)>, j: nat, kind: string -> LineKind)
    requires |cs| == |ios| && j < |cs| && IsRun(cs[j], kind)
    ensures Iter(cs, f, ios).0[j].live ==> IsRun(Iter(cs, f, ios).0[j], kind)
  {
    hide Step, Iter, IterOne;
    IterAt(cs, f, ios, j);
    FrameIsEvent(cs[j], f, ios[j].0, ios[j].1, kind);
    RunOn(cs[j], Video(flag => OnSendJpeg(f, flag), ios[j].0, ios[j].1), kind);
  }

  /**
   Over every run of the server, each connection in the table is live and has come about by a run
   of its own, so that it keeps the invariant, and the responses made for it are whole and in order.
   */
  lemma {:induction false} ServerRunsAreRuns(ss: seq<ServerEvent>, kind: string -> LineKind, c: Conn)
    requires c in ServerRun(ss, kind)
    ensures c.live && Inv(c) && c.cur <= |c.queue|
    ensures exists es: seq<Event> :: Run(es, kind) == c && c.wire + c.queue[c.cur..] == OfferedAll(NewConn(), es, kind)
  {
    hide ServerStep, Inv;
    AllRuns(ss, kind);
    var es: seq<Event> :| Run(es, kind) == c;
    RunInv(es, kind);
    ResponsesInOrder(es, kind);
  }

  lemma {:induction false} AllRuns(ss: seq<ServerEvent>, kind: string -> LineKind)
    ensures forall c | c in ServerRun(ss, kind) :: IsRun(c, kind)
  {
    hide ServerStep, IsRun;
    if ss != [] {
      AllRuns(ss[..|ss| - 1], kind);
      StepRuns(ServerRun(ss[..|ss| - 1], kind), ss[|ss| - 1], kind);
    }
  }
}
