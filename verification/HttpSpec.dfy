/**
 One HTTP connection of src/http.c as a value, stepped by what the socket and the event loop
 report. Socket results are arbitrary integers, read the way the pevent wrappers report them.
 `sent` and `wire` are histories: everything given to http_client_send, and everything the
 socket has taken.
 */
module HttpSpec {
  import opened HeaderSpec
  import opened Pevents
  import opened Texts

  const MAX_SEND: nat := 204800

  datatype Conn = Conn(
    live: bool,
    interest: Interest,
    writing: bool,
    reading: bool,
    delay: int,          // delay_ptr; 0 is NULL
    cur: nat,
    queue: string,       // write_buf.buf[..size]
    max: nat,
    partial: string,     // request_buf[..request_buf_cur]
    lines: seq<string>,  // handed to the line parser since the request was last cleared
    served: nat,         // requests answered
    wire: string,
    sent: string)

  /** The text http_response_compile makes and the extra data behind it. */
  datatype Response = Response(text: string, extra: string)

  /** What one http_client_send meets: a write result and whether a registration succeeds. */
  datatype Io = Io(write: int, ok: bool)

  /** A callback's answer: a response or none, and the delay_ptr it sets, if it does. */
  datatype Answer = Answer(response: Option<Response>, delay: Option<int>)

  function Delayed(c: Conn, a: Answer): Conn {
    if a.delay.Some? then c.(delay := a.delay.value) else c
  }

  /** pevent_write: -1, 0 for EAGAIN, or 1 up to the size; writing nothing counts as an error. */
  function WriteResult(r: int, size: nat): (w: int)
    ensures -1 <= w <= size
  {
    if r < 0 || size == 0 then -1 else if r <= size then r else size
  }

  function Alloc(need: nat): (r: nat)
    ensures r > need
  {
    (need / 4096 + 1) * 4096
  }

  function NewConn(): Conn {
    Conn(true, Read, false, false, 0, 0, "", 0, "", [], 0, "", "")
  }

  /** http_client_free: only the histories are left. */
  function Free(c: Conn): Conn {
    NewConn().(live := false, interest := Idle, served := c.served, wire := c.wire, sent := c.sent)
  }

  /** Append to the write buffer and wait for the socket. */
  function Enqueue(c: Conn, rest: string, io: Io): Conn {
    var need := |c.queue| + |rest|;
    if need > MAX_SEND then Free(c)
    else
      var d := c.(queue := c.queue + rest, max := if c.max < need then Alloc(need) else c.max, writing := true);
      if c.writing then d
      else
        match PeventSet(c.interest, Write, io.ok)
        case None => Free(d)
        case Some(state) => d.(interest := state)
  }

  /** http_client_send; it returns -1 exactly when the connection is not live afterwards. */
  function Send(c: Conn, data: string, io: Io): Conn {
    var c := c.(sent := c.sent + data);
    var w := if c.writing then 0 else WriteResult(io.write, |data|);
    if w == -1 then Free(c)
    else
      var c := c.(wire := c.wire + data[..w]);
      if w == |data| then c else Enqueue(c, data[w..], io)
  }

  /** The sends of http_response_compile. */
  function Compile(c: Conn, r: Response, io1: Io, io2: Io): Conn {
    var d := Send(c, r.text, io1);
    if d.live && r.extra != "" then Send(d, r.extra, io2) else d
  }

  /** The connection after a write of `w` bytes from the buffer. */
  function Wrote(c: Conn, w: nat): Conn
    requires c.cur + w <= |c.queue|
  {
    c.(cur := c.cur + w, wire := c.wire + c.queue[c.cur..c.cur + w])
  }

  /** The loop of on_write, with the results its writes meet. */
  function Drain(c: Conn, results: seq<int>, ok: bool): Conn
    decreases |results|
  {
    if c.cur >= |c.queue| then
      var d := c.(cur := 0, queue := "", writing := false);
      if c.delay == 0 then Free(d)
      else
        match PeventSet(c.interest, Read, ok)
        case None => Free(d)
        case Some(state) => d.(interest := state)
    else if results == [] then c
    else
      var w := WriteResult(results[0], |c.queue| - c.cur);
      if w == -1 then Free(c)
      else if w == 0 then c
      else Drain(Wrote(c, w), results[1..], ok)
  }

  function OnWrite(c: Conn, results: seq<int>, ok: bool): Conn {
    if !c.writing then Free(c) else Drain(c, results, ok)
  }

  /** What a callback's answer makes the server send. */
  function Answered(c: Conn, a: Answer, io1: Io, io2: Io): Conn {
    var d := Delayed(c, a);
    if a.response.Some? then Compile(d, a.response.value, io1, io2) else d
  }

  /** The request is over: the connection stays only if it is writing or waits for frames. */
  function Finish(c: Conn): Conn {
    if !c.live then c
    else
      var d := c.(reading := false, lines := [], served := c.served + 1);
      if !d.writing && d.delay == 0 then Free(d) else d
  }

  /** A complete GET request. */
  function Respond(c: Conn, a: Answer, io1: Io, io2: Io): Conn {
    Finish(Answered(c, a, io1, io2))
  }

  /** The scan of on_read over what is in the request buffer. */
  function Parsed(c: Conn, s: string): Conn {
    c.(lines := c.lines + CStrings(Scan(s).lines), partial := Scan(s).rest)
  }

  /** on_read, given all that had arrived and whether the stream ended behind it. */
  function OnRead(c: Conn, arrived: string, closed: bool, kind: string -> LineKind,
                  callback: seq<string> -> Answer, io1: Io, io2: Io): Conn {
    var s := c.partial + arrived;
    if |s| >= MAX_STRING || closed then Free(c)
    else
      var c := Parsed(c, s);
      if !Scan(s).complete then c.(reading := true)
      else if MethodOf(c.lines, kind) != GetLine then Free(c)
      else Respond(c, callback(c.lines), io1, io2)
  }

  predicate Waiting(c: Conn) {
    c.live && c.delay != 0 && !c.writing && !c.reading
  }

  /** What keeplive_delay_iter does with one waiting client, and whether it is counted. */
  function Deliver(c: Conn, a: Answer, io1: Io, io2: Io): (Conn, bool) {
    var d := Answered(c, a, io1, io2);
    if !d.live then (d, false)
    else if !d.writing && d.delay == 0 then (Free(d), true)
    else (d, true)
  }

  // ----- runs

  datatype Event =
    | Readable(arrived: string, closed: bool, callback: seq<string> -> Answer, io1: Io, io2: Io)
    | Writable(results: seq<int>, ok: bool)
    | Hangup
    | Video(answerTo: int -> Answer, io1: Io, io2: Io)

  /** The event loop delivers what the client is registered for; a freed client gets nothing. */
  function Step(c: Conn, e: Event, kind: string -> LineKind): Conn {
    if !c.live then c
    else
      match e
      case Readable(arrived, closed, callback, io1, io2) =>
        if c.interest == Read then OnRead(c, arrived, closed, kind, callback, io1, io2) else c
      case Writable(results, ok) => if c.interest == Write then OnWrite(c, results, ok) else c
      case Hangup => Free(c)
      case Video(answerTo, io1, io2) => if Waiting(c) then Deliver(c, answerTo(c.delay), io1, io2).0 else c
  }

  function RunFrom(c: Conn, es: seq<Event>, kind: string -> LineKind): Conn {
    if es == [] then c else Step(RunFrom(c, es[..|es| - 1], kind), es[|es| - 1], kind)
  }

  function Run(es: seq<Event>, kind: string -> LineKind): Conn {
    RunFrom(NewConn(), es, kind)
  }

  // ----- what every run keeps

  predicate Prefix(a: string, b: string) {
    |a| <= |b| && a == b[..|a|]
  }

  predicate LiveOk(c: Conn) {
    && c.cur <= |c.queue| <= c.max && |c.queue| <= MAX_SEND
    && c.wire + c.queue[c.cur..] == c.sent
    && (c.writing <==> c.interest == Write)
    && (!c.writing <==> c.interest == Read)
    && (!c.writing ==> c.queue == "" && c.cur == 0)
    && |c.partial| < MAX_STRING
  }

  predicate Inv(c: Conn) {
    && Prefix(c.wire, c.sent)
    && (c.live ==> LiveOk(c))
    && (c.live && c.served > 0 && !c.reading ==> c.writing || c.delay != 0)
  }

  lemma PrefixTrans(a: string, b: string, c: string)
    requires Prefix(a, b) && Prefix(b, c)
    ensures Prefix(a, c)
  {
    assert b[..|a|] == c[..|a|];
  }

  lemma EnqueueOk(c: Conn, rest: string, io: Io)
    requires c.live && c.cur <= |c.queue| <= c.max && |c.queue| <= MAX_SEND
    requires c.wire + c.queue[c.cur..] + rest == c.sent && rest != ""
    requires c.writing <==> c.interest == Write
    requires !c.writing <==> c.interest == Read
    requires !c.writing ==> c.queue == "" && c.cur == 0
    requires |c.partial| < MAX_STRING
    ensures var d := Enqueue(c, rest, io); Prefix(d.wire, d.sent) && (d.live ==> LiveOk(d))
    ensures Enqueue(c, rest, io).live <==> |c.queue| + |rest| <= MAX_SEND && (c.writing || io.ok)
    ensures
      var d := Enqueue(c, rest, io);
      && d.wire == c.wire && d.sent == c.sent && d.served == c.served
      && (d.live ==> d.reading == c.reading && d.delay == c.delay && d.lines == c.lines && d.partial == c.partial)
  {
    assert (c.queue + rest)[c.cur..] == c.queue[c.cur..] + rest;
    assert c.wire + (c.queue[c.cur..] + rest) == c.sent;
  }

  /** Histories only grow. */
  predicate Grows(c: Conn, d: Conn) {
    Prefix(c.wire, d.wire) && Prefix(c.sent, d.sent)
  }

  /** What sending keeps, and what it leaves alone. */
  predicate SendsFrom(c: Conn, d: Conn) {
    && Prefix(d.wire, d.sent) && Grows(c, d)
    && (d.live ==> LiveOk(d))
    && d.served == c.served
    && (d.live ==> d.reading == c.reading && d.delay == c.delay && d.lines == c.lines && d.partial == c.partial)
  }

  /** After the socket has taken `w` bytes of `data`, which it does only with an empty buffer. */
  function Took(c: Conn, data: string, w: nat): Conn
    requires w <= |data|
  {
    c.(sent := c.sent + data, wire := c.wire + data[..w])
  }

  lemma TookOk(c: Conn, data: string, w: nat)
    requires LiveOk(c) && w <= |data| && (c.writing ==> w == 0)
    ensures
      var e := Took(c, data, w);
      && Prefix(e.wire, e.sent) && Grows(c, e)
      && e.wire + e.queue[e.cur..] + data[w..] == e.sent
      && (w == |data| ==> LiveOk(e))
  {
    assert data[..w] + data[w..] == data;
    if c.writing {
      assert c.wire + data[..w] == c.wire && data[w..] == data;
    } else {
      assert c.queue[c.cur..] == "";
      assert c.wire + data[..w] + "" + data[w..] == c.wire + (data[..w] + data[w..]);
    }
  }

  lemma SendOk(c: Conn, data: string, io: Io)
    requires c.live && LiveOk(c)
    ensures SendsFrom(c, Send(c, data, io))
    ensures Send(c, data, io).sent == c.sent + data
  {
    hide Enqueue, Prefix;
    LivePrefix(c);
    var w := if c.writing then 0 else WriteResult(io.write, |data|);
    if w == -1 {
      RefusedOk(c, data);
    } else {
      TookOk(c, data, w);
      if w < |data| {
        EnqueueOk(Took(c, data, w), data[w..], io);
      }
    }
  }

  lemma RefusedOk(c: Conn, data: string)
    requires Prefix(c.wire, c.sent)
    ensures Prefix(c.wire, c.sent + data) && Prefix(c.sent, c.sent + data) && Prefix(c.wire, c.wire)
  {
  }

  lemma CompileOk(c: Conn, r: Response, io1: Io, io2: Io)
    requires c.live && LiveOk(c)
    ensures SendsFrom(c, Compile(c, r, io1, io2))
    ensures Compile(c, r, io1, io2).live ==> Compile(c, r, io1, io2).sent == c.sent + r.text + r.extra
  {
    hide LiveOk, Send, Prefix;
    SendOk(c, r.text, io1);
    var d := Send(c, r.text, io1);
    if d.live && r.extra != "" {
      SendOk(d, r.extra, io2);
      var e := Send(d, r.extra, io2);
      PrefixTrans(c.wire, d.wire, e.wire);
      PrefixTrans(c.sent, d.sent, e.sent);
    }
  }

  lemma WroteOk(c: Conn, w: nat)
    requires c.live && LiveOk(c) && c.cur + w <= |c.queue|
    requires c.writing
    ensures LiveOk(Wrote(c, w)) && Prefix(c.wire, Wrote(c, w).wire) && Wrote(c, w).sent == c.sent
  {
    assert c.queue[c.cur..] == c.queue[c.cur..c.cur + w] + c.queue[c.cur + w..];
  }

  lemma FlushedOk(c: Conn, ok: bool)
    requires c.live && LiveOk(c) && c.writing && c.cur >= |c.queue|
    ensures var d := Drain(c, [], ok); Prefix(d.wire, d.sent) && Grows(c, d) && (d.live ==> LiveOk(d) && d.delay != 0)
  {
    assert c.queue[c.cur..] == "";
  }

  lemma LivePrefix(c: Conn)
    requires LiveOk(c)
    ensures Prefix(c.wire, c.sent) && Grows(c, c)
  {
  }

  lemma {:induction false} DrainOk(c: Conn, results: seq<int>, ok: bool)
    requires c.live && LiveOk(c) && c.writing
    ensures var d := Drain(c, results, ok); Prefix(d.wire, d.sent) && Grows(c, d) && (d.live ==> LiveOk(d))
    ensures var d := Drain(c, results, ok);
            d.live ==> (d.writing || d.delay != 0) && d.reading == c.reading && d.served == c.served
    decreases |results|
  {
    hide LiveOk, Prefix;
    LivePrefix(c);
    if c.cur >= |c.queue| {
      FlushedOk(c, ok);
    } else if results != [] {
      var w := WriteResult(results[0], |c.queue| - c.cur);
      if w > 0 {
        WroteOk(c, w);
        DrainOk(Wrote(c, w), results[1..], ok);
        PrefixTrans(c.wire, Wrote(c, w).wire, Drain(Wrote(c, w), results[1..], ok).wire);
      }
    }
  }

  lemma DrainedAll(c: Conn)
    requires LiveOk(c) && c.cur >= |c.queue|
    ensures c.wire == c.sent && (c.writing ==> c.interest == Write)
  {
    assert c.queue[c.cur..] == "";
  }

  /** As many positive results as there are bytes left empty the buffer onto the wire, in order. */
  lemma {:induction false} DrainDelivers(c: Conn, results: seq<int>, ok: bool)
    requires c.live && LiveOk(c) && c.writing
    requires |results| >= |c.queue| - c.cur && forall i | 0 <= i < |results| :: results[i] > 0
    ensures var d := Drain(c, results, ok); d.wire == d.sent == c.sent && !d.writing
    ensures Drain(c, results, ok).live <==> c.delay != 0 && ok
    decreases |results|
  {
    hide LiveOk;
    if c.cur < |c.queue| {
      var w := WriteResult(results[0], |c.queue| - c.cur);
      WroteOk(c, w);
      DrainDelivers(Wrote(c, w), results[1..], ok);
    } else {
      DrainedAll(c);
    }
  }

  // ----- exactly when a send, and a connection, goes on

  /** How much of `size` bytes the socket takes at once: nothing while earlier bytes wait. */
  function Taken(writing: bool, size: nat, io: Io): (n: nat)
    ensures n <= size
  {
    if writing || io.write < 0 then 0 else if io.write <= size then io.write else size
  }

  /**
   A send of `size` bytes behind `buffered` ones goes on: nothing fails, and what is not taken at
   once fits the buffer and is waited for.
   */
  predicate Accepts(writing: bool, buffered: nat, size: nat, io: Io) {
    && (writing || (size > 0 && io.write >= 0))
    && (Taken(writing, size, io) == size
        || (buffered + size - Taken(writing, size, io) <= 204800 && (writing || io.ok)))
  }

  /** The least multiple of 4096 above `n`. */
  function PageAbove(n: nat): nat {
    n - n % 4096 + 4096
  }

  lemma PageIsAlloc(n: nat)
    ensures Alloc(n) == PageAbove(n)
  {
  }

  /**
   http_client_send in full: the client lives exactly if the send goes on, EAGAIN included; then the
   socket has taken what it could and the rest is buffered.
   */
  lemma SendExactly(c: Conn, data: string, io: Io)
    requires c.live && LiveOk(c)
    ensures
      var d := Send(c, data, io);
      var n := Taken(c.writing, |data|, io);
      var waits := c.writing || n < |data|;
      && (d.live <==> Accepts(c.writing, |c.queue|, |data|, io))
      && (d.live ==>
            d == c.(sent := c.sent + data, wire := c.wire + data[..n], queue := c.queue + data[n..],
                    max := if |c.queue| + |data| - n > c.max then PageAbove(|c.queue| + |data| - n) else c.max,
                    writing := waits, interest := if waits then Write else c.interest))
  {
    var n := Taken(c.writing, |data|, io);
    PageIsAlloc(|c.queue| + |data| - n);
    assert c.queue + data[|data|..] == c.queue && data[..0] == "" && data[0..] == data;
  }

  /** The same for a response: its text, and then its data if there is any. */
  predicate Goes(writing: bool, buffered: nat, r: Response, io1: Io, io2: Io) {
    var n := Taken(writing, |r.text|, io1);
    && Accepts(writing, buffered, |r.text|, io1)
    && (r.extra != "" ==> Accepts(writing || n < |r.text|, buffered + |r.text| - n, |r.extra|, io2))
  }

  /** The socket takes all of it at once. */
  predicate AllTaken(r: Response, io1: Io, io2: Io) {
    io1.write >= |r.text| && (r.extra != "" ==> io2.write >= |r.extra|)
  }

  lemma CompileExactly(c: Conn, r: Response, io1: Io, io2: Io)
    requires c.live && LiveOk(c)
    ensures
      var d := Compile(c, r, io1, io2);
      && (d.live <==> Goes(c.writing, |c.queue|, r, io1, io2))
      && (d.live ==>
            d == c.(sent := d.sent, wire := d.wire, queue := d.queue, max := d.max,
                    writing := d.writing, interest := d.interest)
            && (d.writing <==> c.writing || !AllTaken(r, io1, io2)))
  {
    hide Send, LiveOk, SendsFrom;
    SendExactly(c, r.text, io1);
    SendKeeps(c, r.text, io1);
    var d := Send(c, r.text, io1);
    if d.live && r.extra != "" {
      SendExactly(d, r.extra, io2);
    }
  }

  lemma SendKeeps(c: Conn, data: string, io: Io)
    requires c.live && LiveOk(c)
    ensures Send(c, data, io).live ==> LiveOk(Send(c, data, io))
  {
    hide LiveOk, Send, Prefix, Grows;
    SendOk(c, data, io);
  }

  /** An answer ends the connection: its response does not go on, or nothing is left to send or to wait for. */
  predicate AnswerEnds(c: Conn, a: Answer, io1: Io, io2: Io) {
    var delay := if a.delay.Some? then a.delay.value else c.delay;
    || (a.response.Some? && !Goes(c.writing, |c.queue|, a.response.value, io1, io2))
    || (delay == 0 && !c.writing && (a.response.Some? ==> AllTaken(a.response.value, io1, io2)))
  }

  lemma AnswerExactly(c: Conn, a: Answer, io1: Io, io2: Io)
    requires c.live && LiveOk(c)
    ensures Respond(c, a, io1, io2).live <==> !AnswerEnds(c, a, io1, io2)
    ensures Deliver(c, a, io1, io2).0.live <==> !AnswerEnds(c, a, io1, io2)
    ensures
      var d := Respond(c, a, io1, io2);
      d.live ==> !d.reading && d.lines == [] && d.served == c.served + 1
                 && d.delay == if a.delay.Some? then a.delay.value else c.delay
    ensures
      var d := Deliver(c, a, io1, io2).0;
      d.live ==> d.reading == c.reading && d.lines == c.lines && d.served == c.served
                 && d.delay == if a.delay.Some? then a.delay.value else c.delay
    ensures Deliver(c, a, io1, io2).1 <==>
              (a.response.Some? ==> Goes(c.writing, |c.queue|, a.response.value, io1, io2))
  {
    hide Compile, Goes, AllTaken;
    if a.response.Some? {
      CompileExactly(Delayed(c, a), a.response.value, io1, io2);
    }
  }

  function Total(results: seq<int>): int {
    if results == [] then 0 else results[0] + Total(results[1..])
  }

  predicate AllPositive(results: seq<int>) {
    forall i | 0 <= i < |results| :: results[i] > 0
  }

  lemma WroteTwice(c: Conn, a: nat, b: nat)
    requires c.cur + a + b <= |c.queue|
    ensures Wrote(Wrote(c, a), b) == Wrote(c, a + b)
    ensures Wrote(c, 0) == c
  {
    assert c.queue[c.cur..c.cur + a] + c.queue[c.cur + a..c.cur + a + b] == c.queue[c.cur..c.cur + a + b];
  }

  lemma TakeFirst(results: seq<int>, k: nat)
    requires 0 < k <= |results|
    ensures results[..k][0] == results[0] && results[..k][1..] == results[1..][..k - 1]
    ensures AllPositive(results[..k]) ==> results[0] > 0 && AllPositive(results[1..][..k - 1])
    ensures Total(results[..k]) == results[0] + Total(results[1..][..k - 1])
  {
    assert results[..k][1..] == results[1..][..k - 1];
  }

  lemma {:induction false} TotalPositive(results: seq<int>)
    requires AllPositive(results)
    ensures Total(results) >= 0 && (results != [] ==> Total(results) > 0)
  {
    if results != [] {
      TotalPositive(results[1..]);
    }
  }

  /** What one turn of the loop comes to. */
  lemma DrainStep(c: Conn, results: seq<int>, ok: bool)
    ensures c.cur >= |c.queue| ==> Drain(c, results, ok) == Drain(c, [], ok)
    ensures c.cur < |c.queue| && results == [] ==> Drain(c, results, ok) == c
    ensures c.cur < |c.queue| && results != [] ==>
              var w := WriteResult(results[0], |c.queue| - c.cur);
              Drain(c, results, ok) ==
                if w == -1 then Free(c) else if w == 0 then c else Drain(Wrote(c, w), results[1..], ok)
  {
  }

  /**
   Positive results that do not empty the buffer move on by their sum; then 0 ends the event, and an
   error the client.
   */
  lemma {:induction false} DrainStops(c: Conn, results: seq<int>, ok: bool, k: nat)
    requires c.live && c.cur <= |c.queue| && k <= |results| && AllPositive(results[..k])
    requires Total(results[..k]) < |c.queue| - c.cur
    ensures Total(results[..k]) >= 0
    ensures k == |results| || results[k] == 0 ==> Drain(c, results, ok) == Wrote(c, Total(results[..k]))
    ensures k < |results| && results[k] < 0 ==> Drain(c, results, ok) == Free(Wrote(c, Total(results[..k])))
    decreases k
  {
    hide Drain;
    TotalPositive(results[..k]);
    DrainStep(c, results, ok);
    if k == 0 {
      WroteTwice(c, 0, 0);
    } else {
      TakeFirst(results, k);
      TotalPositive(results[1..][..k - 1]);
      DrainStops(Wrote(c, results[0]), results[1..], ok, k - 1);
      WroteTwice(c, results[0], Total(results[1..][..k - 1]));
    }
  }

  /**
   Positive results that add up to what is buffered put all of it on the wire; then the client reads
   again, or ends.
   */
  lemma {:induction false} DrainEmpties(c: Conn, results: seq<int>, ok: bool, k: nat)
    requires c.live && c.cur <= |c.queue| && c.interest == Write && k <= |results| && AllPositive(results[..k])
    requires Total(results[..k]) >= |c.queue| - c.cur
    ensures
      var d := c.(cur := 0, queue := "", writing := false, wire := c.wire + c.queue[c.cur..]);
      Drain(c, results, ok) == if c.delay == 0 || !ok then Free(d) else d.(interest := Read)
    decreases k
  {
    hide Drain;
    DrainStep(c, results, ok);
    if c.cur == |c.queue| {
      DrainEmpty(c, ok);
    } else if k > 0 {
      TakeFirst(results, k);
      var need := |c.queue| - c.cur;
      var w := if results[0] <= need then results[0] else need;
      DrainEmpties(Wrote(c, w), results[1..], ok, if w == need then 0 else k - 1);
      WireMore(c, w);
    }
  }

  lemma DrainEmpty(c: Conn, ok: bool)
    requires c.live && c.cur == |c.queue| && c.interest == Write
    ensures
      var d := c.(cur := 0, queue := "", writing := false, wire := c.wire + c.queue[c.cur..]);
      Drain(c, [], ok) == if c.delay == 0 || !ok then Free(d) else d.(interest := Read)
  {
    assert c.wire + c.queue[c.cur..] == c.wire;
  }

  lemma WireMore(c: Conn, w: nat)
    requires c.cur + w <= |c.queue|
    ensures Wrote(c, w).wire + c.queue[c.cur + w..] == c.wire + c.queue[c.cur..]
  {
    assert c.queue[c.cur..c.cur + w] + c.queue[c.cur + w..] == c.queue[c.cur..];
  }

  /** The write loop ends the connection: an error before the buffer is empty, or nothing to wait for behind it. */
  predicate DrainEnds(c: Conn, results: seq<int>, ok: bool) {
    var need := |c.queue| - c.cur;
    exists k: nat :: k <= |results| && AllPositive(results[..k])
      && if Total(results[..k]) >= need then c.delay == 0 || !ok else k < |results| && results[k] < 0
  }

  /** The results up to which the write loop runs: they empty the buffer, or the next is not positive. */
  lemma {:induction false} DrainsUpTo(results: seq<int>, need: int) returns (k: nat)
    ensures k <= |results| && AllPositive(results[..k])
    ensures Total(results[..k]) >= need || k == |results| || results[k] <= 0
    decreases |results|
  {
    k := 0;
    if 0 < need && results != [] && results[0] > 0 {
      var j := DrainsUpTo(results[1..], need - results[0]);
      k := j + 1;
      TakeFirst(results, k);
      assert results[..k] == [results[0]] + results[1..][..j];
    }
  }

  lemma DrainExactly(c: Conn, results: seq<int>, ok: bool)
    requires c.live && c.cur <= |c.queue| && c.interest == Write
    ensures Drain(c, results, ok).live <==> !DrainEnds(c, results, ok)
  {
    hide Drain, Total, AllPositive;
    var need := |c.queue| - c.cur;
    if DrainEnds(c, results, ok) {
      var k: nat :| k <= |results| && AllPositive(results[..k])
        && if Total(results[..k]) >= need then c.delay == 0 || !ok else k < |results| && results[k] < 0;
      if Total(results[..k]) >= need {
        DrainEmpties(c, results, ok, k);
      } else {
        DrainStops(c, results, ok, k);
      }
    } else {
      var k := DrainsUpTo(results, need);
      if Total(results[..k]) >= need {
        DrainEmpties(c, results, ok, k);
      } else {
        DrainStops(c, results, ok, k);
      }
    }
  }

  /** Event `e` is one that ends connection `c`. */
  predicate Ends(c: Conn, e: Event, kind: string -> LineKind) {
    match e
    case Hangup => true
    case Readable(arrived, closed, callback, io1, io2) =>
      var s := c.partial + arrived;
      var lines := c.lines + CStrings(Scan(s).lines);
      c.interest == Read
      && (closed || |s| >= 2048
          || (Scan(s).complete && (MethodOf(lines, kind) != GetLine || AnswerEnds(c, callback(lines), io1, io2))))
    case Writable(results, ok) => c.interest == Write && DrainEnds(c, results, ok)
    case Video(answerTo, io1, io2) =>
      c.delay != 0 && !c.writing && !c.reading && AnswerEnds(c, answerTo(c.delay), io1, io2)
  }

  /**
   A live connection is freed by an event exactly for one of these reasons: a hangup; the end of the
   stream; a request that overflows its buffer or is not a GET; a send or registration that fails, or
   a response that does not fit; or nothing left to send or to wait for.
   */
  lemma FreedExactly(c: Conn, e: Event, kind: string -> LineKind)
    requires c.live && Inv(c)
    ensures !Step(c, e, kind).live <==> Ends(c, e, kind)
  {
    hide Drain, DrainEnds, AnswerEnds, Respond, Deliver, Scan, MethodOf;
    match e
    case Hangup =>
    case Readable(arrived, closed, callback, io1, io2) =>
      var s := c.partial + arrived;
      if |s| < MAX_STRING && !closed && Scan(s).complete {
        var d := Parsed(c, s);
        ParsedOk(c, s);
        AnswerExactly(d, callback(d.lines), io1, io2);
        SameEnd(c, d, callback(d.lines), io1, io2);
      }
    case Writable(results, ok) =>
      if c.interest == Write {
        DrainExactly(c, results, ok);
      }
    case Video(answerTo, io1, io2) => AnswerExactly(c, answerTo(c.delay), io1, io2);
  }

  lemma ParsedOk(c: Conn, s: string)
    requires c.live && LiveOk(c) && |s| < MAX_STRING
    ensures LiveOk(Parsed(c, s))
  {
    ScanSize(s);
  }

  lemma SameEnd(c: Conn, d: Conn, a: Answer, io1: Io, io2: Io)
    requires c.delay == d.delay && c.writing == d.writing && c.queue == d.queue
    ensures AnswerEnds(c, a, io1, io2) <==> AnswerEnds(d, a, io1, io2)
  {
  }

  lemma RespondOk(c: Conn, a: Answer, io1: Io, io2: Io)
    requires c.live && LiveOk(c)
    ensures Inv(Respond(c, a, io1, io2)) && Grows(c, Respond(c, a, io1, io2))
  {
    var d := Delayed(c, a);
    if a.response.Some? {
      CompileOk(d, a.response.value, io1, io2);
    }
  }

  lemma DeliverOk(c: Conn, a: Answer, io1: Io, io2: Io)
    requires Inv(c) && Waiting(c)
    ensures Inv(Deliver(c, a, io1, io2).0) && Grows(c, Deliver(c, a, io1, io2).0)
  {
    var d := Delayed(c, a);
    if a.response.Some? {
      CompileOk(d, a.response.value, io1, io2);
    }
  }

  lemma OnReadOk(c: Conn, arrived: string, closed: bool, kind: string -> LineKind,
                 callback: seq<string> -> Answer, io1: Io, io2: Io)
    requires Inv(c) && c.live && c.interest == Read
    ensures
      var d := OnRead(c, arrived, closed, kind, callback, io1, io2);
      Inv(d) && Grows(c, d)
  {
    hide Respond;
    var s := c.partial + arrived;
    if |s| < MAX_STRING && !closed {
      var h := Scan(s);
      ScanSize(s);
      var d := c.(lines := c.lines + CStrings(h.lines), partial := h.rest);
      RespondOk(d, callback(d.lines), io1, io2);
    }
  }

  lemma StepInv(c: Conn, e: Event, kind: string -> LineKind)
    requires Inv(c)
    ensures Inv(Step(c, e, kind)) && Grows(c, Step(c, e, kind))
  {
    hide OnRead, Deliver, Drain;
    if c.live {
      match e
      case Readable(arrived, closed, callback, io1, io2) =>
        if c.interest == Read {
          OnReadOk(c, arrived, closed, kind, callback, io1, io2);
        }
      case Writable(results, ok) =>
        if c.interest == Write {
          DrainOk(c, results, ok);
        }
      case Hangup =>
      case Video(answerTo, io1, io2) =>
        if Waiting(c) {
          DeliverOk(c, answerTo(c.delay), io1, io2);
        }
    }
  }

  lemma {:induction false} RunFromInv(c: Conn, es: seq<Event>, kind: string -> LineKind)
    requires Inv(c)
    ensures Inv(RunFrom(c, es, kind)) && Grows(c, RunFrom(c, es, kind))
  {
    hide Inv, Step, Prefix;
    GrowsSelf(c);
    if es != [] {
      var d := RunFrom(c, es[..|es| - 1], kind);
      RunFromInv(c, es[..|es| - 1], kind);
      StepInv(d, es[|es| - 1], kind);
      var e := Step(d, es[|es| - 1], kind);
      PrefixTrans(c.wire, d.wire, e.wire);
      PrefixTrans(c.sent, d.sent, e.sent);
    }
  }

  lemma GrowsSelf(c: Conn)
    ensures Grows(c, c)
  {
  }

  /**
   Over every run of a connection: while it lives, what is on the wire followed by what is still
   buffered is everything sent, in order; once it is freed, the wire has a prefix of that; it is
   registered for writing exactly while it has something to write; the buffer bounds hold; and a
   connection that has answered a request and is not reading another is writing or waits for frames.
   */
  lemma RunInv(es: seq<Event>, kind: string -> LineKind)
    ensures Inv(Run(es, kind))
  {
    RunFromInv(NewConn(), es, kind);
  }

  // ----- requests, however they arrive

  /** Waiting for the first character of a request. */
  predicate Fresh(c: Conn) {
    c.live && c.interest == Read && c.partial == "" && c.lines == []
  }

  /** `es` are readable events with these arrivals, the stream still open. */
  predicate Arrivals(es: seq<Event>, parts: seq<string>) {
    |es| == |parts| && forall i | 0 <= i < |es| :: es[i].Readable? && !es[i].closed && es[i].arrived == parts[i]
  }

  lemma CStringsConcat(a: seq<string>, b: seq<string>)
    ensures CStrings(a + b) == CStrings(a) + CStrings(b)
  {
  }

  /**
   Until a request is complete, the connection has handed on the lines of all that has arrived,
   and keeps the unfinished one.
   */
  lemma {:induction false} RequestPending(c: Conn, es: seq<Event>, parts: seq<string>, kind: string -> LineKind)
    requires Fresh(c) && Arrivals(es, parts)
    requires !ReadAll(parts).overflow && !ReadAll(parts).header.complete
    ensures
      var h := Scan(Concat(parts));
      RunFrom(c, es, kind) ==
        c.(lines := CStrings(h.lines), partial := h.rest, reading := if es == [] then c.reading else true)
  {
    ChunkIndependence(parts);
    if es != [] {
      var n := |es| - 1;
      RequestPending(c, es[..n], parts[..n], kind);
      ChunkIndependence(parts[..n]);
      var before := Scan(Concat(parts[..n]));
      CStringsConcat(before.lines, Scan(before.rest + parts[n]).lines);
    }
  }

  lemma LastPart(parts: seq<string>)
    requires parts != [] && !ReadAll(parts).overflow && ReadAll(parts).header.complete
    requires !ReadAll(parts[..|parts| - 1]).header.complete
    ensures
      var n := |parts| - 1;
      var before := Scan(Concat(parts[..n]));
      var h := Scan(before.rest + parts[n]);
      && !ReadAll(parts[..n]).overflow
      && |before.rest + parts[n]| < MAX_STRING && h.complete
      && Scan(Concat(parts)).lines == before.lines + h.lines
  {
    hide Scan;
    ChunkIndependence(parts);
    ChunkIndependence(parts[..|parts| - 1]);
  }

  lemma StepCompletes(c: Conn, e: Event, kind: string -> LineKind)
    requires c.live && c.interest == Read && e.Readable? && !e.closed
    requires |c.partial + e.arrived| < MAX_STRING && Scan(c.partial + e.arrived).complete
    ensures
      var lines := c.lines + CStrings(Scan(c.partial + e.arrived).lines);
      var d := c.(lines := lines, partial := "");
      Step(c, e, kind) ==
        if MethodOf(lines, kind) != GetLine then Free(d) else Respond(d, e.callback(lines), e.io1, e.io2)
  {
    hide Scan, MethodOf, Respond;
    ScanSize(c.partial + e.arrived);
  }

  /**
   When the last arrival completes the request, it is answered if it is a GET, and the connection
   freed otherwise; what decides and what is answered are the lines of the whole stream up to the
   first empty line, however it was divided.
   */
  lemma RequestComplete(c: Conn, es: seq<Event>, parts: seq<string>, kind: string -> LineKind)
    requires Fresh(c) && Arrivals(es, parts) && es != []
    requires !ReadAll(parts).overflow && ReadAll(parts).header.complete
    requires !ReadAll(parts[..|parts| - 1]).header.complete
    ensures
      var lines := CStrings(Scan(Concat(parts)).lines);
      var d := c.(lines := lines, partial := "", reading := if |es| == 1 then c.reading else true);
      var e := es[|es| - 1];
      RunFrom(c, es, kind) ==
        if MethodOf(lines, kind) != GetLine then Free(d) else Respond(d, e.callback(lines), e.io1, e.io2)
  {
    hide Step, Scan, MethodOf, Respond, ReadAll, Free;
    var n := |es| - 1;
    LastPart(parts);
    RequestPending(c, es[..n], parts[..n], kind);
    var before := Scan(Concat(parts[..n]));
    CStringsConcat(before.lines, Scan(before.rest + parts[n]).lines);
    StepCompletes(RunFrom(c, es[..n], kind), es[n], kind);
  }

  // ----- responses on the wire

  function Whole(a: Answer): string {
    if a.response.Some? then a.response.value.text + a.response.value.extra else ""
  }

  /** Whether readable event `e` completes a GET request. */
  predicate Answers(c: Conn, e: Event, kind: string -> LineKind)
    requires e.Readable?
  {
    var s := c.partial + e.arrived;
    && c.interest == Read && |s| < MAX_STRING && !e.closed && Scan(s).complete
    && MethodOf(c.lines + CStrings(Scan(s).lines), kind) == GetLine
  }

  /** The response, whole, that an event makes the server send. */
  function Offered(c: Conn, e: Event, kind: string -> LineKind): string {
    if c.live && e.Readable? && Answers(c, e, kind) then
      Whole(e.callback(c.lines + CStrings(Scan(c.partial + e.arrived).lines)))
    else if e.Video? && Waiting(c) then Whole(e.answerTo(c.delay))
    else ""
  }

  function OfferedAll(c: Conn, es: seq<Event>, kind: string -> LineKind): string {
    if es == [] then ""
    else
      OfferedAll(c, es[..|es| - 1], kind) + Offered(RunFrom(c, es[..|es| - 1], kind), es[|es| - 1], kind)
  }

  /** `d` was sent `data` after `c`, all of it if it lives. */
  predicate SentBy(c: Conn, d: Conn, data: string) {
    (d.live ==> d.sent == c.sent + data) && Prefix(d.sent, c.sent + data)
  }

  lemma CompileSent(c: Conn, r: Response, io1: Io, io2: Io)
    requires c.live && LiveOk(c)
    ensures SentBy(c, Compile(c, r, io1, io2), r.text + r.extra)
  {
    hide LiveOk, Send;
    SendOk(c, r.text, io1);
    CompileOk(c, r, io1, io2);
    var d := Send(c, r.text, io1);
    if d.live && r.extra != "" {
      SendOk(d, r.extra, io2);
      assert c.sent + r.text + r.extra == c.sent + (r.text + r.extra);
    }
  }

  lemma AnswerSent(c: Conn, a: Answer, io1: Io, io2: Io)
    requires c.live && LiveOk(c)
    ensures SentBy(c, Respond(c, a, io1, io2), Whole(a))
    ensures SentBy(c, Deliver(c, a, io1, io2).0, Whole(a))
  {
    hide Compile;
    var d := Delayed(c, a);
    if a.response.Some? {
      CompileSent(d, a.response.value, io1, io2);
    }
  }

  lemma {:induction false} DrainSent(c: Conn, results: seq<int>, ok: bool)
    ensures Drain(c, results, ok).sent == c.sent
    decreases |results|
  {
    if c.cur < |c.queue| && results != [] {
      var w := WriteResult(results[0], |c.queue| - c.cur);
      if w > 0 {
        DrainSent(Wrote(c, w), results[1..], ok);
      }
    }
  }

  lemma StepSent(c: Conn, e: Event, kind: string -> LineKind)
    requires Inv(c)
    ensures SentBy(c, Step(c, e, kind), Offered(c, e, kind))
  {
    hide Respond, Deliver, Drain;
    if c.live {
      match e
      case Readable(arrived, closed, callback, io1, io2) =>
        var s := c.partial + arrived;
        if Answers(c, e, kind) {
          ScanSize(s);
          var d := c.(lines := c.lines + CStrings(Scan(s).lines), partial := Scan(s).rest);
          AnswerSent(d, callback(d.lines), io1, io2);
        }
      case Writable(results, ok) =>
        DrainSent(c, results, ok);
      case Hangup =>
      case Video(answerTo, io1, io2) =>
        AnswerSent(c, answerTo(c.delay), io1, io2);
    }
  }

  /**
   Over every run of a connection, whatever the socket does: while it lives, the wire and the
   buffer together hold every response made for it, whole and in order; when it is gone, the wire
   holds a prefix of them.
   */
  lemma {:induction false} ResponsesInOrder(es: seq<Event>, kind: string -> LineKind)
    ensures Run(es, kind).live ==>
              Run(es, kind).cur <= |Run(es, kind).queue|
              && Run(es, kind).wire + Run(es, kind).queue[Run(es, kind).cur..] == OfferedAll(NewConn(), es, kind)
    ensures Prefix(Run(es, kind).wire, OfferedAll(NewConn(), es, kind))
  {
    hide Run, OfferedAll;
    RunSent(es, kind);
    RunInv(es, kind);
    var c, all := Run(es, kind), OfferedAll(NewConn(), es, kind);
    assert NewConn().sent + all == all;
    PrefixTrans(c.wire, c.sent, all);
  }

  lemma {:induction false} RunSent(es: seq<Event>, kind: string -> LineKind)
    ensures SentBy(NewConn(), Run(es, kind), OfferedAll(NewConn(), es, kind))
  {
    hide Step, Offered, Inv;
    if es != [] {
      var n := |es| - 1;
      RunSent(es[..n], kind);
      RunInv(es[..n], kind);
      var c := Run(es[..n], kind);
      var d := Step(c, es[n], kind);
      var before, more := OfferedAll(NewConn(), es[..n], kind), Offered(c, es[n], kind);
      StepSent(c, es[n], kind);
      if !c.live {
        DeadOffers(c, es[n], kind);
      }
      SentTwice(c, d, before, more);
    }
  }

  lemma DeadOffers(c: Conn, e: Event, kind: string -> LineKind)
    requires !c.live
    ensures Offered(c, e, kind) == "" && Step(c, e, kind) == c
  {
  }

  lemma SentTwice(c: Conn, d: Conn, before: string, more: string)
    requires SentBy(NewConn(), c, before) && SentBy(c, d, more)
    requires !c.live ==> d == c && more == ""
    ensures SentBy(NewConn(), d, before + more)
  {
    assert "" + before == before && "" + (before + more) == before + more;
    if !c.live {
      assert before + "" == before;
    }
  }
}
