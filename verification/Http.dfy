/**
 The connections of src/http.c in place: a client with its write buffer, request buffer and
 flags, and the server that reads, answers, writes and frees them. Every operation is proved to
 take the step of HttpSpec, and to drop a client from the table exactly when it frees it.
 */
module Http {
  import opened Seqs
  import opened HeaderSpec
  import opened HttpSpec
  import opened Pevents
  import opened Texts
  import opened Clients
  import opened FeedSpec

  // ----- all clients together

  ghost function Members(cs: seq<Client>): set<Client> {
    set c | c in cs
  }

  ghost function Objects(cs: seq<Client>): set<object>
    reads Members(cs)`buf
  {
    set i, o | 0 <= i < |cs| && o in cs[i].Repr() :: o
  }

  /** No two clients share memory. */
  ghost predicate Apart(cs: seq<Client>)
    reads Members(cs)`buf
  {
    forall a, b | a in cs && b in cs && a != b :: a.Repr() !! b.Repr()
  }

  /** From `k` on, the clients' memory is among `objs`. */
  ghost predicate Within(cs: seq<Client>, k: nat, objs: set<object>)
    reads Members(cs)`buf
  {
    forall i | k <= i < |cs| :: cs[i].Repr() <= objs
  }

  /** `client` is connection `c`, between events if it is live. */
  ghost predicate Is(client: Client, c: Conn, kind: string -> LineKind)
    reads client, client.Repr()
  {
    client.Shape() && client.Abs() == c && (client.live ==> client.Settled(kind))
  }

  ghost predicate Shows(cs: seq<Client>, conns: seq<Conn>, kind: string -> LineKind)
    reads Members(cs), Objects(cs)
  {
    |cs| == |conns| && forall i | 0 <= i < |cs| :: Is(cs[i], conns[i], kind)
  }

  /** The clients that are still there. */
  ghost function Remaining(cs: seq<Client>, conns: seq<Conn>): seq<Client>
    requires |cs| == |conns|
  {
    if cs == [] then []
    else Remaining(cs[..|cs| - 1], conns[..|cs| - 1]) + if conns[|cs| - 1].live then [cs[|cs| - 1]] else []
  }

  class Server {
    const kind: string -> LineKind   // what the line parser recognises
    const clients: ClientTable
    ghost var conns: seq<Conn>

    constructor (kind: string -> LineKind, clients: ClientTable)
      requires clients.Valid() && clients.members == []
      ensures this.kind == kind && this.clients == clients && conns == [] && Valid()
    {
      this.kind, this.clients, conns := kind, clients, [];
    }

    /** The client's memory is not the table's. */
    ghost predicate Clear(client: Client)
      reads clients`footprint, client`buf
    {
      client.Repr() !! clients.footprint && (clients as object) !in client.Repr()
    }

    /** The client is in the table and live. */
    ghost predicate Ready(client: Client)
      reads clients, clients.footprint, client, client.pevent
    {
      clients.Valid() && client in clients.members && client.live && client.Shape() && Clear(client)
    }

    /** The table after an operation on `client`: as before, or without it if it was freed. */
    ghost predicate Table(before: seq<Client>, footprint: set<object>, client: Client)
      reads clients, clients.footprint, client
    {
      && clients.Valid() && clients.footprint == footprint
      && clients.members == if client.live then before else Remove(before, client)
    }

    /** http_client_free: only a client that is in the table; it leaves the table, and its descriptor is closed. */
    method Free(client: Client)
      requires Ready(client)
      modifies clients, clients.footprint
      modifies client.pevent, client`buf, client`size, client`max, client`cur, client`live
      ensures client.Shape() && client.Abs() == HttpSpec.Free(old(client.Abs()))
      ensures clients.Valid() && clients.footprint == old(clients.footprint)
      ensures clients.members == Remove(old(clients.members), client) && client !in clients.members
      ensures !client.live && client.buf == null && !client.pevent.open && client.pevent.kernel == Idle
    {
      hide ClientTable.Valid, Remove;
      clients.Delete(client);
      var deleted: bool := *;
      client.pevent.Free(deleted);
      client.buf := null;
      client.size, client.max, client.cur := 0, 0, 0;
      client.live := false;
    }

    /** The part of http_client_send that buffers what the socket did not take. */
    method Enqueue(client: Client, rest: string, io: Io) returns (ret: int)
      requires Ready(client) && rest != ""
      modifies clients, clients.footprint
      modifies client`buf, client`max, client`size, client`cur, client`writing, client.pevent, client`live, client.buf
      ensures client.Shape() && client.Abs() == HttpSpec.Enqueue(old(client.Abs()), rest, io)
      ensures ret == if client.live then 0 else -1
      ensures Table(old(clients.members), old(clients.footprint), client)
      ensures client.buf == old(client.buf) || client.buf == null || fresh(client.buf)
    {
      hide Remove, ClientTable.Valid, Client.Abs, Client.Shape, Client.Queue;
      client.Seen();
      var need := client.size + |rest|;
      if need > MAX_SEND {
        Free(client);
        return -1;
      }
      client.Store(rest);
      client.Seen();
      ret := 0;
      if !client.writing {
        client.WriteLater();
        ret := Await(client, Write, io.ok);
      }
    }

    /** Register for `want`; a client that cannot be registered is freed. */
    method Await(client: Client, want: Interest, ok: bool) returns (ret: int)
      requires Ready(client) && want != Idle
      modifies clients, clients.footprint
      modifies client.pevent, client`buf, client`size, client`max, client`cur, client`live
      ensures client.Shape() && Table(old(clients.members), old(clients.footprint), client)
      ensures ret == (if client.live then 0 else -1) && (client.buf == old(client.buf) || client.buf == null)
      ensures
        match PeventSet(old(client.pevent.state), want, ok)
        case None => client.Abs() == HttpSpec.Free(old(client.Abs()))
        case Some(state) => client.Abs() == old(client.Abs()).(interest := state)
    {
      hide Remove, ClientTable.Valid;
      ret := client.pevent.Change(want, ok);
      if ret == -1 {
        Free(client);
      }
    }

    /** http_client_send. */
    method Send(client: Client, data: string, io: Io) returns (ret: int)
      requires Ready(client)
      modifies clients, clients.footprint
      modifies client`buf, client`max, client`size, client`cur, client`writing, client.pevent, client`live, client.buf
      modifies client`sent, client`wire
      ensures client.Shape() && client.Abs() == HttpSpec.Send(old(client.Abs()), data, io)
      ensures ret == if client.live then 0 else -1
      ensures Table(old(clients.members), old(clients.footprint), client)
      ensures client.buf == old(client.buf) || client.buf == null || fresh(client.buf)
    {
      hide Remove, ClientTable.Valid, HttpSpec.Enqueue;
      client.sent := client.sent + data;
      var writeBytes := 0;
      if !client.writing {
        writeBytes := WriteResult(io.write, |data|);
        if writeBytes == -1 {
          Free(client);
          return -1;
        }
      }
      client.wire := client.wire + data[..writeBytes];
      ret := 0;
      if writeBytes < |data| {
        ret := Enqueue(client, data[writeBytes..], io);
      }
    }

    /** The sends of http_response_compile. */
    method Compile(client: Client, r: Response, io1: Io, io2: Io) returns (ret: int)
      requires Ready(client)
      modifies clients, clients.footprint
      modifies client`buf, client`max, client`size, client`cur, client`writing, client.pevent, client`live, client.buf
      modifies client`sent, client`wire
      ensures client.Shape() && client.Abs() == HttpSpec.Compile(old(client.Abs()), r, io1, io2)
      ensures ret == if client.live then 0 else -1
      ensures Table(old(clients.members), old(clients.footprint), client)
      ensures client.buf == old(client.buf) || client.buf == null || fresh(client.buf)
    {
      hide Remove, ClientTable.Valid, HttpSpec.Send;
      ret := Send(client, r.text, io1);
      if ret != -1 && r.extra != "" {
        ret := Send(client, r.extra, io2);
      }
    }

    // ----- writable

    /** The write that empties the buffer, or the last of them, is done: read again, or close. */
    method Flushed(client: Client, ok: bool)
      requires Ready(client) && client.cur >= client.size
      modifies clients, clients.footprint
      modifies client`buf, client`max, client`size, client`cur, client`writing, client.pevent, client`live
      ensures client.Shape() && client.Abs() == Drain(old(client.Abs()), [], ok)
      ensures Table(old(clients.members), old(clients.footprint), client)
      ensures client.buf == old(client.buf) || client.buf == null
    {
      hide Remove, ClientTable.Valid, Client.Abs, Client.Shape, Client.Queue;
      client.Seen();
      client.Emptied();
      client.Seen();
      if client.delayPtr == 0 {
        Free(client);
        return;
      }
      var ret := Await(client, Read, ok);
    }

    /** on_write. */
    method OnWrite(client: Client, results: seq<int>, ok: bool)
      requires Ready(client)
      modifies clients, clients.footprint
      modifies client`buf, client`max, client`size, client`cur, client`writing, client.pevent, client`live, client`wire
      ensures client.Shape() && client.Abs() == HttpSpec.OnWrite(old(client.Abs()), results, ok)
      ensures Table(old(clients.members), old(clients.footprint), client)
      ensures client.buf == old(client.buf) || client.buf == null
    {
      hide Remove, ClientTable.Valid, Drain, Client.Abs, Client.Shape, Client.Queue;
      client.Seen();
      if !client.writing {
        Free(client);
        return;
      }
      var k := 0;
      ghost var c0 := client.Abs();
      while true
        invariant k <= |results| && Ready(client) && client.buf == old(client.buf)
        invariant clients.members == old(clients.members) && clients.footprint == old(clients.footprint)
        invariant Drain(client.Abs(), results[k..], ok) == Drain(c0, results, ok)
        decreases |results| - k
      {
        client.Seen();
        var writeSize := client.size - client.cur;
        DrainStep(client.Abs(), results[k..], ok);
        if writeSize <= 0 {
          Flushed(client, ok);
          return;
        }
        var writeBytes := if k < |results| then WriteResult(results[k], writeSize) else 0;
        if writeBytes == -1 {
          Free(client);
          return;
        } else if writeBytes == 0 {
          return;
        }
        assert results[k..][1..] == results[k + 1..];
        client.Advance(writeBytes);
        k := k + 1;
      }
    }

    // ----- readable

    /**
     pevent_read, when `left` characters have arrived and are not read: -1 at the end, 0 for EAGAIN,
     or at least one.
     */
    static function ReadResult(left: nat, closed: bool, want: nat, room: nat): (n: int)
      requires room > 0
      ensures n <= left && n <= room
      ensures left > 0 ==> n > 0
      ensures left == 0 ==> n == if closed then -1 else 0
    {
      if left == 0 then (if closed then -1 else 0)
      else
        var most := if left <= room then left else room;
        if want == 0 then 1 else if want <= most then want else most
    }

    /** `n` characters arrive behind what is in the request buffer. */
    method Receive(client: Client, chunk: string)
      requires client.Shape() && client.requestBufCur + |chunk| <= MAX_STRING
      modifies client`requestBufCur, client.requestBuf
      ensures client.Shape() && client.Partial() == old(client.Partial()) + chunk
    {
      var base := client.requestBufCur;
      var a := client.requestBuf;
      var i := 0;
      while i < |chunk|
        invariant i <= |chunk| && unchanged(client)
        invariant a[..base + i] == old(a[..base]) + chunk[..i]
        modifies a
      {
        a[base + i] := chunk[i];
        assert a[..base + i + 1] == a[..base + i] + [chunk[i]];
        assert chunk[..i + 1] == chunk[..i] + [chunk[i]];
        i := i + 1;
      }
      assert chunk[..i] == chunk;
      client.requestBufCur := base + |chunk|;
    }

    /** The read loop of on_read: it ends whatever sizes the reads have, and its outcome does not depend on them. */
    method ReadLoop(client: Client, arrived: string, closed: bool, sizes: nat -> nat) returns (gone: bool)
      requires Ready(client)
      modifies clients, clients.footprint
      modifies client.pevent, client`buf, client`size, client`max, client`cur, client`live
      modifies client`requestBufCur, client.requestBuf
      ensures client.Shape() && Table(old(clients.members), old(clients.footprint), client) && gone == !client.live
      ensures client.buf == old(client.buf) || client.buf == null
      ensures gone <==> |old(client.Partial())| + |arrived| >= MAX_STRING || closed
      ensures gone ==> client.Abs() == HttpSpec.Free(old(client.Abs()))
      ensures !gone ==> client.Abs() == old(client.Abs()).(partial := old(client.Partial()) + arrived)
      ensures !gone ==> client.buf == old(client.buf)
    {
      hide Remove, ClientTable.Valid;
      ghost var partial := client.Partial();
      var got, k := 0, 0;
      while true
        invariant got <= |arrived| && Ready(client) && client.buf == old(client.buf)
        invariant clients.members == old(clients.members) && clients.footprint == old(clients.footprint)
        invariant client.Abs() == old(client.Abs()).(partial := partial + arrived[..got])
        decreases MAX_STRING - client.requestBufCur
      {
        assert client.requestBufCur == |partial| + got;
        if client.requestBufCur >= MAX_STRING {
          Free(client);
          return true;
        }
        var readBytes := ReadResult(|arrived| - got, closed, sizes(k), MAX_STRING - client.requestBufCur);
        if readBytes < 0 {
          Free(client);
          return true;
        }
        if readBytes == 0 {
          assert arrived[..got] == arrived;
          return false;
        }
        assert arrived[..got + readBytes] == arrived[..got] + arrived[got..got + readBytes];
        assert partial + arrived[..got + readBytes] == partial + arrived[..got] + arrived[got..got + readBytes];
        Receive(client, arrived[got..got + readBytes]);
        got, k := got + readBytes, k + 1;
      }
    }

    /** http_request_parse_line, of which only the method matters here. */
    method ParseLine(client: Client, line: string) returns (ret: int)
      modifies client`requestMethod, client`lines
      ensures ret == 0 && client.lines == old(client.lines) + [line]
      ensures old(client.requestMethod) == MethodOf(old(client.lines), kind)
              ==> client.requestMethod == MethodOf(client.lines, kind)
    {
      assert (client.lines + [line])[..|client.lines|] == client.lines;
      if kind(line) == GetLine {
        client.requestMethod := GetLine;
      } else if kind(line) == PostLine {
        client.requestMethod := PostLine;
      }
      client.lines := client.lines + [line];
      ret := 0;
    }

    /** Move what is behind `wrap` to the front. */
    method Compact(client: Client, wrap: nat)
      requires client.Shape() && wrap <= client.requestBufCur
      modifies client`requestBufCur, client.requestBuf
      ensures client.Shape() && client.Partial() == old(client.Partial())[wrap..]
    {
      var n := client.requestBufCur - wrap;
      var a := client.requestBuf;
      client.requestBufCur := n;
      forall k | 0 <= k < n {
        a[k] := a[wrap + k];
      }
      assert a[..n] == old(a[..n + wrap])[wrap..];
    }

    /** The header loop of on_read: hand over the complete lines and keep the unfinished one. */
    method ScanLines(client: Client)
      requires client.Shape() && !client.headerCompile && client.requestMethod == MethodOf(client.lines, kind)
      modifies client`requestBufCur, client`headerCompile, client`requestMethod, client`lines, client.requestBuf
      ensures client.Shape() && client.requestMethod == MethodOf(client.lines, kind)
      ensures
        var h := Scan(old(client.Partial()));
        && client.lines == old(client.lines) + CStrings(h.lines)
        && client.headerCompile == h.complete
        && (if h.complete then client.requestBufCur == 0 else client.Partial() == h.rest)
    {
      hide Scanned, Scan, MethodOf, CString;
      var n := client.requestBufCur;
      var a := client.requestBuf;
      ghost var s := a[..n];
      ghost var done := [];
      var wrapPos, i := 0, 1;
      ScannedNone(s);
      while i < n
        invariant 0 <= wrapPos <= i && client.Shape() && !client.headerCompile && client.requestBufCur == n
        invariant wrapPos <= n && Scanned(s, a[..n], wrapPos, i, done)
        invariant client.lines == old(client.lines) + CStrings(done)
        invariant client.requestMethod == MethodOf(client.lines, kind)
      {
        if a[i] == '\n' && a[i - 1] == '\r' {
          ghost var t := a[..n];
          a[i - 1] := '\0';
          ScannedLine(s, t, wrapPos, i, done, a[..n]);
          if wrapPos == i - 1 {
            client.requestBufCur := 0;
            client.headerCompile := true;
            return;
          }
          LineString(s, a[..], wrapPos, i - 1);
          CStringsConcat(done, [s[wrapPos..i - 1]]);
          done := done + [s[wrapPos..i - 1]];
          var ret := ParseLine(client, CString(a[..], wrapPos));
          wrapPos := i + 1;
        } else {
          ScannedOn(s, a[..n], wrapPos, i, done);
        }
        i := i + 1;
      }
      ScannedAll(s, a[..n], wrapPos, i, done);
      Compact(client, wrapPos);
    }

    /** Do what a callback answered. */
    method DoAnswer(client: Client, a: Answer, io1: Io, io2: Io) returns (ret: int)
      requires Ready(client)
      modifies clients, clients.footprint
      modifies client`buf, client`max, client`size, client`cur, client`writing, client.pevent, client`live, client.buf
      modifies client`sent, client`wire, client`delayPtr
      ensures client.Shape() && client.Abs() == Answered(old(client.Abs()), a, io1, io2)
      ensures ret == if client.live then 0 else -1
      ensures Table(old(clients.members), old(clients.footprint), client)
      ensures client.buf == old(client.buf) || client.buf == null || fresh(client.buf)
    {
      hide Remove, ClientTable.Valid, HttpSpec.Compile;
      if a.delay.Some? {
        client.delayPtr := a.delay.value;
      }
      ret := 0;
      if a.response.Some? {
        ret := Compile(client, a.response.value, io1, io2);
      }
    }

    /** Clear the request, and close the connection if nothing is pending. */
    method Finish(client: Client)
      requires Ready(client)
      modifies clients, clients.footprint
      modifies client.pevent, client`buf, client`size, client`max, client`cur, client`live
      modifies client`headerCompile, client`reading, client`requestMethod, client`lines, client`served
      ensures client.Shape() && client.Abs() == HttpSpec.Finish(old(client.Abs()))
      ensures Table(old(clients.members), old(clients.footprint), client)
      ensures client.buf == old(client.buf) || client.buf == null
      ensures client.live ==> client.Settled(kind)
    {
      hide Remove, ClientTable.Valid, Client.Abs, Client.Shape, Client.Queue, MethodOf;
      client.ClearRequest(kind);
      client.Seen();
      if !client.writing && client.delayPtr == 0 {
        Free(client);
      }
    }

    /** A complete GET request. */
    method Respond(client: Client, a: Answer, io1: Io, io2: Io)
      requires Ready(client)
      modifies clients, clients.footprint, client, client.pevent, client.buf
      ensures client.Shape() && client.Abs() == HttpSpec.Respond(old(client.Abs()), a, io1, io2)
      ensures Table(old(clients.members), old(clients.footprint), client)
      ensures client.buf == old(client.buf) || client.buf == null || fresh(client.buf)
      ensures client.live ==> client.Settled(kind)
    {
      hide Remove, ClientTable.Valid, Answered;
      var ret := DoAnswer(client, a, io1, io2);
      if ret == -1 {
        return;
      }
      Finish(client);
    }

    /** on_read. */
    method OnRead(client: Client, arrived: string, closed: bool, sizes: nat -> nat,
                  callback: seq<string> -> Answer, io1: Io, io2: Io)
      requires Ready(client) && client.Settled(kind)
      modifies clients, clients.footprint, client, client.pevent, client.buf, client.requestBuf
      ensures client.Shape()
      ensures client.Abs() == HttpSpec.OnRead(old(client.Abs()), arrived, closed, kind, callback, io1, io2)
      ensures Table(old(clients.members), old(clients.footprint), client)
      ensures client.buf == old(client.buf) || client.buf == null || fresh(client.buf)
      ensures client.live ==> client.Settled(kind)
    {
      hide Remove, ClientTable.Valid, Scan, MethodOf, HttpSpec.Respond;
      var gone := ReadHeader(client, arrived, closed, sizes);
      if gone {
        return;
      }
      if !client.headerCompile {
        client.reading := true;
        return;
      }
      Completed(client, callback, io1, io2);
    }

    /** The part of on_read that reads and scans. */
    method ReadHeader(client: Client, arrived: string, closed: bool, sizes: nat -> nat) returns (gone: bool)
      requires Ready(client) && client.Settled(kind)
      modifies clients, clients.footprint, client, client.pevent, client.requestBuf
      ensures client.Shape() && Table(old(clients.members), old(clients.footprint), client) && gone == !client.live
      ensures client.buf == old(client.buf) || client.buf == null
      ensures gone <==> |old(client.Abs()).partial + arrived| >= MAX_STRING || closed
      ensures gone ==> client.Abs() == HttpSpec.Free(old(client.Abs()))
      ensures !gone ==>
                var s := old(client.Abs()).partial + arrived;
                && client.Abs() == Parsed(old(client.Abs()), s) && client.buf == old(client.buf)
                && client.headerCompile == Scan(s).complete && client.requestMethod == MethodOf(client.lines, kind)
    {
      hide Remove, ClientTable.Valid, Scan, MethodOf;
      gone := ReadLoop(client, arrived, closed, sizes);
      if !gone {
        ScanRest(client.Partial());
        ScanLines(client);
      }
    }

    /** What on_read does once the header is complete. */
    method Completed(client: Client, callback: seq<string> -> Answer, io1: Io, io2: Io)
      requires Ready(client) && client.requestMethod == MethodOf(client.lines, kind)
      modifies clients, clients.footprint, client, client.pevent, client.buf
      ensures client.Shape() && Table(old(clients.members), old(clients.footprint), client)
      ensures
        var c := old(client.Abs());
        client.Abs() ==
          if MethodOf(c.lines, kind) != GetLine then HttpSpec.Free(c)
          else HttpSpec.Respond(c, callback(c.lines), io1, io2)
      ensures client.buf == old(client.buf) || client.buf == null || fresh(client.buf)
      ensures client.live ==> client.Settled(kind)
    {
      hide Remove, ClientTable.Valid, MethodOf, HttpSpec.Respond;
      if client.requestMethod != GetLine {
        Free(client);
        return;
      }
      Respond(client, callback(client.lines), io1, io2);
    }

    lemma ScanRest(s: string)
      ensures Scan(s).complete ==> Scan(s).rest == ""
    {
      ScanSize(s);
    }

    // ----- events

    /** on_event, for an event the client is registered for. */
    method OnEvent(client: Client, e: Event, sizes: nat -> nat)
      requires Ready(client) && client.Settled(kind) && !e.Video?
      requires (e.Readable? ==> client.pevent.state == Read) && (e.Writable? ==> client.pevent.state == Write)
      modifies clients, clients.footprint, client, client.pevent, client.buf, client.requestBuf
      ensures client.Shape() && client.Abs() == Step(old(client.Abs()), e, kind)
      ensures Table(old(clients.members), old(clients.footprint), client)
      ensures client.buf == old(client.buf) || client.buf == null || fresh(client.buf)
      ensures client.live ==> client.Settled(kind)
    {
      hide Remove, ClientTable.Valid, HttpSpec.OnRead, Drain, MethodOf;
      match e
      case Hangup => Free(client);
      case Readable(arrived, closed, callback, io1, io2) =>
        OnRead(client, arrived, closed, sizes, callback, io1, io2);
      case Writable(results, ok) => OnWrite(client, results, ok);
    }

    // ----- video frames

    /** The loop body of http_server_keeplive_delay_iter. */
    method IterClient(client: Client, f: Frame, io1: Io, io2: Io) returns (n: nat)
      requires Ready(client) && client.Settled(kind)
      modifies clients, clients.footprint, client, client.pevent, client.buf
      ensures client.Shape() && (client.Abs(), n) == IterOne(old(client.Abs()), f, io1, io2)
      ensures Table(old(clients.members), old(clients.footprint), client)
      ensures client.buf == old(client.buf) || client.buf == null || fresh(client.buf)
      ensures client.live ==> client.Settled(kind)
    {
      hide Remove, ClientTable.Valid, Answered, OnSendJpeg, MethodOf;
      n := 0;
      if client.delayPtr != 0 && !client.writing && !client.reading {
        var a := OnSendJpeg(f, client.delayPtr);
        var ret := DoAnswer(client, a, io1, io2);
        if ret == -1 {
          return;
        }
        if !client.writing && client.delayPtr == 0 {
          Free(client);
        }
        n := n + 1;
      }
    }

    // ----- the whole table

    /** None of the clients has memory of the table. */
    ghost predicate Outside(cs: seq<Client>)
      reads clients`footprint, Members(cs)`buf
    {
      forall c | c in cs :: Clear(c)
    }

    /** The table holds exactly the live connections `conns`, in order, each with memory of its own. */
    ghost predicate Valid()
      reads this, clients, clients.footprint, Members(clients.members), Objects(clients.members)
    {
      && clients.Valid() && (this as object) !in clients.footprint
      && Outside(clients.members) && Apart(clients.members) && Shows(clients.members, conns, kind)
      && forall i | 0 <= i < |conns| :: conns[i].live && Inv(conns[i])
    }

    lemma ClientAt(all: seq<Client>, cs: seq<Conn>, k: nat, client: Client)
      requires k < |all| && client == all[k] && Shows(all, cs, kind)
      ensures client.Shape() && client.Abs() == cs[k] && (cs[k].live ==> client.live && client.Settled(kind))
    {
      assert Is(client, cs[k], kind);
    }

    static lemma AbsLive(client: Client)
      requires client.Shape()
      ensures client.Abs().live == client.live
    {
    }

    static lemma DistinctAt(all: seq<Client>, i: nat, k: nat)
      requires i < |all| && k < |all| && i != k && NoDup(all)
      ensures all[i] != all[k] && all[i] in all && all[k] in all
    {
    }

    /** One client of a list takes a turn; the others are not touched. */
    method IterAt(ghost all: seq<Client>, ghost cs: seq<Conn>, ghost k: nat, ghost objs: set<object>,
                  client: Client, f: Frame, io1: Io, io2: Io)
        returns (n: nat)
      requires k < |all| && client == all[k] && NoDup(all) && Apart(all) && Shows(all, cs, kind) && Outside(all)
      requires cs[k].live && clients.Valid() && client in clients.members && Within(all, k, objs)
      modifies clients, clients.footprint, client, client.pevent, client.buf
      ensures Apart(all) && Shows(all, cs[k := IterOne(cs[k], f, io1, io2).0], kind) && Outside(all)
      ensures n == IterOne(cs[k], f, io1, io2).1
      ensures clients.Valid() && clients.footprint == old(clients.footprint) && Within(all, k + 1, objs)
      ensures clients.members ==
        if IterOne(cs[k], f, io1, io2).0.live then old(clients.members) else Remove(old(clients.members), client)
    {
      hide Remove, IterOne, Inv, NoDup, Client.Settled, Client.Abs, Client.Shape, ClientTable.Valid;
      ClientAt(all, cs, k, client);
      n := IterClient(client, f, io1, io2);
      ghost var d := IterOne(cs[k], f, io1, io2).0;
      AbsLive(client);
      assert Is(client, d, kind);
      forall i | 0 <= i < |all| && i != k ensures Is(all[i], cs[i], kind) {
        DistinctAt(all, i, k);
        assert old(Is(all[i], cs[i], kind));
      }
      forall i | k < i < |all| ensures all[i].Repr() <= objs {
        DistinctAt(all, i, k);
        assert old(all[i].Repr()) <= objs;
      }
    }

    lemma TableStart()
      requires Valid()
      ensures Apart(clients.members) && Shows(clients.members, conns, kind) && |clients.members| == |conns|
      ensures NoDup(clients.members) && Outside(clients.members) && clients.Valid()
      ensures Within(clients.members, 0, Objects(clients.members))
    {
      clients.Distinct();
    }

    /** The server is none of the clients' objects. */
    lemma NotAmong(cs: seq<Client>)
      ensures (this as object) !in Members(cs) && this !in Objects(cs) && this != (clients as object)
    {
    }

    /** The table holds connections `ds`. */
    ghost method SetConns(ds: seq<Conn>)
      requires clients.Valid() && (this as object) !in clients.footprint
      requires Outside(clients.members) && Apart(clients.members) && Shows(clients.members, ds, kind)
      requires forall i | 0 <= i < |ds| :: ds[i].live && Inv(ds[i])
      modifies `conns
      ensures Valid() && conns == ds
    {
      hide Apart, Shows, Outside, Inv, ClientTable.Valid;
      NotAmong(clients.members);
      conns := ds;
    }

    /** The part of http_client_new before the table: NULL if the client cannot be registered for reading. */
    method NewClient(fd: nat, ok: bool) returns (client: Client?)
      ensures client != null <==> ok
      ensures client != null ==> fresh(client.Repr()) && Is(client, NewConn(), kind)
      ensures client != null ==> fresh(client.hh) && client.hh.data == client && client.pevent.fd == fd
    {
      var c := new Client(fd);
      var armed := c.pevent.Change(Read, ok);
      if armed == -1 {
        c.pevent.Free(true);
        return null;
      }
      client := c;
    }

    /** HASH_ADD of a client whose memory and handle are its own. */
    method Join(client: Client)
      requires Valid() && Is(client, NewConn(), kind) && Clear(client) && client.hh.data == client
      requires client.hh !in clients.footprint && client.hh !in Objects(clients.members) && client.hh !in client.Repr()
      requires forall x | x in clients.members :: x.Repr() !! client.Repr() && x != client
      modifies `conns, clients, clients.footprint, client.hh
      ensures Valid() && clients.members == old(clients.members) + [client] && conns == old(conns) + [NewConn()]
    {
      hide Inv, Shows, Apart, Is, Outside, ClientTable.Valid;
      TableStart();
      ghost var all, cs := clients.members, conns;
      AddBeside(all, cs, client);
      Joins(all, cs, client);
      SetConns(cs + [NewConn()]);
    }

    /** Adding a client to the table leaves the others as they are. */
    method AddBeside(ghost all: seq<Client>, ghost cs: seq<Conn>, client: Client)
      requires clients.Valid() && Shows(all, cs, kind) && Outside(all) && Is(client, NewConn(), kind) && Clear(client)
      requires client.hh.data == client && client.hh !in clients.footprint && client.hh !in client.Repr()
      requires (this as object) !in clients.footprint && client.hh !in Objects(all) && Apart(all)
      modifies clients, clients.footprint, client.hh
      ensures clients.Valid() && clients.members == old(clients.members) + [client]
      ensures Shows(all, cs, kind) && Outside(all) && Is(client, NewConn(), kind) && Clear(client)
      ensures (this as object) !in clients.footprint
      ensures Apart(all) && client.Repr() == old(client.Repr())
      ensures forall x | x in all :: x.Repr() == old(x.Repr())
    {
      hide ClientTable.Valid, Client.Settled, Client.Abs, Client.Shape, Objects, Is, Inv;
      NewHandle(client);
      NotTheHandle(all, client);
      clients.Add(client);
      forall i | 0 <= i < |all| ensures Is(all[i], cs[i], kind) {
        assert all[i] in all;
        assert old(Is(all[i], cs[i], kind));
      }
    }

    /** No client's memory holds the handle of another. */
    lemma NotTheHandle(all: seq<Client>, client: Client)
      requires client.hh !in Objects(all)
      ensures forall x | x in all :: client.hh !in x.Repr()
    {
      forall x | x in all ensures client.hh !in x.Repr() {
        var i :| 0 <= i < |all| && all[i] == x;
      }
    }

    /** A handle that is none of the table's objects is not yet in the table. */
    lemma NewHandle(client: Client)
      requires clients.Valid() && client.hh !in clients.footprint
      ensures client.hh !in clients.Handles()
    {
    }

    /** http_client_new: the client joins the table. */
    method Accept(fd: nat, ok: bool) returns (client: Client?)
      requires Valid()
      modifies `conns, clients, clients.footprint
      ensures Valid()
      ensures client != null <==> ok
      ensures ok ==> fresh(client) && client.pevent.fd == fd
      ensures ok ==> clients.members == old(clients.members) + [client]
      ensures ok ==> conns == ServerStep(old(conns), Accepted, kind)
      ensures !ok ==> clients.members == old(clients.members) && conns == old(conns)
    {
      hide Inv, Shows, Apart, Is, ClientTable.Valid;
      assert forall x | x in Members(clients.members) :: allocated(x);
      assert forall o | o in Objects(clients.members) :: allocated(o);
      client := NewClient(fd, ok);
      assert Objects(clients.members) == old(Objects(clients.members));
      assert Outside(clients.members) && Apart(clients.members) && Shows(clients.members, conns, kind);
      if client != null {
        Join(client);
      }
    }

    lemma Joins(all: seq<Client>, cs: seq<Conn>, c: Client)
      requires Apart(all) && Shows(all, cs, kind) && Outside(all) && Is(c, NewConn(), kind)
      requires Clear(c) && forall x | x in all :: x.Repr() !! c.Repr() && x != c
      requires forall i | 0 <= i < |cs| :: cs[i].live && Inv(cs[i])
      ensures var ds := cs + [NewConn()]; forall i | 0 <= i < |ds| :: ds[i].live && Inv(ds[i])
      ensures Apart(all + [c]) && Shows(all + [c], cs + [NewConn()], kind) && Outside(all + [c])
    {
      hide Is;
      var more := all + [c];
      forall a, b | a in more && b in more && a != b ensures a.Repr() !! b.Repr() {}
    }

    /** An event changes one client of a list; the others are not touched. */
    method EventAt(ghost all: seq<Client>, ghost cs: seq<Conn>, ghost k: nat,
                   client: Client, e: Event, sizes: nat -> nat)
      requires k < |all| && client == all[k] && NoDup(all) && Apart(all) && Shows(all, cs, kind) && Outside(all)
      requires cs[k].live && clients.Valid() && client in clients.members && !e.Video?
      requires (e.Readable? ==> client.pevent.state == Read) && (e.Writable? ==> client.pevent.state == Write)
      modifies clients, clients.footprint, client, client.pevent, client.buf, client.requestBuf
      ensures Apart(all) && Shows(all, cs[k := Step(cs[k], e, kind)], kind) && Outside(all)
      ensures clients.Valid() && clients.footprint == old(clients.footprint)
      ensures clients.members ==
              if Step(cs[k], e, kind).live then old(clients.members) else Remove(old(clients.members), client)
    {
      hide Remove, Step, Inv, NoDup, Client.Settled, Client.Abs, Client.Shape, ClientTable.Valid;
      ClientAt(all, cs, k, client);
      OnEvent(client, e, sizes);
      ghost var d := Step(cs[k], e, kind);
      AbsLive(client);
      assert Is(client, d, kind);
      forall i | 0 <= i < |all| && i != k ensures Is(all[i], cs[i], kind) {
        DistinctAt(all, i, k);
        assert old(Is(all[i], cs[i], kind));
      }
    }

    lemma Dropped(all: seq<Client>, ds: seq<Conn>, k: nat)
      requires NoDup(all) && Apart(all) && Shows(all, ds, kind) && Outside(all) && k < |all|
      ensures
        var rest := Remove(all, all[k]);
        Apart(rest) && Shows(rest, ds[..k] + ds[k + 1..], kind) && Outside(rest)
    {
      hide Is, Remove, NoDup;
      RemoveIsSlice(all, k);
      var rest := all[..k] + all[k + 1..];
      forall i | 0 <= i < |rest| ensures rest[i] == all[if i < k then i else i + 1] && rest[i] in all {}
    }

    /** One client of the table has an event; the others are not touched. */
    method Dispatch(client: Client, e: Event, sizes: nat -> nat, ghost k: nat)
      requires Valid() && k < |clients.members| && client == clients.members[k] && !e.Video?
      requires (e.Readable? ==> client.pevent.state == Read) && (e.Writable? ==> client.pevent.state == Write)
      modifies this, clients, clients.footprint, client, client.pevent, client.buf, client.requestBuf
      ensures Valid()
      ensures conns == ServerStep(old(conns), Happens(k, e), kind)
      ensures clients.members ==
              if Step(old(conns)[k], e, kind).live then old(clients.members) else Remove(old(clients.members), client)
    {
      hide Inv, Step, NoDup, Remove, Shows, Apart, Outside, ClientTable.Valid;
      TableStart();
      ghost var all, cs := clients.members, conns;
      StepInv(cs[k], e, kind);
      EventAt(all, cs, k, client, e, sizes);
      ghost var d := Step(cs[k], e, kind);
      StillLive(cs, k, d);
      if d.live {
        SetConns(cs[k := d]);
      } else {
        Dropped(all, cs[k := d], k);
        SetConns(cs[..k] + cs[k + 1..]);
      }
    }

    static lemma StillLive(cs: seq<Conn>, k: nat, d: Conn)
      requires k < |cs| && Inv(d) && forall i | 0 <= i < |cs| :: cs[i].live && Inv(cs[i])
      ensures d.live ==> var ds := cs[k := d]; forall i | 0 <= i < |ds| :: ds[i].live && Inv(ds[i])
      ensures var rest := cs[..k] + cs[k + 1..]; forall i | 0 <= i < |rest| :: rest[i].live && Inv(rest[i])
      ensures cs[k := d][..k] + cs[k := d][k + 1..] == cs[..k] + cs[k + 1..]
    {
      hide Inv;
    }

    static lemma IterStart(all: seq<Client>, cs: seq<Conn>, f: Frame, ios: seq<(Io, Io)>)
      requires |all| == |cs| == |ios|
      ensures Iter(cs[..0], f, ios[..0]) == ([], 0) && [] + cs[0..] == cs
      ensures Remaining(all[..0], cs[..0]) + all[0..] == all
    {
    }

    /** The table while `all[k]` has its turn, and after it. */
    static lemma TableNext(all: seq<Client>, ds: seq<Conn>, k: nat, d: Conn, table: seq<Client>)
      requires k < |all| == |ds| && table == Remaining(all[..k], ds[..k]) + all[k..] && NoDup(table)
      ensures all[k] in table
      ensures
        Remaining(all[..k + 1], ds[k := d][..k + 1]) + all[k + 1..] == if d.live then table else Remove(table, all[k])
    {
      hide Remove, ClientTable.Valid;
      var es := ds[k := d][..k + 1];
      assert all[..k + 1][..k] == all[..k] && es[..k] == ds[..k];
      var kept := Remaining(all[..k], ds[..k]);
      assert all[k..] == [all[k]] + all[k + 1..];
      assert table == kept + [all[k]] + all[k + 1..];
      assert table[|kept|] == all[k];
      RemoveMiddle(kept, all[k], all[k + 1..]);
      assert kept + [] + all[k + 1..] == kept + all[k + 1..];
    }

    static lemma {:induction false} RemainingShows(all: seq<Client>, ds: seq<Conn>, kind: string -> LineKind)
      requires Shows(all, ds, kind)
      ensures Shows(Remaining(all, ds), Filter(ds, IsLive), kind)
      ensures forall c | c in Remaining(all, ds) :: c in all
    {
      hide Is, Filter;
      if all == [] {
        FilterNone();
      } else {
        var n := |all| - 1;
        RemainingShows(all[..n], ds[..n], kind);
        FilterLast(ds);
      }
    }

    static lemma FilterNone()
      ensures Filter([], IsLive) == []
    {
    }

    static lemma FilterLast(ds: seq<Conn>)
      requires ds != []
      ensures
        var n := |ds| - 1;
        Filter(ds, IsLive) == Filter(ds[..n], IsLive) + if ds[n].live then [ds[n]] else []
    {
      var n := |ds| - 1;
      assert ds == ds[..n] + [ds[n]];
      FilterConcat(ds[..n], [ds[n]], IsLive);
      assert [ds[n]][1..] == [];
      assert Filter([ds[n]], IsLive) == if ds[n].live then [ds[n]] else [];
    }

    /** What holds of all connections holds of the live ones. */
    static lemma LiveOnes(ds: seq<Conn>)
      requires forall i | 0 <= i < |ds| :: Inv(ds[i])
      ensures forall i | 0 <= i < |Filter(ds, IsLive)| :: Filter(ds, IsLive)[i].live && Inv(Filter(ds, IsLive)[i])
    {
      hide Inv;
      FilterSub(ds, IsLive);
      var ls := Filter(ds, IsLive);
      forall i | 0 <= i < |ls| ensures ls[i].live && Inv(ls[i]) {
        assert ls[i] in ls;
      }
    }

    lemma IterEnd(all: seq<Client>, cs: seq<Conn>, ds: seq<Conn>, f: Frame, ios: seq<(Io, Io)>, k: nat)
      requires k == |all| == |cs| == |ds| == |ios| && ds == Iter(cs[..k], f, ios[..k]).0 + cs[k..]
      requires Shows(all, ds, kind) && Apart(all) && Outside(all) && forall i | 0 <= i < |cs| :: Inv(cs[i])
      ensures ds == Iter(cs, f, ios).0 && Iter(cs[..k], f, ios[..k]).1 == Iter(cs, f, ios).1
      ensures Remaining(all[..k], ds[..k]) + all[k..] == Remaining(all, ds)
      ensures Shows(Remaining(all, ds), Filter(ds, IsLive), kind)
      ensures Apart(Remaining(all, ds)) && Outside(Remaining(all, ds))
      ensures forall i | 0 <= i < |Filter(ds, IsLive)| :: Filter(ds, IsLive)[i].live && Inv(Filter(ds, IsLive)[i])
    {
      hide Shows, Inv, Filter, Iter, Remaining;
      assert cs[..k] == cs && ios[..k] == ios && all[..k] == all && ds[..k] == ds && all[k..] == [] && cs[k..] == [];
      forall i | 0 <= i < |ds| ensures Inv(ds[i]) {
        IterKeepsInv(cs, f, ios, i);
      }
      RemainingShows(all, ds, kind);
      LiveOnes(ds);
    }

    /** The pass over `all` has reached position `k`: what the connections, the table and the count are. */
    ghost predicate Passing(all: seq<Client>, cs: seq<Conn>, ds: seq<Conn>, k: nat, count: nat,
                            f: Frame, ios: seq<(Io, Io)>, objs: set<object>)
      requires k <= |all| == |cs| == |ds| == |ios|
      reads clients, clients.footprint, Members(all), Objects(all)
    {
      && NoDup(all) && Apart(all) && Shows(all, ds, kind) && Outside(all) && Within(all, k, objs) && clients.Valid()
      && ds == Iter(cs[..k], f, ios[..k]).0 + cs[k..] && count == Iter(cs[..k], f, ios[..k]).1
      && clients.members == Remaining(all[..k], ds[..k]) + all[k..]
    }

    /** One turn of the pass. */
    method Turn(ghost all: seq<Client>, ghost cs: seq<Conn>, ghost ds: seq<Conn>, ghost k: nat,
                client: Client, ghost count: nat, f: Frame, ghost ios: seq<(Io, Io)>, io: (Io, Io),
                ghost objs: set<object>)
        returns (n: nat, ghost es: seq<Conn>)
      requires k < |all| == |cs| == |ds| == |ios| && client == all[k] && io == ios[k] && cs[k].live
      requires Passing(all, cs, ds, k, count, f, ios, objs)
      modifies clients, clients.footprint, client, client.pevent, client.buf
      ensures |es| == |cs| && Passing(all, cs, es, k + 1, count + n, f, ios, objs)
      ensures clients.footprint == old(clients.footprint)
    {
      hide IterOne, Inv, Shows, NoDup, Apart, Outside, Iter, Remaining, Remove, Within, Objects, ClientTable.Valid;
      FeedSpec.IterNext(cs, f, ios, k, ds);
      ghost var d := IterOne(cs[k], f, io.0, io.1).0;
      NoDupTable();
      TableNext(all, ds, k, d, clients.members);
      n := IterAt(all, ds, k, objs, client, f, io.0, io.1);
      es := ds[k := d];
    }

    lemma NoDupTable()
      requires clients.Valid()
      ensures NoDup(clients.members)
    {
      clients.Distinct();
    }

    lemma PassStart(ios: seq<(Io, Io)>, f: Frame)
      requires Valid() && |ios| == |clients.members|
      ensures |clients.members| == |conns|
      ensures Passing(clients.members, conns, conns, 0, 0, f, ios, Objects(clients.members))
    {
      hide Inv, Shows, NoDup, Apart, Outside, Iter, Remaining, Within, Objects;
      TableStart();
      IterStart(clients.members, conns, f, ios);
    }

    ghost method PassEnd(all: seq<Client>, ds: seq<Conn>, k: nat, count: nat,
                         f: Frame, ios: seq<(Io, Io)>, objs: set<object>)
      requires k == |all| == |conns| == |ds| == |ios| && Passing(all, conns, ds, k, count, f, ios, objs)
      requires (this as object) !in clients.footprint && forall i | 0 <= i < |conns| :: Inv(conns[i])
      modifies `conns
      ensures Valid()
      ensures conns == Filter(Iter(old(conns), f, ios).0, IsLive) && count == Iter(old(conns), f, ios).1
      ensures clients.members == Remaining(all, Iter(old(conns), f, ios).0)
    {
      hide Inv, Shows, NoDup, Apart, Outside, Iter, Filter, Remaining, Within, Objects, ClientTable.Valid;
      IterEnd(all, conns, ds, f, ios, k);
      SetConns(Filter(ds, IsLive));
    }

    /** Where HASH_ITER stands: the current client and the one saved behind it. */
    lemma PassTable(all: seq<Client>, cs: seq<Conn>, ds: seq<Conn>, k: nat, count: nat,
                    f: Frame, ios: seq<(Io, Io)>, objs: set<object>) returns (m: nat)
      requires k < |all| == |cs| == |ds| == |ios| && Passing(all, cs, ds, k, count, f, ios, objs)
      ensures clients.Valid() && m < |clients.members| && clients.members[m] == all[k]
      ensures ClientIn(clients.members, m + 1) == ClientIn(all, k + 1)
    {
      m := |Remaining(all[..k], ds[..k])|;
    }

    lemma PassMemory(all: seq<Client>, cs: seq<Conn>, ds: seq<Conn>, k: nat, count: nat,
                     f: Frame, ios: seq<(Io, Io)>, objs: set<object>)
      requires k < |all| == |cs| == |ds| == |ios| && Passing(all, cs, ds, k, count, f, ios, objs)
      ensures all[k] in objs && all[k].pevent in objs && (all[k].buf != null ==> all[k].buf in objs)
    {
      assert all[k].Repr() <= objs;
    }

    /** One round of HASH_ITER: the current client has its turn, and the saved one follows. */
    method Round(ghost all: seq<Client>, ghost cs: seq<Conn>, ghost ds: seq<Conn>, ghost k: nat,
                 client: Client, tmp: Client?, count: nat, f: Frame, ghost ios: seq<(Io, Io)>, io: (Io, Io),
                 ghost objs: set<object>)
        returns (n: nat, ghost es: seq<Conn>, tmp': Client?)
      requires k < |all| == |cs| == |ds| == |ios| && client == all[k] && io == ios[k] && cs[k].live
      requires tmp == ClientIn(all, k + 1) && Passing(all, cs, ds, k, count, f, ios, objs)
      modifies clients, clients.footprint, client, client.pevent, client.buf
      ensures |es| == |cs| && Passing(all, cs, es, k + 1, count + n, f, ios, objs)
      ensures clients.footprint == old(clients.footprint) && tmp' == ClientIn(all, k + 2)
    {
      hide Passing, ClientTable.Valid;
      n, es := Turn(all, cs, ds, k, client, count, f, ios, io, objs);
      tmp' := null;
      if tmp != null {
        ghost var m := PassTable(all, cs, es, k + 1, count + n, f, ios, objs);
        tmp' := clients.Next(tmp);
      }
    }

    /** The rounds of HASH_ITER from the head of the table on. */
    method Rounds(f: Frame, ios: seq<(Io, Io)>, ghost all: seq<Client>, ghost cs: seq<Conn>,
                  ghost fp: set<object>, ghost objs: set<object>)
        returns (count: nat, ghost ds: seq<Conn>)
      requires |all| == |cs| == |ios| && Passing(all, cs, cs, 0, 0, f, ios, objs) && clients.members == all
      requires clients.footprint == fp && forall k | 0 <= k < |cs| :: cs[k].live
      modifies clients, fp, objs
      ensures |ds| == |cs| && Passing(all, cs, ds, |all|, count, f, ios, objs) && clients.footprint == fp
    {
      hide Passing, ClientTable.Valid;
      count := 0;
      var k := 0;
      ds := cs;
      PassValid(all, cs, ds, 0, 0, f, ios, objs);
      var client := clients.First();
      var tmp := null;
      if client != null {
        ghost var m := PassTable(all, cs, ds, 0, 0, f, ios, objs);
        tmp := clients.Next(client);
      }
      while client != null
        invariant k <= |all| == |ds| && clients.footprint == fp
        invariant client == ClientIn(all, k) && tmp == ClientIn(all, k + 1)
        invariant Passing(all, cs, ds, k, count, f, ios, objs)
        decreases |all| - k
      {
        PassMemory(all, cs, ds, k, count, f, ios, objs);
        var n, tmp';
        n, ds, tmp' := Round(all, cs, ds, k, client, tmp, count, f, ios, ios[k], objs);
        client, tmp := tmp, tmp';
        count := count + n;
        k := k + 1;
      }
    }

    lemma PassValid(all: seq<Client>, cs: seq<Conn>, ds: seq<Conn>, k: nat, count: nat,
                    f: Frame, ios: seq<(Io, Io)>, objs: set<object>)
      requires k <= |all| == |cs| == |ds| == |ios| && Passing(all, cs, ds, k, count, f, ios, objs)
      ensures clients.Valid()
    {
    }

    /**
     http_server_keeplive_delay_iter: HASH_ITER over the client table, of which the current client may
     be freed. It leaves what Iter leaves, drops exactly the clients that were freed, and counts as Iter does.
     */
    method KeepliveDelayIter(f: Frame, ios: seq<(Io, Io)>) returns (count: nat)
      requires Valid() && |ios| == |clients.members|
      modifies this, clients, clients.footprint, Objects(clients.members)
      ensures Valid()
      ensures conns == ServerStep(old(conns), Feeds(f, ios), kind) && count == Iter(old(conns), f, ios).1
      ensures clients.members == Remaining(old(clients.members), Iter(old(conns), f, ios).0)
    {
      hide Inv, Passing, Iter, Filter, Remaining, Objects, Shows, Apart, Outside, ClientTable.Valid;
      PassStart(ios, f);
      NotAmong(clients.members);
      ghost var all, ds := clients.members, conns;
      ghost var objs := Objects(all);
      count, ds := Rounds(f, ios, all, conns, clients.footprint, objs);
      PassEnd(all, ds, |all|, count, f, ios, objs);
    }
  }
}
