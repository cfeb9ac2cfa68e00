/**
 A client of src/http.c with its buffers, flags and registration, and the table of clients: a
 uthash table keyed by descriptor, whose elements are embedded in the clients.
 */
module Clients {
  import opened Seqs
  import opened TableSpec
  import opened Handles
  import opened UtHash
  import opened HeaderSpec
  import opened HttpSpec
  import opened Pevents

  class Client {
    const hh: Elem<Client?>     // its handle in the table, keyed by the descriptor
    const pevent: Pevent
    var delayPtr: int
    var reading: bool
    var writing: bool
    var buf: array?<char>       // write_buf
    var size: nat
    var max: nat
    var cur: nat
    const requestBuf: array<char>
    var requestBufCur: nat
    var headerCompile: bool
    var requestMethod: LineKind
    var lines: seq<string>      // what the request has been parsed from
    ghost var live: bool
    ghost var served: nat
    ghost var wire: string
    ghost var sent: string

    /** Buffers are as large as they say, and a live client's registration is in order. */
    ghost predicate Shape()
      reads this, pevent
    {
      && requestBuf.Length == MAX_STRING + 1
      && requestBufCur <= MAX_STRING
      && (if buf == null then max == 0 else max == buf.Length && buf != requestBuf)
      && cur <= size <= max
      && (live ==> pevent.Valid())
    }

    ghost function Queue(): string
      requires Shape()
      reads this, pevent, buf
    {
      if buf == null then "" else buf[..size]
    }

    ghost function Partial(): string
      requires Shape()
      reads this, pevent, requestBuf
    {
      requestBuf[..requestBufCur]
    }

    /** The connection this client is. */
    ghost function Abs(): Conn
      requires Shape()
      reads this, pevent, buf, requestBuf
    {
      if live then
        Conn(true, pevent.state, writing, reading, delayPtr, cur, Queue(), max, Partial(), lines, served, wire, sent)
      else
        Free(Conn(false, Idle, writing, reading, delayPtr, 0, "", 0, "", [], served, wire, sent))
    }

    /** What the fields of a live client say of its connection. */
    lemma Seen()
      requires Shape() && live
      ensures Abs().live && Abs().interest == pevent.state && Abs().writing == writing && Abs().reading == reading
      ensures Abs().delay == delayPtr && Abs().queue == Queue() && Abs().max == max && Abs().cur == cur
      ensures |Queue()| == size && (size > 0 ==> buf != null)
      ensures Abs().partial == Partial() && Abs().lines == lines && Abs().served == served
    {
    }

    /** Wait for the socket. */
    method WriteLater()
      requires Shape() && live
      modifies `writing
      ensures Shape() && writing && Abs() == old(Abs()).(writing := true)
    {
      writing := true;
    }

    /** The socket took `n` more bytes of the buffer. */
    method Advance(n: nat)
      requires Shape() && live && cur + n <= size && buf != null
      modifies `cur, `wire
      ensures Shape() && Abs() == Wrote(old(Abs()), n)
    {
      wire := wire + buf[cur..cur + n];
      cur := cur + n;
      assert Queue() == old(Queue());
    }

    /** The buffer is empty again. */
    method Emptied()
      requires Shape() && live
      modifies `cur, `size, `writing
      ensures Shape() && Abs() == old(Abs()).(cur := 0, queue := "", writing := false)
    {
      cur := 0;
      size := 0;
      writing := false;
      assert Queue() == "";
    }

    /** The request has been answered. */
    method ClearRequest(kind: string -> LineKind)
      requires Shape() && live
      modifies `headerCompile, `reading, `requestMethod, `lines, `served
      ensures Settled(kind)
      ensures Abs() == old(Abs()).(reading := false, lines := [], served := old(Abs()).served + 1)
    {
      headerCompile := false;
      reading := false;
      requestMethod, lines := OtherLine, [];
      served := served + 1;
    }

    /** The client's own memory. */
    ghost function Repr(): set<object>
      reads this`buf
    {
      {this, pevent, requestBuf} + if buf == null then {} else {buf as object}
    }

    /** Between events. */
    ghost predicate Settled(kind: string -> LineKind)
      reads this, pevent
    {
      Shape() && live && !headerCompile && requestMethod == MethodOf(lines, kind)
    }

    constructor (fd: nat)
      ensures Shape() && Abs() == NewConn().(interest := Idle)
      ensures live && !headerCompile && requestMethod == OtherLine && lines == []
      ensures fresh(hh) && fresh(pevent) && fresh(requestBuf) && buf == null && hh.data == this && pevent.fd == fd
    {
      hh := new Elem<Client?>(FdKey(fd), null);
      pevent := new Pevent(fd);
      delayPtr, reading, writing := 0, false, false;
      buf, size, max, cur := null, 0, 0, 0;
      requestBuf := new char[MAX_STRING + 1];
      requestBufCur, headerCompile, requestMethod := 0, false, OtherLine;
      live, lines, served, wire, sent := true, [], 0, "", "";
      new;
      hh.data := this;
    }

    /** Make room for `need` bytes in the write buffer, keeping what it holds. */
    method Reserve(need: nat)
      requires Shape() && size < need
      modifies `buf, `max
      ensures Shape() && Queue() == old(Queue())
      ensures max == (if old(max) < need then Alloc(need) else old(max)) >= need && buf != null
      ensures buf == old(buf) || fresh(buf)
    {
      var allocSize := (need / 4096 + 1) * 4096;
      AllocFits(need);
      if buf == null {
        buf := new char[allocSize];
        max := allocSize;
      } else if max < need {
        var newBuf := new char[allocSize];
        var i := 0;
        while i < size
          invariant i <= size && unchanged(this) && buf[..] == old(buf[..])
          invariant newBuf[..i] == buf[..i]
          modifies newBuf
        {
          newBuf[i] := buf[i];
          i := i + 1;
        }
        buf := newBuf;
        max := allocSize;
      }
    }

    lemma AllocFits(need: nat)
      ensures (need / 4096 + 1) * 4096 == Alloc(need) > need
    {
    }

    /** memcpy behind what is buffered. */
    method Append(data: string)
      requires Shape() && buf != null && size + |data| <= max
      modifies `size, buf
      ensures Shape() && Queue() == old(Queue()) + data
    {
      var i := 0;
      while i < |data|
        invariant i <= |data| && unchanged(this)
        invariant buf[..size + i] == old(buf[..size]) + data[..i]
        modifies buf
      {
        buf[size + i] := data[i];
        assert buf[..size + i + 1] == buf[..size + i] + [data[i]];
        assert data[..i + 1] == data[..i] + [data[i]];
        i := i + 1;
      }
      assert data[..i] == data;
      size := size + |data|;
    }

    /** Buffer `rest`, in a larger buffer if need be. */
    method Store(rest: string)
      requires Shape() && rest != ""
      modifies `buf, `max, `size, buf
      ensures Shape() && Queue() == old(Queue()) + rest && size == old(size) + |rest|
      ensures max == if old(max) < size then Alloc(size) else old(max)
      ensures live ==> Abs() == old(Abs()).(queue := old(Queue()) + rest, max := max)
      ensures buf == old(buf) || fresh(buf)
    {
      Reserve(size + |rest|);
      Append(rest);
    }
  }

  /** The four bytes of a descriptor, as the key of its client. */
  function FdKey(fd: nat): string {
    [(fd % 256) as char, (fd / 256 % 256) as char, (fd / 0x1_0000 % 256) as char, (fd / 0x100_0000 % 256) as char]
  }

  /** The client at position `i`, or NULL off the end. */
  ghost function ClientIn(s: seq<Client>, i: nat): Client? {
    if i < |s| then s[i] else null
  }

  /** Removing a client and removing its handle keep the two sequences side by side. */
  lemma RemovedTogether(clients: seq<Client>, handles: seq<Elem<Client?>>, client: Client)
    requires |clients| == |handles| && (forall i | 0 <= i < |clients| :: handles[i] == clients[i].hh)
    requires NoDup(clients) && NoDup(handles) && client in clients
    ensures client.hh in handles && client !in Remove(clients, client)
    ensures |Remove(clients, client)| == |Remove(handles, client.hh)|
    ensures forall i | 0 <= i < |Remove(clients, client)| ::
              Remove(handles, client.hh)[i] == Remove(clients, client)[i].hh && Remove(clients, client)[i] in clients
    ensures forall e | e in Remove(handles, client.hh) :: e in handles
  {
    hide Remove, NoDup;
    var k :| 0 <= k < |clients| && clients[k] == client;
    RemoveAt(clients, k);
    RemoveAt(handles, k);
  }

  /** service->clients: a hash table of clients, iterated in application order. */
  class ClientTable {
    const table: Hash<Client?>
    ghost var members: seq<Client>
    ghost var footprint: set<object>

    ghost predicate Valid()
      reads this, footprint
    {
      && table in footprint && table.buckets in footprint
      && (forall e | e in Items(table.t) :: e in footprint)
      && table.Valid()
      && |members| == |Items(table.t)|
      && (forall i | 0 <= i < |members| :: Items(table.t)[i] == members[i].hh && members[i].hh.data == members[i])
    }

    constructor (hashFcn: string -> nat)
      ensures Valid() && members == [] && fresh(footprint)
    {
      table := new Hash<Client?>(hashFcn);
      members := [];
      new;
      footprint := {table, table.buckets};
    }

    ghost function Handles(): seq<Elem<Client?>>
      reads this, table
    {
      Items(table.t)
    }

    /** Different members have different handles. */
    lemma Distinct()
      requires Valid()
      ensures NoDup(members) && NoDup(Items(table.t)) && (Items(table.t) != [] ==> ListLinked(Items(table.t)))
      ensures table.head == At(Items(table.t), 0)
    {
      if table.head != null {
        assert forall i, j | 0 <= i < j < |members| :: Items(table.t)[i] != Items(table.t)[j];
      }
    }

    /** HASH_DEL. */
    method Delete(client: Client)
      requires Valid() && client in members
      modifies this, footprint
      ensures Valid() && members == Remove(old(members), client) && footprint == old(footprint)
      ensures client !in members
    {
      hide Hash.Valid, Remove, NoDup, TableSpec.Delete;
      Distinct();
      RemovedTogether(members, Items(table.t), client);
      assert forall m | m in members :: m.hh.data == m;
      table.Delete(client.hh);
      members := Remove(members, client);
    }

    /** HASH_ADD_INT. */
    method Add(client: Client)
      requires Valid() && client.hh !in Handles() && client.hh.data == client && client.hh !in footprint
      modifies this, footprint, client.hh
      ensures Valid() && members == old(members) + [client]
      ensures fresh(footprint - old(footprint) - {client.hh})
    {
      hide Hash.Valid, TableSpec.Add;
      table.Add(client.hh);
      members := members + [client];
      footprint := footprint + {client.hh, table.buckets};
    }

    /** The head of the iteration. */
    function First(): (client: Client?)
      requires Valid()
      reads this, footprint
      ensures client == ClientIn(members, 0)
    {
      Distinct();
      if table.head == null then null else table.head.data
    }

    /** The client after `client`. */
    function Next(client: Client): (next: Client?)
      requires Valid() && client in members
      reads this, footprint
      ensures forall k | 0 <= k < |members| && members[k] == client :: next == ClientIn(members, k + 1)
    {
      Distinct();
      assert forall k | 0 <= k < |members| && members[k] == client ::
          Items(table.t)[k].next == At(Items(table.t), k + 1);
      if client.hh.next == null then null else client.hh.next.data
    }
  }
}
