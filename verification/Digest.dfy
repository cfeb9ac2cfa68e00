/**
 The digest session table of src/camhttp.c, in place: sessions are elements of a uthash
 table, the header is tokenized in its own buffer, nonces and responses are MD5 digests in
 hexadecimal. Every operation is proved to do what DigestSpec says.
 */
module Digest {
  import opened Seqs
  import opened TableSpec
  import opened Handles
  import opened UtHash
  import opened DigestSpec
  import opened Hex
  import opened Texts
  import Md5Spec
  import Md5
  import ParamSpec
  import Params

  /** The fields of a session beside its nonce, which is the key. */
  datatype Session = Session(checkTime: int, ip: int, count: int)

  // ----- texts and their digests

  function Bytes(s: string): (r: seq<Md5Spec.Byte>)
    ensures |r| == |s|
  {
    seq(|s|, i requires 0 <= i < |s| => (s[i] as int) % 256)
  }

  function TextDigest(parts: seq<string>): (r: string)
    ensures |r| == 32
  {
    HexOf(Md5Spec.MessageDigest(Bytes(Concat(parts))))
  }

  function BytesOfAll(parts: seq<string>): (r: seq<seq<Md5Spec.Byte>>)
    ensures |r| == |parts| && forall i | 0 <= i < |parts| :: r[i] == Bytes(parts[i])
  {
    seq(|parts|, i requires 0 <= i < |parts| => Bytes(parts[i]))
  }

  lemma {:induction false} ConcatBytes(parts: seq<string>)
    ensures Concat(BytesOfAll(parts)) == Bytes(Concat(parts))
  {
    if parts != [] {
      var n := |parts| - 1;
      ConcatBytes(parts[..n]);
      assert BytesOfAll(parts)[..n] == BytesOfAll(parts[..n]);
    }
  }

  /** md5_init, one MD5_UPDATE_STRING per part, md5_final, hex2string into 64 characters. */
  method DigestText(parts: seq<string>) returns (text: string)
    requires forall k | 0 <= k < |parts| :: |parts[k]| <= 0xffff_ffc0
    ensures text == TextDigest(parts)
  {
    var digest := Md5.DigestOf(BytesOfAll(parts));
    ConcatBytes(parts);
    text := HexText(digest, 64);
  }

  method HexText(digest: seq<Md5Spec.Byte>, size: nat) returns (text: string)
    requires |digest| == 16 && size > 32
    ensures text == HexOf(digest)
  {
    var buff := new char[size];
    Hex2String(digest, buff, size);
    assert digest[..16] == digest;
    text := buff[..32];
  }

  /** The nonce of a session: the counter (32 bits), the time (64 bits) and the address (32 bits), hashed. */
  function NonceBytes(count: nat, t: int, ip: int): (r: seq<Md5Spec.Byte>)
    ensures |r| == 16
  {
    Md5Spec.LittleEndian(count % 0x1_0000_0000, 4)
    + Md5Spec.LittleEndian(t % 0x1_0000_0000_0000_0000, 8)
    + Md5Spec.LittleEndian(ip % 0x1_0000_0000, 4)
  }

  function Nonce(count: nat, t: int, ip: int): (r: string)
    ensures |r| == 32
  {
    HexOf(Md5Spec.MessageDigest(NonceBytes(count, t, ip)))
  }

  /** What is hashed for a nonce reads back, low-order bytes first, as counter, time and address. */
  lemma NonceReads(count: nat, t: int, ip: int)
    ensures
      var b := NonceBytes(count, t, ip);
      && Md5Spec.LittleValue(b[..4]) == count % 0x1_0000_0000
      && Md5Spec.LittleValue(b[4..12]) == t % 0x1_0000_0000_0000_0000
      && Md5Spec.LittleValue(b[12..]) == ip % 0x1_0000_0000
  {
    hide Md5Spec.LittleEndian, Md5Spec.LittleValue, Md5Spec.Power256;
    var c, u, a := count % 0x1_0000_0000, t % 0x1_0000_0000_0000_0000, ip % 0x1_0000_0000;
    Md5Spec.Powers();
    Md5Spec.LittleReads(c, 4);
    Md5Spec.LittleReads(u, 8);
    Md5Spec.LittleReads(a, 4);
    var b := NonceBytes(count, t, ip);
    assert b[..4] == Md5Spec.LittleEndian(c, 4) && b[4..12] == Md5Spec.LittleEndian(u, 8);
    assert b[12..] == Md5Spec.LittleEndian(a, 4);
  }

  // ----- what a request presents

  const KEYS: seq<string> := ["nonce", "nc", "cnonce", "response"]

  /** What on_check_digest reads of a request: the address, the path, the query and strtol to base 16. */
  datatype Asked = Asked(ip: int, path: string, param: string, hexValue: string -> int)

  predicate FitsRequest(q: Asked) {
    |q.path| < 256 && |q.param| < 256
  }

  function UriParts(q: Asked): seq<string> {
    if q.param != "" then ["GET:", q.path, "?", q.param] else ["GET:", q.path]
  }

  function ResponseParts(ha1: string, q: Asked, nonce: string, nc: string, cnonce: string): seq<string> {
    [ha1, ":", nonce, ":", nc, ":", cnonce, ":", "auth", ":", TextDigest(UriParts(q))]
  }

  /** Whether the response agrees with the expected digest in the 16 digits that are compared. */
  predicate Matches(ha1: string, q: Asked, nonce: string, nc: string, cnonce: string, response: string) {
    |response| >= 16 && response[..16] == TextDigest(ResponseParts(ha1, q, nonce, nc, cnonce))[..16]
  }

  ghost function CredentialsOf(ha1: string, q: Asked, header: string): Credentials {
    var v := ParamSpec.Lookup(header, KEYS);
    if header == "" then Absent
    else if !ParamSpec.AllFound(v) then Malformed
    else Given(v[0].value, q.hexValue(v[1].value), Matches(ha1, q, v[0].value, v[1].value, v[2].value, v[3].value))
  }

  lemma ConcatMore(parts: seq<string>, s: string)
    ensures Concat(parts + [s]) == Concat(parts) + s
  {
    assert (parts + [s])[..|parts|] == parts;
  }

  lemma UriText(q: Asked)
    ensures Concat(UriParts(q)) == "GET:" + q.path + if q.param == "" then "" else "?" + q.param
  {
    ConcatMore([], "GET:");
    ConcatMore(["GET:"], q.path);
    ConcatMore(["GET:", q.path], "?");
    ConcatMore(["GET:", q.path, "?"], q.param);
    assert [] + ["GET:"] == ["GET:"] && ["GET:"] + [q.path] == ["GET:", q.path];
    assert ["GET:", q.path] + ["?"] == ["GET:", q.path, "?"];
    assert ["GET:", q.path, "?"] + [q.param] == ["GET:", q.path, "?", q.param];
  }

  lemma {:induction false} ConcatFour(parts: seq<string>, a: string, b: string, c: string, d: string)
    ensures Concat(parts + [a, b, c, d]) == Concat(parts) + a + b + c + d
  {
    hide Concat;
    ConcatMore(parts, a);
    ConcatMore(parts + [a], b);
    ConcatMore(parts + [a] + [b], c);
    ConcatMore(parts + [a] + [b] + [c], d);
    assert parts + [a, b, c, d] == parts + [a] + [b] + [c] + [d];
  }

  lemma ResponseText(ha1: string, q: Asked, nonce: string, nc: string, cnonce: string)
    ensures Concat(ResponseParts(ha1, q, nonce, nc, cnonce)) ==
            ha1 + ":" + nonce + ":" + nc + ":" + cnonce + ":" + "auth" + ":" + TextDigest(UriParts(q))
  {
    hide TextDigest;
    var h := TextDigest(UriParts(q));
    var p: seq<string> := [ha1, ":", nonce];
    ConcatMore([], ha1);
    ConcatMore([ha1], ":");
    ConcatMore([ha1, ":"], nonce);
    assert [] + [ha1] == [ha1] && [ha1] + [":"] == [ha1, ":"] && [ha1, ":"] + [nonce] == p;
    hide Concat;
    ConcatFour(p, ":", nc, ":", cnonce);
    ConcatFour(p + [":", nc, ":", cnonce], ":", "auth", ":", h);
    assert ResponseParts(ha1, q, nonce, nc, cnonce) == p + [":", nc, ":", cnonce] + [":", "auth", ":", h];
  }

  /**
   The request-digest of section 3.2.2.1 of RFC 2617 for GET and the quality of protection "auth":
   the response matches exactly if its first 16 digits are those of this digest.
   */
  lemma MatchesExactly(ha1: string, q: Asked, nonce: string, nc: string, cnonce: string, response: string)
    ensures
      var uri := q.path + if q.param == "" then "" else "?" + q.param;
      var ha2 := HexOf(Md5Spec.MessageDigest(Bytes("GET:" + uri)));
      var text := ha1 + ":" + nonce + ":" + nc + ":" + cnonce + ":" + "auth" + ":" + ha2;
      var digest := HexOf(Md5Spec.MessageDigest(Bytes(text)));
      Matches(ha1, q, nonce, nc, cnonce, response)
      <==> |response| >= 16 && forall i | 0 <= i < 16 :: response[i] == digest[i]
  {
    hide Concat, HexOf, Md5Spec.MessageDigest, Bytes;
    UriText(q);
    ResponseText(ha1, q, nonce, nc, cnonce);
    assert "GET:" + q.path + (if q.param == "" then "" else "?" + q.param)
        == "GET:" + (q.path + if q.param == "" then "" else "?" + q.param);
    var digest := TextDigest(ResponseParts(ha1, q, nonce, nc, cnonce));
    assert forall i | 0 <= i < 16 :: digest[..16][i] == digest[i];
  }

  /** The last value of a key among rendered fields, or the empty string. */
  function Value(fs: seq<ParamSpec.Field>, key: string): string {
    var v := ParamSpec.LastValue(fs, key);
    if v.Some? then v.value else ""
  }

  predicate Has(fs: seq<ParamSpec.Field>, key: string) {
    ParamSpec.LastValue(fs, key).Some?
  }

  /** What a rendered header presents: nonce, count and response under their own names, in any order. */
  lemma CredentialsExactly(ha1: string, q: Asked, fs: seq<ParamSpec.Field>)
    requires forall i | 0 <= i < |fs| :: ParamSpec.Renderable(fs[i])
    ensures
      CredentialsOf(ha1, q, ParamSpec.Join(fs)) ==
        if fs == [] then Absent
        else if !(Has(fs, "nonce") && Has(fs, "nc") && Has(fs, "cnonce") && Has(fs, "response")) then Malformed
        else Given(Value(fs, "nonce"), q.hexValue(Value(fs, "nc")),
                   Matches(ha1, q, Value(fs, "nonce"), Value(fs, "nc"), Value(fs, "cnonce"), Value(fs, "response")))
  {
    hide Matches, ParamSpec.AllFound, ParamSpec.Join, ParamSpec.Lookup, ParamSpec.LastValue, ParamSpec.Renderable;
    HeaderEmpty(fs);
    KeysFound(fs);
    FourFound(ParamSpec.Lookup(ParamSpec.Join(fs), KEYS));
  }

  lemma HeaderEmpty(fs: seq<ParamSpec.Field>)
    requires forall i | 0 <= i < |fs| :: ParamSpec.Renderable(fs[i])
    ensures ParamSpec.Join(fs) == "" <==> fs == []
  {
    hide ParamSpec.Renderable;
    if fs != [] {
      ParamSpec.SplitJoin(fs);
    }
  }

  lemma KeysFound(fs: seq<ParamSpec.Field>)
    requires forall i | 0 <= i < |fs| :: ParamSpec.Renderable(fs[i])
    ensures
      var v := ParamSpec.Lookup(ParamSpec.Join(fs), KEYS);
      && v[0] == ParamSpec.LastValue(fs, "nonce") && v[1] == ParamSpec.LastValue(fs, "nc")
      && v[2] == ParamSpec.LastValue(fs, "cnonce") && v[3] == ParamSpec.LastValue(fs, "response")
  {
    hide ParamSpec.Lookup, ParamSpec.LastValue, ParamSpec.Renderable, ParamSpec.Join;
    ParamSpec.LookupInvertsRendering(fs, KEYS);
    assert KEYS[0] == "nonce" && KEYS[1] == "nc" && KEYS[2] == "cnonce" && KEYS[3] == "response";
  }

  lemma FourFound(v: seq<Option<string>>)
    requires |v| == 4
    ensures ParamSpec.AllFound(v) <==> v[0].Some? && v[1].Some? && v[2].Some? && v[3].Some?
  {
  }

  // ----- the sessions as entries

  ghost function EntryOf(e: Elem<Session>): Entry
    reads e`data
  {
    Entry(e.key, e.data.checkTime, e.data.count)
  }

  /** `es` lists the sessions in `s`. */
  ghost predicate Shows(s: seq<Elem<Session>>, es: seq<Entry>)
    reads Elems(s)`data
  {
    |s| == |es| && forall i | 0 <= i < |s| :: es[i] == EntryOf(s[i])
  }

  /** Expiry looks at one more entry. */
  lemma ExpireNext(es: seq<Entry>, e: Entry, now: int)
    ensures Expire(es + [e], now) == Expire(es, now) + if Keep(e, now) then [e] else []
  {
    FilterConcat(es, [e], x => Keep(x, now));
    assert Filter([e], x => Keep(x, now)) == if Keep(e, now) then [e] else [] by {
      assert [e][1..] == [];
    }
  }

  /** What iteration needs to know of a valid table. */
  lemma TableShape(table: Hash<Session>)
    requires table.Valid()
    ensures table.head == At(Items(table.t), 0) && NoDup(Items(table.t)) && ListLinked(Items(table.t))
    ensures Items(table.t) != [] ==> table.numItems == |Items(table.t)|
  {
    if table.head == null {
      assert ListLinked<Session>([]);
    }
  }

  class Digests {
    const table: Hash<Session>   // g_digest_list
    var digestCount: nat
    const ha1: string            // g_digest_ha1; empty switches authentication off
    ghost var entries: seq<Entry>

    ghost function View(): State
      reads this
    {
      State(entries, digestCount)
    }

    ghost predicate Valid()
      reads this, table, table.buckets, Elems(Items(table.t))
    {
      table.Valid() && Shows(Items(table.t), entries) && DistinctNonces(entries)
    }

    constructor (hashFcn: string -> nat, ha1: string)
      ensures Valid() && View() == State([], 0) && this.ha1 == ha1
      ensures fresh(table) && fresh(table.buckets)
    {
      table := new Hash<Session>(hashFcn);
      digestCount := 0;
      this.ha1 := ha1;
      entries := [];
    }

    /** `kept` is what expiry leaves of the first `k` of `all`, whose entries are `src`. */
    static ghost predicate Sifted(all: seq<Elem<Session>>, src: seq<Entry>, k: nat, kept: seq<Elem<Session>>, now: int)
      requires k <= |all| == |src| && Elems(kept) <= Elems(all)
      reads Elems(all)`data
    {
      Shows(all, src) && Shows(kept, Expire(src[..k], now))
    }

    static lemma SiftNone(all: seq<Elem<Session>>, src: seq<Entry>, now: int)
      requires Shows(all, src)
      ensures |all| == |src| && Sifted(all, src, 0, [], now) && [] + all[0..] == all
    {
    }

    static lemma SiftStep(all: seq<Elem<Session>>, src: seq<Entry>, k: nat, kept: seq<Elem<Session>>, now: int)
      requires k < |all| == |src| && Elems(kept) <= Elems(all) && Sifted(all, src, k, kept, now)
      ensures
        var kept' := kept + if Keep(EntryOf(all[k]), now) then [all[k]] else [];
        Elems(kept') <= Elems(all) && Sifted(all, src, k + 1, kept', now)
      ensures all[k..] == [all[k]] + all[k + 1..]
      ensures kept + all[k..] == kept + [all[k]] + all[k + 1..]
    {
      hide Expire, Keep;
      assert all[k] in all;
      assert src[..k + 1] == src[..k] + [src[k]];
      ExpireNext(src[..k], src[k], now);
    }

    static lemma SiftAll(all: seq<Elem<Session>>, src: seq<Entry>, k: nat, kept: seq<Elem<Session>>, now: int)
      requires k <= |all| == |src| && Elems(kept) <= Elems(all) && At(all, k) == null
      requires Sifted(all, src, k, kept, now) && DistinctNonces(src)
      ensures kept + all[k..] == kept
      ensures Shows(kept, Expire(src, now)) && DistinctNonces(Expire(src, now))
      ensures forall x | x in kept :: x in all
    {
      hide Expire, DistinctNonces;
      assert src[..k] == src;
      ExpireDistinct(src, now);
      forall x | x in kept ensures x in all {
        assert x in Elems(kept);
      }
    }

    /** The expiry loop at position `k` of the list as it was: behind `kept`, the rest is as it was. */
    ghost predicate Expiring(all: seq<Elem<Session>>, k: nat, kept: seq<Elem<Session>>, now: int)
      reads this, table, table.buckets, Elems(Items(table.t)), Elems(all)`data
    {
      && table.Valid() && k <= |all| == |entries| && Items(table.t) == kept + all[k..]
      && Elems(kept) <= Elems(all) && Elems(Items(table.t)) <= Elems(all)
      && Sifted(all, entries, k, kept, now)
    }

    lemma ExpiryStarts(now: int)
      requires Valid()
      ensures Expiring(Items(table.t), 0, [], now) && table.head == At(Items(table.t), 0)
    {
      hide Hash.Valid, DistinctNonces, ListLinked, NoDup, Sifted, Shows;
      TableShape(table);
      SiftNone(Items(table.t), entries, now);
    }

    /** The body of the expiry loop. */
    method ExpireElement(el: Elem<Session>, now: int, ghost all: seq<Elem<Session>>,
                         ghost k: nat, ghost kept: seq<Elem<Session>>)
        returns (ghost kept': seq<Elem<Session>>)
      requires k < |all| && el == all[k] && Expiring(all, k, kept, now)
      modifies table, table.buckets, Elems(Items(table.t))`prev, Elems(Items(table.t))`next
      modifies Elems(Items(table.t))`hhPrev, Elems(Items(table.t))`hhNext
      ensures Expiring(all, k + 1, kept', now) && table.buckets == old(table.buckets)
      ensures Elems(Items(table.t)) <= Elems(all)
    {
      hide Hash.Valid, TableSpec.Delete, NoDup, Remove, Sifted, ListLinked;
      TableShape(table);
      SiftStep(all, entries, k, kept, now);
      ghost var rest := all[k + 1..];
      assert el in Items(table.t) by {
        assert (kept + [el] + rest)[|kept|] == el;
      }
      kept' := kept + [el];
      if el.data.checkTime + EXPIRE_TIME < now {
        RemoveMiddle(kept, el, rest);
        assert kept + [] == kept;
        kept' := kept;
        table.Delete(el);
      }
    }

    /** The element after the current one is where iteration continues, whether the current one stayed or went. */
    lemma Onward(all: seq<Elem<Session>>, k: nat, kept: seq<Elem<Session>>, now: int)
      requires k < |all| && Expiring(all, k, kept, now)
      ensures all[k].next == At(all, k + 1)
    {
      hide Hash.Valid, Sifted;
      TableShape(table);
      var items := Items(table.t);
      assert items[|kept|] == all[k];
      assert At(items, |kept| + 1) == At(all, k + 1);
      assert items[|kept|].next == At(items, |kept| + 1);
    }

    lemma ExpiryEnds(all: seq<Elem<Session>>, k: nat, kept: seq<Elem<Session>>, now: int)
      requires Expiring(all, k, kept, now) && At(all, k) == null && DistinctNonces(entries)
      ensures table.Valid() && Shows(Items(table.t), Expire(entries, now)) && DistinctNonces(Expire(entries, now))
      ensures forall x | x in Items(table.t) :: x in all
    {
      hide Hash.Valid, Expire, DistinctNonces, Sifted, Shows;
      SiftAll(all, entries, k, kept, now);
    }

    /** check_digest_expire: HASH_ITER with HASH_DEL of the current element. */
    method CheckDigestExpire(now: int)
      requires Valid()
      modifies `entries, table, table.buckets, Elems(Items(table.t))`prev, Elems(Items(table.t))`next
      modifies Elems(Items(table.t))`hhPrev, Elems(Items(table.t))`hhNext
      ensures Valid() && table.buckets == old(table.buckets)
      ensures View() == old(View()).(entries := Expire(old(entries), now))
      ensures forall x | x in Items(table.t) :: x in old(Items(table.t))
    {
      hide Hash.Valid, Expire, DistinctNonces, Expiring, Shows;
      ghost var all := Items(table.t);
      ghost var kept, k := [], 0;
      ExpiryStarts(now);
      var el := table.head;
      var tmp := null;
      if el != null {
        Onward(all, 0, kept, now);
        tmp := el.next;
      }
      while el != null
        invariant Expiring(all, k, kept, now) && Elems(Items(table.t)) <= Elems(all)
        invariant table.buckets == old(table.buckets) && entries == old(entries)
        invariant el == At(all, k) && tmp == At(all, k + 1)
        decreases |all| - k
      {
        kept := ExpireElement(el, now, all, k, kept);
        k := k + 1;
        el := tmp;
        if tmp != null {
          Onward(all, k, kept, now);
          tmp := tmp.next;
        }
      }
      ExpiryEnds(all, k, kept, now);
      entries := Expire(entries, now);
    }

    // ----- nonces

    /** HASH_FIND finds the session the specification points at. */
    lemma FindIsPosition(items: seq<Elem<Session>>, nonce: string, out: Elem?<Session>)
      requires Shows(items, entries) && DistinctNonces(entries)
      requires out == null <==> forall x | x in items :: x.key != nonce
      requires out != null ==> out in items && out.key == nonce
      ensures
        var k := Position(entries, nonce);
        if out == null then k == |entries| else k < |entries| && items[k] == out && entries[k] == EntryOf(out)
    {
      var k := Position(entries, nonce);
      if out == null {
        assert forall i | 0 <= i < |items| :: items[i] in items && entries[i] == EntryOf(items[i]);
      } else {
        var i :| 0 <= i < |items| && items[i] == out;
        assert entries[i] == EntryOf(items[i]);
        assert k == i;
      }
    }

    lemma ShowsNew(items: seq<Elem<Session>>, dt: Elem<Session>, es: seq<Entry>)
      requires Shows(items, es) && DistinctNonces(es) && Position(es, dt.key) == |es|
      ensures Shows(items + [dt], es + [EntryOf(dt)]) && DistinctNonces(es + [EntryOf(dt)])
    {
    }

    method HashNonce(t: int, ip: int) returns (nonce: string)
      ensures nonce == Nonce(digestCount, t, ip)
    {
      var digest := Md5.DigestOf([
        Md5Spec.LittleEndian(digestCount % 0x1_0000_0000, 4),
        Md5Spec.LittleEndian(t % 0x1_0000_0000_0000_0000, 8),
        Md5Spec.LittleEndian(ip % 0x1_0000_0000, 4)]);
      ConcatThree(Md5Spec.LittleEndian(digestCount % 0x1_0000_0000, 4),
        Md5Spec.LittleEndian(t % 0x1_0000_0000_0000_0000, 8),
        Md5Spec.LittleEndian(ip % 0x1_0000_0000, 4));
      nonce := HexText(digest, 33);
    }

    /** Allocate a session and HASH_ADD it. */
    method AddSession(nonce: string, t: int, ip: int)
      requires Valid() && Position(entries, nonce) == |entries|
      modifies `entries, table, table.buckets
      modifies Elems(Items(table.t))`next, Elems(Items(table.t))`hhPrev, Elems(Items(table.t))`hhNext
      ensures Valid() && (table.buckets == old(table.buckets) || fresh(table.buckets))
      ensures entries == old(entries) + [Entry(nonce, t, 1)]
    {
      hide Hash.Valid, TableSpec.Add, DistinctNonces, Position;
      var dt := new Elem<Session>(nonce, Session(t, ip, 1));
      ghost var items := Items(table.t);
      ShowsNew(items, dt, entries);
      assert dt !in items;
      table.Add(dt);
      entries := entries + [EntryOf(dt)];
    }

    /** HASH_COUNT tells whether there is room. */
    lemma FullTable()
      requires Valid()
      ensures table.head != null && table.numItems >= MAX_DIGESTS <==> |entries| >= MAX_DIGESTS
    {
      hide Hash.Valid, NoDup, ListLinked;
      TableShape(table);
    }

    /** new_digest. */
    method NewDigest(t: int, ip: int) returns (o: Outcome)
      requires Valid()
      modifies `entries, `digestCount, table, table.buckets
      modifies Elems(Items(table.t))`next, Elems(Items(table.t))`hhPrev, Elems(Items(table.t))`hhNext
      ensures Valid() && (table.buckets == old(table.buckets) || fresh(table.buckets))
      ensures (View(), o) == DigestSpec.NewDigest(old(View()), t, ip, Nonce)
    {
      hide Hash.Valid, Nonce, DistinctNonces, Position, Shows;
      FullTable();
      if table.head != null && table.numItems >= MAX_DIGESTS {
        return ServerError;
      }
      var nonce := HashNonce(t, ip);
      var dt := table.Find(nonce);
      FindIsPosition(Items(table.t), nonce, dt);
      if dt != null {
        return ServerError;
      }
      AddSession(nonce, t, ip);
      digestCount := digestCount + 1;
      o := Issue(nonce);
    }

    // ----- use of a session

    /** The branch of on_check_digest for a session nonce whose response matches. */
    method UseDigest(t: int, nonce: string, nc: int) returns (o: Outcome)
      requires Valid()
      modifies `entries, Elems(Items(table.t))`data
      ensures Valid()
      ensures (View(), o) == DigestSpec.UseDigest(old(View()), t, nonce, nc)
    {
      hide Hash.Valid, NoDup, ListLinked, Position, DistinctNonces, Shows;
      if |nonce| != 32 {
        return Challenge;
      }
      var dt := table.Find(nonce);
      FindIsPosition(Items(table.t), nonce, dt);
      if dt == null || dt.data.count != nc {
        return Challenge;
      }
      Touch(dt, t, Position(entries, nonce));
      o := Accept(nonce, nc);
    }

    /** Count one more use of session `dt`, at position `k`, and stamp it. */
    method Touch(dt: Elem<Session>, t: int, ghost k: nat)
      requires Valid() && k < |entries| && Items(table.t)[k] == dt
      modifies `entries, dt`data
      ensures Valid()
      ensures entries == old(entries)[k := Entry(old(entries)[k].nonce, t, old(entries)[k].count + 1)]
    {
      hide Hash.Valid, ListLinked;
      TableShape(table);
      dt.data := dt.data.(count := dt.data.count + 1);
      dt.data := dt.data.(checkTime := t);
      entries := entries[k := EntryOf(dt)];
    }

    // ----- a request

    /** The response the client should have sent for these parameters, compared in 16 digits. */
    method ResponseMatches(q: Asked, nonce: string, nc: string, cnonce: string, response: string) returns (ok: bool)
      requires FitsRequest(q) && |ha1| < 64 && |nonce| < 256 && |nc| < 256 && |cnonce| < 256
      ensures ok == Matches(ha1, q, nonce, nc, cnonce, response)
    {
      hide TextDigest;
      var ha2 := DigestText(UriParts(q));
      var expected := DigestText([ha1, ":", nonce, ":", nc, ":", cnonce, ":", "auth", ":", ha2]);
      ok := |response| >= 16 && response[..16] == expected[..16];
    }

    /** What the header presents; it is tokenized in place. */
    method ReadCredentials(q: Asked, a: array<char>, ghost header: string) returns (cred: Credentials)
      requires FitsRequest(q) && |ha1| < 64 && HeaderIn(a, header)
      modifies a
      ensures cred == CredentialsOf(ha1, q, header)
    {
      hide Matches, ParamSpec.Lookup, CString;
      if a[0] == '\0' {
        return Absent;
      }
      ghost var vs := ParamSpec.Lookup(header, KEYS);
      var found, ps := Params.GetHttpParameter(a, KEYS, header);
      if !found {
        return Malformed;
      }
      SlotValue(a[..], ps, vs, 0, |header| + 1);
      SlotValue(a[..], ps, vs, 1, |header| + 1);
      SlotValue(a[..], ps, vs, 2, |header| + 1);
      SlotValue(a[..], ps, vs, 3, |header| + 1);
      var nonce, nc := CString(a[..], ps[0]), CString(a[..], ps[1]);
      var cnonce, response := CString(a[..], ps[2]), CString(a[..], ps[3]);
      var matches := ResponseMatches(q, nonce, nc, cnonce, response);
      cred := Given(nonce, q.hexValue(nc), matches);
    }

    /** on_check_digest: `t0` is the time expiry reads, `t1` the time stamped on a session. */
    method OnCheckDigest(q: Asked, a: array<char>, t0: int, t1: int, ghost header: string) returns (o: Outcome)
      requires Valid() && FitsRequest(q) && |ha1| < 64 && HeaderIn(a, header)
      modifies a, `entries, `digestCount, table, table.buckets, Elems(Items(table.t))
      ensures Valid() && (table.buckets == old(table.buckets) || fresh(table.buckets))
      ensures
        var r := Request(t0, t1, q.ip, CredentialsOf(ha1, q, header));
        && (View(), o) == Check(old(View()), r, ha1 != "", Nonce)
        && OutcomeFor(old(entries), r, ha1 != "", Nonce(old(digestCount), t1, q.ip), o)
        && SessionsFor(old(entries), r, o, entries)
    {
      hide Hash.Valid, Nonce, Shows, DistinctNonces, Expire, CredentialsOf, DigestSpec.NewDigest, DigestSpec.UseDigest;
      hide OutcomeFor, SessionsFor;
      CheckExactly(View(), Request(t0, t1, q.ip, CredentialsOf(ha1, q, header)), ha1 != "", Nonce);
      CheckDigestExpire(t0);
      if ha1 == "" {
        return Open;
      }
      assert forall x | x in Elems(Items(table.t)) :: (x as object) != a;
      assert (table as object) != a && (table.buckets as object) != a;
      var cred := ReadCredentials(q, a, header);
      if cred.Given? && cred.matches {
        if cred.nonce == REALM_NONCE {
          o := NewDigest(t1, q.ip);
        } else {
          o := UseDigest(t1, cred.nonce, cred.nc);
        }
      } else {
        o := Challenge;
      }
    }
  }

  /** Buffer `a` holds C string `header`. */
  ghost predicate HeaderIn(a: array<char>, header: string)
    reads a
  {
    |header| < a.Length == 256 && a[..|header|] == header && a[|header|] == '\0' && Params.NoNul(header, 0, |header|)
  }

  lemma SlotValue(t: string, ps: seq<int>, vs: seq<Option<string>>, i: nat, bound: nat)
    requires Params.Slots(t, ps, vs, bound) && ParamSpec.AllFound(vs) && i < |vs|
    ensures ps[i] >= 0 && CString(t, ps[i]) == vs[i].value && |vs[i].value| < bound
  {
    assert Params.Slot(t, ps[i], vs[i], bound);
  }

  lemma ConcatThree(a: seq<Md5Spec.Byte>, b: seq<Md5Spec.Byte>, c: seq<Md5Spec.Byte>)
    ensures Concat([a, b, c]) == a + b + c
  {
    assert [a, b, c][..2] == [a, b] && [a, b][..1] == [a] && [a][..0] == [];
    assert Concat([a]) == Concat([]) + a == a;
    assert Concat([a, b]) == a + b;
  }

  // ----- the nonces of the code

  lemma BytesTell(c: nat, t: int, ip: int, c': nat, t': int, ip': int)
    requires c < 0x1_0000_0000 && c' < 0x1_0000_0000
    requires NonceBytes(c, t, ip) == NonceBytes(c', t', ip')
    ensures c == c'
  {
    hide NonceBytes;
    NonceReads(c, t, ip);
    NonceReads(c', t', ip');
  }

  /** Equal nonces have equal digests. */
  lemma NonceDigest(c: nat, t: int, ip: int, c': nat, t': int, ip': int)
    requires Nonce(c, t, ip) == Nonce(c', t', ip')
    ensures Md5Spec.MessageDigest(NonceBytes(c, t, ip)) == Md5Spec.MessageDigest(NonceBytes(c', t', ip'))
  {
    hide Md5Spec.MessageDigest, HexOf, NonceBytes;
    HexInjective(Md5Spec.MessageDigest(NonceBytes(c, t, ip)), Md5Spec.MessageDigest(NonceBytes(c', t', ip')));
  }

  /** What new_digest hashed for request `k` of a run of the code. */
  ghost function HashedAt(rs: seq<Request>, auth: bool, k: nat): seq<Md5Spec.Byte>
    requires k < |rs|
  {
    NonceBytes(CounterAt(rs, auth, Nonce, k), rs[k].t1, rs[k].ip)
  }

  /** Over every run of the code the session table keeps DigestSpec.Inv. */
  lemma CodeRuns(rs: seq<Request>, auth: bool)
    ensures Inv(DigestSpec.Run(rs, auth, Nonce).0, DigestSpec.Run(rs, auth, Nonce).1)
  {
    hide DigestSpec.Run, Nonce;
    assert MakesNonces(Nonce);
    RunInv(rs, auth, Nonce);
  }

  /**
   A replay in a run of the code exhibits an MD5 collision: the nonce was issued twice before its
   second use, for two different texts with one digest. The run may be as long as the 32-bit
   creation counter does not wrap.
   */
  lemma CodeReplayIsCollision(rs: seq<Request>, auth: bool, i: nat, j: nat) returns (a: nat, b: nat)
    requires i < j < |rs| <= 0x1_0000_0000 && DigestSpec.Run(rs, auth, Nonce).1[i].Accept?
    requires DigestSpec.Run(rs, auth, Nonce).1[i] == DigestSpec.Run(rs, auth, Nonce).1[j]
    ensures
      var outs := DigestSpec.Run(rs, auth, Nonce).1;
      a < b < j && outs[a] == outs[b] == Issue(outs[i].acceptedNonce)
    ensures HashedAt(rs, auth, a) != HashedAt(rs, auth, b)
    ensures Md5Spec.MessageDigest(HashedAt(rs, auth, a)) == Md5Spec.MessageDigest(HashedAt(rs, auth, b))
  {
    assert MakesNonces(Nonce);
    hide DigestSpec.Run, Nonce, NonceBytes, Md5Spec.MessageDigest, CounterAt;
    a, b := ReplayNeedsTwoIssues(rs, auth, Nonce, i, j);
    IssueIsMade(rs, auth, Nonce, a);
    IssueIsMade(rs, auth, Nonce, b);
    CountersDiffer(rs, auth, Nonce, a, b);
    var c, c' := CounterAt(rs, auth, Nonce, a), CounterAt(rs, auth, Nonce, b);
    NonceDigest(c, rs[a].t1, rs[a].ip, c', rs[b].t1, rs[b].ip);
    if HashedAt(rs, auth, a) == HashedAt(rs, auth, b) {
      BytesTell(c, rs[a].t1, rs[a].ip, c', rs[b].t1, rs[b].ip);
    }
  }
}
