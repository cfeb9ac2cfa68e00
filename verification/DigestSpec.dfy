/**
 The digest sessions of src/camhttp.c as values: expiry, nonce creation, nonce-count
 progress, and what holds over every run of requests.
 */
module DigestSpec {
  import opened Seqs

  const MAX_DIGESTS: nat := 1000
  const EXPIRE_TIME: int := 3600
  const REALM_NONCE: string := "camlite"

  datatype Entry = Entry(nonce: string, checkTime: int, count: int)

  /** `g_digest_list` in insertion order and the creation counter. */
  datatype State = State(entries: seq<Entry>, digestCount: nat)

  /**
   What the Authorization header holds: nothing, no full set of parameters, or a nonce and
   nonce-count and whether the response matches.
   */
  datatype Credentials = Absent | Malformed | Given(nonce: string, nc: int, matches: bool)

  /** `t0` is the time the expiry check reads, `t1` the time stamped on the session. */
  datatype Request = Request(t0: int, t1: int, ip: int, cred: Credentials)

  datatype Outcome =
    | Open                                  // authentication is switched off
    | Challenge                             // 401 with the fixed nonce
    | Issue(nonce: string)                  // 401 with a new session nonce
    | ServerError                           // 500
    | Accept(acceptedNonce: string, nc: int)

  /** The nonce made from the creation counter, the time and the address. */
  type NonceMaker = (nat, int, int) -> string

  ghost predicate Keep(e: Entry, now: int) {
    e.checkTime + EXPIRE_TIME >= now
  }

  ghost function Expire(es: seq<Entry>, now: int): seq<Entry> {
    Filter(es, e => Keep(e, now))
  }

  ghost function Position(es: seq<Entry>, nonce: string): (k: nat)
    ensures k <= |es| && (k < |es| ==> es[k].nonce == nonce)
    ensures forall i | 0 <= i < k :: es[i].nonce != nonce
  {
    if es == [] || es[0].nonce == nonce then 0 else 1 + Position(es[1..], nonce)
  }

  /** new_digest. */
  ghost function NewDigest(s: State, t1: int, ip: int, make: NonceMaker): (State, Outcome) {
    var nonce := make(s.digestCount, t1, ip);
    if |s.entries| >= MAX_DIGESTS then (s, ServerError)
    else if Position(s.entries, nonce) < |s.entries| then (s, ServerError)
    else (State(s.entries + [Entry(nonce, t1, 1)], s.digestCount + 1), Issue(nonce))
  }

  /** The branch for a session nonce whose response matches. */
  ghost function UseDigest(s: State, t1: int, nonce: string, nc: int): (State, Outcome) {
    var k := Position(s.entries, nonce);
    if |nonce| != 32 then (s, Challenge)
    else if k == |s.entries| then (s, Challenge)
    else if s.entries[k].count != nc then (s, Challenge)
    else (s.(entries := s.entries[k := Entry(nonce, t1, s.entries[k].count + 1)]), Accept(nonce, nc))
  }

  /** on_check_digest. */
  ghost function Check(s: State, r: Request, auth: bool, make: NonceMaker): (State, Outcome) {
    var s := s.(entries := Expire(s.entries, r.t0));
    if !auth then (s, Open)
    else if !r.cred.Given? || !r.cred.matches then (s, Challenge)
    else if r.cred.nonce == REALM_NONCE then NewDigest(s, r.t1, r.ip, make)
    else UseDigest(s, r.t1, r.cred.nonce, r.cred.nc)
  }

  ghost function Run(rs: seq<Request>, auth: bool, make: NonceMaker): (r: (State, seq<Outcome>))
    ensures |r.1| == |rs|
  {
    if rs == [] then (State([], 0), [])
    else
      var (s, outs) := Run(rs[..|rs| - 1], auth, make);
      var (s', o) := Check(s, rs[|rs| - 1], auth, make);
      (s', outs + [o])
  }

  // ----- the sessions themselves

  ghost predicate DistinctNonces(es: seq<Entry>) {
    forall i, j | 0 <= i < j < |es| :: es[i].nonce != es[j].nonce
  }

  /** The nonce-counts accepted for `nonce` since it was last issued. */
  ghost function Counts(outs: seq<Outcome>, nonce: string): seq<int> {
    if outs == [] then []
    else
      var n := |outs| - 1;
      match outs[n]
      case Issue(m) => if m == nonce then [] else Counts(outs[..n], nonce)
      case Accept(m, nc) => Counts(outs[..n], nonce) + (if m == nonce then [nc] else [])
      case _ => Counts(outs[..n], nonce)
  }

  ghost function OneTo(k: int): (r: seq<int>)
    requires k >= 0
    ensures |r| == k
  {
    seq(k, i => i + 1)
  }

  ghost predicate Gapless(cs: seq<int>) {
    cs == OneTo(|cs|)
  }

  ghost predicate SessionOk(e: Entry, outs: seq<Outcome>) {
    |e.nonce| == 32 && e.count >= 1 && Counts(outs, e.nonce) == OneTo(e.count - 1)
  }

  ghost predicate Inv(s: State, outs: seq<Outcome>) {
    && |s.entries| <= MAX_DIGESTS
    && DistinctNonces(s.entries)
    && (forall i | 0 <= i < |s.entries| :: SessionOk(s.entries[i], outs))
    && (forall nonce :: Gapless(Counts(outs, nonce)))
  }

  lemma CountsStep(outs: seq<Outcome>, o: Outcome, nonce: string)
    ensures Counts(outs + [o], nonce) ==
            match o
            case Issue(m) => if m == nonce then [] else Counts(outs, nonce)
            case Accept(m, nc) => Counts(outs, nonce) + (if m == nonce then [nc] else [])
            case _ => Counts(outs, nonce)
  {
    assert (outs + [o])[..|outs|] == outs;
  }

  lemma ExpireSub(es: seq<Entry>, now: int)
    ensures forall e | e in Expire(es, now) :: e in es && Keep(e, now)
    ensures |Expire(es, now)| <= |es|
  {
    FilterSub(es, e => Keep(e, now));
  }

  lemma ConsDistinct(e: Entry, es: seq<Entry>)
    requires DistinctNonces(es) && forall x | x in es :: x.nonce != e.nonce
    ensures DistinctNonces([e] + es)
  {
    var all := [e] + es;
    forall i, j | 0 <= i < j < |all| ensures all[i].nonce != all[j].nonce {
      assert all[j] == es[j - 1];
      if i > 0 {
        assert all[i] == es[i - 1];
      }
    }
  }

  lemma ExpireNone(now: int)
    ensures Expire([], now) == [] && DistinctNonces([])
  {
  }

  lemma HeadDistinct(es: seq<Entry>)
    requires es != [] && DistinctNonces(es)
    ensures DistinctNonces(es[1..]) && forall x | x in es[1..] :: x.nonce != es[0].nonce
  {
  }

  lemma {:induction false} ExpireDistinct(es: seq<Entry>, now: int)
    requires DistinctNonces(es)
    ensures DistinctNonces(Expire(es, now))
    decreases |es|
  {
    hide DistinctNonces, Keep, Filter;
    if es == [] {
      ExpireNone(now);
    } else {
      FilterTail(es, now);
      HeadDistinct(es);
      ExpireDistinct(es[1..], now);
      ExpireSub(es[1..], now);
      if Keep(es[0], now) {
        ConsDistinct(es[0], Expire(es[1..], now));
      } else {
        assert [] + Expire(es[1..], now) == Expire(es[1..], now);
      }
    }
  }

  lemma FilterTail(es: seq<Entry>, now: int)
    requires es != []
    ensures Expire(es, now) == (if Keep(es[0], now) then [es[0]] else []) + Expire(es[1..], now)
  {
  }

  lemma ExpireInv(s: State, outs: seq<Outcome>, now: int)
    requires Inv(s, outs)
    ensures Inv(s.(entries := Expire(s.entries, now)), outs)
  {
    ExpireSub(s.entries, now);
    ExpireDistinct(s.entries, now);
    var es := Expire(s.entries, now);
    forall i | 0 <= i < |es| ensures SessionOk(es[i], outs) {
      assert es[i] in s.entries;
    }
  }

  /** An outcome that issues and accepts nothing leaves all counts alone. */
  lemma QuietInv(s: State, outs: seq<Outcome>, o: Outcome)
    requires Inv(s, outs) && !o.Issue? && !o.Accept?
    ensures Inv(s, outs + [o])
  {
    forall nonce ensures Counts(outs + [o], nonce) == Counts(outs, nonce) {
      CountsStep(outs, o, nonce);
    }
  }

  lemma IssueInv(s: State, outs: seq<Outcome>, nonce: string, t1: int)
    requires Inv(s, outs) && |nonce| == 32 && |s.entries| < MAX_DIGESTS
    requires forall i | 0 <= i < |s.entries| :: s.entries[i].nonce != nonce
    ensures Inv(State(s.entries + [Entry(nonce, t1, 1)], s.digestCount + 1), outs + [Issue(nonce)])
  {
    var o := Issue(nonce);
    forall m ensures Counts(outs + [o], m) == if m == nonce then [] else Counts(outs, m) {
      CountsStep(outs, o, m);
    }
    assert Gapless([]);
  }

  lemma AcceptInv(s: State, outs: seq<Outcome>, k: nat, t1: int)
    requires Inv(s, outs) && k < |s.entries|
    ensures
      var e := s.entries[k];
      Inv(s.(entries := s.entries[k := Entry(e.nonce, t1, e.count + 1)]), outs + [Accept(e.nonce, e.count)])
  {
    hide Counts;
    var e := s.entries[k];
    var o := Accept(e.nonce, e.count);
    assert SessionOk(e, outs);
    assert OneTo(e.count) == OneTo(e.count - 1) + [e.count];
    forall m ensures Counts(outs + [o], m) == if m == e.nonce then OneTo(e.count) else Counts(outs, m) {
      CountsStep(outs, o, m);
    }
    var es := s.entries[k := Entry(e.nonce, t1, e.count + 1)];
    forall i | 0 <= i < |es| ensures SessionOk(es[i], outs + [o]) {
      if i != k {
        assert SessionOk(s.entries[i], outs);
      }
    }
    forall m ensures Gapless(Counts(outs + [o], m)) {
      assert Gapless(Counts(outs, m));
    }
  }

  ghost predicate MakesNonces(make: NonceMaker) {
    forall c, t, ip :: |make(c, t, ip)| == 32
  }

  lemma CheckInv(s: State, outs: seq<Outcome>, r: Request, auth: bool, make: NonceMaker)
    requires Inv(s, outs) && MakesNonces(make)
    ensures
      var (s', o) := Check(s, r, auth, make);
      Inv(s', outs + [o])
  {
    ExpireInv(s, outs, r.t0);
    var s1 := s.(entries := Expire(s.entries, r.t0));
    var (s', o) := Check(s, r, auth, make);
    if o.Issue? {
      IssueInv(s1, outs, o.nonce, r.t1);
    } else if o.Accept? {
      AcceptInv(s1, outs, Position(s1.entries, r.cred.nonce), r.t1);
    } else {
      QuietInv(s1, outs, o);
    }
  }

  /**
   Over every run: at most 1000 sessions with pairwise distinct nonces; for each nonce the
   counts accepted since it was issued are 1, 2, 3, ... without gap or repeat; and a live
   session's `count` is one more than the number accepted.
   */
  lemma {:induction false} RunInv(rs: seq<Request>, auth: bool, make: NonceMaker)
    requires MakesNonces(make)
    ensures Inv(Run(rs, auth, make).0, Run(rs, auth, make).1)
  {
    if rs != [] {
      var n := |rs| - 1;
      RunInv(rs[..n], auth, make);
      var (s, outs) := Run(rs[..n], auth, make);
      CheckInv(s, outs, rs[n], auth, make);
    }
  }

  // ----- where nonces come from

  ghost predicate NoReplay(outs: seq<Outcome>) {
    forall i, j | 0 <= i < j < |outs| && outs[i].Accept? && outs[j].Accept? :: outs[i] != outs[j]
  }

  lemma {:induction false} RunPrefix(rs: seq<Request>, auth: bool, make: NonceMaker, k: nat)
    requires k <= |rs|
    ensures Run(rs[..k], auth, make).1 == Run(rs, auth, make).1[..k]
    decreases |rs|
  {
    if k == |rs| {
      assert rs[..k] == rs;
    } else {
      var n := |rs| - 1;
      RunPrefix(rs[..n], auth, make, k);
      assert rs[..n][..k] == rs[..k];
    }
  }

  /** One request of a run: its outcome is that of the state all earlier ones leave. */
  lemma RunAt(rs: seq<Request>, auth: bool, make: NonceMaker, k: nat)
    requires k < |rs|
    ensures Check(Run(rs[..k], auth, make).0, rs[k], auth, make)
            == (Run(rs[..k + 1], auth, make).0, Run(rs, auth, make).1[k])
  {
    hide Check;
    RunPrefix(rs, auth, make, k + 1);
    assert rs[..k + 1][..k] == rs[..k];
    assert Run(rs, auth, make).1[..k + 1][k] == Run(rs, auth, make).1[k];
  }

  /** The counter value with which request `k` of a run would make its nonce. */
  ghost function CounterAt(rs: seq<Request>, auth: bool, make: NonceMaker, k: nat): nat
    requires k <= |rs|
  {
    Run(rs[..k], auth, make).0.digestCount
  }

  /** An issued nonce is made from the counter, the time and the address, and the counter moves on. */
  lemma IssueIsMade(rs: seq<Request>, auth: bool, make: NonceMaker, k: nat)
    requires k < |rs|
    ensures
      var o, c := Run(rs, auth, make).1[k], CounterAt(rs, auth, make, k);
      && (o.Issue? ==> o.nonce == make(c, rs[k].t1, rs[k].ip))
      && CounterAt(rs, auth, make, k + 1) == if o.Issue? then c + 1 else c
  {
    hide Run;
    RunAt(rs, auth, make, k);
  }

  lemma {:induction false} CounterGrows(rs: seq<Request>, auth: bool, make: NonceMaker, a: nat, b: nat)
    requires a <= b <= |rs|
    ensures CounterAt(rs, auth, make, a) <= CounterAt(rs, auth, make, b) <= CounterAt(rs, auth, make, a) + (b - a)
    decreases b - a
  {
    hide Run;
    if a < b {
      IssueIsMade(rs, auth, make, a);
      CounterGrows(rs, auth, make, a + 1, b);
    }
  }

  /** Two issues use different counter values, each less than the number of requests. */
  lemma CountersDiffer(rs: seq<Request>, auth: bool, make: NonceMaker, a: nat, b: nat)
    requires a < b < |rs| && Run(rs, auth, make).1[a].Issue?
    ensures CounterAt(rs, auth, make, a) < CounterAt(rs, auth, make, b) < |rs|
  {
    assert CounterAt(rs, auth, make, 0) == 0 by {
      assert rs[..0] == [];
    }
    hide Run;
    IssueIsMade(rs, auth, make, a);
    CounterGrows(rs, auth, make, a + 1, b);
    CounterGrows(rs, auth, make, 0, b);
  }

  /** Sessions and accepted requests carry nonces that have been issued. */
  ghost predicate IssuedIn(nonce: string, outs: seq<Outcome>) {
    exists a :: 0 <= a < |outs| && outs[a] == Issue(nonce)
  }

  lemma IssuedMore(nonce: string, outs: seq<Outcome>, o: Outcome)
    ensures IssuedIn(nonce, outs) ==> IssuedIn(nonce, outs + [o])
    ensures o == Issue(nonce) ==> IssuedIn(nonce, outs + [o])
  {
    var all := outs + [o];
    assert all[|outs|] == o;
    if IssuedIn(nonce, outs) {
      var a :| 0 <= a < |outs| && outs[a] == Issue(nonce);
      assert all[a] == Issue(nonce);
    }
  }

  lemma {:induction false} SessionsIssued(rs: seq<Request>, auth: bool, make: NonceMaker)
    ensures
      var (s, outs) := Run(rs, auth, make);
      forall e | e in s.entries :: IssuedIn(e.nonce, outs)
  {
    if rs != [] {
      var n := |rs| - 1;
      SessionsIssued(rs[..n], auth, make);
      var (s, outs) := Run(rs[..n], auth, make);
      var (s', o) := Check(s, rs[n], auth, make);
      ExpireSub(s.entries, rs[n].t0);
      forall e | e in s'.entries ensures IssuedIn(e.nonce, outs + [o]) {
        IssuedMore(e.nonce, outs, o);
        NonceFrom(s, rs[n], auth, make, e);
      }
    }
  }

  /** A session after a request has the nonce of one before it, or the one just issued. */
  lemma NonceFrom(s: State, r: Request, auth: bool, make: NonceMaker, e: Entry)
    requires e in Check(s, r, auth, make).0.entries
    ensures (exists d :: d in s.entries && d.nonce == e.nonce) || Check(s, r, auth, make).1 == Issue(e.nonce)
  {
    ExpireSub(s.entries, r.t0);
    var (s', o) := Check(s, r, auth, make);
    var es := Expire(s.entries, r.t0);
    var i :| 0 <= i < |s'.entries| && s'.entries[i] == e;
    if o.Accept? || !o.Issue? {
      assert es[i].nonce == e.nonce && es[i] in es;
    } else if i < |es| {
      assert es[i] == e && es[i] in es;
    }
  }

  lemma AcceptIsSession(s: State, r: Request, auth: bool, make: NonceMaker)
    requires Check(s, r, auth, make).1.Accept?
    ensures exists e :: e in s.entries && e.nonce == Check(s, r, auth, make).1.acceptedNonce
  {
    ExpireSub(s.entries, r.t0);
    var es := Expire(s.entries, r.t0);
    var k := Position(es, r.cred.nonce);
    assert es[k] in es;
  }

  /** An accepted nonce has been issued before. */
  lemma AcceptNeedsIssue(rs: seq<Request>, auth: bool, make: NonceMaker, i: nat)
    requires i < |rs| && Run(rs, auth, make).1[i].Accept?
    ensures exists a :: 0 <= a < i && Run(rs, auth, make).1[a] == Issue(Run(rs, auth, make).1[i].acceptedNonce)
  {
    hide Run, Check;
    var outs := Run(rs, auth, make).1;
    RunAt(rs, auth, make, i);
    RunPrefix(rs, auth, make, i);
    SessionsIssued(rs[..i], auth, make);
    AcceptIsSession(Run(rs[..i], auth, make).0, rs[i], auth, make);
    var a :| 0 <= a < i && outs[..i][a] == Issue(outs[i].acceptedNonce);
    assert outs[a] == Issue(outs[i].acceptedNonce);
  }

  // ----- replays

  /** A count accepted since the nonce was last issued is among its counts. */
  lemma {:induction false} CountsHolds(outs: seq<Outcome>, i: nat)
    requires i < |outs| && outs[i].Accept?
    requires forall k | i < k < |outs| :: outs[k] != Issue(outs[i].acceptedNonce)
    ensures outs[i].nc in Counts(outs, outs[i].acceptedNonce)
    decreases |outs|
  {
    var n := |outs| - 1;
    if i < n {
      assert outs[..n][i] == outs[i];
      CountsHolds(outs[..n], i);
    }
  }

  /** Every count of a nonce was accepted for it, after it was last issued. */
  lemma {:induction false} CountsOrigin(outs: seq<Outcome>, nonce: string, nc: int) returns (p: nat)
    requires nc in Counts(outs, nonce)
    ensures p < |outs| && outs[p] == Accept(nonce, nc)
    ensures forall k | p < k < |outs| :: outs[k] != Issue(nonce)
    decreases |outs|
  {
    var n := |outs| - 1;
    if outs[n] == Accept(nonce, nc) {
      p := n;
    } else {
      p := CountsOrigin(outs[..n], nonce, nc);
      assert forall k | p < k < n :: outs[k] == outs[..n][k];
    }
  }

  lemma NewCount(cs: seq<int>, nc: int)
    requires Gapless(cs + [nc])
    ensures nc !in cs && 1 in cs + [nc]
  {
    var all := cs + [nc];
    assert all[|cs|] == nc && all[0] == 1;
    assert forall p | 0 <= p < |cs| :: cs[p] == all[p];
  }

  /** What is accepted extends gapless counts. */
  lemma AcceptExtends(rs: seq<Request>, auth: bool, make: NonceMaker, j: nat)
    requires MakesNonces(make) && j < |rs| && Run(rs, auth, make).1[j].Accept?
    ensures
      var outs := Run(rs, auth, make).1;
      Gapless(Counts(outs[..j], outs[j].acceptedNonce) + [outs[j].nc])
      && Counts(outs[..j + 1], outs[j].acceptedNonce) == Counts(outs[..j], outs[j].acceptedNonce) + [outs[j].nc]
  {
    hide Run, Counts;
    var outs := Run(rs, auth, make).1;
    RunPrefix(rs, auth, make, j + 1);
    RunInv(rs[..j + 1], auth, make);
    assert outs[..j + 1] == outs[..j] + [outs[j]];
    CountsStep(outs[..j], outs[j], outs[j].acceptedNonce);
    assert Gapless(Counts(outs[..j + 1], outs[j].acceptedNonce));
  }

  /** In every run, whatever makes the nonces: a pair accepted twice has had its nonce issued anew in between. */
  lemma ReplayNeedsReissue(rs: seq<Request>, auth: bool, make: NonceMaker, i: nat, j: nat)
    requires MakesNonces(make)
    requires i < j < |rs| && Run(rs, auth, make).1[i].Accept?
    requires Run(rs, auth, make).1[i] == Run(rs, auth, make).1[j]
    ensures exists k :: i < k < j && Run(rs, auth, make).1[k] == Issue(Run(rs, auth, make).1[i].acceptedNonce)
  {
    hide Run, Counts;
    var outs := Run(rs, auth, make).1;
    var nonce, nc := outs[i].acceptedNonce, outs[i].nc;
    if forall k | i < k < j :: outs[k] != Issue(nonce) {
      assert outs[..j][i] == outs[i];
      CountsHolds(outs[..j], i);
      AcceptExtends(rs, auth, make, j);
      NewCount(Counts(outs[..j], nonce), nc);
    }
  }

  /** The count 1 was accepted at or before `j`, after the nonce was last issued. */
  lemma StartsAtOne(rs: seq<Request>, auth: bool, make: NonceMaker, j: nat) returns (p: nat)
    requires MakesNonces(make) && j < |rs| && Run(rs, auth, make).1[j].Accept?
    ensures p <= j && Run(rs, auth, make).1[p] == Accept(Run(rs, auth, make).1[j].acceptedNonce, 1)
    ensures forall k | p < k <= j :: Run(rs, auth, make).1[k] != Issue(Run(rs, auth, make).1[j].acceptedNonce)
  {
    hide Run, Counts;
    var outs := Run(rs, auth, make).1;
    AcceptExtends(rs, auth, make, j);
    NewCount(Counts(outs[..j], outs[j].acceptedNonce), outs[j].nc);
    p := CountsOrigin(outs[..j + 1], outs[j].acceptedNonce, 1);
    assert forall k | 0 <= k <= j :: outs[k] == outs[..j + 1][k];
  }

  /** A nonce is issued anew between two uses of it. */
  ghost predicate ReissuedBetween(outs: seq<Outcome>, i: nat, k: nat, j: nat) {
    i < k < j < |outs| && outs[i].Accept? && outs[j].Accept?
    && outs[i].acceptedNonce == outs[j].acceptedNonce && outs[k] == Issue(outs[i].acceptedNonce)
  }

  /** A nonce that is issued anew between two uses makes a replay: both sessions accept the count 1. */
  lemma ReissueReplays(rs: seq<Request>, auth: bool, make: NonceMaker, i: nat, k: nat, j: nat)
    requires MakesNonces(make) && ReissuedBetween(Run(rs, auth, make).1, i, k, j)
    ensures !NoReplay(Run(rs, auth, make).1)
  {
    hide Run;
    var outs := Run(rs, auth, make).1;
    var p := StartsAtOne(rs, auth, make, i);
    var q := StartsAtOne(rs, auth, make, j);
    assert outs[p] == outs[q] && p < q;
  }

  /** Exactly when a run has a replay, for every nonce maker: when a nonce is issued anew between two uses of it. */
  lemma NoReplayExactly(rs: seq<Request>, auth: bool, make: NonceMaker)
    requires MakesNonces(make)
    ensures NoReplay(Run(rs, auth, make).1) <==> !exists i, k, j :: ReissuedBetween(Run(rs, auth, make).1, i, k, j)
  {
    hide Run;
    var outs := Run(rs, auth, make).1;
    if i: nat, k: nat, j: nat :| ReissuedBetween(outs, i, k, j) {
      ReissueReplays(rs, auth, make, i, k, j);
    }
    if !NoReplay(outs) {
      var i, j :| 0 <= i < j < |outs| && outs[i].Accept? && outs[i] == outs[j];
      ReplayNeedsReissue(rs, auth, make, i, j);
      var k :| i < k < j && outs[k] == Issue(outs[i].acceptedNonce);
      assert ReissuedBetween(outs, i, k, j);
    }
  }

  /** No nonce is issued twice. */
  ghost predicate IssuesDistinct(outs: seq<Outcome>) {
    forall a, b | 0 <= a < b < |outs| && outs[a].Issue? && outs[b].Issue? :: outs[a].nonce != outs[b].nonce
  }

  /** A replay has two issues of its nonce before its second use. */
  lemma ReplayNeedsTwoIssues(rs: seq<Request>, auth: bool, make: NonceMaker, i: nat, j: nat) returns (a: nat, b: nat)
    requires MakesNonces(make)
    requires i < j < |rs| && Run(rs, auth, make).1[i].Accept?
    requires Run(rs, auth, make).1[i] == Run(rs, auth, make).1[j]
    ensures
      var outs := Run(rs, auth, make).1;
      a < i < b < j && outs[a] == outs[b] == Issue(outs[i].acceptedNonce)
  {
    hide Run;
    var outs := Run(rs, auth, make).1;
    ReplayNeedsReissue(rs, auth, make, i, j);
    b :| i < b < j && outs[b] == Issue(outs[i].acceptedNonce);
    AcceptNeedsIssue(rs, auth, make, i);
    a :| 0 <= a < i && outs[a] == Issue(outs[i].acceptedNonce);
  }

  /** A run that issues no nonce twice accepts no (nonce, nc) pair twice. */
  lemma RunNoReplay(rs: seq<Request>, auth: bool, make: NonceMaker)
    requires MakesNonces(make) && IssuesDistinct(Run(rs, auth, make).1)
    ensures NoReplay(Run(rs, auth, make).1)
  {
    hide Run;
    var outs := Run(rs, auth, make).1;
    if !NoReplay(outs) {
      var i, j :| 0 <= i < j < |outs| && outs[i].Accept? && outs[i] == outs[j];
      var a, b := ReplayNeedsTwoIssues(rs, auth, make, i, j);
    }
  }

  // ----- one request of a run, in full

  /** Used no longer than an hour ago. */
  function Recent(now: int): Entry -> bool {
    (e: Entry) => e.checkTime + 3600 >= now
  }

  /** The sessions among `es` that have not expired at time `now`. */
  ghost function Current(es: seq<Entry>, now: int): seq<Entry> {
    Filter(es, Recent(now))
  }

  lemma ExpireIsCurrent(es: seq<Entry>, now: int)
    ensures Expire(es, now) == Current(es, now)
  {
    FilterAgrees(es, e => Keep(e, now), Recent(now));
  }

  /** Expiry keeps, each once and in order, exactly the sessions used no longer than an hour ago. */
  lemma ExpireExactly(es: seq<Entry>, now: int)
    ensures exists ps: seq<nat> :: Selects(ps, es, Expire(es, now), Recent(now))
  {
    ExpireIsCurrent(es, now);
    var ps := FilterSelects(es, Recent(now));
    assert Selects(ps, es, Expire(es, now), Recent(now));
  }

  /** A session for `nonce` that has not expired and expects the count `nc`. */
  ghost predicate Expects(es: seq<Entry>, now: int, nonce: string, nc: int) {
    exists e :: e in es && e.nonce == nonce && e.count == nc && e.checkTime + 3600 >= now
  }

  /** The realm's nonce, with a response that matches. */
  predicate LogsIn(cred: Credentials) {
    cred.Given? && cred.matches && cred.nonce == "camlite"
  }

  /** What comes of a request at which the sessions are `es`, and `made` is the nonce that would be issued. */
  ghost predicate OutcomeFor(es: seq<Entry>, r: Request, auth: bool, made: string, o: Outcome) {
    && (o == Open <==> !auth)
    && (forall n, nc :: o == Accept(n, nc) <==>
          auth && r.cred == Given(n, nc, true) && |n| == 32 && n != "camlite" && Expects(es, r.t0, n, nc))
    && (o.Issue? ==> o.nonce == made)
    && (o.Issue? <==>
          auth && LogsIn(r.cred) && |Current(es, r.t0)| < 1000
          && forall e | e in Current(es, r.t0) :: e.nonce != made)
    && (o == ServerError <==> auth && LogsIn(r.cred) && !o.Issue?)
  }

  /** The sessions after it: the current ones, of which the accepted one is advanced and stamped, and the issued one. */
  ghost predicate SessionsFor(es: seq<Entry>, r: Request, o: Outcome, after: seq<Entry>) {
    var cur := Current(es, r.t0);
    match o
    case Issue(n) => after == cur + [Entry(n, r.t1, 1)]
    case Accept(n, nc) =>
      && |after| == |cur|
      && forall i | 0 <= i < |cur| :: after[i] == if cur[i].nonce == n then Entry(n, r.t1, nc + 1) else cur[i]
    case _ => after == cur
  }

  lemma CurrentSub(es: seq<Entry>, now: int)
    ensures forall e :: e in Current(es, now) <==> e in es && e.checkTime + 3600 >= now
  {
    FilterSub(es, Recent(now));
  }

  /** The first session of a nonce is its only one. */
  lemma PositionIs(es: seq<Entry>, nonce: string)
    requires DistinctNonces(es)
    ensures forall i | 0 <= i < |es| && es[i].nonce == nonce :: i == Position(es, nonce)
    ensures Position(es, nonce) == |es| <==> forall e | e in es :: e.nonce != nonce
  {
    var k := Position(es, nonce);
    if k < |es| {
      assert es[k] in es;
    }
  }

  lemma UseExactly(s: State, r: Request)
    requires DistinctNonces(s.entries) && r.cred.Given? && r.cred.matches && r.cred.nonce != "camlite"
    ensures
      var (s', o) := UseDigest(s, r.t1, r.cred.nonce, r.cred.nc);
      var n, nc := r.cred.nonce, r.cred.nc;
      && (o == Accept(n, nc) || o == Challenge)
      && (o.Accept? <==> |n| == 32 && exists e :: e in s.entries && e.nonce == n && e.count == nc)
      && |s'.entries| == |s.entries| && s'.digestCount == s.digestCount
      && forall i | 0 <= i < |s.entries| ::
           s'.entries[i] == if o.Accept? && s.entries[i].nonce == n then Entry(n, r.t1, nc + 1) else s.entries[i]
  {
    hide Position;
    PositionIs(s.entries, r.cred.nonce);
  }

  lemma CheckExactly(s: State, r: Request, auth: bool, make: NonceMaker)
    requires DistinctNonces(s.entries)
    ensures
      var (s', o) := Check(s, r, auth, make);
      && OutcomeFor(s.entries, r, auth, make(s.digestCount, r.t1, r.ip), o)
      && SessionsFor(s.entries, r, o, s'.entries)
      && s'.digestCount == if o.Issue? then s.digestCount + 1 else s.digestCount
  {
    hide Expire, Current, DistinctNonces, UseDigest, Position;
    ExpireIsCurrent(s.entries, r.t0);
    CurrentSub(s.entries, r.t0);
    ExpireDistinct(s.entries, r.t0);
    var cur := Current(s.entries, r.t0);
    PositionIs(cur, make(s.digestCount, r.t1, r.ip));
    if r.cred.Given? && r.cred.matches && r.cred.nonce != "camlite" {
      UseExactly(s.(entries := cur), r);
    }
  }

  /**
   Over every run, each outcome in full. Accepted is a (nonce, count) exactly if authentication is
   on, the response matches, and an unexpired session of that 32-digit nonce expects that count;
   issued is a nonce exactly for a matching log-in with fewer than 1000 other sessions, none of
   them of that nonce; without authentication everything is open.
   */
  lemma OutcomeExactly(rs: seq<Request>, auth: bool, make: NonceMaker, k: nat)
    requires MakesNonces(make) && k < |rs|
    ensures OutcomeFor(Run(rs[..k], auth, make).0.entries, rs[k], auth,
                       make(CounterAt(rs, auth, make, k), rs[k].t1, rs[k].ip), Run(rs, auth, make).1[k])
    ensures SessionsFor(Run(rs[..k], auth, make).0.entries, rs[k], Run(rs, auth, make).1[k],
                        Run(rs[..k + 1], auth, make).0.entries)
  {
    hide Run, Check, OutcomeFor, SessionsFor;
    RunInv(rs[..k], auth, make);
    RunAt(rs, auth, make, k);
    CheckExactly(Run(rs[..k], auth, make).0, rs[k], auth, make);
  }

  // ----- a repeated nonce is enough

  /** Two clients log in with the same nonce, the second when the session of the first has expired. */
  ghost function ReplayRequests(nonce: string, t: int, ip: int, t': int, ip': int): seq<Request> {
    [ Request(t, t, ip, Given(REALM_NONCE, 0, true)),
      Request(t, t, ip, Given(nonce, 1, true)),
      Request(t', t', ip', Given(REALM_NONCE, 0, true)),
      Request(t', t', ip', Given(nonce, 1, true)) ]
  }

  lemma RunStep(rs: seq<Request>, r: Request, make: NonceMaker, s: State, outs: seq<Outcome>, s': State, o: Outcome)
    requires Run(rs, true, make) == (s, outs) && Check(s, r, true, make) == (s', o)
    ensures Run(rs + [r], true, make) == (s', outs + [o])
  {
    assert (rs + [r])[..|rs|] == rs;
  }

  /** The steps of the replay: issue and use the nonce, when no other session is left after expiry. */
  lemma ReplayStep(make: NonceMaker, nonce: string, es: seq<Entry>, count: nat, t: int, ip: int)
    requires |nonce| == 32
    ensures Expire(es, t) == [] && make(count, t, ip) == nonce ==>
              Check(State(es, count), Request(t, t, ip, Given(REALM_NONCE, 0, true)), true, make)
              == (State([Entry(nonce, t, 1)], count + 1), Issue(nonce))
    ensures Expire(es, t) == es && |es| == 1 && es[0].nonce == nonce && es[0].count == 1 ==>
              Check(State(es, count), Request(t, t, ip, Given(nonce, 1, true)), true, make)
              == (State([Entry(nonce, t, 2)], count), Accept(nonce, 1))
  {
    assert |REALM_NONCE| == 7;
    assert [] + [Entry(nonce, t, 1)] == [Entry(nonce, t, 1)];
    if |es| == 1 && es[0].nonce == nonce && es[0].count == 1 {
      assert Position(es, nonce) == 0;
      assert es[0 := Entry(nonce, t, 2)] == [Entry(nonce, t, 2)];
    }
  }

  lemma ExpireOne(e: Entry, now: int)
    ensures Expire([], now) == []
    ensures Expire([e], now) == if Keep(e, now) then [e] else []
  {
    FilterTail([e], now);
    assert [e][1..] == [];
  }

  /**
   For every nonce maker, the code's own included: if its first two counter values can make one
   nonce, more than an hour apart, then a run of four requests is a replay.
   */
  lemma ReplayHappens(make: NonceMaker, t: int, ip: int, t': int, ip': int)
    requires |make(0, t, ip)| == 32 && make(0, t, ip) == make(1, t', ip') && t' > t + EXPIRE_TIME
    ensures !NoReplay(Run(ReplayRequests(make(0, t, ip), t, ip, t', ip'), true, make).1)
  {
    hide Check, Expire, NoReplay;
    var nonce := make(0, t, ip);
    var rs := ReplayRequests(nonce, t, ip, t', ip');
    var e0, e1 := Entry(nonce, t, 1), Entry(nonce, t, 2);
    var e2, e3 := Entry(nonce, t', 1), Entry(nonce, t', 2);
    ExpireOne(e0, t); ExpireOne(e1, t'); ExpireOne(e2, t');
    ReplayStep(make, nonce, [], 0, t, ip);
    ReplayStep(make, nonce, [e0], 1, t, ip);
    ReplayStep(make, nonce, [e1], 1, t', ip');
    ReplayStep(make, nonce, [e2], 2, t', ip');
    assert Run([], true, make) == (State([], 0), []);
    hide Run;
    var o, a := Issue(nonce), Accept(nonce, 1);
    RunStep([], rs[0], make, State([], 0), [], State([e0], 1), o);
    assert [] + [rs[0]] == [rs[0]] && [rs[0]] + [rs[1]] == [rs[0], rs[1]];
    assert [rs[0], rs[1]] + [rs[2]] == [rs[0], rs[1], rs[2]];
    assert [] + [o] == [o] && [o] + [a] == [o, a] && [o, a] + [o] == [o, a, o];
    RunStep([rs[0]], rs[1], make, State([e0], 1), [o], State([e1], 1), a);
    RunStep([rs[0], rs[1]], rs[2], make, State([e1], 1), [o, a], State([e2], 2), o);
    RunStep([rs[0], rs[1], rs[2]], rs[3], make, State([e2], 2), [o, a, o], State([e3], 2), a);
    assert [rs[0], rs[1], rs[2]] + [rs[3]] == rs;
    ReplayIs(o, a, Run(rs, true, make).1);
  }

  lemma ReplayIs(o: Outcome, a: Outcome, outs: seq<Outcome>)
    requires outs == [o, a, o, a] && a.Accept?
    ensures !NoReplay(outs)
  {
    assert outs[1] == outs[3];
  }
}
