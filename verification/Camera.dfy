/**
 The ports of src/v4l2port.c and the manager of src/video_manager.c in place. Every operation is
 proved to do what CameraSpec says of it, whatever the driver answers.
 */
module Camera {
  import opened Pevents
  import opened Texts
  import opened Spec = CameraSpec

  /** reqbufs[i].start: NULL, MAP_FAILED, or an address. */
  datatype Start = Null | Failed | At(address: int)

  /** The addresses among recorded entries. */
  ghost function AddressesOf(s: seq<Start>): seq<int> {
    if s == [] then []
    else AddressesOf(s[..|s| - 1]) + if s[|s| - 1].At? then [s[|s| - 1].address] else []
  }

  lemma {:induction false} NoAddresses(s: seq<Start>, t: seq<Start>)
    requires forall x | x in t :: !x.At?
    ensures AddressesOf(s + t) == AddressesOf(s)
    decreases |t|
  {
    if t == [] {
      assert s + t == s;
    } else {
      assert (s + t)[..|s + t| - 1] == s + t[..|t| - 1];
      NoAddresses(s, t[..|t| - 1]);
    }
  }

  class Port {
    var fd: int
    var initFlag: bool
    var streamFlag: bool
    var reqbufsCount: nat
    const reqbufs: array<Start>
    ghost var mapped: set<int>
    ghost var leaked: set<int>
    ghost var open: set<int>
    ghost var calls: seq<Call>

    ghost predicate Shape()
      reads this
    {
      reqbufs.Length == REQ_BUFFER_MAX && reqbufsCount <= REQ_BUFFER_MAX
    }

    ghost function Abs(): Spec.Port
      requires Shape()
      reads this, reqbufs
    {
      Spec.Port(fd, initFlag, streamFlag, AddressesOf(reqbufs[..reqbufsCount]), mapped, leaked, open, calls)
    }

    /** v4l2port_new. */
    constructor ()
      ensures Shape() && Abs() == NewPort() && fresh(reqbufs) && Settled()
    {
      fd, initFlag, streamFlag, reqbufsCount := 0, false, false, 0;
      reqbufs := new Start[REQ_BUFFER_MAX](_ => Null);
      mapped, leaked, open, calls := {}, {}, {}, [];
    }

    /** Between operations every recorded entry is a mapping, and the others are clear. */
    ghost predicate Settled()
      reads this, reqbufs
    {
      && Shape()
      && (forall i | 0 <= i < reqbufsCount :: reqbufs[i].At?)
      && (forall i | reqbufsCount <= i < reqbufs.Length :: reqbufs[i] == Null)
    }

    /** v4l2port_mmap_release. */
    method MmapRelease(unmap: int -> bool)
      requires Shape()
      modifies `mapped, `leaked, `reqbufsCount, reqbufs
      ensures Settled() && reqbufsCount == 0 && Abs() == Spec.MmapRelease(old(Abs()), unmap)
    {
      hide AddressesOf, Given, Kept;
      ghost var all := reqbufs[..];
      ghost var p := Abs();
      NothingYet(unmap);
      var i := 0;
      while i < reqbufsCount
        invariant i <= reqbufsCount == old(reqbufsCount) && reqbufs[..] == all
        invariant mapped == p.mapped - Given(all[..i], unmap)
        invariant leaked == p.leaked + Kept(all[..i], unmap)
      {
        assert all[..i + 1] == all[..i] + [reqbufs[i]];
        if !reqbufs[i].At? {
          GivenNone(all[..i], reqbufs[i], unmap);
        } else {
          GivenOne(all[..i], reqbufs[i].address, unmap);
          if unmap(reqbufs[i].address) {
            mapped := mapped - {reqbufs[i].address};
          } else {
            leaked := leaked + {reqbufs[i].address};
          }
        }
        i := i + 1;
      }
      AllGiven(all[..i], p, unmap);
      reqbufsCount := 0;
      forall k | 0 <= k < reqbufs.Length {
        reqbufs[k] := Null;
      }
      assert reqbufs[..0] == [];
    }

    /** The mapping loop of v4l2port_mmap_init; `k` buffers get mapped. */
    method MapBuffers(r: MapResults) returns (k: nat)
      requires Settled() && reqbufsCount == 0
      modifies `mapped, `reqbufsCount, reqbufs
      ensures Shape() && k == MappedCount(r, 0, REQ_BUFFER_MAX) && Abs() == WithBuffers(old(Abs()), r, k)
      ensures k == REQ_BUFFER_MAX ==> Settled() && reqbufsCount == REQ_BUFFER_MAX
    {
      ghost var p := Abs();
      reqbufsCount := REQ_BUFFER_MAX;
      k := 0;
      FirstAddresses(reqbufs[..], r, 0);
      while k < reqbufsCount
        invariant k <= reqbufsCount == REQ_BUFFER_MAX && Filled(reqbufs[..], r, k)
        invariant mapped == p.mapped + ToSet(Addresses(r, k))
      {
        ghost var before := reqbufs[..];
        if !r.query(k) {
          break;
        }
        var start := r.mmap(k);
        if start.None? {
          reqbufs[k] := Failed;
          break;
        }
        assert Mappable(r, k);
        reqbufs[k] := At(start.value);
        mapped := mapped + {start.value};
        OneMore(r, k);
        k := k + 1;
      }
      CountIs(r, k);
      FirstAddresses(reqbufs[..], r, k);
      assert reqbufs[..reqbufsCount] == reqbufs[..];
    }

    /** v4l2port_mmap_init. */
    method MmapInit(r: MapResults) returns (ret: int)
      requires Settled() && r.granted <= REQ_BUFFER_MAX
      modifies `mapped, `leaked, `reqbufsCount, reqbufs
      ensures Settled()
      ensures (Abs(), ret == 0) == Spec.MmapInit(old(Abs()), r) && (ret == 0 || ret == -1)
    {
      hide AddressesOf, Spec.MmapRelease, MappedCount, WithBuffers;
      ghost var p := Abs();
      Recorded(reqbufs[..reqbufsCount]);
      if reqbufsCount > 0 {
        MmapRelease(r.unmapOld);
      }
      ghost var q := Abs();
      if !r.reqbufs || r.granted < REQ_BUFFER_MAX {
        assert reqbufs[..0] == [];
        NothingYet(r.unmap);
        ReleaseNothing(q, r.unmap);
        MmapRelease(r.unmap);
        return -1;
      }
      var k := MapBuffers(r);
      if k < REQ_BUFFER_MAX {
        MmapRelease(r.unmap);
        return -1;
      }
      var queued := QueueBuffers(r);
      if !queued {
        MmapRelease(r.unmap);
        return -1;
      }
      ret := 0;
    }

    /** v4l2port_stream with flag 1; `on` is whether STREAMON succeeds. */
    method StreamOn(r: MapResults, on: bool) returns (ret: int)
      requires Settled() && r.granted <= REQ_BUFFER_MAX
      modifies `mapped, `leaked, `reqbufsCount, `streamFlag, `calls, reqbufs
      ensures Settled() && (Abs(), ret == 0) == Spec.StreamOn(old(Abs()), r, on) && (ret == 0 || ret == -1)
    {
      hide Spec.MmapInit;
      if streamFlag {
        return -1;
      }
      ret := MmapInit(r);
      if ret == -1 {
        return;
      }
      calls := calls + [On(on)];
      if !on {
        return -1;
      }
      streamFlag := true;
    }

    /** v4l2port_stream with flag 0; `off` is whether STREAMOFF succeeds. */
    method StreamOff(off: bool, unmap: int -> bool) returns (ret: int)
      requires Settled()
      modifies `mapped, `leaked, `reqbufsCount, `streamFlag, `calls, reqbufs
      ensures Settled() && (Abs(), ret == 0) == Spec.StreamOff(old(Abs()), off, unmap) && (ret == 0 || ret == -1)
    {
      hide Spec.MmapRelease;
      if !streamFlag {
        return -1;
      }
      calls := calls + [Off(off)];
      if !off {
        return -1;
      }
      MmapRelease(unmap);
      streamFlag := false;
      ret := 0;
    }

    /** v4l2port_uninit. */
    method Uninit(off: bool, unmap: int -> bool)
      requires Settled()
      modifies this, reqbufs
      ensures Settled() && Abs() == Spec.Uninit(old(Abs()), off, unmap)
    {
      hide Spec.StreamOff;
      var ret := StreamOff(off, unmap);
      if fd >= 0 {
        open := open - {fd};
        calls := calls + [Closed];
        fd := 0;
      }
      initFlag := false;
      streamFlag := false;
    }

    /** v4l2port_init. */
    method Init(r: OpenResults, off: bool, unmap: int -> bool) returns (ret: int)
      requires Settled()
      modifies this, reqbufs
      ensures Settled() && (Abs(), ret == 0) == Spec.Init(old(Abs()), r, off, unmap) && (ret == 0 || ret == -1)
    {
      hide Spec.Uninit;
      if initFlag {
        Uninit(off, unmap);
      }
      var newFd := r.fd;
      if newFd < 0 {
        return -1;
      }
      ghost var was := open;
      open := open + {newFd};
      if !r.cap || !r.streaming || !r.format || !r.parm {
        if newFd > 0 {
          open := open - {newFd};
          assert open == was - {newFd};
        }
        return -1;
      }
      fd := newFd;
      initFlag := true;
      ret := 0;
    }

    /** Initialise and start streaming where that is not done, as video_manager_stream_start does. */
    method Prepare(d: Driver) returns (ret: int)
      requires Settled() && d.maps.granted <= REQ_BUFFER_MAX
      modifies this, reqbufs
      ensures Settled() && (Abs(), ret == 0) == Spec.Prepare(old(Abs()), d) && (ret == 0 || ret == -1)
    {
      hide Spec.Init, Spec.StreamOn;
      ret := 0;
      if !initFlag {
        ret := Init(d.opening, d.off, d.unmapOff);
        if ret == -1 {
          return;
        }
      }
      if !streamFlag {
        ret := StreamOn(d.maps, d.on);
      }
    }

    /** v4l2port_read: the buffer handed to the callback, if a frame is dequeued, is a live mapping. */
    method Read(dequeued: Option<nat>, queued: bool) returns (ret: int, frame: Option<int>)
      requires Settled() && PortOk(Abs()) && (dequeued.Some? ==> dequeued.value < reqbufsCount || !streamFlag)
      ensures frame.Some? <==> streamFlag && dequeued.Some?
      ensures frame.Some? ==> frame.value in mapped && frame.value !in leaked
      ensures ret == 0 <==> frame.Some? && queued
    {
      if !streamFlag {
        return -1, None;
      }
      if dequeued.None? {
        return -1, None;
      }
      AddressAt(reqbufs[..reqbufsCount], dequeued.value);
      assert reqbufs[dequeued.value].address in ToSet(Abs().bufs);
      frame := Some(reqbufs[dequeued.value].address);
      ret := if queued then 0 else -1;
    }

    /** The queueing loop of v4l2port_mmap_init. */
    method QueueBuffers(r: MapResults) returns (ok: bool)
      requires reqbufsCount == REQ_BUFFER_MAX
      ensures ok == AllQueued(r, REQ_BUFFER_MAX)
    {
      var i := 0;
      while i < reqbufsCount
        invariant i <= reqbufsCount && AllQueued(r, i)
      {
        if !r.queue(i) {
          return false;
        }
        i := i + 1;
      }
      ok := true;
    }
  }

  /** The first `k` entries are what was mapped for them, and no other is an address. */
  ghost predicate Filled(s: seq<Start>, r: MapResults, k: nat) {
    && k <= |s|
    && (forall j | 0 <= j < k :: Mappable(r, j) && s[j] == At(r.mmap(j).value))
    && (forall j | k <= j < |s| :: !s[j].At?)
  }

  lemma {:induction false} FirstAddresses(s: seq<Start>, r: MapResults, k: nat)
    requires Filled(s, r, k)
    ensures AddressesOf(s) == Addresses(r, k)
    decreases k
  {
    NoAddresses(s[..k], s[k..]);
    assert s == s[..k] + s[k..];
    if k > 0 {
      FirstAddresses(s[..k - 1], r, k - 1);
      assert s[..k][..k - 1] == s[..k - 1];
    }
  }

  lemma OneMore(r: MapResults, k: nat)
    requires Mappable(r, k) && forall j | 0 <= j < k :: Mappable(r, j)
    ensures ToSet(Addresses(r, k + 1)) == ToSet(Addresses(r, k)) + {r.mmap(k).value}
  {
    assert Addresses(r, k + 1) == Addresses(r, k) + [r.mmap(k).value];
  }

  lemma CountIs(r: MapResults, k: nat)
    requires k <= REQ_BUFFER_MAX && forall j | 0 <= j < k :: Mappable(r, j)
    requires k < REQ_BUFFER_MAX ==> !Mappable(r, k)
    ensures MappedCount(r, 0, REQ_BUFFER_MAX) == k
  {
  }

  lemma Recorded(s: seq<Start>)
    requires forall i | 0 <= i < |s| :: s[i].At?
    ensures AddressesOf(s) == [] <==> s == []
  {
  }

  lemma {:induction false} AddressAt(s: seq<Start>, i: nat)
    requires i < |s| && s[i].At?
    ensures s[i].address in AddressesOf(s)
    decreases |s|
  {
    if i < |s| - 1 {
      AddressAt(s[..|s| - 1], i);
    }
  }

  lemma ReleaseNothing(p: Spec.Port, unmap: int -> bool)
    requires p.bufs == []
    ensures Spec.MmapRelease(p, unmap) == p
  {
  }

  /** The recorded addresses that munmap gives back, and those it does not. */
  ghost function Given(s: seq<Start>, unmap: int -> bool): set<int> {
    set x | x in AddressesOf(s) && unmap(x)
  }

  ghost function Kept(s: seq<Start>, unmap: int -> bool): set<int> {
    set x | x in AddressesOf(s) && !unmap(x)
  }

  lemma GivenOne(s: seq<Start>, a: int, unmap: int -> bool)
    ensures Given(s + [At(a)], unmap) == Given(s, unmap) + if unmap(a) then {a} else {}
    ensures Kept(s + [At(a)], unmap) == Kept(s, unmap) + if unmap(a) then {} else {a}
  {
    assert (s + [At(a)])[..|s|] == s;
    assert AddressesOf(s + [At(a)]) == AddressesOf(s) + [a];
  }

  lemma NothingYet(unmap: int -> bool)
    ensures AddressesOf([]) == [] && Given([], unmap) == {} && Kept([], unmap) == {}
  {
  }

  lemma AllGiven(s: seq<Start>, p: Spec.Port, unmap: int -> bool)
    requires p.bufs == AddressesOf(s)
    ensures
      var q := Spec.MmapRelease(p, unmap);
      q.bufs == [] && q.mapped == p.mapped - Given(s, unmap) && q.leaked == p.leaked + Kept(s, unmap)
  {
  }

  lemma GivenNone(s: seq<Start>, x: Start, unmap: int -> bool)
    requires !x.At?
    ensures Given(s + [x], unmap) == Given(s, unmap) && Kept(s + [x], unmap) == Kept(s, unmap)
  {
    NoAddresses(s, [x]);
  }

  // ----- the manager

  /** One entry of g_video_manage.videos. */
  class VideoData {
    var video: Port?
    var pevent: Pevent?
    var lastCheckTime: int

    constructor ()
      ensures video == null && pevent == null && lastCheckTime == 0
    {
      video, pevent, lastCheckTime := null, null, 0;
    }

    ghost predicate Settled()
      reads this, pevent, video, if video == null then {} else {video.reqbufs}
    {
      (video != null ==> video.Settled()) && (pevent != null ==> pevent.Valid())
    }

    /** The slot this entry is. */
    ghost function Abs(): Slot
      requires Settled()
      reads this, pevent, video, if video == null then {} else {video.reqbufs}
    {
      Slot(if video == null then None else Some(video.Abs()),
           if pevent == null then None else Some(Watch(pevent.fd, pevent.state)), lastCheckTime)
    }

    /** The entry's own memory. */
    ghost function Repr(): (r: set<object>)
      reads this`video, this`pevent
      ensures this in r
    {
      {this} + (if video == null then {} else {video, video.reqbufs})
      + (if pevent == null then {} else {pevent as object})
    }

    /** pevent_new and pevent_set(PEVENT_READ) of video_manager_stream_start. */
    method Register(d: Driver) returns (ret: int)
      requires Settled() && video != null && pevent == null
      modifies `pevent, video, video.reqbufs
      ensures video == old(video) && Settled() && (ret == 0 || ret == -1)
      ensures pevent == null || fresh(pevent)
      ensures
        match PeventSet(Idle, Read, d.registered)
        case None =>
          && ret == -1
          && Abs() == old(Abs()).(port := Some(Spec.StreamOff(old(video.Abs()), d.off, d.unmapOff).0))
        case Some(state) => ret == 0 && Abs() == old(Abs()).(pevent := Some(Watch(old(video.fd), state)))
    {
      hide Spec.StreamOff;
      var newPevent := new Pevent(video.fd);
      var armed := newPevent.Change(Read, d.registered);
      if armed == -1 {
        newPevent.FreeNoClose(d.deleted);
        var off := video.StreamOff(d.off, d.unmapOff);
        return -1;
      }
      pevent := newPevent;
      ret := 0;
    }

    /** video_manager_stream_start behind the index check. */
    method StreamStart(now: int, d: Driver) returns (ret: int)
      requires Settled() && d.maps.granted <= REQ_BUFFER_MAX
      modifies Repr()
      ensures video == old(video) && Settled() && fresh(Repr() - old(Repr()))
      ensures pevent == old(pevent) || pevent == null || fresh(pevent)
      ensures (Abs(), ret) == Spec.StreamStart(old(Abs()), now, d)
    {
      hide Spec.Prepare, Spec.StreamOff;
      if video == null {
        return -1;
      }
      lastCheckTime := now;
      if pevent != null {
        return 0;
      }
      ret := video.Prepare(d);
      if ret == -1 {
        return;
      }
      ret := Register(d);
    }

    /** video_manager_init_video behind the index check. */
    method InitVideo(d: Driver) returns (ret: int)
      requires Settled()
      modifies Repr()
      ensures video == old(video) && Settled() && fresh(Repr() - old(Repr()))
      ensures pevent == null || pevent == old(pevent)
      ensures (Abs(), ret) == Spec.InitVideo(old(Abs()), d)
    {
      hide Spec.Init;
      if video == null {
        return -1;
      }
      if pevent != null {
        pevent.FreeNoClose(d.deleted);
        pevent := null;
      }
      ret := video.Init(d.opening, d.off, d.unmapOff);
    }

    /** The idle check of on_video_event at time `now`. */
    method CheckIdle(now: int, timeout: nat, d: Driver)
      requires Settled() && (pevent != null ==> video != null)
      modifies Repr()
      ensures video == old(video) && Settled() && fresh(Repr() - old(Repr()))
      ensures pevent == old(pevent) || pevent == null
      ensures Abs() == if TimedOut(old(Abs()), now, timeout) then TurnOff(old(Abs()), d) else old(Abs())
    {
      hide Spec.StreamOff;
      if timeout > 0 && now - lastCheckTime > timeout {
        if pevent != null {
          var ret := video.StreamOff(d.off, d.unmapOff);
          pevent.FreeNoClose(d.deleted);
          pevent := null;
        }
      }
    }
  }

  ghost function Members(vs: seq<VideoData>): set<VideoData> {
    set v | v in vs
  }

  ghost function Objects(vs: seq<VideoData>): set<object>
    reads Members(vs)`video, Members(vs)`pevent
  {
    set i, o | 0 <= i < |vs| && o in vs[i].Repr() :: o
  }

  ghost predicate Apart(vs: seq<VideoData>)
    reads Members(vs)`video, Members(vs)`pevent
  {
    forall i, j | 0 <= i < j < |vs| :: vs[i].Repr() !! vs[j].Repr()
  }

  ghost predicate Is(v: VideoData, s: Slot)
    reads v, v.Repr()
  {
    v.Settled() && v.Abs() == s
  }

  ghost predicate Shows(vs: seq<VideoData>, slots: seq<Slot>)
    reads Members(vs), Objects(vs)
  {
    |vs| == |slots| && forall i | 0 <= i < |vs| :: Is(vs[i], slots[i])
  }

  /** g_video_manage. */
  class VideoManager {
    const timeout: nat
    var count: nat
    const videos: seq<VideoData>
    ghost var slots: seq<Slot>

    /** The zeroed static storage. */
    constructor (videos: seq<VideoData>, timeout: nat)
      requires |videos| == MAX_VIDEO_COUNT && forall i, j | 0 <= i < j < |videos| :: videos[i] != videos[j]
      requires forall v | v in videos :: v.video == null && v.pevent == null && v.lastCheckTime == 0
      ensures Valid() && View() == NewManager() && this.videos == videos && this.timeout == timeout
    {
      this.videos, this.timeout, count := videos, timeout, 0;
      slots := NewManager().slots;
      new;
      forall i | 0 <= i < |videos| ensures Is(videos[i], slots[i]) {
        assert videos[i] in videos;
      }
      assert forall i | 0 <= i < |slots| :: SlotOk(slots[i]);
    }

    ghost function View(): Manager
      reads this
    {
      Manager(count, slots)
    }

    ghost predicate Valid()
      reads this, Members(videos), Objects(videos)
    {
      |videos| == MAX_VIDEO_COUNT && Apart(videos) && Shows(videos, slots) && ManagerOk(View())
    }

    /** An entry and its slot. */
    lemma EntryAt(k: nat)
      requires Valid() && k < |videos|
      ensures k < |slots| && videos[k] in Members(videos) && videos[k].Settled() && videos[k].Abs() == slots[k]
      ensures SlotOk(slots[k]) && videos[k].Repr() <= Objects(videos)
      ensures forall j | 0 <= j < |videos| && j != k :: videos[k].Repr() !! videos[j].Repr()
    {
      assert Is(videos[k], slots[k]);
      forall j | 0 <= j < |videos| && j != k ensures videos[k].Repr() !! videos[j].Repr() {
        if j < k {
          assert videos[j].Repr() !! videos[k].Repr();
        }
      }
    }

    /** Entry `k` has changed to `s`, within its own memory; the others have not been touched. */
    ghost method SetSlot(k: nat, s: Slot)
      requires k < |videos| == |slots| && Apart(videos) && Shows(videos, slots[k := s]) && |videos| == MAX_VIDEO_COUNT
      requires ManagerOk(Manager(count, slots[k := s]))
      modifies `slots
      ensures Valid() && slots == old(slots)[k := s]
    {
      hide ManagerOk, Apart, Shows;
      NotAmong();
      slots := slots[k := s];
    }

    lemma NotAmong()
      ensures (this as object) !in Members(videos) && this !in Objects(videos)
    {
    }

    /** video_manager_stream_start. */
    method StreamStart(index: nat, now: int, d: Driver) returns (ret: int)
      requires Valid() && LegalEvent(View(), Request(index, now, d)) && d.maps.granted <= REQ_BUFFER_MAX
      modifies this, Members(videos), Objects(videos)
      ensures Valid() && View() == Spec.Step(old(View()), Request(index, now, d), timeout)
      ensures ret == if index < MAX_VIDEO_COUNT then Spec.StreamStart(old(slots)[index], now, d).1 else -1
    {
      hide SlotOk, ManagerOk, Spec.StreamStart, LegalDriver, VideoData.Settled, VideoData.Abs;
      if index >= MAX_VIDEO_COUNT {
        SlotsAre();
        return -1;
      }
      StepOk(View(), Request(index, now, d), timeout);
      EntryAt(index);
      ret := StartEntry(index, slots[index], slots, now, d);
      SetSlot(index, Spec.StreamStart(slots[index], now, d).0);
    }

    lemma SlotsAre()
      requires ManagerOk(View())
      ensures count <= |slots| == MAX_VIDEO_COUNT
    {
    }

    /** video_manager_init_video. */
    method InitVideo(index: nat, d: Driver) returns (ret: int)
      requires Valid() && LegalEvent(View(), Reinit(index, d))
      modifies this, Members(videos), Objects(videos)
      ensures Valid() && View() == Spec.Step(old(View()), Reinit(index, d), timeout)
      ensures ret == if index < MAX_VIDEO_COUNT then Spec.InitVideo(old(slots)[index], d).1 else -1
    {
      hide SlotOk, ManagerOk, Spec.InitVideo, LegalDriver, VideoData.Settled, VideoData.Abs;
      if index >= MAX_VIDEO_COUNT {
        SlotsAre();
        return -1;
      }
      StepOk(View(), Reinit(index, d), timeout);
      EntryAt(index);
      ret := InitEntry(index, slots[index], slots, d);
      SetSlot(index, Spec.InitVideo(slots[index], d).0);
    }

    /** Put a new port into empty entry `i`. */
    method Install(i: nat, video: Port)
      requires Valid() && i < |videos| && slots[i].port.None? && video.Settled() && video.Abs() == NewPort()
      requires Foreign(video)
      modifies {videos[i]}`video
      ensures Apart(videos) && |videos| == |slots| && Shows(videos, slots[i := slots[i].(port := Some(NewPort()))])
      ensures videos[i].video == video && videos[i].Repr() == {videos[i], video, video.reqbufs}
    {
      hide ManagerOk, PortOk, VideoData.Settled, VideoData.Abs, VideoData.Repr, Port.Abs, Port.Settled, Is, Objects;
      Room(i);
      ghost var objs := Objects(videos);
      videos[i].video := video;
      Installed(videos[i], slots[i]);
      forall j | 0 <= j < |videos| && j != i
        ensures Is(videos[j], slots[j]) && videos[j].Repr() == old(videos[j].Repr())
        ensures videos[j].Repr() !! videos[i].Repr()
      {
        assert old(allocated(videos[j].Repr()) && Is(videos[j], slots[j]));
        Among(videos[j].Repr(), objs, videos[i], video, video.reqbufs);
      }
    }

    static lemma Among(mine: set<object>, objs: set<object>, v: object, x: object, y: object)
      requires mine <= objs && v !in mine && x !in objs && y !in objs
      ensures mine !! {v, x, y}
    {
    }

    lemma Room(i: nat)
      requires Valid() && i < |videos| && slots[i].port.None?
      ensures videos[i].pevent == null && slots[i].pevent.None? && videos[i].lastCheckTime == slots[i].last
      ensures forall j | 0 <= j < |videos| && j != i :: videos[j] != videos[i] && videos[i] !in videos[j].Repr()
      ensures forall j | 0 <= j < |videos| && j != i :: videos[j].Repr() <= Objects(videos)
    {
      hide ManagerOk;
      EntryAt(i);
      forall j | 0 <= j < |videos| && j != i
        ensures videos[j] != videos[i] && videos[i] !in videos[j].Repr() && videos[j].Repr() <= Objects(videos)
      {
        EntryAt(j);
        assert videos[i] in videos[i].Repr() && videos[j] in videos[j].Repr();
      }
    }

    static lemma Installed(v: VideoData, s: Slot)
      requires v.video != null && v.video.Settled() && v.video.Abs() == NewPort()
      requires v.pevent == null && s.pevent.None? && v.lastCheckTime == s.last
      ensures Is(v, s.(port := Some(NewPort()))) && v.Repr() == {v, v.video, v.video.reqbufs}
    {
    }

    /** A port whose memory no entry has. */
    ghost predicate Foreign(video: Port)
      reads Members(videos)`video, Members(videos)`pevent
    {
      video !in Objects(videos) && video.reqbufs !in Objects(videos)
    }

    method NewPortObject() returns (video: Port)
      requires Valid()
      ensures Valid() && video.Settled() && video.Abs() == NewPort() && Foreign(video)
      ensures fresh(video) && fresh(video.reqbufs)
    {
      hide ManagerOk, Shows, Apart;
      assert forall x | x in Members(videos) :: allocated(x);
      assert forall o | o in Objects(videos) :: allocated(o);
      video := new Port();
    }

    /** video_manager_add. */
    method Add(d: Driver) returns (ret: int)
      requires Valid() && LegalEvent(View(), AddDevice(d))
      modifies this, Members(videos), Objects(videos)
      ensures Valid() && View() == Spec.Step(old(View()), AddDevice(d), timeout)
      ensures ret ==
        if old(count) < MAX_VIDEO_COUNT then Spec.InitVideo(old(slots)[old(count)].(port := Some(NewPort())), d).1
        else -1
    {
      hide ManagerOk, SlotOk, PortOk, Spec.InitVideo, LegalDriver, LegalEvent, Spec.Step;
      hide Shows, Apart, Foreign, VideoData.Settled, VideoData.Abs, VideoData.Repr, Port.Settled, Port.Abs;
      AddIs(d);
      if count >= MAX_VIDEO_COUNT {
        return -1;
      }
      EmptyAt(count);
      var i := count;
      var video := NewPortObject();
      Install(i, video);
      NotAmong();
      count := count + 1;
      ghost var s := slots[i].(port := Some(NewPort()));
      ghost var t := Spec.InitVideo(s, d).0;
      ret := InitEntry(i, s, slots[i := s], d);
      assert slots[i := s][i := t] == slots[i := t];
      SetSlot(i, t);
    }

    lemma AddIs(d: Driver)
      requires ManagerOk(View()) && LegalEvent(View(), AddDevice(d))
      ensures count <= |slots| == MAX_VIDEO_COUNT
      ensures
        Spec.Step(View(), AddDevice(d), timeout) ==
          if count < MAX_VIDEO_COUNT then
            Manager(count + 1, slots[count := Spec.InitVideo(slots[count].(port := Some(NewPort())), d).0])
          else View()
      ensures ManagerOk(Spec.Step(View(), AddDevice(d), timeout))
    {
      hide SlotOk, Spec.InitVideo;
      StepOk(View(), AddDevice(d), timeout);
    }

    lemma EmptyAt(i: nat)
      requires ManagerOk(View()) && count <= i < |slots|
      ensures slots[i].port.None?
    {
    }

    /** Initialise the port of entry `i`; the other entries are not touched. */
    method InitEntry(i: nat, ghost s: Slot, ghost ss: seq<Slot>, d: Driver) returns (ret: int)
      requires i < |videos| == |ss| && ss[i] == s && Apart(videos) && Shows(videos, ss)
      modifies videos[i], videos[i].Repr()
      ensures videos[i].video == old(videos[i].video)
      ensures Apart(videos) && Shows(videos, ss[i := Spec.InitVideo(s, d).0]) && ret == Spec.InitVideo(s, d).1
    {
      hide Spec.InitVideo, Spec.StreamStart, TimedOut, TurnOff, SlotOk;
      hide VideoData.Settled, VideoData.Abs, VideoData.Repr, Is;
      EntryIs(i, ss);
      ret := videos[i].InitVideo(d);
      NowIs(videos[i]);
      forall j | 0 <= j < |videos| && j != i
        ensures Is(videos[j], ss[j]) && videos[j].Repr() == old(videos[j].Repr())
        ensures videos[j].Repr() !! videos[i].Repr()
      {
        assert old(Is(videos[j], ss[j]));
        assert old(allocated(videos[j].Repr()) && videos[j].Repr() !! videos[i].Repr());
      }
    }

    /** Start the stream of entry `i`; the other entries are not touched. */
    method StartEntry(i: nat, ghost s: Slot, ghost ss: seq<Slot>, now: int, d: Driver) returns (ret: int)
      requires i < |videos| == |ss| && ss[i] == s && Apart(videos) && Shows(videos, ss)
      requires d.maps.granted <= REQ_BUFFER_MAX
      modifies videos[i], videos[i].Repr()
      ensures videos[i].video == old(videos[i].video)
      ensures Apart(videos) && Shows(videos, ss[i := Spec.StreamStart(s, now, d).0])
      ensures ret == Spec.StreamStart(s, now, d).1
    {
      hide Spec.InitVideo, Spec.StreamStart, TimedOut, TurnOff, SlotOk;
      hide VideoData.Settled, VideoData.Abs, VideoData.Repr, Is;
      EntryIs(i, ss);
      ret := videos[i].StreamStart(now, d);
      NowIs(videos[i]);
      forall j | 0 <= j < |videos| && j != i
        ensures Is(videos[j], ss[j]) && videos[j].Repr() == old(videos[j].Repr())
        ensures videos[j].Repr() !! videos[i].Repr()
      {
        assert old(Is(videos[j], ss[j]));
        assert old(allocated(videos[j].Repr()) && videos[j].Repr() !! videos[i].Repr());
      }
    }

    /** Make the idle check of entry `i`; the other entries are not touched. */
    method IdleEntry(i: nat, ghost s: Slot, ghost ss: seq<Slot>, now: int, d: Driver)
      requires i < |videos| == |ss| && ss[i] == s && Apart(videos) && Shows(videos, ss)
      requires SlotOk(s)
      modifies videos[i], videos[i].Repr()
      ensures videos[i].video == old(videos[i].video)
      ensures Apart(videos) && Shows(videos, ss[i := if TimedOut(s, now, timeout) then TurnOff(s, d) else s])
    {
      hide Spec.InitVideo, Spec.StreamStart, TimedOut, TurnOff, SlotOk;
      hide VideoData.Settled, VideoData.Abs, VideoData.Repr, Is;
      EntryIs(i, ss);
      videos[i].CheckIdle(now, timeout, d);
      NowIs(videos[i]);
      forall j | 0 <= j < |videos| && j != i
        ensures Is(videos[j], ss[j]) && videos[j].Repr() == old(videos[j].Repr())
        ensures videos[j].Repr() !! videos[i].Repr()
      {
        assert old(Is(videos[j], ss[j]));
        assert old(allocated(videos[j].Repr()) && videos[j].Repr() !! videos[i].Repr());
      }
    }

    static lemma NowIs(v: VideoData)
      requires v.Settled()
      ensures Is(v, v.Abs())
    {
    }

    lemma EntryIs(i: nat, ss: seq<Slot>)
      requires i < |videos| == |ss| && Shows(videos, ss)
      ensures videos[i].Settled() && videos[i].Abs() == ss[i]
      ensures SlotOk(ss[i]) && videos[i].pevent != null ==> videos[i].video != null
    {
      assert Is(videos[i], ss[i]);
    }

    /** Set the check time of entry `i`. */
    method Stamp(i: nat, now: int)
      requires Valid() && i < |videos|
      modifies `slots, {videos[i]}`lastCheckTime
      ensures Valid() && slots == old(slots)[i := old(slots)[i].(last := now)]
    {
      hide ManagerOk, PortOk, SlotOk;
      EntryAt(i);
      LastOk(View(), i, now);
      videos[i].lastCheckTime := now;
      ghost var s := slots[i].(last := now);
      assert Is(videos[i], s);
      forall j | 0 <= j < |videos| && j != i ensures Is(videos[j], slots[j]) {
        assert old(Is(videos[j], slots[j]));
      }
      SetSlot(i, s);
    }

    /** video_manager_set_check_time: the entry that holds the port, if any, is stamped. */
    method SetCheckTime(video: Port, now: int)
      requires Valid()
      modifies `slots, Members(videos)`lastCheckTime
      ensures Valid()
      ensures forall k | 0 <= k < count && videos[k].video == video ::
                slots == old(slots)[k := old(slots)[k].(last := now)]
      ensures (forall k | 0 <= k < count :: videos[k].video != video) ==> slots == old(slots)
    {
      hide ManagerOk, Shows;
      SlotsAre();
      var i := 0;
      while i < count
        invariant i <= count && Valid() && slots == old(slots) && forall k | 0 <= k < i :: videos[k].video != video
      {
        if videos[i].video == video {
          forall k | 0 <= k < count && videos[k].video == video ensures k == i {
            OnlyOne(i, k);
          }
          Stamp(i, now);
          break;
        }
        i := i + 1;
      }
    }

    /** No two entries hold one port. */
    lemma OnlyOne(i: nat, k: nat)
      requires Apart(videos) && i < |videos| && k < |videos| && videos[i].video == videos[k].video != null
      ensures i == k
    {
      var x: object := videos[i].video;
      assert x in videos[i].Repr() && x in videos[k].Repr();
    }

    static lemma LastOk(m: Manager, i: nat, now: int)
      requires ManagerOk(m) && i < |m.slots|
      ensures ManagerOk(m.(slots := m.slots[i := m.slots[i].(last := now)]))
    {
      hide PortOk;
    }

    /**
     v4l2port_read with camhttp_on_video_read as its callback: the check time is set if the delivery
     count is positive.
     */
    method ReadFrame(k: nat, v: Delivery, buffer: nat, queued: bool, t0: int)
      requires Valid() && k < |slots| && slots[k].pevent.Some?
      requires v.dequeued ==> slots[k].port.Some? && buffer < |slots[k].port.value.bufs|
      modifies `slots, Members(videos)`lastCheckTime
      ensures Valid()
      ensures
        var s := old(slots)[k];
        slots == old(slots)[k :=
          if s.port.Some? && s.port.value.stream && v.dequeued && Count(v) > 0 then s.(last := t0) else s]
    {
      hide ManagerOk, PortOk, Shows, Count, AddressesOf;
      HasPort(k);
      var video := videos[k].video;
      RecordedAll(video.reqbufs[..video.reqbufsCount]);
      assert forall x | x in Members(videos) :: allocated(x);
      assert forall o | o in Objects(videos) :: allocated(o);
      var ret, frame := video.Read(if v.dequeued then Some(buffer) else None, queued);
      if frame.Some? {
        var delivered := Count(v);
        if delivered > 0 {
          SetCheckTime(video, t0);
        }
      }
      assert old(slots)[k := old(slots)[k]] == old(slots);
    }

    /** A registered entry has a port that is in order. */
    lemma HasPort(k: nat)
      requires Valid() && k < |slots| && slots[k].pevent.Some?
      ensures k < count <= |videos| && videos[k].video != null && videos[k].video.Settled()
      ensures slots[k].port == Some(videos[k].video.Abs()) && PortOk(videos[k].video.Abs())
    {
      EntryAt(k);
    }

    /** on_video_event for a registered device that is readable. */
    method OnVideoEvent(k: nat, v: Delivery, buffer: nat, queued: bool, t0: int, t1: int, d: Driver)
      requires Valid() && k < |slots| && slots[k].pevent.Some?
      requires v.dequeued ==> slots[k].port.Some? && buffer < |slots[k].port.value.bufs|
      modifies this, Members(videos), Objects(videos)
      ensures Valid() && View() == Spec.Step(old(View()), Spec.Event.Ready(k, v, t0, t1, d), timeout)
    {
      hide ManagerOk, PortOk, SlotOk, Count, TurnOff, TimedOut, Shows, LegalDelivery;
      HasPort(k);
      ReadFrame(k, v, buffer, queued, t0);
      Idle(k, t1, d);
    }

    /** The idle check of entry `k`. */
    method Idle(k: nat, now: int, d: Driver)
      requires Valid() && k < |slots| && slots[k].pevent.Some?
      modifies this, Members(videos), Objects(videos)
      ensures Valid() && count == old(count)
      ensures
        var s := old(slots)[k];
        slots == old(slots)[k := if TimedOut(s, now, timeout) then TurnOff(s, d) else s]
    {
      hide ManagerOk, PortOk, TurnOff, TimedOut, VideoData.Settled, VideoData.Abs;
      HasPort(k);
      EntryAt(k);
      ghost var s := if TimedOut(slots[k], now, timeout) then TurnOff(slots[k], d) else slots[k];
      IdleOk(View(), k, now, d);
      IdleEntry(k, slots[k], slots, now, d);
      SetSlot(k, s);
    }

    lemma IdleOk(m: Manager, k: nat, now: int, d: Driver)
      requires ManagerOk(m) && k < |m.slots|
      ensures
        var s := if TimedOut(m.slots[k], now, timeout) then TurnOff(m.slots[k], d) else m.slots[k];
        ManagerOk(m.(slots := m.slots[k := s]))
    {
      hide PortOk, Spec.StreamOff;
      if m.slots[k].port.Some? {
        StreamOffOk(m.slots[k].port.value, d.off, d.unmapOff);
      }
    }
  }

  lemma {:induction false} RecordedAll(s: seq<Start>)
    requires forall i | 0 <= i < |s| :: s[i].At?
    ensures |AddressesOf(s)| == |s|
  {
    if s != [] {
      RecordedAll(s[..|s| - 1]);
    }
  }
}
