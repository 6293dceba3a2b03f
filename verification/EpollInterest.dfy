/** The interest set that src/epoll.c keeps in the kernel and the calls of src/evloop.c that change it. */
module EpollInterest {
  import opened Sequences
  import opened Wrappers

  /** The CRTX_EVLOOP_* flags and the EPOLL* flags; a mask is the set of the flags whose bit is one. */
  datatype EventFlag = Read | Write | Special | EdgeTriggered | Timeout | Error | Hup | RdHup
  datatype EpollFlag = In | Pri | Out | Et | EpollErr | EpollHup | EpollRdHup

  /** crtx_event_flags2epoll_flags(). The other event flags, such as the one for timeouts, have no
      counterpart that could be registered. */
  function ToEpoll(flags: set<EventFlag>): set<EpollFlag> {
    (if Read in flags then {In} else {})
    + (if Write in flags then {Out} else {})
    + (if Special in flags then {Pri} else {})
    + (if EdgeTriggered in flags then {Et} else {})
  }

  /** crtx_epoll_flags2crtx_event_flags(): what a callback is told about a ready event. */
  function FromEpoll(flags: set<EpollFlag>): set<EventFlag> {
    (if In in flags then {Read} else {})
    + (if Out in flags then {Write} else {})
    + (if Pri in flags then {Special} else {})
    + (if Et in flags then {EdgeTriggered} else {})
    + (if EpollErr in flags then {Error} else {})
    + (if EpollHup in flags then {Hup} else {})
    + (if EpollRdHup in flags then {RdHup} else {})
  }

  /** What a callback registers is given back to it by ready events: exactly the flags that can be registered. */
  lemma RegisteredFlagsComeBack(flags: set<EventFlag>)
    ensures FromEpoll(ToEpoll(flags)) == flags - {Timeout, Error, Hup, RdHup}
  {
    forall f ensures f in FromEpoll(ToEpoll(flags)) <==> f in flags - {Timeout, Error, Hup, RdHup} {
      FlagComesBack(flags, f);
    }
  }

  lemma FlagComesBack(flags: set<EventFlag>, f: EventFlag)
    ensures f in FromEpoll(ToEpoll(flags)) <==> f in flags && f !in {Timeout, Error, Hup, RdHup}
  {
    FromEpollMember(ToEpoll(flags), f);
    match f {
      case Read => ToEpollMember(flags, In);
      case Write => ToEpollMember(flags, Out);
      case Special => ToEpollMember(flags, Pri);
      case EdgeTriggered => ToEpollMember(flags, Et);
      case Error => ToEpollMember(flags, EpollErr);
      case Hup => ToEpollMember(flags, EpollHup);
      case RdHup => ToEpollMember(flags, EpollRdHup);
      case Timeout =>
    }
  }

  /** Reading is registered as input, writing as output, and so on; nothing else is registered. */
  lemma ToEpollMember(flags: set<EventFlag>, f: EpollFlag)
    ensures f in ToEpoll(flags) <==>
            match f
            case In => Read in flags
            case Out => Write in flags
            case Pri => Special in flags
            case Et => EdgeTriggered in flags
            case _ => false
  {
  }

  /** Ready events are reported by the same flags; errors and hang-ups, which are never registered, are reported
      too, and timeouts never. */
  lemma FromEpollMember(ready: set<EpollFlag>, f: EventFlag)
    ensures f in FromEpoll(ready) <==>
            match f
            case Read => In in ready
            case Write => Out in ready
            case Special => Pri in ready
            case EdgeTriggered => Et in ready
            case Error => EpollErr in ready
            case Hup => EpollHup in ready
            case RdHup => EpollRdHup in ready
            case Timeout => false
  {
  }

  class EvloopCallback {
    const flags: set<EventFlag>
    const entry: EvloopFd
    var active: bool

    constructor (entry: EvloopFd, flags: set<EventFlag>, active: bool)
      ensures this.entry == entry && this.flags == flags && this.active == active
    {
      this.entry, this.flags, this.active := entry, flags, active;
    }
  }

  class EvloopFd {
    const fd: nat
    var added: bool
    var elData: Option<set<EpollFlag>>
    var callbacks: seq<EvloopCallback>
    var attached: bool  // the evloop field is set

    constructor (fd: nat)
      ensures this.fd == fd && !added && elData == None && callbacks == [] && !attached
    {
      this.fd, added, elData, callbacks, attached := fd, false, None, [], false;
    }
  }

  /** What one callback asks for: nothing unless it is active. */
  function Mask(cb: EvloopCallback): set<EpollFlag>
    reads cb
  {
    if cb.active then ToEpoll(cb.flags) else {}
  }

  /** The union of what the active callbacks ask for. */
  function Wanted(cbs: seq<EvloopCallback>): set<EpollFlag>
    reads cbs
  {
    if cbs == [] then {} else Wanted(cbs[..|cbs| - 1]) + Mask(cbs[|cbs| - 1])
  }

  /** A flag is wanted if and only if some active callback asks for it. */
  lemma {:induction false} WantedFlags(cbs: seq<EvloopCallback>, flag: EpollFlag)
    ensures flag in Wanted(cbs) <==> exists i :: 0 <= i < |cbs| && flag in Mask(cbs[i])
  {
    if cbs != [] {
      var init := cbs[..|cbs| - 1];
      WantedFlags(init, flag);
      if flag in Wanted(init) {
        var i :| 0 <= i < |init| && flag in Mask(init[i]);
        assert cbs[i] == init[i];
      }
    }
  }

  /** crtx_ll_append() in the singly linked build: appending a member leaves the list as it was. */
  function Appended<T(==)>(s: seq<T>, x: T): seq<T> {
    if x in s then s else s + [x]
  }

  lemma AppendedMembers<T>(s: seq<T>, x: T)
    requires NoDuplicates(s)
    ensures NoDuplicates(Appended(s, x))
    ensures forall y :: y in Appended(s, x) <==> y in s || y == x
  {
    if x !in s { AppendedDistinct(s, x); }
  }

  lemma {:induction false} UnlinkedMembers<T>(s: seq<T>, x: T)
    requires NoDuplicates(s)
    ensures NoDuplicates(WithoutFirst(s, x))
    ensures forall y :: y in WithoutFirst(s, x) <==> y in s && y != x
  {
    if s != [] {
      assert forall y :: y in s <==> y == s[0] || y in s[1..];
      assert s[0] !in s[1..];
      UnlinkedMembers(s[1..], x);
    }
  }

  lemma {:induction false} WantedFirst(cbs: seq<EvloopCallback>)
    requires cbs != []
    ensures Wanted(cbs) == Mask(cbs[0]) + Wanted(cbs[1..])
  {
    if |cbs| == 1 {
      assert cbs[1..] == [] && cbs[..0] == [];
      assert Wanted(cbs[..0]) == {};
    } else {
      var init := cbs[..|cbs| - 1];
      assert init[1..] == cbs[1..][..|cbs| - 2];
      WantedFirst(init);
    }
  }

  lemma {:induction false} RemovingInactive(cbs: seq<EvloopCallback>, cb: EvloopCallback)
    requires !cb.active
    ensures Wanted(WithoutFirst(cbs, cb)) == Wanted(cbs)
  {
    if cbs != [] {
      WantedFirst(cbs);
      if cbs[0] != cb {
        RemovingInactive(cbs[1..], cb);
        WantedFirst(WithoutFirst(cbs, cb));
        assert WithoutFirst(cbs, cb)[1..] == WithoutFirst(cbs[1..], cb);
      }
    }
  }

  class EventLoop {
    var fds: seq<EvloopFd>           // evloop->fds
    var kernel: map<nat, set<EpollFlag>>       // the interest set of the epoll descriptor
    ghost var all: set<EvloopFd>     // every descriptor structure in use
    ghost var failed: set<EvloopFd>  // those the kernel refused to add last time

    /** The structures agree for one descriptor. */
    ghost predicate Synced(f: EvloopFd)
      reads this, f, f.callbacks
    {
      SyncedIf(f, f in fds)
    }

    /** They would if the descriptor were listed as said. */
    ghost predicate SyncedIf(f: EvloopFd, listed: bool)
      reads this, f, f.callbacks
    {
      var wanted := if f.attached then Wanted(f.callbacks) else {};
      && (listed <==> wanted != {})
      && f.elData == (if wanted != {} then Some(wanted) else None)
      && (f.added <==> wanted != {} && f !in failed)
      && (f.fd in kernel <==> f.added)
      && (f.added ==> kernel[f.fd] == wanted)
      && (f in failed ==> wanted != {})
    }

    ghost predicate WellFormed()
      reads this, all
    {
      && (forall f :: f in fds ==> f in all)
      && NoDuplicates(fds)
      && (forall f, g :: f in all && g in all && f != g ==> f.fd != g.fd)
      && (forall f :: f in all ==> CallbacksOf(f))
    }

    static ghost predicate CallbacksOf(f: EvloopFd)
      reads f
    {
      (forall cb :: cb in f.callbacks ==> cb.entry == f) && NoDuplicates(f.callbacks)
    }

    ghost predicate Valid()
      reads this, all, set f, i | f in all && 0 <= i < |f.callbacks| :: f.callbacks[i]
    {
      WellFormed() && forall f :: f in all ==> Synced(f)
    }

    constructor ()
      ensures Valid() && all == {} && failed == {}
    {
      fds, kernel, all, failed := [], map[], {}, {};
    }

    /** The structures may be out of step for f, whose callbacks have just changed, but for no other. */
    ghost predicate SyncedBut(f: EvloopFd)
      reads this, all, set g, i | g in all && 0 <= i < |g.callbacks| :: g.callbacks[i]
    {
      && WellFormed() && f in all && f.attached
      && (forall g :: g in all && g != f ==> Synced(g))
      && (f.fd in kernel <==> f.added)
      && (f in fds <==> f.elData.Some?)
      && (f.added <==> f in fds && f !in failed)
      && (f in failed ==> f in fds)
    }

    /** crtx_epoll_manage_fd(); addOk says whether epoll_ctl() accepts a new descriptor. */
    method ManageFd(f: EvloopFd, addOk: bool)
      requires SyncedBut(f)
      modifies this`fds, this`kernel, this`failed, f`added, f`elData
      ensures Valid() && failed <= old(failed) + (if addOk then {} else {f})
    {
      var events: set<EpollFlag> := {};
      for k := 0 to |f.callbacks|
        invariant events == Wanted(f.callbacks[..k])
      {
        assert f.callbacks[..k + 1][..k] == f.callbacks[..k];
        if f.callbacks[k].active {
          events := events + ToEpoll(f.callbacks[k].flags);
        }
      }
      assert f.callbacks[..|f.callbacks|] == f.callbacks;
      if events != {} {
        if f.added {
          Modify(f, events);
        } else {
          Add(f, events, addOk);
        }
      } else {
        Deregister(f);
      }
    }

    /** The branch of crtx_epoll_manage_fd() that modifies a registered descriptor. */
    method Modify(f: EvloopFd, events: set<EpollFlag>)
      requires SyncedBut(f) && events == Wanted(f.callbacks) && events != {} && f.added
      modifies this`kernel, f`elData
      ensures Valid()
    {
      f.elData := Some(events);
      kernel := kernel[f.fd := events];
      assert Synced(f);
      forall g | g in all && g != f ensures Synced(g) {
        assert old(Synced(g));
      }
    }

    /** Everything agrees once f is listed as said. */
    ghost predicate SyncedOnceListed(f: EvloopFd, listed: bool)
      reads this, all, set g, i | g in all && 0 <= i < |g.callbacks| :: g.callbacks[i]
    {
      WellFormed() && f in all && SyncedIf(f, listed) && forall g :: g in all && g != f ==> Synced(g)
    }

    /** The branch that adds a descriptor. */
    method Add(f: EvloopFd, events: set<EpollFlag>, addOk: bool)
      requires SyncedBut(f) && events == Wanted(f.callbacks) && events != {} && !f.added
      modifies this`fds, this`kernel, this`failed, f`added, f`elData
      ensures Valid() && failed == (if addOk then old(failed) - {f} else old(failed) + {f})
    {
      AddToKernel(f, events, addOk);
      List(f);
    }

    method AddToKernel(f: EvloopFd, events: set<EpollFlag>, addOk: bool)
      requires SyncedBut(f) && events == Wanted(f.callbacks) && events != {} && !f.added
      modifies this`kernel, this`failed, f`added, f`elData
      ensures SyncedOnceListed(f, true) && failed == (if addOk then old(failed) - {f} else old(failed) + {f})
    {
      f.elData := Some(events);
      if addOk {
        kernel := kernel[f.fd := events];
      }
      f.added := addOk;
      failed := if addOk then failed - {f} else failed + {f};
      forall g | g in all && g != f ensures Synced(g) {
        assert old(Synced(g)) && g.fd != f.fd;
      }
    }

    method List(f: EvloopFd)
      requires SyncedOnceListed(f, true)
      modifies this`fds
      ensures Valid()
    {
      AppendedMembers(fds, f);
      fds := Appended(fds, f);
      forall g | g in all ensures Synced(g) {
        assert old(SyncedIf(g, g in fds || g == f));
      }
    }

    /** The branch that removes the descriptor. */
    method Deregister(f: EvloopFd)
      requires SyncedBut(f) && Wanted(f.callbacks) == {}
      modifies this`fds, this`kernel, this`failed, f`added, f`elData
      ensures Valid() && failed <= old(failed)
    {
      RemoveFromKernel(f);
      Delist(f);
    }

    method RemoveFromKernel(f: EvloopFd)
      requires SyncedBut(f) && Wanted(f.callbacks) == {}
      modifies this`kernel, this`failed, f`added, f`elData
      ensures SyncedOnceListed(f, false) && failed <= old(failed)
    {
      kernel := kernel - {f.fd};
      f.elData := None;
      f.added := false;
      failed := failed - {f};
      forall g | g in all && g != f ensures Synced(g) {
        assert old(Synced(g)) && g.fd != f.fd;
      }
    }

    method Delist(f: EvloopFd)
      requires SyncedOnceListed(f, false)
      modifies this`fds
      ensures Valid()
    {
      UnlinkedMembers(fds, f);
      fds := WithoutFirst(fds, f);
      forall g | g in all ensures Synced(g) {
        assert old(SyncedIf(g, g in fds && g != f));
      }
    }

    /** A new descriptor structure that no event loop knows yet. */
    method NewFd(fd: nat) returns (f: EvloopFd)
      requires Valid() && fd !in kernel && forall g :: g in all ==> g.fd != fd
      modifies this`all
      ensures Valid() && fresh(f) && f.fd == fd && f.callbacks == [] && all == old(all) + {f} && failed == old(failed)
    {
      f := new EvloopFd(fd);
      all := all + {f};
      assert Synced(f);
      forall g | g in all && g != f ensures Synced(g) {
        assert old(Synced(g));
      }
    }

    /** crtx_evloop_create_fd_entry(); crtx_evloop_init_listener() also sets active, before the descriptor is
        attached to a loop. */
    method CreateCallback(f: EvloopFd, flags: set<EventFlag>, active: bool) returns (cb: EvloopCallback)
      requires Valid() && f in all && (active ==> !f.attached)
      modifies f`callbacks
      ensures Valid() && fresh(cb) && cb.entry == f && cb.flags == flags && cb.active == active
      ensures f.callbacks == old(f.callbacks) + [cb]
    {
      cb := new EvloopCallback(f, flags, active);
      AppendedDistinct(f.callbacks, cb);
      f.callbacks := f.callbacks + [cb];
      assert f.callbacks[..|f.callbacks| - 1] == old(f.callbacks);
      assert Wanted(f.callbacks) == Wanted(old(f.callbacks)) + Mask(cb);
      assert !active ==> Wanted(f.callbacks) == old(Wanted(f.callbacks));
      forall g | g in all ensures Synced(g) {
        assert old(Synced(g));
      }
    }

    /** crtx_evloop_enable_cb(). */
    method EnableCb(cb: EvloopCallback, addOk: bool)
      requires Valid() && cb.entry in all
      modifies this, cb`active, cb.entry`added, cb.entry`elData, cb.entry`attached
      ensures Valid() && cb.active && cb.entry.attached && all == old(all)
      ensures failed <= old(failed) + (if addOk then {} else {cb.entry})
    {
      cb.active := true;
      cb.entry.attached := true;
      forall g | g in all && g != cb.entry ensures Synced(g) {
        assert old(Synced(g));
        assert cb !in g.callbacks;
      }
      ManageFd(cb.entry, addOk);
    }

    /** crtx_evloop_disable_cb(). */
    method DisableCb(cb: EvloopCallback, addOk: bool)
      requires Valid() && cb.entry in all
      modifies this, cb`active, cb.entry`added, cb.entry`elData
      ensures Valid() && !cb.active && all == old(all)
      ensures failed <= old(failed) + (if addOk then {} else {cb.entry})
    {
      if !cb.active { return; }
      cb.active := false;
      forall g | g in all && (g != cb.entry || !g.attached) ensures Synced(g) {
        assert old(Synced(g));
        assert g != cb.entry ==> cb !in g.callbacks;
      }
      if cb.entry.attached {
        ManageFd(cb.entry, addOk);
      }
    }

    /** crtx_evloop_remove_cb(). */
    method RemoveCb(cb: EvloopCallback, addOk: bool)
      requires Valid() && cb.entry in all
      modifies this, cb`active, cb.entry`added, cb.entry`elData, cb.entry`callbacks
      ensures Valid() && !cb.active && all == old(all)
      ensures cb.entry.callbacks == WithoutFirst(old(cb.entry.callbacks), cb) && cb !in cb.entry.callbacks
      ensures failed <= old(failed) + (if addOk then {} else {cb.entry})
    {
      DisableCb(cb, addOk);
      UnlinkCallback(cb);
    }

    method UnlinkCallback(cb: EvloopCallback)
      requires Valid() && cb.entry in all && !cb.active
      modifies cb.entry`callbacks
      ensures Valid() && cb.entry.callbacks == WithoutFirst(old(cb.entry.callbacks), cb) && cb !in cb.entry.callbacks
    {
      var f := cb.entry;
      RemovingInactive(f.callbacks, cb);
      UnlinkedMembers(f.callbacks, cb);
      f.callbacks := WithoutFirst(f.callbacks, cb);
      forall g | g in all ensures Synced(g) {
        assert old(Synced(g));
      }
    }
  }

  /** After any calls that keep Valid, the kernel watches a descriptor for a flag if and only if an active
      callback of it asks for that flag, unless the kernel refused the last attempt to add it. */
  lemma KernelWatchesWhatIsAskedFor(loop: EventLoop, f: EvloopFd, flag: EpollFlag)
    requires loop.Valid() && f in loop.all && f !in loop.failed
    ensures f.fd in loop.kernel && flag in loop.kernel[f.fd] <==>
            f.attached && exists i :: 0 <= i < |f.callbacks|
                                        && f.callbacks[i].active && flag in ToEpoll(f.callbacks[i].flags)
  {
    WantedFlags(f.callbacks, flag);
    if i :| 0 <= i < |f.callbacks| && f.callbacks[i].active && flag in ToEpoll(f.callbacks[i].flags) {
      assert flag in Mask(f.callbacks[i]);
    }
  }

  /** A descriptor is in evloop->fds, the list whose deadlines the loop looks at, if and only if an active
      callback asks for something that can be registered: deadlines of callbacks that wait for nothing but
      their timeout are neither slept for nor fired. */
  lemma ScannedIffRegistrable(loop: EventLoop, f: EvloopFd)
    requires loop.Valid() && f in loop.all
    ensures f in loop.fds <==>
            f.attached && exists i :: 0 <= i < |f.callbacks| && f.callbacks[i].active
                                        && !(f.callbacks[i].flags <= {Timeout, Error, Hup, RdHup})
  {
    forall flag: EpollFlag ensures flag in Wanted(f.callbacks) <==>
        exists i :: 0 <= i < |f.callbacks| && flag in Mask(f.callbacks[i]) {
      WantedFlags(f.callbacks, flag);
    }
    forall i | 0 <= i < |f.callbacks| && f.callbacks[i].active
      ensures Mask(f.callbacks[i]) == {} <==> f.callbacks[i].flags <= {Timeout, Error, Hup, RdHup}
    {
      OnlyUnregistrable(f.callbacks[i].flags);
    }
    if Wanted(f.callbacks) != {} {
      var flag :| flag in Wanted(f.callbacks);
      var i :| 0 <= i < |f.callbacks| && flag in Mask(f.callbacks[i]);
      assert Mask(f.callbacks[i]) != {};
    }
    if i :| 0 <= i < |f.callbacks| && f.callbacks[i].active && !(f.callbacks[i].flags <= {Timeout, Error, Hup, RdHup}) {
      var flag :| flag in Mask(f.callbacks[i]);
      assert flag in Wanted(f.callbacks);
    }
  }

  lemma OnlyUnregistrable(flags: set<EventFlag>)
    ensures ToEpoll(flags) == {} <==> flags <= {Timeout, Error, Hup, RdHup}
  {
    if !(flags <= {Timeout, Error, Hup, RdHup}) {
      var flag :| flag in flags && flag !in {Timeout, Error, Hup, RdHup};
      match flag {
        case Read => assert In in ToEpoll(flags);
        case Write => assert Out in ToEpoll(flags);
        case Special => assert Pri in ToEpoll(flags);
        case EdgeTriggered => assert Et in ToEpoll(flags);
        case _ =>
      }
    }
  }
}
