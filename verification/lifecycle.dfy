/**
 `filter_create`, `filter_update` and `filter_destroy`: what each leaves in
 the record and in the host's list of render callbacks. The settings object
 the host passes is never read, so it does not appear.
 */
module Lifecycle {
  import opened Obs
  import opened Bracketing
  import opened FilterData
  import opened Registry
  import opened Callback
  import Frames

  datatype Registered = Registered(callbacks: Callbacks, trace: seq<Command>)

  /** `filter_update`: remove the render callback for `data`, then add it
      again. Whatever was there before, `data` ends up registered at least
      once, and at most as often as before when it already was. */
  function FilterUpdate(cbs: Callbacks, data: Ptr): (r: Registered)
    ensures Registrations(r.callbacks, data)
            == if Registrations(cbs, data) == 0 then 1 else Registrations(cbs, data)
    ensures forall d | d != data :: Registrations(r.callbacks, d) == Registrations(cbs, d)
    ensures |r.trace| == 2 && r.trace[0] == RemoveMainRenderCallback(data)
    ensures r.trace[1] == AddMainRenderCallback(data)
    ensures r.callbacks == ApplyRegistrations(cbs, r.trace)
    ensures WellBracketed(r.trace)
  {
    var t := [RemoveMainRenderCallback(data), AddMainRenderCallback(data)];
    assert Scan(Outside, t[1..]) == At(Outside);
    assert ApplyRegistrations(Remove(cbs, data), t[1..]) == Add(Remove(cbs, data), data);
    Registered(Add(Remove(cbs, data), data), t)
  }

  /** Carrying out `u` after `before` leaves the host's list that their
      combined trace yields. */
  lemma FollowsTraceStep(cbs: Callbacks, before: Registered, u: Registered)
    requires before.callbacks == ApplyRegistrations(cbs, before.trace)
    requires u.callbacks == ApplyRegistrations(before.callbacks, u.trace)
    ensures u.callbacks == ApplyRegistrations(cbs, before.trace + u.trace)
  {
    ApplyRegistrationsAppend(cbs, before.trace, u.trace);
  }

  /** The commands of `n` updates: `n` remove/add pairs for `data`. */
  function UpdateCommands(data: Ptr, n: nat): seq<Command>
    decreases n
  {
    if n == 0 then []
    else UpdateCommands(data, n - 1) + [RemoveMainRenderCallback(data), AddMainRenderCallback(data)]
  }

  /** `n` calls of `filter_update` in a row: the trace is `n` remove/add
      pairs, and the host's list is what carrying out that trace yields. */
  function UpdateRepeatedly(cbs: Callbacks, data: Ptr, n: nat): (r: Registered)
    ensures |r.trace| == 2 * n
    ensures r.trace == UpdateCommands(data, n)
    ensures r.callbacks == ApplyRegistrations(cbs, r.trace)
    decreases n
  {
    if n == 0 then Registered(cbs, [])
    else
      var before := UpdateRepeatedly(cbs, data, n - 1);
      var u := FilterUpdate(before.callbacks, data);
      FollowsTraceStep(cbs, before, u);
      Registered(u.callbacks, before.trace + u.trace)
  }

  /** However many times the filter is updated, a filter registered at most
      once stays registered exactly once, and no other entry changes. */
  lemma {:induction false} UpdatesKeepOneRegistration(cbs: Callbacks, data: Ptr, n: nat)
    requires n >= 1 && Registrations(cbs, data) <= 1
    ensures Registrations(UpdateRepeatedly(cbs, data, n).callbacks, data) == 1
    ensures forall d | d != data ::
              Registrations(UpdateRepeatedly(cbs, data, n).callbacks, d) == Registrations(cbs, d)
    decreases n
  {
    if n > 1 {
      UpdatesKeepOneRegistration(cbs, data, n - 1);
    }
  }

  datatype Created = Created(filter: Filter, callbacks: Callbacks, trace: seq<Command>)

  /** `filter_create`: a record at the fresh address `addr` with zero size,
      no texture, `source` as its context and the texrender that
      `gs_texrender_create2` returned, followed by a forced update. */
  function FilterCreate(cbs: Callbacks, addr: nat, source: Ptr, texrender: Ptr): (r: Created)
    ensures r.filter.context == source && r.filter.texrender == texrender
    ensures r.filter.texture == Null && r.filter.StoredSize() == Size(0, 0)
    ensures Registrations(cbs, Addr(addr)) == 0 ==> Registrations(r.callbacks, Addr(addr)) == 1
    ensures forall d | d != Addr(addr) :: Registrations(r.callbacks, d) == Registrations(cbs, d)
    ensures |r.trace| > 0 && r.trace[0] == TexrenderCreate(Rgba16, ZsNone)
    // after creating the texrender, `filter_create` is exactly one update
    ensures r.trace[1..] == FilterUpdate(cbs, Addr(addr)).trace
    ensures r.callbacks == FilterUpdate(cbs, Addr(addr)).callbacks
    ensures r.callbacks == ApplyRegistrations(cbs, r.trace)
    ensures WellBracketed(r.trace)
  {
    var f := Filter(source, texrender, Null, 0, 0);
    var u := FilterUpdate(cbs, Addr(addr));
    var created := [TexrenderCreate(Rgba16, ZsNone)];
    WellBracketedAppend(created, u.trace);
    ApplyRegistrationsAppend(cbs, created, u.trace);
    assert (created + u.trace)[1..] == u.trace;
    Created(f, u.callbacks, created + u.trace)
  }

  /** `c` is issued inside an `obs_enter_graphics`/`obs_leave_graphics`
      scope of `t`. */
  predicate UnderGraphics(t: seq<Command>, c: Command) {
    exists i | 0 <= i < |t| ::
      && t[i] == c
      && EnterGraphics in t[..i] && LeaveGraphics !in t[..i]
      && LeaveGraphics in t[i + 1..]
  }

  datatype Destroyed = Destroyed(filter: Filter, callbacks: Callbacks, trace: seq<Command>)

  /** `filter_destroy`: for a non-null `data`, unregister the callback
      first, then inside a graphics scope drop the texture pointer and
      destroy the texrender. `filter` is the record just before it is
      freed. A null `data` does nothing. */
  function FilterDestroy(cbs: Callbacks, data: Ptr, f: Filter): (r: Destroyed)
    ensures data == Null ==> r.filter == f && r.callbacks == cbs && r.trace == []
    ensures data != Null ==>
              && r.filter.texture == Null && r.filter.texrender == Null
              && r.filter.context == f.context && r.filter.StoredSize() == f.StoredSize()
    ensures data != Null ==>
              Registrations(r.callbacks, data)
              == if Registrations(cbs, data) == 0 then 0 else Registrations(cbs, data) - 1
    ensures forall d | d != data :: Registrations(r.callbacks, d) == Registrations(cbs, d)
    ensures data != Null ==>
              && |r.trace| == 4 && r.trace[0] == RemoveMainRenderCallback(data)
              && UnderGraphics(r.trace, TexrenderDestroy(f.texrender))
    ensures r.callbacks == ApplyRegistrations(cbs, r.trace)
    ensures WellBracketed(r.trace)
  {
    if data == Null then
      Destroyed(f, cbs, [])
    else
      var t := [RemoveMainRenderCallback(data), EnterGraphics, TexrenderDestroy(f.texrender), LeaveGraphics];
      assert t[..2] == [RemoveMainRenderCallback(data), EnterGraphics];
      assert t[3..] == [LeaveGraphics];
      assert Scan(Outside, t[3..]) == At(Outside);
      assert Scan(Outside, t[2..]) == At(Outside);
      assert Scan(Outside, t[1..]) == At(Outside);
      var removed := Remove(cbs, data);
      assert ApplyRegistrations(removed, t[3..]) == removed;
      assert ApplyRegistrations(removed, t[2..]) == removed;
      assert ApplyRegistrations(removed, t[1..]) == removed;
      Destroyed(f.(texture := Null, texrender := Null), Remove(cbs, data), t)
  }

  /** A filter created at a fresh address, updated any number of times and
      then destroyed leaves no render callback behind and both its
      pointers null. */
  lemma LifetimeLeavesNoCallback(cbs: Callbacks, addr: nat, source: Ptr, texrender: Ptr, n: nat)
    requires Registrations(cbs, Addr(addr)) == 0
    ensures var c := FilterCreate(cbs, addr, source, texrender);
            var u := UpdateRepeatedly(c.callbacks, Addr(addr), n);
            var d := FilterDestroy(u.callbacks, Addr(addr), c.filter);
            && Addr(addr) !in d.callbacks
            && d.filter.texture == Null && d.filter.texrender == Null
            && forall p | p != Addr(addr) :: Registrations(d.callbacks, p) == Registrations(cbs, p)
  {
    var data := Addr(addr);
    var c := FilterCreate(cbs, addr, source, texrender);
    var u := UpdateRepeatedly(c.callbacks, data, n);
    if n > 0 {
      UpdatesKeepOneRegistration(c.callbacks, data, n);
    }
    assert Registrations(u.callbacks, data) == 1;
    assert forall p | p != data :: Registrations(u.callbacks, p) == Registrations(cbs, p);
    var d := FilterDestroy(u.callbacks, data, c.filter);
    RegisteredIffPresent(d.callbacks, data);
  }

  /** A freshly created filter with a parent never renders before it has
      reset: the first frame that observes a nonzero size resets. */
  lemma CreatedFilterResetsFirst(cbs: Callbacks, addr: nat, source: Ptr, texrender: Ptr,
                                 frames: seq<Frame>, k: nat)
    requires source != Null && k < |frames|
    requires forall j | 0 <= j < k :: frames[j].parent == Null || frames[j].Observed().IsZero()
    requires frames[k].parent != Null && !frames[k].Observed().IsZero()
    ensures var f := FilterCreate(cbs, addr, source, texrender).filter;
            && ResetIssued(Frames.TraceAt(Addr(addr), f, frames, k), texrender, frames[k].Observed())
            && !RenderIssued(Frames.TraceAt(Addr(addr), f, frames, k), texrender, frames[k].Observed())
  {
    var f := FilterCreate(cbs, addr, source, texrender).filter;
    Frames.FirstNonzeroFrameResets(Addr(addr), f, frames, k);
  }
}
