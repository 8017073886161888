/**
 The host's list of main render callbacks as far as this filter is
 concerned. Every entry the filter adds has the same function
 (`filter_render_callback`), so an entry is just its data pointer.
 Adding appends; removing deletes the first matching entry, if any.
 */
module Registry {
  import opened Obs

  type Callbacks = seq<Ptr>

  /** How many times `data` is registered. */
  function Registrations(cbs: Callbacks, data: Ptr): nat
    decreases |cbs|
  {
    if |cbs| == 0 then 0 else (if cbs[0] == data then 1 else 0) + Registrations(cbs[1..], data)
  }

  lemma {:induction false} RegistrationsAppend(a: Callbacks, b: Callbacks, data: Ptr)
    ensures Registrations(a + b, data) == Registrations(a, data) + Registrations(b, data)
    decreases |a|
  {
    if |a| == 0 {
      assert a + b == b;
    } else {
      assert (a + b)[1..] == a[1..] + b;
      RegistrationsAppend(a[1..], b, data);
    }
  }

  /** A pointer is in the list exactly when it is registered at least once. */
  lemma {:induction false} RegisteredIffPresent(cbs: Callbacks, data: Ptr)
    ensures data in cbs <==> Registrations(cbs, data) > 0
    decreases |cbs|
  {
    if |cbs| > 0 {
      assert cbs == [cbs[0]] + cbs[1..];
      RegisteredIffPresent(cbs[1..], data);
    }
  }

  /** Position of the first entry for `data`. */
  function FirstIndex(cbs: Callbacks, data: Ptr): (i: nat)
    requires data in cbs
    ensures i < |cbs| && cbs[i] == data
    ensures data !in cbs[..i]
    decreases |cbs|
  {
    if cbs[0] == data then 0
    else
      var i := 1 + FirstIndex(cbs[1..], data);
      assert cbs[..i] == [cbs[0]] + cbs[1..][..i - 1];
      i
  }

  /** `obs_add_main_render_callback`. */
  function Add(cbs: Callbacks, data: Ptr): (r: Callbacks)
    ensures Registrations(r, data) == Registrations(cbs, data) + 1
    ensures forall d | d != data :: Registrations(r, d) == Registrations(cbs, d)
    ensures |r| == |cbs| + 1 && r[..|cbs|] == cbs
  {
    var r := cbs + [data];
    forall d ensures Registrations(r, d) == Registrations(cbs, d) + Registrations([data], d) {
      RegistrationsAppend(cbs, [data], d);
    }
    forall d ensures Registrations([data], d) == if d == data then 1 else 0 {
      assert [data][1..] == [];
    }
    assert r[..|cbs|] == cbs;
    r
  }

  /** `obs_remove_main_render_callback`: drops the first entry for `data`
      and keeps the others in order; a missing entry is not an error. */
  function Remove(cbs: Callbacks, data: Ptr): (r: Callbacks)
    ensures data !in cbs ==> r == cbs
    ensures Registrations(r, data)
            == if Registrations(cbs, data) == 0 then 0 else Registrations(cbs, data) - 1
    ensures forall d | d != data :: Registrations(r, d) == Registrations(cbs, d)
    decreases |cbs|
  {
    if |cbs| == 0 then cbs
    else if cbs[0] == data then
      assert cbs == [data] + cbs[1..];
      RegisteredIffPresent(cbs[1..], data);
      cbs[1..]
    else
      var rest := Remove(cbs[1..], data);
      assert cbs == [cbs[0]] + cbs[1..];
      assert ([cbs[0]] + rest)[1..] == rest;
      [cbs[0]] + rest
  }

  /** The entry `Remove` drops is exactly the first one for `data`. */
  lemma {:induction false} RemoveDropsFirst(cbs: Callbacks, data: Ptr)
    requires data in cbs
    ensures Remove(cbs, data) == cbs[..FirstIndex(cbs, data)] + cbs[FirstIndex(cbs, data) + 1..]
    decreases |cbs|
  {
    if cbs[0] == data {
      assert cbs[..0] + cbs[1..] == cbs[1..];
    } else {
      RemoveShift(cbs, data);
      RemoveDropsFirst(cbs[1..], data);
      RemoveDropsFirstStep(cbs, data);
    }
  }

  lemma RemoveDropsFirstStep(cbs: Callbacks, data: Ptr)
    requires |cbs| > 0 && cbs[0] != data && data in cbs[1..]
    requires Remove(cbs[1..], data)
             == cbs[1..][..FirstIndex(cbs[1..], data)] + cbs[1..][FirstIndex(cbs[1..], data) + 1..]
    ensures data in cbs
    ensures Remove(cbs, data) == cbs[..FirstIndex(cbs, data)] + cbs[FirstIndex(cbs, data) + 1..]
  {
    var tail := cbs[1..];
    var j := FirstIndex(tail, data);
    var head := [cbs[0]];
    assert Remove(cbs, data) == head + Remove(tail, data);
    assert head + (tail[..j] + tail[j + 1..]) == (head + tail[..j]) + tail[j + 1..];
    RemoveShift(cbs, data);
  }

  lemma RemoveShift(cbs: Callbacks, data: Ptr)
    requires |cbs| > 0 && cbs[0] != data
    ensures data in cbs <==> data in cbs[1..]
    ensures data in cbs ==>
              && FirstIndex(cbs, data) == FirstIndex(cbs[1..], data) + 1
              && cbs[..FirstIndex(cbs, data)] == [cbs[0]] + cbs[1..][..FirstIndex(cbs[1..], data)]
              && cbs[FirstIndex(cbs, data) + 1..] == cbs[1..][FirstIndex(cbs[1..], data) + 1..]
  {
    assert cbs == [cbs[0]] + cbs[1..];
  }

  /** What one command does to the list: only the two registration calls
      change it. */
  function Register(cbs: Callbacks, c: Command): Callbacks {
    match c
    case AddMainRenderCallback(d) => Add(cbs, d)
    case RemoveMainRenderCallback(d) => Remove(cbs, d)
    case _ => cbs
  }

  /** The list after the host carries out the commands of `t` in order. */
  function ApplyRegistrations(cbs: Callbacks, t: seq<Command>): Callbacks
    decreases |t|
  {
    if |t| == 0 then cbs else ApplyRegistrations(Register(cbs, t[0]), t[1..])
  }

  /** Carrying out two traces one after the other is carrying out their
      concatenation. */
  lemma {:induction false} ApplyRegistrationsAppend(cbs: Callbacks, a: seq<Command>, b: seq<Command>)
    ensures ApplyRegistrations(cbs, a + b) == ApplyRegistrations(ApplyRegistrations(cbs, a), b)
    decreases |a|
  {
    if |a| == 0 {
      assert a + b == b;
    } else {
      assert (a + b)[0] == a[0];
      assert (a + b)[1..] == a[1..] + b;
      ApplyRegistrationsAppend(Register(cbs, a[0]), a[1..], b);
    }
  }
}
