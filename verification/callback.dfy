/**
 `filter_render_callback`: the per-frame step of the filter, as a pure
 function from (data pointer, record, what the frame observes) to (record,
 commands issued).
 */
module Callback {
  import opened Obs
  import opened Bracketing
  import opened FilterData
  import opened Texrender

  /** The callback gets past its three null checks (data, context, parent)
      and reaches the size comparison. */
  predicate ReachesSizeCheck(data: Ptr, f: Filter, fr: Frame) {
    data != Null && f.context != Null && fr.parent != Null
  }

  /** The trace starts by resetting `texrender` and beginning a pass on it
      at size `s`. */
  predicate OpensAt(t: seq<Command>, texrender: Ptr, s: Size) {
    && |t| >= 2
    && t[0] == TexrenderReset(texrender)
    && t[1].TexrenderBegin? && t[1].texrender == texrender
    && t[1].cx == s.width && t[1].cy == s.height
  }

  /** The frame's trace is a call of `Texrender::render` on `texrender` at
      size `s`: a pass is opened there and the texture pointer is not
      re-read. */
  predicate RenderIssued(t: seq<Command>, texrender: Ptr, s: Size) {
    OpensAt(t, texrender, s) && !RefreshesTexture(t)
  }

  /** The frame's trace is a call of `reset_texture` on `texrender` at size
      `s` followed by `update_pointer`. */
  predicate ResetIssued(t: seq<Command>, texrender: Ptr, s: Size) {
    OpensAt(t, texrender, s) && RefreshesTexture(t)
  }

  /** The size-changed branch: `reset_texture` at the frame's size, then
      `update_pointer`. */
  function ResetThenUpdate(g: Filter, fr: Frame): (r: Outcome)
    ensures OnePassOn(r.trace, g.texrender, fr.width, fr.height, fr.begun)
    ensures WellBracketed(r.trace) && !Draws(r.trace)
    ensures r.trace[|r.trace| - 1] == TexrenderGetTexture(g.texrender)
    ensures !RefreshesTexture(r.trace[..|r.trace| - 1])
    ensures r.filter == g.(texture := fr.fetched)
  {
    var reset := ResetTexture(g.texrender, fr.width, fr.height, fr.begun);
    var updated := UpdatePointer(g, fr.fetched);
    assert Scan(Outside, updated.trace) == At(Outside);
    WellBracketedAppend(reset, updated.trace);
    var t := reset + updated.trace;
    assert t[..|t| - 1] == reset;
    assert forall i | 0 <= i < |t| :: !IsDrawing(t[i]) by {
      forall i | 0 <= i < |t| ensures !IsDrawing(t[i]) {
        if i < |reset| {
          assert t[i] == reset[i];
          assert !IsDrawing(reset[i]);
        }
      }
    }
    assert forall i | 2 <= i < |t| :: PassCommand(t[i], g.texrender) by {
      forall i | 2 <= i < |t| ensures PassCommand(t[i], g.texrender) {
        if i < |reset| {
          assert t[i] == reset[i];
        }
      }
    }
    Outcome(updated.filter, t)
  }

  function RenderCallback(data: Ptr, f: Filter, fr: Frame): (r: Outcome)
    // which objects the record refers to never changes here
    ensures r.filter.context == f.context && r.filter.texrender == f.texrender
    ensures WellBracketed(r.trace)
    // an early return leaves everything as it was and issues nothing
    ensures !ReachesSizeCheck(data, f, fr) ==> r.filter == f && r.trace == []
    // past the null checks, the observed size is stored, zeros included
    ensures ReachesSizeCheck(data, f, fr) ==> r.filter.StoredSize() == fr.Observed()
    // a zero dimension: nothing is issued and the texture pointer is kept
    ensures ReachesSizeCheck(data, f, fr) && fr.Observed().IsZero() ==>
              r.trace == [] && r.filter.texture == f.texture
    // a nonzero size: one pass on the record's texrender, at that size
    ensures ReachesSizeCheck(data, f, fr) && !fr.Observed().IsZero() ==>
              OnePassOn(r.trace, f.texrender, fr.width, fr.height, fr.begun)
    // a new nonzero size: reset at it, re-read the pointer once and last,
    // never render
    ensures ReachesSizeCheck(data, f, fr) && !fr.Observed().IsZero()
            && fr.Observed() != f.StoredSize() ==>
              && ResetIssued(r.trace, f.texrender, fr.Observed())
              && !RenderIssued(r.trace, f.texrender, fr.Observed())
              && !Draws(r.trace)
              && r.trace[|r.trace| - 1] == TexrenderGetTexture(f.texrender)
              && !RefreshesTexture(r.trace[..|r.trace| - 1])
              && r.filter.texture == fr.fetched
    // the same nonzero size: render at it, drawing only if the pass opened
    ensures ReachesSizeCheck(data, f, fr) && !fr.Observed().IsZero()
            && fr.Observed() == f.StoredSize() ==>
              && RenderIssued(r.trace, f.texrender, fr.Observed())
              && !ResetIssued(r.trace, f.texrender, fr.Observed())
              && |r.trace| == (if fr.begun then 9 else 2)
              && (RendersSource(r.trace) <==> fr.begun)
              && (fr.begun ==> DrawsInto(r.trace, fr.parent, fr.width, fr.height))
              && r.filter.texture == f.texture
  {
    if data == Null || f.context == Null || fr.parent == Null then
      Outcome(f, [])
    else
      var target := fr.parent;
      var sizeChanged := f.textureWidth != fr.width || f.textureHeight != fr.height;
      var g := f.(textureWidth := fr.width, textureHeight := fr.height);
      if fr.width == 0 || fr.height == 0 then
        Outcome(g, [])
      else if sizeChanged then
        ResetThenUpdate(g, fr)
      else
        var t := Render(g.texrender, target, fr.width, fr.height, fr.begun);
        assert t[1].TexrenderBegin?;
        Outcome(g, t)
  }
}
