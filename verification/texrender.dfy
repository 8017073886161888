/**
 The three helpers of namespace `Texrender` in shared-texture-filter.cpp.
 The success of `gs_texrender_begin` and the pointer
 `gs_texrender_get_texture` returns are inputs.
 */
module Texrender {
  import opened Obs
  import opened Bracketing
  import opened FilterData

  /** What may follow the begin of a pass on `texrender`: drawing, the
      end of that pass, and reading its texture. */
  predicate PassCommand(c: Command, texrender: Ptr) {
    IsDrawing(c) || c == TexrenderEnd(texrender) || c == TexrenderGetTexture(texrender)
  }

  /** `t` resets `texrender`, begins one pass on it at (cx, cy), and then
      issues nothing but commands of that pass: no second reset or begin,
      no other texrender, no creation, destruction or (un)registration. */
  predicate OnePassOn(t: seq<Command>, texrender: Ptr, cx: U32, cy: U32, begun: bool) {
    && |t| >= 2
    && t[0] == TexrenderReset(texrender)
    && t[1] == TexrenderBegin(texrender, cx, cy, begun)
    && forall i | 2 <= i < |t| :: PassCommand(t[i], texrender)
  }

  /** What `render` draws into a (cx, cy) pass, in this order: clear,
      projection, blend-state push, one/zero blending, the target, pop. */
  function RenderSteps(target: Ptr, cx: U32, cy: U32): seq<Command> {
    [ClearColor, Ortho(cx, cy), BlendStatePush, BlendFunction(BlendOne, BlendZero),
     SourceVideoRender(target), BlendStatePop]
  }

  /** `t` carries out `RenderSteps` in order, and renders no source other
      than `target`. */
  predicate DrawsInto(t: seq<Command>, target: Ptr, cx: U32, cy: U32) {
    && InOrder(RenderSteps(target, cx, cy), t)
    && forall i | 0 <= i < |t| :: t[i].SourceVideoRender? ==> t[i].source == target
  }

  /** `reset_texture`: reset the texrender, then open and immediately close
      a pass at the new size so that its texture exists. Together with the
      bracketing, the contract leaves exactly one trace: an end follows the
      begin exactly when the begin succeeded. */
  function ResetTexture(texrender: Ptr, width: U32, height: U32, begun: bool): (t: seq<Command>)
    ensures OnePassOn(t, texrender, width, height, begun)
    ensures WellBracketed(t)
    ensures !Draws(t) && !RefreshesTexture(t)
  {
    if begun then
      var t := [TexrenderReset(texrender), TexrenderBegin(texrender, width, height, true),
                TexrenderEnd(texrender)];
      assert Scan(Inside(texrender, 0), t[2..]) == At(Outside);
      assert Scan(Outside, t[1..]) == At(Outside);
      t
    else
      var t := [TexrenderReset(texrender), TexrenderBegin(texrender, width, height, false)];
      assert Scan(Outside, t[1..]) == At(Outside);
      t
  }

  /** `update_pointer`: read the texrender's current texture into the
      record; nothing else in the record changes. */
  function UpdatePointer(f: Filter, fetched: Ptr): (r: Outcome)
    ensures r.filter.texture == fetched
    ensures r.filter.context == f.context && r.filter.texrender == f.texrender
    ensures r.filter.StoredSize() == f.StoredSize()
    ensures r.trace == [TexrenderGetTexture(f.texrender)]
  {
    Outcome(f.(texture := fetched), [TexrenderGetTexture(f.texrender)])
  }

  /** The body of `render`'s pass: clear to transparent black, set a
      (cx, cy) projection, render `target` with blending disabled inside a
      pushed blend state, and close the pass. */
  function DrawPass(texrender: Ptr, target: Ptr, cx: U32, cy: U32): (t: seq<Command>)
    ensures Scan(Inside(texrender, 0), t) == At(Outside)
    ensures |t| == |RenderSteps(target, cx, cy)| + 1
    ensures forall i | 0 <= i < |t| :: PassCommand(t[i], texrender)
    ensures DrawsInto(t, target, cx, cy)
    ensures !RefreshesTexture(t)
  {
    var t := [ClearColor, Ortho(cx, cy), BlendStatePush, BlendFunction(BlendOne, BlendZero),
              SourceVideoRender(target), BlendStatePop, TexrenderEnd(texrender)];
    PassScan(t, texrender);
    PassOrder(t, texrender, target, cx, cy);
    assert t[4] == SourceVideoRender(target);
    t
  }

  lemma PassOrder(t: seq<Command>, texrender: Ptr, target: Ptr, cx: U32, cy: U32)
    requires t == RenderSteps(target, cx, cy) + [TexrenderEnd(texrender)]
    ensures InOrder(RenderSteps(target, cx, cy), t)
  {
    var steps := RenderSteps(target, cx, cy);
    assert InOrder(steps[6..], t[6..]);
    assert InOrder(steps[5..], t[5..]);
    assert InOrder(steps[4..], t[4..]);
    assert InOrder(steps[3..], t[3..]);
    assert InOrder(steps[2..], t[2..]);
    assert InOrder(steps[1..], t[1..]);
  }

  lemma PassScan(t: seq<Command>, texrender: Ptr)
    requires |t| == 7 && t[0] == ClearColor && t[1].Ortho? && t[2] == BlendStatePush
    requires t[3].BlendFunction? && t[4].SourceVideoRender? && t[5] == BlendStatePop
    requires t[6] == TexrenderEnd(texrender)
    ensures Scan(Inside(texrender, 0), t) == At(Outside)
  {
    var inside := Inside(texrender, 0);
    var pushed := inside.(blendDepth := 1);
    assert Scan(inside, t[6..]) == At(Outside);
    assert Scan(pushed, t[5..]) == At(Outside);
    assert Scan(pushed, t[4..]) == At(Outside);
    assert Scan(pushed, t[3..]) == At(Outside);
    assert Scan(inside, t[2..]) == At(Outside);
    assert Scan(inside, t[1..]) == At(Outside);
  }

  /** `render`: reset the texrender and, only if a pass opens, draw the
      upstream source into it. */
  function Render(texrender: Ptr, target: Ptr, cx: U32, cy: U32, begun: bool): (t: seq<Command>)
    ensures OnePassOn(t, texrender, cx, cy, begun)
    ensures WellBracketed(t)
    ensures Draws(t) <==> begun
    ensures |t| == if begun then 9 else 2
    ensures RendersSource(t) <==> begun
    ensures begun ==> DrawsInto(t, target, cx, cy)
    ensures !RefreshesTexture(t)
  {
    var open := [TexrenderReset(texrender), TexrenderBegin(texrender, cx, cy, begun)];
    assert Scan(Outside, open[1..]) == At(if begun then Inside(texrender, 0) else Outside);
    if begun then
      var pass := DrawPass(texrender, target, cx, cy);
      ScanAppend(Outside, open, pass);
      var t := open + pass;
      assert t[2] == pass[0];
      assert forall i | 2 <= i < |t| :: t[i] == pass[i - 2];
      assert t[2..] == pass;
      assert InOrder(RenderSteps(target, cx, cy), t[1..]);
      InOrderContains(RenderSteps(target, cx, cy), t, 4);
      t
    else
      open
  }
}
