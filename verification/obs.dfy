/**
 The interface between the filter and OBS, as data.

 The filter never computes anything with the graphics objects it touches: it
 passes pointers along and issues calls. So every call into OBS's graphics
 subsystem and every change to the host's list of render callbacks is a
 `Command`, and one host callback of the filter yields a trace of them.
 Pointers are opaque: compared, never dereferenced.
 */
module Obs {

  /** A C `uint32_t`, as returned by `obs_source_get_base_width`/`_height`. */
  type U32 = x: int | 0 <= x < 0x1_0000_0000

  /** An opaque C pointer: null, or some address. */
  datatype Ptr = Null | Addr(addr: nat)

  /** `GS_RGBA16`, the colour format the texrender is created with. */
  datatype ColorFormat = Rgba16

  /** `GS_ZS_NONE`: the texrender has no depth/stencil buffer. */
  datatype ZStencilFormat = ZsNone

  /** The blend factors the filter passes to `gs_blend_function`. */
  datatype BlendType = BlendOne | BlendZero

  datatype Command =
    | TexrenderCreate(format: ColorFormat, zstencil: ZStencilFormat)
    | TexrenderReset(texrender: Ptr)
      /** `gs_texrender_begin` together with the value it returned */
    | TexrenderBegin(texrender: Ptr, cx: U32, cy: U32, succeeded: bool)
    | TexrenderEnd(texrender: Ptr)
    | TexrenderGetTexture(texrender: Ptr)
    | TexrenderDestroy(texrender: Ptr)
      /** `gs_clear(GS_CLEAR_COLOR, <transparent black>, 0.0, 0)` */
    | ClearColor
      /** `gs_ortho(0, cx, 0, cy, -100, 100)`; only the extent is recorded */
    | Ortho(right: U32, bottom: U32)
    | BlendStatePush
    | BlendFunction(src: BlendType, dest: BlendType)
    | BlendStatePop
    | SourceVideoRender(source: Ptr)
    | AddMainRenderCallback(data: Ptr)
    | RemoveMainRenderCallback(data: Ptr)
    | EnterGraphics
    | LeaveGraphics

  /** Commands that touch the contents of the render target being drawn. */
  predicate IsDrawing(c: Command) {
    c.ClearColor? || c.Ortho? || c.BlendStatePush? || c.BlendFunction?
    || c.SourceVideoRender? || c.BlendStatePop?
  }

  predicate IsSuccessfulBegin(c: Command) {
    c.TexrenderBegin? && c.succeeded
  }

  predicate IsEnd(c: Command) {
    c.TexrenderEnd?
  }

  predicate IsBlendPush(c: Command) {
    c.BlendStatePush?
  }

  predicate IsBlendPop(c: Command) {
    c.BlendStatePop?
  }

  /** Number of commands of `t` that satisfy `p`. */
  function Occurrences(t: seq<Command>, p: Command -> bool): nat
    decreases |t|
  {
    if |t| == 0 then 0 else (if p(t[0]) then 1 else 0) + Occurrences(t[1..], p)
  }

  /** The trace draws something into a render target. */
  predicate Draws(t: seq<Command>) {
    exists i | 0 <= i < |t| :: IsDrawing(t[i])
  }

  /** The trace asks the upstream source to render itself. */
  predicate RendersSource(t: seq<Command>) {
    exists i | 0 <= i < |t| :: t[i].SourceVideoRender?
  }

  /** The trace re-reads the texture pointer out of the texrender. */
  predicate RefreshesTexture(t: seq<Command>) {
    exists i | 0 <= i < |t| :: t[i].TexrenderGetTexture?
  }

  /** The commands of `steps` occur in `t` in this order, possibly with
      other commands between them. */
  predicate InOrder(steps: seq<Command>, t: seq<Command>)
    decreases |t|
  {
    if |steps| == 0 then true
    else if |t| == 0 then false
    else if t[0] == steps[0] then InOrder(steps[1..], t[1..])
    else InOrder(steps, t[1..])
  }

  /** Every step of a list that occurs in order occurs in the trace. */
  lemma {:induction false} InOrderContains(steps: seq<Command>, t: seq<Command>, j: nat)
    requires InOrder(steps, t) && j < |steps|
    ensures steps[j] in t
    decreases |t|
  {
    if t[0] == steps[0] {
      if j > 0 {
        InOrderContains(steps[1..], t[1..], j - 1);
      }
    } else {
      InOrderContains(steps, t[1..], j);
    }
  }
}
