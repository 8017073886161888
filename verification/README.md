# OBS shared-texture filter: per-frame decision logic

This project models the core of the `shared-texture-filter` OBS plugin. The
plugin is a video filter. On every main render callback it looks at the base
size of the source it is attached to. It stores that size. Then it does one
of three things:

- nothing, when a dimension is zero;
- it resets its texrender at the new size and re-reads the texture pointer,
  when the size changed;
- it renders the parent source into the texrender, when the size is the same
  as last time.

Around that step sit `filter_create`, `filter_update` and `filter_destroy`,
which set up the record and add and remove the render callback.

The model treats every OBS and graphics call as an opaque command appended
to a trace (`Obs.Command`). Inputs are the parent pointer and its base size,
the boolean `gs_texrender_begin` returns, and the pointers
`gs_texrender_get_texture` and `gs_texrender_create2` return. So the render
callback becomes a pure function from (data pointer, record, frame) to
(record, trace).

Modules:

- `Obs` (obs.dfy): pointers, `uint32_t`, the command alphabet, trace predicates.
- `Bracketing` (bracketing.dfy): an automaton for the drawing discipline of a
  trace. Drawing is allowed only inside a pass that a successful begin opened.
  The pass ends with exactly one end. Blend pushes and pops balance.
- `FilterData` (filter_data.dfy): `struct filter`, the per-frame inputs, and outcomes.
- `Texrender` (texrender.dfy): `reset_texture`, `update_pointer`, `render`.
- `Callback` (callback.dfy): `filter_render_callback`.
- `Frames` (frames.dfy): the callback run over any sequence of frames.
- `Registry` (registry.dfy): the host's list of main render callbacks.
- `Lifecycle` (lifecycle.dfy): `filter_create`, `filter_update`, `filter_destroy`.

shared-texture-filter.h (lines 48-59) declares more than the code
implements: the plural `Texrender::reset_textures`/`update_pointers` and a
`Texture` namespace with `copy`, `create`, `destroy`, `render` and
`get_shared_handle`. None of them is defined, so there is nothing to model
for them. The code that exists has a single texrender
(`texrender_current_ptr`) and a texture pointer read out of it. It does not
copy into a separate shareable texture, flush, or alternate between buffers,
and neither does the model.

## Model

| member | source | states |
|---|---|---|
| Texrender.ResetTexture | shared-texture-filter.cpp:62-70 | resets the texrender, then begins one pass on it at (width, height); after that it issues only commands of that pass. It never draws and never re-reads the texture, and the trace is well bracketed. Together these leave one trace: the pass is ended exactly when begin succeeded, and nothing else is issued. |
| Texrender.UpdatePointer | shared-texture-filter.cpp:72-80 | the record's texture pointer becomes what `gs_texrender_get_texture` returned. Context, texrender and stored size are unchanged. One read of the texrender is issued. |
| Texrender.DrawPass | shared-texture-filter.cpp:90-102 | the pass body clears, sets a (cx, cy) projection, pushes the blend state, blends with factors one/zero, renders the target and pops, in this order, and renders no other source. It is exactly those six commands and the end: every command is a drawing command or the end of this texrender's pass. Starting inside a fresh pass, it returns to outside with blend pushes and pops balanced. |
| Texrender.Render | shared-texture-filter.cpp:83-104 | reset, then one pass on the texrender at (cx, cy), followed only by commands of that pass. It draws, and renders the target, exactly when begin succeeded; then it clears, projects to (cx, cy), pushes, blends one/zero, renders the target and pops, in this order, and renders no other source. It issues nine commands when begin succeeded and two otherwise. The trace is well bracketed and never re-reads the texture. |
| Bracketing.Balanced | shared-texture-filter.cpp:88-103 | in any well-bracketed trace, successful begins equal ends in number, and blend pushes equal pops. |
| Bracketing.DrawingFollowsSuccessfulBegin | shared-texture-filter.cpp:89-101 | in any well-bracketed trace, every drawing command comes after a begin that succeeded. |
| Callback.ResetThenUpdate | shared-texture-filter.cpp:145-149 | one pass on the texrender at the frame's size that never draws, followed by exactly one pointer read, at the end. The record adopts the fetched texture and nothing else changes. |
| Callback.RenderCallback | shared-texture-filter.cpp:108-154 | a null data, context or parent leaves the record unchanged with an empty trace. Otherwise the observed size is stored, zeros included. A zero dimension issues nothing. A nonzero size issues one reset and one pass on the record's texrender at that size, and nothing but that pass's commands after it: no registration, creation or destruction. A changed nonzero size never draws, reads the pointer exactly once and last, and adopts the fetched texture. An unchanged nonzero size renders, drawing the parent exactly when begin succeeded, and keeps the texture pointer; after a successful begin it clears, projects, pushes, blends one/zero, renders the parent and pops, in this order, and renders no other source; it issues nine commands when begin succeeded and two otherwise. Context and texrender never change. Every trace is well bracketed. |
| Frames.SizeTracking | shared-texture-filter.cpp:126-139 | after any number of frames, the stored size is the size of the last frame whose parent was present, or the initial size. The context never changes. |
| Frames.NullDataQuiet | shared-texture-filter.cpp:113-114 | with a null data pointer, no frame changes the record or issues a command. |
| Frames.RenderExactlyWhen | shared-texture-filter.cpp:130-153 | frame k issues a render, on the record's texrender at frame k's size, exactly when its parent is present, its size is nonzero and equals the last observed size. It draws the parent exactly when, in addition, begin succeeded. It issues a reset at frame k's size exactly when its nonzero size differs from the last observed size. |
| Frames.RenderFollowsPreviousFrame | shared-texture-filter.cpp:130-153 | when every parent is present, frame k > 0 renders at its size exactly when that size is nonzero and equals frame k-1's size. |
| Frames.NoRenderAfterZeroFrame | shared-texture-filter.cpp:141-150 | the frame after a zero-sized frame never renders. If its own size is nonzero, it resets at that size. |
| Frames.FirstNonzeroFrameResets | shared-texture-filter.cpp:141-150 | from a zero stored size, the first frame with a parent and a nonzero size resets at that size and does not render. |
| Frames.ResizeScenario | shared-texture-filter.cpp:126-153 | frames 0x0, 1920x1080, 1920x1080, 1280x720 from a fresh record give nothing, a reset at 1920x1080, a render at 1920x1080, a reset at 1280x720, and the stored size ends at 1280x720. |
| Frames.RunFrames | shared-texture-filter.cpp:108-154 | running the callback over frames gives, for each frame, the callback's trace on the record left by the frames before it, and ends with the record after the last frame. Each trace, and their concatenation, is well bracketed. The final stored size is the last observed one, and context and texrender are unchanged. Frame k renders, and resets, at its own size exactly when the frames alone say it should. A null data pointer changes nothing. |
| Registry.Add | shared-texture-filter.cpp:166 | adding raises `data`'s registration count by one, leaves every other count unchanged, and keeps the earlier entries in order. |
| Registry.Remove | shared-texture-filter.cpp:162 | removing lowers `data`'s count by one, down to zero, and leaves every other count unchanged. Without an entry for `data`, the list is unchanged. |
| Registry.RemoveDropsFirst | shared-texture-filter.cpp:197 | removal drops exactly the first entry for `data` and keeps all others in order. |
| Lifecycle.FilterUpdate | shared-texture-filter.cpp:156-167 | the trace is exactly a remove and then an add of the callback, and the new list is what the host gets by carrying out that trace. `data` ends up registered once if it was not registered, and as often as before otherwise. No other entry changes. |
| Lifecycle.UpdateRepeatedly | shared-texture-filter.cpp:156-167 | n updates issue exactly n remove/add pairs for `data`, 2n commands, and the host's list is what carrying out that trace yields from the starting list. |
| Lifecycle.UpdatesKeepOneRegistration | shared-texture-filter.cpp:162-166 | any number n >= 1 of updates on a filter registered at most once leaves it registered exactly once. No other entry changes. |
| Lifecycle.FilterCreate | shared-texture-filter.cpp:169-190 | the new record has zero width and height, a null texture, the given source as its context and the created texrender. A fresh address ends registered exactly once. The trace is the texrender creation followed by exactly one update's trace, the list is that update's list, and it is what carrying out the trace yields. |
| Lifecycle.FilterDestroy | shared-texture-filter.cpp:192-211 | a null data does nothing. Otherwise the trace has exactly four commands: the callback is removed first and the texrender is destroyed inside a graphics scope. Both pointers end null, and the list is what carrying out the trace yields. |
| Lifecycle.LifetimeLeavesNoCallback | shared-texture-filter.cpp:169-211 | create at a fresh address, any number of updates, then destroy leaves no callback for the filter and both pointers null. Other registrations end as they began. |
| Lifecycle.CreatedFilterResetsFirst | shared-texture-filter.cpp:173-187 | for a freshly created filter, the first frame that observes a nonzero size resets the created texrender at that size rather than rendering. |

## Left out

- The meaning of the OBS and graphics calls (`gs_texrender_*`, `gs_clear`,
  `gs_ortho`, `gs_blend_*`, `obs_source_video_render`, graphics enter/leave).
  They are foreign library calls, so they are opaque trace commands, and
  their results are inputs.
- The float arguments of `gs_clear` and `gs_ortho`. Only the (cx, cy) extent
  of the projection is recorded.
- The source queries `obs_filter_get_parent` and
  `obs_source_get_base_width`/`_height`. They are inputs, not trace commands.
- The host's own `obs_add_main_render_callback`/`obs_remove_main_render_callback`.
  OBS is not part of this model. Adding is modelled as appending, and
  removing as dropping the first matching entry.
- Texrender.UpdatePointer: does not model the call to
  `debug_report_shared_handle2`. That function exists only in DEBUG builds
  and only logs.
- `filter_video_render`. It only passes the frame through to
  `obs_source_skip_video_filter`.
- Plugin registration, properties, defaults, name, version reporting,
  module load/unload and the logging macros. These are fixed host
  descriptors and logging.
- `SharedMemory` and the declared-only `Texture::` and plural `Texrender::`
  functions. They have no bodies.
- Memory allocation (`bzalloc`/`bfree`). The fresh address is a parameter,
  and destroy returns the record as it is just before it is freed.
  Destroying twice frees twice in the code, so it is not modelled.
- The host render thread. The model has no concurrency.
