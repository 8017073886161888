/**
 The render callback run over a whole sequence of frames: what is stored
 after each frame and which frames render.
 */
module Frames {
  import opened Obs
  import opened Bracketing
  import opened FilterData
  import opened Texrender
  import opened Callback

  /** The record after the first `k` frames. */
  function StateAt(data: Ptr, f: Filter, frames: seq<Frame>, k: nat): Filter
    requires k <= |frames|
    decreases k
  {
    if k == 0 then f else RenderCallback(data, StateAt(data, f, frames, k - 1), frames[k - 1]).filter
  }

  /** The commands issued by frame `k`. */
  function TraceAt(data: Ptr, f: Filter, frames: seq<Frame>, k: nat): seq<Command>
    requires k < |frames|
  {
    RenderCallback(data, StateAt(data, f, frames, k), frames[k]).trace
  }

  /** The size of the last frame whose parent was present, or `initial`
      when there is none. */
  function LastObserved(initial: Size, frames: seq<Frame>): Size
    decreases |frames|
  {
    if |frames| == 0 then initial
    else if frames[|frames| - 1].parent != Null then frames[|frames| - 1].Observed()
    else LastObserved(initial, frames[..|frames| - 1])
  }

  /** Frame `k` renders exactly when its parent is present, its size is
      nonzero and that size is the one last observed before it. */
  predicate RenderExpected(initial: Size, frames: seq<Frame>, k: nat)
    requires k < |frames|
  {
    && frames[k].parent != Null
    && !frames[k].Observed().IsZero()
    && frames[k].Observed() == LastObserved(initial, frames[..k])
  }

  /** Frame `k` resets exactly when its parent is present, its size is
      nonzero and that size differs from the one last observed before it. */
  predicate ResetExpected(initial: Size, frames: seq<Frame>, k: nat)
    requires k < |frames|
  {
    && frames[k].parent != Null
    && !frames[k].Observed().IsZero()
    && frames[k].Observed() != LastObserved(initial, frames[..k])
  }

  /** All commands of a run, frame after frame. */
  function Concat(traces: seq<seq<Command>>): seq<Command>
    decreases |traces|
  {
    if |traces| == 0 then [] else Concat(traces[..|traces| - 1]) + traces[|traces| - 1]
  }

  /** The stored size is always the size of the last frame that got past
      the null checks, zeros included. */
  lemma {:induction false} SizeTracking(data: Ptr, f: Filter, frames: seq<Frame>, k: nat)
    requires data != Null && f.context != Null && k <= |frames|
    ensures StateAt(data, f, frames, k).StoredSize() == LastObserved(f.StoredSize(), frames[..k])
    ensures StateAt(data, f, frames, k).context == f.context
    ensures StateAt(data, f, frames, k).texrender == f.texrender
    decreases k
  {
    if k > 0 {
      SizeTracking(data, f, frames, k - 1);
      var prefix := frames[..k];
      assert prefix[..k - 1] == frames[..k - 1] && prefix[k - 1] == frames[k - 1];
      var before := StateAt(data, f, frames, k - 1);
      var after := RenderCallback(data, before, frames[k - 1]).filter;
      assert StateAt(data, f, frames, k) == after;
      assert LastObserved(f.StoredSize(), prefix)
             == if frames[k - 1].parent != Null then frames[k - 1].Observed()
                else LastObserved(f.StoredSize(), frames[..k - 1]);
    }
  }

  /** With a null data pointer the callback never changes anything. */
  lemma {:induction false} NullDataQuiet(data: Ptr, f: Filter, frames: seq<Frame>, k: nat)
    requires data == Null && k < |frames|
    ensures StateAt(data, f, frames, k + 1) == f
    ensures TraceAt(data, f, frames, k) == []
    decreases k
  {
    if k > 0 {
      NullDataQuiet(data, f, frames, k - 1);
    }
  }

  /** Which of the three things frame `k` does, in terms of the frames
      alone: a render or a reset is always on the record's texrender and at
      the size frame `k` observed. */
  lemma RenderExactlyWhen(data: Ptr, f: Filter, frames: seq<Frame>, k: nat)
    requires data != Null && f.context != Null && k < |frames|
    ensures RenderIssued(TraceAt(data, f, frames, k), f.texrender, frames[k].Observed())
            <==> RenderExpected(f.StoredSize(), frames, k)
    ensures SourceVideoRender(frames[k].parent) in TraceAt(data, f, frames, k)
            <==> RenderExpected(f.StoredSize(), frames, k) && frames[k].begun
    ensures ResetIssued(TraceAt(data, f, frames, k), f.texrender, frames[k].Observed())
            <==> ResetExpected(f.StoredSize(), frames, k)
  {
    SizeTracking(data, f, frames, k);
    var t := TraceAt(data, f, frames, k);
    var fr := frames[k];
    if RenderExpected(f.StoredSize(), frames, k) && fr.begun {
      InOrderContains(RenderSteps(fr.parent, fr.width, fr.height), t, 4);
    }
    if SourceVideoRender(fr.parent) in t {
      var i :| 0 <= i < |t| && t[i] == SourceVideoRender(fr.parent);
      assert RendersSource(t);
    }
  }

  /** When every frame has its parent, frame `k` renders exactly when its
      size is nonzero and equals the size frame `k - 1` observed. */
  lemma RenderFollowsPreviousFrame(data: Ptr, f: Filter, frames: seq<Frame>, k: nat)
    requires data != Null && f.context != Null && 0 < k < |frames|
    requires forall j | 0 <= j < |frames| :: frames[j].parent != Null
    ensures RenderIssued(TraceAt(data, f, frames, k), f.texrender, frames[k].Observed())
            <==> !frames[k].Observed().IsZero() && frames[k].Observed() == frames[k - 1].Observed()
  {
    RenderExactlyWhen(data, f, frames, k);
    assert frames[..k][k - 1] == frames[k - 1];
  }

  /** The first frame after a zero-sized one never renders; if its own size
      is nonzero it resets. */
  lemma NoRenderAfterZeroFrame(data: Ptr, f: Filter, frames: seq<Frame>, k: nat)
    requires data != Null && f.context != Null && 0 < k < |frames|
    requires frames[k - 1].parent != Null && frames[k - 1].Observed().IsZero()
    requires frames[k].parent != Null
    ensures !RenderIssued(TraceAt(data, f, frames, k), f.texrender, frames[k].Observed())
    ensures !frames[k].Observed().IsZero() ==>
              ResetIssued(TraceAt(data, f, frames, k), f.texrender, frames[k].Observed())
  {
    RenderExactlyWhen(data, f, frames, k);
    assert frames[..k][k - 1] == frames[k - 1];
  }

  lemma {:induction false} LastObservedZero(initial: Size, frames: seq<Frame>)
    requires initial.IsZero()
    requires forall j | 0 <= j < |frames| :: frames[j].parent == Null || frames[j].Observed().IsZero()
    ensures LastObserved(initial, frames).IsZero()
    decreases |frames|
  {
    if |frames| > 0 && frames[|frames| - 1].parent == Null {
      LastObservedZero(initial, frames[..|frames| - 1]);
    }
  }

  /** Starting from a zero stored size, the first frame that observes a
      nonzero size resets the texrender instead of rendering. */
  lemma FirstNonzeroFrameResets(data: Ptr, f: Filter, frames: seq<Frame>, k: nat)
    requires data != Null && f.context != Null && f.StoredSize().IsZero() && k < |frames|
    requires forall j | 0 <= j < k :: frames[j].parent == Null || frames[j].Observed().IsZero()
    requires frames[k].parent != Null && !frames[k].Observed().IsZero()
    ensures ResetIssued(TraceAt(data, f, frames, k), f.texrender, frames[k].Observed())
    ensures !RenderIssued(TraceAt(data, f, frames, k), f.texrender, frames[k].Observed())
  {
    LastObservedZero(f.StoredSize(), frames[..k]);
    RenderExactlyWhen(data, f, frames, k);
  }

  /** The records the resize scenario below passes through. */
  lemma ResizeStates(data: Ptr, f: Filter, frames: seq<Frame>)
    requires data != Null && f.context != Null && f.StoredSize() == Size(0, 0)
    requires |frames| == 4 && forall k | 0 <= k < 4 :: frames[k].parent != Null
    requires frames[0].Observed() == Size(0, 0) && frames[1].Observed() == Size(1920, 1080)
    requires frames[2].Observed() == Size(1920, 1080) && frames[3].Observed() == Size(1280, 720)
    ensures StateAt(data, f, frames, 1) == f
    ensures StateAt(data, f, frames, 2).StoredSize() == Size(1920, 1080)
    ensures StateAt(data, f, frames, 3).StoredSize() == Size(1920, 1080)
    ensures StateAt(data, f, frames, 4).StoredSize() == Size(1280, 720)
    ensures forall k | 0 <= k <= 4 :: StateAt(data, f, frames, k).texrender == f.texrender
  {
    forall k | 0 <= k <= 4 ensures StateAt(data, f, frames, k).texrender == f.texrender {
      SizeTracking(data, f, frames, k);
    }
  }

  /** What each frame of the resize scenario below issues. */
  lemma ResizeTraces(data: Ptr, f: Filter, frames: seq<Frame>)
    requires data != Null && f.context != Null && f.StoredSize() == Size(0, 0)
    requires |frames| == 4 && forall k | 0 <= k < 4 :: frames[k].parent != Null
    requires frames[0].Observed() == Size(0, 0) && frames[1].Observed() == Size(1920, 1080)
    requires frames[2].Observed() == Size(1920, 1080) && frames[3].Observed() == Size(1280, 720)
    requires frames[2].begun
    ensures TraceAt(data, f, frames, 0) == []
    ensures ResetIssued(TraceAt(data, f, frames, 1), f.texrender, Size(1920, 1080))
    ensures RenderIssued(TraceAt(data, f, frames, 2), f.texrender, Size(1920, 1080))
    ensures SourceVideoRender(frames[2].parent) in TraceAt(data, f, frames, 2)
    ensures ResetIssued(TraceAt(data, f, frames, 3), f.texrender, Size(1280, 720))
  {
    ResizeStates(data, f, frames);
    var s2 := StateAt(data, f, frames, 2);
    var s3 := StateAt(data, f, frames, 3);
    assert TraceAt(data, f, frames, 1) == RenderCallback(data, f, frames[1]).trace;
    var t2 := RenderCallback(data, s2, frames[2]).trace;
    assert TraceAt(data, f, frames, 2) == t2;
    InOrderContains(RenderSteps(frames[2].parent, 1920, 1080), t2, 4);
    assert TraceAt(data, f, frames, 3) == RenderCallback(data, s3, frames[3]).trace;
  }

  /** Frames of size 0x0, 1920x1080, 1920x1080, 1280x720 on a fresh
      record: nothing, a reset at 1920x1080, a render at 1920x1080, a reset
      at 1280x720. */
  lemma ResizeScenario(data: Ptr, source: Ptr, texrender: Ptr, fetched: Ptr)
    requires data != Null && source != Null
    ensures var f := Filter(source, texrender, Null, 0, 0);
            var frames := [Frame(source, 0, 0, true, fetched), Frame(source, 1920, 1080, true, fetched),
                           Frame(source, 1920, 1080, true, fetched), Frame(source, 1280, 720, true, fetched)];
            && TraceAt(data, f, frames, 0) == []
            && ResetIssued(TraceAt(data, f, frames, 1), texrender, Size(1920, 1080))
            && RenderIssued(TraceAt(data, f, frames, 2), texrender, Size(1920, 1080))
            && SourceVideoRender(source) in TraceAt(data, f, frames, 2)
            && ResetIssued(TraceAt(data, f, frames, 3), texrender, Size(1280, 720))
            && StateAt(data, f, frames, 4).StoredSize() == Size(1280, 720)
  {
    var f := Filter(source, texrender, Null, 0, 0);
    var frames := [Frame(source, 0, 0, true, fetched), Frame(source, 1920, 1080, true, fetched),
                   Frame(source, 1920, 1080, true, fetched), Frame(source, 1280, 720, true, fetched)];
    ResizeStates(data, f, frames);
    ResizeTraces(data, f, frames);
  }

  lemma RunRendersAsExpected(data: Ptr, f: Filter, frames: seq<Frame>, traces: seq<seq<Command>>)
    requires data != Null && f.context != Null && |traces| == |frames|
    requires forall k | 0 <= k < |traces| :: traces[k] == TraceAt(data, f, frames, k)
    ensures forall k | 0 <= k < |traces| ::
              RenderIssued(traces[k], f.texrender, frames[k].Observed())
              <==> RenderExpected(f.StoredSize(), frames, k)
    ensures forall k | 0 <= k < |traces| ::
              ResetIssued(traces[k], f.texrender, frames[k].Observed())
              <==> ResetExpected(f.StoredSize(), frames, k)
  {
    forall k | 0 <= k < |traces|
      ensures RenderIssued(traces[k], f.texrender, frames[k].Observed())
              <==> RenderExpected(f.StoredSize(), frames, k)
      ensures ResetIssued(traces[k], f.texrender, frames[k].Observed())
              <==> ResetExpected(f.StoredSize(), frames, k)
    {
      RenderExactlyWhen(data, f, frames, k);
    }
  }

  lemma {:induction false} ConcatSnoc(traces: seq<seq<Command>>, t: seq<Command>)
    ensures Concat(traces + [t]) == Concat(traces) + t
  {
    assert (traces + [t])[..|traces|] == traces;
  }

  /** One more frame extends a run's traces by that frame's trace. */
  lemma RunStep(data: Ptr, f: Filter, frames: seq<Frame>, traces: seq<seq<Command>>, t: seq<Command>)
    requires |traces| < |frames| && t == TraceAt(data, f, frames, |traces|)
    requires forall k | 0 <= k < |traces| :: traces[k] == TraceAt(data, f, frames, k)
    ensures forall k | 0 <= k < |traces| + 1 :: (traces + [t])[k] == TraceAt(data, f, frames, k)
  {
  }

  lemma RunTracesBracketed(data: Ptr, f: Filter, frames: seq<Frame>, traces: seq<seq<Command>>)
    requires |traces| == |frames|
    requires forall k | 0 <= k < |traces| :: traces[k] == TraceAt(data, f, frames, k)
    ensures forall k | 0 <= k < |traces| :: WellBracketed(traces[k])
  {
    forall k | 0 <= k < |traces| ensures WellBracketed(traces[k]) {
      assert traces[k] == TraceAt(data, f, frames, k);
    }
  }

  /** One more frame of a run: the invariants of `RunFrames` carry over. */
  lemma RunExtend(data: Ptr, f: Filter, frames: seq<Frame>, traces: seq<seq<Command>>, r: Outcome)
    requires |traces| < |frames|
    requires r == RenderCallback(data, StateAt(data, f, frames, |traces|), frames[|traces|])
    requires forall k | 0 <= k < |traces| :: traces[k] == TraceAt(data, f, frames, k)
    requires WellBracketed(Concat(traces))
    requires data == Null ==> StateAt(data, f, frames, |traces|) == f && Concat(traces) == []
    ensures r.filter == StateAt(data, f, frames, |traces| + 1)
    ensures forall k | 0 <= k < |traces| + 1 :: (traces + [r.trace])[k] == TraceAt(data, f, frames, k)
    ensures WellBracketed(Concat(traces + [r.trace]))
    ensures data == Null ==> r.filter == f && Concat(traces + [r.trace]) == []
  {
    RunStep(data, f, frames, traces, r.trace);
    ConcatSnoc(traces, r.trace);
    WellBracketedAppend(Concat(traces), r.trace);
  }

  /** What a finished run's traces and final record say about the frames. */
  lemma RunSummary(data: Ptr, f: Filter, frames: seq<Frame>, traces: seq<seq<Command>>)
    requires |traces| == |frames|
    requires forall k | 0 <= k < |traces| :: traces[k] == TraceAt(data, f, frames, k)
    ensures forall k | 0 <= k < |traces| :: WellBracketed(traces[k])
    ensures data != Null && f.context != Null ==>
              && StateAt(data, f, frames, |frames|).context == f.context
              && StateAt(data, f, frames, |frames|).texrender == f.texrender
              && StateAt(data, f, frames, |frames|).StoredSize() == LastObserved(f.StoredSize(), frames)
    ensures data != Null && f.context != Null ==>
              forall k | 0 <= k < |traces| ::
                && (RenderIssued(traces[k], f.texrender, frames[k].Observed())
                    <==> RenderExpected(f.StoredSize(), frames, k))
                && (ResetIssued(traces[k], f.texrender, frames[k].Observed())
                    <==> ResetExpected(f.StoredSize(), frames, k))
  {
    RunTracesBracketed(data, f, frames, traces);
    if data != Null && f.context != Null {
      SizeTracking(data, f, frames, |frames|);
      assert frames[..|frames|] == frames;
      RunRendersAsExpected(data, f, frames, traces);
    }
  }

  /** Runs the callback over `frames` and collects each frame's commands. */
  method RunFrames(data: Ptr, f: Filter, frames: seq<Frame>) returns (g: Filter, traces: seq<seq<Command>>)
    ensures |traces| == |frames|
    ensures g == StateAt(data, f, frames, |frames|)
    ensures forall k | 0 <= k < |traces| :: traces[k] == TraceAt(data, f, frames, k)
    ensures forall k | 0 <= k < |traces| :: WellBracketed(traces[k])
    ensures WellBracketed(Concat(traces))
    ensures data == Null ==> g == f && Concat(traces) == []
    ensures data != Null && f.context != Null ==>
              && g.context == f.context && g.texrender == f.texrender
              && g.StoredSize() == LastObserved(f.StoredSize(), frames)
    ensures data != Null && f.context != Null ==>
              forall k | 0 <= k < |traces| ::
                (RenderIssued(traces[k], f.texrender, frames[k].Observed())
                 <==> RenderExpected(f.StoredSize(), frames, k))
    ensures data != Null && f.context != Null ==>
              forall k | 0 <= k < |traces| ::
                (ResetIssued(traces[k], f.texrender, frames[k].Observed())
                 <==> ResetExpected(f.StoredSize(), frames, k))
  {
    g := f;
    traces := [];
    var i := 0;
    while i < |frames|
      invariant 0 <= i <= |frames|
      invariant |traces| == i
      invariant g == StateAt(data, f, frames, i)
      invariant forall k | 0 <= k < i :: traces[k] == TraceAt(data, f, frames, k)
      invariant WellBracketed(Concat(traces))
      invariant data == Null ==> g == f && Concat(traces) == []
    {
      var r := RenderCallback(data, g, frames[i]);
      RunExtend(data, f, frames, traces, r);
      traces := traces + [r.trace];
      g := r.filter;
      i := i + 1;
    }
    RunSummary(data, f, frames, traces);
  }
}
