/**
 The drawing discipline of a command trace, as an automaton.

 A trace is well bracketed when drawing happens only inside a pass that a
 successful `gs_texrender_begin` opened, each such pass is closed by exactly
 one `gs_texrender_end` of the same texrender, blend-state pushes and pops
 are balanced inside the pass, and nothing else (resets, pointer reads,
 registration, destruction) happens while a pass is open.
 */
module Bracketing {
  import opened Obs

  /** Where the automaton is: outside any pass, or inside a pass on
      `texrender` with `blendDepth` blend states pushed. */
  datatype Pass = Outside | Inside(texrender: Ptr, blendDepth: nat)

  datatype Scanned = Stuck | At(pass: Pass)

  function Next(p: Pass, c: Command): Scanned {
    match c
    case TexrenderBegin(tr, _, _, ok) =>
      if p.Outside? then At(if ok then Inside(tr, 0) else Outside) else Stuck
    case TexrenderEnd(tr) =>
      if p == Inside(tr, 0) then At(Outside) else Stuck
    case BlendStatePush =>
      if p.Inside? then At(p.(blendDepth := p.blendDepth + 1)) else Stuck
    case BlendStatePop =>
      if p.Inside? && p.blendDepth > 0 then At(p.(blendDepth := p.blendDepth - 1)) else Stuck
    case _ =>
      if IsDrawing(c) then (if p.Inside? then At(p) else Stuck)
      else (if p.Outside? then At(p) else Stuck)
  }

  function Scan(p: Pass, t: seq<Command>): Scanned
    decreases |t|
  {
    if |t| == 0 then At(p)
    else match Next(p, t[0])
      case Stuck => Stuck
      case At(q) => Scan(q, t[1..])
  }

  predicate WellBracketed(t: seq<Command>) {
    Scan(Outside, t) == At(Outside)
  }

  function Then(s: Scanned, t: seq<Command>): Scanned {
    match s
    case Stuck => Stuck
    case At(q) => Scan(q, t)
  }

  /** Scanning a concatenation scans the halves one after the other. */
  lemma {:induction false} ScanAppend(p: Pass, a: seq<Command>, b: seq<Command>)
    ensures Scan(p, a + b) == Then(Scan(p, a), b)
    decreases |a|
  {
    if |a| == 0 {
      assert a + b == b;
    } else {
      assert (a + b)[0] == a[0];
      assert (a + b)[1..] == a[1..] + b;
      match Next(p, a[0])
      case Stuck =>
      case At(q) => ScanAppend(q, a[1..], b);
    }
  }

  lemma WellBracketedAppend(a: seq<Command>, b: seq<Command>)
    requires WellBracketed(a) && WellBracketed(b)
    ensures WellBracketed(a + b)
  {
    ScanAppend(Outside, a, b);
  }

  function Depth(p: Pass): nat {
    if p.Inside? then 1 else 0
  }

  function Blend(p: Pass): nat {
    if p.Inside? then p.blendDepth else 0
  }

  /** Every step of the automaton that opens a pass is matched by one that
      closes it, and every blend push by a pop, up to what is still open. */
  lemma {:induction false} ScanCounts(p: Pass, t: seq<Command>)
    requires Scan(p, t).At?
    ensures Occurrences(t, IsSuccessfulBegin) + Depth(p)
            == Occurrences(t, IsEnd) + Depth(Scan(p, t).pass)
    ensures Occurrences(t, IsBlendPush) + Blend(p)
            == Occurrences(t, IsBlendPop) + Blend(Scan(p, t).pass)
    decreases |t|
  {
    if |t| > 0 {
      var q := Next(p, t[0]).pass;
      ScanCounts(q, t[1..]);
    }
  }

  /** In a well-bracketed trace each successful begin has exactly one end,
      and each blend push exactly one pop. */
  lemma Balanced(t: seq<Command>)
    requires WellBracketed(t)
    ensures Occurrences(t, IsSuccessfulBegin) == Occurrences(t, IsEnd)
    ensures Occurrences(t, IsBlendPush) == Occurrences(t, IsBlendPop)
  {
    ScanCounts(Outside, t);
  }

  lemma {:induction false} OccursSomewhere(t: seq<Command>, p: Command -> bool)
    requires Occurrences(t, p) > 0
    ensures exists j | 0 <= j < |t| :: p(t[j])
    decreases |t|
  {
    if !p(t[0]) {
      OccursSomewhere(t[1..], p);
      var j :| 0 <= j < |t[1..]| && p(t[1..][j]);
      assert p(t[j + 1]);
    }
  }

  /** Drawing happens only after a successful begin: every drawing command
      of a well-bracketed trace is preceded by a begin that succeeded. */
  lemma DrawingFollowsSuccessfulBegin(t: seq<Command>, i: nat)
    requires WellBracketed(t)
    requires i < |t| && IsDrawing(t[i])
    ensures exists j | 0 <= j < i :: IsSuccessfulBegin(t[j])
  {
    assert t == t[..i] + t[i..];
    ScanAppend(Outside, t[..i], t[i..]);
    var p := Scan(Outside, t[..i]).pass;
    assert t[i..][0] == t[i];
    assert p.Inside?;
    ScanCounts(Outside, t[..i]);
    OccursSomewhere(t[..i], IsSuccessfulBegin);
    var j :| 0 <= j < |t[..i]| && IsSuccessfulBegin(t[..i][j]);
    assert IsSuccessfulBegin(t[j]);
  }
}
