/** The compaction replay of scripts/measure_cache_burn.py: a running context size that is
    reset whenever it would exceed the window, over recorded per-turn growth. */
module Replay {
  import opened Counting
  import opened PyText

  // ----- the replay -----

  /** `int(x)`: truncation towards zero. */
  function Truncate(x: real): int { if x < 0.0 then -((-x).Floor) else x.Floor }

  /** What a compaction resets the running size to. */
  function FloorTokens(window: Option<int>, fraction: real): int {
    if window.Some? && window.value != 0 then Truncate(window.value as real * fraction) else 0
  }

  /** Truncation loses less than one, and never changes the sign. */
  lemma TruncateIs(x: real, t: int)
    ensures t == Truncate(x)
            <==> if x < 0.0 then x <= t as real < x + 1.0 && t <= 0 else t as real <= x < t as real + 1.0 && t >= 0
  {
  }

  /** The reset size is the part of the window that the fraction names, rounded towards zero;
      nothing without a window, and the whole window at 1. */
  lemma FloorIs(window: Option<int>, fraction: real)
    ensures window.None? || fraction == 0.0 ==> FloorTokens(window, fraction) == 0
    ensures window.Some? && fraction == 1.0 ==> FloorTokens(window, fraction) == window.value
    ensures window.Some? && window.value >= 0 && fraction >= 0.0 ==>
      var t := FloorTokens(window, fraction);
      t >= 0 && t as real <= window.value as real * fraction < t as real + 1.0
  {
    if window.Some? { assert window.value as real * fraction == fraction * window.value as real; }
    if window.Some? && window.value >= 0 && fraction >= 0.0 { assert window.value as real * fraction >= 0.0; }
  }

  /** A larger fraction, or a larger window, never resets to less. */
  lemma FloorMonotone(w1: nat, f1: real, w2: nat, f2: real)
    requires w1 <= w2 && 0.0 <= f1 <= f2
    ensures FloorTokens(Some(w1), f1) <= FloorTokens(Some(w2), f2)
  {
    FloorIs(Some(w1), f1);
    FloorIs(Some(w2), f2);
    ProductMonotone(w1 as real, f1, w2 as real, f2);
  }

  lemma ProductMonotone(a: real, b: real, c: real, d: real)
    requires 0.0 <= a <= c && 0.0 <= b <= d
    ensures a * b <= c * d
  {
    assert a * b <= a * d;
    assert a * d <= c * d;
  }

  function Grown(growth: int): int { if growth < 0 then 0 else growth }

  /** The loop's state after some turns. */
  datatype Run = Run(running: int, compactions: nat)

  predicate Crosses(window: Option<int>, size: int) { window.Some? && size > window.value }

  function Turn(s: Run, growth: int, window: Option<int>, floor: int): Run {
    var size := s.running + Grown(growth);
    if Crosses(window, size) then Run(floor, s.compactions + 1) else Run(size, s.compactions)
  }

  function RunOf(growth: seq<int>, window: Option<int>, floor: int): Run {
    if growth == [] then Run(0, 0)
    else Turn(RunOf(growth[..|growth| - 1], window, floor), growth[|growth| - 1], window, floor)
  }

  /** The context size each turn ends with. */
  function Series(growth: seq<int>, window: Option<int>, floor: int): seq<int> {
    seq(|growth|, i requires 0 <= i < |growth| => RunOf(growth[..i + 1], window, floor).running)
  }

  method ReplayTurns(growth: seq<int>, window: Option<int>, fraction: real)
    returns (series: seq<int>, compactions: nat)
    ensures series == Series(growth, window, FloorTokens(window, fraction))
    ensures compactions == RunOf(growth, window, FloorTokens(window, fraction)).compactions
  {
    var floor := FloorTokens(window, fraction);
    series := [];
    var running := 0;
    compactions := 0;
    for i := 0 to |growth|
      invariant Run(running, compactions) == RunOf(growth[..i], window, floor)
      invariant |series| == i && forall k :: 0 <= k < i ==> series[k] == RunOf(growth[..k + 1], window, floor).running
    {
      assert growth[..i + 1][..i] == growth[..i];
      running := running + (if growth[i] < 0 then 0 else growth[i]);
      if window.Some? && running > window.value {
        compactions := compactions + 1;
        running := floor;
      }
      series := series + [running];
    }
    assert growth[..|growth|] == growth;
  }

  /** A recorded loss counts as no growth. */
  lemma {:induction false} LossIsNothing(a: seq<int>, g: int, b: seq<int>, window: Option<int>, floor: int)
    requires g < 0
    ensures RunOf(a + [g] + b, window, floor) == RunOf(a + [0] + b, window, floor)
  {
    if b == [] {
      assert a + [g] + b == a + [g] && a + [0] + b == a + [0];
      assert (a + [g])[..|a|] == a == (a + [0])[..|a|];
    } else {
      var front, last := b[..|b| - 1], b[|b| - 1];
      assert (a + [g] + b)[..|a + [g] + b| - 1] == a + [g] + front;
      assert (a + [0] + b)[..|a + [0] + b| - 1] == a + [0] + front;
      LossIsNothing(a, g, front, window, floor);
    }
  }

  /** Without a window every recorded growth adds up. */
  lemma {:induction false} GrowthAddsUp(growth: seq<int>)
    requires forall i :: 0 <= i < |growth| ==> growth[i] >= 0
    ensures RunOf(growth, None, 0) == Run(Burn(growth), 0)
  {
    if growth != [] {
      GrowthAddsUp(growth[..|growth| - 1]);
    }
  }

  // ----- conservation -----

  function TotalGrowth(growth: seq<int>): nat {
    if growth == [] then 0 else TotalGrowth(growth[..|growth| - 1]) + Grown(growth[|growth| - 1])
  }

  /** What the compactions along the way have thrown out. */
  function Discarded(growth: seq<int>, window: Option<int>, floor: int): int {
    if growth == [] then 0
    else
      var s := RunOf(growth[..|growth| - 1], window, floor);
      var size := s.running + Grown(growth[|growth| - 1]);
      Discarded(growth[..|growth| - 1], window, floor) + (if Crosses(window, size) then size - floor else 0)
  }

  /** Nothing is lost: what grew is what is left plus what was discarded; and every
      compaction discards at least the window, plus one, less the floor. */
  lemma {:induction false} Conserved(growth: seq<int>, window: Option<int>, floor: int)
    ensures TotalGrowth(growth) == RunOf(growth, window, floor).running + Discarded(growth, window, floor)
    ensures window.Some? ==>
      RunOf(growth, window, floor).compactions * (window.value + 1 - floor) <= Discarded(growth, window, floor)
  {
    if growth != [] {
      var front := growth[..|growth| - 1];
      Conserved(front, window, floor);
      if window.Some? {
        var c := RunOf(front, window, floor).compactions;
        assert (c + 1) * (window.value + 1 - floor) == c * (window.value + 1 - floor) + (window.value + 1 - floor);
      }
    }
  }

  /** So a run over `TotalGrowth` tokens compacts at most that often, and every size it
      passes through stays within the window. */
  lemma {:induction false} Bounded(growth: seq<int>, window: int, floor: int)
    requires 0 <= floor <= window
    ensures var s := RunOf(growth, Some(window), floor);
      && s.compactions * (window + 1 - floor) <= TotalGrowth(growth)
      && 0 <= s.running <= window
      && (s.compactions > 0 ==> floor <= s.running)
  {
    Conserved(growth, Some(window), floor);
    if growth != [] { Bounded(growth[..|growth| - 1], window, floor); }
  }

  // ----- domination -----

  /** The windowed size never exceeds the uncompacted one, at any turn of any recording. */
  ghost predicate Dominated(window: int, floor: int) {
    forall growth: seq<int> :: RunOf(growth, Some(window), floor).running <= RunOf(growth, None, 0).running
  }

  lemma {:induction false} UncompactedIsTotal(growth: seq<int>)
    ensures RunOf(growth, None, 0) == Run(TotalGrowth(growth), 0)
  {
    if growth != [] { UncompactedIsTotal(growth[..|growth| - 1]); }
  }

  lemma {:induction false} DominatedRun(growth: seq<int>, window: int, floor: int)
    requires floor <= (if window < 0 then 0 else window + 1)
    ensures RunOf(growth, Some(window), floor).running <= RunOf(growth, None, 0).running
  {
    UncompactedIsTotal(growth);
    if growth != [] {
      UncompactedIsTotal(growth[..|growth| - 1]);
      DominatedRun(growth[..|growth| - 1], window, floor);
    }
  }

  lemma OneTurn(g: int, window: Option<int>, floor: int)
    ensures RunOf([g], window, floor) == Turn(Run(0, 0), g, window, floor)
  {
    assert [g][..0] == [];
  }

  /** The domination the script promises "by construction" is not free: it holds for every
      recording exactly when a compaction resets to no more than the least size that
      triggers one. */
  lemma DominatedIff(window: int, floor: int)
    ensures Dominated(window, floor) <==> floor <= (if window < 0 then 0 else window + 1)
  {
    if floor <= (if window < 0 then 0 else window + 1) {
      forall growth: seq<int> ensures RunOf(growth, Some(window), floor).running <= RunOf(growth, None, 0).running {
        DominatedRun(growth, window, floor);
      }
    } else {
      var g := if window < 0 then 0 else window + 1;
      OneTurn(g, Some(window), floor);
      OneTurn(g, None, 0);
      assert RunOf([g], Some(window), floor).running > RunOf([g], None, 0).running;
    }
  }

  lemma {:induction false} FloorWithin(window: nat, fraction: real)
    requires 0.0 <= fraction <= 1.0
    ensures 0 <= FloorTokens(Some(window), fraction) <= window
  {
    var w := window as real;
    assert 0.0 <= w * fraction <= w;
  }

  function Burn(series: seq<int>): int { Sum(series, (size: int) => size) }

  lemma {:induction false} BurnMonotone(a: seq<int>, b: seq<int>)
    requires |a| == |b| && forall i :: 0 <= i < |a| ==> a[i] <= b[i]
    ensures Burn(a) <= Burn(b)
  {
    if a != [] { BurnMonotone(a[..|a| - 1], b[..|b| - 1]); }
  }

  /** For a fraction between 0 and 1 the modelled burn after the fix is never above the burn
      before it: at every turn, and so in total. */
  lemma AfterNeverExceedsBefore(growth: seq<int>, window: nat, fraction: real)
    requires 0.0 <= fraction <= 1.0
    ensures var floor := FloorTokens(Some(window), fraction);
      var before, after := Series(growth, None, 0), Series(growth, Some(window), floor);
      Burn(after) <= Burn(before) && forall i :: 0 <= i < |growth| ==> after[i] <= before[i] && after[i] <= window
  {
    var floor := FloorTokens(Some(window), fraction);
    FloorWithin(window, fraction);
    forall i | 0 <= i < |growth|
      ensures Series(growth, Some(window), floor)[i] <= Series(growth, None, 0)[i]
      ensures Series(growth, Some(window), floor)[i] <= window
    {
      DominatedRun(growth[..i + 1], window, floor);
      Bounded(growth[..i + 1], window, floor);
    }
    BurnMonotone(Series(growth, Some(window), floor), Series(growth, None, 0));
  }

  // ----- two replays side by side -----

  /** On every recording, the second setting compacts no more often than the first. */
  ghost predicate NeverMoreOften(w1: int, f1: int, w2: int, f2: int) {
    forall growth: seq<int> :: RunOf(growth, Some(w2), f2).compactions <= RunOf(growth, Some(w1), f1).compactions
  }

  /** The coupling of the two runs: while the second has compacted as often as the first it
      has at least as much room left. */
  lemma {:induction false} Coupled(growth: seq<int>, w1: int, f1: int, w2: int, f2: int)
    requires 0 <= f1 <= w1 <= w2 && 0 <= f2 <= w2 && w1 - f1 <= w2 - f2
    ensures var s1, s2 := RunOf(growth, Some(w1), f1), RunOf(growth, Some(w2), f2);
      && s2.compactions <= s1.compactions
      && (s2.compactions == s1.compactions ==> w1 - s1.running <= w2 - s2.running)
      && (s1.compactions > 0 ==> f1 <= s1.running)
  {
    if growth != [] { Coupled(growth[..|growth| - 1], w1, f1, w2, f2); }
  }

  lemma TwoTurns(g: int, h: int, window: int, floor: int)
    ensures RunOf([g, h], Some(window), floor) == Turn(Turn(Run(0, 0), g, Some(window), floor), h, Some(window), floor)
  {
    assert [g, h][..1] == [g];
    OneTurn(g, Some(window), floor);
  }

  /** Compaction count is monotone in the setting: lowering the floor at the same window, or
      raising the window with no less headroom, never adds a compaction on any recording,
      and no other change of setting has that guarantee. */
  lemma NeverMoreOftenIff(w1: int, f1: int, w2: int, f2: int)
    requires 0 <= f1 <= w1 && 0 <= f2 <= w2
    ensures NeverMoreOften(w1, f1, w2, f2) <==> w1 <= w2 && w1 - f1 <= w2 - f2
  {
    if w1 <= w2 && w1 - f1 <= w2 - f2 {
      forall growth: seq<int>
        ensures RunOf(growth, Some(w2), f2).compactions <= RunOf(growth, Some(w1), f1).compactions
      {
        Coupled(growth, w1, f1, w2, f2);
      }
    } else if w2 < w1 {
      OneTurn(w1, Some(w1), f1);
      OneTurn(w1, Some(w2), f2);
      assert RunOf([w1], Some(w2), f2).compactions > RunOf([w1], Some(w1), f1).compactions;
    } else {
      var g, h := w2 + 1, w2 - f2 + 1;
      TwoTurns(g, h, w1, f1);
      TwoTurns(g, h, w2, f2);
      assert RunOf([g, h], Some(w2), f2).compactions > RunOf([g, h], Some(w1), f1).compactions;
    }
  }
}
