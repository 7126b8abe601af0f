/** `ToyGraph`: an automaton over states 0..N-1, the checks and counts made over
    its transition matrix, and the fixed-width text format of its trajectories. */
module ToyGraphs {
  import opened Errors
  import opened Decimal
  import opened Strings

  /** The transition matrix reduced to which entries are nonzero; square. */
  type Graph = g: seq<seq<bool>> | forall i :: 0 <= i < |g| ==> |g[i]| == |g|

  /** How numpy reads the integer index `i` into an axis of length `n`:
      negative indexes count from the end, anything else out of range fails. */
  function ResolveIndex(n: nat, i: int): (r: Option<nat>)
    ensures r.Some? <==> -(n as int) <= i < n
    ensures r.Some? ==> r.value < n && (r.value == i || r.value == i + n)
  {
    if 0 <= i < n then Some(i) else if -(n as int) <= i < 0 then Some(i + n) else None
  }

  /** `transition_matrix[a, b] != 0`, or IndexError. */
  function Edge(g: Graph, a: int, b: int): (r: Result<bool>)
    ensures r.Err? <==> ResolveIndex(|g|, a).None? || ResolveIndex(|g|, b).None?
    ensures r.Err? ==> r.error == IndexError
  {
    match (ResolveIndex(|g|, a), ResolveIndex(|g|, b))
    case (Some(i), Some(j)) => Ok(g[i][j])
    case _ => Err(IndexError)
  }

  predicate HasEdge(g: Graph, a: int, b: int)
  {
    Edge(g, a, b) == Ok(true)
  }

  /** Every consecutive pair of the trajectory is an allowed transition. */
  predicate ValidTrajectory(g: Graph, traj: seq<int>)
  {
    forall i :: 0 <= i < |traj| - 1 ==> HasEdge(g, traj[i], traj[i + 1])
  }

  predicate AllStatesResolve(g: Graph, traj: seq<int>)
  {
    forall i :: 0 <= i < |traj| ==> ResolveIndex(|g|, traj[i]).Some?
  }

  /** The number of consecutive pairs of a trajectory. */
  function NumPairs(traj: seq<int>): nat
  {
    if |traj| == 0 then 0 else |traj| - 1
  }

  /** The first position whose pair is not an allowed transition, or `NumPairs`
      when every pair is allowed. */
  function FirstBad(g: Graph, traj: seq<int>): (i: nat)
    ensures i <= NumPairs(traj)
    ensures forall k :: 0 <= k < i ==> HasEdge(g, traj[k], traj[k + 1])
    ensures i < NumPairs(traj) ==> !HasEdge(g, traj[i], traj[i + 1])
    decreases |traj|
  {
    if |traj| < 2 || !HasEdge(g, traj[0], traj[1]) then 0
    else
      var j := FirstBad(g, traj[1..]);
      assert forall k :: 1 <= k < j + 1 ==> traj[1..][k - 1] == traj[k] && traj[1..][k] == traj[k + 1];
      j + 1
  }

  /** `verify_trajectory`: scans the pairs in order and stops at the first
      missing transition, so the first pair that is not an allowed transition
      decides between `False` and `IndexError`. The diagnostic printing is not modelled. */
  method VerifyTrajectory(g: Graph, traj: seq<int>) returns (r: Result<bool>)
    ensures r == Ok(true) <==> ValidTrajectory(g, traj)
    ensures r == Ok(false) <==>
      FirstBad(g, traj) < NumPairs(traj) && Edge(g, traj[FirstBad(g, traj)], traj[FirstBad(g, traj) + 1]) == Ok(false)
    ensures r.Err? <==>
      FirstBad(g, traj) < NumPairs(traj) && Edge(g, traj[FirstBad(g, traj)], traj[FirstBad(g, traj) + 1]).Err?
    ensures r.Err? ==> r.error == IndexError && !AllStatesResolve(g, traj)
    ensures AllStatesResolve(g, traj) ==> r.Ok?
  {
    var i := 0;
    while i < |traj| - 1
      invariant 0 <= i <= if |traj| == 0 then 0 else |traj| - 1
      invariant forall k :: 0 <= k < i ==> HasEdge(g, traj[k], traj[k + 1])
    {
      var e := Edge(g, traj[i], traj[i + 1]);
      if e != Ok(true) {
        assert FirstBad(g, traj) == i;
      }
      if e.Err? {
        assert ResolveIndex(|g|, traj[i]).None? || ResolveIndex(|g|, traj[i + 1]).None?;
        return Err(IndexError);
      }
      if !e.value {
        return Ok(false);
      }
      i := i + 1;
    }
    assert FirstBad(g, traj) == NumPairs(traj);
    return Ok(true);
  }

  /** The positions of the true entries of `row`, ascending (`np.where(row)[0]`). */
  function TrueIndices(row: seq<bool>): (r: seq<nat>)
    ensures forall k :: 0 <= k < |r| ==> r[k] < |row| && row[r[k]]
    ensures forall j :: 0 <= j < |row| && row[j] ==> j in r
    ensures forall a, b :: 0 <= a < b < |r| ==> r[a] < r[b]
  {
    if |row| == 0 then []
    else
      var init := TrueIndices(row[..|row| - 1]);
      if row[|row| - 1] then init + [|row| - 1] else init
  }

  /** The column `transition_matrix[:, t]`. */
  function Column(g: Graph, t: nat): (c: seq<bool>)
    requires t < |g|
    ensures |c| == |g|
    ensures forall s :: 0 <= s < |g| ==> c[s] == g[s][t]
  {
    seq(|g|, s requires 0 <= s < |g| => g[s][t])
  }

  /** `nbrs(state)`: the states one step after `state`, ascending. */
  function Nbrs(g: Graph, state: int): (r: Result<seq<nat>>)
    ensures r.Err? <==> ResolveIndex(|g|, state).None?
    ensures r.Err? ==> r.error == IndexError
    ensures r.Ok? ==> forall t: int :: t in r.value <==> 0 <= t < |g| && HasEdge(g, state, t)
    ensures r.Ok? ==> forall a, b :: 0 <= a < b < |r.value| ==> r.value[a] < r.value[b]
  {
    match ResolveIndex(|g|, state)
    case Some(s) => Ok(TrueIndices(g[s]))
    case None => Err(IndexError)
  }

  /** `nbrs_to(state)`: the states one step before `state`, ascending. */
  function NbrsTo(g: Graph, state: int): (r: Result<seq<nat>>)
    ensures r.Err? <==> ResolveIndex(|g|, state).None?
    ensures r.Err? ==> r.error == IndexError
    ensures r.Ok? ==> forall s: int :: s in r.value <==> 0 <= s < |g| && HasEdge(g, s, state)
    ensures r.Ok? ==> forall a, b :: 0 <= a < b < |r.value| ==> r.value[a] < r.value[b]
  {
    match ResolveIndex(|g|, state)
    case Some(t) => Ok(TrueIndices(Column(g, t)))
    case None => Err(IndexError)
  }

  /** `t` follows `s` exactly when `s` precedes `t`. */
  lemma NbrsDuality(g: Graph, s: nat, t: nat)
    requires s < |g| && t < |g|
    ensures Nbrs(g, s).Ok? && NbrsTo(g, t).Ok?
    ensures t in Nbrs(g, s).value <==> s in NbrsTo(g, t).value
  {
  }

  /** The positions `i` whose pair `traj[i], traj[i + 1]` is an allowed transition. */
  function GoodSteps(g: Graph, traj: seq<int>): set<int>
  {
    set i {:trigger HasEdge(g, traj[i], traj[i + 1])} | 0 <= i < |traj| - 1 && HasEdge(g, traj[i], traj[i + 1])
  }

  /** Appending a state adds its pair to the allowed transitions when it is allowed. */
  lemma GoodStepsExtend(g: Graph, traj: seq<int>)
    requires |traj| >= 2
    ensures |GoodSteps(g, traj)| ==
      |GoodSteps(g, traj[..|traj| - 1])| + if HasEdge(g, traj[|traj| - 2], traj[|traj| - 1]) then 1 else 0
  {
    var init := traj[..|traj| - 1];
    var n := |traj| - 2;
    assert forall i :: 0 <= i < |init| ==> init[i] == traj[i];
    assert n !in GoodSteps(g, init);
    if HasEdge(g, traj[n], traj[n + 1]) {
      assert GoodSteps(g, traj) == GoodSteps(g, init) + {n};
    } else {
      assert GoodSteps(g, traj) == GoodSteps(g, init);
    }
  }

  /** The number of allowed transitions among the consecutive pairs of `traj`,
      or IndexError when a pair holds a state outside the matrix. */
  function CorrectPairs(g: Graph, traj: seq<int>): (r: Result<nat>)
    ensures r.Err? ==> r.error == IndexError
    ensures r.Err? <==> exists i :: 0 <= i < |traj| - 1 && Edge(g, traj[i], traj[i + 1]).Err?
    ensures r.Ok? ==> r.value == |GoodSteps(g, traj)|
    ensures r.Ok? ==> r.value <= if |traj| == 0 then 0 else |traj| - 1
    ensures r.Ok? && |traj| >= 2 && HasEdge(g, traj[0], traj[1]) ==> r.value >= 1
    decreases |traj|
  {
    if |traj| < 2 then
      assert GoodSteps(g, traj) == {};
      Ok(0)
    else
      var init := traj[..|traj| - 1];
      var c := CorrectPairs(g, init);
      var e := Edge(g, traj[|traj| - 2], traj[|traj| - 1]);
      assert forall i :: 0 <= i < |init| ==> init[i] == traj[i];
      if c.Err? then Err(IndexError)
      else if e.Err? then Err(IndexError)
      else
        GoodStepsExtend(g, traj);
        Ok(c.value + if e.value then 1 else 0)
  }

  /** A trajectory of at least one state has every transition allowed exactly
      when all of its pairs are counted as correct. */
  lemma {:induction false} CorrectPairsIffValid(g: Graph, traj: seq<int>)
    requires |traj| >= 1
    ensures CorrectPairs(g, traj) == Ok(|traj| - 1) <==> ValidTrajectory(g, traj)
    decreases |traj|
  {
    if |traj| >= 2 {
      CorrectPairsIffValid(g, traj[..|traj| - 1]);
      ValidExtends(g, traj);
      CorrectPairsStep(g, traj);
    }
  }

  /** One unfolding of `CorrectPairs` on a trajectory with at least one pair. */
  lemma CorrectPairsStep(g: Graph, traj: seq<int>)
    requires |traj| >= 2
    ensures var c := CorrectPairs(g, traj[..|traj| - 1]);
      var e := Edge(g, traj[|traj| - 2], traj[|traj| - 1]);
      CorrectPairs(g, traj) == if c.Err? || e.Err? then Err(IndexError) else Ok(c.value + if e.value then 1 else 0)
  {
    var c := CorrectPairs(g, traj[..|traj| - 1]);
    var e := Edge(g, traj[|traj| - 2], traj[|traj| - 1]);
    if c.Err? || e.Err? {
      assert CorrectPairs(g, traj) == Err(IndexError);
    } else {
      assert CorrectPairs(g, traj) == Ok(c.value + if e.value then 1 else 0);
    }
  }

  /** A trajectory is valid exactly when it is a valid trajectory plus one allowed step. */
  lemma ValidExtends(g: Graph, traj: seq<int>)
    requires |traj| >= 2
    ensures ValidTrajectory(g, traj) <==>
      ValidTrajectory(g, traj[..|traj| - 1]) && HasEdge(g, traj[|traj| - 2], traj[|traj| - 1])
  {
    var init := traj[..|traj| - 1];
    assert forall i :: 0 <= i < |init| ==> init[i] == traj[i];
  }

  /** 1 when the trajectory's first transition is allowed. */
  function FirstCorrect(g: Graph, traj: seq<int>): nat
  {
    if |traj| >= 2 && HasEdge(g, traj[0], traj[1]) then 1 else 0
  }

  /** The three running totals of `transition_accuracy`. */
  datatype Totals = Totals(correct: nat, first: nat, total: int)

  /** Σ max(len(traj) - 1, 0): the number of consecutive pairs in all trajectories. */
  function Pairs(trajs: seq<seq<int>>): nat
  {
    if |trajs| == 0 then 0
    else Pairs(trajs[..|trajs| - 1]) + if |trajs[|trajs| - 1]| == 0 then 0 else |trajs[|trajs| - 1]| - 1
  }

  /** The number of empty trajectories. */
  function Empties(trajs: seq<seq<int>>): nat
  {
    if |trajs| == 0 then 0
    else Empties(trajs[..|trajs| - 1]) + if |trajs[|trajs| - 1]| == 0 then 1 else 0
  }

  /** Σ over the trajectories of their allowed transitions. */
  function SumGoodSteps(g: Graph, trajs: seq<seq<int>>): nat
  {
    if |trajs| == 0 then 0
    else SumGoodSteps(g, trajs[..|trajs| - 1]) + |GoodSteps(g, trajs[|trajs| - 1])|
  }

  /** The trajectories (by position) whose first transition is allowed. */
  function FirstGood(g: Graph, trajs: seq<seq<int>>): set<int>
  {
    set k | 0 <= k < |trajs| && |trajs[k]| >= 2 && HasEdge(g, trajs[k][0], trajs[k][1])
  }

  /** Appending a trajectory adds it to `FirstGood` when its first transition is allowed. */
  lemma FirstGoodExtend(g: Graph, trajs: seq<seq<int>>)
    requires |trajs| >= 1
    ensures |FirstGood(g, trajs)| == |FirstGood(g, trajs[..|trajs| - 1])| + FirstCorrect(g, trajs[|trajs| - 1])
  {
    var init := trajs[..|trajs| - 1];
    var n := |trajs| - 1;
    assert forall k :: 0 <= k < |init| ==> init[k] == trajs[k];
    assert n !in FirstGood(g, init);
    if FirstCorrect(g, trajs[n]) == 1 {
      assert FirstGood(g, trajs) == FirstGood(g, init) + {n};
    } else {
      assert FirstGood(g, trajs) == FirstGood(g, init);
    }
  }

  /** The loop of `transition_accuracy` over `trajs`, in order. */
  function Tally(g: Graph, trajs: seq<seq<int>>): (r: Result<Totals>)
    ensures r.Err? ==> r.error == IndexError
    ensures r.Ok? <==> forall k :: 0 <= k < |trajs| ==> CorrectPairs(g, trajs[k]).Ok?
    ensures r.Ok? ==> r.value.correct == SumGoodSteps(g, trajs)
    ensures r.Ok? ==> r.value.first == |FirstGood(g, trajs)|
    ensures r.Ok? ==> r.value.first <= r.value.correct <= Pairs(trajs)
    ensures r.Ok? ==> r.value.first <= |trajs|
    ensures r.Ok? ==> r.value.total == Pairs(trajs) - Empties(trajs)
    decreases |trajs|
  {
    if |trajs| == 0 then
      assert FirstGood(g, trajs) == {};
      Ok(Totals(0, 0, 0))
    else
      var init := trajs[..|trajs| - 1];
      var last := trajs[|trajs| - 1];
      var t := Tally(g, init);
      var c := CorrectPairs(g, last);
      assert trajs == init + [last];
      AllCountedSplit(g, init, last);
      if t.Err? || c.Err? then Err(IndexError)
      else
        FirstGoodExtend(g, trajs);
        Ok(Totals(t.value.correct + c.value, t.value.first + FirstCorrect(g, last), t.value.total + |last| - 1))
  }

  /** Every trajectory is counted exactly when the earlier ones and the last one are. */
  lemma AllCountedSplit(g: Graph, init: seq<seq<int>>, last: seq<int>)
    ensures (forall k :: 0 <= k < |init + [last]| ==> CorrectPairs(g, (init + [last])[k]).Ok?) <==>
      (forall k :: 0 <= k < |init| ==> CorrectPairs(g, init[k]).Ok?) && CorrectPairs(g, last).Ok?
  {
    var trajs := init + [last];
    assert forall k :: 0 <= k < |init| ==> init[k] == trajs[k];
    assert trajs[|init|] == last;
  }

  /** `transition_accuracy(trajs)`: the share of correct transitions and the
      share of trajectories whose first transition is correct. The guard looks
      only at the last trajectory, and an empty list leaves the loop variable
      unbound. */
  function TransitionAccuracy(g: Graph, trajs: seq<seq<int>>): (r: Result<(real, real)>)
    ensures r == Err(NameError) <==> |trajs| == 0
    ensures |trajs| > 0 && Tally(g, trajs).Err? ==> r == Err(IndexError)
    ensures |trajs| > 0 && |trajs[|trajs| - 1]| <= 1 && Tally(g, trajs).Ok? ==> r == Ok((0.0, 0.0))
    ensures |trajs| > 0 && |trajs[|trajs| - 1]| > 1 && Tally(g, trajs).Ok? ==>
              (r == Err(ZeroDivisionError) <==> Pairs(trajs) == Empties(trajs))
    ensures |trajs| > 0 && |trajs[|trajs| - 1]| > 1 && Tally(g, trajs).Ok? && Pairs(trajs) != Empties(trajs) ==>
              r == Ok((SumGoodSteps(g, trajs) as real / (Pairs(trajs) - Empties(trajs)) as real,
                       |FirstGood(g, trajs)| as real / |trajs| as real))
    ensures r == Err(ZeroDivisionError) ==> exists k :: 0 <= k < |trajs| && |trajs[k]| == 0
  {
    if |trajs| == 0 then Err(NameError)
    else
      var t := Tally(g, trajs);
      if t.Err? then Err(IndexError)
      else if |trajs[|trajs| - 1]| > 1 then
        if t.value.total == 0 then
          EmptiesBound(trajs);
          Err(ZeroDivisionError)
        else
          Ok((t.value.correct as real / t.value.total as real, t.value.first as real / |trajs| as real))
      else Ok((0.0, 0.0))
  }

  /** Without empty trajectories, the running total counts every pair. */
  lemma {:induction false} NoEmptiesMeansTotalIsPairs(trajs: seq<seq<int>>)
    ensures (forall k :: 0 <= k < |trajs| ==> |trajs[k]| >= 1) ==> Empties(trajs) == 0
    decreases |trajs|
  {
    if |trajs| > 0 {
      var init := trajs[..|trajs| - 1];
      assert forall k :: 0 <= k < |init| ==> init[k] == trajs[k];
      NoEmptiesMeansTotalIsPairs(init);
    }
  }

  /** When the last trajectory has a pair, a zero total needs an empty trajectory. */
  lemma EmptiesBound(trajs: seq<seq<int>>)
    requires |trajs| > 0 && |trajs[|trajs| - 1]| > 1
    requires Pairs(trajs) - Empties(trajs) == 0
    ensures exists k :: 0 <= k < |trajs| && |trajs[k]| == 0
  {
    assert Pairs(trajs) >= 1;
    SomeEmpty(trajs);
  }

  lemma {:induction false} SomeEmpty(trajs: seq<seq<int>>)
    requires Empties(trajs) > 0
    ensures exists k :: 0 <= k < |trajs| && |trajs[k]| == 0
    decreases |trajs|
  {
    var init := trajs[..|trajs| - 1];
    if |trajs[|trajs| - 1]| != 0 {
      SomeEmpty(init);
      var k :| 0 <= k < |init| && |init[k]| == 0;
      assert trajs[k] == init[k];
    }
  }

  /** Without empty trajectories the correct transitions never exceed the total. */
  lemma CorrectWithinTotal(g: Graph, trajs: seq<seq<int>>)
    requires forall k :: 0 <= k < |trajs| ==> |trajs[k]| >= 1
    requires Tally(g, trajs).Ok?
    ensures Tally(g, trajs).value.correct <= Tally(g, trajs).value.total
  {
    NoEmptiesMeansTotalIsPairs(trajs);
  }

  /** Without empty trajectories both shares lie between 0 and 1. */
  lemma AccuracyWithinUnit(g: Graph, trajs: seq<seq<int>>)
    requires forall k :: 0 <= k < |trajs| ==> |trajs[k]| >= 1
    requires TransitionAccuracy(g, trajs).Ok?
    ensures 0.0 <= TransitionAccuracy(g, trajs).value.0 <= 1.0
    ensures 0.0 <= TransitionAccuracy(g, trajs).value.1 <= 1.0
  {
    var t := Tally(g, trajs).value;
    NoEmptiesMeansTotalIsPairs(trajs);
    if |trajs[|trajs| - 1]| > 1 {
      assert 0 <= t.correct <= t.total && t.total > 0;
      RatioWithinUnit(t.correct, t.total);
      RatioWithinUnit(t.first, |trajs|);
    }
  }

  lemma RatioWithinUnit(a: nat, b: nat)
    requires a <= b && b > 0
    ensures 0.0 <= a as real / b as real <= 1.0
  {
  }

  /** An empty trajectory before a good one makes the total zero. */
  lemma EmptyTrajectoryDividesByZero(g: Graph)
    requires |g| >= 2 && g[0][1]
    ensures TransitionAccuracy(g, [[], [0, 1]]) == Err(ZeroDivisionError)
  {
    var trajs: seq<seq<int>> := [[], [0, 1]];
    assert trajs[..1] == [[]];
    assert CorrectPairs(g, [0, 1]) == Ok(1) by {
      assert [0, 1][..1] == [0];
    }
    assert Tally(g, trajs[..1]) == Ok(Totals(0, 0, -1)) by {
      assert trajs[..1][..0] == [];
    }
  }

  /** A trajectory of one state at the end hides every earlier transition. */
  lemma LastTrajectoryDecides(g: Graph)
    requires |g| >= 2 && g[0][1]
    ensures TransitionAccuracy(g, [[0, 1], [0]]) == Ok((0.0, 0.0))
  {
    var trajs: seq<seq<int>> := [[0, 1], [0]];
    assert trajs[..1] == [[0, 1]];
    assert CorrectPairs(g, [0, 1]).Ok? by {
      assert [0, 1][..1] == [0];
    }
    assert Tally(g, trajs[..1]).Ok? by {
      assert trajs[..1][..0] == [];
    }
  }

  /** `"0" * (digits - len(str(x))) + str(x)`: `str(x)` left-padded with '0' to
      `digits` characters; a longer `str(x)` is kept whole. */
  function Pad(digits: nat, x: nat): (p: string)
    ensures AllDigits(p) && |p| >= 1
    ensures |p| == if |NatToStr(x)| <= digits then digits else |NatToStr(x)|
    ensures DigitsValue(p) == x
  {
    var s := NatToStr(x);
    var z := if |s| <= digits then Zeros(digits - |s|) else "";
    LeadingZerosIgnored(|z|, s);
    DigitsValueOfNatToStr(x);
    assert Zeros(|z|) == z;
    z + s
  }

  /** `traj_to_str(traj)`: the padded states, concatenated. */
  function TrajToStr(digits: nat, traj: seq<nat>): (s: string)
    ensures AllDigits(s)
    ensures |s| >= |traj|
    ensures s == Join(PadAll(digits, traj), "")
    decreases |traj|
  {
    if |traj| == 0 then ""
    else
      assert PadAll(digits, traj)[1..] == PadAll(digits, traj[1..]);
      Pad(digits, traj[0]) + TrajToStr(digits, traj[1..])
  }

  predicate FitsIn(digits: nat, traj: seq<nat>)
  {
    forall k :: 0 <= k < |traj| ==> traj[k] < Pow10(digits)
  }

  /** When every state has at most `digits` decimal digits, each takes exactly `digits` characters. */
  lemma {:induction false} TrajToStrLength(digits: nat, traj: seq<nat>)
    requires digits >= 1 && FitsIn(digits, traj)
    ensures |TrajToStr(digits, traj)| == digits * |traj|
    decreases |traj|
  {
    if |traj| > 0 {
      NatToStrFits(traj[0], digits);
      TrajToStrLength(digits, traj[1..]);
      assert digits * |traj| == digits + digits * (|traj| - 1);
    }
  }

  /** The end-of-text marker the tokenizer appends. */
  const EndOfText: string := "<|endoftext|>"

  /** The complete `width`-wide chunks of `s`, in order; a trailing incomplete
      chunk is dropped. */
  function Chunks(width: nat, s: string): (r: seq<string>)
    requires width >= 1
    ensures |r| == |s| / width
    ensures forall k :: 0 <= k < |r| ==> |r[k]| == width
    decreases |s|
  {
    if |s| < width then []
    else
      DivStep(|s|, width);
      [s[..width]] + Chunks(width, s[width..])
  }

  lemma DivStep(n: nat, d: nat)
    requires 1 <= d <= n
    ensures (n - d) / d == n / d - 1
  {
    var q := (n - d) / d;
    var m := (n - d) % d;
    assert n == (q + 1) * d + m && 0 <= m < d;
    DivUnique(n, d, q + 1, m);
  }

  lemma DivUnique(n: nat, d: nat, q: nat, m: nat)
    requires d >= 1 && m < d && n == q * d + m
    ensures n / d == q
  {
    var q' := n / d;
    assert n == q' * d + n % d && n % d < d;
    MulSucc(q, d);
    MulSucc(q', d);
    if q' < q {
      MulMono(q' + 1, q, d);
      assert false;
    } else if q' > q {
      MulMono(q + 1, q', d);
      assert false;
    }
  }

  lemma {:induction false} MulMono(a: nat, b: nat, d: nat)
    requires a <= b
    ensures a * d <= b * d
    decreases b - a
  {
    if a < b {
      MulMono(a, b - 1, d);
      assert b * d == (b - 1) * d + d;
    }
  }

  lemma MulSucc(a: nat, d: nat)
    ensures (a + 1) * d == a * d + d
  {
  }

  /** Where chunk `k` starts: `k * width`, written as repeated addition. */
  function Offset(k: nat, width: nat): (o: nat)
    ensures o == k * width
  {
    if k == 0 then 0 else MulSucc(k - 1, width); Offset(k - 1, width) + width
  }

  /** Chunk `k` is the text from `k * width` up to `(k + 1) * width`. */
  lemma {:induction false} ChunkAt(width: nat, s: string, k: nat)
    requires width >= 1 && k < |Chunks(width, s)|
    ensures Offset(k, width) + width <= |s|
    ensures Chunks(width, s)[k] == s[Offset(k, width)..Offset(k, width) + width]
    decreases k
  {
    assert |s| >= width;
    if k > 0 {
      ChunkAt(width, s[width..], k - 1);
      var lo := Offset(k - 1, width);
      assert Offset(k, width) == lo + width;
      SliceOfSuffix(s, width, lo, width);
    }
  }

  lemma SliceOfSuffix(s: string, d: nat, lo: nat, n: nat)
    requires d + lo + n <= |s|
    ensures s[d..][lo..lo + n] == s[d + lo..d + lo + n]
  {
  }

  /** The argument of `seq_to_traj`: a single string or a list of strings. */
  datatype Sequences = One(text: string) | Many(texts: seq<string>)

  /** The list `seq_to_traj` works through: a single string becomes a list of one. */
  function AsList(sequences: Sequences): (l: seq<string>)
    ensures sequences.One? ==> l == [sequences.text]
    ensures sequences.Many? ==> l == sequences.texts
  {
    match sequences
    case One(s) => [s]
    case Many(items) => items
  }

  /** Every complete `digits`-wide chunk of `s` is an integer literal. */
  predicate ChunksParse(digits: nat, s: string)
    requires digits >= 1
  {
    forall k :: 0 <= k < |Chunks(digits, s)| ==> ParseInt(Chunks(digits, s)[k]).Ok?
  }

  /** One text to one trajectory: strip the end-of-text markers, then `int` of
      each complete chunk. `range(0, n, 0)` raises ValueError, so `digits == 0` fails. */
  function TextToTraj(digits: nat, text: string): (r: Result<seq<int>>)
    ensures digits == 0 ==> r == Err(ValueError)
    ensures r.Err? ==> r.error == ValueError
    ensures r.Ok? <==> digits >= 1 && ChunksParse(digits, ReplaceAll(text, EndOfText, ""))
    ensures r.Ok? ==> digits >= 1 && |r.value| == |ReplaceAll(text, EndOfText, "")| / digits
    ensures r.Ok? ==> forall k :: 0 <= k < |r.value| ==>
              ParseInt(Chunks(digits, ReplaceAll(text, EndOfText, ""))[k]) == Ok(r.value[k])
  {
    if digits == 0 then Err(ValueError) else ParseInts(Chunks(digits, ReplaceAll(text, EndOfText, "")))
  }

  /** `seq_to_traj(sequences)`: one trajectory per text, in order; the first
      failing text raises. */
  function SeqToTraj(digits: nat, sequences: Sequences): (r: Result<seq<seq<int>>>)
    ensures r.Ok? <==> forall k :: 0 <= k < |AsList(sequences)| ==> TextToTraj(digits, AsList(sequences)[k]).Ok?
    ensures r.Ok? ==> |r.value| == |AsList(sequences)|
    ensures r.Ok? ==> forall k :: 0 <= k < |r.value| ==> TextToTraj(digits, AsList(sequences)[k]) == Ok(r.value[k])
    ensures r.Err? ==> r.error == ValueError
  {
    ParseAll(digits, AsList(sequences))
  }

  function ParseAll(digits: nat, texts: seq<string>): (r: Result<seq<seq<int>>>)
    ensures r.Ok? <==> forall k :: 0 <= k < |texts| ==> TextToTraj(digits, texts[k]).Ok?
    ensures r.Ok? ==> |r.value| == |texts|
    ensures r.Ok? ==> forall k :: 0 <= k < |r.value| ==> TextToTraj(digits, texts[k]) == Ok(r.value[k])
    ensures r.Err? ==> r.error == ValueError
    decreases |texts|
  {
    if |texts| == 0 then Ok([])
    else
      var head := TextToTraj(digits, texts[0]);
      var rest := ParseAll(digits, texts[1..]);
      assert texts == [texts[0]] + texts[1..];
      AllTextsSplit(digits, texts[0], texts[1..]);
      assert forall k :: 0 < k < |texts| ==> texts[1..][k - 1] == texts[k];
      if head.Err? then Err(ValueError)
      else if rest.Err? then Err(ValueError)
      else Ok([head.value] + rest.value)
  }

  /** Every text parses exactly when the first one and the rest do. */
  lemma AllTextsSplit(digits: nat, head: string, tail: seq<string>)
    ensures (forall k :: 0 <= k < |[head] + tail| ==> TextToTraj(digits, ([head] + tail)[k]).Ok?) <==>
      TextToTraj(digits, head).Ok? && forall k :: 0 <= k < |tail| ==> TextToTraj(digits, tail[k]).Ok?
  {
    var texts := [head] + tail;
    assert texts[0] == head;
    assert forall k :: 0 <= k < |tail| ==> texts[k + 1] == tail[k];
  }

  /** Decoding the encoding of a trajectory whose states fit in `digits`
      characters gives back that one trajectory. */
  lemma RoundTrip(digits: nat, traj: seq<nat>)
    requires digits >= 1 && FitsIn(digits, traj)
    ensures SeqToTraj(digits, One(TrajToStr(digits, traj))) == Ok([traj])
  {
    var s := TrajToStr(digits, traj);
    NoMarkerInDigits(s);
    ChunksOfTrajToStr(digits, traj);
    ParsePadded(digits, traj);
    SingleText(digits, s, traj);
  }

  /** Two encoded trajectories separated by an end-of-text marker decode to
      their concatenation: the marker is removed and the states run on. */
  lemma MarkerJoinedDecode(digits: nat, a: seq<nat>, b: seq<nat>)
    requires digits >= 1 && FitsIn(digits, a) && FitsIn(digits, b)
    ensures TextToTraj(digits, Join([TrajToStr(digits, a), TrajToStr(digits, b)], EndOfText)) == Ok(a + b)
  {
    var sa, sb := TrajToStr(digits, a), TrajToStr(digits, b);
    MarkerRemoved(sa, sb);
    TrajToStrConcat(digits, a, b);
    assert FitsIn(digits, a + b);
    ChunksOfTrajToStr(digits, a + b);
    ParsePadded(digits, a + b);
  }

  /** Removing the marker between two digit strings leaves them run together. */
  lemma MarkerRemoved(sa: string, sb: string)
    requires AllDigits(sa) && AllDigits(sb)
    ensures ReplaceAll(Join([sa, sb], EndOfText), EndOfText, "") == sa + sb
  {
    var parts := [sa, sb];
    NoMarkerStart(sa);
    NoMarkerStart(sb);
    ReplaceJoin(parts, EndOfText, "");
    assert parts[1..] == [sb];
    assert Join(parts, "") == sa + "" + sb;
    assert sa + "" + sb == sa + sb;
  }

  lemma NoMarkerStart(s: string)
    requires AllDigits(s)
    ensures EndOfText[0] !in s
  {
    assert forall i :: 0 <= i < |s| ==> s[i] != EndOfText[0];
  }

  /** The encoding of a concatenation is the concatenation of the encodings. */
  lemma {:induction false} TrajToStrConcat(digits: nat, a: seq<nat>, b: seq<nat>)
    ensures TrajToStr(digits, a + b) == TrajToStr(digits, a) + TrajToStr(digits, b)
    decreases |a|
  {
    if |a| == 0 {
      assert a + b == b;
    } else {
      ConsSplit(a, b);
      var p, ta, tb := Pad(digits, a[0]), TrajToStr(digits, a[1..]), TrajToStr(digits, b);
      calc {
        TrajToStr(digits, a + b);
        { TrajToStrCons(digits, a[0], a[1..] + b); }
        p + TrajToStr(digits, a[1..] + b);
        { TrajToStrConcat(digits, a[1..], b); }
        p + (ta + tb);
        { AppendAssoc(p, ta, tb); }
        (p + ta) + tb;
        { TrajToStrCons(digits, a[0], a[1..]); }
        TrajToStr(digits, a) + tb;
      }
    }
  }

  lemma AppendAssoc(x: string, y: string, z: string)
    ensures x + (y + z) == (x + y) + z
  {
  }

  lemma ConsSplit(a: seq<nat>, b: seq<nat>)
    requires |a| > 0
    ensures [a[0]] + (a[1..] + b) == a + b
    ensures [a[0]] + a[1..] == a
  {
  }

  lemma TrajToStrCons(digits: nat, x: nat, t: seq<nat>)
    ensures TrajToStr(digits, [x] + t) == Pad(digits, x) + TrajToStr(digits, t)
  {
    assert ([x] + t)[1..] == t;
  }

  /** Digit strings hold no end-of-text marker. */
  lemma NoMarkerInDigits(s: string)
    requires AllDigits(s)
    ensures ReplaceAll(s, EndOfText, "") == s
  {
    assert forall i :: 0 <= i < |s| ==> s[i] != EndOfText[0];
    ReplaceAbsent(s, EndOfText, "");
  }

  lemma SingleText(digits: nat, s: string, traj: seq<int>)
    requires TextToTraj(digits, s) == Ok(traj)
    ensures SeqToTraj(digits, One(s)) == Ok([traj])
  {
    var r := ParseAll(digits, [s]);
    assert TextToTraj(digits, [s][0]).Ok?;
    assert r.Ok? && |r.value| == 1;
    assert TextToTraj(digits, [s][0]) == Ok(r.value[0]);
    assert r.value == [traj];
  }

  /** Each state of a trajectory, padded. */
  function PadAll(digits: nat, traj: seq<nat>): (p: seq<string>)
    ensures |p| == |traj|
    ensures forall k :: 0 <= k < |traj| ==> p[k] == Pad(digits, traj[k])
  {
    seq(|traj|, k requires 0 <= k < |traj| => Pad(digits, traj[k]))
  }

  /** When the states fit, the chunks of the encoding are the padded states. */
  lemma {:induction false} ChunksOfTrajToStr(digits: nat, traj: seq<nat>)
    requires digits >= 1 && FitsIn(digits, traj)
    ensures Chunks(digits, TrajToStr(digits, traj)) == PadAll(digits, traj)
    decreases |traj|
  {
    if |traj| > 0 {
      var s := TrajToStr(digits, traj);
      FirstPadded(digits, traj);
      calc {
        Chunks(digits, s);
        { ChunksCons(digits, s); }
        [s[..digits]] + Chunks(digits, s[digits..]);
        [Pad(digits, traj[0])] + Chunks(digits, TrajToStr(digits, traj[1..]));
        { ChunksOfTrajToStr(digits, traj[1..]); }
        [Pad(digits, traj[0])] + PadAll(digits, traj[1..]);
        { PadAllCons(digits, traj); }
        PadAll(digits, traj);
      }
    }
  }

  lemma ChunksCons(width: nat, s: string)
    requires width >= 1 && |s| >= width
    ensures Chunks(width, s) == [s[..width]] + Chunks(width, s[width..])
  {
  }

  lemma PadAllCons(digits: nat, traj: seq<nat>)
    requires |traj| > 0
    ensures PadAll(digits, traj) == [Pad(digits, traj[0])] + PadAll(digits, traj[1..])
  {
  }

  /** When the states fit, state `k` occupies characters `[k * digits, (k + 1) * digits)`. */
  lemma StateAt(digits: nat, traj: seq<nat>, k: nat)
    requires digits >= 1 && FitsIn(digits, traj) && k < |traj|
    ensures Offset(k, digits) + digits <= |TrajToStr(digits, traj)|
    ensures TrajToStr(digits, traj)[Offset(k, digits)..Offset(k, digits) + digits] == Pad(digits, traj[k])
  {
    ChunksOfTrajToStr(digits, traj);
    ChunkAt(digits, TrajToStr(digits, traj), k);
  }

  /** The encoding starts with the first state's `digits` characters. */
  lemma FirstPadded(digits: nat, traj: seq<nat>)
    requires digits >= 1 && FitsIn(digits, traj) && |traj| > 0
    ensures |TrajToStr(digits, traj)| >= digits
    ensures TrajToStr(digits, traj)[..digits] == Pad(digits, traj[0])
    ensures TrajToStr(digits, traj)[digits..] == TrajToStr(digits, traj[1..])
  {
    NatToStrFits(traj[0], digits);
    assert |Pad(digits, traj[0])| == digits;
  }

  /** `int` of a padded state is the state. */
  lemma ParsePad(digits: nat, x: nat)
    ensures ParseInt(Pad(digits, x)) == Ok(x)
  {
  }

  /** `int` of each padded state gives back the trajectory. */
  lemma {:induction false} ParsePadded(digits: nat, traj: seq<nat>)
    ensures ParseInts(PadAll(digits, traj)) == Ok(traj)
    decreases |traj|
  {
    if |traj| > 0 {
      var p := PadAll(digits, traj);
      assert p[1..] == PadAll(digits, traj[1..]);
      ParsePad(digits, traj[0]);
      ParsePadded(digits, traj[1..]);
      assert [traj[0] as int] + traj[1..] == traj;
    }
  }
}
