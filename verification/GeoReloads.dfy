/** Concurrent reloads of one database: the load-and-check and the store of a call are separate steps. */
module GeoReloads {
  import opened Words
  import opened PlaceValue
  import opened GeoIp

  /** The two accesses a reload call makes to the shared cell. */
  datatype Op = Load(call: nat) | Store(call: nat)

  /** `inFlight` maps each call that passed the gate to the snapshot it was checked against. */
  datatype State = State(
    inner: Option<Loaded>,
    inFlight: map<nat, Option<Loaded>>,
    called: set<nat>,
    installed: seq<Loaded>)

  function Init(first: Option<Loaded>): State {
    State(first, map[], {}, if first.Some? then [first.value] else [])
  }

  predicate Enabled(s: State, op: Op) {
    match op
    case Load(c) => c !in s.called
    case Store(c) => c in s.inFlight
  }

  /** `candidates` says what the bytes of each call decode to. */
  function Next(candidates: nat -> Loaded, s: State, op: Op): State {
    match op
    case Load(c) =>
      var s' := s.(called := s.called + {c});
      if Gate(candidates(c), s.inner).Ok? then s'.(inFlight := s.inFlight[c := s.inner]) else s'
    case Store(c) =>
      s.(inner := Some(candidates(c)), inFlight := s.inFlight - {c}, installed := s.installed + [candidates(c)])
  }

  /** The state after the first `n` steps. */
  function At(candidates: nat -> Loaded, first: Option<Loaded>, ops: seq<Op>, n: nat): State
    requires n <= |ops|
  {
    if n == 0 then Init(first) else Next(candidates, At(candidates, first, ops, n - 1), ops[n - 1])
  }

  /** The first `n` steps are each enabled when they are taken. */
  predicate Run(candidates: nat -> Loaded, first: Option<Loaded>, ops: seq<Op>, n: nat)
    requires n <= |ops|
  {
    n == 0 || (Run(candidates, first, ops, n - 1) && Enabled(At(candidates, first, ops, n - 1), ops[n - 1]))
  }

  lemma OneMore(candidates: nat -> Loaded, first: Option<Loaded>, ops: seq<Op>, n: nat)
    requires n < |ops|
    ensures At(candidates, first, ops, n + 1) == Next(candidates, At(candidates, first, ops, n), ops[n])
    ensures Run(candidates, first, ops, n + 1) <==>
      Run(candidates, first, ops, n) && Enabled(At(candidates, first, ops, n), ops[n])
  {
  }

  /** What comes later does not change the first `n` steps. */
  lemma {:induction false} AtPrefix(candidates: nat -> Loaded, first: Option<Loaded>,
                                     ops: seq<Op>, more: seq<Op>, n: nat)
    requires n <= |ops|
    ensures At(candidates, first, ops + more, n) == At(candidates, first, ops, n)
    ensures Run(candidates, first, ops + more, n) == Run(candidates, first, ops, n)
  {
    if n != 0 {
      AtPrefix(candidates, first, ops, more, n - 1);
    }
  }

  // ---- Safety over every interleaving ---------------------------------------

  ghost predicate LastInstalled(s: State) {
    s.inner == if s.installed == [] then None else Some(s.installed[|s.installed| - 1])
  }

  /** Database `j` passed the gate against one that was installed before it. */
  ghost predicate GatedByEarlier(installed: seq<Loaded>, j: nat)
    requires j < |installed|
  {
    exists i :: 0 <= i < j && Gate(installed[j], Some(installed[i])).Ok?
  }

  /** A call in flight passed the gate against an installed database. */
  ghost predicate GatedInFlight(candidates: nat -> Loaded, s: State, c: nat)
    requires c in s.inFlight
  {
    exists i :: 0 <= i < |s.installed| && s.inFlight[c] == Some(s.installed[i])
                && Gate(candidates(c), Some(s.installed[i])).Ok?
  }

  ghost predicate Safe(candidates: nat -> Loaded, s: State) {
    && s.installed != []
    && LastInstalled(s)
    && (forall c :: c in s.inFlight ==> GatedInFlight(candidates, s, c))
    && (forall j :: 0 < j < |s.installed| ==> GatedByEarlier(s.installed, j))
    && (forall j :: 0 <= j < |s.installed| ==> s.installed[j].buildEpoch >= s.installed[0].buildEpoch)
  }

  lemma InFlightStaysGated(candidates: nat -> Loaded, s: State, s': State, c: nat)
    requires c in s.inFlight && c in s'.inFlight && s.inFlight[c] == s'.inFlight[c]
    requires s.installed <= s'.installed && GatedInFlight(candidates, s, c)
    ensures GatedInFlight(candidates, s', c)
  {
    var i :| 0 <= i < |s.installed| && s.inFlight[c] == Some(s.installed[i])
             && Gate(candidates(c), Some(s.installed[i])).Ok?;
    assert s'.installed[i] == s.installed[i];
  }

  lemma HistoryStaysGated(candidates: nat -> Loaded, s: State, c: nat, j: nat)
    requires Safe(candidates, s) && c in s.inFlight && 0 < j <= |s.installed|
    ensures GatedByEarlier(s.installed + [candidates(c)], j)
  {
    var installed := s.installed + [candidates(c)];
    if j < |s.installed| {
      assert GatedByEarlier(s.installed, j);
      var i :| 0 <= i < j && Gate(s.installed[j], Some(s.installed[i])).Ok?;
      assert Gate(installed[j], Some(installed[i])).Ok?;
    } else {
      assert GatedInFlight(candidates, s, c);
      var i :| 0 <= i < |s.installed| && s.inFlight[c] == Some(s.installed[i])
               && Gate(candidates(c), Some(s.installed[i])).Ok?;
      assert Gate(installed[j], Some(installed[i])).Ok?;
    }
  }

  lemma SafeIsKept(candidates: nat -> Loaded, s: State, op: Op)
    requires Safe(candidates, s) && Enabled(s, op)
    ensures Safe(candidates, Next(candidates, s, op))
    ensures Next(candidates, s, op).installed[0] == s.installed[0]
  {
    var s' := Next(candidates, s, op);
    forall c | c in s'.inFlight ensures GatedInFlight(candidates, s', c) {
      if c in s.inFlight && s.inFlight[c] == s'.inFlight[c] {
        InFlightStaysGated(candidates, s, s', c);
      } else {
        assert s'.inFlight[c] == Some(s.installed[|s.installed| - 1]);
      }
    }
    if op.Store? {
      assert GatedInFlight(candidates, s, op.call);
      forall j | 0 < j < |s'.installed| ensures GatedByEarlier(s'.installed, j) {
        HistoryStaysGated(candidates, s, op.call, j);
      }
    }
  }

  lemma {:induction false} SafeAt(candidates: nat -> Loaded, first: Loaded, ops: seq<Op>, n: nat)
    requires n <= |ops| && Run(candidates, Some(first), ops, n)
    ensures Safe(candidates, At(candidates, Some(first), ops, n))
    ensures At(candidates, Some(first), ops, n).installed[0] == first
  {
    if n == 0 {
      assert Safe(candidates, Init(Some(first)));
    } else {
      SafeAt(candidates, first, ops, n - 1);
      SafeIsKept(candidates, At(candidates, Some(first), ops, n - 1), ops[n - 1]);
    }
  }

  /** Over every interleaving, no installed database is older than the first,
      and each one passed the gate against a database installed before it. */
  lemma EveryInstallWasGated(candidates: nat -> Loaded, first: Loaded, ops: seq<Op>)
    requires Run(candidates, Some(first), ops, |ops|)
    ensures var installed := At(candidates, Some(first), ops, |ops|).installed;
      && (forall j :: 0 <= j < |installed| ==> installed[j].buildEpoch >= first.buildEpoch)
      && (forall j :: 0 < j < |installed| ==> GatedByEarlier(installed, j))
  {
    SafeAt(candidates, first, ops, |ops|);
  }

  // ---- From an empty cell ---------------------------------------------------------

  /** `d` was brought by a call that found the cell empty, and so passed unchecked. */
  ghost predicate LoadedEmpty(candidates: nat -> Loaded, first: Option<Loaded>, ops: seq<Op>, n: nat, d: Loaded)
    requires n <= |ops|
  {
    exists i :: 0 <= i < n && ops[i].Load? && At(candidates, first, ops, i).inner == None
                && candidates(ops[i].call) == d
  }

  ghost predicate Accounted(candidates: nat -> Loaded, first: Option<Loaded>, ops: seq<Op>, n: nat, s: State)
    requires n <= |ops|
  {
    && LastInstalled(s)
    && (first.Some? ==> s.installed != [] && s.installed[0] == first.value)
    && (forall c :: c in s.inFlight ==>
          GatedInFlight(candidates, s, c) || LoadedEmpty(candidates, first, ops, n, candidates(c)))
    && (forall j :: 0 <= j < |s.installed| && (0 < j || first.None?) ==>
          GatedByEarlier(s.installed, j) || LoadedEmpty(candidates, first, ops, n, s.installed[j]))
  }

  lemma FoundEmpty(candidates: nat -> Loaded, first: Option<Loaded>, ops: seq<Op>, n: nat)
    requires n < |ops| && ops[n].Load? && At(candidates, first, ops, n).inner == None
    ensures LoadedEmpty(candidates, first, ops, n + 1, candidates(ops[n].call))
  {
  }

  lemma LoadedEmptyStays(candidates: nat -> Loaded, first: Option<Loaded>, ops: seq<Op>, n: nat)
    requires n < |ops|
    ensures forall d :: LoadedEmpty(candidates, first, ops, n, d) ==> LoadedEmpty(candidates, first, ops, n + 1, d)
  {
  }

  lemma NewFlightIsAccounted(candidates: nat -> Loaded, first: Option<Loaded>, ops: seq<Op>, n: nat, s: State)
    requires n < |ops| && ops[n].Load? && LastInstalled(s) && s == At(candidates, first, ops, n)
    requires Gate(candidates(ops[n].call), s.inner).Ok?
    ensures var s', c := Next(candidates, s, ops[n]), ops[n].call;
      c in s'.inFlight
      && (GatedInFlight(candidates, s', c) || LoadedEmpty(candidates, first, ops, n + 1, candidates(c)))
  {
    hide At, LoadedEmpty, Gate;
    if s.inner == None {
      FoundEmpty(candidates, first, ops, n);
    } else {
      var s', c := Next(candidates, s, ops[n]), ops[n].call;
      assert s'.inFlight[c] == Some(s'.installed[|s'.installed| - 1]);
    }
  }

  lemma LoadIsAccounted(candidates: nat -> Loaded, first: Option<Loaded>, ops: seq<Op>, n: nat, s: State)
    requires n < |ops| && Accounted(candidates, first, ops, n, s) && s == At(candidates, first, ops, n)
    requires ops[n].Load? && Enabled(s, ops[n])
    ensures Accounted(candidates, first, ops, n + 1, Next(candidates, s, ops[n]))
  {
    hide At, LoadedEmpty, Gate, GatedInFlight, GatedByEarlier;
    var s', l := Next(candidates, s, ops[n]), ops[n].call;
    LoadedEmptyStays(candidates, first, ops, n);
    forall c | c in s'.inFlight
      ensures GatedInFlight(candidates, s', c) || LoadedEmpty(candidates, first, ops, n + 1, candidates(c))
    {
      if c == l && Gate(candidates(l), s.inner).Ok? {
        NewFlightIsAccounted(candidates, first, ops, n, s);
      } else if GatedInFlight(candidates, s, c) {
        InFlightStaysGated(candidates, s, s', c);
      }
    }
  }

  lemma StoreIsAccounted(candidates: nat -> Loaded, first: Option<Loaded>, ops: seq<Op>, n: nat, s: State)
    requires n < |ops| && Accounted(candidates, first, ops, n, s)
    requires ops[n].Store? && Enabled(s, ops[n])
    ensures Accounted(candidates, first, ops, n + 1, Next(candidates, s, ops[n]))
  {
    hide At, LoadedEmpty, Gate;
    var s', l := Next(candidates, s, ops[n]), ops[n].call;
    LoadedEmptyStays(candidates, first, ops, n);
    forall c | c in s'.inFlight
      ensures GatedInFlight(candidates, s', c) || LoadedEmpty(candidates, first, ops, n + 1, candidates(c))
    {
      if GatedInFlight(candidates, s, c) {
        InFlightStaysGated(candidates, s, s', c);
      }
    }
    forall j | 0 <= j < |s'.installed| && (0 < j || first.None?)
      ensures GatedByEarlier(s'.installed, j) || LoadedEmpty(candidates, first, ops, n + 1, s'.installed[j])
    {
      if j < |s.installed| && GatedByEarlier(s.installed, j) {
        var i :| 0 <= i < j && Gate(s.installed[j], Some(s.installed[i])).Ok?;
        assert Gate(s'.installed[j], Some(s'.installed[i])).Ok?;
      } else if j == |s.installed| && GatedInFlight(candidates, s, l) {
        var i :| 0 <= i < |s.installed| && s.inFlight[l] == Some(s.installed[i])
                 && Gate(candidates(l), Some(s.installed[i])).Ok?;
        assert Gate(s'.installed[j], Some(s'.installed[i])).Ok?;
      }
    }
  }

  /** From any start, also an empty cell: each database installed after the first one there was passed the gate
      against one installed before it, or was brought by a call that found the cell empty. */
  lemma {:induction false} EveryInstallIsAccountedFor(candidates: nat -> Loaded, first: Option<Loaded>,
                                                      ops: seq<Op>, n: nat)
    requires n <= |ops| && Run(candidates, first, ops, n)
    ensures Accounted(candidates, first, ops, n, At(candidates, first, ops, n))
  {
    hide *;
    if n == 0 {
      StartIsAccounted(candidates, first, ops);
    } else {
      var s := At(candidates, first, ops, n - 1);
      OneMore(candidates, first, ops, n - 1);
      EveryInstallIsAccountedFor(candidates, first, ops, n - 1);
      match ops[n - 1]
      case Load(_) => LoadIsAccounted(candidates, first, ops, n - 1, s);
      case Store(_) => StoreIsAccounted(candidates, first, ops, n - 1, s);
    }
  }

  lemma StartIsAccounted(candidates: nat -> Loaded, first: Option<Loaded>, ops: seq<Op>)
    ensures Accounted(candidates, first, ops, 0, At(candidates, first, ops, 0))
  {
  }

  // ---- The history -------------------------------------------------------------

  lemma {:induction false} HistoryGrows(candidates: nat -> Loaded, first: Option<Loaded>, ops: seq<Op>, m: nat, n: nat)
    requires m <= n <= |ops|
    ensures At(candidates, first, ops, m).installed <= At(candidates, first, ops, n).installed
  {
    if m < n {
      HistoryGrows(candidates, first, ops, m, n - 1);
    }
  }

  // ---- Sizes over every interleaving ------------------------------------------

  lemma {:induction false} FifthsWeaken(x: nat, y: nat, i: nat, j: nat)
    requires i <= j && x * Pow(5, i) >= y * Pow(4, i)
    ensures x * Pow(5, j) >= y * Pow(4, j)
  {
    if i < j {
      FifthsWeaken(x, y, i, j - 1);
      FifthsStep(x * Pow(5, j - 1), y * Pow(4, j - 1), x, y, Pow(5, j - 1), Pow(4, j - 1));
    }
  }

  lemma FifthsStep(xp: nat, yp: nat, x: nat, y: nat, p5: nat, p4: nat)
    requires xp == x * p5 && yp == y * p4 && xp >= yp
    ensures x * (5 * p5) >= y * (4 * p4)
  {
    assert x * (5 * p5) == 5 * xp && y * (4 * p4) == 4 * yp;
  }

  lemma FifthsExtend(last: nat, middle: nat, first: nat, p5: nat, p4: nat)
    requires middle * p5 >= first * p4 && 5 * last >= 4 * middle
    ensures last * (5 * p5) >= first * (4 * p4)
  {
    MulMonotonic(4 * middle, 5 * last, p5);
    assert last * (5 * p5) == 5 * last * p5;
    assert 4 * middle * p5 == 4 * (middle * p5);
    assert first * (4 * p4) == 4 * (first * p4);
  }

  /** The `j`-th installed database keeps at least `(4/5)^j` of the first length, whatever the interleaving. */
  lemma {:induction false} SizesShrinkAtMostByFifths(candidates: nat -> Loaded, first: Loaded, ops: seq<Op>, j: nat)
    requires Run(candidates, Some(first), ops, |ops|)
    requires forall k :: k in At(candidates, Some(first), ops, |ops|).installed ==> k.len <= EXACT_UP_TO
    requires j < |At(candidates, Some(first), ops, |ops|).installed|
    ensures At(candidates, Some(first), ops, |ops|).installed[j].len * Pow(5, j) >= first.len * Pow(4, j)
  {
    SafeAt(candidates, first, ops, |ops|);
    var installed := At(candidates, Some(first), ops, |ops|).installed;
    if j != 0 {
      assert GatedByEarlier(installed, j);
      var i :| 0 <= i < j && Gate(installed[j], Some(installed[i])).Ok?;
      SizesShrinkAtMostByFifths(candidates, first, ops, i);
      GatedIsFourFifths(installed[j], installed[i]);
      hide At, Run, Gate, Safe, Pow;
      FifthsChain(installed[j].len, installed[i].len, first.len, i, j);
    }
  }

  lemma GatedIsFourFifths(candidate: Loaded, current: Loaded)
    requires Gate(candidate, Some(current)).Ok? && current.len <= EXACT_UP_TO
    ensures 5 * candidate.len >= 4 * current.len
  {
    SizeGateExactIff(current.len);
  }

  lemma FifthsChain(last: nat, middle: nat, first: nat, i: nat, j: nat)
    requires i < j && middle * Pow(5, i) >= first * Pow(4, i) && 5 * last >= 4 * middle
    ensures last * Pow(5, j) >= first * Pow(4, j)
  {
    FifthsExtend(last, middle, first, Pow(5, i), Pow(4, i));
    FifthsWeaken(last, first, i + 1, j);
  }
}
