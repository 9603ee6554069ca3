/** Exactly which schedules of concurrent reloads keep the promises of reloads made one at a time. */
module GeoOverlapExact {
  import opened Words
  import opened GeoIp
  import opened GeoReloads
  import opened GeoOverlap

  predicate OnceAndAfterLoad(ops: seq<Op>, n: nat)
    requires n < |ops|
  {
    if ops[n].Load? then ops[n] !in ops[..n] else Load(ops[n].call) in ops[..n] && ops[n] !in ops[..n]
  }

  /** Every call loads once, and stores at most once, afterwards. */
  predicate WellFormed(ops: seq<Op>) {
    forall n {:trigger ops[n]} :: 0 <= n < |ops| ==> OnceAndAfterLoad(ops, n)
  }

  ghost predicate Among(candidates: nat -> Loaded, lo: Loaded, hi: Loaded) {
    forall c :: candidates(c) == lo || candidates(c) == hi
  }

  // ---- The witness of an overlap -----------------------------------------------

  /** Calls that load before step `j` bring `lo`, but for `winner`; it and the later ones bring `hi`. */
  predicate BringsHi(ops: seq<Op>, j: nat, winner: nat, c: nat)
    requires j <= |ops|
  {
    c == winner || Load(c) !in ops[..j]
  }

  ghost predicate IsWitness(w: nat -> Loaded, ops: seq<Op>, j: nat, winner: nat, lo: Loaded, hi: Loaded) {
    && j < |ops| && ops[j] == Store(winner) && Gate(hi, Some(lo)).Ok?
    && forall c :: w(c) == if BringsHi(ops, j, winner, c) then hi else lo
  }

  /** With the witness nobody is ever refused, and `hi` does not show before step `j`. */
  ghost predicate WitnessState(s: State, ops: seq<Op>, j: nat, n: nat, lo: Loaded, hi: Loaded)
    requires n <= |ops|
  {
    && (forall c :: c in s.called <==> Load(c) in ops[..n])
    && (forall c :: c in s.inFlight <==> Load(c) in ops[..n] && Store(c) !in ops[..n])
    && (s.inner == Some(lo) || (j < n && s.inner == Some(hi)))
  }

  lemma TakeOneMore(ops: seq<Op>, n: nat)
    requires n < |ops|
    ensures forall op :: op in ops[..n + 1] <==> op in ops[..n] || op == ops[n]
  {
    assert ops[..n + 1] == ops[..n] + [ops[n]];
  }

  /** What the call of step `n` brings passes the gate when it loads, and is not early when it stores. */
  lemma WitnessFits(w: nat -> Loaded, ops: seq<Op>, j: nat, winner: nat, lo: Loaded, hi: Loaded, s: State, n: nat)
    requires WellFormed(ops) && IsWitness(w, ops, j, winner, lo, hi)
    requires n < |ops| && WitnessState(s, ops, j, n, lo, hi)
    ensures ops[n].Load? ==> Gate(w(ops[n].call), s.inner).Ok?
    ensures ops[n].Store? ==> w(ops[n].call) == lo || (j <= n && w(ops[n].call) == hi)
  {
    var c := ops[n].call;
    AcceptsItself(lo);
    AcceptsItself(hi);
    hide Gate;
    if n < j {
      assert ops[..j][n] == ops[n];
      assert Load(c) in ops[..n] ==> Load(c) in ops[..j];
      assert ops[n] != Store(winner);
    } else if j < n && ops[n].Load? {
      assert forall x :: x in ops[..j] ==> x in ops[..n];
    }
  }

  lemma WitnessLoad(d: Loaded, ops: seq<Op>, j: nat, lo: Loaded, hi: Loaded, s: State, s': State, n: nat)
    requires WellFormed(ops) && n < |ops| && ops[n].Load? && WitnessState(s, ops, j, n, lo, hi)
    requires Gate(d, s.inner).Ok?
    requires s' == s.(called := s.called + {ops[n].call}, inFlight := s.inFlight[ops[n].call := s.inner])
    ensures Enabled(s, ops[n]) && WitnessState(s', ops, j, n + 1, lo, hi)
  {
    TakeOneMore(ops, n);
    var c := ops[n].call;
    assert ops[n] == Load(c) && Load(c) !in ops[..n];
    assert Store(c) !in ops[..n];
  }

  lemma WitnessStore(d: Loaded, ops: seq<Op>, j: nat, lo: Loaded, hi: Loaded, s: State, s': State, n: nat)
    requires WellFormed(ops) && n < |ops| && ops[n].Store? && WitnessState(s, ops, j, n, lo, hi)
    requires d == lo || (j <= n && d == hi)
    requires s'.called == s.called && s'.inFlight == s.inFlight - {ops[n].call} && s'.inner == Some(d)
    ensures Enabled(s, ops[n]) && WitnessState(s', ops, j, n + 1, lo, hi)
  {
    TakeOneMore(ops, n);
    var c := ops[n].call;
    assert ops[n] == Store(c) && Load(c) in ops[..n] && Store(c) !in ops[..n];
  }

  lemma WitnessStep(w: nat -> Loaded, ops: seq<Op>, j: nat, winner: nat, lo: Loaded, hi: Loaded, s: State, n: nat)
    requires WellFormed(ops) && IsWitness(w, ops, j, winner, lo, hi)
    requires n < |ops| && WitnessState(s, ops, j, n, lo, hi)
    ensures Enabled(s, ops[n]) && WitnessState(Next(w, s, ops[n]), ops, j, n + 1, lo, hi)
  {
    WitnessFits(w, ops, j, winner, lo, hi, s, n);
    var s' := Next(w, s, ops[n]);
    assert ops[n].Load? ==>
        s' == s.(called := s.called + {ops[n].call}, inFlight := s.inFlight[ops[n].call := s.inner]);
    assert ops[n].Store? ==>
        s'.called == s.called && s'.inFlight == s.inFlight - {ops[n].call} && s'.inner == Some(w(ops[n].call));
    hide *;
    match ops[n]
    case Load(c) => WitnessLoad(w(c), ops, j, lo, hi, s, s', n);
    case Store(c) => WitnessStore(w(c), ops, j, lo, hi, s, s', n);
  }

  lemma {:induction false} WitnessRuns(w: nat -> Loaded, ops: seq<Op>, j: nat, winner: nat,
                                       lo: Loaded, hi: Loaded, n: nat)
    requires WellFormed(ops) && IsWitness(w, ops, j, winner, lo, hi) && n <= |ops|
    ensures Run(w, Some(lo), ops, n) && WitnessState(At(w, Some(lo), ops, n), ops, j, n, lo, hi)
  {
    hide *;
    if n == 0 {
      NothingYet(w, ops, j, lo, hi);
    } else {
      WitnessRuns(w, ops, j, winner, lo, hi, n - 1);
      OneMore(w, Some(lo), ops, n - 1);
      WitnessStep(w, ops, j, winner, lo, hi, At(w, Some(lo), ops, n - 1), n - 1);
    }
  }

  lemma NothingYet(w: nat -> Loaded, ops: seq<Op>, j: nat, lo: Loaded, hi: Loaded)
    ensures Run(w, Some(lo), ops, 0) && WitnessState(At(w, Some(lo), ops, 0), ops, j, 0, lo, hi)
  {
  }

  // ---- Which schedules there are ---------------------------------------------------

  ghost predicate FollowsSchedule(s: State, ops: seq<Op>, n: nat)
    requires n <= |ops|
  {
    && (forall c :: c in s.called <==> Load(c) in ops[..n])
    && (forall c :: c in s.inFlight ==> Load(c) in ops[..n] && Store(c) !in ops[..n])
    && (forall c :: Store(c) in ops[..n] ==> Load(c) in ops[..n])
    && (forall m :: 0 <= m < n ==> OnceAndAfterLoad(ops, m))
  }

  lemma ScheduleStep(candidates: nat -> Loaded, s: State, ops: seq<Op>, n: nat)
    requires n < |ops| && FollowsSchedule(s, ops, n) && Enabled(s, ops[n])
    ensures FollowsSchedule(Next(candidates, s, ops[n]), ops, n + 1)
  {
    TakeOneMore(ops, n);
    hide Gate;
    assert OnceAndAfterLoad(ops, n);
  }

  lemma {:induction false} RunFollowsSchedule(candidates: nat -> Loaded, first: Option<Loaded>, ops: seq<Op>, n: nat)
    requires n <= |ops| && Run(candidates, first, ops, n)
    ensures FollowsSchedule(At(candidates, first, ops, n), ops, n)
  {
    hide *;
    if n == 0 {
      NothingScheduled(candidates, first, ops);
    } else {
      OneMore(candidates, first, ops, n - 1);
      RunFollowsSchedule(candidates, first, ops, n - 1);
      ScheduleStep(candidates, At(candidates, first, ops, n - 1), ops, n - 1);
    }
  }

  lemma NothingScheduled(candidates: nat -> Loaded, first: Option<Loaded>, ops: seq<Op>)
    ensures FollowsSchedule(At(candidates, first, ops, 0), ops, 0)
  {
  }

  lemma FollowedIsWellFormed(s: State, ops: seq<Op>)
    requires FollowsSchedule(s, ops, |ops|)
    ensures WellFormed(ops)
  {
  }

  lemma {:induction false} ConstantRuns(w: nat -> Loaded, d: Loaded, ops: seq<Op>, n: nat)
    requires WellFormed(ops) && n <= |ops| && forall c :: w(c) == d
    ensures Run(w, Some(d), ops, n) && WitnessState(At(w, Some(d), ops, n), ops, 0, n, d, d)
  {
    hide *;
    if n == 0 {
      NothingYet(w, ops, 0, d, d);
    } else {
      ConstantRuns(w, d, ops, n - 1);
      OneMore(w, Some(d), ops, n - 1);
      ConstantStep(w, d, ops, At(w, Some(d), ops, n - 1), n - 1);
    }
  }

  lemma ConstantStep(w: nat -> Loaded, d: Loaded, ops: seq<Op>, s: State, n: nat)
    requires WellFormed(ops) && n < |ops| && w(ops[n].call) == d && WitnessState(s, ops, 0, n, d, d)
    ensures Enabled(s, ops[n]) && WitnessState(Next(w, s, ops[n]), ops, 0, n + 1, d, d)
  {
    AcceptsItself(d);
    match ops[n]
    case Load(c) => WitnessLoad(d, ops, 0, d, d, s, Next(w, s, ops[n]), n);
    case Store(c) => WitnessStore(d, ops, 0, d, d, s, Next(w, s, ops[n]), n);
  }

  /** Nothing else restricts the calls: some run follows a schedule exactly when each call in it loads once, and
      stores at most once, afterwards; any database can be the one that all of them bring. */
  lemma ScheduleIff(ops: seq<Op>, d: Loaded)
    ensures (exists candidates, first :: Run(candidates, first, ops, |ops|)) <==> WellFormed(ops)
    ensures Run((_: nat) => d, Some(d), ops, |ops|) <==> WellFormed(ops)
  {
    forall candidates, first | Run(candidates, first, ops, |ops|) ensures WellFormed(ops) {
      RunFollowsSchedule(candidates, first, ops, |ops|);
      FollowedIsWellFormed(At(candidates, first, ops, |ops|), ops);
    }
    if WellFormed(ops) {
      ConstantRuns((_: nat) => d, d, ops, |ops|);
    }
  }

  // ---- What an overlap does ------------------------------------------------------

  /** Databases appear in the history in the order of their stores. */
  lemma InstallOrder(candidates: nat -> Loaded, first: Option<Loaded>, ops: seq<Op>, j: nat, k: nat)
    returns (p: nat, q: nat)
    requires j < k < |ops| && ops[j].Store? && ops[k].Store?
    ensures var installed := At(candidates, first, ops, |ops|).installed;
      p < q < |installed| && installed[p] == candidates(ops[j].call) && installed[q] == candidates(ops[k].call)
  {
    p := StoreShows(candidates, first, ops, j, |ops|);
    q := StoreShows(candidates, first, ops, k, |ops|);
    HistoryGrows(candidates, first, ops, j + 1, k);
  }

  /** Where in the history the database stored at step `m` stays. */
  lemma StoreShows(candidates: nat -> Loaded, first: Option<Loaded>, ops: seq<Op>, m: nat, n: nat) returns (p: nat)
    requires m < n <= |ops| && ops[m].Store?
    ensures p == |At(candidates, first, ops, m).installed| == |At(candidates, first, ops, m + 1).installed| - 1
    ensures p < |At(candidates, first, ops, n).installed|
    ensures At(candidates, first, ops, n).installed[p] == candidates(ops[m].call)
  {
    p := |At(candidates, first, ops, m).installed|;
    assert At(candidates, first, ops, m + 1).installed[p] == candidates(ops[m].call);
    HistoryGrows(candidates, first, ops, m + 1, n);
  }

  lemma {:induction false} HistoryAmong(candidates: nat -> Loaded, lo: Loaded, hi: Loaded, ops: seq<Op>, n: nat)
    requires Among(candidates, lo, hi) && n <= |ops|
    ensures forall d :: d in At(candidates, Some(lo), ops, n).installed ==> d == lo || d == hi
  {
    if n != 0 {
      HistoryAmong(candidates, lo, hi, ops, n - 1);
    }
  }

  /** A history over two databases that has `hi` before `lo` has them next to each other. */
  lemma {:induction false} AdjacentDescent(installed: seq<Loaded>, lo: Loaded, hi: Loaded, p: nat, q: nat)
    returns (d: nat)
    requires p < q < |installed| && installed[p] == hi && installed[q] == lo
    requires forall x :: x in installed ==> x == lo || x == hi
    ensures 0 < d < |installed| && installed[d - 1] == hi && installed[d] == lo
    decreases q - p
  {
    if installed[p + 1] == lo {
      d := p + 1;
    } else {
      assert installed[p + 1] in installed;
      d := AdjacentDescent(installed, lo, hi, p + 1, q);
    }
  }

  /** Whenever `hi` passes the gate against `lo`, every overlap can undo it: the late store puts `lo`
      back in the place of `hi`, unchecked. */
  lemma OverlapReplacesBack(ops: seq<Op>, i: int, j: int, k: int, lo: Loaded, hi: Loaded)
    returns (w: nat -> Loaded, d: nat)
    requires WellFormed(ops) && OverlapAt(ops, i, j, k) && Gate(hi, Some(lo)).Ok?
    ensures IsWitness(w, ops, j, ops[j].call, lo, hi) && Among(w, lo, hi) && w(ops[k].call) == lo
    ensures Run(w, Some(lo), ops, |ops|)
    ensures var installed := At(w, Some(lo), ops, |ops|).installed;
      0 < d < |installed| && installed[d - 1] == hi && installed[d] == lo
  {
    assert 0 <= j < k < |ops| && ops[j] == Store(ops[j].call) && ops[k].Store?;
    w := MakeWitness(ops, j, ops[j].call, lo, hi);
    WitnessAtOverlap(w, ops, i, j, k, lo, hi);
    hide *;
    WitnessRuns(w, ops, j, ops[j].call, lo, hi, |ops|);
    HistoryAmong(w, lo, hi, ops, |ops|);
    var p, q := InstallOrder(w, Some(lo), ops, j, k);
    d := AdjacentDescent(At(w, Some(lo), ops, |ops|).installed, lo, hi, p, q);
  }

  lemma MakeWitness(ops: seq<Op>, j: nat, winner: nat, lo: Loaded, hi: Loaded) returns (w: nat -> Loaded)
    requires j < |ops| && ops[j] == Store(winner) && Gate(hi, Some(lo)).Ok?
    ensures IsWitness(w, ops, j, winner, lo, hi) && Among(w, lo, hi)
  {
    w := (c: nat) => if BringsHi(ops, j, winner, c) then hi else lo;
  }

  lemma WitnessAtOverlap(w: nat -> Loaded, ops: seq<Op>, i: int, j: int, k: int, lo: Loaded, hi: Loaded)
    requires WellFormed(ops) && OverlapAt(ops, i, j, k) && IsWitness(w, ops, j, ops[j].call, lo, hi)
    ensures w(ops[j].call) == hi && w(ops[k].call) == lo
  {
    LateCallBringsLo(ops, i, j, k);
  }

  lemma LateCallBringsLo(ops: seq<Op>, i: int, j: int, k: int)
    requires WellFormed(ops) && OverlapAt(ops, i, j, k)
    ensures !BringsHi(ops, j, ops[j].call, ops[k].call)
  {
    assert ops[..j][i] == Load(ops[k].call);
    assert ops[..k][j] == ops[j];
  }

  // ---- The promises of the gate ----------------------------------------------------

  /** `hi` passes the gate against `lo`, but not the other way round. */
  ghost predicate OneWay(lo: Loaded, hi: Loaded) {
    Gate(hi, Some(lo)).Ok? && Gate(lo, Some(hi)).Err?
  }

  /** No database is too small against the one it replaced. */
  ghost predicate SizesKept(installed: seq<Loaded>) {
    forall j :: 0 < j < |installed| ==> SizeOk(installed[j].len, installed[j - 1].len)
  }

  /** For any one-way pair: a schedule in which every call brings one of the two installs only databases that
      pass the gate against the one they replace, whichever each brings, exactly when no store falls between
      another call's load and store. Without overlap that holds for all databases. */
  lemma ChainIff(ops: seq<Op>, lo: Loaded, hi: Loaded)
    requires WellFormed(ops) && OneWay(lo, hi)
    ensures (forall candidates :: Among(candidates, lo, hi) && Run(candidates, Some(lo), ops, |ops|) ==>
               Chain(At(candidates, Some(lo), ops, |ops|).installed))
      <==> !Overlap(ops)
    ensures (forall first, candidates :: Run(candidates, first, ops, |ops|) ==>
               Chain(At(candidates, first, ops, |ops|).installed))
      <==> !Overlap(ops)
  {
    if i, j, k :| OverlapAt(ops, i, j, k) {
      var w, d := OverlapReplacesBack(ops, i, j, k, lo, hi);
      assert !Chain(At(w, Some(lo), ops, |ops|).installed);
    } else {
      forall first, candidates | Run(candidates, first, ops, |ops|)
        ensures Chain(At(candidates, first, ops, |ops|).installed)
      {
        NoOverlapKeepsOrder(candidates, first, ops, |ops|);
      }
    }
  }

  /** The epoch half: for any pair in which `hi` is newer and passes the gate. */
  lemma EpochsMonotoneIff(ops: seq<Op>, lo: Loaded, hi: Loaded)
    requires WellFormed(ops) && Gate(hi, Some(lo)).Ok? && lo.buildEpoch < hi.buildEpoch
    ensures (forall candidates :: Among(candidates, lo, hi) && Run(candidates, Some(lo), ops, |ops|) ==>
               EpochsSorted(At(candidates, Some(lo), ops, |ops|).installed))
      <==> !Overlap(ops)
    ensures (forall first, candidates :: Run(candidates, first, ops, |ops|) ==>
               EpochsSorted(At(candidates, first, ops, |ops|).installed))
      <==> !Overlap(ops)
  {
    if i, j, k :| OverlapAt(ops, i, j, k) {
      var w, d := OverlapReplacesBack(ops, i, j, k, lo, hi);
      assert !EpochsSorted(At(w, Some(lo), ops, |ops|).installed);
    } else {
      forall first, candidates | Run(candidates, first, ops, |ops|)
        ensures EpochsSorted(At(candidates, first, ops, |ops|).installed)
      {
        NoOverlapKeepsOrder(candidates, first, ops, |ops|);
        ChainIsSorted(At(candidates, first, ops, |ops|).installed);
      }
    }
  }

  /** The size half: for any pair in which `hi` passes the gate and `lo` is too small against it,
      whatever the epochs. */
  lemma SizesKeptIff(ops: seq<Op>, lo: Loaded, hi: Loaded)
    requires WellFormed(ops) && Gate(hi, Some(lo)).Ok? && !SizeOk(lo.len, hi.len)
    ensures (forall candidates :: Among(candidates, lo, hi) && Run(candidates, Some(lo), ops, |ops|) ==>
               SizesKept(At(candidates, Some(lo), ops, |ops|).installed))
      <==> !Overlap(ops)
    ensures (forall first, candidates :: Run(candidates, first, ops, |ops|) ==>
               SizesKept(At(candidates, first, ops, |ops|).installed))
      <==> !Overlap(ops)
  {
    if i, j, k :| OverlapAt(ops, i, j, k) {
      var w, d := OverlapReplacesBack(ops, i, j, k, lo, hi);
      assert !SizesKept(At(w, Some(lo), ops, |ops|).installed);
    } else {
      forall first, candidates | Run(candidates, first, ops, |ops|)
        ensures SizesKept(At(candidates, first, ops, |ops|).installed)
      {
        NoOverlapKeepsOrder(candidates, first, ops, |ops|);
        ChainKeepsSizes(At(candidates, first, ops, |ops|).installed);
      }
    }
  }

  lemma ChainKeepsSizes(installed: seq<Loaded>)
    requires Chain(installed)
    ensures SizesKept(installed)
  {
    forall j | 0 < j < |installed| ensures SizeOk(installed[j].len, installed[j - 1].len) {
      assert Gate(installed[j], Some(installed[j - 1])).Ok?;
    }
  }

  // ---- One call at a time ------------------------------------------------------------

  /** The cell holds what the calls that have returned leave one at a time, in some order. */
  ghost predicate ActsSequentially(decode: Decoder, bytes: nat -> Bytes, candidates: nat -> Loaded,
                                   first: Option<Loaded>, ops: seq<Op>, n: nat)
    requires n <= |ops|
  {
    exists calls: seq<nat> ::
      multiset(calls) == multiset(Returned(candidates, first, ops, n)) &&
      At(candidates, first, ops, n).inner == ReloadAll(decode, first, Inputs(bytes, calls))
  }

  ghost predicate AlwaysSequential(decode: Decoder, bytes: nat -> Bytes, candidates: nat -> Loaded,
                                   first: Option<Loaded>, ops: seq<Op>)
  {
    forall n :: 0 <= n <= |ops| ==> ActsSequentially(decode, bytes, candidates, first, ops, n)
  }

  lemma {:induction false} RunPrefix(candidates: nat -> Loaded, first: Option<Loaded>, ops: seq<Op>, m: nat, n: nat)
    requires m <= n <= |ops| && Run(candidates, first, ops, n)
    ensures Run(candidates, first, ops, m)
  {
    if m < n {
      RunPrefix(candidates, first, ops, m, n - 1);
    }
  }

  lemma {:induction false} StorerHasReturned(candidates: nat -> Loaded, first: Option<Loaded>, ops: seq<Op>,
                                             j: nat, n: nat)
    requires j < n <= |ops| && ops[j].Store?
    ensures ops[j].call in Returned(candidates, first, ops, n)
  {
    if j < n - 1 {
      StorerHasReturned(candidates, first, ops, j, n - 1);
    }
  }

  /** One at a time, a one-way `hi` wins in every order. */
  lemma {:induction false} HiWins(decode: Decoder, lob: Bytes, hib: Bytes, lo: Loaded, hi: Loaded,
                                  current: Loaded, inputs: seq<Bytes>)
    requires Build(decode, lob) == Ok(lo) && Build(decode, hib) == Ok(hi) && OneWay(lo, hi)
    requires current == lo || current == hi
    requires forall x :: 0 <= x < |inputs| ==> inputs[x] == lob || inputs[x] == hib
    ensures ReloadAll(decode, Some(current), inputs) == Some(if current == hi || hib in inputs then hi else lo)
    decreases |inputs|
  {
    if inputs != [] {
      AcceptsItself(lo);
      AcceptsItself(hi);
      var next := Keep(Some(current), Reload(decode, Some(current), inputs[0])).value;
      HiWins(decode, lob, hib, lo, hi, next, inputs[1..]);
    }
  }

  ghost predicate WitnessBytes(bytes: nat -> Bytes, ops: seq<Op>, j: nat, winner: nat, lob: Bytes, hib: Bytes) {
    j <= |ops| && forall c :: bytes(c) == if BringsHi(ops, j, winner, c) then hib else lob
  }

  lemma EveryOrderEndsWithHi(decode: Decoder, lob: Bytes, hib: Bytes, lo: Loaded, hi: Loaded, ops: seq<Op>, j: nat,
                             winner: nat, bytes: nat -> Bytes, calls: seq<nat>)
    requires Build(decode, lob) == Ok(lo) && Build(decode, hib) == Ok(hi) && OneWay(lo, hi)
    requires WitnessBytes(bytes, ops, j, winner, lob, hib) && winner in calls
    ensures ReloadAll(decode, Some(lo), Inputs(bytes, calls)) == Some(hi)
  {
    var x :| 0 <= x < |calls| && calls[x] == winner;
    var inputs := Inputs(bytes, calls);
    assert inputs[x] == hib;
    HiWins(decode, lob, hib, lo, hi, lo, inputs);
  }

  lemma CellAfterStore(candidates: nat -> Loaded, first: Option<Loaded>, ops: seq<Op>, k: nat)
    requires k < |ops| && ops[k].Store?
    ensures At(candidates, first, ops, k + 1).inner == Some(candidates(ops[k].call))
  {
  }

  lemma OneWayDiffer(lo: Loaded, hi: Loaded)
    requires OneWay(lo, hi)
    ensures lo != hi
  {
  }

  /** Right after the late store no order of the calls that have returned explains the cell. */
  lemma OverlapIsNotSequential(decode: Decoder, lob: Bytes, hib: Bytes, lo: Loaded, hi: Loaded,
                               ops: seq<Op>, i: int, j: int, k: int)
    returns (bytes: nat -> Bytes, w: nat -> Loaded)
    requires WellFormed(ops) && OverlapAt(ops, i, j, k) && OneWay(lo, hi)
    requires Build(decode, lob) == Ok(lo) && Build(decode, hib) == Ok(hi)
    ensures Decodes(decode, bytes, w, ops) && Among(w, lo, hi) && Run(w, Some(lo), ops, |ops|)
    ensures !ActsSequentially(decode, bytes, w, Some(lo), ops, k + 1)
  {
    assert 0 <= j < k < |ops| && ops[j] == Store(ops[j].call) && ops[k].Store?;
    var winner, d := ops[j].call, 0;
    w, d := OverlapReplacesBack(ops, i, j, k, lo, hi);
    bytes := MakeBytes(decode, lob, hib, lo, hi, ops, j, winner, w);
    NoOrderExplains(decode, lob, hib, lo, hi, ops, j, k, bytes, w);
  }

  lemma MakeBytes(decode: Decoder, lob: Bytes, hib: Bytes, lo: Loaded, hi: Loaded, ops: seq<Op>, j: nat,
                  winner: nat, w: nat -> Loaded)
    returns (bytes: nat -> Bytes)
    requires Build(decode, lob) == Ok(lo) && Build(decode, hib) == Ok(hi)
    requires IsWitness(w, ops, j, winner, lo, hi)
    ensures WitnessBytes(bytes, ops, j, winner, lob, hib) && Decodes(decode, bytes, w, ops)
  {
    bytes := (c: nat) => if BringsHi(ops, j, winner, c) then hib else lob;
    hide Build;
  }

  lemma NoOrderExplains(decode: Decoder, lob: Bytes, hib: Bytes, lo: Loaded, hi: Loaded, ops: seq<Op>,
                        j: nat, k: nat, bytes: nat -> Bytes, w: nat -> Loaded)
    requires Build(decode, lob) == Ok(lo) && Build(decode, hib) == Ok(hi) && OneWay(lo, hi)
    requires j < k < |ops| && ops[j].Store? && ops[k].Store? && w(ops[k].call) == lo
    requires WitnessBytes(bytes, ops, j, ops[j].call, lob, hib)
    ensures !ActsSequentially(decode, bytes, w, Some(lo), ops, k + 1)
  {
    OneWayDiffer(lo, hi);
    CellAfterStore(w, Some(lo), ops, k);
    StorerHasReturned(w, Some(lo), ops, j, k + 1);
    forall calls: seq<nat> | multiset(calls) == multiset(Returned(w, Some(lo), ops, k + 1))
      ensures ReloadAll(decode, Some(lo), Inputs(bytes, calls)) == Some(hi)
    {
      assert ops[j].call in multiset(calls);
      EveryOrderEndsWithHi(decode, lob, hib, lo, hi, ops, j, ops[j].call, bytes, calls);
    }
    hide Build, WitnessBytes, OneWay, At, Returned, ReloadAll;
  }

  /** For any decodable one-way pair: the cell is at every step what the returned calls leave one at a time,
      in some order, whichever of the two each call brings, exactly when no store falls between another
      call's load and store. Without overlap that holds for all databases. */
  lemma SequentialIff(decode: Decoder, lob: Bytes, hib: Bytes, lo: Loaded, hi: Loaded, ops: seq<Op>)
    requires WellFormed(ops) && OneWay(lo, hi)
    requires Build(decode, lob) == Ok(lo) && Build(decode, hib) == Ok(hi)
    ensures (forall bytes, candidates ::
               Decodes(decode, bytes, candidates, ops) && Among(candidates, lo, hi)
               && Run(candidates, Some(lo), ops, |ops|) ==>
               AlwaysSequential(decode, bytes, candidates, Some(lo), ops))
      <==> !Overlap(ops)
    ensures (forall bytes, candidates, first ::
               Decodes(decode, bytes, candidates, ops) && Run(candidates, first, ops, |ops|) ==>
               AlwaysSequential(decode, bytes, candidates, first, ops))
      <==> !Overlap(ops)
  {
    if i, j, k :| OverlapAt(ops, i, j, k) {
      var bytes, w := OverlapIsNotSequential(decode, lob, hib, lo, hi, ops, i, j, k);
      assert !AlwaysSequential(decode, bytes, w, Some(lo), ops);
    } else {
      forall bytes, candidates, first, n
        | Decodes(decode, bytes, candidates, ops) && Run(candidates, first, ops, |ops|) && 0 <= n <= |ops|
        ensures ActsSequentially(decode, bytes, candidates, first, ops, n)
      {
        RunPrefix(candidates, first, ops, n, |ops|);
        NoOverlapIsSequential(decode, bytes, candidates, first, ops, n);
      }
    }
  }
}
