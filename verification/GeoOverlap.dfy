/** Which schedules of concurrent reloads behave like reloads made one at a time. */
module GeoOverlap {
  import opened Words
  import opened GeoIp
  import opened GeoReloads

  // ---- Overlap --------------------------------------------------------------

  /** A store of another call falls between a call's load (step `i`) and its store (step `k`). */
  predicate OverlapAt(ops: seq<Op>, i: int, j: int, k: int) {
    0 <= i < j < k < |ops| && ops[i].Load? && ops[k] == Store(ops[i].call) && ops[j].Store?
  }

  ghost predicate Overlap(ops: seq<Op>) {
    exists i, j, k :: OverlapAt(ops, i, j, k)
  }

  /** Each database passed the gate against the one it replaced. */
  ghost predicate Chain(installed: seq<Loaded>) {
    forall j :: 0 < j < |installed| ==> Gate(installed[j], Some(installed[j - 1])).Ok?
  }

  ghost predicate EpochsSorted(installed: seq<Loaded>) {
    forall i, j :: 0 <= i <= j < |installed| ==> installed[i].buildEpoch <= installed[j].buildEpoch
  }

  lemma {:induction false} ChainIsSorted(installed: seq<Loaded>)
    requires Chain(installed)
    ensures EpochsSorted(installed)
  {
    if installed != [] {
      var n := |installed| - 1;
      ChainIsSorted(installed[..n]);
      forall i, j | 0 <= i <= j < |installed|
        ensures installed[i].buildEpoch <= installed[j].buildEpoch
      {
        if i < n && j == n {
          assert installed[..n][i].buildEpoch <= installed[..n][n - 1].buildEpoch;
          assert Gate(installed[n], Some(installed[n - 1])).Ok?;
        }
      }
    }
  }

  /** A snapshot is current as long as nothing was stored since its load at step `i`. */
  ghost predicate LoadedAt(candidates: nat -> Loaded, s: State, ops: seq<Op>, n: nat, c: nat, i: int)
    requires n <= |ops|
  {
    && c in s.inFlight && 0 <= i < n && ops[i] == Load(c)
    && Gate(candidates(c), s.inFlight[c]).Ok?
    && ((forall j :: i < j < n ==> !ops[j].Store?) ==> s.inFlight[c] == s.inner)
  }

  ghost predicate Traced(candidates: nat -> Loaded, s: State, ops: seq<Op>, n: nat, c: nat)
    requires n <= |ops|
  {
    exists i :: LoadedAt(candidates, s, ops, n, c, i)
  }

  /** What holds after `n` steps while no two calls have overlapped. */
  ghost predicate Orderly(candidates: nat -> Loaded, s: State, ops: seq<Op>, n: nat)
    requires n <= |ops|
  {
    && Chain(s.installed)
    && LastInstalled(s)
    && forall c :: c in s.inFlight ==> Traced(candidates, s, ops, n, c)
  }

  lemma LoadKeepsOrder(candidates: nat -> Loaded, s: State, ops: seq<Op>, n: nat)
    requires n < |ops| && Orderly(candidates, s, ops, n)
    requires ops[n].Load? && Enabled(s, ops[n])
    ensures Orderly(candidates, Next(candidates, s, ops[n]), ops, n + 1)
  {
    var s' := Next(candidates, s, ops[n]);
    forall c | c in s'.inFlight ensures Traced(candidates, s', ops, n + 1, c) {
      if c == ops[n].call && Gate(candidates(c), s.inner).Ok? {
        assert LoadedAt(candidates, s', ops, n + 1, c, n);
      } else {
        assert Traced(candidates, s, ops, n, c);
        var i :| LoadedAt(candidates, s, ops, n, c, i);
        assert LoadedAt(candidates, s', ops, n + 1, c, i);
      }
    }
  }

  /** Without overlap, a store still meets the database its call was checked against. */
  lemma StoreIsCurrent(candidates: nat -> Loaded, s: State, ops: seq<Op>, n: nat)
    requires n < |ops| && Orderly(candidates, s, ops, n)
    requires ops[n].Store? && Enabled(s, ops[n]) && !Overlap(ops)
    ensures Load(ops[n].call) in ops && Gate(candidates(ops[n].call), s.inner).Ok?
  {
    var c := ops[n].call;
    assert Traced(candidates, s, ops, n, c);
    var i :| LoadedAt(candidates, s, ops, n, c, i);
    forall j | i < j < n ensures !ops[j].Store? {
      assert !OverlapAt(ops, i, j, n);
    }
  }

  lemma StoreKeepsOrder(candidates: nat -> Loaded, s: State, ops: seq<Op>, n: nat)
    requires n < |ops| && Orderly(candidates, s, ops, n)
    requires ops[n].Store? && Enabled(s, ops[n]) && !Overlap(ops)
    ensures Orderly(candidates, Next(candidates, s, ops[n]), ops, n + 1)
  {
    var s' := Next(candidates, s, ops[n]);
    StoreIsCurrent(candidates, s, ops, n);
    forall c' | c' in s'.inFlight ensures Traced(candidates, s', ops, n + 1, c') {
      assert Traced(candidates, s, ops, n, c');
      var i :| LoadedAt(candidates, s, ops, n, c', i);
      assert ops[n].Store?;
      assert LoadedAt(candidates, s', ops, n + 1, c', i);
    }
  }

  lemma StepKeepsOrder(candidates: nat -> Loaded, s: State, s': State, ops: seq<Op>, n: nat)
    requires n < |ops| && Orderly(candidates, s, ops, n) && !Overlap(ops)
    requires Enabled(s, ops[n]) && s' == Next(candidates, s, ops[n])
    ensures Orderly(candidates, s', ops, n + 1)
  {
    match ops[n]
    case Load(_) => LoadKeepsOrder(candidates, s, ops, n);
    case Store(_) => StoreKeepsOrder(candidates, s, ops, n);
  }

  /** Without overlap, each installed database passed the gate against the one it replaced. */
  lemma {:induction false} NoOverlapKeepsOrder(candidates: nat -> Loaded, first: Option<Loaded>, ops: seq<Op>, n: nat)
    requires n <= |ops| && Run(candidates, first, ops, n) && !Overlap(ops)
    ensures Orderly(candidates, At(candidates, first, ops, n), ops, n)
  {
    hide *;
    if n == 0 {
      StartsOrderly(candidates, first, ops);
    } else {
      OneMore(candidates, first, ops, n - 1);
      NoOverlapKeepsOrder(candidates, first, ops, n - 1);
      StepKeepsOrder(candidates, At(candidates, first, ops, n - 1), At(candidates, first, ops, n), ops, n - 1);
    }
  }

  lemma StartsOrderly(candidates: nat -> Loaded, first: Option<Loaded>, ops: seq<Op>)
    ensures Orderly(candidates, At(candidates, first, ops, 0), ops, 0)
  {
  }

  // ---- One call at a time ------------------------------------------------------

  /** The call that returns with step `op`: at its store, or at its load when the gate refuses it. */
  function Returning(candidates: nat -> Loaded, s: State, op: Op): seq<nat> {
    match op
    case Load(c) => if Gate(candidates(c), s.inner).Ok? then [] else [c]
    case Store(c) => [c]
  }

  /** The calls that have returned after `n` steps, in the order in which they did. */
  function Returned(candidates: nat -> Loaded, first: Option<Loaded>, ops: seq<Op>, n: nat): seq<nat>
    requires n <= |ops|
  {
    if n == 0 then []
    else
      Returned(candidates, first, ops, n - 1)
      + Returning(candidates, At(candidates, first, ops, n - 1), ops[n - 1])
  }

  function Inputs(bytes: nat -> Bytes, calls: seq<nat>): (r: seq<Bytes>)
    ensures |r| == |calls|
  {
    seq(|calls|, i requires 0 <= i < |calls| => bytes(calls[i]))
  }

  /** `bytes` are what the calls of the schedule were given, and decode to `candidates`. */
  ghost predicate Decodes(decode: Decoder, bytes: nat -> Bytes, candidates: nat -> Loaded, ops: seq<Op>) {
    forall c :: Load(c) in ops ==> Build(decode, bytes(c)) == Ok(candidates(c))
  }

  lemma NoOverlapStep(decode: Decoder, bytes: nat -> Bytes, candidates: nat -> Loaded, s: State, ops: seq<Op>, n: nat)
    requires n < |ops| && Orderly(candidates, s, ops, n) && Enabled(s, ops[n])
    requires !Overlap(ops) && Decodes(decode, bytes, candidates, ops)
    ensures var calls := Returning(candidates, s, ops[n]);
      Next(candidates, s, ops[n]).inner ==
        if calls == [] then s.inner else Keep(s.inner, Reload(decode, s.inner, bytes(calls[0])))
  {
    var c := ops[n].call;
    if ops[n].Store? {
      StoreIsCurrent(candidates, s, ops, n);
    }
    assert Load(c) in ops;
  }

  lemma SequentialStep(decode: Decoder, bytes: nat -> Bytes, first: Option<Loaded>, before: seq<nat>, now: seq<nat>)
    requires |now| <= 1
    ensures var inner := ReloadAll(decode, first, Inputs(bytes, before));
      ReloadAll(decode, first, Inputs(bytes, before + now)) ==
        if now == [] then inner else Keep(inner, Reload(decode, inner, bytes(now[0])))
  {
    if now == [] {
      assert before + now == before;
    } else {
      assert Inputs(bytes, before + now) == Inputs(bytes, before) + [bytes(now[0])];
      ReloadAllAppend(decode, first, Inputs(bytes, before), bytes(now[0]));
    }
  }

  /** Without overlap, interleaved reloads leave exactly the database that the same calls leave
      one at a time, in the order in which they return. */
  lemma {:induction false} NoOverlapIsSequential(decode: Decoder, bytes: nat -> Bytes, candidates: nat -> Loaded,
                                                 first: Option<Loaded>, ops: seq<Op>, n: nat)
    requires n <= |ops| && Run(candidates, first, ops, n)
    requires !Overlap(ops) && Decodes(decode, bytes, candidates, ops)
    ensures At(candidates, first, ops, n).inner ==
      ReloadAll(decode, first, Inputs(bytes, Returned(candidates, first, ops, n)))
  {
    hide *;
    if n == 0 {
      NothingReturned(decode, bytes, candidates, first, ops);
    } else {
      var s := At(candidates, first, ops, n - 1);
      OneMore(candidates, first, ops, n - 1);
      OneMoreReturned(candidates, first, ops, n - 1);
      NoOverlapIsSequential(decode, bytes, candidates, first, ops, n - 1);
      NoOverlapKeepsOrder(candidates, first, ops, n - 1);
      NoOverlapStep(decode, bytes, candidates, s, ops, n - 1);
      var before := Returned(candidates, first, ops, n - 1);
      SequentialStep(decode, bytes, first, before, Returning(candidates, s, ops[n - 1]));
    }
  }

  lemma NothingReturned(decode: Decoder, bytes: nat -> Bytes, candidates: nat -> Loaded,
                        first: Option<Loaded>, ops: seq<Op>)
    ensures At(candidates, first, ops, 0).inner ==
      ReloadAll(decode, first, Inputs(bytes, Returned(candidates, first, ops, 0)))
  {
  }

  lemma OneMoreReturned(candidates: nat -> Loaded, first: Option<Loaded>, ops: seq<Op>, n: nat)
    requires n < |ops|
    ensures var now := Returning(candidates, At(candidates, first, ops, n), ops[n]);
      |now| <= 1 && Returned(candidates, first, ops, n + 1) == Returned(candidates, first, ops, n) + now
  {
  }
}
