/** Lookups running beside reloads: a lookup takes a snapshot in one step and answers from it in a later one. */
module GeoLookups {
  import opened Words
  import opened Types
  import opened Ip
  import opened GeoIp
  import R = GeoReloads
  import GeoOverlap

  datatype Op = Reload(op: R.Op) | Fetch(lookup: nat) | Answer(lookup: nat, ip: IpAddr)

  datatype State = State(db: R.State, fetched: map<nat, Option<Loaded>>, answers: map<nat, Option<Location>>)

  /** The reload steps of a run, in order. */
  function Reloads(ops: seq<Op>): seq<R.Op> {
    if ops == [] then []
    else
      var (before, last) := (ops[..|ops| - 1], ops[|ops| - 1]);
      Reloads(before) + (if last.Reload? then [last.op] else [])
  }

  datatype System = System(candidates: nat -> Loaded, first: Option<Loaded>) {

    predicate Enabled(s: State, op: Op) {
      match op
      case Reload(r) => R.Enabled(s.db, r)
      case Fetch(l) => l !in s.fetched
      case Answer(l, _) => l in s.fetched && l !in s.answers
    }

    function Next(s: State, op: Op): State {
      match op
      case Reload(r) => s.(db := R.Next(candidates, s.db, r))
      case Fetch(l) => s.(fetched := s.fetched[l := s.db.inner])
      case Answer(l, ip) => if l in s.fetched then s.(answers := s.answers[l := Ask(s.fetched[l], ip)]) else s
    }

    function After(ops: seq<Op>): State {
      if ops == [] then State(R.Init(first), map[], map[])
      else Next(After(ops[..|ops| - 1]), ops[|ops| - 1])
    }

    predicate Run(ops: seq<Op>) {
      ops == [] || (Run(ops[..|ops| - 1]) && Enabled(After(ops[..|ops| - 1]), ops[|ops| - 1]))
    }

    // ---- Lookups leave the reloads alone ---------------------------------------

    /** The database goes through the states of the run of the reloads alone. */
    lemma {:induction false} DatabaseIgnoresLookups(ops: seq<Op>)
      requires Run(ops)
      ensures R.Run(candidates, first, Reloads(ops), |Reloads(ops)|)
      ensures R.At(candidates, first, Reloads(ops), |Reloads(ops)|) == After(ops).db
    {
      if ops != [] {
        var before, last := ops[..|ops| - 1], ops[|ops| - 1];
        DatabaseIgnoresLookups(before);
        if last.Reload? {
          R.AtPrefix(candidates, first, Reloads(before), [last.op], |Reloads(before)|);
          R.OneMore(candidates, first, Reloads(ops), |Reloads(before)|);
        } else {
          assert Reloads(ops) == Reloads(before);
        }
      }
    }

    lemma {:induction false} RunPrefix(ops: seq<Op>, n: nat)
      requires Run(ops) && n <= |ops|
      ensures Run(ops[..n])
      ensures After(ops[..n]).db.installed <= After(ops).db.installed
    {
      if n == |ops| {
        assert ops[..n] == ops;
      } else {
        var before := ops[..|ops| - 1];
        RunPrefix(before, n);
        assert before[..n] == ops[..n];
      }
    }

    // ---- Where an answer comes from --------------------------------------------

    /** Lookup `l` took its snapshot at step `i`. */
    ghost predicate FetchedAt(ops: seq<Op>, l: nat, i: int) {
      && 0 <= i < |ops| && ops[i] == Fetch(l)
      && l in After(ops).fetched && After(ops).fetched[l] == After(ops[..i]).db.inner
    }

    lemma {:induction false} SnapshotIsKept(ops: seq<Op>, l: nat) returns (i: int)
      requires Run(ops) && l in After(ops).fetched
      ensures FetchedAt(ops, l, i)
    {
      var before, last := ops[..|ops| - 1], ops[|ops| - 1];
      if last == Fetch(l) {
        i := |before|;
      } else {
        i := SnapshotIsKept(before, l);
        assert before[..i] == ops[..i];
      }
    }

    /** The answer of lookup `l`, as given in some step of the run. */
    lemma {:induction false} AnswerIsKept(ops: seq<Op>, l: nat) returns (i: int, ip: IpAddr)
      requires Run(ops) && l in After(ops).answers
      ensures FetchedAt(ops, l, i) && Answer(l, ip) in ops
      ensures After(ops).answers[l] == Ask(After(ops[..i]).db.inner, ip)
    {
      var before, last := ops[..|ops| - 1], ops[|ops| - 1];
      if last.Answer? && last.lookup == l {
        ip := last.ip;
        i := SnapshotIsKept(ops, l);
      } else {
        i, ip := AnswerIsKept(before, l);
        assert before[..i] == ops[..i];
      }
    }

    lemma Extend(ops: seq<Op>, op: Op)
      ensures After(ops + [op]) == Next(After(ops), op)
      ensures Run(ops + [op]) <==> Run(ops) && Enabled(After(ops), op)
    {
      assert (ops + [op])[..|ops|] == ops;
    }

    /** A lookup never waits: from any point of any run it takes its snapshot, if it has none yet, and answers. */
    lemma LookupNeverWaits(ops: seq<Op>, l: nat, ip: IpAddr)
      requires Run(ops) && l !in After(ops).answers
      ensures l in After(ops).fetched ==> Run(ops + [Answer(l, ip)]) && l in After(ops + [Answer(l, ip)]).answers
      ensures l !in After(ops).fetched ==>
        Run(ops + [Fetch(l)] + [Answer(l, ip)])
        && l in After(ops + [Fetch(l)] + [Answer(l, ip)]).answers
    {
      if l in After(ops).fetched {
        Extend(ops, Answer(l, ip));
      } else {
        Extend(ops, Fetch(l));
        Extend(ops + [Fetch(l)], Answer(l, ip));
      }
    }

    /** The position in the history of the database that is current after `ops`. */
    function Current(ops: seq<Op>): nat {
      if After(ops).db.installed == [] then 0 else |After(ops).db.installed| - 1
    }

    lemma CurrentIsInstalled(ops: seq<Op>, n: nat)
      requires first.Some? && Run(ops) && n <= |ops|
      ensures var installed := After(ops).db.installed;
        && Current(ops[..n]) < |installed|
        && After(ops[..n]).db.inner == Some(installed[Current(ops[..n])])
        && installed[Current(ops[..n])].buildEpoch >= first.value.buildEpoch
    {
      RunPrefix(ops, n);
      DatabaseIgnoresLookups(ops[..n]);
      R.SafeAt(candidates, first.value, Reloads(ops[..n]), |Reloads(ops[..n])|);
    }

    /** In any interleaving with reloads, an answer comes from one whole installed database: the one that
        was current when the lookup took its snapshot, and never one older than the first. */
    lemma AnswerFromOneDatabase(ops: seq<Op>, l: nat) returns (i: int, ip: IpAddr)
      requires first.Some? && Run(ops) && l in After(ops).answers
      ensures FetchedAt(ops, l, i) && Answer(l, ip) in ops
      ensures var installed, d := After(ops).db.installed, Current(ops[..i]);
        && d < |installed|
        && After(ops).answers[l] == installed[d].reader(ip)
        && installed[d].buildEpoch >= first.value.buildEpoch
    {
      i, ip := AnswerIsKept(ops, l);
      CurrentIsInstalled(ops, i);
    }

    /** A later snapshot is never further back in the history, and without overlapping reloads never older. */
    lemma SnapshotsNeverGoBack(ops: seq<Op>, i: nat, j: nat)
      requires first.Some? && Run(ops) && i <= j <= |ops|
      ensures Current(ops[..i]) <= Current(ops[..j]) < |After(ops).db.installed|
      ensures !GeoOverlap.Overlap(Reloads(ops)) ==>
        After(ops).db.installed[Current(ops[..i])].buildEpoch <= After(ops).db.installed[Current(ops[..j])].buildEpoch
    {
      CurrentIsInstalled(ops, i);
      CurrentIsInstalled(ops, j);
      RunPrefix(ops, j);
      RunPrefix(ops[..j], i);
      assert ops[..j][..i] == ops[..i];
      if !GeoOverlap.Overlap(Reloads(ops)) {
        DatabaseIgnoresLookups(ops);
        GeoOverlap.NoOverlapKeepsOrder(candidates, first, Reloads(ops), |Reloads(ops)|);
        GeoOverlap.ChainIsSorted(After(ops).db.installed);
      }
    }
  }
}
