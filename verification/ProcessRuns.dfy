/** Whole `process` calls running beside salt rotations and database reloads. A call makes its id in one step,
    with the salt of that moment, looks up its location in a later one, and finishes in a third. */
module ProcessRuns {
  import opened Words
  import opened Errors
  import opened Types
  import opened Ip
  import opened Visitor
  import opened Events
  import opened Strategy
  import opened Processing
  import opened GeoIp
  import R = GeoReloads

  datatype Op =
    | Reload(op: R.Op)
    | SetSalt(salt: Bytes)
    | MakeId(call: nat)
    | LookUp(call: nat)
    | Finish(call: nat)

  /** `salts` is the history of the salt cell, its present value last. */
  datatype State = State(
    salts: seq<Bytes>, db: R.State,
    ids: map<nat, Option<VisitorId>>, locations: map<nat, Option<Location>>,
    outputs: map<nat, Result<Event, ProcessError>>)

  /** The reload steps of a run, in order. */
  function Reloads(ops: seq<Op>): seq<R.Op> {
    if ops == [] then []
    else
      var (before, last) := (ops[..|ops| - 1], ops[|ops| - 1]);
      Reloads(before) + (if last.Reload? then [last.op] else [])
  }

  /** `parts` are the configured parts that never change; `requests` are the events of the calls. */
  datatype Service = Service(
    parts: Processor, strategy: Option<(Hasher, IpMaskMode)>, hasGeoip: bool,
    firstSalt: Bytes, firstDb: Option<Loaded>, candidates: nat -> Loaded, requests: nat -> RawEvent)
  {
    /** The processor as it is with one salt and one snapshot of the database. */
    function Frozen(salt: Bytes, snapshot: Option<Loaded>): Processor {
      parts.(
        strategy := if strategy.Some? then Some(MaskedHashed(strategy.value.0, salt, strategy.value.1)) else None,
        geoip := if hasGeoip then Some(ip => Ask(snapshot, ip)) else None)
    }

    function IdWith(salt: Bytes, raw: RawEvent): Option<VisitorId> {
      if raw.visitorId.Some? then raw.visitorId
      else if strategy.Some? then VisitorIdOf(strategy.value.0, salt, raw, strategy.value.1)
      else None
    }

    function LocationIn(snapshot: Option<Loaded>, raw: RawEvent): Option<Location> {
      if hasGeoip && raw.ip.Some? then Ask(snapshot, raw.ip.value) else None
    }

    predicate Enabled(s: State, op: Op) {
      match op
      case Reload(r) => R.Enabled(s.db, r)
      case SetSalt(_) => true
      case MakeId(c) => c !in s.ids && Validate(requests(c)).Ok?
      case LookUp(c) => c in s.ids && c !in s.locations
      case Finish(c) => c !in s.outputs && (Validate(requests(c)).Ok? ==> c in s.locations)
    }

    function Next(s: State, op: Op): State {
      match op
      case Reload(r) => s.(db := R.Next(candidates, s.db, r))
      case SetSalt(b) => s.(salts := s.salts + [b])
      case MakeId(c) => s.(ids := s.ids[c := IdWith(Current(s), requests(c))])
      case LookUp(c) => s.(locations := s.locations[c := LocationIn(s.db.inner, requests(c))])
      case Finish(c) => s.(outputs := s.outputs[c := Assemble(s, c)])
    }

    function Current(s: State): Bytes {
      if s.salts == [] then firstSalt else s.salts[|s.salts| - 1]
    }

    function Assemble(s: State, c: nat): Result<Event, ProcessError> {
      var _ :- Validate(requests(c));
      var id := if c in s.ids then s.ids[c] else None;
      var location := if c in s.locations then s.locations[c] else None;
      Ok(EventOf(ShownBy(parts, requests(c)), id, location))
    }

    function After(ops: seq<Op>): State {
      if ops == [] then State([firstSalt], R.Init(firstDb), map[], map[], map[])
      else Next(After(ops[..|ops| - 1]), ops[|ops| - 1])
    }

    predicate Run(ops: seq<Op>) {
      ops == [] || (Run(ops[..|ops| - 1]) && Enabled(After(ops[..|ops| - 1]), ops[|ops| - 1]))
    }

    // ---- Where the pieces of an output come from ----------------------------------

    /** Call `c` made its id at step `i`. */
    ghost predicate IdMadeAt(ops: seq<Op>, c: nat, i: int) {
      && 0 <= i < |ops| && ops[i] == MakeId(c) && c in After(ops).ids
      && After(ops).ids[c] == IdWith(Current(After(ops[..i])), requests(c))
    }

    /** Call `c` looked up its location at step `j`, after it had made its id. */
    ghost predicate LookedUpAt(ops: seq<Op>, c: nat, i: int, j: int) {
      && IdMadeAt(ops, c, i) && i < j < |ops| && ops[j] == LookUp(c) && c in After(ops).locations
      && After(ops).locations[c] == LocationIn(After(ops[..j]).db.inner, requests(c))
    }

    lemma {:induction false} IdIsKept(ops: seq<Op>, c: nat) returns (i: int)
      requires Run(ops) && c in After(ops).ids
      ensures IdMadeAt(ops, c, i)
    {
      var before, last := ops[..|ops| - 1], ops[|ops| - 1];
      if last == MakeId(c) {
        i := |before|;
      } else {
        i := IdIsKept(before, c);
        assert before[..i] == ops[..i];
      }
    }

    lemma {:induction false} LocationIsKept(ops: seq<Op>, c: nat) returns (i: int, j: int)
      requires Run(ops) && c in After(ops).locations
      ensures LookedUpAt(ops, c, i, j)
    {
      var before, last := ops[..|ops| - 1], ops[|ops| - 1];
      if last == LookUp(c) {
        i := IdIsKept(before, c);
        j := |before|;
      } else {
        i, j := LocationIsKept(before, c);
        assert before[..j] == ops[..j];
      }
      assert before[..i] == ops[..i];
    }

    /** An output, once given, is the one assembled from the call's own pieces. */
    lemma {:induction false} OutputIsKept(ops: seq<Op>, c: nat)
      requires Run(ops) && c in After(ops).outputs
      ensures After(ops).outputs[c] == Assemble(After(ops), c)
      ensures Validate(requests(c)).Ok? ==> c in After(ops).locations
    {
      var before, last := ops[..|ops| - 1], ops[|ops| - 1];
      if last != Finish(c) {
        OutputIsKept(before, c);
        if Validate(requests(c)).Ok? {
          var i, j := LocationIsKept(before, c);
        }
      }
    }

    // ---- The histories of the two cells --------------------------------------------

    /** A step only appends to the histories, and keeps the cells at their ends. */
    lemma StepAppends(s: State, op: Op)
      ensures s.salts <= Next(s, op).salts && s.db.installed <= Next(s, op).db.installed
      ensures R.LastInstalled(s.db) ==> R.LastInstalled(Next(s, op).db)
    {
    }

    lemma {:induction false} CellsAreCurrent(ops: seq<Op>)
      ensures After(ops).salts != [] && R.LastInstalled(After(ops).db)
    {
      if ops != [] {
        CellsAreCurrent(ops[..|ops| - 1]);
        StepAppends(After(ops[..|ops| - 1]), ops[|ops| - 1]);
        hide Next;
      }
    }

    lemma {:induction false} HistoriesGrow(ops: seq<Op>, n: nat)
      requires n <= |ops|
      ensures After(ops[..n]).salts <= After(ops).salts
      ensures After(ops[..n]).db.installed <= After(ops).db.installed
    {
      if n == |ops| {
        assert ops[..n] == ops;
      } else {
        var before := ops[..|ops| - 1];
        HistoriesGrow(before, n);
        assert before[..n] == ops[..n];
        StepAppends(After(before), ops[|ops| - 1]);
      }
    }

    /** `salt` is what the last rotation of `ops` brought, or the first salt when there was none. */
    ghost predicate SetLast(ops: seq<Op>, salt: Bytes) {
      || (salt == firstSalt && forall j :: 0 <= j < |ops| ==> !ops[j].SetSalt?)
      || exists j :: 0 <= j < |ops| && ops[j] == SetSalt(salt) && forall k :: j < k < |ops| ==> !ops[k].SetSalt?
    }

    lemma SetLastStep(before: seq<Op>, op: Op, salt: Bytes)
      requires SetLast(before, salt)
      ensures SetLast(before + [op], if op.SetSalt? then op.salt else salt)
    {
      var ops := before + [op];
      if op.SetSalt? {
        assert ops[|before|] == SetSalt(op.salt);
      } else if j :| 0 <= j < |before| && before[j] == SetSalt(salt)
                     && forall k :: j < k < |before| ==> !before[k].SetSalt? {
        assert ops[j] == SetSalt(salt);
      }
    }

    /** Rotations do what they say: the current salt is the last one set, whatever else goes on. */
    lemma {:induction false} CurrentIsLastSet(ops: seq<Op>)
      ensures SetLast(ops, Current(After(ops)))
    {
      if ops != [] {
        var before, last := ops[..|ops| - 1], ops[|ops| - 1];
        CurrentIsLastSet(before);
        SetLastStep(before, last, Current(After(before)));
        CurrentStep(After(before), last);
        assert before + [last] == ops;
        hide SetLast, Next, Current;
      }
    }

    lemma CurrentStep(s: State, op: Op)
      ensures Current(Next(s, op)) == if op.SetSalt? then op.salt else Current(s)
    {
    }

    /** The database goes through the states of the run of the reloads alone. */
    lemma {:induction false} DatabaseIgnoresCalls(ops: seq<Op>)
      requires Run(ops)
      ensures R.Run(candidates, firstDb, Reloads(ops), |Reloads(ops)|)
      ensures R.At(candidates, firstDb, Reloads(ops), |Reloads(ops)|) == After(ops).db
    {
      if ops != [] {
        var before, last := ops[..|ops| - 1], ops[|ops| - 1];
        DatabaseIgnoresCalls(before);
        if last.Reload? {
          R.AtPrefix(candidates, firstDb, Reloads(before), [last.op], |Reloads(before)|);
          R.OneMore(candidates, firstDb, Reloads(ops), |Reloads(before)|);
        } else {
          assert Reloads(ops) == Reloads(before);
        }
      }
    }

    lemma {:induction false} RunPrefix(ops: seq<Op>, n: nat)
      requires Run(ops) && n <= |ops|
      ensures Run(ops[..n])
    {
      if n == |ops| {
        assert ops[..n] == ops;
      } else {
        RunPrefix(ops[..|ops| - 1], n);
        assert ops[..|ops| - 1][..n] == ops[..n];
      }
    }

    // ---- The theorem ------------------------------------------------------------------

    lemma FrozenOutput(salt: Bytes, snapshot: Option<Loaded>, raw: RawEvent)
      requires Validate(raw).Ok?
      ensures Process(Frozen(salt, snapshot), raw) ==
        Ok(EventOf(ShownBy(parts, raw), IdWith(salt, raw), LocationIn(snapshot, raw)))
    {
      OutputShows(Frozen(salt, snapshot), raw);
    }

    /** In any interleaving of calls, rotations and reloads, every output is that of `process` with one whole
        salt, the one current when the call made its id, and one whole database, the one current when it
        looked up its location; both are in the histories. */
    lemma OutputFromOneSaltAndDatabase(ops: seq<Op>, c: nat) returns (i: nat, j: nat)
      requires Run(ops) && c in After(ops).outputs
      ensures i <= j <= |ops|
      ensures After(ops).outputs[c] ==
        Process(Frozen(Current(After(ops[..i])), After(ops[..j]).db.inner), requests(c))
      ensures Validate(requests(c)).Ok? ==> i < j < |ops| && ops[i] == MakeId(c) && ops[j] == LookUp(c)
      ensures Current(After(ops[..i])) in After(ops).salts
      ensures var snapshot := After(ops[..j]).db.inner;
        snapshot.Some? ==> snapshot.value in After(ops).db.installed
    {
      i, j := 0, 0;
      OutputIsKept(ops, c);
      if Validate(requests(c)).Ok? {
        i, j := LocationIsKept(ops, c);
        FrozenOutput(Current(After(ops[..i])), After(ops[..j]).db.inner, requests(c));
      }
      HistoriesGrow(ops, i);
      HistoriesGrow(ops, j);
      CellsAreCurrent(ops[..i]);
      CellsAreCurrent(ops[..j]);
    }

    /** The same in terms of the run alone. The id is preset, or the hash of entity, masked address, user agent and
        the salt last set before the call made it; the location is what the reloads before the lookup installed
        says of the address. */
    lemma OutputSpelledOut(ops: seq<Op>, c: nat) returns (i: nat, j: nat, salt: Bytes)
      requires Run(ops) && c in After(ops).outputs && After(ops).outputs[c].Ok?
      ensures i < j < |ops| && ops[i] == MakeId(c) && ops[j] == LookUp(c) && SetLast(ops[..i], salt)
      ensures var (id, raw) := (After(ops).outputs[c].value.visitorId, requests(c));
        if raw.visitorId.Some? then id == raw.visitorId
        else if strategy.None? || raw.ip.None? then id == None
        else
          HashesParts(strategy.value.0, id,
                      [raw.entityId.UnwrapOr([]), Octets(MaskIp(raw.ip.value, strategy.value.1)),
                       raw.userAgent.UnwrapOr([]), salt])
      ensures var (location, raw, reloads) := (After(ops).outputs[c].value.location, requests(c), Reloads(ops[..j]));
        if !hasGeoip || raw.ip.None? then location == None
        else location == Ask(R.At(candidates, firstDb, reloads, |reloads|).inner, raw.ip.value)
    {
      i, j := OutputFromOneSaltAndDatabase(ops, c);
      salt := Current(After(ops[..i]));
      CurrentIsLastSet(ops[..i]);
      RunPrefix(ops, j);
      DatabaseIgnoresCalls(ops[..j]);
      var p, raw := Frozen(salt, After(ops[..j]).db.inner), requests(c);
      OutputPassesThrough(p, raw);
      OutputId(p, raw);
    }

    /** All else in an output, and every refusal, is what `process` makes of the event with the configured parts,
        whatever the salt and the database. */
    lemma RestFromParts(ops: seq<Op>, c: nat)
      requires Run(ops) && c in After(ops).outputs
      ensures var now, alone := After(ops).outputs[c], Process(parts, requests(c));
        && (alone.Err? ==> now == alone)
        && (alone.Ok? ==> now.Ok?)
        && (alone.Ok? ==>
              now.value.(visitorId := None, location := None) == alone.value.(visitorId := None, location := None))
    {
      OutputIsKept(ops, c);
      OutputPassesThrough(parts, requests(c));
      if Validate(requests(c)).Ok? {
        OutputShows(parts, requests(c));
      }
    }

    // ---- Nothing waits --------------------------------------------------------------------

    lemma Extend(ops: seq<Op>, op: Op)
      ensures After(ops + [op]) == Next(After(ops), op)
      ensures Run(ops + [op]) <==> Run(ops) && Enabled(After(ops), op)
    {
      assert (ops + [op])[..|ops|] == ops;
    }

    /** A rotation never waits, and neither does the load of a new reload. */
    lemma CellsNeverWait(ops: seq<Op>, salt: Bytes, c: nat)
      requires Run(ops)
      ensures Run(ops + [SetSalt(salt)])
      ensures Reload(R.Load(c)) !in ops ==> Run(ops + [Reload(R.Load(c))])
    {
      Extend(ops, SetSalt(salt));
      Extend(ops, Reload(R.Load(c)));
      if c in After(ops).db.called {
        CalledHasLoaded(ops, c);
      }
    }

    lemma {:induction false} CalledHasLoaded(ops: seq<Op>, c: nat)
      requires c in After(ops).db.called
      ensures Reload(R.Load(c)) in ops
    {
      if ops != [] {
        var before, last := ops[..|ops| - 1], ops[|ops| - 1];
        if c in After(before).db.called {
          CalledHasLoaded(before, c);
        }
      }
    }

    lemma OwnSteps(ops: seq<Op>, op: Op, rest: seq<Op>, c: nat) returns (more: seq<Op>)
      requires Run(ops) && Validate(requests(c)).Ok? && c !in After(ops).outputs && c !in After(ops).locations
      requires if c in After(ops).ids then op == LookUp(c) && rest == [Finish(c)]
               else op == MakeId(c) && rest == [LookUp(c), Finish(c)]
      ensures more == [op] + rest
      ensures Run(ops + more) && c in After(ops + more).outputs
    {
      more := [op] + rest;
      Extend(ops, op);
      if |rest| == 2 {
        Extend(ops + [op], LookUp(c));
        Extend(ops + [op] + [LookUp(c)], Finish(c));
        assert ops + more == ops + [op] + [LookUp(c)] + [Finish(c)];
      } else {
        Extend(ops + [op], Finish(c));
        assert ops + more == ops + [op] + [Finish(c)];
      }
    }

    /** From any point of any run, each call can give its output by steps of its own, at most three. */
    lemma CallNeverWaits(ops: seq<Op>, c: nat) returns (more: seq<Op>)
      requires Run(ops)
      ensures Run(ops + more) && c in After(ops + more).outputs && |more| <= 3
      ensures forall op :: op in more ==> op == MakeId(c) || op == LookUp(c) || op == Finish(c)
    {
      var s := After(ops);
      if c in s.outputs {
        more := [];
        assert ops + [] == ops;
      } else if c in s.locations || Validate(requests(c)).Err? {
        more := [Finish(c)];
        Extend(ops, Finish(c));
      } else if c in s.ids {
        more := OwnSteps(ops, LookUp(c), [Finish(c)], c);
      } else {
        more := OwnSteps(ops, MakeId(c), [LookUp(c), Finish(c)], c);
      }
    }

    /** Whatever rotates and reloads around them: two calls whose events differ only in addresses of one mask
        class, and whose ids were made under one salt, give the same output but for the location. */
    lemma MaskedCallsAgree(ops: seq<Op>, c: nat, d: nat, i: nat, k: nat)
      requires Run(ops) && c in After(ops).outputs && d in After(ops).outputs && strategy.Some?
      requires requests(c).ip.Some? && requests(d).ip.Some?
      requires requests(d) == requests(c).(ip := requests(d).ip)
      requires SameMaskClass(requests(c).ip.value, requests(d).ip.value, strategy.value.1)
      requires IdMadeAt(ops, c, i) && IdMadeAt(ops, d, k)
      requires Current(After(ops[..i])) == Current(After(ops[..k]))
      ensures WithoutLocation(After(ops).outputs[c]) == WithoutLocation(After(ops).outputs[d])
    {
      var salt, a, b := Current(After(ops[..i])), requests(c), requests(d);
      OutputIsKept(ops, c);
      OutputIsKept(ops, d);
      ValidateIgnoresAddress(a, b);
      SameMaskIffSameClass(a.ip.value, b.ip.value, strategy.value.1);
      assert IdWith(salt, a) == IdWith(salt, b);
      assert ShownBy(parts, a) == ShownBy(parts, b);
    }
  }
}
