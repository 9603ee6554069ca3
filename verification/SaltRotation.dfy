/** Id computations running beside salt rotations: a computation loads the salt in one step
    and finishes in a later one. */
module SaltRotation {
  import opened Words
  import opened Ip
  import opened Events
  import opened Visitor
  import opened Strategy

  datatype Op = Set(salt: Bytes) | LoadSalt(call: nat) | Finish(call: nat)

  /** What a call computes an id for. */
  datatype Request = Request(raw: RawEvent, mask: IpMaskMode)

  datatype State = State(cell: Bytes, loaded: map<nat, Bytes>, ids: map<nat, Option<VisitorId>>)

  datatype System = System(hasher: Hasher, first: Bytes, requests: nat -> Request) {

    /** An event without an address never gets as far as the salt. */
    predicate Enabled(s: State, op: Op) {
      match op
      case Set(_) => true
      case LoadSalt(c) => c !in s.loaded && requests(c).raw.ip.Some?
      case Finish(c) => c in s.loaded && c !in s.ids
    }

    function IdWith(salt: Bytes, c: nat): Option<VisitorId> {
      VisitorIdOf(hasher, salt, requests(c).raw, requests(c).mask)
    }

    function Next(s: State, op: Op): State {
      match op
      case Set(b) => s.(cell := b)
      case LoadSalt(c) => s.(loaded := s.loaded[c := s.cell])
      case Finish(c) => if c in s.loaded then s.(ids := s.ids[c := IdWith(s.loaded[c], c)]) else s
    }

    function At(ops: seq<Op>, n: nat): State
      requires n <= |ops|
    {
      if n == 0 then State(first, map[], map[]) else Next(At(ops, n - 1), ops[n - 1])
    }

    predicate Run(ops: seq<Op>, n: nat)
      requires n <= |ops|
    {
      n == 0 || (Run(ops, n - 1) && Enabled(At(ops, n - 1), ops[n - 1]))
    }

    /** What comes later does not change the first `n` steps. */
    lemma {:induction false} AtPrefix(ops: seq<Op>, more: seq<Op>, n: nat)
      requires n <= |ops|
      ensures At(ops + more, n) == At(ops, n) && Run(ops + more, n) == Run(ops, n)
    {
      if n != 0 {
        AtPrefix(ops, more, n - 1);
      }
    }

    lemma Extend(ops: seq<Op>, op: Op)
      ensures At(ops + [op], |ops| + 1) == Next(At(ops, |ops|), op)
      ensures Run(ops + [op], |ops| + 1) <==> Run(ops, |ops|) && Enabled(At(ops, |ops|), op)
    {
      AtPrefix(ops, [op], |ops|);
    }

    /** Nothing waits: from any point of any run a salt can be set, and a call whose event has an address can load
        the salt, if it has not yet, and finish. */
    lemma NothingWaits(ops: seq<Op>, salt: Bytes, c: nat)
      requires Run(ops, |ops|) && requests(c).raw.ip.Some? && c !in At(ops, |ops|).ids
      ensures Run(ops + [Set(salt)], |ops| + 1)
      ensures c in At(ops, |ops|).loaded ==>
        Run(ops + [Finish(c)], |ops| + 1) && c in At(ops + [Finish(c)], |ops| + 1).ids
      ensures c !in At(ops, |ops|).loaded ==>
        Run(ops + [LoadSalt(c)] + [Finish(c)], |ops| + 2)
        && c in At(ops + [LoadSalt(c)] + [Finish(c)], |ops| + 2).ids
    {
      hide At, Run;
      Extend(ops, Set(salt));
      if c in At(ops, |ops|).loaded {
        Extend(ops, Finish(c));
      } else {
        Extend(ops, LoadSalt(c));
        Extend(ops + [LoadSalt(c)], Finish(c));
      }
    }

    /** The salt in the cell at step `i`: the last one set before it, or the first one. */
    ghost predicate SetBefore(ops: seq<Op>, i: nat, salt: Bytes)
      requires i <= |ops|
    {
      || (salt == first && forall j :: 0 <= j < i ==> !ops[j].Set?)
      || exists j :: 0 <= j < i && ops[j] == Set(salt) && forall k :: j < k < i ==> !ops[k].Set?
    }

    /** Call `c` loaded `salt` at step `i`. */
    ghost predicate LoadedAt(ops: seq<Op>, n: nat, c: nat, salt: Bytes, i: int)
      requires n <= |ops|
    {
      0 <= i < n && ops[i] == LoadSalt(c) && salt == At(ops, i).cell && SetBefore(ops, i, salt)
    }

    lemma {:induction false} CellIsLastSet(ops: seq<Op>, n: nat)
      requires n <= |ops|
      ensures SetBefore(ops, n, At(ops, n).cell)
    {
      if n != 0 {
        CellIsLastSet(ops, n - 1);
        var salt := At(ops, n - 1).cell;
        if !ops[n - 1].Set? && !(salt == first && forall j :: 0 <= j < n - 1 ==> !ops[j].Set?) {
          var j :| 0 <= j < n - 1 && ops[j] == Set(salt) && forall k :: j < k < n - 1 ==> !ops[k].Set?;
          assert forall k :: j < k < n ==> !ops[k].Set?;
        }
      }
    }

    /** The load a loaded or finished call goes back to. */
    ghost predicate Traced(ops: seq<Op>, n: nat, c: nat)
      requires n <= |ops|
    {
      var s := At(ops, n);
      && c in s.loaded && requests(c).raw.ip.Some?
      && (exists i :: LoadedAt(ops, n, c, s.loaded[c], i))
      && (c in s.ids ==> s.ids[c] == IdWith(s.loaded[c], c))
    }

    lemma LoadIsTraced(ops: seq<Op>, n: nat, c: nat)
      requires n < |ops| && ops[n] == LoadSalt(c) && Enabled(At(ops, n), ops[n])
      requires c in At(ops, n).ids ==> c in At(ops, n).loaded
      ensures Traced(ops, n + 1, c)
    {
      CellIsLastSet(ops, n);
      assert LoadedAt(ops, n + 1, c, At(ops, n).cell, n);
    }

    lemma StaysTraced(ops: seq<Op>, n: nat, c: nat)
      requires n < |ops| && Traced(ops, n, c) && ops[n] != LoadSalt(c)
      ensures Traced(ops, n + 1, c)
    {
      var salt := At(ops, n).loaded[c];
      var i :| LoadedAt(ops, n, c, salt, i);
      assert At(ops, n + 1) == Next(At(ops, n), ops[n]);
      assert At(ops, n + 1).loaded[c] == salt;
      assert LoadedAt(ops, n + 1, c, At(ops, n + 1).loaded[c], i);
    }

    lemma {:induction false} CallsAreTraced(ops: seq<Op>, n: nat)
      requires n <= |ops| && Run(ops, n)
      ensures forall c :: c in At(ops, n).loaded ==> Traced(ops, n, c)
      ensures forall c :: c in At(ops, n).ids ==> c in At(ops, n).loaded
    {
      if n != 0 {
        CallsAreTraced(ops, n - 1);
        forall c | c in At(ops, n).loaded ensures Traced(ops, n, c) {
          if ops[n - 1] == LoadSalt(c) {
            LoadIsTraced(ops, n - 1, c);
          } else {
            assert Traced(ops, n - 1, c);
            StaysTraced(ops, n - 1, c);
          }
        }
        hide Traced;
      }
    }

    /** In any interleaving, every id is the one for a single whole salt:
        the last one set before the call loaded it. */
    lemma IdUsesOneSalt(ops: seq<Op>, c: nat) returns (i: int, salt: Bytes)
      requires Run(ops, |ops|) && c in At(ops, |ops|).ids
      ensures LoadedAt(ops, |ops|, c, salt, i)
      ensures At(ops, |ops|).ids[c] == VisitorIdOf(hasher, salt, requests(c).raw, requests(c).mask)
    {
      CallsAreTraced(ops, |ops|);
      salt := At(ops, |ops|).loaded[c];
      assert Traced(ops, |ops|, c);
      i :| LoadedAt(ops, |ops|, c, salt, i);
    }

    /** Same entity, masked address and user agent. */
    predicate SameVisitor(c: nat, d: nat)
      requires requests(c).raw.ip.Some? && requests(d).raw.ip.Some?
    {
      KeyOf(requests(c).raw, requests(c).mask, []) == KeyOf(requests(d).raw, requests(d).mask, [])
    }

    function Framed(c: nat, salt: Bytes): seq<byte>
      requires requests(c).raw.ip.Some?
    {
      FrameKey(KeyOf(requests(c).raw, requests(c).mask, salt))
    }

    lemma FinishedHasAddress(ops: seq<Op>, c: nat)
      requires Run(ops, |ops|) && c in At(ops, |ops|).ids
      ensures c in At(ops, |ops|).loaded && requests(c).raw.ip.Some?
    {
      CallsAreTraced(ops, |ops|);
      assert Traced(ops, |ops|, c);
    }

    /** Across rotations, two ids of one visitor agree exactly when their salts do, or on a collision. */
    lemma OneVisitorTwoIds(ops: seq<Op>, c: nat, d: nat)
      requires Run(ops, |ops|) && c in At(ops, |ops|).ids && d in At(ops, |ops|).ids
      requires requests(c).raw.ip.Some? && requests(d).raw.ip.Some? && SameVisitor(c, d)
      requires c in At(ops, |ops|).loaded && d in At(ops, |ops|).loaded
      ensures var s := At(ops, |ops|);
        s.ids[c] == s.ids[d] <==>
          s.loaded[c] == s.loaded[d] || Collision(hasher, Framed(c, s.loaded[c]), Framed(d, s.loaded[d]))
    {
      CallsAreTraced(ops, |ops|);
      var s := At(ops, |ops|);
      assert Traced(ops, |ops|, c) && Traced(ops, |ops|, d);
      IdsIdentifyKeys(hasher, KeyOf(requests(c).raw, requests(c).mask, s.loaded[c]),
                      KeyOf(requests(d).raw, requests(d).mask, s.loaded[d]));
    }

    lemma {:induction false} CellStays(ops: seq<Op>, m: nat, n: nat)
      requires m <= n <= |ops| && forall k :: m <= k < n ==> !ops[k].Set?
      ensures At(ops, m).cell == At(ops, n).cell
    {
      if m < n {
        CellStays(ops, m, n - 1);
      }
    }

    /** Between two rotations a visitor keeps one id. */
    lemma StableBetweenRotations(ops: seq<Op>, c: nat, d: nat, i: nat, j: nat)
      requires Run(ops, |ops|) && c in At(ops, |ops|).ids && d in At(ops, |ops|).ids
      requires requests(c).raw.ip.Some? && requests(d).raw.ip.Some? && SameVisitor(c, d)
      requires i <= j < |ops| && ops[i] == LoadSalt(c) && ops[j] == LoadSalt(d)
      requires forall k :: i <= k < j ==> !ops[k].Set?
      ensures At(ops, |ops|).ids[c] == At(ops, |ops|).ids[d]
    {
      CellStays(ops, i, j);
      LoadedStays(ops, c, i, |ops|);
      LoadedStays(ops, d, j, |ops|);
      FinishedHasAddress(ops, c);
      FinishedHasAddress(ops, d);
      OneVisitorTwoIds(ops, c, d);
    }

    /** A loaded salt is not loaded again. */
    lemma {:induction false} LoadedStays(ops: seq<Op>, c: nat, i: nat, n: nat)
      requires i < n <= |ops| && Run(ops, n) && ops[i] == LoadSalt(c)
      ensures c in At(ops, n).loaded && At(ops, n).loaded[c] == At(ops, i).cell
    {
      if i < n - 1 {
        LoadedStays(ops, c, i, n - 1);
      }
    }
  }
}
