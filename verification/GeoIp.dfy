/** The hot-reloadable GeoIP database (src/geoip.rs), around an arbitrary decoder. */
module GeoIp {
  import opened Words
  import opened PlaceValue
  import opened Ip
  import opened Types

  /** What a decoded database answers for an address. */
  type Reader = IpAddr -> Option<Location>

  /** Decodes the bytes to a reader and its build epoch, or fails. */
  type Decoder = Bytes -> Option<(Reader, u64)>

  datatype Loaded = Loaded(reader: Reader, buildEpoch: u64, len: u64)

  datatype GeoIpError = Undecodable | OlderThanCurrent | TooSmallVsCurrent

  const SIZE_FLOOR_RATIO: u64 := 80

  function SaturatingMul(x: u64, y: u64): u64 {
    if x * y > U64_MAX then U64_MAX else x * y
  }

  function Build(decode: Decoder, bytes: Bytes): Result<Loaded, GeoIpError> {
    match decode(bytes)
    case Some((reader, epoch)) => Ok(Loaded(reader, epoch, |bytes|))
    case None => Err(Undecodable)
  }

  predicate SizeOk(candidate: u64, current: u64) {
    SaturatingMul(candidate, 100) >= SaturatingMul(current, SIZE_FLOOR_RATIO)
  }

  /** The checks of a candidate against the database that was current when it loaded it. */
  function Gate(candidate: Loaded, current: Option<Loaded>): Result<(), GeoIpError> {
    match current
    case None => Ok(())
    case Some(cur) =>
      if candidate.buildEpoch < cur.buildEpoch then Err(OlderThanCurrent)
      else if !SizeOk(candidate.len, cur.len) then Err(TooSmallVsCurrent)
      else Ok(())
  }

  /** What a snapshot of the cell answers for an address. */
  function Ask(snapshot: Option<Loaded>, ip: IpAddr): Option<Location> {
    if snapshot.Some? then snapshot.value.reader(ip) else None
  }

  class GeoIpDb {
    var inner: Option<Loaded>

    constructor Empty()
      ensures inner == None
    {
      inner := None;
    }

    constructor FromLoaded(loaded: Loaded)
      ensures inner == Some(loaded)
    {
      inner := Some(loaded);
    }

    /** `from_path`, once the file is read: no gate on the first database. */
    static method FromBytes(decode: Decoder, bytes: Bytes) returns (r: Result<GeoIpDb, GeoIpError>)
      ensures r.Ok? <==> decode(bytes).Some?
      ensures r.Ok? ==> fresh(r.value)
      ensures r.Ok? ==> r.value.inner == Some(Loaded(decode(bytes).value.0, decode(bytes).value.1, |bytes|))
      ensures r.Err? ==> r.error == Undecodable
    {
      var loaded := Build(decode, bytes);
      if loaded.Err? {
        return Err(loaded.error);
      }
      var db := new GeoIpDb.FromLoaded(loaded.value);
      return Ok(db);
    }

    /** `reload_from_bytes`: decode, check, replace. A failed reload changes nothing. */
    method ReloadFromBytes(decode: Decoder, bytes: Bytes) returns (r: Result<(), GeoIpError>)
      modifies this
      ensures r.Ok? ==> decode(bytes).Some?
      ensures r.Ok? ==> inner == Some(Loaded(decode(bytes).value.0, decode(bytes).value.1, |bytes|))
      ensures r.Err? ==> inner == old(inner)
      ensures r == Err(Undecodable) <==> decode(bytes).None?
      ensures r == Err(OlderThanCurrent) <==>
        decode(bytes).Some? && old(inner).Some? && decode(bytes).value.1 < old(inner).value.buildEpoch
      ensures r == Err(TooSmallVsCurrent) <==>
        decode(bytes).Some? && old(inner).Some? && decode(bytes).value.1 >= old(inner).value.buildEpoch
        && 100 * |bytes| < 80 * old(inner).value.len && 100 * |bytes| < 0xFFFF_FFFF_FFFF_FFFF
      ensures r.Ok? <==> Reload(decode, old(inner), bytes).Ok?
      ensures r.Ok? ==> inner == Some(Reload(decode, old(inner), bytes).value)
    {
      RejectionReason(decode, inner, bytes);
      var candidate :- Build(decode, bytes);
      var current := inner;
      if current.Some? {
        var cur := current.value;
        if candidate.buildEpoch < cur.buildEpoch {
          return Err(OlderThanCurrent);
        }
        var cand := SaturatingMul(candidate.len, 100);
        var floor := SaturatingMul(cur.len, SIZE_FLOOR_RATIO);
        if cand < floor {
          return Err(TooSmallVsCurrent);
        }
      }
      inner := Some(candidate);
      return Ok(());
    }

    method Lookup(ip: IpAddr) returns (r: Option<Location>)
      ensures inner.None? ==> r == None
      ensures inner.Some? ==> r == inner.value.reader(ip)
    {
      var loaded := inner;
      if loaded.None? {
        return None;
      }
      r := loaded.value.reader(ip);
    }
  }

  /** What one undisturbed reload installs, or why it installs nothing. */
  function Reload(decode: Decoder, current: Option<Loaded>, bytes: Bytes): Result<Loaded, GeoIpError> {
    var candidate :- Build(decode, bytes);
    var _ :- Gate(candidate, current);
    Ok(candidate)
  }

  /** What is installed is what the bytes decode to: its reader answers from then on. */
  lemma ReloadInstallsDecoded(decode: Decoder, current: Option<Loaded>, bytes: Bytes)
    requires Reload(decode, current, bytes).Ok?
    ensures decode(bytes).Some?
    ensures Reload(decode, current, bytes).value == Loaded(decode(bytes).value.0, decode(bytes).value.1, |bytes|)
    ensures forall ip :: Ask(Some(Reload(decode, current, bytes).value), ip) == decode(bytes).value.0(ip)
  {
  }

  // ---- What the gate decides -----------------------------------------------

  /** Up to this length the saturating size test is the exact 80% test; beyond it, it is not. */
  const EXACT_UP_TO: u64 := 230584300921369396

  /** The shortest candidate whose product saturates: it passes the size test against any length. */
  const SATURATING: u64 := 184467440737095517

  lemma SizeGateExactIff(current: u64)
    ensures (forall candidate: u64 :: SizeOk(candidate, current) <==> 100 * candidate >= 80 * current)
      <==> current <= EXACT_UP_TO
    ensures SizeOk(SATURATING, current)
    ensures current <= EXACT_UP_TO <==> 100 * SATURATING >= 80 * current
  {
    assert SizeOk(SATURATING, current);
  }

  /** Acceptance of a reload, in the terms of README.md:109. */
  lemma AcceptedIff(decode: Decoder, current: Option<Loaded>, bytes: Bytes)
    requires current.Some? ==> current.value.len <= EXACT_UP_TO
    ensures Reload(decode, current, bytes).Ok? <==>
      decode(bytes).Some? &&
      (current.Some? ==>
        decode(bytes).value.1 >= current.value.buildEpoch && 100 * |bytes| >= 80 * current.value.len)
  {
    if current.Some? {
      SizeGateExactIff(current.value.len);
      var candidate: u64 := |bytes|;
      assert SizeOk(candidate, current.value.len) <==> 100 * candidate >= 80 * current.value.len;
    }
  }

  /** Why a reload fails: the decoder first, then the epoch, then the size. */
  lemma RejectionReason(decode: Decoder, current: Option<Loaded>, bytes: Bytes)
    ensures var r, d := Reload(decode, current, bytes), decode(bytes);
      && (r == Err(Undecodable) <==> d.None?)
      && (r == Err(OlderThanCurrent) <==> d.Some? && current.Some? && d.value.1 < current.value.buildEpoch)
      && (r == Err(TooSmallVsCurrent) <==>
            d.Some? && current.Some? && d.value.1 >= current.value.buildEpoch
            && 100 * |bytes| < 80 * current.value.len && 100 * |bytes| < 0xFFFF_FFFF_FFFF_FFFF)
  {
  }

  /** A database always passes the gate against itself, whatever its length. */
  lemma AcceptsItself(loaded: Loaded)
    ensures Gate(loaded, Some(loaded)).Ok?
  {
  }

  // ---- Runs of undisturbed reloads ------------------------------------------

  function Keep(current: Option<Loaded>, r: Result<Loaded, GeoIpError>): Option<Loaded> {
    if r.Ok? then Some(r.value) else current
  }

  function ReloadAll(decode: Decoder, current: Option<Loaded>, inputs: seq<Bytes>): Option<Loaded>
    decreases |inputs|
  {
    if inputs == [] then current
    else ReloadAll(decode, Keep(current, Reload(decode, current, inputs[0])), inputs[1..])
  }

  function AcceptedCount(decode: Decoder, current: Option<Loaded>, inputs: seq<Bytes>): nat
    decreases |inputs|
  {
    if inputs == [] then 0
    else
      var r := Reload(decode, current, inputs[0]);
      (if r.Ok? then 1 else 0) + AcceptedCount(decode, Keep(current, r), inputs[1..])
  }

  lemma {:induction false} ReloadAllAppend(decode: Decoder, current: Option<Loaded>, inputs: seq<Bytes>, last: Bytes)
    ensures var before := ReloadAll(decode, current, inputs);
      && ReloadAll(decode, current, inputs + [last]) == Keep(before, Reload(decode, before, last))
      && AcceptedCount(decode, current, inputs + [last]) ==
         AcceptedCount(decode, current, inputs) + if Reload(decode, before, last).Ok? then 1 else 0
    decreases |inputs|
  {
    if inputs == [] {
      assert [last][1..] == [];
    } else {
      assert (inputs + [last])[1..] == inputs[1..] + [last];
      ReloadAllAppend(decode, Keep(current, Reload(decode, current, inputs[0])), inputs[1..], last);
    }
  }

  /** Along a run the installed epoch never falls, and a run in which all fail changes nothing. */
  lemma {:induction false} EpochNeverFalls(decode: Decoder, current: Loaded, inputs: seq<Bytes>)
    ensures var last := ReloadAll(decode, Some(current), inputs);
      && last.Some? && last.value.buildEpoch >= current.buildEpoch
      && (AcceptedCount(decode, Some(current), inputs) == 0 ==> last.value == current)
    decreases |inputs|
  {
    if inputs != [] {
      var next := Keep(Some(current), Reload(decode, Some(current), inputs[0]));
      EpochNeverFalls(decode, next.value, inputs[1..]);
    }
  }

  /** After `n` accepted reloads at least `(4/5)^n` of the first length is left. */
  lemma {:induction false} SizeShrinksAtMostByFifths(decode: Decoder, current: Loaded, inputs: seq<Bytes>)
    requires current.len <= EXACT_UP_TO
    requires forall i :: 0 <= i < |inputs| ==> |inputs[i]| <= EXACT_UP_TO
    ensures var last, n := ReloadAll(decode, Some(current), inputs), AcceptedCount(decode, Some(current), inputs);
      last.Some? && last.value.len * Pow(5, n) >= current.len * Pow(4, n)
    decreases |inputs|
  {
    if inputs != [] {
      var r := Reload(decode, Some(current), inputs[0]);
      var next := Keep(Some(current), r).value;
      SizeShrinksAtMostByFifths(decode, next, inputs[1..]);
      if r.Ok? {
        AcceptedIff(decode, Some(current), inputs[0]);
        var n := AcceptedCount(decode, Some(next), inputs[1..]);
        var last := ReloadAll(decode, Some(next), inputs[1..]).value;
        FifthsCompose(last.len, next.len, current.len, Pow(5, n), Pow(4, n));
      }
    }
  }

  lemma FifthsCompose(last: nat, next: nat, first: nat, p5: nat, p4: nat)
    requires last * p5 >= next * p4 && 5 * next >= 4 * first
    ensures last * (5 * p5) >= first * (4 * p4)
  {
    MulMonotonic(4 * first, 5 * next, p4);
    assert last * (5 * p5) == 5 * (last * p5);
    assert 5 * (next * p4) == 5 * next * p4;
    assert first * (4 * p4) == 4 * first * p4;
  }
}
