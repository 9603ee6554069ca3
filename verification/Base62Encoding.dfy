/** The frozen base-62 text form of a 32-byte digest (`base62` in src/hash/mod.rs). */
module Base62Encoding {
  import opened Words
  import opened PlaceValue
  import opened Bits

  const DIGEST_LEN := 32
  const MAX_LETTERS := 43

  type Digest = d: seq<byte> | |d| == DIGEST_LEN witness Zeros(DIGEST_LEN)

  const ALPHABET: seq<byte> :=
    Ascii("0123456789") + Ascii("ABCDEFGHIJKLMNOPQRSTUVWXYZ") + Ascii("abcdefghijklmnopqrstuvwxyz")

  function Letter(digit: nat): byte
    requires digit < 62
  {
    ALPHABET[digit]
  }

  // ---- What the text means -------------------------------------------------

  /** The shortest base-62 numeral of `v`, behind zeros up to 32 digits. */
  function PaddedNumeral(v: nat): (ds: seq<nat>)
    ensures IsNumeral(62, ds)
  {
    var n := Numeral(62, v);
    if |n| < DIGEST_LEN then Zeros(DIGEST_LEN - |n|) + n else n
  }

  function Letters(ds: seq<nat>): (r: seq<byte>)
    requires IsNumeral(62, ds)
    ensures |r| == |ds|
  {
    seq(|ds|, i requires 0 <= i < |ds| => Letter(ds[i]))
  }

  /** The specification of `base62`. */
  function Encode(digest: Digest): (r: Str)
    ensures DIGEST_LEN <= |r| <= MAX_LETTERS
  {
    DigestFits43(digest);
    Letters(PaddedNumeral(Value(256, digest)))
  }

  lemma WordPowers()
    ensures Pow(2, 8) == 256 && Pow(2, 32) == 0x1_0000_0000
  {
    PowDouble(2, 8, 256);
    PowDouble(2, 16, 0x1_0000);
  }

  /** 43 base-62 digits hold every 32-byte number. */
  lemma Base62Reaches256Bits()
    ensures Pow(256, 32) < Pow(62, 43)
  {
    PowDouble(256, 4, 0x1_0000_0000);
    PowDouble(256, 8, 0x1_0000_0000_0000_0000);
    PowDouble(256, 16, 0x1_0000_0000_0000_0000_0000_0000_0000_0000);
    PowDouble(62, 5, 916132832);
    PowDouble(62, 10, 839299365868340224);
    PowDouble(62, 20, 704423425546998022968330264616370176);
    PowAdd(62, 40, 3);
  }

  /** A digest has at most 43 base-62 digits, because `62^43 > 256^32`. */
  lemma DigestFits43(digest: Digest)
    ensures Value(256, digest) < Pow(256, DIGEST_LEN)
    ensures |Numeral(62, Value(256, digest))| <= MAX_LETTERS
  {
    ValueBound(256, digest);
    Base62Reaches256Bits();
    NumeralLength(62, Value(256, digest), MAX_LETTERS);
  }

  // ---- The algorithm -------------------------------------------------------

  /** `rem << 8 | b` is `rem * 256 + b`, and its quotient by 62 is a byte. */
  lemma ShiftOrByte(rem: nat, b: byte)
    requires rem < 62
    ensures Or(Shl(rem, 8, 32), b) == rem * 256 + b
    ensures (rem * 256 + b) / 62 < 256
  {
    WordPowers();
    ShlIsProduct(rem, 8, 32);
    DivModUnique(0x1_0000_0000, 0, rem * 256);
    OrBelow(rem, b, 8);
    QuotientFits(62, rem * 256 + b, 256);
    hide Or, Shl, Pow;
  }

  method ShiftOr(rem: u32, b: byte) returns (acc: u32)
    requires rem < 62
    ensures acc == rem * 256 + b
  {
    ShiftOrByte(rem, b);
    acc := Or(Shl(rem, 8, 32), b);
  }

  lemma QuotientIsByte(acc: nat)
    requires acc < 62 * 256
    ensures acc / 62 % 256 == acc / 62 && acc == 62 * (acc / 62) + acc % 62
  {
    QuotientFits(62, acc, 256);
    DivMod(62, acc);
  }

  /** Divides one byte, with the remainder of the bytes above it; the cast to a byte loses nothing. */
  method DivideByte(rem: u32, b: byte) returns (quotient: byte, rest: u32)
    requires rem < 62
    ensures rem * 256 + b == 62 * quotient + rest && rest < 62
  {
    var acc := ShiftOr(rem, b);
    QuotientIsByte(acc);
    quotient := acc / 62 % 256;
    rest := acc % 62;
  }

  /** `now` and `rem` are quotient and remainder of `was` by 62, as base-256 numbers. */
  ghost predicate DividedBy62(was: seq<byte>, now: seq<byte>, rem: nat) {
    && |was| == |now|
    && Value(256, was) == 62 * Value(256, now) + rem
    && rem < 62
  }

  /** Long division brings down one more byte. */
  lemma BringDown(was: seq<byte>, quotients: seq<byte>, rem: nat, b: byte, quotient: byte, rest: nat)
    requires DividedBy62(was, quotients, rem)
    requires rem * 256 + b == 62 * quotient + rest && rest < 62
    ensures DividedBy62(was + [b], quotients + [quotient], rest)
  {
    assert (was + [b])[..|was|] == was;
    assert (quotients + [quotient])[..|quotients|] == quotients;
  }

  /** Half-way through a pass: `bytes[start..i]` is divided, the rest is as it was. */
  ghost predicate MidPass(was: seq<byte>, now: seq<byte>, start: nat, i: nat, rem: nat) {
    && start <= i <= |was| == |now|
    && now[..start] == was[..start]
    && now[i..] == was[i..]
    && DividedBy62(was[start..i], now[start..i], rem)
  }

  lemma MidPassAdvances(was: seq<byte>, before: seq<byte>, start: nat, i: nat, rem: nat, quotient: byte, rest: nat)
    requires MidPass(was, before, start, i, rem) && i < |was|
    requires rem * 256 + before[i] == 62 * quotient + rest && rest < 62
    ensures MidPass(was, before[i := quotient], start, i + 1, rest)
  {
    var now := before[i := quotient];
    assert before[i] == before[i..][0] == was[i..][0] == was[i];
    BringDown(was[start..i], before[start..i], rem, was[i], quotient, rest);
    assert was[start..i + 1] == was[start..i] + [was[i]];
    assert now[start..i + 1] == before[start..i] + [quotient];
    assert now[i + 1..] == before[i..][1..] == was[i..][1..] == was[i + 1..];
  }

  /** One pass of `base62`: divides `bytes[start..]` in place by 62. */
  method DivideInPlace(bytes: array<byte>, start: nat) returns (rem: u32)
    requires start < bytes.Length
    modifies bytes
    ensures bytes[..start] == old(bytes[..start])
    ensures rem < 62 && DividedBy62(old(bytes[start..]), bytes[start..], rem)
  {
    ghost var was := bytes[..];
    rem := 0;
    assert was[start..start] == [];
    for i := start to bytes.Length
      invariant rem < 62 && MidPass(was, bytes[..], start, i, rem)
    {
      ghost var before := bytes[..];
      var quotient, rest := DivideByte(rem, bytes[i]);
      MidPassAdvances(was, before, start, i, rem, quotient, rest);
      bytes[i], rem := quotient, rest;
      assert bytes[..] == before[i := quotient];
    }
    assert bytes[..][start..bytes.Length] == bytes[start..] && bytes[..][..start] == bytes[..start];
    assert was[start..bytes.Length] == was[start..];
  }

  /** Dividing by 62 shrinks a non-zero leading byte, and clears at most that one. */
  lemma LeadingByteShrinks(was: seq<byte>, now: seq<byte>, rem: nat)
    requires was != [] && was[0] != 0 && DividedBy62(was, now, rem)
    ensures now[0] < was[0]
    ensures now[0] == 0 && 1 < |now| ==> now[1] != 0
  {
    var p := Pow(256, |was| - 1);
    LeadingByteBounds(was);
    LeadingByteBounds(now);
    PowPositive(256, |was| - 1);
    LeadShrinks(was[0], now[0], p, Value(256, was), Value(256, now), rem);
    if now[0] == 0 && 1 < |now| && now[1] == 0 {
      MulMonotonic(1, was[0], p);
      TwoZerosBound(now);
      assert false;
    }
  }

  /** With two leading zeros, 62 times the value and a remainder stay below the place of the first byte. */
  lemma TwoZerosBound(bytes: seq<byte>)
    requires 2 <= |bytes| && bytes[0] == bytes[1] == 0
    ensures 62 * Value(256, bytes) + 62 <= Pow(256, |bytes| - 1)
  {
    var n := |bytes| - 2;
    assert bytes == Zeros(2) + bytes[2..];
    LeadingZeros(256, 2, bytes[2..]);
    ValueBound(256, bytes[2..]);
    PowPositive(256, n);
    assert Pow(256, n + 1) == 256 * Pow(256, n);
  }

  lemma LeadShrinks(was: nat, now: nat, p: nat, wasValue: nat, nowValue: nat, rem: nat)
    requires 0 < was && 0 < p && wasValue == 62 * nowValue + rem
    requires wasValue < (was + 1) * p && now * p <= nowValue
    ensures now < was
  {
    if was <= now {
      MulMonotonic(was, now, p);
      MulMonotonic(1, was, p);
      assert false;
    }
  }

  lemma Between(d: nat, p: nat, v: nat)
    requires v < p
    ensures d * p <= d * p + v < (d + 1) * p
  {
  }

  lemma LeadingByteBounds(bytes: seq<byte>)
    requires bytes != []
    ensures var p := Pow(256, |bytes| - 1);
      bytes[0] * p <= Value(256, bytes) < (bytes[0] + 1) * p
  {
    assert bytes == [bytes[0]] + bytes[1..];
    ValueConcat(256, [bytes[0]], bytes[1..]);
    ValueBound(256, bytes[1..]);
    assert Value(256, [bytes[0]]) == bytes[0];
    Between(bytes[0], Pow(256, |bytes| - 1), Value(256, bytes[1..]));
  }

  // ---- The loop over passes ------------------------------------------------

  function LeadingZeroCount(ds: seq<nat>): (n: nat)
    ensures n <= |ds|
    ensures forall i :: 0 <= i < n ==> ds[i] == 0
    ensures n < |ds| ==> ds[n] != 0
  {
    if ds == [] || ds[0] != 0 then 0 else 1 + LeadingZeroCount(ds[1..])
  }

  function Min(x: nat, y: nat): nat { if x < y then x else y }

  function Reverse(s: seq<byte>): (r: seq<byte>)
    ensures |r| == |s|
    ensures forall i :: 0 <= i < |s| ==> r[i] == s[|s| - 1 - i]
  {
    seq(|s|, i requires 0 <= i < |s| => s[|s| - 1 - i])
  }

  /** The state of `base62` after `k` passes over a digest of value `v`, in closed form:
      the buffer is `v / 62^k`, and the cursor is `min(k, leading zero bytes)`. */
  ghost predicate AfterPasses(v: nat, k: nat, buffer: seq<byte>, start: nat, out: seq<byte>) {
    && |buffer| == DIGEST_LEN
    && Value(256, buffer) == Quotient(62, v, k)
    && start == Min(k, LeadingZeroCount(buffer))
    && |out| == k
    && (forall i :: 0 <= i < k ==> out[i] == Letter(Quotient(62, v, i) % 62))
    // the loop has not run longer than the digits last
    && (DIGEST_LEN < k ==> Quotient(62, v, k - 1) != 0)
  }

  lemma ValueFromCursor(buffer: seq<byte>, start: nat)
    requires start <= LeadingZeroCount(buffer)
    ensures Value(256, buffer) == Value(256, buffer[start..])
  {
    assert buffer == Zeros(start) + buffer[start..];
    LeadingZeros(256, start, buffer[start..]);
  }

  /** The cursor follows the leading zero bytes, one step a pass. */
  lemma {:induction false} CursorAdvances(  // default induction on k only slows the proof
      k: nat, was: seq<byte>, start: nat, now: seq<byte>, rem: nat)
    requires start == Min(k, LeadingZeroCount(was)) < |was| == |now|
    requires now[..start] == was[..start]
    requires DividedBy62(was[start..], now[start..], rem)
    ensures start <= LeadingZeroCount(now)
    ensures (if now[start] == 0 then start + 1 else start) == Min(k + 1, LeadingZeroCount(now))
    ensures now[start] == 0 || now[start] < was[start]
  {
    assert forall i :: 0 <= i < start ==> now[i] == now[..start][i] == was[i] == 0;
    if was[start] != 0 {
      LeadingByteShrinks(was[start..], now[start..], rem);
      assert start + 1 < |now| ==> now[start..][1] == now[start + 1];
    } else {
      NoByteGrowsFromZero(was[start..], now[start..], rem);
    }
  }

  lemma NoByteGrowsFromZero(was: seq<byte>, now: seq<byte>, rem: nat)
    requires was != [] && was[0] == 0 && DividedBy62(was, now, rem)
    ensures now[0] == 0
  {
    LeadingByteBounds(was);
    LeadingByteBounds(now);
    if now[0] != 0 {
      MulMonotonic(1, now[0], Pow(256, |was| - 1));
      assert false;
    }
  }

  /** One turn of the outer loop, as a relation between states. */
  lemma PassAdvances(v: nat, k: nat, was: seq<byte>, start: nat, out: seq<byte>, now: seq<byte>, rem: nat)
    requires AfterPasses(v, k, was, start, out) && start < DIGEST_LEN
    requires |now| == |was| && now[..start] == was[..start]
    requires DividedBy62(was[start..], now[start..], rem)
    ensures AfterPasses(v, k + 1, now, if now[start] == 0 then start + 1 else start, out + [Letter(rem)])
    ensures now[start] == 0 || now[start] < was[start]
  {
    hide Letter;
    CursorAdvances(k, was, start, now, rem);
    ValueFromCursor(was, start);
    ValueFromCursor(now, start);
    DivModUnique(62, Value(256, now), rem);
    assert Quotient(62, v, k + 1) == Value(256, now) && Quotient(62, v, k) % 62 == rem;
    if DIGEST_LEN < k + 1 {
      NonZeroLead(was[start..]);
    }
  }

  lemma NonZeroLead(bytes: seq<byte>)
    requires bytes != [] && bytes[0] != 0
    ensures Value(256, bytes) != 0
  {
    LeadingByteBounds(bytes);
    PowPositive(256, |bytes| - 1);
    MulMonotonic(1, bytes[0], Pow(256, |bytes| - 1));
  }

  /** The loop stops after as many passes as the padded numeral has digits. */
  lemma PassCount(v: nat, k: nat)
    requires DIGEST_LEN <= k && Quotient(62, v, k) == 0
    requires DIGEST_LEN < k ==> Quotient(62, v, k - 1) != 0
    ensures Digits(62, v, k) == PaddedNumeral(v)
  {
    NumeralLongerThan(62, v, k);
    if DIGEST_LEN < k {
      NumeralLongerThan(62, v, k - 1);
    }
    DigitsArePaddedNumeral(62, v, k);
  }

  /** The final state holds exactly the padded numeral. */
  lemma FinalState(v: nat, k: nat, buffer: seq<byte>, out: seq<byte>)
    requires AfterPasses(v, k, buffer, DIGEST_LEN, out)
    ensures Reverse(out) == Letters(PaddedNumeral(v))
  {
    ValueFromCursor(buffer, DIGEST_LEN);
    PassCount(v, k);
    ReversedOutput(v, k, out);
  }

  lemma ReversedOutput(v: nat, k: nat, out: seq<byte>)
    requires |out| == k
    requires forall i :: 0 <= i < k ==> out[i] == Letter(Quotient(62, v, i) % 62)
    ensures Reverse(out) == Letters(Digits(62, v, k))
  {
    hide Letter;
    forall i | 0 <= i < k ensures Reverse(out)[i] == Letters(Digits(62, v, k))[i] {
      DigitFromRight(62, v, k, k - 1 - i);
    }
  }

  /** `base62`: repeated in-place division, with a cursor that moves at most one byte a pass. */
  method Base62(digest: Digest) returns (text: Str)
    ensures text == Encode(digest)
  {
    hide Letter, Value;
    ghost var v := Value(256, digest);
    var bytes := new byte[DIGEST_LEN](i requires 0 <= i < DIGEST_LEN => digest[i]);
    assert bytes[..] == digest;
    var out: seq<byte> := [];
    var start := 0;
    while start < bytes.Length
      invariant fresh(bytes)
      invariant AfterPasses(v, |out|, bytes[..], start, out)
      decreases DIGEST_LEN - start, if start < DIGEST_LEN then bytes[start] else 0
    {
      ghost var was := bytes[..];
      label pass:
      var rem := DivideInPlace(bytes, start);
      assert was[start..] == old@pass(bytes[start..]) && was[..start] == old@pass(bytes[..start]);
      assert bytes[..][start..] == bytes[start..] && bytes[..][..start] == bytes[..start];
      PassAdvances(v, |out|, was, start, out, bytes[..], rem);
      out := out + [Letter(rem)];
      if bytes[start] == 0 {
        start := start + 1;
      }
    }
    FinalState(v, |out|, bytes[..], out);
    assert Encode(digest) == Letters(PaddedNumeral(v));
    text := Reverse(out);
  }
}
