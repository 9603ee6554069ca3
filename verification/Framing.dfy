/** Length-prefixed concatenation (`frame` in src/hash/mod.rs) and the parser that undoes it. */
module Framing {
  import opened Words
  import opened PlaceValue

  const PREFIX_LEN := 8

  /** The `n` low-order bytes of `v`, least significant first. */
  function LittleEndian(v: nat, n: nat): (bs: seq<byte>)
    ensures |bs| == n
  {
    if n == 0 then [] else [v % 256] + LittleEndian(v / 256, n - 1)
  }

  function FromLittleEndian(bs: seq<byte>): nat {
    if bs == [] then 0 else bs[0] + 256 * FromLittleEndian(bs[1..])
  }

  function FramePart(part: Bytes): seq<byte> {
    LittleEndian(|part|, PREFIX_LEN) + part
  }

  /** The framed form of a part list, front to back. */
  function Frame(parts: seq<Bytes>): seq<byte> {
    if parts == [] then [] else FramePart(parts[0]) + Frame(parts[1..])
  }

  /** The capacity `frame` reserves before it writes. */
  function Capacity(parts: seq<Bytes>): nat {
    if parts == [] then 0 else PREFIX_LEN + |parts[0]| + Capacity(parts[1..])
  }

  /** Reads parts until the input is used up; fails on a cut prefix or a cut part. */
  function Unframe(bs: seq<byte>): Option<seq<Bytes>>
    decreases |bs|
  {
    if bs == [] then Some([])
    else if |bs| < PREFIX_LEN then None
    else
      var n := FromLittleEndian(bs[..PREFIX_LEN]);
      if |bs| - PREFIX_LEN < n then None
      else
        PrefixIsU64(bs[..PREFIX_LEN]);
        var part: Bytes := bs[PREFIX_LEN..PREFIX_LEN + n];
        match Unframe(bs[PREFIX_LEN + n..])
        case None => None
        case Some(parts) => Some([part] + parts)
  }

  // ---- Length prefixes -----------------------------------------------------

  lemma {:induction false} FromLittleEndianBound(bs: seq<byte>)
    ensures FromLittleEndian(bs) < Pow(256, |bs|)
  {
    if bs != [] {
      FromLittleEndianBound(bs[1..]);
    }
  }

  lemma PrefixIsU64(bs: seq<byte>)
    requires |bs| == PREFIX_LEN
    ensures FromLittleEndian(bs) <= U64_MAX
  {
    FromLittleEndianBound(bs);
    U64Powers();
  }

  lemma U64Powers()
    ensures Pow(256, PREFIX_LEN) == U64_MAX + 1
  {
    PowDouble(256, 4, 0x1_0000_0000);
  }

  lemma {:induction false} ReadWritten(v: nat, n: nat)
    requires v < Pow(256, n)
    ensures FromLittleEndian(LittleEndian(v, n)) == v
  {
    if n != 0 {
      QuotientFits(256, v, Pow(256, n - 1));
      ReadWritten(v / 256, n - 1);
      assert LittleEndian(v, n)[1..] == LittleEndian(v / 256, n - 1);
    }
  }

  lemma {:induction false} WriteRead(bs: seq<byte>)
    ensures LittleEndian(FromLittleEndian(bs), |bs|) == bs
  {
    if bs != [] {
      DivModUnique(256, FromLittleEndian(bs[1..]), bs[0]);
      WriteRead(bs[1..]);
    }
  }

  /** Byte `i` of a prefix has the weight `256^i`. */
  lemma {:induction false} LittleEndianAt(v: nat, n: nat, i: nat)
    requires i < n
    ensures 0 < Pow(256, i) && LittleEndian(v, n)[i] == v / Pow(256, i) % 256
  {
    PowPositive(256, i);
    if i != 0 {
      LittleEndianAt(v / 256, n - 1, i - 1);
      DivDiv(v, 256, Pow(256, i - 1));
    }
  }

  /** Each part is written as eight bytes of length, least significant first, and then itself. */
  lemma FrameLayout(part: Bytes, i: nat)
    ensures |Frame([part])| == 8 + |part| && Frame([part])[8..] == part
    ensures i < 8 ==> 0 < Pow(256, i) && Frame([part])[i] == |part| / Pow(256, i) % 256
  {
    assert Frame([part]) == FramePart(part);
    if i < 8 {
      LittleEndianAt(|part|, 8, i);
    }
  }

  // ---- The round trips -----------------------------------------------------

  /** Framing is uniquely decodable, for any number of parts. */
  lemma {:induction false} UnframeFrame(parts: seq<Bytes>)
    ensures Unframe(Frame(parts)) == Some(parts)
  {
    if parts != [] {
      var p, rest := parts[0], Frame(parts[1..]);
      var bs := Frame(parts);
      assert bs[..PREFIX_LEN] == LittleEndian(|p|, PREFIX_LEN);
      U64Powers();
      ReadWritten(|p|, PREFIX_LEN);
      assert bs[PREFIX_LEN..PREFIX_LEN + |p|] == p;
      assert bs[PREFIX_LEN + |p|..] == rest;
      UnframeFrame(parts[1..]);
      assert [p] + parts[1..] == parts;
    }
  }

  /** The parser accepts nothing else: what it reads frames back to its input. */
  lemma {:induction false} FrameUnframe(bs: seq<byte>)
    requires Unframe(bs).Some?
    ensures Frame(Unframe(bs).value) == bs
    decreases |bs|
  {
    if bs != [] {
      var n := FromLittleEndian(bs[..PREFIX_LEN]);
      WriteRead(bs[..PREFIX_LEN]);
      var rest := bs[PREFIX_LEN + n..];
      FrameUnframe(rest);
      var parts := Unframe(bs).value;
      assert parts[1..] == Unframe(rest).value;
      assert bs == bs[..PREFIX_LEN] + bs[PREFIX_LEN..PREFIX_LEN + n] + rest;
    }
  }

  /** `Unframe` succeeds exactly on the image of `Frame`. */
  lemma UnframeDomain(bs: seq<byte>)
    ensures Unframe(bs).Some? <==> exists parts :: Frame(parts) == bs
  {
    if Unframe(bs).Some? {
      FrameUnframe(bs);
    }
    forall parts | Frame(parts) == bs ensures Unframe(bs).Some? {
      UnframeFrame(parts);
    }
  }

  lemma FrameInjective(a: seq<Bytes>, b: seq<Bytes>)
    ensures Frame(a) == Frame(b) <==> a == b
  {
    UnframeFrame(a);
    UnframeFrame(b);
  }

  lemma {:induction false} FrameConcat(a: seq<Bytes>, b: seq<Bytes>)
    ensures Frame(a + b) == Frame(a) + Frame(b)
  {
    if a == [] {
      assert a + b == b;
    } else {
      assert (a + b)[1..] == a[1..] + b;
      FrameConcat(a[1..], b);
    }
  }

  lemma {:induction false} FrameLength(parts: seq<Bytes>)
    ensures |Frame(parts)| == Capacity(parts)
  {
    if parts != [] {
      FrameLength(parts[1..]);
    }
  }

  // ---- The loop ------------------------------------------------------------

  /** `frame`: appends prefix and part, part by part; the result fills exactly the reserved capacity. */
  method FrameParts(parts: seq<Bytes>) returns (out: seq<byte>)
    ensures out == Frame(parts)
    ensures |out| == Capacity(parts)
  {
    out := [];
    for i := 0 to |parts|
      invariant out == Frame(parts[..i])
    {
      FrameConcat(parts[..i], [parts[i]]);
      assert Frame([parts[i]]) == FramePart(parts[i]);
      assert parts[..i + 1] == parts[..i] + [parts[i]];
      out := out + LittleEndian(|parts[i]|, PREFIX_LEN);
      out := out + parts[i];
    }
    assert parts[..|parts|] == parts;
    FrameLength(parts);
  }
}
