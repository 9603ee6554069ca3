/** Visitor-id generation (src/strategy.rs): mask, frame, hash, base 62. */
module Strategy {
  import opened Words
  import opened PlaceValue
  import opened Base62Encoding
  import Base62Decoding
  import opened Framing
  import opened Ip
  import opened Salt
  import opened Events
  import opened Visitor

  /** Any deterministic function onto 32-byte digests; nothing says it is injective. */
  type Hasher = seq<byte> -> Digest

  // ---- Address octets ------------------------------------------------------

  /** The network-order octets of an address. */
  function Octets(ip: IpAddr): (r: Bytes)
    ensures |r| == if ip.V4? then 4 else 16
  {
    match ip
    case V4(a) => Digits(256, a, 4)
    case V6(a) => Digits(256, a, 16)
  }

  /** `ip_octets`: writes the octets at the front of the buffer and leaves the rest alone. */
  method IpOctets(ip: IpAddr, buf: array<byte>) returns (n: nat)
    requires buf.Length == 16
    modifies buf
    ensures n <= buf.Length && buf[..n] == Octets(ip)
    ensures buf[n..] == old(buf[n..])
  {
    var octets := Octets(ip);
    n := |octets|;
    forall i | 0 <= i < n {
      buf[i] := octets[i];
    }
  }

  lemma U128Powers()
    ensures Pow(256, 4) == 0x1_0000_0000
    ensures Pow(256, 16) == 0x1_0000_0000_0000_0000_0000_0000_0000_0000
  {
    PowDouble(256, 4, 0x1_0000_0000);
    PowDouble(256, 8, 0x1_0000_0000_0000_0000);
  }

  /** Octet `i` is the `i`-th byte of the word from the left. */
  lemma OctetsAreBigEndian(a: u32, b: u128, i: nat)
    ensures i < 4 ==> 0 < Pow(256, 3 - i) && Octets(V4(a))[i] == a / Pow(256, 3 - i) % 256
    ensures i < 16 ==> 0 < Pow(256, 15 - i) && Octets(V6(b))[i] == b / Pow(256, 15 - i) % 256
  {
    if i < 4 {
      DigitFromRight(256, a, 4, 3 - i);
      QuotientIsDivision(256, a, 3 - i);
    }
    if i < 16 {
      DigitFromRight(256, b, 16, 15 - i);
      QuotientIsDivision(256, b, 15 - i);
    }
  }

  /** Octets identify the address, across both families. */
  lemma OctetsInjective(a: IpAddr, b: IpAddr)
    ensures Octets(a) == Octets(b) <==> a == b
  {
    U128Powers();
    match (a, b)
    case (V4(x), V4(y)) => ValueOfDigits(256, x, 4); ValueOfDigits(256, y, 4);
    case (V6(x), V6(y)) => ValueOfDigits(256, x, 16); ValueOfDigits(256, y, 16);
    case _ => assert |Octets(a)| != |Octets(b)|;
  }

  /** The octets of an IPv4-mapped address: ten zeros, two 0xFF, and the IPv4 octets
      (section 2.5.5.2 of RFC 4291). */
  function MappedOctets(v4: u32): (r: seq<byte>)
    ensures |r| == 16
  {
    Zeros(10) + [0xFF, 0xFF] + Octets(V4(v4))
  }

  lemma ValueOfMappedOctets(v4: u32)
    ensures Value(256, MappedOctets(v4)) == 0xFFFF_0000_0000 + v4
  {
    var tail: seq<nat> := Digits(256, v4, 4);
    PowDouble(256, 2, 0x1_0000);
    ValueOfDigits(256, v4, 4);
    ValueConcat(256, [0xFF, 0xFF], tail);
    ValueAppend(256, [0xFF], 0xFF);
    ValueAppend(256, [], 0xFF);
    assert [0xFF] + [0xFF] == [0xFF, 0xFF] && [] + [0xFF] == [0xFF];
    LeadingZeros(256, 10, [0xFF, 0xFF] + tail);
    assert MappedOctets(v4) == Zeros(10) + ([0xFF, 0xFF] + tail);
  }

  /** Normalisation is the standard's: an IPv6 address becomes the IPv4 address `v4`
      exactly when its octets are the mapped form of `v4`. */
  lemma MappedByOctets(a: u128, v4: u32)
    ensures Canonical(V6(a)) == V4(v4) <==> Octets(V6(a)) == MappedOctets(v4)
  {
    MappedIsSum(a, v4);
    ValueOfMappedOctets(v4);
    U128Powers();
    ValueOfDigits(256, a, 16);
    DigitsOfValue(256, MappedOctets(v4));
    hide Value, Pow, MappedOctets, Canonical;
  }

  lemma MappedIsSum(a: u128, v4: u32)
    ensures Canonical(V6(a)) == V4(v4) <==> a == 0xFFFF_0000_0000 + v4
  {
  }

  // ---- What an id is a function of -----------------------------------------

  /** All that an id depends on. A missing entity or user agent counts as an empty one. */
  datatype Key = Key(entity: Str, ip: IpAddr, ua: Str, salt: Bytes)

  function KeyOf(raw: RawEvent, mask: IpMaskMode, salt: Bytes): Key
    requires raw.ip.Some?
  {
    Key(raw.entityId.UnwrapOr([]), MaskIp(raw.ip.value, mask), raw.userAgent.UnwrapOr([]), salt)
  }

  function FrameKey(k: Key): seq<byte> {
    Frame([k.entity, Octets(k.ip), k.ua, k.salt])
  }

  function IdOfKey(h: Hasher, k: Key): VisitorId {
    NewUnchecked(Encode(h(FrameKey(k))))
  }

  /** The specification of `compute`, for the salt that was current. */
  function VisitorIdOf(h: Hasher, salt: Bytes, raw: RawEvent, mask: IpMaskMode): Option<VisitorId> {
    if raw.ip.None? then None else Some(IdOfKey(h, KeyOf(raw, mask, salt)))
  }

  // ---- What is hashed --------------------------------------------------------

  /** `id` is the text of the hash of bytes that parse to exactly these parts. */
  ghost predicate HashesParts(h: Hasher, id: Option<VisitorId>, parts: seq<Bytes>) {
    exists framed :: Unframe(framed) == Some(parts) && id == Some(VisitorId(Encode(h(framed))))
  }

  /** The hashed bytes read back as entity, masked octets, user agent and salt, in this order. */
  lemma HashedBytes(h: Hasher, salt: Bytes, raw: RawEvent, mask: IpMaskMode)
    ensures raw.ip.None? ==> VisitorIdOf(h, salt, raw, mask) == None
    ensures raw.ip.Some? ==>
      HashesParts(h, VisitorIdOf(h, salt, raw, mask),
                  [raw.entityId.UnwrapOr([]), Octets(MaskIp(raw.ip.value, mask)), raw.userAgent.UnwrapOr([]), salt])
  {
    if raw.ip.Some? {
      var parts: seq<Bytes> :=
        [raw.entityId.UnwrapOr([]), Octets(MaskIp(raw.ip.value, mask)), raw.userAgent.UnwrapOr([]), salt];
      UnframeFrame(parts);
      assert VisitorIdOf(h, salt, raw, mask) == Some(VisitorId(Encode(h(Frame(parts)))));
    }
  }

  /** `compute`. */
  method Compute(h: Hasher, s: SaltProvider, raw: RawEvent, mask: IpMaskMode) returns (id: Option<VisitorId>)
    ensures id == VisitorIdOf(h, s.CurrentSalt(), raw, mask)
    ensures id.Some? <==> raw.ip.Some?
    ensures raw.ip.Some? ==>
      HashesParts(h, id, [raw.entityId.UnwrapOr([]), Octets(MaskIp(raw.ip.value, mask)),
                          raw.userAgent.UnwrapOr([]), s.CurrentSalt()])
  {
    HashedBytes(h, s.CurrentSalt(), raw, mask);
    if raw.ip.None? {
      return None;
    }
    var ip := MaskIp(raw.ip.value, mask);
    var buf := new byte[16](_ => 0);
    var n := IpOctets(ip, buf);
    var octets := buf[..n];
    var salt := s.CurrentSalt();
    var entity := raw.entityId.UnwrapOr([]);
    var ua := raw.userAgent.UnwrapOr([]);
    var framed := FrameParts([entity, octets, ua, salt]);
    var text := Base62(h(framed));
    id := Some(NewUnchecked(text));
  }

  // ---- Ids identify their keys ---------------------------------------------

  lemma FrameKeyInjective(k1: Key, k2: Key)
    ensures FrameKey(k1) == FrameKey(k2) <==> k1 == k2
  {
    var p1: seq<Bytes> := [k1.entity, Octets(k1.ip), k1.ua, k1.salt];
    var p2: seq<Bytes> := [k2.entity, Octets(k2.ip), k2.ua, k2.salt];
    FrameInjective(p1, p2);
    OctetsInjective(k1.ip, k2.ip);
    assert p1 == p2 ==> p1[0] == p2[0] && p1[1] == p2[1] && p1[2] == p2[2] && p1[3] == p2[3];
  }

  /** Two different inputs with one digest. */
  predicate Collision(h: Hasher, x: seq<byte>, y: seq<byte>) {
    x != y && h(x) == h(y)
  }

  /** Two ids are equal exactly when their keys are, or the two framed keys collide. */
  lemma IdsIdentifyKeys(h: Hasher, k1: Key, k2: Key)
    ensures IdOfKey(h, k1) == IdOfKey(h, k2) <==> k1 == k2 || Collision(h, FrameKey(k1), FrameKey(k2))
  {
    FrameKeyInjective(k1, k2);
    Base62Decoding.EncodeInjective(h(FrameKey(k1)), h(FrameKey(k2)));
  }

  /** The README's "stable per (masked-ip, ua, entity)", as an if-and-only-if over whole events. */
  lemma {:induction false} StablePerMaskedIpUaEntity(  // default induction on the events only slows the proof
      h: Hasher, salt: Bytes, mask: IpMaskMode, a: RawEvent, b: RawEvent)
    requires a.ip.Some? && b.ip.Some?
    ensures VisitorIdOf(h, salt, a, mask) == VisitorIdOf(h, salt, b, mask) <==>
      (&& SameMaskClass(a.ip.value, b.ip.value, mask)
       && a.userAgent.UnwrapOr([]) == b.userAgent.UnwrapOr([])
       && a.entityId.UnwrapOr([]) == b.entityId.UnwrapOr([]))
      || Collision(h, FrameKey(KeyOf(a, mask, salt)), FrameKey(KeyOf(b, mask, salt)))
  {
    IdsIdentifyKeys(h, KeyOf(a, mask, salt), KeyOf(b, mask, salt));
    SameMaskIffSameClass(a.ip.value, b.ip.value, mask);
  }

  // ---- Ids are well formed -------------------------------------------------

  /** `new_unchecked` is justified: the validating constructor accepts every generated id. */
  lemma GeneratedIdAccepted(h: Hasher, k: Key)
    ensures Accepted(IdOfKey(h, k))
    ensures Deserialize(Serialize(IdOfKey(h, k))) == Ok(IdOfKey(h, k))
  {
    var text := Encode(h(FrameKey(k)));
    Base62Decoding.EncodedIsCanonical(h(FrameKey(k)));
    assert forall i :: 0 <= i < |text| ==> Base62Decoding.IsLetter(text[i]);
    WireRoundTrip(IdOfKey(h, k));
  }

  // ---- The two strategies --------------------------------------------------

  /** The built-in strategies with the salt of the moment, and any other deterministic one. Outside the
      library a `VisitorId` can only come from the validating constructor, so another strategy is a function
      to strings that go through it. */
  datatype VisitorIdStrategy =
    | SaltedHasher(hasher: Hasher, salt: Bytes)
    | MaskedHashed(hasher: Hasher, salt: Bytes, mask: IpMaskMode)
    | OtherStrategy(f: RawEvent -> Option<Str>)
  {
    function Id(raw: RawEvent): Option<VisitorId> {
      match this
      case SaltedHasher(h, s) => VisitorIdOf(h, s, raw, Full)
      case MaskedHashed(h, s, m) => VisitorIdOf(h, s, raw, m)
      case OtherStrategy(f) =>
        match f(raw)
        case None => None
        case Some(text) => if New(text).Ok? then Some(New(text).value) else None
    }

    predicate BuiltIn() { !OtherStrategy? }

    /** The mask a built-in strategy applies. */
    function Mask(): IpMaskMode
      requires BuiltIn()
    {
      if MaskedHashed? then mask else Full
    }
  }

  /** `SaltedHasher` hashes the whole address, normalised but unmasked; `MaskedHashed` the masked one. */
  lemma StrategyHashes(h: Hasher, salt: Bytes, mask: IpMaskMode, raw: RawEvent)
    ensures raw.ip.None? ==> SaltedHasher(h, salt).Id(raw) == None && MaskedHashed(h, salt, mask).Id(raw) == None
    ensures raw.ip.Some? ==>
      HashesParts(h, SaltedHasher(h, salt).Id(raw),
                  [raw.entityId.UnwrapOr([]), Octets(Canonical(raw.ip.value)), raw.userAgent.UnwrapOr([]), salt])
    ensures raw.ip.Some? ==>
      HashesParts(h, MaskedHashed(h, salt, mask).Id(raw),
                  [raw.entityId.UnwrapOr([]), Octets(MaskIp(raw.ip.value, mask)), raw.userAgent.UnwrapOr([]), salt])
  {
    HashedBytes(h, salt, raw, mask);
    HashedBytes(h, salt, raw, Full);
    if raw.ip.Some? {
      FullPrecision(raw.ip.value);
      assert MaskIp(raw.ip.value, Full) == Canonical(raw.ip.value);
    }
  }

  lemma StrategyIdAccepted(s: VisitorIdStrategy, raw: RawEvent)
    ensures s.Id(raw).Some? ==> Accepted(s.Id(raw).value)
  {
    if s.BuiltIn() && raw.ip.Some? {
      GeneratedIdAccepted(s.hasher, KeyOf(raw, s.Mask(), s.salt));
    }
  }
}
