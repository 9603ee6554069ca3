/** Salt providers (the second half of src/hash/mod.rs). */
module Salt {
  import opened Words

  const MIN_SALT_LEN := 16

  datatype SaltTooShort = SaltTooShort

  /** A hot-swappable salt: one cell that holds a whole salt at any time. */
  class ArcSwapSalt {
    var cell: Bytes

    /** `ArcSwapSalt::new`: takes any length; only the debug build asserts 16 bytes. */
    constructor (bytes: Bytes)
      ensures cell == bytes && Swappable(this).CurrentSalt() == bytes
    {
      cell := bytes;
    }

    /** `ArcSwapSalt::try_new`. */
    static method TryNew(bytes: Bytes) returns (r: Result<ArcSwapSalt, SaltTooShort>)
      ensures r.Ok? <==> 16 <= |bytes|
      ensures r.Ok? ==> fresh(r.value) && Swappable(r.value).CurrentSalt() == bytes
    {
      if |bytes| < MIN_SALT_LEN {
        return Err(SaltTooShort);
      }
      var salt := new ArcSwapSalt(bytes);
      return Ok(salt);
    }

    /** Replaces the salt; no length check. */
    method Set(bytes: Bytes)
      modifies this
      ensures Swappable(this).CurrentSalt() == bytes
    {
      cell := bytes;
    }
  }

  datatype SaltProvider = StaticSalt(bytes: Bytes) | Swappable(salt: ArcSwapSalt) {
    /** Each computation asks for the salt anew; a swappable one is read from its cell. */
    function CurrentSalt(): (r: Bytes)
      reads if Swappable? then {salt} else {}
      ensures Swappable? ==> r == salt.cell
    {
      match this
      case StaticSalt(b) => b
      case Swappable(s) => s.cell
    }
  }

  /** `StaticSalt::try_new`. */
  function TryStatic(bytes: Bytes): (r: Result<SaltProvider, SaltTooShort>)
    ensures r.Ok? <==> 16 <= |bytes|
    ensures r.Ok? ==> r.value.StaticSalt? && r.value.CurrentSalt() == bytes
  {
    if |bytes| < MIN_SALT_LEN then Err(SaltTooShort) else Ok(StaticSalt(bytes))
  }
}
