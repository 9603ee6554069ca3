/** The partner of `base62`: a Horner decoder, the round trips, and the exact set of texts. */
module Base62Decoding {
  import opened Words
  import opened PlaceValue
  import opened Base62Encoding

  predicate IsLetter(c: byte) {
    '0' as int <= c <= '9' as int || 'A' as int <= c <= 'Z' as int || 'a' as int <= c <= 'z' as int
  }

  function DigitOf(c: byte): (d: nat)
    requires IsLetter(c)
    ensures d < 62
  {
    if c <= '9' as int then c - '0' as int
    else if c <= 'Z' as int then c - 'A' as int + 10
    else c - 'a' as int + 36
  }

  function DigitsOf(text: seq<byte>): (ds: seq<nat>)
    requires forall i :: 0 <= i < |text| ==> IsLetter(text[i])
    ensures |ds| == |text| && IsNumeral(62, ds)
  {
    seq(|text|, i requires 0 <= i < |text| => DigitOf(text[i]))
  }

  /** Reads the text as a base-62 number and writes it as 32 big-endian bytes. */
  function Decode(text: seq<byte>): Option<Digest> {
    if exists i :: 0 <= i < |text| && !IsLetter(text[i]) then None
    else
      var v := Value(62, DigitsOf(text));
      if v < Pow(256, DIGEST_LEN) then Some(Digits(256, v, DIGEST_LEN)) else None
  }

  lemma LetterOfDigit(d: nat)
    requires d < 62
    ensures IsLetter(Letter(d)) && DigitOf(Letter(d)) == d
  {
    assert d < 10 ==> "0123456789"[d] == '0' + d as char;
    assert 10 <= d < 36 ==> "ABCDEFGHIJKLMNOPQRSTUVWXYZ"[d - 10] == 'A' + (d - 10) as char;
    assert 36 <= d ==> "abcdefghijklmnopqrstuvwxyz"[d - 36] == 'a' + (d - 36) as char;
  }

  lemma DigitOfLetter(c: byte)
    requires IsLetter(c)
    ensures Letter(DigitOf(c)) == c
  {
    LetterOfDigit(DigitOf(c));
  }

  lemma DigitsOfLetters(ds: seq<nat>)
    requires IsNumeral(62, ds)
    ensures forall i :: 0 <= i < |ds| ==> IsLetter(Letters(ds)[i])
    ensures DigitsOf(Letters(ds)) == ds
  {
    forall i | 0 <= i < |ds| ensures IsLetter(Letters(ds)[i]) && DigitOf(Letters(ds)[i]) == ds[i] {
      LetterOfDigit(ds[i]);
    }
  }

  lemma LettersOfDigits(text: seq<byte>)
    requires forall i :: 0 <= i < |text| ==> IsLetter(text[i])
    ensures Letters(DigitsOf(text)) == text
  {
    forall i | 0 <= i < |text| ensures Letters(DigitsOf(text))[i] == text[i] {
      DigitOfLetter(text[i]);
    }
  }

  lemma {:induction false} ValueOfNumeral(b: nat, v: nat)
    requires 2 <= b
    ensures Value(b, Numeral(b, v)) == v
    decreases v
  {
    if v != 0 {
      QuotientIsSmaller(b, v);
      ValueOfNumeral(b, v / b);
      ValueAppend(b, Numeral(b, v / b), v % b);
      DivMod(b, v);
    }
  }

  lemma ValueOfPaddedNumeral(v: nat)
    ensures Value(62, PaddedNumeral(v)) == v
  {
    ValueOfNumeral(62, v);
    var n := Numeral(62, v);
    if |n| < DIGEST_LEN {
      LeadingZeros(62, DIGEST_LEN - |n|, n);
    }
  }

  /** How long the text is, for every bound: it has at most `n >= 32` letters exactly below `62^n`. */
  lemma TextLength(digest: Digest, n: nat)
    requires DIGEST_LEN <= n
    ensures |Encode(digest)| <= n <==> Value(256, digest) < Pow(62, n)
  {
    var v := Value(256, digest);
    var k := |Numeral(62, v)|;
    if v < Pow(62, n) {
      NumeralLength(62, v, n);
    } else if k <= n {
      ValueOfNumeral(62, v);
      ValueBound(62, Numeral(62, v));
      PowMonotonic(62, k, n);
      assert false;
    }
  }

  /** No digest byte is lost: decoding gives the digest back. */
  lemma DecodeEncode(digest: Digest)
    ensures Decode(Encode(digest)) == Some(digest)
  {
    var v := Value(256, digest);
    DigestFits43(digest);
    DigitsOfLetters(PaddedNumeral(v));
    ValueOfPaddedNumeral(v);
    DigitsOfValue(256, digest);
  }

  lemma EncodeInjective(d1: Digest, d2: Digest)
    ensures Encode(d1) == Encode(d2) <==> d1 == d2
  {
    DecodeEncode(d1);
    DecodeEncode(d2);
  }

  /** A text that `base62` writes: 32 letters, or more with no leading '0', in range. */
  predicate Canonical(text: seq<byte>) {
    Decode(text).Some? &&
    DIGEST_LEN <= |text| &&
    (DIGEST_LEN < |text| ==> text[0] != '0' as int)
  }

  lemma FixedWidthIsPadded(b: nat, ds: seq<nat>)
    requires 2 <= b && IsNumeral(b, ds)
    ensures |Numeral(b, Value(b, ds))| <= |ds|
    ensures ds == Zeros(|ds| - |Numeral(b, Value(b, ds))|) + Numeral(b, Value(b, ds))
  {
    ValueBound(b, ds);
    NumeralLength(b, Value(b, ds), |ds|);
    DigitsOfValue(b, ds);
    DigitsArePaddedNumeral(b, Value(b, ds), |ds|);
  }

  lemma NoPadding(ds: seq<nat>, zeros: nat)
    ensures zeros == 0 ==> Zeros(zeros) + ds == ds
    ensures 0 < zeros ==> (Zeros(zeros) + ds)[0] == 0
  {
  }

  /** A numeral without a leading zero is the shortest one. */
  lemma NoLeadingZeroIsShortest(b: nat, ds: seq<nat>)
    requires 2 <= b && IsNumeral(b, ds) && ds != [] && ds[0] != 0
    ensures Numeral(b, Value(b, ds)) == ds
  {
    FixedWidthIsPadded(b, ds);
    NoPadding(Numeral(b, Value(b, ds)), |ds| - |Numeral(b, Value(b, ds))|);
  }

  lemma PaddedNumeralOfValue(ds: seq<nat>)
    requires IsNumeral(62, ds) && DIGEST_LEN <= |ds|
    requires DIGEST_LEN < |ds| ==> ds[0] != 0
    ensures PaddedNumeral(Value(62, ds)) == ds
  {
    if DIGEST_LEN < |ds| {
      NoLeadingZeroIsShortest(62, ds);
    } else {
      assert |ds| == DIGEST_LEN;
      FixedWidthIsPadded(62, ds);
    }
  }

  lemma EncodeDecode(text: seq<byte>)
    requires Canonical(text)
    ensures Encode(Decode(text).value) == text
  {
    var ds := DigitsOf(text);
    if DIGEST_LEN < |text| {
      DigitOfLetter(text[0]);
    }
    LettersOfDigits(text);
    PaddedNumeralOfValue(ds);
    ValueOfDigits(256, Value(62, ds), DIGEST_LEN);
  }

  /** The image of `base62` is exactly the canonical texts. */
  lemma ImageIsCanonical(text: seq<byte>)
    ensures (exists d: Digest :: Encode(d) == text) <==> Canonical(text)
  {
    if Canonical(text) {
      EncodeDecode(text);
    }
    forall d: Digest | Encode(d) == text ensures Canonical(text) {
      EncodedIsCanonical(d);
    }
  }

  lemma EncodedIsCanonical(digest: Digest)
    ensures Canonical(Encode(digest))
  {
    DecodeEncode(digest);
    var v := Value(256, digest);
    if DIGEST_LEN < |Numeral(62, v)| {
      LetterOfDigit(Numeral(62, v)[0]);
    }
  }
}
