/**
 Normalisation of a hex-encoded 65-byte Ethereum ECDSA signature, as the
 multisig tests apply it to what `web3.eth.sign` returns.

 The text is `0x`, then 64 hex digits of `r`, 64 of `s` and 2 of the recovery
 byte `v`: 132 characters. Some signers write `v` as 0 or 1; contracts that
 recover the signer on-chain expect 27 or 28 (Ethereum Yellow Paper, Appendix F).
 */
module Signature {
  import opened Hex

  /** Characters `0x` followed by `r` and `s`. */
  const RsLength := 130

  /** Characters of a full signature: `0x`, `r`, `s` and `v`. */
  const SignatureLength := 132

  /** Offset that turns a recovery identifier 0 or 1 into 27 or 28. */
  const RecoveryOffset := 27

  /** What the normalisation needs: the two `v` characters are present and are hex digits. */
  predicate WellFormed(sig: seq<char>) {
    |sig| >= SignatureLength && IsHexDigit(sig[RsLength]) && IsHexDigit(sig[RsLength + 1])
  }

  /** The signature without its recovery byte: `sig.slice(0, 130)`. */
  function RsPart(sig: seq<char>): (rs: seq<char>)
    requires |sig| >= RsLength
    ensures |rs| == RsLength
    ensures sig == rs + sig[RsLength..]
  {
    sig[..RsLength]
  }

  /** `parseInt(sig.slice(130, 132), 16)`. */
  function RecoveryByte(sig: seq<char>): (v: nat)
    requires WellFormed(sig)
    ensures v < 256
  {
    var digits := sig[RsLength..SignatureLength];
    assert AllHexDigits(digits);
    ParseHex(digits)
  }

  /**
   The recovery byte as the normalisation rewrites it: `if (v < 27) { v += 27; }`.
   The result is at least 27, differs from `v` by 0 or 27 and stays a byte;
   values of 27 and more are left alone, so a second application changes nothing.
   */
  function NormalRecoveryByte(v: nat): (r: nat)
    ensures r >= RecoveryOffset
    ensures r == v || r == v + RecoveryOffset
    ensures v >= RecoveryOffset ==> r == v
    ensures v < 256 ==> r < 256
  {
    if v < RecoveryOffset then v + RecoveryOffset else v
  }

  /**
   `fixSignature`: keep the first 130 characters, then write the recovery byte,
   raised by 27 when it is below 27, as lowercase hex.
   */
  function FixSignature(sig: seq<char>): (fixed: seq<char>)
    requires WellFormed(sig)
    ensures |fixed| == SignatureLength
    ensures RsPart(fixed) == RsPart(sig)
    ensures WellFormed(fixed)
    ensures IsLowerHexDigit(fixed[RsLength]) && IsLowerHexDigit(fixed[RsLength + 1])
    ensures RecoveryByte(fixed) >= RecoveryOffset
    ensures RecoveryByte(sig) < RecoveryOffset ==> RecoveryByte(fixed) == RecoveryByte(sig) + RecoveryOffset
    ensures RecoveryByte(sig) >= RecoveryOffset ==> RecoveryByte(fixed) == RecoveryByte(sig)
  {
    var v := NormalRecoveryByte(RecoveryByte(sig));
    var vHex := ToHexLower(v);
    ToHexLowerTwoDigits(v);
    ParseToHexLower(v);
    var fixed := RsPart(sig) + vHex;
    assert fixed[RsLength..SignatureLength] == vHex;
    fixed
  }

  /** Whatever follows the 132nd character has no effect on the result. */
  lemma FixSignatureDropsTail(sig: seq<char>)
    requires WellFormed(sig)
    ensures WellFormed(sig[..SignatureLength])
    ensures FixSignature(sig[..SignatureLength]) == FixSignature(sig)
  {
    var head := sig[..SignatureLength];
    assert RsPart(head) == RsPart(sig);
    assert head[RsLength..SignatureLength] == sig[RsLength..SignatureLength];
  }

  /** Recovery identifiers 0 and 1 become `1b` and `1c`; 27 and 28 are written the same way. */
  lemma FixSignatureRecoveryIds(sig: seq<char>)
    requires WellFormed(sig)
    ensures RecoveryByte(sig) in {0, 27} ==> FixSignature(sig)[RsLength..] == "1b"
    ensures RecoveryByte(sig) in {1, 28} ==> FixSignature(sig)[RsLength..] == "1c"
  {
    var fixed := FixSignature(sig);
    var v := RecoveryByte(fixed);
    if v == 27 || v == 28 {
      ToHexLowerOfParse(fixed[RsLength..]);
    }
  }

  /**
   The signatures a normalisation sends to the same text are exactly those with
   the same `r` and `s` and recovery bytes that normalise to the same value; in
   particular a recovery byte `v` below 27 and `v + 27` are treated as the
   same recovery identifier.
   */
  lemma FixSignatureSameResult(a: seq<char>, b: seq<char>)
    requires WellFormed(a) && WellFormed(b)
    ensures FixSignature(a) == FixSignature(b) <==>
      RsPart(a) == RsPart(b) && NormalRecoveryByte(RecoveryByte(a)) == NormalRecoveryByte(RecoveryByte(b))
  {
  }

  /**
   The signatures the normalisation leaves as they are: exactly 132 characters,
   with a recovery byte of at least 27 written in lowercase.
   */
  lemma FixSignatureFixedPoints(sig: seq<char>)
    requires WellFormed(sig)
    ensures FixSignature(sig) == sig <==>
      && |sig| == SignatureLength
      && IsLowerHexDigit(sig[RsLength]) && IsLowerHexDigit(sig[RsLength + 1])
      && RecoveryByte(sig) >= RecoveryOffset
  {
    if && |sig| == SignatureLength
       && IsLowerHexDigit(sig[RsLength]) && IsLowerHexDigit(sig[RsLength + 1])
       && RecoveryByte(sig) >= RecoveryOffset
    {
      var digits := sig[RsLength..];
      assert digits == sig[RsLength..SignatureLength];
      ParseHexTwoDigits(digits);
      ToHexLowerOfParse(digits);
      assert sig == RsPart(sig) + digits;
    }
  }

  /** Normalising twice is the same as normalising once. */
  lemma FixSignatureIdempotent(sig: seq<char>)
    requires WellFormed(sig)
    ensures WellFormed(FixSignature(sig))
    ensures FixSignature(FixSignature(sig)) == FixSignature(sig)
  {
  }
}
