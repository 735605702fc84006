/**
 * The client-side signing helpers of the wallet test suite: `SignData`, which
 * authorises a relayer to submit `data` at position `nonce`, and `SignMsg`,
 * which signs a message directly. Keccak-256 and secp256k1 recoverable
 * signing are foreign primitives; they are parameters here, with only the
 * guarantee that Keccak-256 yields 32 bytes.
 */
module Signing {
  import opened Wrappers
  import opened Encoding

  /** A Keccak-256 digest: always 32 bytes. */
  type Hash = s: seq<byte> | |s| == 32 witness seq(32, _ => 0)

  /** The domain tag that opens every relay pre-image: ASCII "rlx:". */
  const RelayTag: seq<byte> := Ascii("rlx:")

  /** The personal-message prefix of EIP-191 (version 0x45): 0x19 then "Ethereum Signed Message:\n". */
  const EthPrefix: seq<byte> := [0x19] + Ascii("Ethereum Signed Message:\n")

  /** What `%d` of `len(hash)` prints for a Keccak-256 digest: ASCII "32". */
  const HashLengthText: seq<byte> := Ascii("32")

  const SignatureLength: nat := 65
  const RecoveryIdIndex: nat := 64
  const RecoveryIdOffset: byte := 27

  /**
   * The relay pre-image `"rlx:" ++ abi.U256(nonce) ++ data`: a 4-byte tag, the
   * nonce as 32 big-endian bytes modulo 2^256, then the payload unchanged.
   */
  function RelayMessage(nonce: int, data: seq<byte>): (m: seq<byte>)
    ensures |m| == |RelayTag| + 32 + |data| == 36 + |data|
    ensures m[..4] == RelayTag
    ensures FromBigEndian(m[4..36]) == nonce % U256Modulus
    ensures m[36..] == data
  {
    var m := RelayTag + U256(nonce) + data;
    assert m[4..36] == U256(nonce);
    m
  }

  /**
   * The framing is unambiguous: two pre-images are equal exactly when their
   * nonces agree modulo 2^256 and their payloads are equal.
   */
  lemma RelayMessageInjective(n1: int, d1: seq<byte>, n2: int, d2: seq<byte>)
    ensures RelayMessage(n1, d1) == RelayMessage(n2, d2)
        <==> n1 % U256Modulus == n2 % U256Modulus && d1 == d2
  {
    var m1, m2 := RelayMessage(n1, d1), RelayMessage(n2, d2);
    U256Injective(n1, n2);
    if m1 == m2 {
      assert m1[4..36] == m2[4..36];
    }
  }

  /** With nonce 0 the pre-image is the tag, 32 zero bytes, then the payload. */
  lemma RelayMessageOfZeroNonce(data: seq<byte>)
    ensures RelayMessage(0, data) == RelayTag + seq(32, _ => 0) + data
  {
    ToBigEndianZero(32);
  }

  /**
   * The personal-message envelope of an inner hash `h`: the prefix, the decimal
   * length of `h`, then `h` itself, with no separators.
   */
  function EthMessage(h: seq<byte>): (m: seq<byte>)
    ensures |m| >= 27 + |h|
    ensures m[..26] == EthPrefix
    ensures m[26..|m| - |h|] == Decimal(|h|)
    ensures var digits := m[26..|m| - |h|];
      (forall i :: 0 <= i < |digits| ==> IsDigit(digits[i])) && ParseDecimal(digits) == |h|
    ensures m[|m| - |h|..] == h
  {
    assert |EthPrefix| == 26;
    var m := EthPrefix + Decimal(|h|) + h;
    assert m[26..|m| - |h|] == Decimal(|h|);
    ParseDecimalOfDecimal(|h|);
    m
  }

  /**
   * For a Keccak-256 digest the length is always printed as "32", so the
   * envelope is always 26 + 2 + 32 = 60 bytes.
   */
  lemma EthMessageOfHash(h: Hash)
    ensures EthMessage(h) == EthPrefix + HashLengthText + h
    ensures |EthMessage(h)| == 60
  {
    assert Decimal(32) == HashLengthText;
  }

  /** Wrapping loses nothing: the envelope determines the inner hash. */
  lemma EthMessageInjective(h1: Hash, h2: Hash)
    ensures EthMessage(h1) == EthMessage(h2) <==> h1 == h2
  {
    EthMessageOfHash(h1);
    EthMessageOfHash(h2);
    if EthMessage(h1) == EthMessage(h2) {
      assert h1 == EthMessage(h1)[28..];
    }
  }

  /** The digest `SignData` hands to the signer. */
  function RelayDigest(keccak: seq<byte> -> Hash, nonce: int, data: seq<byte>): Hash
  {
    keccak(EthMessage(keccak(RelayMessage(nonce, data))))
  }

  /**
   * The relay digest is the hash of the 60-byte envelope of the hash of the
   * 36 + |data| byte pre-image, and it depends on the nonce only modulo 2^256.
   */
  lemma RelayDigestShape(keccak: seq<byte> -> Hash, n1: int, n2: int, data: seq<byte>)
    ensures RelayDigest(keccak, n1, data)
         == keccak(EthPrefix + HashLengthText + keccak(RelayTag + U256(n1) + data))
    ensures n1 % U256Modulus == n2 % U256Modulus
        ==> RelayDigest(keccak, n1, data) == RelayDigest(keccak, n2, data)
  {
    EthMessageOfHash(keccak(RelayMessage(n1, data)));
    RelayMessageInjective(n1, data, n2, data);
  }

  /** The errors the helpers return: the signer's own, or "invalid sig len". */
  datatype SignError<E> = SignerFailed(cause: E) | InvalidSigLen

  /**
   * What the tail of `SignData` and `SignMsg` makes of the signer's answer:
   * a signer error is passed on with no signature; an answer of any length
   * but 65 is refused, neither truncated nor padded; otherwise the first 64
   * bytes are kept and the recovery byte is raised by 27 modulo 256.
   */
  ghost predicate Finishes<E>(signed: Result<seq<byte>, E>, r: Result<seq<byte>, SignError<E>>)
  {
    match signed
    case Failure(e) => r == Failure(SignerFailed(e))
    case Success(sig) =>
      if |sig| != SignatureLength then r == Failure(InvalidSigLen)
      else
        && r.Success?
        && |r.value| == SignatureLength
        && r.value[..RecoveryIdIndex] == sig[..RecoveryIdIndex]
        && r.value[RecoveryIdIndex] as int == (sig[RecoveryIdIndex] as int + 27) % 256
  }

  /**
   * A successful result is a 65-byte signature, and a raw recovery id of 0 or
   * 1 comes out as 27 or 28.
   */
  lemma FinishedSignature<E>(signed: Result<seq<byte>, E>, r: Result<seq<byte>, SignError<E>>)
    requires Finishes(signed, r)
    ensures r.Success? <==> signed.Success? && |signed.value| == SignatureLength
    ensures r.Success? ==> |r.value| == SignatureLength
    ensures r.Success? && signed.value[RecoveryIdIndex] in {0, 1}
        ==> r.value[RecoveryIdIndex] == signed.value[RecoveryIdIndex] + RecoveryIdOffset
    ensures r.Success? && signed.value[RecoveryIdIndex] in {0, 1}
        ==> r.value[RecoveryIdIndex] in {27, 28}
  {
  }

  /** The error check, length check and `sig[64] += 27` shared by both helpers. */
  method FinishSignature<E>(signed: Result<seq<byte>, E>) returns (r: Result<seq<byte>, SignError<E>>)
    ensures Finishes(signed, r)
  {
    if signed.Failure? {
      return Failure(SignerFailed(signed.error));
    }
    var sig := signed.value;
    if |sig| != SignatureLength {
      return Failure(InvalidSigLen);
    }
    sig := sig[RecoveryIdIndex := AddWrapping(sig[RecoveryIdIndex], RecoveryIdOffset)];
    return Success(sig);
  }

  /**
   * `SignData`: signs the relay digest of `(nonce, data)` with `key` and
   * post-processes the signer's answer.
   */
  method SignData<K, E>(keccak: seq<byte> -> Hash, sign: (Hash, K) -> Result<seq<byte>, E>,
                        nonce: int, data: seq<byte>, key: K)
    returns (r: Result<seq<byte>, SignError<E>>)
    ensures Finishes(sign(RelayDigest(keccak, nonce, data), key), r)
  {
    var relayMessage := RelayMessage(nonce, data);
    var hash := keccak(relayMessage);
    var ethMessage := EthMessage(hash);
    hash := keccak(ethMessage);
    var signed := sign(hash, key);
    r := FinishSignature(signed);
  }

  /**
   * `SignMsg`: signs the Keccak-256 hash of `msg` itself, with no relay
   * framing and no envelope, and post-processes the answer the same way.
   */
  method SignMsg<K, E>(keccak: seq<byte> -> Hash, sign: (Hash, K) -> Result<seq<byte>, E>,
                       msg: seq<byte>, key: K)
    returns (r: Result<seq<byte>, SignError<E>>)
    ensures Finishes(sign(keccak(msg), key), r)
  {
    var hash := keccak(msg);
    var signed := sign(hash, key);
    r := FinishSignature(signed);
  }
}
