# Wallet test-suite signing and receipt helpers, in Dafny

This project models the client-side helpers of the wallet contract's Go test
suite (`test/wallet/wallet_suite_test.go`):

- `SignData` builds a relay authorisation. The pre-image is the tag `"rlx:"`,
  then the nonce as a 32-byte big-endian `uint256` (go-ethereum's `abi.U256`,
  the nonce modulo 2^256), then the payload. It hashes this with Keccak-256,
  wraps the hash in the EIP-191 personal-message envelope
  (`"\x19Ethereum Signed Message:\n"`, the decimal length `"32"`, the hash),
  hashes again and signs the result.
- `SignMsg` signs the Keccak-256 hash of the message itself.
- Both refuse a signature whose length is not 65 ("invalid sig len") and
  add 27, with 8-bit wrap-around, to the recovery byte.
- `isSuccessful` and `isGasExhausted` decide from a receipt's status and gas
  used whether a transaction succeeded, and whether a failed one ran out of
  gas.

Keccak-256 and secp256k1 recoverable signing are foreign primitives. They are
parameters of the signing methods: `keccak: seq<byte> -> Hash`, where `Hash`
is the type of 32-byte strings, and `sign: (Hash, K) -> Result<seq<byte>, E>`.
The signer's answer may have any length, because the code checks it. The key
type `K` and the signer's error type `E` are type parameters. Bytes are a
`byte` newtype over 0..255, and the `+= 27` wrap-around is written out.

Files: `wrappers.dfy` (the `Result` type), `encoding.dfy` (big-endian
`uint256`, decimal formatting, ASCII), `signing.dfy` (`SignData`, `SignMsg`),
`receipts.dfy` (receipt classification).

Line 78 compares with strict equality. So a failed receipt that used more
gas than the limit is not exhausted, and `Receipts.FailureBoundaries` proves
that it reads as a revert.
The status is a 64-bit code: only go-ethereum's "successful" code 1 is a
success, and every other code is a failure.

## Model

| member | source | states |
|---|---|---|
| `Encoding.U256` | test/wallet/wallet_suite_test.go:44 | the nonce encoding is exactly 32 bytes and decodes big-endian to the nonce modulo 2^256 |
| `Encoding.FromToBigEndian` | test/wallet/wallet_suite_test.go:44 | decoding the big-endian encoding of any value the width can hold gives the value back |
| `Encoding.ToFromBigEndian` | test/wallet/wallet_suite_test.go:44 | every byte string is the big-endian encoding of its decoded value (the other direction of the round trip) |
| `Encoding.U256Injective` | test/wallet/wallet_suite_test.go:44 | two nonces have the same 32-byte encoding iff they agree modulo 2^256 |
| `Encoding.Decimal` | test/wallet/wallet_suite_test.go:46 | the `%d` text of a length is all ASCII digits, one digit exactly for values below 10, with no leading zero |
| `Encoding.ParseDecimalOfDecimal` | test/wallet/wallet_suite_test.go:46 | the `%d` digits of a length read back as that length |
| `Encoding.AddWrapping` | test/wallet/wallet_suite_test.go:55 | adding to a byte gives the plain sum below 256 and wraps by 256 at or above it |
| `Signing.RelayMessage` | test/wallet/wallet_suite_test.go:44 | the relay pre-image has length 36 + \|data\|: bytes 0..3 are `"rlx:"`, bytes 4..35 decode to the nonce modulo 2^256, the rest is the payload unchanged |
| `Signing.RelayMessageInjective` | test/wallet/wallet_suite_test.go:44 | two pre-images are equal iff their nonces agree modulo 2^256 and their payloads are equal |
| `Signing.RelayMessageOfZeroNonce` | test/wallet/wallet_suite_test.go:44 | with nonce 0 the pre-image is `"rlx:"`, 32 zero bytes, then the payload |
| `Signing.EthMessage` | test/wallet/wallet_suite_test.go:46 | the envelope is the 26-byte prefix, then exactly `Decimal` of the inner hash's length (digits that parse back to that length), then the inner hash |
| `Signing.EthMessageOfHash` | test/wallet/wallet_suite_test.go:45-47 | for a 32-byte Keccak digest the envelope is prefix ++ `"32"` ++ hash and has 60 bytes |
| `Signing.EthMessageInjective` | test/wallet/wallet_suite_test.go:46 | the envelope of a digest determines the digest |
| `Signing.RelayDigestShape` | test/wallet/wallet_suite_test.go:44-47 | covers `Signing.RelayDigest`, the digest `SignData` signs: it is Keccak of prefix ++ `"32"` ++ Keccak(`"rlx:"` ++ U256(nonce) ++ data), and nonces equal modulo 2^256 give the same digest |
| `Signing.FinishSignature` | test/wallet/wallet_suite_test.go:48-56 | a signer error is passed on with no signature; a signature of any length but 65 gives "invalid sig len"; otherwise bytes 0..63 are kept and byte 64 becomes (v + 27) mod 256 |
| `Signing.FinishedSignature` | test/wallet/wallet_suite_test.go:52-56 | a result is a signature iff the signer returned 65 bytes; it then has 65 bytes, and a raw recovery id of 0 or 1 becomes 27 or 28 |
| `Signing.SignData` | test/wallet/wallet_suite_test.go:43-57 | the signer is given exactly the relay digest of (nonce, data), and its answer is post-processed as `FinishSignature` states |
| `Signing.SignMsg` | test/wallet/wallet_suite_test.go:59-70 | the signer is given exactly Keccak(msg), with no framing and no envelope, and its answer is post-processed the same way |
| `Receipts.Classify` | test/wallet/wallet_suite_test.go:72-79 | exactly one outcome per receipt: success iff the status is "successful", gas exhausted iff `isGasExhausted` holds, revert iff failed with gas used different from the limit |
| `Receipts.SuccessDominates` | test/wallet/wallet_suite_test.go:140-144 | covers `Receipts.IsSuccessful` (`isSuccessful`) and the first branch of `Receipts.IsGasExhausted`: a receipt with status code 1 is successful and never gas-exhausted, whatever gas it used |
| `Receipts.FailureBoundaries` | test/wallet/wallet_suite_test.go:75-78 | covers `Receipts.IsGasExhausted` (`isGasExhausted`) on failure: any other status is not successful; such a receipt is exhausted iff gas used equals the limit, and below or above the limit it is a revert |

## Left out

- `ethCall` (lines 28-41) sends a call to the simulated backend. That is network and backend I/O.
- Fetching the receipt with `Backend.TransactionReceipt`, and the `Expect(err)` assertions in `isGasExhausted` and `isSuccessful`, are backend I/O and test-framework calls. Only the decision on a receipt already in hand is modelled.
- The internals of Keccak-256 and secp256k1 signing (`crypto.Keccak256`, `crypto.Sign`) are foreign library code. They are uninterpreted parameters. So properties that need them, such as recovering the signer's public key from a signature, are not stated.
- go-ethereum's `abi` package is not part of this model. `abi.U256` is modelled from the Solidity ABI's `uint256` encoding. The library reduces the caller's `*big.Int` in place (through `math.U256`, which masks it with 2^256 - 1), so after `SignData` the caller's nonce holds nonce mod 2^256. The model takes the nonce by value and does not capture that side effect.
- A nil nonce or a nil key makes the Go code panic (in `abi.U256` or `crypto.Sign`). The model's value types have no nil, so that case is not modelled.
- The Ginkgo and Gomega lifecycle (`init`, `TestWalletSuite`, the `BeforeEach` deployment, the `AfterEach` and `AfterSuite` coverage and gas reporting, lines 81-154) is test orchestration.
- The version and semver checks (lines 104-123) depend on a deployed contract and on an external library.
- `Signing.SignData` and `Signing.SignMsg`: the Go code changes the signer's own returned buffer in place (`sig[64] += 27`, lines 55 and 68). The shared model of that step, `Signing.FinishSignature`, updates a sequence value, so aliasing of that buffer is not captured. The signer allocates a fresh buffer, so nothing else can observe the difference.
