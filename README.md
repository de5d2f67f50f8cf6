# Signature normalisation of the swap multisig tests

The multisig wallet's tests sign each prepared transfer message with `web3.eth.sign` and pass the result through one piece of self-contained logic before calling `send`: `fixSignature`. It takes a hex-encoded 65-byte Ethereum ECDSA signature. The text is `0x`, 64 hex digits of `r`, 64 of `s` and 2 of the recovery byte `v`, 132 characters in all. Some providers write `v` as 0 or 1. On-chain recovery expects 27 or 28 (Ethereum Yellow Paper, Appendix F). So `fixSignature` parses `v`, adds 27 when it is below 27, writes it back in lowercase hex and appends it to the first 130 characters.

This project models that function and proves what it guarantees. There are two modules:

- `Hex` (`hex.dfy`) models the two JavaScript built-ins the function relies on. `ParseHex` is `parseInt(_, 16)` on a non-empty string of at most 13 hex digits, accepting either case. `ToHexLower` is `Number.prototype.toString(16)` on a non-negative safe integer (below 2^53): lowercase digits with no leading zero. The function itself only parses two digits and formats values below 256. Their partner lemmas prove the round trip in both directions: numbers to text and back, and canonical text to numbers and back.
- `Signature` (`signature.dfy`) is `FixSignature` with the lemmas about it. It keeps `r` and `s`. The recovery byte it writes is at least 27. Inputs 0 and 1 become `1b` and `1c`. Anything past the 132nd character is dropped. It is idempotent. Its fixed points are exactly the 132-character signatures whose `v` is at least 27 and written in lowercase. Two signatures normalise to the same text exactly when their `r`/`s` agree and their recovery bytes normalise to the same value, so a recovery byte `v` below 27 and `v + 27` count as one recovery identifier.

JavaScript strings become `seq<char>`. The model's precondition `WellFormed` requires at least 132 characters, with characters 130 and 131 being hex digits. Every signature a provider returns meets it.

## Model

| member | source | states |
|---|---|---|
| Hex.DigitValue | test/multisig.test.js:9 | a digit `parseInt` accepts in radix 16 (either case) is worth less than 16, and below 10 exactly for `0`-`9` |
| Hex.DigitChar | test/multisig.test.js:13 | the digit `toString(16)` writes for a value below 16 is a lowercase hex digit and reads back as that value |
| Hex.DigitValueIgnoresCase | test/multisig.test.js:9 | an upper-case digit `A`-`F` is worth the same as its lower-case form |
| Hex.ParseHex | test/multisig.test.js:9 | the value of an all-hex-digit string (what `parseInt(s, 16)` gives for 1 to 13 digits) is below 16 to the power of its length |
| Hex.ParseHexTwoDigits | test/multisig.test.js:9 | a two-digit string is worth sixteen times its first digit plus its second |
| Hex.ToHexLower | test/multisig.test.js:13 | `n.toString(16)` of a safe integer is canonical (lowercase, no leading zero) and uses exactly as many digits as `n` needs: `16^(len-1) <= n < 16^len` |
| Hex.ParseToHexLower | test/multisig.test.js:9-13 | parsing what `toString(16)` wrote returns the number, for every natural number |
| Hex.ToHexLowerOfParse | test/multisig.test.js:9-13 | writing the value of a canonical hex string gives the same string back |
| Hex.ToHexLowerTwoDigits | test/multisig.test.js:13 | `toString(16)` writes exactly two digits if and only if the value is between 16 and 255 |
| Hex.ToHexLowerInjective | test/multisig.test.js:13 | two numbers have the same hex text if and only if they are equal |
| Signature.RsPart | test/multisig.test.js:14 | `signature.slice(0, 130)` has 130 characters and is a prefix of the signature |
| Signature.NormalRecoveryByte | test/multisig.test.js:10-12 | `if (v < 27) { v += 27; }` gives at least 27, differs from `v` by 0 or 27, leaves 27 and above unchanged and keeps a byte a byte |
| Signature.RecoveryByte | test/multisig.test.js:9 | `parseInt(signature.slice(130, 132), 16)` is a byte value, below 256 |
| Signature.FixSignature | test/multisig.test.js:8-15 | the output has 132 characters and the input's first 130 characters. Its recovery byte is lowercase hex and at least 27. It is `v + 27` when the input's `v` is below 27 and `v` otherwise |
| Signature.FixSignatureDropsTail | test/multisig.test.js:14 | characters after the 132nd do not affect the result |
| Signature.FixSignatureRecoveryIds | test/multisig.test.js:10-13 | recovery bytes 0 and 27 both end the output in `1b`; 1 and 28 both end it in `1c` |
| Signature.FixSignatureSameResult | test/multisig.test.js:8-15 | two signatures normalise to the same text if and only if their first 130 characters agree and their recovery bytes normalise to the same value |
| Signature.FixSignatureFixedPoints | test/multisig.test.js:8-15 | a signature is left unchanged if and only if it has exactly 132 characters and its recovery byte is at least 27, written in lowercase |
| Signature.FixSignatureIdempotent | test/multisig.test.js:8-15 | normalising an already normalised signature changes nothing |

## Left out

- FixSignature: no model of JavaScript's behaviour on malformed input. For a string shorter than 132 characters, or one whose characters 130-131 are not two hex digits, `parseInt` may skip leading whitespace, read a sign or a single digit, or return `NaN`. The output would then end in, for example, `"NaN"`. The `WellFormed` precondition excludes these inputs; every signature from `web3.eth.sign` meets it.
- Hex.ParseHex: gives 0 for the empty string, where `parseInt` gives `NaN`, and is exact for any length, where JavaScript rounds values of more than 13 hex digits to the nearest double. `fixSignature` parses exactly two digits, so neither difference reaches it.
- Hex.ToHexLower: is exact for every natural number; JavaScript numbers are exact only below 2^53. `fixSignature` formats values below 256.
- Strings are modelled as sequences of Dafny characters, not UTF-16 code units. `WellFormed` places no limit on characters 0-129, and a character outside the Basic Multilingual Plane there takes two UTF-16 units in JavaScript, which shifts the positions `slice` reads. The model agrees with JavaScript whenever the first 132 characters each take one UTF-16 unit (Basic Multilingual Plane characters), as every character of a hex signature does.
- `sign` (test/multisig.test.js:17-20) wraps a foreign, asynchronous provider call (`web3.eth.sign`). Only its use of `fixSignature` is modelled.
- The test scenarios (test/multisig.test.js:22-175) drive the Solidity contracts `Token`, `Multisig` and `MultisigFactory` through deployed artifacts: `create`, `prepare`, `send`, `getOwners`, `getToken` and token transfers. The contracts' source is not part of this model. Their quorum, nonce and factory logic is therefore not modelled.
- The duplicate-signature attempt (test/multisig.test.js:159-164) only logs a message in its `catch`, so it states no checked property.
- scripts/deploy.js is deployment plumbing: contract instantiation, console output and process exit. It names `MultisigFabric` where the tests use `MultisigFactory`.
