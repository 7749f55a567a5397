# Verification of the agent key, its wire chain and the session monitor

A Dafny model of the parts of the system that compute, keep state or translate bytes, with proofs
about them. It follows the code's own form: limb arrays, handlers, polling loops and the volume table
are methods that update arrays and fields in place, and each is proved equal to a function whose
properties are then proved as lemmas. Pure byte builders and formulas are functions.

| part | modules | source |
|---|---|---|
| Ed25519 on the device | Field, Points, Scalar, Ed25519 (in place); FieldSpec, Edwards, Inverse, Completeness, Encoding, PointSpec, ScalarSpec, ScalarBytes, Sign, Rfc8032, Rejection (what they compute) | esp32/ssh_agent/src/ed25519.cpp |
| Key locking | FirmwareSpec, FirmwareAnswers, Firmware | esp32/ssh_agent/src/main.cpp |
| Wire chain | WireSpec, BridgeSpec, BridgeAnswers, SignChain, PromptCalls, EndToEnd, Wire | main.cpp, wrapper/esp32_agent_bridge.py, src/client/agent.go, src/manager/crypto.c |
| Session log | ServerSpec, Server | src/manager/server.c |
| Anomaly detector | SessionLog, Statistics, Tallies, DetectorSpec, DetectorFindings, DetectorLimits, Detector | src/ai/anomaly_detect.py |
| Volume table | VolumeSpec, VolumeTable | src/manager/volume.c |

Arith, Radix, Bits, Bytes, Words and Options hold the arithmetic, byte strings and small types that these share.
`dafny verify dfyconfig.toml` checks the whole project.

## Reading the main results

**Field.** `i64` is a range of the integers, so every store is checked for overflow; `>>` is floor division.
A point is *tight* when its limbs are in the range that a product leaves (limb 0 in -38..65573, the others in
0..65535). Addition of tight points is tight, so no operation of the ladder overflows.

**Group hypotheses.** `CurveField` says what section 5.1 of RFC 8032 says of the parameters: 2^255 - 19 is prime (as
Fermat's little theorem) and d is not a square. From it the completeness of the addition formulas is proved: their
denominators never vanish on the curve, and the encoding of a point determines it. `Realises(g, abs)` adds that an
associative operation with a unit is what the formulas compute on the points of the curve. `CurveField`, associativity
and the order of the base point are hypotheses.

**Reduction modulo L.** The file leaves out the carry pass that would follow the subtraction of `carry * L`
(ed25519.cpp:186-187). The limbs it ends with always hold the residue v. The 32 bytes do so if and only if the last
carry is 0 or each of the low 16 bytes of v is at least the byte of L in its place. `ModLByResidue` decides this
from v alone outside a window of 3/255 of 2^248 that lies below 2^252: below the window the bytes are right, above it
they are right exactly when the low bytes of v cover those of L, and from 2^252 on they are always wrong.

**Keys and signatures written out.** `Rfc8032` says what the bytes are without the model's own names: the secret scalar
is the first half of the seed's hash with its lowest three bits cleared and its top bits 01, the public key decodes by
section 5.1.3 of RFC 8032 to that multiple of the base point, and R decodes to the multiple by the reduced hash of the
second half and the message. The base point is packed as 58 and thirty-one times 66.

**Signatures.** For every seed and message, a verifier that decodes the key and R and checks section 5.1.7 of RFC 8032
accepts the signature if and only if S is (r + H·a) mod L for the full challenge hash H. In terms of the code's two
reductions: with both right it accepts, with exactly one wrong (of the challenge or of S) it rejects, and only if both
are wrong does that equation decide. The reduction of the nonce does not matter. For every message there are a hash
function and a seed whose signature is rejected. That a wrong challenge reduction matters uses that L is prime.

**Key locking.** `FirmwareAnswers` gives the new globals, the storage and the bytes sent for every packet and every
boot. From locked, a password unlocks the key if and only if the bytes it decrypts end with v bytes of value v, for
some v from 1 to 16; any other password leaves the key locked and its RAM cleared. A locked key is in RAM after a run
if and only if a key generation failed on it after drawing its seed (main.cpp:161-171) and no reboot, lock, unlock
attempt or further generation came later. A generation that fails on an unlocked key leaves it unlocked, so signatures
after it are under the seed it drew, which storage never held. A comment in `decryptSeed` asks for sixteen padding
bytes of 0x10, while the code accepts any padding value from 1 to 16; the model does what the code does.

**Wire chain.** Neither side of the serial line is cleared between requests, so the results are about whole sessions
that pass on the device, the bytes it has not read and the bytes it has sent. All calls of a session return their own
results if and only if every message has at most 4055 bytes. A message of 4056 to 4096 bytes leaves a failure on the
line to the bridge and a byte 0 on which the firmware waits for 5 seconds. The next call fails whatever it asks. What
follows depends on when it is made:

- after the 5 seconds, each short call from then on receives the answer to the one before it, which is right only if
  the two signatures are equal, as for a repeated message;
- within them, its packet is read one byte late. The first header announces too much, and the firmware goes on with the
  low byte of the packet's length and its payload. A List leaves it waiting again, so prompt Lists all fail, but after
  a wait the line is in step. A sign request is executed as packets, the first of them of type (|d| + 41) mod 256 and
  without data: a length of 219 modulo 256 locks an encrypted key, one of 216 has the device sign the empty challenge.

A message of 4097 to 65475 bytes is read as packets and executed as well, which can lock the device or replace its
key. In both cases the device can sign throughout exactly when the bytes hold no key generation and no lock of an
encrypted key, and it can sign afterwards exactly then or when an unlock among them has the last word, given that key
generations succeed. The Go client sends one byte of flags where the bridge looks for four, so the bridge sends on
flags 0. From a locked device, the Go client's SignChallenge asks for the password and signs if and only if what the
password decrypts is padded. With Ed25519 on the device, the manager accepts a signature that a session of short
messages returns exactly when the equation above holds for it.

**Detector.** Which findings a report lists is an equation: each daily count and each duration of the last 24 hours
that lies more than the threshold above the mean, in standard deviations, is listed once with its score, each connect
at an hour with less than 2% of the baseline connects is listed once, and nothing else is. Arithmetic is over exact
reals, and z-scores are compared by their squares with their signs. The last 24 hours are part of the baseline window,
so every recent reading is bounded by a baseline member. At threshold 2.5 neither z-test can fire with 8 or fewer
baseline values, nor exceed 4.5 with 22 or fewer, and there are logs that attain both limits. The score 4.0 for an
hour that was never seen cannot occur: an unusual hour always has z above 50, and the documented low and medium
severities never apply to it.

**Session log.** Each end of a session gives the time since the connect of the same user and container that is still
open, if that is positive, and no other row gives a duration. The detector reads the rows ordered by time. When the
clock does not go back, the rows of any run of visits pair up to one interval per session that ended later than it
started, in order, with nothing left pending. If the times of connects and ends increase strictly, this holds in
whatever order the database returns rows of the same second. When the clock is set back during a session, its connect
can pair with the end of a later visit (`BackwardClock`); there is still at most one duration per connect.

**Volume table.** Every run of operations on the table is a run of the same operations on a plain set of container ids.

## Model

| member | source | states |
|---|---|---|
| Field.Set25519 | esp32/ssh_agent/src/ed25519.cpp:29-31 | the target holds the source's limbs |
| Field.Car25519 | esp32/ssh_agent/src/ed25519.cpp:33-40 | in place, one carry pass of limbs below 2^62 is one `Carry`, with no overflow |
| FieldSpec.CarryValue | esp32/ssh_agent/src/ed25519.cpp:33-40 | a pass keeps the residue modulo p and folds the number at 2^256 |
| FieldSpec.CarryTwice | esp32/ssh_agent/src/ed25519.cpp:94-95 | two passes bring any limbs below 2^62 into the range of a product, same residue |
| FieldSpec.CarryThrice | esp32/ssh_agent/src/ed25519.cpp:54 | three passes leave sixteen plain 16-bit digits, same residue |
| Field.Sel25519 | esp32/ssh_agent/src/ed25519.cpp:42-49 | b = 1 swaps the two arrays, b = 0 leaves them |
| Field.MaskedSwap | esp32/ssh_agent/src/ed25519.cpp:43-47 | the masked xor on two's complement words is that swap |
| Field.TrialSubtract | esp32/ssh_agent/src/ed25519.cpp:56-63 | the limb loop computes t - p, and b is its borrow |
| FieldSpec.SubtractIfAboveValue | esp32/ssh_agent/src/ed25519.cpp:56-64 | one round leaves t - p when t >= p and t otherwise |
| FieldSpec.CanonicalValue | esp32/ssh_agent/src/ed25519.cpp:51-65 | after the two rounds the limbs are digits of n mod p, for every n with limbs below 2^62 |
| Field.Pack25519 | esp32/ssh_agent/src/ed25519.cpp:51-70 | the 32 bytes are the little-endian representative of n in [0, p) |
| Field.WriteBytes | esp32/ssh_agent/src/ed25519.cpp:66-69 | writing each limb as two bytes keeps the number |
| Field.Par25519 | esp32/ssh_agent/src/ed25519.cpp:72-76 | the low bit of the canonical representative |
| Field.AddGf | esp32/ssh_agent/src/ed25519.cpp:78-80 | limbwise sum of the old operands, also when the output is an operand |
| Field.SubGf | esp32/ssh_agent/src/ed25519.cpp:82-84 | limbwise difference of the old operands, also when the output is an operand |
| Field.Product | esp32/ssh_agent/src/ed25519.cpp:87-91 | the double loop yields the 31 product limbs without overflow |
| Field.FoldUpper | esp32/ssh_agent/src/ed25519.cpp:92 | the upper limbs are folded down times 38 without overflow |
| FieldSpec.ConvValue | esp32/ssh_agent/src/ed25519.cpp:89-91 | the product limbs hold the product of the two numbers |
| FieldSpec.FoldedBound | esp32/ssh_agent/src/ed25519.cpp:89-92 | operands below 2^26 keep every product limb and folded limb inside int64_t |
| FieldSpec.MulValue | esp32/ssh_agent/src/ed25519.cpp:86-96 | the result is a·b modulo p, limb 0 in -38..65573 and the others in 0..65535 |
| Field.M | esp32/ssh_agent/src/ed25519.cpp:86-96 | multiplication in place with those properties, for any overlap of output and operands |
| Field.S | esp32/ssh_agent/src/ed25519.cpp:98 | squaring |
| Inverse.ChainExpIsPMinus2 | esp32/ssh_agent/src/ed25519.cpp:103-106 | skipping the multiplications at 2 and 4 gives exactly the exponent p - 2 |
| Inverse.InvInverts | esp32/ssh_agent/src/ed25519.cpp:100-108 | under Fermat a^(p-2) is the inverse |
| Points.Inv25519 | esp32/ssh_agent/src/ed25519.cpp:100-108 | the loop computes a^(p-2) modulo p without overflow |
| Encoding.EncodeIsAffine | esp32/ssh_agent/src/ed25519.cpp:110-117 | what is written is the encoding of section 5.1.2 of RFC 8032 of the affine point represented |
| Encoding.EncodedPoint | esp32/ssh_agent/src/ed25519.cpp:110-117 | the low 255 bits are the affine y, bit 255 is the lowest bit of the affine x |
| Encoding.EncodeOfClass | esp32/ssh_agent/src/ed25519.cpp:110-117 | it depends only on the projective class of the point |
| Encoding.EncodeIsInjective | esp32/ssh_agent/src/ed25519.cpp:115-116 | two curve points with the same encoding are the same point |
| Encoding.DecodesUniquely | esp32/ssh_agent/src/ed25519.cpp:110-117 | by section 5.1.3 of RFC 8032 the bytes decode to the affine coordinates of the packed point and to nothing else |
| Points.PackPoint | esp32/ssh_agent/src/ed25519.cpp:110-117 | the bytes are that encoding: affine y in the low 255 bits, the parity of affine x in bit 255 |
| Points.CswapPts | esp32/ssh_agent/src/ed25519.cpp:119-121 | swaps all four coordinates or none |
| Edwards.CurveConstant | esp32/ssh_agent/src/ed25519.cpp:16-17 | D is -121665/121666 modulo p |
| PointSpec.LimbConstants | esp32/ssh_agent/src/ed25519.cpp:14-23 | the limb constants hold 0, 1, 2d (less p) and the base point's coordinates |
| Edwards.AddClosed | esp32/ssh_agent/src/ed25519.cpp:123-143 | the sum of two curve points satisfies T·Z = X·Y and Y² - X² = Z² + d·T² |
| Edwards.AddIsAffineSum | esp32/ssh_agent/src/ed25519.cpp:123-143 | and the cross-multiplied affine addition law |
| Completeness.NeverVanishes | esp32/ssh_agent/src/ed25519.cpp:123-143 | d·x1·x2·y1·y2 is never 1 or -1 on the curve |
| Completeness.AddHasDenominator | esp32/ssh_agent/src/ed25519.cpp:134-141 | the sum of two points has a nonzero Z |
| PointSpec.SumIsPoint | esp32/ssh_agent/src/ed25519.cpp:123-143 | the sum of two points is a point |
| PointSpec.AddSumsValue | esp32/ssh_agent/src/ed25519.cpp:125-138 | the sums e, f, g, h stay multipliable and mean the terms of section 5.1.4 of RFC 8032 |
| PointSpec.AddPointsRefines | esp32/ssh_agent/src/ed25519.cpp:123-143 | on tight limbs the addition is tight and equals RFC 8032's modulo p |
| Points.PointSums | esp32/ssh_agent/src/ed25519.cpp:125-138 | the scratch arrays receive exactly these sums, also when both points are the same |
| Points.AddPts | esp32/ssh_agent/src/ed25519.cpp:123-143 | addition in place, equal to the addition of copies, also with p = q |
| PointSpec.AddPointsInGroup | esp32/ssh_agent/src/ed25519.cpp:123-143 | on limb points it is the group operation and yields a point again |
| PointSpec.LadderTight | esp32/ssh_agent/src/ed25519.cpp:150-156 | every pair of points in the ladder is tight, for every scalar |
| PointSpec.LadderComputes | esp32/ssh_agent/src/ed25519.cpp:150-156 | after the bits from i up, p = [s >> i]Q and q = [(s >> i) + 1]Q |
| PointSpec.LadderIsScalarMultiple | esp32/ssh_agent/src/ed25519.cpp:145-157 | the ladder computes [s]Q for every byte string s |
| Points.LadderRound | esp32/ssh_agent/src/ed25519.cpp:151-155 | swap, add, aliased double and swap back in place are one ladder step |
| Points.ScalarMult | esp32/ssh_agent/src/ed25519.cpp:145-157 | the method leaves the ladder's result in p |
| PointSpec.BaseOnCurve | esp32/ssh_agent/src/ed25519.cpp:20-23 | the base point has y = 4/5 and lies on the curve |
| PointSpec.BaseMultipleIsMultiple | esp32/ssh_agent/src/ed25519.cpp:159-166 | the result represents [s]B |
| Points.ScalarBase | esp32/ssh_agent/src/ed25519.cpp:159-166 | the method leaves that result in p |
| ScalarSpec.RowValue | esp32/ssh_agent/src/ed25519.cpp:169-179 | row i subtracts exactly 16·x[i]·L·256^(i-32) |
| ScalarSpec.RowInRange | esp32/ssh_agent/src/ed25519.cpp:169-179 | each row keeps the limb ranges that exclude overflow |
| ScalarSpec.RowsCongruent | esp32/ssh_agent/src/ed25519.cpp:169-179 | the rows keep the residue modulo L |
| ScalarSpec.LastPass | esp32/ssh_agent/src/ed25519.cpp:180-185 | the last carry is 0 or -1, and -1 exactly when one L too many was taken off |
| ScalarSpec.FinalValue | esp32/ssh_agent/src/ed25519.cpp:168-186 | limbs plus carry·2^256 after line 186 are the input modulo L, in [0, L) |
| ScalarBytes.NoBorrow | esp32/ssh_agent/src/ed25519.cpp:186-187 | with carry 0 the bytes are the residue |
| ScalarBytes.ModLCorrectIff | esp32/ssh_agent/src/ed25519.cpp:168-188 | the bytes are the residue iff the carry is 0 or the residue's low bytes cover those of L |
| ScalarBytes.CarryByResidue | esp32/ssh_agent/src/ed25519.cpp:180-185 | the last carry from the residue alone, outside a narrow window |
| ScalarBytes.ModLByResidue | esp32/ssh_agent/src/ed25519.cpp:168-188 | right below the window, right iff the low bytes cover those of L above it, wrong from 2^252 on |
| ScalarBytes.TopResiduesCorrupted | esp32/ssh_agent/src/ed25519.cpp:182-187 | every input whose residue is 2^252 or more ends with carry -1 and wrong bytes |
| ScalarBytes.LMinusOneCorrupted | esp32/ssh_agent/src/ed25519.cpp:182-187 | L - 1 as a concrete input that comes out wrong |
| ScalarBytes.WrongIsOtherResidue | esp32/ssh_agent/src/ed25519.cpp:182-187 | bytes that are not the residue are not congruent to the input modulo L either |
| Scalar.ReduceRow | esp32/ssh_agent/src/ed25519.cpp:170-178 | the body of the outer loop in place is one row |
| Scalar.LastPassInPlace | esp32/ssh_agent/src/ed25519.cpp:180-185 | the last pass in place, reading x[31] until it changes itself |
| Scalar.ModL | esp32/ssh_agent/src/ed25519.cpp:168-188 | limbs and bytes after the call, for all limbs in 0..2081055; no overflow |
| Scalar.Reduce | esp32/ssh_agent/src/ed25519.cpp:190-195 | the 64 bytes become the 32 reduced bytes and 32 zeros |
| Sign.ClampValue | esp32/ssh_agent/src/ed25519.cpp:210-212 | bits 0 to 2 and 255 cleared, bit 254 set, every other bit that of the hash |
| Sign.SumReducible | esp32/ssh_agent/src/ed25519.cpp:259-263 | the limbs of r + h·a are within what modL accepts |
| Sign.SumValue | esp32/ssh_agent/src/ed25519.cpp:259-263 | they hold r + h·a |
| Sign.ScalarEquation | esp32/ssh_agent/src/ed25519.cpp:258-264 | S is (r + h·a) mod L and [S]B = [r]B + [h][a]B in any group with [L]B = 0 |
| Sign.OnlyResidueVerifies | esp32/ssh_agent/src/ed25519.cpp:258-264 | for R = [r]B and A = [a]B only S = (r + h·a) mod L satisfies section 5.1.7 of RFC 8032 |
| Sign.DecodesToMultiple | esp32/ssh_agent/src/ed25519.cpp:214-215 | what is packed for a scalar decodes to one point, the multiple of B |
| Sign.SignatureVerifiesIff | esp32/ssh_agent/src/ed25519.cpp:218-265 | a signature under the seed's own key is accepted iff S is (r + H·a) mod L; after a right challenge reduction, iff S was reduced right |
| Rfc8032.SecretIs | esp32/ssh_agent/src/ed25519.cpp:209-212 | the secret scalar as a number, from the first half of the seed's hash |
| Rfc8032.PublicKeyIs | esp32/ssh_agent/src/ed25519.cpp:209-215 | the public key decodes to one point, that multiple of the base point |
| Rfc8032.FirstHalfIs | esp32/ssh_agent/src/ed25519.cpp:230-242 | R decodes to the multiple of the base point by the reduced hash of the seed hash's second half and the message |
| Rfc8032.SecondHalfIs | esp32/ssh_agent/src/ed25519.cpp:244-264 | S is (r + k·a) mod L for these numbers when that is at most L - 2^248, and never when it is 2^252 or more |
| Rfc8032.BaseIsPacked | esp32/ssh_agent/src/ed25519.cpp:110-117 | every representation of the base point is packed as 58 and thirty-one times 66 |
| Rfc8032.BaseIsDecoded | esp32/ssh_agent/src/ed25519.cpp:20-23 | the constants are one, and those bytes decode to nothing else |
| Rejection.SecretNotMultiple | esp32/ssh_agent/src/ed25519.cpp:210-212 | the clamped secret is never a multiple of L |
| Rejection.SignatureVerdict | esp32/ssh_agent/src/ed25519.cpp:218-265 | accepted when both reductions are right, rejected when exactly one is wrong, decided by the equation when both are |
| Rejection.RejectedSignature | esp32/ssh_agent/src/ed25519.cpp:218-265 | for every message a hash function and a seed whose signature is rejected |
| Ed25519.FillSeed | esp32/ssh_agent/src/ed25519.cpp:201-207 | each random word fills four seed bytes, low byte first |
| Ed25519.Keypair | esp32/ssh_agent/src/ed25519.cpp:197-216 | the public key encodes the clamped multiple of the seed that was drawn |
| Ed25519.Accumulate | esp32/ssh_agent/src/ed25519.cpp:259-263 | the loops yield the limbs of r + h·a |
| Ed25519.SignMessage | esp32/ssh_agent/src/ed25519.cpp:218-265 | the 64 bytes are the R and S that the properties above are about |
| FirmwareSpec.PadUnpad | esp32/ssh_agent/src/main.cpp:75-78 | what encryption pads, decryption accepts and strips |
| FirmwareAnswers.UnpadIff | esp32/ssh_agent/src/main.cpp:119-131 | accepted are exactly 48 bytes that end with v bytes of value v, 1 to 16 |
| FirmwareAnswers.UnlockAnswered | esp32/ssh_agent/src/main.cpp:418-440 | from locked a password unlocks iff what it decrypts is so padded, and is otherwise refused with RAM cleared |
| FirmwareAnswers.UnlockElsewhere | esp32/ssh_agent/src/main.cpp:404-425 | the replies of an unlock in every other case |
| FirmwareAnswers.ZerosAreRefused | esp32/ssh_agent/src/main.cpp:119-129 | a password that decrypts to zeros is refused |
| FirmwareAnswers.LockAnswered | esp32/ssh_agent/src/main.cpp:443-458 | a lock clears the key of a loaded encrypted key and is refused otherwise |
| FirmwareAnswers.ChallengeAnswered | esp32/ssh_agent/src/main.cpp:286-310 | a challenge is signed whole by an unlocked key, and what is sent otherwise |
| FirmwareAnswers.SignRequestAnswered | esp32/ssh_agent/src/main.cpp:357-402 | exactly the message is signed if the request names the own key; any other key is refused |
| FirmwareAnswers.KeyAnswered | esp32/ssh_agent/src/main.cpp:312-355 | the public key is given out, locked or not |
| FirmwareAnswers.OtherKindRefused | esp32/ssh_agent/src/main.cpp:514-517 | packets of other types are refused |
| FirmwareAnswers.GenerateAnswered | esp32/ssh_agent/src/main.cpp:152-193 | the new key in RAM and in storage, sealed with sixteen bytes of 16 as padding, whichever writes fail |
| FirmwareAnswers.GenerateFails | esp32/ssh_agent/src/main.cpp:158-171 | what a failing generation leaves, and that it stores nothing |
| FirmwareAnswers.BootLoads | esp32/ssh_agent/src/main.cpp:195-238 | when a boot finds a key, and which globals it then sets |
| Firmware.Device.DecryptSeed | esp32/ssh_agent/src/main.cpp:97-134 | the padding loop accepts exactly the paddings of value 1 to 16 |
| Firmware.Device.constructor | esp32/ssh_agent/src/main.cpp:539-551 | power-up state over a given storage image |
| Firmware.Device.LoadKeyFromStorage | esp32/ssh_agent/src/main.cpp:195-238 | which globals a boot sets, and when it finds a key |
| Firmware.Device.GenerateEncryptedKey | esp32/ssh_agent/src/main.cpp:152-193 | globals and storage after success and both failures, whichever of the six writes reach storage |
| Firmware.Device.ReceiveUnlock | esp32/ssh_agent/src/main.cpp:404-441 | state and replies on every branch |
| Firmware.Device.ReceiveLock | esp32/ssh_agent/src/main.cpp:443-458 | state and replies on every branch |
| Firmware.Device.ReceiveGenerate | esp32/ssh_agent/src/main.cpp:460-474 | state and replies on every branch |
| Firmware.Device.ProcessAgentRequest | esp32/ssh_agent/src/main.cpp:476-519 | a packet takes the transition system's step and sends its outputs |
| FirmwareSpec.StepLockedIsZero | esp32/ssh_agent/src/main.cpp:152-193 | a step leaves a locked key out of RAM iff it is not a generation that fails after drawing a seed |
| FirmwareSpec.RunLockedIsZero | esp32/ssh_agent/src/main.cpp:286-310 | over every run without such a failure a locked key is all zero in RAM |
| FirmwareSpec.RunLeaksIff | esp32/ssh_agent/src/main.cpp:152-171 | over every run, a locked key is in RAM iff a generation failed on it and no reboot, lock, unlock attempt or generation followed |
| FirmwareSpec.FailedGenerationSpills | esp32/ssh_agent/src/main.cpp:161-165 | a completed generation and one whose key derivation fails reach such a state |
| FirmwareSpec.SignatureNeedsUnlock | esp32/ssh_agent/src/main.cpp:427-437 | a signature under an encrypted key follows an unlock of the locked key that checked a password, later than the last lock, completed generation or reboot; it is under the seed that this unlock decrypted, or, if a generation failed since, under the seed that one drew |
| FirmwareSpec.GenerationHoldsKey | esp32/ssh_agent/src/main.cpp:175-192 | a completed generation leaves RAM and storage agreeing, locked |
| FirmwareSpec.UnlockRestores | esp32/ssh_agent/src/main.cpp:404-441 | from locked, the right password brings back the seed and nothing else changes |
| FirmwareSpec.UnlockRoundTrip | esp32/ssh_agent/src/main.cpp:152-238 | after any run without a new generation, reboots included, the password restores the generated seed |
| Bytes.ReadStr | wrapper/esp32_agent_bridge.py:139-140 | a length-prefixed string between any bytes is read back (section 5 of RFC 4251) |
| WireSpec.RecvFrame | wrapper/esp32_agent_bridge.py:95-133 | a response behind any NUL-free text is received and nothing after it is consumed |
| WireSpec.RecvIff | wrapper/esp32_agent_bridge.py:84-133 | a response is received iff the line is NUL-free text, its length and it; the rest stays |
| WireSpec.RecvNothing | wrapper/esp32_agent_bridge.py:98-133 | otherwise the line is read to its end, or through a length that is 0 or above 4096 |
| WireSpec.FramingRoundTrip | wrapper/esp32_agent_bridge.py:84-133 | from any mix of NUL-free text and responses, exactly the responses arrive, in order |
| WireSpec.SentIsReadable | esp32/ssh_agent/src/main.cpp:245-252 | every packet is answered with exactly one response the bridge can receive |
| WireSpec.PacketRoundTrip | wrapper/esp32_agent_bridge.py:71-80 | a packet survives sending and reading iff its payload has at most 4096 bytes |
| WireSpec.ReadIffSent | esp32/ssh_agent/src/main.cpp:254-284 | a packet is read iff the line begins with the bytes that are sent for it |
| Wire.SerialLine.RecvFromEsp32 | wrapper/esp32_agent_bridge.py:84-133 | the byte loop is the function that the round trip is about |
| Wire.SerialLine.ReadPacketInto | esp32/ssh_agent/src/main.cpp:254-284 | the buffer, the type and what stays on the line in every outcome |
| Wire.SerialLine.FillFromLine | esp32/ssh_agent/src/main.cpp:274-281 | the read loop takes exactly n bytes, or all when fewer arrive |
| BridgeSpec.ExtractBlob | wrapper/esp32_agent_bridge.py:142-151 | extracting the raw key inverts building the key blob |
| BridgeAnswers.ExtractAny | wrapper/esp32_agent_bridge.py:142-151 | a type of any name is skipped, and a key that is cut off is taken as it is |
| BridgeAnswers.ExtractShort | wrapper/esp32_agent_bridge.py:145-149 | a blob without both lengths raises |
| Wire.ExtractRawKeyAt | wrapper/esp32_agent_bridge.py:145-151 | the offset walk is that extraction, or raises on a short slice |
| BridgeSpec.ParseBlob | src/manager/crypto.c:33-44 | the manager reads a blob's raw bytes iff they have the expected length |
| BridgeAnswers.ParseAny | src/manager/crypto.c:33-44 | the manager skips a type of any name and reads exactly an announced length of the expected size |
| BridgeAnswers.OverflowRefused | src/manager/crypto.c:47-60 | a type length that overflows 32 bits is always refused |
| Wire.ParseSigInto | src/manager/crypto.c:47-60 | 0 and the raw signature, or -1 and the output untouched |
| SignChain.RunIsReceived | wrapper/esp32_agent_bridge.py:84-133 | over any run of packets the bridge receives the right response to each, in order |
| SignChain.FirmwareSigns | esp32/ssh_agent/src/main.cpp:357-402 | the firmware signs exactly the bytes the bridge put in |
| BridgeSpec.BridgeParses | wrapper/esp32_agent_bridge.py:287-305 | the bridge takes the Go payload apart; it sees no flags |
| BridgeSpec.ClientUnwraps | wrapper/esp32_agent_bridge.py:340-359 | a framed request is unwrapped, or the connection closes above 65536 bytes |
| BridgeAnswers.SignAny | wrapper/esp32_agent_bridge.py:287-305 | a sign request with any bytes after the key: which message and flags are sent on, or an exception |
| BridgeAnswers.UnlockRequested | wrapper/esp32_agent_bridge.py:317-323 | the unlock extension is one exchange with what there is of the password |
| BridgeAnswers.CutOffExtension | wrapper/esp32_agent_bridge.py:309-320 | an extension cut off in its name or its length is refused without the device |
| BridgeAnswers.EmptyRequest | wrapper/esp32_agent_bridge.py:278-279 | a request of length 0 is refused |
| BridgeAnswers.SignWithFlags | wrapper/esp32_agent_bridge.py:287-305 | a sign request with four bytes of flags is one exchange with them, or an exception above 255 |
| BridgeAnswers.LockRequested | wrapper/esp32_agent_bridge.py:307-328 | the lock extension is one exchange of a lock |
| BridgeAnswers.OtherExtension | wrapper/esp32_agent_bridge.py:307-328 | any other extension is refused without the device |
| BridgeAnswers.ExtensionNames | wrapper/esp32_agent_bridge.py:318-326 | the names of extensions, key type and comment |
| BridgeAnswers.WithoutDevice | wrapper/esp32_agent_bridge.py:277-335 | adding and removing keys is acknowledged, unknown and empty requests are refused, without the device |
| BridgeAnswers.CutOffSign | wrapper/esp32_agent_bridge.py:287-293 | a sign request cut off in its key is refused without the device |
| BridgeAnswers.CutOffRequest | wrapper/esp32_agent_bridge.py:341-357 | a request that is cut off closes the connection |
| BridgeAnswers.RefusedSign | wrapper/esp32_agent_bridge.py:243-259 | a locked device is reported as such, any other response without a signature as a failure |
| BridgeAnswers.WrappedSign | wrapper/esp32_agent_bridge.py:261-269 | a signature is wrapped into a blob of the key type |
| BridgeAnswers.WrappedKeys | wrapper/esp32_agent_bridge.py:211-227 | no keys stay none; a key is wrapped into a blob with the comment |
| BridgeAnswers.RefusedKeys | wrapper/esp32_agent_bridge.py:196-209 | any other response to a listing is a failure |
| BridgeAnswers.StatusPassedOn | wrapper/esp32_agent_bridge.py:157-186 | unlock and lock succeed iff the device says so |
| BridgeAnswers.GoErrors | src/client/agent.go:78-84 | which answers are errors to the Go client |
| BridgeAnswers.SignatureLength | src/client/agent.go:160-169 | Sign returns the announced number of bytes, or fails if there are fewer |
| BridgeSpec.GoSignReaches | src/client/agent.go:147-170 | Sign is one exchange with the device on exactly the message, or none above 65475 bytes |
| BridgeSpec.GoListReaches | src/client/agent.go:88-92 | List is one exchange with the device |
| BridgeSpec.GoUnlockReaches | src/client/agent.go:133-145 | Unlock is one exchange that carries exactly the password |
| BridgeSpec.SignatureComesBack | wrapper/esp32_agent_bridge.py:257-269 | Go returns the blob of the device's signature, and the manager parses it back |
| BridgeSpec.KeyComesBack | wrapper/esp32_agent_bridge.py:204-227 | Go lists the device's key as the one blob signing needs, and the manager parses it back |
| SignChain.AskQueued | wrapper/esp32_agent_bridge.py:71-133 | the line is a queue: a packet that fits is handled alone and the bridge receives the response in front |
| SignChain.StaleFirst | wrapper/esp32_agent_bridge.py:84-133 | a response that is left over is received next, whatever is sent meanwhile |
| SignChain.FreshIsSynced | wrapper/esp32_agent_bridge.py:51-53 | with only text on the line nothing is under way |
| SignChain.ShortSession | wrapper/esp32_agent_bridge.py:188-269 | short calls on a line with stale responses each receive the one in front; the device and their number stay |
| SignChain.ShortSessionIsRight | src/client/agent.go:88-170 | on a synced line every short call returns its own result |
| SignChain.LongIsRead | esp32/ssh_agent/src/main.cpp:268-271 | what the firmware makes of a longer message: refused packets up to 4096 bytes, then the message itself read as packets |
| SignChain.LongCall | src/client/agent.go:147-170 | the call fails, and what it leaves on the line and in the device |
| SignChain.SessionWorksIffShort | src/client/agent.go:147-170 | all calls of a session return their own results iff every message has at most 4055 bytes |
| SignChain.NextCallFails | wrapper/esp32_agent_bridge.py:84-133 | after a message of 4056 to 4096 bytes the next call fails, however short |
| SignChain.AnswersShift | wrapper/esp32_agent_bridge.py:84-133 | the first short call then fails; made after the 5 seconds, every later short call receives the answer to the one before it |
| SignChain.StaleSignature | wrapper/esp32_agent_bridge.py:257-269 | such an answer is taken for this message's signature, and is it only if the two are equal |
| SignChain.UsableIffHarmless | esp32/ssh_agent/src/main.cpp:485-518 | the device can sign throughout a line of packets iff it holds no key generation and no lock of an encrypted key |
| SignChain.UsableAfterIff | esp32/ssh_agent/src/main.cpp:485-518 | it can sign after the line iff it could before and the line is so, or an unlock in it has the last word |
| SignChain.LongMessageSurvivedIff | esp32/ssh_agent/src/main.cpp:476-519 | when the device survives a long message, throughout and afterwards |
| SignChain.MessageIsExecuted | esp32/ssh_agent/src/main.cpp:476-519 | a message above 4096 bytes that begins like a packet has that packet executed |
| SignChain.MessageLocksDevice | esp32/ssh_agent/src/main.cpp:443-458 | such a message locks the device |
| SignChain.MessageUnlocksAgain | esp32/ssh_agent/src/main.cpp:404-458 | a message that locks the device and unlocks it again |
| SignChain.MessageReplacesKey | esp32/ssh_agent/src/main.cpp:460-474 | such a message replaces the key |
| PromptCalls.LongLeavesOutOfStep | esp32/ssh_agent/src/main.cpp:254-284 | a message of 4056 to 4096 bytes leaves one failure unreceived and a byte 0 on which the firmware waits |
| PromptCalls.LateHeader | esp32/ssh_agent/src/main.cpp:254-271 | with that byte in front, the header of the next packet is too long, and its last length byte and payload remain |
| PromptCalls.PromptCall | esp32/ssh_agent/src/main.cpp:254-284 | a call within the 5 seconds fails; the firmware reads those bytes as packets, with the device and the line that result |
| PromptCalls.PromptListsFail | esp32/ssh_agent/src/main.cpp:254-284 | any number of prompt List calls fail, and the firmware keeps waiting on a byte 0 |
| PromptCalls.ListsResync | wrapper/esp32_agent_bridge.py:84-133 | after them and a wait all short calls return their own results |
| PromptCalls.LateSign | esp32/ssh_agent/src/main.cpp:268-284 | a prompt sign request is read as a packet of type (message length + 41) mod 256 without data, and more |
| PromptCalls.PromptSurvivesIff | esp32/ssh_agent/src/main.cpp:485-518 | when the device can sign throughout a prompt call, and after it |
| PromptCalls.PromptSignLocks | esp32/ssh_agent/src/main.cpp:443-458 | a prompt message of 219 bytes (mod 256) locks an encrypted key |
| PromptCalls.PromptSignsEmpty | esp32/ssh_agent/src/main.cpp:286-310 | one of 216 bytes (mod 256) has the device sign the empty challenge |
| PromptCalls.EmptySignatureIsRefused | src/manager/crypto.c:47-60 | taken for a signature, that response is cut short and the manager refuses it |
| SignChain.UnlockThroughChain | src/client/agent.go:133-145 | Go's unlock with the right password restores the seed on the device |
| EndToEnd.GoUnlockIff | src/client/agent.go:133-145 | Go's unlock from locked succeeds iff what the password decrypts is padded, with the device that results |
| EndToEnd.LockedSign | esp32/ssh_agent/src/main.cpp:364-368 | a locked device says so through the chain, and nothing else changes |
| EndToEnd.SignChallengeUnlocks | src/client/agent.go:209-231 | SignChallenge from locked: with a password that decrypts to padded bytes the challenge is signed, with any other it fails |
| EndToEnd.BlobsAreTransparent | src/manager/crypto.c:62-76 | for the blobs of a key and a signature the manager verifies exactly that key and signature |
| EndToEnd.SessionAccepted | src/manager/crypto.c:62-97 | the manager accepts what a session of short messages returns iff S is (r + H·a) mod L |
| EndToEnd.UnlockedSessionAccepted | src/client/agent.go:133-170 | after Go's unlock from locked, the same for the generated seed |
| BridgeSpec.ParseEncodedKeys | src/client/agent.go:98-128 | the cursor loop inverts the agent encoding of any list of keys |
| BridgeAnswers.CutOffComment | src/client/agent.go:116-124 | a comment that is cut off is taken as empty, and reading goes on behind its length |
| BridgeAnswers.CutOffKey | src/client/agent.go:104-115 | a key that is cut off ends the list |
| BridgeAnswers.ListLengths | src/client/agent.go:94-101 | the error, the panic and the announced number of keys |
| Wire.ListKeys | src/client/agent.go:94-130 | the error, the panic on 2 to 4 bytes, or the keys that the parser finds |
| Wire.ReadKey | src/client/agent.go:103-127 | one round, with its breaks |
| SessionLog.ComputeDurations | src/ai/anomaly_detect.py:47-59 | the loop is the pairing function |
| SessionLog.PendingIs | src/ai/anomaly_detect.py:50-53 | what is pending for a user and container is their last connect, if no row of theirs has come since |
| SessionLog.DurationOfRow | src/ai/anomaly_detect.py:47-59 | exactly which rows give a duration, and which |
| SessionLog.SuffixDurations | src/ai/anomaly_detect.py:47-59 | durations of a suffix of a log are a subsequence of the log's durations |
| SessionLog.SortedLogPairs | src/ai/anomaly_detect.py:47-59 | on a sorted log durations are positive, intervals of a key disjoint and no longer together than the log |
| Statistics.Samuelson | src/ai/anomaly_detect.py:20-28 | n·(x - mean)² <= (n - 1)²·variance for every member x |
| Statistics.ZAboveIsQuotient | src/ai/anomaly_detect.py:98-102 | comparing signed squares is comparing (x - mean) / stddev with the threshold |
| Statistics.NotAbove | src/ai/anomaly_detect.py:98-102 | a value some member reaches has no z above t when (n - 1)² <= t²·n |
| Statistics.DefaultLimits | src/ai/config.py:11 | that is n <= 8 for 2.5 and n <= 22 for 4.5, and no more |
| Statistics.LimitIsSharp | src/ai/anomaly_detect.py:20-28 | one above n - 1 zeros exceeds t exactly when n is enough |
| DetectorLimits.SpikeLogReports | src/ai/anomaly_detect.py:109-122 | on a log of equal sessions and a longer last one, that one is reported iff n is enough for the threshold |
| DetectorLimits.DefaultLimitsAttained | src/ai/anomaly_detect.py:109-134 | nine such sessions are reported at 2.5, and 23 with high severity |
| Tallies.TallyTotal | src/ai/anomaly_detect.py:79-82 | the counters add up to the number of rows |
| Tallies.BumpHolds | src/ai/anomaly_detect.py:31-44 | one increment keeps a counting dictionary exact, keys in first-seen order |
| Detector.BucketByHour | src/ai/anomaly_detect.py:31-36 | the dictionary holds exactly the counts of the hours |
| Detector.SessionsPerDay | src/ai/anomaly_detect.py:39-44 | the counts of the days, in the order the days first appear |
| Detector.FindUnusualTimes | src/ai/anomaly_detect.py:79-92 | dividing by the sum of the buckets gives the share of all connects |
| Detector.FindHighFrequencies | src/ai/anomaly_detect.py:97-107 | one finding per recent day above the threshold |
| Detector.FindLongDurations | src/ai/anomaly_detect.py:112-122 | one finding per recent duration above the threshold |
| Detector.Summarise | src/ai/anomaly_detect.py:128-137 | the maximum decides every threshold, and the set of types tells one kind from several |
| Detector.AnalyzeUser | src/ai/anomaly_detect.py:62-157 | the report is the declarative one |
| DetectorSpec.LaterRowsAreSuffix | src/ai/anomaly_detect.py:63-68 | the rows of the last day end the rows of the window |
| DetectorFindings.HighFrequencyFound | src/ai/anomaly_detect.py:94-107 | daily counts: one finding for each day above the threshold with its count and score, and no other |
| DetectorFindings.LongDurationFound | src/ai/anomaly_detect.py:109-122 | durations: the same for each session |
| DetectorFindings.UnusualTimeFound | src/ai/anomaly_detect.py:76-92 | hours: one finding for each connect at an hour with less than 2% of the baseline connects, and no other |
| DetectorFindings.DetailsInOrder | src/ai/anomaly_detect.py:76-122 | hours, then daily counts, then durations, each in the order of the rows |
| DetectorFindings.ReportedIff | src/ai/anomaly_detect.py:124-125 | there is a report iff there is a finding |
| DetectorFindings.SeverityIs | src/ai/anomaly_detect.py:127-145 | severity and type of a report from its scores and kinds |
| DetectorFindings.RowsAre | src/ai/db_access.py:109-123 | the rows of a user since a time are exactly those of the log, in order |
| DetectorFindings.ConnectsAre | src/ai/anomaly_detect.py:73-74 | the connects are exactly the rows of that event, in order |
| DetectorFindings.WindowsAre | src/ai/anomaly_detect.py:63-68 | which rows the two windows hold |
| DetectorFindings.ClockIs | src/ai/anomaly_detect.py:31-44 | hours and days as counted from the epoch |
| DetectorFindings.DailyIs | src/ai/anomaly_detect.py:94-95 | one count for each day with a connect, of its connects |
| DetectorSpec.RecentIsCovered | src/ai/anomaly_detect.py:64-68 | recent durations and daily counts are bounded by baseline members, recent hours occur in the baseline |
| DetectorSpec.FindingNeeds | src/ai/anomaly_detect.py:76-122 | what each finding proves about the baseline, and that the score 4.0 never occurs |
| DetectorSpec.QuietOnLittleHistory | src/ai/anomaly_detect.py:62-125 | no report with at most 50 connects, 8 active days and 8 durations |
| DetectorSpec.HighNeedsHistory | src/ai/anomaly_detect.py:128-145 | with at most 22 values only two kinds together are high |
| DetectorSpec.UnusualTimeIsHigh | src/ai/anomaly_detect.py:84-92 | an unusual hour is always reported as high |
| ServerSpec.CountThree | src/manager/server.c:236-245 | empty_count reaches 3 iff three zeros were read with no connection since the first |
| ServerSpec.StopsAtThirdZero | src/manager/server.c:226-253 | stopping at 3 is stopping at the first such poll |
| ServerSpec.VisitLogs | src/manager/server.c:42-262 | the rows of a visit from its outcomes and polls, every case |
| Server.Manager.WaitForConnect | src/manager/server.c:187-211 | ends at the first positive reading within 60 polls, logging one connect then |
| Server.Manager.WatchSession | src/manager/server.c:223-258 | ends at the third zero or after 86400 polls, logging exactly one event |
| Server.Manager.HandleClient | src/manager/server.c:42-262 | appends exactly the events of the visit, with every early return |
| Server.Manager.Serve | src/manager/server.c:292-300 | a run appends the visits' events one after another |
| ServerSpec.RunIsBracketed | src/manager/server.c:201-256 | every connect is directly followed by its end, every disconnect directly follows its connect |
| ServerSpec.RunPairs | src/ai/anomaly_detect.py:47-59 | when the clock does not go back, the rows of any run, ordered by time, pair up to its sessions in order, nothing pending |
| ServerSpec.OneDurationPerConnect | src/ai/anomaly_detect.py:47-59 | there is then one duration per connect iff every session ended later than it started |
| ServerSpec.IncreasingLogPairs | src/ai/anomaly_detect.py:47-59 | with increasing times of connects and ends, every order that the query may return gives each connect its duration |
| ServerSpec.BackwardClock | src/ai/anomaly_detect.py:47-59 | a run with the clock set back: the ordered rows pair a connect with the end of another visit |
| ServerSpec.AtMostOneDuration | src/ai/anomaly_detect.py:47-59 | for any rows, durations and pending connects are no more than the connects |
| ServerSpec.ByTimeFetches | src/ai/db_access.py:109-123 | sorting by time orders exactly the logged rows |
| ServerSpec.ByTimeKeeps | src/ai/db_access.py:109-123 | and changes nothing when the clock does not go back |
| VolumeTable.Volumes.constructor | src/manager/volume.c:14-17 | the empty table |
| VolumeTable.Volumes.SetActive | src/manager/volume.c:19-21 | only the flag changes |
| VolumeTable.Volumes.Reserve | src/manager/volume.c:218-221 | doubling when full keeps the entries and the least capacity that fits |
| VolumeTable.Volumes.OpenHome | src/manager/volume.c:150-234 | new table and result on every branch, and the id's own mount point |
| VolumeTable.Volumes.CloseHome | src/manager/volume.c:236-254 | clears the first mounted entry of the id; succeeds iff it was mounted |
| VolumeTable.Volumes.CleanupEverything | src/manager/volume.c:262-279 | every mounted id is closed exactly once and the table is empty |
| VolumeTable.Volumes.CleanupStoppedContainers | src/manager/volume.c:295-305 | the sweep, unless provisioning |
| VolumeSpec.OpenRefines | src/manager/volume.c:176-233 | adds the id exactly when it succeeds; at most one mounted entry per id |
| VolumeSpec.OpenSucceedsIff | src/manager/volume.c:157-223 | opening succeeds iff the image is accessible and the id is mounted or can be |
| VolumeSpec.CloseRefines | src/manager/volume.c:236-254 | removes exactly the id |
| VolumeSpec.SweepIsPointwise | src/manager/volume.c:297-304 | closing by id in the sweep closes the entry it stands at |
| VolumeSpec.SweepRefines | src/manager/volume.c:295-305 | leaves exactly the running containers mounted |
| VolumeSpec.RunRefines | src/manager/volume.c:150-305 | every run of operations is a run on a set of ids, and every entry is named for its id |
| VolumeSpec.OnlyRunningRemain | src/manager/volume.c:295-305 | after any run, a sweep outside provisioning leaves only running ids |
| VolumeSpec.GrowFits | src/manager/volume.c:218-221 | the capacity is 0 or the least 4·2^k that holds the entries |

## Left out

- SHA-512, PBKDF2, AES and the hardware random numbers are arbitrary functions and values; of AES only that decryption inverts encryption is used.
- Primality of 2^255 - 19 and of L, d not being a square, the order of the base point and associativity of the curve group are hypotheses of the lemmas that need them.
- OpenSSL's Ed25519 verification is taken to be section 5.1.7 of RFC 8032; RSA and the base64 decoding of public keys are not part of this model.
- Ed25519.SignMessage: the message, seed and public key are byte strings, not buffers that could overlap the output, and R is copied to the signature instead of being packed there.
- Points.AddPts: a point is an object with four arrays instead of an array of four arrays, so only whole points can be aliased.
- Scalar.ModL: a left shift of a negative carry is multiplication by 256, which C leaves undefined before C++20 and compilers implement.
- Firmware.Device.ProcessAgentRequest: buffers are byte strings, and a sign request whose length reaches past the received bytes reads arbitrary memory behind them.
- FirmwareSpec.RunLockedIsZero: stated for runs in which no generation fails after drawing a seed; RunLeaksIff covers all runs.
- generateEd25519Key, which no packet calls, the LED, the keytool program and the boot messages are not modelled.
- Wire.SerialLine.RecvFromEsp32: timeouts are an empty line; how long a read waits, serial speed and the buffer reset on connecting are not modelled.
- SignChain.SessionWorksIffShort: requests and responses are exchanged whole, one at a time, and a response arrives before the bridge gives up; a closed connection is opened again for the next call; partial socket reads and the serial lock between threads are not modelled.
- PromptCalls.PromptCall: what the firmware makes of the late bytes of a sign request after the first packet depends on the bytes of the key and the message and is not spelled out further.
- Statistics.Samuelson: floating-point rounding and the square root are replaced by exact reals and squares.
- Detector.AnalyzeUser: the text of the summary and of the findings is left out, and the rows come from one log that is sorted by time, as the query orders them.
- DetectorSpec.QuietOnLittleHistory: for a window of at least one day and a clock past 1970-01-02, since a start time of 0 switches the filter of the query off.
- ServerSpec.RunPairs: rows of the same second are taken in the order of logging, which SQL leaves open; IncreasingLogPairs is for any order of them.
- Server.Manager.HandleClient: the replies written to the socket, the container commands, the volume calls and failures to write the log are not modelled; whether each step succeeded is part of the visit.
- VolumeTable.Volumes.OpenHome: ids are shorter than the table's field, allocation succeeds, and the test on path buffers that are not yet filled (volume.c:162-163) is a given answer.
- VolumeTable.Volumes.CleanupStoppedContainers: whether a container runs does not change during one sweep; the mounts, mappers and directories behind the table, and threads that work on it at the same time, are not modelled.
- The database, user administration, LLM analysis, command filters, report generation and shell scripts are I/O or would only add easy members.
