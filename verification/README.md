# VexConnect: a model of the mesh and its ciphers

VexConnect nodes pass encrypted packets from neighbour to neighbour. A node that gets a packet it
has not seen decrypts it, lowers its TTL and writes it to every peer but the one it came from; a
cache of a thousand timestamped ids keeps packets from going round. This project models that in
Dafny and proves what the parts promise, from the carry passes of the field arithmetic up to which
nodes of a network a message reaches.

`dafny verify dfyconfig.toml` checks everything.

## Structure

* **Numbers and bytes.** `Arith`, `Limbs` and `Bits` hold powers, remainders, limb vectors and their
  values, byte strings as numbers, and C's bitwise operators on two's-complement integers of any
  width; `Options` is a value that may be missing. `BitLaws` is what the operators do to each bit,
  `Words` that they are a machine's own on bit vectors.
* **Curve25519.** `Field25519` and `FieldCodec` work on the sixteen signed limbs in place;
  `X25519` relates `crypto_scalarmult` to the function of section 5 of RFC 7748, written down
  independently as arithmetic modulo 2^255 - 19, and `X25519Curve` shows that it multiplies.
  `ScalarL` is reduction modulo the Ed25519 group order (section 5.1.6 of RFC 8032).
* **Poly1305, Salsa20, secretbox.** `Poly1305` against section 2.5 of RFC 8439; `Salsa20`,
  `SalsaStream` and `Stream` against the column rounds, row rounds and double rounds of the Salsa20
  specification; `Secretbox` and `Broadcast` put them together.
* **SHA-512.** `Sha512` against sections 5.1.2 and 6.4.2 of FIPS 180-4; `Sha512Bits` says its
  functions bit by bit and its constants by roots of primes.
* **Published values.** What code and specification share, such as rotation distances and constants, is
  pinned to the standards' own answers: `Poly1305Vector`, `SalsaBits` and `SalsaVectors`,
  `Sha512Vector`. `SalsaWords` and `Sha512Words` carry the functions over to bit vectors, where the
  verifier can compute them.
* **Duplicate cache.** `SeenSpec` says what one call does to the slots, `SeenCache` is the array
  object, `SeenWindow`, `SeenPrune` and `SeenRecency` speak about whole runs, `AppSeen` is the
  app's map, `AppAgree` puts the same queries to both, and `SeenExample` holds the runs that fall
  short. `Pigeonhole` is the counting behind a full cache.
* **Packets and connections.** `PacketCodec` and `Transport`; `MeshSpec` and `Mesh` are one node,
  `AppRelay` the app's.
* **The network.** `Network` joins peer slots by connections, any number between two nodes or from
  a node to itself, and proves that floods end. `NodeHistory` says what one node remembers. `Flood`,
  `FloodInvariant`, `FloodRuns`, `FloodFaith`, `FloodTree`, `FloodBreadth` and `FloodExample`
  follow one packet among any other traffic. `FloodFaith` holds on every run in which no other
  packet gets its id. What depends on caches that remember it is stated for the window in which
  they do: sixty seconds, as long as no cache evicts this id. The network's nodes hold the
  states of the concrete cache and change them with the functions the cache object is proved
  against; there is no idealised set of seen ids.

Code that works in place on arrays or fields is modelled as methods on arrays and classes; each is
proved against a function of its inputs or of the state before it, and the theorems are about those
functions.

## Conventions

* Bytes are `bv8`. Signed 64-bit limbs, unsigned words and byte-sized limbs are integer subset
  types, so every assignment carries a proof that the value fits. The source's `u32` is an
  `unsigned long`: in Salsa20 it is modelled with 64 bits, wrap-around included. In Poly1305 it is
  modelled with 32, which no sum exceeds, so that wider words hold the same values; the one
  wrap-around is the mask of ones in the final choice, of which only the low eight bits matter.
* `>>` on signed limbs is the floor of the quotient, masks are remainders.
* In `modL` the source multiplies by an unsigned table, so its products wrap modulo 2^64 and are
  stored back as signed numbers. The model computes them as integers and proves that they fit.
* Random bytes, the clock and the kernel's answers to `read` and `write` are inputs. `memcpy` and
  `memset` of whole buffers are copying loops or slices. What is printed is an output.
* A pointer into the middle of a buffer is an array and an offset, so aliasing is modelled where
  the source relies on it: the tag over its own key, ciphers in place, field operations on their
  own operands.

## Where code and documents disagree

* PROTOCOL.md:53 and the first line of src/seen.c call the cache LRU. Hits do not refresh an entry:
  `SeenExample.LruFails` evicts the entry used last, and `SeenRecency.LruIff` says when the victim
  is the least recently used one (`SeenRecency.LruByQueries` by the calls alone). Eviction goes by the
  time of insertion in whole seconds. Among
  entries of the same second it goes by slot, so not even the oldest add is always the one to go:
  in `SeenExample.TieForgets` the second newest of 1002 is. `SeenWindow.NewestStep` and
  `AppAgree.SameAnswersIff` are the exact conditions; `SeenWindow.SpreadOldestFirst` and
  `SeenWindow.NoEvictionIff` are conditions on the times of the adds alone.
* PROTOCOL.md:55 says that a packet can only traverse each node once. `FloodExample.TakenTwice` is a
  run in which a node takes it twice. `NodeHistory.FreshIff` and `NodeHistory.OnceIff` are the exact
  conditions on any run; `FloodRuns.AtMostOnce` is what holds within the window.
* PROTOCOL.md:52 gives both implementations the same sixty seconds, but the C node's clock shows whole
  seconds and the app's milliseconds: `AppAgree.DoubtfulAge` is where they can differ,
  `SeenExample.ClocksPart` what comes of a packet that arrives then.
* PROTOCOL.md:64 speaks of a diameter of seven hops. Reaching everyone within TTL links is not
  guaranteed: `FloodExample.LowTtlFirst` gives the run. `FloodTree.AllNearIff` is the exact
  condition, on the net, the origin and the TTL; `FloodTree.MissedIff` is it node by node.
* `vex_packet_decode` keeps sixteen bits of the length (src/packet.c:52), so its length check passes for
  frames that are a multiple of 65536 bytes too long: `PacketCodec.LongFrameAccepted`, and
  `PacketCodec.WireDecode` for the exact condition. This concerns direct callers only: a frame
  that was received has at most 512 bytes (src/transport_unix.c:179).
* src/crypto.c:12-13 says that all nodes derive the same key. All C nodes do. The app hashes the service
  name in upper case (app/App.tsx:28), the C code in lower case (src/vex.h:30), so what is hashed
  differs (`MeshSpec.NamesDiffer`); that the two keys then differ is SHA-512's affair and not proved.
* PROTOCOL.md:25 takes ids from a SHA-256 of payload, timestamp and nonce. The code takes the first eight
  bytes of the SHA-512 of payload and random bytes (src/packet.c:9-20): `PacketCodec.MakeId`.
* PROTOCOL.md:115 names NaCl box; both implementations use secretbox with the shared key.
* `vex_mesh_send` refuses more than 401 bytes although 461 would fit.

## Model

| member | source | states |
|---|---|---|
| Field25519.Car25519 | src/tweetnacl.c:273-283 | for limbs within 2^62 one in-place pass leaves the base-65536 digits of the value modulo 2^256, with the wrapped multiple of 38 in the lowest limb |
| Field25519.CarryValue | src/tweetnacl.c:273-283 | a carry pass changes the value only by a multiple of 2^256 - 38, so the field element stays |
| Field25519.CarryTwiceReduced | src/tweetnacl.c:361-362 | two passes bring any limbs within 2^62 to the multiplier's input range |
| Field25519.A | src/tweetnacl.c:342-346 | limbwise sum; the field sum; the output may alias either input |
| Field25519.Z | src/tweetnacl.c:348-352 | limbwise difference; the field difference; aliasing allowed |
| Field25519.Convolve | src/tweetnacl.c:356-358 | the 31 product sums have the product as value and stay below 2^56 in magnitude |
| Field25519.FoldInto | src/tweetnacl.c:359-360 | folding with 38 keeps the residue modulo 2^255 - 19 |
| Field25519.M | src/tweetnacl.c:354-363 | for limbs within 2^26 the product modulo 2^255 - 19, output limbs in [-38, 2^16 + 37], no product or sum outside 64 bits, output may alias inputs |
| Field25519.S | src/tweetnacl.c:365-368 | the square, with the same ranges |
| FieldCodec.Sel25519 | src/tweetnacl.c:285-293 | masked exclusive-or swaps the two vectors exactly when the bit is 1 |
| FieldCodec.TrySubtract | src/tweetnacl.c:304-312 | one subtract-and-select round takes P off exactly when the value is at least P |
| FieldCodec.CarryThrice | src/tweetnacl.c:299-302 | three passes leave proper digits below 2^256 of the same residue |
| FieldCodec.Pack25519 | src/tweetnacl.c:295-318 | for limbs within 2^62 the 32 bytes are the little-endian form of the residue in [0, 2^255 - 19) |
| FieldCodec.PackedForm | src/tweetnacl.c:295-340 | two packings are equal exactly when the field elements are, and unpacking a packing gives back the canonical representative |
| FieldCodec.Unpack25519 | src/tweetnacl.c:335-340 | the limbs are base-65536 digits of the 32 bytes with bit 255 ignored |
| FieldCodec.Neq25519 | src/tweetnacl.c:320-326 | 0 exactly for equal field elements, -1 otherwise |
| FieldCodec.Par25519 | src/tweetnacl.c:328-333 | the parity of the canonical representative |
| Bits.Vn | src/tweetnacl.c:54-59 | 0 exactly when the byte strings are equal, -1 otherwise, by the or of all differences |
| X25519.ClampMeaning | src/tweetnacl.c:399-401 | a clamped scalar is a multiple of 8 in [2^254, 2^255) |
| X25519.ClampNumber | src/tweetnacl.c:399-401 | the clamped scalar is 2^254 plus eight times the bits 3 to 253 of the scalar |
| X25519.ScalarBitOfBytes | src/tweetnacl.c:409 | bit t of the scalar is bit t mod 8 of byte t / 8 |
| X25519.Inv25519 | src/tweetnacl.c:370-380 | 254 squarings and 252 multiplications raise to the power 2^255 - 21; aliasing allowed |
| X25519.StepIs | src/tweetnacl.c:412-429 | the eighteen register operations compute the ladder step of section 5 of RFC 7748 |
| X25519Curve.StepDoubles | src/tweetnacl.c:412-425 | for all registers modulo 2^255 - 19 the new x2 is (x2^2 - z2^2)^2 and the new z2 is 4 x2 z2 (x2^2 + 486662 x2 z2 + z2^2) |
| X25519Curve.StepAdds | src/tweetnacl.c:412-429 | likewise the new x3 is 4 (x2 x3 - z2 z3)^2 and the new z3 is 4 x1 (x2 z3 - z2 x3)^2 |
| X25519.LadderStep | src/tweetnacl.c:408-432 | one iteration of the loop is swap, RFC 7748 step, swap back, and every limb stays in the multiplier's range |
| X25519.DeferredSwap | src/tweetnacl.c:410-431 | two conditional swaps in a row are RFC 7748's one swap by the exclusive-or of the bits |
| X25519.RunLadder | src/tweetnacl.c:408-432 | after the 255 iterations the registers are those of RFC 7748's ladder |
| X25519.CryptoScalarmult | src/tweetnacl.c:394-443 | for every scalar and point the 32 output bytes are X25519 of section 5 of RFC 7748 |
| X25519Curve.LadderMultiplies | src/tweetnacl.c:408-432 | over the bits of any scalar the ladder holds the k-fold point and the one after it, for any relation between numbers and fractions that obeys the curve's doubling and difference-addition formulae |
| X25519Curve.ScalarMultiple | src/tweetnacl.c:394-443 | X25519's answer is the u-coordinate of the k-fold point: the quotient of that fraction, and 0 where the denominator is |
| ScalarL.OrderValue | src/tweetnacl.c:675 | the table L is 2^252 + 27742317777372353535851937790883648493, its first twenty bytes the part below 2^252 |
| ScalarL.EliminateDigits | src/tweetnacl.c:681-686 | the inner loop of one elimination keeps value plus carry, centres twenty digits and bounds the carry |
| ScalarL.EliminatedValue | src/tweetnacl.c:680-689 | eliminating digit i takes off a multiple of the order |
| ScalarL.Sweep | src/tweetnacl.c:680-689 | all 32 eliminations keep the residue and every intermediate inside 64 bits |
| ScalarL.QuotientClose | src/tweetnacl.c:690-695 | x[31] >> 4 is the quotient up to one in either direction |
| ScalarL.SubtractQuotient | src/tweetnacl.c:690-695 | the quotient's multiple is taken off, the 32 digits are bytes, the final carry makes up the difference |
| ScalarL.AddBackOrder | src/tweetnacl.c:696 | the masked add puts one order back exactly when the carry is -1 |
| ScalarL.ModL | src/tweetnacl.c:677-701 | for every vector with limbs within 2^21 the 32 bytes written are the residue modulo the group order |
| ScalarL.Reduce | src/tweetnacl.c:703-709 | 64 bytes become their residue in the first 32, zeros after |
| ScalarL.SignScalar | src/tweetnacl.c:735-738 | the signature's second half is (r + h * d) modulo the group order for all 32-byte r, h, d |
| Poly1305.Add1305 | src/tweetnacl.c:171-179 | addition of 17-limb numbers modulo 2^136 |
| Poly1305.RowsValue | src/tweetnacl.c:205-208 | the rows with the 320 * r fold have the product as value modulo 2^130 - 5 |
| Poly1305.MultiplyRows | src/tweetnacl.c:205-208 | the in-place products are these rows, no sum above 353736000 |
| Poly1305.Squeeze | src/tweetnacl.c:209-223 | the two carry passes keep the residue, leave bytes and a top limb of at most 4 |
| Poly1305.SelectLimbs | src/tweetnacl.c:228-229 | the mask picks the old limbs exactly when adding minusp did not carry out of 2^130 |
| Poly1305.Freeze | src/tweetnacl.c:226-229 | the canonical residue modulo 2^130 - 5 |
| Poly1305.LoadBlock | src/tweetnacl.c:200-202 | a block of up to sixteen bytes with its final one bit |
| Poly1305.LoadKey | src/tweetnacl.c:189-197 | the clamped r of section 2.5 of RFC 8439 |
| Poly1305.ClampIs | src/tweetnacl.c:192-197 | as a number: of the four little-endian words of r every one loses its top four bits, and all but the first their lowest two |
| Poly1305.Absorb | src/tweetnacl.c:199-224 | the loop computes the polynomial of the blocks |
| Poly1305.CryptoOnetimeauth | src/tweetnacl.c:185-236 | the tag of section 2.5 of RFC 8439, even where the output overlaps key or message, and nothing else is written |
| Poly1305Vector.Rfc8439Example | src/tweetnacl.c:185-236 | the tag of the example in section 2.5.2 of RFC 8439 |
| Poly1305.CryptoOnetimeauthVerify | src/tweetnacl.c:238-243 | 0 exactly when the tag fits |
| Salsa20.HalfTwice | src/tweetnacl.c:85-95 | column round, transpose, column round, transpose is a column round and a row round |
| Salsa20.HalvesAreDoubleRounds | src/tweetnacl.c:85-95 | any number of pairs of half rounds is that number of double rounds |
| Salsa20.RotateLow | src/tweetnacl.c:25 | L32 on a wide word agrees modulo 2^32 with the 32-bit rotation |
| SalsaBits.QuarterBits | src/tweetnacl.c:88-91 | each new word of a quarter round, bit by bit: bits i + 7, i + 9, i + 13 and i + 18 of the four are the old bit plus bit i of the sum of two others |
| SalsaWords.QuarterIs | src/tweetnacl.c:88-91 | the quarter round on numbers is the one on machine words, with their own sums, shifts and exclusive-ors |
| SalsaVectors.QuarterUnits | src/tweetnacl.c:88-91 | the specification's values for one bit in one word |
| SalsaVectors.QuarterExamples | src/tweetnacl.c:88-91 | the specification's two larger examples |
| Salsa20.TwentyHalves | src/tweetnacl.c:85-95 | twenty wide half rounds agree modulo 2^32 with ten double rounds |
| Salsa20.QuarterInPlace | src/tweetnacl.c:88-91 | the four updates of t are the quarter round |
| Salsa20.HalfRoundInPlace | src/tweetnacl.c:86-94 | one iteration over x, t and w is the half round |
| SalsaStream.RunRounds | src/tweetnacl.c:85-95 | the loop leaves ten double rounds modulo 2^32 |
| SalsaStream.CryptoCoreSalsa20 | src/tweetnacl.c:71-115 | the Salsa20 core: feed-forward of ten double rounds, as 64 bytes |
| SalsaStream.AddThenSubtract | src/tweetnacl.c:98-102 | adding the input word and subtracting it again restores the word, wrap-around included |
| SalsaStream.CryptoCoreHsalsa20 | src/tweetnacl.c:97-121 | HSalsa20: the eight words before feed-forward |
| SalsaVectors.CoreExample | src/tweetnacl.c:71-123 | the core's published answer for the key 1..16, 201..216 and the input 101..116 under the constant sigma |
| SalsaVectors.FirstKeyExample | src/tweetnacl.c:97-123 | HSalsa20's published answer for the shared secret of "Cryptography in NaCl" and zeros |
| SalsaVectors.SecondKeyExample | src/tweetnacl.c:97-123 | and for that key with the first sixteen bytes of the nonce |
| SalsaStream.Ld32 | src/tweetnacl.c:27-33 | little-endian word |
| SalsaStream.St32 | src/tweetnacl.c:42-46 | the four low bytes of a wide word |
| Stream.BumpCounter | src/tweetnacl.c:135-140 | the byte-carry loop adds one to the 64-bit counter modulo 2^64 and leaves the nonce |
| Stream.StreamLoop | src/tweetnacl.c:132-148 | byte i is message byte exclusive-or byte i mod 64 of block i / 64 |
| Stream.CryptoStreamSalsa20Xor | src/tweetnacl.c:125-150 | the whole stream for every length; in place or with no message; nothing written beyond |
| Stream.CryptoStreamXor | src/tweetnacl.c:164-169 | XSalsa20: HSalsa20 subkey, then the stream |
| SalsaVectors.StreamExample | src/tweetnacl.c:125-169 | the first 32 bytes of the published XSalsa20 stream for key and nonce of "Cryptography in NaCl" |
| Stream.CryptoStream | src/tweetnacl.c:157-162 | the bare stream is the encryption of zeros |
| Stream.StreamTwice | src/tweetnacl.c:125-169 | applying the stream twice is the identity |
| Stream.StreamPrefix | src/tweetnacl.c:125-169 | a shorter message's stream is a prefix of the longer one's |
| Secretbox.CryptoSecretbox | src/tweetnacl.c:245-253 | in place or not, the box is sixteen zeros, the tag, the encrypted rest, though the tag lands on its own key |
| Secretbox.CryptoSecretboxOpen | src/tweetnacl.c:255-265 | opens exactly the boxes whose tag fits; otherwise -1 and nothing written |
| Secretbox.KeyPrefix | src/tweetnacl.c:249-261 | the 32-byte stream made by opening is the tag key that sealing left in front |
| Secretbox.OpenSeal | src/tweetnacl.c:245-265 | opening undoes sealing, for every padded message, nonce and key |
| Secretbox.SealOpen | src/tweetnacl.c:245-265 | an accepted box is the box of what it opens to |
| Broadcast.EncryptBroadcast | src/crypto.c:111-143 | -1 exactly for more than 461 bytes; otherwise nonce, tag and encrypted message |
| Broadcast.DecryptBroadcast | src/crypto.c:148-176 | the message, or -1 with the buffer untouched |
| Broadcast.DecryptEncrypt | src/crypto.c:111-176 | decryption undoes encryption for every key, nonce and message of at most 461 bytes, with forty bytes of overhead |
| Broadcast.DecryptsIff | src/crypto.c:111-176 | a payload decrypts to a message exactly when it is that message's encryption under the nonce it carries |
| Words.SumIs | src/tweetnacl.c:530-537 | a machine word's wrapping sum is the sum of the numbers cut to the width, so that published values can be computed on words |
| Sha512Bits.ChBit | src/tweetnacl.c:488 | bit i of Ch is y's where x has a one and z's elsewhere |
| Sha512Bits.MajBit | src/tweetnacl.c:489 | bit i of Maj is one exactly when at least two of the three are |
| Sha512Bits.Sigma0Bit | src/tweetnacl.c:490 | bit i of Sigma0 is the sum modulo 2 of bits i + 28, i + 34 and i + 39 around the end |
| Sha512Bits.Sigma1Bit | src/tweetnacl.c:491 | of Sigma1, of bits i + 14, i + 18 and i + 41 |
| Sha512Bits.LowerSigma0Bit | src/tweetnacl.c:492 | of sigma0, of bits i + 1 and i + 8 around the end and i + 7 if there is one |
| Sha512Bits.LowerSigma1Bit | src/tweetnacl.c:493 | of sigma1, of bits i + 19 and i + 61 around the end and i + 6 if there is one |
| Sha512Bits.KIsCubeRoots | src/tweetnacl.c:495-517 | K[t] is the first 64 bits of the fractional part of the cube root of the t-th prime, by the two integer inequalities on cubes; the primes are listed from 2 on without a gap |
| Sha512Bits.H0IsSquareRoots | src/tweetnacl.c:551-560 | the initial words, of the square roots of the first eight primes |
| Sha512Words.RoundWordsIs | src/tweetnacl.c:530-534 | the round on numbers is the one on machine words |
| Sha512.NextWindow | src/tweetnacl.c:535-537 | the in-place update moves the sixteen-word window on by sixteen words of the 80-word schedule |
| Sha512.RoundInPlace | src/tweetnacl.c:530-534 | one round of section 6.4.2 of FIPS 180-4, rotation of the variables included |
| Sha512.EightyRounds | src/tweetnacl.c:529-538 | the loop with the rolling window is eighty rounds over the full schedule |
| Sha512.CryptoHashblocks | src/tweetnacl.c:519-549 | folds the compression over all whole blocks and returns the length left over |
| Sha512.HashBlocksConcat | src/tweetnacl.c:569-581 | hashing whole blocks and then the rest is hashing them together |
| Sha512.StateRoundTrip | src/tweetnacl.c:524-546 | storing and reloading the chaining state changes nothing |
| Sha512.PadWhole | src/tweetnacl.c:574-580 | the padding fills whole blocks, and is the shortest that does |
| Sha512.PadSplit | src/tweetnacl.c:569-581 | message and padding are the whole blocks and then the one or two blocks of the tail |
| Sha512.FillTail | src/tweetnacl.c:574-580 | the buffer holds the tail of section 5.1.2, length field included |
| Sha512.IvIsH0 | src/tweetnacl.c:551-560 | the 64 bytes of iv are the initial words |
| Sha512.CryptoHash | src/tweetnacl.c:562-586 | for every message the output is the SHA-512 of FIPS 180-4 |
| Sha512Vector.AbcDigest | src/tweetnacl.c:562-586 | the standard's digest of "abc", all 64 bytes |
| SeenSpec.SlotFor | src/seen.c:34-62 | the slot an add takes: the first dead one, or with every slot live the first of the oldest |
| SeenSpec.ValidKept | src/seen.c:13-73 | nothing active at or above count, after every operation |
| SeenSpec.LookKeeps | src/seen.c:13-73 | checking and pruning change no later answer |
| SeenSpec.AddKeeps | src/seen.c:34-62 | an added id is seen for sixty seconds; without eviction all others stay as they were; nothing else starts to be seen |
| SeenSpec.TimeForgets | src/seen.c:20 | what is seen later is seen now |
| SeenCache.SeenCache.constructor | src/seen.c:7-10 | an empty cache |
| SeenCache.SeenCache.Check | src/seen.c:13-31 | answers whether a live slot below count holds the id, and deactivates exactly the expired slots passed on the way |
| SeenCache.SeenCache.Add | src/seen.c:34-62 | takes the first dead slot and raises count, or overwrites the first of the oldest |
| SeenCache.SeenCache.Prune | src/seen.c:65-73 | deactivates exactly the expired slots below count |
| SeenWindow.RunInv | src/seen.c:13-73 | on every run with a monotone clock slots and adds correspond one to one, young adds are kept unless evicted, and evicted ones are no newer than any kept |
| SeenWindow.CheckExact | src/seen.c:13-31 | "seen" exactly when the id was added at most sixty seconds ago and that add was not evicted |
| SeenWindow.EvictionOldest | src/seen.c:49-61 | eviction only with a thousand live entries, and of none newer than any retained |
| SeenWindow.LogIsAdds | src/seen.c:34-62 | the history that the theorems speak of is the adds of the run |
| SeenWindow.NewestStep | src/seen.c:34-62 | an add keeps the last thousand adds in the cache exactly when it finds room or the slot it overwrites holds the oldest of them |
| SeenWindow.SpreadOldestFirst | src/seen.c:49-61 | a condition on the times of the adds alone: evictions take the oldest add if, of any thousand and one adds within sixty seconds, the first is alone in its second |
| SeenWindow.NoEvictionIff | src/seen.c:34-62 | nothing is ever evicted exactly when no add comes within sixty seconds of the one a thousand before it |
| SeenWindow.CheckIsWindow | src/seen.c:13-62 | as long as every eviction took the oldest of the last thousand adds, "seen" is: unexpired and among the last thousand adds |
| SeenRecency.LruIff | src/seen.c:1-62 | the entry evicted is the least recently used one exactly when every entry retained was used since the last hit on it; without hits it always is |
| SeenRecency.LruByQueries | src/seen.c:1-62 | with evictions taking the oldest add, the victim is the least recently used entry exactly when every other of the last thousand was added or asked for no earlier than each query for it: a condition on the calls alone |
| SeenExample.LruFails | src/seen.c:1-62 | a run in which the array, full, evicts the entry that was used last |
| SeenExample.TieForgets | src/seen.c:49-61 | 1002 different ids in one second: the array has forgotten the second newest, the map has it |
| SeenExample.ClocksPart | app/App.tsx:131-150 | a packet that comes again after 60.5 seconds is dropped by the array and taken by the map; ten seconds later they still differ |
| SeenPrune.DeactivationUnobservable | src/seen.c:13-73 | no answer, slot or eviction of a run depends on what was deactivated |
| SeenPrune.PruneUnobservable | src/seen.c:65-73 | runs that differ only in their prunes show the same answers, slots and evictions |
| AppSeen.AppSeenCache.Has | app/App.tsx:134-142 | the answer, and an expired entry deleted |
| AppSeen.AppSeenCache.Add | app/App.tsx:144-150 | a full map loses its first entry, a present key keeps its place |
| AppSeen.HasIsWindow | app/App.tsx:131-150 | the map's answer is membership in the window of ids at most a minute old, to the millisecond, among the last thousand adds |
| AppAgree.MapTracks | app/App.tsx:131-150 | in a run put to both caches the map always holds an ordered subset of the adds that includes every such id |
| AppAgree.SameAnswers | app/App.tsx:131-150 | on every check-then-add run on one clock, the array on its seconds and the map on its milliseconds, with evictions taking the oldest and no packet coming while its own add is in doubt: the map's answer is membership in the window, and the array's is the same but for ids in doubt |
| AppAgree.DoubtfulAge | app/App.tsx:137 | only an add more than 60 and less than 61 seconds old can be in doubt |
| AppAgree.SameAnswersIff | app/App.tsx:131-150 | they answer every query alike at the beginning and end of every event exactly when every add that finds the array full evicts the oldest of the last thousand and no add is in doubt at those times |
| PacketCodec.PacketRecord.Encode | src/packet.c:23-40 | -1 exactly for a packet too long or of another version; otherwise the wire bytes and nothing beyond |
| PacketCodec.PacketRecord.Decode | src/packet.c:42-60 | the fields of the frame, or -1 |
| PacketCodec.WireParts | PROTOCOL.md:22-28 | byte 0 the version, bytes 1 to 8 the id, byte 9 the TTL, byte 10 the flags, the payload from byte 11 on |
| PacketCodec.DecodeWire | src/packet.c:23-60 | decoding undoes encoding |
| PacketCodec.WireDecode | src/packet.c:42-60 | encoding undoes decoding exactly for frames of at most 512 bytes |
| PacketCodec.LongFrameAccepted | src/packet.c:52-53 | any encoded packet followed by 65536 more bytes is accepted as that packet |
| PacketCodec.MakeId | src/packet.c:9-20 | the first eight bytes of SHA-512 of payload and random bytes |
| PacketCodec.BuildPacket | app/App.tsx:81-89 | the app's frame is the C wire format |
| PacketCodec.SameParse | app/App.tsx:91-99 | on frames of at most 512 bytes both parsers accept the same frames of this version and read the same fields |
| PacketCodec.HexRoundTrip | app/App.tsx:69-79 | hexToBytes undoes bytesToHex |
| PacketCodec.HexInjective | app/App.tsx:69-71 | different ids have different cache keys |
| PacketCodec.RelayIsPatch | app/App.tsx:101-105 | C's decode, decrement and encode is the app's patch of byte 9 |
| Transport.SendToPeer | src/transport_unix.c:118-141 | header and data written; a write that falls short deactivates the peer and gives -1 |
| Transport.SendToAll | src/transport_unix.c:144-154 | every active peer but the excluded one is sent to; the count of complete sends |
| Transport.FanOutReaches | src/transport_unix.c:144-154 | an accepting peer's stream grows by exactly the frame; the source and inactive peers are untouched |
| Transport.StreamIsFrames | src/transport_unix.c:118-141 | over any sends an active peer's stream is exactly their frames; after a short write it ends inside a frame and never grows |
| Transport.ReadPayload | src/transport_unix.c:182-191 | partial reads are collected in order until the payload is complete, or the peer is closed |
| Transport.UnixRead | src/transport_unix.c:158-195 | packet, nothing yet, refused, or closed, with the new state of the peer slot in each case |
| Transport.SlotKept | src/transport_unix.c:158-195 | a call closes the slot exactly when the stream has ended or failed; descriptor and output stay, and the time is touched exactly for a packet |
| Transport.HeaderBigEndian | src/transport_unix.c:122-124 | the two header bytes are the length, the high byte first |
| Transport.FramesReadBack | src/transport_unix.c:158-195 | any sequence of packets of at most 512 bytes is read back in order by successive calls on one peer slot, each starting from the slot the last one left, with nothing left over, however the payloads are split; the slot stays active |
| Transport.ReadBackIff | src/transport_unix.c:158-195 | packets of less than 65536 bytes are all read back from an active slot in order exactly when none is longer than 512, every header comes in one read and no read for a payload finds nothing |
| Transport.Delivered | src/transport_unix.c:118-195 | what is sent to a peer that stays active is what the other end's calls on its slot read, and that slot is active and empty afterwards |
| Transport.EmptyLooksIdle | src/transport_unix.c:158-195 | an empty packet reads as length 0, the answer for nothing yet |
| Transport.LongFrameStays | src/transport_unix.c:178-179 | an oversized announcement is refused, its payload left in the stream and the peer active |
| Mesh.Node.constructor | src/mesh.c:10-21 | empty cache, no peers, TTL 7, relaying on, the key derived from the service name |
| Mesh.Node.Send | src/mesh.c:45-94 | -1 and no change exactly for more than 401 bytes; otherwise the packet is in the cache and written to every active peer |
| Mesh.Node.Receive | src/mesh.c:97-148 | cache, counters, peers' streams, answer and displayed text after any frame |
| Mesh.Node.Relay | src/mesh.c:151-178 | nothing at TTL 1 or below, -1 for a frame that does not decode; otherwise one less, to all but the source |
| MeshSpec.WritesIff | src/mesh.c:97-178 | a frame makes a peer's stream grow only if relaying is on, the packet is new, its TTL above 1 and the peer active and not the source; if the peer's writes succeed, exactly then, and by the packet with TTL one less |
| MeshSpec.CountersMove | src/mesh.c:97-148 | every frame is counted once, as received when it is new and as dropped otherwise; as relayed exactly when it is new, relaying is on and its byte 9 is above 1 |
| MeshSpec.EchoDropped | src/mesh.c:74-120 | a packet sent or accepted is dropped when it returns within sixty seconds, whatever its TTL |
| MeshSpec.ShownIff | src/mesh.c:127-140 | a text is displayed exactly for a new packet whose lowest flag bit is set and whose payload decrypts to it |
| MeshSpec.ShownIsMessage | src/mesh.c:127-140 | the text displayed for a sent packet at any TTL is the message |
| AppRelay.AppNode.RelayPacket | app/App.tsx:298-332 | cache, queue, devices and both counters after a packet; devices that cannot be written to are dropped |
| AppRelay.ServedIff | app/App.tsx:308-325 | the devices left after a relay are the source as it was and every working other with the frame written to it |
| AppRelay.NewestTen | app/App.tsx:162-169 | after any packets queued from empty the queue is the last ten of them, or all if fewer, in order |
| AppRelay.SameDecision | app/App.tsx:298-325 | with caches that answer alike, app and C node take the same decision on a frame and pass on the same bytes |
| AppRelay.SameRelay | app/App.tsx:298-325 | they do so after any check-then-add run put to both on one clock in which the array evicts the oldest and no packet comes while its own add is in doubt, on every frame whose id is not in doubt |
| Network.NodeMatches | src/mesh.c:97-178 | what a wired node writes to each connection when a frame arrives in a slot is what the network puts in flight on that connection, several connections to one neighbour or to itself included |
| Network.NodeMatchesOrigin | src/mesh.c:45-94 | the same for a packet of its own |
| Network.StepOk | src/mesh.c:45-178 | every step of the network keeps caches and copies well formed |
| Network.HopLightens | src/mesh.c:97-178 | any delivery that emits at most 32 copies of TTL one less, and only above 1, lowers the sum of 33^TTL |
| Network.Finite | src/mesh.c:97-178 | so deliveries in a row are bounded by that sum, whatever the caches do |
| Network.RunFinite | src/mesh.c:97-178 | without originations every run of the network delivers finitely often, on every topology, parallel and circular connections included |
| NodeHistory.PlayHistory | src/mesh.c:45-148 | on every run of the network each node's cache is the run of its own calls |
| NodeHistory.FreshIff | src/mesh.c:115-123 | on every run a node that started empty takes a frame as new exactly when every add of the id it has made is more than sixty seconds old or was evicted |
| NodeHistory.OnceIff | PROTOCOL.md:55 | a node takes a packet at most once over a run exactly when it still remembers the id whenever another copy comes |
| NodeHistory.AllForgotten | src/seen.c:20 | more than sixty seconds after its last call a node takes anything as new |
| Flood.EveryStep | src/mesh.c:97-148 | every step leaves a packet alone, drops a duplicate of it, or has one new node accept it |
| FloodInvariant.StepKeeps | src/mesh.c:97-178 | the flood's invariant: caches remember exactly the nodes reached, every copy is the packet at its stage, no link is used twice, what was due was passed on |
| FloodRuns.BeginInv | src/mesh.c:45-94 | the invariant holds when the origin has sent |
| FloodRuns.AtMostOnce | src/mesh.c:115-123 | within sixty seconds, as long as no cache evicts this id: no node accepts twice, the origin never relays its own, no connection carries twice in one direction, and the transmissions are one per connection of the origin and, for each relay that accepted with TTL to spare, one per connection of it but one, at most 2|E| less the accepting nodes |
| FloodRuns.ReachedIff | src/mesh.c:97-178 | within that window, in any order, a node has the packet exactly when a neighbour is the origin or a relay that accepted with TTL to spare |
| FloodRuns.Coverage | src/mesh.c:97-178 | within that window, with connected relaying nodes and TTL at least N - 1, everyone has the packet once nothing is in flight, in any order |
| FloodFaith.FaithfulStep | src/mesh.c:97-178 | every step of the network keeps each copy of the packet at the stage its links say, sent by a node as near to the origin |
| FloodFaith.CopiesFaithful | src/mesh.c:151-166 | on every run in which no other packet gets the id, however long and whatever the caches forget, a copy has the origin's version, flags and payload, and its TTL less one per link after the first |
| FloodFaith.NoFartherThanTtl | src/mesh.c:156-163 | on every such run nobody beyond TTL links (one at least) is ever sent the packet |
| FloodFaith.MessageArrives | src/mesh.c:45-140 | on every such run a node with the key that takes a copy as new displays the message sent |
| FloodTree.RunIsTree | src/mesh.c:97-178 | the arrivals of a settled run within the window are a tree: distinct nodes, each one link beyond the origin or an earlier relay, and closed under relays with TTL to spare |
| FloodTree.TreeIsRun | src/mesh.c:97-178 | every such tree on a net is the arrivals of some run |
| FloodTree.MissedIff | src/mesh.c:97-178 | some settled run leaves a node out exactly when some tree does: a condition on the net, the origin and the TTL alone |
| FloodTree.AllNearIff | PROTOCOL.md:57-65 | every node within TTL links is reached in every order exactly when no tree leaves one of them out |
| FloodBreadth.ExactReach | src/mesh.c:97-178 | within that window, under breadth-first delivery exactly the nodes within TTL links (one at least) have the packet |
| FloodExample.LowTtlFirst | src/mesh.c:115-160 | on a net of four, for every packet of TTL 2, there is a settled run in which a node two links away misses it |
| FloodExample.TakenTwice | PROTOCOL.md:55 | for every packet of TTL 2 or more there is a run in which a node takes it twice, the second time from a copy that was under way for more than sixty seconds |
| FloodExample.ChainTooLong | src/mesh.c:156-160 | on N nodes in a row a TTL below N - 1 never gets across, on any run, so the bound of the coverage theorem is the best |

## Left out

- `src/main.c`: arguments, polling, signals and printing; the order of its calls is covered by the network's steps.
- Key files, key generation, logging, node names: no behaviour of the mesh depends on them beyond the key.
- Opening, accepting and closing sockets, `errno` values: the peer slots of a run are given, and `close` leaves no trace in the model.
- `peer_count`: a failed send clears `active` and leaves the count, so it is not a count of active peers.
- Ed25519 signatures beyond `modL`: the Edwards group law, point packing and verification need curve theory.
- X25519Curve.ScalarMultiple: that the points of Curve25519 obey the two formulae is taken from the curve's group law, which is not proved; nor is Fermat's theorem, the premise of the quotient.
- `crypto_box`, `crypto_scalarmult_base` and `pow2523`: not on the path of a broadcast.
- The copies `x[48..79]` that `crypto_scalarmult` makes of two registers: nothing reads them.
- Secrecy, unforgeability and collision resistance: only functional behaviour is modelled. That two packets do not get the same id is an assumption of the flood theorems.
- Connections lost in the middle of a flood: the flood theorems take lossless links; `Transport.StreamIsFrames` says what a failing one carries, and `Network.Finite` does not depend on them.
- Mixed networks of C and app nodes: `AppRelay.SameRelay` makes their decisions equal, the flood theorems are stated for C nodes.
- React interface, Bluetooth, permissions, native services, `site/relay-server.js`: wrappers of the same relay or a stateless fan-out.
- AppRelay.AppNode.RelayPacket: the loop over the devices runs in one piece; the app awaits each write, and other packets may come in between.
- SeenWindow.SpreadOldestFirst: one way only; whether a tie is broken in favour of the oldest add depends on the slots, which `SeenWindow.NewestStep` takes into account.
- Headers split over two reads and payloads that have not arrived when read: the reader gives up on them; `Transport.ReadBackIff` is the exact condition under which it does not.
- FloodRuns.Coverage: for runs of at most sixty seconds in which no cache evicts this packet's id; the caches remember no longer.
- FloodRuns.AtMostOnce: within the same window; what holds beyond it is `NodeHistory.OnceIff`.
- FloodRuns.ReachedIff: within the same window, as are `FloodTree.MissedIff`, `FloodTree.AllNearIff` and `FloodBreadth.ExactReach`; what needs no window is in `FloodFaith`.
- AppAgree.SameAnswers: both caches read one clock; the clocks of two devices may be further apart.
