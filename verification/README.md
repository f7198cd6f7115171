# A verified model of vfast

vfast is a point-to-multipoint VPN in C: a server hands out virtual addresses and keeps sessions, packets are
padded, encrypted and masked in place, and session keys are replaced while traffic flows. It carries its own
copies of the Monocypher cryptographic library and of the uthash hash table. This project models the code in
which arithmetic, memory layout or the order of events is subtle, and proves what that code promises.

| area | modules |
|---|---|
| shared definitions, numbers as words and bytes, bit operators | `Common`, `NatLemmas`, `Words`, `Bits`, `Bitwise` |
| scalars modulo the group order L, signed windows, field elements | `ModL`, `Montgomery`, `Slide`, `Field25519` |
| hashing and password hashing | `Blake2b`, `Argon2`, `Argon2Fill` |
| stream cipher, authenticator, authenticated encryption | `ChaCha20`, `Poly1305`, `SecureChannel`, `Aead` |
| key exchange of a running session | `Rekey`, `RekeyProtocol`, `RekeyRepair` |
| hash table, sessions, address pool, server | `Uthash`, `SessionIndex`, `Sessions`, `IpPool`, `Server` |
| packets | `PacketCrypto`, `Protocol` |

Machine words are the subset types `u8`, `u32`, `u64` (and `i32`, `i64` in `Field25519`), so every value stored
in one carries a proof that it fits; where the source relies on wrap-around, the reduction is written out.
The insides of the ChaCha20 rounds, the BLAKE2b compression, the Argon2 mixing, the Jenkins hash and the
generator of padding are function parameters: every statement holds whatever they compute. Random numbers, the
clock, nonces, fresh memory and the outcome of a login are inputs.

Main results:

- Barrett and Montgomery reduction, the inversion loop and the cofactor correction compute the scalars they
  should for all inputs; the recoded signed digits of two scalars add up to both scalars in the double ladder.
- `fe_mul`, `fe_sq`, carrying and serialising are right modulo 2^255 - 19, with every product, partial sum, rounding
  sum and carry held to 64 bits.
- Poly1305, BLAKE2b and the AEAD depend only on the bytes absorbed, not on how calls split them, and agree
  with the definitions in their RFCs.
- Argon2 never reads a block that another lane is writing or, in the first pass, one that is not there yet: over
  all slices of all passes the memory depends neither on the order of the lanes nor on the old contents.
- Over every interleaving with loss and repetition, the server can decrypt every packet under way to it. A lost
  rekey acknowledgement is never recovered from, and every other state can be.
- The hash table with doubling buckets is a list in insertion order; deleting while iterating visits all
  and keeps the others' keys; sessions are found under the key they were entered with.
- In every server state the marked addresses are exactly the reserved, the live and the held ones.
- A packet goes through padding, in-place encryption, header and mask, and back, inside 2048 bytes.

## Results that differ from what the source says or seems to intend

- A comment in `fe_mul` bounds column 6 by 0.23 * 2^61. For limbs within e (even places) and o (odd places) the
  column is at most 23 e^2 + 82 o^2, which is attained: `Field25519.ColumnSixBound`. The comment is right for all
  such limbs if and only if that maximum is below its bound: `Field25519.ColumnSixExact`. The limbs that the
  function documents are beyond it: `Field25519.ColumnSixBeyondComment`. There is still no overflow.
- The carry macro documents |t0| < 2^63. Of the inputs it documents, no 64-bit value overflows if and only if
  t0 < 2^63 - 2^25: `Field25519.CarryExact`, with a failing input in `Field25519.CarryOverflows`. All callers stay
  below.
- The server ignores a repeated rekey request, so a lost acknowledgement leaves the two sides with different
  active keys for ever: `RekeyProtocol.LostAckIsFinal`. The two sides can come together again if and only if it is
  not lost: `RekeyProtocol.Recovery`. `RekeyProtocol.ClientReadsLossy` gives the exact condition under which the
  client can still decrypt.
- The client commits on any acknowledgement, even one that does not decrypt. Over a network that also repeats and
  forges, the commit installs the staged key if and only if the request is pending, and the cleared key otherwise:
  `RekeyProtocol.CommitNeedsPending`, with runs that end there in `RekeyProtocol.SecondAck` and
  `RekeyProtocol.ForgedAck`. All commits of a run leave both sides with one key if and only if each acknowledgement
  arrived with the server ahead: `RekeyProtocol.CommitAgrees`. Testing the pending flag would not be enough:
  `RekeyProtocol.StaleAckWhilePending`. Comparing the id that the acknowledgement echoes with the one asked for
  would be: `RekeyRepair.TestedCommitAgrees`, `RekeyRepair.RepairSafe`.
- An address pool whose range ends at 2^32 takes back no address: `IpPool.ReleaseRange`. The search with its 32-bit
  sum is the cyclic search if and only if the pool has at most 2^31 addresses: `IpPool.SearchExact`.
- A failed login keeps its address: `Server.VpnServer.HandleAuth`. The two rollbacks behind a created session,
  which would free the address of a live one, are never reached.
- Filling the header clears the padding flag, so unpacking delivers the padding with the payload: the length comes
  through if and only if the number drawn asks for no padding, `Protocol.Transfer`. With the source's generator and
  seed, the first packet of a thread is 21 bytes too long for every payload: `Protocol.FirstTransfer`. Padding and stripping alone restore the length: `Protocol.PadAndStrip`.
- The padding margin is 8 bytes short of nonce and tag: packing is safe for every padding exactly up to 1957
  bytes of payload: `Protocol.PayloadLimit`.

## Model

| member | source | states |
|---|---|---|
| ModL.Multiply | src/monocypher.c:1574-1585 | schoolbook product plus the initial contents, with every 64-bit sum in range |
| ModL.IsAboveL | src/monocypher.c:1587-1597 | the carry of adding the complement tells whether the number is at least L |
| ModL.RemoveL | src/monocypher.c:1603-1612 | subtracts L exactly if the number is at least L |
| ModL.BarrettBound | src/monocypher.c:1615-1657 | the Barrett quotient leaves a remainder in [0, 2L) for every 512-bit number |
| ModL.Reduce | src/monocypher.c:1615-1657 | the 32 bytes stand for the 512-bit input modulo L |
| ModL.EddsaReduce | src/monocypher.c:1659-1665 | 64 bytes reduced modulo L |
| ModL.EddsaMulAdd | src/monocypher.c:1668-1679 | a * b + c modulo L for all 32-byte a, b, c |
| Montgomery.Redc | src/monocypher.c:2753-2789 | the input times the inverse of 2^256, fully reduced, for inputs below L * 2^256 |
| Montgomery.MontgomeryProduct | src/monocypher.c:2823-2832 | reducing the product of two Montgomery forms gives the form of the product |
| Montgomery.PowerLoop | src/monocypher.c:2823-2832 | square and multiply over 253 bits yields the Montgomery form of the power |
| Montgomery.Invert | src/monocypher.c:2791-2844 | the scalar to the power L - 2 modulo L |
| Montgomery.AddXL | src/monocypher.c:2422-2431 | s + (x mod 8) * L in 32 bytes |
| Montgomery.ClearedInverse | src/monocypher.c:2791-2854 | a multiple of 8 below 8 L in the residue class of the power L - 2 of the trimmed key |
| Slide.RemSkip | src/monocypher.c:1939-1963 | two equal bits need no digit: the value of the bits left is unchanged |
| Slide.WindowTaken | src/monocypher.c:1939-1963 | a window is an odd digit of the table, shifted, plus the bits left below it |
| Slide.Recoder.constructor | src/monocypher.c:1918-1937 | the first check is at the top bit, and all of the scalar is left |
| Slide.LowestBit | src/monocypher.c:1952-1956 | v & (~v + 1) in two's complement is the lowest set bit of v, for either sign |
| Slide.ShiftOf | src/monocypher.c:1952-1956 | the three masks on that bit give the number of trailing zeros |
| Slide.Recoder.Step | src/monocypher.c:1939-1963 | digits returned so far, the pending digit and the bits left always make up the scalar |
| Slide.DoubleAdd | src/monocypher.c:2001-2019 | table entry digit/2 holds the odd multiple that the digit stands for |
| Slide.Ladder | src/monocypher.c:2001-2019 | both accumulated coefficients equal the two scalars at the end of the joint loop |
| Field25519.Carry | src/monocypher.c:1049-1121 | same residue modulo 2^255 - 19, limbs within the tight bounds, every rounding sum, carry and product in 64 bits |
| Field25519.CarryExact | src/monocypher.c:1049-1121 | of the documented inputs, no 64-bit overflow if and only if the first limb is below 2^63 - 2^25 |
| Field25519.CarryOverflows | src/monocypher.c:1049-1121 | a documented input that overflows |
| Field25519.MulColumnsValue | src/monocypher.c:1226-1274 | the ten columns are congruent to the product |
| Field25519.Mul | src/monocypher.c:1226-1274 | product modulo 2^255 - 19 without 64-bit overflow, tight limbs, for loose operands |
| Field25519.SqColumnsAreMul | src/monocypher.c:1282-1326 | merged products of the square equal the columns of the product |
| Field25519.Sq | src/monocypher.c:1282-1326 | the same result as multiplying a number by itself |
| Field25519.Chain | src/monocypher.c:1172-1190 | one pass of arithmetic shifts through the limbs computes the floor of (h + q) / 2^255 and the limbs left |
| Field25519.ToBytes | src/monocypher.c:1162-1197 | the canonical representative in 32 little-endian bytes |
| Field25519.FromBytes | src/monocypher.c:1129-1143 | the number without its top bits, as tight limbs |
| Field25519.ColumnSixBeyondComment | src/monocypher.c:1262-1272 | the largest documented limbs exceed the commented bound on column 6 |
| Field25519.ColumnSixBound | src/monocypher.c:1262-1272 | column 6 is at most 23 e^2 + 82 o^2 for limbs within e and o |
| Field25519.ColumnSixExact | src/monocypher.c:1262-1272 | the commented bound holds for all limbs within e and o if and only if it holds for that maximum |
| Poly1305.BlockStep | src/monocypher.c:304-365 | one block: add and multiply modulo 2^130 - 5 with limbs in bounds |
| Poly1305.PolyBlocks | src/monocypher.c:304-365 | the accumulator of section 2.5 of RFC 8439 over whole blocks |
| Poly1305.AccumulateSplit | src/monocypher.c:378-412 | absorbing a concatenation is absorbing its parts, if the first is whole blocks |
| Poly1305.Context.constructor | src/monocypher.c:367-376 | an empty message under the clamped key |
| Poly1305.Context.Update | src/monocypher.c:378-412 | the message absorbed grows by exactly the argument, at any alignment |
| Poly1305.Context.Final | src/monocypher.c:414-441 | the reduced accumulator plus the pad, modulo 2^128 |
| Poly1305.Authenticate | src/monocypher.c:443-450 | the tag that section 2.5 of RFC 8439 defines |
| Blake2b.Context.constructor | src/monocypher.c:531-552 | the parameter block is mixed in, and a key is absorbed as one block |
| Blake2b.Context.Compress | src/monocypher.c:462-529 | the 128-bit byte counter with carry, and the compression of the block |
| Blake2b.Context.Update | src/monocypher.c:559-625 | the message absorbed grows by exactly the argument, however calls split it |
| Blake2b.Context.Final | src/monocypher.c:627-637 | the first bytes of the digest of section 3.3 of RFC 7693 |
| Blake2b.ContextDetermined | src/monocypher.c:559-625 | equal starts and equal bytes give equal contexts, field by field |
| Blake2b.Hash | src/monocypher.c:639-647 | the keyed digest of the whole message |
| Argon2.WindowValue | src/monocypher.c:790-896 | the 32-bit window size never wraps below 1 and is what section 3.4.2 of RFC 9106 asks for |
| Argon2.ReferenceOk | src/monocypher.c:790-896 | for every seed the reference block exists and is not in another lane's current slice |
| Argon2.IndexingIsSound | src/monocypher.c:790-896 | the source's index computation meets the condition that the slice results need |
| Argon2.SliceResult | src/monocypher.c:790-896 | after a slice each block is what its own lane alone would have made it |
| Argon2.LanesCommute | src/monocypher.c:790-896 | filling the lanes of a slice in any two orders gives the same memory |
| Argon2.FillSlice | src/monocypher.c:790-896 | the nested loops compute the slice |
| Argon2Fill.RunCommutes | src/monocypher.c:790-896 | over any number of slices, any choice of lane orders gives the same memory |
| Argon2Fill.RunForgets | src/monocypher.c:790-896 | memories that agree where the first pass has come are equal from its end on |
| Argon2Fill.FillDetermined | src/monocypher.c:790-896 | with the source's indexing, in every variant, the first two blocks of each lane determine the final memory |
| Argon2Fill.Fill | src/monocypher.c:790-896 | the loops over passes and slices compute that run |
| Argon2.LinearIndex | src/monocypher.c:790-896 | lane and position address distinct blocks inside the work area |
| ChaCha20.XorBytes | src/monocypher.c:239-244 | word-wise xor is byte-wise xor |
| ChaCha20.MixTwice | src/monocypher.c:220-277 | decryption is encryption |
| ChaCha20.Continue | src/monocypher.c:220-277 | a text may be split after whole blocks with the counter moved on |
| ChaCha20.InputAtIs | src/monocypher.c:252-255 | the two counter words with carry count modulo 2^64 |
| ChaCha20.Crypt | src/monocypher.c:220-277 | the enciphered text at the destination, everything else as it was, for overlapping memory; the counter moves by ceil(n / 64) modulo 2^64 |
| SecureChannel.InStep | src/monocypher.c:2900-2930 | two ends that start equal stay equal and recover every text in order, whatever rejected boxes arrive in between |
| Aead.Neq0 | src/monocypher.c:144-151 | 0 for zero and -1 for everything else |
| Aead.Verify16 | src/monocypher.c:153-160 | 0 exactly for equal 16-byte strings |
| Aead.LockAuth | src/monocypher.c:2859-2874 | the tag over padded data, padded text and both sizes, as section 2.8 of RFC 8439 defines it |
| Aead.WriteRead | src/monocypher.c:2900-2930 | reading in order recovers what was written and both evolving keys end up equal |
| Aead.Context.constructor | src/monocypher.c:2876-2882 | the sub-key, the rest of the nonce and counter 0 |
| Aead.Context.Write | src/monocypher.c:2900-2911 | text from the second block on, tag from the first half of the first, next key from its second half |
| Aead.Context.Read | src/monocypher.c:2913-2930 | accepts exactly the right tag; otherwise buffer and context are unchanged |
| Rekey.DecryptKeyGenerations | src/key.h:62-78 | of two consecutive key ids the low byte tells which is meant |
| Rekey.SecCtx.Init | src/key.c:29-39 | key 1 and nothing staged, or no key if the random source fails |
| Rekey.SecCtx.PrepareNext | src/key.c:58-70 | stages the next id; a failing random source stages nothing |
| Rekey.SecCtx.Commit | src/key.c:76-86 | active becomes previous and staged becomes active |
| Rekey.SecCtx.HandleRequest | src/vfast_server.c:357-405 | a newer key is committed and acknowledged under the old one, with its id echoed; a stale one is ignored |
| Rekey.Client.InstallAuth | src/vfast_client.c:147-205 | the authenticated key becomes active in place |
| Rekey.Client.HandleNewKey | src/vfast_client.c:244-282 | commit in the standby buffer and swap; the old buffer keeps its keys |
| Rekey.Timer.Tick | src/vfast_client.c:480-553 | starts when a key is used up and repeats after the retry interval; the interval is 2 after a start, doubles up to 32 with each repeat sent, and stays otherwise |
| RekeyProtocol.StepKeeps | src/key.c:58-86 | every step of either side, and every loss, keeps the two sides at most one key apart |
| RekeyProtocol.Safety | src/vfast_server.c:357-405 | in every run the server finds the right key for every packet under way to it |
| RekeyProtocol.ClientReads | src/vfast_client.c:244-282 | without loss towards the client, it finds the right key for the next packet |
| RekeyProtocol.ClientReadsLossy | src/key.h:62-78 | with loss, exactly for the packets under its active key |
| RekeyProtocol.Converges | src/vfast_client.c:244-282 | both sides hold one key whenever nothing is under way to the client |
| RekeyProtocol.LostAckIsFinal | src/vfast_server.c:357-405 | after a lost acknowledgement neither side's keys change in any further run |
| RekeyProtocol.AckCanBeLost | src/vfast_server.c:357-405 | such a state is reachable from the start |
| RekeyProtocol.Recovery | src/vfast_server.c:357-405 | some further run makes the active keys equal if and only if the acknowledgement is not lost |
| RekeyProtocol.CommitNeedsPending | src/vfast_client.c:396-398 | in every run with repetition and forgery, a commit installs the staged next key exactly while a request is pending, else the cleared key |
| RekeyProtocol.CommitAgrees | src/vfast_client.c:396-398 | over every run with loss, repetition and forgery, all commits make the keys equal if and only if each acknowledgement found the server ahead; then the next one does so if and only if the server is ahead |
| RekeyProtocol.SecondAck | src/vfast_client.c:396-398 | a run from the start in which one acknowledgement arrives twice and leaves the cleared key active |
| RekeyProtocol.ForgedAck | src/vfast_client.c:373-398 | a run in which an acknowledgement that does not decrypt has the same effect |
| RekeyProtocol.StaleAckWhilePending | src/vfast_client.c:396-398 | a run in which a repeated acknowledgement meets a pending request and a commit would leave the keys unequal |
| RekeyRepair.TestedCommitAgrees | src/vfast_client.c:396-398 | while commits were right so far and nothing is forged, an acknowledgement under the client's active key, or echoing the id asked for, makes the keys equal |
| RekeyRepair.OldAckInTime | src/vfast_client.c:396-398 | neither test is necessary: a run in which an old acknowledgement arrives just in time |
| RekeyRepair.RepairSafe | src/vfast_client.c:396-398 | a client that commits only on the id it asked for stays in step over every run with loss and repetition, and the server reads all its packets |
| RekeyRepair.RepairTransparent | src/vfast_client.c:396-398 | where packets are only lost, that client does exactly what the source's client does |
| Bitwise.MaskIsMod | src/uthash.h:430-433 | masking with a power of two less one takes the remainder |
| Uthash.PushFront | src/uthash.h:767-786 | the handle becomes the head of a doubly linked chain; only links change |
| Uthash.Unlink | src/uthash.h:789-802 | the handle leaves its chain at any position; only its neighbours change |
| Uthash.Rehash | src/uthash.h:833-866 | every element moves to the chain of its new bucket, and the too deep ones are counted |
| Uthash.IdealLength | src/uthash.h:845-847 | shift and mask give the number of items per bucket, rounded up |
| Uthash.Expand | src/uthash.h:833-883 | twice the buckets, the same elements in the same order, and when expansion is given up |
| Uthash.FindInBucket | src/uthash.h:745-764 | finds an element whose hash value and key match exactly if there is one |
| Uthash.Find | src/uthash.h:745-764 | finds an element with the key exactly if there is one |
| Uthash.KeyOverwritten | src/uthash.h:745-764 | an element whose key is overwritten in the table no longer matches its old key, and its new one if and only if the hash values are equal |
| Uthash.Add | src/uthash.h:396-415 | the element becomes the last one, all integrity checks hold, other memory is untouched |
| Uthash.Delete | src/uthash.h:450-477 | the others remain in order, all integrity checks hold |
| Uthash.Sweep | src/uthash.h:1060-1063 | deleting during iteration visits every element once and leaves exactly the others, with their keys, and all memory outside the table |
| Uthash.HashTable.constructor | src/uthash.h:212-242 | no element, no table |
| Uthash.HashTable.Insert | src/uthash.h:396-415 | the object's insertion order grows by the element |
| Uthash.HashTable.Erase | src/uthash.h:450-477 | the object's insertion order loses the element |
| Uthash.HashTable.EraseAll | src/uthash.h:1060-1063 | the object's insertion order loses the given elements; the others keep their keys, other memory is untouched |
| SessionIndex.Lookup | src/uthash.h:745-764 | an element that was entered with the key, or none if there is none |
| SessionIndex.TableFind | src/session.c:227-249 | the hash table finds what the index has under the key |
| SessionIndex.TableEnter | src/session.c:92-126 | adding to the hash table enters the element under its key |
| SessionIndex.TableLeave | src/session.c:190-225 | deleting from the hash table takes the element out and keeps the others' keys |
| SessionIndex.StaleKey | src/session.c:112-118 | a session whose id is changed without leaving the table is not found under the old id, and under the new one only if both ids have one hash value |
| Sessions.SidAligned | src/session.c:43-77 | a generated id falls into the shard of its address and keeps all random bits but four |
| Sessions.OneShardIp | src/session.c:239-249 | the one-shard lookup by address sees the same sessions as a search of all |
| Sessions.OneShardSid | src/session.c:227-237 | the one-shard lookup by id sees the same sessions as a search of all |
| Sessions.RekeyOk | src/session.c:112-118 | leaving the id table and entering it again keeps both tables right when the id changes |
| Sessions.StaleId | src/session.c:112-118 | without that the id table has the session under its old id only and the invariant is broken |
| Sessions.Manager.constructor | src/session.c:79-90 | empty tables |
| Sessions.Manager.LookupByIp | src/session.c:239-249 | the session that a search of all sessions finds |
| Sessions.Manager.LookupBySid | src/session.c:227-237 | a session with the id, or none if no session has it |
| Sessions.Manager.Update | src/session.c:92-126 | creates, or gives a new id and moves in the id table; both tables keep the same sessions |
| Sessions.Manager.UpdateBySid | src/session.c:139-179 | refreshes the session and follows its client |
| Sessions.Manager.Delete | src/session.c:190-225 | exactly the session with the address goes, from both tables |
| Sessions.Manager.CleanTimeout | src/session.c:259-291 | exactly the timed out sessions go, and each gives back its address once |
| Sessions.Manager.GetExpired | src/session.c:308-333 | the first idle sessions in table order, marked as dead or not |
| Sessions.Manager.TotalCount | src/session.c:343-370 | the counters of the 16 tables add up to the number of sessions |
| IpPool.PickExists | src/ippool.c:62-84 | there is a pick exactly if some position is free |
| IpPool.Fairness | src/ippool.c:62-104 | an address is not allocated again while some other address stays free throughout |
| IpPool.SearchIsPick | src/ippool.c:62-84 | up to 2^31 addresses the search with the 32-bit sum is the cyclic search from the hint |
| IpPool.SearchFails | src/ippool.c:62-84 | up to 2^31 addresses it fails exactly if everything is marked |
| IpPool.AddressPool.Scan | src/ippool.c:67-82 | the loop over the bitmap finds what the search does |
| IpPool.SearchExact | src/ippool.c:62-84 | it is so in every pool of n addresses if and only if n is at most 2^31 |
| IpPool.ReleaseRange | src/ippool.c:86-104 | the pool takes back its own addresses if and only if its range ends below 2^32 |
| IpPool.AddressPool.Init | src/ippool.c:16-60 | exactly the addresses ending in 0, 1 or 255 start out marked; error codes |
| IpPool.AddressPool.Allocate | src/ippool.c:62-84 | what the search finds, in pools of any size: up to 2^31 addresses the first free position in cyclic order from the hint; 0 if there is none |
| IpPool.AddressPool.Release | src/ippool.c:86-104 | clears one bit inside the range, nothing outside it |
| Server.FreeIsUnused | src/vfast_server.c:204-277 | a free position is neither reserved nor any live session's |
| Server.Acknowledge | src/vfast_server.c:229-261 | the 64-byte answer goes into a masked frame of its own session id; packing it never fails |
| Server.VpnServer.constructor | src/vfast_server.c:664-666 | only the reserved positions are marked |
| Server.VpnServer.HandleAuth | src/vfast_server.c:168-278 | keeps the balance; the address is new; a failed login holds it; the search is exhausted exactly if it says so; a session with the new id is always found, the one just created if no other has the id, and its answer is always packed |
| Server.VpnServer.Touch | src/vfast_server.c:483-483 | activity changes no address |
| Server.VpnServer.Reclaim | src/vfast.c:171-179 | a deleted session's address is free again, unless the range wraps |
| Server.VpnServer.Maintain | src/vfast.c:148-216 | of the first 64 idle sessions exactly the dead ones go; marked stays reserved plus live plus held |
| PacketCrypto.SealedUnique | src/crypto.c:65-98 | key, nonce and text determine the packet |
| PacketCrypto.Encrypt | src/crypto.c:65-98 | in place or not, the same packet, and nothing else in the buffer changes |
| PacketCrypto.Decrypt | src/crypto.c:114-147 | the text, also when written 24 bytes below its source; on any error the buffer is unchanged and the length 0 |
| PacketCrypto.SealedOpens | src/crypto.c:114-147 | a packet that was sealed has the right tag and opens to its text |
| PacketCrypto.NonceSource.Next | src/crypto.c:27-58 | the prefix as far as it was read, and the counter, moving on modulo 2^64; reading is tried again until 16 bytes come |
| PacketCrypto.NoncesDiffer | src/crypto.c:27-58 | no two of the first 2^64 calls give equal nonces, whatever the random source delivers |
| Protocol.MaskedTwice | src/protocol.c:279-355 | masking the header is its own inverse |
| Protocol.ApplyMask | src/protocol.c:279-312 | first word and session id combined with the mask of the sequence number |
| Protocol.RemoveMask | src/protocol.c:322-355 | the same masks in the other order have the same effect |
| Protocol.ApplyPadding | src/protocol.c:164-220 | as many bytes as the first number drawn asks for, made from the numbers after it, behind the payload inside the capacity, and the header saying so |
| Protocol.RemovePadding | src/protocol.c:232-268 | strips what the header says, rejects more padding than packet |
| Protocol.PadAndStrip | src/protocol.c:164-268 | padding then stripping restores the exact length and the payload |
| Protocol.FillHeader | src/protocol.h:238-269 | the twelve header bytes in network order with the flags cleared, or an error for oversize |
| Protocol.PayloadLimit | src/protocol.c:164-220 | every padding fits if and only if the payload has at most 1957 bytes |
| Protocol.Pack | src/protocol.c:50-94 | a masked frame whose body carries the payload and the padding drawn for it, clear or sealed; -1 if it is too long; for every clear payload that fits the buffer and every sealed one up to 1957 bytes |
| Protocol.Unpack | src/protocol.c:101-136 | opens exactly authentic bodies under the key the id selects; on failure to open the buffer is unchanged |
| Protocol.Transfer | src/protocol.c:50-136 | type, session id and key id come through, and the payload followed by its padding; the length is the payload's if and only if no padding was drawn |
| Protocol.FirstPadding | src/protocol.c:145-192 | the generator's first number asks for 21 bytes |
| Protocol.FirstTransfer | src/protocol.c:50-136 | the first packet of a thread is delivered 21 bytes too long |

## Left out

- Monocypher: curve point arithmetic, Elligator, the insides of the rounds, compression and mixing functions, and wiping of secrets.
- Sockets, io_uring, the TUN device, the command line, user accounts and logging: no arithmetic or protocol state.
- Locks and threads: each operation of the session table and of the pool is one atomic step, as its lock makes it.
- Rekey: the byte counter and creation time of a key are inputs of the timer; re-authentication of a running client is not part of the protocol runs.
- RekeyProtocol.Safety: in its runs packets may be lost and requests repeated, but the network neither duplicates nor reorders; the runs of `CommitNeedsPending` also repeat and forge packets to the client, and those of `RepairSafe` repeat them.
- Uthash: memory is an explicit map from addresses to handles and the table is passed as a value between operations; the Bloom filter, sorted insertion, selection and allocation failure are not modelled, and the bucket count is not reduced modulo 2^32.
- Sessions: a table is its elements in insertion order with the key each was entered with; `SessionIndex` relates that to the hash table. Two sessions may share a random id, and then a lookup yields either.
- Sessions.Manager.Update: requires the id to belong to the shard of the address, which generated ids do.
- IpPool.AddressPool.Init: pools of more than 2^32 - 8 addresses are excluded, since the size of their bitmap wraps to 0 bytes.
- Server.VpnServer.constructor: pools of more than 2^32 - 8 addresses are excluded, as in `AddressPool.Init`.
- Server: byte order conversions are the identity; keep-alive and probe packets are not sent; cookies and time stamps are one input.
- Argon2Fill.Fill: the first two blocks of each lane are an input, and the xor of the last blocks and the final hash are not modelled; the constant-time seeds are any function of the place.
- Argon2.FillSlice: two-dimensional memory by lane and position instead of one array; `LinearIndex` relates the two.
- Field25519.Carry: the top 2^25 values of the first limb that the macro documents are excluded; `CarryExact` shows that they overflow.
- Slide.Ladder: works on coefficients instead of curve points, and needs both scalars below 2^253.
- Aead.Context.Write: the associated data is passed as a value; text stays in the buffer.
- Protocol.Pack: payloads of more than 1957 bytes to be encrypted are excluded, since packing them may write behind the buffer.
