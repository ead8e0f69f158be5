# Verified models of VNU's algorithmic cores

VNU is a small operating system with its own C library, TLS 1.2 library, FAT16 driver,
window compositor and programs. This project models nine of its files in Dafny and proves
what they are for:

- RSA over 32-bit limbs: exact products, Montgomery reduction, modular exponentiation and
  PKCS#1 v1.5 padding (section 7.2 of RFC 8017).
- AES-GCM: the bit-reversed, left-shifting GHASH is the multiplication of section 6.3 of
  NIST SP 800-38D, and opening undoes sealing.
- TLS 1.2: an honest client and server always agree (sections 7.3 and 7.4 of RFC 5246), and
  afterwards, for every interleaving of calls by both ends, each side reads what the other
  wrote.
- FAT16: every operation refines a finite map from names to byte sequences, with the exact
  condition under which each one succeeds.
- The occlusion test, the heap, pipes, the snake game and the block device.

Code that changes state in place is a class or a method over arrays, proved against a
specification function; what the program promises is proved about that function or kept as
a class invariant. `dafny verify dfyconfig.toml` checks the whole project.

| modules | source file |
|---|---|
| `Limbs`, `BigNum`, `Montgomery`, `Digits`, `Octets`, `ModPow`, `Pkcs1`, `TlsRsa` | vlibc/src/tls/tls_bn.c |
| `Gf128`, `Gcm` | vlibc/src/tls/tls_crypto.c |
| `TlsRecord`, `TlsConn`, `TlsStream`, `TlsMessages`, `TlsHandshake` | vlibc/src/tls/tls.c |
| `FatDisk`, `FatExtent`, `FatChain`, `FatData`, `FatStore`: tables, chains and contents | vnu/kernel/fs/fat16.cpp |
| `FatNames`, `FatSlots`, `FatDir`, `FatEntry`, `FatRows`: names and directories | vnu/kernel/fs/fat16.cpp |
| `FatModel`, `FatSteps`, `FatVolume`, `FatFormat`, `FatOpen`: the volume as a map | vnu/kernel/fs/fat16.cpp |
| `Occlusion` | vnu/kernel/gui/gui.cpp |
| `HeapList`, `Heap` | vlibc/src/stdlib/malloc.c |
| `PipeState`, `Pipe` | vnu/kernel/fs/pipe.cpp |
| `Snake` | thams/snake/snake.c |
| `BlockDev` | vnu/kernel/fs/blockdev.cpp |

`Wrappers` holds the option type and the byte type, `ByteFacts` facts about 8-bit vectors.

AES, SHA-256, the TLS PRF and the X.509 parser are parameters: every result holds for all
functions in their place. Randomness is a field of the handshake's setup, the kernel's
answer to a break request an arbitrary function, the peer's transport a FIFO byte stream
that hands over any positive part at a time.

## Model

| member | source | states |
|---|---|---|
| BigNum.BnUsed | vlibc/src/tls/tls_bn.c:57-62 | the top non-zero limb; the value is unchanged by dropping what is above |
| BigNum.BnCmp | vlibc/src/tls/tls_bn.c:65-74 | the order of the two numbers, all three cases |
| BigNum.BnSub | vlibc/src/tls/tls_bn.c:77-87 | difference modulo 2^(32n), the borrow out included |
| BigNum.BnMul | vlibc/src/tls/tls_bn.c:110-136 | alim + blim + 1 limbs hold the exact product; no carry is lost |
| Digits.BnBitlen | vlibc/src/tls/tls_bn.c:90-102 | 2^(bits-1) <= value < 2^bits |
| Digits.BnGetbit | vlibc/src/tls/tls_bn.c:104-107 | the bit of the number, not of the limb |
| Digits.BnMod | vlibc/src/tls/tls_bn.c:139-165 | the remainder by the mlimbs + 1 limbs the loop reads, the early exit included |
| Montgomery.BnMprime | vlibc/src/tls/tls_bn.c:169-176 | five Newton rounds give the negated inverse of every odd limb modulo 2^32 |
| Montgomery.BnMontMul | vlibc/src/tls/tls_bn.c:184-219 | for all operands r * R is congruent to a * b modulo m, and r < m whenever a * b < m * R: one subtraction suffices |
| Octets.BnFromBytes | vlibc/src/tls/tls_bn.c:29-40 | the limbs hold the number spelled by the last 4n bytes; limbs above n are untouched |
| Octets.BnToBytes | vlibc/src/tls/tls_bn.c:43-54 | n bytes spell the number modulo 256^n |
| Octets.LastBytesVal | vlibc/src/tls/tls_bn.c:33-39 | what an over-long input keeps: the number modulo 256^k |
| ModPow.TlsModpow | vlibc/src/tls/tls_bn.c:221-292 | the bytes written are the skewed power of the base the code works with, for every base, exponent, modulus and stale limb below 2^31; zero for an even modulus; nothing past the modulus length |
| ModPow.HarmlessModpow | vlibc/src/tls/tls_bn.c:221-292 | under the condition of StaleHarmlessIff the result is base^exp mod m |
| ModPow.NoStale | vlibc/src/tls/tls_bn.c:227-238 | the condition holds for every modulus of at most 127 limbs and for a zero limb |
| ModPow.StaleHarmlessIff | vlibc/src/tls/tls_bn.c:227-261 | every base and exponent come out right if and only if R^2 mod (m + stale * R) is still R^2 modulo m |
| ModPow.StaleModpowBreaks | vlibc/src/tls/tls_bn.c:227-261 | for m = 2^4096 - 1 and a stale 1, base^0 comes out as 2^4095 |
| ModPow.BaseAgreesIff | vlibc/src/tls/tls_bn.c:255-256 | the reduction test on the low limbs leaves every power right if and only if the low limbs reach m or the dropped part is a multiple of m |
| ModPow.BaseInLimbs | vlibc/src/tls/tls_bn.c:255-256 | a base that fits the modulus's limbs is always right |
| ModPow.BaseTruncated | vlibc/src/tls/tls_bn.c:255-256 | base 2^32 + 1 modulo 3 comes out as 1 instead of 2 |
| Pkcs1.UnpadPad | vlibc/src/tls/tls_bn.c:294-358 | stripping undoes padding for every message but the empty one, zero bytes inside included |
| Pkcs1.RsaEncryptPkcs1 | vlibc/src/tls/tls_bn.c:294-323 | refuses exactly the wrong lengths, else writes the power of the padded block |
| Pkcs1.RsaDecryptPkcs1 | vlibc/src/tls/tls_bn.c:329-358 | returns the message exactly when the block is well padded, and writes nothing else |
| Pkcs1.RoundTrip | vlibc/src/tls/tls_bn.c:294-358 | with a matching private exponent the block and the message come back |
| TlsRsa.RsaRoundTrip | vlibc/src/tls/tls_bn.c:294-358 | the same for the byte strings the handshake exchanges |
| TlsRsa.EncryptBytes | vlibc/src/tls/tls_bn.c:294-323 | the bytes written are the ones the handshake model sends |
| TlsRsa.DecryptBytes | vlibc/src/tls/tls_bn.c:329-358 | the bytes returned are the ones the handshake model reads |
| TlsRsa.Exchange | vlibc/src/tls/tls_bn.c:294-358 | encrypting and then decrypting returns the message |
| Gf128.GcmRev128 | vlibc/src/tls/tls_crypto.c:435-445 | bit reversal turns the standard's bit order into the code's, and back |
| Gf128.GhashAbsorb | vlibc/src/tls/tls_crypto.c:460-488 | one absorbed block is (acc xor block) times H in the field of NIST SP 800-38D |
| Gf128.GhashAppend | vlibc/src/tls/tls_crypto.c:509-554 | hashing in pieces is hashing the whole |
| Gcm.GcmInc32 | vlibc/src/tls/tls_crypto.c:421-429 | the last four bytes plus one modulo 2^32, the rest unchanged |
| Gcm.GcmGctr | vlibc/src/tls/tls_crypto.c:491-507 | the key stream of section 6.5 of NIST SP 800-38D over every length |
| Gcm.GctrTwice | vlibc/src/tls/tls_crypto.c:491-507 | applying it twice is the identity |
| Gcm.GcmHashFinal | vlibc/src/tls/tls_crypto.c:509-554 | GHASH of the padded data, the padded ciphertext and the two bit lengths |
| Gcm.TlsGcmSeal | vlibc/src/tls/tls_crypto.c:556-583 | ciphertext then tag, nothing past them |
| Gcm.TlsGcmOpen | vlibc/src/tls/tls_crypto.c:585-624 | returns 0 exactly when the tag matches, with the plaintext; zeroes the output otherwise |
| Gcm.OpenSeal | vlibc/src/tls/tls_crypto.c:556-624 | opening a sealed message gives it back |
| Gcm.TlsGcmOpenOver | vlibc/src/tls/tls.c:706-708 | with the tag output inside the record every record is accepted |
| TlsRecord.SendAll | vlibc/src/tls/tls.c:193-201 | however the transport splits it, all bytes in order |
| TlsRecord.RecvAll | vlibc/src/tls/tls.c:203-211 | exactly n bytes in order, or failure when the stream is dry |
| TlsRecord.ReadRecord | vlibc/src/tls/tls.c:251-277 | one record off the stream, or exactly the failures of the header checks |
| TlsRecord.UnprotectProtect | vlibc/src/tls/tls.c:279-348 | a fragment opens under the sequence number it was sealed under |
| TlsConn.Conn.SendRecord | vlibc/src/tls/tls.c:312-348 | the record on the wire, the counter one further modulo 2^64, refused above 16384 bytes |
| TlsConn.Conn.TlsWrite | vlibc/src/tls/tls.c:1133-1149 | all of the buffer in records of at most 16384 bytes, nothing when not established |
| TlsConn.Conn.DecryptRecord | vlibc/src/tls/tls.c:1094-1131 | succeeds exactly when the fragment opens and fits; a failure changes nothing |
| TlsConn.Conn.TlsRead | vlibc/src/tls/tls.c:1151-1211 | the read specification: buffered bytes first, then records, alerts and errors |
| TlsConn.Conn.TlsClose | vlibc/src/tls/tls.c:1213-1228 | one close_notify unless one was received before |
| TlsStream.ReadKeeps | vlibc/src/tls/tls.c:1151-1211 | a read delivers the oldest owed bytes and comes back empty-handed only when none are owed |
| TlsStream.PairRun | vlibc/src/tls/tls.c:1133-1228 | over every run of calls by both ends: read plus owed equals owed before plus written, both ways |
| TlsStream.PairStreams | vlibc/src/tls/tls.c:1133-1228 | from a fresh pair each side reads a prefix of the other's bytes; a read returns 0 exactly when the peer closed and all was read |
| TlsMessages.HelloRoundTrip | vlibc/src/tls/tls.c:377-418 | every ClientHello that fits the buffer is accepted with its random |
| TlsMessages.ReadClientHello | vlibc/src/tls/tls.c:762-836 | the nested loops compute the parser, suite, compression and extension errors included |
| TlsMessages.ServerHelloRoundTrip | vlibc/src/tls/tls.c:420-436 | every ServerHello is accepted with its random |
| TlsMessages.CertificateLoop | vlibc/src/tls/tls.c:438-475 | the first certificate of the chain that yields a usable key, or the length errors |
| TlsMessages.CertificateRoundTrip | vlibc/src/tls/tls.c:438-475 | a one-certificate message yields that certificate's key |
| TlsMessages.HsDrain | vlibc/src/tls/tls.c:478-513 | whole messages are handled in order and a partial one stays buffered |
| TlsHandshake.OpenFinished | vlibc/src/tls/tls.c:694-712 | what the two Finished call sites decipher, for any record of at most 32 plaintext bytes |
| TlsHandshake.FinishedPasses | vlibc/src/tls/tls.c:694-732 | a Finished made from equal secrets and transcripts passes the peer's check |
| TlsHandshake.KeysAgree | vlibc/src/tls/tls.c:519-540 | both sides derive the same master secret and key block from the same transcript |
| TlsHandshake.RunStates | vlibc/src/tls/tls.c:546-748 | every run of the honest pair passes through the same ten states; before the last a step is always possible |
| TlsHandshake.Agreement | vlibc/src/tls/tls.c:871-1087 | at the end both are established with equal secrets, matching counters and equal transcripts at each Finished |
| TlsHandshake.HandshakeThenStream | vlibc/src/tls/tls.c:546-1228 | after any honest handshake the streams of PairStreams hold |
| FatChain.Fs.FatSet | vnu/kernel/fs/fat16.cpp:132-144 | one entry changes in every copy of the table, no sector outside |
| FatChain.Fs.FatNext | vnu/kernel/fs/fat16.cpp:147-157 | the link, with free, bad and end marks ending the chain |
| FatChain.Fs.ChainLen | vnu/kernel/fs/fat16.cpp:159-176 | the length of the chain; the loop guard never fires |
| FatChain.Fs.ChainAt | vnu/kernel/fs/fat16.cpp:179-192 | the n-th cluster, failing exactly past the end |
| FatChain.Fs.FreeChain | vnu/kernel/fs/fat16.cpp:209-224 | exactly the chain's clusters become free |
| FatChain.Fs.ClusterAlloc | vnu/kernel/fs/fat16.cpp:228-254 | the lowest free cluster, zeroed and linked; fails exactly when none is free |
| FatChain.Fs.EnsureChain | vnu/kernel/fs/fat16.cpp:258-292 | succeeds if and only if the chain and the free clusters together reach the length; even a failure keeps a chain |
| FatChain.GrewFree | vnu/kernel/fs/fat16.cpp:258-292 | growing takes exactly as many free clusters as it adds |
| FatData.RangeWrite | vnu/kernel/fs/fat16.cpp:296-338 | the chain's bytes are overwritten at the offset, no sector outside the chain changes |
| FatData.RangeRead | vnu/kernel/fs/fat16.cpp:1097-1140 | exactly the slice of the chain's bytes |
| FatData.GrewBytes | vnu/kernel/fs/fat16.cpp:228-292 | growing appends zeros |
| FatStore.Store.Grow | vnu/kernel/fs/fat16.cpp:258-292 | on the volume: no other chain changes; succeeds exactly when the bytes fit held and spare clusters |
| FatStore.Store.Cut | vnu/kernel/fs/fat16.cpp:1213-1225 | the chain keeps exactly its first clusters |
| FatStore.Store.ExtendDir | vnu/kernel/fs/fat16.cpp:747-791 | one zeroed cluster behind a directory, exactly when one is spare |
| FatNames.BuildShort | vnu/kernel/fs/fat16.cpp:554-603 | the 8.3 form, whether it fits, and the case bits |
| FatNames.BuildSfnName | vnu/kernel/fs/fat16.cpp:350-387 | the displayed name of an 8.3 row |
| FatNames.SfnChecksum | vnu/kernel/fs/fat16.cpp:342-348 | the rotate-and-add checksum |
| FatNames.ShortRoundTrip | vnu/kernel/fs/fat16.cpp:350-603 | an 8.3 name with case bits reads back as itself, but for a trailing dot |
| FatNames.LongRoundTrip | vnu/kernel/fs/fat16.cpp:656-719 | long-name rows read back as the name, cut at 255 bytes |
| FatDir.ScanNext | vnu/kernel/fs/fat16.cpp:433-510 | the next group of rows: its name, fields and position, with dead rows skipped |
| FatEntry.FindEntry | vnu/kernel/fs/fat16.cpp:512-528 | the first entry of that name, or none has it |
| FatEntry.DirHasSfn | vnu/kernel/fs/fat16.cpp:530-542 | whether some row has the short name |
| FatEntry.MakeUniqueSfn | vnu/kernel/fs/fat16.cpp:605-653 | a short name no row has, unless all 999999 candidates are taken |
| FatEntry.BuildEntries | vnu/kernel/fs/fat16.cpp:656-719 | rows of one well-formed group; the name reads back if and only if it has at most 255 bytes and is no 8.3 name ending in a dot |
| FatRows.UpdateEntry | vnu/kernel/fs/fat16.cpp:793-805 | one row gets the cluster and size, no other row changes |
| FatRows.DeleteSlot | vnu/kernel/fs/fat16.cpp:732-740 | all rows of the entry are marked dead, all others kept |
| FatRows.DirAppend | vnu/kernel/fs/fat16.cpp:747-791 | the group joins the directory if and only if it fits what the directory holds and may grow by |
| FatModel.Step | vnu/kernel/fs/fat16.cpp:1142-1297 | the argument every operation uses: one changed entry, all others the same, keeps the volume's meaning |
| FatVolume.Volume.Find | vnu/kernel/fs/fat16.cpp:512-528 | finds an entry exactly when the map has the folded name |
| FatVolume.Volume.Read | vnu/kernel/fs/fat16.cpp:1097-1140 | the slice of the map's bytes; fails exactly on a missing name or a folder |
| FatVolume.Volume.Create | vnu/kernel/fs/fat16.cpp:1179-1189 | adds an empty file if and only if the name is new and its rows fit; nothing else changes |
| FatVolume.Volume.Write | vnu/kernel/fs/fat16.cpp:1142-1177 | splices the bytes in, a gap read as zeros, if and only if the rows and clusters fit; else only an empty file may have appeared |
| FatVolume.Volume.Truncate | vnu/kernel/fs/fat16.cpp:1191-1233 | cuts or extends with zeros if and only if the file exists and the growth fits |
| FatVolume.Volume.Unlink | vnu/kernel/fs/fat16.cpp:1235-1248 | removes exactly that file; fails exactly on a missing name or a folder |
| FatVolume.Volume.InitSubdir | vnu/kernel/fs/fat16.cpp:807-830 | a directory holding the two dot entries and nothing else |
| FatVolume.Volume.Mkdir | vnu/kernel/fs/fat16.cpp:1250-1273 | adds an empty folder if and only if the name is new, a cluster is spare and its rows then fit |
| FatVolume.Volume.Rmdir | vnu/kernel/fs/fat16.cpp:1275-1297 | removes a folder if and only if it exists and nothing in the map lies in it |
| FatVolume.NeedEnough | vnu/kernel/fs/fat16.cpp:1161 | the cluster count in 32 bits is enough if and only if size + cluster - 1 < 2^32, and then minimal |
| FatVolume.NeedNothing | vnu/kernel/fs/fat16.cpp:1204 | past that the count is 0 |
| FatVolume.Volume.GrowWraps | vnu/kernel/fs/fat16.cpp:1202-1232 | a growing truncate past that succeeds, allocates nothing and leaves a size the chain does not hold |
| FatFormat.Geometry | vnu/kernel/fs/fat16.cpp:868-905 | a layout for exactly 4152 to 8387488 sectors, its table covering every cluster |
| FatFormat.Format | vnu/kernel/fs/fat16.cpp:868-967 | for exactly those sizes an empty, well-formed volume; no data sector changes |
| FatFormat.Mount | vnu/kernel/fs/fat16.cpp:969-1010 | recovers the geometry of every boot sector that format writes, and checks what it accepts |
| FatOpen.FormatThenMount | vnu/kernel/fs/fat16.cpp:868-1010 | format then mount gives the empty map with every cluster spare |
| Occlusion.ClipRect | vnu/kernel/gui/gui.cpp:92-101 | the clipped rectangle holds exactly the common pixels |
| Occlusion.SortEdges | vnu/kernel/gui/gui.cpp:116-124 | ascending, and a permutation |
| Occlusion.Dedupe | vnu/kernel/gui/gui.cpp:125-128 | strictly ascending, the same values |
| Occlusion.SortSpans | vnu/kernel/gui/gui.cpp:142-150 | by start, and a permutation |
| Occlusion.MergeSpans | vnu/kernel/gui/gui.cpp:151-168 | the number of rows some span holds |
| Occlusion.UnionArea | vnu/kernel/gui/gui.cpp:108-172 | the number of pixels in the union of the rectangles |
| Occlusion.FullyCovered | vnu/kernel/gui/gui.cpp:188-211 | true if and only if the window has a pixel and each lies in an opaque, shown window above it |
| HeapList.MergeOk | vlibc/src/stdlib/malloc.c:72-82 | one pass leaves no two free neighbours and keeps bytes, tiling and busy blocks |
| HeapList.RunMerged | vlibc/src/stdlib/malloc.c:72-82 | every maximal free run ends up inside one block |
| Heap.Allocator.FindBlock | vlibc/src/stdlib/malloc.c:84-92 | the first free block that is large enough, or there is none |
| Heap.Allocator.Coalesce | vlibc/src/stdlib/malloc.c:72-82 | the list is merged in memory and no payload byte is written |
| Heap.Allocator.Take | vlibc/src/stdlib/malloc.c:94-107 | a new live payload, the rest split off when it is worth a header |
| Heap.Allocator.MoreHeap | vlibc/src/stdlib/malloc.c:39-68 | one new free block at the old break, exactly when the doubling ends and the kernel grants it |
| Heap.Allocator.Malloc | vlibc/src/stdlib/malloc.c:109-131 | a fresh payload of the rounded size, or NULL only when no free run is large enough and the kernel refused; at most three searches; no live payload byte is written |
| Heap.Allocator.Free | vlibc/src/stdlib/malloc.c:133-138 | exactly that payload stops being live |
| Heap.Allocator.UserStore | vlibc/src/stdlib/malloc.c:109-138 | a store inside a live payload keeps the heap whole |
| Heap.LiveApart | vlibc/src/stdlib/malloc.c:94-107 | live payloads do not overlap |
| Heap.RoundEnough | vlibc/src/stdlib/malloc.c:113 | the rounded size is enough if and only if size + 7 does not wrap |
| Heap.RoundToNothing | vlibc/src/stdlib/malloc.c:113 | the largest size rounds to 0 |
| Heap.GrowthEnds | vlibc/src/stdlib/malloc.c:45-47 | the doubling loop ends if and only if the demand is at most half the address space |
| Pipe.Pipes.Create | vnu/kernel/fs/pipe.cpp:128-165 | two ends of a new empty pipe, exactly when a pipe, a table and two descriptors are free |
| Pipe.Pipes.ReadFd | vnu/kernel/fs/pipe.cpp:173-191 | the oldest bytes; 0 only when empty and nobody holds a write end |
| Pipe.Pipes.WriteFd | vnu/kernel/fs/pipe.cpp:193-209 | appends what fits; EPIPE exactly when nobody holds a read end |
| Pipe.Pipes.CloseFd | vnu/kernel/fs/pipe.cpp:211-225 | one descriptor gone, the counts still those of the tables |
| Pipe.Pipes.DupFd | vnu/kernel/fs/pipe.cpp:227-242 | a second descriptor, ENOSPC exactly when none is free |
| Pipe.Pipes.Dup2Fd | vnu/kernel/fs/pipe.cpp:244-269 | newfd becomes oldfd, its former meaning released |
| Pipe.Pipes.CloseAllOf | vnu/kernel/fs/pipe.cpp:271-285 | the process holds nothing, no other process changes |
| Pipe.Pipes.ForkCopy | vnu/kernel/fs/pipe.cpp:287-308 | the child holds a reference of its own to all the parent holds |
| Snake.Game.Occupied | thams/snake/snake.c:60-66 | whether the cell is in the body |
| Snake.Game.PlaceFood | thams/snake/snake.c:72-92 | food on a free cell, and none exactly when the snake fills the board |
| Snake.FullBoard | thams/snake/snake.c:72-92 | a snake of 600 distinct cells is the whole board |
| Snake.Game.Reset | thams/snake/snake.c:94-109 | the starting snake, in every detail |
| Snake.Game.Step | thams/snake/snake.c:114-156 | moves, grows and scores exactly when not fatal; the body stays distinct and connected, and the next head is never the neck |
| Snake.NeverTheNeck | thams/snake/snake.c:234-240 | why a queued turn cannot reverse |
| Snake.Game.Turn | thams/snake/snake.c:234-240 | queues any heading but the reverse of the current one |
| Snake.Game.OnKey | thams/snake/snake.c:242-263 | each key's effect, alive or not |
| BlockDev.Devices.constructor | vnu/kernel/fs/blockdev.cpp:43-95 | whole drives and clipped partitions, each inside its drive, none empty |
| BlockDev.TableInside | vnu/kernel/fs/blockdev.cpp:66-76 | every listed partition lies inside its drive |
| BlockDev.Devices.Read | vnu/kernel/fs/blockdev.cpp:132-181 | exactly the clipped slice of the partition, for every offset and length |
| BlockDev.Devices.Write | vnu/kernel/fs/blockdev.cpp:183-236 | exactly that slice changes, nothing outside the partition and no other drive |

## Findings

Places where the code does not do what it is for on all inputs. Each is kept as the code has
it, with the exact condition.

- tls_bn.c:255 compares only the modulus's own limbs with the base. A base with more limbs
  and small low ones is cut instead of reduced: `ModPow.BaseTruncated`, exactly when by
  `ModPow.BaseAgreesIff`. The RSA calls are not affected by it when the modulus has no
  leading zero byte: their base fits its limbs (`ModPow.BaseInLimbs`).
- tls_bn.c:227 never writes m[128], and bn_mod reads it for a modulus that fills all 128
  limbs. A non-zero value there makes every power wrong by a factor:
  `ModPow.StaleModpowBreaks`, harmless exactly when by `ModPow.StaleHarmlessIff`. The
  handshake's 2048-bit modulus is not affected (`ModPow.NoStale`).
- tls.c:708 and tls.c:1011 pass the record's own tag field as the tag output of
  tls_gcm_open, so the tag comparison is between equal bytes (`Gcm.TlsGcmOpenOver`). What is
  checked at these two calls is the verify data. The call in decrypt_record has its own
  buffer and does check the tag (`Gcm.TlsGcmOpen`).
- fat16.cpp:1204 computes the cluster count in 32 bits. For a size within one cluster of
  2^32 the count is 0 (`FatVolume.NeedNothing`), and a growing truncate succeeds with a size
  its chain does not hold (`FatVolume.Volume.GrowWraps`). The count is right exactly below
  that (`FatVolume.NeedEnough`).
- malloc.c:113 rounds the seven largest sizes to 0 (`Heap.RoundToNothing`, exactly when by
  `Heap.RoundEnough`), so malloc returns a payload of no bytes. malloc.c:46 doubles until the
  demand is met and does not end once it is above half the address space
  (`Heap.GrowthEnds`).
- fat16.cpp:554-602 drops a trailing dot of an 8.3 name, and long names are cut at 255
  bytes: the name reads back exactly otherwise (`FatEntry.BuildEntries`).
- tls_bn.c:353 refuses an empty message that tls_rsa_encrypt_pkcs1 accepts
  (`Pkcs1.UnpadPad`).

## Left out

- ModPow.TlsModpow: a stale limb of 2^31 or more above a modulus of 128 limbs, where the
  shifted remainder of bn_mod loses its top bit.
- TlsHandshake.OpenFinished: a Finished record of more than 32 plaintext bytes. The source
  has room for 32 and does not check, so its behaviour there is not defined and the model
  stops.
- TlsHandshake.Agreement: says nothing about a dishonest peer or a changed stream. AES,
  SHA-256, the PRF and X.509 are parameters, so no secrecy or forgery claim is made.
- TlsStream.PairRun: transport errors and timeouts; a dry stream is the only failure of a
  read. Allocation failures in tls.c are left out throughout.
- FatVolume.Volume.Write: ends within one cluster below 2^32, where the cluster count wraps;
  ends of 2^32 and more are covered. How many clusters are spare after a failure is not
  claimed: on a full volume the source may lose some.
- FatVolume.Volume.Truncate: the same sizes; `FatVolume.Volume.GrowWraps` says what happens.
- FatVolume.Volume.Create: names of 1 to 255 bytes without NUL that do not end in a dot.
- FatEntry.MakeUniqueSfn: a name that fits 8.3 is stored without this check, so short names
  are not claimed to be unique in a directory.
- FatFormat.Mount: boot sectors format did not write are only claimed to yield a consistent
  layout.
- Device failures in the middle of a FAT16 or block-device operation.
- Occlusion.UnionArea: coordinates whose sums overflow 32 bits.
- Heap.Allocator.MoreHeap: a break that would wrap past the address space counts as refused.
- Pipe.Pipes.ForkCopy: a child with the parent's own number.
- BlockDev.Devices.Read: lengths of 2^31 or more, which do not fit the signed result.
- Snake.Game.OnKey: the escape key, which ends the program.
- AES, SHA-256, HMAC and the PRF (tls_crypto.c:32-415), X.509 parsing, and key generation.
- fat16.cpp: path resolution, directory listing, volume_stats and sync; char is taken as
  signed.
- gui.cpp apart from the occlusion test: drawing and the event loop.
- vfs.cpp, drivers, device names and the rest of the C library: dispatch and easy members
  beside the cores above.
