# efilipo, modelled and proved in Dafny

efilipo packs several EFI images into one Apple "fat" container. For every input it tells MZ (PE) images from TE images,
rewrites the MS-DOS stub checksum and the PE checksum of an MZ image in place, maps the machine type to a Mach-O CPU
type, and plans where the body will lie; then it writes a header, a table of architectures and the bodies. This project
models that program from `efilipo/efilipo.c` and the on-disk structures of `efilipo/machfat.h`.

The loops and in-place updates are methods over arrays and a file object, each proved against a function of its input;
the theorems are about those functions and about whole runs.

| file | contents |
|---|---|
| `Bytes.dfy` | fixed-width integers, little-endian fields, overwriting bytes |
| `WordSums.dfy` | word sums, the end-around-carry fold, what changes and concatenation do to it |
| `Checksums.dfy` | the two checksum loops |
| `Machines.dfy` | machine type to CPU type |
| `Images.dfy` | checking and patching one image, as a function and in place |
| `Seals.dfy` | when the checksums hold of the finished bytes, and that any later byte change breaks them |
| `WrittenSums.dfy` | the PE sum as written, in closed form |
| `Verdicts.dfy` | which files are accepted, as which CPU, and with which code the others are rejected |
| `Patching.dfy` | frame, idempotence and checksum validity of a prepared file |
| `Structs.dfy` | where the C structures put the fields used |
| `Containers.dfy` | header, table, planned layout, output bytes, a reader, the round trip |
| `ContainerLaws.dfy` | the reverse round trip, injectivity, locality of changes |
| `Endianness.dfy` | the little-endian and big-endian builds write the same header and table |
| `Lipo.dfy` | a whole run, as a function and as the program |
| `Guarantees.dfy` | what a finished run promises about its output file |
| `Examples.dfy` | concrete images on which the code misses its purpose, and one run that meets it |

## Where the code and its purpose differ

- **The PE checksum does not read the image.** Lines 238-239 form each word from the buffer's address plus the cursor.
  `WordSource` keeps both readings: `AsWritten(address)` is the code, `AsMeant` the little-endian word at the cursor (an
  odd last byte padded with zero). Folding, the patching frame, layout, round trip and runs are proved for every source,
  so for the code as it stands. That the stored value is the checksum of the image is proved exactly: `PatchedPeSealed`
  gives the condition for any source, `MeantPeSealed` for the meant one, and `WrittenPeSealed` for the code, as one
  residue fixed by address, size and header offset. `WrittenSealsAtMostOne` shows that the code is wrong about at least
  one of any two images differing in one byte outside the checksum fields; `WrittenChecksumWrong` names two for every
  address.
- **A second pass sees other addresses.** Preparing an image again, or packing the members of an output again, leaves
  the bytes as they are if and only if the words of the second pass give the same checksum (`PrepareIdempotent`,
  `RepackReproduces`). The meant words always do; the code's do if and only if two closed forms agree modulo 65535
  (`WrittenIdempotent`; failing pairs in `WrittenNotIdempotent` and `WrittenNotReproduced`).
- **Odd header offsets.** The skip test compares even cursors with `peheader + 88` and `+ 90`, so at an odd `e_lfanew`
  the field is not skipped. The checksum then holds if and only if the stored value is a multiple of 65535
  (`MeantPeSealed`; failing image in `OddHeaderChecksumWrong`).
- **Short stubs.** With `e_lfanew` below 20 the stub sum does not cover `e_csum`; it ends up zero if and only if it
  already was (`PatchedStubSealed`; failing image in `ShortStubChecksumWrong`).
- **32-bit offsets.** The running offset is kept in 32 bits here; the planned offset is the position of the body if and
  only if that position is below 2^32 (`PlannedOffsetReached`). Below 2^31 the C `int` never overflows
  (`NoOffsetOverflow`). A body beyond 2^32 is read back only if its bytes also lie at the recorded start
  (`RoundTripExactly`, `OutputReadsBackExactly`; a run that loses a body in `FarBodyLost`).
- **Thirteen array entries.** The read loop's guard lets it come to index 13. It does so if and only if there are more
  than 13 inputs and the first 13 pass (`FitsExactly`; fourteen such inputs in `FourteenOverrun`).
- **A reader follows the image's own `e_lfanew`.** Any other byte change in an image with a valid PE checksum is
  noticed. A change of bytes 60-63 is noticed unless it leads to another header whose stored value meets an exact
  condition (`TamperedIntact`; `MovedHeaderUnnoticed` shows one).
- **Byte order.** `efilipo/machfat.h:36-37` says the structures are big-endian on disk; the tool writes them
  little-endian, and so does the model.

The code checks no lengths. The precondition `InBounds` says that the accesses it makes to a file's buffer stay inside
it, with the size in an `int`; it asks neither for an even `e_lfanew` nor for one past the stub header. `SafeRun`
asks it of the inputs the read loop gets to, not of those behind a failing one. `Fits` asks, for the arrays of 13
entries, that there are at most 13 inputs or that one of the first 13 fails.

## Model

| member | source | states |
|---|---|---|
| Checksums.StubChecksum | efilipo/efilipo.c:214-227 | the value returned brings the visited stub words to a sum of 0 modulo 65536 |
| Checksums.CreateMsDosStubChecksum | efilipo/efilipo.c:214-227 | the 16-bit loop over `len / 2` words computes that value |
| Checksums.NextWord | efilipo/efilipo.c:238-242 | the word formed at each cursor, blanked in the checksum field, is the next one of the specified word sequence |
| WordSums.AddWithCarry | efilipo/efilipo.c:244-245 | adding a word to a folded sum and masking gives the fold of the longer sum |
| WordSums.CarryFolds | efilipo/efilipo.c:245 | one masking step is a fold for every value up to 0x1FFFE, and nothing exceeds 0x1FFFF before masking |
| WordSums.FoldClosedForm | efilipo/efilipo.c:237-249 | the accumulator is 0 for a zero sum S and ((S - 1) mod 65535) + 1 otherwise |
| WordSums.FoldEqual | efilipo/efilipo.c:237-249 | two sums fold alike if and only if they agree modulo 65535 and on being zero |
| WordSums.WordChangeNoticed | efilipo/efilipo.c:237-249 | replacing one word goes unnoticed if and only if 0 and 0xFFFF trade places beside a non-zero rest |
| WordSums.FoldOfConcatenation | efilipo/efilipo.c:237-249 | the folded sum of two joined blocks of any lengths comes from their folded sums, byte-shifted after an odd block |
| Checksums.FoldedSum | efilipo/efilipo.c:237-247 | the loop with a fold per word and a 32-bit cursor computes the fold of the unbounded sum, for every word source |
| Checksums.CalcPeChecksum | efilipo/efilipo.c:229-253 | the result is the folded sum plus the size in 32 bits; the fold after the loop changes nothing |
| Checksums.PeChecksumDoesNotWrap | efilipo/efilipo.c:249-250 | for every `int` size the size can be taken off again without wrap-around |
| Checksums.PeLoopTerminates | efilipo/efilipo.c:234-247 | under 32-bit wrap-around the loop ends if and only if the size is not 2^32 - 1 |
| Checksums.MeantWords | efilipo/efilipo.c:237-247 | the meant sum is the word sum of the image with the field blanked at an even offset, and of the bare image at an odd one |
| Checksums.CoveredByteNoticed | efilipo/efilipo.c:237-252 | changing any byte the meant sum covers changes the meant checksum, for every image size |
| Checksums.WordOrderIrrelevant | efilipo/efilipo.c:237-252 | images whose summed words are rearrangements of each other have the same checksum |
| Seals.ExchangeUnnoticed | efilipo/efilipo.c:237-252 | exchanging two aligned words of an image clear of the checksum field keeps the meant checksum |
| Checksums.WrittenIgnoresContents | efilipo/efilipo.c:238-239 | the checksum as written is the same for all images of one size at one address |
| Seals.StubChecksumUnique | efilipo/efilipo.c:339-340 | the stored value is the only one with which the stub sums to zero |
| Seals.PatchedStubSealed | efilipo/efilipo.c:339-340 | after patching, the stub sums to zero if and only if it reaches past its field or already summed to zero |
| Seals.StubTamperEvident | efilipo/efilipo.c:214-227 | any later change of one byte inside the summed stub breaks the zero sum |
| Seals.PatchedPeSealed | efilipo/efilipo.c:362-363 | for any word source, the stored value is the meant checksum of the finished image if and only if a congruence between the two sums holds beforehand |
| Seals.MeantPeSealed | efilipo/efilipo.c:362-363 | with the meant words it always is at an even header offset, and at an odd one if and only if the value is a multiple of 65535 |
| Seals.PeTamperEvident | efilipo/efilipo.c:229-253 | if the stored checksum holds, changing any one byte of the image, the field included, at any header offset, makes it fail |
| Seals.MeantSumSplits | efilipo/efilipo.c:241-242 | the meant sum and the words of the skipped field make up the word sum of the image |
| Seals.ChangedSealed | efilipo/efilipo.c:229-253 | after a byte change outside the field, a stored checksum holds at any header offset if and only if a congruence over the unchanged image does |
| Seals.WrittenSealsAtMostOne | efilipo/efilipo.c:238-239 | as written, the stored value is right for at most one of two images that differ in one byte outside the field |
| WrittenSums.WrittenSumIs | efilipo/efilipo.c:237-247 | the sum as written has a closed form in the address, the size and the header offset |
| WrittenSums.WrittenPeSealed | efilipo/efilipo.c:238-250 | as written, the stored value is right if and only if the meant sum has the one residue modulo 65535 that those three fix |
| Images.StoreWord | efilipo/efilipo.c:339-340 | the 16-bit store replaces two bytes and nothing else |
| Images.StoreDword | efilipo/efilipo.c:362-363 | the 32-bit store replaces four bytes and nothing else |
| Images.UpdateStub | efilipo/efilipo.c:339-340 | clearing and refilling `e_csum` in place gives the patched stub |
| Images.UpdatePe | efilipo/efilipo.c:362-363 | clearing and refilling CheckSum in place gives the patched image |
| Images.UpdateOptionalHeader | efilipo/efilipo.c:360-378 | the two branches in sequence patch once for either magic and not at all for any other |
| Images.PrepareInPlace | efilipo/efilipo.c:320-462 | one turn of the read loop returns the code of the first failing check, or leaves the patched image in the buffer with its CPU pair |
| Images.PatchPeKeepsHeaders | efilipo/efilipo.c:358-370 | filling in CheckSum changes neither the machine nor the optional-header magic |
| Verdicts.HeaderOffsetBytes | efilipo/efilipo.c:134 | the header offset is the little-endian number in bytes 60-63 |
| Verdicts.BoundsExactly | efilipo/efilipo.c:320-374 | how long each kind of file must be for the accesses made to it, from its bytes |
| Verdicts.VerdictOf | efilipo/efilipo.c:322-462 | for every file within bounds, from its bytes: -3 if and only if it has neither signature, -4 if and only if it is MZ and leads to no PE header, -5 if and only if it is recognised and its machine unsupported, and otherwise the CPU pair of its machine |
| Verdicts.OptionalHeaderMagics | efilipo/efilipo.c:175-176 | the optional header counts for exactly the magics 0x10B and 0x20B |
| Verdicts.StoredChecksum | efilipo/efilipo.c:360-378 | with either magic the finished image stores the folded sum plus its size; with neither only the stub checksum changes |
| Machines.SupportedMachines | efilipo/efilipo.c:381-461 | over all machine words, exactly 18 have a CPU |
| Machines.WideMachines | efilipo/efilipo.c:398-446 | exactly five of them carry the 64-bit flag |
| Machines.FamilyOfMachine | efilipo/efilipo.c:381-451 | each CPU type below the flag stands for exactly one family of machines |
| Machines.SubtypeOfMachine | efilipo/efilipo.c:381-451 | exactly the x86 and ARMv7 machines have a subtype, 3 and 9 |
| Images.PatchPeFrame | efilipo/efilipo.c:362-374 | filling in CheckSum changes its four bytes only |
| Patching.PrepareFrame | efilipo/efilipo.c:322-379 | an MZ image changes at most in bytes 18-19 and, with a known optional header, `e_lfanew` + 88..91; a TE image nowhere |
| Patching.PrepareAgain | efilipo/efilipo.c:320-462 | a prepared image is in bounds, and preparing it again, with any word source, is preparing the original with that source |
| Patching.PrepareIdempotent | efilipo/efilipo.c:339-374 | the second time changes nothing if and only if both sources give the same PE checksum or there is none; so always with one source |
| Patching.WrittenIdempotent | efilipo/efilipo.c:238-250 | as written, from two buffer addresses, if and only if there is no PE checksum or two closed forms in address, size and header offset agree modulo 65535 |
| Patching.PrepareSeals | efilipo/efilipo.c:337-379 | for every accepted MZ image and word source, when each of the two checksums holds of the final bytes |
| Patching.MeantImagesSealed | efilipo/efilipo.c:337-379 | with the meant words the PE checksum holds of the final bytes at every even header offset; at odd ones the exact condition |
| Patching.BothChecksumsHold | efilipo/efilipo.c:337-379 | with the meant words both checksums hold at every even header offset of 20 or more |
| Patching.SourceAffectsChecksumOnly | efilipo/efilipo.c:337-462 | verdict and CPU do not depend on the words summed; two sources give the same result if and only if there is no PE checksum or their sums fold alike |
| Structs.CheckSumOffset | efilipo/efilipo.c:19-98 | both optional headers put CheckSum 88 bytes after the PE signature, where the sum skips |
| Structs.OtherOffsets | efilipo/efilipo.c:100-135 | the offsets of `e_csum`, `e_lfanew` and the TE machine, and the sizes 8 and 20 of the container structures |
| Containers.ParseOfArchBytes | efilipo/machfat.h:62-68 | a printed table entry parses to itself |
| Containers.ArchBytesOfParse | efilipo/machfat.h:62-68 | any 20 bytes are the print of their parse |
| Containers.LayoutIsTight | efilipo/efilipo.c:285-286 | the bodies follow the table and one another without gap and end at the end of the file |
| Containers.SlicesPartition | efilipo/efilipo.c:464-468 | every byte after the table lies in exactly one body |
| Containers.PlannedOffsetReached | efilipo/efilipo.c:464-503 | when body i is written the bytes already out number its position, and the planned offset is that position if and only if it is below 2^32 |
| Containers.NoOffsetOverflow | efilipo/efilipo.c:285-468 | if the file is shorter than 2^31 no addition to the offset leaves the `int` range |
| Containers.PlanExtends | efilipo/efilipo.c:285-469 | one more member moves every earlier offset by 20 and changes nothing else in its entry |
| Containers.ReadsRecorded | efilipo/efilipo.c:464-503 | reading a written container of any size returns, in order, what lies at the 32-bit starts recorded |
| Containers.RoundTripExactly | efilipo/machfat.h:25-33 | it returns exactly the members if and only if every body starts below 2^32 or has its bytes again at the recorded start |
| Containers.RoundTrip | efilipo/machfat.h:25-33 | so for every container whose bodies start below 2^32, members come back in order with their CPU pairs |
| ContainerLaws.RepackTight | efilipo/machfat.h:25-33 | any container read as a gapless layout in table order is byte for byte what the tool writes for its members |
| ContainerLaws.ContainerTight | efilipo/efilipo.c:487-503 | what the tool writes is such a container |
| ContainerLaws.ContainerInjective | efilipo/efilipo.c:487-503 | two addressable member lists with the same container are the same list |
| ContainerLaws.SameSizesInjective | efilipo/efilipo.c:487-503 | member lists that agree in all sizes have the same container, of any size, if and only if they are the same list |
| ContainerLaws.TamperingIsLocal | efilipo/machfat.h:25-33 | replacing a byte inside a body's slice changes that member's byte on reading and no other member |
| Endianness.BuildsAgree | efilipo/efilipo.c:13-17 | swapped fields and the reversed magic give a big-endian build the same header and table bytes, for all values and lengths |
| Lipo.OutFile.Write | efilipo/efilipo.c:487-500 | a write appends its bytes at the current end |
| Lipo.LoadAndPrepare | efilipo/efilipo.c:291-318 | one input is read into a fresh buffer and ends as its checks decide |
| Lipo.IndexFits | efilipo/efilipo.c:257-289 | with at most 13 inputs, or a failing one among the first 13, the loop index stays inside the arrays |
| Lipo.FitsExactly | efilipo/efilipo.c:257-289 | every other safe run comes to a turn with index 13: the condition is exact |
| Lipo.ReadInputs | efilipo/efilipo.c:283-470 | the read loop returns the first failing code, or a table with the planned entry and a buffer with the patched image of every input |
| Lipo.WriteTable | efilipo/efilipo.c:489-495 | the first write loop appends the table entries in order |
| Lipo.WriteBodies | efilipo/efilipo.c:497-503 | the second write loop appends the bodies, each starting at its position |
| Lipo.Pack | efilipo/efilipo.c:255-508 | the program's exit code and output are those of the specified run, and every body is written at its position |
| Lipo.AllOrNothing | efilipo/efilipo.c:289-507 | output exists if and only if there are inputs, all pass and the file opens, if and only if the code is 0 |
| Lipo.ExitCodes | efilipo/efilipo.c:276-507 | 1 if and only if there are no inputs, 0 and -6 if and only if all pass and the output can or cannot be opened, -1 to -5 if and only if an input fails |
| Lipo.CauseOfFailure | efilipo/efilipo.c:297-461 | an input is rejected with a code if and only if it fails for the cause that code stands for: unopenable -1, read short -2, no signature -3, no PE header -4, unsupported machine -5 |
| Lipo.FirstFailureDecides | efilipo/efilipo.c:289-470 | the lowest failing input's cause of failure gives the exit code, and nothing is written |
| Guarantees.OutputReadsBackExactly | efilipo/efilipo.c:283-507 | reading a run's output of any size gives the patched image and CPU pair of every input, in order, if and only if every body starts below 2^32 or has its bytes again at the recorded start |
| Guarantees.OutputReadsBack | efilipo/efilipo.c:283-507 | so for every run whose bodies start below 2^32 |
| Guarantees.RepackRuns | efilipo/efilipo.c:255-508 | running the tool on the members of a run, whatever buffers they get, is running it on the original inputs with those buffers |
| Guarantees.RepackReproduces | efilipo/efilipo.c:255-508 | it reproduces the output byte for byte if and only if, for every input, the second run's words give the same PE checksum as the first run's or there is none |
| Guarantees.RepackSameSources | efilipo/efilipo.c:255-508 | so it always does when each input is summed from the same words both times, as with the meant ones |
| Guarantees.AppendingInput | efilipo/efilipo.c:285-469 | one more accepted input keeps every earlier member and moves its body by 20 |
| Guarantees.TamperedIntact | efilipo/efilipo.c:337-374 | an image whose own header leads to a checksum that holds loses that by any change of one byte, except a change of `e_lfanew` to another header that meets an exact condition |
| Guarantees.OutputTamperEvident | efilipo/efilipo.c:255-508 | in a run's output, replacing a byte of such an image shows on reading back under the same exact condition, and touches no other member |
| Examples.WrittenChecksumWrong | efilipo/efilipo.c:238-239 | two accepted images of 156 bytes of which, at every buffer address, the code gives at least one a wrong PE checksum |
| Examples.WrittenNotIdempotent | efilipo/efilipo.c:238-239 | an image that changes when prepared again from a buffer 16 bytes further on |
| Examples.WrittenNotReproduced | efilipo/efilipo.c:238-239 | a run whose unpacked output, packed again from another buffer, gives another file |
| Examples.MovedHeaderUnnoticed | efilipo/efilipo.c:340-346 | a 512-byte image that stays intact when byte 61 is changed, its header moving onto another |
| Examples.FarBodyLost | efilipo/efilipo.c:464-468 | a run on four accepted TE images whose last body lies beyond 2^32 and is not read back |
| Examples.FourteenOverrun | efilipo/efilipo.c:257-289 | fourteen accepted inputs with which the read loop runs past its arrays |
| Examples.OddHeaderChecksumWrong | efilipo/efilipo.c:241-242 | a 157-byte image with an odd header offset whose checksum does not hold even with the meant words |
| Examples.ShortStubChecksumWrong | efilipo/efilipo.c:339-340 | a 96-byte image whose stub is too short to sum to zero after patching |
| Examples.SampleRun | efilipo/efilipo.c:255-508 | with the meant words a run on the 156-byte image succeeds and meets the premises of the output guarantees |

## Left out

- File system calls, `malloc` failure, messages and usage text: the outcome of opening and reading each input and of
  opening the output are parameters, and writes are taken to succeed in full.
- `isTE` is not initialised by the code; the model takes it as false until the TE branch sets it.
- More than 13 inputs of which the first 13 pass, which overrun the tool's arrays, and files of 2^31 bytes or more,
  whose size does not fit `int`.
- After a failed open of the output the code closes a null file; the model returns -6 there.
- Signed overflow of the running offset is taken as 32-bit wrap-around.
- Reading images on a big-endian host (swapped machine type, unswapped `e_lfanew`, the other signature constants).
- The boot loader under `src/` and the headers under `include/` and `sdk/`, which this tool does not use.
