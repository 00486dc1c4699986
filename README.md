# AES-GCM-SIV: POLYVAL and the decrypting fold

This project models the hashing and counter-mode core of an AES-GCM-SIV
implementation (RFC 8452) written with x86 vector intrinsics, and proves it
correct:

- **POLYVAL** (section 3 of RFC 8452), in `AesGcmSiv.Polyval.cs`:
  - `PolyvalHorner` folds the input one 16-byte block at a time;
  - `InitPowersTable` fills a table with the powers H, H^2, ... of the hash key;
  - `PolyvalPowersTable` folds a leading short group, then groups of eight blocks against that table with deferred reduction, then a zero-padded partial block.
- **Decryption** (sections 4 and 5 of RFC 8452), `DecryptPowersTable` in `AesGcmSiv.Decrypt.cs`. It decrypts the ciphertext in counter mode under AES-256 and folds the recovered plaintext into the POLYVAL state as it goes:
  - six blocks at a time while at least 96 bytes remain;
  - then one block at a time;
  - then a final partial block.

The files:

- `gf2.dfy` (module `Gf2`): polynomials over GF(2) as natural numbers. Covers xor, shifts, carry-less multiplication and their ring laws, and congruence modulo a polynomial with cancellation of powers of x.
- `blocks.dfy` (module `Blocks`): the data model.
  - Bytes are `Byte`, 64-bit lanes are `Word`, and a `Vector128<ulong>` register is `Block(lo, hi)`.
  - The intrinsics used are modelled: `Pclmulqdq.CarrylessMultiply` with its lane selector, the 8-byte lane shifts, the lane swap (`Shuffle 78` or `AlignRight 8`), and little-endian loads and stores of 16 bytes.
  - Zero padding of a partial block is here too.
- `field.dfy` (module `Field`): the multiply-reduce kernel `Dot`, written instruction by instruction.
  - `DotIsMult` proves that it computes `Mult`, the POLYVAL product: `Dot(a, b) * x^128 == a * b` modulo x^128 + x^127 + x^126 + x^121 + 1.
  - It proves that `Mult` is commutative, associative and distributive over xor.
  - It proves that the deferred reduction of accumulated products is linear.
  - None of these laws is assumed.
- `polyval.dfy` (module `Polyval`): the three POLYVAL routines as methods over arrays.
  - They are proved against the reference `Horner`: Horner's rule over the input cut into zero-padded blocks.
  - `PolyvalPowersTable` is also proved against `Batched`, which describes its grouping.
- `decrypt.dfy` (module `Decrypt`): `DecryptPowersTable` and its phases as methods that write `pt` in place.
  - They are proved against `Ctr`, plain counter mode, and against `DecryptFold`, the fold as decryption groups it.
  - `DecryptFold` is proved equal to `Horner` when the table holds key powers.

AES-256 itself (`Aes.Encrypt`, `Aes.EncryptLast`) is a parameter: `AesRounds` holds two arbitrary round functions. Every result holds for any block cipher with that round structure.

Decryption folds the decrypted plaintext, not the ciphertext: at `AesGcmSiv.Decrypt.cs:406` and `:447` and from the stored plaintext registers in the six-block loop, as RFC 8452 requires, and the model does the same.

## Model

| member | source | states |
|---|---|---|
| Blocks.Clmul64Val | src/Cryptography/AesGcmSiv.Polyval.cs:29-32 | a 64x64 carry-less multiply yields the polynomial product of the two lanes |
| Blocks.CarrylessMultiply | src/Cryptography/AesGcmSiv.Polyval.cs:29-32 | the result is the carry-less product of the lane of the first operand picked by bit 0 of the selector and the lane of the second picked by bit 4 |
| Blocks.ShiftLeftBytes8 | src/Cryptography/AesGcmSiv.Polyval.cs:34 | defined as the low lane moved to the high lane with zero below it; its byte-level meaning is `Blocks.ByteShifts` |
| Blocks.ShiftRightBytes8 | src/Cryptography/AesGcmSiv.Polyval.cs:35 | defined as the high lane moved to the low lane with zero above it; its byte-level meaning is `Blocks.ByteShifts` |
| Blocks.SwapHalves | src/Cryptography/AesGcmSiv.Polyval.cs:383 | defined as the two lanes exchanged, for both `Shuffle(x, 78)` (line 40) and `AlignRight(x, x, 8)`; its byte-level meaning is `Blocks.ByteShifts` |
| Blocks.ByteShifts | src/Cryptography/AesGcmSiv.Polyval.cs:34-43 | seen as stored bytes, the left and right 8-byte shifts move the register's 16 bytes up or down by eight places with zeros coming in, and the lane swap exchanges the two 8-byte halves |
| Blocks.Load16 | src/Cryptography/AesGcmSiv.Polyval.cs:23 | the loaded register holds the little-endian value of the 16 bytes |
| Blocks.Store16 | src/Cryptography/AesGcmSiv.Polyval.cs:73 | the 16 stored bytes have the register's value, read little-endian |
| Blocks.LoadStore | src/Cryptography/AesGcmSiv.Polyval.cs:23 | loading 16 stored bytes gives back the register |
| Blocks.StoreLoad | src/Cryptography/AesGcmSiv.Polyval.cs:73 | storing a loaded register gives back the 16 bytes |
| Blocks.StoreXor | src/Cryptography/AesGcmSiv.Decrypt.cs:403-404 | storing the xor of two registers stores the byte-wise xor of their bytes |
| Blocks.XorBytesCancel | src/Cryptography/AesGcmSiv.Decrypt.cs:403-404 | xoring with the same key bytes twice restores the data |
| Blocks.Pad16 | src/Cryptography/AesGcmSiv.Polyval.cs:48-53 | the padded block starts with the partial block and is zero after it |
| Blocks.Store | src/Cryptography/AesGcmSiv.Polyval.cs:73 | the 16-byte buffer holds the little-endian bytes of the register |
| Blocks.StoreAt | src/Cryptography/AesGcmSiv.Decrypt.cs:404 | the 16 bytes at the offset hold the register and every other byte is unchanged |
| Field.Product | src/Cryptography/AesGcmSiv.Polyval.cs:138-142 | defined as the lo-by-lo and hi-by-hi lane products and the xor of the two cross products; `Field.ProductVal` states what they hold |
| Field.ProductVal | src/Cryptography/AesGcmSiv.Polyval.cs:138-142 | the three accumulators of one block and one key power hold the full 256-bit carry-less product of the two |
| Field.Absorb | src/Cryptography/AesGcmSiv.Polyval.cs:149-156 | defined as each of the four lane products of the next block and power xored into its accumulator, the 0x01 product before the 0x10 one; `Field.AbsorbDot` states its effect |
| Field.Combine | src/Cryptography/AesGcmSiv.Polyval.cs:159-162 | defined as the middle accumulator split across the low and high halves by the two 8-byte shifts; `Field.CombineVal` states what it keeps |
| Field.CombineVal | src/Cryptography/AesGcmSiv.Polyval.cs:159-162 | the two halves after combining hold the same 256-bit polynomial as the three accumulators |
| Field.ReduceStep | src/Cryptography/AesGcmSiv.Polyval.cs:39-41 | one reduction round divides by x^64 modulo the field polynomial: its result shifted up by 64 differs from its input by exactly the input's low lane times the polynomial |
| Field.Reduce | src/Cryptography/AesGcmSiv.Polyval.cs:380-389 | defined as two reduction rounds on the low half and the high half xored in; `Field.ReduceDiff` states what it computes |
| Field.ReduceDiff | src/Cryptography/AesGcmSiv.Polyval.cs:380-389 | the reduced block times x^128 differs from the 256-bit value by a multiple of the field polynomial |
| Field.Dot | src/Cryptography/AesGcmSiv.Polyval.cs:29-45 | defined as the kernel's instructions in order: four lane products, the middle one split by the two shifts, two reduction rounds, the high half added; `Field.DotCongruent` and `Field.DotIsMult` state what it computes |
| Field.DotIsReducedProduct | src/Cryptography/AesGcmSiv.Polyval.cs:29-45 | the kernel is the four lane products, combined, then reduced in two rounds |
| Field.DotCongruent | src/Cryptography/AesGcmSiv.Polyval.cs:29-45 | the kernel result times x^128 is congruent to the carry-less product modulo the POLYVAL polynomial |
| Field.DotIsMult | src/Cryptography/AesGcmSiv.Polyval.cs:29-45 | the kernel computes the POLYVAL field product |
| Field.MultComm | src/Cryptography/AesGcmSiv.Polyval.cs:29-45 | the field product is commutative |
| Field.MultAssoc | src/Cryptography/AesGcmSiv.Polyval.cs:29-45 | the field product is associative |
| Field.MultDistLeft | src/Cryptography/AesGcmSiv.Polyval.cs:29-45 | the field product distributes over xor |
| Field.MultZero | src/Cryptography/AesGcmSiv.Polyval.cs:29-45 | the zero block times anything is zero |
| Field.ReduceAccXor | src/Cryptography/AesGcmSiv.Polyval.cs:144-162 | reducing the xor of two accumulators is the xor of their reductions, so one reduction per group suffices |
| Field.AbsorbDot | src/Cryptography/AesGcmSiv.Polyval.cs:149-156 | absorbing a block's lane products into the accumulators adds its field product to their reduction |
| Polyval.Chunks | src/Cryptography/AesGcmSiv.Polyval.cs:19-51 | the input makes ceil(length / 16) blocks |
| Polyval.ChunksAppend | src/Cryptography/AesGcmSiv.Polyval.cs:19-46 | a prefix of whole blocks is cut into blocks independently of what follows |
| Polyval.HornerBlocksAppend | src/Cryptography/AesGcmSiv.Polyval.cs:26-46 | folding two block lists in turn is folding their concatenation |
| Polyval.HornerConcat | src/Cryptography/AesGcmSiv.Polyval.cs:19-46 | Horner over a ++ b, with a made of whole blocks, is Horner over b from the state after a |
| Polyval.HornerTail | src/Cryptography/AesGcmSiv.Polyval.cs:48-71 | a 1..15-byte remainder is folded as one zero-padded block after the whole blocks |
| Polyval.PolyvalHorner | src/Cryptography/AesGcmSiv.Polyval.cs:12-74 | an empty input leaves polyval alone; otherwise polyval ends as the Horner fold of the input with the hash key from the old state |
| Polyval.InitPowersTable | src/Cryptography/AesGcmSiv.Polyval.cs:76-108 | slot 0 is the key; slot i is slot i-1 times the key for i < size; slots from size on are untouched; the first size slots are H^1..H^size |
| Polyval.KeyChainPowers | src/Cryptography/AesGcmSiv.Polyval.cs:87-107 | a chain of products by the key is the table of the key's powers |
| Polyval.PowersTableIsKeyChain | src/Cryptography/AesGcmSiv.Polyval.cs:76-77 | a table of powers is a chain of products by its first entry |
| Polyval.PowersNeeded | src/Cryptography/AesGcmSiv.Polyval.cs:121-136 | the batched fold reads at most eight table entries, all eight once a group of eight exists, and at least as many as the short group has blocks |
| Polyval.BlockCount | src/Cryptography/AesGcmSiv.Polyval.cs:121-133 | remainder128 is 16 times the short group's block count, and what follows it is whole groups of eight |
| Polyval.GroupIsHorner | src/Cryptography/AesGcmSiv.Polyval.cs:130-163 | with a key chain, a group's blocks times descending powers, the state added into the first, is the Horner fold of the group |
| Polyval.FullGroupsIsHorner | src/Cryptography/AesGcmSiv.Polyval.cs:165-378 | folding whole groups as batches equals the Horner fold of their blocks |
| Polyval.WholeBlocksIsHorner | src/Cryptography/AesGcmSiv.Polyval.cs:130-389 | the short group followed by the groups of eight equals the Horner fold of the whole blocks |
| Polyval.BatchedIsHorner | src/Cryptography/AesGcmSiv.Polyval.cs:110-113 | with a table of key powers, the batched fold equals the Horner fold with the table's first entry |
| Polyval.AccumulateForward | src/Cryptography/AesGcmSiv.Polyval.cs:135-157 | the accumulators reduce to the short group's sum of products with powers k-1 down to 0, the state added into block 0 |
| Polyval.AccumulateBackward | src/Cryptography/AesGcmSiv.Polyval.cs:171-264 | the accumulators reduce to the group's sum: the last block times hs[0] up to the first block, with the state, times the top power |
| Polyval.ReduceLate | src/Cryptography/AesGcmSiv.Polyval.cs:380-389 | the two closing reduction rounds plus the high half give the reduction of the unreduced pair |
| Polyval.FoldShortGroup | src/Cryptography/AesGcmSiv.Polyval.cs:130-163 | the unreduced pair reduces to the short group's sum of products |
| Polyval.FoldFirstGroup | src/Cryptography/AesGcmSiv.Polyval.cs:169-269 | with no short group, the first group of eight starts from the loaded state |
| Polyval.FoldNextGroup | src/Cryptography/AesGcmSiv.Polyval.cs:271-377 | the previous group's pair, reduced inside the loop, is the state added into the next group |
| Polyval.FoldGroups | src/Cryptography/AesGcmSiv.Polyval.cs:165-378 | the groups of eight, in input order, fold as FullGroups from the state after the short group |
| Polyval.FullGroupsExtend | src/Cryptography/AesGcmSiv.Polyval.cs:271 | one more group on a group boundary folds that group into the state |
| Polyval.FoldWholeBlocks | src/Cryptography/AesGcmSiv.Polyval.cs:130-389 | the whole blocks fold as the short group and then groups of eight, reduced once at the end |
| Polyval.FoldPartialBlock | src/Cryptography/AesGcmSiv.Polyval.cs:391-416 | the zero-padded partial block added into the state is multiplied by htbl[0] |
| Polyval.PolyvalPowersTable | src/Cryptography/AesGcmSiv.Polyval.cs:114-419 | an empty input leaves polyval alone; otherwise polyval ends as the batched fold and, with a table of key powers, as the Horner fold |
| Polyval.BatchedAgreesWithHorner | src/Cryptography/AesGcmSiv.Polyval.cs:9-113 | a table built by InitPowersTable and used by PolyvalPowersTable gives the same polyval as PolyvalHorner with the hash key |
| Decrypt.InitialCounter | src/Cryptography/AesGcmSiv.Decrypt.cs:21-22 | the counter is the tag with bit 31 of lane 3 (bit 63 of the high word) set and every other bit kept |
| Decrypt.CounterAdd | src/Cryptography/AesGcmSiv.Decrypt.cs:24-37 | adding to the counter changes lane 0 modulo 2^32 and leaves lanes 1 to 3 alone |
| Decrypt.CounterAddCompose | src/Cryptography/AesGcmSiv.Decrypt.cs:31-37 | adding a and then b to the counter is adding a + b |
| Decrypt.SixCounters | src/Cryptography/AesGcmSiv.Decrypt.cs:31-37 | the six group counters are ctr + 0 .. ctr + 5 and the counter left is ctr + 6 |
| Decrypt.Cipher | src/Cryptography/AesGcmSiv.Decrypt.cs:395-402 | defined as round key 0 xored in, `Encrypt` with keys 1 to 13, and `EncryptLast` with key 14; `Decrypt.EncryptBlock` computes it round by round |
| Decrypt.EncryptBlock | src/Cryptography/AesGcmSiv.Decrypt.cs:395-402 | round key 0 is xored in, rounds 1..13 use Encrypt, key 14 uses EncryptLast |
| Decrypt.CtrInvolution | src/Cryptography/AesGcmSiv.Decrypt.cs:403-404 | counter mode applied twice from the same counter gives back the data |
| Decrypt.CtrAppend | src/Cryptography/AesGcmSiv.Decrypt.cs:425-426 | counter mode over whole blocks then more data continues from the counter advanced by the block count |
| Decrypt.CtrKeystream | src/Cryptography/AesGcmSiv.Decrypt.cs:393-404 | output block j is ciphertext block j xored with the encryption of ctr0 + j |
| Decrypt.CtrTail | src/Cryptography/AesGcmSiv.Decrypt.cs:433-444 | a final partial block uses the leading bytes of the key block of the current counter |
| Decrypt.DecryptFoldIsHorner | src/Cryptography/AesGcmSiv.Decrypt.cs:10-13 | with a table of key powers, the six-block grouping of the fold equals the Horner fold with htbl[0] |
| Decrypt.MultiplyBlock | src/Cryptography/AesGcmSiv.Decrypt.cs:406-423 | the state becomes (state xor block) times h in the field |
| Decrypt.FoldSix | src/Cryptography/AesGcmSiv.Decrypt.cs:310-386 | a plaintext group folds as its last block times htbl[0] up to its first block, with the state, times htbl[5] |
| Decrypt.DecryptBlockAt | src/Cryptography/AesGcmSiv.Decrypt.cs:395-404 | the 16 bytes at the offset become the key block xored with the ciphertext, and the register holds them |
| Decrypt.DecryptGroupBlock | src/Cryptography/AesGcmSiv.Decrypt.cs:39-78 | one more block of a group is decrypted under its counter and its register is recorded |
| Decrypt.DecryptSix | src/Cryptography/AesGcmSiv.Decrypt.cs:29-81 | the group's 96 bytes are counter mode from ctr, its registers are its six blocks, ctr + 6 is left, and other bytes are kept |
| Decrypt.WideStep | src/Cryptography/AesGcmSiv.Decrypt.cs:287-307 | a decrypted group after the decrypted prefix extends the prefix and its block list |
| Decrypt.FoldStep | src/Cryptography/AesGcmSiv.Decrypt.cs:85-245 | folding the previous group extends the fold over the groups by that group |
| Decrypt.DecryptNextGroup | src/Cryptography/AesGcmSiv.Decrypt.cs:83-308 | one loop pass decrypts the next group and folds the one before it, keeping the loop invariants |
| Decrypt.DecryptWide | src/Cryptography/AesGcmSiv.Decrypt.cs:29-387 | the six-block phase decrypts 6 * floor(len / 96) blocks in counter mode and folds every group exactly once, in order |
| Decrypt.WideCount | src/Cryptography/AesGcmSiv.Decrypt.cs:83 | the six-block loop stops at the largest multiple of 96 bytes |
| Decrypt.BlockStep | src/Cryptography/AesGcmSiv.Decrypt.cs:403-423 | one decrypted block extends the counter-mode prefix and the Horner fold with h |
| Decrypt.DecryptNextBlock | src/Cryptography/AesGcmSiv.Decrypt.cs:391-427 | one loop pass decrypts the next block under ctr0 + blocks and multiplies it into the state |
| Decrypt.DecryptBlocks | src/Cryptography/AesGcmSiv.Decrypt.cs:389-427 | the single-block phase stops with fewer than 16 bytes left, having decrypted and folded every whole block |
| Decrypt.CopyTo | src/Cryptography/AesGcmSiv.Decrypt.cs:444 | the bytes are copied to the target position and nothing else changes |
| Decrypt.ClearFrom | src/Cryptography/AesGcmSiv.Decrypt.cs:445 | the buffer is zero from the position on and unchanged before it |
| Decrypt.TailBlock | src/Cryptography/AesGcmSiv.Decrypt.cs:441-444 | the leading bytes of the decrypted padded block are the decrypted partial block |
| Decrypt.DecryptTail | src/Cryptography/AesGcmSiv.Decrypt.cs:429-465 | exactly the partial block's bytes are written, and the state folds the zero-padded plaintext, not keystream |
| Decrypt.CtrAssembly | src/Cryptography/AesGcmSiv.Decrypt.cs:391-444 | the decrypted blocks and the tail together are counter mode over the whole ciphertext |
| Decrypt.TailFold | src/Cryptography/AesGcmSiv.Decrypt.cs:406-464 | the single blocks and the padded tail together are the Horner fold of everything after the groups |
| Decrypt.FoldAssembly | src/Cryptography/AesGcmSiv.Decrypt.cs:29-467 | the three phases together compute the six-block grouping of the fold |
| Decrypt.DecryptGroups | src/Cryptography/AesGcmSiv.Decrypt.cs:29-387 | the six-block phase runs only with at least 96 bytes and otherwise leaves state, counter and pt alone |
| Decrypt.DecryptRest | src/Cryptography/AesGcmSiv.Decrypt.cs:389-465 | everything after the groups is decrypted in counter mode and folded with htbl[0] |
| Decrypt.DecryptPowersTable | src/Cryptography/AesGcmSiv.Decrypt.cs:14-467 | pt[..ctLen] is counter mode from the tag's counter, bytes after ctLen are kept, and polyval ends as the fold of the plaintext (the Horner fold for a table of key powers) |

## Left out

- AES: the round functions `Aes.Encrypt` and `Aes.EncryptLast` are parameters, not FIPS 197. Key expansion, key derivation, the AAD and length block, the tag check and encryption are not part of this model.
- Instruction scheduling: the six lanes run in lock step, with multiplies interleaved between AES rounds and the reduction split across rounds (`AesGcmSiv.Decrypt.cs:230-245`, `:294-297`). The model decrypts a group block by block and folds it afterwards. The interleaving changes no value because the interleaved instructions are independent: the previous group's sum is fully reduced (`:294-297`) before `t` is xored into the first block of the next group (`:211`), and the AES rounds share no registers with the fold. This independence is read off the code, not proved.
- The order of operands to xor inside the kernels is not kept where it does not matter; xor is proved commutative and associative.
- Pointers, `stackalloc` and `Span`: `ct`, `htbl`, `tag` and `ks` are values (`seq`), so `ct` and `pt` are assumed not to alias, and in-place decryption over one buffer is not modelled.
  - `pt`, `polyval` and `htbl` (in `InitPowersTable`) are arrays.
  - The stack buffer is a fresh zeroed array, as C# zero-initialises `stackalloc`.
  - The 16-byte table and key-schedule entries are read as `Block` values rather than as bytes.
- The 32-bit `int` length: lengths are unbounded naturals, so a length near 2^31 is not modelled. A negative length is a caller error and is excluded by the `nat` lengths. On one, the two POLYVAL routines either throw when they build a `Span`, read outside `input` or `htbl`, or return with `polyval` unchanged, depending on the length modulo 16 and 128 (C# division truncates toward zero). `DecryptPowersTable` leaves `pt` untouched and stores `polyval` back unchanged.
- The unused `tmp4` computed at `AesGcmSiv.Polyval.cs:218` is dead in that branch and is not modelled.
- Counter lanes: `one` and `two` are zero in lanes 1 to 3, so the counter addition is modelled on lane 0 alone, with lanes 1 to 3 kept whole rather than added to as separate 32-bit lanes.
- Table size: the code writes slot 0 of the table even when size is below one, so `InitPowersTable` asks for a table of at least one slot.
- Carry-less multiplication: it is defined bit by bit and proved equal to the polynomial product, rather than taken from the hardware instruction.
