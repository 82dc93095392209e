# AES-128-GCM sealing of KV-cache blocks: a verified model

ConfKV seals KV-cache blocks into frames `[version | IV | ciphertext | tag]` with AES-128-GCM. It has a CUDA
engine with a parallel GHASH, a CPU backend over OpenSSL, and an LMCache serializer on top of the CPU backend.
This project models all three and proves that they compute NIST SP 800-38D (sections 6.3 to 6.5, 7.1 and 7.2)
and, for the block cipher, FIPS 197 (sections 5.1 to 5.3).

`dafny verify dfyconfig.toml` checks the whole project.

The layers, from the bottom:

- **Words, Polynomials, Linear, Reduction, Blocks, Bytes** (`Words.dfy`, `Poly.dfy`, `Blocks.dfy`, `Bytes.dfy`):
  64-bit words as natural numbers with the wrap-around of `uint64_t` written out; polynomials over GF(2) as sets
  of exponents; the commutative ring of 128-bit blocks. The ring laws are proved once for any linear map that
  sends x^k to x^(k+1) below 128, and carried to the two-limb loop of `gf_mul` by reading blocks as polynomials.
- **GhashTree, Powers, Gcm, Kernels, Frames** (`Ghash.dfy`, `Powers.dfy`, `Gcm.dfy`, `Kernels.dfy`, `Frames.dfy`): the
  specification of GCM over an arbitrary block cipher, what each kernel computes per cell, and frames and tags in plain
  bytes.
- **Launches, Gpu** (`Launches.dfy`, `Gpu.dfy`): a launch as a set of stores into device memory. `Device` runs
  the threads as imperative code in any order on early loads; `Launches` shows that neither the order of single
  stores nor the moments of the loads matter.
- **Operations, Tampering, BitFlips** (`Operations.dfy`, `Tampering.dfy`, `BitFlips.dfy`): the launches of one seal or
  open against the specification, and the exact answer to changed frames.
- **Streams, Gate, Progress, NoWait** (`Streams.dfy`, `Gate.dfy`, `Progress.dfy`, `NoWait.dfy`): a state machine in
  which the host enqueues launches, grows and frees workspaces and may be refused memory, the device stores cell after
  cell of earlier launches, and others write to any node memory outside the workspace. Safety is proved over all runs
  and every run can be finished; for growth that does not wait for the device the programs that stay right are
  characterised exactly.
- **Faults, CudaStream** (`Faults.dfy`, `CudaStream.dfy`): operations some of whose launches the CUDA runtime rejects.
- **Host, Ownership, EndToEnd** (`Host.dfy`, `Ownership.dfy`, `EndToEnd.dfy`): key handles, device allocations and
  error paths as classes that are updated in place, the Python owner of a handle, and host calls joined to the
  threads they start and to the state machine.
- **ByteField, Sbox, Aes** (`ByteField.dfy`, `Sbox.dfy`, `Aes.dfy`): GF(2^8) and the S-box, the in-place AES-128
  rounds and key schedule on 8-bit words, and the inverse cipher.
- **CpuSeal, Serde, Interop** (`CpuSeal.dfy`, `Serde.dfy`, `Interop.dfy`): the CPU backend on an assumed OpenSSL
  contract, the serializer, and frames that cross between the backends.

Four facts about the code that its documentation does not state:

- `open_async` does not check the block count that `seal_async` checks. Beyond 2^32 - 2 blocks an accepted frame
  leaves the tail of the destination untouched (`Operations.OversizedOpenFails`); the bound is exact
  (`Operations.OpenBoundIsExact`).
- A workspace that grows while launches are pending is safe if freeing device memory waits for the device, and
  nothing in `ensure_workspace` itself waits. With the wait every run is right (`Streams.AsyncRunsMatchSpec`);
  without it some run leaves a wrong tag (`Progress.HastyGrowthFails`). A caller who cannot rely on the wait is safe
  exactly if no call after an operation needs more nodes than that operation (`NoWait.NoWaitExactly`), and in
  particular behind a granted reserve of the longest length (`NoWait.ReservedRuns`).
- The header promises that an open publishes no unauthenticated plaintext. `open_async` does not check the verify
  launch before it enqueues CTR, so under a rejected launch, which it reports, this holds if the caller cleared
  `auth_ok` before the call (`Faults.FaultyOpenIsSafe`) and fails if not (`Faults.UnclearedOpenExposes`);
  `Faults.RejectedFrameShows` is the exact condition.
- The serializer rejects empty buffers with `ValueError`, so its estimate of 29 bytes for an empty layout is never
  met by a frame (`Serde.EmptyLayout`).

Device memory is three flat address spaces (bytes, flags, nodes) and a pointer is an index. `Host.Heap` accounts for
allocations in one address space of abstract cells: the byte counts of round keys and table and the node counts of the
workspaces are sizes in it alike, and only the workspaces are related to device memory. The answers of the CUDA
allocator, of the CUDA runtime to each launch, of `RAND_bytes` and of the key provider are parameters.

## Model

| member | source | states |
|---|---|---|
| `Blocks.GfMul` | experiments/gpu_kv_seal/gpu/gpu_aesgcm.cu:195-248 | the branch-free two-limb loop returns the field product of both blocks |
| `Blocks.MulIsPolynomialProduct` | experiments/gpu_kv_seal/gpu/gpu_aesgcm.cu:195-248 | the product is the remainder, by x^128 + x^7 + x^2 + x + 1, of the product of the two polynomials a block stands for in GHASH bit order (section 6.3 of NIST SP 800-38D) |
| `Blocks.MulDivides` | experiments/gpu_kv_seal/gpu/gpu_aesgcm.cu:195-248 | polynomial product = quotient * modulus + product of the blocks, with a result of degree below 128 |
| `Reduction.Division` | experiments/gpu_kv_seal/gpu/gpu_aesgcm.cu:229-245 | the long division used as reference satisfies the division law for every dividend |
| `Reduction.RemainderUnique` | experiments/gpu_kv_seal/gpu/gpu_aesgcm.cu:229-245 | there is no other remainder of degree below 128, so the reference is the polynomial remainder and nothing else |
| `Blocks.AddLaws` | experiments/gpu_kv_seal/gpu/gpu_aesgcm.cu:132-139 | bxor is commutative and associative, has the zero block as unit, and is its own inverse |
| `Blocks.MulOne` | experiments/gpu_kv_seal/gpu/gpu_aesgcm.cu:254-261 | gf_one is a two-sided unit of gf_mul |
| `Blocks.MulCommutes` | experiments/gpu_kv_seal/gpu/gpu_aesgcm.cu:195-248 | gf_mul is commutative on all blocks |
| `Blocks.MulAssociates` | experiments/gpu_kv_seal/gpu/gpu_aesgcm.cu:195-248 | gf_mul is associative on all blocks |
| `Blocks.MulDistributes` | experiments/gpu_kv_seal/gpu/gpu_aesgcm.cu:195-248 | gf_mul distributes over bxor on both sides |
| `Bytes.LoadBe128` | experiments/gpu_kv_seal/gpu/gpu_aesgcm.cu:142-160 | the two loops read 16 bytes as two big-endian limbs |
| `Bytes.StoreBe128` | experiments/gpu_kv_seal/gpu/gpu_aesgcm.cu:161-181 | the two loops write the 16 big-endian bytes of a block |
| `Bytes.BytesOfBlockOf` | experiments/gpu_kv_seal/gpu/gpu_aesgcm.cu:142-181 | storing what was loaded gives back every 16 bytes |
| `Bytes.BlockOfBytesOf` | experiments/gpu_kv_seal/gpu/gpu_aesgcm.cu:142-181 | loading what was stored gives back every block |
| `Bytes.LoadedBit` | experiments/gpu_kv_seal/gpu/gpu_aesgcm.cu:142-160 | coefficient i of a loaded block is bit 7 - i % 8 of byte i / 8 |
| `Powers.FillTable` | experiments/gpu_kv_seal/gpu/gpu_aesgcm.cu:546-555 | repeated squaring leaves H^(2^i) in entry i of the table, for all 64 entries |
| `Powers.GfPowFromTable` | experiments/gpu_kv_seal/gpu/gpu_aesgcm.cu:263-287 | the result is H^n for every 64-bit n, the table index stays below 64, and the number of multiplications is the number of set bits of n |
| `GhashTree.GhashAppend` | experiments/gpu_kv_seal/gpu/gpu_aesgcm.cu:883-903 | GHASH(A || B) = GHASH(A) * H^|B| xor GHASH(B) for all A and B |
| `GhashTree.JoinNodes` | experiments/gpu_kv_seal/gpu/gpu_aesgcm.cu:883-907 | combining the nodes of two adjacent runs of terms gives the node of both together, length included |
| `GhashTree.TreeIsGhash` | experiments/gpu_kv_seal/gpu/gpu_aesgcm.cu:772-907 | 64-term segments followed by pairwise combining with the odd node carried compute sequential GHASH, and the root counts all terms, for every number of terms |
| `GhashTree.LevelsIsCeilLog2` | experiments/gpu_kv_seal/gpu/gpu_aesgcm.cu:1185-1231 | the number of combine levels is the ceiling of log2 of the number of segments |
| `Kernels.TermsAreHashInput` | experiments/gpu_kv_seal/gpu/gpu_aesgcm.cu:724-770 | the terms the segment kernel loads are the blocks of the zero-padded ciphertext followed by the length block (section 7.1 of NIST SP 800-38D, no additional data) |
| `Operations.GhashRuns` | experiments/gpu_kv_seal/gpu/gpu_aesgcm.cu:1127-1236 | running the launches of enqueue_ghash leaves the GHASH of the whole string and its block count in the node the host takes as root, and nothing visible outside the workspace |
| `Operations.PingPong` | experiments/gpu_kv_seal/gpu/gpu_aesgcm.cu:1183-1233 | one combine launch per level; the root is in the first buffer exactly when the number of levels is even |
| `Operations.SegsExact` | experiments/gpu_kv_seal/gpu/gpu_aesgcm.cu:1041-1063 | required_nodes is the number of groups of 64 among the blocks of 16 bytes and the length block |
| `Operations.SegsMonotone` | experiments/gpu_kv_seal/gpu/gpu_aesgcm.cu:1041-1063 | required_nodes is at least one and grows with the length |
| `Operations.OpLaunchesFit` | experiments/gpu_kv_seal/gpu/gpu_aesgcm.cu:1066-1236 | with a workspace for the length, every pointer of every launch of either operation is in bounds and no launch reads a cell it writes |
| `Launches.StoreAdvances` | experiments/gpu_kv_seal/gpu/gpu_aesgcm.cu:619-1034 | a store puts the same value to its cell whatever stores came before and whatever the storing thread had loaded from cells the launch does not read |
| `Launches.LateStore` | experiments/gpu_kv_seal/gpu/gpu_aesgcm.cu:619-1034 | in particular a thread may load everything at any earlier moment of the launch and store late |
| `Launches.PartialIsExec` | experiments/gpu_kv_seal/gpu/gpu_aesgcm.cu:619-1034 | once all its cells are stored a launch has had its whole effect |
| `Gpu.Device.constructor` | experiments/gpu_kv_seal/gpu/gpu_aesgcm.cu:525-556 | a new key has the table of the 64 powers H^(2^i) of the cipher of the zero block, H itself first |
| `Gpu.Device.SegmentThread` | experiments/gpu_kv_seal/gpu/gpu_aesgcm.cu:772-845 | thread t stores node t, the Horner sum of its segment with its length, and nothing else; past the end it stores nothing |
| `Gpu.Device.CombineThread` | experiments/gpu_kv_seal/gpu/gpu_aesgcm.cu:848-908 | thread t stores the join of its pair, or the odd node unchanged, and nothing else |
| `Gpu.Device.HeaderThread` | experiments/gpu_kv_seal/gpu/gpu_aesgcm.cu:559-583 | thread 0 stores the version byte 1 and the IV |
| `Gpu.Device.CtrThread` | experiments/gpu_kv_seal/gpu/gpu_aesgcm.cu:619-721 | thread t stores zeros when the gate is shut, returns early when its counter would pass 2^32 - 1, and else stores its up to 16 bytes xor the stream block |
| `Gpu.Device.FinalizeThread` | experiments/gpu_kv_seal/gpu/gpu_aesgcm.cu:911-961 | the tag is E(J0) xor the root |
| `Gpu.Device.VerifyThread` | experiments/gpu_kv_seal/gpu/gpu_aesgcm.cu:964-1034 | the flag is 1 exactly when the version byte is 1 and all 16 tag bytes are those of E(IV, 0, 0, 0, 1) xor the root, through the accumulated difference; else 0 |
| `Gpu.Device.RunLaunch` | experiments/gpu_kv_seal/gpu/gpu_aesgcm.cu:619-1034 | any order of the threads, with any surplus or repeated threads and with anything each of them may have loaded before the others stored, leaves the one result of the launch |
| `Gpu.Device.EarlyLoads` | experiments/gpu_kv_seal/gpu/gpu_aesgcm.cu:619-1034 | what memory holds at any moment of the launch before the own stores of a thread is something it may have loaded |
| `Gpu.LoadTerm` | experiments/gpu_kv_seal/gpu/gpu_aesgcm.cu:724-770 | a term is 16 bytes with zero fill, or the length block |
| `Gpu.MakeCounterBlock` | experiments/gpu_kv_seal/gpu/gpu_aesgcm.cu:586-617 | the counter block is IV followed by the counter in four big-endian bytes |
| `EndToEnd.RunOperation` | experiments/gpu_kv_seal/gpu/gpu_aesgcm.cu:1456-1776 | thread by thread, in any order and with any such loads within each launch, a seal or open has exactly its specified effect |
| `EndToEnd.Synchronize` | experiments/gpu_kv_seal/gpu/gpu_aesgcm.cu:619-1034 | working off a list of launches thread by thread is running them one after the other |
| `EndToEnd.SealAndWait` | experiments/gpu_kv_seal/gpu/gpu_aesgcm.cu:1455-1623 | a seal_async followed by the work of the device on what it enqueued: for any pointers that are good for the stated sizes, OK exactly when the frame has room, there are at most 2^32 - 2 blocks, the workspace suffices or is granted, no error was there before and the runtime takes every launch, and then exactly the frame is there, starting with 1; bad arguments and a refused workspace leave the device alone; after a launch error no flag and no byte outside the frame has moved |
| `EndToEnd.OpenAndWait` | experiments/gpu_kv_seal/gpu/gpu_aesgcm.cu:1626-1776 | an open_async followed by the work of the device on what it enqueued: for any pointers that are good for the stated sizes, OK exactly when the frame is long enough, the workspace suffices or is granted, no error was there before and the runtime takes every launch, and then exactly the specified effect; bad arguments and a refused workspace leave the device alone; after a launch error nothing but destination and flag has moved, and each destination byte is old or zero or final, the last only for an accepted frame, if the flag was cleared before the call |
| `EndToEnd.EnsureIsStep` | experiments/gpu_kv_seal/gpu/gpu_aesgcm.cu:1066-1121 | ensure_workspace on the heap is the growth transition of the state machine, in its waiting form whenever the stream is drained or nothing grows |
| `Host.KeyHandle.WsFits` | experiments/gpu_kv_seal/gpu/gpu_aesgcm.cu:1066-1121 | the two buffers a handle owns lie apart, as the kernels need |
| `Kernels.CtrBytesAreCrypt` | experiments/gpu_kv_seal/gpu/gpu_aesgcm.cu:619-721 | byte for byte the CTR kernel computes GCTR from inc32(J0) (section 6.5 of NIST SP 800-38D) within the length bound |
| `Kernels.CounterCoverage` | experiments/gpu_kv_seal/gpu/gpu_aesgcm.cu:671-692 | the early return is unreachable exactly up to 2^32 - 2 blocks; up to there no two blocks share a counter block and none uses J0 |
| `Operations.CtrBoundIsExact` | experiments/gpu_kv_seal/gpu/gpu_aesgcm.cu:671-692 | the CTR launch equals GCTR whatever the destination held if and only if there are at most 2^32 - 2 blocks |
| `Operations.SealRuns` | experiments/gpu_kv_seal/gpu/gpu_aesgcm.cu:1456-1623 | a seal writes exactly version, IV, ciphertext and tag of section 7.1 of NIST SP 800-38D and changes no other byte or flag |
| `Operations.OpRuns` | experiments/gpu_kv_seal/gpu/gpu_aesgcm.cu:1456-1776 | run in stream order on any leftover workspace contents, a seal or open has exactly its specified effect |
| `Frames.FrameLayout` | experiments/gpu_kv_seal/gpu/gpu_aesgcm.cu:571-581 | a frame is 1, the 12 bytes of the IV, the ciphertext and the 16 bytes of the tag |
| `Frames.AcceptsLayout` | experiments/gpu_kv_seal/gpu/gpu_aesgcm.cu:1000-1034 | a frame is accepted exactly when its first byte is 1 and its last 16 bytes are the tag of its bytes 1 to 12 and its ciphertext |
| `Frames.CryptByte` | experiments/gpu_kv_seal/gpu/gpu_aesgcm.cu:586-721 | byte i of a text goes with byte i mod 16 of the cipher of the IV followed by i / 16 + 2 in four big-endian bytes |
| `Frames.HashKeyBit` | experiments/gpu_kv_seal/gpu/gpu_aesgcm.cu:537-547 | coefficient i of the hash key is bit 7 - i mod 8 of byte i / 8 of the cipher of sixteen zero bytes |
| `Frames.GhashIsSum` | experiments/gpu_kv_seal/gpu/gpu_aesgcm.cu:772-845 | GHASH is the closed form X_1 * H^m + ... + X_m * H of section 6.4 of NIST SP 800-38D |
| `Frames.UnitTag` | experiments/gpu_kv_seal/gpu/gpu_aesgcm.cu:537-547 | when the cipher takes sixteen zero bytes to 80 00 .. 00, byte j of the tag is the xor of byte j of the cipher of (IV, 0, 0, 0, 1), of bytes j, j + 16, j + 32, ... of the ciphertext, and of byte j of the length block, the big-endian number of ciphertext bits |
| `Gcm.RoundTrip` | experiments/gpu_kv_seal/gpu/gpu_aesgcm.cu:1456-1776 | every sealed plaintext, of any length and with any bytes behind its frame, is accepted and comes back |
| `Gcm.AcceptedIsCanonical` | experiments/gpu_kv_seal/gpu/gpu_aesgcm.cu:964-1034 | a frame is accepted if and only if its first n + 29 bytes are what sealing the opened plaintext under the stored IV prints |
| `Gcm.MaskInjective` | experiments/gpu_kv_seal/gpu/gpu_aesgcm.cu:1000-1013 | tags under one key and IV are equal only for equal hashes |
| `Tampering.GhashAdditive` | experiments/gpu_kv_seal/gpu/gpu_aesgcm.cu:825-845 | GHASH of the blockwise xor of two strings of one length is the xor of their hashes |
| `Tampering.TamperedBody` | experiments/gpu_kv_seal/scripts/test_gpu_security.py:191-201 | under the version, IV and tag of an accepted frame, another ciphertext is accepted if and only if GHASH of the zero-padded difference followed by a zero block is zero |
| `BitFlips.FlippedBit` | experiments/gpu_kv_seal/scripts/test_gpu_security.py:192-201 | under the version, IV and tag of an accepted frame, a ciphertext with one bit flipped is accepted if and only if the cipher takes the zero block to itself, so that the hash key is zero |
| `BitFlips.NoSquareFactor` | experiments/gpu_kv_seal/gpu/gpu_aesgcm.cu:229-245 | the modulus divides the square of a polynomial of degree below 128 only if that is zero |
| `BitFlips.SquareIsZero` | experiments/gpu_kv_seal/gpu/gpu_aesgcm.cu:195-248 | the square of a block is zero only if the block is |
| `BitFlips.PowerIsZero` | experiments/gpu_kv_seal/gpu/gpu_aesgcm.cu:263-287 | the same for every power from the first on |
| `BitFlips.GhashSingle` | experiments/gpu_kv_seal/gpu/gpu_aesgcm.cu:825-845 | GHASH of a string whose only nonzero block is the i-th of n is that block times H^(n - i) |
| `Tampering.TamperedIv` | experiments/gpu_kv_seal/scripts/test_gpu_security.py:203-212 | under the version, ciphertext and tag of an accepted frame, another IV is accepted if and only if the cipher maps both first counter blocks to one block |
| `Interop.OtherIvRejected` | experiments/gpu_kv_seal/scripts/test_gpu_security.py:203-212 | under AES-128 a sealed frame whose IV was replaced by any other is always rejected |
| `Tampering.TamperedTag` | experiments/gpu_kv_seal/scripts/test_gpu_security.py:214-234 | behind the IV and ciphertext of an accepted frame, any other tag and any other version is rejected |
| `Operations.OpenOutputAccepted` | experiments/gpu_kv_seal/gpu/gpu_aesgcm.cu:1717-1771 | an accepted frame within the bound leaves the plaintext |
| `Operations.OpenBoundIsExact` | experiments/gpu_kv_seal/gpu/gpu_aesgcm.cu:1627-1660 | open lacks the length check of seal: an accepted frame ends as its plaintext, whatever the destination held, if and only if it has at most 2^32 - 2 blocks |
| `Operations.RejectedOpenWipes` | experiments/gpu_kv_seal/gpu/gpu_aesgcm.cu:653-667 | an open of a frame whose first byte is not 1 or which is rejected for its tag, at every length, leaves zeros in the whole destination, 0 in the flag, and everything else alone |
| `Operations.OversizedOpenFails` | experiments/gpu_kv_seal/gpu/gpu_aesgcm.cu:1627-1776 | a concrete device memory with an accepted frame of 16 * (2^32 - 2) + 1 bytes, meeting every condition of open_async, on which its launches set the flag to 1 and leave the last destination byte as it was |
| `Streams.StoresInAnyOrder` | experiments/gpu_kv_seal/gpu/gpu_aesgcm.cu:619-1034 | at every state any cell of the running launch that is not yet stored may be stored next, from loads made before any other stores of the launch |
| `Streams.OthersWrite` | experiments/gpu_kv_seal/gpu/gpu_aesgcm.cu:1107-1119 | at every state any node outside the two buffers of the handle may change to anything |
| `Streams.AnyGrowth` | experiments/gpu_kv_seal/gpu/gpu_aesgcm.cu:1066-1121 | a workspace that is too small may be refused at any time, and replaced by any two buffers that lie apart once the launches have been worked off |
| `Streams.RunKeepsInv` | experiments/gpu_kv_seal/gpu/gpu_aesgcm.cu:1066-1236 | at every state of every interleaving of host, device and other owners of memory, the finished jobs have had their specified effects, the running one is as far as its stores, and only finished jobs used a freed workspace |
| `Streams.AsyncRunsMatchSpec` | experiments/gpu_kv_seal/gpu/gpu_aesgcm_api.h:35-56 | a finished run of any program of seals, opens and reserves has the effects of its operations one after the other, although any node outside the current workspace may change at any time and threads may load early; all of them took place unless one was refused for want of memory |
| `Streams.AloneOnFreshHandle` | experiments/gpu_kv_seal/gpu/gpu_aesgcm_api.h:48-56 | that specification is what each operation does alone on a fresh handle |
| `Streams.RoundTripRun` | experiments/gpu_kv_seal/gpu/gpu_aesgcm.cu:1456-1776 | every finished run of a seal and an open of its frame, with any reserves around them, leaves the plaintext at the destination and 1 in the flag |
| `Streams.BeginFreesSafely` | experiments/gpu_kv_seal/gpu/gpu_aesgcm.cu:1066-1121 | growth frees no buffer that a pending launch uses, because it waits for the device |
| `Streams.ScribbleKeepsInv` | experiments/gpu_kv_seal/gpu/gpu_aesgcm.cu:1107-1119 | writes of others to memory outside the current workspace, freed buffers included, disturb nothing |
| `Progress.HastyGrowthFails` | experiments/gpu_kv_seal/gpu/gpu_aesgcm.cu:1066-1121 | were growth not to wait, some finished run of a seal and a reserve would leave a wrong tag, for every key and IV |
| `NoWait.NoWaitExactly` | experiments/gpu_kv_seal/gpu/gpu_aesgcm.cu:1066-1121 | if growth does not wait, a program is right at every moment of every run if and only if no call after an operation needs more nodes than that operation |
| `NoWait.ModestRuns` | experiments/gpu_kv_seal/gpu/gpu_aesgcm.cu:1066-1121 | a run of such a program without the wait is a run with it, so all that is proved of those holds |
| `NoWait.ReservedRuns` | experiments/gpu_kv_seal/gpu/gpu_aesgcm_api.h:35-44 | the same for a program that starts with a reserve of its longest length, once that reserve is granted |
| `NoWait.TraceRight` | experiments/gpu_kv_seal/gpu/gpu_aesgcm_api.h:48-56 | with the wait, memory is as specified whenever the device stands between two operations, whatever was refused |
| `NoWait.ImmodestFails` | experiments/gpu_kv_seal/gpu/gpu_aesgcm.cu:1066-1121 | of any other program some run without the wait leaves a wrong tag or a wrong verdict |
| `Progress.EveryTraceEnds` | experiments/gpu_kv_seal/gpu/gpu_aesgcm_api.h:35-56 | every trace can be continued to a finished one, and without refusing anything when there is room for the workspaces |
| `Progress.NeverStuck` | experiments/gpu_kv_seal/gpu/gpu_aesgcm_api.h:35-56 | host or device can always take a step until the run is finished |
| `Progress.NextDecreases` | experiments/gpu_kv_seal/gpu/gpu_aesgcm_api.h:35-56 | every step of host or device leaves less to do in a well-founded order, so they cannot go on for ever |
| `Gate.GatedPublication` | experiments/gpu_kv_seal/gpu/gpu_aesgcm.cu:1717-1771 | at every moment of every run each destination byte of an open is its old value or its final one, as the operations before it left them, and before the verify kernel has finished it is the old one; then the flag is the verdict, and at the end the byte is the final one |
| `Gate.BeforeVerdict` | experiments/gpu_kv_seal/gpu/gpu_aesgcm.cu:1690-1730 | while GHASH and the verify kernel run no destination byte moves |
| `Gate.AfterVerdict` | experiments/gpu_kv_seal/gpu/gpu_aesgcm.cu:1737-1771 | while the gated kernel runs each byte is the old or the final one and the flag is the verdict |
| `Host.KeyHandle.EnsureWorkspace` | experiments/gpu_kv_seal/gpu/gpu_aesgcm.cu:1066-1121 | succeeds exactly when the workspace is large enough or both allocations are granted; success sets buffers and capacity, failure leaves the handle and the live allocations as they were, and capacity never shrinks |
| `CudaStream.Stream.Enqueue` | experiments/gpu_kv_seal/gpu/gpu_aesgcm.cu:1164-1177 | a launch is taken or rejected as the runtime answers, and an error sticks |
| `CudaStream.IssuedSmooth` | experiments/gpu_kv_seal/gpu/gpu_aesgcm.cu:1164-1224 | an operation ends without an error exactly when the runtime takes every launch of it and no error was there before, and then all its launches are on the stream |
| `CudaStream.IssuedPart` | experiments/gpu_kv_seal/gpu/gpu_aesgcm.cu:1455-1776 | whatever the runtime rejects, a seal leaves header and CTR or some of them, and behind both a prefix of the rest or else at most one launch; an open leaves a prefix of the GHASH launches or all of them with verify, CTR or both |
| `CudaStream.LaunchCount` | experiments/gpu_kv_seal/gpu/gpu_aesgcm.cu:1127-1236 | a seal takes three launches, an open two, one more when there is text, and one for each combine level |
| `Host.EnqueueGhash` | experiments/gpu_kv_seal/gpu/gpu_aesgcm.cu:1127-1236 | out of memory exactly when the workspace is too small and not granted; else the GHASH launches are tried one by one up to the first check that sees an error, OK means that none did, and the root is the buffer the swaps end on |
| `Host.SealAsync` | experiments/gpu_kv_seal/gpu/gpu_aesgcm.cu:1455-1623 | bad arguments, exactly as listed, come first and have no effect; then a workspace that is neither large enough nor granted; OK exactly when after that no error was there before and the runtime takes every launch, and then exactly the launches of a seal are enqueued; else what the checks of the stream let through |
| `Host.OpenAsync` | experiments/gpu_kv_seal/gpu/gpu_aesgcm.cu:1626-1776 | bad arguments, exactly as listed, come first and have no effect; then a workspace that is neither large enough nor granted; OK exactly when after that no error was there before and the runtime takes every launch, and then exactly the launches of an open are enqueued; else what the checks of the stream let through |
| `Faults.FaultyOpStaysIn` | experiments/gpu_kv_seal/gpu/gpu_aesgcm.cu:1455-1776 | whatever launches of an operation are rejected, and however far the device has come with the others, nothing has moved but its destination and its flag |
| `Faults.UnverifiedOpen` | experiments/gpu_kv_seal/gpu/gpu_aesgcm.cu:1717-1771 | an open whose verify launch was rejected runs CTR on the flag as the caller left it |
| `Faults.FaultyOpenIsSafe` | experiments/gpu_kv_seal/gpu/gpu_aesgcm_api.h:69-78 | if the caller cleared the flag, then whatever launches of an open are rejected, at every moment each destination byte is old or zero or, for an accepted frame, final |
| `Faults.UnclearedOpenExposes` | experiments/gpu_kv_seal/gpu/gpu_aesgcm.cu:1717-1771 | if the flag was not cleared and verify alone is rejected, what CTR makes of any frame is published, its plaintext within the length bound |
| `Faults.RejectedFrameShows` | experiments/gpu_kv_seal/gpu/gpu_aesgcm_api.h:69-78 | with any launches rejected, an open of a frame that fails never leaves more than old bytes and zeros if and only if the flag was cleared before the call, or what CTR makes of the frame is nothing but old bytes and zeros |
| `Host.KeyCreate` | experiments/gpu_kv_seal/gpu/gpu_aesgcm.cu:1280-1388 | each of the four answers exactly when it is due: bad arguments, a refused allocation, a failed CUDA step, success; failure leaves nothing allocated |
| `Host.KeyDestroy` | experiments/gpu_kv_seal/gpu/gpu_aesgcm.cu:1391-1427 | frees exactly the allocations of the handle |
| `Ownership.Engine.Create` | experiments/gpu_kv_seal/gpu/gpu_aesgcm.cu:1280-1388 | adds one handle exactly when every step succeeds, else nothing, and live allocations stay exactly those of live handles |
| `Ownership.Engine.Destroy` | experiments/gpu_kv_seal/gpu/gpu_aesgcm.cu:1391-1427 | removes one handle, and live allocations stay exactly those of live handles |
| `Ownership.Engine.Reserve` | experiments/gpu_kv_seal/gpu/gpu_aesgcm.cu:1430-1452 | succeeds exactly for a handle whose workspace suffices or is granted, and then it fits the length; failure changes no allocation |
| `Ownership.Engine.Seal` | experiments/gpu_kv_seal/gpu/gpu_aesgcm.cu:1455-1623 | answers and enqueues as seal_async does, and live allocations stay exactly those of live handles |
| `Ownership.Engine.Open` | experiments/gpu_kv_seal/gpu/gpu_aesgcm.cu:1626-1776 | answers and enqueues as open_async does, and live allocations stay exactly those of live handles |
| `Ownership.Engine.Drive` | experiments/gpu_kv_seal/gpu/gpu_aesgcm.cu:1280-1776 | over every program of calls with every pattern of allocation failures, live allocations are exactly those of live handles, disjoint, and each is freed once; the handles that are left are those created and not destroyed |
| `Ownership.Engine.Shutdown` | experiments/gpu_kv_seal/gpu/gpu_aesgcm.cu:1391-1427 | destroying every handle leaves no device memory |
| `Ownership.PyKey.constructor` | experiments/gpu_kv_seal/gpu/gpu_aesgcm.py:151-189 | the object holds the new handle exactly when the key has 16 bytes and every step of key_create succeeds, and else none |
| `Ownership.PyKey.Close` | experiments/gpu_kv_seal/gpu/gpu_aesgcm.py:283-326 | close destroys the handle once; closing again does nothing |
| `Ownership.PyKey.Invoke` | experiments/gpu_kv_seal/gpu/gpu_aesgcm.py:200-310 | says for each call exactly when it returns and when it raises, and what a returned seal, open or reserve has left: the launches of that seal or open, with source and destination in their places, or a workspace for the length; only closing drops the handle, and after it every other call raises |
| `Ownership.KeyLifetime` | experiments/gpu_kv_seal/gpu/gpu_aesgcm.py:142-326 | whatever calls are made on a key object, after its last close the library is where it was; behind a close, or on a key that could not be created, every call but close raises |
| `Aes.AddRoundKey` | experiments/gpu_kv_seal/gpu/gpu_aesgcm.cu:377-387 | section 5.1.4 of FIPS 197 |
| `Aes.SubBytes` | experiments/gpu_kv_seal/gpu/gpu_aesgcm.cu:389-399 | section 5.1.1 of FIPS 197 |
| `Aes.ShiftRows` | experiments/gpu_kv_seal/gpu/gpu_aesgcm.cu:401-436 | the swaps rotate row r left by r (section 5.1.2 of FIPS 197) |
| `Aes.MixColumns` | experiments/gpu_kv_seal/gpu/gpu_aesgcm.cu:438-467 | the xtime form is the matrix product over GF(2^8) (section 5.1.3 of FIPS 197) |
| `Aes.EncryptBlock` | experiments/gpu_kv_seal/gpu/gpu_aesgcm.cu:470-518 | the in-place rounds compute Cipher (section 5.1 of FIPS 197) |
| `Sbox.SboxEntry` | experiments/gpu_kv_seal/gpu/gpu_aesgcm.cu:40-73 | each of the 256 entries is the affine image of the inverse of its index in GF(2^8) (section 5.1.1 of FIPS 197) |
| `ByteField.MulSwaps` | experiments/gpu_kv_seal/gpu/gpu_aesgcm.cu:366-375 | multiplications in GF(2^8) commute |
| `Sbox.InvSubOf` | experiments/gpu_kv_seal/gpu/gpu_aesgcm.cu:389-399 | the inverse S-box of section 5.3.2 of FIPS 197 undoes the table |
| `Aes.InvMixColumns` | experiments/gpu_kv_seal/gpu/gpu_aesgcm.cu:438-467 | the matrix of section 5.3.3 of FIPS 197 undoes mix_columns |
| `Aes.CipherInverts` | experiments/gpu_kv_seal/gpu/gpu_aesgcm.cu:470-518 | the inverse cipher of section 5.3 of FIPS 197, nine inverse rounds and a last one with the round keys from byte 160 down to byte 0, undoes the rounds under all round keys and on all blocks |
| `Aes.CipherInjective` | experiments/gpu_kv_seal/gpu/gpu_aesgcm.cu:304-518 | under one key no two blocks are encrypted alike |
| `Aes.ExpandKey` | experiments/gpu_kv_seal/gpu/gpu_aesgcm.cu:304-364 | the schedule four bytes at a time satisfies the word recurrence of KeyExpansion (section 5.2 of FIPS 197), for all 44 words |
| `Aes.ScheduleUnique` | experiments/gpu_kv_seal/gpu/gpu_aesgcm.cu:304-364 | only one byte string satisfies that recurrence |
| `Aes.Encrypt` | experiments/gpu_kv_seal/gpu/gpu_aesgcm.cu:304-518 | key schedule and rounds together are the cipher GCM runs on |
| `CpuSeal.StreamIsCrypt` | experiments/gpu_kv_seal/native/cpu_seal_openssl.cpp:32-66 | streaming from position 0 is one-shot GCTR |
| `CpuSeal.StreamAppend` | experiments/gpu_kv_seal/native/cpu_seal_openssl.cpp:32-66 | a chunk may end anywhere, also inside a block |
| `CpuSeal.UpdateAll` | experiments/gpu_kv_seal/native/cpu_seal_openssl.cpp:32-102 | the chunks of at most INT_MAX bytes succeed exactly when every update does, and then equal one-shot processing; a failing update and a wrong count have their own codes; only the given range of the destination changes |
| `CpuSeal.FewestChunks` | experiments/gpu_kv_seal/native/cpu_seal_openssl.cpp:39-47 | the chunks are the fewest of at most 2^31 - 1 bytes each |
| `CpuSeal.Seal` | experiments/gpu_kv_seal/native/cpu_seal_openssl.cpp:107-209 | each code exactly when it is due: 0 when arguments, random source and all library calls are good, and then the destination starts with the frame, whose first byte is 1; the rest of it never changes, and argument errors change nothing |
| `CpuSeal.Open` | experiments/gpu_kv_seal/native/cpu_seal_openssl.cpp:212-324 | each code exactly when it is due: -3 for a first byte other than 1, 0 when arguments and library calls are good and the frame is accepted, and then the plaintext is there; codes above -11 leave the destination alone, the others zero the plaintext range |
| `CpuSeal.Cleanse` | experiments/gpu_kv_seal/native/cpu_seal_openssl.cpp:293-318 | the wiped range is all zero and the rest is kept |
| `Interop.GpuSealed` | experiments/gpu_kv_seal/gpu/gpu_aesgcm.cu:1456-1623 | the device range of a seal holds the frame of the key, IV and plaintext |
| `Interop.GpuOpensSealed` | experiments/gpu_kv_seal/gpu/gpu_aesgcm.cu:1627-1776 | the engine opens every frame of either backend: plaintext back, flag 1, nothing else changed |
| `Interop.CrossOpen` | experiments/gpu_kv_seal/native/cpu_seal_openssl.cpp:107-324 | for one key, IV and plaintext the CPU backend prints the frame the engine left, and opens the frame of the engine |
| `Serde.PlaintextBytes` | experiments/gpu_kv_seal/integration/native_aesgcm_serde.py:55-76 | a ValueError exactly when the lists differ in length, else the size of every buffer made of contiguous tensors of the layout |
| `Serde.EstimateSerializedSize` | experiments/gpu_kv_seal/integration/native_aesgcm_serde.py:163-171 | the estimate is that size plus 29, with the same ValueError |
| `Serde.Serialize` | experiments/gpu_kv_seal/integration/native_aesgcm_serde.py:112-161 | ValueError exactly as listed, RuntimeError for every other failure; success returns plaintext length + 29 and leaves the frame at the front of the destination, the rest unchanged |
| `Serde.Deserialize` | experiments/gpu_kv_seal/integration/native_aesgcm_serde.py:182-233 | succeeds exactly when the sizes, the key, the library and the frame are good and then leaves the plaintext; InvalidTag exactly when the native call answers -11, and then zeros are left; ValueError otherwise, with the destination untouched for a short source, a bad key, an empty destination or a first byte other than 1; padding behind the frame does not matter |
| `Serde.StoreAndLoad` | experiments/gpu_kv_seal/integration/native_aesgcm_serde.py:112-233 | in a healthy environment a buffer of a layout is stored if and only if the size of the layout is not 0, in a slot of the estimated size or larger, and comes back |
| `Serde.EmptyLayout` | experiments/gpu_kv_seal/integration/native_aesgcm_serde.py:85-86 | every layout of size 0 has the empty buffer and the estimate 29, and serialize refuses that buffer with ValueError, leaving the slot alone |
| `Serde.EveryLayoutHasBuffer` | experiments/gpu_kv_seal/integration/native_aesgcm_serde.py:55-76 | every layout with as many shapes as dtypes has a buffer of its size |

## Left out

- CUDA runtime and binding code (`cuda_runtime.py`, library discovery, `ctypes` set-up, `DeviceGuard`, stream and event objects): only FIFO order and allocate-or-fail are kept.
- Grid sizes cast to `int`, shared memory, warps and unrolling: a launch runs any schedule that contains its useful threads.
- Each GHASH node is one cell: a reader that sees half a node is not modelled, since launches of one stream never overlap.
- The AES calls inside kernels: a kernel applies the cipher of its key as a function; `Aes.Encrypt` shows separately that the code computes that function.
- Several streams for one handle: the header forbids them (experiments/gpu_kv_seal/gpu/gpu_aesgcm_api.h:55-56).
- Source and destination that overlap, and lengths within 29 bytes of 2^64: excluded by the pointer conditions of `Operations.OpFits` and `Kernels.Fits`.
- Launch errors in the state machine of `Streams`: an operation there enqueues all its launches or none; calls whose launches are rejected are treated one at a time in `Host`, `Faults` and `EndToEnd`.
- Known-answer vectors: the block cipher is tied to its inverse, the S-box to its algebraic definition, and frames to literal bytes instead.
- OpenSSL itself: `CpuSeal.Context` is the assumed contract, an AES-128-GCM context whose calls succeed a given number of times and then fail; `RAND_bytes` and the thread-local context are parameters.
- HKDF key derivation, `AsyncSerdeProcessor`, and the LMCache submodule: not part of this model; key lookup is a function of the cache salt that always answers.
- Secrecy and unforgeability, and the timing of the S-box lookups: acceptance is stated exactly instead.
- Benchmarks, gates, summaries and shell scripts: measurement and I/O.
