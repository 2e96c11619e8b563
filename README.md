# cloakwork obfuscation core in Dafny

This project models the value, string and pointer obfuscation layer of
`cloakwork.h`, a header-only C++20 obfuscation library, and proves what that
layer promises. Its parts:

- **Mixed boolean-arithmetic helpers** (`cloakwork::mba`).
- **Integer wrappers** `obfuscated_value` and `mba_obfuscated`.
- **Compile-time string ciphers** `encrypted_string` and `layered_encrypted_string`.
- **Function-pointer indirection** `obfuscated_call` and `metamorphic_function`.
- **Data hiding** `scattered_value` and `polymorphic_value`.
- **Control-flow helpers**: the opaque predicates, `indirect_branch` and
  `flattened_flow::execute`.
- **Checksums**: `compute_crc32` and `fnv1a_hash`.

Every random draw (`CW_RANDOM_RT`, `CW_RANDOM_CT`, `CW_RAND_RT`, `CW_RAND_CT`)
is a parameter of the operation that makes it. `CW_RAND_*` is reduced as the
macros reduce it, to `min + draw % (max - min + 1)` (`Random.RandRange`). Each
component therefore becomes a keyed transform, and the proofs hold for every
key.

## Representation

- **Integers.** An unsigned C++ integer of `w` bits is a `nat` below 2^w.
  Module `Word` defines the operations on such values:
  - `~`, `&`, `|` and `^`, bit by bit;
  - `+`, `-` and `*`, modulo 2^w;
  - shifts;
  - `std::rotl` and `std::rotr`, as repeated one-bit rotations.
- **Bytes.** The string ciphers work on `bv8` bytes. `scattered_value` works
  on `nat` bytes below 256.
- **Mutable state.** Objects whose fields the source updates are classes:
  - `obfuscated_value`, `mba_obfuscated`, both string classes, `obfuscated_call`,
    `metamorphic_function`, `scattered_value`, `polymorphic_value`,
    `flattened_flow`.
  - Buffers the source rewrites in place are arrays: the string data, the
    decoy table, the mutation table and the chunk table.
  - Loops stay loops, with invariants.
- **Ghost fields.** The classes whose stored state is obfuscated carry a ghost
  field holding what that state stands for: the plaintext (both string
  classes), the target address (`obfuscated_call`), the listed functions
  (`metamorphic_function`) or the value last set (`obfuscated_value`,
  `mba_obfuscated`, `scattered_value`). Their `Valid()` predicates tie the
  stored state to that field. `polymorphic_value` and `flattened_flow` store
  their state in the clear and have no ghost field.

## Model

| member | source | states |
|---|---|---|
| Word.SumSplit | cloakwork.h:1093-1094 | x + y == (x ^ y) + 2 (x & y) for all w-bit x and y, the identity add_mba rests on |
| Word.DifferenceSplit | cloakwork.h:1099-1100 | x - y == (x ^ y) - 2 (~x & y) for all w-bit x and y, the identity sub_mba rests on |
| Word.NotOrNot | cloakwork.h:1117-1118 | De Morgan: ~(~x \| ~y) == x & y at every width |
| Word.NotAndNot | cloakwork.h:1123-1124 | De Morgan: ~(~x & ~y) == x \| y at every width |
| Word.XorInvolutive | cloakwork.h:851 | XORing a w-bit word twice with the same key gives it back, the fact every XOR layer of the library relies on |
| Word.RotateRoundTrip | cloakwork.h:1492-1505 | std::rotl and std::rotr by the same amount undo each other in both orders on w-bit words, and both stay within w bits |
| Word.AddSubRoundTrip | cloakwork.h:1495-1502 | adding a key and then subtracting it, modulo 2^w, gives the word back |
| Mba.AddMba | cloakwork.h:1093-1097 | add_mba(x, y) equals x + y modulo 2^w |
| Mba.SubMba | cloakwork.h:1099-1103 | sub_mba(x, y) equals x - y modulo 2^w |
| Mba.Mul2Mba | cloakwork.h:1105-1109 | mul2_mba computes (x ^ (x << 1)) + (x << 1) as written; the result is a w-bit word (the comment's x * 2 claim is refuted below) |
| Mba.Mul2MbaCounterexample | cloakwork.h:1105-1109 | for every width of 3 bits or more, mul2_mba(1) == 5 while 1 * 2 == 2 |
| Mba.Mul2MbaIntended | cloakwork.h:1105-1109 | the doubling the comment describes, built from the add_mba identity, equals x + x modulo 2^w |
| Mba.NegMba | cloakwork.h:1111-1115 | neg_mba(x) == add_mba(~x, 1) equals -x modulo 2^w |
| Mba.AndMba | cloakwork.h:1117-1121 | and_mba(x, y) equals x & y |
| Mba.OrMba | cloakwork.h:1123-1127 | or_mba(x, y) equals x \| y |
| Word.SubAddRoundTrip | cloakwork.h:1495-1501 | subtracting a key and then adding it, modulo 2^w, gives the word back |
| Word.Truncate | cloakwork.h:1155-1156 | static_cast<T> of a draw is a w-bit key |
| ValueObfuscation.Encode | cloakwork.h:1166-1170 | the stored form add_mba(v, add_key) ^ xor_key is a w-bit word |
| ValueObfuscation.Decode | cloakwork.h:1192-1194 | sub_mba(stored ^ xor_key, add_key) is a w-bit word |
| ValueObfuscation.DecodeEncode | cloakwork.h:1166-1194 | get() after set(v) yields v for every add_key and xor_key |
| ValueObfuscation.EncodeDecode | cloakwork.h:1166-1194 | every stored word is the encoding of what it decodes to, so the encoding is a bijection for each key pair |
| ValueObfuscation.ObfuscatedValue.Default | cloakwork.h:1154-1158 | the default constructor sets xor_key and add_key to the first and second draw truncated to T, stores the encoding of 0 and starts the access counter at 0 |
| ValueObfuscation.ObfuscatedValue.constructor | cloakwork.h:1160-1164 | the constructor sets xor_key and add_key to the first and second draw truncated to T, stores the encoding of val and starts the access counter at 0 |
| ValueObfuscation.ObfuscatedValue.Set | cloakwork.h:1166-1170 | set(val) stores the encoding of val under the object's keys |
| ValueObfuscation.ObfuscatedValue.Get | cloakwork.h:1186-1194 | get() returns the value last set, and bumps the 32-bit access counter with wrap-around |
| ValueObfuscation.MbaObfuscated.Default | cloakwork.h:1223-1227 | mba_obfuscated() sets key1 and key2 to the first and second draw truncated to T and stores the encoding of 0 |
| ValueObfuscation.MbaObfuscated.constructor | cloakwork.h:1229-1233 | mba_obfuscated(val) sets key1 and key2 to the first and second draw truncated to T and stores the encoding of val |
| ValueObfuscation.MbaObfuscated.Set | cloakwork.h:1235-1239 | set(val) stores add_mba(val, key1) ^ key2 |
| ValueObfuscation.MbaObfuscated.Get | cloakwork.h:1241-1245 | get() returns the value last set, for every key1 and key2 |
| Random.RandRange | cloakwork.h:377-380 | CW_RAND_RT and CW_RAND_CT give a value in [min, max] for every draw |
| StringEncrypt.PositionKeyPeriodic | cloakwork.h:835-840 | the key byte k1 ^ k2 ^ k3 of encrypt_char is the same at positions i and i + 256, for any two keys, so the key stream repeats every 256 bytes |
| StringEncrypt.LowBytesShift | cloakwork.h:836-838 | i, i * 3 and i * i keep their low byte when i grows by 256 |
| StringEncrypt.EncryptChar | cloakwork.h:835-840 | XORing encrypt_char(c, i) with the key byte of position i gives c back |
| StringEncrypt.Encrypted | cloakwork.h:884 | the ciphertext the constructor stores has the string's length |
| StringEncrypt.EncryptedInvolutive | cloakwork.h:835-879 | encrypting the ciphertext again restores the plaintext, since the key byte depends only on the position |
| StringEncrypt.EncryptedString.constructor | cloakwork.h:883-888 | the buffer holds the ciphertext of all N bytes and the flag says encrypted |
| StringEncrypt.EncryptedString.DecryptImpl | cloakwork.h:842-860 | afterwards the buffer holds the plaintext and the flag is set; if it was already set, nothing changes |
| StringEncrypt.EncryptedString.EncryptImpl | cloakwork.h:862-879 | afterwards the buffer holds the ciphertext again and the flag is clear; if it was already clear, nothing changes |
| StringEncrypt.EncryptedString.Get | cloakwork.h:890-893 | get() exposes all N original bytes, the terminator included; a second get() changes nothing |
| StringEncrypt.RotationAt | cloakwork.h:925 | the rotation of layer 2 is between 1 and 7 bits |
| StringEncrypt.DecryptEncryptLayers | cloakwork.h:920-955 | undoing layer 3, layer 2's XOR, the rotation and layer 1 inverts the three layers, for any keys and rotation |
| StringEncrypt.EncryptDecryptLayers | cloakwork.h:920-955 | applying the three layers inverts undoing them, for any keys and rotation |
| StringEncrypt.UndoFirstLayer | cloakwork.h:948-952 | rotating left the result of undoing the layers, once layer 1's key is XORed back out, gives the value layer 3 started from |
| StringEncrypt.EncryptMultilayer | cloakwork.h:920-932 | decrypt_impl's loop body at the same position gives the byte back, for every position and all three layer keys |
| StringEncrypt.DecryptMultilayer | cloakwork.h:941-955 | applying the three layers of the same position to the result gives the byte back; with EncryptMultilayer this makes each position's layers a bijection on bytes |
| StringEncrypt.Layered | cloakwork.h:988 | the layered ciphertext has the string's length |
| StringEncrypt.LayeredEncryptedString.constructor | cloakwork.h:987-992 | the buffer holds the layered ciphertext, the flag says encrypted, the access counter is 0 |
| StringEncrypt.LayeredEncryptedString.DecryptImpl | cloakwork.h:934-959 | afterwards the buffer holds the plaintext and the flag is set; if it was already set, nothing changes |
| StringEncrypt.LayeredEncryptedString.EncryptImpl | cloakwork.h:961-974 | afterwards the buffer holds the layered ciphertext and the flag is clear; if it was already clear, nothing changes |
| StringEncrypt.LayeredEncryptedString.Morph | cloakwork.h:977-983 | morph() bumps the 32-bit counter and leaves the buffer and the flag as they were, even when it re-encrypts and decrypts |
| StringEncrypt.LayeredEncryptedString.Get | cloakwork.h:994-998 | get() returns all N original bytes and bumps the counter once |
| ControlFlow.ToU32 | cloakwork.h:1370 | the int operand of `state ^ state_xor_key` becomes a 32-bit pattern |
| ControlFlow.ProductEven | cloakwork.h:1307 | x * (x + 1) is even for every natural x |
| ControlFlow.OpaqueTrue | cloakwork.h:1298-1315 | for N in [1, 100] and any address, opaque_true is true |
| ControlFlow.OpaqueFalse | cloakwork.h:1317-1330 | for N in [1, 100] and any address, opaque_false is false |
| ControlFlow.IndirectBranch | cloakwork.h:1421-1445 | indirect_branch returns its argument whatever the selector draw is |
| ControlFlow.BranchIdentities | cloakwork.h:1427-1443 | each of the five switch cases of indirect_branch is the identity on w-bit values |
| ControlFlow.FlattenedFlow.constructor | cloakwork.h:1344-1356 | init_states draws the key and then the five states from their disjoint ranges |
| ControlFlow.FlattenedFlow.Execute | cloakwork.h:1359-1418 | execute runs at most 100 rounds and calls func at most once per round; it returns func's result if func ran and the default value otherwise; if neither the start state nor the exec state decodes to 0xDEADBEEF, it calls func exactly once in two rounds |
| AntiDebug.Step | cloakwork.h:407 | one step of the branch-free bit loop is a 32-bit word |
| AntiDebug.StepMatchesReference | cloakwork.h:407 | the mask 0 - (crc & 1) selects the polynomial 0xEDB88320 exactly when the low bit is set, so the step equals the conditional step of section 8 of RFC 1952 |
| AntiDebug.StepsMatchReference | cloakwork.h:406-408 | any number of branch-free steps equals as many conditional steps |
| AntiDebug.RegisterMatchesReference | cloakwork.h:403-409 | after every prefix of the buffer, the register equals the register of section 8 of RFC 1952 |
| AntiDebug.ComputeCrc32 | cloakwork.h:403-412 | compute_crc32 returns the CRC-32 of section 8 of RFC 1952 for every buffer |
| AntiDebug.EmptyCrc | cloakwork.h:403-412 | the CRC of the empty buffer is 0 |
| AntiDebug.Register | cloakwork.h:404-409 | the register after any prefix is a 32-bit word |
| Detail.CharToU32 | cloakwork.h:266 | static_cast<uint32_t> of a signed char keeps bytes below 0x80 and sign-extends the others |
| Detail.Fnv1a | cloakwork.h:265-268 | the running FNV-1a hash stays a 32-bit word |
| Detail.Fnv1aHash | cloakwork.h:263-270 | fnv1a_hash hashes exactly the first N - 1 characters, the terminator excluded |
| Detail.Fnv1aAppend | cloakwork.h:265-268 | hashing a concatenation is hashing the second part from the hash of the first |
| Detail.TerminatorOnly | cloakwork.h:263-270 | a literal holding only its terminator hashes to the basis |
| FunctionObfuscation.ObfuscatePtr | cloakwork.h:1488-1498 | obfuscate_ptr yields a 64-bit word; its inverse is stated by DeobfuscateObfuscate |
| FunctionObfuscation.DeobfuscatePtr | cloakwork.h:1500-1508 | deobfuscate_ptr yields a 64-bit word; its inverse is stated by ObfuscateDeobfuscate |
| FunctionObfuscation.DeobfuscateObfuscate | cloakwork.h:1488-1507 | deobfuscate_ptr(obfuscate_ptr(p)) == p for every 64-bit p and every key |
| FunctionObfuscation.ObfuscateDeobfuscate | cloakwork.h:1488-1507 | obfuscate_ptr(deobfuscate_ptr(w)) == w, so the pointer cipher is a bijection on 64-bit words |
| FunctionObfuscation.KeyLayerForced | cloakwork.h:1512 | CW_RANDOM_RT() \| PTR_XOR_LAYER is at least PTR_XOR_LAYER, so the key is never 0 |
| FunctionObfuscation.FillDecoys | cloakwork.h:1517-1519 | decoy i is draw i XORed with the key, for all ten slots |
| FunctionObfuscation.ObfuscatedCall.constructor | cloakwork.h:1511-1523 | the key is the draw with PTR_XOR_LAYER's bits forced on; the stored word enciphers func; the slot CW_RAND_RT(0, 9) lies inside the ten decoys and holds that word; every other slot holds a draw XORed with the key |
| FunctionObfuscation.ObfuscatedCall.Call | cloakwork.h:1526-1540 | operator() calls the function the object was built from |
| Metamorphic.SlotContent | cloakwork.h:1754-1767 | slot k holds funcs[k] while the list lasts and funcs[0] after it, always a listed function |
| Metamorphic.FillSlots | cloakwork.h:1755-1767 | the constructor's two loops leave SlotContent in each of the five slots |
| Metamorphic.MetamorphicFunction.constructor | cloakwork.h:1754-1767 | every slot holds SlotContent, the cursor starts at 0 |
| Metamorphic.NextMutation | cloakwork.h:1772-1776 | operator() always selects a slot below 5, and the next slot round the table unless the jump draw is below 20 |
| Metamorphic.SteadyRotation | cloakwork.h:1772-1778 | without jumps, k calls move the cursor k slots round the table |
| Metamorphic.MetamorphicFunction.Invoke | cloakwork.h:1770-1780 | operator() moves the cursor as NextMutation says and calls one of the listed functions |
| DataHiding.ChunkSize | cloakwork.h:1587 | every chunk holds bytes_per_chunk or bytes_per_chunk + 1 bytes |
| DataHiding.ChunkStartClosedForm | cloakwork.h:1580-1596 | chunk i starts at i * bytes_per_chunk + min(i, remainder) |
| DataHiding.ChunksCoverValue | cloakwork.h:1580-1596 | with the source's bytes_per_chunk and remainder, the chunk sizes add up to sizeof(T) and every chunk lies inside the value |
| DataHiding.ChunkInside | cloakwork.h:1582-1583 | the same for bytes_per_chunk = sizeof(T) / Chunks and remainder = sizeof(T) % Chunks |
| DataHiding.ChunkWithin | cloakwork.h:1592-1594 | every chunk ends at or before the start of any later chunk |
| DataHiding.ChunkByte | cloakwork.h:1592-1593 | XORing a stored chunk byte with the chunk's key gives the value's byte back |
| DataHiding.ScatteredValue.Default | cloakwork.h:1599-1602 | the default constructor scatters sizeof(T) zero bytes with bytes_per_chunk and remainder as the source computes them |
| DataHiding.ScatteredValue.constructor | cloakwork.h:1604-1606 | the constructor scatters the bytes of value |
| DataHiding.ScatteredValue.ScatterData | cloakwork.h:1580-1597 | every chunk holds its share of the value's bytes, XORed with a key truncated from its own draw |
| DataHiding.ScatteredValue.FillChunk | cloakwork.h:1587-1594 | one outer round fills chunk i with its share and moves byte_idx to the start of chunk i + 1 |
| DataHiding.ScatteredValue.Get | cloakwork.h:1609-1620 | get() reassembles exactly the bytes last scattered, whatever the chunk keys are |
| DataHiding.ScatteredValue.Set | cloakwork.h:1624-1626 | set(value) scatters value |
| DataHiding.TransformAsWritten | cloakwork.h:1639-1682 | mutate()'s switch as written yields a value of T's width; transform 0 on a 2-byte type yields its complement, every other transform on every width yields the value unchanged |
| DataHiding.AsWrittenCorruptsShort | cloakwork.h:1660-1663 | as written, transform 0 turns a 2-byte value x into 0xFFFF - x, which differs from x for every x |
| DataHiding.TransformIntended | cloakwork.h:1639-1682 | with the 2-byte case complementing twice like the 4- and 8-byte cases, every transform is the identity |
| DataHiding.NextCount | cloakwork.h:1637 | ++mutation_count wraps within 32 bits |
| DataHiding.PolymorphicValue.Default | cloakwork.h:1689 | polymorphic_value() starts at T{} with the counter at 0 |
| DataHiding.PolymorphicValue.constructor | cloakwork.h:1690 | polymorphic_value(val) starts at val with the counter at 0 |
| DataHiding.MutatedChangesOnlyShort | cloakwork.h:1636-1686 | what mutate() leaves differs from the value it found exactly when T is 2 bytes wide, the bumped counter is a multiple of 100 and the draw picks transform 0 |
| DataHiding.PolymorphicValue.Mutate | cloakwork.h:1636-1686 | mutate() bumps the 32-bit counter; the value is complemented when T is 2 bytes wide, the new count is a multiple of 100 and the draw picks transform 0, and is kept otherwise |
| DataHiding.PolymorphicValue.Get | cloakwork.h:1692-1695 | get() bumps the counter once and returns what that mutation left: the value last held, or its complement in the 2-byte transform-0 case |
| DataHiding.PolymorphicValue.Set | cloakwork.h:1697-1700 | set(val) bumps the counter once and leaves val, or its complement in the 2-byte transform-0 case |

## Left out

- **Bytecode virtualization.** `CW_VM_*` is used by demo.cpp but defined nowhere in cloakwork.h, so there is no VM to model. demo.cpp itself is console I/O.
- **Anti-debug checks.** The checks other than `compute_crc32` read Windows APIs, process memory, debug registers and clocks. The `CW_INLINE_CHECK()` calls inside `get()`, `execute()` and `operator()` are treated as no-ops.
- **Raw memory reads.** `verify_code_integrity`, `has_breakpoints` and `detect_memory_breakpoints` read code bytes through function pointers. The CRC is modelled over a byte sequence only.
- **Entropy.** `runtime_entropy_seed`, the xorshift64* generator and the compile-time seed hash `__TIME__`, `__DATE__` and `__COUNTER__`. Every draw is a parameter instead.
- **Unused draws.** Draws the modelled code makes but never uses are not parameters. An example is `CW_RAND_CT(1, 3)` bounding the barrier loop of `execute()`.
- **Concurrency.** The string classes' mutexes and atomics, and the atomic counters, are plain sequential fields. Double-checked locking is modelled by its single-threaded effect.
- **Compiler barriers and volatile dummies.** `CW_COMPILER_BARRIER()` and the volatile dummies of the fake states change no modelled value.
- **Floating point.** The float paths of `obfuscated_value`, `polymorphic_value` for floating T, and the float dummy of `execute()`'s fake state.
- **`stack_encrypted_string`.** Its random wipe is not modelled.
- **Unused rotations.** The `rotate_left`/`rotate_right` members of `obfuscated_value` are never called.
- **Disabled-feature stubs.** The identity stubs compiled when a feature is disabled are not modelled.
- **Function pointers.** Function pointers are 64-bit addresses. What calling an address does is the parameter `code`. `metamorphic_function` holds its functions as values of a type parameter.
- **String key helpers.** `PositionKey`, `MixKeys`, `Layer3At`, `EncryptLayers` and `DecryptLayers` only compute. Their properties are stated by `PositionKeyPeriodic`, `EncryptChar` and the layer round-trip lemmas in the table.
- **`metamorphic_function` with an empty list.** It copies an uninitialised slot, which is undefined behaviour, so the constructor requires a non-empty list.
- **Signed types.**
  - The integer wrappers and `polymorphic_value` are modelled on unsigned w-bit patterns.
  - Signed overflow in transform 2 of `mutate()` is undefined behaviour in C++. It is modelled as wrap-around, which is what the targeted compilers produce.
  - `fnv1a_hash` assumes a signed `char`, the default on the targeted compilers.
- **`execute()` iteration count.** The test `state != state_end && iteration++ < 100` bumps the counter once more when it fails on the bound. It does not bump it when it fails because `state == state_end`, since `&&` short-circuits. `iterations` counts the rounds that ran, not this extra bump.
- ControlFlow.FlattenedFlow.Execute: states the exactly-once call only when neither the start state nor the exec state decodes to 0xDEADBEEF, which is the assumption of the comment at cloakwork.h:1373. When that assumption fails, only the bounds are stated.
- Mba.Mul2Mba: states only that the result is a w-bit word, because the doubling its comment claims is false; see Findings.
- **Loop-body helpers.** `FunctionObfuscation.FillDecoys`, `Metamorphic.FillSlots` and `DataHiding.ScatteredValue.FillChunk` are loops or loop bodies of the constructors and of `scatter_data`, split out as methods of their own.

## Findings

| source | as written | input that shows it | evidently intended | confidence | as-written member | corrected member |
|---|---|---|---|---|---|---|
| cloakwork.h:1105-1109 | `mul2_mba(x)` returns `(x ^ (x << 1)) + (x << 1)`, which its comment calls `x * 2` | x = 1 at any width of 3 bits or more: (1 ^ 2) + 2 == 5, not 2 | a doubling, which the add_mba identity gives as `(x ^ x) + ((x & x) << 1)` | not executed | Mba.Mul2Mba, Mba.Mul2MbaCounterexample | Mba.Mul2MbaIntended |
| cloakwork.h:1660-1663 | transform 0 of `polymorphic_value::mutate` complements a 2-byte value once, whereas the 4- and 8-byte cases complement twice | a `uint16_t` holding 0 at the hundredth access with transform draw 0 becomes 0xFFFF, and `get()` returns 0xFFFF | a second complement, as for the other widths, so that the value survives | not executed | DataHiding.TransformAsWritten, DataHiding.AsWrittenCorruptsShort, DataHiding.PolymorphicValue.Mutate | DataHiding.TransformIntended |
