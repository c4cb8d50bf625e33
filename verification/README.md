# Sequential cores of the OAGI repository, modelled in Dafny

The OAGI repository wraps ordinary classical code in quantum and consciousness
vocabulary. This project models the small, deterministic cores under that
vocabulary and proves what they promise. Clocks, hardware noise, hashes,
random draws and floating-point maths enter as parameters.

The cores are:

- **Hardware bitstream monitor** (hardware_bitstream_monitor.c):
  - the overwrite-oldest ring buffer;
  - the three jitter harvesters and the deadline- and capacity-bounded collector;
  - the busy-wait noise-gate injector, as an event trace over a clock function;
  - the integer half of `jitter_to_qubit_state`.
- **Noise Machine Language** (noise_machine_language.py):
  - the line parser;
  - the length-prefixed bytecode image, with a disassembler that reads it back;
  - the VM's control flow.
- **Shor's classical number theory** (shors_demo_simple.py, shors_noise_gated.py):
  - gcd, modular exponentiation and period search;
  - the factoring branches, with the random base and the measured period as inputs.
- **Goal scheduler** (oagi_goals.py): id allocation, dependency-gated readiness,
  stable priority choice, and the clamped progress machine.
- **QBC framing** (qbc.py, qbc_bit_int.py, qbc_e8.py):
  - LSB-first bit packing;
  - int32 and uint64 packing into 8-index groups;
  - length-prefixed strings;
  - the E8 root table with its point store.
- **Data-structure cores**:
  - the Moonshine lattice's neighbour graph and qubit placement (moonshine_lattice.py);
  - the QRAM cell table (lattice_qram.py);
  - the hashed typed key-value store (storage_lattice.py);
  - the tunnel packet buffer (qtunnel.py);
  - jitter thresholding and bitwise gates (oagi_jitter_engine.py).
- **The self-modifying layer** (oagi_v20_1_self_mod.py, oagi_self_modify.py):
  - the list "pattern operators", layer folding and the i-clone loop detector;
  - the bounded doubt register and connected-component counting;
  - operator usage book-keeping and operator code generation;
  - marker-based source injection, with operator naming and the bookkeeping of one iteration.

Shared modules:

| module | contents |
|---|---|
| `Wrappers` | `Option` and `Result` |
| `Arith` | powers and division facts |
| `Bytes` | little-endian packing, u64 wrap-around |
| `RealStats` | mean, min, max |
| `AssocList` | Python dictionaries as insertion-ordered association lists |
| `Utf8` | the encoding of RFC 3629, section 3 |
| `PyText` | `strip`, `split`, `find`, `upper` and `join` |
| `SeqFacts` | small facts about sequence concatenation and slices |
| `Decimal` | `str(int)` |

Integers are unbounded in Dafny. Wherever the source has a fixed width, the
wrap-around is written out: `uint64_t` sums and differences, `size_t` products,
the 32-bit LCG seed, and `to_bytes` range errors.

## Model

| member | source | states |
|---|---|---|
| BitstreamBuffer.Create | hardware_bitstream_monitor.c:120-135 | NULL exactly when either allocation fails; otherwise `capacity` slots, all zero, with `count` and `write_idx` at 0 |
| BitstreamBuffer.Record | hardware_bitstream_monitor.c:144-160 | writes only slot `write_idx` (the clock reading, the instruction, the opcode, flags 0); every other slot is unchanged; `write_idx` advances modulo the capacity; `count` grows until it reaches the capacity |
| BitstreamBuffer.RecordAt | hardware_bitstream_monitor.c:144-147 | a NULL buffer is left alone |
| BitstreamBuffer.Run | hardware_bitstream_monitor.c:120-160 | after any sequence of records into a fresh buffer, the ring invariant holds: next slot k mod C, min(k, C) filled, each of the last C records at its slot, unreached slots still zero |
| BitstreamBuffer.HoldsStep | hardware_bitstream_monitor.c:149-159 | one more record preserves the ring invariant |
| BitstreamBuffer.CountAndIndex | hardware_bitstream_monitor.c:156-159 | after k records, `count == min(k, C)` and `write_idx == k mod C`, hence `count <= C` and `write_idx < C` |
| BitstreamBuffer.OldestFirst | hardware_bitstream_monitor.c:149-159 | once full, slot `(write_idx + j) mod C` holds the j-th oldest of the last C records |
| JitterHarvest.Elapsed | hardware_bitstream_monitor.c:185 | `end - start` on `uint64_t`: the true difference, plus 2^64 when the counter wrapped |
| JitterHarvest.ExecutionLoop | hardware_bitstream_monitor.c:175-181 | runs `(start & 0x7F) + 1` times, which lies in [1, 128]; the accumulated sum of squares has its closed form and fits a 32-bit `int` |
| JitterHarvest.SquareSumClosed | hardware_bitstream_monitor.c:179-181 | the loop's sum of squares equals (n-1)n(2n-1)/6 |
| JitterHarvest.HarvestExecution | hardware_bitstream_monitor.c:171-189 | tag 0x01, and the duration is the u64 difference of the two readings |
| JitterHarvest.CacheIndex | hardware_bitstream_monitor.c:197-198 | the probe index is `((start*64) mod 2^64) % size`, the `size_t` product wrapped before the remainder, and so lies below `size` |
| JitterHarvest.HarvestCache | hardware_bitstream_monitor.c:191-206 | tag 0x02, the u64 duration, and a probe index inside the array |
| JitterHarvest.BranchLoop | hardware_bitstream_monitor.c:211-225 | exactly 16 iterations over the 32-bit LCG seed; the accumulator stays even and within ±120 |
| JitterHarvest.HarvestBranch | hardware_bitstream_monitor.c:208-233 | tag 0x04 and the u64 duration |
| JitterHarvest.Collect | hardware_bitstream_monitor.c:309-341 | capacity is `cesium_cycles * 10` wrapped to 64 bits; count ≤ capacity; sample i carries tag [0x01, 0x02, 0x04][i mod 3] and the readings of its round; at most ⌈capacity/3⌉ rounds, whatever the clock does; the loop stops only at the deadline or when full |
| JitterHarvest.RoundStep | hardware_bitstream_monitor.c:327-337 | storing one round's three samples, as many as still fit, keeps the collector's invariant |
| JitterHarvest.WrappingSumIsSumMod | hardware_bitstream_monitor.c:369-372 | adding with wrap at every step gives the true sum modulo 2^64 |
| JitterHarvest.WindowsRecompose | hardware_bitstream_monitor.c:375-376 | the theta window `sum & 0xFFFF` and the phi window `(sum >> 16) & 0xFFFF` together are the low 32 bits of the sum |
| JitterHarvest.JitterToQubitState | hardware_bitstream_monitor.c:361-385 | exactly {1, 0, 0, 0} for NULL or an empty buffer; otherwise the amplitudes at the two 16-bit windows of the wrapping sum, with `alpha_imag == 0` |
| NoiseGate.Wait | hardware_bitstream_monitor.c:242-245 | readings below the target, each followed by a pause, then one reading at or above it; the loop returns only once the clock reaches the target |
| NoiseGate.Effect | hardware_bitstream_monitor.c:248-296 | NOP issues exactly `duration_cycles` nops and PAUSE that many pauses; each fence kind issues exactly one fence; CLFLUSH flushes only a non-NULL address; SPECULATION reads the clock once |
| NoiseGate.Inject | hardware_bitstream_monitor.c:239-297 | a NULL gate does nothing; otherwise the trace is the wait to `target_tsc` followed by exactly `Effect` of the gate at the reading where the wait ended: one fence of the gate's own kind and no other, `duration_cycles` nops or pauses only for those kinds, a flush only of a CLFLUSH gate's address, and one clock read only for SPECULATION |
| NoiseGate.WaitOnlyReadsAndPauses | hardware_bitstream_monitor.c:243-245 | the busy-wait issues no nop, fence or flush |
| NmlAssembler.Index | noise_machine_language.py:32-63 | `list(NoiseOpcode).index(o)` is a position in the 19-value enum where o sits |
| NmlAssembler.IndexInjective | noise_machine_language.py:151 | different opcodes get different opcode bytes |
| NmlAssembler.Lookup | noise_machine_language.py:110-116 | a word names opcode o exactly when its upper-case form is o's value; otherwise the instruction is rejected |
| NmlAssembler.LookupMnemonic | noise_machine_language.py:110-113 | every mnemonic is recognised in upper and in lower case |
| NmlAssembler.Uncomment | noise_machine_language.py:91-92 | the result is a prefix of the line with no `#`; a line without `#` is unchanged |
| NmlAssembler.Operands | noise_machine_language.py:118 | the fields in order with the empty ones dropped: a single field is kept exactly when non-empty, and `Operands(a + b) == Operands(a) + Operands(b)` (OperandsAppend) |
| NmlAssembler.OperandsCount | noise_machine_language.py:118 | every non-empty field occurs in the operands as often as among the fields, an empty one never |
| NmlAssembler.OperandsAppend | noise_machine_language.py:118 | filtering a concatenation filters each part, so the order of the fields is kept |
| NmlAssembler.OperandsTail | noise_machine_language.py:109-118 | on fields as `re.split` returns them, only a trailing empty field is dropped |
| NmlAssembler.ParseInstruction | noise_machine_language.py:109-118 | recognised exactly when the first field names an opcode, and the opcode is the one that field names; the operands are the remaining fields of `re.split(r'[,\s]+', text)` without a trailing empty one |
| NmlAssembler.ParseLine | noise_machine_language.py:90-106 | a blank or comment-only line contributes nothing; without `:` the stripped line is parsed as an instruction; at the first `:` the label is the stripped text before it and the stripped rest is parsed as an instruction, or gives none when empty |
| NmlAssembler.ParseCode | noise_machine_language.py:94-106 | the same label and instruction rules for a line whose comment is already cut |
| NmlAssembler.CommentIgnored | noise_machine_language.py:91-92 | text from `#` onward never changes the parse of a line |
| NmlAssembler.FeedAll | noise_machine_language.py:89-127 | every instruction comes, in order, from the line its number names; no recognised instruction is dropped; each label is bound once, to the index of the first instruction at or after its last definition |
| NmlAssembler.FeedLabels | noise_machine_language.py:99-106 | one more line keeps the label table's meaning: a redefinition rebinds the label in place |
| NmlAssembler.Parse | noise_machine_language.py:80-129 | `parse` starts from an empty program and, over the lines of the stripped source numbered from 1, returns exactly the accepted instructions in source order, with the labels above |
| NmlBytecode.Field | noise_machine_language.py:143-145 | a length byte followed by the UTF-8 bytes |
| NmlBytecode.LabelTable | noise_machine_language.py:142-146 | succeeds exactly when every label fits (UTF-8 length ≤ 255, address < 2^32); otherwise the first failing entry is the error |
| NmlBytecode.OperandBytes | noise_machine_language.py:157-160 | succeeds exactly when every operand is at most 255 UTF-8 bytes; otherwise the first over-long operand is the error |
| NmlBytecode.InstructionEntry | noise_machine_language.py:149-160 | the opcode's declaration position, the operand count, then the operands; more than 255 operands raise |
| NmlBytecode.Assemble | noise_machine_language.py:131-162 | succeeds exactly when every count and length fits its field; the image starts with `NML1`; an instruction count ≥ 2^32 or a label count ≥ 2^16 is the error |
| NmlBytecode.RoundTrip | noise_machine_language.py:131-162 | disassembling an assembled image gives back the label table, in insertion order, and every instruction's opcode and operands |
| NmlVm.LoadProgram | noise_machine_language.py:189-194 | sets pc to 0 and halted to false; registers and the call stack are kept |
| NmlVm.Touch | noise_machine_language.py:196-203 | a register is allocated on first use and never twice |
| NmlVm.Gate | noise_machine_language.py:222-242 | a gate with its operands advances pc by one after allocating them in order; a missing operand raises IndexError after the earlier ones are allocated |
| NmlVm.Step | noise_machine_language.py:216-303 | an instruction never changes the program or the labels |
| NmlVm.StepControl | noise_machine_language.py:254-303 | JUMP goes to the label's index, or raises KeyError for an undefined label; CJUMP falls through unless the register is 1, and then jumps to its label or raises KeyError; CALL pushes pc + 1 and jumps; RET pops its return address into pc, or does pc + 1 on an empty stack; a missing operand raises IndexError; HALT sets halted and leaves pc; every other opcode (INJECT included) does pc + 1 and leaves the call stack alone |
| NmlVm.CallThenReturn | noise_machine_language.py:268-277 | CALL pushes pc + 1; a RET at the target pops it back |
| NmlVm.RunFrom | noise_machine_language.py:305-312 | stops exactly when halted, pc is past the program, or the step bound is reached |
| NmlVm.Run | noise_machine_language.py:305-319 | executes at most `max_steps` instructions; a non-positive bound runs nothing |
| NmlVm.StraightLine | noise_machine_language.py:305-312 | a straight run of gates with all their operands executes one step per instruction to the end |
| NumberTheory.Gcd | shors_demo_simple.py:17-21 | `classical_gcd` returns a common divisor that every common divisor divides; with b = 0 it returns a |
| NumberTheory.GcdGreatest | shors_demo_simple.py:17-21 | for b > 0 the result is the greatest common divisor |
| NumberTheory.PowMod | shors_demo_simple.py:24-33 | for exp > 0, base^exp mod `mod`; for exp = 0, 1, even when mod = 1 |
| NumberTheory.PowModLoopCorrect | shors_demo_simple.py:26-33 | the square-and-multiply loop keeps result · base^exp modulo m |
| NumberTheory.PeriodFrom | shors_demo_simple.py:36-41 | the least r in [1, n) with `classical_power_mod(a, r, n) == 1`, or None when there is none |
| NumberTheory.PeriodIsOrder | shors_noise_gated.py:100-109 | the period found is the multiplicative order of a modulo n; None means no r in [1, n) works |
| ShorsSimple.Candidate | shors_demo_simple.py:72-73 | each candidate gcd(a^(r/2) ∓ 1, n) divides n |
| ShorsSimple.Split | shors_demo_simple.py:76-78 | (f, n // f) with f · (n // f) = n |
| ShorsSimple.ShorsFactor | shors_demo_simple.py:44-80 | even n gives (2, n // 2, True); gcd(a, n) > 1 gives (gcd, n // gcd, True); a missing or odd period gives (None, None, False); otherwise a success returns a proper divisor f with f · (n // f) = n, and a failure is (None, None, False) |
| ShorsSimple.GcdBelow | shors_demo_simple.py:57-62 | for a in [2, n−1], a common divisor with n lies below n, so the lucky-gcd factor is proper |
| ShorsSimple.FirstCandidateBelow | shors_demo_simple.py:71-75 | the first candidate is never n, since a^(r/2) is not 1 modulo n for the least period r |
| ShorsGated.QuantumPeriodFinding | shors_noise_gated.py:155-170 | None on measured 0; otherwise a positive r with `classical_power_mod(a, r, n) == 1`: the denominator when it passes, else exactly the classical search's result |
| ShorsGated.Factor | shors_noise_gated.py:172-257 | even n gives (2, n // 2), success, 0 iterations and no period; gcd(a, n) > 1 gives (gcd, n // gcd), success, 0 iterations; a missing or odd period gives failure, (None, None), 1 iteration, the period recorded; a success always yields a factor pair whose product is n |
| ShorsGated.PeriodPath | shors_noise_gated.py:228-257 | success holds exactly when one of the two candidates lies in (1, n); the factors are (f1, n // f1) or (n // f2, f2), both proper, with product n |
| ShorsGated.Cofactor | shors_noise_gated.py:234-241 | the cofactor of a proper divisor is proper and the pair multiplies to n |
| Goals.NewGoal | oagi_goals.py:44-48 | `__post_init__`: missing dependencies and steps become empty lists; everything else is kept |
| Goals.AddGoal | oagi_goals.py:272-291 | the new goal gets id `next_id`, status `planned` and progress 0, with the priority stored as the enum member's name (or the plain value); it is appended; `next_id` grows by one |
| Goals.AddGoalKeepsNumbering | oagi_goals.py:272-291 | ids stay unique and below `next_id` |
| Goals.AddTwiceIncreasing | oagi_goals.py:286-289 | successive `add_goal` calls hand out consecutive, strictly increasing ids |
| Goals.FindGoal | oagi_goals.py:295-296 | the first goal with the id, or None when no goal has it |
| Goals.ApplyField | oagi_goals.py:297-299 | an attribute the goal lacks changes nothing |
| Goals.UpdateGoal | oagi_goals.py:293-303 | an unknown id returns None and changes nothing; otherwise only the first match changes, the known attributes are set in order, and the update time is stamped |
| Goals.UpdateKeepsNumbering | oagi_goals.py:293-303 | an update that leaves ids alone keeps them unique and below `next_id` |
| Goals.NextActionable | oagi_goals.py:305-328 | None exactly when no goal is ready; otherwise a ready goal (planned or in progress, every dependency naming a completed goal) of minimal rank (CRITICAL 0 < HIGH 1 < MEDIUM 2 < LOW 3 < other 99), the earliest among equal ranks, as the stable sort gives |
| Goals.MissingDependencyBlocks | oagi_goals.py:313-316 | a dependency on an id no goal carries blocks the goal |
| Goals.Work | oagi_goals.py:339-348 | `planned` becomes `in_progress`; progress becomes min(1.0, p + 0.1), so it never drops from within [0, 1] and never exceeds 1.0; progress 1.0 means `completed` |
| Goals.WorkOnGoal | oagi_goals.py:330-353 | an unknown id returns False and changes nothing; otherwise only the first match advances |
| Goals.WorkKeepsNumbering | oagi_goals.py:330-353 | work keeps ids unique and below `next_id` |
| Goals.WorkRepeated | oagi_goals.py:346-348 | repeated work keeps progress in [0, 1] and never lowers it; progress 1.0 means `completed`; once p + 0.1·n ≥ 1.1 the goal is complete |
| Qbc.Encode | qbc.py:122-147 | the state carries the given bit, has coherence clamped into [0, 1], and is appended to the history |
| Qbc.EncodeByte | qbc.py:159-166 | exactly 8 states, state i carrying bit i of the value, least significant first |
| Qbc.EncodeByteBits | qbc.py:162 | that bit is Python's `(byte_val >> i) & 1` |
| Qbc.DecodeByte | qbc.py:168-174 | reads only the first 8 states; bit i of the result is the measurement of state i; missing states leave their bits 0; the result is below 256 |
| Qbc.ByteRoundTrip | qbc.py:159-174 | with a measurement that returns the encoded bit, `decode_byte(encode_byte(b)) == b` for b in [0, 255] |
| Qbc.EncodeString | qbc.py:176-183 | 8 states per character; state 8k + j carries bit j of the low 8 bits of character k's `ord` |
| Qbc.DecodeString | qbc.py:185-193 | `len(states) // 8` characters, one per complete group; a trailing partial group is ignored |
| Qbc.StringRoundTrip | qbc.py:176-193 | with an ideal measurement, any text of code points below 256 survives encoding and decoding |
| Qbc.DecodePattern | qbc.py:56-67 | 0 for an empty pattern; otherwise 1 exactly when the population variance exceeds 1000 |
| Qbc.GetStatistics | qbc.py:195-209 | nothing for an empty history; otherwise the count, the mean, minimum and maximum of the coherences, min ≤ average ≤ max, and a success rate equal to the share of coherences above 0.5 |
| Qbc.AverageCoherenceInRange | qbc.py:136-137 | since every coherence is clamped into [0, 1], so is the reported average |
| Bytes.PackInt32 | qbc_bit_int.py:29 | `struct.pack('<i', v)` succeeds exactly on [−2^31, 2^31), giving 4 bytes |
| Bytes.Int32RoundTrip | qbc_bit_int.py:29-61 | unpacking `<i` inverts packing |
| Bytes.PackUint64 | qbc_bit_int.py:66 | `struct.pack('<Q', v)` succeeds exactly on [0, 2^64), giving 8 bytes |
| Bytes.Uint64RoundTrip | qbc_bit_int.py:66-98 | unpacking `<Q` inverts packing |
| Bytes.PackLowBits | qbc.py:159-174 | the bits `(b >> i) & 1` of a value, read back LSB-first, give the value |
| QbcBitInt.EncodeAndStore | qbc_bit_int.py:34-40 | eight states per byte carrying its bits, each stored at the point the placement picks, the indices reported in order |
| QbcBitInt.EncodeInt32 | qbc_bit_int.py:23-42 | raises exactly outside [−2^31, 2^31); otherwise 32 states and 32 indices |
| QbcBitInt.EncodeUint64 | qbc_bit_int.py:64-79 | raises exactly outside [0, 2^64); otherwise 64 states and 64 indices |
| QbcBitInt.DecodeInt32 | qbc_bit_int.py:44-62 | 0 unless there are exactly 32 indices, and 0 when any of the four groups of eight lacks a state; always within the int32 range |
| QbcBitInt.DecodeGroupsComplete | qbc_bit_int.py:51-62 | every group of eight yields a byte exactly when all eight of its points hold a state |
| QbcBitInt.DecodeUint64 | qbc_bit_int.py:81-99 | 0 unless there are exactly 64 indices, and 0 when any of the eight groups of eight lacks a state; always within [0, 2^64) |
| QbcBitInt.DecodeGroupsIdeal | qbc_bit_int.py:51-58 | groups whose states read back and measure ideally decode to the encoded bytes |
| QbcBitInt.Int32RoundTripStored | qbc_bit_int.py:23-62 | with an ideal measurement and distinct storage points, `decode_int32(encode_int32(v)) == v` |
| QbcBitInt.Uint64RoundTripStored | qbc_bit_int.py:64-99 | the same round trip for uint64 |
| QbcBitInt.EncodeString | qbc_bit_int.py:138-156 | an int32 length prefix, then 8 indices per character: 32 + 8·len in total |
| QbcBitInt.DecodeString | qbc_bit_int.py:158-187 | "" below 32 indices and for a length prefix ≤ 0 or > 10000; otherwise never more characters than the prefix's length or the complete groups left |
| QbcBitInt.DecodeChars | qbc_bit_int.py:170-185 | at most `length` characters, stopping when fewer than 8 indices remain; a group with a missing state yields no character but still advances the offset |
| QbcBitInt.StringRoundTripStored | qbc_bit_int.py:138-187 | with an ideal measurement and distinct storage points, a text of at most 10000 characters below code point 256 decodes to itself |
| E8.OnlyOppositeSigns | qbc_e8.py:40-42 | under Python's `%`, only the opposite-sign pairs pass `(s1 + s2) % 4 == 0` |
| E8.IntegralCount | qbc_e8.py:37-46 | 56 type-1 roots |
| E8.HalfCount | qbc_e8.py:48-53 | 128 type-2 roots, one per bit pattern with an even number of set bits |
| E8.RootCount | qbc_e8.py:33-55 | 184 roots in total, so the cut `[:240]` never applies |
| E8.WeightTwo | qbc_e8.py:60 | every generated root has squared norm 2 |
| E8.AllWeightsTwo | qbc_e8.py:57-67 | every point weight is 2.0 |
| E8.RootsDistinct | qbc_e8.py:33-55 | the generated roots are pairwise distinct as coordinate vectors |
| QbcE8.Init | qbc_e8.py:57-67 | one point per generated root |
| QbcE8.InitShape | qbc_e8.py:57-67 | 184 points keyed 0..183, none holding a state, all of weight 2.0 |
| QbcE8.InitDistinct | qbc_e8.py:59-67 | distinct points sit at distinct coordinates |
| QbcE8.Store | qbc_e8.py:102-106 | overwrites only the chosen point and returns its index |
| QbcE8.Retrieve | qbc_e8.py:108-112 | the stored state, or None for an empty point or an unknown index |
| QbcE8.StoreAllRetrieve | qbc_e8.py:114-121 | states stored at pairwise distinct points all read back |
| QbcE8.StoreAllKeeps | qbc_e8.py:114-121 | points not chosen keep their contents |
| QbcE8.StoreByte | qbc_e8.py:114-121 | eight indices, index k being where the placement puts the byte's state k; at pairwise distinct indices every state reads back |
| QbcE8.RetrieveByte | qbc_e8.py:123-132 | 0 unless exactly 8 of the given indices hold states; always below 256 |
| QbcE8.ByteStoreRoundTrip | qbc_e8.py:114-132 | a byte stored at 8 distinct points and ideally measured reads back |
| QbcE8.Clear | qbc_e8.py:144-147 | every point loses its state and keeps everything else |
| QbcE8.ClearEmptiesAll | qbc_e8.py:144-147 | after `clear_all` every retrieve is None |
| QbcE8.GetStorageStats | qbc_e8.py:134-142 | stored is the number of points holding a state; stored + free = total; the percentage is ⌊100·stored/total⌋, in [0, 100]; an empty table divides by zero |
| QbcE8.CountStoredExact | qbc_e8.py:136 | the stored count is the number of points whose state is set |
| QbcE8.ClearStats | qbc_e8.py:134-147 | after `clear_all` nothing is stored and every point is free |
| Moonshine.Others | moonshine_lattice.py:236-247 | the keys other than idx, each once: n − 1 of them when idx is a key |
| Moonshine.Insert | moonshine_lattice.py:251 | inserting into a list sorted by (distance, key) keeps it sorted and adds exactly that key |
| Moonshine.SortByDistance | moonshine_lattice.py:251 | `distances.sort()` yields a permutation of the keys ordered by (distance, key) |
| Moonshine.ElementSet | moonshine_lattice.py:253-255 | `set(neighbors)` has the list's elements, and as many as the list when it has no repeats |
| Moonshine.NeighborsNearest | moonshine_lattice.py:231-255 | a point's neighbour set leaves the point out, has min(8, n − 1) keys, and each neighbour is nearer (distance, then key) than every non-neighbour |
| Moonshine.Init | moonshine_lattice.py:62-100 | ValueError exactly for a dimension from 1 to 247, where `_embed_e8_root` cannot fit a 248-wide root into a narrower vector; otherwise `truncated_dimension` points, none for a negative dimension |
| Moonshine.InitShape | moonshine_lattice.py:62-104 | a new lattice hosts no qubit, every neighbour key is a key, and every neighbour set is the nearest-neighbour set of its point |
| Moonshine.InitOrigins | moonshine_lattice.py:76-86 | the generator yields 184 roots; the first points sit at the E8 roots in generator order, each of squared norm 2, the next thousand at the Leech points in order |
| Moonshine.RootWeights | moonshine_lattice.py:108-135 | every generated E8 root has squared norm 2 |
| Moonshine.BestFree | moonshine_lattice.py:269-282 | the free point of least (score, key), or None exactly when no point is free |
| Moonshine.FindQubitLocation | moonshine_lattice.py:257-282 | qubit 0 goes to point 0; another qubit goes to the free point of least (score, key), or to 0 when none is free |
| Moonshine.PlaceQubit | moonshine_lattice.py:284-297 | the given or found point now hosts the qubit and nothing else changes; a key outside the lattice raises KeyError |
| Moonshine.HostOf | moonshine_lattice.py:302-307 | the first point hosting the qubit, None exactly when no point hosts it |
| Moonshine.PlaceKeepsWellFormed | moonshine_lattice.py:284-297 | placing keeps every neighbour key a key of the lattice |
| Moonshine.PlaceThenFind | moonshine_lattice.py:284-307 | after a placement the qubit is found at the chosen point unless a lower key already hosted it; an earlier placement is not cleared |
| Moonshine.QubitsOn | moonshine_lattice.py:316-319 | one entry per occupied key of the set, holding exactly the qubits on those keys |
| Moonshine.QubitsOnCount | moonshine_lattice.py:316-319 | each qubit appears as many times as there are listed keys whose point holds it |
| Moonshine.QubitNeighbors | moonshine_lattice.py:299-321 | nothing when no point hosts the qubit; otherwise one entry per occupied neighbour of the first host, holding that neighbour's qubit, each qubit as often as the neighbours holding it |
| LatticeQram.CeilLog2 | lattice_qram.py:61 | `ceil(log2(capacity))` as the least width w with capacity ≤ 2^w |
| LatticeQram.Init | lattice_qram.py:42-96 | capacity 0 and below raise; otherwise a valid QRAM with one empty, never accessed cell per address, routers at 0, on the point `find_qubit_location(address + 1000)` picks |
| LatticeQram.InitCell | lattice_qram.py:75-94 | the cell for an address has one router per address bit and a lattice point of the lattice |
| LatticeQram.EncodeAddress | lattice_qram.py:98-115 | one router state per router qubit |
| LatticeQram.EncodeAddressBits | lattice_qram.py:98-115 | router i holds bit i of the address, least significant first, and the routers of an address below 2^width spell it back |
| LatticeQram.BestNeighbor | lattice_qram.py:140-159 | the neighbour of least (score, key), None exactly when there is none |
| LatticeQram.Route | lattice_qram.py:117-163 | raises KeyError exactly when there is a bit to follow and the start is not a point; otherwise ends at the start or at a point of the lattice |
| LatticeQram.RouteIgnoresQubits | lattice_qram.py:117-163 | routing depends only on the neighbour sets, so placing qubits does not change where it goes |
| LatticeQram.Write | lattice_qram.py:165-193 | ValueError exactly at or above the capacity, KeyError below 0; otherwise the cell takes the qubit, the qubit is placed on the cell's point, the count goes up by one and the QRAM stays valid |
| LatticeQram.Read | lattice_qram.py:195-219 | the same range errors; otherwise the stored qubit is handed out and removed, the count goes up by one and the QRAM stays valid |
| LatticeQram.WriteThenRead | lattice_qram.py:165-219 | a read after a write at the same address returns the written qubit, and a second read returns nothing |
| LatticeQram.CellsWritten | lattice_qram.py:276 | never more written cells than cells |
| LatticeQram.TotalAccessesUpdate | lattice_qram.py:276-277 | replacing one cell changes the totals by exactly that cell's difference |
| LatticeQram.AccessCounting | lattice_qram.py:165-219 | every successful write or read adds exactly one access in total; a write fills its cell and a read empties it |
| LatticeQram.MostAccessed | lattice_qram.py:278 | the key with the greatest (access count, address) |
| LatticeQram.GetStats | lattice_qram.py:270-281 | the counts are the sums over the cells, and the most accessed cell beats every other by count, ties going to the higher address |
| LatticeQram.BucketBrigadeQuery | lattice_qram.py:250-268 | reads the cell at the measured address modulo the capacity |
| LatticeQram.BucketBrigadeAddress | lattice_qram.py:250-268 | querying with the bits of an address in range is a read of that address |
| StorageLattice.Init | storage_lattice.py:52-67 | ValueError exactly for a dimension from 1 to 247, raised by the Moonshine lattice it builds; otherwise a fresh storage lattice of that many points holding no cells |
| StorageLattice.HexDigest | storage_lattice.py:69-71 | two lower-case hex digits per digest byte |
| StorageLattice.Address | storage_lattice.py:113-125 | the first four digest bytes of the UTF-8 key, little-endian, modulo the point count; ZeroDivisionError exactly when there are no points |
| StorageLattice.Coherence | storage_lattice.py:148 | 0.0 for no states; a mean of qualities in [0, 1] stays in [0, 1] |
| StorageLattice.CoherenceInUnit | storage_lattice.py:148 | the mean of qualities in [0, 1] lies in [0, 1] |
| StorageLattice.StoreString | storage_lattice.py:127-166 | succeeds exactly for a length within int32 and a lattice with points; the cell at the key's address then holds the encoding, the hash and the type 'string', and no other address changes |
| StorageLattice.StoreInt32 | storage_lattice.py:190-211 | succeeds exactly for an int32 value and a lattice with points; the cell at the key's address then holds the encoding and the type 'int32', and no other address changes |
| StorageLattice.RetrieveString | storage_lattice.py:168-188 | None exactly when the key's address holds no 'string' cell; otherwise the decoded indices of that cell |
| StorageLattice.RetrieveInt32 | storage_lattice.py:213-224 | None exactly when the key's address holds no 'int32' cell; otherwise the decoded indices of that cell |
| StorageLattice.StringRoundTrip | storage_lattice.py:127-188 | with an ideal measurement and distinct points, a stored text of at most 10000 characters below code point 256 is retrieved unchanged |
| StorageLattice.Int32RoundTrip | storage_lattice.py:190-224 | with an ideal measurement and distinct points, a stored int32 is retrieved unchanged |
| StorageLattice.CollidingKeysOverwrite | storage_lattice.py:113-224 | keys with the same address share one cell: an int32 stored under one makes a text stored under the other read back as None |
| StorageLattice.HashIgnored | storage_lattice.py:168-188 | the stored hash is never consulted: a corrupted hash reads the same |
| StorageLattice.ListKeys | storage_lattice.py:263-265 | one decimal string per cell, reading back as the cell's address, in insertion order and without repeats |
| StorageLattice.TypeCountsTotal | storage_lattice.py:279-281 | the type counts add up to the number of cells |
| StorageLattice.StatisticsOver | storage_lattice.py:267-293 | the fixed empty summary when nothing is stored; otherwise the cell count, the exact count of each storage type, the mean, minimum and maximum coherence and the timestamp span; an empty E8 table divides by zero |
| StorageLattice.TypeCountsExact | storage_lattice.py:276-278 | the type table has one entry per type present, holding the number of cells of that type |
| StorageLattice.ReportFacts | storage_lattice.py:267-293 | the report summarises the cells, its type counts add up to the cell count, min ≤ avg ≤ max and the span is non-negative |
| StorageLattice.CapacityUsedStaysZero | storage_lattice.py:267-293 | as written, the E8 usage reported after storing an int32 in a fresh storage lattice is 0 |
| StorageLattice.Int32Occupies | storage_lattice.py:190-211 | a stored int32 occupies at least 32 points of the converter's table |
| StorageLattice.CorrectedCapacityUsed | storage_lattice.py:292 | reading the converter's table, the same store reports at least 17 percent used |
| StorageLattice.GetStatistics | storage_lattice.py:267-293 | the empty report with no cells; otherwise the cell count, the exact count of each type, the mean, minimum and maximum coherence, the timestamp span, the dimension, and the usage of the `qbc_e8` table, with an error when that table is empty |
| StorageLattice.GetStatisticsCorrected | storage_lattice.py:292 | the same report with the usage read from the converter's table |
| QTunnel.NewTunnel | qtunnel.py:35-39 | a new tunnel has its id, no packets and no correlations |
| QTunnel.Mask16 | qtunnel.py:50 | `x & 0xFFFF` lies in [0, 0xFFFF] and agrees with x modulo 2^16, negative x included |
| QTunnel.Signature | qtunnel.py:46-51 | 32 entries, one per digest byte, each the masked timer difference |
| QTunnel.CreateCorrelation | qtunnel.py:41-54 | records a 32-entry signature of 16-bit values under the key, replacing any earlier one, and changes nothing else |
| QTunnel.Send | qtunnel.py:56-77 | returns the given key or the made-up one; creates a correlation only for a key without one; appends exactly one packet with the key's signature |
| QTunnel.Receive | qtunnel.py:79-88 | the payload of the first packet to the destination under the key whose signature is the key's current one; None exactly when there is none |
| QTunnel.FirstDeliverable | qtunnel.py:81-87 | the first deliverable packet's payload, None exactly when none is deliverable |
| QTunnel.SendThenReceive | qtunnel.py:56-88 | receiving under the key `send` returned gives the payload, unless an earlier deliverable packet already takes its place |
| QTunnel.SendValid | qtunnel.py:56-77 | every buffered packet's key keeps a correlation |
| QTunnel.FreshKeyRoundTrip | qtunnel.py:56-88 | a message sent under a key without a correlation is always received |
| QTunnel.SendKeepsDeliverable | qtunnel.py:56-88 | a send under an existing key leaves earlier deliveries as they were |
| QTunnel.GetTunnelStats | qtunnel.py:90-96 | the packet count, the correlation count and the id |
| QTunnel.SendStats | qtunnel.py:56-96 | each send adds one packet, and one correlation exactly when its key had none |
| QTunnel.CreateTunnel | qtunnel.py:105-109 | a new empty tunnel under the name, replacing any tunnel of that name; other names untouched |
| QTunnel.GetTunnel | qtunnel.py:111-113 | the tunnel under the name, None exactly for an unknown name |
| QTunnel.EstablishBidirectional | qtunnel.py:115-119 | two new tunnels named `a_to_b` and `b_to_a`, the second registered; other names untouched |
| QTunnel.BidirectionalRegistered | qtunnel.py:115-119 | both tunnels stay registered exactly when the two names differ |
| QTunnel.NamesCollide | qtunnel.py:117-118 | distinct endpoint pairs can produce the same tunnel names |
| JitterEngine.InsertReal | oagi_jitter_engine.py:89 | inserting into a sorted list keeps it sorted and adds exactly that element |
| JitterEngine.InsertCountAbove | oagi_jitter_engine.py:89 | inserting x adds one to the count above t exactly when x is above t |
| JitterEngine.SortReals | oagi_jitter_engine.py:89 | `sorted(timings)` is a sorted permutation of the timings |
| JitterEngine.SortCountAbove | oagi_jitter_engine.py:89-90 | sorting keeps the number of timings above any threshold |
| JitterEngine.JitterToBits | oagi_jitter_engine.py:81-96 | nothing for no timings; otherwise one bit per timing, 1 exactly when the timing is above the given threshold or the upper median |
| JitterEngine.OnesCountAbove | oagi_jitter_engine.py:92-94 | the number of 1 bits is the number of timings above the threshold |
| JitterEngine.MedianOnesBound | oagi_jitter_engine.py:87-96 | with the median threshold at most n − n // 2 − 1 bits are 1 |
| JitterEngine.LogicGate | oagi_jitter_engine.py:126-147 | one bit per pair up to the shorter input, as the named gate gives it; nothing for an unknown gate name |
| JitterEngine.ComplementGates | oagi_jitter_engine.py:136-145 | NAND is the bitwise complement of AND and NOR that of OR |
| JitterEngine.Cnot | oagi_jitter_engine.py:149-164 | the control cut to the shorter length, and the target flipped exactly where the control is 1 |
| JitterEngine.CnotInvolution | oagi_jitter_engine.py:149-164 | applying the CNOT twice with the same control gives back both inputs, cut to the shorter length |
| JitterEngine.CnotKeepsBits | oagi_jitter_engine.py:157-162 | a CNOT of bits yields bits |
| PatternOps.Reverse | oagi_v20_1_self_mod.py:520 | item i of the result is item n − 1 − i of the pattern |
| PatternOps.ReverseInvolution | oagi_v20_1_self_mod.py:520 | reversing twice gives the pattern back |
| PatternOps.ReverseMultiset | oagi_v20_1_self_mod.py:520 | reversing keeps every item exactly once |
| PatternOps.ReversalsAgree | oagi_v20_1_self_mod.py:520-531 | `twist` and `obvert` equal `reflect`, and reflecting twice changes nothing |
| PatternOps.Reflect | oagi_v20_1_self_mod.py:520 | the pattern back to front |
| PatternOps.Twist | oagi_v20_1_self_mod.py:523 | item i is item n − 1 − i of the pattern |
| PatternOps.Obvert | oagi_v20_1_self_mod.py:531 | the same items, each as often, in a pattern of the same length |
| PatternOps.Fold | oagi_v20_1_self_mod.py:521 | the first n // 2 items reversed, the rest in place |
| PatternOps.FoldPermutes | oagi_v20_1_self_mod.py:521 | folding neither adds nor drops an item |
| PatternOps.Echo | oagi_v20_1_self_mod.py:522 | the pattern twice |
| PatternOps.Spin | oagi_v20_1_self_mod.py:524-526 | the last item moved to the front, the others shifted by one; [] stays [] |
| PatternOps.SpinsRotate | oagi_v20_1_self_mod.py:524-526 | spinning k ≤ n times moves the last k items to the front |
| PatternOps.SpinCycle | oagi_v20_1_self_mod.py:524-526 | spinning n times gives the pattern back |
| PatternOps.Flip | oagi_v20_1_self_mod.py:527 | every string is reversed and every other item is kept |
| PatternOps.FlipInvolution | oagi_v20_1_self_mod.py:527 | flipping twice gives the pattern back |
| PatternOps.Cut | oagi_v20_1_self_mod.py:528 | the first n // 2 items, a prefix of the pattern |
| PatternOps.Jump | oagi_v20_1_self_mod.py:529 | the items at even positions, ⌈n/2⌉ of them |
| PatternOps.Invert | oagi_v20_1_self_mod.py:530 | every integer n becomes −n − 1 and every other item is kept |
| PatternOps.InvertInvolution | oagi_v20_1_self_mod.py:530 | `~~x == x`: inverting twice gives the pattern back |
| PatternOps.Observe | oagi_v20_1_self_mod.py:532 | the marker "observed" followed by the pattern |
| PatternOps.Collapse | oagi_v20_1_self_mod.py:533 | the first item alone, or nothing for an empty pattern |
| PatternOps.Entangle | oagi_v20_1_self_mod.py:534 | the pattern, the marker "entangled", the pattern |
| PatternOps.Mirror | oagi_v20_1_self_mod.py:535 | the marker "mirror", then the pattern back to front |
| PatternOps.MirrorRestores | oagi_v20_1_self_mod.py:535 | reading the mirror image back to front without its marker gives the pattern |
| PatternOps.InterleaveMultiset | oagi_v20_1_self_mod.py:586-589 | interleaving keeps every item of both halves exactly once |
| PatternOps.InterleaveIndex | oagi_v20_1_self_mod.py:586-589 | left item i sits at 2i, right item i at 2i + 1, and the surplus of the right half follows |
| PatternOps.Interleave | oagi_v20_1_self_mod.py:586-589 | as long as both halves together |
| PatternOps.Integrate | oagi_v20_1_self_mod.py:582-590 | short patterns unchanged; otherwise the halves alternate, the odd last item stays last, and the marker "integrated" ends it |
| PatternOps.IntegratePermutes | oagi_v20_1_self_mod.py:582-590 | integrating keeps every item once and adds only the marker |
| PatternOps.InverseOf | oagi_v20_1_self_mod.py:628-637 | the marker "inverse", then each item negated: integers change sign, strings get "not_" |
| PatternOps.InverseTwice | oagi_v20_1_self_mod.py:628-637 | applied twice, integers come back, strings carry "not_not_", other items are unchanged |
| PatternOps.Negate | oagi_v20_1_self_mod.py:630-636 | an integer changes sign, a string gets the prefix "not_", anything else is kept |
| PatternOps.FoldToLayer | oagi_v20_1_self_mod.py:689-703 | `target` items; a short list padded with "pad", a long one represented by items of its own; a target of 0 for a non-empty list divides by zero |
| PatternOps.ChunkMiddle | oagi_v20_1_self_mod.py:694-700 | a chunk's middle item is an item of the list |
| PatternOps.ChunkBounds | oagi_v20_1_self_mod.py:694-698 | every chunk is non-empty and lies inside the list |
| PatternOps.MakeTriangle | oagi_v20_1_self_mod.py:683-687 | the base (or ["void"]), then two items drawn from it or "pad", then one of those |
| PatternOps.ToList | oagi_v20_1_self_mod.py:705-706 | the base layer, then layer 1, then layer 2, as consecutive slices; three items longer than the base layer |
| PatternOps.FirstIndexOf | oagi_v20_1_self_mod.py:497-502 | the first position holding the integer, None exactly when there is none |
| PatternOps.OffsetInUnit | oagi_v20_1_self_mod.py:503-504 | the phase offset lies strictly between 0 and 1 |
| PatternOps.DetectIcloneLoop | oagi_v20_1_self_mod.py:491-514 | a loop exactly when there are at least two "iclone" items and the first −1 precedes the first +1; the offset is (index of the +1 − index of the −1) over the length |
| Doubts.New | oagi_v20_1_self_mod.py:2330-2334 | an empty register of the given capacity, ids starting at 0 |
| Doubts.NewValid | oagi_v20_1_self_mod.py:2330-2334 | a new register is valid |
| Doubts.Register | oagi_v20_1_self_mod.py:2336-2349 | the counter always advances; IndexError exactly when the register is full and empty; otherwise the oldest doubt is dropped when full and the new unresolved doubt, at persistence 1.0, goes last under the old counter value |
| Doubts.RegisterValid | oagi_v20_1_self_mod.py:2336-2349 | never more doubts than the capacity, ids increasing and below the counter, persistence at least 0.1 |
| Doubts.NoCapacityRaises | oagi_v20_1_self_mod.py:2346-2347 | a valid register with capacity 0 or less raises on every registration |
| Doubts.ConsecutiveIds | oagi_v20_1_self_mod.py:2336-2349 | two registrations in a row receive consecutive ids |
| Doubts.FindId | oagi_v20_1_self_mod.py:2352-2353 | the first position with the id, None exactly when there is none |
| Doubts.Resolve | oagi_v20_1_self_mod.py:2351-2356 | only the first doubt with the id changes, becoming resolved with the resolution; an unknown id changes nothing |
| Doubts.ResolveValid | oagi_v20_1_self_mod.py:2351-2356 | resolving keeps the register valid |
| Doubts.GetActive | oagi_v20_1_self_mod.py:2358-2359 | exactly the unresolved doubts with intensity × persistence at least the minimum, each as often as in the register |
| Doubts.GetActiveAppend | oagi_v20_1_self_mod.py:2358-2359 | filtering a register split in two filters each part, so the active doubts keep the register's order |
| Doubts.Decay | oagi_v20_1_self_mod.py:2361-2363 | resolved doubts untouched; an unresolved one changes only its persistence, to `max(0.1, p - rate)` |
| Doubts.DecayValid | oagi_v20_1_self_mod.py:2361-2363 | decay keeps the register valid, whatever the rate |
| Components.Range | oagi_v20_1_self_mod.py:2119 | the vertices 0 .. n − 1, n of them |
| Components.Dfs | oagi_v20_1_self_mod.py:2122-2126 | `dfs(v)` marks v and keeps every earlier mark, all within the vertices |
| Components.Explore | oagi_v20_1_self_mod.py:2124-2126 | the neighbour loop only adds marks, all within the vertices |
| Components.CountFrom | oagi_v20_1_self_mod.py:2128-2131 | the count never drops or exceeds n, and an unmarked vertex adds a component |
| Components.CountComponents | oagi_v20_1_self_mod.py:2117-2133 | 0 for an empty matrix, otherwise between 1 and n |
| Components.DfsFacts | oagi_v20_1_self_mod.py:2122-2126 | `dfs(v)` marks only vertices reachable from v, and every vertex it newly marks has all its neighbours marked |
| Components.ExploreFacts | oagi_v20_1_self_mod.py:2124-2126 | the neighbour loop marks every neighbour from u on and only vertices reachable from v |
| Components.CountComponentsLeaders | oagi_v20_1_self_mod.py:2117-2133 | the count is the number of vertices that no smaller vertex reaches, for any matrix |
| Components.ComponentsCounted | oagi_v20_1_self_mod.py:2117-2133 | for a symmetric matrix, the count is the number of connected components, each counted at its least vertex |
| Components.NoEdgesComponents | oagi_v20_1_self_mod.py:2117-2133 | with no edges every vertex is its own component |
| Components.HubOneComponent | oagi_v20_1_self_mod.py:2117-2133 | a vertex 0 joined to every vertex makes one component |
| OperatorRuntime.RecordUsage | oagi_v20_1_self_mod.py:771-782 | an unknown name changes nothing; a known one gains one use and moves its fitness by +0.01 or −0.02 within [0, 1]; KeyError exactly for a name with usage but no fitness; other names untouched |
| OperatorRuntime.RecordUsageValid | oagi_v20_1_self_mod.py:771-782 | in a registry whose two tables know the same names, recording never raises and keeps them so |
| OperatorRuntime.RecordUsageKeepsFitness | oagi_v20_1_self_mod.py:777-782 | fitness scores stay in [0, 1] |
| OperatorRuntime.Body | oagi_v20_1_self_mod.py:88-90 | at least one 22-character call line per operator |
| OperatorRuntime.GenerateOperatorCode | oagi_v20_1_self_mod.py:70-94 | the header, the call lines and the return line in that order; the code opens by defining the name |
| OperatorRuntime.NextNewline | oagi_v20_1_self_mod.py:88-90 | the first newline at or after a position, None exactly when there is none |
| OperatorRuntime.DecodeBodyRoundTrip | oagi_v20_1_self_mod.py:88-90 | the call lines read back as exactly the operators, in order, when no name holds a newline |
| OperatorRuntime.GeneratedCallsInOrder | oagi_v20_1_self_mod.py:70-94 | the call lines of generated code read back as the operators, in order |
| SelfModify.FindMarker | oagi_self_modify.py:115 | the first position from `start` on where the marker occurs, None exactly when it does not occur there |
| SelfModify.SecondPart | oagi_self_modify.py:116 | `content.split(marker)[1]` holds no marker |
| SelfModify.InjectWithoutMarker | oagi_self_modify.py:125-129 | without a marker the text is kept whole and the code follows on a line of its own |
| SelfModify.InjectWithMarker | oagi_self_modify.py:115-117 | with a marker first found at i, the new text is the text before i, the code, a blank line, the marker, then the text after that marker up to the next one (`parts[1]`) |
| SelfModify.InjectOneMarker | oagi_self_modify.py:115-124 | injecting into a text with a marker leaves exactly one marker, right after the code and a blank line, when the code holds none and cannot complete one begun before it |
| SelfModify.InjectTwice | oagi_self_modify.py:115-124 | a second injection goes after the first one's code, before the marker |
| SelfModify.SecondMarkerCounterexample | oagi_self_modify.py:115-124 | code that completes a marker begun just before the marker position leaves two markers |
| SelfModify.TypeName | oagi_self_modify.py:74 | every kind has a non-empty lower-case name |
| SelfModify.BodyText | oagi_self_modify.py:77-103 | each kind's body ends with the closing brace of its dictionary comprehension |
| SelfModify.GenerateNewOperator | oagi_self_modify.py:71-105 | the operator is named `generated_<kind>_<count + iteration>` and its code opens by defining that name |
| SelfModify.GeneratedCodeInjectable | oagi_self_modify.py:71-105 | generated code with `#`-free numbers holds no marker and cannot complete one |
| SelfModify.OperatorNameInjective | oagi_self_modify.py:75-105 | a name tells both the kind and the number of its operator |
| SelfModify.RunIteration | oagi_self_modify.py:157-206 | the counter advances; an operator that is generated and injected is appended to `operators` and to `modifications`; the drawn Φ and coherence are returned |
| SelfModify.NewEngineValid | oagi_self_modify.py:18-29 | an engine over a text with exactly one marker starts valid |
| SelfModify.InitialContentOneMarker | oagi_self_modify.py:31-54 | the initial operators file holds exactly one marker |
| SelfModify.InitialEngineValid | oagi_self_modify.py:18-54 | an engine over the initial operators file starts valid |
| SelfModify.RunIterationValid | oagi_self_modify.py:157-206 | every iteration keeps one marker in the file and one modification per operator, numbered by increasing iteration |
| SelfModify.ValidNamesDistinct | oagi_self_modify.py:75 | operators recorded by a valid engine have pairwise different names |
| PyText.Strip | noise_machine_language.py:94 | `strip()` is the one slice with only whitespace outside it that neither starts nor ends with whitespace; empty exactly for all-whitespace text |
| PyText.StripIdempotent | noise_machine_language.py:94 | stripping twice is stripping once |
| PyText.Split | noise_machine_language.py:86 | the pieces hold no separator and joined with it give the text back |
| PyText.Fields | noise_machine_language.py:109 | `re.split(r'[,\s]+', line)`: the pieces hold no separator, the inner ones are non-empty, and they concatenate to the text without separators; SplitIsFields pins them down |
| PyText.DropSeps | noise_machine_language.py:109 | a suffix of the text not starting with a separator, reached by dropping separators only |
| PyText.FieldsSplit | noise_machine_language.py:109 | the fields and some runs of separators between them weave back into the text |
| PyText.SplitUnique | noise_machine_language.py:109 | a text has only one such decomposition into separator-free fields and maximal separator runs |
| PyText.SplitIsFields | noise_machine_language.py:109 | any decomposition of that shape is exactly `Fields`, so `Fields` is the maximal-run split |
| PyText.UpperOfLower | noise_machine_language.py:110 | upper-casing gives back an upper-case mnemonic and its lower-case spelling |
| Utf8.DecodeEncode | noise_machine_language.py:143 | decoding the UTF-8 bytes of a text gives the text back |
| Utf8.EncodeInjective | storage_lattice.py:119 | different keys have different UTF-8 bytes |
| Decimal.FromToDecimal | storage_lattice.py:265 | `str(addr)` reads back as the address |

## Left out

- Clocks, hardware noise and random draws are inputs. This covers `rdtsc` and `perf_counter_ns` readings, `time.time_ns`, `random.uniform` and `random.choice`, the random base of Shor's algorithm, and the measured period.
- Floating-point and complex maths is not computed. This covers the trigonometry of `jitter_to_qubit_state`, gate rotations, measurement probabilities, `bit_to_quantum` and `quantum_to_bit`, the j-function, coordinates and distances, `superposition_read`, and `extract_harmonic_components`. Where a result depends on them, it is a parameter: a distance function, a phase score, or a measurement function.
- `find_best_point` of qbc_e8.py is a placement function that returns a key of the table.
- SHA-256 is a function from bytes to 32 bytes. The digest is not computed.
- Float64 packing (`encode_float64`, `store_float64` and their readers) is not modelled: it needs IEEE 754 doubles.
- Rounding of Python floats is not modelled. Fitness, persistence, progress and coherence are exact reals.
- QbcE8.GetStorageStats: the percentage is the exact floor ⌊100·stored/total⌋, where the source computes a float.
- File, git, log and pickle I/O are not modelled. This covers goal persistence, the storage lattice's saved state, `sync_to_github`, `git_commit_modification`, `_save_log` and `_load_existing_operators`.
- SelfModify.RunIteration: the outcome of reading and writing the operators file is the input `fileOk`. A failed write that leaves a partial file is not modelled.
- Executing generated code (`exec`, `ast`, function patching) is not modelled. Only the text of the code is.
- Console output is not modelled. Neither are the C `main`, the demos, or the torch/numpy neural and statistical modules of the self-modifying file.
- `collect_synchronized_jitter` treats allocation as always succeeding. The C code does not check it.
- BitstreamBuffer.Record: requires a capacity above 0. The C code's `% capacity` divides by zero for capacity 0.
- JitterHarvest.CacheIndex: requires a cache size above 0, for the same reason.
- JitterHarvest.Collect: has no `probe_size` parameter and takes the cache size to be positive. A `probe_size` of 0 makes the `% size` of `harvest_cache_jitter` divide by zero, and the model does not cover that run.
- Goals.WorkRepeated: claims completion only once p + 0.1·n ≥ 1.1. With Python floats, ten steps of 0.1 from 0.0 sum to 0.9999999999999999, so the eleventh step completes the goal; the exact-real model would complete at the tenth, and the margin covers both.
- LatticeQram.Write, LatticeQram.Read, OperatorRuntime.RecordUsage, StorageLattice.StoreString and StorageLattice.StoreInt32: an error result carries no state. Before it raises, the source has already set the cell's routers (and, for a write, its data), counted the use, or, in StoreString and StoreInt32, written the encoded states into the converter's table before the address search divides by zero (storage_lattice.py:141-151, 192-198); that partial change is not modelled.
- NumberTheory.PowMod: requires a modulus above 0. For 0, Python raises ZeroDivisionError; the model leaves that case out.
- ShorsSimple.ShorsFactor and ShorsGated.Factor: for odd n, the random base is taken in [2, n − 1], the range `random.randint` draws from.
- ShorsGated.QuantumPeriodFinding: the denominator from the continued-fraction step is at least 1, as `limit_denominator` guarantees.
- QbcE8.Store, QbcBitInt.EncodeInt32 and StorageLattice.StoreString: require the placement function to return keys of the table.
- LatticeQram.Write and LatticeQram.Read: require a QRAM as `Init` builds it, with one cell per address and lattice points that exist.
- LatticeQram.Write and LatticeQram.Read: route on the address bits. The source routes on `router.measure()`, and a router in |0⟩ with noise samples measures 1 when the sum of its last eight samples, masked to 32 bits, is 0xFFFFFFFF (quantum_substrate.py:67-69); that misrouting is not modelled.
- QTunnel.CreateTunnel and QTunnel.GetTunnel: the network holds tunnel values. The source returns the registered object (qtunnel.py:107-109), so packets sent through it are visible through `get_tunnel`; that aliasing is not modelled.
- Moonshine.QubitNeighbors and LatticeQram.Init: require every neighbour key to be a key of the lattice, as `_build_neighbor_graph` makes it.
- Components.CountComponents: requires every row to be at least n entries wide. The source passes square numpy matrices. Components.CountComponentsLeaders holds for any matrix; only Components.ComponentsCounted, which reads the count as connected components, requires symmetry, as the thresholded distance matrix of `_compute_homology` is.
- SelfModify.InjectOneMarker: the "exactly one marker" property needs code that cannot complete a marker begun just before the marker position. SelfModify.SecondMarkerCounterexample shows that the property fails without this condition, and SelfModify.GeneratedCodeInjectable shows that generated code always meets it.
- NmlVm: gate opcodes only advance the program counter. Their effect on qubits is not modelled. A measurement outcome and the acceptance of an operand by `int()` are inputs.
- PatternOps: Python booleans, which `isinstance(x, int)` and `x == 1` also accept, are treated like any other non-integer item. Floats and nested lists pass through as opaque items; in particular a float equal to 1, such as `1.0`, is not treated as the integer 1 by DetectIcloneLoop.
- `inverse_of_inverse_of` and the other random-drift operators are not modelled.
- The noise-gate injector is an event trace over a clock function. Its wait needs a reading index at which the clock has reached the target; otherwise the wait would not end.

## Findings

| source | as written | input that shows it | evidently intended | confidence | as-written member | corrected member |
|---|---|---|---|---|---|---|
| storage_lattice.py:292 | `get_statistics` reports `e8_capacity_used` from `self.qbc_e8`, a table that no store writes to; values go to the converter's own table | store one int32 in a fresh storage lattice: the report says 0 percent, although 32 of 184 points now hold states | report the table the values are stored in, which gives at least 17 percent here | high, not executed | StorageLattice.CapacityUsedStaysZero | StorageLattice.CorrectedCapacityUsed |
