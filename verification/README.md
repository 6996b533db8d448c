# Verified model of Beam's hard core

Beam is a Mimblewimble node with a contract virtual machine. This project models, in Dafny 4.11, the parts of it whose
correctness is hardest to see, and proves what they are there for. `dafny verify dfyconfig.toml` checks everything.

- **WASM compiler and interpreter.** The contract compiler turns structured WebAssembly (typed operand stack, indexed locals,
  nested blocks) into flat bytecode with stack-relative locals, patched absolute jumps and frames of arguments, return address,
  locals and operands. `WasmSource` is the structured machine, `WasmMachine` the flat one, `WasmCompiler` the compiler as a
  function and `WasmContext` as the in-place build; `WasmValid` is the validation of section 3.3 of the WebAssembly
  Core Specification, and `WasmCalls.Simulation` the theorem that ties them. `Leb128` is the number format.
- **Contract stack and far calls.** `StackFrames` and `ContractStack`: what arbitrary bytecode can and cannot touch.
- **Contract heap.** `Heap`: best fit and coalescing over three indexes.
- **Inner-product argument.** `InnerProduct`, `InnerProductRun`, `InnerProductBatch`: the folding prover, its lazy in-place form,
  and the batched verifier without inverses. Points are an arbitrary abelian group, scalars integers modulo its order.
- **Multi-scalar multiplication.** `Wnaf`, `WnafLists`, `MultiMac`, `MultiMacSecure`, `MultiMacInit`: recoding, per-bit lists in an
  array, the interleaved fast mode, the blinded secure mode, and the making of their tables.
- **Proof of work over a chain.** `ChainWork`, `ChainWorkCreate`, `ChainWorkCrop`, `ChainWorkRun`: sampler, prover, verifier, crop.
  `MultiProof`: the Merkle multi-proof they rest on.
- **Transactions.** `TxValidation`, `TxParallel`, `TxForks`, `TxRules`, `TxContext`: round-robin verifiers against a single one. `CutThrough`:
  `NormalizeP` and `Combine`.
- **Ledgers of the contract machine.** `FundsLedger`, `RefsLedger`.
- **Bounded arithmetic and codecs.** `Difficulty`, `Emission`, `Limbs`, `LimbShifts`, `WideInt`, `Compact`, `FixedPoint`,
  `FixedPointParse`, `Base64`, `Base32`.

Code that works in place is modelled as classes and methods over arrays and fields, each proved against a function; what is
promised is then proved about the function.

## Where code and expectation differ

- The branch check of the compiler compares operand counts and not types, so it accepts modules that are not valid; on one of them
  the flat run differs from the structured one (`WasmLimits.BranchMayUnbalance`). The simulation theorem has validity, in the sense
  of section 3.3 of the WebAssembly Core Specification, as a hypothesis on the module, and `WasmValid.Soundness` is why it suffices.
- `unreachable` emits nothing, so a run that meets it falls through (`WasmLimits.UnreachableFallsThrough`); the other hypothesis of
  the theorem is that no live code has it.
- The x86 emulation of signed numbers is not the standard value; `Leb128.EmulationAgreesIff` says exactly when it is.
- A heap request of zero bytes breaks the tiling (`Heap.AllocKeepsValidIff`).
- Forks that are not in use sit at the largest height. A kernel that starts there narrows the heights into another fork for the
  kernels after it in the same verifier, so several verifiers may accept what a single one refuses (`TxForks.BrokenDiffers`);
  `TxForks.ParallelIff` says exactly for which transactions, and `TxRules.ParallelIffGiven` under which rules.
- Where a contract runs without a record of flows, the funds equation fails for every operation that has a flow: amounts other than
  zero, and the deposits of assets created and destroyed (`FundsLedger.UntrackedApply`, `FundsLedger.UntrackedRun`).
- Multiplying a wide integer in place by itself yields zero (`WideInt.Uint.MulAssign`); the binary operator copies first.
- The Base64 and Base32 decoders stop at the first character outside the alphabet and do not look at what follows a complete text
  (`Base64.RestIgnored`); `Base64.ValidTexts` and `Base32.ValidTexts` say exactly what is valid.
- Near the largest difficulty the target no longer moves (`Difficulty.LastTargets`).
- Zero with a small exponent is refused by the decimal parser (`FixedPointParse.ZeroAcceptsIff`).

## Model

| member | source | states |
|---|---|---|
| `Leb128.StandardMeaning` | bvm/wasm_interpreter.cpp:98-169 | Standard mode, signed or not, succeeds exactly on terminated encodings whose length the width allows, and yields the integer that section 5.2.2 of the WebAssembly Core Specification assigns to the bytes, modulo the width; the definition it is compared with sums digits and knows nothing of the loop |
| `Leb128.WorkAroundIsStandard` | bvm/wasm_interpreter.cpp:98-169 | For every byte string the work-around returns what Standard mode returns; the bytes it rewrites denote, in every mode, the same value and length without taking the conflicting-sign branch again; and where it is not triggered every mode agrees |
| `Leb128.EmulationAgreesIff` | bvm/wasm_interpreter.cpp:98-169 | The x86 emulation accepts the same inputs with the same length; its value is the standard one if and only if the conflicting flag is absent or the bits it smears were all ones already |
| `Leb128.ReadFromMeaning` | bvm/wasm_interpreter.cpp:98-169 | The read loop accumulates the digit sum modulo the width and stops exactly where the encoding ends |
| `Leb128.WriteUProps` | bvm/wasm_interpreter.cpp:1202-1218 | The written digits spell x, are self-delimiting whatever follows, and are no longer than needed |
| `Leb128.WriteURoundTrip` | bvm/wasm_interpreter.cpp:1202-1218 | Reading what was written gives x back and its exact length, in every mode, whatever bytes follow |
| `Leb128.Reader.ReadInternal` | bvm/wasm_interpreter.cpp:98-169 | The loop over the buffer in place: the value, the advance of the read position, the sticky trigger flag, and that only the work-around writes, and only the last byte read |
| `WasmCode.DecodeOfEncode` | bvm/wasm_interpreter.cpp:1635-1710 | For every instruction the compiler can emit, the processor decodes the emitted bytes as that instruction with that length, whatever follows |
| `WasmLayout.StepShape` | bvm/wasm_interpreter.cpp:1277-1398 | Apart from block delimiters, compiling one instruction changes no open block, settles no label and emits at most one flat instruction |
| `WasmLayout.RunGrows` | bvm/wasm_interpreter.cpp:1277-1398 | Between any two positions of a body the emitted code only grows and a settled label keeps its value |
| `WasmLayout.AtFinal` | bvm/wasm_interpreter.cpp:1248-1275 | Code emitted up to any instruction of any function is a prefix of the final code, and a settled label of that function already has its final value |
| `WasmLayout.EntryLabel` | bvm/wasm_interpreter.cpp:1248-1305 | The label of a function is the address of its first emitted instruction, prologue included |
| `WasmLayout.ClosingEnd` | bvm/wasm_interpreter.cpp:839-870 | Scanning forward from anywhere inside a block, its `end` is found before the body ends; there the compiler has the operand types the block promised, the outer blocks unchanged, and the block label settled at that very address |
| `WasmLink.PatchIsResolve` | bvm/wasm_interpreter.cpp:1248-1275 | The patch loop over the byte image equals encoding the instructions with their labels replaced by addresses, byte for byte |
| `WasmLink.Fetch` | bvm/wasm_interpreter.cpp:1635-1710 | Decoding at the offset of the k-th instruction of any encoded list yields that instruction and leads to the offset of the next |
| `WasmLink.EveryTargetIsAnInstruction` | bvm/wasm_interpreter.cpp:872-901 | In an accepted module every label operand, of branches, tables and calls, resolves to the address where some emitted instruction starts |
| `WasmLink.PatchedImage` | bvm/wasm_interpreter.cpp:1248-1275 | What the build writes and patches is the image of the resolved code, provided its addresses fit 32 bits |
| `WasmLink.FetchAt` | bvm/wasm_interpreter.cpp:1248-1275 | Executing at the address of the k-th emitted instruction of the finished image executes that instruction with its labels resolved |
| `WasmSimulation.TickAt` | bvm/wasm_interpreter.cpp:1635-1710 | Where the machine stands at the address compiled for instruction i of function f, it executes what was emitted for that instruction |
| `WasmSimulation.EnterBlock` | bvm/wasm_interpreter.cpp:767-806 | Opening a block or loop keeps the structured run and the flat run in agreement, with the landing place of branches recorded in both |
| `WasmSimulation.SimLeave` | bvm/wasm_interpreter.cpp:1015-1017 | Closing a block costs no flat instruction and keeps the agreement |
| `WasmSimulation.SimBranch` | bvm/wasm_interpreter.cpp:882-910 | A branch of any depth lands, in both machines, on states that agree |
| `WasmSimulation.SimConditional` | bvm/wasm_interpreter.cpp:1023-1026 | A conditional branch agrees on both outcomes |
| `WasmSimulation.SimTable` | bvm/wasm_interpreter.cpp:1028-1047 | A table branch agrees on every index, including those beyond the table |
| `WasmOperands.SimCall` | bvm/wasm_interpreter.cpp:1106-1145 | Any instruction the compiler treats as popping some types and pushing others, and the machines as a shared operation, keeps the agreement or traps in both |
| `WasmOperands.SimDrop` | bvm/wasm_interpreter.cpp:959-962 | Dropping a value of one or two words agrees |
| `WasmOperands.SimSelect` | bvm/wasm_interpreter.cpp:964-973 | Selecting between two values of one or two words agrees, for both conditions |
| `WasmLocals.OffsetIsDistance` | bvm/wasm_interpreter.cpp:912-944 | The distance written by the compiler, counted from the words of the current operands, leads from the top of the flat stack to the local, across the return address |
| `WasmLocals.SimGet` | bvm/wasm_interpreter.cpp:946-948 | Reading a local at its compiled distance agrees with the structured read |
| `WasmLocals.SimSet` | bvm/wasm_interpreter.cpp:949-957 | Writing or teeing a local at its compiled distance agrees with the structured write |
| `WasmCalls.SimInvoke` | bvm/wasm_interpreter.cpp:1116-1145 | A direct call, with its return address and the callee prologue, leaves both machines at the first instruction of the callee with the arguments and zeroed locals in place |
| `WasmCalls.SimReturn` | bvm/wasm_interpreter.cpp:816-837 | A return, from the end of the body or inside it, hands the results to the caller, drops arguments, return address and locals, and continues after the call; or ends the run with the results |
| `WasmCalls.SimStep` | bvm/wasm_interpreter.cpp:1277-1398 | Every structured step is matched: block delimiters and `nop` by no flat instruction, every other instruction by one or two |
| `WasmCalls.Follows` | bvm/wasm_interpreter.cpp:767-1145 | For every accepted module, valid or not: after any number of structured steps there is a number of flat instructions after which the two agree, unless the structured run has left a block with the wrong operands or met `unreachable`; and the flat machine makes progress |
| `WasmCalls.Simulation` | bvm/wasm_interpreter.cpp:767-1145 | The simulation theorem: for every accepted module that is valid in the sense of section 3.3 of the WebAssembly Core Specification and has no live `unreachable`, every function, arguments and number of structured steps there is a number of flat instructions, at most 2·steps + 1, after which the flat machine has run out of stack or agrees with the structured run: same frames, locals and operands while running, same results at the end, a trap for a trap; and the structured run is never ahead of the flat one by more than the longest body per instruction |
| `WasmValid.TypedEnd` | bvm/wasm_interpreter.cpp:839-870 | In a valid body the `end` found by scanning forward from inside a block is where validation has the block closed, with the operands it was opened on |
| `WasmValid.SafeBranch` | bvm/wasm_interpreter.cpp:882-910 | In a valid body a branch of any depth lands where validation expects its operands |
| `WasmValid.SafeStep` | bvm/wasm_interpreter.cpp:767-1145 | One structured step of a valid module without live `unreachable` keeps every frame typed and never takes operands from below its block |
| `WasmValid.Soundness` | bvm/wasm_interpreter.cpp:767-1145 | Validity is sound: no run of a valid module without live `unreachable` ever leaves a block with the wrong operands or aborts |
| `WasmOperands.ConstantKept` | bvm/wasm_interpreter.cpp:1056-1066 | A constant is written out as its reader leaves it; what the machine reads back, with the unfixed padding, is the number that the original bytes stand for |
| `WasmLimits.BranchMayUnbalance` | bvm/wasm_interpreter.cpp:882-901 | A concrete accepted module that is not valid: its structured run leaves a block with the wrong operands after three steps, and the flat run goes on and returns with a word too many |
| `WasmLimits.UnreachableFallsThrough` | bvm/wasm_interpreter.cpp:1310-1398 | A concrete accepted and valid module with a live `unreachable`: the structured run aborts, the flat one falls through and returns |
| `WasmContext.Context.WriteResU` | bvm/wasm_interpreter.cpp:1202-1218 | Appends exactly the LEB128 digits of the number |
| `WasmContext.Context.PopTypes` | bvm/wasm_interpreter.cpp:747-756 | Pops the given types last first, or fails exactly when the model does |
| `WasmContext.Context.BlockOpen` | bvm/wasm_interpreter.cpp:767-796 | The operands above the block and its exit types are those of the model |
| `WasmContext.Context.BlockClose` | bvm/wasm_interpreter.cpp:839-870 | Closing settles the label, emits the return for the outermost block, and resets operands in dead code, as in the model |
| `WasmContext.Context.PutBranchLabel` | bvm/wasm_interpreter.cpp:882-901 | Fails exactly when the depth or the operand count does not suit the target |
| `WasmContext.Context.OnBranch` | bvm/wasm_interpreter.cpp:903-910 | The instruction written and the state left are those of the model |
| `WasmContext.Context.OnBranchTable` | bvm/wasm_interpreter.cpp:1028-1047 | The same for a table branch with its default |
| `WasmContext.Context.OnLocal` | bvm/wasm_interpreter.cpp:912-957 | The distance is counted before the operands change; state and bytes as in the model |
| `WasmContext.Context.OnInvoke` | bvm/wasm_interpreter.cpp:1116-1145 | Imported and local calls, as in the model |
| `WasmContext.Context.OnGlobal` | bvm/wasm_interpreter.cpp:1068-1104 | Imported and own variables, as in the model |
| `WasmContext.Context.OnInstruction` | bvm/wasm_interpreter.cpp:1310-1398 | One turn of the compile loop succeeds exactly when the model step does, with the same state and the bytes of the same instructions, constants as the reader leaves them |
| `WasmContext.Context.Compile` | bvm/wasm_interpreter.cpp:1277-1398 | Compiling a function in place is the functional compilation, on labels and code |
| `WasmContext.Context.PatchLabels` | bvm/wasm_interpreter.cpp:1248-1275 | The patch loop over the recorded sites is the functional patch |
| `WasmContext.Context.Build` | bvm/wasm_interpreter.cpp:1248-1275 | The whole build succeeds exactly on accepted modules; what it leaves in the result buffer is the image the simulation theorem runs, followed by the table of indirect functions |
| `StackFrames.ActCases` | bvm/wasm_interpreter.cpp:1405-1489 | One step of arbitrary bytecode stays inside the part of the running contract, enters a nested part by a far call, or returns to the caller; nothing else |
| `StackFrames.ActKeepsNested` | bvm/bvm2.cpp:216-307 | Every step keeps PosMin ≤ Pos ≤ BytesCurrent/4, BytesCurrent ≤ BytesMax, and the saved frames nested around it |
| `StackFrames.RunKeepsNested` | bvm/bvm2.cpp:216-307 | The same over every run |
| `StackFrames.RunGuarded` | bvm/bvm2.cpp:216-307 | While a run stays above some depth, nothing that belongs to the frames below it changes |
| `StackFrames.FarCallIsolation` | bvm/bvm2.cpp:1321-1360 | Between a far call and its matching return, with arbitrary bytecode and further far calls in between: the four registers of the caller are restored, no operand word below its position changes, and no stack byte at or above the limit given to the callee changes |
| `ContractStack.Stack.constructor` | bvm/wasm_interpreter.cpp:1483-1489 | An empty stack of the given size, within its limits |
| `ContractStack.Stack.Pop` | bvm/wasm_interpreter.cpp:1405-1409 | Pops the top word, or refuses exactly at PosMin |
| `ContractStack.Stack.Push` | bvm/wasm_interpreter.cpp:1411-1415 | Pushes a word, or refuses exactly when operands would meet the memory stack |
| `ContractStack.Stack.OnLocal` | bvm/wasm_interpreter.cpp:1573-1603 | Read, write and tee move the words of the local as in the model, including the overlapping copy |
| `ContractStack.Stack.OnSelect` | bvm/wasm_interpreter.cpp:1853-1866 | The words kept are those of the model |
| `ContractStack.Stack.OnRet` | bvm/wasm_interpreter.cpp:1979-2010 | The 32-bit subtractions and the tests after them refuse exactly when one of them wraps or leaves the frame; otherwise results replace the frame |
| `ContractStack.Stack.MoveSp` | bvm/wasm_interpreter.cpp:1449-1470 | Allocation, release and assignment of the memory stack pointer keep the registers in order or refuse |
| `ContractStack.Stack.StoreStack` | bvm/wasm_interpreter.cpp:1713-1768 | A store through a stack address changes only bytes between the pointer and the limit |
| `ContractStack.RetWrap` | bvm/wasm_interpreter.cpp:1979-2010 | The tests after the wrapping subtractions pass exactly when none of them wraps |
| `Heap.KeyUpdateKeepsOrder` | bvm/bvm2.cpp:1066-1067 | Where free blocks are apart, changing the start of one within its own bounds where it stands is the same as taking it out and inserting it again |
| `Heap.FreeApart` | bvm/bvm2.cpp:1047-1081 | In a tiling the free blocks are apart, in the order of the position index |
| `Heap.FitIsBest` | bvm/bvm2.cpp:1047-1056 | The lower-bound lookup finds a block exactly when one is large enough, and then a smallest such block |
| `Heap.AllocCorrect` | bvm/bvm2.cpp:1047-1081 | Allocation succeeds exactly when some free block fits; it takes a smallest one from its start, adds exactly that block to the used ones, and keeps the tiling, the indexes and coalescing |
| `Heap.FreeCorrect` | bvm/bvm2.cpp:1083-1100 | Release succeeds exactly on the start of a used block, removes exactly that block, and leaves a tiling with no two free blocks adjacent |
| `Heap.OnGrowCorrect` | bvm/bvm2.cpp:1181-1198 | Growth keeps the used blocks and ends in one free block made of the old free tail and all the new memory |
| `Heap.TestCorrect` | bvm/bvm2.cpp:1102-1113 | An access passes exactly when it lies inside one used block |
| `Heap.AllocExCorrect` | bvm/bvm2.cpp:970-995 | A request is served exactly when a free block fits or the limit leaves room once the free tail is used; then one block is added, and memory grows only within the limit |
| `Heap.AllocKeepsValidIff` | bvm/bvm2.cpp:1047-1081 | A served request keeps the tiling if and only if its size is not zero |
| `Heap.RunKeepsValid` | bvm/bvm2.cpp:970-1013 | Over every run of requests and releases the heap stays valid and its used blocks are exactly the ones the caller holds |
| `Heap.HeldBlocksAreDisjoint` | bvm/bvm2.cpp:970-1013 | Over every run from the empty heap, blocks held at the same time do not overlap, occur once, and lie inside the memory |
| `Heap.Allocator.constructor` | bvm/bvm2.cpp:1161-1168 | The empty indexes |
| `Heap.Allocator.Insert` | bvm/bvm2.cpp:1133-1142 | Adds one block: sorted indexes stay sorted, both free indexes keep holding the same blocks, and free and used together grow by exactly that block |
| `Heap.Allocator.Remove` | bvm/bvm2.cpp:1144-1153 | Takes one block out: sorted indexes stay sorted, both free indexes keep holding the same blocks, and free and used together shrink by exactly that block |
| `Heap.Allocator.Update` | bvm/bvm2.cpp:1115-1120 | The entry is changed at its own index of the position order and re-inserted by size; where free blocks are apart and the start stays within the block, both indexes are as if the block had been removed and the new one inserted |
| `Heap.Allocator.Take` | bvm/bvm2.cpp:1047-1081 | `Alloc` in place: the address and the failure are those of the model in every state, the new indexes wherever free blocks are apart; positive sizes keep the heap valid |
| `Heap.Allocator.Merge` | bvm/bvm2.cpp:1122-1131 | `TryMerge` in place is the model wherever free blocks are apart |
| `Heap.Allocator.Release` | bvm/bvm2.cpp:1083-1100 | `Free` in place: fails exactly when the model does, with nothing changed; on a valid heap the new indexes are those of the model, with both neighbours joined, and valid |
| `Heap.Allocator.Grow` | bvm/bvm2.cpp:1170-1198 | `OnGrow` in place is the model on a valid heap, with and without a free tail, and leaves it valid |
| `InnerProduct.FoldPairing` | core/ecc_bulletproof.cpp:193-202 | Folding scalars by (x, 1/x) and points by (1/x, x) keeps their pairing up to x² and 1/x² times the cross pairings, for every vector of even length in every abelian group of that order |
| `InnerProduct.FoldDot` | core/ecc_bulletproof.cpp:193-202 | The same for the scalar product of the two vectors |
| `InnerProduct.FoldStep` | core/ecc_bulletproof.cpp:401-451 | One round turns the commitment C into C + x²·L + x⁻²·R with the cross commitments of that round |
| `InnerProduct.ProveIsPlain` | core/ecc_bulletproof.cpp:401-451 | For all vectors and invertible challenges, of any dimension 2^n, the proof satisfies the plain verification equation |
| `InnerProduct.FoldAllMultiplied` | core/ecc_bulletproof.cpp:323-372 | Scaling the factor pairs of every round scales the folded generators by the product |
| `InnerProduct.ExceptIsQuotient` | core/ecc_bulletproof.cpp:524-553 | The product of all squared challenges but one is their product divided by that one |
| `InnerProduct.BatchedGenerators` | core/ecc_bulletproof.cpp:565-579 | The folding with inverses multiplied out is the plain folding times the product of the challenges |
| `InnerProduct.BatchedIsScaledPlain` | core/ecc_bulletproof.cpp:508-595 | For every proof, honest or not, the batched sum is the product of squared challenges times the difference of both sides of the plain equation |
| `InnerProduct.BatchedIffPlain` | core/ecc_bulletproof.cpp:508-595 | For every proof the inverse-free sum is zero if and only if the plain equation holds |
| `InnerProduct.ProveIsBatched` | core/ecc_bulletproof.cpp:401-595 | For all vectors and invertible challenges the batched sum of the honest proof is zero |
| `InnerProductRun.AggregateIsFold` | core/ecc_bulletproof.cpp:323-372 | The recursive expansion, which applies the oldest challenge first, equals repeated folding, which applies the newest first |
| `InnerProductRun.SameChallenges` | core/ecc_bulletproof.cpp:471-490 | The verifier, feeding the cross commitments of the proof to the same oracle, draws the challenges the prover used |
| `InnerProductRun.CondenseBase` | core/ecc_bulletproof.cpp:193-202 | The in-place folding loop, also when the destination is the source |
| `InnerProductRun.Mac.Proceed` | core/ecc_bulletproof.cpp:336-372 | The recursion adds to the collected terms exactly k times the folded generator |
| `InnerProductRun.Mac.AddHalf` | core/ecc_bulletproof.cpp:288-321 | One half of a vector against one half of the folded generators |
| `InnerProductRun.CrossTerm` | core/ecc_bulletproof.cpp:288-300 | The dot part of a cross commitment |
| `InnerProductRun.ExtractLR` | core/ecc_bulletproof.cpp:288-321 | The collected terms sum to the left cross commitment for j = 0 and to the right one for j = 1, generators being expanded lazily |
| `InnerProductRun.CondensePoints` | core/ecc_bulletproof.cpp:250-286 | The generators turned into points are the folded generators |
| `InnerProductRun.CondenseSetup` | core/ecc_bulletproof.cpp:250-286 | Turning expanded generators into points after the third cycle does not change what they stand for |
| `InnerProductRun.Cycle` | core/ecc_bulletproof.cpp:401-451 | One cycle yields the cross commitments of the folding prover and the folded vectors |
| `InnerProductRun.Create` | core/ecc_bulletproof.cpp:401-451 | `Create` returns the proof of the folding prover with the same oracle, for every vector, generator and modifier |
| `InnerProductBatch.Batch.AddCasual` | core/ecc_bulletproof.cpp:58-86 | One more term, with the buffer summed up first when it is full: the total grows by the multiplied term either way |
| `InnerProductBatch.Batch.AddPreparedM` | core/ecc_bulletproof.cpp:93-97 | The coefficient of a prepared generator grows; the total by that multiple |
| `InnerProductBatch.Batch.AddPrepared` | core/ecc_bulletproof.cpp:88-91 | The same with the current multiplier |
| `InnerProductBatch.Batch.EquationBegin` | core/ecc_bulletproof.cpp:114-130 | Begins an equation under a new multiplier; an unused batch starts from zero |
| `InnerProductBatch.Batch.Flush` | core/ecc_bulletproof.cpp:99-112 | Accepts exactly when the total of all equations is zero, or there is none |
| `InnerProductBatch.Batch.Proceed` | core/ecc_bulletproof.cpp:336-372 | In batch mode the recursion adds the folded generators, inverses multiplied out, to the coefficients |
| `InnerProductBatch.Init` | core/ecc_bulletproof.cpp:464-490 | Dot multiplier, squared challenges and both products, as drawn from the transcript |
| `InnerProductBatch.AllExcept` | core/ecc_bulletproof.cpp:524-548 | The product of all squares but one, from products of neighbouring pairs |
| `InnerProductBatch.SummedIsBatched` | core/ecc_bulletproof.cpp:508-595 | With an ambient multiplier already inside the second generators, what is added is that multiple of the batched equation |
| `InnerProductBatch.AddCross` | core/ecc_bulletproof.cpp:524-558 | Adds the weighted cross commitments |
| `InnerProductBatch.AddGenerators` | core/ecc_bulletproof.cpp:565-579 | Adds both folded generator sums |
| `InnerProductBatch.Verify` | core/ecc_bulletproof.cpp:508-595 | `IsValid` on drawn challenges adds the batched equation to the total, for any modifier and ambient multiplier, and nothing else |
| `InnerProductBatch.IsValid` | core/ecc_bulletproof.cpp:492-506 | With a commitment: the total grows by a new multiplier times the batched equation |
| `InnerProductBatch.HonestEquationIsZero` | core/ecc_bulletproof.cpp:401-595 | What a proof by the prover adds to a batch is zero, whatever the vectors, oracle and multiplier |
| `InnerProductBatch.CreateCommitted` | core/ecc_bulletproof.cpp:390-451 | `Create` with the commitment of the two vectors |
| `InnerProductBatch.IsValidAlone` | core/ecc_bulletproof.cpp:453-462 | Outside of a batch, acceptance is that the batched sum times its multiplier is zero |
| `InnerProductBatch.CreateThenVerify` | core/ecc_bulletproof.cpp:401-595 | For all vectors, modifiers and non-zero challenges, what `Create` makes `IsValid` accepts |
| `Wnaf.PortionOf` | core/ecc.cpp:1178-1183 | Reading a portion from one machine word reads those bits of the scalar when it does not cross a word boundary |
| `Wnaf.Context.NextOdd` | core/ecc.cpp:1204-1234 | Finds the lowest set bit of what is left, returns the odd window there, and leaves the position after it; or zero exactly when nothing is left |
| `Wnaf.EntriesFit` | core/ecc_native.h:306-311 | Any list of digits spaced as the recoding spaces them fits nMaxEntries |
| `Wnaf.FlippedBits` | core/ecc.cpp:1274-1276 | Flipping all bits of an odd window but the lowest is subtracting it from the window size, for every window |
| `Wnaf.Recode` | core/ecc.cpp:1241-1284 | For every 256-bit scalar and window: the digits are odd, below the window, at ascending and spaced bits, sum to the scalar, and fit the buffer |
| `WnafLists.PushKeeps` | core/ecc.cpp:1286-1297 | Putting an element in front of a bit list keeps every pending entry on exactly one list |
| `WnafLists.PopKeeps` | core/ecc.cpp:1301-1333 | Taking the first element off keeps it too, and the entry taken is the one pending |
| `WnafLists.NothingAt` | core/ecc.cpp:1556-1600 | An empty list at a bit means that no element has a digit pending there |
| `WnafLists.Shared.constructor` | core/ecc.cpp:1236-1239 | All lists empty |
| `WnafLists.Shared.Add` | core/ecc.cpp:1241-1299 | Recodes the scalar and links its highest digit; all other elements keep their digits and lists |
| `WnafLists.Shared.Fetch` | core/ecc.cpp:1301-1333 | Returns the pending digit of the first element of the bit, each digit once, and links the next lower digit |
| `MultiMac.MakeOdd` | core/ecc.cpp:1079-1089 | The table holds the odd multiples of the point |
| `MultiMac.Needed` | core/ecc.cpp:1506-1531 | The table of a casual point reaches every digit that occurs |
| `MultiMac.Drain` | core/ecc.cpp:1556-1600 | Emptying the lists of one bit adds exactly the digits at that bit, each times its point |
| `MultiMac.Interleave` | core/ecc.cpp:1551-1601 | Doubling over all bits with the digits of both sets of scalars interleaved yields the sum of all scalar multiples |
| `MultiMac.Enlist` | core/ecc.cpp:1471-1489 | Scalars recoded and listed; points at zero are left out, which changes no sum |
| `MultiMac.Fast` | core/ecc.cpp:1445-1601 | Fast mode returns Σ kᵢ·Pᵢ over casual and prepared points |
| `MultiMacSecure.WindowsAre` | core/ecc.cpp:1602-1641 | The fixed windows from a boundary up make up the scalar divided by the weight of that boundary |
| `MultiMacSecure.MakeBlinded` | core/ecc.cpp:1151-1169 | The table of a casual point holds its multiples plus the blinding point |
| `MultiMacSecure.CasualScalar` | core/ecc.cpp:1826-1838 | The doubling loop computes the sum of the weights at which blinding points are added, modulo the order |
| `MultiMacSecure.CasualCompensation` | core/ecc.cpp:1826-1844 | With that scalar negated, the compensation of casual points takes off all blinding points of one element |
| `MultiMacSecure.Offset` | core/ecc.cpp:1107-1131 | What the compensation of a prepared point takes off: its secret multiple, computed by the fast mode from its own table, and its blinding point at the weights of all windows |
| `MultiMacSecure.AddWindows` | core/ecc.cpp:1608-1640 | At a window boundary each scalar adds its window and one blinding point |
| `MultiMacSecure.Compensate` | core/ecc.cpp:1644-1655 | Adding the compensations leaves the sum with the secret scalars taken off |
| `MultiMacSecure.Step` | core/ecc.cpp:1602-1641 | One bit of one set of points |
| `MultiMacSecure.Secure` | core/ecc.cpp:1545-1655 | From tables and compensations as `MultiMacInit` makes them, secure mode returns Σ kᵢ·Pᵢ: blinding points and secret scalars cancel, modulo the group order |
| `MultiMacSecure.Calculate` | core/ecc.cpp:1445-1661 | From such tables both modes return the same sum Σ kᵢ·Pᵢ, for all scalars and points |
| `MultiMacInit.Initialize` | core/ecc.cpp:1079-1144 | A prepared point: odd multiples, blinded table and compensation, from the first draw of blinding point and scalar that makes none of them zero; it fails only if no draw does |
| `MultiMacInit.InitAll` | core/ecc.cpp:1072-1144 | All prepared points: fast tables and secure tables as the two modes need them, unless some point has no usable draw |
| `MultiMacInit.CasualComp` | core/ecc.cpp:1823-1844 | The compensation shared by casual points is minus all the blinding points of one element |
| `MultiMacInit.InitCasual` | core/ecc.cpp:1151-1169 | Blinded tables of the casual points, with one blinding point and one compensation for all |
| `MultiMacInit.FromPoints` | core/ecc.cpp:1072-1661 | From points, scalars and draws, with nothing presumed of any table: both modes return Σ kᵢ·Pᵢ over casual and prepared points; it fails only if some prepared point has no usable draw |
| `ChainWork.SampleDescends` | core/chainwork.cpp:86-137 | A successful draw is at or above the bound and between the new and the old begin, which drops strictly |
| `ChainWork.AcceptedDescends` | core/chainwork.cpp:403-475 | From any state of the verifier loop, what an accepted run still visits descends strictly |
| `ChainWork.VisitsAreStates` | core/chainwork.cpp:403-475 | What the loop visits, turn by turn, are the states of the proof in order: those rebuilt from the heading, then the arbitrary ones |
| `ChainWork.AcceptedIntervals` | core/chainwork.cpp:336-479 | If a proof is accepted, its states from the tip down, rebuilt or given, have work intervals that are non-empty, disjoint and strictly descending, each holds its sampled point, and no point is below the bound |
| `ChainWorkCrop.CroppedHeading` | core/chainwork.cpp:271-329 | The heading states rebuilt from a cropped proof are the ones rebuilt from the whole, as far as they go |
| `ChainWorkCrop.StepsCropped` | core/chainwork.cpp:271-329 | As long as the verifier stays within the cut it does the same on both proofs |
| `ChainWorkCrop.CropIsValid` | core/chainwork.cpp:271-329 | Whenever the check for a bound succeeds, the proof cropped to what it used is accepted for that bound, with the same tip and heading states |
| `ChainWorkCreate.FindCovers` | core/chainwork.cpp:206-263 | The state found for a point is the one whose work holds it |
| `ChainWorkCreate.FindBelow` | core/chainwork.cpp:206-263 | The state found is below every state that begins above the point |
| `ChainWorkCreate.HeadingIsChain` | core/chainwork.cpp:151-184 | The heading rebuilt by the verifier is the end of the chain itself |
| `ChainWorkCreate.CollectAccepted` | core/chainwork.cpp:206-263 | From any corresponding states, over a Merkle verifier that takes what its builder adds for positions in descending order below the tip, the verifier follows the prover to the end and uses up the whole proof |
| `ChainWorkCreate.CreateIsValid` | core/chainwork.cpp:206-263 | Over such a verifier, a proof created from any consistent chain is accepted for any bound and oracle, and its tip is that of the chain |
| `MultiProof.PathFollows` | core/merkle.cpp:140-165 | Along one path the verifier takes exactly the hashes that the builder left, stops where the builder stopped, and ends with the root or with a node it knows |
| `MultiProof.ProcessFollows` | core/merkle.cpp:559-567 | One leaf: the verifier takes what the builder added and keeps the same nodes, each with its true hash |
| `MultiProof.ReplayFollows` | core/merkle.cpp:559-635 | Any number of leaves in any order: the same over the whole proof, and what follows it is left untouched |
| `MultiProof.MultiProofIsHonest` | core/merkle.cpp:530-635 | For the states of any chain whose tip commits to them, the multi-proof verifier takes what the multi-proof builder adds |
| `MultiProof.MultiProofIsLocal` | core/merkle.cpp:580-617 | The verifier reads no hash that it does not take, so proofs over it can be cropped |
| `MultiProof.CreatedIsAccepted` | core/chainwork.cpp:206-263 | With the multi-proof in place of an arbitrary verifier: a proof created from any consistent chain whose tip commits to the states before it is accepted, for any bound and oracle |
| `ChainWorkRun.SamplerObject.SamplePoint` | core/chainwork.cpp:107-137 | The sampler in place is the model, failure included |
| `ChainWorkRun.EnumStates` | core/chainwork.cpp:151-184 | Succeeds exactly on non-empty proofs all of whose states are sane, and finds the tip |
| `ChainWorkRun.IsValidInternal` | core/chainwork.cpp:336-479 | The verifier loop is the model check; it terminates because begin drops with every draw |
| `ChainWorkRun.Validate` | core/chainwork.cpp:331-334 | Acceptance is that the check succeeds and uses the whole proof |
| `ChainWorkRun.Crop` | core/chainwork.cpp:271-329 | Fails exactly when the check for the bound fails, and otherwise returns a proof that is accepted for it, with the same heading states |
| `ChainWorkRun.CreateProof` | core/chainwork.cpp:206-263 | The collecting loop builds the model proof |
| `TxValidation.SameFork` | core/block_crypt.cpp:2095-2117 | Heights from one in a fork up to the end of that fork are in it |
| `TxValidation.SharesMakeWhole` | core/block_validation.cpp:35-45 | The shares of n round-robin verifiers, for every n, add up to the whole |
| `TxParallel.CounterStep` | core/block_validation.cpp:35-45 | The countdown takes element t exactly when t is congruent to the number of the verifier |
| `TxParallel.SkipFinds` | core/block_validation.cpp:91-112 | On sorted outputs, skipping below an input finds an equal output exactly when there is one |
| `TxParallel.SameValidity` | core/block_validation.cpp:68-90 | Validity, which depends on height through the fork only, is the same at every height a context narrows to short of the largest |
| `TxParallel.SeenRight` | core/block_validation.cpp:161-186 | Each kernel is judged as at the first height of the range, or as at the largest height if its verifier has taken a kernel that starts there |
| `TxParallel.RunIsShare` | core/block_validation.cpp:91-193 | From any point of the pass over a sorted transaction, a verifier accepts exactly when its remaining elements are good at the heights it sees them at and heights are left, and then has the sums of its share |
| `TxParallel.RunChecksOrder` | core/block_validation.cpp:91-193 | A verifier that accepts has checked the order before each of its elements |
| `TxParallel.ValidateIsShare` | core/block_validation.cpp:68-193 | The whole pass over a sorted transaction, in terms of shares |
| `TxParallel.MergeIsMerged` | core/block_validation.cpp:58-66 | What k merged verifiers of a sorted transaction have |
| `TxParallel.MergedOutcome` | core/block_validation.cpp:35-193 | For every transaction and every n ≥ 1: n verifiers, merged, accept exactly when the transaction is sorted, every element is good at the height it is seen at among n, and heights are left; and then hold the sum of all elements |
| `TxParallel.SingleOutcome` | core/block_validation.cpp:35-193 | The same for a single verifier |
| `TxParallel.ParallelIsSequential` | core/block_validation.cpp:35-193 | For every n ≥ 1 the n verifiers of a steady transaction, sorted or not, all accept and merge exactly when a single one accepts, with the same sigma, statistics and height range |
| `TxForks.ValidateNarrows` | core/block_validation.cpp:68-193 | The heights left by an accepting verifier are not empty and lie within those of each kernel it took |
| `TxForks.ParallelUnlessBroken` | core/block_validation.cpp:35-193 | The same for every transaction that is not broken; an unsteady one that is not broken is refused by any number of verifiers |
| `TxForks.BrokenDiffers` | core/block_crypt.cpp:1884-1894 | For every broken transaction there are rules under which as many verifiers as elements all accept and merge while a single one refuses |
| `TxForks.ParallelIff` | core/block_validation.cpp:35-193 | For all forks, heights and transactions: any number of verifiers gives the result of one under all rules if and only if the transaction is not broken, which can be read off the kernels and forks |
| `TxRules.ParallelIffGiven` | core/block_validation.cpp:35-193 | For given rules, kernel lifetime included: if all elements pass one by one, every number of verifiers gives the result of one if and only if each kernel after one that starts at the largest height is valid there with the same point; if they do not, if and only if no number of verifiers lets the transaction pass |
| `TxRules.DiffersAt` | core/block_validation.cpp:35-193 | Otherwise a number of verifiers that gives another result: the distance from the first kernel at the largest height to the last one that differs there |
| `TxForks.BrokenExample` | core/block_crypt.cpp:1884-1894 | Two kernels, the first of them from the largest height on, with a fork not in use: a broken transaction |
| `TxContext.Context.HandleElementHeight` | core/block_validation.cpp:52-56 | The range becomes the intersection, and the result says whether it is empty |
| `TxContext.Context.Merge` | core/block_validation.cpp:58-66 | Sums add and ranges intersect, or the merge is refused exactly when nothing is left |
| `TxContext.Context.Inputs` | core/block_validation.cpp:91-123 | The loop over inputs, with the inner scan over outputs, is the model |
| `TxContext.Context.Outputs` | core/block_validation.cpp:125-159 | The loop over outputs is the model |
| `TxContext.Context.Kernels` | core/block_validation.cpp:161-186 | The loop over kernels is the model |
| `TxContext.RunOnto` | core/block_validation.cpp:68-193 | A pass adds to the sigma and statistics it starts with and does not depend on them |
| `TxContext.Context.ValidateAndSummarize` | core/block_validation.cpp:68-193 | The pass in place, with sigma negated between the loops: it succeeds exactly when the model pass does, and adds its sums to what the context held before |
| `CutThrough.CutCounts` | core/block_crypt.cpp:1582-1620 | Each commitment is left as often as it was, less the smaller of its two counts |
| `CutThrough.CutOrdered` | core/block_crypt.cpp:1582-1620 | What is left is sorted and comes from what was there |
| `CutThrough.CutDisjoint` | core/block_crypt.cpp:1582-1620 | No commitment is left on both sides |
| `CutThrough.CutKeepsBalance` | core/block_crypt.cpp:1582-1620 | Over sorted sides, Σ outputs − Σ inputs is unchanged, whatever point each commitment stands for |
| `CutThrough.PointsOfElements` | core/block_crypt.cpp:1582-1620 | The sum of points depends only on which commitments there are and how often, not on their order |
| `CutThrough.CutOfUnique` | core/block_crypt.cpp:1582-1620 | Sorted sides without a common commitment, each commitment as often as before less the smaller of its two counts: there is exactly one such result |
| `CutThrough.CutOfKeepsBalance` | core/block_crypt.cpp:1582-1620 | It has the balance Σ outputs − Σ inputs of the sides as they were before sorting |
| `CutThrough.Rebuild` | core/block_crypt.cpp:1565-1575 | Keeps exactly what is not null, in order |
| `CutThrough.NormalizeP` | core/block_crypt.cpp:1582-1620 | For sides in any order: what is left is sorted and without a common commitment, each commitment is left as often as it was less the smaller of its two counts, and Σ outputs − Σ inputs is that of the sides given |
| `CutThrough.FindLeast` | core/block_rw.cpp:61-95 | The scan finds the least head of all readers, or that all are at their end |
| `CutThrough.LeastIsFirst` | core/block_rw.cpp:61-95 | The least head is the first of all elements in order |
| `CutThrough.Combine` | core/block_rw.cpp:61-125 | For any number of sorted readers: the same of what is written against all their elements together, counts, disjointness and balance |
| `CutThrough.CombineIsNormalize` | core/block_rw.cpp:61-125 | Merging sorted transactions and normalizing all their elements in any order leave the same sequences |
| `FundsLedger.ApplyConserves` | bvm/bvm2.cpp:3243-3297 | One operation changes locked + flow (+ deposits) of an asset by what it emits, modulo 2^128 |
| `FundsLedger.RunConserves` | bvm/bvm2.cpp:3243-3297 | The same over every run |
| `FundsLedger.UntrackedApply` | bvm/bvm2.cpp:3243-3297 | Where flows are not counted, every operation changes the holdings by what it emits and what it leaves unbooked; so it keeps them, even modulo 2^128, if and only if it has no flow of the asset: no amount of it, no deposit |
| `FundsLedger.UntrackedRun` | bvm/bvm2.cpp:3243-3297 | Over every run without a record of flows: the holdings are kept if and only if what was left unbooked comes to nothing modulo 2^128 |
| `FundsLedger.Processor.HandleAmountInner` | bvm/bvm2.cpp:3254-3291 | Locks or releases with the overflow and shortage tests, storing nothing for zero |
| `FundsLedger.Processor.FundsAdd` | core/block_crypt.cpp:3180-3190 | Nothing for zero; otherwise the flow map changes by the amount, negated when spent, modulo 2^128 |
| `FundsLedger.Processor.FundsAddBig` | core/block_crypt.cpp:3192-3207 | A new entry, or the sum in the old one, which is removed at zero: every load is as before but that of the asset, which grows modulo 2^128 |
| `FundsLedger.Processor.HandleAmount` | bvm/bvm2.cpp:3246-3252 | Both ledgers change together as in the model, or nothing changes at all |
| `FundsLedger.Processor.OnAssetCreate` | bvm/bvm2.cpp:1481-1503 | Creating an asset takes the deposit and records the owner |
| `FundsLedger.Processor.OnAssetEmit` | bvm/bvm2.cpp:1522-1544 | Only the owner emits or burns, and the locked amount moves by it |
| `FundsLedger.Processor.OnAssetDestroy` | bvm/bvm2.cpp:1546-1561 | Destroying an asset returns the deposit and removes the owner |
| `RefsLedger.HandleKeepsExact` | bvm/bvm2.cpp:3299-3353 | Every operation that does not stop keeps the total of each target equal to the number of contracts that hold a reference |
| `RefsLedger.FailedAddLeavesNoTrace` | bvm/bvm2.cpp:3324-3353 | A first reference to a contract that does not exist is refused with the ledger exactly as before |
| `RefsLedger.ReleaseStopsIff` | bvm/bvm2.cpp:3324-3353 | A release stops if and only if the contract holds no reference: the total is never short |
| `RefsLedger.RunKeepsExact` | bvm/bvm2.cpp:3299-3353 | Over every run each total is the number of holders |
| `RefsLedger.Processor.HandleRefRaw` | bvm/bvm2.cpp:3299-3322 | The stored counter moves by one and reports whether it came from, or went to, zero |
| `RefsLedger.Processor.HandleRef` | bvm/bvm2.cpp:3324-3353 | Both counters in place, the first one undone on failure, as in the model |
| `Difficulty.PackThenUnpack` | core/difficulty.cpp:20-39 | A packed order and mantissa unpack to mantissa·2^order |
| `Difficulty.UnpackThenPack` | core/difficulty.cpp:20-39 | Every packed value below infinity is the packing of its parts |
| `Difficulty.ReachedIffAtMostTarget` | core/difficulty.cpp:41-73 | A hash reaches the target if and only if it is at most the target value, and that value is a 256-bit hash |
| `Difficulty.NormalizeIs` | core/difficulty.cpp:123-151 | The float keeps a number from below within one part in 2^31 |
| `Difficulty.TimesIs` | core/difficulty.cpp:158-167 | The product of floats is within one part in 2^31 from below |
| `Difficulty.OverIs` | core/difficulty.cpp:169-184 | The quotient of floats is within two such steps |
| `Difficulty.ScaledBounds` | core/difficulty.cpp:186-206 | The whole chain of float operations, before packing |
| `Difficulty.CalculateAccuracy` | core/difficulty.cpp:186-206 | When neither clamp applies, the new difficulty is strictly between 1 − 2⁻²³ and 1 + 2⁻³⁰ times ref·dtTrg/(dtSrc·dh) |
| `Difficulty.RepresentableQuotients` | core/difficulty.cpp:186-206 | In terms of the inputs: neither clamp applies when ref·dtTrg/(dtSrc·dh) is at least 2²⁴ + 1 and at most 2²⁵⁶ − 2²²⁵, and one does when it is at most 2²⁴ − 1 or at least 2²⁵⁶ + 6·2²²⁵ |
| `Difficulty.OrderKept` | core/difficulty.cpp:20-88 | Packed values up to infinity are ordered as the raw difficulties they unpack to |
| `Difficulty.TargetFalls` | core/difficulty.cpp:41-73 | The larger of two difficulties has a target that is not larger, and strictly smaller unless the larger one is of the largest order |
| `Difficulty.LastTargets` | core/difficulty.cpp:41-73 | The largest finite difficulty and infinity have the same target |
| `Difficulty.Difficulty.SetPacked` | core/difficulty.cpp:20-31 | Packing in place; orders beyond the largest become infinity |
| `Difficulty.Difficulty.Adjust` | core/difficulty.cpp:186-206 | `Calculate` in place, clamps and the zero case included |
| `Emission.SameSegment` | core/block_crypt.cpp:1896-1927 | All heights from one in a segment up to the reported end are in it |
| `Emission.ZeroStays` | core/block_crypt.cpp:1896-1927 | Once the subsidy is zero it stays zero, so stopping there is right |
| `Emission.SumInSegment` | core/block_crypt.cpp:1939-1964 | Within a segment the per-height sum is a product |
| `Emission.OfRange` | core/block_crypt.cpp:1939-1964 | For every range from genesis on, the segment-wise loop returns the sum of the per-height emissions |
| `Emission.SupplyBound` | core/block_crypt.cpp:1896-1964 | Up to any height the supply is at most base·Drop0 + (9/8)·base·Drop1 |
| `Limbs.HighestDecides` | 3rdparty/arith_uint256.cpp:110-119 | The highest differing limb decides the order of two numbers |
| `WideInt.Uint.constructor` | 3rdparty/arith_uint256.h:32-36 | Zero |
| `WideInt.Uint.Copy` | 3rdparty/arith_uint256.h:38-42 | The same number in limbs of its own |
| `WideInt.Uint.AddAssign` | 3rdparty/arith_uint256.h:135-145 | The sum modulo 2^BITS for any limb count, also of a number with itself |
| `WideInt.Uint.Increment` | 3rdparty/arith_uint256.h:173-180 | One more modulo 2^BITS: the carry stops where it is absorbed or wraps at the top |
| `WideInt.Uint.Negated` | 3rdparty/arith_uint256.h:77-84 | The complement plus one is the number subtracted from 2^BITS |
| `WideInt.Uint.SubAssign` | 3rdparty/arith_uint256.h:147-151 | The difference modulo 2^BITS, exact when it is not negative |
| `WideInt.Uint.MulAssignLimb` | 3rdparty/arith_uint256.cpp:56-65 | The product with one limb modulo 2^BITS, no intermediate beyond 64 bits |
| `WideInt.Uint.AddRow` | 3rdparty/arith_uint256.cpp:73-79 | One row of the product, truncated at the top limb, no intermediate beyond 64 bits |
| `WideInt.Uint.MulAssign` | 3rdparty/arith_uint256.cpp:68-81 | The product modulo 2^BITS for any limb count when the operand is another number; zero when a number is multiplied in place by itself, since it is cleared before it is read |
| `WideInt.Uint.CompareTo` | 3rdparty/arith_uint256.cpp:110-119 | The sign of the difference |
| `WideInt.Uint.Bits` | 3rdparty/arith_uint256.cpp:172-184 | Zero exactly for zero, and otherwise the r with 2^(r−1) ≤ n < 2^r |
| `WideInt.Uint.ShiftLeft` | 3rdparty/arith_uint256.cpp:22-36 | The product with 2^shift modulo 2^BITS, for any shift |
| `WideInt.Uint.ShiftRight` | 3rdparty/arith_uint256.cpp:39-53 | The quotient by 2^shift, for any shift |
| `WideInt.Uint.DivAssign` | 3rdparty/arith_uint256.cpp:84-107 | Fails exactly on a zero divisor; otherwise the shift-and-subtract loop returns the floor of the quotient, for any limb count, also of a number by itself |
| `LimbShifts.LeftStep` | 3rdparty/arith_uint256.cpp:29-34 | One turn of the left shift adds the limb at its new place, up to multiples of 2^BITS, and never sets a bit twice |
| `LimbShifts.RightStep` | 3rdparty/arith_uint256.cpp:46-51 | One turn of the right shift adds the limb at its new place, what falls off below being the floor, and never sets a bit twice |
| `LimbShifts.BitSet` | 3rdparty/arith_uint256.cpp:97-101 | Setting a quotient bit adds its weight and leaves the bits below it clear |
| `Compact.Truncates` | 3rdparty/arith_uint256.cpp:204-245 | For every number, encoding and decoding cuts off less than one part in 2^15 and never adds; the result is positive if the number was, and is encoded to the same bits |
| `Compact.OverflowIff` | 3rdparty/arith_uint256.cpp:217-220 | The overflow flag is set if and only if the number does not fit 256 bits |
| `Compact.PartsFit` | 3rdparty/arith_uint256.cpp:224-245 | An encoded 256-bit number takes at most 33 as its size and never reads as overflowing |
| `Compact.Assign` | 3rdparty/arith_uint256.h:88-95 | The number is the 64-bit value, whatever was there |
| `Compact.GetLow64` | 3rdparty/arith_uint256.h:245-249 | The number itself when it is below 2^64 |
| `Compact.GetCompact` | 3rdparty/arith_uint256.cpp:224-245 | The bits of size, sign and mantissa, within 32 bits, through `bits`, the right shift and the low word |
| `Compact.SetCompact` | 3rdparty/arith_uint256.cpp:204-222 | The number modulo 2^256; the sign flag; and the overflow flag exactly when something was lost |
| `Compact.CompactRoundTrip` | 3rdparty/arith_uint256.cpp:204-245 | On the limbs themselves: no overflow, the sign kept for numbers other than zero, the relative error below 2⁻¹⁵, and re-encoding a fixed point |
| `FixedPoint.ScanRender` | 3rdparty/utilstrencodings.cpp:622-671 | Every number of the grammar of section 6 of RFC 8259 is scanned as itself |
| `FixedPoint.RenderScan` | 3rdparty/utilstrencodings.cpp:622-671 | Whatever is scanned is a number of the grammar and the whole text |
| `FixedPoint.MantissaTimes` | 3rdparty/utilstrencodings.cpp:595-609 | The mantissa without trailing zeros, times their power of ten, is the number the digits spell |
| `FixedPointParse.AcceptsIff` | 3rdparty/utilstrencodings.cpp:673-700 | A number other than zero is taken if and only if, times 10^decimals, it is an integer of magnitude below 10^18; and that integer is the amount |
| `FixedPointParse.ZeroAcceptsIff` | 3rdparty/utilstrencodings.cpp:673-700 | Zero is taken if and only if its exponent and the decimals add to at least 0 and less than 18 |
| `FixedPointParse.ZeroRefused` | 3rdparty/utilstrencodings.cpp:673-700 | "0e-9" at 8 decimals is refused although it is an integer at any scale |
| `FixedPointParse.ProcessMantissaDigit` | 3rdparty/utilstrencodings.cpp:595-609 | Refuses exactly when the mantissa would reach 10^18, and never computes beyond 64 bits |
| `FixedPointParse.TakeDigits` | 3rdparty/utilstrencodings.cpp:632-636 | A run of digits joins the mantissa, refused exactly when the whole run reaches 10^18 |
| `FixedPointParse.ParseWhole` | 3rdparty/utilstrencodings.cpp:626-638 | The integer part: a single zero or a run that does not start with one |
| `FixedPointParse.ParseFraction` | 3rdparty/utilstrencodings.cpp:639-651 | The fraction: at least one digit after a point |
| `FixedPointParse.ParseExponent` | 3rdparty/utilstrencodings.cpp:652-671 | The exponent and the end of the text; refused exactly when malformed or at least 10^18 in magnitude |
| `FixedPointParse.TakeExponent` | 3rdparty/utilstrencodings.cpp:661-668 | The digits of the exponent, refused exactly from 10^18 on |
| `FixedPointParse.Scale` | 3rdparty/utilstrencodings.cpp:689-695 | The product with a power of ten, refused exactly when it reaches 10^18 |
| `FixedPointParse.ParseFixedPoint` | 3rdparty/utilstrencodings.cpp:611-701 | Takes exactly the numbers of the grammar that `AcceptsIff` and `ZeroAcceptsIff` describe, returns their signed amount, and stays within 64 bits throughout, for every text and decimals |
| `Base64.RoundTripFrom` | 3rdparty/utilstrencodings.cpp:129-173 | From every partial-group state the decoder, one character behind, completes the pending byte and then yields exactly the remaining bytes, valid |
| `Base64.RoundTrip` | 3rdparty/utilstrencodings.cpp:129-173 | For every byte string, decoding the encoded text returns the bytes with the invalid flag clear |
| `Base64.EncodeBytes` | 3rdparty/utilstrencodings.cpp:129-173 | The encoding loop with its padding is the model |
| `Base64.DecodeText` | 3rdparty/utilstrencodings.cpp:180-261 | The decoding loop and its tests at the end are the model, on every text |
| `Base64.DecodesIff` | 3rdparty/utilstrencodings.cpp:180-261 | From every state of the decoder and for every text and bytes: the rest of the text is valid and yields these bytes if and only if it begins with what the encoder still owes for them, and no character of the alphabet follows |
| `Base64.ValidTexts` | 3rdparty/utilstrencodings.cpp:180-261 | A text is valid with certain bytes if and only if it begins with their encoding and no character of the alphabet follows |
| `Base64.EncodeThenDecode` | 3rdparty/utilstrencodings.cpp:180-261 | The two methods in sequence give the bytes back |
| `Base32.RoundTripFrom` | 3rdparty/utilstrencodings.cpp:269-326 | From every partial-group state the decoder, one character behind, completes the pending byte and then yields exactly the remaining bytes, valid |
| `Base32.RoundTrip` | 3rdparty/utilstrencodings.cpp:269-326 | For every byte string, decoding the encoded text returns the bytes with the invalid flag clear |
| `Base32.EncodeBytes` | 3rdparty/utilstrencodings.cpp:269-326 | The encoding loop with its padding is the model |
| `Base32.DecodeText` | 3rdparty/utilstrencodings.cpp:333-448 | The decoding loop and its tests at the end are the model, on every text |
| `Base32.DecodesIff` | 3rdparty/utilstrencodings.cpp:333-448 | From every state of the decoder and for every text and bytes: the rest of the text is valid and yields these bytes if and only if it begins with what the encoder still owes for them, and no character of the alphabet follows |
| `Base32.ValidTexts` | 3rdparty/utilstrencodings.cpp:333-448 | A text is valid with certain bytes if and only if it begins with their encoding, up to letter case, and no character of the alphabet follows |
| `Base32.EncodeThenDecode` | 3rdparty/utilstrencodings.cpp:333-448 | The two methods in sequence give the bytes back |
| `Base64.RestIgnored` | 3rdparty/utilstrencodings.cpp:180-261 | "AAAA!x" is valid and stands for three zero bytes |

## Left out

- Section parsing, indirect calls and the data segment: no part of the simulation theorem.
- Meaning of the numeric operators, memory accesses and host functions in the simulation: one parameter shared by both machines.
- Floating-point types: their type codes are carried, no operation uses them.
- 32-bit wrap of branch depths and code sizes: `WasmLink.Fits` asks that addresses and operands fit their fields.
- Unit charging and the heap limits of particular contract versions: parameters.
- Concurrent use of the verifiers: they share nothing but the element stream, so each is a pass of its own; the abort and stop flags are not modelled.
- Field and curve arithmetic, common-denominator normalisation and the reuse flags of `MultiMac`: points are elements of an abstract group.
- Hash functions and oracles: parameters; an oracle is a function of the transcript. Rejection sampling of a uniform number is one draw below its threshold, which leaves the oracle in some new state.
- Import of points: validity of an encoded point is a parameter of the transaction model.
- Kernels and other eternal elements in `Combine` and `NormalizeE`: their order is not total; inputs and outputs are commitments.
- 64-bit wrap of heights and of amounts in the emission sum: numbers are unbounded there.
- `uintBig` and the storage behind contract variables: numbers and maps.
- Bitwise `|` of limbs: modelled as a sum whose precondition is that the two words share no bit.
- Texts of 2^31 characters and more in the decimal parser: its positions are 32-bit integers.
- Hexadecimal text, `getdouble`, the bitwise operators and the decrement of the wide integer: limb-by-limb or digit-by-digit loops that none of the modelled operations calls.
- The storage of the Merkle range: its nodes are rows of hashes, each made from the row below; how the tip commits to the root is a parameter.
- Total work beyond 2^256 in a proof: `ChainWork.AcceptedIntervals` asks that the claimed work fits.
- Networking, wallet, user interface, serialization, logging and checkpoints.
- InnerProductRun.Calculate: states the sum only; that the fast computation yields it is `MultiMacSecure.Calculate`.
- ChainWorkRun.CreateProof: asks for a consistent chain, as the source does of its caller.
- TxParallel.ParallelIsSequential: asks that validity depends on height through the fork only, that forks ascend and that the transaction is steady; `TxForks.ParallelIff` covers the others. No verifier is aborted.
- TxForks.ParallelIff: heights are 64-bit numbers.
- WasmCalls.SimStep: claims nothing of a step that leaves a block with the wrong operands or meets `unreachable`; `WasmValid.Soundness` rules both out for valid modules without live `unreachable`.
- Difficulty.RepresentableQuotients: within one part in 2^24 of the lower bound and six in 2^31 of the upper one it leaves open which side the rounding of the operands falls on.
- Heap.Allocator.Release: after a request of zero bytes, which breaks the tiling, only success or failure is that of the model, since the source then changes keys in place where the order may not allow it; the same holds of `Heap.Allocator.Merge` and `Heap.Allocator.Grow`.
- MultiMacInit.FromPoints: draws of the oracle are given as finite sequences, so it can run out of them.
- Heap.AllocExCorrect: positive sizes whose sum with the memory stays below 2^32, as the source presumes.
- Difficulty.CalculateAccuracy: when neither clamp applies; the clamped results are in `Difficulty.Difficulty.Adjust`.
