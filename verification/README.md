# yacl: a Dafny model of its protocols

This project models the two-party protocols and algebraic pipelines of yacl and
proves that they compute what they are for. Each module follows one component:

- **SNARK pipeline**: `Polynomial`, `Roots`, `R1cs`, `Qap`, `QapWitness`,
  `Groth16`, `Groth16Completeness`, and the circuit compiler `CircuitBuilder`,
  `CircuitBuild`, `CircuitWitness`, `Gadgets`.
- **OT extension**: `OtStore`, the half tree (`HalfTree`, `SinglePointCot`),
  `Ferret`, the punctured tree `Sgrr`, SoftSpoken (`Reduction`, `SfVole`,
  `SoftSpoken`), the transposes `BitMatrix`, `AvxTranspose` and `Transposes`, and
  `Iknp`.
- **Function secret sharing**: `Ge2n`, `Dpf`, `Dcf`, `Pprf`.
- **Secret-sharing executor**: `Words`, `ChosenOt`, `Triples`, `Adder`,
  `SsExecutor`, `SsSession`.
- **Threshold re-encryption**: `LagrangeZero`, `Tpre`.
- **Shared**: `ModArith` (integers modulo m), `Bits`, `Blocks` (128-bit blocks),
  `OrderedMap` (iteration of ordered maps), `Outcome` (results of guarded calls).

Loops and in-place updates of the source are Dafny methods over arrays or class
fields, each tied to a specification function or to the property itself; what a
guard of the source throws on is an `Err` or a false result. A protocol is one
method that runs both parties in lockstep, a message being a value handed over.
Hashes, generators and permutations are arbitrary functions, random draws are
arbitrary arguments, and elements of elliptic-curve groups are their exponents
modulo the prime order, a pairing being the product of exponents. Blocks and
words are natural numbers below 2^128 and 2^64, and wrap-around is written out.

Two promises hold only on a condition, and the condition is exact. That stored
linear combinations mention only the one wire and allocated variables survives an
operation exactly when the builder knows its operands, because an unknown operand
enters as itself: `Add`, `Mul`, `AddConst`, `AssertBoolean` and `AssertMulEquals`
need every operand known, `Sub` and `AssertEqual` also pass when both operands are
the same variable, and `MulConst` when the constant is 0 (the contracts of
`CircuitBuilder.Builder`; the failure is `CircuitBuilder.UnknownOperand`).
Puncturing preserves the PRF at a point, for every generator, exactly when the key
object held no seed for the level at which the point leaves the punctured path,
because inserting does not overwrite (`Pprf.PunctureExactly`, `Pprf.ReusedKey`).

`dafny verify dfyconfig.toml` checks the whole project.

## Model

| member | source | states |
|---|---|---|
| Groth16Completeness.HonestProofAccepted | yacl/snark/groth16.cc:22-309 | Completeness: under Setup's keys, for every trapdoor with invertible gamma and delta and all blinding, the proof that Prove builds from a satisfying witness makes the pairing equation true for public inputs x exactly when x with the constant 1 commits to the same value as the witness's constant wire and public part |
| Groth16Completeness.SetupProveVerify | yacl/snark/groth16.cc:22-309 | End to end, with gamma and delta nonzero as the source redraws them: Setup fails exactly without constraints or variables or with an invalid public count, Prove succeeds exactly on satisfying witnesses of the right length, and Verify accepts the public part of the witness when its constant wire is 1 |
| Groth16.Setup | yacl/snark/groth16.cc:22-148 | Every key element is the stated expression in the trapdoor, up to congruence; the h query has as many powers as constraints |
| Groth16.Prove | yacl/snark/groth16.cc:150-274 | Fails exactly when the witness has the wrong length or does not satisfy the system; the quotient is never longer than the h query, so no term of it is dropped |
| Groth16.Verify | yacl/snark/groth16.cc:276-309 | Rejects a wrong number of inputs; else answers the pairing equation |
| QapWitness.QapMeaning | yacl/snark/qap.cc:161-269 | Meaning is preserved: the remainder by the target polynomial is all zero if and only if the witness satisfies the constraint system, for every system with at most p constraints |
| QapWitness.QapUnique | yacl/snark/qap.cc:161-269 | Any two QAPs of a system have columns that agree at every point |
| QapWitness.RemainderAtNode | yacl/snark/groth16.cc:184-196 | The remainder takes at node j+1 the error of constraint j |
| QapWitness.WitnessPolys | yacl/snark/groth16.cc:168-182 | The three accumulated polynomials are the witness-weighted sums of the columns, at every point |
| QapWitness.Quotient | yacl/snark/groth16.cc:184-190 | The combined polynomial is quotient times target plus a remainder shorter than the target, and the quotient is short |
| Qap.LagrangeInterpolate | yacl/snark/qap.cc:161-197 | For distinct nodes the result is no longer than the node count and takes every prescribed value; unequal lengths are refused |
| Qap.R1csToQap | yacl/snark/qap.cc:201-269 | Every column polynomial takes the coefficients of its variable at the nodes, and the target vanishes exactly there |
| Polynomial.DivMod | yacl/snark/qap.cc:122-153 | Every coefficient of the dividend is that of quotient times divisor plus remainder, and the remainder is shorter than the divisor; a zero divisor is refused |
| Polynomial.DivisionEval | yacl/snark/qap.cc:122-153 | The division identity at every point |
| Polynomial.Mul | yacl/snark/qap.cc:70-87 | Coefficients are the convolution, reduced, with no trailing zeros |
| Polynomial.Add | yacl/snark/qap.cc:44-55 | Coefficients are the sums, with no trailing zeros |
| Polynomial.Sub | yacl/snark/qap.cc:57-68 | Coefficients are the differences, with no trailing zeros |
| Polynomial.ScalarMul | yacl/snark/qap.cc:89-96 | Coefficients are the multiples, with no trailing zeros |
| Polynomial.Evaluate | yacl/snark/qap.cc:98-109 | Horner evaluation gives the value of the polynomial |
| Polynomial.FromRoots | yacl/snark/qap.cc:111-120 | The polynomial has the value of the product of linear factors at every point and is one longer than the list of roots |
| Roots.ManyRoots | yacl/snark/qap.cc:161-269 | A polynomial over a prime field with at least as many distinct roots as coefficients is zero |
| Roots.Agreement | yacl/snark/qap.cc:161-269 | Two short polynomials that agree at enough distinct points have the same coefficients |
| R1cs.LinearCombination.AddTerm | yacl/snark/r1cs.cc:21-33 | The coefficient of one variable grows and a coefficient that becomes zero leaves the map |
| R1cs.LinearCombination.Evaluate | yacl/snark/r1cs.cc:35-45 | The value modulo the prime, or a failure exactly when a variable is out of range |
| R1cs.IsSatisfied | yacl/snark/r1cs.cc:51-70 | Fails exactly on a witness of the wrong length or without a leading 1, or when a constraint before which none is violated mentions a variable out of range; else answers whether every constraint holds |
| CircuitBuilder.Builder.Add | yacl/snark/circuit_builder.cc:65-83 | The new variable is worth the sum under every valuation and nothing else changes; a grounded circuit stays grounded exactly when both operands are known |
| CircuitBuilder.Builder.Sub | yacl/snark/circuit_builder.cc:85-103 | The same for the difference; grounded exactly when both operands are known or they are the same variable |
| CircuitBuilder.Builder.MulConst | yacl/snark/circuit_builder.cc:105-119 | The same for the multiple by a constant; grounded exactly when the operand is known or the constant is 0 |
| CircuitBuilder.Builder.AddConst | yacl/snark/circuit_builder.cc:121-137 | The same for the sum with a constant on the one wire; grounded exactly when the operand is known |
| CircuitBuilder.Builder.Mul | yacl/snark/circuit_builder.cc:139-151 | A new private variable and the one constraint that makes it the product; grounded exactly when both operands are known |
| CircuitBuilder.Builder.AssertEqual | yacl/snark/circuit_builder.cc:153-171 | The added constraint holds exactly when the two combinations are equal modulo the prime; grounded exactly when both operands are known or they are the same variable |
| CircuitBuilder.Builder.AssertBoolean | yacl/snark/circuit_builder.cc:173-188 | The added constraint holds exactly when the combination times its complement is 0; grounded exactly when the operand is known |
| CircuitBuilder.Builder.AssertMulEquals | yacl/snark/circuit_builder.cc:190-196 | The added constraint is the product of the three combinations; grounded exactly when all three operands are known |
| CircuitBuilder.WireValue | yacl/snark/circuit_builder.cc:54-63 | The combination of a wire, or of a variable the builder does not know, is worth that variable under every valuation |
| CircuitBuilder.Builder.AllocPublic | yacl/snark/circuit_builder.cc:34-42 | A fresh wire at the end of the public ones; the invariant holds |
| CircuitBuilder.Builder.AllocPrivate | yacl/snark/circuit_builder.cc:44-52 | A fresh wire at the end of the private ones; the invariant holds |
| CircuitBuilder.GroundedExactly | yacl/snark/circuit_builder.cc:65-137 | Storing a combination keeps a circuit grounded exactly when it mentions only the one wire and allocated variables |
| CircuitBuilder.OperandsExactly | yacl/snark/circuit_builder.cc:54-103 | A sum or difference of two operands mentions only what exists exactly when both are known, or when a variable is taken from itself |
| CircuitBuilder.OperandExactly | yacl/snark/circuit_builder.cc:54-63 | A multiple of an operand plus a constant does exactly when the operand is known or the factor is 0 |
| CircuitBuilder.ProductExactly | yacl/snark/circuit_builder.cc:139-151 | A multiplication keeps a circuit grounded exactly when both operands are known |
| CircuitBuilder.UnknownOperand | yacl/snark/circuit_builder.cc:24-83 | A counterexample to the unconditional claim: adding variable 5 to itself in a new builder leaves a circuit that is not grounded |
| CircuitBuild.Build | yacl/snark/circuit_builder.cc:211-257 | The built system is the remapped circuit; no variable is ever missing from the map, so it never fails |
| CircuitBuild.RemapLc | yacl/snark/circuit_builder.cc:198-209 | Fails exactly on a variable without a number |
| CircuitBuild.RemapValue | yacl/snark/circuit_builder.cc:198-209 | Remapping keeps the value under every valuation |
| CircuitBuild.LayoutNumbers | yacl/snark/circuit_builder.cc:211-224 | The one wire is 0, public variables follow from 1 and private ones after them; all numbers are distinct and below the variable count |
| CircuitBuild.GroundedNumbers | yacl/snark/circuit_builder.cc:226-246 | A grounded circuit numbers its wires and nothing else |
| CircuitBuild.CompiledFaithful | yacl/snark/circuit_builder.cc:211-257 | The compiled system is well formed and satisfied by a vector exactly when every collected constraint holds of the variables it numbers |
| CircuitWitness.ComputeWitness | yacl/snark/circuit_builder.cc:259-368 | Ends for every circuit and assignment and uses the numbering of Build; when exactly the allocated variables that are not products are assigned, the witness carries the assignments and satisfies every multiplication |
| CircuitWitness.Propagate | yacl/snark/circuit_builder.cc:317-355 | The fixpoint loop terminates, never overwrites a value, and settles every wire of a grounded circuit |
| CircuitWitness.StepSettles | yacl/snark/circuit_builder.cc:335-353 | A propagation step over a multiplication gives its result the product; over an assertion it finds nothing to set |
| CircuitWitness.CompileAndCheck | yacl/snark/circuit_builder.cc:211-368 | Compilation is faithful: checking the built system on the computed witness never fails and answers whether the asserted relations hold |
| Gadgets.FromBits | yacl/snark/gadgets.cc:68-80 | Refuses no bits; the result is worth the weighted sum of the bits and adds no constraint |
| Gadgets.ToBits | yacl/snark/gadgets.cc:52-66 | Refuses a count that is not positive; the bits are new consecutive private wires, and the new constraints hold exactly when they are bits and add up, weighted, to the value |
| Gadgets.UniqueDigits | yacl/snark/gadgets.cc:52-66 | Below the prime the bits of a decomposition are the binary digits of the value |
| Gadgets.LessThan | yacl/snark/gadgets.cc:86-106 | Sound: for every prime above 2^(k+1) and every satisfying valuation with operands below 2^k, the k + 1 private wires the call allocates are the binary digits of 2^k + x - y and the output is 1 exactly when x < y; other bit counts are refused |
| Gadgets.Select | yacl/snark/gadgets.cc:108-113 | Every satisfying valuation selects the first value when the condition is 1 and the second when it is 0 |
| Gadgets.BoolNot | yacl/snark/gadgets.cc:39-42 | The output is one minus the input |
| Dcf.DcfCorrect | yacl/dpf/dcf.cc:64-239 | The two outputs sum modulo 2^N to beta when the input is below alpha and to 0 otherwise, for all seeds, widths and generators |
| Dcf.LevelInvHolds | yacl/dpf/dcf.cc:86-172 | After every level: on the path of alpha the flags differ and the outputs sum to the accumulated value; off the path both states are equal and the outputs sum to beta or 0 |
| Dcf.DcfKeyGen | yacl/dpf/dcf.cc:64-185 | The correction words are those of the two walks along alpha |
| Dcf.DcfEval | yacl/dpf/dcf.cc:187-239 | The evaluation loop computes the output of its key |
| Dcf.DcfRun | yacl/dpf/dcf.cc:64-239 | Both parties end to end |
| Ge2n.Reverse | yacl/dpf/ge2n.h:53-58 | Reversal is negation modulo 2^N in the wider store |
| Ge2n.Add | yacl/dpf/ge2n.h:61-69 | Store addition is addition modulo 2^N |
| Ge2n.Val | yacl/dpf/ge2n.h:36-37 | The truncated value is congruent to the store and below 2^N |
| Ge2n.LoseArith | yacl/dpf/dpf.cc:188-218 | Two shares corrected by a word that hides their difference sum to the target |
| Dpf.DpfCorrect | yacl/dpf/dpf.cc:110-266 | The two evaluations sum modulo 2^N to beta at alpha and to 0 elsewhere |
| Dpf.DpfAllCorrect | yacl/dpf/dpf.cc:62-285 | For every termination level the two full-domain arrays sum to the same point function at every index |
| Dpf.WalkInvHolds | yacl/dpf/dpf.cc:135-172 | On the path of alpha the walks are the generator's with different flags; off it they coincide |
| Dpf.DpfKeyGen | yacl/dpf/dpf.cc:110-224 | The correction words per level and per slot, for single points and for the full domain |
| Dpf.DpfEval | yacl/dpf/dpf.cc:226-266 | Refuses a full-domain key; else the share of slot 0 of the leaf of the input |
| Dpf.Traverse | yacl/dpf/dpf.cc:62-100 | Writes every index of its residue class with that index's share and leaves every other index alone |
| Dpf.DpfEvalAll | yacl/dpf/dpf.cc:269-285 | Refuses a single-point key; else every index holds its share |
| Dpf.DpfRunAll | yacl/dpf/dpf.cc:110-285 | Both parties end to end over the whole domain |
| Dpf.DpfRun | yacl/dpf/dpf.cc:110-266 | Both parties end to end at one point |
| Pprf.PunctureAndEval | yacl/dpf/pprf.cc:52-128 | With a fresh key object the punctured evaluation equals the PRF at every point but the punctured one, which is refused |
| Pprf.GgmExpandAndPunc | yacl/dpf/pprf.cc:52-69 | The in-place recursion stores at every level the sibling of the punctured path, keeps entries that were there, and writes only its part of the vector |
| Pprf.PunctureExactly | yacl/dpf/pprf.cc:73-128 | Puncturing preserves the PRF at a point off the path, for every generator, exactly when the key object held no seed for the first level at which the point differs |
| Pprf.PunctureKeeps | yacl/dpf/pprf.cc:73-128 | With no such seed, the walk from the stored seed ends at the PRF value, whatever the key held for other levels |
| Pprf.ReusedKey | yacl/dpf/pprf.cc:73-128 | A counterexample for a reused key object: the stale seed is returned whatever the key |
| Pprf.PprfPuncEval | yacl/dpf/pprf.cc:85-112 | Refuses the punctured point, fails when the needed seed is missing, else walks from the seed of the first differing level |
| Pprf.PprfPunc | yacl/dpf/pprf.cc:73-83 | The key holds the truncated point and the siblings of all levels |
| Pprf.PprfEval | yacl/dpf/pprf.cc:115-128 | The value at the end of the walk |
| HalfTree.LevelSum | yacl/ot/gywz_ote.cc:28-77 | The nodes of every level XOR to delta |
| HalfTree.PuncTreeCorrect | yacl/ot/gywz_ote.cc:79-133 | From the right sibling sums the receiver's tree is the sender's off by delta at the punctured leaf and nowhere else |
| HalfTree.CggmFullEval | yacl/ot/gywz_ote.cc:28-77 | In-place expansion yields the first n leaves and the left sums, for every n, power of two or not |
| HalfTree.CggmPuncFullEval | yacl/ot/gywz_ote.cc:79-133 | In-place punctured expansion yields the first n leaves of the punctured tree |
| SinglePointCot.GywzOtExt | yacl/ot/gywz_ote.cc:136-196 | For every n >= 2, index < n, nonzero delta and seed the outputs agree everywhere except at the index, where they differ by delta; other arguments are refused |
| SinglePointCot.GywzOtExtFixed | yacl/ot/gywz_ote.cc:253-322 | The same with the index spelled by the receiver's choices |
| SinglePointCot.GywzOtExtFerret | yacl/ot/gywz_ote.cc:198-251 | With the low bit marked, the outputs are compact correlated OTs |
| OtStore.SliceCorrelated | yacl/ot/ot_store.cc:235-254 | A slice with absolute bounds of compact correlated OTs is correlated |
| OtStore.CompactXor | yacl/ot/ot_store_utils.cc:68-84 | XOR keeps the compact relation |
| Ferret.FerretOtExt | yacl/ot/ferret_ote.cc:53-229 | Every one of the requested outputs ends as a compact correlated OT; too few base OTs or outputs and wrong modes or sizes are refused |
| Ferret.Batches | yacl/ot/ferret_ote.cc:71-138 | After every batch all outputs so far are compact correlated OTs, its recycled tail is exactly the seeds and base OTs of the next, and the loop ends by its break |
| Ferret.BatchRemains | yacl/ot/ferret_ote.cc:102-137 | While outputs remain the batch counter has not run out |
| Ferret.MpCot | yacl/ot/ferret_ote_rn.h:43-131 | The bins fill the range with compact correlated OTs, including a last bin of any size |
| Ferret.MpCotNumEven | yacl/ot/ferret_ote_rn.h:34-41 | With evenly split noise the multi-point protocol takes one base OT per bin and level |
| Ferret.EncodeBoth | yacl/ot/ferret_ote.cc:117-119 | Adding the same linear code of related seeds on both sides keeps the compact relation |
| Ferret.NextBatch | yacl/ot/ferret_ote.cc:121-135 | The tail of a batch is the k seeds and then the base OTs of the next batch |
| Sgrr.SgrrOtExt | yacl/ot/sgrr_ote.cc:143-268 | For every n >= 2, power of two or not, the receiver ends with the sender's leaves and 0 at the index; in malicious mode the honest check passes and both vectors are refreshed; bad sizes are refused |
| Sgrr.SgrrOtExtFixed | yacl/ot/sgrr_ote.cc:297-395 | The same with the index given by the choices, refused when it is not below n |
| Sgrr.HonestProofVerifies | yacl/ot/sgrr_ote.cc:107-139 | The proof of the sender verifies against every vector that agrees with its own off the index |
| Sgrr.SendTree | yacl/ot/sgrr_ote.cc:226-242 | The expansion leaves the leaves and the sums of both sides of every level |
| Sgrr.RecvTree | yacl/ot/sgrr_ote.cc:175-202 | From one side sum per level the receiver knows every leaf but one |
| Sgrr.RecvLevel | yacl/ot/sgrr_ote.cc:183-201 | A level known but for one seed gives the next level known but for one |
| Sgrr.SkipSumMeans | yacl/ot/sgrr_ote.cc:187-194 | A sum without one element is the whole sum without it |
| Sgrr.GenCheckMsg | yacl/ot/sgrr_ote.cc:107-119 | The sum and the hash of all leaf digests |
| Sgrr.VerifyCheckMsg | yacl/ot/sgrr_ote.cc:121-139 | Compares the hash with the digest at the index recovered from the sums |
| Reduction.XorReduce | yacl/ot/softspoken_ote.cc:123-136 | Every block ends with its total in slot 0 and in slot 1 + j the subtotal of the positions with bit j; a zero tail stays zero; depths above 64 are refused |
| Reduction.XorReduceImpl | yacl/ot/softspoken_ote.cc:102-159 | The unrolled versions for small depths give the same result as the loop |
| Reduction.ReducedMerge | yacl/ot/softspoken_ote.cc:127-135 | Two reduced halves make a reduced whole |
| Reduction.ClearedSums | yacl/ot/softspoken_ote.cc:537-543 | Clearing a position takes its value out of the total and of the subtotals of its bits |
| SfVole.VoleReceiver.GenSfVole | yacl/ot/softspoken_ote.cc:575-611 | The masked choices and the rows are the totals and subtotals of the refreshed leaves; the counter advances; the buffer keeps its zero tail |
| SfVole.VoleSender.GenSfVole | yacl/ot/softspoken_ote.cc:511-569 | The same from the compressed leaves, unmasked by the receiver's message |
| SfVole.VoleSender.Place | yacl/ot/softspoken_ote.cc:521-544 | The compressed leaves return to their places with a zero at every punctured one |
| SfVole.RowCorrelation | yacl/ot/softspoken_ote.cc:546-565 | Row by row the receiver's value is the sender's plus the choice where delta has a bit |
| SfVole.Geometry | yacl/ot/softspoken_ote.cc:188-200 | The trees cover exactly 128 rows, the last one possibly short |
| SoftSpoken.OneTimeSetup | yacl/ot/softspoken_ote.cc:239-361 | From 128 base OTs the two sides hold matching leaves, indices, masks and delta; compact mode fixes the first bit; another base count is refused; a second setup changes nothing |
| SoftSpoken.SetupTree | yacl/ot/softspoken_ote.cc:276-311 | The compressed leaves are all leaves but the punctured one, leaf 0 in its place |
| SoftSpoken.SendVole | yacl/ot/softspoken_ote.cc:511-569 | From the message of a batch the sender gets rows with W = V xor choice * delta, at the receiver's counter |
| SoftSpoken.SuperBatch | yacl/ot/softspoken_ote.cc:784-928 | A super batch: the receiver makes all its rows and one message, the sender works through the message, every output is correlated and the counters meet again |
| SoftSpoken.Extend | yacl/ot/softspoken_ote.cc:749-960 | For every number of OTs and step each output satisfies recv = send xor choice * delta, in compact mode with the bit in place; the counters stay in step and no slot beyond step + 1 is used; unequal sizes and trees of more than 64 bits are refused |
| SoftSpoken.ExtendPairs | yacl/ot/softspoken_ote.cc:614-747 | The block-wise interface: the receiver holds the message of its choice, hashed in random mode; in correlated mode the two messages differ by delta |
| SoftSpoken.BatchNumbers | yacl/ot/softspoken_ote.cc:757-770 | The batches cover the expanded count exactly and the single ones are at most step + 1 |
| BitMatrix.NaiveTranspose | yacl/utils/matrix_utils.h:34-44 | Row i of the result holds bit i of every row |
| BitMatrix.EklundhTranspose | yacl/utils/matrix_utils.cc:67-93 | Equals the naive transpose on every matrix |
| BitMatrix.StageKeeps | yacl/utils/matrix_utils.cc:73-92 | The stage invariant: row and column numbers have exchanged their high bits so far |
| BitMatrix.MaskBit | yacl/utils/matrix_utils.cc:48-64 | The literal masks keep exactly the columns whose bit of the stage is clear or set |
| BitMatrix.SwapBits | yacl/utils/matrix_utils.cc:84-88 | The masked swap exchanges the off-diagonal parts of two rows |
| BitMatrix.SseTranspose | yacl/utils/matrix_utils.cc:140-162 | Equals the naive transpose on every matrix |
| BitMatrix.TransposeSubSquare | yacl/utils/matrix_utils.cc:123-138 | Places the transposed sub-square and changes nothing else |
| AvxTranspose.AvxTranspose | yacl/utils/matrix_utils.cc:361-520 | Equals the naive transpose on every matrix |
| AvxTranspose.Raised | yacl/utils/matrix_utils.cc:384-421 | The stage invariant: rows and columns have exchanged their bits below 2^b, and one masked exchange raises the boundary by a bit |
| AvxTranspose.LaneMaskBit | yacl/utils/matrix_utils.cc:391-395 | The mask that is halved down from 32 keeps exactly the columns whose bit of the stage is set |
| AvxTranspose.Stages | yacl/utils/matrix_utils.cc:442-483 | The nested traversal raises every vector of its residue class from the first stage to the last and leaves every other vector alone |
| Transposes.MatrixTranspose | yacl/utils/matrix_utils.cc:343-352 | All three choices give the transpose |
| BitMatrix.TransposeTwice | yacl/utils/matrix_utils.h:34-44 | Transposing twice gives the matrix back |
| BitMatrix.TransposeCorrelated | yacl/ot/iknp_ote.cc:76-95 | Matrices whose rows differ by r where s has a bit have transposes whose rows differ by s where r has a bit |
| Iknp.IknpOtExt | yacl/ot/iknp_ote.cc:39-180 | For every number of OTs, including a partial last batch, recv[j] = send[j][choice_j]; in COT mode the two messages differ by the sender's choice vector; wrong sizes are refused |
| Iknp.SendBatch | yacl/ot/iknp_ote.cc:76-88 | The sender's rows are the receiver's plus the choices where its own base choice is set |
| SsSession.Session.Run | yacl/mpc/ss_executor.cc:130-562 | Refinement over whole runs: any program of preprocessing, sharing, arithmetic, boolean, conversion and reveal steps succeeds exactly when it does on plain words with a count of triples left, and then both ranks have learnt the plain results |
| SsSession.Session.Exec | yacl/mpc/ss_executor.cc:130-562 | One step refines the plain step, fails exactly when it fails and then changes nothing |
| SsExecutor.PreprocessArithTriples | yacl/mpc/ss_executor.cc:262-285 | Both queues grow by n matching triples; a count that is not positive is refused |
| SsExecutor.PreprocessBoolTriples | yacl/mpc/ss_executor.cc:333-355 | The same for boolean triples |
| SsExecutor.MulA | yacl/mpc/ss_executor.cc:388-407 | The result shares sum to the product; fails exactly without triples; one triple is used and the queues stay matched |
| SsExecutor.AndB | yacl/mpc/ss_executor.cc:439-458 | The same for bitwise and |
| SsExecutor.BeaverA | yacl/mpc/ss_executor.cc:391-406 | Opening the masked operands turns shares of a triple into shares of the product |
| SsExecutor.BeaverB | yacl/mpc/ss_executor.cc:442-457 | The same for bitwise and |
| SsExecutor.LinearA | yacl/mpc/ss_executor.cc:378-386 | Local addition, subtraction, negation and scaling act on the shared values |
| SsExecutor.LinearB | yacl/mpc/ss_executor.cc:430-437 | Local XOR and one-sided complement act on the shared values |
| SsExecutor.ShareA | yacl/mpc/ss_executor.cc:361-369 | The shares sum to the secret |
| SsExecutor.RevealA | yacl/mpc/ss_executor.cc:371-376 | Both ranks learn the shared value |
| SsExecutor.ShareB | yacl/mpc/ss_executor.cc:413-421 | The shares XOR to the secret |
| SsExecutor.RevealB | yacl/mpc/ss_executor.cc:423-428 | Both ranks learn the shared value |
| SsExecutor.A2B | yacl/mpc/ss_executor.cc:470-508 | The output shares XOR to the sum of the input shares although carry shares hold unmasked high bits; fails below 64 triples, else uses exactly 64 |
| SsExecutor.B2A | yacl/mpc/ss_executor.cc:520-562 | The output shares sum to the XOR of the input shares |
| SsExecutor.RoundTrip | yacl/mpc/ss_executor.cc:470-562 | B2A after A2B shares the original value |
| SsExecutor.B2ASum | yacl/mpc/ss_executor.cc:525-561 | The received minus the random values are the secret minus rank 1's share, bit by bit |
| Adder.CarryMeans | yacl/mpc/ss_executor.cc:486-505 | The low bits of two numbers add up to those of the sum and the ripple carry |
| Adder.WordSumBit | yacl/mpc/ss_executor.cc:486-505 | Bit k of the sum modulo 2^64 is the XOR of the operand bits and the carry |
| ChosenOt.RunChosenOT | yacl/mpc/ss_executor.cc:130-208 | The receiver ends with the message it chose, for any positive count padded to the minimum; no transfers at all are refused |
| ChosenOt.PackFlips | yacl/mpc/ss_executor.cc:177-185 | The packed words hold exactly the flip bits, the padding zero |
| ChosenOt.EvalRot | yacl/mpc/ot_kernel.cc:46-72 | Hashing compact correlated OTs gives random OTs |
| Triples.ArithDirection | yacl/mpc/ss_executor.cc:221-260 | One OT direction gives additive shares of the products |
| Triples.GilboaRow | yacl/mpc/ss_executor.cc:228-258 | The received minus the random values of a row add up to a times the low bits of b |
| Triples.ArithTriples | yacl/mpc/ss_executor.cc:262-285 | The triples satisfy the multiplication invariant |
| Triples.BoolDirection | yacl/mpc/ss_executor.cc:291-331 | One OT direction gives XOR shares of the bitwise products |
| Triples.BoolTriples | yacl/mpc/ss_executor.cc:333-355 | The triples satisfy the AND invariant |
| Tpre.Run | yacl/tpre/capsule.cc:26-166 | Threshold re-encryption: fragments of at least t proxies of one rekey derive the key of EnCapsulate and DeCapsulate; it fails exactly when d has no inverse or two points are equal |
| Tpre.FragmentsKey | yacl/tpre/capsule.cc:100-166 | The point recombined from enough fragments is the point of the capsule's key |
| LagrangeZero.Recombine | yacl/tpre/capsule.cc:120-154 | At least as many shares as coefficients at distinct points, weighted, give the constant term |
| Tpre.Lambda | yacl/tpre/capsule.cc:122-142 | The weight of a fragment; fails exactly when another has the same point |
| Tpre.DeCapsulateFrags | yacl/tpre/capsule.cc:100-166 | Fails exactly on equal points; else the key of the recombined point |
| Tpre.GenerateReKey | yacl/tpre/keys.cc:39-141 | Every fragment is the polynomial with constant term a / d at its own point; fails exactly without an inverse |
| Tpre.EvalShare | yacl/tpre/keys.cc:106-118 | Power by power the fragment is the value of the polynomial |
| Tpre.HonestCapsule | yacl/tpre/capsule.cc:26-47 | Every honest capsule satisfies the check |
| Tpre.CheckCapsule | yacl/tpre/capsule.cc:61-73 | Answers the check equation |
| Tpre.ReEncapsulate | yacl/tpre/capsule.cc:78-98 | Refuses exactly the capsules that fail the check |
| Tpre.DirectKey | yacl/tpre/capsule.cc:26-59 | Both sides of direct decapsulation derive the same point |
| Tpre.SamePoint | yacl/tpre/keys.cc:55-56 | Both sides of the Diffie-Hellman exchange compute the same point |

## Left out

- OtStore: the stores are values, a slice sharing its buffer by copy; setters, slice counters and aliasing between slices are not captured.
- Spans into a larger output (bins of `MpCot`, tree leaves of `SetupTree`) are local arrays copied to their place, so writes through an overlapping span are not captured.
- HalfTree: masking, summing and XOR-ing of a level are separate passes over disjoint parts where the source has one loop.
- Consistency checks of SoftSpoken and Ferret in malicious mode need field multiplication that is not part of this model; the check of the punctured tree is proved.
- Ferret.FerretOtExt: assumes n = t * spcot_size with spcot_size >= 2, a positive batch size and a delta with low bit 1; the local linear code is an arbitrary fixed choice of seeds per output.
- Dpf: the termination level is any value up to M instead of the floating-point formula, and the truncation of the index of the slot of alpha to 32 bits is not modelled.
- Dcf and Dpf: widths up to 128 bits are allowed for inputs, more than the source's static bounds.
- SoftSpoken.ExtendPairs: the hashing of random mode is one pass over the finished outputs where the source hashes batch by batch.
- Pprf: the clamp of the vector size and the width of the shift are not modelled.
- Groth16: assumes a prime order, at most that many constraints; serialization and curve arithmetic are not modelled.
- CircuitBuilder: boolean and/or/xor gadgets, range checks and the MiMC gadget are compositions of the operations modelled and would add easy members.
- SsExecutor: links, message buffers and their tags appear only as tag counters that stay equal; each call of the OT kernel is given correlated OTs of the padded size.
- Tpre: the proof elements z_1 and z_2 of a fragment are built as in the source but nothing in it checks them; an inverse of zero is a failure; the list of fragments given to DeCapsulateFrags is not empty.
- BitMatrix: the 1024-column variants and the naive transpose of more than 128 rows are not modelled; AvxTranspose.AvxTranspose makes the cast to vectors of two rows a copy.
- Secrecy, randomness of keys and indistinguishability are not modelled.
- KKRT, KOS, silent VOLE, uniform-noise multi-point COT, OPRF, OpenSSL wrappers and transport are not modelled.
