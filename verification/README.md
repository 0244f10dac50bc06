# Verified models of MQOM and of FAEST's QuickSilver layer

Two signature schemes of the repository are modelled and proved correct in Dafny.

**MQOM** is modelled as a whole, from bytes to `crypto_sign_open`: the seed expander with its
key cache, the correlated GGM tree, the expansion of the quadratic system, the batched line
commitment, the polynomial proof, challenge grinding, key generation, and signing and
verification over one signature buffer. Every loop of the C code above the field kernels is a
method that is proved to compute a specification function, with each of the interchangeable
speed-ups (key-schedule cache, blocks and XOF calls in fours, `t1` cache, memory-efficient
opening) switched by a parameter; the specification does not depend on the switches. The main result is
completeness: a key made by key generation signs any message so that verification accepts it
(`Signatures.Completeness`) and `crypto_sign_open` returns the message
(`SignatureProcedures.SignThenOpen`). It rests on four facts that need inductions of their own:
every level of the tree adds up to `delta`; all leaves but the hidden one are recovered from a
path; the correction of `x` is zero on its first seed-size bytes; and the term of the hidden
leaf, whose weight is `r + w = 0`, may be skipped.

What both sides compute alike is pinned from outside as well. Acceptance is spelled out over the
XOF (`Binding.AcceptanceSpelledOut`), two signatures or openings accepted for the same digests
yield a collision that is written down (`Binding.CoefficientsBind`, `Binding.OpeningBinds`),
every key is told apart from every other (`KeySeparation.KeysSeparate`), and off solutions the
verifier's coefficients miss the signer's by exactly `r^2` times the batched residual
(`Piop.AlphaDifference`), from which compression loses nothing (`BasisCompression.PhiEncodes`).

**FAEST** (`faest/faest_128f`) is modelled where prover and verifier must stay in step:
polynomials over GF(2), Karatsuba products and reduction, the three universal hashers,
polynomials over the field, authenticated values and all their operators, the QuickSilver state with `prove` and `verify`,
the VOLE consistency check, and the Gray-code order of keys. The main results are that the
verifier's MAC of every expression is the prover's MAC polynomial at delta
(`QuickSilver.ExtHomomorphism`), that both checks of a proof are equal for every maximal degree
(`QuickSilverState.Completeness`, `QuickSilverState.ProveAndVerify`) and otherwise differ by
exactly `delta^max_deg` times the hash of the constraints' values
(`QuickSilverState.CheckDifference`), and that the sender of the VOLE check feeds exactly its
proof followed by what the receiver feeds (`VoleCheckProcedures.CheckBothSides`), a wrong proof
being off by its own error under delta (`VoleCheck.TranscriptDifference`).

## How the model is built

* The block cipher and the XOF are function-valued fields of `Common.Params`; nothing is assumed
  of them. The fields of MQOM are a record of operations (`Fields.Field`) under the predicate
  `FieldLaws`; the reference kernels for GF(2), GF(256) and GF(256^2) are modelled and proved to
  satisfy it for all four combinations that the parameter sets use. The fields of FAEST are
  `BitPolynomials.PolyField` under `PolyFieldLaws`, where reduction modulo the field polynomial
  is evaluation at the class of the indeterminate. The quotient by any X^n + m is proved to be
  one, in particular GF(2^64) and GF(2^128) with the moduli of the source; the source's
  Karatsuba product and its folding reductions are proved to compute `Clmul` and `Reduce`.
* Parameters stay symbolic. `Common.Params.Valid`, `Schemes.Sized` and the two `ValidSetting`
  predicates say what the code takes for granted: `NB_EVALS` is a power of two, sizes are
  multiples of a byte, the seed is no longer than the packed `x`, `MU * log|base| = log|ext|`.
  All 24 parameter sets of the repository are proved to be instances (`ParameterSets`).
* A byte is its eight bits, so no machine word is involved; where the source truncates (the
  tweak, the nonce, the equation index) the model truncates explicitly.
* `Sign` ignores the return codes of `BLC_Commit`, `ComputePAlpha` and `BLC_Open`; they are
  modelled, and on the inputs `Sign` passes they are zero.
* Grinding ends only if some 32-bit nonce passes. That is the hypothesis `Challenge.Winnable`.
* With the fourfold XOF, `ExpandEquations` fails unless the number of equations is a positive
  multiple of four (`KeyGen.CanExpand`); key generation, signing and verification then return -1.
* `FAEST_ASSERT(pow == -1)` in `finalize` holds exactly if at least one input was declared
  (`UniversalHash.FinalizableAtEnd`), so whole proofs ask for at least one constraint.

## Model

| member | source | states |
|---|---|---|
| CommonProcedures.TweakSaltInto | mqom/common.h:39-47 | the tweaked salt is the salt with selector, repetition and counter masked into its first three bytes, with the C truncations |
| Common.TweakSaltInjective | mqom/common.h:39-47 | for selectors below 4, repetitions below 64 and counters below 2^16, different uses of a salt get different tweaked salts |
| KeySeparation.TweakBytes | mqom/common.h:39-47 | selector and repetition in the first byte, the low byte of the counter in the second, its high byte in the third, nothing else changed |
| KeySeparation.KeysSeparate | mqom/ggm_tree.c:97-97 | no key serves two purposes: for repetitions below 64 and counters below 2^16 the keys of tree levels, of both halves of a leaf commitment and of expansion blocks are pairwise different |
| KeySeparation.LeftChild | mqom/ggm_tree.c:92-121 | over the cipher, byte by byte: the left child of a node of level j is the node encrypted under the salt tweaked with 2, the repetition and j - 1 |
| KeySeparation.CommitmentHalves | mqom/blc.c:8-18 | the two halves of a leaf commitment over the cipher, with selectors 0 and 1 |
| KeySeparation.ExpansionBlocks | mqom/prg.c:25-113 | every whole block of an expansion over the cipher, with selector 3 and its counter |
| KeySeparation.RootSeedIsBlock | mqom/blc.c:57-58 | root seed e is block e of the master seed under the zero salt |
| KeySeparation.FirstLevel | mqom/ggm_tree.c:87-91 | a tree starts with its root seed and, beside it, that seed plus the head of x |
| KeySeparation.EquationBlocks | mqom/expand_mq.c:59-60 | the blocks of an equation's stream over the cipher, under the zero salt |
| CommonProcedures.LinOrthoInto | mqom/common.h:50-61 | the buffer holds (l + r, l) for the seed (l, r) |
| CommonProcedures.XorBlocks | mqom/common.h:68-82 | the result is the exclusive-or of the old contents, also when it overwrites an operand |
| Prg.ExpansionByte | mqom/prg.c:25-113 | byte k of block b of any expansion is byte k of the cipher block for counter b masked with LinOrtho of the seed, for every length |
| Prg.ExpansionPrefix | mqom/prg.c:25-113 | a longer expansion starts with the shorter one, so grouping and the partial last block do not show |
| Prg.KeySched | mqom/prg.c:3-23 | cached or not, the returned key is the one for this salt, repetition and block; the cache stays valid |
| Prg.KeyCache.SetEntry | mqom/prg_cache.h:35-40 | exactly one slot is filled and marked active |
| Prg.InitCache | mqom/prg_cache.h:42-58 | a fresh cache, or none, serves every block of any salt and repetition up to the given length |
| Prg.SplitLength | mqom/prg.c:37-54 | how a length splits into groups of four blocks, at most three more, and a rest; the `default` arm is never taken |
| Prg.StoreBlocksX4 | mqom/prg.c:38-52 | four more blocks are written, nothing else changes |
| Prg.StoreRemaining | mqom/prg.c:54-94 | at most three whole blocks are written |
| Prg.StorePartial | mqom/prg.c:100-108 | the head of one more block completes the expansion |
| Prg.Expand | mqom/prg.c:25-113 | the expander returns 0 and writes exactly the expansion at the given place, for every length and cache state; cache indices stay in bounds |
| TreePaths.OneChildOnPath | mqom/ggm_tree.c:166-186 | a proper ancestor of a leaf has exactly one child on the way to it |
| GgmTree.ChildrenXor | mqom/ggm_tree.c:116-121 | the children of a node add up to it |
| GgmTree.LevelXor | mqom/ggm_tree.c:87-159 | every level of the tree adds up to delta, for every depth, seed and delta |
| GgmTree.HonestSeed | mqom/ggm_tree.c:221-312 | on an honest path every seed the verifier can derive is the signer's node |
| GgmTree.HonestLeaves | mqom/ggm_tree.c:166-322 | the leaves rebuilt from a path are the tree's, except the hidden one, which is zero |
| GgmTree.PuncturedLevelXor | mqom/ggm_tree.c:213-312 | for any path, the seeds of each level add up to the path entries down to it |
| GgmTree.PuncturedLeavesXor | mqom/ggm_tree.c:213-317 | for any path, honest or not, the rebuilt leaves add up to the exclusive-or of the path |
| GgmTree.HiddenLeaf | mqom/ggm_tree.c:87-186 | the hidden leaf is delta plus all path entries |
| GgmTree.PathEntryNode | mqom/ggm_tree.c:166-186 | entry j of a path is the neighbour of node (2^LOG + i*) / 2^j |
| GgmTreeProcedures.SeedDerive | mqom/ggm_tree.c:5-17 | one position receives the derived seed; a null input leaves the output alone |
| GgmTreeProcedures.SeedDeriveX2 | mqom/ggm_tree.c:19-39 | two derivations, each skipped if its input is null |
| GgmTreeProcedures.SeedDeriveX4 | mqom/ggm_tree.c:41-68 | four derivations, each skipped if its input is null |
| GgmTreeProcedures.ExpandLevel | mqom/ggm_tree.c:92-156 | from a filled level the next one is filled, in groups of two or four with none left over |
| GgmTreeProcedures.Expand | mqom/ggm_tree.c:73-164 | the node table holds the whole tree and the seed table its leaves |
| GgmTreeProcedures.Open | mqom/ggm_tree.c:166-186 | the path holds the siblings of the leaf and its ancestors; a leaf that does not exist is rejected |
| GgmTreeProcedures.CopyPath | mqom/ggm_tree.c:213-219 | the path lands on the siblings of the hidden ancestors and only those are marked |
| GgmTreeProcedures.FilledBelowKeeps | mqom/ggm_tree.c:234-311 | deriving below a node sets exactly its visible children and overwrites no path node |
| GgmTreeProcedures.PartialLevel | mqom/ggm_tree.c:223-312 | after level j the shadow map is set exactly on the visible nodes down to level j + 1, and these hold their seeds |
| GgmTreeProcedures.PartiallyExpand | mqom/ggm_tree.c:190-322 | for any path the leaves are those the path determines, the hidden one zero; an out-of-range leaf is rejected |
| GgmTreeProcedures.PathStep | mqom/ggm_tree.c:343-356 | of the two children made on a level one is the next ancestor and the other its sibling |
| GgmTreeProcedures.ExpandPath | mqom/ggm_tree.c:324-363 | without a node table: the same path as Expand followed by Open, and the same leaf |
| ExpandMq.RowsTile | mqom/expand_mq.c:14-21 | the rows of an equation lie one after the other in the stream without overlap |
| ExpandMq.RowFits | mqom/expand_mq.c:61-71 | every row read lies inside the stream and fills no more than a packed row |
| ExpandMq.ParseRow | mqom/fields.h:44-58 | parsing into a cleared row keeps the given elements and zeroes the rest |
| ExpandMq.ParsedRowCoord | mqom/fields.h:44-62 | coordinate k of a parsed row is element k of the source, or zero past the end, for both base fields |
| ExpandMq.MatricesTriangular | mqom/expand_mq.c:62-69 | every expanded matrix is zero beyond the diagonal |
| ExpandMq.ByteRowOffset | mqom/expand_mq.c:14-21 | over GF(256) row j starts after j(j + 1)/2 bytes |
| ExpandMq.BitRowOffset | mqom/expand_mq.c:14-21 | over GF(2) row 8a + b starts after 4a(a + 1) + b(a + 1) bytes |
| ExpandMq.MatrixEntry | mqom/expand_mq.c:61-71 | element (j, k) of a matrix is element k of row j of the stream, or zero above the diagonal |
| ExpandMq.VectorEntry | mqom/expand_mq.c:71-71 | element k of the linear part is element k of what follows the rows |
| ExpandMq.SystemRow | mqom/expand_mq.c:59-71 | equation i is read off the expansion of seed i under the zero salt |
| Binding.EquationSeedBinds | mqom/expand_mq.c:52-58 | seeds of different equations, or from different equation seeds, come from different strings of byte 1 |
| ExpandMq.RowSizes | mqom/expand_mq.c:14-21 | bits and bytes of every row and the length of the stream |
| ExpandMq.ParseEquation | mqom/expand_mq.c:88-98 | one stream is cut into the rows of a matrix and the linear part |
| ExpandMq.ExpandX4 | mqom/expand_mq.c:41-73 | seeds drawn four at a time, counting down within a group: every equation is written, as in the serial form |
| ExpandMq.ExpandSerial | mqom/expand_mq.c:75-99 | one equation at a time |
| ExpandMq.ExpandEquations | mqom/expand_mq.c:3-109 | with or without fours, the matrices and vectors are the specified ones; -1 exactly if fours are used and the count is not a positive multiple of four |
| FieldKernels.AccumulateIsHorner | mqom/fields/fields_ref.h:104-117 | the GF(256) kernel shifts and adds as multiplication of polynomials modulo X^8 + X^4 + X^3 + X + 1 does |
| FieldKernels.Gf256IsRing | mqom/fields/fields_ref.h:104-117 | the GF(256) kernel, with exclusive-or, is a commutative ring of characteristic two |
| FieldKernels.Gf65536IsRing | mqom/fields/fields_ref.h:245-261 | the GF(256^2) kernel, with exclusive-or, is a commutative ring of characteristic two |
| ParameterFields.XSquared | mqom/fields/fields_ref.h:245-261 | in GF(256^2) the indeterminate squared is itself plus 32 |
| ParameterFields.BytePointsDistinct | mqom/fields.h:362-364 | over an 8-bit extension different indices below 256 have different evaluation points |
| ParameterFields.PairPointsDistinct | mqom/fields.h:362-364 | over a 16-bit extension different indices below 65536 have |
| ParameterSets.SetSized | mqom/parameters/mqom2_parameters_cat1-gf2-fast-r3.h:14-57 | the sizes of every parameter set agree as the model assumes, repetitions fit the salt tweak, and fourfold draws of equation seeds never fail |
| ParameterSets.ParameterSetsValid | mqom/mqom2_parameters.h:43-130 | all 24 parameter sets, each with the fields it selects, are instances of the model, so completeness holds of them |
| ParameterSets.PointsAndBases | mqom/mqom2_parameters.h:53-147 | in all 24 sets different leaves of a tree have different evaluation points, and compression along the basis loses nothing |
| ParameterSets.ZeroDrawWins | mqom/sign.c:86-101 | grinding can succeed, so the hypothesis of completeness is not empty |
| ParameterFields.ParameterFields | mqom/fields.h:24-180 | all four pairs of base and extension field meet the laws the model assumes: ring laws, embedding, packing, masking, serialization |
| Fields.CoordsXor | mqom/fields.h:342-350 | bytewise addition of packed vectors adds coordinate by coordinate |
| Fields.CoordsOfPack | mqom/fields.h:25-40 | a packed vector gives its coordinates back |
| Fields.PackUnique | mqom/fields.h:25-40 | packed vectors with the same coordinates are the same bytes |
| Fields.DecodeEncode | mqom/fields.h:58-111 | parsing a serialized extension vector gives the vector back |
| Fields.EncodeDecode | mqom/fields.h:58-111 | serializing what was parsed gives back the bytes |
| Fields.EmbedDot | mqom/fields/fields_ref.h:192-215 | a base inner product, embedded, is the inner product over the extension |
| Layout.PiecesOfConcat | mqom/blc.c:205-223 | pieces written one after the other are read back, whatever follows |
| Binding.OpeningOffsets | mqom/blc.c:205-223 | paths, then commitments to hidden leaves, then corrections, at their offsets |
| Blc.EvalULine | mqom/blc.c:285-313 | the verifier's u sum over the known leaves is the signer's line at r, since the hidden leaf's weight is zero |
| Blc.EvalXLine | mqom/blc.c:280-313 | the verifier's x sum is its start plus the signer's line with the sum of all shares as slope |
| Blc.SumXHead | mqom/blc.c:120-140 | the sum of the shares starts with the sum of the leaf seeds |
| Blc.SharesTile | mqom/blc.c:112-140 | both shares of a leaf, u serialized, are its seed followed by its whole expansion |
| Blc.WeightedXIsDot | mqom/blc.c:120-140 | every coordinate of x0 is the inner product of the evaluation points and the leaves' shares |
| Blc.WeightedUIsDot | mqom/blc.c:120-140 | so is every coordinate of u0 |
| Blc.SumUIsDot | mqom/blc.c:120-140 | every coordinate of u1 is the sum of the leaves' shares |
| Blc.DeltaXHead | mqom/blc.c:170-174 | in every repetition the correction of x is zero on its first seed-size bytes, so what is sent determines it |
| Blc.OpeningReads | mqom/blc.c:205-223 | the opening has the declared size and its three sections are read back piece by piece |
| Blc.HonestKnownLeaves | mqom/blc.c:264-264 | from an honest path the verifier rebuilds the signer's leaves but the hidden one |
| Blc.HonestHash | mqom/blc.c:285-338 | in every repetition the verifier's digest of leaf commitments is the signer's |
| Blc.HonestCom1 | mqom/blc.c:341-354 | for every secret and challenge the verifier recomputes exactly the signer's commitment |
| Blc.HonestLines | mqom/blc.c:271-313 | for an honest opening x_eval = x0 + r x and u_eval = u0 + r u1 in every repetition |
| Binding.CommitmentAbsorbs | mqom/blc.c:341-354 | the recomputed commitment over the XOF alone: byte 7, all digests, and the last section of the opening as it was sent |
| Binding.CommitmentBinds | mqom/blc.c:341-354 | if `BLC_Eval` accepts two openings for one commitment and their corrections or their repetition digests differ, two different strings starting with byte 7 have the same output; both are given |
| Binding.LeavesBind | mqom/blc.c:318-338 | two lists of leaf commitments with one digest are equal or collide under byte 6 |
| Binding.OpeningBinds | mqom/blc.c:285-354 | if one commitment is accepted with different leaf commitments in any repetition, a collision under byte 6 or 7 is found, whatever salts and challenges were used |
| BlcProcedures.CommitSeed | mqom/blc.c:8-18 | the commitment to one leaf |
| BlcProcedures.CommitSeedX2 | mqom/blc.c:20-37 | two commitments at once are the two single ones |
| BlcProcedures.AddLeaf | mqom/blc.c:120-140 | one leaf's shares are added to all four accumulators |
| BlcProcedures.CommitLeaves | mqom/blc.c:110-141 | leaves two by two: all commitments, and the sums over all leaves |
| BlcProcedures.SlotFree | mqom/blc.c:78-86 | a buffer of the ring is reused only after what it held has been hashed |
| BlcProcedures.HashFour | mqom/blc.c:148-158 | one fourfold XOF call writes the digests of four repetitions and no others |
| BlcProcedures.HashRepetition | mqom/blc.c:146-167 | whichever buffers are used, every finished repetition is either hashed correctly or intact in its buffer |
| BlcProcedures.AllHashed | mqom/blc.c:146-187 | after the last repetition every digest has been computed |
| BlcProcedures.DigestAll | mqom/blc.c:177-187 | absorbing digests and corrections one by one gives the commitment |
| BlcProcedures.ExpandRoots | mqom/blc.c:57-58 | the root seeds of all trees |
| BlcProcedures.CommitRepetition | mqom/blc.c:95-175 | one repetition yields its tree, its leaf commitments, its correction and its lines |
| BlcProcedures.Commit | mqom/blc.c:41-193 | the commitment, all lines, and a key fit for opening, in the regular and the memory-efficient form, with and without fours |
| BlcProcedures.OpenRepetition | mqom/blc.c:209-220 | looked up in the key or recomputed from the root seed: the same path and the same leaf commitment |
| BlcProcedures.Open | mqom/blc.c:195-228 | both forms write identical bytes, the specified opening; a challenge out of range is rejected |
| BlcProcedures.RecommitPair | mqom/blc.c:286-292 | all known leaves of a pair are committed to, whichever of them is hidden |
| BlcProcedures.EvalPair | mqom/blc.c:285-313 | known leaves are added with weight r + w; for the hidden one only its commitment is copied |
| BlcProcedures.EvalLeaves | mqom/blc.c:285-313 | all leaves: commitments and both evaluations |
| BlcProcedures.Eval | mqom/blc.c:239-360 | returns 0 exactly if the challenge is in range and the given commitment is the recomputed one, and then with the specified evaluations; for any opening |
| Piop.KernelsAgree | mqom/piop.c:14-33 | on lower triangular matrices the base-field kernel, which reads whole bytes, and the hybrid one, which stops at the diagonal, agree |
| Piop.T1DotX | mqom/piop.c:14-42 | t1^T x is the value of the quadratic form |
| Piop.QuadLine | mqom/piop.c:31-46 | (t0 + r t1)^T (x0 + r x) expands to z0 + r z1 + r^2 t1^T x |
| Piop.EquationEval | mqom/piop.c:66-76 | the verifier's evaluation of one equation is z0 + r z1 plus the value of the form times r^2 |
| Piop.PzEvalLine | mqom/piop.c:54-80 | for any x the evaluations lie on the line z0 + r z1 plus r^2 times what the equations miss at x |
| Piop.QuadraticIsFullSum | mqom/piop.c:8-20 | the value of a form is the full double sum x^T A x + b^T x, although only the triangle is read |
| Piop.ResidualOfSolution | mqom/keygen.c:54-60 | the residual vanishes exactly on solutions |
| Piop.PhiLine | mqom/piop.c:82-90 | combining values along the basis respects lines |
| BasisCompression.AllCompress | mqom/fields.h:160-173 | for each of the four field pairs, mu base elements combined along `ext_basis` and serialized are the packed elements |
| BasisCompression.PhiEncodes | mqom/piop.c:82-90 | phi of a base vector, serialized, is the packed vector |
| BasisCompression.PhiInjective | mqom/piop.c:82-90 | so phi loses nothing |
| Piop.BatchLine | mqom/piop.c:124-142 | so does batching, with or without Gamma |
| Piop.BatchSelects | mqom/piop.c:124-142 | a unit row of Gamma selects and scales one compressed value |
| Piop.BatchMatrixAdds | mqom/piop.c:124-142 | batching is additive in Gamma too, so these values determine it |
| Binding.GammaBytesSqueezed | mqom/piop.c:101-112 | Gamma, serialized row by row, is the output for byte 8 and the commitment |
| Piop.AlphaDifference | mqom/piop.c:92-203 | for any x and y, solution or not, the recomputed alpha0 exceeds the signer's by exactly r^2 times the batched residual |
| Piop.AlphaAgreesIff | mqom/piop.c:92-203 | so they agree if and only if that vector is zero |
| BasisCompression.UnbatchedAgreesIff | mqom/piop.c:92-203 | without batching, at a point with invertible r^2, they agree if and only if x solves the system |
| Piop.AlphaAgrees | mqom/piop.c:92-203 | if y_i = x^T A_i x + b_i^T x for all i, the recomputed alpha0 is the signer's, for every r, with or without batching |
| PiopProcedures.T1Cache.SetEntry | mqom/piop_cache.h:32-37 | exactly one slot is filled and marked active |
| PiopProcedures.ComputeT1 | mqom/piop.c:8-20 | cached or not, t1 is A_i x + b_i; the cache stays valid for this x |
| PiopProcedures.ComputePz | mqom/piop.c:22-52 | both coefficients of every equation |
| PiopProcedures.ComputePhi | mqom/piop.c:82-90 | the combination along the basis |
| PiopProcedures.ExpandGamma | mqom/piop.c:101-112 | the batching matrix is parsed row by row from one squeeze |
| PiopProcedures.ComputePAlpha | mqom/piop.c:92-154 | alpha0 and alpha1 of every repetition, the same with and without the t1 cache |
| PiopProcedures.ComputePzEval | mqom/piop.c:54-80 | the evaluation of every equation |
| PiopProcedures.RecomputePAlpha | mqom/piop.c:156-203 | the recomputed alpha0 of every repetition |
| KeyGen.ComputeY | mqom/keygen.c:54-60 | packing value by value gives the packed values of all forms, whatever the buffer held before |
| KeyGen.KeySolves | mqom/keygen.c:40-60 | every generated key solves its own system |
| KeyGen.SystemTriangular | mqom/keygen.c:51-52 | the matrices of a generated key are lower triangular |
| KeyGen.WriteKeys | mqom/keygen.c:61-67 | the layout of both keys |
| KeyGen.KeyFields | mqom/keygen.c:61-67 | where equation seed, values and secret point lie in the two keys |
| Binding.KeySqueeze | mqom/keygen.c:40-49 | the secret point and the equation seed are consecutive parts of one output for byte 0 |
| KeyGen.Generate | mqom/keygen.c:9-78 | both keys are the specified ones; -1 exactly if the equations cannot be expanded |
| Challenge.FindLeastGood | mqom/sign.c:86-101 | if some nonce passes there is a least one |
| Challenge.ReadChallenge | mqom/sign.c:57-60 | challenges and grinding value of one draw |
| Challenge.DrawnNumber | mqom/sign.c:57-60 | a number drawn low byte first gives its low bits |
| Challenge.NonceReadBack | mqom/sign.c:45-50 | the nonce can be read off its four bytes, lowest first |
| Binding.DrawBinds | mqom/sign.c:304-327 | equal draws for different keys, commitments, messages or nonces yield a collision under byte 2, 4 or 5 |
| Challenge.SampleSerial | mqom/sign.c:77-106 | terminates with the least passing nonce and the challenge it gives, every entry below NB_EVALS |
| Challenge.SampleX4 | mqom/sign.c:27-75 | four lanes find the same nonce and challenge |
| Signatures.ParseEncoded | mqom/sign.c:182-186 | the serialized alpha1 of all repetitions is parsed back |
| Signatures.ParseJoin | mqom/sign.c:150-156 | the fields of a signature are read back from one buffer of the declared size |
| Signatures.FieldOffsets | mqom/sign.c:295-302 | salt, both commitments, alpha1, opening and nonce at their offsets |
| Signatures.HonestAlpha0 | mqom/sign.c:337-347 | the verifier recomputes every alpha0 of an honest signature |
| Signatures.SolutionsSign | mqom/sign.c:109-374 | a signature made with any solution of the public system is accepted |
| Signatures.Completeness | mqom/sign.c:109-374 | every generated key signs every message, with every salt and seed, so that verification accepts |
| Binding.CoefficientsBind | mqom/sign.c:349-363 | if two signatures with the same com2 are accepted, for whatever keys and messages, and their alpha1 bytes differ, two different strings starting with byte 3 have the same output; both are given |
| Binding.AcceptanceSpelledOut | mqom/sign.c:304-363 | a signature is accepted if and only if the grinding bits, com1 and com2 match, with every absorbed string written out over the XOF alone |
| SignatureProcedures.SampleChallenge | mqom/sign.c:26-107 | either form of the search gives the least passing nonce and its challenge |
| SignatureProcedures.Prove | mqom/sign.c:158-172 | commitment and coefficients of every repetition |
| SignatureProcedures.Transcript | mqom/sign.c:174-187 | the digest of all coefficients and the serialized alpha1 |
| SignatureProcedures.WriteSignature | mqom/sign.c:149-206 | all fields end up at their offsets |
| SignatureProcedures.Sign | mqom/sign.c:109-217 | the buffer holds exactly the specified signature, for every build; -1 exactly if the equations cannot be expanded |
| SignatureProcedures.Recompute | mqom/sign.c:335-347 | fails exactly if the commitment does not match, otherwise the recomputed alpha0 |
| SignatureProcedures.Verify | mqom/sign.c:265-374 | returns 0 exactly if grinding, commitment and coefficients all check out, for any key, message and signature |
| SignatureProcedures.CryptoSign | mqom/sign.c:246-263 | the buffer holds the message followed by its signature |
| SignatureProcedures.CryptoSignOpen | mqom/sign.c:388-406 | returns 0 exactly if the input is long enough and its tail verifies, then with the message; otherwise the output is untouched |
| SignatureProcedures.SignThenOpen | mqom/sign.c:246-406 | key generation, signing and opening in sequence, with different builds on the two sides: the message comes back |
| BitPolynomials.ReduceClmul | faest/faest_128f/avx2/polynomials_impl.hpp:844-857 | reducing a carry-less product multiplies the classes of the factors |
| BitPolynomials.ReduceShiftUp | faest/faest_128f/avx2/polynomials_impl.hpp:1120-1140 | a shift multiplies by a power of the indeterminate if only zeros fall off |
| BitPolynomials.BitsAdd | faest/faest_128f/avx2/polynomials_impl.hpp:814-816 | addition of elements is exclusive-or of their coefficients |
| ShiftAddRings.ShiftAddIsRing | mqom/fields/fields_ref.h:104-117 | shifting and adding along the bits of one factor is a commutative product, for every additive shift |
| QuotientFields.QuotientIsField | faest/faest_128f/polynomials_constants.hpp:10-11 | polynomials modulo any X^n + m meet the assumptions made of polynomial fields |
| QuotientFields.TopPower | faest/faest_128f/polynomials_constants.hpp:10-11 | in the quotient X^n is m |
| QuotientFields.FaestFields | faest/faest_128f/polynomials_constants.hpp:10-11 | GF(2^64) and GF(2^128) with the moduli of the source are such fields |
| Reductions.FaestModuli | faest/faest_128f/polynomials_constants.hpp:10-11 | the modulus registers hold X^64 and X^128, and the former is small enough for two folds |
| Reductions.ClmulZeroFrom | faest/faest_128f/avx2/polynomials_impl.hpp:206-207 | the degree bound of a product |
| Reductions.ReduceHalf | faest/faest_128f/avx2/polynomials_impl.hpp:201-216 | two folds reduce a product of twice the width |
| Reductions.TimesTopReduced | faest/faest_128f/avx2/polynomials_impl.hpp:134-142 | two folds of an element give X^n times it |
| Reductions.ReduceThreeHalves | faest/faest_128f/avx2/polynomials_impl.hpp:301-312 | one fold reduces one register above an element |
| Reductions.ReduceDouble | faest/faest_128f/avx2/polynomials_impl.hpp:411-423 | folding the top register into the middle and then the middle reduces a double-width product, for any modulus that fits a register |
| WideProducts.CombinedValue | faest/faest_128f/avx2/polynomials_impl.hpp:1106-1116 | registers that overlap by half, combined, keep the value of their shifted sum, for every number of registers |
| WideProducts.CombineRegisters | faest/faest_128f/avx2/polynomials_impl.hpp:1106-1116 | the loop combines register by register |
| WideProducts.KaratsubaValue | faest/faest_128f/avx2/polynomials_impl.hpp:1074-1103 | three half-width products give the value of the full product |
| WideProducts.Times128 | faest/faest_128f/avx2/polynomials_impl.hpp:849-857 | Karatsuba's product is the carry-less product, bit for bit |
| WideProducts.Times64By128 | faest/faest_128f/avx2/polynomials_impl.hpp:928-937 | so are two overlapping products |
| UniversalHash.HashIsPlainSum | faest/faest_128f/universal_hash.hpp:70-96 | Horner's rule computes the sum of input_i key^(n-1-i) |
| UniversalHash.InitKey | faest/faest_128f/universal_hash.hpp:21-30 | entry i of the key table is the key to the i + 1 |
| UniversalHash.PowCountsDown | faest/faest_128f/universal_hash.hpp:64-89 | the countdown is the number of inputs to come, less one, modulo the number of powers |
| UniversalHash.FinalizableAtEnd | faest/faest_128f/universal_hash.hpp:91-95 | after all declared inputs the asserted `pow == -1` holds if and only if there was at least one |
| UniversalHash.UpdateAbsorbs | faest/faest_128f/universal_hash.hpp:73-89 | an update absorbs its input, whether or not it first catches up with the powers owed |
| UniversalHash.UpdateSplitAbsorbs | faest/faest_128f/universal_hash.hpp:130-148 | so does the update that multiplies the two halves of the state apart |
| UniversalHash.DelayedHasher.Update | faest/faest_128f/universal_hash.hpp:73-89 | the fields after an update represent the hash of one more input |
| UniversalHash.DelayedHasher.UpdateHalves | faest/faest_128f/universal_hash.hpp:130-148 | the same for the split-half hasher |
| UniversalHash.DelayedHasher.Finalize | faest/faest_128f/universal_hash.hpp:91-95 | with all declared inputs absorbed the assertion holds and the hash is returned |
| UniversalHash.PlainHasher.Update | faest/faest_128f/universal_hash.hpp:109-113 | plain Horner with a short key |
| UniversalHash.HashDelayed | faest/faest_128f/universal_hash.hpp:59-96 | for every number of inputs and of precomputed powers the result is the plain sum |
| UniversalHash.HashHalves | faest/faest_128f/universal_hash.hpp:118-155 | the split-half hasher computes the same sum |
| UniversalHash.TimesTop | faest/faest_128f/universal_hash.hpp:55-55 | the last key power times the n-th power of the indeterminate |
| Poly2d.EvalAdd | faest/faest_128f/poly2d.hpp:55-62 | the value of a sum is the sum of the values |
| Poly2d.EvalShift | faest/faest_128f/poly2d.hpp:46-53 | a shift multiplies the value by a power of the point |
| Poly2d.EvalProduct | faest/faest_128f/poly2d.hpp:86-101 | the value of the schoolbook product is the product of the values |
| Poly2d.ComputeShiftLeft | faest/faest_128f/poly2d.hpp:46-53 | the loop shifts the coefficients and clears the low ones |
| Poly2d.ComputeAdd | faest/faest_128f/poly2d.hpp:55-62 | the loop adds coefficient by coefficient |
| Poly2d.ComputeProduct | faest/faest_128f/poly2d.hpp:86-101 | the double loop, adding up unreduced products, gives the product after reduction |
| QuickSilver.From8Self | faest/faest_128f/avx2/polynomials_impl.hpp:1049-1055 | eight elements combined along the GF(2^8) basis, reduced once |
| QuickSilver.CombineEight | faest/faest_128f/quicksilver.hpp:810-831 | the MAC polynomial and value of eight bits combined |
| QuickSilver.Sum8IsDot | faest/faest_128f/avx2/polynomials_impl.hpp:1049-1055 | eight elements combined are the first plus the inner product of the others with the basis |
| QuickSilver.MulBitsValue | faest/faest_128f/quicksilver.hpp:748-767 | the product of two bits, with both cross terms, evaluates to the product |
| QuickSilver.MulMixedValue | faest/faest_128f/quicksilver.hpp:733-746 | the product of a field value and a bit evaluates to the product |
| QuickSilver.ProductTop | faest/faest_128f/quicksilver.hpp:719-731 | the top coefficient of a product is the product of the top coefficients |
| QuickSilver.Combine8Value | faest/faest_128f/quicksilver.hpp:810-846 | combining eight bits commutes with evaluation |
| QuickSilver.ConstValue | faest/faest_128f/quicksilver.hpp:606-628 | the prover's constant evaluates to the verifier's, for degree 0 and above |
| QuickSilver.LiftValue | faest/faest_128f/quicksilver.hpp:639-667 | lifting shifts the prover's polynomial and multiplies the verifier's value by a power of delta |
| QuickSilver.BitHomomorphism | faest/faest_128f/quicksilver.hpp:606-795 | for every bit expression the verifier's MAC is the prover's polynomial at delta and the value is the plain one |
| QuickSilver.ExtHomomorphism | faest/faest_128f/quicksilver.hpp:606-846 | for every field expression over bits, constants, sums, products, mixed products, lifts and combined bits: the same, the value being the top coefficient |
| MacMasks.InterleavedIsSum | faest/faest_128f/quicksilver.hpp:322-356 | interleaving eight strides of eight gives the plain sum of mac_i x^i |
| MacMasks.ShiftAddHolds | faest/faest_128f/quicksilver.hpp:335-352 | each shift within the double width loses no bit |
| MacMasks.CombineMacMasks | faest/faest_128f/quicksilver.hpp:322-356 | the two-level combination is the sum of mac_i x^i, and its top coefficient is zero |
| MacMasks.CorrelatedSum | faest/faest_128f/quicksilver.hpp:322-356 | combining correlated MACs gives the MAC of the combined bits |
| QuickSilverProtocol.HashValues | faest/faest_128f/quicksilver.hpp:522-539 | hashing the values at delta is evaluating the hashed coefficients at delta |
| QuickSilverProtocol.MasksTelescope | faest/faest_128f/quicksilver.hpp:583-602 | after k middle coefficients the verifier's masks have telescoped to the first mask's MAC and the last mask's value |
| QuickSilverProtocol.ChecksAgree | faest/faest_128f/quicksilver.hpp:562-602 | for every maximal degree the verifier's mask turns the hash at delta into the prover's check |
| QuickSilverState.FinalizeHashes | faest/faest_128f/quicksilver.hpp:306-320 | the assertion holds, and mask and hashes are combined wide and reduced once |
| QuickSilverState.ProverState.AddConstraint | faest/faest_128f/quicksilver.hpp:521-539 | each hasher pair absorbs its coefficient of the lifted polynomial |
| QuickSilverState.ProverState.ComputeMasks | faest/faest_128f/quicksilver.hpp:567-575 | the mask of every coefficient: its own MAC and the value of the mask before |
| QuickSilverState.ProverState.Prove | faest/faest_128f/quicksilver.hpp:562-581 | check and proof are the coefficients of the masked hash polynomial |
| QuickSilverState.VerifierState.AddConstraint | faest/faest_128f/quicksilver.hpp:521-539 | the hashers absorb the value lifted to the maximal degree |
| QuickSilverState.VerifierState.ComputeMask | faest/faest_128f/quicksilver.hpp:587-599 | the verifier's mask, for maximal degree 1 as well |
| QuickSilverState.VerifierState.Verify | faest/faest_128f/quicksilver.hpp:583-602 | the recomputed check |
| QuickSilverState.TopIsPlain | faest/faest_128f/quicksilver.hpp:532-532 | on a satisfied constraint the prover's assertion holds, whatever the MACs are |
| QuickSilverState.Completeness | faest/faest_128f/quicksilver.hpp:521-602 | for every maximal degree, witness and list of satisfied constraints the verifier's check equals the prover's |
| QuickSilverState.CombinedIsPlainSums | faest/faest_128f/quicksilver.hpp:306-320 | the combined hash is c0 times one plain sum plus c1 times the other |
| QuickSilverState.OutputIsPlainSums | faest/faest_128f/quicksilver.hpp:562-581 | the prover's check and every coefficient of its proof over plain sums: the MACs and bits of its masks, and one coefficient of every constraint |
| QuickSilverState.CheckDifference | faest/faest_128f/quicksilver.hpp:521-602 | for any constraints, satisfied or not, the verifier's check exceeds the prover's by exactly delta^max_deg times the hash, as plain sums, of the constraints' plain values |
| QuickSilverState.ChecksEqualIff | faest/faest_128f/quicksilver.hpp:521-602 | so the checks are equal if and only if that product is zero |
| QuickSilverState.ProveAndVerify | faest/faest_128f/quicksilver.hpp:380-603 | both states run side by side give equal checks |
| VoleCheck.OutputPlus | faest/faest_128f/vole_check.hpp:68-142 | hashing, mapping and masking a sum of columns gives the sum of the outputs |
| VoleCheck.ChunkBit | faest/faest_128f/vole_check.hpp:97-120 | which row every bit of every hashed chunk is, with zeros past the rows |
| VoleCheck.InputsAreChunks | faest/faest_128f/vole_check.hpp:97-120 | the large hasher is fed the chunks in order |
| VoleCheck.SmallInputsArePieces | faest/faest_128f/vole_check.hpp:101-102 | the 64-bit hasher is fed the pieces of every chunk in order |
| VoleCheck.OutputHalves | faest/faest_128f/vole_check.hpp:122-142 | each half of a column's output is its own combination of the two hashes, as plain sums, plus the mask |
| VoleCheck.ColumnAgrees | faest/faest_128f/vole_check.hpp:144-149 | corrected by the proof, a correlated column yields the sender's bytes |
| VoleCheck.Agreement | faest/faest_128f/vole_check.hpp:51-162 | on correlated columns the sender feeds its proof and then exactly what the receiver feeds |
| VoleCheck.HashedSlices | faest/faest_128f/vole_check.hpp:144-162 | the sender's transcript starts with the hash of u, then come those of the columns under delta |
| VoleCheck.RawSlices | faest/faest_128f/vole_check.hpp:144-162 | then the masks of the other columns |
| VoleCheck.TranscriptDifference | faest/faest_128f/vole_check.hpp:144-162 | with any proof, honest or not, the receiver's slice for a column differs from the sender's by the error of the proof where the bit of delta is set, and nowhere else |
| VoleCheck.NoInitialPadding | faest/faest_128f/vole_check.hpp:81-95 | the padding is shorter than a chunk, so the padding in front never happens |
| VoleCheck.DeclaredUpdates | faest/faest_128f/vole_check.hpp:74-77 | the hashers are told exactly the number of chunks and of pieces |
| VoleCheckProcedures.FeedPieces | faest/faest_128f/vole_check.hpp:101-102 | the 64-bit pieces of a chunk are absorbed in order |
| VoleCheckProcedures.FeedColumn | faest/faest_128f/vole_check.hpp:97-120 | whole chunks, then a padded rest, cover the rows exactly |
| VoleCheckProcedures.HashColumn | faest/faest_128f/vole_check.hpp:68-125 | each hasher gets its declared number of updates, so both finalize assertions hold |
| VoleCheckProcedures.VoleCheckBoth | faest/faest_128f/vole_check.hpp:51-162 | the transcript of either side, and the sender's proof |
| VoleCheckProcedures.CheckBothSides | faest/faest_128f/vole_check.hpp:166-180 | for correlated inputs: sender's transcript = proof followed by receiver's transcript |
| KeyIndexPermutation.ComputeInverse | faest/faest_128f/vole_key_index_permutation.hpp:17-31 | the doubling loop computes the exclusive-or of all bits from each position on |
| KeyIndexPermutation.InversePermutes | faest/faest_128f/vole_key_index_permutation.hpp:9-31 | the inverse undoes the permutation on every index |
| KeyIndexPermutation.PermuteInverse | faest/faest_128f/vole_key_index_permutation.hpp:9-31 | and the permutation undoes the inverse |
| KeyIndexPermutation.InversePlus | faest/faest_128f/vole_key_index_permutation.hpp:17-31 | the inverse is linear over exclusive-or |
| KeyIndexPermutation.AddPow2IsAddition | faest/faest_128f/vole_key_index_permutation.hpp:47-47 | rippling a carry through the bits is addition of a power of two |
| KeyIndexPermutation.FastIncrement | faest/faest_128f/vole_key_index_permutation.hpp:33-51 | for a power-of-two offset of at most the width, without overflow, the larger masked difference is inv(i) xor inv(i + offset) |

## Left out

- The block cipher, Keccak and MQOM's vectorised field kernels: the cipher and the XOF are parameters; of the field kernels the portable reference multiplications are modelled, and the vector and matrix loops over them appear as inner products.
- The products and reductions for 192 and 256 bits of FAEST's other security levels; the carry-less multiplication of two 64-bit registers is the primitive `BitPolynomials.Clmul`.
- Calls that work on several inputs at once: a fourfold cipher or XOF call is modelled as the four single calls.
- Allocation failures, `randombytes`, endianness switches and benchmarking: salts and seeds are parameters, and buffers always exist.
- KeyGen.Generate: the sanity check on the packing of GF(2) vectors is not a branch of the model, because `Schemes.Sized` states what it checks.
- Signature writes: all fields are written after the response is known, not interleaved with its computation; the bytes are the same.
- Byte order of stored field elements in FAEST: elements are loaded from and stored to bits, so `load`, `store1` and the proof bytes are not modelled as bytes.
- Widths of index types: indices are unbounded; the 32-bit nonce, the 16-bit counters and the byte-sized selector and repetition of the salt tweak are truncated as in the source.
- `const_*_array` helpers, `add_inverse_constraints` and `add_inverse_or_zero_constraints` of QuickSilver: they only combine the operators and `add_constraint` that are modelled.
- `combine_hashes` of the universal hashers: it returns its argument.
- The expressions multiply a constant as a bit or element of degree 0; the case of two bits both of degree 0, whose type the C++ template cannot form, is given an empty MAC.
- The `.inc` bodies of FAEST (OWF constraints, vector commitments, small-field VOLE) and the AES tables of `owf_proof_tools.hpp` are not part of this model.
- The other FAEST directories hold the same headers, so one is modelled.
- Soundness as a probability, hiding and collision resistance: the model states exact differences and exhibits collisions, but makes no claim about how hard or likely they are.
