# A Dafny model of jco's compilers and loops

jco turns WebAssembly components into JavaScript. This project models the parts of it that transform code and data, and
proves what they are for.

**The multi-memory to single-memory compiler** (`crates/js-component-bindgen/src/core.rs`). `Wasm` and `Machine` define
a small-step machine for modules with several memories, block structure, calls and host functions; `JsHost` defines the
JavaScript closures that stand for memory operations. `Core` is the augmenter: a class with the source's fields, its
parsing loop, its collecting pass and its re-encoding pass. `Closures`, `Simulation` and `Augmentation` prove that the
re-encoded module, instantiated with the closures, runs like the original: in lockstep, over runs of any length, for
every host. A closure adds pointer and offset as signed 32-bit numbers, so this holds up to the first access whose
address is not in reach (`Closures.InReach`, a condition on the numbers at hand); at such an access exactly one of the
two sides traps, which is also proved. `Wiring` proves that the list of imports is the one that the encoded module asks
for, exactly when no import that is kept shares its name with a removed memory. `Linking` puts the pass together, from
the payloads through the import object to the calls of the instance, and `Sections` reads the encoded sections off the
parsed ones.

**The in-place component rewriter** (`packages/jco-transpile/src/opt.ts` and `metadata_show` in
`crates/wasm-tools-component/src/lib.rs`). `ComponentTree` defines component binaries as trees of modules and components
behind length prefixes, the rewriting that is wanted (`Rewrite`), and what the optimizer's arithmetic produces
(`Optimized`). `Metadata` is the breadth-first flattening, `Optimize` the recursion over the shared list with its
splices and size folds, `Write` the single pass with two shared cursors, `OptimizeComponent` the whole run. The output
is the wanted one exactly if every length prefix of the input has the shortest form, as long as sizes are below 2^32.

**The canonical-ABI lift and lower code** (`crates/js-component-bindgen/src/function_bindgen.rs`). `Abi` defines
interface types, values and what it means that a memory holds a value, for any layout with room for all parts;
`CanonicalSizes` is the layout of the component model. `JsRepr` gives the JavaScript representation of a value.
`Lifting` and `Lowering` are the emitted code for booleans, numbers, enums, flags, options, results, variants, tuples
and lists, nested in any way. `Taking` says which value a JavaScript value is taken for, and `Refusal` that this decides
what is refused. `Held`, `LiftExact`, `Heaps`, `Stores`, `LowerExact`, `LowerFrames` and `RoundTrips` prove that lifting
with validation succeeds exactly on what a memory holds, up to lists of numbers that leave the memory, that lowering
makes the memory hold the value and writes nothing else in use, for any allocator, and that the two are inverse.
`Verdicts` reads off the bytes what validation finds, `LiftForms` what is lifted, and `LowerForms` what is stored.
`Lengths` and `FullMemory` are about lists whose size in bytes wraps. `HighBlocks` is the exact condition for blocks at
addresses that JavaScript sees as negative, and `Bump` an allocator as it is assumed. `Flags` proves the bit packing,
`CanonLists` and `CanonViews` when the fast forms for lists of numbers agree with the element-wise ones.

**Ordering, compaction and lookup loops** (`transpile_bindgen.rs`, `files.rs`, `names.rs`). `Initializers` is the
deferral of import lowerings, `Slots` the inlining of small core modules with the renumbering of the others, `ImportMap`
the tiered import map with semver selection, `ImportFills` what it answers in terms of the text of keys and mappings,
`ImportWalks` how that depends on the order of a hash table, `Names` the allocator of unique identifiers.

Properties of the code that do not hold on all inputs are stated with the exact condition and an example:

- closures beyond their reach: `Closures.ClosuresFaithful`, `WrappedAddressExample`;
- imports lost by their names: `Linking.Link`, `Wiring.WiringExact`, `ClashExample`;
- prefixes that are not minimal, and lengths from 2^32 on: `ComponentTree.RightExactly`, `PaddedPrefixExample`,
  `CoincidenceExample`, `Leb128.LebExact`, `WrappedLengthExample`;
- lifting without validation: `Verdicts.FastExactly`, `Lifting.FastConfusion`, `ConfusionExample`;
- lists of numbers that leave the memory: `LiftExact.LiftExactly`, `CanonLists.CanonLiftExact`, `ShortenedExample`;
- typed arrays of another view: `CanonViews.ViewsAgreeExactly`, `OtherViewExample`;
- blocks from 2^31 on: `RoundTrips.HighList`, `CanonLists.HighPointer`, `HighPointerExample`;
- lists whose size in bytes wraps: `RoundTrips.LowRight`, `FullMemory.OverwrittenExample`, `NotLiftedExample`;
- keys with overlapping ends, and mappings that start with a character of several bytes: `ImportWalks.PanicsExactly`,
  `ImportMap.WildcardPanics`, `WildcardPanicExample`, `WideExample`;
- results that depend on the walk: `ImportWalks.DeterminedExactly`, `WalkExample`.

Where the code and its comments differ, the model follows the code. `Translation::imports` is documented to return either
the given imports or augmented versions of them; with an import that shares the name of a removed memory, that import is
lost. The comment on the initializer loop speaks of the first module instantiation only; the loop flushes the waiting
lowerings before every one. `resolve_wildcard_mapping` is written to return an optional mapping; when the two ends of a key
overlap in the import, its subtraction underflows.

## Model

| member | source | states |
|---|---|---|
| Core.Augmenter.Run | crates/js-component-bindgen/src/core.rs:231-327 | succeeds exactly on the supported payload lists, and then gives the augmented form of the module they spell out, which `SectionsOf` reads off the payloads |
| Sections.SectionsOf | crates/js-component-bindgen/src/core.rs:235-307 | body j of the encoded module is that of code entry j with its operators translated; types, function types and exports are those of their sections, concatenated in order, and the kept imports come first |
| Sections.SupportedExactly | crates/js-component-bindgen/src/core.rs:277-323 | what is refused, payload by payload: an unsupported section, a component section, a memory operator that is not accepted, an export of a later memory; and two removed memories of one name |
| Sections.KeptFrom | crates/js-component-bindgen/src/core.rs:242-261 | the imports up to the first memory are kept, and of those after it all but the memories, whose names are removed |
| Sections.Augment | crates/js-component-bindgen/src/core.rs:117-135 | the same for a run on a new augmenter |
| Core.Augmenter.AddImport | crates/js-component-bindgen/src/core.rs:242-261 | keeps the fields in step with the imports seen so far; all memories but the first are removed |
| Core.Augmenter.AugmentOp | crates/js-component-bindgen/src/core.rs:329-346 | keeps `augments` and `imports_added` in bijection, with value = `imported_funcs` + position |
| Core.Augmenter.Visit | crates/js-component-bindgen/src/core.rs:464-549 | registers the operation that the second pass will look up; refuses other memory operators |
| Core.Augmenter.Collect | crates/js-component-bindgen/src/core.rs:311-323 | the first pass over all bodies registers each key once, in order of first use |
| Core.Augmenter.Encode | crates/js-component-bindgen/src/core.rs:348-449 | every section of the re-encoded module |
| Core.LookupPresent | crates/js-component-bindgen/src/core.rs:631-697 | the second pass finds every key that the first pass collected, with the index of its import |
| Core.KeyCollected | crates/js-component-bindgen/src/core.rs:464-549 | the first pass collects the key of every operator that the second pass replaces |
| Augmentation.CollectedExactly | crates/js-component-bindgen/src/core.rs:311-346 | the keys registered are exactly the (memory, operation) pairs used in some body |
| Augmentation.KeysDistinct | crates/js-component-bindgen/src/core.rs:329-346 | one import per (memory, operation) pair |
| Augmentation.RemapPartition | crates/js-component-bindgen/src/core.rs:451-457 | index remapping is strictly monotone; its image and the added import indices partition the new index space |
| Augmentation.ExportsMatch | crates/js-component-bindgen/src/core.rs:401-425 | every exported function index names, in the new module, the function it named in the old one |
| Augmentation.InstancesLinked | crates/js-component-bindgen/src/core.rs:348-449 | the augmented module, given the imports that its section asks for, has the functions, types and memories that the simulation needs |
| Augmentation.DuplicatesExact | crates/js-component-bindgen/src/transpile_bindgen.rs:2913-2932 | building the import object panics exactly if two imports share both names |
| Augmentation.CallsAgree | crates/js-component-bindgen/src/core.rs:608-697 | for every module, host, export and arguments, if all replaced accesses are in reach: the augmented module, given the imports that its section asks for, ends a call with the same results, trap and memories as the original, or both run for ever |
| Linking.FoundInOrder | crates/js-component-bindgen/src/transpile_bindgen.rs:2913-2932 | a host that looks every import up by its two names finds the entries of the list in the order of the import section |
| Linking.ClashWrong | crates/js-component-bindgen/src/core.rs:177-183 | with a clash of names a kept import is missing from the import object or bound to a closure, never to its own definition |
| Linking.Link | crates/js-component-bindgen/src/core.rs:154-196 | list, import object and look-up by name together give every import of the augmented module its own definition exactly if no kept import shares its name with a removed memory and the names are free |
| Linking.AugmentAndInstantiate | crates/js-component-bindgen/src/core.rs:117-135 | end to end, from the payloads: under these two conditions, all calls of all exports of the instance that is built end as on the original module |
| Simulation.StepMaps | crates/js-component-bindgen/src/core.rs:631-697 | every step of the original is matched by one or two of the augmented module; out of reach exactly one side traps |
| Simulation.RunMaps | crates/js-component-bindgen/src/core.rs:631-697 | runs of any length lead from matching states to matching states |
| Simulation.FirstUnfitStep | crates/js-component-bindgen/src/core.rs:689-697 | at the first access out of reach the two runs part: one traps and the other does not |
| Simulation.SameOutcomes | crates/js-component-bindgen/src/core.rs:631-697 | same halted outcomes, or neither halts |
| Blocks.SkipToEndCommutes | crates/js-component-bindgen/src/core.rs:631-687 | replacing instructions keeps every branch target where the block structure puts it |
| Blocks.TargetsMap | crates/js-component-bindgen/src/core.rs:631-687 | ends and elses of blocks in the translated body are the images of those in the original |
| Closures.ClosuresFaithful | crates/js-component-bindgen/src/transpile_bindgen.rs:4339-4431 | for every operation, memory and operands in reach, the closure does what the instruction does: width, sign extension, truncation and trap; out of reach exactly one faults |
| Closures.WrappedAddressExample | crates/js-component-bindgen/src/transpile_bindgen.rs:4339-4431 | a pointer in the upper half with a small offset: the instruction traps, the closure reads |
| Closures.NarrowLoads | crates/js-component-bindgen/src/transpile_bindgen.rs:4339-4431 | what narrow loads give, from the two bytes at the address |
| Closures.SignatureAgrees | crates/js-component-bindgen/src/core.rs:551-605 | the declared function type is the instruction's, with the static offset as last parameter |
| Wiring.Imports | crates/js-component-bindgen/src/core.rs:154-196 | the kept imports in order, then one closure per added import on the memory it names; panics exactly if a memory is missing |
| Wiring.ImportObject | crates/js-component-bindgen/src/transpile_bindgen.rs:2913-2932 | the import object binds every name to its own definition, or panics exactly on duplicates |
| Wiring.WiringExact | crates/js-component-bindgen/src/core.rs:154-196 | the list matches the encoded import section entry by entry, entry k on memory k+1, exactly if no kept import shares its name with a removed memory |
| Wiring.ClashExample | crates/js-component-bindgen/src/core.rs:177-183 | a function import with the name of a removed memory is lost |
| Wiring.AugmentNameInjective | crates/js-component-bindgen/src/core.rs:329-346 | the names of added imports are pairwise distinct |
| Wiring.AugmentNameExample | crates/js-component-bindgen/src/core.rs:329-346 | how added imports are called |
| Leb128.ByteLengthLEB128 | packages/jco-transpile/src/common.ts:184-191 | the loop measures the encoding of the number modulo 2^32 |
| Leb128.LebRoundTrip | packages/jco-transpile/src/opt.ts:160-166 | the bytes written for a length decode to it |
| Leb128.LebShortest | packages/jco-transpile/src/common.ts:184-191 | no encoding of a number is shorter than the measured one, and one of the same length is the same |
| Leb128.LebExact | packages/jco-transpile/src/opt.ts:160-166 | the prefix denotes the length exactly if it is below 2^32 |
| Leb128.WrappedLengthExample | packages/jco-transpile/src/opt.ts:160-166 | the prefix of a body of 2^32 bytes says that it is empty |
| Leb128.StalePrefix | packages/jco-transpile/src/opt.ts:156-166 | left-over bytes of a longer prefix spoil the new one, except as padding of zero |
| ComponentTree.RightExactly | packages/jco-transpile/src/opt.ts:143-182 | the optimizer's bytes are the wanted ones exactly if, at every child, what is left of the old prefix and the new one, whose length wraps at 2^32, encode the new length |
| ComponentTree.WorksExactly | packages/jco-transpile/src/opt.ts:156-166 | for a length below 2^32 that is so exactly if the old prefix is minimal, and for a minimal prefix exactly if the length is below 2^32 |
| ComponentTree.RightExactlyWhenMinimal | packages/jco-transpile/src/opt.ts:143-182 | with all sizes below 2^32 the bytes are the wanted ones exactly if all prefixes are minimal; with minimal prefixes, exactly if all rewritten sizes are below 2^32 |
| ComponentTree.CoincidenceExample | packages/jco-transpile/src/opt.ts:156-166 | a padded prefix and a wrapped length that make each other good |
| ComponentTree.RewriteWellFormed | packages/jco-transpile/src/opt.ts:143-182 | the wanted output has right and minimal prefixes at every depth, so it can be optimized again |
| ComponentTree.RewriteParts | packages/jco-transpile/src/opt.ts:143-182 | the wanted output has the same nesting and gaps, and each module, in its place, is the optimized one |
| ComponentTree.PaddedPrefixExample | packages/jco-transpile/src/opt.ts:156-158 | a padded prefix leaves a stale byte in the output |
| Metadata.MetadataShow | crates/wasm-tools-component/src/lib.rs:312-369 | the queue loop lists each node of the tree once, children together and in order, each with the index of its parent |
| Metadata.ParentSmaller | crates/wasm-tools-component/src/lib.rs:312-369 | every entry but the first has a parent with a smaller index, and is one of its children |
| Metadata.ParentExactly | crates/wasm-tools-component/src/lib.rs:312-369 | the entries that name a parent are exactly its child range |
| Metadata.RebuildInverse | crates/wasm-tools-component/src/lib.rs:312-369 | reading the flat list back gives the tree that was flattened |
| Optimize.Rewriter.GetChildren | packages/jco-transpile/src/opt.ts:90-128 | the recursion over the spliced list takes out exactly the descendants, gives each node its children in order, and accounts for every one |
| Optimize.Rewriter.AccountChild | packages/jco-transpile/src/opt.ts:96-124 | size change and new prefix width of a node and of all below it, nothing else touched |
| Optimize.Rewriter.FoldChildren | packages/jco-transpile/src/opt.ts:106-118 | skipping children without change does not change the sum of changes, prefix widths included |
| Optimize.SpliceAndRecurse | packages/jco-transpile/src/opt.ts:92-104 | removing a child and then its descendants leaves the scanned part of the list in place and misses no sibling |
| Descent.SizeAccounting | packages/jco-transpile/src/opt.ts:104-141 | at every depth the fold equals new minus old body length, counting the width changes of nested prefixes |
| Write.Writer.Write | packages/jco-transpile/src/opt.ts:147-182 | what is written, with the bytes not yet read up to the end of the node, is the gap, the new prefix and the rewritten body |
| Write.Writer.WriteChildren | packages/jco-transpile/src/opt.ts:171-174 | the same for all children of a node, though trailing bytes are left to a later call |
| Write.Writer.WriteRest | packages/jco-transpile/src/opt.ts:184-188 | the remaining input fills the output to its last byte |
| OptimizeComponent.TotalChange | packages/jco-transpile/src/opt.ts:130-141 | the top-level total is output length minus input length |
| OptimizeComponent.RunOptimizeComponent | packages/jco-transpile/src/opt.ts:42-189 | the allocated array holds exactly the rewritten component, wrapped prefixes included; when it is the wanted one, in the three forms above |
| JsRepr.UndefinedExactly | crates/js-component-bindgen/src/function_bindgen.rs:3527-3562 | a representation is undefined exactly if its type may be null and the value is none, through aliases and nesting |
| JsRepr.ToJsInjective | crates/js-component-bindgen/src/function_bindgen.rs:3527-3562 | different values of a type have different representations: tagged and untagged options are never confused |
| CanonicalSizes.CanonicalGood | crates/js-component-bindgen/src/function_bindgen.rs:1384-1421 | the layout that `sizes` provides: for every type, parts have room and do not overlap |
| CanonicalSizes.PartsAligned | crates/js-component-bindgen/src/function_bindgen.rs:1384-1421 | at an aligned address, every payload and field of every type stands at an address aligned for it |
| CanonicalSizes.NoWaste | crates/js-component-bindgen/src/function_bindgen.rs:1384-1421 | before every part, and at the end, there is no more padding than an alignment needs |
| CanonicalSizes.AlignLeast | crates/js-component-bindgen/src/function_bindgen.rs:1384-1421 | no alignment is larger than that of some part or the discriminant |
| CanonicalSizes.ScalarSizes | crates/js-component-bindgen/src/function_bindgen.rs:1384-1421 | scalars and lists have the sizes and alignments of the canonical ABI |
| CanonicalSizes.SizeAligned | crates/js-component-bindgen/src/function_bindgen.rs:1384-1421 | sizes are multiples of the alignment, so elements of lists stay aligned |
| Abi.DiscSizeLeast | crates/js-component-bindgen/src/function_bindgen.rs:821-974 | discriminants are as wide as the number of cases needs, and no wider |
| Abi.FlagsSizeLeast | crates/js-component-bindgen/src/function_bindgen.rs:742-817 | flags take one byte, two bytes, or as few words of four bytes as hold them |
| Abi.HoldsKept | crates/js-component-bindgen/src/function_bindgen.rs:323-354 | a held value stays held as long as its own addresses are left alone |
| Flags.FlagsRoundTrip | crates/js-component-bindgen/src/function_bindgen.rs:742-817 | for any number of flags, lifting what was lowered gives the same flags |
| Flags.ExtraneousExact | crates/js-component-bindgen/src/function_bindgen.rs:790-802 | the extraneous-bits check accepts exactly the word vectors that flags are lowered to |
| Held.PackedWords | crates/js-component-bindgen/src/function_bindgen.rs:742-787 | the lowered words, in memory, are the little-endian bytes of the packed flags |
| Held.GetExact | crates/js-component-bindgen/src/function_bindgen.rs:323-343 | a load returns a number exactly if its little-endian bytes are there |
| Lifting.ListLift | crates/js-component-bindgen/src/function_bindgen.rs:1423-1441 | the emitted loop lifts each element at its own address, and stops at the first throw |
| Lifting.FastRefines | crates/js-component-bindgen/src/function_bindgen.rs:1000-1144 | by induction over all types: code without validation never throws a TypeError and otherwise does what validating code does |
| Lifting.FastExact | crates/js-component-bindgen/src/function_bindgen.rs:672-1221 | the two agree exactly if validating code throws no TypeError |
| Verdicts.LiftVerdict | crates/js-component-bindgen/src/function_bindgen.rs:672-1441 | for every type and memory, validating code succeeds, throws a TypeError or a RangeError exactly as the bytes say: a truth value above 1, a discriminant out of range, a digit beyond the flags, or bytes that are not there, whichever comes first |
| Verdicts.FastExactly | crates/js-component-bindgen/src/function_bindgen.rs:672-1221 | the two agree exactly if no such byte comes before the memory is left; without validation there is never a TypeError |
| Lifting.FastConfusion | crates/js-component-bindgen/src/function_bindgen.rs:979-1034 | without validation, an invalid enum inside some is taken for none |
| Lifting.ConfusionExample | crates/js-component-bindgen/src/function_bindgen.rs:979-1034 | two bytes of memory that are refused with validation, and lifted as none without |
| LiftForms.BoolForm | crates/js-component-bindgen/src/function_bindgen.rs:672-684 | a byte is lifted as a truth value; without validation every byte but 0 is true |
| LiftForms.NumForm | crates/js-component-bindgen/src/function_bindgen.rs:589-605 | bytes are lifted as two's complement or unsigned numbers, as bigints for 64 bits |
| LiftForms.FlagsForm | crates/js-component-bindgen/src/function_bindgen.rs:788-817 | flag i is digit i of the bytes |
| LiftForms.ArmForm | crates/js-component-bindgen/src/function_bindgen.rs:869-1221 | a discriminant in range selects its name or tag and lifts the payload from its place; without validation, any other one is undefined, or case 1 of an option or a result |
| LiftForms.TupleForm | crates/js-component-bindgen/src/function_bindgen.rs:736-740 | a tuple is the array of its fields, in order |
| LiftForms.ListForm | crates/js-component-bindgen/src/function_bindgen.rs:1297-1441 | a list of numbers is a typed array of its bytes, any other list the array of its elements |
| LiftExact.LiftRight | crates/js-component-bindgen/src/function_bindgen.rs:672-1441 | with and without validation, what a memory holds is lifted to its representation |
| LiftExact.LiftedHolds | crates/js-component-bindgen/src/function_bindgen.rs:672-1441 | whatever is lifted with validation is held by the memory, if lists of numbers lie inside it |
| LiftExact.HeldInside | crates/js-component-bindgen/src/function_bindgen.rs:1297-1309 | when a memory holds a value, all lists of numbers that lifting reaches lie inside it |
| LiftExact.LiftExactly | crates/js-component-bindgen/src/function_bindgen.rs:672-1441 | for every type and memory: a value is held exactly if validated lifting succeeds and the lists of numbers it reaches lie inside the memory |
| Lowering.ListLower | crates/js-component-bindgen/src/function_bindgen.rs:1384-1421 | the emitted loop lowers each element at its own address, and stops at the first throw |
| Lowering.ListCanonLower | crates/js-component-bindgen/src/function_bindgen.rs:1267-1283 | the emitted loop checks and stores each number at its own address |
| LiftForms.NumericLists | crates/js-component-bindgen/src/function_bindgen.rs:1297-1309 | the lists with typed arrays are those of the ten numeric types, each with its own kind of array |
| Taking.ToJsTaken | crates/js-component-bindgen/src/function_bindgen.rs:694-1421 | what a JavaScript value is taken for, at any type: the representation of a value is taken for that value |
| Taking.TakenTyped | crates/js-component-bindgen/src/function_bindgen.rs:694-1421 | whatever is taken for a value is a value of the type |
| LowerForms.BoolStored | crates/js-component-bindgen/src/function_bindgen.rs:685-687 | every JavaScript value is lowered to a truth value: 0 exactly for undefined, null, false, zero and the empty string |
| LowerForms.NumStoredAs | crates/js-component-bindgen/src/function_bindgen.rs:607-653 | a number is stored modulo the span of its width, and a TypeError is for other primitives only |
| LowerForms.FlagBytes | crates/js-component-bindgen/src/function_bindgen.rs:742-787 | digit i of the stored bytes is set exactly if the object sets flag i: missing flags, further properties and other objects set none |
| LowerForms.FlagsRefused | crates/js-component-bindgen/src/function_bindgen.rs:774-780 | flags are refused exactly for truth values, other primitives and strings |
| LowerForms.TupleItems | crates/js-component-bindgen/src/function_bindgen.rs:719-734 | an array that is too short is lowered as if filled up with undefined, and what is too many is ignored |
| LowerForms.SlotForm | crates/js-component-bindgen/src/function_bindgen.rs:1234-1421 | the pointer is stored before the length and is aligned for the elements; the length of a typed array for a list of bytes is its length in bytes |
| Refusal.LoweredTaken | crates/js-component-bindgen/src/function_bindgen.rs:694-1421 | whatever is lowered is taken for a value, for every memory, address and allocator |
| Refusal.NeverTypeError | crates/js-component-bindgen/src/function_bindgen.rs:694-1421 | what is taken for a value is never refused with a TypeError |
| LowerExact.TakenLowered | crates/js-component-bindgen/src/function_bindgen.rs:694-1421 | for every type, JavaScript value with lists whose sizes in bytes are 32-bit numbers, and allocator: the memory then holds the value that was taken, and only its own place and newly allocated blocks are written; it fails only by a trap of the allocator, or if that hands out a block from 2^31 on |
| LowerFrames.LowerFrame | crates/js-component-bindgen/src/function_bindgen.rs:694-1421 | whether lowering succeeds, throws midway or refuses a part, for any JavaScript value with such lists: of the bytes in use, only those of its own place have changed |
| Lengths.LoweredInside | crates/js-component-bindgen/src/function_bindgen.rs:694-1421 | whatever takes room and is lowered starts inside the memory |
| Lengths.LoweredShort | crates/js-component-bindgen/src/function_bindgen.rs:1256-1400 | the code multiplies sizes without a check; still, whatever is lowered has only lists whose sizes in bytes are 32-bit numbers, unless the memory is then within an element of 4 GiB |
| RoundTrips.LowerRight | crates/js-component-bindgen/src/function_bindgen.rs:694-1421 | for every type, JavaScript value, memory and allocator: success means that a value was taken, and that the memory holds it with only its place and new blocks written, unless a list is too long and the memory within an element of 4 GiB; a failure is a trap, a refusal, a block from 2^31 on or a list that is too long |
| RoundTrips.LowRight | crates/js-component-bindgen/src/function_bindgen.rs:694-1421 | with blocks below 2^31, and the memory not within an element of 4 GiB: unless the allocator traps, lowering succeeds exactly on what is taken for a value with short lists |
| HighBlocks.NegativeFails | crates/js-component-bindgen/src/function_bindgen.rs:694-1421 | for every type whose values take room, nothing is lowered to an address that JavaScript sees as negative |
| HighBlocks.HighElements | crates/js-component-bindgen/src/function_bindgen.rs:1384-1421 | the loop over a block from 2^31 on succeeds exactly if there are no items, or all are taken for values that take no room |
| RoundTrips.HighList | crates/js-component-bindgen/src/function_bindgen.rs:1256-1421 | a list of any element type whose block starts at 2^31 or above is lowered exactly in these cases, and not as a typed array of numbers |
| Bump.BumpGood | crates/js-component-bindgen/src/function_bindgen.rs:1384-1400 | the assumptions on the guest's allocator are met by one that serves every request within its limit |
| Bump.HighBlock | crates/js-component-bindgen/src/function_bindgen.rs:1384-1400 | among those assumed is one that hands out a block from 2^31 on |
| RoundTrips.ElementsHeld | crates/js-component-bindgen/src/function_bindgen.rs:1384-1421 | after the loop the block holds all elements, of any type, nested lists included, and nothing else in use is written, unless the memory is within an element of 4 GiB |
| RoundTrips.ElementInOwnSlot | crates/js-component-bindgen/src/function_bindgen.rs:1384-1421 | each round writes only the slot of its own element and new blocks, and leaves the element there, with the same exception |
| Taking.ChooseRight | crates/js-component-bindgen/src/function_bindgen.rs:821-974 | the representation of a value selects its case and hands over its payload |
| Refusal.RefusedExactly | crates/js-component-bindgen/src/function_bindgen.rs:858-1187 | no case is selected exactly if the value has none of the type's tags or case names |
| Refusal.ChosenExactly | crates/js-component-bindgen/src/function_bindgen.rs:821-1187 | which case a JavaScript value selects and what is lowered for its payload, for every type with cases |
| Refusal.NullLikeUndefined | crates/js-component-bindgen/src/function_bindgen.rs:957-967 | null is lowered as undefined is, for every type |
| RoundTrips.RoundTrip | crates/js-component-bindgen/src/function_bindgen.rs:672-1441 | for every type, JavaScript value, memory and allocator: lifting what was lowered gives the representation of the value that was taken, with and without validation, unless a list is too long and the memory within an element of 4 GiB |
| RoundTrips.SameAgain | crates/js-component-bindgen/src/function_bindgen.rs:672-1441 | a representation is lifted again as it was, with the same exception |
| FullMemory.OverwrittenExample | crates/js-component-bindgen/src/function_bindgen.rs:1384-1421 | the exception: for 2^31 elements of two bytes in a memory of 4 GiB, the allocator is asked for no bytes, and lowering succeeds and overwrites a byte in use |
| FullMemory.NotLiftedExample | crates/js-component-bindgen/src/function_bindgen.rs:1384-1441 | what was lowered there cannot be lifted |
| CanonLists.CanonLowerAgrees | crates/js-component-bindgen/src/function_bindgen.rs:1234-1295 | for a typed array of the list's own element type, copying it, storing the same numbers from a regular array and lowering element by element leave the same bytes |
| CanonViews.ViewsAgreeExactly | crates/js-component-bindgen/src/function_bindgen.rs:1234-1295 | for a typed array of any view: the copy takes it for the list of its elements exactly if it is empty, or both are refused, or the lengths agree and the bytes in the list's width are those of the same numbers |
| CanonViews.SameWidthAgrees | crates/js-component-bindgen/src/function_bindgen.rs:1234-1295 | so it is for every view of the same width and kind, signed or not |
| CanonViews.OtherViewExample | crates/js-component-bindgen/src/function_bindgen.rs:1234-1295 | bytes given for a list of 16-bit numbers are taken for other numbers |
| CanonLists.CanonLiftExact | crates/js-component-bindgen/src/function_bindgen.rs:1297-1309 | the typed array has the elements loaded one by one exactly if the list is empty or inside the memory, or both throw |
| CanonLists.ShortenedExample | crates/js-component-bindgen/src/function_bindgen.rs:1301-1306 | a list that leaves the memory is shortened without an error |
| CanonLists.HighPointer | crates/js-component-bindgen/src/function_bindgen.rs:1256-1288 | at an address from 2^31 on, only an empty regular array can be lowered |
| CanonLists.HighPointerExample | crates/js-component-bindgen/src/function_bindgen.rs:1256-1288 | even an empty typed array is refused there |
| Slots.CompileCores | crates/js-component-bindgen/src/transpile_bindgen.rs:434-468 | every reference denotes its own module's bytes; it is inlined exactly below the cutoff, and never if there is a loader callback; the files left are the modules not inlined, in the first slots and in order; no file is appended to |
| Slots.CompileCore | crates/js-component-bindgen/src/transpile_bindgen.rs:436-468 | the free slots are exactly those from the number of kept modules up to the current one, and the assertions hold |
| Slots.KeptExactly | crates/js-component-bindgen/src/transpile_bindgen.rs:445-467 | the kept modules are those with at least as many bytes as the cutoff, each once, in their order |
| Slots.CoreFileNameInjective | crates/js-component-bindgen/src/transpile_bindgen.rs:5190-5197 | different modules have different file names |
| Slots.CoreFileNames | crates/js-component-bindgen/src/transpile_bindgen.rs:5190-5197 | the first file has no number in its name, and file i has i + 1 |
| Slots.Files.Push | crates/js-component-bindgen/src/files.rs:9-18 | a second push under one name appends |
| Initializers.Process | crates/js-component-bindgen/src/transpile_bindgen.rs:993-1023 | the loops process the initializers in the deferred order |
| Initializers.KeepsOrder | crates/js-component-bindgen/src/transpile_bindgen.rs:993-1023 | each initializer is processed exactly once; lowerings, and all others, keep their order |
| Initializers.InstantiationSees | crates/js-component-bindgen/src/transpile_bindgen.rs:997-1004 | the initializers processed before a module instantiation are exactly those before it in the input |
| Initializers.LoweringsLate | crates/js-component-bindgen/src/transpile_bindgen.rs:1006-1012 | a lowering is processed no earlier than needed |
| ImportMap.MapImport | crates/js-component-bindgen/src/transpile_bindgen.rs:5081-5167 | the loops give the first tier that is not empty, for any order in which the hash table is walked |
| ImportMap.ParseExact | crates/js-component-bindgen/src/transpile_bindgen.rs:5028-5038 | the parts are those around the first hash after the first character, and determine the mapping; it panics exactly if the mapping starts with a character of several bytes |
| ImportMap.WildcardExact | crates/js-component-bindgen/src/transpile_bindgen.rs:5040-5052 | an import matches exactly if it is the key with its star replaced, and the mapping is filled in the same way |
| ImportFills.WildcardFills | crates/js-component-bindgen/src/transpile_bindgen.rs:5040-5052 | what the star of the key stands for in the import is put in the place of the star of the mapping; a mapping without a star stays as it is |
| ImportFills.ReplaceParts | crates/js-component-bindgen/src/transpile_bindgen.rs:5051 | of several stars, each is replaced, and nothing else |
| ImportFills.ExactFirst | crates/js-component-bindgen/src/transpile_bindgen.rs:5081-5095 | an entry for the import comes before one for the import without its version, and both before all others |
| ImportFills.VersionedFilled | crates/js-component-bindgen/src/transpile_bindgen.rs:5097-5106 | with one matching wildcard that has a version, the import with its version is mapped by filling it in |
| ImportFills.WildcardFilled | crates/js-component-bindgen/src/transpile_bindgen.rs:5108-5116 | with one matching wildcard without a version, so is the import without its version |
| ImportFills.SemverEntry | crates/js-component-bindgen/src/transpile_bindgen.rs:5118-5161 | an entry for another version of the import counts exactly if the two versions are compatible releases |
| ImportFills.OtherEntry | crates/js-component-bindgen/src/transpile_bindgen.rs:5118-5161 | an entry for another import never counts |
| ImportFills.SemverWildcard | crates/js-component-bindgen/src/transpile_bindgen.rs:5137-5149 | a wildcard with another version is filled in exactly if the two versions are compatible releases |
| ImportFills.PackageEntry | crates/js-component-bindgen/src/transpile_bindgen.rs:5028-5116 | one entry maps each interface of a package to the member of that name |
| ImportFills.ShimExample | crates/js-component-bindgen/src/transpile_bindgen.rs:5028-5116 | an interface of a package with a default shim |
| ImportMap.WildcardPanics | crates/js-component-bindgen/src/transpile_bindgen.rs:5049-5050 | the lengths underflow exactly if both ends of the key are found but overlap |
| ImportMap.WildcardPanicExample | crates/js-component-bindgen/src/transpile_bindgen.rs:5049-5050 | such a key and import |
| ImportMap.CompatKeyExact | crates/js-component-bindgen/src/transpile_bindgen.rs:5015-5026 | rendered compatibility keys are equal exactly for compatible released versions |
| ImportWalks.BestIs | crates/js-component-bindgen/src/transpile_bindgen.rs:5118-5158 | the semver loop selects the greatest compatible version |
| ImportWalks.LookupPossible | crates/js-component-bindgen/src/transpile_bindgen.rs:5081-5167 | whatever the walk, the result is one that the map and the import alone allow |
| ImportWalks.PossibleReached | crates/js-component-bindgen/src/transpile_bindgen.rs:5081-5167 | every allowed result is reached by some walk |
| ImportWalks.DeterminedExactly | crates/js-component-bindgen/src/transpile_bindgen.rs:5081-5167 | the result does not depend on the walk exactly if the deciding keys agree: all keys of the first wildcard tier with a match resolve alike, or all keys of greatest compatible version give one target or panic |
| ImportWalks.WalkExample | crates/js-component-bindgen/src/transpile_bindgen.rs:5097-5116 | with the keys `a:*` and `*:b`, the import `a:b` is mapped by whichever is walked first |
| ImportWalks.PanicsExactly | crates/js-component-bindgen/src/transpile_bindgen.rs:5028-5167 | some walk panics exactly if, in the first tier that is not empty, a key has two ends that overlap in the import, or a mapping that may be chosen, filled in, starts with a character of several bytes |
| ImportWalks.WideExample | crates/js-component-bindgen/src/transpile_bindgen.rs:5028-5031 | an exact entry with such a mapping panics |
| VersionOrder.VersionsOrdered | crates/js-component-bindgen/src/transpile_bindgen.rs:5118-5158 | what is assumed of the order of versions is met by an order on versions, with any parser |
| ImportWalks.UnambiguousDetermined | crates/js-component-bindgen/src/transpile_bindgen.rs:5081-5167 | so it is with at most one match per wildcard tier and distinct compatible versions |
| Names.ToJsIdentifier | crates/js-component-bindgen/src/names.rs:81-110 | the result is a valid identifier and the panic is not reached, whatever the camel-casing does |
| Names.NamedForm | crates/js-component-bindgen/src/names.rs:81-110 | a valid identifier stays as it is; of any other name, camel-cased, a dot becomes an underscore and every other character that cannot stand there a dollar, behind an underscore if need be |
| Names.ShapedExamples | crates/js-component-bindgen/src/names.rs:112-140 | which characters may stand in an identifier, at the start and later |
| Names.LocalNames.ExcludeGlobals | crates/js-component-bindgen/src/names.rs:16-20 | the globals are taken; the names handed out stay pairwise distinct |
| Names.LocalNames.CreateOnce | crates/js-component-bindgen/src/names.rs:23-44 | a valid identifier that was neither excluded nor handed out before: the first free form of what follows the last slash, and that itself if it is a free identifier |
| Names.LastParts | crates/js-component-bindgen/src/names.rs:24-28 | the part that names are made from is what follows the last slash, or everything |
| Names.FirstFreeForm | crates/js-component-bindgen/src/names.rs:30-41 | a suffixed form is the name, a dollar and the least number from 1 on that is free |
| Names.LocalNames.FreeSuffix | crates/js-component-bindgen/src/names.rs:30-41 | the search over suffixes ends, at the first free one |
| Names.LocalNames.GetOrCreate | crates/js-component-bindgen/src/names.rs:65-77 | a repeated id gets its first name, a new one a fresh name made from the goal |
| Names.Run | crates/js-component-bindgen/src/names.rs:14-78 | over every sequence of calls, two answers are equal exactly if they are for the same id, and names, created or obtained by id, avoid all globals excluded before they were first made |

## Left out

- Simulation.StepMaps: float arithmetic, tables, globals and other operators without a memory are one abstract step of the operand stack, the locals and the host's state; they are not translated.
- Core.Augmenter.Run: the binary format, its validation and the sections that the augmenter refuses are not modelled; a module is a list of payloads.
- Core.Augmenter.Visit: memory operators that the collector does not accept are one operator that is refused.
- Closures.ClosuresFaithful: `memory.grow` and bulk memory operations are refused by the augmenter; floats are words of their bits, and NaN bits are taken to pass through `DataView` unchanged.
- OptimizeComponent.RunOptimizeComponent: running `wasm-opt` is an arbitrary function on bytes; temporary files, the compression figures and the final parse of the output are not modelled. The parser is taken to report the true ranges, with input sizes below 2^32; arrays may be of any size.
- MetadataShow: names and producers fields are not modelled.
- Lift: strings, characters, records, resources, handles, streams, futures, error contexts and maps are not modelled; a record behaves as a tuple with named fields. Values passed on the stack instead of in memory are not modelled.
- Refusal.LoweredTaken: speaks of the values that the model takes. The code also takes values that JavaScript coerces, or whose missing `length` counts as none: a truth value for a number, a number for a list. The model refuses them, and strings and array-like objects other than arrays and typed arrays in the place of arrays; the `strict` option is off.
- RoundTrips.LowRight: "exactly" is about the same values.
- Lowering.ListCanonLower: typed arrays are little-endian, as on the hosts that jco supports; the source notes this.
- RoundTrips.RoundTrip: arrays have fewer than 2^32 elements, as in JavaScript. A trap of the allocator leaves the heap as it was before the call.
- CanonViews.ViewsAgreeExactly: floats are not converted between widths.
- LowerForms.BoolStored: a float is taken for true unless all its bits are 0; negative zero and NaN, which are false, are not told apart.
- JsRepr.ToJsInjective: flags are an ordered list of truth values, their property names are not modelled; float bits are opaque.
- Names.LocalNames: ids stand for their hashes, so hash collisions are not modelled; the table of reserved words is any set without words that contain `$` or start with `_`.
- Slots.CompileCores: base64 is taken to be the identity on the data; the text of the references is not modelled.
- ImportMap.MapImport: the syntax and the order of versions are those of the semver library, given as functions; `map_import_with_implements` is a second lookup and is not modelled.
- Asynchronous functions and tasks, TypeScript declarations, the rendering of JavaScript text, the command line and the WASI shims are not modelled.
