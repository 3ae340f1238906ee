# Sobek: models of its hard parts

Sobek is a JavaScript engine written in Go. This project models the parts of it where a fast,
mutable form has to agree with a simple meaning, each in a module of its own, and proves that it
does, or exactly when it does. `dafny verify dfyconfig.toml` checks everything.

Code that updates things step by step is modelled by classes and methods with loops, proved against
a function or a relation that gives the meaning; the theorems are lemmas about that meaning.

| files | what they model |
|---|---|
| `TypedArrayCopy` | `TypedArray.prototype.set` and `slice` between overlapping windows of one buffer |
| `OrderedLog`, `OrderedLinks`, `OrderedMap` | the insertion-ordered hash map behind `Map` and `Set`, and its iterators that survive removals |
| `ExprCompiler` | the compilation of expressions: constant folding, short-circuit jumps, what is left on the stack |
| `Scopes`, `SlotAllocation`, `InnermostScopes`, `FrameLayout` | name lookup and closure capture; stack slots, stashes and levels, and what operands mean in a frame |
| `Promises` | the right to settle a promise, reactions and the rejection tracker, over all runs |
| `Base64`, `Base64Texts` | the decoder with its fast paths and its limit on the output, and the texts it accepts |
| `ExportResolution`, `ModuleLinking` | `ResolveExport` on cyclic export graphs, and linking |
| `ArrayModel`, `ArrayObjects`, `Splice` | the two representations of arrays, which change into each other in mid-operation, and `splice` |
| `IteratorZip` | `Iterator.zip`: the rows, and the closing of iterators |
| `Float16` | half-precision rounding |
| `Hex`, `EscapeCodec`, `Utf`, `UriCodec` | `escape`, `unescape` and the URI functions |

## What the proofs found

Some properties do not hold of the code. Each is modelled as it is, with an input that shows the
failure and the exact condition under which the property holds.

- `arguments` in an arrow function. A reference from inside a function moves the binding it finds to
  a stash, but a reference to `arguments` that has to create the binding in the function around the
  arrow does not (compiler.go:520-526). `Scopes.ArgumentsOfArrow` is the program
  `function f() { (() => arguments)() }`; `Scopes.ReferenceCapturesIff` says that this is the only
  way for a captured binding to be left on the stack. In all other programs every reference is
  compiled to an operand that leads to its binding (`SlotAllocation.CompiledReferencesFindBindings`).
- `delete` of something that is not a reference. The operand is not compiled (compiler_expr.go:326-331),
  so `delete (f(), 1)` does not call `f` (`ExprCompiler.DeleteLosesACall`). `ExprCompiler.DeleteIsCorrectIff`:
  the code of `delete x` is right in every world, whatever calls do, if and only if `x` is a call, or
  comes to no call and does not throw, which can be told without running anything.
- Folded exceptions. A constant expression that throws becomes code that looks up the name of the
  error constructor at run time (compiler_expr.go:2423-2442), so rebinding `TypeError` is visible
  (`ExprCompiler.ReboundErrorIsVisible`). `ExprCompiler.CompiledCodeEvaluatesIff`: compiled code does
  what evaluation does if and only if each folded exception that evaluation comes to is made anew as it
  was in the world it is reached in; programs without folded exceptions are always right
  (`ExprCompiler.CalmIsIntact`).
- `splice` on a restricted array. The fast path does not ask whether the array may take new elements
  or a new length; it agrees with the generic loops if and only if the array does not grow, or may do
  both and the length is not too large (`Splice.FastIsGenericIff`, `Splice.NonExtensibleGrowth`). With
  a fixed length it leaves elements beyond the length.
- `splice` on an array with holes. Shortening an array does not lower its element counter, so that an
  array with a hole can pass for one without (`Splice.FastPathWithHole`), and the fast path then
  returns `undefined` in place of the hole (`Splice.TakenAlikeIff`).
- The same counter is reduced to 32 bits and divided by (array.go:364). After 2^32 additions with
  shortenings in between, an assignment divides by zero: `ArrayObjects.CountsAround` makes such an
  array, and `ArrayObjects.Object.SetOwnIdx` says exactly when it happens.
- Linking lowers the ancestor index of the module required, not of the one requiring it
  (modules.go:104-110). As `ModuleLinking.LinkState.LowerAncestor` shows, it never changes, so each
  module leaves the stack alone; all that linking promises holds nevertheless.

## Model

| member | source | states |
|---|---|---|
| TypedArrayCopy.Set | builtin_typedarrays.go:1045-1109 | which error is reported and when, with nothing stored; else every element of the source as it was, converted, is at its place from the target offset on, and no other byte is touched, for any windows, sizes, overlap and conversion |
| TypedArrayCopy.SetPlanStores | builtin_typedarrays.go:1056-1072 | copying aside, converting and storing in order puts element i at target offset + i and leaves all other bytes |
| TypedArrayCopy.CopyPivoted | builtin_typedarrays.go:1084-1105 | the two loops in opposite directions from the pivot give the snapshot result |
| TypedArrayCopy.CopySameSize | builtin_typedarrays.go:1074-1083 | so does one loop in the direction chosen by comparing addresses |
| TypedArrayCopy.MoveBytes | builtin_typedarrays.go:1059-1061 | so does one move of bytes, for elements of the same kind |
| TypedArrayCopy.PivotShrinking | builtin_typedarrays.go:1085-1090 | with smaller target elements, which elements lie before and after their sources, by the pivot |
| TypedArrayCopy.PivotGrowing | builtin_typedarrays.go:1085-1090 | the same with larger target elements |
| TypedArrayCopy.ShrinkingSafe | builtin_typedarrays.go:1091-1097 | no store of either loop touches a source element still to be read |
| TypedArrayCopy.GrowingSafe | builtin_typedarrays.go:1098-1104 | the same with larger target elements |
| TypedArrayCopy.SameSizeUpSafe | builtin_typedarrays.go:1075-1078 | copying upwards is safe when the target does not start inside the source |
| TypedArrayCopy.SameSizeDownSafe | builtin_typedarrays.go:1079-1082 | copying downwards is safe when it does |
| TypedArrayCopy.StoreKeepsProgress | builtin_typedarrays.go:1091-1104 | a safe store keeps all unread source elements and all stored ones |
| TypedArrayCopy.DeterminedByElements | builtin_typedarrays.go:1053-1105 | the elements and the bytes outside the window determine the buffer |
| TypedArrayCopy.AddressDifference | builtin_typedarrays.go:1069-1085 | the difference of addresses modulo 2^64, as a signed number, is that of the offsets |
| TypedArrayCopy.SliceWithinBuffer | builtin_typedarrays.go:1146-1160 | the overlap branch of `slice` gives what copying bytes one after the other upwards gives |
| OrderedMap.Map.Lookup | map.go:46-54 | finds the entry of the one live slot with the key, the two zeroes taken as one, if there is one, and its predecessor in the hash chain |
| OrderedMap.Map.Insert | map.go:26-44 | chains, list and size describe the log with one more slot |
| OrderedMap.Map.Set | map.go:56-63 | the slot of the key gets the value and keeps its key, all others stay; without one there is a new slot at the end, with the key itself, or 0 for -0 |
| OrderedMap.Map.Get | map.go:65-72 | the value of the live slot with that key; none exactly if there is no such slot |
| OrderedMap.Map.GetOrInsert | map.go:74-81 | the value of the slot with that key, and nothing changed; without one, the new slot |
| OrderedMap.Map.Remove | map.go:83-117 | exactly the slot of the key is emptied, and whether there was one; relinks the chain and the list, and keeps the entry's way back |
| OrderedMap.Map.Has | map.go:119-122 | whether there is a live slot with that key |
| OrderedMap.Map.Clear | map.go:170-182 | all slots emptied, every entry with a way back |
| OrderedMap.Iter.Next | map.go:124-149 | the next live slot after the iterator's position, walking back through removed entries first |
| OrderedMap.Iter.Survives | map.go:83-117 | an iterator stays valid while the map changes in any way |
| OrderedLinks.LinkInOk | map.go:36-43 | adding at the end keeps the list links in order |
| OrderedLinks.ChainInOk | map.go:31-35 | adding at the end of a hash chain keeps the chains |
| OrderedLinks.UnlinkOk | map.go:89-99 | after unlinking, the links skip the entry, and everything between a removed entry and its back link is dead |
| OrderedLinks.UnchainOk | map.go:101-110 | after unchaining, each chain has the live entries of its hash |
| OrderedLinks.SuccIsNextLive | map.go:124-149 | the list successor of a live entry is the next live slot |
| OrderedLog.PutIsAssoc | map.go:56-63 | `set` replaces the value of the pair with that key, in place, or adds a pair at the end of an association list, with 0 for -0 |
| OrderedLog.RemoveIsAssoc | map.go:83-117 | `remove` takes the pair with that key, and no other, out of the association list |
| OrderedLog.RemoveForgets | map.go:83-117 | afterwards the key is not found |
| OrderedLog.GetAfterPut | map.go:26-72 | after `set` a key is found with the new value if it is the same, the two zeroes taken as one, and else exactly as before |
| OrderedLog.GetAfterRemove | map.go:46-117 | after `remove` such keys are gone and all others are found as before |
| OrderedLog.ValueOfTells | map.go:46-72 | what is found under a key is the value of the one live slot with that key |
| OrderedLog.PutTells | map.go:26-63 | `set` slot by slot |
| OrderedLog.RemoveTells | map.go:83-117 | `remove` slot by slot |
| OrderedLog.ClearIsAssoc | map.go:170-182 | `clear` leaves the empty list |
| OrderedLog.AssocFindAt | map.go:46-54 | a key is found in the log where it is in the association list |
| OrderedLog.StepOk | map.go:83-182 | every operation keeps the iterator invariant |
| OrderedLog.IterationIsSound | map.go:124-149 | in every run, an iterator yields live entries, in insertion order, none twice, and when it ends every live entry has been yielded |
| OrderedLog.SurvivorsAreYielded | map.go:124-149 | whatever stays in the map to the end has been yielded |
| ExprCompiler.CodeOk | compiler_expr.go:3320-3326 | anywhere in a program and in every world, the code of an expression leaves its value, or nothing, on the stack, or throws, as evaluation does but that folded exceptions are made anew |
| ExprCompiler.GetterOk | compiler_expr.go:2444-2779 | the same of code emitted without folding the whole |
| ExprCompiler.ConstOk | compiler_expr.go:2455-2488 | folding a constant expression gives its value or exception in every state, without effects |
| ExprCompiler.ConstPure | compiler_expr.go:2490-2719 | an expression the compiler takes for constant has the same outcome in every state and changes none |
| ExprCompiler.ThrowCodeOk | compiler_expr.go:2423-2442 | the code for a folded exception throws what looking its constructor up by name and calling it gives, with a message and without |
| ExprCompiler.CompiledCodeRuns | compiler_expr.go:3320-3326 | what whole programs do, folded and unfolded, on every machine and in every world |
| ExprCompiler.CompiledCodeEvaluatesIff | compiler_expr.go:2423-2453 | they do what evaluation does if and only if every folded exception that evaluation comes to is made anew as it was in the world it is reached in |
| ExprCompiler.CalmIsIntact | compiler_expr.go:2444-2453 | which is so in every world if no constant subexpression throws |
| ExprCompiler.CoalesceTells | compiler_expr.go:2648-2672 | `??` goes on to its right operand exactly for `undefined` and `null` |
| ExprCompiler.CompiledCodeIsCorrectIff | compiler_expr.go:3320-3326 | the same with the language's own `delete`, for programs in which every operand of `delete` is a call, or comes to no call and does not throw |
| ExprCompiler.QuietEvaluates | compiler_expr.go:326-331 | what an expression that comes to no call evaluates to, and that any other throws if calls do |
| ExprCompiler.DeleteIsCorrectIff | compiler_expr.go:326-331 | the code of `delete x` is right in every world and whatever calls do, if and only if `x` is a call, or comes to no call and does not throw |
| ExprCompiler.DeleteLosesACall | compiler_expr.go:326-331 | a program with `delete` that the code gets wrong |
| ExprCompiler.ReboundErrorIsVisible | compiler_expr.go:2423-2442 | an expression whose compiled code throws another error than evaluation once `TypeError` is rebound |
| ExprCompiler.RunShift | vm.go:1968 | jumps are relative: code does the same wherever it is placed |
| ExprCompiler.Compiler.EmitExpr | compiler_expr.go:3320-3326 | appends the code of the expression, folded if constant |
| ExprCompiler.Compiler.EmitGetter | compiler_expr.go:2398-2779 | appends the unfolded code, every patched jump in place |
| ExprCompiler.Compiler.EmitUnary | compiler_expr.go:2494-2558 | the operand, folded or not as the operator has it, and the operation |
| ExprCompiler.Compiler.EmitBinary | compiler_expr.go:2721-2779 | both operands, folded, and the operation |
| ExprCompiler.Compiler.EmitConditional | compiler_expr.go:2570-2580 | both jumps patched to where they belong |
| ExprCompiler.Compiler.EmitOr | compiler_expr.go:2607-2631 | the code of `or`, with a constant left side decided at compile time |
| ExprCompiler.Compiler.EmitAnd | compiler_expr.go:2690-2715 | the code of `and`, likewise |
| ExprCompiler.Compiler.EmitCoalesce | compiler_expr.go:2648-2672 | the code of `??`, likewise |
| ExprCompiler.Compiler.EmitList | compiler_expr.go:2398-2405 | only the last expression of a sequence is left on the stack |
| ExprCompiler.Compiler.IsConstant | compiler_expr.go:2490-2719 | the folding decision, and that deciding emits nothing |
| ExprCompiler.Compiler.Fold | compiler_expr.go:2455-2488 | evaluates by running the code it emits and taking it back |
| Scopes.ReferenceCapturesIff | compiler.go:501-532 | what an inner function refers to is in a stash, if and only if the reference does not create an `arguments` binding outside that function |
| Scopes.LookupAtKeeps | compiler.go:505-512 | a binding found across a function boundary is in a stash afterwards |
| Scopes.MovedIsOk | compiler.go:289-296 | moving to the stash keeps a scope's flags and bindings consistent; all arguments move together |
| Scopes.StepKeeps | compiler.go:387-406 | each step of the compiler keeps scopes well formed, and keeps captured bindings in stashes unless it is such a reference |
| Scopes.EveryRunCaptures | compiler.go:501-532 | in every run, up to the first such reference and only so far, all captured bindings are in stashes |
| Scopes.ArgumentsOfArrow | compiler.go:520-526 | a program with such a reference |
| InnermostScopes.SearchIsInnermost | compiler.go:501-532 | a name means the innermost scope around it that binds it; `arguments` is made by the innermost function that is no arrow, or refused in a class initialiser; otherwise unresolved |
| InnermostScopes.NoDynamicsTells | compiler.go:501-532 | a name is known to keep its meaning exactly if no scope passed on the way can get variables at run time |
| InnermostScopes.VariableGoesInnermost | compiler.go:592-601 | a variable goes to the innermost function or variable scope, or to the top level |
| InnermostScopes.EvalMarksInnermost | compiler_expr.go:3096-3105 | a direct `eval` marks for lookup exactly the scopes around it, and as extensible the innermost variable scope unless that is strict |
| SlotAllocation.DistinctAddresses | compiler.go:749-769 | bindings of a function that can be in use together never share a stack slot or a place in a stash |
| SlotAllocation.SlotInFrame | compiler.go:749-769 | slots lie in the part of the frame their scope adds, places within its stash |
| SlotAllocation.HasStashIffPushes | compiler.go:936-941 | `hasStash` holds exactly of scopes that make a stash at run time |
| SlotAllocation.EnterSizesAgree | compiler_stmt.go:90-106 | the sizes counted on entry of a plain block are those of the allocation |
| SlotAllocation.LevelFindsStash | compiler.go:655-661 | going out as many stashes as the level says leads to the stash of the scope meant |
| SlotAllocation.ReferencesFindBindings | compiler.go:655-668 | every recorded reference finds its binding's stash and a place within it, or is in the same function as the binding |
| SlotAllocation.CompiledReferencesFindBindings | compiler_expr.go:1563-1619 | so at the end of every run of the compiler without such a reference to `arguments`, once its functions are finished |
| SlotAllocation.OperandDecodes | compiler.go:664 | level and place can be read back from an operand |
| FrameLayout.RightTells | compiler.go:637-861 | a rewritten instruction is on the stack just if its binding is, with the index of its address, and in the form for frames without arguments just if the innermost function has moved them and it is not `this` |
| FrameLayout.WordFitsIff | compiler.go:661-664 | the limit of 255 levels is exactly what lets a stash operand fit into 32 bits |
| FrameLayout.FrameHolds | vm.go:1116-1139 | run in a frame, `this` is at its base, argument i is where the caller has put it, and all else is above the arguments, in what its scope adds |
| FrameLayout.DistinctPlaces | vm.go:1116-1221 | bindings in use together are in different places of the frame, with any number of arguments in it |
| FrameLayout.DistinctOperands | compiler.go:637-861 | instructions of one scope that refer to different bindings in use together have different operands |
| FrameLayout.CapturedOperandsDiffer | compiler.go:637-861 | so for bindings of any functions around the scope, when captured as they must be |
| SlotAllocation.StepKeepsPoints | compiler.go:120-143 | the access points listed for each binding stay those of the instructions that refer to it |
| SlotAllocation.Compiler.LookupName | compiler.go:501-532 | the nearest binding, with the moves to a stash and the `arguments` binding it makes, and whether `eval` can get in between |
| SlotAllocation.Compiler.MoveToStash | compiler.go:289-296 | the scope with the binding, or all arguments, in the stash |
| SlotAllocation.Compiler.MoveArgsToStash | compiler.go:868-877 | the scope with all arguments in the stash |
| SlotAllocation.Compiler.BindName | compiler.go:592-601 | the binding made in the nearest function or variable scope |
| SlotAllocation.Compiler.MarkEval | compiler_expr.go:3096-3105 | which scopes a direct `eval` can look into and which it can extend |
| SlotAllocation.Compiler.EmitReference | compiler.go:139-155 | a lookup, the access point it records and the instruction it emits |
| SlotAllocation.Compiler.FinaliseVarAlloc | compiler.go:637-866 | every instruction that refers to a binding of the scope or of a block in it gets the operand of the binding's slot or place (which `FrameLayout` says what it is), each block's slots following those of the scope around it; it fails exactly if a binding is more than 255 levels away |
| SlotAllocation.Compiler.PlaceAccesses | compiler.go:655-861 | the rewriting for one binding, with arguments on the stack or moved: its instructions get its operand, and no other is changed |
| SlotAllocation.Compiler.UpdateEnterBlock | compiler_stmt.go:90-106 | the sizes; for a plain block, a stash just if `hasStash` |
| SlotAllocation.Compiler.LevelOf | compiler.go:655-660 | the number of stashes from a reference out to its binding |
| Promises.StepKeepsRights | builtin_promise.go:85-121 | every step keeps it that a pending promise has exactly one live right to settle it and a settled one none |
| Promises.SettleOnce | builtin_promise.go:123-143 | using up a right settles a pending promise and leaves it without rights |
| Promises.EveryRunKeepsInvariant | builtin_promise.go:85-198 | after every run rights, reactions and tracker are in order, a promise is handled just if something was registered on it, and jobs are taken in the order queued |
| Promises.SettledForever | builtin_promise.go:123-143 | once settled, state and result never change |
| Promises.StepIsLater | builtin_promise.go:123-143 | no step changes a settled promise |
| Promises.StepSettles | builtin_promise.go:85-121 | a step rejects a pending promise with v exactly if it calls an unused reject function with v, reading `then` threw v, or the promise was resolved with itself; and fulfils it with v exactly if it was resolved with v, no object or without a callable `then` |
| Promises.RejectedIff | builtin_promise.go:85-143 | in every run a promise is rejected with v exactly if a step of the run was such a rejection |
| Promises.FulfilledIff | builtin_promise.go:85-143 | in every run a promise is fulfilled with v exactly if a step of the run was such a fulfilment |
| Promises.StepKeepsHandled | builtin_promise.go:153-174 | a promise counts as handled just if something was registered on it |
| Promises.StepKeepsQueue | builtin_promise.go:176-198 | the jobs waiting are the last ones queued, in their order |
| Promises.UnusedMeansPending | builtin_promise.go:85-121 | an unused pair belongs to a pending promise |
| Promises.StepKeepsReactions | builtin_promise.go:153-174 | each reaction gets no job while the promise is pending and exactly one after, of the right kind and in order of registration |
| Promises.TraceIsPrefix | builtin_promise.go:123-174 | the rejection tracker sees for each promise a prefix of reject, handle |
| Promises.Runtime.FulfillPromise | builtin_promise.go:136-143 | the state after fulfilment |
| Promises.Runtime.RejectPromise | builtin_promise.go:123-134 | the state after rejection, with the tracker called if it is unhandled |
| Promises.Runtime.TriggerPromiseReactions | builtin_promise.go:194-198 | one job per reaction, in order |
| Promises.Runtime.CreateResolvingFunctions | builtin_promise.go:85-121 | a new unused pair |
| Promises.Runtime.NewPromiseCapability | builtin_promise.go:282-289 | a new pending promise with a pair of its own |
| Promises.Runtime.CallResolveFunction | builtin_promise.go:88-112 | the first part of a resolve, field by field: a used pair does nothing; self-resolution leaves the promise rejected, a non-object leaves it fulfilled with it, and an object leaves it pending, to be asked for `then` |
| Promises.Runtime.FinishResolving | builtin_promise.go:99-112 | the second part: rejected with what reading `then` threw, fulfilled with the resolution, or pending with a thenable job for it at the end of the queue |
| Promises.Runtime.CallRejectFunction | builtin_promise.go:113-119 | a used pair does nothing; else the pair is used and the promise is rejected with the reason |
| Promises.Runtime.PerformThen | builtin_promise.go:153-174 | `addReactions`: stored, or one job queued at once |
| Promises.Runtime.TakeJob | builtin_promise.go:176-188 | a thenable job turns its right into a new pair |
| Base64.DecodeAscii | base64.go:139-200 | the eight- and four-character paths give what decoding chunk by chunk gives: read and written counts, bytes and error; nothing else is written |
| Base64.DecodeUnicode | base64.go:204-273 | the same for 16-bit strings |
| Base64.DecodeChunk | base64.go:276-369 | one chunk as the reference says, within the room left |
| Base64.FinishPadded | base64.go:306-337 | the ways a padded chunk can end |
| Base64Texts.FromBase64 | base64.go:129-135 | the result of a buffer of any size from the bound on; a text is decoded to its end without an error exactly if it spells the bytes |
| Base64.FastFour | base64.go:60-67 | four digits at once are a chunk |
| Base64.FastEight | base64.go:69-94 | eight digits at once are two chunks |
| Base64.SixIsTwiceThree | base64.go:69-101 | the 48-bit assembly is two 24-bit ones |
| Base64.OrOfDigits | base64.go:60-84 | one test of the combined lookups finds any invalid character |
| Base64.FourDigits | base64.go:276-369 | four digits in a row are decoded as one chunk |
| Base64.AfterChunk | base64.go:139-200 | falling back to the careful decoder keeps the loop on track, and it moves on |
| Base64.ErrorsWriteNothing | base64.go:276-369 | a chunk with an error writes no bytes |
| Base64.CapacityDoesNotMatter | base64.go:126-135 | from the upper bound on, the size of the buffer makes no difference |
| Base64.ChunkIsLong | base64.go:276-369 | a chunk that is not the last takes at least four characters and gives three bytes |
| Base64.SameBits | base64.go:53-58 | four digits are the 24 bits of three bytes, in order |
| Base64Texts.WhitespaceDoesNotMatter | base64.go:40-51 | tabs, line feeds, form feeds, carriage returns and spaces anywhere in a text change neither the bytes nor the error, nor, but for them, how far it is read, for any size of buffer |
| Base64Texts.DecodesIffSpells | base64.go:107-369 | with a large enough buffer a text is decoded to b, to its end and without an error, if and only if, white space apart, it is an RFC 4648 encoding of b with the padding and the spare bits its mode allows |
| Base64Texts.StrictDecodesIff | base64.go:107-369 | in strict mode that is the one padded encoding of b |
| Base64Texts.DecodesAsRead | base64.go:107-369 | bytes and error of any text are those of reading it four digits at a time, with the way each last chunk can end |
| Base64Texts.SmallBufferCuts | base64.go:344-360 | into a buffer of any size go the bytes that fit, in whole chunks where not all do, and errors only of the text |
| Base64Texts.RoundTrip | base64.go:107-124 | decoding inverts RFC 4648 encoding in both alphabets: padded or not under "loose", padded under "strict" |
| ExportResolution.ResolutionIsReachability | modules_sourcetext.go:605-668 | on every finite graph the search ends, with nothing, the one binding, or ambiguity as none, one or several bindings can be reached |
| ExportResolution.ResolveTells | modules_sourcetext.go:605-668 | the same from any point of the search, past modules already visited |
| ExportResolution.StarsTell | modules_sourcetext.go:649-667 | the same for what is accumulated over `export *` entries |
| ExportResolution.ReachesByStep | modules_sourcetext.go:605-641 | reachability avoiding what has been visited is a local binding or one step more |
| ExportResolution.LocalIsReached | modules_sourcetext.go:616-624 | a module's own entry for a name gives its own binding of the local name, whatever else it exports |
| ExportResolution.IndirectIsReached | modules_sourcetext.go:626-642 | without one, the first re-export gives what its source has under the imported name, or the namespace for `*` |
| ExportResolution.StarsAreReached | modules_sourcetext.go:643-667 | without either, a name is what the star exports have under it, and `default` is nothing |
| ExportResolution.ResolveExport | modules_sourcetext.go:605-668 | computes that resolution; an ambiguous one has no binding |
| ExportResolution.ResolveExportOf | modules_sourcetext.go:605-668 | called from outside, it says whether none, one or several bindings can be reached; a module's own entry is always the answer |
| ExportResolution.ResolveStarEntries | modules_sourcetext.go:649-667 | its loop over `export *` entries |
| ModuleLinking.WalkIsReachability | modules.go:77-127 | a successful walk enters exactly the reachable modules and leaves each once |
| ModuleLinking.WalkSucceedsIff | modules.go:77-127 | linking succeeds exactly when every reachable module initialises, its requests resolve and other kinds of modules among them link |
| ModuleLinking.WalkOrdersDependencies | modules.go:95-115 | a module is initialised after those it requests, except where these depend on it in turn |
| ModuleLinking.LinkState.ConcreteLink | modules.go:69-75 | all of this of the link state: exactly the reachable modules are linked, none is left linking, each environment is initialised once, the stack is empty |
| ModuleLinking.LinkState.InnerModuleLinking | modules.go:77-127 | one call is one walk; stack and statuses of other modules are as before, index maps consistent; it ends on cyclic graphs |
| ModuleLinking.LinkState.LinkRequests | modules.go:95-111 | its loop over the requests |
| ModuleLinking.LinkState.LowerAncestor | modules.go:104-110 | the ancestor index never changes |
| ModuleLinking.LinkState.Leave | modules.go:116-125 | exactly the module itself is popped |
| ArrayModel.RunKeeps | array.go:86-121 | in every run elements stay below the length, and elements that cannot be deleted stay, read-only ones with their value |
| ArrayModel.KeptTells | array.go:89-101 | a length change keeps the least length that loses no fixed element |
| ArrayModel.AssignTells | array.go:225-268 | assignment changes what is read at the index and no attributes, lengthens the array if it must, or is refused and changes nothing |
| ArrayModel.AssignRefused | array.go:225-268 | it is refused exactly for read-only elements and for new ones where the array or its length may not grow |
| ArrayModel.DeleteTells | array.go:475-490 | deletion leaves nothing at the index and all else as it was, or is refused exactly for a fixed element |
| ArrayModel.ResizeTells | array.go:86-121 | a change of length keeps all below it, and is refused exactly if a fixed element is in its way, where it stops |
| ArrayObjects.Object.SetOwnIdx | array.go:225-268 | element assignment on the length and the map of elements, whatever the representation and through a change of it; exactly when it divides by zero |
| ArrayObjects.Object.DeleteIdx | array.go:475-490 | deletion, likewise |
| ArrayObjects.Object.SetLength | array.go:134-140 | length change, likewise |
| ArrayObjects.Object.GetOwnPropIdx | array.go:175-184 | reading, likewise |
| ArrayObjects.ArrayObject.SetLengthUnchecked | array.go:86-121 | the new length and elements; spare capacity is cleared |
| ArrayObjects.ArrayObject.KeepFixed | array.go:89-101 | the length kept, and counters not too low |
| ArrayObjects.ArrayObject.Truncate | array.go:102-112 | elements below the new length are kept and nothing is left in the spare capacity, also after reallocation |
| ArrayObjects.ArrayObject.SetLengthInt | array.go:123-132 | as `setLength`, but that setting the same length always succeeds |
| ArrayObjects.ArrayObject.SetOwnIdx | array.go:225-268 | assignment to the slice, or to the sparse array it has become |
| ArrayObjects.ArrayObject.Expand | array.go:358-390 | room for the index with only holes exposed, or the same elements in sparse form |
| ArrayObjects.ArrayObject.DeleteIdx | array.go:475-490 | the element is gone unless it is fixed |
| ArrayObjects.SparseArrayObject.FindIdx | array_sparse.go:27-31 | the first item not below the index |
| ArrayObjects.SparseArrayObject.SetLengthUnchecked | array_sparse.go:33-67 | the new length and elements |
| ArrayObjects.SparseArrayObject.KeepFixed | array_sparse.go:35-54 | the length kept |
| ArrayObjects.SparseArrayObject.Add | array_sparse.go:148-156 | one more item, in order |
| ArrayObjects.SparseArrayObject.SetOwnIdx | array_sparse.go:158-210 | assignment to the items, or to the slice they have become |
| ArrayObjects.SparseArrayObject.Expand | array_sparse.go:323-343 | stays sparse, or holds the same elements in a slice with room for the index |
| ArrayObjects.SparseArrayObject.DeleteIdx | array_sparse.go:399-414 | the item is gone unless it is fixed |
| ArrayObjects.SparseArrayObject.GetOwnPropIdx | array_sparse.go:88-95 | the element at an index |
| ArrayObjects.SparseItems | array_sparse.go:281-291 | the items of a slice, sorted, without its holes |
| ArrayObjects.DenseValues | array.go:568-574 | a slice holding the items |
| ArrayObjects.GrowCap | runtime.go:3159-3182 | capacity for at least the new size |
| ArrayObjects.CountsAround | array.go:364 | an empty array, reached by assignments and shortenings, on which any assignment beyond index 4096 divides by zero |
| Splice.GenericIsSplice | builtin_array.go:490-527 | where the array allows it, the generic loops give prefix, new items and suffix, holes included, as the fast path does |
| Splice.FastIsGenericIff | builtin_array.go:449-527 | on plain arrays without holes, both paths agree if and only if the array does not grow, or may take elements and a new length and this is not too large |
| Splice.SpliceOfValues | builtin_array.go:431-530 | on an array of plain values that may change, both paths turn the sequence into prefix, items and suffix, and return the part taken out |
| Splice.SpliceUndone | builtin_array.go:431-530 | splicing what was taken back in for what was put there restores the array |
| Splice.ArgumentsTell | builtin_array.go:434-442 | what relative, missing, negative and excessive arguments mean |
| Splice.NonExtensibleGrowth | builtin_array.go:467-485 | an array that takes no new elements takes one in the fast path |
| Splice.TakenAlikeIff | builtin_array.go:455-459 | both return the same elements if and only if there is no hole among them |
| Splice.FastPathWithHole | builtin_array.go:1433-1443 | an array with a hole that gets the fast path |
| Splice.SpliceStandard | builtin_array.go:449-485 | the fast path in place, with and without room in the slice |
| Splice.MoveCells | builtin_array.go:460-483 | the moves within the slice, which may overlap, give prefix, items and suffix, with no cell left behind |
| Splice.SpliceGeneric | builtin_array.go:486-529 | the loops on an array of either representation do what they do on its length and elements, unless they divide by zero, for which the counter must have wrapped around |
| Splice.Splice | builtin_array.go:431-530 | the result of the path taken, for relative, missing and excessive arguments and for results that are too long; an array on the fast path never divides by zero |
| IteratorZip.Rows | builtin_iterator.go:584-649 | row after row as long as every iterator (in "longest", some) has a value; then the end, which in "strict" is an error unless all lengths are equal |
| IteratorZip.NextThrows | builtin_iterator.go:584-649 | when there is no further row: what the first iterator to end it throws; else, in "shortest", what closing the others throws, and in "strict" the error of different lengths, or what another iterator throws before they are seen to differ; else nothing |
| IteratorZip.ReturnThrows | builtin_iterator.go:57-83 | `return` throws what the last open iterator whose closing throws does, and nothing without one |
| IteratorZip.CloseFailureTells | builtin_iterator.go:170-183 | of several failures in closing that of the last iterator counts |
| IteratorZip.RowIsYielded | builtin_iterator.go:591-645 | the row, padded in "longest", and the state after it |
| IteratorZip.RowIsRefused | builtin_iterator.go:600-641 | how the helper ends without a row |
| IteratorZip.ClosedOnce | builtin_iterator.go:170-183 | in every completed run of `next` and `return`, each iterator has ended, thrown or been closed, one of these and once, closed in reverse order and after all stepping |
| IteratorZip.EveryRunKeeps | builtin_iterator.go:29-83 | nothing is closed before completion, and nothing stepped after it |
| IteratorZip.CloseAllTells | builtin_iterator.go:170-183 | the open iterators are closed, each once, the last first |
| IteratorZip.ZipHelper.NextResult | builtin_iterator.go:29-50 | the states of the helper around a step |
| IteratorZip.ZipHelper.ReturnResult | builtin_iterator.go:57-83 | the states of the helper around an abort |
| IteratorZip.ZipHelper.Step | builtin_iterator.go:587-645 | one row or the end, in each mode |
| IteratorZip.ZipHelper.CheckOthers | builtin_iterator.go:615-629 | in "strict", the other iterators must end too |
| IteratorZip.ZipHelper.CloseIterators | builtin_iterator.go:170-183 | what is closed, and which error prevails |
| Float16.NearestEven | float16.go:8-28 | below 65520, no other half-precision number is nearer, and of two as near the even one is taken |
| Float16.OverflowsExactly | float16.go:14-16 | infinity exactly from half way between the largest number and the next there would be |
| Float16.NormalIsNear | float16.go:20-27 | rounding of normal numbers, with the carry into the exponent |
| Float16.SubnormalIsNear | float16.go:17-19 | rounding of subnormal numbers, up to the least normal one |
| Float16.NextNumber | float16.go:32-50 | the numbers in order of their bits are one unit apart, across exponents |
| Float16.RoundTrip | float16.go:32-50 | converting there and back gives the same bits, but for NaNs |
| Float16.SignIsKept | float16.go:9-13 | the sign is kept, also of zero |
| Float16.SpecialsStay | float16.go:32-50 | infinities and NaN are kept there and back |
| Float16.Landmarks | float16.go:32-50 | zero, the least subnormal and normal numbers, one, the largest number and infinity have the bits of IEEE 754 binary16 |
| EscapeCodec.UnescapeEscape | builtin_global.go:239-328 | `unescape(escape(s))` is `s` for every string of 16-bit units |
| EscapeCodec.Escape | builtin_global.go:239-261 | the escaped string, which is ASCII |
| EscapeCodec.Unescape | builtin_global.go:263-328 | the unescaped string, held in bytes exactly if it is ASCII |
| EscapeCodec.PlainTells | builtin_global.go:245-247 | which characters stand for themselves |
| EscapeCodec.EscapeForms | builtin_global.go:245-258 | one unit takes one byte, three up to 255 and six above |
| EscapeCodec.NothingToUnescape | builtin_global.go:263-328 | a string without well-formed escapes is left as it is |
| Hex.HexDigits | builtin_global.go:195-217 | hexadecimal digits are written in upper case and read in either |
| UriCodec.DecodeEncode | builtin_global.go:64-193 | decoding undoes encoding for every string of characters and every pair of character sets that match |
| UriCodec.RoundTrips | builtin_global.go:219-237 | so for `decodeURI` and `decodeURIComponent` on every string without lone surrogates |
| UriCodec.EncodeAndDecode | builtin_global.go:64-193 | the two one after the other give the string back, or the error for a lone surrogate |
| UriCodec.SetsMatch | builtin_global.go:564-580 | the character sets of the four functions match |
| UriCodec.CharsetsTell | builtin_global.go:564-581 | which characters each of the four functions leaves alone |
| UriCodec.EscapesTell | builtin_global.go:146-166 | an escape, with digits in either case, is replaced by its byte, or stays if that is reserved |
| UriCodec.OthersTell | builtin_global.go:124-174 | a percent sign without two digits is refused and all other bytes stay |
| UriCodec.UnpercentEncoded | builtin_global.go:64-193 | taking the escapes out again gives UTF-8 |
| UriCodec.Encode | builtin_global.go:64-121 | an error exactly for lone surrogates; else the encoded string |
| UriCodec.Measure | builtin_global.go:65-89 | the first pass counts the length needed |
| UriCodec.Fill | builtin_global.go:95-119 | the second fills a buffer of that length exactly |
| UriCodec.Decode | builtin_global.go:123-193 | an error exactly for malformed escapes and for bytes that are not UTF-8; else the decoded string |
| UriCodec.CountEscapes | builtin_global.go:124-140 | the first pass counts the escapes replaced |
| UriCodec.Replace | builtin_global.go:146-174 | the second fills its buffer exactly and notes whether it is ASCII |
| Utf.Utf16OfRunes | string_unicode.go:138-161 | strings without lone surrogates are the UTF-16 forms of the characters read from them |
| Utf.RunesOfUtf8 | builtin_global.go:180-192 | reading UTF-8 gives the characters back, the replacement character included |
| Utf.Utf8OfRunes | builtin_global.go:176-192 | bytes that are read as characters are the UTF-8 form of just those: overlong forms and surrogates are refused |

## Left out

- `orderedMap.copyTo` and the closing of map iterators: easy.
- Array-like sources of `set`, buffers detached by a conversion, `copyWithin`.
- Base64: the character tables are the two alphabets of RFC 4648; `setFromBase64` only wraps the decoder.
- Expressions other than literals, calls, unary, binary, conditional, logical and sequence expressions; statements, functions, generators and `eval`. The meaning of instructions is taken from the virtual machine; operators are any functions that have no effects on primitive values.
- Class scopes, top-level scopes of modules, destructured parameters with forward references, and unused bindings that are deleted before allocation.
- SlotAllocation.Compiler.FinaliseVarAlloc: of the instructions it rewrites, those for `this` in derived constructors, exports, indirect bindings and names that `eval` can shadow are left out.
- Promises: subclasses of `Promise`, `async` functions, the combinators, and the host's trackers of asynchronous contexts.
- Module records other than source text in `ResolveExport`; `export * as` namespaces beyond their being bindings; evaluation and asynchronous modules; grouping of modules by cycles, which the code does not do.
- `_defineIdxProperty` on arrays, exact values of the element counters (they are proved not to be too low), prototypes of arrays, accessors, 32-bit platforms.
- Splice.SpliceGeneric: which of the elements is being written when the loops divide by zero is not said.
- Splice.Splice: array subclasses are left out, and of arrays whose elements are properties only the meaning of the generic loops is given.
- Iterators and callbacks that call back into the helper while it runs, beyond its refusal to do so, and the reading of the options of `zip`.
- Float16: binary64 inputs are covered as real numbers; which of them are binary64 numbers plays no part.
- `decodeURI` of strings with lone surrogates, which Go's conversion to UTF-8 replaces first.
