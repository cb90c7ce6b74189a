# A verified model of Tint's middle end

Tint reads and writes WGSL and SPIR-V. Between its readers and writers stand a few
self-contained algorithms on programs: the cloner with its symbols, the passes that rewrite
programs, the type determiner, type identity and buffer layout, and the SPIR-V reader's namer.
This project models them in Dafny and proves what they are for. Code that updates state in C++
is a class or a loop here, proved against a function or a predicate; expression-like code is a
function. Integers are unbounded in Dafny, so 32-bit wrap-around, truncating casts and
single-precision rounding are written out where the program has them.

`dafny verify dfyconfig.toml` checks the whole project.

**Cloning** (`Symbols`, `Decimal`, `Demangler`, `Graph`, `Cloning`, `CloneTheorems`). A program
is a graph of nodes with fields that refer to nodes or hold symbols. `CloneContext` copies it
through a memo and an ordered list of replacers, and registers every symbol anew. Printed
programs are sequences of text and symbol mentions. Main results: demangling is a left inverse
of mangled printing, and succeeds exactly when every marker has an int behind it; a clone
without replacers is an isomorphic copy with fresh nodes and the same sharing, and prints like
its source once both are demangled; with any replacers, the object a node is mapped to unfolds
to exactly what the replacers, `Replace` and the default copy say, and the memo never changes an
entry.

**Passes** (`Shapes`, `BoundArrayAccessors`, `BoundStatements`, `Shaders`, `FirstIndexOffset`,
`FirstIndexSimulation`, `FirstIndexScoping`, `FirstIndexPipeline`, `VertexPulling`,
`VertexReads`, `VertexInputs`). Each pass works on a small language with an evaluator. Bounded
accesses never trap, keep every in-bounds result, and a second run of the pass changes no value.
A program after `FirstIndexOffset` returns, call for call and for every amount of fuel, what the
original returns in the shifted world; the pass leaves a well-scoped program exactly when every
index builtin that a body reads is in that function's list. For the lists that the determiner
leaves, that is when its walk records every such read, which it does where no local bears a
builtin's name; a concrete program, on which the determiner is run, shows that the lists can
miss a read. After `VertexPulling` each located input gets, for every vertex and instance number
and all bound buffers, the bytes that its last attribute names.

**Determination** (`Scopes`, `CallGraph`, `BodySyntax`, `CallClosure`, `TypeDeterminer`,
`Shapes`). The walk over bodies is flattened into events; the determiner's methods are proved to
do what the events do, and the events to be what the syntax of a body says: the names it uses,
calls and declares at any depth, what they mean where they stand, and whether all are known.
References inherited from direct callees are closures over call paths, entry points are listed
exactly where a call path leads, and determined types are shapes of evaluated values. Spreading
the entry points ends exactly when none reaches a function that calls itself; a program that the
determiner accepts and on which it does not end is given.

**Types** (`Types`, `TypeNames`, `TypeIdentity`, `TypeManager`, `Layout`). A type's name
determines the type exactly when none of its arrays has a size or a stride, or all have and no
stride without a size stands right around a size without a stride; every other type has a double
of the same name. Among types whose runtime arrays are outermost only, the ones with a double
are the runtime arrays around another array where exactly one of the two has a stride, and they
have one double each. Buffer sizes cover every scalar and are tight, and alignments are the
largest needed inside, with the exact conditions of the 32-bit product and of float rounding.

**Names** (`Namer`). Names given out are distinct, valid and never reserved; the loops that look
for unused names end by pigeonhole.

Where code and documentation disagree the model follows the code:
`src/transform/bound_array_accessors.h` promises that an access before the start becomes element
0, but a negative dynamic index becomes the last element
(`BoundArrayAccessors.ClampedAsDocumented`).

## Model

| member | source | states |
|---|---|---|
| Decimal.RoundTrip | src/symbol.cc:37-39 | reading a printed symbol number back gives the number |
| Decimal.PrintedBack | src/symbol.cc:37-39 | every digit string without leading zeros is how its number is printed |
| Decimal.DigitRunStops | src/demangler.cc:42-47 | the digit scan after a marker stops where the printed number ends |
| Symbols.SymbolTable.Register | src/symbol_table.cc:31-46 | in any table: an empty name gives the invalid symbol, a known name its symbol, a new one the next number, which wraps at 2^32; the maps stay inverse if and only if the name needs no new symbol or the counter has not reached the invalid one |
| Symbols.SymbolTable.Get | src/symbol_table.cc:48-51 | the registered symbol, else the invalid one |
| Symbols.SymbolTable.NameFor | src/symbol_table.cc:53-59 | the registered name, else the empty string |
| Symbols.SymbolTable.Count | src/symbol_table.cc:39-43 | as many names as symbols have been given out, so fewer than 2^31 names keep every symbol an int |
| Demangler.Demangle | src/demangler.cc:32-59 | the replace loop ends, and gives the text or the exception that reading left to right gives |
| Demangler.MarkerHasNoBorder | src/demangler.cc:23-38 | after marker-free text a printed marker is found exactly where it was printed, whatever follows |
| Demangler.DemangleMention | src/demangler.cc:38-55 | one printed symbol is replaced by its name, and reading goes on behind it |
| Demangler.DemangleInverse | src/demangler.cc:32-59 | demangling a mangled print gives the print with the original names, even when names contain the marker |
| Demangler.StrayMarkerThrows | src/demangler.cc:49-51 | a marker without digits makes the program throw, so the condition on texts is needed |
| Demangler.FirstBadMarker | src/demangler.cc:49-52 | the exception thrown is the one the first marker with a bad number causes, whichever of the two it is |
| Demangler.DemanglesExactly | src/demangler.cc:32-59 | for every string, demangling succeeds if and only if every marker in it is followed by a number that is an int |
| Graph.PrintRenamed | src/clone_context.cc:28-30 | printing a copy with symbols of another table is printing the original with its symbols replaced |
| Graph.SamePrint | fuzzers/tint_ast_clone_fuzzer.cc:64-66 | before and after renaming into another table the demangled prints are the same: the one with original names |
| Cloning.DecideChosen | src/clone_context.h:206-212 | for every list of replacers and every node there is exactly one plan: the answer of the first replacer that gives one, and the default copy if and only if all decline |
| Cloning.CloneContext.ReplaceAll | src/clone_context.h:157-165 | a replacer comes after those registered before |
| Cloning.CloneContext.Replace | src/clone_context.h:174-178 | the given object is used from now on, unless the node has been cloned already |
| Cloning.CloneContext.CloneSymbol | src/clone_context.cc:28-30 | the destination's symbol of the same name |
| Cloning.CloneContext.Clone | src/clone_context.h:64-83 | null for null, else the memo's entry; the memo and the symbols only grow, entries never change, and new entries are what the first willing replacer builds or returns, or else the default copy, fresh objects unless a replacer returned one that exists, whatever the replacers clone and drop on the way; the entry for a node not cloned before follows the first replacer that answers |
| Cloning.CloneContext.LookupOrTransform | src/clone_context.h:198-216 | the memo comes first; else the first replacer that answers decides, the ones before it having declined; null if and only if all decline, and then what they made is in the memo, nothing but strict descendants was added, and nothing at all where none made anything |
| Cloning.CloneContext.CopyFields | src/clone_context.h:78-82 | the default copy's fields are the images of the node's, in whatever order they are cloned |
| Cloning.CloneContext.CloneProgram | src/clone_context.cc:32-42 | the destination's lists gain the images of the source's lists, in order |
| CloneTheorems.CopyUnfolds | src/clone_context.h:64-83 | without replacers a copy unfolds to its node's tree, symbols renamed |
| CloneTheorems.CloneMeans | src/clone_context.h:127-178 | with any replacers, the object for a node unfolds to a tree if and only if the given object, the winning replacer or the default copy says so |
| CloneTheorems.CookedMeans | src/clone_context.h:156-165 | the same for the object a replacer builds |
| CloneTheorems.SharingKept | src/clone_context.h:71-81 | two fields refer to one node exactly when their copies refer to one copy |
| CloneTheorems.CopiesPrintAlike | fuzzers/tint_ast_clone_fuzzer.cc:64-66 | copied roots print, demangled with their own table, as the source does with its own |
| CloneTheorems.RootsUnfold | fuzzers/tint_ast_clone_fuzzer.cc:64-66 | the roots of an acyclic program unfold to one list of trees, and to no other |
| CloneTheorems.CloneAsBuilder | src/program.cc:86-91 | the source unfolds to exactly one list of trees, and the clone prints like it; no source node occurs in the clone, and different nodes have different copies |
| Types.Type.Unwrap | src/type/type.cc:52-64 | what is left is neither an alias nor an access control |
| Types.UnwrapIfNeeded | src/type/type.cc:52-64 | the loop removes every alias and access control on top |
| TypeNames.NameIsWord | src/type/array_type.cc:86-96 | a type's name is its token word, printed: sizes and strides of nested arrays gather at the end |
| TypeNames.LexRender | src/type/array_type.cc:86-96 | a lexer is a left inverse of printing words, so a printed name gives its tokens back |
| TypeNames.SameNameSameWord | src/type/type_manager.h:52-56 | any two types have the same name exactly when they have the same word |
| TypeIdentity.SameNameParts | src/type/array_type.cc:86-96 | two types have the same name exactly when they have the same form and their arrays leave the same sizes and strides, in a row |
| TypeIdentity.FewestIsLeast | src/type/array_type.cc:90-93 | no fewer arrays can leave these sizes and strides, and only one list of arrays is as short |
| TypeIdentity.NameDeterminesType | src/type/type_manager.h:52-56 | among types whose structs are determined by their symbols, no other type has the name of t if and only if none of its arrays has a size or a stride, or all have and no stride without a size stands right around a size without a stride |
| TypeIdentity.UnambiguousNamesDiffer | src/type/type_manager.h:52-56 | two such types, one of them so readable, have equal names exactly when they are equal |
| TypeIdentity.AmbiguousDouble | src/type/array_type.cc:89-93 | every other type has a double: a different type of the same form with its name |
| TypeIdentity.StridedUnambiguous | src/type/array_type.cc:92-93 | types whose arrays all carry strides are readable |
| TypeIdentity.SizedUnambiguous | src/type/array_type.cc:90-91 | so are types whose arrays all have sizes and no strides |
| TypeIdentity.OuterNameDeterminesType | src/type/array_type.cc:89-93 | among types whose runtime arrays are outermost only, no other type has the name of t if and only if it is not a runtime array around another array, exactly one of the two having a stride |
| TypeIdentity.MovedType | src/type/array_type.cc:89-93 | otherwise exactly one other such type has the name, and it has that stride at the other array |
| TypeIdentity.MixedStridesCollide | src/type/array_type.cc:89-93 | different types with one name: strides around a runtime array can be read two ways |
| TypeManager.Manager.Get | src/type/type_manager.h:51-64 | the object filed under the type's name, or a new one, which is then filed and owned |
| TypeManager.Manager.Wrap | src/type/type_manager.h:73-77 | the wrapped manager's types are found but not owned |
| TypeManager.Manager.SameObject | src/type/type_manager.h:51-64 | over any run of calls, two answers are one object exactly when the types have one word, and when one of them is readable exactly when they are equal |
| TypeManager.Manager.FaithfulObject | src/type/type_manager.h:51-64 | the object returned has the type asked for whenever that type is readable; any other has a double that would be given the same object |
| Layout.StructAlignment | src/type/struct_type.cc:67-83 | the loop finds the largest member alignment, and a uniform buffer rounds it up to 16 |
| Layout.AlignmentValues | src/type/array_type.cc:57-66 | alignments are 0, 4, 8 or 16, for uniform aggregates 0 or 16, and uniform alignment is never below storage alignment |
| Layout.AlignmentExact | src/type/vector_type.cc:45-52 | a host-shareable type is aligned to 16 if it is an aggregate in a uniform buffer, and otherwise to the largest alignment needed by a scalar, a vector or a matrix column inside it, each needing the least power of two that holds it |
| Layout.MemberAlignment | src/type/struct_type.cc:67-83 | a struct's alignment is a multiple of every member's non-zero alignment |
| Layout.FloatNear | src/type/struct_type.cc:61-61 | conversion to float lands on a multiple of the float spacing, less than one spacing away |
| Layout.NearestFloat | src/type/struct_type.cc:61-61 | the conversion gives a float with a 24-bit significand and none is nearer to the integer; a tie goes to the even significand |
| Layout.RoundUpCovers | src/type/struct_type.cc:61-64 | rounding a size up in float reaches the size if and only if the float is not below it or is no multiple of the alignment; always so below 2^24 |
| Layout.RoundUpExact | src/type/struct_type.cc:61-64 | rounding up in float gives the least multiple if and only if it covers the size and the floats are no wider apart than the alignment, or the float is less than one alignment above |
| Layout.SizeCovers | src/type/struct_type.cc:43-65 | all four bytes of every scalar, at any nesting, lie below the binding size |
| Layout.ElementCovers | src/type/array_type.cc:37-55 | every array element lies inside the array's size |
| Layout.MatrixCovers | src/type/matrix_type.cc:46-50 | every matrix scalar lies inside the matrix's size |
| Layout.SizeTight | src/type/matrix_type.cc:46-50 | some scalar ends exactly at the size of a vector, a matrix or an array of known size, at any nesting of these |
| Layout.StructTight | src/type/struct_type.cc:43-61 | if a struct's last member is such, some scalar ends exactly where rounding up starts |
| Layout.RuntimeTight | src/type/array_type.cc:42-49 | a runtime array's size is where a second element would begin |
| Layout.HasSize | src/type/struct_type.cc:56-59 | every host-shareable type has a size of at least four bytes, so none is taken for unshareable |
| Layout.LeastMultiple | src/type/struct_type.cc:61-64 | a struct's size is the least multiple of its alignment that holds its last member if and only if float rounding is exact there, as it always is below 2^24 bytes |
| Layout.WrapExact | src/type/array_type.cc:52-53 | an array's size reaches its last element if and only if the 32-bit product does not wrap |
| Layout.FloatLosesBytes | src/type/struct_type.cc:61-64 | a 2^26 byte buffer whose last scalar lies outside the size that float rounding gives |
| Shapes.IndexSound | src/type_determiner.cc:340-379 | an element in bounds has the shape of the determined element type; any other access traps |
| Shapes.MemberSound | src/type_determiner.cc:1088-1149 | a member or a swizzle has the shape of its determined type |
| Shapes.PlaceStorage | src/type_determiner.cc:340-379 | a chain of accesses to a variable is a pointer in the variable's storage class if and only if no access in it picks more than one element |
| Shapes.ElementOfValue | src/type_determiner.cc:362-377 | an element of an array value is a pointer of function class if and only if it is not a scalar |
| Shapes.ProductSound | src/type_determiner.cc:1177-1216 | products of matrices, vectors and scalars have the determined shape, rows of the left and columns of the right factor |
| Shapes.BinarySound | src/type_determiner.cc:1151-1216 | every operator's value has the determined shape |
| Shapes.TypesWellFormed | src/type_determiner.cc:340-379 | accepted expressions, operations of any kind and number of operands among them, get well-formed types |
| Shapes.TypeSound | src/type_determiner.cc:305-338 | evaluating an accepted expression in a conforming store traps only out of bounds, and otherwise the value has the shape of the determined type |
| Shapes.MachineAndStore | src/type_determiner.cc:305-338 | some machine keeps to all types, and every environment has a store that conforms to it, so the results on evaluation speak of every program |
| Shapes.ComparisonExact | src/type_determiner.cc:1163-1176 | a comparison's type has the right shape if and only if the left operand is not a vector under an alias or an access control |
| Shapes.ProductExact | src/type_determiner.cc:1177-1213 | a product's type has the right shape if and only if a condition on which operands are wrapped, and in what, holds |
| BoundArrayAccessors.TransformTypes | src/transform/bound_array_accessors.cc:69-128 | the pass succeeds on every accepted expression, and its output is accepted at the same type |
| BoundArrayAccessors.ClampedAsDocumented | src/transform/bound_array_accessors.h:31-33 | the promised clamping is what happens if and only if the index is not negative or there is one element; negative ones go to the last element |
| BoundArrayAccessors.NewIndexValue | src/transform/bound_array_accessors.cc:94-124 | a rewritten literal index is the promised one, any other is the clamped one |
| BoundArrayAccessors.IndexTamed | src/transform/bound_array_accessors.cc:94-128 | a rewritten access is in bounds, and picks the original element whenever there was one |
| BoundArrayAccessors.TransformSafe | src/transform/bound_array_accessors.cc:58-128 | for every store the rewritten expression never traps, at any nesting, and has the original's value whenever that has one |
| BoundArrayAccessors.TransformTwice | src/transform/bound_array_accessors.cc:69-128 | a second run of the pass changes no value, for indices in and out of bounds |
| BoundStatements.WriteSafe | src/transform/bound_array_accessors.cc:126-127 | a write through a rewritten place succeeds, keeps all shapes, and writes what the original would |
| BoundStatements.AssignSafe | src/transform/bound_array_accessors.cc:58-67 | the same for a whole assignment with a rewritten right-hand side |
| BoundStatements.RunSafe | src/transform/bound_array_accessors.cc:58-67 | for every store and fuel the rewritten statement, with its branches, loops and jumps, never traps, and its outcome is the original's unless the original traps |
| Scopes.ScopeStack.PushScope | src/scope_stack.h:39-39 | a new empty scope, which hides nothing |
| Scopes.ScopeStack.PopScope | src/scope_stack.h:42-46 | the top scope goes, but never the global one |
| Scopes.ScopeStack.SetGlobal | src/scope_stack.h:51-51 | the global scope is set, the others stay |
| Scopes.ScopeStack.Set | src/scope_stack.h:56-56 | only the top scope changes, and the symbol now means the value |
| Scopes.ScopeStack.Get | src/scope_stack.h:77-93 | the reverse scan finds what the overlaid scopes hold, and tells whether only the global scope held it |
| CallGraph.RunSplit | src/type_determiner.cc:187-198 | walking a list is walking its parts one after another |
| CallGraph.AddedFacts | src/ast/function.cc:68-75 | adding a variable adds its symbol and no duplicate |
| CallGraph.AddedAllFacts | src/type_determiner.cc:419-421 | inheriting a list adds its symbols and no duplicates |
| CallGraph.StepBalanced | src/type_determiner.cc:400-429 | one step of a walk keeps the references equal to the local ones plus those of the callees |
| CallGraph.RunBalanced | src/type_determiner.cc:89-103 | so does every walk |
| CallGraph.FailureIsLocal | src/type_determiner.cc:187-198 | whether a walk fails depends on the names in scope and on typing, not on what other functions reference |
| CallGraph.ScopeIsOverlay | src/type_determiner.cc:286-289 | the function's scope is its parameters overlaid with the declarations walked so far, whatever the nesting and whatever other functions declare |
| CallGraph.LocalsExact | src/type_determiner.cc:902-920 | the local references are exactly the module variables that some identifier of the body means |
| CallGraph.CallsExact | src/type_determiner.cc:405-429 | after a successful walk the recorded calls are exactly the calls in the body to functions registered by then |
| BodySyntax.EventsByPart | src/type_determiner.cc:224-293 | a statement's walk declares its variable, then walks its expressions, then the statements inside it, in order |
| BodySyntax.EventsExact | src/type_determiner.cc:224-293 | the walk over statements looks up exactly the names they use, calls exactly what they call and declares exactly what they declare, at any nesting |
| BodySyntax.MentionsExact | src/type_determiner.cc:902-920 | it leaves exactly the scope that the syntax says, and looks up exactly the module variables that some name in the statements means where it stands |
| BodySyntax.WalkPasses | src/type_determiner.cc:187-198 | it gets through if and only if every name is known where it stands, every callee is a function of the program or a typed intrinsic, every other expression gets a type and no local is of a module class |
| CallClosure.WalkKeepsBuilt | src/type_determiner.cc:158-165 | walking the next function keeps the facts about all earlier ones |
| CallClosure.ReachesStep | src/type_determiner.cc:151-155 | reaching is being there, or one call and then reaching |
| CallClosure.ReferencesAreClosure | src/type_determiner.cc:418-421 | a function's references are exactly the local references over all functions it reaches, although it inherits from direct callees only |
| CallClosure.CallsGoBack | src/type_determiner.cc:167-170 | when nothing a function reaches calls itself directly, its calls go to strictly earlier functions, of which the same holds |
| CallClosure.PathsGoBack | src/type_determiner.cc:149-156 | so do the call paths from it |
| CallClosure.EndsExactly | src/type_determiner.cc:149-156 | the recursion over callees ends, for some depth of calls, if and only if it reaches no function that calls itself |
| CallClosure.LoopReached | src/type_determiner.cc:151-155 | from a call of a function that calls itself it never ends |
| CallClosure.SameCalls | src/type_determiner.cc:149-156 | reaching and looping depend on the calls alone |
| TypeDeterminer.Function.AddReferencedModuleVariable | src/ast/function.cc:68-75 | the list gains the variable unless one of its symbol is there |
| TypeDeterminer.Function.AddLocalReferencedModuleVariable | src/ast/function.cc:77-84 | the same for the local list |
| TypeDeterminer.Function.AddAncestorEntryPoint | src/ast/function.cc:205-212 | the entry point is listed, once |
| TypeDeterminer.Function.HasAncestorEntryPoint | src/ast/function.cc:214-221 | whether the entry point is listed |
| TypeDeterminer.TypeDeterminer.Find | src/ast/function.cc:363-370 | a function of that symbol, or null if there is none |
| TypeDeterminer.TypeDeterminer.SetReferenced | src/type_determiner.cc:89-103 | only module-class variables are recorded, locally too when asked |
| TypeDeterminer.TypeDeterminer.DetermineIdentifier | src/type_determiner.cc:902-934 | the event of a lookup: a variable, else a registered function, else an intrinsic, else an error |
| TypeDeterminer.TypeDeterminer.RecordCall | src/type_determiner.cc:405-422 | the event of a call: recorded, and the callee's references inherited |
| TypeDeterminer.TypeDeterminer.DetermineCall | src/type_determiner.cc:389-444 | a call's walk does its events, an intrinsic's typing among them, and fails exactly when they do |
| TypeDeterminer.TypeDeterminer.DetermineExpr | src/type_determiner.cc:305-338 | the same for every expression, which fails when an operand does or when it gets no type itself |
| TypeDeterminer.TypeDeterminer.DetermineDeclaration | src/type_determiner.cc:200-222 | a local becomes a function-class variable and enters the scope before its initializer is walked |
| TypeDeterminer.TypeDeterminer.DetermineStmt | src/type_determiner.cc:224-293 | a statement's walk does its events, whatever its nesting, and fails exactly when they do; which events these are is EventsByPart |
| TypeDeterminer.TypeDeterminer.DetermineStatements | src/type_determiner.cc:187-198 | the same for a list, which stops at the first failure |
| TypeDeterminer.TypeDeterminer.DetermineFunction | src/type_determiner.cc:167-185 | on success the variable stack is what it was, the function is registered, and its lists are what its walk collects |
| TypeDeterminer.TypeDeterminer.OutcomeKnown | src/type_determiner.cc:158-185 | a walked function's lists say exactly what the syntax of its body mentions and whom it calls |
| TypeDeterminer.TypeDeterminer.DetermineFunctions | src/type_determiner.cc:158-165 | succeeds if and only if every body is resolved as its syntax says; then what is recorded of each function is what its body mentions and calls |
| TypeDeterminer.TypeDeterminer.SucceedsWalk | src/type_determiner.cc:167-198 | a body is resolved if and only if its walk gets through |
| TypeDeterminer.TypeDeterminer.SetEntryPoints | src/type_determiner.cc:149-156 | from a function that reaches no self-calling one: terminates, and adds the entry point to it and to exactly what it reaches, keeping every list free of duplicates |
| TypeDeterminer.TypeDeterminer.DetermineAll | src/type_determiner.cc:122-133 | for every program, self-calls or not: the walks end, succeed exactly when none meets an unknown name, a module-class local or a typing error, and then each function references exactly what the functions it reaches mention |
| TypeDeterminer.TypeDeterminer.SpreadingEndsExactly | src/type_determiner.cc:135-146 | after that, spreading the entry points ends if and only if no entry point reaches a function whose body calls itself |
| TypeDeterminer.TypeDeterminer.SelfCallsNeverEnd | src/type_determiner.cc:149-156 | a function that calls itself, called by an entry point: all walks succeed, and spreading the entry point never ends |
| TypeDeterminer.TypeDeterminer.Determine | src/type_determiner.cc:105-147 | unless an entry point reaches a function whose body calls itself: succeeds exactly when every body is resolved; then each function references exactly what the functions it reaches mention, and lists, once, exactly the entry points that a path of at least one call leads from |
| FirstIndexOffset.FirstIndexOffset.AddUniformBuffer | src/transform/first_index_offset.cc:184-234 | one field for each index builtin found, one word after another without gaps or overlaps, and the recorded offsets are those of the fields |
| FirstIndexOffset.LastNamedIs | src/transform/first_index_offset.cc:117-136 | the captured name of a builtin is that of the last variable that is it |
| FirstIndexOffset.FirstIndexOffset.CloneVariable | src/transform/first_index_offset.cc:117-137 | the first index builtin among the decorations renames the variable and sets its flag |
| FirstIndexOffset.FirstIndexOffset.CloneVariables | src/transform/first_index_offset.cc:117-137 | all variables, with the last one's name captured for each index builtin |
| FirstIndexOffset.FirstIndexOffset.LocalReferencedBuiltins | src/ast/function.cc:190-203 | the first builtin of each locally referenced variable, in order |
| FirstIndexOffset.FirstIndexOffset.CloneFunction | src/transform/first_index_offset.cc:141-160 | the body preceded by one declaration for each listed index builtin |
| FirstIndexOffset.FirstIndexOffset.Run | src/transform/first_index_offset.cc:86-164 | an error if the buffer is there already, else the transformed program, the flags and the offsets |
| FirstIndexSimulation.RenamedUnique | src/transform/first_index_offset.cc:66-77 | renamed variables still have names of their own |
| FirstIndexSimulation.TargetFind | src/transform/first_index_offset.cc:117-137 | every other name means what it did, and the index builtins' names are free |
| FirstIndexSimulation.TargetIndex | src/transform/first_index_offset.cc:124-132 | the prefixed name is the builtin variable |
| FirstIndexSimulation.InsertedRuns | src/transform/first_index_offset.cc:236-262 | the added declarations run and bind the constants to what the original program reads |
| FirstIndexSimulation.EntersOver | src/transform/transform.cc:36-49 | a transformed function starts its old body with the constants beneath the parameters |
| FirstIndexSimulation.SimEval | src/transform/first_index_offset.cc:236-262 | every expression gives the same value and the same effects in both programs |
| FirstIndexSimulation.SimExec | src/transform/first_index_offset.cc:141-160 | so does every list of statements, with the constants staying beneath |
| FirstIndexSimulation.SimInvoke | src/transform/first_index_offset.cc:86-164 | when names do not clash, each index builtin has one variable and lists cover the reads: any call, for any arguments, store and fuel, gives the same result and store as the original in the shifted world, or fails in both |
| FirstIndexSimulation.TintLabels | src/transform/first_index_offset.cc:60-64 | the pass's own names meet the conditions on names |
| FirstIndexScoping.RunOnce | src/transform/first_index_offset.h:71-89 | a new pass gives the target program and reports the offsets at which it reads |
| FirstIndexScoping.RunAndStore | src/transform/first_index_offset.h:28-37 | whatever first vertex and first instance are stored at the reported offsets, both are there afterwards, and every call gives what the program gives when its index builtins start at exactly these |
| FirstIndexScoping.NothingInserted | src/transform/first_index_offset.cc:146-159 | a function's body is unchanged exactly when its list holds no index builtin |
| FirstIndexScoping.ClosedFunction | src/transform/first_index_offset.cc:141-160 | the same as ClosedExactly for one function |
| FirstIndexScoping.ClosedExactly | src/transform/first_index_offset.cc:117-160 | the result is well scoped if and only if the program was and every list holds the index builtins its body reads |
| FirstIndexScoping.TableInjective | src/symbol_table.cc:31-51 | the lookup of a symbol table that holds a program's names gives them different symbols, which the lemmas below ask for |
| FirstIndexScoping.RecordedNotParam | src/type_determiner.cc:172-175 | what the determiner's walk records is hidden by no parameter |
| FirstIndexScoping.RecordedUnlessHidden | src/type_determiner.cc:286-289 | a read of an index builtin is recorded unless the body declares its name somewhere |
| FirstIndexScoping.RecordedIfNothingHidden | src/type_determiner.cc:286-289 | where no body declares the name of an index builtin, every read is recorded |
| FirstIndexScoping.DeterminedByRun | src/type_determiner.cc:158-185 | when the determiner made for a program has finished, the lists it leaves hold exactly what its walk records |
| FirstIndexScoping.ClosedIffRecorded | src/transform/first_index_offset.cc:117-160 | with the lists the determiner leaves, the result is well scoped if and only if the program was and the walk records every read of an index builtin |
| FirstIndexScoping.ReadyIfRecorded | src/transform/first_index_offset.cc:146-159 | with these lists a program meets the simulation's conditions if and only if every read is recorded |
| FirstIndexScoping.FirstIndexAdded | src/transform/first_index_offset.h:28-37 | with these lists and every read recorded, a program runs after the pass as before with the first index added to the builtin |
| FirstIndexScoping.HidingDetermined | src/type_determiner.cc:286-289 | a nested local of the builtin's name makes the walk miss a later read |
| FirstIndexScoping.HidingSucceeds | src/type_determiner.cc:286-289 | the determiner can be run on that program, and succeeds |
| FirstIndexScoping.HidingLists | src/ast/function.cc:77-84 | the list it leaves does not hold the builtin |
| FirstIndexPipeline.Determine | src/type_determiner.cc:158-185 | from a program's text alone: a determiner is made and run, it succeeds exactly when every walk does, and the program with its lists is one that FirstIndexAdded speaks of |
| FirstIndexPipeline.SameTextFacts | src/type_determiner.cc:158-185 | whether names are apart and reads recorded depends on the text alone, not on the lists |
| FirstIndexPipeline.DetermineHiding | src/type_determiner.cc:158-185 | the determiner run on the program with the nested local: it succeeds and leaves the lists that the program has |
| FirstIndexPipeline.HidingHasIds | src/symbol_table.cc:31-51 | any symbol table that holds its two names serves |
| FirstIndexScoping.HidingBreaks | src/transform/first_index_offset.cc:146-159 | that program is well scoped and runs; after the pass it names a variable that is gone, and fails |
| VertexPulling.State.FindOrInsertVertexIndexIfUsed | src/transform/vertex_pulling.cc:139-183 | only if a buffer steps by vertex: the name of an input variable decorated vertex_index, or, if there is none, a new one so decorated |
| VertexPulling.State.FindOrInsertInstanceIndexIfUsed | src/transform/vertex_pulling.cc:185-228 | the same for buffers that step by instance and instance_index |
| VertexPulling.State.ConvertVertexInputVariablesToPrivate | src/transform/vertex_pulling.cc:230-257 | exactly the input variables with a location are replaced by private ones, and the last one with a location gets it |
| VertexPulling.State.AddVertexStorageBuffers | src/transform/vertex_pulling.cc:259-303 | one storage buffer for each layout, bound by its number |
| VertexPulling.State.CreateVertexPullingPreamble | src/transform/vertex_pulling.cc:305-366 | the loops emit the position and two statements for each attribute whose location has a variable |
| VertexPulling.State.AccessVec | src/transform/vertex_pulling.cc:461-478 | the parts of a vector access, four bytes apart |
| VertexPulling.Run | src/transform/vertex_pulling.cc:78-122 | both errors in order, the second if and only if no vertex function has the name; else the program with the variables, buffers and preamble, put into the first such function |
| VertexReads.AccessReads | src/transform/vertex_pulling.cc:407-478 | a generated access reads its format's words from the position, or fails with them |
| VertexReads.PullRuns | src/transform/vertex_pulling.cc:338-361 | the two statements of an attribute set the position and the variable |
| VertexReads.PreambleRuns | src/transform/vertex_pulling.cc:305-366 | the block does to the module variables what reading the attributes in order does |
| VertexReads.OthersUnchanged | src/transform/vertex_pulling.cc:358-361 | no variable without a location changes |
| VertexReads.LastPullWins | src/transform/vertex_pulling.cc:327-363 | a variable ends with its last attribute's value, or with its own if it has none |
| VertexReads.RunsIffReadable | src/transform/vertex_pulling.cc:327-363 | the preamble runs to its end if and only if every attribute with a variable can be read |
| VertexReads.PositionWraps | src/transform/vertex_pulling.cc:345-351 | truncating stride and offset to 32 bits leaves index * stride + offset modulo 2^32 |
| VertexReads.WordIndexExact | src/transform/vertex_pulling.cc:409-424 | the index of any part is that of the word its byte position falls in if and only if the position is below 2^31 |
| VertexReads.AlignmentNeeded | src/transform/vertex_pulling.cc:409-424 | the word the code reads for any part is, in every buffer, the four bytes at the part's position if and only if the position is aligned and below 2^31 |
| VertexReads.ReadsBytesExactly | src/transform/vertex_pulling.cc:345-361 | for every supported format and every position, the access reads the attribute's own bytes in every buffer if and only if the position is a multiple of 4 and the attribute ends at or below 2^31 |
| VertexReads.FittingDecodes | src/transform/vertex_pulling.cc:345-361 | an aligned attribute inside its buffer and below 2^31 is read from index * stride + offset, word by word |
| VertexReads.BlockLoads | src/transform/vertex_pulling.cc:305-366 | the block loads every location's variable as its last attribute says, and changes no other variable |
| VertexInputs.LocationMapOwned | src/transform/vertex_pulling.cc:236-255 | a location's variable is the last input variable whose first location decoration is that location |
| VertexInputs.LastOfAll | src/transform/vertex_pulling.cc:331-336 | the attribute that counts for a location is the last one for it over all buffers |
| VertexInputs.VariablesKept | src/transform/vertex_pulling.cc:230-303 | the result has the program's variables, located inputs made private with their type, and otherwise only inputs that are index builtins and buffers bound by number in the group |
| VertexInputs.OrdinaryResult | src/transform/vertex_pulling.cc:78-122 | a program that uses none of the names made up by the pass keeps distinct variable names |
| VertexInputs.SomeMachine | src/transform/vertex_pulling.cc:139-228 | any such module can be supplied with any vertex and instance number and any bound buffers |
| VertexInputs.InputsLoaded | src/transform/vertex_pulling.cc:78-122 | only the entry point changes, and it starts with a block; for every draw the variable at a location holds, in its format, the bytes at number * stride + offset of the last attribute for it, from the buffer bound by the attribute's position in the state, number being the vertex's for buffers that step by vertex and the instance's otherwise; all other variables keep their values |
| Namer.Sanitize | src/reader/spirv/namer.cc:68-90 | empty becomes "empty", invalid characters underscores, and a name that could not start that way gets an x |
| Namer.SanitizedIsIdentifier | src/reader/spirv/namer.cc:68-90 | a sanitized name is an identifier, and an identifier is kept |
| Namer.SanitizedChars | src/reader/spirv/namer.cc:68-90 | character by character against the lists of valid ones: others become underscores, and an x comes first where the name would start with an underscore, a digit or an invalid character |
| Namer.CandidatesDiffer | src/reader/spirv/namer.cc:108-114 | the names tried for one base are all different |
| Namer.SomeUnused | src/reader/spirv/namer.cc:105-120 | among one more candidates than used names one is unused |
| Namer.DerivedLeast | src/reader/spirv/namer.cc:105-121 | a derived name is the base if it is free, else the base with the least number from 1 on that makes a free one |
| Namer.Namer.constructor | src/reader/spirv/namer.cc:60-64 | the reserved words are taken from the start |
| Namer.Namer.IdsApart | src/reader/spirv/namer.cc:129-137 | different ids never share a name |
| Namer.Namer.FindUnusedDerivedName | src/reader/spirv/namer.cc:105-120 | the first unused candidate, after at most one more try than there are names |
| Namer.Namer.MakeDerivedName | src/reader/spirv/namer.cc:122-127 | a new name, unlike all before and no reserved word, registered for no id |
| Namer.Namer.SaveName | src/reader/spirv/namer.cc:129-137 | fails without change for an id that has a name, else both maps gain the pair, whatever the name; the namer stays valid if and only if the name was not taken |
| Namer.Namer.SuggestSanitizedName | src/reader/spirv/namer.cc:139-146 | the id gets the first unused name derived from the sanitized suggestion |
| Namer.Namer.Name | src/reader/spirv/namer.h:71-76 | an id without a name gets the first unused one derived from its number, any other keeps its name |
| Namer.Namer.SuggestSanitizedMemberName | src/reader/spirv/namer.cc:148-161 | the first suggestion for a member wins |
| Namer.Namer.Disambiguate | src/reader/spirv/namer.cc:175-191 | the suggestion, or the first numbered form of it that is unused |
| Namer.Namer.ResolveMemberNamesForStruct | src/reader/spirv/namer.cc:163-219 | as many names as members, valid and pairwise distinct; each is the first name derived from its suggestion, or from fieldN in the second pass, that is not used yet |
| Namer.KeptExactly | src/reader/spirv/namer.cc:175-218 | a suggestion stays if and only if no earlier suggested member ends up with it, and a missing one becomes fieldN if and only if no suggested and no earlier member is called so |
| Namer.ResolutionUnique | src/reader/spirv/namer.cc:163-219 | the suggestions determine all names |
| Namer.DistinctSuggestionsKept | src/reader/spirv/namer.cc:193-202 | when suggestions differ all of them are kept |

## Left out

- Node classes: one generic node with a layout of text, references and symbols stands for all of them; their own printers are not modelled.
- CloneTheorems.CloneAsBuilder: types are copied like nodes, while the program files new types by name, so two source types of one name would share a copy.
- Replacers: what a replacer clones and answers depends on the node alone. The memo asks each replacer about a node once, so a run with a replacer that keeps state is a run with the function of the answers it gave; how its state changes is modelled in the passes that have one.
- Cloning.CloneContext.Clone: replacers clone strict descendants only, since the code does not end on others, and fewer than 2^31 names are registered.
- Source locations, semantic information and error texts.
- Symbols.SymbolTable.Get: asks for inverse maps, as do the other lookups; after 2^32 registrations numbers repeat and a lookup by number finds the later name.
- Texture, sampler and storage-texture types in type names and layout, beyond the plain sampler.
- TypeIdentity.NameDeterminesType: the doubles may be arrays of runtime arrays; TypeIdentity.OuterNameDeterminesType is the condition without these.
- Layout.FloatRoundUp: with alignment 0 the program converts a quotient by zero, which has no defined result; host-shareable types never do.
- Shapes.TypeSound: calls with side effects are not in the expression language; scalar arithmetic and other operations are any that keep to their types.
- BoundArrayAccessors.TransformSafe: array lengths lie between 1 and 2^31 - 1, runtime arrays have an element, and indices are 32-bit integers; calls with side effects are not in the language.
- BoundStatements.RunSafe: switch statements, which select among blocks as nested branches do, and the scopes of local declarations are not modelled.
- Initializers of module variables: they add nothing to any function's lists, and the determiner's walk over them is not modelled.
- TypeDeterminer.TypeDeterminer.DetermineCall: whether the arguments of an intrinsic call fit its signatures is a flag on the call.
- TypeDeterminer.TypeDeterminer.DetermineExpr: which types an expression's own rule accepts is a flag on the expression, not derived from its operands; the derivation for indexing, members and arithmetic is in Shapes.
- TypeDeterminer.TypeDeterminer.Determine: functions have symbols of their own, apart from variables'. A failed determination promises nothing about the lists.
- Variables are values in the determiner: that a declaration's storage class is written into a shared object is not captured.
- Storage texture subtypes, intrinsic signatures and the validator.
- FirstIndexSimulation.SimInvoke: values are 32-bit words, member access reads uniform words only, and continue, switch and discard are not in the language; a declaration of a name in the scope of an added constant shadows it here, where a validator could reject it.
- Struct and binding declarations of the added uniform buffer beyond field names and offsets.
- VertexInputs.InputsLoaded: the type of the input variable is not compared with the format's type, as the code does not; programs that use the names the pass makes up are not considered, and index builtins have no location.
- The SPIR-V reader beyond the namer, the writers, the inspector and the command line.
- Namer.Namer.FindUnusedDerivedName: fewer than 2^31 - 1 names are registered, or the int counter would overflow.
