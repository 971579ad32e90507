# Relic core in Dafny

Relic is a small Lisp. It has two back ends:

- a tree-walking interpreter;
- a compiler that emits C code calling into a runtime library. The runtime is a stack machine over a garbage-collected node area.

This project models the core of Relic and proves properties of the model. The core covers:

- the front end: lexer, parser, preprocessor with its macros and derived forms, and the REPL word completion;
- the shared data: numbers, symbols, nodes and patterns, the list utilities, and environments;
- the interpreter (`eval`);
- the compiler to C code;
- the runtime: stack machine, built-in `apply`, copying collector and environments;
- the runtime's C-callable entry points, including closure calls.

One Dafny module stands for each source file:

| module | file | form |
|---|---|---|
| Numbers | src/number.rs | datatypes and functions |
| Symbols | src/symbol.rs | datatypes and functions |
| Nodes | src/node.rs | datatypes and functions |
| Util | src/util.rs | loops become methods |
| Env | src/env.rs | functions |
| Lexer | src/lexer.rs | a `Lexer` class with a cursor |
| Parser | src/parser.rs | methods on the lexer |
| Preprocess | src/preprocess.rs | pure functions and loop methods |
| Complete | src/repl_complete.rs | functions |
| Eval | src/eval.rs | an `Interpreter` class |
| EvalLaws | src/eval.rs | lemmas |
| Compile | src/compile.rs | a `CodeGen` class and a counter class |
| Heap, Collector, Runtime | src/runtime.rs | a `Runtime` class |
| Lib | src/lib.rs | methods |

Three modules are shared:

- Wrappers holds `Option` and `Result`.
- Errors holds the error values the source reports as strings.
- Text renders numbers and closure parameter names.

Each method that changes state is proved against a specification function of the old state:

- The interpreter's `Eval` computes `EvalNode`.
- The compiler's `CompileNode` appends `Gen`.
- The runtime's `Gc` is a relocation of exactly the reachable nodes.

Lemmas then state what the source promises of those functions:

- Round trips: symbols, patterns, numbers' decimal text.
- Innermost-binding lookup, and what `define` and `set!` change.
- Macro substitution order.
- That the preprocessor leaves no derived forms.
- Stack balance of the generated code.
- That the collector keeps exactly what is reachable and relocates it faithfully, and that `eq?` is unaffected by a collection.
- Closure-call argument binding.

Runtime panics (`unwrap`, `assert!`, `unreachable!`, stack underflow) become `requires` clauses. The exception is user text that would make the source panic; that becomes an error value. Recursion through user programs (evaluation, equality of cyclic structures) is bounded by a `fuel` parameter.

## Model

| member | source | states |
|---|---|---|
| Numbers.Wrap | src/number.rs:22-31 | The result is in the `i64` range and congruent to the exact value modulo 2^64, as a wrapping `+`, `-` or `*` of a release build is. |
| Numbers.WrapExact | src/number.rs:22-31 | A value already in `i64` range is unchanged by wrapping. |
| Numbers.FAdd | src/number.rs:44-49 | Float addition: finite operands add exactly, NaN propagates, opposite infinities give NaN. |
| Numbers.FMul | src/number.rs:58-63 | Float multiplication: finite operands multiply exactly, NaN propagates, infinity times zero is NaN. |
| Numbers.FDiv | src/number.rs:84-89 | Float division: finite by nonzero divides exactly, and a nonzero value divided by zero is a signed infinity. |
| Numbers.Add | src/number.rs:44-49 | The result is an integer exactly when both operands are. Integers wrap, and mixed operands are promoted to floats. |
| Numbers.Sub | src/number.rs:51-56 | As `Add`, for subtraction. |
| Numbers.Mul | src/number.rs:58-63 | As `Add`, for multiplication. |
| Numbers.Div | src/number.rs:84-89 | Division always yields a float. |
| Numbers.PartialCmp | src/number.rs:110-118 | Always `Some`. `Less` exactly when `<` holds; `Greater` exactly when `>` holds and `<` does not; `Equal` otherwise, NaN included. |
| Numbers.ToUsize | src/number.rs:74-82 | Converts exactly the non-negative integers, to themselves. |
| Numbers.TruncDivSpec | src/runtime.rs:361-391 | Division rounding toward zero: the product never overshoots the dividend, and the remainder is smaller than the divisor and carries the dividend's sign. |
| Numbers.TruncDivFits | src/runtime.rs:377-391 | Only `i64::MIN / -1` leaves the `i64` range. |
| Numbers.Quotient | src/runtime.rs:377-391 | Rust's `/` on `i64`: `None` exactly for a zero divisor or `i64::MIN / -1`, and otherwise the quotient rounded toward zero. |
| Numbers.Remainder | src/runtime.rs:361-376 | Rust's `%` on `i64`: `None` exactly where `/` panics; otherwise smaller than the divisor, with the dividend's sign. |
| Numbers.QuotientRemainder | src/runtime.rs:361-391 | Quotient times divisor plus remainder is the dividend. |
| Numbers.TruncatesTowardZero | src/runtime.rs:361-391 | Worked cases with negative operands (`-7 / 2 == -3`, `-7 % 2 == -1`) that differ from Euclidean division. |
| Numbers.IntArithExact | src/number.rs:22-31 | Integer `+`, `-` and `*` are exact whenever the result fits in `i64`. |
| Numbers.AddWraps | src/number.rs:22-31 | `i64::MAX + 1` wraps to `i64::MIN`; it is not promoted. |
| Numbers.MixedPromotes | src/number.rs:22-31 | Mixed integer and float arithmetic promotes the integer. |
| Numbers.DivOfInts | src/number.rs:84-89 | Dividing two integers gives the float holding the real quotient, even when the division is exact. |
| Numbers.EqAcrossVariants | src/number.rs:91-95 | Equality is numeric across variants: `2 == 2.0`. |
| Numbers.NaNQuirks | src/number.rs:91-118 | NaN is not equal to itself, yet `partial_cmp` answers `Equal` for it. |
| Numbers.TotalAwayFromNaN | src/number.rs:98-118 | Away from NaN, `partial_cmp` agrees with `<`, `==` and `>`, and exactly one of them holds. |
| Symbols.ParseSpecialForm | src/symbol.rs:309-318 | Succeeds exactly on the keywords of the special-form table. |
| Symbols.SymbolFrom | src/symbol.rs:320-328 | A user symbol exactly when the name is not a built-in. |
| Symbols.FormRoundTrip | src/symbol.rs:309-354 | A name parses to a form exactly when that form is displayed as the name. |
| Symbols.ParseFormName | src/symbol.rs:5-27 | Every form's displayed name parses back to the form. |
| Symbols.FormNameParse | src/symbol.rs:330-354 | Every keyword of the table is the displayed name of the form it maps to. |
| Symbols.NameRoundTrip | src/symbol.rs:320-389 | Converting any string to a symbol and displaying it gives the string back. |
| Symbols.SymbolRoundTrip | src/symbol.rs:320-389 | Displaying a symbol and converting back gives the symbol, except for a user symbol spelled like a built-in. |
| Symbols.TablesDisjoint | src/symbol.rs:5-57 | No keyword of a special form is also a built-in symbol name. |
| Symbols.FormNotSymbol | src/symbol.rs:5-57 | No form's name is a built-in symbol name. |
| Text.NatToString | src/lib.rs:140 | The decimal rendering is non-empty and made of digits. |
| Text.NatToStringInjective | src/lib.rs:140 | Distinct numbers render distinctly. |
| Text.ParamNameInjective | src/lib.rs:140-152 | Two positions of one closure are stored under different names. |
| Text.BindingsAt | src/lib.rs:134-155 | The frame binds the i-th value under the i-th parameter name and binds no other name. |
| Nodes.FromIter | src/node.rs:347-359 | Building backwards from the last item gives the nil-terminated list of the items. |
| Nodes.NodeEqRefl | src/node.rs:96-114 | Node equality is reflexive on nodes without NaN. |
| Nodes.AsInt | src/node.rs:117-122 | Succeeds exactly on integer numbers and gives the integer; otherwise `NotANumber`. |
| Nodes.AsNum | src/node.rs:124-129 | Succeeds exactly on numbers; otherwise `NotANumber`. |
| Nodes.AsUserSymbol | src/node.rs:131-136 | Succeeds exactly on user symbols and gives the name; otherwise `NotAUserSymbol`. |
| Nodes.AsPair | src/node.rs:138-143 | Succeeds exactly on pairs and gives car and cdr; otherwise `NotAPair`. |
| Nodes.SetCar | src/node.rs:145-153 | On a pair only the car changes; otherwise `NotAPair`. |
| Nodes.SetCdr | src/node.rs:155-163 | On a pair only the cdr changes; otherwise `NotAPair`. |
| Nodes.NamesShape | src/node.rs:169-196 | A pattern names its fixed positions first and, when it is not a proper list, a rest symbol last. |
| Nodes.AppendNames | src/node.rs:186-196 | `vectorize` appends exactly the pattern's names, in order. |
| Nodes.FitsIff | src/node.rs:198-218 | A proper list takes exactly as many arguments as names; an improper one takes at least its fixed ones. |
| Nodes.PatternMatching | src/node.rs:198-218 | Succeeds exactly when the arguments fit; then the bindings are inserted in order; otherwise `PatternMismatch`. |
| Nodes.BindingsAgree | src/node.rs:198-218 | The i-th name is bound to the i-th argument, and the rest name to the list of the remaining arguments. |
| Nodes.InsertDistinct | src/node.rs:198-218 | With distinct names, each name ends bound to its own value. |
| Nodes.InsertKeeps | src/node.rs:198-218 | Keys not inserted keep their old values, and no other key appears. |
| Nodes.NodeToPattern | src/node.rs:233-252 | Every pattern it returns converts back to the node it came from. |
| Nodes.PatternRoundTrip | src/node.rs:220-252 | Converting a pattern to a node and back gives the pattern. |
| Util.NoLessThanNParams | src/util.rs:14-20 | Fails, with `FewerParams`, exactly when the list is shorter than `n`. |
| Util.ExactlyNParams | src/util.rs:22-28 | Succeeds exactly on length `n`; too many is `MoreParams`, too few `FewerParams`. |
| Util.Vectorize | src/util.rs:79-105 | Succeeds exactly when the cdr chain ends in nil, giving the cars; otherwise `NotAProperList`. |
| Util.SpineOfList | src/util.rs:79-105 | `vectorize` of the list built from a sequence gives the sequence back. |
| Util.NParams | src/util.rs:30-34 | The items of a proper list of exactly `n` items; an improper list is reported before a wrong length. |
| Util.GetNParams | src/util.rs:30-34 | Computes `NParams`. |
| Util.MapToAssocList | src/util.rs:36-44 | Every entry of the map, exactly once, with distinct keys covering the map. |
| Util.EvalArith | src/util.rs:46-59 | Fewer than two operands is `FewerParams`; the first conversion error is returned; otherwise the left fold from the first operand. |
| Util.FoldLeftSnoc | src/util.rs:46-59 | Folding one more operand applies the operator once more, to the fold so far. |
| Util.FirstErrorStops | src/util.rs:46-59 | A conversion error after only successes is the error of the whole sequence. |
| Util.EvalRel | src/util.rs:61-77 | Exactly two operands, both numbers; `t` when the relation holds, `nil` otherwise; the first conversion error otherwise. |
| Util.Counter.Inc | src/util.rs:107-110 | Returns the value before the increment and advances the counter by one. |
| Env.Chain | src/env.rs:40-63 | The frames a lookup visits, innermost first: all of them frames, the first the one it starts from. |
| Env.GetCur | src/env.rs:13-30 | Finds a binding exactly when the frame itself binds the key. |
| Env.Define | src/env.rs:36-38 | Only the current frame's variables change, and only at the key; its outer pointer and every other frame stay. |
| Env.DefinePreservesClosed | src/env.rs:36-38 | Defining keeps every outer pointer leading to a frame. |
| Env.GetIsInnermost | src/env.rs:40-49 | `get` answers with the binding of the innermost frame on the chain that binds the key, and `None` exactly when none does. |
| Env.SetUpdatesInnermost | src/env.rs:51-63 | `set` rewrites the key in the innermost frame binding it and nowhere else; with no such frame the store is unchanged and `None` is answered. |
| Env.SetUnbound | src/env.rs:51-63 | `set` of a key no frame on the chain binds changes nothing. |
| Env.SetFirstBinder | src/env.rs:51-63 | `set` is `define` in the innermost frame that binds the key. |
| Env.DefineThenGet | src/env.rs:36-49 | After `define`, `get` from the same frame finds the new value. |
| Env.DefineOtherKey | src/env.rs:36-49 | `define` of one key does not change any frame's `get` of another key. |
| Heap.BindKeepsBounds | src/runtime.rs:102-105 | Binding a variable to an index inside the area keeps a frame's references inside it. |
| Heap.FramesClosed | src/runtime.rs:77-105 | The runtime's environments, seen as a store of frames, have outer pointers leading to frames. |
| Heap.Rename | src/runtime.rs:516-580 | Translating references keeps the node's kind. |
| Heap.MovedIdentity | src/runtime.rs:582-596 | Without a collection, the identity relocates the area onto itself. |
| Heap.MovedAppend | src/runtime.rs:582-588 | Appending a node keeps a relocation valid. |
| Heap.MovedCompose | src/runtime.rs:484-507 | Two successive relocations compose into one. |
| Heap.MovedKeepsShape | src/runtime.rs:484-507 | A relocation onto the whole new area carries well-formedness and closed environments over. |
| Heap.IsListMoved | src/runtime.rs:900-917 | A relocated list is the list of the relocated elements. |
| Heap.ReachInClosed | src/runtime.rs:516-580 | A set closed under references that holds the starting nodes holds every reachable node. |
| Collector.GcStart | src/runtime.rs:484-486 | The copying invariant holds before anything has moved. |
| Collector.GcForward | src/runtime.rs:516-532 | Copying a node to the end of the new area and leaving a broken heart keeps the invariant. |
| Collector.GcFinish | src/runtime.rs:533-580 | Writing the translated copy once the children have moved keeps the invariant. |
| Collector.GcDoneMoved | src/runtime.rs:484-507 | With nothing pending, the forwarding map relocates the moved nodes onto the whole new area. |
| Collector.GcDoneReach | src/runtime.rs:484-507 | With nothing pending, the moved nodes are exactly those reachable from the roots. |
| Collector.GcBounds | src/runtime.rs:516-580 | Every broken heart points into the new area, which is never longer than the old one. |
| Collector.GcDone | src/runtime.rs:484-507 | With nothing pending, the new area is exactly the relocated reachable nodes, well formed and with closed environments. |
| Runtime.RelocatedCompose | src/runtime.rs:582-596 | Two relocations of stack, roots and area in a row are one relocation. |
| Runtime.Runtime.constructor | src/runtime.rs:676-685 | A runtime with the given capacity and nothing in it. |
| Runtime.Runtime.Clear | src/runtime.rs:687-696 | Empties the stack, both areas, the roots and the packages, keeping the capacity. |
| Runtime.Runtime.Push | src/runtime.rs:336-338 | The index is appended to the stack. |
| Runtime.Runtime.Pop | src/runtime.rs:339-341 | Removes and returns the last entry; an empty stack panics. |
| Runtime.Runtime.Top | src/runtime.rs:342-344 | The last entry of the stack, which stays on it. |
| Runtime.Runtime.Swap | src/runtime.rs:345-350 | Exchanges the two top entries and nothing else. |
| Runtime.Runtime.AddRoot | src/runtime.rs:698-701 | Adds a root under a new name. |
| Runtime.Runtime.SetRoot | src/runtime.rs:702-704 | Inserts or overwrites a root. |
| Runtime.Runtime.RemoveRoot | src/runtime.rs:705-708 | Removes only that root and returns its value. |
| Runtime.Runtime.GetRoot | src/runtime.rs:709-713 | A present root's value, which is inside the area. |
| Runtime.Runtime.AddPackage | src/runtime.rs:468-471 | Registers a package that was not registered before. |
| Runtime.Runtime.GetNode | src/runtime.rs:737-740 | The node at the index in the chosen half. |
| Runtime.Runtime.GetCFunc | src/runtime.rs:745-751 | A closure's body; any other node is an error. |
| Runtime.Runtime.GetNumber | src/runtime.rs:752-758 | A number node's value; any other node is an error. |
| Runtime.Runtime.GetSymbol | src/runtime.rs:759-765 | A symbol node's symbol; any other node is an error. |
| Runtime.Runtime.GetPair | src/runtime.rs:766-774 | A pair node's car and cdr; any other node is an error. |
| Runtime.Runtime.NewNode | src/runtime.rs:582-588 | With room left, appends the node and returns its index. |
| Runtime.Runtime.GcDfs | src/runtime.rs:516-580 | Copies a node and, depth first, what it refers to. It returns where the node went and moves only nodes reachable from it. |
| Runtime.Runtime.Gc | src/runtime.rs:484-507 | The new area, stack and roots are a relocation of exactly the nodes reachable from the roots and the stack. The capacity doubles when nothing was reclaimed. |
| Runtime.Runtime.TryGc | src/runtime.rs:509-514 | Collects only when the area is full; afterwards there is room for one node. |
| Runtime.Runtime.NewNodeWithGc | src/runtime.rs:590-596 | Collects if needed, then appends the node; everything else is relocated. |
| Runtime.Runtime.LoadTo | src/runtime.rs:271-278 | Allocates the node and pushes its index. |
| Runtime.Runtime.NewPair | src/runtime.rs:1007-1013 | Pops the car, then the cdr, and pushes a new pair of their relocated indices. |
| Runtime.Runtime.NodeVecFromStack | src/runtime.rs:891-899 | Pops `nargs` entries and returns their nodes in pop order. |
| Runtime.Runtime.ReverseTop | src/runtime.rs:900-907 | Reverses the top `nargs` entries of the stack. |
| Runtime.Runtime.ZipStackNodes | src/runtime.rs:900-917 | Replaces the top `nargs` entries by a list of them, the former top first, relocating the rest. |
| Runtime.Runtime.NewEnv | src/runtime.rs:777-785 | Allocates an empty frame whose outer pointer is where `outer` went. |
| Runtime.Runtime.CurrentEnv | src/runtime.rs:786-790 | The root `__cur_env`. |
| Runtime.Runtime.TopEnv | src/runtime.rs:791-805 | Allocates the outermost frame and makes it both the top and the current environment. |
| Runtime.Runtime.GetCurEnv | src/runtime.rs:806-817 | On a frame, that frame's own binding; on another node, `None`. |
| Runtime.Runtime.MoveToEnv | src/runtime.rs:818-825 | Makes a frame current; only `__cur_env` changes. |
| Runtime.Runtime.GetOuterEnv | src/runtime.rs:826-833 | The frame's outer pointer, which leads to a frame. |
| Runtime.Runtime.InsertCurEnv | src/runtime.rs:834-845 | Binds the key in that frame, which is `Env.Define` on the area's frames; nothing else changes. |
| Runtime.Runtime.EnvGet | src/runtime.rs:77-101 | `Env.Get` over the area's frames; the value is inside the area. |
| Runtime.Runtime.EnvSet | src/runtime.rs:77-105 | `Env.Set` over the area's frames. |
| Runtime.Runtime.BindArgs | src/lib.rs:134-155 | Binds the arguments in a fresh current frame: fixed parameters in pop order, and for a variadic closure the rest zipped into a list bound to the last parameter. |
| Runtime.Runtime.PrepareArgs | src/runtime.rs:846-889 | A non-closure is an error and an arity the check rejects is an error. Otherwise a new current frame inside the closure's environment binds the arguments. |
| Runtime.Runtime.SetCar | src/runtime.rs:977-986 | On a pair only its car changes; another node is an error and changes nothing. |
| Runtime.Runtime.SetCdr | src/runtime.rs:988-997 | As `SetCar`, for the cdr. |
| Runtime.Runtime.ApplyArith | src/runtime.rs:357-360 | `+ - * /` fold the popped operands and push the result. |
| Runtime.Runtime.ApplyRel | src/runtime.rs:404-408 | Comparisons of two operands push `t` or `nil`. |
| Runtime.Runtime.ApplyIntDiv | src/runtime.rs:361-392 | `remainder` and `quotient` on two integers push Rust's `%` or `/`. |
| Runtime.Runtime.ApplyEq | src/runtime.rs:393-403 | `eq?` pushes `t` or `nil` by structural equality. |
| Runtime.Runtime.ApplyUnary | src/runtime.rs:409-442 | `atom?` and `number?` answer `t` or `nil`; `car` and `cdr` push a field. |
| Runtime.Runtime.ApplyCons | src/runtime.rs:443-446 | `cons` pushes a new pair. |
| Runtime.Runtime.ApplyList | src/runtime.rs:447-450 | `list` zips its operands into a list. |
| Runtime.Runtime.Apply | src/runtime.rs:352-463 | Pops the operator, which must be a symbol other than `nil` and `t`, and runs the built-in it names; `floor`, `ceiling`, `sin`, `cos` and `abs`, which have no case there, fail with `Unsupported` (see Left out). |
| Runtime.PrepareArityCalls | src/runtime.rs:846-860 | `prepare_args`' arity check admits only calls the binding handles. It is stricter: a variadic closure needs at least one rest argument. |
| Runtime.ParamBound | src/lib.rs:136-141 | The i-th fixed parameter is bound to the i-th argument popped. |
| Runtime.BoundLastVariadic | src/lib.rs:145-155 | For a variadic closure, the rest list, built by a collection, is bound to the last parameter, and the earlier bindings are relocated. |
| Runtime.NodeEqSymmetric | src/runtime.rs:1015-1030 | `node_eq` is symmetric. |
| Runtime.NodeEqMoreFuel | src/runtime.rs:1015-1030 | An answer reached at one depth is the answer at every larger depth. |
| Runtime.NodeEqMoved | src/runtime.rs:1015-1030 | A collection does not change what `eq?` answers. |
| Runtime.GcConclude | src/runtime.rs:484-507 | At the end of `gc` the copied area, rewritten stack and rewritten roots relocate exactly the reachable nodes. |
| Lib.RestCountAsWritten | src/lib.rs:145-147 | The rest count in wrapping `usize` arithmetic; exact when the closure's fixed parameters do not outnumber the arguments. |
| Lib.TooFewArgumentsAdmitted | src/lib.rs:118-155 | The arity check as written lets a 3-parameter variadic closure be called with 1 argument, and the rest count wraps. |
| Lib.ArityChecks | src/lib.rs:118-123 | The intended check admits a subset of the written one, differing exactly on variadic calls that lack fixed arguments. |
| Lib.CallArityRest | src/lib.rs:134-155 | Under the intended check, fixed parameters and the rest list take exactly the arguments. |
| Lib.ReturnedRestores | src/lib.rs:164-175 | A returned call leaves the same roots and the caller's frame current again. |
| Lib.CallEnter | src/lib.rs:105-162 | Pops the closure, saves the current frame, enters the callee's frame with the arguments bound. |
| Lib.CallLeave | src/lib.rs:167-175 | Pops the result and the saved frame, restores the frame, and pushes the result. |
| Lib.CallReturned | src/lib.rs:104-176 | Entering, running the body and leaving together give the caller's state relocated, with the result pushed. |
| Lib.CallClosure | src/lib.rs:104-176 | `call_closure` with the intended arity check: a non-closure or a wrong arity is an error; otherwise the returned state. |
| Lib.TailCallClosure | src/lib.rs:46-102 | As `call_closure`, without saving or restoring the caller's frame. |
| Lib.TailCallStaysInCallee | src/lib.rs:46-102 | After a tail call the current frame is the callee's. |
| Lib.EmptyRest | src/lib.rs:145-155 | A variadic closure given exactly its fixed arguments binds its last parameter to nil. |
| Lib.RtSetCar | src/lib.rs:386-399 | On a pair, returns the pair's index after setting its car; otherwise 0 and nothing changes. |
| Lib.RtSetCdr | src/lib.rs:400-413 | As `RtSetCar`, for the cdr. |
| Lib.RtGetBool | src/lib.rs:469-480 | 0 exactly for the symbol nil, 1 for anything else. |
| Lib.RtIsSymbol | src/lib.rs:481-488 | 1 exactly for a symbol node. |
| Lib.RtDefine | src/lib.rs:339-353 | `Env.Define` in the current frame. |
| Lib.RtSet | src/lib.rs:354-368 | `Env.Set` along the current chain; an unbound name changes nothing. |
| Lib.RtGet | src/lib.rs:369-385 | `Env.Get` along the current chain; it must find a binding. |
| Lib.RtImport | src/lib.rs:489-509 | A package is initialized exactly when it was not registered; afterwards it is registered. Only the package set is tracked (see Left out). |
| Lexer.SkipWs | src/lexer.rs:136-143 | The first non-whitespace position at or after the cursor. |
| Lexer.Until | src/lexer.rs:150-172 | The first position holding the character, or the end. |
| Lexer.SymbolEnd | src/lexer.rs:76-87 | A symbol runs up to the first special character. |
| Lexer.NumRun | src/lexer.rs:89-132 | Where the number recognizer stops, and in which state. |
| Lexer.NumberToken | src/lexer.rs:89-132 | A number token is at least one character long. |
| Lexer.Peek | src/lexer.rs:134-180 | The token after whitespace and comments; the cursor moves past comments only. |
| Lexer.PeekAgain | src/lexer.rs:134-180 | Peeking again from where a peek left the cursor sees the same token and does not move. |
| Lexer.BlankYieldsNothing | src/lexer.rs:191-198 | Whitespace up to the end yields no token. |
| Lexer.CommentSkipped | src/lexer.rs:163-174 | A comment yields nothing; scanning resumes after its newline. |
| Lexer.Punctuation | src/lexer.rs:146-149 | `(`, `)`, `'` and `.` are one-character tokens. |
| Lexer.IntLiteral | src/lexer.rs:89-132 | `-?digits` gives an integer with its decimal value, or an overflow error outside `i64`. |
| Lexer.FloatLiteral | src/lexer.rs:89-132 | `-?digits.digits` gives a float with its exact decimal value. |
| Lexer.LoneMinus | src/lexer.rs:89-132 | A `-` not followed by a digit is the symbol `-`. |
| Lexer.DotWithoutFraction | src/lexer.rs:89-132 | `digits.` with no digit after it is a syntax error. |
| Lexer.DigitsOfNat | src/lexer.rs:89-132 | Reading back the decimal rendering of a number gives the number. |
| Lexer.Lexer.constructor | src/lexer.rs:29-38 | The cursor starts at 0. |
| Lexer.Lexer.PeekSymbol | src/lexer.rs:76-87 | The symbol from the cursor to its end. |
| Lexer.Lexer.PeekNumber | src/lexer.rs:89-132 | Computes `NumberToken`. |
| Lexer.Lexer.PeekNextToken | src/lexer.rs:134-180 | Computes `Peek` and moves the cursor as it says. |
| Lexer.Lexer.TryNext | src/lexer.rs:182-189 | Computes `Advance`. |
| Lexer.Lexer.Consume | src/lexer.rs:54-63 | Succeeds exactly when the next token is the one expected. |
| Lexer.Lexer.ConsumeSymbol | src/lexer.rs:65-74 | Succeeds exactly on a symbol token and gives its name. |
| Lexer.Lexer.Next | src/lexer.rs:191-198 | Computes `NextItem`. |
| Parser.ExprAt | src/parser.rs:79-119 | The cursor never moves back, and a parsed expression consumed something; a string token is read as a symbol (see Left out). |
| Parser.ListAt | src/parser.rs:46-77 | As `ExprAt`, for the rest of a list. |
| Parser.AfterPeek | src/parser.rs:79-119 | A look-ahead done just before does not change what is parsed. |
| Parser.EmptyList | src/parser.rs:46-77 | `()` is nil. |
| Parser.ProperList | src/parser.rs:46-77 | `(e1 ... en)` is the list of the parsed elements. |
| Parser.PlainList | src/parser.rs:79-119 | `(` not followed by a form name starts a plain list. |
| Parser.FormHead | src/parser.rs:79-119 | A form name right after `(` becomes the list's head. |
| Parser.QuoteForm | src/parser.rs:79-119 | `'x` reads as `(quote x)`. |
| Parser.NoExpression | src/parser.rs:79-119 | `)` or `.` where an expression starts is a syntax error; the end is EOF. |
| Parser.DottedTail | src/parser.rs:46-77 | After a dot exactly one expression and `)` must follow. |
| Parser.ProgramStopsSilently | src/node.rs:367-383 | A look-ahead that fails ends the program as if the text were over. |
| Parser.ExprHeadForms | src/parser.rs:79-119 | A parsed expression holds special forms only at the head of a list. |
| Parser.ProgramHeadForms | src/node.rs:367-383 | Every form of a program has that shape too. |
| Parser.Parse | src/parser.rs:79-119 | Computes `ExprAt` and moves the cursor as it says. |
| Parser.ParseList | src/parser.rs:46-77 | Computes `ListAt`. |
| Parser.FromStr | src/node.rs:367-383 | The program's forms wrapped in `(begin ...)`, or the first error. |
| Preprocess.DeepCopy | src/preprocess.rs:50-61 | A tree equal to the original. |
| Preprocess.Replace | src/preprocess.rs:63-80 | Keeps trees free of procedures free of them. |
| Preprocess.ReplaceAbsent | src/preprocess.rs:63-80 | A tree without `src` is left unchanged. |
| Preprocess.ReplaceRemoves | src/preprocess.rs:63-80 | When `dst` does not contain `src`, no occurrence of `src` is left. |
| Preprocess.InOrderIsSubst | src/preprocess.rs:92-103 | When no bound value mentions a bound variable, replacing one binding at a time, in any order, is simultaneous substitution. |
| Preprocess.SubstituteInOrder | src/preprocess.rs:92-103 | The expansion loop replaces the bindings in the map's iteration order. |
| Preprocess.OrderMatters | src/preprocess.rs:92-103 | When a value mentions another variable, the two orders of the same bindings expand differently. |
| Preprocess.MacroOrderMatters | src/preprocess.rs:92-103 | `(define-syntax-rule (m a b) (cons a b))` applied to `(m b 1)` expands to `(cons 1 1)` or to `(cons b 1)`, depending on the map's order. |
| Preprocess.MacroSwapAsWritten | src/preprocess.rs:92-103 | The same macro applied to `(m b a)`: under either order of the two bindings the loop gives `(cons a a)` or `(cons b b)`, never the swapped `(cons b a)`. |
| Preprocess.MacroSwapIntended | src/preprocess.rs:92-103 | The macro call of the model gives `(cons b a)` for `(m b a)`: each parameter is replaced by its own argument. |
| Preprocess.MacroCallAgrees | src/preprocess.rs:92-103 | When no argument mentions a parameter, the loop in any iteration order gives exactly the model's macro call. |
| Preprocess.TwoKeyListings | src/preprocess.rs:98-101 | A map with two keys is iterated in one of exactly two orders. |
| Preprocess.CondChain | src/preprocess.rs:132-152 | Fails with `NotAPair` exactly when some clause is not a pair. |
| Preprocess.CondShape | src/preprocess.rs:132-152 | The i-th `if` tests the i-th condition and runs that clause's `(begin ...)`; nil is below the last. |
| Preprocess.OrShape | src/preprocess.rs:195-216 | The i-th `if` tests the i-th operand and returns it; nil is below the last. |
| Preprocess.AndShape | src/preprocess.rs:153-194 | The i-th `if` tests whether the i-th operand is nil and returns it; the last is returned either way. |
| Preprocess.LetParts | src/preprocess.rs:217-246 | Succeeds exactly when each binding and its value part are pairs; gives keys and first values in order. |
| Preprocess.DesugarCond | src/preprocess.rs:132-152 | Computes `CondChain`. |
| Preprocess.DesugarAnd | src/preprocess.rs:153-194 | Computes `AndChain`. |
| Preprocess.DesugarOr | src/preprocess.rs:195-216 | Computes `OrChain`. |
| Preprocess.SplitBindings | src/preprocess.rs:217-246 | Computes `LetParts`. |
| Preprocess.PreprocessPair | src/preprocess.rs:87-246 | Computes `Dispatch`; a macro call replaces every parameter by its own argument at once (see Findings). |
| Preprocess.Preprocess | src/preprocess.rs:82-246 | Computes `Expand`, with macro calls expanded as in `PreprocessPair`. |
| Preprocess.DispatchNoDerived | src/preprocess.rs:87-246 | A pair whose halves are free of derived forms is rewritten without them, and the macros it stores stay clean. |
| Preprocess.ExpandNoDerived | src/preprocess.rs:82-246 | Preprocessing leaves no `cond`, `and`, `or`, `let` or `define-syntax-rule`. |
| Compile.LambdaIds.Inc | src/compile.rs:19-23 | Returns the counter after the increment, so ids start at 1. |
| Compile.CodeGen.NewMain | src/compile.rs:56-62 | A main generator with no code and no closures. |
| Compile.CodeGen.NewInternal | src/compile.rs:63-69 | An internal generator for closure `id`. |
| Compile.CodeGen.NewLibrary | src/compile.rs:70-77 | A library generator. |
| Compile.CodeGen.AppendCode | src/compile.rs:78-81 | Appends the code to the body. |
| Compile.CodeGen.Merge | src/compile.rs:82-89 | Takes over an internal generator's closures, and its body under its new id. |
| Compile.CodeGen.Render | src/compile.rs:111-148 | Every closure is declared and defined, and only a main generator starts the runtime. |
| Compile.Gen | src/compile.rs:170-347 | Ids never go back, and every closure merged got an id handed out during the call. |
| Compile.LambdaBody | src/compile.rs:190-205 | The renamed body keeps its size and holds no procedure. |
| Compile.CompileSymbol | src/compile.rs:154-167 | Appends the push of the symbol. |
| Compile.CompileNode | src/compile.rs:170-347 | Appends `Gen`'s code and closures to the generator and advances the counter as `Gen` says. |
| Compile.CompileForm | src/compile.rs:186-321 | As `CompileNode`, for special forms (`GenForm`). |
| Compile.CompileDisplay | src/compile.rs:224-243 | As `CompileNode`, for `display` and `newline`. |
| Compile.CompileDefine | src/compile.rs:249-265 | As `CompileNode`, for `define`. |
| Compile.CompileSet | src/compile.rs:92-108 | As `CompileNode`, for `set!`, `set-car!` and `set-cdr!`. |
| Compile.CompileIf | src/compile.rs:285-294 | As `CompileNode`, for `if`. |
| Compile.CompileLambda | src/compile.rs:187-223 | As `CompileNode`, for `lambda`. |
| Compile.CompileBegin | src/compile.rs:301-312 | As `CompileNode`, for the forms of `begin`. |
| Compile.CompileOperands | src/compile.rs:327-329 | As `CompileNode`, for the operands in reverse. |
| Compile.CompileApply | src/compile.rs:323-342 | As `CompileNode`, for an application. |
| Compile.RenameParams | src/compile.rs:196-205 | The i-th parameter is renamed `#i_func_{id}`, one after the other. |
| Compile.GenBalanced | src/compile.rs:170-347 | For a tree in which every `begin` and every `lambda` has a body (`Blocks`), compiled code leaves exactly one value on the stack, and so does every closure body it creates. |
| Compile.EmptyBodiesLeaveNothing | src/compile.rs:187-223 | Without that condition the balance fails: `(begin)` compiles to no code, and `(lambda ())` to a closure whose body pushes nothing. |
| Compile.BeginBalanced | src/compile.rs:301-312 | The forms of a `begin` whose forms have bodies leave one value in all, or none when there are no forms; which value that is follows from `BeginSeparated`. |
| Compile.RevBalanced | src/compile.rs:327-329 | The operands leave one value each. |
| Compile.ApplyBalanced | src/compile.rs:323-342 | An application leaves one value. |
| Compile.BeginSeparated | src/compile.rs:301-312 | `begin` emits the forms' code in order, separated by pops. |
| Compile.SeparatedPops | src/compile.rs:301-312 | `n` forms hold `n - 1` pops besides their own. |
| Compile.RevAtoms | src/compile.rs:327-329 | Atom operands are pushed last one first. |
| Compile.ApplyAtoms | src/compile.rs:323-342 | `(f x0 ... xn-1)`: `xn-1` is pushed first, `x0` last, then `f`, then the call. |
| Compile.RenamesDistinct | src/compile.rs:199-205 | Distinct parameters get distinct new names. |
| Compile.LambdaRenaming | src/compile.rs:199-205 | With distinct names not spelled like renamed ones, the renaming is simultaneous substitution. |
| Complete.LastBreak | src/repl_complete.rs:38-59 | The last whitespace or `(` of the text, with no break after it; or `None` when there is none. |
| Complete.WordStart | src/repl_complete.rs:38-59 | The word runs from one past the last break to the cursor and holds no break. |
| Complete.Complete | src/repl_complete.rs:38-59 | The start of the word under the cursor and the candidates matching it. |
| Complete.MatchesShape | src/repl_complete.rs:38-59 | Every suggestion displays what it inserts, which starts with the word. |
| Complete.MatchesExactly | src/repl_complete.rs:38-59 | The suggestions are exactly the candidates starting with the word, with their multiplicity. |
| Complete.MatchesInOrder | src/repl_complete.rs:38-59 | The suggestions keep the candidates' order. |
| Complete.Hint | src/repl_complete.rs:17-20 | Never a hint. |
| Complete.Validate | src/repl_complete.rs:27-33 | Every line is valid. |
| Eval.EvalSymbol | src/eval.rs:269-277 | A user symbol is its binding on the chain, or `SymbolNotFound`; any other symbol is itself. |
| Eval.EvalNode | src/eval.rs:354-373 | Evaluation never loses a frame, only appends output, and keeps the store well formed. |
| Eval.EvalArgs | src/eval.rs:293-299 | Gives one value per operand, all valid. |
| Eval.ArgsStopAtError | src/eval.rs:293-299 | Operands after a failing one are not evaluated. |
| Eval.BeginStopsAtError | src/eval.rs:223-230 | Forms after a failing one are not evaluated. |
| Eval.EvalQuote | src/eval.rs:155 | Its one operand, unevaluated; the state is unchanged. |
| Eval.MakeLambda | src/eval.rs:217-221 | A procedure exactly when the pattern converts; the body wrapped in `begin`, over the current frame. |
| Eval.Arith | src/eval.rs:22-26 | Succeeds exactly on two or more numbers, giving a number. |
| Eval.Rel | src/eval.rs:28-32 | Succeeds exactly on two numbers, giving `t` or `nil` as the relation says. |
| Eval.Builtin | src/eval.rs:301-345 | `car` and `cdr` need one pair, `cons` and `eq?` two operands; `t` and `nil` cannot be heads; the built-ins with no case fail (see Left out). |
| Eval.BuiltinValid | src/eval.rs:301-345 | A built-in returns parts of its operands or new atoms. |
| Eval.Interpreter.constructor | src/node.rs:81-91 | One global frame and no output. |
| Eval.Interpreter.Eval | src/eval.rs:354-373 | Computes `EvalNode` on the interpreter's state. |
| Eval.Interpreter.EvalCombination | src/eval.rs:354-373 | Computes `EvalPair`. |
| Eval.Interpreter.Apply | src/eval.rs:380-408 | Computes `ApplyHead`. |
| Eval.Interpreter.EvalOperands | src/eval.rs:293-299 | Computes `EvalArgs`. |
| Eval.Interpreter.EvalSequence | src/eval.rs:223-230 | Computes `EvalBegin`. |
| Eval.Interpreter.ApplySpecialForm | src/eval.rs:148-263 | Computes `ApplyForm`. |
| Eval.Interpreter.EvalIfForm | src/eval.rs:156-165 | Computes `EvalIf`. |
| Eval.Interpreter.EvalDefineForm | src/eval.rs:166-179 | Computes `EvalDefine`. |
| Eval.Interpreter.EvalSetForm | src/eval.rs:180-189 | Computes `EvalSet`. |
| Eval.Interpreter.EvalSetFieldForm | src/eval.rs:190-215 | Computes `EvalSetField`. |
| Eval.Interpreter.EvalDisplayForm | src/eval.rs:246-257 | Computes `EvalDisplay`. |
| Eval.Interpreter.ApplyBuiltin | src/eval.rs:284-349 | Computes `ApplySymbol`. |
| Eval.Interpreter.ApplyLambda | src/eval.rs:392-406 | Computes `ApplyProcedure`. |
| Eval.CallBuiltin | src/eval.rs:301-345 | Computes `Builtin` with the helpers of the utility module. |
| EvalLaws.SelfEvaluating | src/eval.rs:354-373 | Numbers, forms, procedures and built-in symbols are their own values; nothing changes. |
| EvalLaws.SymbolLookup | src/eval.rs:269-277 | A user symbol is its binding in the innermost frame that binds it; it is `SymbolNotFound` exactly when none does. |
| EvalLaws.FormCall | src/eval.rs:354-373 | A list headed by a special form applies it to the unevaluated operands. |
| EvalLaws.IfChooses | src/eval.rs:156-165 | `(if c a b)` evaluates the test first, propagates its error, then `a` unless the value is nil, otherwise `b`. |
| EvalLaws.IfZero | src/eval.rs:156-165 | `(if 0 a b)` is `a`. |
| EvalLaws.IfNil | src/eval.rs:156-165 | `(if nil a b)` is `b`. |
| EvalLaws.DefineThenLookup | src/eval.rs:166-179 | `define` binds the value in the current frame and gives nil; a later lookup finds the value. |
| EvalLaws.DefineNeedsUserSymbol | src/eval.rs:166-179 | Defining a non-user symbol fails before evaluating, changing nothing. |
| EvalLaws.SetRebinds | src/eval.rs:180-189 | `set!` rebinds in the innermost binding frame; an unbound name changes nothing, without error. |
| EvalLaws.BeginForm | src/eval.rs:223-230 | `(begin x ...)` evaluates its forms in turn; `(begin)` is the `begin` form. |
| EvalLaws.BeginFromFront | src/eval.rs:223-230 | The first form runs first; its error ends the sequence; the rest runs in the state it left. |
| EvalLaws.NumbersEvaluateToThemselves | src/eval.rs:293-299 | Number operands evaluate to themselves. |
| EvalLaws.BuiltinCall | src/eval.rs:284-349 | A built-in head evaluates the operands left to right and applies the built-in. |
| EvalLaws.SumOfNumbers | src/eval.rs:301-345 | `(+ n1 n2 ...)` is the left fold of the numbers. |
| EvalLaws.HeadNotApplicable | src/eval.rs:380-408 | A number or a pair at the head is `CannotBeHead`; the operands are not evaluated. |
| EvalLaws.CallFrame | src/node.rs:198-218 | A call's frame binds each fixed name to its argument and the rest name to the remaining ones, and nothing else. |
| EvalLaws.ProcedureCall | src/eval.rs:392-406 | Operands are evaluated in the caller's frame. Errors propagate, and a mismatch is `PatternMismatch`. Otherwise the body runs in a new frame inside the procedure's own. |

## Left out

- I/O: the REPL loop, reading files, writing the C file and calling the C compiler (src/main.rs) are not part of this model. The output of `display` is kept as a sequence of nodes, not as rendered text.
- Rendering: how a node is turned into text (`Display for Node`, the runtime's `display_node_idx`) is not modelled.
- Debugging hooks: the debugger and logger (src/graph.rs, src/logger.rs, `dbg_loop`, `breakpoint`, `evaluated`, `api_called`, `bind_graph`, `bind_break`, `bind_eval`) are not part of this model. `rt_breakpoint` and `rt_evaluated` are not modelled.
- Lib.RtImport: only the set of registered packages is tracked. Loading the shared library (`load_library`, src/package.rs) and running its init function (`call_library_fn`, src/package.rs:69-80) are not modelled, and neither are the init's effects on the runtime (the names it defines and the nodes it allocates). The two failure paths are not modelled either: the `expect` panic when the library cannot be loaded, and the `unwrap_result` panic when its init fails. A name that is not valid UTF-8, which src/lib.rs:505 only logs, cannot arise because names are character strings here.
- Runtime.Runtime.Apply: the `match operator` of src/runtime.rs:355-462 has no arm for `floor`, `ceiling`, `sin`, `cos` or `abs`, so the source text does not say what applying them does; the `Err(Unsupported)` that `ApplySymbol` returns and `SymbolApplied` states for them is an assumption of the model.
- Foreign functions: the compiled body of a closure is foreign code. `call_closure` is modelled as its two halves around an arbitrary body that pushes one value.
- Graphviz: `SpecialForm::Graphviz` appears in src/eval.rs and src/compile.rs but not in src/symbol.rs. The model follows src/symbol.rs and has no such form.
- Stack growth: the `stacker` growth of the native stack in eval is not modelled. Recursion is bounded by fuel instead.
- Eval.EvalSetField: `set-car!` and `set-cdr!` rebind the name to the changed pair. The source mutates a node that other bindings may share, so that aliasing is not modelled.
- Nodes.NodeEq: a procedure's environment compares by frame index, not by the frame's contents.
- Numbers.FAdd: floats are exact reals plus infinities and NaN. Rounding and signed zero are not modelled.
- Env.Get: chain walks are bounded by fuel. For a store of `n` frames a bound of `n` is enough for acyclic chains, and the source never builds a cyclic one; that absence of cycles is not proved.
- Runtime.Runtime.NewNodeWithGc: when a collection may run, the node given must not refer to other nodes, since the source does not relocate it.
- Runtime.Runtime.GcDfs: the depth-first copy is proved for the copying invariant. The recursion depth and stack use of the native code are not modelled.
- Eval.Builtin: the `match` of src/eval.rs:301-343 has no arm, and no wildcard, for `remainder`, `quotient`, `floor`, `ceiling`, `sin`, `cos` and `abs` (src/symbol.rs:42-48), so the source text says nothing about them; the model's `Err(Unsupported)` for them is an assumption. The compiled runtime implements `remainder` and `quotient` (Runtime.Runtime.ApplyIntDiv).
- Eval.Builtin: a user symbol at the head after evaluation (a name bound to a quoted symbol, say) makes src/eval.rs:302 panic; the model returns `Err(Unreachable)` instead.
- Eval.ApplyForm: a special form the interpreter has no case for (`import`, `read`, `apply`, or one the preprocessor should have removed, such as `cond` or `let`) reaching evaluation hits `unreachable!()` at src/eval.rs:260; the model returns `Err(Unreachable)` instead.
- Runtime.NodeEq: comparing two closures panics in src/runtime.rs:52-56, and comparing cyclic structures recurses until the native stack is exhausted; the model returns `Err(Unreachable)` and, when its fuel runs out, `Err(OutOfFuel)`.
- Parser.ExprAt: the `match` of src/parser.rs:80-117 has no arm for a string token, so the source text does not say how one parses; reading it as a symbol of the same name is an assumption of the model. Parser.Parse inherits it.
- Collector: src/runtime.rs:484-580 is a copying collector between two halves, so live nodes move; the model follows it and states each move as a relocation.
- Unbound `set!`: src/eval.rs:180-189 ignores the `None` from `set`, so `set!` of an unbound name silently does nothing, and so does the model.
- Complete.WordStart: the cursor and the word's start are UTF-8 byte offsets in src/repl_complete.rs:38-59; the model counts characters, which agree only on ASCII text. Complete.LastBreak and Complete.Complete inherit this.
- Compile.GenBalanced: the one-value balance is proved only for trees in which every `begin` and every `lambda` has a body. `(begin)` and `(lambda ())` leave no value in compiled code (Compile.EmptyBodiesLeaveNothing), while the interpreter gives `(begin)` a value (EvalLaws.BeginForm); that divergence is the source's and is not corrected.
- Preprocess.Preprocess: macro calls substitute all arguments at once. src/preprocess.rs:98-101 replaces one binding at a time in `HashMap` iteration order, which the model keeps as Preprocess.SubstituteInOrder and which gives other results when an argument mentions a parameter (Findings).
- Lexer.NextItem: `Iterator::next` panics on a lexical error other than the end of text; here that error is returned as a value.

## Findings

| source | as written | input that shows it | evidently intended | confidence | as-written member | corrected member |
|---|---|---|---|---|---|---|
| src/lib.rs:118-147 | `call_closure` and `tail_call_closure` check the arity only for a closure that is not variadic, then compute `nparams - c.nargs + 1` in `usize` | a variadic closure with 3 parameters called with 1 argument: binding pops 2 entries for the 2 fixed parameters and the rest count wraps around | a variadic closure needs at least its `nargs - 1` fixed arguments; the rest list may be empty (`prepare_args`, src/runtime.rs:853, is stricter still and demands one rest argument) | not executed | Lib.TooFewArgumentsAdmitted | Lib.CallClosure, Lib.TailCallClosure |
| src/preprocess.rs:92-103 | a macro call replaces its bindings one after the other, in the iteration order of a fresh `HashMap`, so a later replacement also rewrites arguments already put in | `(define-syntax-rule (m a b) (cons a b))` then `(m b a)`: either order gives `(cons a a)` or `(cons b b)` | each parameter replaced by its own argument, giving `(cons b a)` whatever the order | not executed | Preprocess.MacroSwapAsWritten | Preprocess.MacroSwapIntended |
