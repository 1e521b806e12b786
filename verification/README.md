# Verified models of the compiler's core algorithms

This project models seven parts of the compiler's front end in Dafny and proves what they promise.
`dafny verify dfyconfig.toml` checks everything.

| files | component |
|---|---|
| `Bits.dfy`, `PowerOfTwo.dfy` | bitwise operations on unbounded naturals, masks, rounding up to a power of two |
| `ScopeTable.dfy`, `ScopeMap.dfy`, `ScopeMapRuns.dfy` | the Robin Hood hash map behind every scope lookup, refined to a finite map |
| `Statements.dfy`, `StatementRuns.dfy`, `MissingReturn.dfy`, `MissingReturnRejected.dfy` | the "missing return" analysis, the runs of a statement, exactly when an accepted statement completes normally, and when a rejected one does |
| `EntityDecl.dfy` | on-demand declaration resolution as a depth-first search with guarded and outright demands and cycle reports |
| `ProcGroup.dfy` | procedure groups: collecting members and filtering conflicting ones |
| `SoaTypes.dfy`, `SoaProtocol.dfy` | struct-of-arrays types: eager and deferred construction, and concurrent completion |
| `AutoUnion.dfy`, `AutoUnionNames.dfy`, `AutoUnionExamples.dfy` | membership of `auto_union` by two tests, in any state of the checker, and what the names in declarations find |
| `LoadFileCache.dfy` | the tiered cache behind `#load`, `#exists` and `#load_hash` |
| `BigInt.dfy`, `BigIntText.dfy`, `BigIntParse.dfy`, `BigIntLiteral.dfy`, `BigIntExponent.dfy`, `BigIntRoundTrip.dfy` | big integers: remainders, shifts, width-limited complement, printing, reading, literals, exponents and the round trip |
| `Options.dfy`, `Sets.dfy` | an optional value, and the size of a subset |
| `DynamicArray.dfy`, `RangeCache.dfy` | the growable array with its amortised cost, and the cache of integer ranges |

How the models relate to the source:

- Machine words are naturals with the wrap-around written out. `(pos - hash) & mask` is modelled as a
  32-bit wrapped difference followed by a bitwise `and` on binary digits, and is proved to be the cyclic distance.
- Code that updates state in place is a class or an array method; each such method is proved against a
  specification function, and the properties are lemmas about that function.
- Ghost parameters (the table as a value, the finite map, the call stack) exist only in proofs.
- Calls into the multiple-precision library are operations on mathematical integers, the file system and
  the hash functions of `#load_hash` are parameters, and diagnostics are counts or flags.
- A loop of the source that is shared by several callers, or that sits inside a long procedure, is a method
  of its own; a method that only drives a class (`Run`, `Serve`, `AddAll`, `AddOneByOne`, `InjectThenRemove`,
  `EagerMeetsDeferred`) states a theorem about every sequence of calls.

Where the code does not do what its name or comment promises, the code is modelled as it is and the exact
condition is proved:

- `scope_map_reserve` swaps in blank storage without placing the old entries in it. The map survives exactly
  when nothing is swapped or nothing was stored, told from the requested capacity (`ScopeMaps.ScopeMap.Reserve`).
- The missing-return analysis does not look for breaks out of labelled blocks, `if`s and switches and takes a flagged
  `or_break` value for a terminating statement. Its break scan has no case for `when` and `#unroll`, for returned values, tags and
  ranges, sees only expressions on which the `or_break` flag is set, and acceptance of an endless loop does not look at
  its init statement. `MissingReturn.Leaks` lists these constructs, each only where control reaches it; an accepted
  statement can complete normally exactly when it has one of them, and a smallest example of each is given.
- The same analysis may reject a body that always returns: a dead statement after a `return` decides, a dead break counts, and
  an unrolled loop is never accepted. On bodies without these (`RejectedBodies.InOrder`: what decides can be reached, and so
  can every break that a scan meets) it is complete: a body returns on every run exactly when it is accepted and does not leak.
- The variants of `auto_union` depend on when it is checked. A struct that is being checked has no fields for the type
  test until its first field is known, so a candidate behind it is dropped; the syntax test stops where a name does not
  show the type; and the two tests count hops differently, 65 and 64. What a state makes of every candidate is
  told exactly (`AutoUnion.VariantsAreEmbedders`), and the variants are the same in all states exactly when every
  candidate names the target or a plain alias of it as its own first field, or does not reach it
  (`AutoUnion.OrderSafe`). Two programs with all their states are given. Whether a program gets into a
  state depends also on where else it mentions the union.
- A cycle of declarations that is asked for partly by plain identifiers, which skip entities in progress, is reported or
  not depending on where the search enters it (`EntityDecl.MixedCycleDependsOnRoot`). For constants, variables and types
  `check_cycle` (`src/check_expr.cpp:1804-1824`, called at line 1971) reports such a cycle separately, as long as the type
  path is unbroken; it is not part of this model.
- `big_int_to_string` stops its reversal at half of the whole buffer, so behind a minus sign the middle pair of an even
  number of digits is left unswapped: -12 prints as `-21`. Digits above 9 print as `k` to `p`, which no base reads.
  The round trip holds exactly when neither happens (`BigIntRoundTrip.Readable`).
- `big_int_shr` reads the sign of x after writing dst. When they are one object the result is the floor exactly
  outside (-2^k, 0); `big_int_shr_eq` copies first and is always right.
- A bad character in a decimal exponent clears the success flag, but raising to the exponent sets it again, and the
  exponent wraps around at 2^64: `1e2x` reads as 100 and `1e18446744073709551616` as 1. The reader is right exactly
  when neither makes a small exponent out of another text (`BigIntExponent.ExponentReadAsWritten`).

## Model

| member | source | states |
|---|---|---|
| ScopeMaps.MaskedHome | src/checker.hpp:305 | masking a hash with capacity - 1 gives its home slot, the hash modulo the capacity |
| ScopeMaps.MaskedNext | src/checker.hpp:336 | masking pos + 1 is one step around the ring |
| ScopeMaps.MaskedDistance | src/checker.hpp:318 | the masked wrapped difference is the cyclic distance of slot pos from the entry's home |
| ScopeTable.Chain | src/checker.hpp:439-461 | between an entry's home and its slot there is no gap, and every entry there is at least as far from its own home as a search for the first entry would be |
| ScopeTable.Absent | src/checker.hpp:447-454 | an empty slot, or an entry closer to home than the search, proves the key unbound, so the early exit of a lookup never misses a key |
| ScopeTable.Advance | src/checker.hpp:434-435 | stepping past another, not displaced key keeps the search invariant and comes nearer to an empty slot |
| ScopeTable.Displace | src/checker.hpp:418-432 | a swap happens only for an unbound key; it keeps the Robin Hood order, unique keys and the number of bindings, and the homeless entry plus the table still make the intended map |
| ScopeTable.Place | src/checker.hpp:403-409 | filling an empty slot keeps the table consistent and adds exactly the carried binding |
| ScopeTable.Overwrite | src/checker.hpp:411-415 | meeting an equal key means it was bound, and overwriting rebinds it alone |
| ScopeTable.HoleExists | src/checker.hpp:291-293 | a table with fewer bindings than slots has an empty slot, which bounds every probe loop |
| ScopeMaps.InsertForRehash | src/checker.hpp:302-338 | placing an unbound key in a table with room terminates and adds exactly that binding |
| ScopeMaps.InsertProbe | src/checker.hpp:396-436 | the update-or-insert loop terminates, binds the key, and reports the previous value and whether the key is new |
| ScopeMaps.GetProbe | src/checker.hpp:439-461 | the lookup loop terminates and finds the bound value, or null exactly when there is none |
| ScopeMaps.PrefixGrows | src/checker.hpp:362-367 | each turn of the growing loop adds the binding of one occupied slot and nothing else |
| ScopeMaps.Rehash | src/checker.hpp:361-368 | placing all entries of one table into a blank larger one gives the same map, whatever their order in the slots |
| ScopeMaps.ScopeMap.Init | src/checker.hpp:295-299 | an unset map gets the 16 inline slots and stays empty |
| ScopeMaps.ScopeMap.Grow | src/checker.hpp:353-373 | growing doubles the capacity and keeps the map and the count |
| ScopeMaps.ScopeMap.Insert | src/checker.hpp:388-437 | insertion binds the key to the value, leaves other bindings, reports the previous binding or null, doubles the storage exactly when three quarters of it are taken, and leaves at most three quarters taken |
| ScopeMaps.ScopeMap.Get | src/checker.hpp:439-461 | lookup returns the value of the finite map, or null when the key is unbound |
| ScopeMaps.ScopeMap.Clear | src/checker.hpp:463-466 | clearing empties the map and keeps the storage |
| ScopeMaps.ScopeMap.Reserve | src/checker.hpp:375-384 | the capacity becomes the least power of two not below the request when that is larger; the map survives exactly when it was empty or the request, cut to 32 bits, is at most the capacity in force or above 2^31 |
| ScopeMaps.BlankRepresents | src/checker.hpp:381-382 | blank storage stands for the empty map and no other |
| PowerOfTwo.SmearAll | src/common.cpp:442-446 | smearing by 1, 2, 4, 8, 16 turns every positive 32-bit word into all ones below and at its top bit |
| PowerOfTwo.NextPow2 | src/common.cpp:437-449 | the result is the least power of two not below n, 0 for 0 and for a result of 2^32 |
| ScopeMapRuns.BoundByLast | src/checker.hpp:388-466 | after a run a key is bound exactly when some insertion of it is final, and then to that insertion's value |
| ScopeMapRuns.Run | src/checker.hpp:388-466 | on every run of insertions and clears, each insertion reports the value of the last insertion of its key since the last clear, or null, and a final lookup finds that value |
| Terminating.CheckHasBreakList | src/check_stmt.cpp:163-170 | the loop answers whether any statement of the list has a break |
| Terminating.CheckHasBreak | src/check_stmt.cpp:188-284 | the scan by cases meets the recursive definition of "has a break aimed here" |
| Terminating.CheckIsTerminatingList | src/check_stmt.cpp:145-161 | the backward loop answers by the last statement that is neither empty nor a constant declaration; what it rejects is told by RejectedBodies.SettlingIsAccepted |
| Terminating.CheckIsTerminatingSwitch | src/check_stmt.cpp:383-413 | the clause loop accepts exactly when there is a default and every clause is terminating and break-free |
| Terminating.CheckIsTerminating | src/check_stmt.cpp:299-417 | the analysis by cases meets its recursive definition, which RejectedBodies.BodyReturnsExactly relates to the runs both ways |
| MissingReturn.JumpEscapes | src/check_stmt.cpp:188-284 | a run that ends with a jump took a jump that can syntactically leave the statement |
| MissingReturn.BreakIsSeen | src/check_stmt.cpp:188-284 | any break that can leave a statement from a place the scan has a case for makes it answer yes |
| MissingReturn.BreakingRunIsSeen | src/check_stmt.cpp:188-284 | any run of a loop body that leaves by a break aimed at the loop makes the scan answer yes, or breaks out of a place the scan has no case for |
| MissingReturn.EndlessLoopLeaksExactly | src/check_stmt.cpp:366-373 | an accepted loop completes normally exactly at an `or_break` of its init statement or a reachable break aimed at it from a place the scan has no case for |
| MissingReturn.AcceptedSwitchLeaksExactly | src/check_stmt.cpp:383-413 | an accepted switch completes normally exactly when a clause leaks, breaks to its label or, unseen, without one, or the last clause falls through |
| MissingReturn.AcceptedCompletesExactly | src/check_stmt.cpp:299-417 | an accepted statement, of whatever form, has a run that completes normally exactly when it has one of the listed leaks |
| MissingReturn.AcceptedNeverCompletes | src/check_stmt.cpp:299-417 | no run of an accepted statement completes normally when what decides about it is, by its syntax, no flagged `or_break` value and not left by a break that names it or is aimed at it unseen |
| MissingReturn.AcceptedBodyReturns | src/check_decl.cpp:2284-2302 | every run of an accepted procedure body returns or ends in a diverging call exactly when the body does not leak |
| MissingReturn.LabelledScanExact | src/check_stmt.cpp:188-284 | the scan under a label answers yes precisely when a break to that label can leave the statement from a place it has a case for, or it meets any flagged `or_break` |
| MissingReturn.UnlabelledScanExact | src/check_stmt.cpp:188-284 | the scan without a label answers yes precisely when an unlabelled break can leave the statement from a place it has a case for, or it meets any flagged `or_break` |
| MissingReturn.EndlessLoopAcceptedExactly | src/check_stmt.cpp:366-373 | a loop without condition is accepted precisely when, in the places the scans have a case for, no break aimed at it can leave its body and they meet no flagged `or_break` |
| RejectedBodies.SeenBreakIsTaken | src/check_stmt.cpp:188-284 | where every break that is met can be reached, the scan answers yes only if some run leaves by a break it looks for |
| RejectedBodies.SettlingIsAccepted | src/check_stmt.cpp:299-417 | a statement in order whose runs all return, diverge or fall through to the next clause is accepted, whatever its form and labels |
| RejectedBodies.RejectedCompletesOrJumps | src/check_stmt.cpp:299-417 | a statement in order that is rejected has a run that completes normally or jumps |
| RejectedBodies.BodyReturnsExactly | src/check_decl.cpp:2284-2302 | every run of a procedure body in order returns or ends in a diverging call exactly when the body is accepted and does not leak |
| RejectedBodies.AcceptedBlockKeepsDeciders | src/check_stmt.cpp:305-312 | a labelled block is accepted only if no break to its label, from a place the scan has a case for, leaves an endless loop or switch that decides about it |
| RejectedBodies.DeadStatementDecides | src/check_stmt.cpp:145-161 | a dead statement after a `return` makes a block rejected although it always returns |
| RejectedBodies.DeadBreakCounts | src/check_stmt.cpp:366-373 | a dead break makes an endless loop rejected although it always returns |
| RejectedBodies.NeverAccepted | src/check_stmt.cpp:314-364 | a diverging call that stands in no list and a `when` on a constant that is no boolean are rejected, although they settle |
| RejectedBodies.UnrolledReturnIsRejected | src/check_stmt.cpp:375-377 | an unrolled loop around a `return` is rejected |
| StatementRuns.MoreIterations | src/check_stmt.cpp:299-417 | the step bound of the runs is no restriction: more iterations keep every run |
| StatementRuns.EndsAreRuns | src/check_stmt.cpp:299-417 | how the runs of a statement can end, over any number of iterations, is told exactly by its structure |
| MissingReturn.LabelledBlockIsUnsound | src/check_stmt.cpp:305-312 | an accepted labelled block can complete normally through a break that names it |
| MissingReturn.LabelledIfIsUnsound | src/check_stmt.cpp:331-338 | an accepted labelled `if` can complete normally through a break that names it |
| MissingReturn.LabelledSwitchIsUnsound | src/check_stmt.cpp:383-413 | an accepted labelled switch can complete normally through a break that names it |
| MissingReturn.UnseenBreakIsUnsound | src/check_stmt.cpp:188-284 | every endless loop that a break leaves without the scan seeing it is accepted and can complete normally |
| MissingReturn.UnseenPlaces | src/check_stmt.cpp:188-284 | so it is for a break in a `when`, and for an `or_break` in a returned value, a switch tag or a range |
| MissingReturn.BreakInUnrollIsUnsound | src/check_stmt.cpp:188-284 | so it is for a labelled break in an `#unroll` |
| MissingReturn.BreakingReturnIsUnsound | src/check_stmt.cpp:299-311 | a labelled block that ends in a `return` or a diverging call whose value or argument may break out of it is accepted and can complete normally |
| MissingReturn.BreakingInitIsUnsound | src/check_stmt.cpp:366-373 | an endless loop whose init statement may break out of it is accepted and can complete normally |
| MissingReturn.OrBreakValueIsUnsound | src/check_stmt.cpp:318-325 | a labelled block that ends in a declaration or assignment whose value may break out of it is accepted and can complete normally |
| EntityDecl.Visit | src/check_decl.cpp:2000-2086 | a call terminates, leaves exactly the callers in progress, never makes a resolved entity unresolved again and only appends reports |
| EntityDecl.VisitSettles | src/check_decl.cpp:2000-2086 | after a call the entity is no longer unresolved, and everything a resolved entity asked for was visited |
| EntityDecl.ReachableResolved | src/check_decl.cpp:2000-2086 | from a fresh state everything reachable from a checked entity, by guarded or outright demands, ends resolved |
| EntityDecl.ErrorIsCycle | src/check_decl.cpp:2010-2011 | a report made below a call means the first caller reaches a cycle closed by an outright demand |
| EntityDecl.ReportedIsOnCycle | src/check_decl.cpp:2012-2036 | every entity that a call reports is itself on a cycle of demands closed by an outright demand |
| EntityDecl.VisitOrders | src/check_decl.cpp:2012-2078 | a call makes no report exactly when everything it resolves comes after what it asked for outright and it ends resolved itself |
| EntityDecl.VisitIsPostorder | src/check_decl.cpp:2000-2086 | entities are resolved in depth-first postorder of the plain uses, whatever is guarded |
| EntityDecl.ReportsExactlyOnDisorder | src/check_decl.cpp:2000-2086 | from a fresh state a report is made exactly when in the postorder of the plain uses some entity comes before one it asks for outright |
| EntityDecl.ErrorsExactlyOnCycles | src/check_decl.cpp:2000-2086 | from a fresh state a cycle is reported if a checked entity reaches a cycle of outright demands and only if it reaches one closed by an outright demand, and every reported entity is on such a cycle; without guarded demands these are the same |
| EntityDecl.MixedCycleDependsOnRoot | src/check_expr.cpp:1964-1966 | with one guarded and one outright demand around a cycle, whether it is reported depends on the entity checked first |
| EntityDecl.Checker.CheckEntityDecl | src/check_decl.cpp:2000-2086 | the three-state procedure on the checker's fields computes the specified search |
| ProcGroup.Collect | src/check_decl.cpp:1859-1903 | the members are exactly the procedures and procedure variables mentioned without a constantly false `where`, each once, in the order of first mention |
| ProcGroup.ConflictIsClash | src/types.cpp:3653-3725 | two signatures collide, whichever comes first, exactly when they have the same parameter types and differ in being variadic, or agree in that and in being polymorphic and then differ in results or match as many features, unless both are guarded by `where` |
| ProcGroup.Collides | src/check_decl.cpp:1936-1979 | a pair is invalid exactly for the four overload kinds, unless both are polymorphic with `where` clauses |
| ProcGroup.NextRow | src/check_decl.cpp:1907-1986 | a turn of the outer loop invalidates exactly the later members that collide with a surviving one |
| ProcGroup.ResolveRow | src/check_decl.cpp:1921-1985 | comparing one member with all later ones invalidates exactly those it collides with |
| ProcGroup.Resolve | src/check_decl.cpp:1907-1986 | the loops leave exactly the greedy survivors and the members that never took part with their types |
| ProcGroup.SurvivorsAreTheStableSelection | src/check_decl.cpp:1907-1986 | the survivors are the one selection without collisions in which every dropped candidate collides with an earlier selected one |
| ProcGroup.CheckProcGroup | src/check_decl.cpp:1846-1991 | a newly invalid member has an earlier, still valid one with a signature that clashes with the one it had, and any two valid enabled members with the same parameter types have signatures that may coexist or are both guarded |
| SoaTypes.SoaStruct.constructor | src/check_type.cpp:3425-3476 | with the element available, the fields are the element's, widened by kind, then the bookkeeping ones; otherwise none are built |
| SoaTypes.SoaStruct.Complete | src/check_type.cpp:3220-3319 | the deferred path builds the same fields once and does nothing when the signal is set |
| SoaTypes.EagerMeetsDeferred | src/check_type.cpp:3220-3476 | both paths give the same fields: the element's, as arrays or multi-pointers by kind, then the length, capacity and allocator that the kind calls for |
| SoaProtocol.StepInv | src/check_type.cpp:3229-3318 | every atomic step of any worker keeps mutual exclusion and the ordered partial fields |
| SoaProtocol.CompletedOnce | src/check_type.cpp:3220-3319 | in every execution no field is stored twice, and whoever sees the signal sees exactly the finished fields |
| SoaProtocol.SignalFreezesFields | src/check_type.cpp:3231-3233 | once the signal is set nothing is stored any more |
| SoaProtocol.StuckMeansDone | src/check_type.cpp:3229-3256 | with the element available and no failed assertion, an execution that cannot go on has finished every worker |
| SoaProtocol.BoundedSteps | src/check_type.cpp:3220-3326 | with the element available the workers together take at most five steps each and one for every field, so every execution ends |
| SoaProtocol.AbortsExplained | src/check_type.cpp:3249-3253 | the assertion fails only for a worker that does not wait for the element |
| AutoUnion.TypeEmbedsAtOffset0 | src/check_builtin.cpp:2806-2822 | the loop over first fields meets its recursive definition |
| AutoUnion.AstTestIsWithin | src/check_builtin.cpp:2855-2883 | the syntax test holds exactly when names lead to the target within 65 hops: by direct hops, the last one possibly through an alias that has its type |
| AutoUnion.TypeTestIsWithin | src/check_builtin.cpp:2806-2822 | the type test holds exactly when the target is within 64 hops of the fields it is given |
| AutoUnion.SeenChain | src/check_type.cpp:138-140 | in a state a chain of first fields ends at the first struct that has no field yet |
| AutoUnion.TakenOutside | src/check_builtin.cpp:3494-3511 | a candidate that is not in progress is taken exactly when the target is within 64 hops and no struct without fields lies before it |
| AutoUnion.TakenInside | src/check_builtin.cpp:3477-3492 | a candidate in progress is taken exactly when names lead to the target within 65 hops, the last one possibly through an alias that is plain or not in progress |
| AutoUnion.CollectVariants | src/check_builtin.cpp:3472-3511 | the collecting loop appends the types of exactly the candidates taken, in order; which these are is told by AutoUnion.TakenOutside and AutoUnionNames.TakenByNames |
| AutoUnion.VariantsAreEmbedders | src/check_builtin.cpp:3472-3511 | in one state the variants are the structs that have the target on their chain, in candidate order, exactly when the state neither hides nor feigns an embedding of a candidate |
| AutoUnion.LongChainDependsOnOrder | src/check_builtin.cpp:2806-2883 | a candidate that by direct hops first meets the target at hop 65 is taken when it is in progress and not otherwise |
| AutoUnion.OrderIndependentExactly | src/check_builtin.cpp:3465-3511 | the variants are the same in every state exactly when each candidate with the target within reach names it or a plain alias of it as its own first field, and none meets it by names first at hop 65 |
| AutoUnionNames.LookupFindsInnermost | src/checker.cpp:390-439 | a name stands for its innermost binding among the enclosing scopes, passing over labels and unshared variables of procedures that the search comes out of |
| AutoUnionNames.LookupFindsNamed | src/check_builtin.cpp:2828-2850 | a type expression names, in any parentheses, the innermost binding of an identifier, or what the import it selects from binds itself, and nothing else |
| AutoUnionNames.HopIsNamed | src/check_builtin.cpp:2866-2875 | the hop of the syntax test is to the type name that the first `using` field of the declared struct is written as |
| AutoUnionNames.AstTestFollowsNames | src/check_builtin.cpp:2855-2883 | in any world the syntax test holds exactly when a path of written names of at most 65 hops leads to the target or to an alias known to be it |
| AutoUnionNames.TakenByNames | src/check_builtin.cpp:3477-3492 | a candidate in progress is taken exactly when it is a typed type name and written names lead to the target within 65 hops |
| AutoUnionNames.NamedTargetIsCollected | src/check_builtin.cpp:3465-3492 | a candidate in progress whose first field names the target, at any depth of scopes or through an import, is collected |
| AutoUnionExamples.LeafDependsOnOrder | src/check_builtin.cpp:2806-2822 | a leaf three direct hops from the target is a variant unless the struct in the middle is checked first |
| AutoUnionExamples.AliasDependsOnOrder | src/check_builtin.cpp:2878-2881 | a struct whose first field names an alias of an alias of the target is a variant unless it is checked first |
| LoadFileCache.Open | src/check_builtin.cpp:2047-2078 | opening records the error, existence and, when asked for, the contents |
| LoadFileCache.Cache.Load | src/check_builtin.cpp:1996-2111 | a request succeeds exactly when the file can be opened, reports existence and contents truly, and raises only this path's tier |
| LoadFileCache.Cache.LoadHash | src/check_builtin.cpp:2535-2557 | the hash, remembered or not, is the hash of the file's contents |
| LoadFileCache.Serve | src/check_builtin.cpp:1996-2111 | any sequence of requests is answered as by direct access, opening each file at most twice |
| BigInts.ModMod | src/big_int.cpp:440-447 | the result is the floored remainder, whichever objects alias |
| BigInts.EuclideanMod | src/big_int.cpp:449-462 | the result is congruent to x and lies in [0, abs(y)), whichever objects alias |
| BigInts.ModsUnique | src/big_int.cpp:440-462 | each of the two descriptions determines the remainder |
| BigInts.Shl | src/big_int.cpp:349-352 | for an amount y below 2^31, and for y modulo 2^32 below 2^31, the result is the number that floor division by 2^y takes back to x with remainder 0; otherwise dst is unchanged |
| BigInts.Shr | src/big_int.cpp:354-365 | for such an amount the result is the floor of x / 2^y exactly unless dst is x and x lies in (-2^y, 0), where it is 0; otherwise dst is unchanged |
| BigInts.ShrEq | src/big_int.cpp:118-122 | the in-place right shift by such an amount is always the floor of x / 2^y; otherwise dst is unchanged |
| BigInts.AmountIsCut | src/big_int.cpp:349-365 | amounts that differ by a multiple of 2^32 shift alike |
| BigInts.ShiftsCompose | src/big_int.cpp:354-365 | floored shifts compose for every integer |
| BigInts.ShrUndoesShl | src/big_int.cpp:349-365 | a right shift undoes a left shift |
| BigInts.Not | src/big_int.cpp:549-595 | on representable x the result is -x-1, or 2^n-1-x unsigned; for every x it is congruent to -x-1 modulo 2^n |
| BigInts.ComplementInvolutive | src/big_int.cpp:549-595 | the complement of a representable number is representable and complements back |
| BigInts.SignSplit | src/big_int.cpp:577-590 | the low bits minus the top bit read an n-bit word as a signed number |
| Bits.XorOnes | src/big_int.cpp:575 | xor with n ones complements an n-bit number |
| BigIntText.PrintedDigit | src/big_int.cpp:605-613 | a printed digit reads back as itself exactly when it is at most 9; from ten on the letters are k to p |
| BigIntText.EmitDigits | src/big_int.cpp:660-672 | the division loop appends the digits, least significant first |
| BigIntText.ReverseTail | src/big_int.cpp:677-682 | the in-place loop mirrors what follows the sign, up to where it stops |
| BigIntText.MirroredIsFlipped | src/big_int.cpp:677-682 | behind a sign the loop leaves the middle pair of an even number of digits unswapped |
| BigIntText.ToString | src/big_int.cpp:615-686 | numbers from 2^(60*497) on are printed in scientific notation; below, the text is the digits without leading zeros reversed, or the sign and the digits so mirrored |
| BigIntText.WordsNeeded | src/big_int.cpp:626 | a number takes more than n 60-bit words exactly when it is at least 2^(60n) |
| BigIntParse.FromString | src/big_int.cpp:186-294 | the reader leaves in dst the value, and returns the flag, that the character-by-character definition gives; what that is worth is told by BigIntLiterals and BigIntExponent |
| BigIntLiterals.DigitsAreWritten | src/common.cpp:172-198 | a character is read as digit d exactly when it is the d-th of 0-9 a-f or 0-9 A-F |
| BigIntLiterals.ScanEndsExactly | src/big_int.cpp:222-248 | the digit loop gets to the end of exactly the texts of digits below the base, underscores and at most one minus sign, with the positional value of the digits and that sign |
| BigIntLiterals.PrefixedLiteral | src/big_int.cpp:186-248 | behind 0b, 0o, 0d, 0z, 0x and 0h such a text is read as the positional value of its digits in base 2, 8, 10, 12, 16 and 16 |
| BigIntLiterals.PrefixedLiteralExactly | src/big_int.cpp:186-252 | behind a prefix other than 0d no other text is read successfully |
| BigIntLiterals.DecimalLiteral | src/big_int.cpp:186-248 | without a prefix such a text in base 10 is read as the positional value of its digits |
| BigIntLiterals.PrefixAlone | src/big_int.cpp:193-203 | a prefix with nothing behind it is an error |
| BigIntRoundTrip.ScanIgnoresUnderscores | src/big_int.cpp:234-236 | underscores anywhere change neither value, sign nor the way the scan ends |
| BigIntRoundTrip.FlippedIsReversed | src/big_int.cpp:677-682 | the short reversal is a reversal exactly when the two middle digits agree |
| BigIntRoundTrip.RoundTripWithPrefix | src/big_int.cpp:186-686 | in bases 2, 8, 10, 12 and 16 with prefix and any underscores, printing and reading gives x back exactly when the text is readable, and in bases 2, 8 and 10 always for x not negative |
| BigIntRoundTrip.RoundTripDecimal | src/big_int.cpp:186-686 | in base 10 without prefix likewise, and always for x not negative |
| BigIntRoundTrip.UnreadableExamples | src/big_int.cpp:605-682 | -12 prints as -21 and ten in base 16 as k |
| BigIntExponent.ScannedExponent | src/big_int.cpp:258-273 | the exponent read is the value of the leading digits and underscores modulo 2^64 |
| BigIntExponent.ExponentRead | src/big_int.cpp:186-294 | a decimal literal with an exponent is read as the mantissa times ten to the leading exponent digits modulo 2^64, and refused when that is above 308 |
| BigIntExponent.ExponentReadAsWritten | src/big_int.cpp:250-288 | the reader does what the literal says exactly unless the leading exponent digits modulo 2^64 are at most 308 although something follows them or their value is at least 2^64 |
| BigIntExponent.NumeralWithExponent | src/big_int.cpp:186-294 | digits, a mark and a numeral up to 308 are read as the scaled number |
| BigIntExponent.ExponentIsZeros | src/big_int.cpp:250-288 | an exponent n up to 308 is read as n zeros behind the digits |
| BigIntExponent.JunkExample | src/big_int.cpp:259-270 | `1e2x` is read as 100, successfully |
| BigIntExponent.WrappedExample | src/big_int.cpp:271-272 | an exponent of 2^64 is read as 0, successfully |
| DynamicArray.Array.SetCapacity | src/array.cpp:383-408 | terminates, keeps count within capacity and the retained prefix |
| DynamicArray.Array.Grow | src/array.cpp:306-313 | the capacity follows the growth formula or the minimum, and the contents stay |
| DynamicArray.Array.Resize | src/array.cpp:374-380 | the count is as asked and the common prefix stays |
| DynamicArray.Array.Add | src/array.cpp:315-322 | appends one element, at the cost the growth formula gives |
| DynamicArray.Array.AddElems | src/array.cpp:344-352 | appends the elements in order |
| DynamicArray.Array.OrderedRemove | src/array.cpp:432-439 | deletes one position and closes the gap |
| DynamicArray.Array.UnorderedRemove | src/array.cpp:441-450 | the last element takes the freed position |
| DynamicArray.Array.InjectAt | src/array.cpp:452-462 | inserts at a position within the array, or ends the array with the value past its end |
| DynamicArray.UnorderedRemovesOne | src/array.cpp:441-450 | unordered removal deletes exactly one element as a multiset |
| DynamicArray.InjectThenRemove | src/array.cpp:432-462 | injecting and then removing at one position is the identity |
| DynamicArray.AddsAreAmortised | src/array.cpp:1 | any n additions to an empty array of any capacity move at most 3n elements, and the capacity stays the first one, at most 8, or at most 3n/2 |
| DynamicArray.AddOneByOne | src/array.cpp:315-322 | adding n elements gives their sequence, moves at most 3n elements and ends with the first capacity, at most 8, or at most 3n/2 |
| RangeCache.Cache.AddIndex | src/range_cache.cpp:23-33 | the index is new exactly when nothing added before covers it |
| RangeCache.Cache.AddRange | src/range_cache.cpp:36-59 | the range is new exactly when it is disjoint from everything added before |
| RangeCache.CoveredMerge | src/range_cache.cpp:47-53 | widening the first overlapping range covers the union, even where ranges come to overlap |
| RangeCache.AddAll | src/range_cache.cpp:23-59 | over any run of single indices and ranges each report is exact and the ranges cover the union of what was added |

## Left out

- ScopeMapIterator: visiting the occupied slots in index order would add only easy members.
- Overflow of the doubled capacity: insertion into a full table of 2^31 slots is excluded; the doubled capacity would wrap to 0.
- Zeroed storage: fresh arrays are assumed blank, as arena memory is.
- `defer`, `or_continue` and post statements of loops: not statements of the model. The acceptance of an endless loop does not look at its post statement either, so an `or_break` there is a further leak.
- RejectedBodies.BodyReturnsExactly: for bodies with dead code or an unrolled loop in a deciding place rejection is not characterised; smallest examples of such rejections are given.
- Expressions: conditions, tags and calls may go either way in the runs; only diverging calls and `or_break` are told apart, and which expressions lose the `or_break` flag is not modelled.
- EntityDecl.Checker.CheckEntityDecl: what a declaration asks for is a fixed list, an entity's type is set when it is resolved (so the test on the type never decides), and the lazy-entity mutex and the cycle check on the type path are not modelled.
- ProcGroup.Collides: identical types are equal identifiers, and the entities of the arguments are already looked up.
- SoaTypes.SoaStruct.Complete: the entries added to the type's scope and the entity flags other than the pointer mark; array and polymorphic elements have no deferred path.
- AutoUnion.VariantsAreEmbedders: names are assumed to mean the types that the checker gave the fields, so identical types with different names are outside; so are unions checked from polymorphic parameters or `where` clauses, before the first field of the struct was asked for.
- LoadFileCache.Cache.Load: resolving the path, the mutex and read errors after a successful opening.
- Printing in scientific notation from 498 words on, `big_int_and_not`, conversions to floating point, and memory failures of the library.
- BigIntParse.FromString: the byte behind the text, which is read when the text ends in an exponent mark, is a parameter.
- DynamicArray.Array.SetCapacity: counts the old storage as moved, as the fallback does; resizing in place, `gb_memmove` on overlapping storage and the elements beyond the count are not modelled.
- Error texts, suggestions, vetting, the thread pool and everything behind the front end.
