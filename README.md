# sfsexp core: resumable s-expression parsers, slisp helpers and scopes

This project models the core of a small C library for s-expressions. The
parts modelled are:

- **The two continuation-based parsers.** `src/backup/parser_new.c` is a
  nine-state machine. `src/backup/parser_old.c` is the older greedy parser.
  Both read a C string, build a tree of `sexpr_t` nodes on a stack of frames
  (one per open list), and save their state in a continuation when the text
  runs out, so the next call can carry on with the next chunk.
- **Three helpers of the slisp interpreter** (`examples/slisp/slisp_util.c`).
  `derive_type` classifies an atom as an integer, float or string.
  `tokenize` names the operator an atom spells. `deep_copy_sexp` copies a
  tree.
- **The atom classifier of the Ruby binding** (`infer_sval_type` in
  `ruby/Sexp.c`).
- **The variable scopes of the slisp interpreter**
  (`examples/slisp/slisp_env.c`). A scope is a chain of records with parallel
  name and binding arrays, a count of free slots, a body and a parent.

How C is represented:

- A C buffer is a Dafny `string` whose reads past the end give the
  terminating NUL (`CString.At`, `CString.CStr`).
- A pointer that may be unassigned, NULL or set is a `Slot`
  (`Indeterminate | Null | Holds`).
- In the two parsers, undefined behaviour is reported as a `Fault` result,
  never assumed away by a precondition. This covers popping an empty stack,
  overrunning the atom buffer, spinning forever on one character, reading
  freed memory and following an indeterminate pointer. `Scope.LookupBinding`
  likewise reports a NULL name as `NullName`, and `add_varname` and
  `bind_variable` report writes past their arrays.
- The slisp helpers and the Ruby classifier instead take a precondition that
  excludes the pointer their C code would dereference while it is NULL or
  unassigned; each is listed under "## Left out".

Each parser has two layers:

- Pure functions say what one iteration, the loop and a whole call do:
  `Step`, `Run` and `Resume` in `FsmParser`; `Iter`, `Loop` and `GResume` in
  `GreedyParser`.
- A class holds the continuation in fields and an array and runs the loop in
  place. Its `Parse` method is proved to leave the fields as the pure call
  says.

The lemmas in `FsmTheory`, `FsmLists`, `FsmTrees`, `FsmChunks`, `FsmQuirks`,
`GreedyTheory`, `GreedyLists` and `GreedyChunks` are about the pure layer.
They cover:

- each token form, including quoted expressions nested to any depth;
- whole flat lists for both parsers, lists nested to any depth for the state
  machine, and the expression of `tests/bug.c`;
- when splitting the input between calls is harmless and when it is not;
- when a call faults.

For the greedy parser, a chunk cut inside an atom is proved harmless
whenever the next chunk goes on with an atom character other than a
backslash (`GoesOn`, `GreedySplit`). Its other chunk behaviour is exhibited by
concrete traces:

- An atom cut by a chunk boundary is lost when the next chunk starts with `)`
  (`CloseDropsCutAtom`).
- A cursor saved after a `)` makes the next chunk repeat or extend the
  previous atom (`StaleCursorRepeatsAtom`, `StaleCursorGlues`).
- A chunk ending right after the first `(` saves a cursor that was never
  assigned (`OpenThenAtom`).
- Once an expression completes, the stack is freed for good
  (`FreedForGood`, `ParenAfterFree`).

Where the code and its comments disagree, the model follows the code.
Examples:

- In parser_new.c, state 7 does not move past a `"`. So `'"ab"` reads as an
  empty DQUOTE atom followed by fresh text, not as a quoted string
  (`FsmQuirks.TickedQuote`).
- An unquoted atom after a single quote is tagged BASIC, not SQUOTE
  (`FsmTheory.QuotedAtomToken`).

## Model

| member | source | states |
|---|---|---|
| CString.CStrOfTerminated | src/backup/parser_new.c:420-427 | the string `newatom` copies out of a buffer whose first NUL is at `n` is the buffer's first `n` characters |
| Sexpr.AddAtom | src/backup/parser_new.c:394-417 | the atom goes at the end of the top frame's chain and every other frame is unchanged; with no frame open the stack is unchanged (the atom is not attached) |
| Sexpr.OpenList | src/backup/parser_new.c:212-237 | a new empty List goes at the end of the top frame (or alone in a new root frame) and an empty frame is pushed above it |
| Sexpr.CloseList | src/backup/parser_new.c:238-279 | the top frame is popped and its chain becomes the children of the List that ends the frame below; lower frames are unchanged |
| Sexpr.Drained | src/backup/parser_new.c:365-376 | the node left in `sx` after popping every frame is the first node of the bottom frame, NULL for an empty bottom frame, and the old `sx` when no frame was open |
| Sexpr.PopAll | src/backup/parser_new.c:369-376 | the pop loop leaves `sx` equal to `Drained` of the stack |
| Sexpr.AddAtomKeepsShape | src/backup/parser_new.c:394-417 | adding an atom keeps the stack shaped like the open lists |
| Sexpr.OpenListKeepsShape | src/backup/parser_new.c:212-237 | opening a list gives the shape of one more open list |
| Sexpr.CloseListKeepsShape | src/backup/parser_new.c:238-279 | closing an inner list keeps the shape one level down; closing the outermost list leaves only the root frame, holding the finished tree |
| FsmParser.DispatchSound | src/backup/parser_new.c:172-211 | state 1 keeps the invariant, and faults for want of progress exactly on a character it does not handle |
| FsmParser.ListSound | src/backup/parser_new.c:212-279 | states 2 and 3 keep the invariant; state 3 faults exactly when no list is open; closing the outermost list yields a List and an empty stack |
| FsmParser.TextSound | src/backup/parser_new.c:280-313 | states 4, 5 and 6 keep the invariant, grow the atom buffer by at most the character read, and overflow only when the buffer is full |
| FsmParser.QuoteSound | src/backup/parser_new.c:314-357 | states 7, 8 and 9 keep the invariant and overflow only when the buffer is full |
| FsmParser.StepSound | src/backup/parser_new.c:170-358 | every iteration either moves on keeping the invariant, stays on the same character with a smaller rank (so the loop ends), closes the outermost list, or faults for its one named cause |
| FsmParser.Step | src/backup/parser_new.c:170-358 | only state 3 at depth 1 closes the outermost list; states 2, 6 and 7 never consume the character they look at |
| FsmParser.DispatchStep | src/backup/parser_new.c:172-211 | state 1 faults exactly on a character it does not handle; it consumes every handled character except `)` and atom characters, which the next state reads again; depth, stack and quote count are kept |
| FsmParser.OpenStep | src/backup/parser_new.c:212-237 | state 2 goes back to state 1 without consuming, one level deeper, with an empty frame on top |
| FsmParser.CloseStep | src/backup/parser_new.c:238-279 | state 3 faults exactly at depth 0, completes exactly at depth 1 with a List and an empty stack, and otherwise consumes the `)` and goes one level up, dropping one frame |
| FsmParser.AtomStep | src/backup/parser_new.c:280-295 | state 4 faults exactly when the buffer is full; it appends an atom character, and on any other character adds the BASIC atom and returns to state 1 without consuming |
| FsmParser.StringStep | src/backup/parser_new.c:296-309 | state 5 faults exactly when the buffer is full; it appends every character but `"`, which adds the DQUOTE atom and moves to state 6 |
| FsmParser.QuoteStep | src/backup/parser_new.c:314-330 | state 7 clears the buffer and, without consuming, goes to state 8 exactly on `(`, to state 5 exactly on `"`, and to state 4 otherwise |
| FsmParser.RawStep | src/backup/parser_new.c:331-344 | state 8 faults exactly when the buffer is full; it appends the character, counts `(` up and `)` down, and hands over to state 9 on `)` |
| FsmParser.RawCloseStep | src/backup/parser_new.c:345-357 | state 9 does not consume; it returns to state 8 exactly while parentheses remain open, and otherwise adds the SQUOTE atom and returns to state 1 |
| FsmParser.Run | src/backup/parser_new.c:166-359 | the loop ends with a finished List and no frame, at a NUL with the invariant, or in a fault; an unmatched `)` faults only in state 3 at depth 0 |
| FsmParser.RunFollows | src/backup/parser_new.c:166-359 | an iteration that does what `Step` says leaves a machine from which the loop halts exactly as before; a fault changes nothing |
| FsmParser.Fresh | src/backup/parser_new.c:147-160 | a fresh continuation satisfies the invariant and reads its own string |
| FsmParser.Resume | src/backup/parser_new.c:133-391 | a call that completes leaves a List in `last_sexpr` at depth 0; it suspends exactly when `lastPos` is NULL; a suspended call keeps `last_sexpr`; running out between expressions leaves it indeterminate |
| FsmParser.Continuation.constructor | src/backup/parser_new.c:147-160 | the new continuation is the fresh one, with an atom buffer of the given size |
| FsmParser.Continuation.Advance | src/backup/parser_new.c:170-358 | one iteration on the fields and the buffer does what `Step` says, and changes nothing on a fault |
| FsmParser.Continuation.CloseChar | src/backup/parser_new.c:238-279 | state 3 on the fields does what `Step` says |
| FsmParser.Continuation.AtomChar | src/backup/parser_new.c:280-295 | state 4 on the fields and buffer does what `Step` says |
| FsmParser.Continuation.StringChar | src/backup/parser_new.c:296-309 | state 5 on the fields and buffer does what `Step` says |
| FsmParser.Continuation.RawChar | src/backup/parser_new.c:331-344 | state 8 on the fields and buffer does what `Step` says |
| FsmParser.Continuation.TerminatedText | src/backup/parser_new.c:420-427 | the atom handed to `newatom` is exactly the text before `vcur` |
| FsmParser.Continuation.Drive | src/backup/parser_new.c:166-359 | the in-place loop stops where `Run` halts, with the registers `Run` gives |
| FsmParser.Continuation.Parse | src/backup/parser_new.c:133-391 | the fields after the call and its status are those of `Resume` on the fields before; the invariant holds unless the call faulted |
| FsmParser.Continuation.LastSexp | src/backup/parser_new.c:76-88 | returns the last expression and leaves NULL in its place, nothing else changed |
| FsmParser.Begin | src/backup/parser_new.c:116-160 | a call with no continuation behaves as `Resume` on the fresh continuation |
| FsmParser.ParseSexp | src/backup/parser_new.c:95-103 | `parse_sexp` returns the `last_sexpr` of `Resume` on a fresh continuation |
| FsmTheory.RunStep | src/backup/parser_new.c:166-170 | one turn of the loop on a non-NUL character continues as `Step` says |
| FsmTheory.SkipSpace | src/backup/parser_new.c:175-180 | state 1 moves past white space without changing anything else |
| FsmTheory.OpenToken | src/backup/parser_new.c:182-186 | a `(` opens a list one level deeper |
| FsmTheory.CloseToken | src/backup/parser_new.c:238-279 | a `)` closes the innermost list; closing the outermost ends the call with the tree, just past the `)` |
| FsmTheory.UnmatchedCloseFaults | src/backup/parser_new.c:238-250 | a `)` with no list open is the fault of popping an empty stack |
| FsmTheory.AtomRun | src/backup/parser_new.c:280-295 | state 4 copies atom characters into the buffer and, on the first other character, adds the atom without moving past that character |
| FsmTheory.AtomToken | src/backup/parser_new.c:203-209 | a run of letters, digits and `!` becomes a BASIC atom of the current list |
| FsmTheory.QuotedAtomToken | src/backup/parser_new.c:314-330 | a single quote before an atom is dropped and the atom is BASIC |
| FsmTheory.StringRun | src/backup/parser_new.c:296-309 | state 5 copies every character up to the closing `"`, then adds the DQUOTE atom |
| FsmTheory.StringToken | src/backup/parser_new.c:191-197 | a double-quoted string becomes a DQUOTE atom of the text between the quotes |
| FsmTheory.RawRun | src/backup/parser_new.c:331-357 | from any nesting depth, state 8 copies every character up to the `)` that brings the count of open parentheses (`qdepth`) to zero, nested lists included, and hands over to state 9 past it |
| FsmTheory.RawToken | src/backup/parser_new.c:314-357 | a quoted parenthesised expression, however deeply nested, becomes one SQUOTE atom holding its text from the first `(` to the matching `)`, and state 1 resumes just past it |
| FsmTheory.NestedQuote | src/backup/parser_new.c:314-357 | `'(a (b) c)` is one SQUOTE atom: the inner `)` does not end the quote |
| FsmLists.TokenRun | src/backup/parser_new.c:166-359 | reading one simple token from state 1 adds its atom to the current list and returns to state 1 after it |
| FsmLists.LayoutRun | src/backup/parser_new.c:166-359 | reading space-separated simple tokens appends their atoms to the current list in input order |
| FsmLists.FlatRun | src/backup/parser_new.c:166-359 | a parenthesised layout of simple tokens closes with a List of the tokens' atoms |
| FsmLists.FlatList | src/backup/parser_new.c:133-391 | a call between expressions on `(t1 ... tn)rest` completes with the List of the tokens' atoms in order and resumes at `rest`; it needs `lastPos` NULL and no list open, which in the code as written holds only for a fresh continuation: a suspended call leaves a list open, and a call that completes or runs out between expressions leaves `lastPos` set |
| FsmLists.BugExpression | tests/bug.c:41-57 | the test expression `(i am the test '(expression) "with" 'weird atoms)` parses to its eight atoms with their tags |
| FsmTrees.TreeRun | src/backup/parser_new.c:166-359 | reading one written tree (a simple token or a nested list) from state 1 appends its node to the current list and returns to state 1 just after it |
| FsmTrees.RowRun | src/backup/parser_new.c:166-359 | reading the written elements of a list up to its `)` appends their nodes to the current list in order |
| FsmTrees.RowCons | src/backup/parser_new.c:166-359 | a list of two or more elements is read as its first element, the white space after it, and then the rest |
| FsmTrees.TreeTop | src/backup/parser_new.c:166-359 | between expressions, a written list of trees completes just past its `)` with the List of the elements' nodes |
| FsmTrees.TreeList | src/backup/parser_new.c:133-391 | a call between expressions on a written list of trees, of any depth, completes with that tree and resumes at the rest; like `FlatList`, it needs `lastPos` NULL and no list open, which as written holds only for a fresh continuation |
| FsmTrees.NestedList | src/backup/parser_new.c:133-391 | "(a (b c) d)" read whole gives the tree (a (b c) d) |
| FsmChunks.RunOffset | src/backup/parser_new.c:166-359 | the loop reads only from its position onwards |
| FsmChunks.RunPrefix | src/backup/parser_new.c:166-359 | the loop on `a` followed by more text does what it does on `a` until it reaches the end of `a`, then carries on with the same machine |
| FsmChunks.SuspendedSplit | src/backup/parser_new.c:133-146 | a call that suspends inside an expression, followed by a call on the next chunk, equals one call on both chunks |
| FsmChunks.EndIsSticky | src/backup/parser_new.c:133-137 | a continuation whose `lastPos` is the empty rest of an earlier string that is still in place ignores every later string and replaces the last expression with the indeterminate `sx` |
| FsmChunks.BetweenIsSticky | src/backup/parser_new.c:361-376 | every call that leaves no list open sets `lastPos` to the NUL it stopped on when the chunk held no NUL of its own |
| FsmChunks.OpenAtChunkEnd | src/backup/parser_new.c:212-237 | a chunk ending just after the first `(` reports that the input ran out between expressions, with depth 0 |
| FsmChunks.ResumeFixed | src/backup/parser_new.c:361-391 | the corrected call: `lastPos` is NULL whenever the position reached is the end of the string; a suspended call keeps the last expression |
| FsmChunks.FixedAgrees | src/backup/parser_new.c:133-391 | the corrected call agrees with the original on status and registers, and on `last_sexpr` except between expressions |
| FsmChunks.FixedSplit | src/backup/parser_new.c:133-391 | with the correction, a call stopped at the end of a chunk followed by a call on the next chunk equals one call on both |
| FsmChunks.SecondChunkIgnored | src/backup/parser_new.c:361-376 | the chunks "(a)" then "(b)": the second call never reads "(b)" and loses "(a)" |
| FsmChunks.SecondChunkFixed | src/backup/parser_new.c:380-383 | with the correction, the chunks "(a)" then "(b)" give (a) then (b) |
| FsmQuirks.StallNeedsStrangeChar | src/backup/parser_new.c:172-211 | the loop spins only on a character state 1 does not handle |
| FsmQuirks.OverflowNeedsLongText | src/backup/parser_new.c:280-357 | the atom buffer overflows only when the atom read so far plus the text left is longer than the buffer |
| FsmQuirks.StrangeCharStalls | src/backup/parser_new.c:172-211 | the converse: state 1 faults for want of progress on the first character it does not handle, changing nothing |
| FsmQuirks.AtomOverflows | src/backup/parser_new.c:280-295 | state 4 overruns the buffer when the atom goes on past the room left, holding exactly the characters that fitted |
| FsmQuirks.LongAtomOverflows | src/backup/parser_new.c:280-295 | the converse for unquoted atoms: from state 1, an atom longer than the buffer overruns it once the buffer is full |
| FsmQuirks.CallFaults | src/backup/parser_new.c:133-391 | a whole call faults for want of progress only on an unhandled character, and overruns only on a text longer than the buffer |
| FsmQuirks.TickedQuote | src/backup/parser_new.c:314-330 | `'"` becomes an empty DQUOTE atom and the text after it is read afresh from state 1 |
| FsmQuirks.AtomOutsideList | src/backup/parser_new.c:394-417 | an atom outside any list is read and then dropped |
| GreedyParser.SkipWhite | src/backup/parser_old.c:210-211 | the first position at or after `t` that is not white space, with only white space skipped |
| GreedyParser.Scan | src/backup/parser_old.c:229-259 | the atom scan stops at a delimiter or NUL, never exceeds the buffer, and adds no NUL to the text |
| GreedyParser.Finish | src/backup/parser_old.c:268-299 | finishing an atom keeps the depth and the stack shape |
| GreedyParser.OpenTurn | src/backup/parser_old.c:302-347 | `(` moves past itself and opens one more list, keeping the shape |
| GreedyParser.CloseTurn | src/backup/parser_old.c:348-372 | `)` moves past itself and closes one list, keeping the invariant |
| GreedyParser.AtomTurn | src/backup/parser_old.c:220-300 | an atom either is finished and attached, or is cut at a NUL with its text saved behind the cursor |
| GreedyParser.Iter | src/backup/parser_old.c:219-373 | one turn of the loop moves forward and keeps the invariant, or stops at a NUL with an atom pending |
| GreedyParser.Loop | src/backup/parser_old.c:215-376 | the loop exits at depth 0 or at the NUL, keeping the invariant, or is cut off with an atom pending |
| GreedyParser.Flush | src/backup/parser_old.c:174-212 | the code before the loop keeps the depth and the stack shape |
| GreedyParser.NewCont | src/backup/parser_old.c:67-76 | a new continuation has an empty live stack, depth 0, no buffer, and NULL cursor, position and expression |
| GreedyParser.Entry | src/backup/parser_old.c:139-164 | the call starts from the saved depth and stack |
| GreedyParser.Settle | src/backup/parser_old.c:378-431 | a complete call leaves a List; completing or running out between expressions frees the stack and buffer; a suspended call keeps both and the last expression |
| GreedyParser.GResume | src/backup/parser_old.c:118-432 | as `Settle`, for a whole call of `cparse_sexp` |
| GreedyParser.SkipSpaces | src/backup/parser_old.c:225-226 | the white-space loop stops where `SkipWhite` says |
| GreedyParser.GreedyContinuation.constructor | src/backup/parser_old.c:67-76 | the new object's model is `NewCont` |
| GreedyParser.GreedyContinuation.ScanAtom | src/backup/parser_old.c:229-259 | copying atom characters into the buffer succeeds exactly when `Scan` does, leaving the text `Scan` gives |
| GreedyParser.GreedyContinuation.FinishAtom | src/backup/parser_old.c:268-299 | finishing the atom in place does what `Finish` says |
| GreedyParser.GreedyContinuation.OpenChar | src/backup/parser_old.c:302-347 | `(` in place does what `OpenTurn` says |
| GreedyParser.GreedyContinuation.CloseChar | src/backup/parser_old.c:348-372 | `)` in place does what `CloseTurn` says |
| GreedyParser.GreedyContinuation.AtomChars | src/backup/parser_old.c:220-300 | an atom in place does what `AtomTurn` says |
| GreedyParser.GreedyContinuation.Iterate | src/backup/parser_old.c:219-373 | one turn in place does what `Iter` says |
| GreedyParser.GreedyContinuation.Drive | src/backup/parser_old.c:215-376 | the loop in place halts as `Loop` says |
| GreedyParser.GreedyContinuation.LeadIn | src/backup/parser_old.c:174-212 | the code before the loop, in place, does what `Flush` says |
| GreedyParser.GreedyContinuation.Wrap | src/backup/parser_old.c:378-431 | the code after the loop, in place, does what `Settle` says |
| GreedyParser.GreedyContinuation.Parse | src/backup/parser_old.c:118-432 | the status is that of `GResume`, and unless the call faulted the new fields are `GResume` of the old |
| GreedyParser.GreedyContinuation.LastSexp | src/backup/parser_old.c:88-97 | returns the last expression and leaves NULL in its place |
| GreedyParser.Begin | src/backup/parser_old.c:118-164 | a call with no continuation behaves as `GResume` on a new one |
| GreedyParser.ParseSexp | src/backup/parser_old.c:104-110 | `parse_sexp` returns the `last_sexpr` of `GResume` on a new continuation |
| GreedyTheory.ScanBound | src/backup/parser_old.c:229-259 | the buffer size only decides whether an atom fits, never what it is |
| GreedyTheory.ScanGrows | src/backup/parser_old.c:229-259 | the scan only appends to the text it starts with |
| GreedyTheory.ScanSlice | src/backup/parser_old.c:229-259 | an atom is the input text as written: a backslash and the character it escapes are both kept |
| GreedyTheory.FreedForGood | src/backup/parser_old.c:378-431 | once a call returns with no list open, no later call returns an expression or returns between expressions |
| GreedyTheory.ParenAfterFree | src/backup/parser_old.c:302-372 | after a complete expression, a call faults as soon as it reaches a parenthesis |
| GreedyTheory.WholeAb | src/backup/parser_old.c:118-432 | "(ab)" read in one call gives the list (ab) |
| GreedyTheory.CloseDropsCutAtom | src/backup/parser_old.c:348-372 | the chunks "(ab" then ")" give the empty list: the cut atom is lost |
| GreedyTheory.StaleCursorRepeatsAtom | src/backup/parser_old.c:174-212 | the chunks "((b)" then " c)" give ((b) b c) instead of ((b) c) |
| GreedyTheory.StaleCursorGlues | src/backup/parser_old.c:227-228 | the chunks "((b)" then "c)" give ((b) bc) |
| GreedyTheory.OpenThenAtom | src/backup/parser_old.c:227-228 | a chunk ending after the first `(` leaves a cursor the next atom reads while it is indeterminate |
| GreedyChunks.AtomTurnMoved | src/backup/parser_old.c:220-300 | an atom turn reads only the white space it skips, the atom it scans and the character after it: inputs that agree there, `k` apart, give the same turn moved by `k` |
| GreedyChunks.IterMoved | src/backup/parser_old.c:219-373 | one turn of the loop reads only from its position onwards |
| GreedyChunks.LoopMoved | src/backup/parser_old.c:215-376 | the loop reads only from its position onwards: on two inputs that agree from there, `k` apart, it halts the same, moved by `k` |
| GreedyChunks.JoinedIff | src/backup/parser_old.c:118-432 | the joined-input relation used by the split lemmas holds exactly when the whole input is the two chunks concatenated |
| GreedyChunks.ScanJoin | src/backup/parser_old.c:229-259 | an atom scan that reaches the end of the first chunk, on the joined input, goes on as the scan of the second chunk starting from the text saved so far |
| GreedyChunks.IterJoin | src/backup/parser_old.c:219-373 | the turn cut by the end of the first chunk, on the joined input, is the first turn of the next call on the second chunk from the saved machine |
| GreedyChunks.LoopJoin | src/backup/parser_old.c:215-376 | a loop cut off at the end of the first chunk, followed by the loop on the second chunk, halts as the loop on the joined input |
| GreedyChunks.CutInAtom | src/backup/parser_old.c:215-300 | a call that suspends on a chunk ending in an atom character was cut off inside the loop |
| GreedyChunks.ConcludeMoved | src/backup/parser_old.c:378-431 | the code after the loop gives the same status on the joined input and on the second chunk, and the same continuation except for the saved depth |
| GreedyChunks.GreedySplit | src/backup/parser_old.c:118-432 | a call suspended inside an atom, followed by a call on the next chunk, equals one call on both chunks: the same status, the same continuation when suspended, and otherwise the same but for the depth field; the next chunk must start with an atom character other than a backslash (`GoesOn`) |
| GreedyChunks.GreedySplitConcat | src/backup/parser_old.c:118-432 | as `GreedySplit`, for the concatenation of the two chunks, under the same condition that the second starts with an atom character other than a backslash |
| GreedyChunks.FirstChunk | src/backup/parser_old.c:227-259 | the chunk "(ab" suspends with the atom "ab" saved |
| GreedyChunks.CarriedAtom | src/backup/parser_old.c:118-432 | "(ab" then "c)" ends with the same status as "(abc)" in one call |
| GreedyChunks.OpenKeepsCutAtom | src/backup/parser_old.c:302-347 | "(ab(c))" in one call gives (ab (c)), but "(ab" then "(c))" gives ((abc)): a `(` after a cut atom does not end it |
| GreedyChunks.WholeAbC | src/backup/parser_old.c:118-432 | "(ab(c))" in one call gives (ab (c)) |
| GreedyChunks.ChunkedAbC | src/backup/parser_old.c:118-432 | "(ab" then "(c))" gives ((abc)) |
| GreedyLists.ScanWord | src/backup/parser_old.c:229-259 | the atom scan copies a word without escapes up to the character that ends it |
| GreedyLists.WordsRun | src/backup/parser_old.c:215-376 | the loop over space-separated words appends their atoms to the current list in order |
| GreedyLists.FlatLoop | src/backup/parser_old.c:215-376 | the loop of one call on a parenthesised list of words exits just past its `)` with the List of the words' atoms |
| GreedyLists.SettleFlat | src/backup/parser_old.c:378-431 | a loop that closed the outermost list completes the call, frees the stack and leaves `lastPos` at the rest, or NULL at its end |
| GreedyLists.GreedyFlat | src/backup/parser_old.c:118-432 | one call on `(w1 ... wn)rest` completes with the List of the words' atoms in order, frees the stack and buffer, and leaves `lastPos` at the rest |
| GreedyLists.FlatAbCd | src/backup/parser_old.c:118-432 | "(ab cd)" in one call completes with the list (ab cd) |
| SlispUtil.CopyAtom | examples/slisp/slisp_util.c:61-91 | a copied atom has the original's type, tag and contents, with the given links |
| SlispUtil.DeepCopy | examples/slisp/slisp_util.c:50-106 | the copy is NULL exactly when the input is; type and tag are kept; a value copy keeps its contents and has unset `list` and `next` |
| SlispUtil.CopyIsTreeIff | examples/slisp/slisp_util.c:50-106 | the copy reads back as the same tree if and only if the tree holds no atom |
| SlispUtil.CopyLosesSibling | examples/slisp/slisp_util.c:61-91 | copying the list (a b) leaves the copy of `a` with an unset `next` |
| SlispUtil.DeepCopyChain | examples/slisp/slisp_util.c:50-106 | the corrected copy: NULL exactly when the input is, type and tag kept |
| SlispUtil.ChainCopyKeeps | examples/slisp/slisp_util.c:50-106 | the corrected copy reads back as the same tree, for every well-formed tree |
| SlispUtil.CopyChainKeepsSibling | examples/slisp/slisp_util.c:92-103 | the corrected copy of (a b) is (a b) |
| SlispUtil.OpNamed | examples/slisp/slisp_util.c:115-136 | a name is recognised exactly when it is the spelling of an operator, and then it names that operator |
| SlispUtil.SpellingsDistinct | examples/slisp/slisp_util.c:115-136 | every operator's spelling names it back, and no two operators share a spelling |
| SlispUtil.Tokenize | examples/slisp/slisp_util.c:111-139 | the result is a known operator if and only if the cell is a value whose C string spells one, and then it spells it |
| SlispUtil.NumberType | examples/slisp/slisp_util.c:144-166 | a number's type is integer, float or string |
| SlispUtil.TypeOf | examples/slisp/slisp_util.c:144-166 | a list is an s-expression, a value with no text is invalid, and a value with text is an integer, float or string |
| SlispUtil.DotsAppend | examples/slisp/slisp_util.c:155-163 | dots counted over a concatenation add up |
| SlispUtil.NumberTypeStep | examples/slisp/slisp_util.c:155-163 | one more character of a number: a dot moves integer to float and float to string, a digit changes nothing, anything else gives string |
| SlispUtil.StringSticks | examples/slisp/slisp_util.c:155-163 | once the type is string, further characters leave it string |
| SlispUtil.DeriveType | examples/slisp/slisp_util.c:144-166 | the loop returns the type of the atom's C string after an optional minus |
| SlispUtil.DeriveTypeEdges | examples/slisp/slisp_util.c:144-166 | "" and "-" are integers, "." is a float, "--1" is a string, "-1.5" is a float |
| RubySexp.ScanTail | ruby/Sexp.c:103-127 | the digit loop classifies the rest of the string as `Tail` says |
| RubySexp.Inferred | ruby/Sexp.c:55-128 | the classification of a string is never none; a minus before a hex mark gives a string, as does a hex mark with no hexadecimal digit after it |
| RubySexp.InferredOf | ruby/Sexp.c:55-128 | a node's type is none exactly when the node is NULL, has no text, or is a list |
| RubySexp.InferWith | ruby/Sexp.c:55-128 | the classifier returns `InferredOf` the cell, with hexadecimal digits accepted exactly when the hex flag is the one the loop tests |
| RubySexp.InferSvalType | ruby/Sexp.c:55-128 | the classifier as written never accepts hexadecimal digits |
| RubySexp.InferSvalTypeFixed | ruby/Sexp.c:89 | the corrected classifier accepts hexadecimal digits after `0x` |
| RubySexp.HexReadAsDecimal | ruby/Sexp.c:89-127 | as written, "0x" + h is an integer exactly when h is a non-empty string of decimal digits |
| RubySexp.HexFixed | ruby/Sexp.c:89-127 | corrected, "0x" + h and "0X" + h are integers exactly when h is a non-empty string of hexadecimal digits |
| RubySexp.HexFlagNeverSeen | ruby/Sexp.c:84-123 | as written "0x12" is an integer and "0x1F" a string; corrected, "0x1F" is an integer |
| RubySexp.NegativeHex | ruby/Sexp.c:69-82 | a minus before `0x` always gives a string |
| RubySexp.ZeroPrefix | ruby/Sexp.c:75-96 | a leading zero does not change the decimal type |
| RubySexp.AgreesWithDeriveType | ruby/Sexp.c:55-128 | without a hex mark, the Ruby classifier and `derive_type` agree (integer, real, string) |
| RubySexp.InferEdges | ruby/Sexp.c:55-128 | "" and "-" are integers, "0.5" is real, "0x" is a string |
| SlispEnv.ScanIsLocal | examples/slisp/slisp_env.c:136-138 | with every slot named, the slot scan finds the first binding of the name, as the scope's map says |
| SlispEnv.AddAsWritten | examples/slisp/slisp_env.c:85-100 | `add_varname` as written succeeds exactly when both slot `numfree` and slot `strlen(name)` are inside the array, and then slot `strlen(name)` is NULL, even when it held another stored name; slot `numfree` holds the name unless it is that same slot; no other slot changes |
| SlispEnv.AddFixed | examples/slisp/slisp_env.c:85-100 | the corrected `add_varname` succeeds exactly when a slot is free, stores the name in slot `numfree - 1` and changes no other slot |
| SlispEnv.BindAsWritten | examples/slisp/slisp_env.c:102-119 | `bind_variable` as written refuses exactly when no slot is free, overruns exactly when `numfree` equals the array length, and otherwise binds slot `numfree` alone; in both of the last two `numfree` drops by one |
| SlispEnv.BindFixed | examples/slisp/slisp_env.c:102-119 | the corrected `bind_variable` refuses exactly when no slot is free, never overruns, and binds slot `numfree - 1` alone |
| SlispEnv.FirstBindOverruns | examples/slisp/slisp_env.c:102-119 | the first bind on a fresh scope binds nothing: with no slots there is no free one; otherwise the write at `numfree` is past the array and only `numfree` drops |
| SlispEnv.BindAllSlots | examples/slisp/slisp_env.c:102-119 | as written, binding k values from `numfree` f leaves a binding in slots f-k+1 to f (in slot f only when it is inside the array), leaves every other slot alone and leaves f-k free |
| SlispEnv.FreshMissesFirst | examples/slisp/slisp_env.c:102-119 | binding one value per slot into a fresh scope uses up every free slot yet leaves slot 0 as it was, so the variable named there stays unbound |
| SlispEnv.AddKeepsNameIff | examples/slisp/slisp_env.c:85-100 | as written, the stored name survives exactly when its length differs from the slot index; other slots are unchanged |
| SlispEnv.FillStep | examples/slisp/slisp_env.c:85-119 | with the corrected indices, a name and its binding go into the same last free slot and the filled part grows by one |
| SlispEnv.Scope.FindIsInnermost | examples/slisp/slisp_env.c:130-145 | lookup returns the binding of the innermost scope naming the key, or not found |
| SlispEnv.Scope.Find | examples/slisp/slisp_env.c:130-145 | a name found in the scope's own slots gives that slot's result; not found means not in the own slots and not found in the parent either |
| SlispEnv.Scope.Shadows | examples/slisp/slisp_env.c:130-145 | a name bound in this scope hides every outer binding |
| SlispEnv.Scope.constructor | examples/slisp/slisp_env.c:41-70 | `enter_scope`: a scope one deeper than its parent, with `n` empty slots, all free, and no body |
| SlispEnv.Scope.AddVarname | examples/slisp/slisp_env.c:85-100 | the names array becomes `AddAsWritten` of the old one |
| SlispEnv.Scope.AddVarnameFixed | examples/slisp/slisp_env.c:85-100 | the names array becomes `AddFixed` of the old one |
| SlispEnv.Scope.BindVariable | examples/slisp/slisp_env.c:102-119 | the bindings and free count become `BindAsWritten` of the old ones: with no free slot nothing changes; on the write past the array only `numfree` drops |
| SlispEnv.Scope.BindVariableFixed | examples/slisp/slisp_env.c:102-119 | the bindings and free count become `BindFixed` of the old ones; on a refusal nothing changes |
| SlispEnv.Scope.SetBody | examples/slisp/slisp_env.c:121-128 | the body is set, and no lookup changes |
| SlispEnv.Scope.LookupBinding | examples/slisp/slisp_env.c:130-145 | the scan loop and the walk up the parents return `Find` of the name |
| SlispEnv.ExitScope | examples/slisp/slisp_env.c:72-83 | `exit_scope` returns the parent; freeing the scope's arrays is not modelled |

## Left out

- The `len` argument of `cparse_sexp` is not read by either parser, so it is not modelled. Input ends at its first NUL.
- The stack is modelled as a Dafny sequence of frames. The `faststack` library is not part of this model.
- `fprintf` to stderr (an atom outside any list, and similar) is not modelled. Only the effect on the tree is kept.
- `malloc`, `free` and `strdup` are not modelled as memory. Node identity and sharing are not modelled: trees are values.
- `MAX_SEXPR_ATOM_SIZE` is not defined in the files modelled. The atom buffer's size is a parameter.
- Writes past the end of the atom buffer are not performed. Such a write ends the call as `AtomOverflow`, and the continuation's state after any fault is not specified.
- FsmParser.Continuation: one array stands for every `val` buffer the continuation uses across calls.
- GreedyParser.GreedyContinuation.Parse: states nothing about the fields after a fault, because the C code has undefined behaviour there.
- In the greedy parser, `strcpy` into the node's fixed `val` field is modelled as the node holding the atom's text. The field's own size is not modelled.
- The greedy parser's nodes have their `aty` tag never assigned (`Unset`). Its escape handling keeps the backslash, as the code does.
- SlispUtil.CopyAtom: copies only the bytes up to `val_used`. Bytes beyond that are read as NUL, since the model does not keep the uninitialised tail of a buffer.
- SlispUtil.DeepCopy: an atom whose `aty` is none of the four tags (`Stray`) gets a copy whose atom fields are all unset, as the switch's `default` only reports the error; the error message is not modelled.
- SlispUtil.Tokenize: requires an atom's `val` to be set. `strcmp` on a NULL or unassigned `val` (examples/slisp/slisp_util.c:116) is undefined in C and is not modelled.
- SlispUtil.TypeOf: requires an atom's `val` not to be unassigned. Reading an unassigned `val` (examples/slisp/slisp_util.c:148-150) is undefined in C and is not modelled; a NULL `val` is modelled and gives the invalid type.
- SlispUtil.DeriveType: the same precondition as `TypeOf`, for the same reason.
- SlispUtil.DeepCopy: requires `Copyable`: no unassigned `list` or `next` pointer, and every text atom with `val`, `val_used` and `val_allocated` set and consistent. Following or copying through those fields otherwise (examples/slisp/slisp_util.c:61-103) is undefined in C and is not modelled. An atom with an unknown tag is still allowed.
- RubySexp.InferredOf: requires the node pointer and, for a node, its `val` not to be unassigned. Reading them unassigned (ruby/Sexp.c:61-65) is undefined in C; NULL for either is modelled.
- RubySexp.InferWith: the same precondition as `InferredOf`, for the same reason.
- RubySexp.InferSvalType: the same precondition as `InferredOf`, for the same reason.
- RubySexp.InferSvalTypeFixed: the same precondition as `InferredOf`, for the same reason.
- SlispEnv.ExitScope: does not model freeing the scope's arrays. Only the returned parent is stated.
- SlispEnv.Scope.BindVariable: the write one past the end of `bindings` is not performed. Only its other effect, the decrement of `numfree`, is kept; what the stray write would clobber in C is not modelled.
- SlispEnv.Scope.LookupBinding: a NULL name before a match makes `strcmp` crash; this is reported as `NullName`, and a fresh scope with slots has only NULL names.
- GreedyChunks.GreedySplit: states chunk independence only for a first chunk cut inside an atom, the case in which the greedy parser saves and restores everything it needs. Splits at other places (after a `)`, right after the first `(`) are covered only by the concrete traces in `GreedyTheory` and `GreedyChunks`, which show them going wrong. Both it and GreedySplitConcat also require the next chunk to start with an atom character other than a backslash (`GoesOn`). A next chunk that starts with white space, which the code before the loop (src/backup/parser_old.c:174-212) finishes the saved atom on and so also agrees with one call, is not covered; neither is one that starts with `\`.
- GreedyChunks.GreedySplitConcat: the same limits as `GreedySplit`: only a first chunk cut inside an atom, and only a next chunk that starts with an atom character other than a backslash.
- FsmChunks.EndIsSticky: `lastPos` is modelled as the rest of the earlier string. In the program it is a pointer into the caller's earlier buffer (src/backup/parser_new.c:143-144 and 363), so the lemma holds only while that buffer is still in place; a caller that frees or refills it makes the next call read whatever the buffer then holds, and that is not modelled.
- FsmParser.Continuation.Parse: the early `return` on a NULL string (src/backup/parser_new.c:129-130) is not modelled, because a Dafny string cannot be NULL. In C that path returns no value from a function declared to return a continuation.
- The evaluator, memory manager and driver of slisp, the Python and Ruby bindings other than `infer_sval_type`, and the library's current parser are not part of this model.

## Findings

| source | as written | input that shows it | evidently intended | confidence | as-written member | corrected member |
|---|---|---|---|---|---|---|
| src/backup/parser_new.c:361-376 | between expressions `lastPos` is set to the position reached even when that is the NUL | chunks "(a)" then "(b)" in two buffers that both stay in place: the second call rereads the empty rest of the first, never reads "(b)", and replaces (a) with an indeterminate pointer | `lastPos` NULL at the end of the string, as lines 380-383 do inside a list | not executed | FsmChunks.SecondChunkIgnored | FsmChunks.FixedSplit |
| examples/slisp/slisp_util.c:61-91 | the copy of an atom never sets `next` (nor `list`) | the list (a b): the copy of `a` has an unset `next`, so `b` is lost | an atom copy links to the copy of its sibling, as the list branch does at lines 101-102 | not executed | SlispUtil.CopyLosesSibling | SlispUtil.ChainCopyKeeps |
| ruby/Sexp.c:89 | the hex mark is set to 2 but the loop tests for 1 | "0x1F" is classified as a string; "0x12" as an integer | "0x" followed by hexadecimal digits is an integer | not executed | RubySexp.HexFlagNeverSeen | RubySexp.HexFixed |
| examples/slisp/slisp_env.c:113-115 | `bind_variable` writes `bindings[numfree]`, one past the last free slot | a fresh scope with `numvars` n: the first bind writes index n, past the array | write slot `numfree - 1`, the last free one | not executed | SlispEnv.FirstBindOverruns | SlispEnv.FillStep |
| examples/slisp/slisp_env.c:92-97 | `add_varname` stores at `numfree` and then writes NULL at `varnames[strlen(name)]` | adding a name of length equal to the free index leaves that slot NULL | store the name at the last free slot and leave other slots alone | not executed | SlispEnv.AddKeepsNameIff | SlispEnv.FillStep |
