# Proofs about the osnos user land

osnos is a small operating system with a graphical user land written in C. This project models the parts of that user
land whose correctness is hardest to see and proves what they promise, for all inputs and all runs.

* **osh**, the script interpreter. It has no syntax tree: it evaluates while it reads, skips untaken code by reading it
  with execution switched off, and loops by going back in the text. `OshSemantics` is an ordinary big-step semantics that
  knows nothing of this. The main theorem says that running the interpreter on the text of a program is running the
  program (`OshLexis`, `OshSyntax`, `OshSteps`, `OshInterp`, `OshPrinter`). What programs mean is also said in laws and on
  texts spelled out (`OshLaws`, `OshTexts`).
* **oxsrv**, the window server: the damage list and the cached picture (`OxDamage`, `OxCompositor`), the window table with
  its stacking order, focus and shared-memory buffers (`OxShm`, `OxZOrder`, `OxWindows`), and how it takes keyboard and
  screen from kbdsrv and consrv and gives them back (`Handoff`).
* **oxnotepad**: the editing keys, undo and redo rings, find and replace (`NotepadHistory`, `NotepadDoc`, `NotepadKeys`,
  `NotepadSearch`, `Notepad`).
* **shellsrv**: packing and tokenising of arguments, and globbing (`ShellArgs`, `ShellWriting`, `ShellGlob`).
* **oxterm**: the screen, its scrollback ring and the escape parser (`TermScreen`, `TermLaws`, `Term`).
* **ovi**: edits of a line table as edits of a flat text, and save and load (`OviText`, `Ovi`).
* **oxstudio**: colouring a JavaScript text and matching its brackets (`Highlight`, `BracketMatch`); **oxjs**: line
  drawing (`LineDrawing`).

Code that changes fields or buffers in place is a class or a method over arrays with its loops, proved against functions
on values; the promises are lemmas about those functions and invariants of the classes. The kernel, the network and the
clock appear only as parameters: whether a shared-memory call succeeds, whether a message is lost, which process runs next.

Where a promise is false of the code, the project keeps the code, shows an input or a run that breaks it, and proves the
exact condition under which it holds:

* undo restores the text: `NotepadHistory.UndoRestoresIff`, broken by `NotepadDoc.LongDeletionLost`;
* undo leaves the cursor in the text: `NotepadDoc.InRangeIff`, broken by `NotepadDoc.CursorEscapes`;
* replace-all replaces: `Notepad.Editor.ReplaceAll`, broken by `Notepad.FullBufferOverflows`;
* saving and loading gives the same lines: `OviText.SaveLoadIff`, broken by `OviText.EmptyLastLineLost`;
* kbdsrv leaves an owned ring alone: `Handoff.StealsIff`, broken by `Handoff.StealHappens`;
* nobody wakes behind a live oxsrv's back: `Handoff.WakesIffStaleResume` and `Handoff.ConWakesIffStaleResume`, broken by
  `Handoff.StaleResumeHappens`, `Handoff.FailedLookupHappens`, `Handoff.ConStaleResumeHappens` and
  `Handoff.ConFailedLookupHappens`;
* a flush shows every change: `OxCompositor.Compositor.CompositeAndFlush`, broken by `OxCompositor.PointerHidesSwap`;
* erasing in a line stays in the line: `TermScreen.EraseStaysIff`, broken by `TermScreen.EraseSpills`;
* shrinking the terminal keeps the cursor's line: `TermLaws.CursorStaysIff`, broken by `TermLaws.PromptLost`;
* partial repaints are exact: `OxCompositor.ReplayIsExact` and `OxCompositor.ExactOnlyIfContained`.

`dafny verify dfyconfig.toml` checks everything.

## Model

| member | source | states |
|---|---|---|
| `OshPrinter.RunPrinted` | osnos/elfs/shell/osh.c:394-413 | for every program of the language: running the interpreter on the program's text leaves exactly the variables, output and error flag of an independent big-step semantics |
| `OshInterp.Interp.Run` | osnos/elfs/shell/osh.c:394-413 | the same for every well-formed text, with any blanks, comments, separators and parentheses in it, whose run stays in step |
| `OshTexts.PrintAndRead` | osnos/elfs/shell/osh.c:297-318 | running `print` with any expression writes a numeral, without leading zeros, that reads back as the value of the expression; negative values are the ones with a minus sign |
| `OshTexts.RunOperators` | osnos/elfs/shell/osh.c:192-271 | for the text of three numbers with any two of the thirteen operators between them: the number printed is what precedence and association to the left make of it, the operators being those of arithmetic, comparison and logic |
| `OshTexts.RunCommented` | osnos/elfs/shell/osh.c:61-87 | a comment line, blanks, newlines and semicolons in front of a program do not change its run |
| `OshTexts.NameIff` | osnos/elfs/shell/osh.c:146-153 | a name is a letter or underscore, then up to fourteen letters, digits or underscores, and no keyword |
| `OshLaws.PrintShows` | osnos/elfs/shell/osh.c:297-318 | `print` writes its items with single spaces between them and a newline; strings as they are, numbers so that they read back as their values |
| `OshLaws.Comparisons` | osnos/elfs/shell/osh.c:221-243 | the comparisons are each other's negations and mirror images, errors included |
| `OshLaws.ComparisonsMean` | osnos/elfs/shell/osh.c:221-243 | exactly one of less, equal and greater holds; less means a positive difference, equal none |
| `OshLaws.Signs` | osnos/elfs/shell/osh.c:185-219 | double negation, subtraction as adding the negative, and the order of operands, errors included |
| `OshLaws.Sums` | osnos/elfs/shell/osh.c:208-219 | subtraction undoes addition |
| `OshLaws.Products` | osnos/elfs/shell/osh.c:192-206 | a product is a repeated sum |
| `OshLaws.Division` | osnos/elfs/shell/osh.c:192-206 | quotient and remainder give the dividend back; dividing by zero is an error |
| `OshLaws.Connectives` | osnos/elfs/shell/osh.c:245-271 | logical and and logical or are dual, errors included, and the right side counts only when the left leaves the answer open |
| `OshLaws.Leaves` | osnos/elfs/shell/osh.c:118-183 | numbers are themselves; a variable never set counts as zero and is an error |
| `OshLaws.Constants` | osnos/elfs/shell/osh.c:159-183 | `true` is 1 and `false` is 0 whatever is assigned to them |
| `OshLaws.Assigned` | osnos/elfs/shell/osh.c:127-137 | an assignment sets its variable and no other, and fails exactly when the expression does or a thirty-third variable is needed |
| `OshLaws.ErrorsShow` | osnos/elfs/shell/osh.c:297-388 | an error in an expression is an error of its statement; a failing condition that counts as zero takes no branch |
| `OshLaws.IfNot` | osnos/elfs/shell/osh.c:320-337 | negating a condition and exchanging the branches means the same |
| `OshLaws.InOrder` | osnos/elfs/shell/osh.c:394-413 | programs run one after the other, up to the first error |
| `OshLaws.LoopEnds` | osnos/elfs/shell/osh.c:339-357 | a loop of at most a million rounds is its rounds until the condition is zero |
| `OshLaws.LoopCapped` | osnos/elfs/shell/osh.c:339-357 | a longer one stops with an error after one round more |
| `OshSteps.SturdyBlockInStep` | osnos/elfs/shell/osh.c:192-206 | a text in which no division is followed by another factor stays in step whatever the state, and so can always be run |
| `OshSteps.Ahead` | osnos/elfs/shell/osh.c:192-271 | what a rule meets next in a chain that is in step: its end, or an operator and an operand in step; after a division by zero the end |
| `OshPrinter.ProgOk` | osnos/elfs/shell/osh.c:10-24 | every abstract program has a text, and that text is well formed and means the program |
| `OshPrinter.ShowOk` | osnos/elfs/shell/osh.c:16-24 | the printed expression has enough parentheses: read with the grammar's precedences it means the expression printed |
| `OshPrinter.ShowSturdy` | osnos/elfs/shell/osh.c:192-206 | the printed expression has no division in the middle of a chain: the printer sets such divisions in parentheses |
| `OshPrinter.ProgSturdy` | osnos/elfs/shell/osh.c:192-206 | nor has any printed program |
| `OshPrinter.JoinOk` | osnos/elfs/shell/osh.c:192-271 | adding an operand to a chain of one precedence level means applying the operator to the left |
| `OshPrinter.AppendOk` | osnos/elfs/shell/osh.c:192-271 | chains associate to the left: appending a link wraps what the chain meant |
| `OshPrinter.ItemsOk` | osnos/elfs/shell/osh.c:297-318 | a printed argument list is read back as the same items |
| `OshPrinter.StmtOk` | osnos/elfs/shell/osh.c:359-388 | a printed statement is read back as the same statement, in front of any following line |
| `OshSemantics.QuotRemTruncate` | osnos/elfs/shell/osh.c:192-206 | the two operators for `/` and `%` are C's: they truncate toward zero and the remainder has the dividend's sign |
| `OshSyntax.SameComparison` | osnos/elfs/shell/osh.c:221-231 | two readings of one text as a comparison operator and what follows agree, so the order in which the operators are tried does not matter |
| `OshSyntax.OpNext` | osnos/elfs/shell/osh.c:192-271 | an operator of a level comes next exactly when the tree has another link |
| `OshSyntax.OpIsNoAssign` | osnos/elfs/shell/osh.c:374-388 | no operator after a name is taken for an assignment, `==` included |
| `OshSyntax.StmtKeyword` | osnos/elfs/shell/osh.c:359-388 | the keyword test picks the right kind of statement for every well-formed statement text |
| `OshLexis.NameIsNoKeyword` | osnos/elfs/shell/osh.c:99-106 | a variable name is never matched as a keyword |
| `OshLexis.IdentUnique` | osnos/elfs/shell/osh.c:146-153 | the longest run of name characters is the name of the tree |
| `OshLexis.SkipLayout` | osnos/elfs/shell/osh.c:61-77 | blanks and comments in front of a text are skipped, the text is not |
| `OshLexis.SkipSkip` | osnos/elfs/shell/osh.c:61-86 | skipping fewer kinds of blanks first changes nothing |
| `OshInterp.Interp.SkipOver` | osnos/elfs/shell/osh.c:61-77 | the two nested loops leave exactly the text without its leading blanks and comments |
| `OshInterp.Interp.SkipStmtTerm` | osnos/elfs/shell/osh.c:80-86 | all statement separators, blanks and comments are gone |
| `OshInterp.Interp.MatchLit` | osnos/elfs/shell/osh.c:90-95 | succeeds exactly on a prefix and consumes it, otherwise leaves the text alone |
| `OshInterp.Interp.MatchKw` | osnos/elfs/shell/osh.c:99-106 | succeeds exactly on the whole word and consumes it |
| `OshInterp.Interp.ReadIdent` | osnos/elfs/shell/osh.c:146-153 | reads at most 15 name characters and stops at the first other character |
| `OshInterp.Interp.ReadNumber` | osnos/elfs/shell/osh.c:169-173 | the accumulated number is the decimal value of all the digits |
| `Decimal.ValueOfShow` | osnos/elfs/shell/osh.c:169-173 | reading a printed number gives the number back |
| `Decimal.ReadShown` | osnos/elfs/shell/osh.c:313-313 | reading a printed number, sign included, gives the number back, and it starts with a minus sign exactly when it is negative |
| `Decimal.ShownRead` | osnos/elfs/shell/osh.c:313-313 | no other numeral without leading zeros reads as that number |
| `OshInterp.Interp.MatchComparison` | osnos/elfs/shell/osh.c:221-231 | finds the comparison operator that is there, `<=` before `<` |
| `OshInterp.Interp.VarGet` | osnos/elfs/shell/osh.c:118-125 | the table is the map of the semantics; an unset variable gives 0 and an error |
| `OshInterp.Interp.VarSet` | osnos/elfs/shell/osh.c:127-136 | updates in place or appends; the 33rd name is refused with an error and changes nothing |
| `OshInterp.EnvUpdate` | osnos/elfs/shell/osh.c:127-136 | changing a table entry changes the map at that name only |
| `OshInterp.EnvSize` | osnos/elfs/shell/osh.c:127-136 | the table is full exactly when the map has 32 names |
| `OshInterp.Interp.ParsePrimary` | osnos/elfs/shell/osh.c:159-183 | consumes exactly one primary and returns its value; with execution off nothing else happens |
| `OshInterp.Interp.ParseUnary` | osnos/elfs/shell/osh.c:185-190 | the same for `-` and `!` |
| `OshInterp.Interp.ParseMul` | osnos/elfs/shell/osh.c:192-206 | the loop computes the left-associated value of the whole chain, or the division-by-zero error |
| `OshInterp.Interp.ParseAdd` | osnos/elfs/shell/osh.c:208-219 | the same for sums |
| `OshInterp.Interp.ParseCmp` | osnos/elfs/shell/osh.c:221-243 | at most one comparison, with the value of the right operator |
| `OshInterp.Interp.ParseAnd` | osnos/elfs/shell/osh.c:245-258 | short-circuit conjunction: a skipped operand is read but reads no variable and reports no error |
| `OshInterp.Interp.ParseOr` | osnos/elfs/shell/osh.c:260-271 | short-circuit disjunction, likewise |
| `OshInterp.Interp.ParsePrint` | osnos/elfs/shell/osh.c:297-318 | the output is the items separated by single spaces and a newline, with the meaning `OshLaws.PrintShows` gives |
| `OshInterp.Interp.ParseBlock` | osnos/elfs/shell/osh.c:283-295 | the statements of the block are executed in order up to the first error; skipped code changes nothing |
| `OshInterp.Interp.ParseIf` | osnos/elfs/shell/osh.c:320-337 | exactly one branch takes effect, the other is only read |
| `OshInterp.Interp.ParseWhile` | osnos/elfs/shell/osh.c:339-357 | re-reading condition and body computes the loop of the semantics, with its cap of a million iterations |
| `OshInterp.Interp.ParseStmt` | osnos/elfs/shell/osh.c:359-388 | a statement is executed as its kind says and its text is consumed |
| `OshInterp.Interp.ParseAssignOrDiscard` | osnos/elfs/shell/osh.c:367-388 | look-ahead and rewinding decide between assignment and expression as the grammar does |
| `OxDamage.MarksCovered` | osnos/elfs/gui/oxsrv.c:218-268 | over any run of marks, every on-screen pixel ever marked lies in some recorded rectangle |
| `OxDamage.MarkedCovers` | osnos/elfs/gui/oxsrv.c:218-268 | one mark adds its pixels and loses none of those recorded before |
| `OxDamage.PutCovers` | osnos/elfs/gui/oxsrv.c:226-267 | whichever rectangle a mark is merged into, nothing recorded is lost and the mark is covered |
| `OxDamage.TargetUnique` | osnos/elfs/gui/oxsrv.c:228-262 | which rectangle a mark is merged into is determined: the first that overlaps, else the first of least waste |
| `OxDamage.WasteIsNatural` | osnos/elfs/gui/oxsrv.c:248-262 | waste is never negative, so the -1 of the search means "none yet" |
| `OxDamage.WasteCounts` | osnos/elfs/gui/oxsrv.c:248-262 | waste is the number of pixels by which the bounding box is larger |
| `OxDamage.TargetExists` | osnos/elfs/gui/oxsrv.c:228-262 | there is always a place for a mark |
| `OxDamage.UnionLeast` | osnos/elfs/gui/oxsrv.c:230-262 | merging takes the smallest rectangle around both |
| `OxDamage.OverlapsIff` | osnos/elfs/gui/oxsrv.c:228-236 | the overlap test finds exactly the rectangles that share a pixel |
| `OxDamage.ClipIff` | osnos/elfs/gui/oxsrv.c:218-226 | clipping keeps exactly the pixels on the screen |
| `OxDamage.Damage.MarkDirty` | osnos/elfs/gui/oxsrv.c:218-268 | the list stays within its bound and on the screen, with the clipped mark put where `Target` says |
| `OxDamage.Damage.Place` | osnos/elfs/gui/oxsrv.c:226-267 | the merging search as it runs: first overlap, then append, then least waste |
| `OxDamage.Damage.LeastWaste` | osnos/elfs/gui/oxsrv.c:248-262 | the loop finds the first rectangle of least waste |
| `OxCompositor.Compositor.Process` | osnos/elfs/gui/oxsrv.c:1816-2002 | over any run of scene changes, cursor moves and flushes: after each flush the cache equals the picture composed from scratch, unless a change its marks did not cover still waits for a flush that finds nothing on record or everything marked |
| `OxCompositor.ReplayIsExact` | osnos/elfs/gui/oxsrv.c:1834-1872 | replaying only the layers that meet a rectangle, bodies clipped and frames not, gives the full picture inside it |
| `OxCompositor.ExactOnlyIfContained` | osnos/elfs/gui/oxsrv.c:1834-1872 | and only if layers paint inside the box they are tested by: otherwise some partial repaint differs |
| `OxCompositor.HiddenIsAbsent` | osnos/elfs/gui/oxsrv.c:1816-1828 | a layer that is not shown leaves the picture as it would be without it |
| `OxCompositor.OpaqueHides` | osnos/elfs/gui/oxsrv.c:1816-1828 | where a shown layer paints over everything, what lies below it does not matter |
| `OxCompositor.BareWallpaper` | osnos/elfs/gui/oxsrv.c:1816-1828 | with no layer shown there is the wallpaper |
| `OxCompositor.Compositor.CompositeAndFlush` | osnos/elfs/gui/oxsrv.c:1918-2002 | after a flush the cache is the picture composed from scratch exactly when it was right outside the recorded damage, or everything was marked, or nothing at all was on record; no damage is left |
| `OxCompositor.TwoFlushesRepair` | osnos/elfs/gui/oxsrv.c:1921-1922 | after any run, two flushes in a row leave no uncovered change: the second finds nothing on record and repaints everything |
| `OxCompositor.PointerHidesSwap` | osnos/elfs/gui/oxsrv.c:2794-2803 | one flush need not: two windows change places without a mark, and a pointer move on record keeps the next flush from showing it |
| `OxCompositor.Compositor.FlushRects` | osnos/elfs/gui/oxsrv.c:1941-1947 | recomposing and caching the damaged rectangles in turn makes every pixel in one of them right and changes no other, although rectangles may overlap |
| `OxCompositor.Compositor.ComposeNoCursor` | osnos/elfs/gui/oxsrv.c:1816-1828 | wallpaper and all layers, bottom to top, on every pixel |
| `OxCompositor.Compositor.ComposeNoCursorDirty` | osnos/elfs/gui/oxsrv.c:1834-1872 | inside the rectangle, the replayed layers |
| `OxCompositor.Compositor.SnapshotToClean` | osnos/elfs/gui/oxsrv.c:1876-1883 | copies exactly the rectangle into the cache |
| `OxCompositor.Compositor.RestoreRectFromClean` | osnos/elfs/gui/oxsrv.c:1640-1647 | copies exactly the rectangle back |
| `OxCompositor.Compositor.ChangeScene` | osnos/elfs/gui/oxsrv.c:218-268 | marking rectangles that cover a change keeps the cache right outside the damage; something is on record afterwards exactly when it was before or a mark touches the screen |
| `OxWindows.WindowManager.Serve` | osnos/elfs/gui/oxsrv.c:770-1266 | over any sequence of requests: the stack holds exactly the used slots once each, the focus is one of them, ids are unique, and the kernel objects alive are exactly those the windows hold |
| `OxWindows.WindowManager.Handle` | osnos/elfs/gui/oxsrv.c:770-1266 | each single request keeps all of that |
| `OxWindows.NothingLeft` | osnos/elfs/gui/oxsrv.c:875-923 | with no window left no object is left: nothing leaks |
| `OxWindows.OwnedUpdate` | osnos/elfs/gui/oxsrv.c:1042-1116 | replacing what one window holds keeps the live objects a disjoint union of what the windows hold |
| `OxWindows.FreshName` | osnos/elfs/gui/oxsrv.c:1050-1056 | the name of a new buffer is not in use, for any history of resizes |
| `OxShm.ShmNameInjective` | osnos/elfs/gui/oxsrv.c:1050-1054 | different windows or versions have different object names |
| `OxWindows.WindowManager.AllocWindow` | osnos/elfs/gui/oxsrv.c:770-860 | a new window is on top and focused, or nothing has changed and no object is left behind; exactly when which |
| `OxWindows.Cascade` | osnos/elfs/gui/oxsrv.c:780-785 | each new window opens 30 pixels right of and below the one before, every eighth at the starting place below the Deskbar |
| `OxWindows.NewIsPlain` | osnos/elfs/gui/oxsrv.c:776-840 | a new window is normal, has the size asked for in bounds and buffer, and holds exactly its own object |
| `OxWindows.WindowManager.FindSlotById` | osnos/elfs/gui/oxsrv.c:862-866 | finds the used slot of an id, or none exists |
| `OxWindows.WindowManager.DestroySlot` | osnos/elfs/gui/oxsrv.c:875-923 | both objects of the window are released and it leaves the stack; if it had the focus, no window has it exactly when none is left, and otherwise all other windows lie below the one that has it |
| `OxWindows.WindowManager.RaiseSlot` | osnos/elfs/gui/oxsrv.c:925-949 | the window moves to the top and gets the focus, the shortcut for a window already there included |
| `OxWindows.WindowManager.Compacted` | osnos/elfs/gui/oxsrv.c:935-938 | the compaction loop takes the slot out and keeps the rest in order |
| `OxZOrder.WithoutOrder` | osnos/elfs/gui/oxsrv.c:911-915 | taking a slot out changes the order of no two others |
| `OxZOrder.RaisedOrder` | osnos/elfs/gui/oxsrv.c:935-940 | after raising, the slot is above all others and the others are ordered as before |
| `OxZOrder.Pigeonhole` | osnos/elfs/gui/oxsrv.c:841-846 | distinct slots cannot be more than there are, so the stack never overflows |
| `OxZOrder.WithoutLength` | osnos/elfs/gui/oxsrv.c:911-915 | exactly one entry goes |
| `OxWindows.WindowManager.MinimizeSlot` | osnos/elfs/gui/oxsrv.c:970-992 | losing the focus passes it to the topmost window not minimised, or to none if there is none |
| `OxWindows.TopmostIs` | osnos/elfs/gui/oxsrv.c:970-992 | said with the stacking order: without a focus all are minimised, otherwise all others not minimised lie below the focused one |
| `OxWindows.WindowManager.RestoreSlot` | osnos/elfs/gui/oxsrv.c:1245-1266 | a minimised window becomes normal, topmost and focused; others stay |
| `OxWindows.WindowManager.RotateStack` | osnos/elfs/gui/oxsrv.c:2794-2803 | the top window goes below all others, whose order stays, and the new top one is focused |
| `OxWindows.WindowManager.CycleFocus` | osnos/elfs/gui/oxsrv.c:2809-2835 | the window below the top, or the bottom one, comes to the top, focused and visible |
| `OxWindows.WindowManager.ResizeWindow` | osnos/elfs/gui/oxsrv.c:1006-1028 | the window gets the clipped size and nothing else of it changes; a slot not in use is left alone |
| `OxWindows.WindowManager.Clipped` | osnos/elfs/gui/oxsrv.c:1010-1021 | the clipped size never exceeds the existing buffer |
| `OxWindows.WindowManager.SwapWindowShm` | osnos/elfs/gui/oxsrv.c:1042-1116 | on success the old buffer becomes the pending one under the next version, a pending one from before is released; on failure nothing changes |
| `OxWindows.WindowManager.CommitResize` | osnos/elfs/gui/oxsrv.c:1149-1171 | a fresh buffer of the size asked for, within limits, for windows that opted in; for others, or when the kernel refuses, the clipped resize |
| `OxWindows.WindowManager.WantedIsNearest` | osnos/elfs/gui/oxsrv.c:1149-1171 | the size taken is the nearest to the one asked for, from 120 by 80 up to the screen |
| `OxWindows.WindowManager.ClippedIsNearest` | osnos/elfs/gui/oxsrv.c:1006-1028 | without a new buffer it is the nearest one from 64 by 48 up to screen and buffer |
| `OxWindows.WindowManager.ZoomSlot` | osnos/elfs/gui/oxsrv.c:1188-1242 | zooming saves the bounds and fills the screen or doubles the frame, unzooming returns to exactly the saved bounds |
| `OxWindows.WindowManager.ZoomAndBack` | osnos/elfs/gui/oxsrv.c:1186-1242 | zooming twice comes back to the same bounds, even if the kernel refuses buffers in between |
| `OxWindows.WindowManager.ZoomFits` | osnos/elfs/gui/oxsrv.c:1186-1242 | a zoomed window keeps four pixels from every edge and reaches all of them if it is resizable and buffers go so far; others at most double |
| `OxWindows.WindowManager.Present` | osnos/elfs/gui/oxsrv.c:2266-2285 | the owner's present releases the pending buffer, anyone else's does nothing |
| `Handoff.AlwaysSafe` | osnos/elfs/gui/oxsrv.c:2996-3025 | in every run with preemption anywhere, lost messages and sudden deaths: while oxsrv owns a device, the competing server stands aside once it has read its queue |
| `Handoff.SafeStep` | osnos/elfs/gui/oxsrv.c:2052-2081 | each system call of each process keeps that |
| `Handoff.NeverReadsSuspended` | osnos/elfs/osn-server/kbdsrv.c:80-99 | in no run does kbdsrv read the ring while it is suspended |
| `Handoff.StealsIff` | osnos/elfs/osn-server/kbdsrv.c:75-99 | from the moment SUSPEND is queued, kbdsrv can take an event that is oxsrv's exactly if it was past its empty-queue test then |
| `Handoff.AtMostOneRead` | osnos/elfs/osn-server/kbdsrv.c:75-99 | and it takes at most one, for as long as oxsrv keeps the keyboard |
| `Handoff.RingIsExclusive` | osnos/elfs/osn-server/kbdsrv.c:72-99 | once kbdsrv is back before that test, no continuation of any run has it read a ring that a live oxsrv owns |
| `Handoff.StealHappens` | osnos/elfs/osn-server/kbdsrv.c:75-99 | the one stolen event does happen: kbdsrv is preempted between test and read |
| `Handoff.StaysSuspended` | osnos/elfs/osn-server/kbdsrv.c:75-94 | with no RESUME left over in its queue and no failed look-up behind it, a suspended server stays so, and leaves the device alone, for as long as a live oxsrv sends none |
| `Handoff.WakesIffStaleResume` | osnos/elfs/osn-server/kbdsrv.c:75-94 | a suspended kbdsrv can wake although a live oxsrv has sent no RESUME exactly when one of an earlier oxsrv is still queued or its look-up had failed before oxsrv registered |
| `Handoff.ConWakesIffStaleResume` | osnos/elfs/osn-server/consrv.c:55-82 | the same for consrv, the message it holds included |
| `Handoff.ConStaleResumeHappens` | osnos/elfs/osn-server/consrv.c:55-82 | a run that leaves consrv suspended under a live oxsrv with a RESUME of an earlier one in its queue |
| `Handoff.ConFailedLookupHappens` | osnos/elfs/osn-server/consrv.c:63-68 | and one that leaves it about to wake after a look-up that failed before oxsrv registered |
| `Handoff.StaleResumeHappens` | osnos/elfs/gui/oxsrv.c:2052-2087 | a queued RESUME of an earlier oxsrv is reachable |
| `Handoff.FailedLookupHappens` | osnos/elfs/osn-server/kbdsrv.c:84-88 | so is a failed look-up that the next oxsrv overtakes |
| `Handoff.Recovery` | osnos/elfs/osn-server/consrv.c:61-70 | after oxsrv's death kbdsrv is back after 16 passes and consrv after 32 messages, whatever else happens |
| `Handoff.WakesAtProbe` | osnos/elfs/osn-server/kbdsrv.c:75-99 | over any run without oxsrv and with an empty queue, kbdsrv has woken exactly when it has made as many passes as were left to its next look-up, so all 16 can be needed |
| `Handoff.AwakePaints` | osnos/elfs/osn-server/consrv.c:55-110 | over any run: awake, consrv goes from receiving a message straight to obeying it, whatever the others do, and paints for every write and clear |
| `Handoff.SuspendedKeepsStill` | osnos/elfs/osn-server/consrv.c:55-110 | suspended, it paints only on a RESUME or on finding oxsrv gone, and is awake then |
| `Handoff.AwakeReads` | osnos/elfs/osn-server/kbdsrv.c:74-100 | awake, kbdsrv reads the ring after every look into an empty queue |
| `Notepad.Editor.Serve` | osnos/elfs/gui/oxnotepad.c:168-332 | any interleaving of edits of at most 1024 bytes, undos and redos on a new editor, or any whose logs are whole: every command can be obeyed, cursor and counts stay in range, and the history is what edits, undos and redos make of it |
| `NotepadDoc.RunWhole` | osnos/elfs/gui/oxnotepad.c:168-332 | the same for the editor as a value |
| `NotepadDoc.StepWhole` | osnos/elfs/gui/oxnotepad.c:168-332 | each command keeps the logs whole and moves the history by its edits |
| `NotepadDoc.InRangeIff` | osnos/elfs/gui/oxnotepad.c:168-332 | a command keeps buffer, cursor and counts in range exactly when: a move goes to a place in the text; the newest entry to undo or redo, if any, begins inside the text, and the cursor it asks for lies inside the buffer; edits always do |
| `NotepadDoc.EditsUndone` | osnos/elfs/gui/oxnotepad.c:168-246 | up to 128 entries logged by any sequence of edits are undone completely |
| `Notepad.Editor.UndoMany` | osnos/elfs/gui/oxnotepad.c:230-246 | k undos, k up to the live count, restore the text of k edits ago |
| `Notepad.Editor.UndoThenRedo` | osnos/elfs/gui/oxnotepad.c:230-273 | and k redos bring the whole history back |
| `NotepadDoc.UndosRestore` | osnos/elfs/gui/oxnotepad.c:230-246 | k undos reach the text of k edits ago, from any whole log |
| `NotepadDoc.RedosReturn` | osnos/elfs/gui/oxnotepad.c:248-273 | k redos after k undos return to the same history |
| `NotepadHistory.UndoRestoresIff` | osnos/elfs/gui/oxnotepad.c:168-179 | undoing an edit restores the text exactly when the edit was no longer than the 1024 bytes an entry holds |
| `NotepadDoc.LongDeletionLost` | osnos/elfs/gui/oxnotepad.c:168-246 | for instance, of 1027 characters selected and deleted undo brings back 1024 |
| `NotepadDoc.CursorEscapes` | osnos/elfs/gui/oxnotepad.c:230-246 | and the next undo puts the cursor at 1026 in a text of 1024 characters |
| `NotepadHistory.UndosReach` | osnos/elfs/gui/oxnotepad.c:230-246 | k undo steps of a history |
| `NotepadHistory.RedosTakeBack` | osnos/elfs/gui/oxnotepad.c:248-273 | k redo steps take k undo steps back |
| `NotepadHistory.SoundLogged` | osnos/elfs/gui/oxnotepad.c:168-179 | logging an edit keeps the log true, although a full ring forgets its oldest entry |
| `NotepadHistory.SoundNewest` | osnos/elfs/gui/oxnotepad.c:168-179 | what the newest entries say does not depend on the older ones |
| `NotepadHistory.PushLive` | osnos/elfs/gui/oxnotepad.c:168-179 | pushing appends to the live entries; a full ring forgets the oldest |
| `NotepadHistory.PopLive` | osnos/elfs/gui/oxnotepad.c:192-206 | popping takes the newest entry off |
| `NotepadHistory.UndoneRedone` | osnos/elfs/gui/oxnotepad.c:230-246 | the inverse of a recorded edit is its inverse |
| `Notepad.Editor.MemMove` | osnos/elfs/gui/oxnotepad.c:212-228 | moving overlapping ranges inside the buffer |
| `Notepad.Editor.RawInsertAt` | osnos/elfs/gui/oxnotepad.c:212-220 | the move and copy in place put in what fits the buffer and change nothing else of the text |
| `Notepad.Editor.RawDeleteRange` | osnos/elfs/gui/oxnotepad.c:221-228 | the move in place takes out the range, clamped to the text |
| `Notepad.Editor.UndoPush` | osnos/elfs/gui/oxnotepad.c:168-179 | the ring logs the entry, cut to 1024 bytes, and the redo ring is emptied |
| `Notepad.Editor.DoUndo` | osnos/elfs/gui/oxnotepad.c:230-246 | text, cursor and both logs move one step back, whole or not; the cursor stays in the text exactly when the entry is ready |
| `Notepad.Editor.DoRedo` | osnos/elfs/gui/oxnotepad.c:248-273 | and one step forward |
| `Notepad.Editor.BufDeleteRange` | osnos/elfs/gui/oxnotepad.c:280-290 | deletes the clamped range in place and logs it |
| `Notepad.Editor.BufInsertN` | osnos/elfs/gui/oxnotepad.c:293-304 | inserts at the cursor what fits the buffer and logs exactly that |
| `Notepad.Editor.BufInsert` | osnos/elfs/gui/oxnotepad.c:309-312 | typing over a selection is deleting it and inserting, as two logged edits |
| `Notepad.Editor.BufBackspace` | osnos/elfs/gui/oxnotepad.c:314-323 | deletes the selection, else the character before the cursor |
| `Notepad.Editor.BufDelete` | osnos/elfs/gui/oxnotepad.c:325-332 | deletes the selection, else the character after the cursor |
| `NotepadKeys.TypeThenBackspace` | osnos/elfs/gui/oxnotepad.c:292-323 | Backspace takes back what was typed, text and cursor |
| `NotepadKeys.BackspaceIsLeftDel` | osnos/elfs/gui/oxnotepad.c:314-332 | Backspace is moving one to the left and Del; at the start of the text it does nothing |
| `NotepadKeys.Deletes` | osnos/elfs/gui/oxnotepad.c:325-332 | Del takes the character after the cursor and leaves the cursor and everything before it alone |
| `NotepadKeys.Types` | osnos/elfs/gui/oxnotepad.c:292-312 | typing puts the character before the cursor; into a full buffer it does nothing |
| `NotepadKeys.SelectionGoes` | osnos/elfs/gui/oxnotepad.c:280-332 | with a selection Del, Backspace and Cut are the same: exactly the selected characters go |
| `NotepadKeys.OverSelection` | osnos/elfs/gui/oxnotepad.c:292-312 | typing or pasting over a selection is cutting it first |
| `NotepadKeys.PasteIsTyping` | osnos/elfs/gui/oxnotepad.c:292-356 | pasting is typing the characters one after the other, a text that does not fit included |
| `NotepadKeys.UndoTyping` | osnos/elfs/gui/oxnotepad.c:230-273 | undo takes a typed character back, cursor included, and redo types it again |
| `NotepadKeys.UndoDeleting` | osnos/elfs/gui/oxnotepad.c:230-246 | undo takes a Backspace back, cursor included, and after Del puts the cursor behind the character |
| `Notepad.Editor.DoPaste` | osnos/elfs/gui/oxnotepad.c:350-356 | pasting over a selection deletes it first; nothing pasted, nothing done |
| `Notepad.Editor.FindNext` | osnos/elfs/gui/oxnotepad.c:368-379 | finds the first match at or after a position, or there is none |
| `NotepadSearch.First` | osnos/elfs/gui/oxnotepad.c:368-379 | the leftmost match |
| `Notepad.Editor.ReplaceAll` | osnos/elfs/gui/oxnotepad.c:410-427 | leftmost non-overlapping replacement, exactly when length, number of matches and difference of lengths say that the result fits the buffer; undo still works afterwards |
| `Notepad.FullBufferOverflows` | osnos/elfs/gui/oxnotepad.c:410-427 | for instance, a full buffer of one letter cannot take two for one |
| `NotepadSearch.AllReplaced` | osnos/elfs/gui/oxnotepad.c:410-427 | with no more matches than the guard every match is replaced |
| `NotepadSearch.ReplacedLength` | osnos/elfs/gui/oxnotepad.c:410-427 | the length of the result, from the number of matches |
| `NotepadSearch.ReplacedIsJoined` | osnos/elfs/gui/oxnotepad.c:410-427 | replacing is taking the text apart at the needle and joining the parts, none of which contains it, with the replacement |
| `NotepadSearch.MatchIff` | osnos/elfs/gui/oxnotepad.c:368-379 | a match is where the text comes apart into something, the needle and something |
| `NotepadSearch.LineCounts` | osnos/elfs/gui/oxnotepad.c:100-108 | the line number is how many newlines come before |
| `NotepadSearch.ReplacedBySelf` | osnos/elfs/gui/oxnotepad.c:410-427 | replacing a needle by itself changes nothing |
| `NotepadSearch.ReplacedGrows` | osnos/elfs/gui/oxnotepad.c:410-427 | a replacement at least as long as the needle never shortens the text |
| `Notepad.Editor.ByteToLc` | osnos/elfs/gui/oxnotepad.c:100-108 | line and column of an offset |
| `Notepad.Editor.LineStartOff` | osnos/elfs/gui/oxnotepad.c:120-130 | where a line starts, or the end of the text when there is no such line |
| `Notepad.Editor.LineColRoundTrip` | osnos/elfs/gui/oxnotepad.c:100-130 | offset to line and column and back is the identity |
| `NotepadSearch.ColumnIsDistance` | osnos/elfs/gui/oxnotepad.c:100-108 | a position is its column after the start of its line |
| `ShellArgs.PackThenSplit` | osnos/elfs/osn-server/shellsrv.c:1105-1125 | packing arguments into a buffer that holds them and tokenising the buffer in place gives the arguments back, whatever characters they contain |
| `ShellArgs.SplitPacked` | osnos/elfs/osn-server/shellsrv.c:334-378 | the same for the pure tokeniser |
| `ShellArgs.SplitArgs` | osnos/elfs/osn-server/shellsrv.c:334-378 | tokenising in place leaves exactly the tokens of the pure tokeniser in the buffer, the k-th argument at its start; which those are, `ShellWriting.SplitWritten` says |
| `ShellArgs.ReadToken` | osnos/elfs/osn-server/shellsrv.c:343-374 | one token, unquoted and closed, and what is still to be read intact |
| `ShellArgs.TokenOfEscaped` | osnos/elfs/osn-server/shellsrv.c:344-373 | inside double quotes escaping is undone character by character |
| `ShellArgs.TokenOfQuoted` | osnos/elfs/osn-server/shellsrv.c:344-373 | a quoted argument is read as one token |
| `ShellWriting.SplitWritten` | osnos/elfs/osn-server/shellsrv.c:334-378 | a line of arguments, each in any number of pieces that are bare, after backslashes, in single quotes or in double quotes with or without escapes, and blanks between them, splits into the arguments the pieces stand for, or the first as many as fit |
| `ShellWriting.SplitLine` | osnos/elfs/osn-server/shellsrv.c:334-378 | the same in the line buffer |
| `ShellWriting.PieceYields` | osnos/elfs/osn-server/shellsrv.c:343-373 | each way of writing a piece is read as its text, whatever follows |
| `ShellWriting.UnclosedSingle` | osnos/elfs/osn-server/shellsrv.c:343-373 | a single quote that is not closed runs to the end |
| `ShellWriting.UnclosedDouble` | osnos/elfs/osn-server/shellsrv.c:343-373 | and so does a double one |
| `ShellWriting.LastBackslash` | osnos/elfs/osn-server/shellsrv.c:351-355 | a backslash at the end of the line is one |
| `ShellArgs.PackArgs` | osnos/elfs/osn-server/shellsrv.c:1105-1125 | the packed line when it fits; a terminated string in any case |
| `ShellArgs.PackOne` | osnos/elfs/osn-server/shellsrv.c:1112-1122 | one quoted argument when it fits |
| `ShellGlob.GlobMatchIff` | osnos/elfs/osn-server/shellsrv.c:882-901 | the matcher accepts exactly the names obtained by filling each star with some text |
| `ShellGlob.TryMeans` | osnos/elfs/osn-server/shellsrv.c:890-894 | trying every suffix is trying every filling of the star |
| `ShellGlob.StarsCollapse` | osnos/elfs/osn-server/shellsrv.c:887-889 | a run of stars means one star |
| `ShellGlob.MatchesStar` | osnos/elfs/osn-server/shellsrv.c:886-895 | a leading star matches exactly when some suffix matches the rest |
| `LineDrawing.DrawLine` | osnos/elfs/gui/oxjs.c:176-193 | the loop ends, begins and ends at the end points, draws one pixel per unit of the longer axis, each within half a unit of the ideal line |
| `LineDrawing.StepOnCourse` | osnos/elfs/gui/oxjs.c:188-190 | one step keeps the error term within half the longer extent and always moves along the longer axis |
| `LineDrawing.NotPast` | osnos/elfs/gui/oxjs.c:185-191 | neither coordinate runs past the end |
| `Ovi.Buffer.InsertChar` | osnos/elfs/tools/ovi.c:126-135 | typing a character is one insertion in the flat text at the cursor; a full line takes none |
| `Ovi.Buffer.SplitLine` | osnos/elfs/tools/ovi.c:137-157 | Enter inserts a newline at the cursor; a full line table takes none |
| `Ovi.Buffer.DeleteCharBefore` | osnos/elfs/tools/ovi.c:159-186 | Backspace deletes the one character before the cursor, a newline included, unless the joined line would be too long |
| `Ovi.Buffer.DeleteCharUnder` | osnos/elfs/tools/ovi.c:188-197 | deletes the character under the cursor, past the end of the line its last one |
| `Ovi.Buffer.DeleteLine` | osnos/elfs/tools/ovi.c:199-215 | deletes the line with one of its newlines |
| `Ovi.Buffer.ShiftRowsDown` | osnos/elfs/tools/ovi.c:139-143 | the loop moves the rows below down by one |
| `Ovi.Buffer.ShiftRowsUp` | osnos/elfs/tools/ovi.c:177-181 | the loop moves the rows below up over one |
| `OviText.LineEdit` | osnos/elfs/tools/ovi.c:126-135 | changing part of one line changes the flat text there and nowhere else |
| `OviText.LineSplit` | osnos/elfs/tools/ovi.c:137-157 | splitting a line inserts a newline in the flat text |
| `OviText.LineJoin` | osnos/elfs/tools/ovi.c:169-185 | joining deletes it, and undoes splitting |
| `OviText.LineRemoved` | osnos/elfs/tools/ovi.c:199-215 | removing a line takes it out of the flat text with one newline |
| `Ovi.Buffer.SaveFile` | osnos/elfs/tools/ovi.c:269-303 | the file is the flat text |
| `Ovi.Buffer.LoadFile` | osnos/elfs/tools/ovi.c:219-261 | the loop computes `Loaded`: long lines cut, reading stopped when the table is full; a missing file is one empty line |
| `Ovi.Buffer.SaveThenLoad` | osnos/elfs/tools/ovi.c:219-303 | saving and loading brings the same lines back exactly when the file fits the load buffer and its last line is not empty or is the only one |
| `OviText.SaveLoadIff` | osnos/elfs/tools/ovi.c:219-303 | the same for all storable lines |
| `OviText.EmptyLastLineLost` | osnos/elfs/tools/ovi.c:244-261 | for instance, of a line and an empty one only the first comes back |
| `OviText.SaveNext` | osnos/elfs/tools/ovi.c:276-298 | one more line written |
| `OviText.LoadRows` | osnos/elfs/tools/ovi.c:244-261 | loading joined lines gives them back, but for an empty last one |
| `OviText.LoadShrinks` | osnos/elfs/tools/ovi.c:229-261 | what is loaded is never longer than what was read |
| `Highlight.Retokenize` | osnos/elfs/gui/oxstudio.c:397-454 | the scan by tokens colours every byte as the scan by bytes does: each by the mode that all before it leaves it in; nothing behind the text changes |
| `Highlight.StringIs` | osnos/elfs/gui/oxstudio.c:419-433 | a string is coloured up to the first matching quote with an even number of backslashes before it, or to the end of the line if it is no template |
| `Highlight.BlockIs` | osnos/elfs/gui/oxstudio.c:406-418 | a block comment is coloured up to the first star and slash after its opening two bytes, or to the end of the text |
| `Highlight.LineIs` | osnos/elfs/gui/oxstudio.c:401-405 | a line comment is coloured up to the end of the line, which is not part of it |
| `Highlight.QuotedIsString` | osnos/elfs/gui/oxstudio.c:419-433 | between two quotes of any of the three kinds on a line everything is string, brackets included, and code follows |
| `Highlight.NumberIs` | osnos/elfs/gui/oxstudio.c:434-444 | a number goes on over decimal and hexadecimal digits, points and the x of a prefix, and ends before anything else |
| `Highlight.WordIs` | osnos/elfs/gui/oxstudio.c:445-451 | a word of letters, digits, `_` and `$` is coloured as a whole, as a keyword exactly when it is one |
| `Highlight.ColourOfRest` | osnos/elfs/gui/oxstudio.c:397-454 | from where a token begins on, the colours depend only on the text from there on |
| `Highlight.StringToken` | osnos/elfs/gui/oxstudio.c:419-433 | the look-ahead for the end of a string, escapes taken two bytes at a time, stops where a token begins |
| `Highlight.BlockComment` | osnos/elfs/gui/oxstudio.c:406-418 | the same for a block comment |
| `Highlight.WordToken` | osnos/elfs/gui/oxstudio.c:445-451 | a word is a keyword as a whole or not at all |
| `Highlight.Refresh` | osnos/elfs/gui/oxstudio.c:871-873 | before a repaint: the pair of brackets shown is a pair in the freshly coloured text, and both are code |
| `BracketMatch.FindMatching` | osnos/elfs/gui/oxstudio.c:474-495 | returns the position where the bracket depth first returns to zero outside strings and comments, or -1 when there is none |
| `BracketMatch.PartnersAgree` | osnos/elfs/gui/oxstudio.c:474-495 | the forward partner of an opening bracket has it as its backward partner |
| `BracketMatch.ThereAndBack` | osnos/elfs/gui/oxstudio.c:474-495 | from an opening or a closing bracket to its partner and back: the same bracket exactly when it is outside strings and comments |
| `BracketMatch.UpdateBracketMatch` | osnos/elfs/gui/oxstudio.c:496-522 | the highlighted pair are each other's partners; the bracket left of the cursor comes first, and none is shown only if neither candidate has a partner |
| `BracketMatch.PartnersMutual` | osnos/elfs/gui/oxstudio.c:474-495 | being a partner goes both ways, between brackets of one kind |
| `BracketMatch.ClosesUnique` | osnos/elfs/gui/oxstudio.c:474-495 | there is at most one forward partner |
| `BracketMatch.OpensUnique` | osnos/elfs/gui/oxstudio.c:474-495 | and at most one backward partner |
| `BracketMatch.PartnersMatch` | osnos/elfs/gui/oxstudio.c:457-495 | partners are `{}`, `[]` or `()`, the opening one first |
| `Term.Terminal.FeedBytes` | osnos/elfs/gui/oxterm.c:271-307 | any byte stream: the screen is that of the pure model, and the ring holds the last 256 rows that scrolled off, in order |
| `Term.PushRing` | osnos/elfs/gui/oxterm.c:113-122 | appending to the ring, over the oldest row when it is full, keeps the newest rows in order |
| `Term.Terminal.GridScroll` | osnos/elfs/gui/oxterm.c:113-128 | the top row goes into the ring, the others move up, a blank one comes in |
| `TermScreen.ScrollConserves` | osnos/elfs/gui/oxterm.c:113-128 | scrolling loses no row: what scrolled off and the grid together only gain the blank row |
| `Term.Terminal.GridPutc` | osnos/elfs/gui/oxterm.c:144-171 | every byte keeps the cursor in the grid, the column may wait past its end for the next wrap |
| `Term.Terminal.TabOver` | osnos/elfs/gui/oxterm.c:157-160 | blanks up to a multiple of eight; it ends on every grid width |
| `Term.Terminal.VisibleRow` | osnos/elfs/gui/oxterm.c:132-142 | the view is a window of the scrollback followed by the grid |
| `Term.Terminal.ScrollView` | osnos/elfs/gui/oxterm.c:552-555 | the view moves by as much as asked for, stopping at either end of the scrollback |
| `TermScreen.Csi` | osnos/elfs/gui/oxterm.c:173-221 | every control sequence keeps the cursor in range, the rows of the grid as long as they were, and the scrollback alone; what it does, `TermLaws` says |
| `Term.Terminal.CsiDispatch` | osnos/elfs/gui/oxterm.c:173-269 | the dispatch does what the pure model says |
| `Term.Terminal.MoveTo` | osnos/elfs/gui/oxterm.c:177-186 | absolute positioning clamps to the grid |
| `Term.Terminal.MoveBy` | osnos/elfs/gui/oxterm.c:187-190 | relative movement clamps to the grid |
| `TermLaws.MoveIsJump` | osnos/elfs/gui/oxterm.c:177-190 | moving up, down, left or right by n is the absolute move to the place n further, except that up and down leave a cursor past the last column there |
| `TermLaws.Jumps` | osnos/elfs/gui/oxterm.c:177-186 | an absolute move goes to the row and column given, counted from one and clamped, and changes no cell |
| `TermLaws.PrintAt` | osnos/elfs/gui/oxterm.c:144-307 | the bytes of an absolute move and a character, from any state of the parser between sequences: that cell and no other has the character |
| `TermLaws.JumpFed` | osnos/elfs/gui/oxterm.c:271-307 | the parser reads the decimal numbers of a control sequence |
| `TermLaws.PrintRun` | osnos/elfs/gui/oxterm.c:144-171 | printable characters fill the line from the cursor on and change nothing else |
| `TermLaws.Wraps` | osnos/elfs/gui/oxterm.c:162-166 | past the last column a character goes where it would after a new line |
| `TermLaws.NewLineIs` | osnos/elfs/gui/oxterm.c:146-150 | a new line is a return and a move down, on the last row a scroll |
| `TermLaws.ReturnAndBackspace` | osnos/elfs/gui/oxterm.c:145-155 | return and backspace as cursor moves |
| `TermLaws.TabIsSpaces` | osnos/elfs/gui/oxterm.c:157-160 | a tab is blanks up to the next multiple of eight |
| `TermLaws.Ignored` | osnos/elfs/gui/oxterm.c:156-161 | all other bytes that are not printable do nothing |
| `TermLaws.EraseCells` | osnos/elfs/gui/oxterm.c:191-212 | erasing in the screen blanks exactly the cells from the cursor on, up to it, or all |
| `TermLaws.EraseLineCells` | osnos/elfs/gui/oxterm.c:213-221 | the same in the cursor's line |
| `TermLaws.EraseKeepsCursor` | osnos/elfs/gui/oxterm.c:191-221 | of the erasures only that of the whole screen moves the cursor, to the first cell; unknown modes do nothing to the screen |
| `Term.Terminal.Erase` | osnos/elfs/gui/oxterm.c:191-212 | blanks the part of the screen before, after, or all around the cursor, row by row |
| `Term.Terminal.EraseLine` | osnos/elfs/gui/oxterm.c:213-221 | blanks the part of the line, and with the cursor waiting past its end the first cell of the next row |
| `TermScreen.EraseStaysIff` | osnos/elfs/gui/oxterm.c:213-221 | erasing in a line leaves all other lines alone except when all up to a cursor past the last column is erased and the next line begins with something |
| `TermScreen.EraseInGridIff` | osnos/elfs/gui/oxterm.c:213-221 | the cells erased lie in the grid except when that happens on the last line |
| `TermScreen.EraseSpills` | osnos/elfs/gui/oxterm.c:213-307 | for instance, after the bytes that put a star in the second line, fill the first and erase up to the cursor, the star is gone |
| `Term.Terminal.FeedByte` | osnos/elfs/gui/oxterm.c:271-307 | one byte through the escape parser |
| `TermScreen.ResizedOk` | osnos/elfs/gui/oxterm.c:314-368 | a resize keeps the cursor in the grid |
| `TermScreen.ResizeAndBack` | osnos/elfs/gui/oxterm.c:340-364 | growing the screen and shrinking it back moves the contents up by the rows added and loses as many at the top; with the same number of rows nothing is lost |
| `TermLaws.KeptCell` | osnos/elfs/gui/oxterm.c:340-364 | a cell that is kept keeps its column, and its row from the top or, when rows go, from the bottom |
| `TermLaws.NewCell` | osnos/elfs/gui/oxterm.c:325-336 | cells that were not there before are blank |
| `TermLaws.CursorStaysIff` | osnos/elfs/gui/oxterm.c:340-364 | when rows go, the cursor stays on its line exactly when that line is among the bottom ones kept |
| `TermLaws.PromptLost` | osnos/elfs/gui/oxterm.c:340-364 | for instance, a prompt on the first of four lines is gone when there are only three |
| `Term.Terminal.GridResize` | osnos/elfs/gui/oxterm.c:314-368 | the copying loops build that grid; the scrollback starts empty |

## Left out

- osh, texts that are not well formed: what the parser does after a syntax error is not modelled.
- OshInterp.Interp.ParseMul: requires, like `Run`, that no division by zero is followed by another factor in the same chain.
- OshInterp.Interp.Run: requires that the run stays in step (`OshSteps.InStepBlock`). After a division by zero that is followed by another factor in the same chain, outside parentheses, the parser has lost its place; what it then makes of the rest of the line is not modelled. `OshPrinter.RunPrinted` has no such condition.
- osh, the texts on stderr, and 64-bit overflow: numbers are unbounded.
- osh, a bare block as a statement: the comment at the head of the file lists it, the code does not accept it, and the model follows the code.
- oxsrv, what the framebuffer finally shows: frames are drawn unclipped, so only the cache is claimed. Colours, icons, fonts and hover state are parameters of a layer.
- OxCompositor.Compositor.Process: which window operations mark every pixel they change is not claimed; a change that is not covered is tracked until it is repaired. That layers paint inside their boxes is assumed, and `OxCompositor.ExactOnlyIfContained` shows the assumption is needed; titles are drawn without clipping, so it is an assumption about titles too.
- oxsrv, window titles, the pixels copied into a fresh buffer, the resize event sent to clients, and the 32-byte limit on object names.
- OxWindows.WindowManager.Handle: does not claim that the focused window is never minimised, because rotating the stack may focus a minimised one.
- Handoff, the kernel's message queues: a send is queued in order or lost, a death unregisters the service at once, a system call is one step; the counters do not wrap.
- oxnotepad, the clipboard, files, drawing and the mouse.
- Notepad.Editor.DoUndo: requires `NotepadDoc.Defined`. Undoing a deletion at an offset behind the end of the text moves a negative number of bytes in C, and what memory then holds is not modelled. It never happens when the log is whole, as after any run of edits of at most 1024 bytes (`NotepadDoc.StepWhole`).
- Notepad.Editor.DoRedo: requires the same of redoing an insertion.
- ShellArgs.PackThenSplit: states nothing for a packed line that does not fit the buffer or for more arguments than the table holds.
- shellsrv, pipelines, variables, path normalisation, and the kernel's own tokeniser.
- LineDrawing.DrawLine: does not model 32-bit overflow of the error term.
- ovi, the cells inside a row: rows are an array changed in place, but a row is a string value, so the character-by-character shifts inside one row are single splices. Rendering, search and the command line are left out.
- oxstudio, everything but colouring and bracket matching: drawing, editing and files.
- oxterm, colours and drawing, and overflow of control-sequence numbers. What erasing outside the grid does to the memory there is not modelled; `TermScreen.EraseInGridIff` says when it happens.
- Term.Terminal.CsiDispatch: leaves out the colour sequences, which change neither characters nor cursor.
- The other programs of the repository, its networking, JavaScript bindings, C library and kernel: mostly drawing, glue and tables, which would only add easy members.
