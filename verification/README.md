# FLTK: terminal, project files, framed protocols, menus and check lists

A Dafny model of the parts of FLTK whose correctness rests on state that no single
function shows, with proofs about whole runs, streams and trees.

* **Terminal.** `RingModel`, `RingBufferClass` and `TerminalClass` follow the ring buffer of
  Fl_Terminal: one flat cell array, an offset that moves instead of the text, a history with
  a use count below its capacity, the cursor, and the refit to a window size. `NaiveScreen`
  and `NaiveTerminal` are the plain terminal a user has in mind: a list of rows. Every run of
  the ring shows what the plain terminal shows (`TerminalModel.RunRefines`); what a refit
  keeps is proved there (`NaiveTerminal.RefitConservesText`). `DisplayedText` says what each
  operation does to the lines and cells, without naming how. `Scrollback` adds the scrollbar
  window and selections, `RedrawThrottle` the redraw timer as a machine over time.
* **Project files.** `ProjectWriter` and `ProjectReader` print and read the words of a .fl
  file, `FluidBlocks` the blocks a reader skips, `FluidTree` nodes with properties and
  children, `FluidFile` the whole file, `FluidForms` what a reader takes although no writer
  prints it.
* **Framed protocols.** MSP frames with an XOR checksum, SLIP-encoded AFDX frames (RFC 1055,
  section "PROTOCOL"), and the CRC-24 of Mode S messages (ICAO Annex 10, Volume IV, section
  3.1.2.3.3) with polynomials over GF(2) worked out in `Gf2` and `Crc24`.
* **Menus.** A tree of entries against the flat array that encodes it, and radio groups.
* **Check lists.** The doubly linked items of Fl_Check_Browser with the cached position and
  the counts.

Where the source updates fields or arrays in place, the model is a class whose methods are
proved equal to a function of the old state; the theorems are about those functions.

## What the code does that its documentation does not say

* A refit that enlarges a terminal without history capacity scrolls its top row away
  (`NaiveTerminal.TopRowIsLost`); the design document promises that enlarging keeps the text.
* The first redraw timeout is a hundredth of a second, not the tenth the design document
  names. The modified flag is cleared only by the timer, so the per-write style redraws for
  the first write only, and switching the style away while the flag is set leaves it set for
  good (`RedrawThrottle.DeadStaysDead`). `repeat_timeout` makes up for late calls, so the
  promised limit of ten redraws per second can be broken: after a redraw the next one can
  come early exactly if that redraw was called late (`RedrawThrottle.EarlyExactlyAfterLate`,
  `RedrawThrottle.LateRedrawExample`).
* The function that adjusts a selection on a scroll is never called: selections keep raw
  ring rows, which is why their text stays and why the highlight leaves it when the display's
  start wraps (`Scrollback.HighlightFollowsText`, `Scrollback.StartWrapsExample`).
* The tests for the region a ring row is in can fail for negative row numbers
  (`RingRefinement.RegionTestPosition`); for the rows a window shows they do not
  (`Scrollback.CursorIsLookedForOnDisplay`).
* `cursor_up` looks for the top line after the move, so a move that just reaches it scrolls.
* A resize of a buffer without cells that only moves rows from the display to the history
  counts them as history in use (`RingRefinement.BorderMoves`).
* The reader of .fl files drops carriage returns, and it takes the prefix of a class for its
  name when the name is printed in braces. "Every opening brace matched" means that the
  braces nest; `}{` is escaped.
* A property list that the file ends in is taken as ended (`FluidTree.PropertyErrors`).
* The AFDX decoder empties its buffer at the 65537th byte and keeps the rest of the packet;
  a raw frame stays in the buffer and is put in front of the next packet, which then does not
  come out as it went in (`AfdxProtocol.PacketSurvives`).
* A stray `$` in front of an MSP frame loses the frame.
* `item_swap` of the check browser repairs the ends of the list only for its first argument,
  and `checked` and `add` can miscount marks other than 0 and 1.

## Model

| member | source | states |
|---|---|---|
| `CArithmetic.CRemIsTruncating` | src/Fl_Terminal.cxx:79-83 | the remainder the ring indexes use is the C one: that of a quotient rounded toward zero |
| `CArithmetic.NormalizeIsResidue` | src/Fl_Terminal.cxx:79-83 | for every integer row the negative fix-up gives a row in 0..maxrows-1, the Euclidean residue |
| `RingRefinement.RingIndexIsTotal` | src/Fl_Terminal.cxx:918-923 | every row number, however negative, addresses a row of the ring |
| `RingRefinement.DispIndexIsTotal` | src/Fl_Terminal.cxx:967-973 | every display row number addresses the display row that is its residue |
| `RingRefinement.HistIndexIsTotal` | src/Fl_Terminal.cxx:933-939 | the same for history rows |
| `RingRefinement.RegionTestPosition` | src/Fl_Terminal.cxx:794-813 | the position is_hist_ring_row and is_disp_ring_row test is the row's distance from the offset, for every number that is not negative and for a negative one exactly if it does not fall more than a ring below the offset |
| `RingRefinement.RegionsPartitionRing` | src/Fl_Terminal.cxx:794-813 | for a fixed offset the history rows and the display rows are different ring rows, each is reached by its index, and no ring row is left over unless the display was trimmed |
| `RingRefinement.RegionsAreRead` | src/Fl_Terminal.cxx:949-973 | rows 0..hist_use-1 read through the history index and rows 0..disp_rows-1 read through the display index are the text |
| `RingRefinement.OffsetAdjustAt` | src/Fl_Terminal.cxx:678-687 | moving the offset moves no row but renumbers all of them |
| `RingRefinement.OffsetAdjustBackAt` | src/Fl_Terminal.cxx:678-687 | the branch for negative rows, which has no caller: it would move every row away by at most one turn of the ring |
| `RingRefinement.ScrollUpRefines` | src/Fl_Terminal.cxx:838-872 | scrolling by the offset does what n single scrolls of the naive screen do |
| `RingRefinement.ScrollDownRefines` | src/Fl_Terminal.cxx:873-900 | scrolling down moves display rows down, blanks those at the top and leaves the history alone |
| `RingRefinement.ScrollRefines` | src/Fl_Terminal.cxx:838-900 | for every ring and every row count, clamped or not, scrolling the ring is scrolling the naive screen |
| `NaiveScreen.ScrollOneMovesTopRow` | src/README-Fl_Terminal.txt:81-184 | one scroll appends the top display line to the history, drops the oldest line at capacity and adds a blank line at the bottom |
| `NaiveScreen.ScrollUpText` | src/README-Fl_Terminal.txt:81-184 | n scrolls in one formula: the newest rows of the text with n blank rows below it |
| `RingRefinement.NewCopyRefines` | src/Fl_Terminal.cxx:714-750 | copying into a ring of another size keeps the newest text that fits, bottom row by bottom row |
| `RingRefinement.BorderMoves` | src/Fl_Terminal.cxx:1026-1042 | a resize that keeps the total only moves the border between history and display, and unused history rows become padding; the ring stays well formed exactly if it has cells or the display does not shrink |
| `RingRefinement.TrimRefines` | src/Fl_Terminal.cxx:1362-1363 | setting fewer display rows forgets the last display rows and nothing else |
| `RingRefinement.PutDispRowRefines` | src/Fl_Terminal.cxx:3046-3081 | writing a display row changes that row of the naive screen and no other |
| `RingRefinement.ClearHistoryRefines` | src/Fl_Terminal.cxx:2335-2348 | clearing the history empties it and leaves the display alone |
| `RingRefinement.CreateIsUnwritten` | src/Fl_Terminal.cxx:1011-1023 | a new ring shows default rows and has no history |
| `RingBufferClass.RingBuffer.EnsureRing` | src/Fl_Terminal.cxx:912-916 | the cells are allocated on first use, with the same contents |
| `RingBufferClass.RingBuffer.RingRow` | src/Fl_Terminal.cxx:918-923 | where a ring row starts in the flat cell array, for any row number |
| `RingBufferClass.RingBuffer.HistRow` | src/Fl_Terminal.cxx:933-939 | where a history row starts |
| `RingBufferClass.RingBuffer.DispRow` | src/Fl_Terminal.cxx:967-973 | where a display row starts |
| `RingBufferClass.RingBuffer.OffsetAdjust` | src/Fl_Terminal.cxx:678-687 | the offset after an adjustment by any number of rows |
| `RingBufferClass.RingBuffer.ClearDispRows` | src/Fl_Terminal.cxx:824-831 | the nested row and column loops blank exactly the given display rows |
| `RingBufferClass.RingBuffer.MoveDispRow` | src/Fl_Terminal.cxx:816-821 | one display row is copied over another, cell by cell |
| `RingBufferClass.RingBuffer.Scroll` | src/Fl_Terminal.cxx:838-900 | the in-place scroll is the ring's scroll, in both directions |
| `RingBufferClass.RingBuffer.NewCopy` | src/Fl_Terminal.cxx:714-750 | the new flat array holds the copied rows |
| `RingBufferClass.RingBuffer.Resize` | src/Fl_Terminal.cxx:1026-1042 | which of the two ways of resizing is taken, its result, and when a buffer without cells ends with a history in use |
| `RingBufferClass.RingBuffer.PlotChar` | src/Fl_Terminal.cxx:3046-3081 | one cell of one display row is written, with the cell PlotShows describes |
| `TerminalModel.PrintCharRefines` | src/Fl_Terminal.cxx:3104-3137 | printing a character on the ring, with wrap and scroll, is printing it on the naive terminal |
| `TerminalModel.RefitRefines` | src/Fl_Terminal.cxx:1334-1374 | the refit of the ring, through all four cases, is the refit of the naive terminal |
| `TerminalModel.CursorDownRefines` | src/Fl_Terminal.cxx:2471-2482 | for every count the row is clamped to the bottom line, and the screen scrolls once for every line that does not fit, or not at all |
| `TerminalModel.CursorUpRefines` | src/Fl_Terminal.cxx:2455-2464 | for every count the row is clamped to the top line, and the screen scrolls down for every line that ends there |
| `NaiveTerminal.UpToTopScrolls` | src/Fl_Terminal.cxx:2455-2464 | a move that just reaches the top line scrolls the screen as well |
| `TerminalModel.StepRefines` | src/Fl_Terminal.cxx:2223-2228 | each operation of the machine (print, line feed, scroll, cursor down and up by any count, absolute move, history clear, refit, and the setters of history rows, display rows and columns) refines the naive one, including for how many rows there is memory, and keeps the terminal well formed exactly if the display is not made too small for the cursor |
| `TerminalModel.RefitMemoryIs` | src/Fl_Terminal.cxx:1334-1374 | how many rows the ring has after a refit: rows trimmed below the cursor stay in it unused, pushed or gained rows make a new ring |
| `TerminalModel.RunRefines` | src/README-Fl_Terminal.txt:81-184 | after any run of prints, line feeds, scrolls, cursor moves down, up and to a place, history clears, refits and resizes, the rows read through the history and display indexes are exactly the naive terminal's history and display |
| `DisplayedText.PlotShows` | src/Fl_Terminal.cxx:577-586 | a plotted character is in the cell under the cursor with its text, colours and attributes and the colour flags of the style; no other cell of the display or the history changes |
| `DisplayedText.PrintShows` | src/Fl_Terminal.cxx:3104-3137 | where the cursor is after a printed character, and that the screen moves up by one line exactly at the end of the bottom line |
| `DisplayedText.PrintIsRead` | src/Fl_Terminal.cxx:3104-3137 | on the ring the printed character is read through the address of the display row it was printed in, one row higher after a scroll |
| `DisplayedText.ScrollShows` | src/Fl_Terminal.cxx:838-900 | by how many lines the text moves for every row count, which lines are kept and which are blank, cell by cell; before the first write nothing moves |
| `DisplayedText.MoveShows` | src/Fl_Terminal.cxx:2439-2444 | the cursor goes to the place asked for, or to the edge it lies beyond |
| `DisplayedText.CursorDownShows` | src/Fl_Terminal.cxx:2471-2482 | at least one line and at most the rows of the ring: where the cursor is and by how many lines the text moves, in numbers |
| `DisplayedText.CursorUpShows` | src/Fl_Terminal.cxx:2455-2464 | the same upward, by at most two displays, with the extra scroll on reaching the top line |
| `DisplayedText.NewLineShows` | src/Fl_Terminal.cxx:2524-2529 | a line feed with return goes to the first column of the next line, and scrolls at the bottom |
| `DisplayedText.ClearHistoryShows` | src/Fl_Terminal.cxx:2335-2348 | the text is what was on display, the cursor stays |
| `DisplayedText.RefitShows` | src/Fl_Terminal.cxx:1334-1374 | the rows of the window and at least two; the columns of the window and at least ten, where rows are gained or pushed; where the cursor's line is then |
| `DisplayedText.FitKeepsLeft` | src/Fl_Terminal.cxx:727-740 | a copied row is cut on the right or extended there with default cells |
| `DisplayedText.HistoryRowsShows` | src/Fl_Terminal.cxx:1478-1483 | the display and as many of the newest history lines as there is room for are kept, and the cursor |
| `DisplayedText.DisplayRowsShows` | src/Fl_Terminal.cxx:1515-1520 | the newest lines are kept from below, and the cursor |
| `DisplayedText.DisplayColumnsShows` | src/Fl_Terminal.cxx:1546-1552 | every line is kept in the new width, and the cursor |
| `NaiveTerminal.RefitConservesText` | src/README-Fl_Terminal.txt:306-350 | for every mixture of the four cases the text up to the cursor's line is kept, up to dropping the oldest lines at capacity, exactly if the top row is not lost for want of history |
| `NaiveTerminal.RefitBelowCursor` | src/README-Fl_Terminal.txt:306-350 | below the cursor old rows stay as far as there is room, so only rows below the cursor are trimmed; rows gained are blank |
| `NaiveTerminal.RefitIsValid` | src/Fl_Terminal.cxx:1334-1374 | the display has exactly the rows asked for, at least two; the cursor stays inside it; columns never shrink |
| `NaiveTerminal.TopRowLostExample` | src/Fl_Terminal.cxx:1352-1356 | a one-row terminal without history loses its text when it is enlarged |
| `NaiveTerminal.UntouchedRefit` | src/Fl_Terminal.cxx:1334-1374 | a terminal nothing was written to shows default rows after every refit |
| `TerminalClass.Terminal.CursorDown` | src/Fl_Terminal.cxx:2471-2482 | the loop of the class is the downward move CursorDownRefines describes |
| `TerminalClass.Terminal.CursorUp` | src/Fl_Terminal.cxx:2455-2464 | the loop of the class is the upward move CursorUpRefines describes |
| `TerminalClass.Terminal.HistoryRows` | src/Fl_Terminal.cxx:1478-1483 | another history size keeps the newest rows that fit, by the ring's resize, and the same size changes nothing |
| `TerminalClass.Terminal.DisplayRows` | src/Fl_Terminal.cxx:1515-1520 | the resize to another number of display rows, which a refit follows |
| `TerminalClass.Terminal.DisplayColumns` | src/Fl_Terminal.cxx:1546-1552 | the resize to another number of columns, which a refit follows |
| `TerminalClass.Terminal.PrintChar` | src/Fl_Terminal.cxx:3104-3137 | the class prints what the naive terminal prints, and the character is read back from the display row |
| `TerminalClass.Terminal.ClearHistory` | src/Fl_Terminal.cxx:2335-2348 | the class clears the history as the naive terminal does |
| `TerminalClass.Terminal.RefitDispToScreen` | src/Fl_Terminal.cxx:1334-1374 | the loop over row changes does the naive refit, and the display has the rows of the window, at least two |
| `Scrollback.ScrollbarWindow` | src/Fl_Terminal.cxx:3717-3725 | scrollbar value k in 0..hist_use shows the window of history ++ display that ends k rows before the end |
| `Scrollback.CursorIsLookedForOnDisplay` | src/Fl_Terminal.cxx:3650-3665 | while the user looks back k rows, the rows drawn that the test accepts are those of the display, also where row numbers are negative, and each is the display row its place says |
| `Scrollback.RowUnderScroll` | src/Fl_Terminal.cxx:838-872 | where each ring row stands after a scroll, and which ring rows are blanked |
| `Scrollback.SelectionKeepsItsText` | src/README-Fl_Terminal.txt:236-250 | over any run of upward scrolls a selected row number denotes the same text until the text leaves the history |
| `Scrollback.RowIsBlankedAfter` | src/Fl_Terminal.cxx:838-872 | over any run of upward scrolls a ring row keeps its text exactly while no more rows are scrolled than lie above it or are left unused, and is blank from then on |
| `Scrollback.HighlightFollowsText` | src/Fl_Terminal.cxx:2081-2090 | over any run of upward scrolls the text of a remembered row is drawn as many rows higher, and under the selected number, so that the highlight is on it, exactly if the display's start has not wrapped |
| `Scrollback.StartWrapsExample` | src/Fl_Terminal.cxx:2081-2090 | a ring of two rows whose display start wraps with one scroll: the text "b" is drawn under another number than the selected one |
| `RedrawThrottle.RunKeepsOneTimer` | src/README-Fl_Terminal.txt:273-300 | in every run, settings included, at most one timeout is pending and the flag tells whether one is |
| `RedrawThrottle.RunIsPrompt` | src/Fl_Terminal.cxx:2969-2986 | in every rate-limited run a pending modification has an armed timer that is due within one period |
| `RedrawThrottle.RateIsLimited` | src/README-Fl_Terminal.txt:273-300 | two redraws are due as many periods apart as they are redraws apart; so they happen that far apart if the first was called on time, and EarlyExactlyAfterLate says exactly when not |
| `RedrawThrottle.EarlyExactlyAfterLate` | src/Fl_Timeout.cxx:264-274 | after a redraw some run redraws before a period is over exactly if the redraw was called late (and, for periods below the least delay, not by more than a period) |
| `RedrawThrottle.LateRedrawExample` | src/README-Fl_Terminal.txt:273-300 | two redraws a hundredth of a second apart at the default rate of ten per second |
| `RedrawThrottle.RedrawsAreSpaced` | src/Fl_Timeout.cxx:264-274 | the k-th redraw is due k periods after the earliest time of the first, although repeat_timeout makes up for late calls |
| `RedrawThrottle.NothingNewNoRedraw` | src/Fl_Terminal.cxx:3370-3381 | without new data there is no redraw |
| `RedrawThrottle.ModificationIsRedrawn` | src/Fl_Terminal.cxx:3370-3381 | every modification is redrawn within one period, or within the first delay if that is longer, once due timeouts have been called |
| `RedrawThrottle.IdlePeriodDisarms` | src/Fl_Terminal.cxx:3376-3380 | an idle period ends with no timer |
| `RedrawThrottle.DiesExactlyWhen` | src/Fl_Terminal.cxx:4059-4064 | the modified flag is left set without a timer exactly by switching the style away while it is set, or by a write in the per-write style |
| `RedrawThrottle.DeadStaysDead` | src/Fl_Terminal.cxx:2961-2963 | from then on no write and no style change ever redraws, because nothing clears the flag |
| `RedrawThrottle.PerWriteRedrawsOnce` | src/Fl_Terminal.cxx:2978-2982 | the per-write style redraws for the first write only |
| `RedrawThrottle.NewStyleDecides` | src/Fl_Terminal.cxx:2969-2986 | after a style change the next modification is redrawn at once, waits a hundredth of a second or for the timeout under way, or is not remembered, by the style |
| `RedrawThrottle.NoRedrawNeverRedraws` | src/Fl_Terminal.cxx:4043-4055 | while redrawing is switched off nothing is redrawn and nothing becomes modified |
| `RedrawThrottle.NewRateDecides` | src/Fl_Timeout.cxx:264-274 | a new rate counts from the next redraw: the timeout after it is one new period later, or a thousandth of a second from now if that is over already |
| `RedrawThrottle.ArmedInOrder` | src/Fl_Timeout.cxx:194-201 | a new timeout goes behind those not due later and in front of the rest |
| `RedrawTimerClass.RedrawTimer.AddTimeout` | src/Fl_Timeout.cxx:194-201 | a timeout is put behind those that are not due later |
| `RedrawTimerClass.RedrawTimer.Modified` | src/Fl_Terminal.cxx:2969-2986 | the flag, the timer and whether redraw() is called, for each style |
| `RedrawTimerClass.RedrawTimer.FireTimeout` | src/Fl_Terminal.cxx:3370-3381 | the callback redraws and rearms, or disarms |
| `RedrawTimerClass.RedrawTimer.SetRedrawStyle` | src/Fl_Terminal.cxx:4059-4064 | a style other than rate-limited drops the timer |
| `RedrawTimerClass.RedrawTimer.SetRedrawRate` | src/Fl_Terminal.cxx:4090-4092 | the rate is set and nothing else changes |
| `FluidWords.WordRoundTrip` | fluid/README_fl.txt:57-77 | for every word, simple, empty, nested or unbalanced, reading what was printed gives the word and leaves the rest; a bare word exactly if what follows ends words |
| `FluidWords.FileWordRoundTrip` | fluid/io/Project_Reader.cxx:472-537 | through the file a word comes back without its carriage returns, so it comes back intact exactly if it has none |
| `FluidWords.EscapedPasses` | fluid/io/Project_Writer.cxx:167-197 | escaped text, and text whose braces nest, passes through a braced word at any depth and leaves the depth unchanged |
| `FluidWords.WordWhereBraceWanted` | fluid/io/Project_Reader.cxx:472-537 | where a lone brace is wanted, a word printed in braces is not read as a word |
| `FluidForms.LetterEscapes` | fluid/io/Project_Reader.cxx:162-172 | the letters that stand for control characters behind a backslash, and the escaped end of line |
| `FluidForms.OtherEscapes` | fluid/io/Project_Reader.cxx:181-182 | every other character that starts no number stands for itself |
| `FluidForms.OctalRoundTrip` | fluid/io/Project_Reader.cxx:181-190 | every byte written as three octal digits is read back |
| `FluidForms.ShortOctal` | fluid/io/Project_Reader.cxx:181-190 | one or two octal digits end at the first character that is none |
| `FluidForms.HexRoundTrip` | fluid/io/Project_Reader.cxx:173-180 | every byte written as x and two hexadecimal digits in either case is read back if no third digit follows |
| `FluidForms.ThreeHexDigits` | fluid/io/Project_Reader.cxx:173-180 | of three hexadecimal digits the first counts for nothing |
| `FluidForms.DigitCodes` | fluid/io/Project_Reader.cxx:74-80 | which characters are digits of base 8 and 16 |
| `FluidForms.BlankIsSkipped` | fluid/io/Project_Reader.cxx:475-490 | blanks of every kind in front of a word are skipped |
| `FluidForms.CommentIsSkipped` | fluid/io/Project_Reader.cxx:480-484 | a comment is skipped with the end of its line, between words and inside braces |
| `FluidForms.PlainWordIsRead` | fluid/io/Project_Reader.cxx:521-535 | a word without quotes ends at the first blank, brace or comment or with the file |
| `FluidForms.Unclosed` | fluid/io/Project_Reader.cxx:499-506 | a braced word the file ends in is an error; an escaped end of line in it is nothing |
| `FluidForms.PrintedForm` | fluid/io/Project_Writer.cxx:167-197 | the empty word is printed as two braces, letters, digits and underscores as they are, everything else in braces |
| `FluidForms.EscapedForms` | fluid/io/Project_Writer.cxx:175-195 | number signs and backslashes are escaped, braces only if they do not nest |
| `FluidForms.Indents` | fluid/io/Project_Writer.cxx:220-224 | a new line is indented by two spaces for each level |
| `FluidForms.PrintedLeaf` | fluid/nodes/Node.cxx:719-748 | a node without properties as it stands in the file |
| `FluidForms.PrintedOnItsLine` | fluid/nodes/Node.cxx:753-785 | a property that starts a line, one level deeper than its node |
| `FluidForms.PrintedClass` | fluid/nodes/Node.cxx:719-748 | a class with prefix, flag, property and member as it stands in the file |
| `FluidBlocks.BlockIsOneWord` | fluid/README_fl.txt:190-227 | a block of words and inner blocks, read as one word, is consumed up to its own closing brace and no further |
| `FluidBlocks.PiecePasses` | fluid/io/Project_Reader.cxx:495-512 | each piece of a block leaves the reader's nesting as it was |
| `FluidTree.PropertiesAreRead` | fluid/nodes/Node.cxx:753-785 | a printed property list of any length, with arguments as the type defines, is read back up to its closing brace |
| `FluidTree.NodeIsRead` | fluid/nodes/Node.cxx:719-748 | a printed node with its properties and children of any depth is read back, and nothing after it |
| `FluidTree.NodeIsMisread` | fluid/io/Project_Reader.cxx:330-341 | a node with a prefixed class in it whose name is printed in braces is not read back |
| `FluidTree.PrefixIsMisread` | fluid/io/Project_Reader.cxx:330-341 | such a class takes its prefix for its name, or the reader fails |
| `FluidTree.TreeRoundTrip` | fluid/README_fl.txt:229-280 | a printed list of nodes is read back and consumed exactly if every class with a prefix has a simple, non-empty name |
| `FluidTree.MisplacedIsError` | fluid/io/Project_Reader.cxx:212-223 | behind any list of nodes the end of the file inside a list, a brace too many at the top and a word that is no type are errors |
| `FluidTree.PropertyErrors` | fluid/io/Project_Reader.cxx:349-353 | a word that is no property is an error in a property list; the end of the file ends it without one |
| `FluidTree.SecondNameIsError` | fluid/io/Project_Reader.cxx:330-346 | a second name is an error unless the node is a class, and so is a missing property list |
| `FluidTree.ThirdNameIsError` | fluid/io/Project_Reader.cxx:330-346 | a third name is an error |
| `FluidTree.NodesPrecede` | fluid/nodes/Node.cxx:719-748 | the printed text of nodes does not depend on what follows it |
| `FluidFile.ProjectRoundTrip` | fluid/io/Project_Writer.cxx:97-160 | a project file is read back with its options and its tree, to the end of the file, its skippable blocks skipped, exactly if every class with a prefix is well named |
| `FluidFile.OptionsAreRead` | fluid/io/Project_Reader.cxx:225-316 | any list of options in front of the tree is read back, whatever the tree reads as |
| `FluidFile.UnknownOptionIsError` | fluid/io/Project_Reader.cxx:318-326 | behind any options a word that is neither an option nor a type is an error |
| `FluidFile.PrintedFile` | fluid/io/Project_Writer.cxx:97-160 | a file with one option as it is written |
| `Bytes.XorCancels` | src/Fl_MSP.cxx:93-116 | changing one operand changes the exclusive or the checksum is made of |
| `Bytes.XorAt` | src/Fl_MSP.cxx:93-116 | a bit of the exclusive or is one exactly if it is one in one operand only |
| `MspProtocol.FrameBytes` | src/Fl_MSP.cxx:130-149 | the bytes of a frame, by their codes and places |
| `MspProtocol.FrameIsEven` | src/Fl_MSP.cxx:130-149 | from the size byte to the checksum every bit is set in an even number of bytes |
| `MspProtocol.HeaderBytes` | src/Fl_MSP.cxx:65-86 | the codes that take the parser through a header, and no others |
| `MspProtocol.EveryStateIsExplained` | src/Fl_MSP.cxx:63-128 | in every reachable state the bytes just read are the part of a frame the state stands for, the buffer holds no more than the announced payload and the checksum is that of the bytes read |
| `MspProtocol.CallbackMeansFrame` | src/Fl_MSP.cxx:117-127 | on any stream a callback means that the bytes just read are, without a gap, a frame for that command with a matching checksum |
| `MspProtocol.StreamRoundTrip` | src/Fl_MSP.cxx:130-149 | the bytes of any list of commands with payloads of 0 to 255 bytes give back those commands, once each and in order, and leave the parser waiting for a header |
| `MspProtocol.WireIsRead` | src/Fl_MSP.cxx:63-128 | any frame-shaped bytes fire exactly if the checksum matches, and either way the next header is awaited |
| `MspProtocol.FrameIsDelivered` | src/Fl_MSP.cxx:65-78 | after any bytes a frame is delivered exactly if those bytes left the parser waiting for a header |
| `MspProtocol.StrayDollarLosesFrame` | src/Fl_MSP.cxx:71-77 | a stray dollar sign in front of a frame loses it |
| `MspProtocol.AlteredFrameIsDropped` | src/Fl_MSP.cxx:117-127 | a frame with exactly one altered command, payload or checksum byte never fires, and the frame after it is not lost |
| `MspClass.Msp.ProcessByte` | src/Fl_MSP.cxx:63-128 | the fields after one byte, and what the callback is given; no write is past the buffer |
| `MspClass.Msp.SerialData` | src/Fl_MSP.cxx:52-61 | a read of any length is fed byte by byte |
| `MspClass.SendCommand` | src/Fl_MSP.cxx:130-149 | the bytes written are the frame of the command |
| `AfdxProtocol.EncodedHasNoEnd` | FL/Fl_AFDX.H:29-41 | the encoding of a packet holds no END byte |
| `AfdxProtocol.EncodedBytes` | FL/Fl_AFDX.H:29-41 | how each byte is sent, by the codes of RFC 1055 |
| `AfdxProtocol.OtherEscapes` | src/Fl_AFDX.cxx:70-76 | a byte that needs no escape and is escaped all the same stands for itself |
| `AfdxProtocol.LongPacketTail` | src/Fl_AFDX.cxx:93-98 | a packet of 65537 to 131073 bytes loses its first 65537 |
| `AfdxProtocol.TailIsLeft` | src/Fl_AFDX.cxx:93-98 | every 65537th byte empties the buffer, so of a long packet only the tail is left |
| `AfdxProtocol.StreamRoundTrip` | src/Fl_AFDX.cxx:69-99 | non-empty packets come out as they went in exactly if none is longer than 65536 bytes |
| `AfdxProtocol.EscapeIsParity` | src/Fl_AFDX.cxx:70-80 | the escape flag is set exactly after an odd run of ESC bytes |
| `AfdxProtocol.ResyncAfterNoise` | src/Fl_AFDX.cxx:69-99 | after any noise and an END every later packet is delivered intact exactly if the noise does not hide the END |
| `AfdxProtocol.TwoEndsResync` | src/Fl_AFDX.cxx:69-99 | two END bytes always resynchronise |
| `AfdxProtocol.StaleBufferIsPrepended` | src/Fl_AFDX.cxx:101-109 | what is left in the buffer, as after a raw frame, is put in front of the next packet, unless it is over the limit and the packet's first byte empties it |
| `AfdxProtocol.PacketSurvives` | src/Fl_AFDX.cxx:101-109 | a packet no longer than the buffer comes out as it went in exactly if nothing was left in the buffer |
| `AfdxProtocol.SummaryOfFrame` | src/Fl_AFDX.cxx:111-131 | the summary of a frame gives the virtual link and sequence number it was built from |
| `AfdxProtocol.ValidIsFrame` | src/Fl_AFDX.cxx:111-131 | a frame is called valid exactly if it is long enough and starts with the AFDX address |
| `AfdxProtocol.SummaryOfInvalid` | src/Fl_AFDX.cxx:111-131 | what an invalid frame leaves in the summary, and what a frame that is too short does |
| `AfdxProtocol.LinkExample` | src/Fl_AFDX.cxx:119-120 | the virtual link is big-endian |
| `AfdxProtocol.DatagramsAreReported` | FL/Fl_AFDX.H:29-41 | every frame sent over SLIP is reported once, in order, with its link and sequence number |
| `AfdxClass.Afdx.ProcessByte` | src/Fl_AFDX.cxx:69-99 | the fields after one byte, and whether the callback is called |
| `AfdxClass.Afdx.SerialData` | src/Fl_AFDX.cxx:58-67 | a read of any length is fed byte by byte |
| `AfdxClass.Afdx.FeedRawFrame` | src/Fl_AFDX.cxx:101-109 | a raw frame is summarised and stays in the buffer |
| `Gf2.DivisionIsUnique` | FL/Fl_ADSB_1090ES.H:33 | quotient and remainder of a division by a monic polynomial of degree 24 are unique |
| `Gf2.TimesAddsAt` | FL/Fl_ADSB_1090ES.H:33 | the shift-and-add product is linear, coefficient by coefficient |
| `Gf2.TimesOneAndShift` | FL/Fl_ADSB_1090ES.H:33 | one times a polynomial is the polynomial, and a zero behind the factor shifts the product |
| `Crc24.CrcIsRemainder` | FL/Fl_ADSB_1090ES.H:33 | the register is the remainder of the message times x^24, and nothing else is, for messages of any length |
| `Crc24.CrcAdds` | src/Fl_ADSB_1090ES.cxx:65-80 | the checksum is linear over exclusive or |
| `Crc24.FeedTogether` | src/Fl_ADSB_1090ES.cxx:69-78 | up to 24 bits may be added to the register first and shifted in together |
| `Crc24.ParityChecks` | FL/Fl_ADSB_1090ES.H:33 | a message followed by 24 bits checks exactly if they are its checksum |
| `Crc24.CheckedIsMultiple` | FL/Fl_ADSB_1090ES.H:33 | what checks is exactly what the generator divides |
| `Crc24.UndetectedIsMultiple` | FL/Fl_ADSB_1090ES.H:33 | an error goes undetected exactly if it is itself a multiple of the generator |
| `Crc24.BurstIsDetected` | FL/Fl_ADSB_1090ES.H:33 | any single burst of at most 24 bits, at any position, is detected |
| `AdsbChecksum.StepWordIsZeroStep` | src/Fl_ADSB_1090ES.cxx:71-77 | one turn on a 32-bit word keeps it below 2^24 and is one shift of the bit machine |
| `AdsbChecksum.CrcWordIsRemainder` | src/Fl_ADSB_1090ES.cxx:65-80 | the word the loops compute is the remainder by 0x1FFF409, and no other word is |
| `AdsbChecksum.ModeSCoefficients` | src/Fl_ADSB_1090ES.cxx:67 | the generator is x^24 to x^12, x^10, x^3 and 1 |
| `AdsbChecksum.ParityBytesCheck` | src/Fl_ADSB_1090ES.cxx:58 | three bytes after a message give a zero checksum exactly if they are its checksum |
| `AdsbChecksum.BurstIsRejected` | src/Fl_ADSB_1090ES.cxx:58 | bytes that check do not check after a burst of at most 24 bits |
| `AdsbReceiver.StreamIsCut` | src/Fl_ADSB_1090ES.cxx:50-63 | any stream is cut into messages of 14 bytes, in order, with nothing skipped |
| `AdsbReceiver.SummaryOfTransmission` | src/Fl_ADSB_1090ES.cxx:54-58 | the header fields come back as they were sent, and the message is valid exactly if its parity is right |
| `AdsbReceiver.SummaryBits` | src/Fl_ADSB_1090ES.cxx:54-57 | which bits of the message each header field is, from the first on |
| `AdsbReceiver.CorruptedIsInvalid` | src/Fl_ADSB_1090ES.cxx:58 | a sent message hit by a burst of at most 24 bits is never called valid |
| `AdsbClass.CalculateCrc24` | src/Fl_ADSB_1090ES.cxx:65-80 | the two loops compute the checksum, which fits 24 bits |
| `AdsbClass.Adsb.ProcessByte` | src/Fl_ADSB_1090ES.cxx:50-63 | the buffer and the message after one byte |
| `AdsbClass.Adsb.SerialData` | src/Fl_ADSB_1090ES.cxx:39-48 | a read of any length is fed byte by byte |
| `MenuTree.SubmenuAt` | FL/Fl_Menu_Item.H:112-116 | a submenu is itself a menu of the array, right after its title |
| `MenuTraversal.EncodingExample` | FL/Fl_Menu_Item.H:112-116 | the array of a small menu with a submenu, written out |
| `MenuScan.ScanMenu` | src/Fl_Menu.cxx:1284-1299 | passing a menu with its submenus leaves the nesting counter as it was |
| `MenuTraversal.Size` | src/Fl_Menu.cxx:1266-1280 | the size of a menu is the number of its items, submenus and end included |
| `MenuTraversal.NextVisibleOrNot` | src/Fl_Menu.cxx:1284-1299 | from an entry to the next entry of the same menu, past its submenu; from the end nowhere |
| `MenuTraversal.Next` | src/Fl_Menu.cxx:1303-1318 | in the array of any menu tree, next(n) lands on a visible entry of the same menu, the one with n visible entries before it from the start on, or on the menu's end if there are no more than n |
| `MenuTraversal.NthIsUnique` | FL/Fl_Menu_Item.H:148-163 | there is only one such entry |
| `MenuTraversal.CountIsCardinality` | FL/Fl_Menu_Item.H:148-163 | the count of visible entries is the size of the set of them |
| `MenuRadio.OnlyOneIsOn` | FL/Fl_Menu_Item.H:414-419 | after setonly the item is the only one on in its group as it is then, and items outside that group are unchanged |
| `MenuRadio.SetOnlyClearsOldGroup` | src/Fl_Menu_.cxx:444-461 | by the groups of the array as it was: the item becomes a radio item and is on, the others of its group are off, and nothing else changes |
| `MenuRadio.SetOnlyOfRadioItem` | FL/Fl_Menu_Item.H:414-419 | for a radio item that is its own group |
| `MenuRadio.SetOnlyExample` | src/Fl_Menu_.cxx:444-461 | two groups side by side: the divider of the second item keeps the third on |
| `MenuRadio.SetOnlyKeepsExclusive` | src/Fl_Menu_.cxx:444-461 | setonly keeps every group exclusive, whether or not the item was a radio item |
| `MenuRadio.RunKeepsExclusive` | FL/Fl_Menu_Item.H:414-419 | over every run of calls, groups that start exclusive stay exclusive |
| `MenuSetOnly.FindItem` | src/Fl_Menu_.cxx:419-440 | whether the search from the start of the array meets the item before the array's end |
| `MenuSetOnly.MenuIsSearched` | src/Fl_Menu_.cxx:419-446 | in the array of a menu every labelled item of it and its submenus is met and nothing behind it, and an item that is not met is left alone |
| `MenuSetOnly.SetOnlyItem` | src/Fl_Menu_.cxx:444-461 | the two loops turn off exactly the rest of the item's group |
| `CheckList.CheckCountsRight` | src/Fl_Check_Browser.cxx:326-338 | setting a mark keeps the count right exactly if the value is what the item holds, or zero, or marks an unmarked item |
| `CheckList.AddCountsRight` | src/Fl_Check_Browser.cxx:232-259 | adding a line keeps it right exactly if the signed char keeps the truth of the value |
| `CheckList.CountIsCardinality` | FL/Fl_Check_Browser.H:46-47 | the count is the size of the set of checked lines |
| `CheckList.RunIsSound` | FL/Fl_Check_Browser.H:46-47 | over every run of operations with marks 0 and 1, and of swaps that keep the ends of the list, nchecked is the number of checked lines and the cached number is that of a line |
| `CheckBrowserClass.PairDiffers` | FL/Fl_Check_Browser.H:55-72 | a chain of links that ends meets no item twice |
| `CheckBrowserClass.CheckBrowser.FindItem` | src/Fl_Check_Browser.cxx:27-55 | through the cache or its neighbours, the item found is the one a walk from the first finds |
| `CheckBrowserClass.CheckBrowser.LineNo` | src/Fl_Check_Browser.cxx:57-74 | the only line an item is on, or 0; so it inverts finding a line |
| `CheckBrowserClass.CheckBrowser.AddLine` | src/Fl_Check_Browser.cxx:232-259 | the list and links with one more item, its text and mark, and the counts; the other marks stay |
| `CheckBrowserClass.CheckBrowser.RemoveLine` | src/Fl_Check_Browser.cxx:265-295 | the list and links without the item, the counts and the cache; the other marks stay |
| `CheckBrowserClass.CheckBrowser.Clear` | src/Fl_Check_Browser.cxx:298-315 | the empty list |
| `CheckBrowserClass.CheckBrowser.SetChecked` | src/Fl_Check_Browser.cxx:326-338 | the item holds the value, the other items what they held, and the count |
| `CheckBrowserClass.CheckBrowser.Select` | src/Fl_Check_Browser.cxx:201-213 | a click turns the mark of the item around and counts it |
| `CheckBrowserClass.CheckBrowser.SetAll` | src/Fl_Check_Browser.cxx:354-373 | every item holds 1 or 0, and the count is that of all items or zero |
| `CheckBrowserClass.CheckBrowser.ItemSwap` | src/Fl_Check_Browser.cxx:114-164 | items and links are exchanged in every case, neighbours or not; first and last are right exactly if the second item was no end of the list or the items are the same |

## Left out

- Terminal: escape sequences, UTF-8 decoding and replacement characters, tabs, drawing, fonts, mouse handling, and resize_display_rows, whose moved border BorderMoves describes; a printed character is one cell.
- Terminal: character-set and colour packing inside a cell; a style is four numbers.
- TerminalModel.StepRefines: inserting and deleting rows and moves to the left and right are not operations of the machine.
- TerminalModel.RunRefines: no display of a run is made too small for the cursor: the setters leave the cursor where it is, and printing outside the display is not modelled.
- RingBufferClass.RingBuffer.Resize: a buffer without cells that is left with a history in use is not followed further; no refit and no setter of the machine leads there.
- Terminal: integer overflow of row numbers; rows are unbounded integers.
- Scrollback.SelectionKeepsItsText: is about upward scrolls, the only operation the design document tracks selections over; a refit clears the selection.
- RedrawThrottle: time is real and the event loop may be late by any amount; floating-point rounding and timeouts of other widgets are not modelled.
- FluidFile.ProjectRoundTrip: words of a project are free of carriage returns, which FileWordRoundTrip shows to be necessary for each word; the tables of types, properties and options are parameters.
- FluidTree.PropertiesAreRead: blocks of parent_properties are not among the properties.
- FluidTree: reading on after an error, legacy keywords, case-insensitive type lookup, unknown i18n options, and the files of fdesign; a failed read stands for every reported error. Only the class type takes a prefix.
- ProjectWriter: text printed by formatted writes appears as literals and as raw pieces of blocks.
- MspProtocol: opening ports, and the directions other than `<` and `>`.
- AfdxProtocol.DatagramsAreReported: frames of at most 65536 bytes, the size StreamRoundTrip shows to be the limit.
- Adsb: positions, speeds, call signs, feed_raw_hex and feed_squitter; feed_raw_hex enters process_byte with a full buffer, outside the range the receiver keeps.
- Menus: detached submenus reached by pointer, shortcuts, callbacks, insertion into menus, and the setonly of a single item without its menu.
- MenuSetOnly.FindItem: does not search detached submenus, which are arrays of their own.
- CheckList.RunIsSound: a run does not go on after a swap that loses an end of the list, which ItemSwap characterises.
- CheckList.Char: char is taken to be signed, as on most platforms; an unsigned one stores marks from 128 to 255 as they are, and the same marks are zero.
- Check lists: selection of the browser, drawing, and sorting, which swaps neighbours and so loses the last item when it moves it.
- The other protocol classes (CRSF, F.Port, IBUS, MAVLink, IRIG 106, Cyphal), layout widgets, image scaling, undo and all drivers: nothing of them is modelled.
