# FeudOS kernel: a verified model

FeudOS is a small x86_64 kernel in C. This project models its three parts with real state and proves
what they promise, for every input and every run:

* **the page-table editor** (`arch/x86_64/paging.c`): `map_page` edits a four-level tree of tables in
  one flat physical memory, which the kernel sees through two windows of virtual addresses that the
  same tables map. It is proved against a separate hardware walk written after section 4.5 of the
  Intel SDM, volume 3A, and each of its own loads and stores goes through that walk.
* **the framebuffer terminal** (`kernel/vga.c`): cursor, row lengths, wrapping, tabs, backspace across
  rows and in-place scrolling over a linear pixel array, plus number and format printing.
* **the keyboard, the line reader and the shell** (`kernel/keyboard.c`, `kernel/ksh/ksh.c`,
  `util/str.c`): an interrupt handler edits a shared buffer while a reader waits for a newline; the
  line is then split in place and dispatched.

## How it is organised

| file | contents |
|---|---|
| `PageTables.dfy` | entries, the hardware walk, the tree of tables, the windows, what one call and a run of calls do |
| `PageEditor.dfy` | addresses and the editor itself, on an array of words read and written through the walk |
| `Screens.dfy` | the terminal as a grid of cells: steps, invariant, endless twin, undo |
| `Display.dfy` | what each character changes on any screen, and lines of text on a row |
| `Editing.dfy`, `Transcripts.dfy` | text under a line editor, and the endless terminal read back as text |
| `Framebuffer.dfy` | the terminal on its pixel array, proved to render the grid |
| `Numbers.dfy`, `Formats.dfy` | numerals and formats as text, and how to read them back |
| `Conversions.dfy` | what each conversion of a format prints, read back as numbers, text and colours |
| `Printing.dfy` | `vga_print`, `kprint_uint`, `kprint_int`, `kvprintf` on the terminal |
| `KeyBuffers.dfy` | scancodes, the wrapping buffer and the reader as a transition system on values |
| `KeyLayout.dfy` | which key types which character, and the shift keys |
| `Echo.dfy` | the buffer and the screen together while a line is typed |
| `Keyboard.dfy` | the driver in place: handler, halt loop, copy |
| `CStrings.dfy`, `Shell.dfy` | the string scans, in-place splitting, dispatch, one turn of the shell, whole sessions |
| `Arith.dfy`, `Option.dfy` | division facts and the optional value |

Code that changes state is a class or a method with loops; each method's contract ties the new state
to a function of the old one, and the lemmas are about those functions.

## What is assumed

* Page tables (`Machine.Valid`, `WellFormed`, `CanMap`): CR3 has its low 12 bits clear; the direct map
  and the kernel image lie in the canonical upper half, are page-aligned, do not overlap and do not
  wrap around; reachable tables form a tree inside memory and outside the unused pool; on the path of
  the page being mapped no present entry is a large page or has any of bits 63:52 set; enough of the
  pool is left for the missing tables. Large pages elsewhere are allowed
  (`LargeAddress2` and `LargeAddress3` say how the walk reads them). The size of the pool is a parameter
  (4 in the source).
* The windows (`WindowsHold`, `Spares`): when the run starts, the tables show, writable, every frame of
  the direct map that the editor may use (`shown`, which includes all reachable tables and the pool)
  and the pool at its kernel addresses. That a call keeps this is not assumed: `MapPagedWindows` proves
  that it does exactly when the call spares the windows, that is, when a window page is mapped to the
  frame it shows already. The call made while booting is of that kind (`BootCall`).
* Terminal (`Terminal.Fits`, `Inv`, `WellBehaved`): at least one cell, a pitch of at least the visible
  width, a buffer of at least height times pitch pixels, and a font of bytes whose space is empty. `char` is
  signed, so bytes from 128 on are control codes. Runs are for up to 255 columns, because row lengths
  are bytes: `WidthExact` shows that this is exactly the width up to which characters keep the screen
  in order, and `LongRow` what breaks it. A run is well behaved when no backspace at column 0 follows a
  row whose length is the full width, and the screen is cleared to black only; `RunInv` shows that this
  is exactly when the invariant survives, and `PutC` what that backspace does to the pixels.
* Keyboard: a handler, including its echo, runs to completion between two checks of the reader, and
  each check is atomic. The bytes handled before each check are the `batches` of the reader; theorems
  about the text of a line are for a reader that checks after every byte. A read is regular
  (`Regular`) when no backspace goes past the start of the line, unless that is the start of the
  buffer, and no character is pushed into a full buffer; `RegularExact` shows that this is exactly
  when the buffer is the edited text throughout, `IrregularRead` is a run where it is not, and
  `IrregularReached` shows how to get there from an empty buffer.
* Shell: keys arrive while a line is being read, not while a command runs. What a handler prints is a
  parameter, any function of the command and its argument. `KshRun` asks that no line of the session is
  irregular and that nothing echoed or printed is an overfull backspace (`SessionOk`); `SessionFitsOk`
  derives this for lines that stay on the row of their prompt.
* Formats: arguments have the type their specifier fetches, and the format does not end in "%l" (the
  code would step over its terminator); otherwise `Format` is undefined.

Where the source and its comments disagree the model follows the code: `kbd_readline` is documented to
count the terminator in its result and does not, `ksh_exec` is documented to overwrite the first
whitespace after the name, and on a line that starts with one space it overwrites the first letter
instead (`ArgsIntact`).

## Model

| member | source | states |
|---|---|---|
| PageTables.IndexInjective | arch/x86_64/paging.c:20-23 | the four 9-bit indices determine bits 47:12 of an address |
| PageTables.GrowTableAt | arch/x86_64/paging.c:13-35 | linking a zeroed, unreached table behind an absent entry adds exactly one path to the tree |
| PageTables.GrowWalk | arch/x86_64/paging.c:13-35 | installing an empty table changes no translation of any address |
| PageTables.LeafWalkOther | arch/x86_64/paging.c:38-38 | writing a leaf entry changes the walk of no address with other indices |
| PageTables.LeafWalkSelf | arch/x86_64/paging.c:38-38 | the address whose leaf is written translates to it, writable exactly if the whole path is |
| PageTables.MapPagedWellFormed | arch/x86_64/paging.c:6-38 | a call keeps the tables a tree, inside memory and apart from the unused pool, and takes exactly as many pool tables as levels were missing, at most three |
| PageTables.MapPagedOther | arch/x86_64/paging.c:19-38 | every address with different bits 47:12 translates as before, mapped, large-mapped or faulting |
| PageTables.MapPagedSelf | arch/x86_64/paging.c:19-38 | the mapped address walks to the requested 4-KByte frame |
| PageTables.MapPagedWalk | arch/x86_64/paging.c:19-40 | under the given CR3 the hardware translates the page to the requested frame and every other address as before |
| PageTables.MapPagedEditable | arch/x86_64/paging.c:29-36 | a call changes neither which pages can be edited nor which paths allow writes |
| PageTables.MapPagedAgain | arch/x86_64/paging.c:29-38 | repeating a call allocates nothing and leaves memory identical |
| PageTables.MapPagedFrames | arch/x86_64/paging.c:19-38 | one call is one update of the map from page numbers to frames |
| PageTables.MapPagedWindows | arch/x86_64/paging.c:9-36 | a call leaves the editor the addresses it works through exactly when it maps no window page elsewhere |
| PageTables.UnreachedWindows | arch/x86_64/paging.c:13-17 | filling a table nothing links to, as `alloc_table` does, changes no window |
| PageTables.RunWalk | arch/x86_64/paging.c:19-40 | after any run of calls that spare the windows every address translates as its last call says, or as at first if no call names it |
| PageTables.RunFrames | arch/x86_64/paging.c:19-40 | a run of calls refines the same run of plain map updates |
| PageTables.RunKeeps | arch/x86_64/paging.c:6-40 | after any such run the tables are still a tree apart from the unused pool, and the windows still hold |
| PageTables.RunEnough | arch/x86_64/paging.c:6-17 | three free tables per call, followable paths and spared windows are enough for a run of any length |
| PageEditor.DirectAccess | arch/x86_64/paging.c:25-38 | the direct-map addresses of the tables reach their words through the tables being edited |
| PageEditor.ScratchAccess | arch/x86_64/paging.c:13-15 | the kernel addresses of the pool reach the pool's words through the tables being edited |
| PageEditor.Aliased | arch/x86_64/paging.c:9-30 | through the tables, a scratch word and the direct-map word at `v2p` of its table are the same physical word |
| PageEditor.IndexBits | arch/x86_64/paging.c:20-23 | the shifts and masks of the code select the entries the hardware uses |
| PageEditor.RootFrame | arch/x86_64/paging.c:25-27 | the code's and the processor's root table are the same |
| PageEditor.FollowExact | arch/x86_64/paging.c:30-36 | the masked entry is the address of the hardware's table exactly when bits 63:52 are clear |
| PageEditor.Editor.AllocTable | arch/x86_64/paging.c:13-17 | hands out the next pool table, zeroed through its kernel address, touches nothing else and keeps the windows |
| PageEditor.Editor.Ensure | arch/x86_64/paging.c:29-29 | an absent entry gets a new table, a present one is left alone |
| PageEditor.Editor.Follow | arch/x86_64/paging.c:30-30 | the pointer computed from an entry is the direct-map address of its table |
| PageEditor.Editor.WriteLeaf | arch/x86_64/paging.c:38-38 | one word changes, to the leaf for the frame |
| PageEditor.Editor.MapPage | arch/x86_64/paging.c:19-40 | under the current CR3 the hardware translates the page to the frame and every other address as before; memory is what the table-level description says; tree and windows are kept |
| PageEditor.BootCall | arch/x86_64/boot.c:84-87 | the call made while booting maps a window page to its own frame, so it spares the windows |
| Screens.InvStep | kernel/vga.c:114-184 | cursor in the grid, row lengths in range, blank past every length and below the cursor: kept by a character exactly unless it is an overfull backspace |
| Screens.InvApply | kernel/vga.c:74-184 | the same for clearing: only a black background keeps the invariant |
| Screens.RunInv | kernel/vga.c:74-184 | a run is well behaved exactly when the invariant holds at every point of it |
| Screens.WidthExact | kernel/vga.c:46-46 | every character but an overfull backspace keeps screens of a width tidy exactly when the width fits the byte-sized row lengths |
| Screens.LongRow | kernel/vga.c:167-170 | on a wider row the 256th letter leaves length 0 behind a visible text |
| Screens.WindowStep | kernel/vga.c:99-184 | one character moves screen and endless terminal together; rows above the screen do not change |
| Screens.WindowRun | kernel/vga.c:74-184 | over any run that stays below the top the screen, its row lengths and the cursor are the bottom of the endless terminal |
| Screens.RunWindow | kernel/vga.c:74-184 | the screen is the bottom of the endless terminal at every point of a run exactly when the run stays below the top |
| Screens.ScrollingIsWindow | kernel/vga.c:99-184 | a scrolling terminal is the bottom of one that never scrolls, from any starting screen |
| Screens.WindowLost | kernel/vga.c:145-149 | a backspace at the top left after scrolling is the case where this fails |
| Screens.TabStop | kernel/vga.c:131-144 | a tab goes to the nearest even column to the right or to the next row, and draws nothing |
| Display.PrintInRow | kernel/vga.c:167-183 | a printable character changes its own cell, the row length and the cursor, and nothing else, also past the end of the text, as after a tab |
| Display.PrintAtEnd | kernel/vga.c:167-183 | in the last column it fills the row and then does what a newline does, scrolling included |
| Display.Newline | kernel/vga.c:99-130 | a newline goes to the start of the next row, and at the bottom every row moves up by one |
| Display.TabStep | kernel/vga.c:131-144 | a tab goes to the nearest even column, or does what a newline does |
| Display.BackspaceStep | kernel/vga.c:145-161 | a backspace blanks the character before the cursor, ends the row there unless it ended earlier, and crosses to the end of the row above |
| Display.OtherStep | kernel/vga.c:119-165 | every other control byte does nothing |
| Display.ClearStep | kernel/vga.c:74-83 | clearing leaves spaces of that colour, empty rows, and the cursor at the top left |
| Display.TextShown | kernel/vga.c:187-192 | text printed with room on the row is what the row shows from the cursor on, on any screen in order |
| Display.MessageShown | kernel/kernel.c:15-21 | after the newline and tab of a kernel panic the message stands on the next row from column 2 |
| Transcripts.StepTranscript | kernel/vga.c:114-184 | read back as text, an endless terminal is edited by each character like a line of text |
| Transcripts.RunTranscript | kernel/vga.c:99-184 | after any well-behaved run of text its transcript is the earlier one with the run edited in |
| Transcripts.ScreenShowsEnd | kernel/vga.c:99-184 | the scrolling screen is the bottom of a terminal that reads as that whole text |
| Screens.UndoChar | kernel/vga.c:120-184 | one backspace undoes a newline or a character that neither scrolls nor fills the row |
| Screens.UndoText | kernel/vga.c:120-184 | a calm text followed by as many backspaces is well behaved and gives back the screen |
| Framebuffer.AtInjective | kernel/vga.c:65-65 | different pixels have different addresses in the linear buffer |
| Framebuffer.AlikePixels | kernel/vga.c:53-72 | cells that look alike, blank ones in particular, have the same 64 pixels |
| Framebuffer.Palette | kernel/vga.c:21-26 | the sixteen colours are three bits of red, green and blue and one of brightness, with brown for dark yellow |
| Framebuffer.ColorHalves | kernel/vga.c:28-33 | the foreground is the low half of a colour byte, the background the high half |
| Framebuffer.GlyphRow | kernel/vga.c:60-67 | the foreground pixels of a cell row, weighted by powers of two from the left, are the glyph's byte |
| Framebuffer.Terminal.ShowsGlyph | kernel/vga.c:53-68 | read back from the addresses of the linear buffer, the rows of every cell are the rows of its character's glyph |
| Framebuffer.Terminal.constructor | kernel/vga.c:35-50 | the text area is what fits in whole glyphs, up to 256 rows; usable exactly when that is at least one cell inside the buffer |
| Framebuffer.Terminal.DrawCell | kernel/vga.c:53-68 | exactly the pixels of one cell become the rendering of the character, also in the column after the last, where they may wrap |
| Framebuffer.Terminal.MoveRows | kernel/vga.c:100-104 | the forward in-place copy is a simultaneous shift by eight pixel rows |
| Framebuffer.Terminal.VgaUp | kernel/vga.c:99-112 | that shift with a blank last row of text, nothing outside the text area changed, and `line_len` shifted with it |
| Framebuffer.Terminal.PutPrintable | kernel/vga.c:167-183 | drawing, the row length and the wrap refine the cell-level step |
| Framebuffer.Terminal.PutBackspace | kernel/vga.c:145-161 | backspace, across rows too, refines the cell-level step; an overfull one turns exactly the 64 pixels after the row black |
| Framebuffer.Terminal.PutC | kernel/vga.c:114-184 | cells, row lengths and cursor follow the step, text pixels follow the cells, other pixels stay; exactly an overfull backspace leaves the grid |
| Framebuffer.Terminal.ClearScreen | kernel/vga.c:74-83 | the visible buffer is one colour, which is a blank screen with the cursor at the top left, valid exactly on black with at most 255 columns |
| Framebuffer.Terminal.Play | kernel/vga.c:74-184 | after any well-behaved run every text pixel is the rendering of the resulting grid |
| Framebuffer.Terminal.AlikeShows | kernel/vga.c:53-72 | screens that look alike are shown by the same pixels |
| Numbers.UintTextReads | kernel/vga.c:195-215 | the printed digits have no leading zero and evaluate to the number in its base |
| Numbers.NumeralUnique | kernel/vga.c:195-215 | no other text is a numeral of the number |
| Numbers.DtoaValue | util/ascii.c:1-7 | a digit's character stands for that digit, with capital letters from ten on |
| Numbers.DigitCount | kernel/vga.c:201-210 | a number fits in k characters exactly when it is below base to the k |
| Numbers.TwentyDigits | kernel/vga.c:201-210 | twenty characters are enough for 64 bits in bases 10 to 16 |
| Numbers.IntTextReads | kernel/vga.c:217-224 | signed text is the numeral of the magnitude, after a minus sign exactly if the number is negative |
| Numbers.ParseIntText | kernel/vga.c:217-224 | decimal text reads back as the same signed number |
| Numbers.IntTextInjective | kernel/vga.c:217-224 | different numbers print differently |
| Formats.FormatAppend | kernel/vga.c:226-289 | a format that ends outside a specifier composes with any other, with the arguments and colour it leaves |
| Formats.FormatCut | kernel/vga.c:233-235 | one that ends inside a specifier does not |
| Formats.FormatArgs | kernel/vga.c:237-281 | each recognised specifier takes exactly one argument, in order |
| Conversions.UnsignedReads | kernel/vga.c:242-265 | "%u" and "%lu" print the decimal numeral of their argument |
| Conversions.HexReads | kernel/vga.c:274-277 | "%X" prints the hexadecimal numeral |
| Conversions.SignedReads | kernel/vga.c:238-261 | "%d" and "%ld" print text that parses back to their argument, numeral and sign |
| Conversions.TextReads | kernel/vga.c:246-281 | "%s" prints its string, "%c" its character, and "%k" only sets the colour |
| Conversions.OtherReads | kernel/vga.c:231-286 | any other character is printed after its percent sign, and a percent sign at the end prints nothing |
| Conversions.UptimeLine | kernel/ksh/handlers.c:11-17 | the uptime line reads back as the seconds it was given |
| Conversions.PanicHeading | kernel/kernel.c:16-16 | the heading of a kernel panic is printed in its colour, which stays for the message |
| Printing.VgaPrint | kernel/vga.c:187-192 | prints the characters of a string in order |
| Printing.PlainBehaves | kernel/vga.c:187-192 | output without backspaces is always well behaved |
| Printing.PrintAndErase | kernel/vga.c:120-184 | text and then as many backspaces restores every text pixel, the cursor and all row lengths |
| Printing.FillDigits | kernel/vga.c:201-210 | the division loop ends inside its buffer and leaves the digits reversed |
| Printing.PutReversed | kernel/vga.c:212-214 | the buffer is printed from the last character to the first |
| Printing.KprintUint | kernel/vga.c:195-215 | prints the numeral, for exactly the numbers the buffer can hold |
| Printing.Negation | kernel/vga.c:218-220 | modular negation gives the magnitude, also of the minimum |
| Printing.KprintInt | kernel/vga.c:217-224 | prints sign and magnitude of any 64-bit number |
| Printing.PutDirective | kernel/vga.c:237-286 | one specifier prints and consumes what the format specification says |
| Printing.PutLong | kernel/vga.c:255-273 | the same for the specifiers after "%l"; `UnsignedReads` and `SignedReads` say what that text is |
| Printing.Kvprintf | kernel/vga.c:226-289 | the loop refines the recursive format specification: output, text colour, remaining arguments |
| KeyBuffers.Slot | kernel/keyboard.c:51-56 | every character is stored in 0..2046: at position 2047 the buffer starts over |
| KeyBuffers.PushStores | kernel/keyboard.c:51-56 | a character is stored at the position and moves past it; at 2047 it is stored at 0; nothing else changes |
| KeyBuffers.PushErases | kernel/keyboard.c:32-49 | a backspace clears the character before the position, if there is one |
| KeyBuffers.PushAgrees | kernel/keyboard.c:32-57 | a key keeps the buffer equal to the edited text exactly when it is regular |
| KeyBuffers.RegularExact | kernel/keyboard.c:32-57 | the buffer is the edited text at every point exactly in regular runs |
| KeyBuffers.ReadLength | kernel/keyboard.c:32-109 | in every run a returning read leaves a valid position and a length from 1 to max - 1 |
| KeyBuffers.LengthWraps | kernel/keyboard.c:100-104 | the unsigned difference is the typed length above the start and wraps to max - 1 below it |
| KeyBuffers.ReadRegular | kernel/keyboard.c:85-98 | a regular read stops at the first newline with the edited text in the buffer, and waits without one |
| KeyBuffers.ReadEntered | kernel/keyboard.c:85-98 | typing a line and the enter key ends the read after exactly those bytes, with the edited text and the newline in the buffer |
| KeyBuffers.LineIsText | kernel/keyboard.c:100-109 | the returned line is the text cut to max - 1 characters |
| KeyBuffers.LineClean | kernel/keyboard.c:12-57 | typed lines contain no terminator, newline or backspace |
| KeyBuffers.IrregularRead | kernel/keyboard.c:85-109 | a lone backspace after two empty lines ends a read with the maximal length |
| KeyBuffers.IrregularReached | kernel/keyboard.c:85-109 | that state is reached from an empty buffer by pressing the enter key twice |
| KeyLayout.DigitRow | kernel/keyboard.c:12-27 | scancodes 1 to 13: escape, digits and their shifted signs |
| KeyLayout.TopRow | kernel/keyboard.c:12-27 | scancodes 16 to 28: the top letter row and enter |
| KeyLayout.HomeRow | kernel/keyboard.c:12-27 | scancodes 30 to 41: the home row |
| KeyLayout.BottomRow | kernel/keyboard.c:12-27 | scancodes 43 to 53: the backslash and the bottom row |
| KeyLayout.SingleKeys | kernel/keyboard.c:12-27 | backspace, tab, star and space, with or without shift |
| KeyLayout.SilentKeys | kernel/keyboard.c:59-71 | all other codes and all releases type nothing |
| KeyLayout.LetterCase | kernel/keyboard.c:12-27 | shift turns every letter into its capital |
| KeyLayout.ShiftHeld | kernel/keyboard.c:63-73 | from the press of a shift key to its release keys type their shifted character, and no longer |
| Echo.EchoKey | kernel/keyboard.c:45-79 | after a non-empty prompt, any key keeps the cells equal to the buffer exactly when it stays on the row |
| Echo.EchoExact | kernel/keyboard.c:45-79 | cells and buffer agree after every scancode of a run exactly when the run stays on the row of the prompt |
| Echo.EchoRun | kernel/keyboard.c:45-79 | through any such run of scancodes echo and buffer agree, with the cursor right after the text |
| Display.PromptShown | kernel/ksh/ksh.c:66-66 | wherever the prompt fits its row it is shown, and the line after it starts empty at the cursor |
| Echo.PromptEchoes | kernel/ksh/ksh.c:66-68 | from the prompt on, while the reader waits, the screen shows exactly the edited text in the buffer between prompt and cursor |
| Echo.EnterMoves | kernel/keyboard.c:73-98 | the enter key leaves the cursor at the start of the next row and the typed row as it was |
| Echo.ScanAllPrints | kernel/keyboard.c:59-79 | whatever is typed, the screen is the one on which the typed text has been printed |
| Echo.ReadPrints | kernel/keyboard.c:85-98 | a regular read prints everything typed up to the first newline, and that newline |
| Keyboard.Driver.Pop | kernel/keyboard.c:32-43 | removes and clears the last character, if any |
| Keyboard.Driver.Push | kernel/keyboard.c:45-57 | stores or removes a character, wrapping before the last slot |
| Keyboard.Driver.HandleScancode | kernel/keyboard.c:59-79 | shift, release and both tables; the typed character is stored and echoed; `KeyLayout` and `ScanAllPrints` say which and where |
| Keyboard.EchoFormat | kernel/keyboard.c:73-76 | printing with "%c" is putting the character |
| Keyboard.Driver.AwaitNewline | kernel/keyboard.c:86-98 | the halt loop stops exactly when the transition system does, in the same state |
| Keyboard.Driver.CopyOut | util/memops.c:4-13 | copies that many characters and changes no others |
| Keyboard.Driver.CopyLine | kernel/keyboard.c:100-109 | length, copy and terminator, and nothing behind it |
| Keyboard.Driver.ReadLine | kernel/keyboard.c:85-110 | the whole read, with everything echoed while it waits |
| CStrings.Strfle | util/str.c:29-43 | the end of the longest separator-free prefix, or 0 at a leading separator |
| CStrings.Strfnl | util/str.c:45-62 | the start of the next lexeme, if there is one |
| CStrings.Streq | util/str.c:4-13 | equality of the strings up to their terminators |
| Shell.PopulateBaseCommands | kernel/ksh/ksh.c:13-55 | the seven names, in table order |
| Shell.SplitLine | kernel/ksh/ksh.c:75-81 | a line not starting with a space is its maximal space-free prefix, spaces, and the argument |
| Shell.ArgsIntact | kernel/ksh/ksh.c:75-81 | the handler gets what follows the first word exactly unless the terminator lands on it |
| Shell.LookupFinds | kernel/ksh/ksh.c:83-89 | dispatch finds a name exactly when it is registered, at its first position |
| Shell.ExecuteSplits | kernel/ksh/ksh.c:75-92 | on a line not starting with a space the longest space-free prefix is looked up, and the handler gets what follows the spaces after it |
| Shell.BaseLeadingSpace | kernel/ksh/ksh.c:80-92 | a line that starts with a space never runs a registered command |
| Shell.SplitInPlace | kernel/ksh/ksh.c:76-81 | after the in-place terminator the buffer is the name, and the argument string is as it was |
| Shell.SplitCommand | kernel/ksh/ksh.c:76-81 | the scans do that and one character of the array changes |
| Shell.Find | kernel/ksh/ksh.c:83-89 | the dispatch loop is the lookup |
| Shell.UnknownFormat | kernel/ksh/ksh.c:91-91 | the complaint about an unknown command, as text |
| Shell.Exec | kernel/ksh/ksh.c:75-93 | a handler runs exactly when the name is registered; which one, with which argument; its output or "Unknown command: ", the name and a newline is printed |
| Shell.RegularLineReads | kernel/keyboard.c:85-109 | a regular line stops the read and leaves the edited text and its newline in the buffer |
| Shell.LineString | kernel/ksh/ksh.c:68-69 | the stripped line is the edited text cut to 126 characters |
| Shell.ReadCommand | kernel/ksh/ksh.c:66-69 | prompt, read and strip: the string handed on is exactly that text |
| Shell.Turn | kernel/ksh/ksh.c:61-73 | from scancodes to the command that runs; prompt, typed text, newline and output are printed; where the next line starts in the buffer |
| Shell.KshRun | kernel/ksh/ksh.c:61-73 | with the registered table, over any list of lines: each line's outcome is that of its edited text, and each prints prompt, typed text, newline and output |
| Shell.SessionLine | kernel/ksh/ksh.c:64-72 | line by line, that is what a session does from the state the lines before it leave |
| Shell.SessionStored | kernel/ksh/ksh.c:64-72 | a session leaves in the key buffer every edited line and its newline, and nothing else moves the position |
| Shell.SessionFitsOk | kernel/ksh/ksh.c:64-72 | any session of lines that stay on the row of their prompt and fit the buffer can be run, and keeps the screen in order |
| Shell.EchoLine | kernel/ksh/ksh.c:75-89 | a line "echo" with an argument dispatches to the echo handler with exactly that argument |
| Shell.EchoTyped | kernel/keyboard.c:12-19 | pressing e, c, h, o and enter runs the echo command |
| Shell.HandleEcho | kernel/ksh/handlers.c:133-136 | which prints it and a newline |
| Shell.HandleUptime | kernel/ksh/handlers.c:8-19 | the uptime command prints hours, minutes and seconds that make up the whole seconds counted |

## Left out

- Port I/O, interrupt controllers, timers, serial, SSE, descriptor tables, `isr.s`: hardware plumbing.
- TLB invalidation, reading CR3 and the boot handshake: CR3, the direct-map offset and the kernel bases are parameters.
- Execute-disable, accessed, dirty, memory-type and protection-key bits: the walk gives frame, size, write and user rights only.
- Splitting large pages and 5-level paging: the editor does not handle them, so the path of a mapped page has none.
- Calls that map a window page elsewhere: `MapPagedWindows` shows that the editor loses its way to the tables; what it then reads and writes is not followed further.
- Interrupts inside `vga_putc` or inside the reader's check: both are atomic here.
- What follows an overfull backspace: `PutC` gives the state and the pixels it leaves, and runs end there.
- Text on screens of more than 255 columns: `WidthExact` shows why; the pixel methods are for `Inv`, which has the bound.
- Font artwork: the glyphs are any bytes, with an empty space. `vga_set_cursor` does nothing in the source.
- Handler bodies other than `echo` and `uptime`, `klog`, `kernel_panic`, `strncpy_f`, `strl`, `isalnum`: easy or foreign to the three cores.
- Shell.Exec: a handler's output is a parameter, any function of its position and argument; it changes neither the text colour nor the key buffer, and it returns (`panic` does not).
- Shell.Turn: for regular lines only, because outside them the line is not the typed text.
- Shell.KshRun: a list of lines, where the source loops forever; keys typed while a command runs are not part of it.
- Keyboard.Driver.ReadLine: memory that follows the key buffer is a parameter, because a read whose position fell below its start copies past the buffer's end.
- Printing.Kvprintf: the format is the string before its terminator; argument lists of other types are undefined behaviour and excluded.
