# Cone: models and proofs

Cone is a text-mode mail client. This project models the parts of it that keep state and
must not lose anything, and proves what they promise:

- **The message editor** (`Columns`, `LineBreaks`, `LineBreakTable`, `WordWrap`, `Wrapping`, `EditorState`,
  `Editor`, `EditorLaws`, `FlatText`, `Typing`, `Justifying`, `Paragraphs`, `ClearRuns`). The class `Editor`
  has the editor's fields and methods. Every method is proved against a function on the editor's state
  (`EditorState`), and the laws are about those functions: what they do to the document, which operations undo each other, over one key or a run of keys, and exactly when. A line
  is a sequence of characters. Grapheme boundaries, character widths with tabs, the line-break engine
  and the word wrapper are those of the repository's own libraries, not assumptions, and what they do is
  stated without them (`LineBreakTable`, `Wrapping`); only the Unicode tables (the class of a character, its
  width) are parameters.
- **Flowed text** (`FlowedText`, `MessageFormatter`, `DraftFiles`): a reader for section 4 of RFC 3676,
  and round trips through the message formatter and through draft files. The reader comes in two
  forms, the one of the RFC and the one of the repository's parser, which ends a paragraph at an empty
  line; the theorems hold for both.
- **The folder tree** (`Hierarchy`): objects with parents, children and screen rows, and the map from
  rows back to objects.
- **The displayed message** (`MessageStore`, `MimeView`): the line store with its files, file
  positions and cache, and the flattening of the MIME structure.
- **Filters, address book, multipart messages** (`FilterSteps`, `FilterScreen`, `Nicknames`,
  `Multipart`, `TransferEncoding`, with `Decimals` and `Texts`).

Where the code and a natural expectation differ, the model follows the code and a lemma says exactly
when the expectation is met:

- The word wrapper ends without finishing the line-break engine (`curses/widechar.H:640-651`), so a
  text that ends in a symbol such as `%` and an opening bracket loses the bracket. Automatic wrapping
  and the message formatter inherit this (`WordWrap.WrapKeepsAll`, `WordWrap.WrapLosesOpening`,
  `Paragraphs.AutowrapConserves`, `MessageFormatter.FormattedTextDecodes`). It also drops carriage returns
  inside a text, and the words on their two sides run together (`MessageFormatter.ReturnDoesNotSurvive`).
- The wrapper measures the start of a line from the column where the line before left off
  (`curses/widechar.H:440-455`), so a line that a tab starts can get too wide. `Wrapping.WrapWell` says how lines
  are cut as the wrapper counts, `Wrapping.TabsMove` exactly when it counts right, and `Wrapping.TabTooWide` is a
  text for which it does not.
- DELETE uses a number of graphemes as a number of characters: on a letter with a combining mark it
  leaves the mark and loses the end of the line. BACKSPACE deletes through the same code
  (`EditorLaws.DeleteIsExact`, `EditorLaws.DeleteCutsTail`, `EditorLaws.BackspaceIsExact`).
- Cutting and pasting back fails where the two sides of the cut do not join cleanly
  (`EditorLaws.CutThenPaste`, `EditorLaws.CutJoins`); undoing a justification fails if a wrapped line
  starts with a space, a tab or `>`, which the line after the paragraph can bring in
  (`EditorLaws.JustifyTwice`, `Justifying.JustifyTakesQuote`).
- Justifying wraps the line after the paragraph along with it and leaves that line where it is, so its words
  come in twice (`Justifying.JustifiedText`).
- A run of clear-to-end-of-line presses that starts inside a line does not paste back if it goes on at the
  end of the document, or if it swallows a line that starts with a combining mark; one that starts at a
  line's end pastes back only if it swallows empty lines to the end of the document and goes on there once
  (`ClearRuns.ClearRunThenPaste`, `ClearRuns.MarkRunsTogether`).
- Whether a line of a file flows is decided before control characters are removed, so a carriage return
  behind the space takes the flow away: a flowed file whose lines end in a carriage return and a line feed
  loses its paragraphs (`DraftFiles.LoadThenSave`, `DraftFiles.ReturnsSplitParagraph`).
- A text that is wrapped right after two dashes is written with a line that reads as a signature separator
  (`MessageFormatter.DashesDoNotSurvive`).
- Adding a line to the display store after a look that went to the files writes in the wrong place
  (`MessageStore.RunIntact`, `MessageStore.AddAfterLookBreaks`).
- The quoted-printable encoder drops a space at the very end, and does not escape others before it
  (`TransferEncoding.QpReads`). It never breaks a line inside a run of spaces, nor, where a space comes late on a
  line, soon enough behind it, so lines can be longer than 76 characters (`TransferEncoding.QpLines`,
  `TransferEncoding.QpSpacesStay`).

Four members go beyond what the program asks of its code, and say what happens on other inputs:
`EditorLaws.ChunksMatter` (no caller replaces lines that do not exist), `Hierarchy.ExchangeKeepsWhole` (the
program builds layers of servers and of folders, so siblings are of one kind, and `Hierarchy.MoveKeepsWhole`
needs nothing else), `FilterSteps.FilterRoundTrip` (tags are named by numbers or read from one line, so
`FilterScreen.RunComesBack` needs nothing else) and `MimeView.ReachesAllOnly` (the walk looks at the first
child of an enclosed message only, and a parsed one has one).

Some lemmas and methods start with a `hide` statement: it names definitions that the proof does not
need, and keeps it quick. To check everything: `dafny verify dfyconfig.toml`.

## Model

| member | source | states |
|---|---|---|
| Columns.GraphemesDoNotChangeWidth | curses/widechar.C:197-205 | The width of a text, tabs and zero-width characters included, is the same whether it is summed by character or by grapheme, at every starting column |
| Columns.NextBoundaryMeans | cone/curseseditmessage.C:2585-2590 | The forward scan of `right` stops at the least grapheme boundary after the index |
| Columns.PrevBoundaryMeans | cone/curseseditmessage.C:2548-2552 | The backward scan of `left` stops at the greatest grapheme boundary before the index |
| Columns.IndexOfColIsLast | cone/curseseditmessage.C:2042-2085 | `getIndexOfCol` finds the greatest boundary whose prefix is no wider than the column; every later boundary is beyond it |
| Columns.ColumnRoundTrip | cone/curseseditmessage.C:2042-2085 | An index turned into a column and back is the same index if and only if it is a boundary and the grapheme after it takes up room |
| Columns.JoinColumn | cone/curseseditmessage.C:272-291 | After two pieces are put side by side, the cursor set to the width of the first rests between them if and only if no grapheme spans the join and the one after it takes up room |
| Columns.RestAtEnd | cone/curseseditmessage.C:2142-2154 | The column that `end` sets is that of the end of the line, whatever the line ends in |
| Columns.GraphemeRules | unicode/unicode_graphemebreak.c:28-95 | Unicode Annex 29: which pairs of classes have no grapheme boundary between them, as one condition |
| Columns.TabStops | curses/widechar.C:175-194 | A tab ends at the next multiple of eight, at least one and at most eight columns on |
| LineBreaks.FeedReports | unicode/unicode_linebreak.c:133-565 | After any sequence of line-break classes the engine has given one verdict per character, except for a held tail, which exists if and only if the classes end in an affix, combining marks, an opening, combining marks; `LineBreakTable.VerdictsAreText` says what the verdicts are |
| LineBreaks.EveryCharacterReported | unicode/unicode.h:121-125 | The engine's own contract: finished properly, it has called back exactly once per character |
| LineBreakTable.RulesAreTable | unicode/unicode_linebreak.c:133-565 | The rules for two characters, tried one after the other, are a table of pairs, one row for each class and another for pairs with spaces between them; only an opening bracket after a symbol waits for the next character |
| LineBreakTable.VerdictsAreText | unicode/unicode_linebreak.c:133-565 | For every text, the verdict on every character is read off the text: the table, numbers kept whole, combining marks that take the class of their base, a bracket after a symbol judged by the digit behind it |
| Wrapping.WordVerdicts | unicode/unicode_linebreak.c:273-274 | In a text of letters and spaces a line may end exactly between a space and the letter after it |
| WordWrap.WrapConserves | curses/widechar.H:387-675 | The pieces of any wrapped text concatenate to the text without its line breaks and its held tail; those of a text without line breaks are never empty, and there are none if and only if it is empty |
| WordWrap.WrapKeepsAll | curses/widechar.H:640-651 | Wrapping keeps the whole text, line breaks aside, if and only if the text does not end in a held tail, because `eof` does not finish the line-break engine |
| WordWrap.WrapLosesOpening | curses/widechar.H:640-651 | A text for which it fails: "%(" comes out as "%" |
| Wrapping.WrapWell | curses/widechar.H:387-675 | Every text without line breaks, of any width and with tabs, is cut only where a line may end, and where it must; each line, as the wrapper counts it, fits or cannot be made shorter; and with what follows, up to the next place where it may end, it would not fit |
| Wrapping.OneWellCut | curses/widechar.H:387-675 | There is only one way to cut a text like that |
| Wrapping.LinesFit | curses/widechar.H:426-456 | The same in screen columns, for a text without tabs: each line is no wider than asked for unless no line may end inside it, and what follows would not have fitted |
| Wrapping.TabsMove | curses/widechar.C:175-194 | A text is as wide from any column as from the margin if and only if there is no tab in it or the column is a multiple of eight |
| Wrapping.FromMargin | curses/widechar.H:440-455 | A line is counted right if what comes before the first place where it may end has no tab, or the line before left off at a multiple of eight |
| Wrapping.TabTooWide | curses/widechar.H:440-455 | A line that is counted wrong: "a", a space, a tab and "b" wrapped to 7 columns give a line of 9 that could be shorter |
| Wrapping.FitsStays | curses/widechar.H:387-675 | A text that fits, tabs or not, stays one line, unless it has a place where a line must end |
| Wrapping.WordsWrap | curses/widechar.H:387-675 | A text of letters and spaces is cut in front of words only, each line as full of whole words as it can be |
| Wrapping.WrapSpaced | curses/widechar.H:604-632 | Wrapping lines again, wherever they started: the pieces are those of the text with one space put in before each start where no line may end, after which a line may end |
| Editor.Editor.GetIndexOfCol | cone/curseseditmessage.C:2042-2085 | The loop over graphemes computes the index characterised by `Columns.IndexOfColIsLast` |
| Editor.Editor.GetTextBeforeAfter | cone/curseseditmessage.C:240-266 | The two parts concatenate to the line and meet at the cursor's index |
| Editor.Editor.SetTextBeforeAfter | cone/curseseditmessage.C:272-291 | Only the current line changes, to the two parts and the flag given; the column is the width of the first part |
| Editor.Editor.ReplaceTextLinesImpl | cone/curseseditmessage.C:314-344 | For a range in the document, exactly the splice, with the cursor after the new lines; for any other range nothing changes |
| Editor.Editor.ReplaceInChunks | cone/curseseditmessage.C:362-396 | Reading the new lines 256 at a time is the one-shot splice for every range in the document; for another range a later chunk can still be inserted, and exactly that is |
| Editor.Editor.ReplaceTextLines | cone/curseseditmessage.C:398-422 | The whole new state: the document is never without lines, the cursor is on the last inserted line and inside the document |
| EditorState.SpliceChunk | cone/curseseditmessage.C:375-394 | Replacing a range by a first chunk and inserting the rest behind it is replacing it by all of them |
| EditorLaws.ChunksMatter | cone/curseseditmessage.C:362-422 | Chunked and one-shot replacement differ if and only if the range is not in the document, which no caller asks for, and a second chunk finds its place |
| Editor.Editor.Mark | cone/curseseditmessage.C:2131-2140 | The mark is set at the cursor's row and index |
| Editor.Editor.MoveToEnd | cone/curseseditmessage.C:2142-2154 | Only the column changes, to the width of the line |
| Editor.Editor.GoLeft | cone/curseseditmessage.C:2522-2562 | One grapheme back, or the end of the line above, or nothing at the start of the document |
| Editor.Editor.GoRight | cone/curseseditmessage.C:2564-2599 | One grapheme on, or the start of the line below, or nothing at the end of the document |
| Editor.Editor.EnterKey | cone/curseseditmessage.C:2775-2794 | The line is split at the cursor; the first half does not flow and the second keeps the flag |
| Editor.Editor.PasteText | cone/curseseditmessage.C:2156-2185 | The new document, flags and cursor of `yank`, for every cut buffer, empty ones included |
| Editor.Editor.GetMarkedRegion | cone/curseseditmessage.C:2295-2326 | The region in document order, whichever end the cursor is at, and whether they were swapped |
| Editor.Editor.SaveRegion | cone/curseseditmessage.C:2345-2380 | The cut buffer afterwards, with the different treatment of the clear-to-end-of-line key |
| Editor.Editor.DeleteMarked | cone/curseseditmessage.C:2342-2417 | The region is cut out, the two lines around it become one with the flag of the last, and the cursor is at the join |
| Editor.Editor.DeleteAtCursor | cone/curseseditmessage.C:2420-2464 | DELETE without a region: inside a line, at its end with a line below, and at the end of the document |
| Editor.Editor.DeleteCharacter | cone/curseseditmessage.C:2328-2464 | `deleteChar`: a non-empty marked region goes, otherwise what is at the cursor |
| EditorLaws.DeleteIsExact | cone/curseseditmessage.C:2431-2441 | DELETE removes exactly the grapheme under the cursor if and only if every grapheme after it is a single character and the text from its second character on repeats with the period of its length less one, which for a single character says nothing: a number of graphemes is used as a number of characters |
| EditorLaws.DeleteCutsTail | cone/curseseditmessage.C:2431-2441 | A line for which it fails: on a letter with a combining mark followed by "xy", DELETE leaves the mark and "x" |
| EditorLaws.BackspaceIsExact | cone/curseseditmessage.C:953-959 | BACKSPACE inside a line removes exactly the grapheme before the cursor if and only if the cursor can rest where it starts and DELETE would be exact there |
| Editor.Editor.Inserted | cone/curseseditmessage.C:2468-2520 | Automatic wrapping of what is before the cursor, with the new document, flags and cursor; `Paragraphs.AutowrapFits` says where the lines are cut |
| Editor.Editor.InsertKeyPos | cone/curseseditmessage.C:443-542 | The new state after a typed character, wrapped if need be; what that is to the document, `Typing.TypesInPlace` and `Typing.TypesInParagraph` say |
| Editor.Editor.ToParagraphStart | cone/curseseditmessage.C:1009-1018 | The upward scan ends on the first line of the block of justifiable lines |
| Editor.Editor.SaveParagraph | cone/curseseditmessage.C:1026-1035 | The cut buffer becomes exactly the lines of the block |
| EditorState.BlockStartMeans | cone/curseseditmessage.C:1009-1018 | The block found is the greatest run of justifiable lines that ends there |
| Editor.Editor.JustifyParagraph | cone/curseseditmessage.C:1000-1067 | The block is replaced by its wrapped text; `Justifying.JustifiedText` and `Justifying.JustifiedLines` say what that is |
| Editor.Editor.UndoJustification | cone/curseseditmessage.C:969-998 | The lines from the start of the block to the cursor are replaced by the cut buffer, which is emptied |
| Editor.Editor.TrackMark | cone/curseseditmessage.C:850-872 | Shifted keys set the mark once; other keys drop it, unless they act on the region |
| Editor.Editor.ClearLine | cone/curseseditmessage.C:1070-1079 | Clear to end of line cuts from the cursor; only the first press of a run empties the cut buffer |
| Editor.Editor.ProcessKey | cone/curseseditmessage.C:848-1079 | The key dispatch: the whole new state for every key modelled |
| Editor.Editor.Load | cone/curseseditmessage.C:3063-3070 | The document becomes the lines of the file, at least one, with the cursor at its start |
| Editor.Editor.GetUTF8Text | cone/curseseditmessage.C:181-208 | A flowed line gets one space, another loses its trailing spaces |
| Editor.Editor.Save | cone/curseseditmessage.C:3072-3080 | The text written is that of all lines in order |
| Editor.Editor.LeastShift | cone/curseseditmessage.C:2686-2710 | The inner loop ends at the least boundary from which the column fits on screen |
| Editor.Editor.ShiftLongLine | cone/curseseditmessage.C:2656-2717 | On a line at least as wide as the screen, the shift never passes the cursor, the whole grapheme under it fits, and a shift that already shows it is kept |
| Editor.Editor.ShiftFor | cone/curseseditmessage.C:2627-2717 | The same for every line and every old shift, with a shift of 0 for lines that fit |
| Editor.Editor.GetCursorPosition | cone/curseseditmessage.C:2601-2745 | The cursor is on screen: the column is that of the cursor less that of the shift, within the width, and the result says on which side the mark is |
| EditorState.LongLineShift | cone/curseseditmessage.C:2680-2717 | The shift found from the least fitting boundary puts the whole grapheme in the window, if it is no wider than the window |
| EditorLaws.RunKeepsCursorAndMark | cone/curseseditmessage.C:848-1079 | Over every run of keys the cursor's row exists and the mark stays where a cursor can rest |
| EditorLaws.EnterThenBackspace | cone/curseseditmessage.C:947-959 | ENTER then BACKSPACE restores document, flags, row, index and cut buffer, at every position |
| EditorLaws.RightThenLeft | cone/curseseditmessage.C:2522-2599 | RIGHT then LEFT, anywhere but at the document's end, returns to the same place if and only if RIGHT comes to rest right after the grapheme |
| EditorLaws.UpAndDown | cone/curseseditmessage.C:874-898 | UP and DOWN keep the column, stop at the ends of the document, and take each other back inside it |
| EditorLaws.HomeAndEnd | cone/curseseditmessage.C:912-924 | END goes to the end of the line, HOME to its start if and only if the cursor can rest there |
| EditorLaws.ShiftedRun | cone/curseseditmessage.C:859-872 | Over every run of shifted keys the region stays between where they started, or the old mark, and the cursor, and nothing else changes; any key that does not act on the region drops it |
| EditorLaws.RegionKeys | cone/curseseditmessage.C:954-965 | CUT does nothing without a mark; with one, DELETE is CUT, and BACKSPACE is SHIFT-LEFT and then DELETE |
| EditorLaws.AfterDelete | cone/curseseditmessage.C:2420-2464 | DELETE without a region changes its own line, or joins it with the next: flags, column, cut buffer and all other lines |
| FlatText.EnterInserts | cone/curseseditmessage.C:2775-2794 | With the document as one string, ENTER puts one line feed at the cursor |
| FlatText.PasteInserts | cone/curseseditmessage.C:2156-2185 | Pasting puts the text of the cut buffer, line feeds included, at the cursor |
| FlatText.CutTakesOut | cone/curseseditmessage.C:2342-2417 | Cutting takes the text between mark and cursor out, whichever comes first, and into the cut buffer |
| FlatText.DeleteJoins | cone/curseseditmessage.C:2443-2463 | DELETE at the end of a line takes out its line feed |
| Typing.ControlsIgnored | cone/curseseditmessage.C:445-446 | Control characters but the tab change nothing but the mark |
| Typing.TypesInPlace | cone/curseseditmessage.C:443-542 | While the line is not wrapped, a typed character goes in where the cursor is, and all else stays; the cursor is right behind it if and only if it does not run into what follows |
| Typing.TypesInParagraph | cone/curseseditmessage.C:443-542 | Wrapped or not: the paragraphs are the old ones with the character at the cursor's paragraph and offset if and only if nothing is wrapped, or what is before the cursor has no line breaks and no held tail; the cursor stays in the paragraph, right behind the character if and only if that does not run into what follows |
| Typing.EnterCutsParagraph | cone/curseseditmessage.C:2775-2794 | ENTER cuts the cursor's paragraph in two at the cursor's offset, flowed lines or not, with the cursor at the start of the second |
| Typing.TypeThenBackspace | cone/curseseditmessage.C:443-542 | BACKSPACE takes back a character typed without wrapping, with document, cursor and cut buffer as before, if and only if the cursor can rest before it and every grapheme from it on is a single character |
| Typing.WrapThenBackspace | cone/curseseditmessage.C:2468-2520 | Where typing wraps a line without loss, BACKSPACE never takes it back |
| EditorLaws.CutThenPaste | cone/curseseditmessage.C:2295-2418 | Cutting any non-empty region, marked in either direction, and pasting restores the document, flags included, if and only if the two sides of the cut join cleanly; the cursor is then at the region's end |
| EditorLaws.CutJoins | cone/curseseditmessage.C:2295-2418 | A region for which it fails: an x cut from between two joining letters is pasted in front of both |
| EditorLaws.JustifyTwice | cone/curseseditmessage.C:967-1068 | Justifying and undoing restores the document, flags included, if and only if every wrapped line is itself justifiable |
| Justifying.NoBreakBeforeSpace | unicode/unicode_linebreak.c:133-565 | In a text with no character that ends a line, no line is ever broken before a space |
| Justifying.JustifiedText | cone/curseseditmessage.C:1000-1067 | For every paragraph: the new lines together are the trimmed texts of the block and of the line after it, with a space between two of them wherever no line may end there, without line breaks, and all of it unless it ends in a held tail; the rest of the document stays |
| Justifying.JustifiedLines | cone/curseseditmessage.C:1036-1067 | The new lines flow into each other but for the last, and without line breaks in the text they are cut well |
| Justifying.WordsJustified | cone/curseseditmessage.C:1000-1067 | A paragraph of words at the end of the document keeps its words, with one space between those of different lines |
| Justifying.JustifyComesBack | cone/curseseditmessage.C:967-1068 | A condition on the text that is enough: the paragraph is followed by an empty line or ends the document, and has no `>`, no tab and no character that ends a line |
| Justifying.JustifyTakesQuote | cone/curseseditmessage.C:1042-1061 | A paragraph for which it fails: letters from margin to margin with a quote on the line below, which is wrapped with them and starts a line |
| Paragraphs.AutowrapKeeps | cone/curseseditmessage.C:2468-2520 | Whatever loses at most the end of the text in wrapping, the paragraphs are kept if and only if nothing is lost, and then the cursor keeps its paragraph and its offset |
| Paragraphs.AutowrapConserves | cone/curseseditmessage.C:2468-2520 | With the wrapper as it is, for every text: kept if and only if the line is not split, or what is before the cursor has no held tail and no line breaks in it |
| Paragraphs.AutowrapFits | cone/curseseditmessage.C:2468-2520 | The lines made of what is before the cursor are cut well, and the last goes on with the rest of the line |
| ClearRuns.ClearRunThenPaste | cone/curseseditmessage.C:2328-2464 | A run of presses and then a paste: from inside a line, all texts come back if and only if every press changed the document and no swallowed line runs into the character before the cursor, and then all flags do if and only if every swallowed empty line that the run went past has the flag of the line above it; from a line's end, all texts come back if and only if all lines below are empty and one press, at the end of the document, changed nothing, and then all flags do |
| ClearRuns.RunLength | cone/curseseditmessage.C:2345-2380 | Pasting after a run gives back the number of lines, one less if the run started at a line's end, and one more for every press that changed nothing |
| ClearRuns.MarkRunsTogether | cone/curseseditmessage.C:2328-2464 | A run that does not come back: the line swallowed starts with a combining mark, which ends up on the line above |
| FlowedText.WrittenLinesRead | cone/curseseditmessage.C:3074-3079 | Lines written one by one are read back |
| FlowedText.DecodeConcat | rfc2045/rfc3676parser.c:427-476 | In the reading of section 4 of RFC 3676, a line that does not flow ends a paragraph, so texts decode piece by piece |
| FlowedText.DecodesSame | rfc2045/rfc3676parser.c:427-476 | A file whose lines lost some of their ends, and with it their flow, decodes to the same paragraphs if and only if every line has the same text and continues on the next as before |
| DraftFiles.LineReader.NextLine | cone/curseseditmessage.C:568-644 | One step of the file reader: the next line of the file, with its flag, or the end of the file, or of a binary file |
| DraftFiles.ReadAll | cone/curseseditmessage.C:549-680 | The iterator goes through exactly the lines of the file |
| DraftFiles.EditOutControls | cone/curseseditmessage.C:629-641 | Control characters but the tab are removed in place |
| DraftFiles.Flows | cone/curseseditmessage.C:610-627 | A line flows if something is left after its quote marks and one space, and it ends in a space |
| DraftFiles.SaveThenLoad | cone/curseseditmessage.C:3063-3080 | A document saved and loaded, as flowed or as plain text, is the same if and only if every line is storable: no control characters; in flowed text, flowed lines are not just quote marks and others do not end in a space; in plain text, no line flows |
| DraftFiles.LoadThenSave | cone/curseseditmessage.C:3063-3080 | Any flowed file, binary ones aside, loaded and saved: its lines without control characters, and without spaces at the end of lines that do not flow; it decodes to the paragraphs that it had without control characters if and only if every line that loses its flow ends in one space, is not a signature separator and did not continue on the next line (nor, for readers that end a paragraph before an empty line, was a lone space that the line before continued on) |
| DraftFiles.ReturnsSplitParagraph | cone/curseseditmessage.C:610-641 | A file for which it fails: two lines with a carriage return before the line feed, whose one paragraph becomes two |
| DraftFiles.LoadThenSavePlain | cone/curseseditmessage.C:3063-3080 | A plain file loaded and saved has its lines without control characters |
| DraftFiles.StoredReads | cone/curseseditmessage.C:610-641 | A line loaded and saved reads as it did without control characters if and only if it did not flow, or ends in the space that makes it flow |
| DraftFiles.ReturnLosesFlow | cone/curseseditmessage.C:610-641 | A line that loses its flow: a space and a carriage return at its end |
| MessageFormatter.Formatter.Write | cone/cursesmessage.C:2068-2086 | One piece: a soft break before all but the first, the quote marks, space-stuffing |
| MessageFormatter.Formatter.LineEnd | cone/cursesmessage.C:2109-2140 | One line: trailing spaces go, the rest is wrapped, and an empty line is still written; `MessageFormatter.PiecesFit` says where it is cut |
| MessageFormatter.Formatter.Format | cone/cursesmessage.C:2098-2140 | Any sequence of lines from the parser |
| MessageFormatter.FormattedTextDecodes | cone/cursesmessage.C:2068-2140 | For every sequence of lines: what is written decodes, with DelSp=yes, to the same quote levels and texts without trailing spaces, if and only if no text has a line break in it, such as a carriage return on its own, or ends in a held tail, and no piece but the last of a text is "--" |
| MessageFormatter.PiecesFit | cone/cursesmessage.C:2109-2140 | The pieces of a line without line breaks are cut well |
| MessageFormatter.ReturnDoesNotSurvive | rfc2045/rfc3676parser.c:344-363 | A text for which it fails: "a" and "b" with a carriage return between them are written as "ab" |
| MessageFormatter.DashesDoNotSurvive | cone/cursesmessage.C:2068-2140 | A line that does not come back: two dashes and letters that do not fit behind them |
| Hierarchy.FullPassNumbers | cone/hierarchy.C:436-450 | A pass over the whole tree gives the rows from scratch, whatever rows there were before; `Hierarchy.OneLayout` says which those are |
| Hierarchy.PassLays | cone/hierarchy.C:436-450 | After a whole pass the first entry that is no root is on the first row, and each other one on the row after that of the entry before it in the walk, or two rows after if it is a server; nothing else is on screen |
| Hierarchy.OneLayout | cone/hierarchy.C:436-450 | No other rows have that property |
| Hierarchy.WholeIsLaid | cone/hierarchy.C:436-450 | So a tree is wholly numbered if and only if its rows have that property |
| Hierarchy.RenumberingRefines | cone/hierarchy.C:581-591 | If an entry and those before it have the rows of a whole pass, and all else on screen comes after it, numbering again from it on equals a fresh whole pass |
| Hierarchy.DrawEraseBelowRefines | cone/hierarchy.C:581-591 | After any change behind an entry, entries lost and gained included, `drawEraseBelow` of that entry gives the rows of a fresh whole pass from the same first row |
| Hierarchy.DrawEraseBelowLays | cone/hierarchy.C:581-591 | If the rows had that property before the change, they have it after `drawEraseBelow` |
| Hierarchy.PrefixSplits | cone/hierarchy.C:295-325 | What comes before an entry, the entry with all below it, and what comes later make up the prefix order of the whole tree |
| Hierarchy.PrefixDistinct | cone/hierarchy.C:282-293 | A walk visits nothing twice |
| Hierarchy.SwapWalk | cone/hierarchy.C:176-178 | Swapping neighbours swaps their parts of the walk and leaves the rest |
| Hierarchy.SameAround | cone/hierarchy.C:301-325 | Changes below an entry leave the walk around it as it was |
| Hierarchy.UpThenDown | cone/hierarchy.C:155-226 | On a wholly numbered tree, moving an entry up and then down restores the order of the children and every row |
| Hierarchy.ExchangeKeepsWhole | cone/hierarchy.C:168-187 | On any tree, moving an entry up leaves a wholly numbered tree if and only if it is of the kind of the sibling it passes, or nothing on screen comes before the two |
| Hierarchy.MoveKeepsWhole | cone/curseshierarchy.C:1690-1800 | In the layers of the program, servers below the root and folders below servers and folders, moving an entry up or down leaves a wholly numbered tree, and the layers |
| Hierarchy.AddedLayered | cone/myserver.C:788-792 | A new server below the root, or folder below a server or folder, keeps the layers |
| Hierarchy.DestroyedLayered | cone/hierarchy.C:110-130 | The loss of entries keeps the layers |
| Hierarchy.LastRowIsGreatest | cone/hierarchy.C:88-98 | After a whole pass the last entry has the greatest row on screen |
| Hierarchy.AddedAfter | cone/hierarchy.C:100-108 | A new child changes the prefix order only after its parent |
| Hierarchy.ClearedAfter | cone/hierarchy.C:260-278 | So does the loss of all children |
| Hierarchy.Entry.constructor | cone/hierarchy.C:100-108 | A new entry is the last child of its parent and on no row; rows and row map stay inverse |
| Hierarchy.Entry.SetRow | cone/hierarchy.C:135-153 | The entry takes the row and whoever had it loses it; rows and row map stay inverse |
| Hierarchy.Entry.PrefixIterate | cone/hierarchy.C:282-293 | The rows are assigned in the prefix order of the part of the tree |
| Hierarchy.Entry.PrefixIterateAfter | cone/hierarchy.C:301-325 | The rows are assigned to exactly the suffix of the prefix order that starts with the entry |
| Hierarchy.Entry.MoveUp | cone/hierarchy.C:155-193 | The first child stays; another changes places with the one above, and everything from there on is numbered again; a layered, wholly numbered tree stays so |
| Hierarchy.Entry.MoveDown | cone/hierarchy.C:195-226 | The last child stays; another changes places with the one below; a layered, wholly numbered tree stays so |
| Hierarchy.Entry.Clear | cone/hierarchy.C:260-278 | Exactly what is below the entry is destroyed and loses its rows |
| Hierarchy.Entry.Destroy | cone/hierarchy.C:110-130 | The entry and all below it are destroyed, lose their rows and leave the parent's list |
| Hierarchy.AssignRow.Visit | cone/hierarchy.C:436-450 | An entry that is no root gets the next row, or the one after it if it is a server and not the first entry; the iterator moves on to the row below |
| Hierarchy.Hierarchy.GetLastRow | cone/hierarchy.C:88-98 | The last entry in prefix order |
| Hierarchy.Hierarchy.DrawEraseBelow | cone/hierarchy.C:581-591 | Nothing before a change; after it, numbering again from the entry on its row |
| Hierarchy.Hierarchy.ShowFolders | cone/myserver.C:810-819 | Reading a server's folders again, entries destroyed and created, keeps a wholly numbered tree wholly numbered |
| LineCache.InsertedValid | cone/cache.H:31-48 | The cache never outgrows its size, and its queue lists its keys, each once |
| LineCache.Cache.Insert | cone/cache.H:31-48 | A known key keeps its place; a new one pushes off the oldest when the cache is full |
| MessageStore.AddKeepsIntact | cone/cursesmessage.C:712-745 | Adding a line keeps index, display file and cache exact if and only if the files stand at their ends; an empty line does not need it of the display file |
| MessageStore.LookSees | cone/cursesmessage.C:1991-2032 | An intact store shows the i-th line and its flags, from cache or files, for every i, and its positions move if and only if the line is not cached |
| MessageStore.RunIntact | cone/cursesmessage.C:712-745 | After beginReformat and any mix of adding and looking, the store holds exactly the lines added, with offsets that are sums of the lengths before and the last lines cached, if and only if no line was added after a look that went to the files |
| MessageStore.RunSees | cone/cursesmessage.C:1991-2042 | And then every line can be looked at |
| MessageStore.AddAfterLookBreaks | cone/cursesmessage.C:2015-2021 | A run that shows an empty line in place of one added |
| MessageStore.DisplayStore.BeginReformat | cone/cursesmessage.C:623-654 | Files, cache and counters start over |
| MessageStore.DisplayStore.ReformatAddLine | cone/cursesmessage.C:712-745 | The whole new state of files, positions and cache |
| MessageStore.DisplayStore.GetLineImage | cone/cursesmessage.C:1991-2042 | What is shown, and where the file positions are afterwards |
| MimeView.ShowsOnePart | cone/cursesmessage.C:261-347 | With distinct ids, asking for a part shows what the part found by that id shows as an inline part, if the walk gets to it, and nothing otherwise |
| MimeView.ShowsWhatIsFound | cone/cursesmessage.C:3833-3848 | With distinct ids, grok of an id and decrypt_find of it agree if and only if the walk gets to the part, or there is none |
| MimeView.ReachesAllOnly | cone/cursesmessage.C:276-292 | With distinct ids, the walk gets to every part if and only if enclosed messages have one child, since it goes to the first only |
| MimeView.AlternativeShowsBest | cone/cursesmessage.C:305-332 | Section 5.1.4 of RFC 2046: a multipart/alternative shows its last displayable part only, or its first if there is none; `MimeView.AlternativesInside` and `MimeView.FiltersDecide` say which are displayable |
| MimeView.AlternativesInside | cone/cursesmessage.C:312-362 | A signed alternative is judged by what is signed, a decrypted one by its verified content; plain text, HTML, headers and decrypted output can always be displayed; case does not matter |
| MimeView.FiltersDecide | cone/cursesmessage.C:349-400 | Anything else can be displayed if and only if nothing is being downloaded, external filters are allowed, and there is one |
| MimeView.FiltersShowLater | cone/cursesmessage.C:305-400 | Allowing filters never shows an earlier alternative |
| MimeView.ShowsInOrder | cone/cursesmessage.C:261-347 | Entries come in the order of the message: one for each part without children, one for the headers of each enclosed message before its content, one behind decrypted content, and no others |
| MimeView.View.Init | cone/cursesmessage.C:198-206 | The list starts with the message's own headers if the whole message is shown |
| MimeView.View.Grok | cone/cursesmessage.C:261-347 | The list grows by what the structure shows |
| MimeView.View.ChooseAlternative | cone/cursesmessage.C:312-328 | The loop ends with the last displayable alternative, looking into signed and decrypted ones |
| FilterSteps.FieldRoundTrip | libmail/search.C:128-240 | Every byte string comes back from its encoded field, with exactly what follows the field |
| FilterSteps.EncodesPlainly | libmail/search.C:218-240 | An encoded field has only printable characters and no space |
| FilterSteps.SearchRoundTrip | libmail/search.C:62-215 | Search parameters come back, but for a range that the scope does not use |
| FilterSteps.StepRoundTrip | cone/filter.C:24-101 | A step comes back, but for fields that its kind does not use |
| FilterSteps.FilterRoundTrip | cone/filtereditscreen.C:109-140 | A saved filter comes back if and only if no tag has a line break in its name, the one field saved without encoding |
| FilterSteps.StepsOfSavable | cone/filtereditscreen.C:109-140 | Every step read from a filter, whatever its text, is one that can be saved: all its fields are bytes and numbers in range, and no tag has a line break in its name |
| FilterSteps.NumberedTagSavable | cone/filtereditscreen.C:308-319 | So is the tag step that the menu makes, named by a number |
| FilterSteps.SavesUsed | cone/filtereditscreen.C:194-212 | Fields that a step does not use are not saved |
| FilterScreen.EditScreen.Init | cone/filtereditscreen.C:109-173 | One button per line of the filter and an Add button last; rows from 3 on, every button knowing its place |
| FilterScreen.EditScreen.Text | cone/filtereditscreen.C:194-212 | The filter saved is that of the steps in order |
| FilterScreen.EditScreen.Add | cone/filtereditscreen.C:412-442 | The step goes before the Add button; rows, places and the Save button follow |
| FilterScreen.EditScreen.Del | cone/filtereditscreen.C:340-362 | The step goes, and everything below moves up; the Add button stays |
| FilterScreen.EditScreen.DoMoveUp | cone/filtereditscreen.C:387-410 | Two places get each other's button; rows and places stay right; the first and the Add button do not move |
| FilterScreen.EditScreen.MoveDown | cone/filtereditscreen.C:372-385 | The step below moves up, unless it is the Add button |
| FilterScreen.EditScreen.ProcessKeyInFocus | cone/filtereditscreen.C:67-88 | A key acts on the place that the button knows, which is its own |
| FilterScreen.UpThenDown | cone/filtereditscreen.C:364-410 | Moving a step up and down again restores the order; moving keeps the steps |
| FilterScreen.KeysMean | cone/filtereditscreen.C:67-88 | DELETE takes out the step of its button alone, UP puts it before the step above, DOWN behind the step below; at the ends of the list nothing moves |
| FilterScreen.AddThenDelete | cone/filtereditscreen.C:340-442 | Adding a step and deleting it again leaves the steps as they were |
| FilterScreen.RunComesBack | cone/filtereditscreen.C:109-442 | Whatever filter the screen was opened for, and after any run of moving, deleting and adding steps that can be saved, saving and reading gives the same steps, without unused fields |
| FilterScreen.Reopen | cone/filtereditscreen.C:109-212 | Saving and opening again shows the same steps, without unused fields, if and only if no tag has a line break in its name |
| Decimals.Pigeonhole | cone/addressbook.C:1173-1181 | Different names that are all in use are no more than the names in use |
| Nicknames.CandidatesTaken | cone/addressbook.C:1173-1181 | Of the candidates for one name, no more are taken than there are names |
| Nicknames.TriesMean | cone/addressbook.C:1173-1181 | The first try is the name itself, and each later one the name with the number of the try in digits |
| Nicknames.FreshName | cone/addressbook.C:1173-1181 | The search ends, after at most one try per name in use and one more, with the first free candidate |
| Nicknames.BaseNameMeans | cone/addressbook.C:1139-1171 | The name to start from is the only start of the chosen name, in lower case, that has no space or at sign and goes up to the first of them |
| Nicknames.ChosenNameMeans | cone/addressbook.C:1139-1160 | The name chosen is a group name without the character behind it, or else the first address's name, or else the address; the group is not one of the addresses |
| Nicknames.Import | cone/addressbook.C:1099-1190 | Nothing is imported if and only if some line is in error; otherwise every line with addresses gives one entry, in order, each with the first name free at its turn |
| Nicknames.NamesAreFresh | cone/addressbook.C:1183-1187 | Generated nicknames differ from all existing ones and from each other |
| Nicknames.NamesAreDetermined | cone/addressbook.C:1173-1187 | The lines and the names in use determine the nicknames |
| Multipart.BodySplits | cone/cursesedit.C:3643-3650 | The body splits, by section 5.1.1 of RFC 2046, into exactly its parts in order if and only if no part has a line that starts with the delimiter |
| Multipart.SearchIsComplete | cone/cursesedit.C:3226-3248 | The search finds every line that starts with the delimiter, in every file, if and only if the delimiter fits into the buffer |
| Multipart.SearchBoundary | cone/cursesedit.C:3226-3248 | The search succeeds if and only if some chunk read starts with the delimiter, without regard to case |
| Multipart.NamesDiffer | cone/cursesedit.C:3566-3580 | Boundaries of different tries differ even without regard to case, whatever the clock says |
| Multipart.ChooseBoundary | cone/cursesedit.C:3564-3625 | The loop ends, within a bound set by the texts, with the first boundary that no text searched rejects |
| Multipart.CopyMultipart | cone/cursesedit.C:3254-3292 | The delimiter and then the file, unchanged, for every buffer size |
| Multipart.EncodingAddsNoLine | rfc822/encode.c:67-255 | No transfer encoding makes a boundary line that the text does not have |
| Multipart.Base64PartIsClean | cone/cursesedit.C:3598-3599 | An attachment in base64 needs no search |
| Multipart.Save | cone/cursesedit.C:3557-3731 | The headers and body written; read back they are the text part and every attachment in order, and the text part is the text again for a reader that goes by the encoding named in it |
| Multipart.TextPartReads | rfc822/encode.c:26-40 | For each name the detector gives and every byte text, a reader that splits the part at its empty line and decodes by the name on its Content-Transfer-Encoding line gets the text, without its final spaces for quoted-printable |
| Multipart.MessageReads | cone/cursesedit.C:3630-3650 | A reader that takes the boundary from the header gets the parts in order if and only if no part has a line that starts with the delimiter |
| TransferEncoding.QpReads | rfc822/encode.c:175-255 | Quoted-printable text, read by section 6.7 of RFC 2045 with rule (3), white space at the end of lines deleted, gives the text without the spaces at its very end |
| TransferEncoding.QpRoundTrip | rfc822/encode.c:175-255 | So it gives back the text if and only if that does not end in a space |
| TransferEncoding.QpHasNoMark | rfc822/encode.c:175-255 | Quoted-printable text never has an underscore after an equals sign |
| TransferEncoding.QpIsPrintable | rfc822/encode.c:175-255 | Whatever the text, what is sent is printable ASCII and line feeds |
| TransferEncoding.QpLines | rfc822/encode.c:193-233 | Lines are of 76 characters at most, as rule (5) of section 6.7 of RFC 2045 asks, if and only if wherever spaces end the line is not past column 74, or 73 before a line break, or 76 at the end of the text |
| TransferEncoding.QpSpacesStay | rfc822/encode.c:193-233 | So they are for every text without spaces; and a line of spaces is sent as one line, however long |
| TransferEncoding.Base64HasNoDash | rfc822/encode.c:99-171 | Base64 text has no dash |
| TransferEncoding.Base64Reads | rfc822/encode.c:99-171 | Base64 text, read by section 6.8 of RFC 2045, gives back every byte string |
| TransferEncoding.Base64Lines | rfc822/encode.c:99-171 | Its lines are of 76 characters at most |

## Left out

- Drawing, prompts, menus, colours, focus, help and status messages; servers, GnuPG, spell checking and
  password files.
- Character set conversion, which is the identity here, and the Unicode tables, which are parameters.
- Smart punctuation and macros while typing; search and replace; attaching and editing by an external
  program.
- Errors of the file system: reads and writes succeed. File positions are modelled.
- Integer widths, where nothing depends on them: counters and positions are unbounded. The 64-bit range
  numbers of a search are bounded.
- Editor.Editor.DeleteMarked: does not include the scroll that follows a cut, which is `GetCursorPosition`
  and proved there.
- Justifying.WordsJustified: is for a paragraph at the end of the document; the others take in the line after
  them (`cone/curseseditmessage.C:1042-1045`), and for those `Justifying.JustifiedText` says what comes out.
- Wrapping.WrapWell: is for texts without carriage returns and line feeds, which the editor and the formatter
  take from single lines; for others `WordWrap.WrapConserves` says what is kept.
- Editor.Editor.EnterKey: asks that no region is marked, as `processKeyInFocus` sees to; so do the
  other editing methods that it calls in that state.
- Editor.Editor.InsertKeyPos: smart punctuation and macros are not included.
- Editor.Editor.TrackMark: does not include the page keys, which it treats like the other movement keys, and
  the macro key, which keeps the mark.
- Editor.Editor.ProcessKey: does not include page keys, macros, and the keys that search, attach or leave the
  editor.
- MessageFormatter.FormattedTextDecodes: pieces are wrapped to the full width at every quote level, as in
  the code (`cone/cursesmessage.C:2111-2134`), so nothing is claimed about the width of quoted lines, marks
  included.
- Hierarchy.Entry.Clear: the list of children gets shorter as they are destroyed, where the code leaves
  nulls in it until the end. Nothing looks at the list in between.
- Copying a tree (`Entry::clone`), so the nesting level of an entry never changes; sorting folders; and
  iterators that stop early: the one that assigns rows never does.
- MessageStore.DisplayStore.GetLineImage: gives the line with its flags; splitting it by text attributes
  is not included. Positions in the index file are counted in records.
- MimeView.View.Grok: types and subtypes are in upper case, as the IMAP and mailbox drivers store them; the
  program that tells whether an external filter exists is a parameter.
- FilterSteps.SearchRoundTrip: what the stream library makes of malformed hexadecimal digits and numbers
  is modelled as GNU's library does it. Of that, `FilterSteps.StepsOfSavable` uses only that what comes out
  are bytes, and numbers that fit into 64 bits; the round trips use nothing of it.
- Nicknames.Import: the address parser and lower-casing are parameters.
- Multipart.Save: the encoding name comes from the detection in `rfc822/encodeautodetect.c`, which is a
  parameter, and so are host name, clock and character set name, which have no line breaks. Its last
  claim is for boundaries shorter than 998 characters and for base64 attachments without a line that
  starts with the boundary; `Multipart.SearchIsComplete` and `Multipart.Base64PartIsClean` say why.
- Message headers other than those of the parts.
