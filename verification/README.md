# Verified model of Recoll's text processing cores

This project models parts of Recoll in Dafny and proves properties of them, with the file and line
references of the repository's own layout. `dafny verify dfyconfig.toml` checks all of it.

* **MIME parser.** `LineEnds` is the line-end transducer and `InputSource` the 16384-slot ring over it, proved
  to read like an unbounded list, also over whole runs (`Reader`). `Matcher` is the circular-queue search.
  `HeaderText`, `MimeSpec` say what parsing means; `MimeParser` are the source's loops on the ring, proved
  against that. `Extents` and `GetBody` are about recorded offsets, `RoundTrip` and `ContentType` about
  rendering and parsing back, `EndToEnd` about all of it together.
* **Term splitter.** `SplitText` has characters and classes, `NGrams` and `NGramRuns` the n-gram splitter,
  `SpanSpec`, `SpanInvariant`, `SpanTerms` and `Agreement` the span machine, its invariant, its terms, and the
  agreement of index time and query time, `Acronyms` an invariant of acronyms, `TextBytes` that terms are
  stretches of the text. `TermRows` says which terms a span gives. `SpanWords` says of a text what its words,
  joined words and gaps are; `SpanLayout` proves that the machine finds just these, `SpanText`, `PlainText`,
  `GluedText` and `NumberText` what the terms of a text are, `SpanEdges` what happens at its special places.
  `Delivery` and `TextSplitter` prove the imperative splitter against them.
  `LongestFirst` and `Intervals` are the pass over the words of the Chinese tagger.
* **Highlighter.** `Highlight`, `HighlightProofs`, `HighlightChunks`, `HighlightMarks`.
* **Configuration.** `ConfTree`, `WordList`, `SuffixStore`, `RclConfig`: lookup, lists of words, cached lists and
  the suffix store.
* **Helper protocol.** `CmdTalk`, `CmdTalkRoundTrip`.
* **Metadata fields.** `Metadata`.

Byte strings are Dafny strings. `Common` has what several parts use. A relation with a quantifier over the
one-element type of `Closed` is known only by the lemma that says what it is; this keeps big definitions out of
proofs that do not need them.

## What the code needs, and where it does something else than it says

* A read that delivers a lone CR adds nothing to the ring, and the source then takes a stale slot for the next
  character. `GetChar` says exactly when; `Ready` asks that no such read comes (`NoStall`), and `StreamStalls`
  says which fixed-size streams have one.
* A header line without a colon is rewound in full, which the ring supports for 8191 characters. `ParseFits`
  asks this of just the lines where the parse comes to rewind; lines of bodies, folded fields and fields with a
  colon may be of any length. Section 2.1.1 of RFC 5322 limits lines to 998 characters.
* `if (!eof)` in the multipart parser tests the pointer, so the size of a found first delimiter is never set.
* The test for an empty line inside a header value never fires; `NoEmptyLine` proves it.
* A CR that ends the input is dropped.
* The boundary size of a message inside a message/rfc822 part is used for the body length and not passed on.
* getBody with a start beyond the body but inside the text wraps and reads the rest of the text.
* When only spans are wanted, the n-gram splitter loses a partly filled window at white space: exactly when the
  n-gram length does not divide the length of the run (`OnlySpansTileTheRun`, `LostBeforeSpace`).
* A word that follows a section of Tibetan, Thai, Lao or Burmese with nothing between loses its first letter to a
  span of its own (`FirstSplitOff`), the loop remembering the class of the section and not that of the character it
  goes on with. After a CJK section this is excepted (`WordGoesOn`).
* A field whose outer commas were taken off takes its first and last value for new (`AddedAfterTrim`).
* The highlighter's loop runs once more at the end of the text, its iterator giving the length of the text
  before it gives the end value: marks and line breaks at the end of the text come from that turn.
* A closing delimiter at the end of the text, with nothing, one character, or one line end and at most one
  character behind it, makes the last body end too early or too late: by how much, and which documents come
  back unchanged all the same, is in `SinglePartExact`, `RoundTrip` and `ReturnedSame`. The usual ending of a
  mail is one of these (`UsualEnding`).
* Highlight regions that touch lose the second start mark (`MarkedIffMarkable`). A name that is a proper end of a
  suffix is taken to have it (`RightIffNoEnd`). A message with twenty fields or more is read as several
  (`ReadBackIff`). A value that stands between commas in the values stored before it is not stored
  (`KeptIffNoneHidden`). Each of these lemmas is the exact condition.
* A suffix that ends another can hide it from lookup. That no two nest is exact over search trees of all shapes
  (`ApartIffRight`); for the tree of two nested suffixes the order of insertion decides (`MissedSuffix`,
  `NoneMissed`).

## Model

| member | source | states |
|---|---|---|
| `LineEnds.RunIsNorm` | `src/bincimapmime/mime-inputsource.h:102-122` | the character by character transducer with its remembered last character computes the specification: CRLF, LF and a lone CR each become CRLF, a CR that is the last character is dropped |
| `LineEnds.ChunkIndependence` | `src/bincimapmime/mime-inputsource.h:93-125` | the output is the same however the raw input is cut into reads, the last character being carried from one read to the next |
| `LineEnds.RunConcat` | `src/bincimapmime/mime-inputsource.h:102-122` | running over two pieces one after the other, the second from where the first left off, is running over both together |
| `LineEnds.RunLength` | `src/bincimapmime/mime-inputsource.h:93-125` | n raw characters give at most 2n + 1, the bound that makes a read of 4096 fit the ring with the rewind window |
| `LineEnds.AddsNothing` | `src/bincimapmime/mime-inputsource.h:102-122` | exactly which reads add nothing: the empty one and a single CR not after a CR |
| `LineEnds.NormPaired` | `src/bincimapmime/mime-inputsource.h:93-125` | in the output CR and LF stand only in CRLF pairs |
| `LineEnds.NormFixed` | `src/bincimapmime/mime-inputsource.h:93-125` | a text whose line ends are all CRLF is left alone |
| `LineEnds.NormIdempotent` | `src/bincimapmime/mime-inputsource.h:93-125` | normalising twice is normalising once |
| `InputSource.MimeInputSource.constructor` | `src/bincimapmime/mime-inputsource.h:71-82` | an empty ring at the start of the text |
| `InputSource.MimeInputSource.DeliverAll` | `src/bincimapmime/mime-inputsource.h:102-122` | the loop over one read appends exactly the normalised characters to what the ring holds |
| `InputSource.MimeInputSource.FillInputBuffer` | `src/bincimapmime/mime-inputsource.h:93-125` | a refill keeps the ring a window on the normalised text, adds at most 8193 characters, fails only at the end of the source, and says when it added nothing |
| `InputSource.MimeInputSource.GetChar` | `src/bincimapmime/mime-inputsource.h:148-156` | reads the character of the unbounded text at the offset, and is valid exactly when no read delivered only a lone CR at that point; after that the source's own code would return a stale character |
| `InputSource.MimeInputSource.Next` | `src/bincimapmime/mime-inputsource.h:148-156` | on a source that never stalls: the next character of the text or end of text, exactly as a list reader, with the rewind window moving along; no condition on the text |
| `InputSource.MimeInputSource.UngetChar` | `src/bincimapmime/mime-inputsource.h:158-162` | one character back, allowed as long as it is no more than 8191 behind the furthest one read and not before the start |
| `InputSource.MimeInputSource.UngetChars` | `src/bincimapmime/mime-parsefull.cc:139-140` | any number of characters back inside the window, as one step of the list reader |
| `InputSource.MimeInputSource.Reset` | `src/bincimapmime/mime-inputsource.h:127-134` | back to the start of the text, whatever the state before |
| `InputSource.MimeInputSource.Seek` | `src/bincimapmime/mime-inputsource.h:136-146` | the offset asked for, or the end of the text if that comes first, forwards or backwards |
| `InputSource.StreamStalls` | `src/bincimapmime/mime-inputsource.h:104-108` | a stream delivering fixed sizes has a read that adds nothing exactly when its last read is a lone CR after no CR |
| `Reader.Replay` | `src/bincimapmime/mime-inputsource.h:148-162` | for any raw input, any non-stalling reads and any mix of getChar and ungetChar that never gives back more than 8191 characters behind the furthest one read: exactly what a reader of the list gets |
| `Matcher.CompareStringToQueue` | `src/bincimapmime/mime-parsefull.cc:45-55` | true exactly when the circular queue read from `pos` spells the string |
| `Matcher.PushAndCompare` | `src/bincimapmime/mime-parsefull.cc:345-352` | one character into the queue, then the comparison: true exactly when the delimiter ends at this character, for a delimiter not beginning with NUL |
| `Matcher.FindEndFirst` | `src/bincimapmime/mime-parsefull.cc:313-359` | the specification: the end of the first occurrence, none exactly when there is no occurrence |
| `Matcher.SkipUntilBoundary` | `src/bincimapmime/mime-parsefull.cc:313-359` | the queue matcher over the ring stops just after the first occurrence in the rest of the text, and at the end of the text reporting failure exactly when there is none; an empty delimiter reads to the end |
| `HeaderText.AnalyzeHeader` | `src/bincimapmime/mime-parsefull.cc:213-271` | media type, message/rfc822 and boundary out of the first Content-Type field, by the source's loop over the elements |
| `HeaderText.ScanBoundary` | `src/bincimapmime/mime-parsefull.cc:251-269` | the loop over the elements of the field leaves the boundary of the last element that has one |
| `HeaderText.LastBoundarySnoc` | `src/bincimapmime/mime-parsefull.cc:251-269` | a later boundary parameter overrides an earlier one |
| `ContentType.FieldAnalysed` | `src/bincimapmime/mime-parsefull.cc:213-247` | a Content-Type field of any media type, in any letter case, with blanks anywhere between its parts, with or without parameters, quoted or not, behind any other fields: it is analysed as an enclosed message exactly when the type is message and the subtype rfc822, and as a multipart exactly when the type is multipart |
| `ContentType.BoundaryAnalysed` | `src/bincimapmime/mime-parsefull.cc:249-269` | the boundary is the value of the boundary parameter, the name in any letter case, the value quoted or as a token; parameters before and behind it change nothing |
| `ContentType.MultipartAnalysed` | `src/bincimapmime/mime-parsefull.cc:213-271` | a multipart field of the form of section 5.1 of RFC 2046, in any letter case and with any further parameters, is analysed as that multipart with exactly that boundary |
| `ContentType.NoBoundaryAnalysed` | `src/bincimapmime/mime-parsefull.cc:249-269` | without a boundary parameter the boundary stays empty |
| `ContentType.NoField` | `src/bincimapmime/mime-parsefull.cc:213-221` | without a Content-Type field the part is neither |
| `MimeParser.NoEmptyLine` | `src/bincimapmime/mime-parsefull.cc:166-173` | the four character queue never holds an empty line: the test on the previous character always ends the value first |
| `MimeParser.ReadName` | `src/bincimapmime/mime-parsefull.cc:134-149` | the name up to the first colon; a CR first rewinds the whole line. The one place that asks a line to fit the window, and only a line without a colon |
| `MimeParser.ReadValue` | `src/bincimapmime/mime-parsefull.cc:151-196` | the value up to the first line that is no continuation |
| `MimeParser.ParseOneHeaderLine` | `src/bincimapmime/mime-parsefull.cc:124-205` | on the ring: the field and position that the specification gives, all rewinds inside the window |
| `MimeParser.ParseHeader` | `src/bincimapmime/mime-parsefull.cc:208-212` | the loop over the header lines ends and gives the fields and body start of the specification |
| `MimeParser.PostBoundaryProcessing` | `src/bincimapmime/mime-parsefull.cc:365-433` | what follows a delimiter: closing dashes, a CRLF kept or given up to a delimiter that follows at once, end of file; the exact count of characters given back |
| `MimeParser.ParseSinglePart` | `src/bincimapmime/mime-parsefull.cc:513-592` | on the ring: delimiter search with its own queue loop, boundary size and clipped body length as specified |
| `MimeParser.ParseMultipart` | `src/bincimapmime/mime-parsefull.cc:435-511` | on the ring, with the test of the pointer `eof` that never assigns the size of the first delimiter |
| `MimeParser.ParseMessageRFC822` | `src/bincimapmime/mime-parsefull.cc:273-311` | on the ring: the enclosed message parsed with the same boundary |
| `MimeParser.DoParseFull` | `src/bincimapmime/mime-parsefull.cc:595-634` | on the ring: the part, position, boundary size and return value of the specification; terminates, every call that does not report the end having consumed something |
| `MimeParser.ParseFull` | `src/bincimapmime/mime-parsefull.cc:595-634` | a whole document from a fresh source: exactly the parse of the normalised text |
| `MimeSpec.Parse` | `src/bincimapmime/mime-parsefull.cc:595-634` | never before the start nor past the end, and a parse that does not report the end moves forward: why the part loop and the recursion end even with an empty boundary |
| `MimeSpec.ParseMembers` | `src/bincimapmime/mime-parsefull.cc:465-481` | the part loop ends and gives at least one part |
| `MimeSpec.AfterBoundary` | `src/bincimapmime/mime-parsefull.cc:365-433` | where the position can be after a delimiter, and that the size and the flags only grow |
| `MimeSpec.HeaderLine` | `src/bincimapmime/mime-parsefull.cc:124-205` | a line that says more lines follow has moved forward and is not at the end |
| `MimeSpec.ShortLinesFit` | `src/bincimapmime/mime-parsefull.cc:134-149` | what the parser asks of a text, that the header lines without a colon which this parse meets fit 8191 characters, holds of every text where no stretch before a CR and without a colon is longer; all other lines may have any length |
| `Extents.DelimiterStart` | `src/bincimapmime/mime-parsefull.cc:365-433` | when the input is not cut short after it, offset minus boundary size is the start of the delimiter; when it is cut short the two differ by between -2 and +3, depending only on how much of the trailing marker is there |
| `Extents.SinglePartExact` | `src/bincimapmime/mime-parsefull.cc:549-589` | for every text and delimiter found: end of file exactly when cut short, and the body length is the distance from the header to the delimiter exactly when there is no slip, or a negative one clipped away |
| `Extents.ParseLaysOut` | `src/bincimapmime/mime-parsefull.cc:595-634` | every parse of every text is laid out: body start is header start plus header length, each body ends by where its part's parse returned, members lie inside, at every depth |
| `Extents.MembersLieInOrder` | `src/bincimapmime/mime-parsefull.cc:465-481` | siblings lie in order: each one with all it holds ends by where the next one begins, the last by where the part loop stopped |
| `Extents.MembersFollow` | `src/bincimapmime/mime-parsefull.cc:465-481` | the first sibling's header begins where the part loop started, each other one's where the parse of the one before it returned |
| `Extents.SiblingsDisjoint` | `src/bincimapmime/mime-parsefull.cc:465-481` | of any two siblings the earlier one's body ends before the later one begins |
| `Extents.MultipartEnd` | `src/bincimapmime/mime-parsefull.cc:483-509` | where the body of a multipart ends by its recorded length, and that its last member's parse returned before the outer delimiter |
| `Extents.MembersInBody` | `src/bincimapmime/mime-parsefull.cc:483-509` | when the outer delimiter is found and not cut short: the recorded body of the multipart ends where that delimiter starts, and the members lie in order between the first delimiter and that end |
| `Extents.LeafBodyReadsBack` | `src/bincimapmime/mime-printbody.cc:35-50` | the recorded extent of a leaf, read back, is the text between its header and its delimiter |
| `Extents.SinglePartCutOff` | `src/bincimapmime/mime-parsefull.cc:549-592` | without the delimiter in the rest of the text the body goes to the end of the text, and the end is reported |
| `Extents.LeafCutOff` | `src/bincimapmime/mime-printbody.cc:35-50` | such a leaf, read back, gives all the text behind its header |
| `Extents.FirstDelimiterMissing` | `src/bincimapmime/mime-parsefull.cc:435-463` | a multipart whose first delimiter is missing: no parts, the end is reported, and the body is the rest of the text less the caller's boundary size, which is 0 in a document and in a multipart |
| `Extents.OuterDelimiterMissing` | `src/bincimapmime/mime-parsefull.cc:483-509` | a multipart whose outer delimiter is missing: the parts that were found, the end is reported, and the body is the rest of the text less the boundary size that the last part left |
| `Extents.MessageEnd` | `src/bincimapmime/mime-parsefull.cc:273-311` | the body of a part that encloses a message ends where the body of the message does, or, around a message that itself encloses one, where the parse returned |
| `GetBody.GetBody` | `src/bincimapmime/mime-printbody.cc:35-50` | from any state of the reader, even an inconsistent one: reset, seek and bounded copy append the piece of the text that the 32-bit arithmetic asks for |
| `GetBody.BodyReadExact` | `src/bincimapmime/mime-printbody.cc:38-41` | that piece is the part of the body asked for exactly when the start lies in the body or past the end of the text; otherwise the length wraps and the rest of the text is read |
| `RoundTrip.HeaderParsed` | `src/bincimapmime/mime-parsefull.cc:124-205` | any non-empty list of fields with trimmed values, each on one line or folded over several, is read back field by field, and the body begins after the empty line |
| `RoundTrip.NoColonLine` | `src/bincimapmime/mime-parsefull.cc:134-149` | a line without a colon ends the header and is left to the body |
| `RoundTrip.NameCutOff` | `src/bincimapmime/mime-parsefull.cc:134-149` | a text that ends inside a name gives a field without a value |
| `RoundTrip.ValueCutOff` | `src/bincimapmime/mime-parsefull.cc:151-205` | a text that ends inside a value gives what there is of it but for the last two characters, and takes off no blanks |
| `RoundTrip.ParseShows` | `src/bincimapmime/mime-parsefull.cc:435-634` | any well formed part, nested to any depth, multipart or message/rfc822, followed by its delimiter, is parsed into the tree it was rendered from, the end of its body being off by exactly the slip of the delimiter, and the parser stops where the rest begins |
| `RoundTrip.KidsShow` | `src/bincimapmime/mime-parsefull.cc:465-481` | the part loop reads any number of rendered parts back in order, only the last one being touched by the slip of the closing delimiter |
| `RoundTrip.DocumentShows` | `src/bincimapmime/mime-parsefull.cc:595-634` | the same for a document that ends the text, whatever follows its closing delimiter |
| `RoundTrip.RoundTrip` | `src/bincimapmime/mime-parsefull.cc:595-634` | for every well formed tree of parts, with any epilogue, and every raw input that normalises to its rendering: the parse has the header fields, bodies and nesting of the tree, but for the last body when the text ends inside what may belong to the closing delimiter; it is the tree exactly when the document is intact |
| `RoundTrip.ReturnedSame` | `src/bincimapmime/mime-parsefull.cc:365-433` | intact, which is read off the tree, is exactly when the document that comes back is the one that was written: enough follows the closing delimiter, or the last part is a multipart, or it is empty and would only lose characters |
| `RoundTrip.UsualEnding` | `src/bincimapmime/mime-parsefull.cc:365-433` | a message whose closing delimiter is followed by one line end and nothing else: the last body gets a line end too many, all else comes back |
| `EndToEnd.Bodies` | `src/bincimapmime/mime-printbody.cc:35-50` | from any state of the reader, getBody over the parsed parts gives the bodies of all leaves in order |
| `EndToEnd.ReadDocument` | `src/bincimapmime/mime-parsefull.cc:595-634` | source, parser and getBody together: whatever reads the raw input comes in, the parse and the bodies read back are those of the tree it renders, with the last body as `RoundTrip` says |
| `NGrams.CJKSplitter.Shift` | `src/common/cjksplitter.cpp:93-98` | shifting both offset arrays drops the oldest character |
| `NGrams.CJKSplitter.Push` | `src/common/cjksplitter.cpp:89-107` | the arrays and the local buffer describe the last characters of the text, at most the n-gram length of them |
| `NGrams.CJKSplitter.Emit` | `src/common/cjksplitter.cpp:109-127` | the grams that end with the newest character, by output mode, cut out of the local buffer |
| `NGrams.CJKSplitter.TextToWords` | `src/common/cjksplitter.cpp:44-155` | the whole section: terms, next character and position of the specification, in all modes |
| `NGrams.SectionAdvances` | `src/common/cjksplitter.cpp:60-138` | a section consumes at least its first character and never goes back |
| `NGramRuns.RunGivesAllGrams` | `src/common/cjksplitter.cpp:60-138` | in the indexing mode a run of characters, whatever ends it, gives exactly its substrings of length 1 to n, each at start position plus index with exact byte offsets, then what the section gives after the white space, the position being advanced by the length of the run |
| `NGramRuns.SectionGivesAllGrams` | `src/common/cjksplitter.cpp:60-138` | a whole section in the indexing mode, white space included: exactly its stretches of 1 to n characters without white space, each at the start position plus the number of such characters before it |
| `NGramRuns.OnlySpansTileTheRun` | `src/common/cjksplitter.cpp:60-151` | when only spans are wanted: a run that ends the section is tiled by pieces of n characters, the last shorter; of a run before white space only the full pieces are given, which is all of the tiling exactly when n divides the length of the run |
| `NGramRuns.LostBeforeSpace` | `src/common/cjksplitter.cpp:80-86` | a run that is lost: one character, then a space, with n = 2 |
| `NGramRuns.TilesCover` | `src/common/cjksplitter.cpp:112-151` | the tiles leave no gap and do not overlap |
| `NGramRuns.SectionGivesCharacters` | `src/common/cjksplitter.cpp:109-127` | when single words are wanted a section gives its characters that are no white space, one by one at consecutive positions |
| `NGramRuns.GramIsText` | `src/common/cjksplitter.cpp:118-127` | trimming takes nothing off a gram without blanks: its word is the text |
| `NGramRuns.SectionAgrees` | `src/common/cjksplitter.cpp:60-151` | for any text, every term of a section in any mode is one of the indexing mode, same position and offsets; next character and position do not depend on the mode |
| `SpanInvariant.TurnKept` | `src/common/textsplit.cpp:678-1050` | every turn of the main loop keeps the invariant: the current word ends the span, words are in order, apart and inside it, position is span position plus non-empty words, and finished spans have rising positions |
| `SpanInvariant.OnCharKept` | `src/common/textsplit.cpp:773-1047` | the same for each class of character |
| `SpanInvariant.DotKept` | `src/common/textsplit.cpp:877-928` | the same for all cases of a dot, the consumed lookahead included |
| `SpanInvariant.PlusMinusKept` | `src/common/textsplit.cpp:828-875` | the same for plus and minus signs |
| `SpanInvariant.EraseKeeps` | `src/common/textsplit.cpp:565-615` | ending a span gives a well formed span and an empty state |
| `SpanInvariant.RunRises` | `src/common/textsplit.cpp:678-1055` | over a whole text all finished spans are well formed and their positions rise |
| `SpanTerms.WordTermsApart` | `src/common/textsplit.cpp:459-467` | two stretches of words of one span never have both the same position and the same length |
| `SpanTerms.SpanDropsNothing` | `src/common/textsplit.cpp:459-467` | in every mode the (position, length) duplicate check drops nothing of a finished span; when only spans are wanted this takes what `RunSpelled` says of acronyms |
| `SpanTerms.NothingDropped` | `src/common/textsplit.cpp:459-467` | the check drops nothing from any list of terms no two of which clash |
| `Agreement.DropsNothing` | `src/common/textsplit.cpp:459-467` | nor from any run of spans with rising positions, in any mode |
| `Agreement.NoDuplicates` | `src/common/textsplit.cpp:427-468` | for every text and every mode: what is delivered is everything that passes the other checks, the duplicate check never dropping a term |
| `Acronyms.RunSpelled` | `src/common/textsplit.cpp:471-499` | over a whole text: every finished span that is an acronym ends one byte after its last word, so that its letters are never as many as the bytes of the whole |
| `Acronyms.OnCharKept` | `src/common/textsplit.cpp:773-1047` | every class of character keeps the invariant behind that: while letters and dots alternate, the span is no number from the third byte on and each dot is glue behind a remembered word |
| `Agreement.AtomicWords` | `src/common/textsplit.cpp:533-549` | in single word mode a span gives its words in text order at consecutive positions, each with the bytes of the span between its offsets there |
| `TermRows.RowsIff` | `src/common/textsplit.cpp:533-549` | in the indexing mode a term is given by the words of a span exactly when it is, for some i <= j, the bytes from the first of word i to the last of word j, at the position of word i, with those byte offsets |
| `TermRows.WholeRow` | `src/common/textsplit.cpp:533-549` | when only spans are wanted: one term, from the first word to the last; none when single words are wanted too and there are several |
| `TermRows.SingleRows` | `src/common/textsplit.cpp:533-549` | when single words are wanted: one term for each, in order |
| `TermRows.OfferedIff` | `src/common/textsplit.cpp:471-549` | all that a span offers in the indexing mode: its rows of words, the letters of an acronym, and two hyphenated words as one |
| `TermRows.PassesIff` | `src/common/textsplit.cpp:440-457` | the length check: at least one character and at most as many as allowed, and no single byte but an ASCII letter or digit, or what the configuration takes for one |
| `SpanLayout.WordLeads` | `src/common/textsplit.cpp:773-1047` | the characters of a word, as `SpanWords.Word` says of the text what a word is, give no event and leave the machine with the word and whether it is a number |
| `SpanLayout.JoinStep` | `src/common/textsplit.cpp:860-950` | a character that joins the word to the next: the span goes on with it, or is finished first when it has as many words as allowed |
| `SpanLayout.LastWord` | `src/common/textsplit.cpp:794-818` | any other end of a word finishes the span there, a full stop being part of it |
| `SpanLayout.GapLeads` | `src/common/textsplit.cpp:794-950` | a stretch of separators gives no words |
| `SpanLayout.LaidGives` | `src/common/textsplit.cpp:678-1055` | a text that is laid out in words, joining characters and gaps, all said of the text alone, gives exactly the spans of its layout, in order and at consecutive positions, in every configuration |
| `SpanText.LaidTerms` | `src/common/textsplit.cpp:657-1056` | the terms of such a text in each mode are those of its spans |
| `SpanText.IndexedIff` | `src/common/textsplit.cpp:657-1056` | in the indexing mode a term is given exactly when it passes the length check and is a row of words, the acronym or the hyphenated pair of one of the spans |
| `PlainText.PlainTerms` | `src/common/textsplit.cpp:657-1056` | a text of runs of letters and digits between separators: in every mode the terms are exactly the runs that pass the length check, in order, at consecutive positions, at their byte offsets; numbers are left out when not wanted |
| `PlainText.RunsIff` | `src/common/textsplit.cpp:1039-1046` | those runs are all the stretches of letters and digits that nothing extends |
| `PlainText.RunsInOrder` | `src/common/textsplit.cpp:678-1047` | and they are in text order, with something between any two |
| `GluedText.NotCut` | `src/common/textsplit.cpp:565-615` | a span with no more words than allowed is the text from its first character to its last, with its words at their offsets |
| `GluedText.TextIff` | `src/common/textsplit.cpp:533-549` | said of the text alone, in the indexing mode: exactly the stretches of text from any word of a span to any later one of it, the letters of acronyms and two words without their hyphen, those that pass the length check, at positions that count the words |
| `GluedText.TextModes` | `src/common/textsplit.cpp:533-549` | the same in the other modes, in order: single words, or whole spans |
| `NumberText.GluedRunsJoined` | `src/common/textsplit.cpp:860-950` | runs of letters and digits around at-signs, underscores, quotes, hyphens and dots are the words of one span; a dot joins no number, a hyphen none unless configured |
| `NumberText.GluedTerms` | `src/common/textsplit.cpp:657-1056` | a text of such runs with separators around: in the indexing mode exactly the stretches from any run to any later one, and the letters of an acronym or the pair without hyphen |
| `NumberText.GluedWords` | `src/common/textsplit.cpp:657-1056` | the same text in the other modes |
| `NumberText.SignedNumber` | `src/common/textsplit.cpp:828-838` | a sign before digits belongs to the number |
| `NumberText.DecimalPoint` | `src/common/textsplit.cpp:877-917` | digits around a dot are one number, also with nothing before the dot |
| `NumberText.Exponent` | `src/common/textsplit.cpp:839-846` | an exponent with a sign is part of the number, unless hyphens join numbers |
| `NumberText.NumberSign` | `src/common/textsplit.cpp:952-970` | a number sign before a word belongs to it, and one behind it before a separator |
| `NumberText.TwoPlusSigns` | `src/common/textsplit.cpp:847-857` | two plus signs at the end of a word belong to it |
| `NumberText.DotEnds` | `src/common/textsplit.cpp:889-904` | a dot after a word, no letter or digit following, ends the span as its last character |
| `SpanEdges.SignIndexed` | `src/common/textsplit.cpp:810-818` | a separator that is indexed as punctuation is a term and takes a position |
| `SpanEdges.SignAfterWord` | `src/common/textsplit.cpp:794-818` | after a word it ends the span first |
| `SpanEdges.SoftHyphen` | `src/common/textsplit.cpp:774-983` | a soft hyphen and a line break after it are passed over, the word goes on |
| `SpanEdges.SectionThenWord` | `src/common/textsplit.cpp:706-751` | a letter or digit just after an n-gram section begins a word at the position the section reached |
| `SpanEdges.WordGoesOn` | `src/common/textsplit.cpp:753-769` | after a CJK section the next letter or digit goes on with that word |
| `SpanEdges.FirstSplitOff` | `src/common/textsplit.cpp:753-769` | after a section of Tibetan, Thai, Lao or Burmese it does not: the first letter is a span by itself |
| `SpanEdges.WordThenSection` | `src/common/textsplit.cpp:706-751` | a section just after a word ends the span and begins at the position after its words |
| `SpanEdges.SectionThenGap` | `src/common/textsplit.cpp:706-751` | a separator after a section: the next word is at the position the section reached |
| `SpanEdges.GlueDropped` | `src/common/textsplit.cpp:921-950` | a second joining character is dropped, the span going on as if it were not there |
| `SpanEdges.GlueEnds` | `src/common/textsplit.cpp:794-950` | a separator after a joining character ends the span, the joining character being its last |
| `TextBytes.TermsAreText` | `src/common/textsplit.cpp:518-545` | in every mode, a word or row of words of any span of any text is the text's own bytes between the byte offsets given with it, unless the stretch of the span has a character that a span may lose: a skipped one, a line break after a soft hyphen, or a glue character that is no sign, stands behind neither letter nor digit and does not end the span; characters before a span has begun do not count, so leading dots and signs are covered |
| `TextBytes.NotBegun` | `src/common/textsplit.cpp:907-928` | at the start of the text and behind white space no character counts as lost: a dot or sign that begins a span there is kept |
| `TextBytes.RunPlaced` | `src/common/textsplit.cpp:678-1055` | over a whole text, every finished span into whose stretch no such character reaches is the text just before its end |
| `TextBytes.OnCharKept` | `src/common/textsplit.cpp:773-1047` | each class of character keeps the span under construction the text just before it, or makes the stretch one that need not be |
| `Agreement.ModesAgree` | `src/common/textsplit.cpp:657-1056` | index and query agreement: for every text and mode, every term delivered is delivered in indexing mode too, with the same position and byte offsets, over spans and n-gram sections together |
| `TextSplitter.TextSplit.EmitTerm` | `src/common/textsplit.cpp:427-468` | the checks on length, single bytes and duplicates, then the consumer |
| `TextSplitter.TextSplit.SpanIsInitials` | `src/common/textsplit.cpp:471-499` | true exactly for an even span of 4 to 20 bytes of letters each followed by a dot, and then the letters |
| `TextSplitter.TextSplit.EmitFromWord` | `src/common/textsplit.cpp:536-546` | the inner loop gives the stretches of words from one word, in order, by mode |
| `TextSplitter.TextSplit.EmitWords` | `src/common/textsplit.cpp:533-549` | the outer loop over the words, an empty word taking no position |
| `TextSplitter.TextSplit.WordsFromSpan` | `src/common/textsplit.cpp:502-551` | all terms of a finished span but the acronym, the dehyphenated word first |
| `TextSplitter.TextSplit.DoEmit` | `src/common/textsplit.cpp:565-606` | state and delivered terms at the end of a word or span |
| `TextSplitter.TextSplit.DiscardSpan` | `src/common/textsplit.cpp:608-615` | the state after a span |
| `TextSplitter.TextSplit.OnSpace` | `src/common/textsplit.cpp:794-819` | white space ends the span; an indexed punctuation sign takes a position |
| `TextSplitter.TextSplit.OnPlusMinus` | `src/common/textsplit.cpp:828-875` | numbers, c++, dashes |
| `TextSplitter.TextSplit.OnDot` | `src/common/textsplit.cpp:877-928` | decimal point, end of a sentence or abbreviation, leading dot, glue |
| `TextSplitter.TextSplit.OnLink` | `src/common/textsplit.cpp:930-950` | quotes, at-signs, underscores and hyphens as glue |
| `TextSplitter.TextSplit.OnSharp` | `src/common/textsplit.cpp:952-973` | number signs at either end of a word |
| `TextSplitter.TextSplit.DoSection` | `src/common/textsplit.cpp:709-746` | the n-gram splitter takes over and the state is reset but for the position |
| `TextSplitter.TextSplit.OnScriptChange` | `src/common/textsplit.cpp:753-769` | a change of script ends the span, except just after a CJK section |
| `TextSplitter.TextSplit.DoTurn` | `src/common/textsplit.cpp:678-1050` | one turn of the loop changes the state and delivers terms as the span machine says |
| `TextSplitter.TextSplit.TextToWords` | `src/common/textsplit.cpp:657-1056` | the whole method delivers, in order, exactly the terms that the theorems of Agreement are about |
| `TextSplitter.IndexAndQuery` | `src/common/textsplit.cpp:657-1056` | two splitters over one text: every term of the one with a query-time mode is a term of the indexing one |
| `LongestFirst.Sort` | `src/common/cnsplitter.cpp:249-251` | any list is put in order of start, the longest first, without losing or adding anything |
| `Intervals.Process` | `src/common/cnsplitter.cpp:254-282` | the pass over the sorted words delivers the terms of the specification; the position ends one past the start plus the number of distinct non-zero starts |
| `Intervals.TextToWords` | `src/common/cnsplitter.cpp:247-282` | sort and pass, for any list the tagger answers |
| `Intervals.SpanIffMaximal` | `src/common/cnsplitter.cpp:261-275` | a word is given as a span exactly when it is not empty at 0 and no other word contains it, later duplicates not counting |
| `Intervals.EachMaximalOnce` | `src/common/cnsplitter.cpp:249-275` | whatever the order of the input, the spans are exactly the intervals contained in no different one, each of them once |
| `Intervals.CoveredLiesInSpan` | `src/common/cnsplitter.cpp:268-275` | every other word lies inside a span given before it |
| `Intervals.OnlySpansAgrees` | `src/common/cnsplitter.cpp:261-275` | the terms in either mode: spans, or all words, each at the start position plus the number of distinct non-zero starts up to it, so that the mode changes nothing about the terms it keeps |
| `Intervals.EmptyWordAtStart` | `src/common/cnsplitter.cpp:261-275` | the excluded case: a word of no length at 0 is neither a span nor inside one |
| `Highlight.PlainToRich.DoMark` | `src/common/plaintorich.cpp:267-285` | marks at the start and end of the next region, and skipping of the regions that overlap it |
| `Highlight.PlainToRich.DoBreaks` | `src/common/plaintorich.cpp:300-322` | at most two line breaks, then maybe a new chunk |
| `Highlight.PlainToRich.DoChar` | `src/common/plaintorich.cpp:289-378` | line break counting and escaping |
| `Highlight.PlainToRich.Loop` | `src/common/plaintorich.cpp:254-380` | the loop, with the turn that the iterator (`src/utils/utf8iter.h:90-103`) gives it at the end of the text: the chunks of the specification |
| `Highlight.PlainToRich.Rich` | `src/common/plaintorich.cpp:190-380` | sorting, the loop and the last chunk: the chunks of the specification for the sorted regions |
| `HighlightProofs.TextComesBack` | `src/common/plaintorich.cpp:254-378` | for every text and any regions: taking away marks and headers and undoing the escapes gives the input with its line breaks normalised, those that end the text included |
| `HighlightProofs.OnlyBreaksDiffer` | `src/common/plaintorich.cpp:289-322` | that text and the input differ in line breaks only |
| `HighlightProofs.LastBreaksKept` | `src/common/plaintorich.cpp:300-322` | a text that ends in line breaks comes out with one or two of them at its end |
| `HighlightProofs.PendingBreaks` | `src/common/plaintorich.cpp:289-299` | the two flags count the line breaks just before the next character, a CR and LF pair being one |
| `HighlightProofs.UnescapeAll` | `src/common/plaintorich.cpp:325-351` | escaping can be undone |
| `HighlightProofs.EscapedIsText` | `src/common/plaintorich.cpp:325-351` | no text of the input comes out as markup: no tag is opened, and every ampersand begins an escape |
| `HighlightChunks.ChunksSized` | `src/common/plaintorich.cpp:300-322` | every chunk but the last is larger than the chunk size and ends with a group of line breaks outside a region; every smaller prefix of a chunk that ends so is no larger than the size |
| `HighlightChunks.ChunksHeaded` | `src/common/plaintorich.cpp:190-380` | each chunk begins with the heading of its number and has no other |
| `HighlightMarks.MarkedIffMarkable` | `src/common/plaintorich.cpp:254-285` | the marks are those of the greedy choice of disjoint regions exactly when its regions are not empty, go from a character to a character or to the end of the text, and none begins where the one before it ends |
| `HighlightMarks.GreedyLeavesOut` | `src/common/plaintorich.cpp:148-156` | in the order of the sort the greedy choice leaves out only regions that begin inside a chosen one |
| `HighlightMarks.OutputIsWoven` | `src/common/plaintorich.cpp:254-380` | whatever the regions and the chunk size, the chunks together are the escaped text with each mark before the character it belongs to, or at the end of the text |
| `HighlightMarks.GreedyIsMarked` | `src/common/plaintorich.cpp:254-380` | under that condition these are just the marks of the greedy choice |
| `HighlightMarks.ChunksAlternate` | `src/common/plaintorich.cpp:312-321` | under that condition the marks alternate in every chunk, beginning and ending a region: no chunk cuts a marked one |
| `HighlightMarks.TouchingRegions` | `src/common/plaintorich.cpp:267-285` | two regions that touch: the second gets an end mark and no start mark |
| `HighlightMarks.Highlighted` | `src/common/plaintorich.cpp:190-380` | the whole highlighter on any text, regions and chunk size: the text comes back, the chunks are cut where the size says and not before, each has its heading, and when no two regions touch the marks stand exactly at the regions |
| `ConfTree.NowhereIsEmpty` | `src/utils/conftree.cpp:741-827` | a variable that hasNameAnywhere does not see has no value in any directory, in any stack of files |
| `ConfTree.ClimbFinds` | `src/utils/conftree.cpp:792-827` | a value found by climbing towards the root is also found by asking for its own section |
| `ConfTree.NearestWins` | `src/utils/conftree.cpp:792-827` | the value of the nearest directory that has one wins |
| `ConfTree.DirectoryWins` | `src/utils/conftree.cpp:792-827` | for a directory, written with or without a slash at its end, the nearest section wins; other keys are looked up as they are |
| `ConfTree.FirstFileWins` | `src/utils/conftree.cpp:792-827` | and that of the first file of the stack |
| `WordList.ListReadBack` | `src/utils/smallut.cpp:281-387` | any list of words written with blanks between them, with or without quotes, quotes and backslashes escaped, is read back as that list |
| `WordList.UnfinishedLost` | `src/utils/smallut.cpp:281-387` | a quoted word that is not finished is lost |
| `WordList.LowerReadBack` | `src/common/rclconfig.cpp:1202-1209` | a written list put in lower case is read as its words in lower case |
| `WordList.InLists` | `src/common/rclconfig.cpp:1060-1077` | from three written lists: exactly what is in the plus list, or in the base list and not in the minus list |
| `RclConfig.SkippedIff` | `src/common/rclconfig.cpp:2021-2030` | a name is skipped exactly when it is in the plus list, or in the base list and not in the minus list, as these stand written for the directory |
| `RclConfig.StopIff` | `src/common/rclconfig.cpp:1079-1110` | the same for the suffixes, or the words of the obsolete variable when it has a value |
| `RclConfig.TypesAre` | `src/common/rclconfig.cpp:1202-1209` | the MIME types are the words of their variables in lower case, in order |
| `RclConfig.ParamStale.constructor` | `src/common/rclconfig.cpp:179-191` | nothing fetched yet, and whether the configuration has the variables at all |
| `RclConfig.ParamStale.NeedRecompute` | `src/common/rclconfig.cpp:301-326` | afterwards the saved values are those for the current directory, despite the generation check and the inactive flag, and the answer says exactly whether they changed |
| `RclConfig.RclConfig.SetKeyDir` | `src/common/rclconfig.cpp:813-825` | the directory changes, and every cached list stays what its saved values give |
| `RclConfig.RclConfig.GetSkippedNames` | `src/common/rclconfig.cpp:2021-2030` | the cached list is what a fresh computation for the current directory gives |
| `RclConfig.RclConfig.GetMimeTypes` | `src/common/rclconfig.cpp:1202-1209` | the same for the allowed and the excluded MIME types |
| `RclConfig.RclConfig.GetStopSuffixes` | `src/common/rclconfig.cpp:1079-1110` | the same for the suffixes, from two configurations, the obsolete variable having priority |
| `RclConfig.RclConfig.InStopSuffixes` | `src/common/rclconfig.cpp:1112-1134` | when no suffix ends another one: found exactly when the name has a suffix or is a proper end of one |
| `RclConfig.Run` | `src/common/rclconfig.cpp:813-825` | in every run of directory changes and questions over one configuration, every answer equals a fresh computation for the directory then in force |
| `SuffixStore.SuffCmp` | `src/common/rclconfig.cpp:114-128` | the comparison loop decides by the last place where the two differ, counting from the ends |
| `SuffixStore.SameEnd` | `src/common/rclconfig.cpp:101-111` | the equality loop says whether one of the two ends the other |
| `SuffixStore.UnorderedIffSuffix` | `src/common/rclconfig.cpp:114-128` | neither of two names comes first exactly when one ends the other |
| `SuffixStore.Transitive` | `src/common/rclconfig.cpp:114-128` | the comparison is transitive on all strings |
| `SuffixStore.Asymmetric` | `src/common/rclconfig.cpp:114-128` | and asymmetric |
| `SuffixStore.StrictOrder` | `src/common/rclconfig.cpp:114-131` | on suffixes none of which ends another it is a strict total order |
| `SuffixStore.FindIff` | `src/common/rclconfig.cpp:1124-1131` | in a search tree of any shape over such suffixes, lookup succeeds exactly when a stored suffix ends the name or the name ends a stored suffix |
| `SuffixStore.InStoreIff` | `src/common/rclconfig.cpp:1119-1131` | the same for the lower-cased, truncated name |
| `SuffixStore.RightIffNoEnd` | `src/common/rclconfig.cpp:1119-1131` | the lookup answers whether some suffix ends the name exactly when the name is not a proper end of a suffix |
| `SuffixStore.Build` | `src/common/rclconfig.cpp:1099-1106` | the store is ordered, has the lower-cased suffixes, and the length kept is no less than any of theirs |
| `SuffixStore.MissedSuffix` | `src/common/rclconfig.cpp:1099-1131` | for any two suffixes of which the one stored second ends the other: of the names that it ends, lookup misses exactly those that come before the other suffix in the order of the store |
| `SuffixStore.NoneMissed` | `src/common/rclconfig.cpp:1099-1131` | stored the other way round, the shorter one first, the same two suffixes are looked up right for every name |
| `SuffixStore.NestedHides` | `src/common/rclconfig.cpp:1124-1131` | for any set of suffixes and any nested pair in it, some search tree over the set hides the shorter one from a name that it ends |
| `SuffixStore.ApartIffRight` | `src/common/rclconfig.cpp:114-131` | with a character in no suffix: search trees of all shapes over a set of suffixes answer every name as they should exactly when no suffix ends another one |
| `CmdTalk.CmdTalk.BreakWrite` | `src/filters/cmdtalk.py:39-57` | the pieces written concatenate to the data, each of 1 to 4096 bytes on the platform that needs pieces |
| `CmdTalk.CmdTalk.Answer` | `src/filters/cmdtalk.py:145-161` | each field as a line with name and size and the data, then an empty line |
| `CmdTalk.CmdTalk.ReadParam` | `src/filters/cmdtalk.py:100-142` | one parameter, end of input or an unusable line, and the input left |
| `CmdTalk.CmdTalk.ReadMessage` | `src/filters/cmdtalk.py:183-193` | at most twenty parameters, up to an empty name |
| `CmdTalk.CmdTalk.MainLoop` | `src/filters/cmdtalk.py:183-201` | all messages of any input, and what ended the loop; it terminates |
| `CmdTalk.DigitsOfDec` | `src/filters/cmdtalk.py:124-124` | a size written in decimal is read back |
| `CmdTalkRoundTrip.ItemReadBack` | `src/filters/cmdtalk.py:100-148` | a field with a good name and arbitrary data is read back, leaving what follows |
| `CmdTalkRoundTrip.WireReadBack` | `src/filters/cmdtalk.py:145-201` | for any messages of any numbers of fields, what is written is read back as exactly these messages, each cut after every twentieth field |
| `CmdTalkRoundTrip.ReadBackIff` | `src/filters/cmdtalk.py:183-201` | the sequence comes back as sent exactly when every message has at most nineteen fields |
| `CmdTalkRoundTrip.SetHasFields` | `src/filters/cmdtalk.py:183-193` | the dictionary read has the distinct fields of the message and no others |
| `CmdTalkRoundTrip.CutInData` | `src/filters/cmdtalk.py:119-130` | input that ends inside the data of a field: the messages before are read, the one that was begun is lost, and the program ends with a failure |
| `CmdTalkRoundTrip.CutBetween` | `src/filters/cmdtalk.py:100-115` | input that ends between two fields: the message that was begun is lost without a failure |
| `CmdTalkRoundTrip.NegativeSize` | `src/filters/cmdtalk.py:117-119` | a parameter whose size is not positive has no data |
| `CmdTalkRoundTrip.BadLine` | `src/filters/cmdtalk.py:108-118` | a line that is not empty and has not just a name and a number stops the program |
| `CmdTalkRoundTrip.Exchange` | `src/filters/cmdtalk.py:145-201` | the same through the writing and the reading loops |
| `Metadata.Doc.AddMeta` | `src/common/rclutil.cpp:98-125` | one value added to one field, the others unchanged, by the source's cases |
| `Metadata.Doc.AddAll` | `src/common/rclutil.cpp:98-125` | any sequence of values without commas at their ends, added to an absent field: what is stored, and that it is all the distinct values in the order first seen exactly when each value that occurs between commas when it is added was added before |
| `Metadata.Doc.TrimMeta` | `src/common/rclutil.cpp:126-136` | every field loses one comma at each end |
| `Metadata.AddedUnlessHidden` | `src/common/rclutil.cpp:110-123` | for any stored values: adding a value without commas at its ends appends it exactly when it does not occur between commas in the stored string, and else changes nothing |
| `Metadata.AddedAfterTrim` | `src/common/rclutil.cpp:110-123` | a value added to a trimmed field is taken for new unless it is one of the inner values: the first and the last are stored again |
| `Metadata.OuterCommas` | `src/common/rclutil.cpp:90-123` | commas at the ends of a value make no difference |
| `Metadata.KeptIffNoneHidden` | `src/common/rclutil.cpp:98-125` | the exact condition for no value to be lost, over any list of values |
| `Metadata.OccursIffStored` | `src/common/rclutil.cpp:116-116` | the substring test is membership: a value between commas occurs exactly when it is one of those stored |
| `Metadata.AddedIsUnion` | `src/common/rclutil.cpp:98-125` | among comma-free values a value is hidden exactly when it is stored, and adding is set union |
| `Metadata.FirstSeenIs` | `src/common/rclutil.cpp:98-125` | the list has every value, once |
| `Metadata.TrimmedStored` | `src/common/rclutil.cpp:126-136` | trimming leaves the values with commas between them, whatever the values |
| `Metadata.ValuesReadBack` | `src/common/rclutil.cpp:126-136` | from the trimmed field the values can be had back |
| `Metadata.FieldOf` | `src/common/rclutil.cpp:90-136` | adding values one by one and trimming gives those that come to be stored, with commas between them; comma-free ones can all be had back |
| `Metadata.CommaHidesValue` | `src/common/rclutil.cpp:116-116` | any value hides what stands in it behind a comma |

## Left out

- File descriptors, streams and subprocesses: the raw source is a list of non-empty reads, replayed from the start by `Reset`.
- `doParseOnlyHeader`, and the counters of lines, which ungetting does not undo consistently.
- 32-bit wrap-around of offsets in the parser: offsets are unbounded, wrap-around is modelled in `GetBody` only.
- The helpers of `src/bincimapmime/convert.h` are functions here, not in-place edits; a MIME part is a value, as the source copies it into its parent's list.
- The round trip asks that no two-dash text begins a part and no body or epilogue contains its outer delimiter; other inputs are covered by the theorems on every text.
- UTF-8 decoding: text is code points, a byte is a code point and an index in its encoding; tables above ASCII are a parameter of the configuration.
- Splitter flags for wildcards, external taggers for Hangul and Chinese inside the span machine, camel case, page and line callbacks, statistics, and a consumer that refuses a term.
- Exactness of byte offsets where a span lost soft hyphens or repeated glue: the source computes offsets backwards from the end of the span, and `TermsAreText` says for which spans they are exact.
- Layouts in `SpanWords` do not have joining characters that are followed by another sign instead of a word, skipped characters, and n-gram sections: `SpanEdges` says what the machine does at each of these, and the theorems on every text cover them.
- The tagger: its answer is any list of intervals. `std::sort` is an insertion sort here, and nothing proved depends on the order of equal elements. Page breaks of the Chinese splitter are left out.
- HTML input, line-break tags, link activation and cancellation in the highlighter; the strings of marks are represented by pieces with a size.
- Configuration parsing, case-insensitive names, and copying or reloading a configuration: runs are over one loaded configuration. Lists that the source makes from a sorted set are sets here, and the pattern match of MIME types is not part of the model.
- `std::multiset` is a search tree of arbitrary shape without rebalancing; what is proved of lookup holds for every shape. With nested suffixes the shape decides, and rebalancing is not followed: `NestedHides` gives a shape that hides a name, `MissedSuffix` one that two insertions build.
- The newline that ends a message is one byte, as on platforms whose text streams do not translate it; decoding of parameter values is off; processors and their errors are left out.
