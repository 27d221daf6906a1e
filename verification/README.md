# Proved models of the hard parts of this repository

Six unrelated pieces of this code base have properties that no amount of reading one function shows.
Each is modelled here with its own branches, constants and error codes, and the properties are proved
for all inputs, all runs or all trees.

| piece | modules |
|---|---|
| nginx byte-range filter: header parser, single-range body filter, multipart writer | RangeTypes, Decimals, RangeParse, RangeGrammar, RangeBuffers, RangeSinglepart, RangeSinglepartRun, RangeSinglepartFlags, RangeSinglepartPieces, RangeMultipart, RangeMultipartRun, RangeResponse, RangeRfc, RangeRefused |
| gtest's simple regular expressions | RegexSyntax, RegexMatch, RegexFull, RegexAtoms |
| securec: 64-bit division on word pairs, overlap-safe move, string functions, bounded printing | Options, Arithmetic, WordMath, Div64, CStrings, CMemory, StrCopy, StrCat, StrTok, BoundedPrint |
| gtest's build scripts: the Pump macro language and the file fuser | PumpSyntax, PumpParser, PumpRoundTrip, PumpForms, PumpExpand, PumpInterp, PumpLaws, FuseExpansion, FuseTheory, FuseGraph, FuseHeaders, FuseSources |
| gtest's prime tables | Arithmetic, Primes |
| the component hierarchy of VSS writers | VssComponents |

Code that changes things in place is modelled in place: buffers and chain links are heap objects that
are trimmed and relinked, C memory is one array with offsets so that overlap is real, the parser pops
tokens off its list, the interpreter copies and extends environments. Each such method is proved
against a pure function of the old state, and the theorems are about that function. A module whose name
ends in Run, Flags, Pieces, Grammar, Rfc, Refused, RoundTrip, Forms, Laws, Atoms or Theory holds the theorems
about the module before it; those of Atoms, Laws, Forms, Pieces and Refused say what a definition means in terms
that do not mention it.

Eight results say that the code does not, or not always, do what its documentation or its shape suggests.
In each case it is proved exactly when, for all inputs, and an input is shown.

- A full match of a regular expression that ends in an escaped dollar accepts any string with a matching
  prefix, because the check for a missing `$` looks at the last character only
  (`RegexFull.FullMatchExactness`, `RegexFull.LongerText`).
- `strcat_s` of a string to itself reports the destination as too small, not the overlap that the header
  comment promises (`StrCat.OverlapReported`, `StrCat.SelfAppend`).
- The single-range filter marks the buffer in which the range ends, but never clears a mark: a buffer that
  came in marked keeps it, even when it is emptied (`RangeSinglepartRun.RunMarksOnce`, `EarlyMarkStays`;
  `RangeSinglepartFlags.OneFlagIff`, `EmptiedMarkStays`).
- The multipart filter hands on its message again after a message for an empty buffer, since the offset is
  then still 0 (`RangeMultipartRun.AtMostOnceIff`, `EmptyRepeats`).
- The multipart filter lets a buffer that is marked as the last through without looking at its size; if a
  range does not lie in the memory it shows, the window onto that range reaches out of it
  (`RangeMultipart.MultipartFilter`, `ShortBuffer`).
- The headers that the range parser reads are not quite those of section 2.1 of RFC 7233, and a suffix longer
  than the body is refused where the RFC gives it the whole body. What is read and not in the RFC is
  `RangeRfc.ParserInRfc` (inputs: `BackwardIsServed`, `SpaceIsServed`); what is in the RFC and not served as
  it asks is `RangeRfc.ServedAsAsked` (inputs: `EmptyNotServed`, `SuffixNotServed`).
- The two prime tables disagree for p = -1, where the hybrid's answer depends on which of them it asks
  (`Primes.HybridPrimeTable.GetNextPrime`).
- The Pump parser drops blank code behind an `$if` without an else, also when no else follows
  (`PumpRoundTrip.RoundTripIffClean`, `BlankIsLost`).

`dafny verify dfyconfig.toml` checks everything.

## Model

| member | source | states |
|---|---|---|
| `RangeGrammar.ParseIsGrammar` | open_src/objs_ngx/objs/ngx_http_range_filter_module.c:274-405 | For every header of the form `bytes=...`: the parser answers OK with a list of ranges if and only if the header is written in the grammar of the parser (a list of `first-last`, `first-` and `-count`, numbers up to the largest off_t, spaces anywhere around the numbers and the dash except behind the dash of a suffix), the list is what the header asks for in its order less the empty ranges, it is not empty, has at most `ranges` members, and asks for no more bytes in all than the body has |
| `RangeGrammar.BackwardIsSkipped` | open_src/objs_ngx/objs/ngx_http_range_filter_module.c:362-371 | A range that ends before it starts changes nothing in what is served, wherever it stands and whatever the other ranges |
| `RangeGrammar.BackwardChangesNothing` | open_src/objs_ngx/objs/ngx_http_range_filter_module.c:362-404 | so a header with such a range gets the answer of the header without it |
| `RangeGrammar.EmptyElementRefused` | open_src/objs_ngx/objs/ngx_http_range_filter_module.c:306-311 | At an element that is empty or starts with a tab the parser refuses the header |
| `RangeRfc.ParserInRfc` | open_src/objs_ngx/objs/ngx_http_range_filter_module.c:294-405 | A header of the parser's grammar is a valid byte-range-set of section 2.1 of RFC 7233 if and only if it has no space at the front, at the end or next to a dash (behind the dash of an open range it is space before the comma), and no range that ends before it starts |
| `RangeRfc.ReadIff` | open_src/objs_ngx/objs/ngx_http_range_filter_module.c:294-405 | A byte-range-set of the RFC, of any spelling, is a header of the parser's grammar if and only if no element is empty, no white space is a tab and no number is above the largest off_t |
| `RangeRfc.SameRangesIff` | open_src/objs_ngx/objs/ngx_http_range_filter_module.c:357-367 | If it is, the ranges the parser takes from it are those the RFC selects if and only if no suffix is longer than the representation |
| `RangeRfc.ServedAsAsked` | open_src/objs_ngx/objs/ngx_http_range_filter_module.c:274-405 | So the parser answers OK to a byte-range-set of the RFC if and only if it is readable in this sense, has no such suffix, and asks for some ranges, few enough, of no more bytes in all than the body has; and then it serves what the RFC asks for |
| `RangeRfc.SetSame` | open_src/objs_ngx/objs/ngx_http_range_filter_module.c:294-405 | A header written in both grammars is the same list in both, element by element, with the same white space |
| `RangeRfc.BackwardIsServed` | open_src/objs_ngx/objs/ngx_http_range_filter_module.c:362-371 | An input: `bytes=5-3,0-0` is no valid set, and is answered OK with the first byte |
| `RangeRfc.SpaceIsServed` | open_src/objs_ngx/objs/ngx_http_range_filter_module.c:306 | An input: `bytes= 0-4` is not in the RFC's grammar, and is answered OK with five bytes |
| `RangeRfc.EmptyNotServed` | open_src/objs_ngx/objs/ngx_http_range_filter_module.c:306-311 | An input: `bytes=,0-0` asks for the first byte, and is not answered OK |
| `RangeRfc.SuffixNotServed` | open_src/objs_ngx/objs/ngx_http_range_filter_module.c:357-402 | An input: `bytes=-5` asks for all of a body of two bytes, and is not answered OK |
| `RangeGrammar.ServedInBounds` | open_src/objs_ngx/objs/ngx_http_range_filter_module.c:357-404 | Whenever the parser answers OK every stored range lies in the body, 0 <= start < end <= length, their sum is at most the length, and there are at least one and at most `ranges` of them, though a suffix is stored without being cut down to the body |
| `RangeGrammar.OverlongSuffixRefused` | open_src/objs_ngx/objs/ngx_http_range_filter_module.c:357-402 | A header with a suffix longer than the body is never served, wherever the suffix stands and whatever else is asked for |
| `RangeGrammar.OverlongMayOverflow` | open_src/objs_ngx/objs/ngx_http_range_filter_module.c:380-382 | It need not get as far as the check behind the loop: an input for which the sum overflows within it |
| `RangeGrammar.GrammaticalAnswers` | open_src/objs_ngx/objs/ngx_http_range_filter_module.c:371-404 | The three answers to any header in the grammar: served exactly when acceptable; not satisfiable exactly when no range has any bytes or the ranges stored by then overflow the sum; declined otherwise |
| `RangeRefused.MalformedAnswers` | open_src/objs_ngx/objs/ngx_http_range_filter_module.c:301-404 | A header that has some written ranges, each with a comma behind it, and then something that is no range, is never served: it is declined if those ranges are already too many and can be counted in an off_t, and not satisfiable otherwise |
| `RangeRefused.WrittenOrFails` | open_src/objs_ngx/objs/ngx_http_range_filter_module.c:301-404 | Every header is in the grammar or fails in this way |
| `RangeRefused.ItemIffWritten` | open_src/objs_ngx/objs/ngx_http_range_filter_module.c:302-367 | At any place of any text the item reader finds a range if and only if one is written there, up to a comma or the end |
| `RangeRefused.MalformedExamples` | open_src/objs_ngx/objs/ngx_http_range_filter_module.c:306-347 | Two of them: `bytes=abc` and `bytes=5` are not satisfiable |
| `RangeGrammar.OutcomeRefuses` | open_src/objs_ngx/objs/ngx_http_range_filter_module.c:380-398 | Which of the exits in the loop is taken first, by the sum or by the count, for any list of ranges |
| `RangeGrammar.RoundTrip` | open_src/objs_ngx/objs/ngx_http_range_filter_module.c:294-404 | Any list of ranges that lie in the body, written item by item in any of the three forms and with any spaces, is answered OK with exactly that list if and only if it has between one and `ranges` members and at most as many bytes in all as the body |
| `RangeGrammar.CanBeWritten` | open_src/objs_ngx/objs/ngx_http_range_filter_module.c:306-367 | Every in-bounds range has such a written form: first and last position, and, when it reaches the end, also the open form and the suffix form |
| `RangeGrammar.ReadBack` | open_src/objs_ngx/objs/ngx_http_range_filter_module.c:306-367 | One item written anywhere in a header is read as its meaning, and reading stops right behind it |
| `RangeGrammar.WasWritten` | open_src/objs_ngx/objs/ngx_http_range_filter_module.c:306-367 | Conversely, whatever the item reader accepts is an item of the grammar, with the meaning that was read |
| `RangeGrammar.OutcomeIsAcceptable` | open_src/objs_ngx/objs/ngx_http_range_filter_module.c:371-404 | The three early exits in the loop and the two checks behind it together come to one condition: non-empty, few enough, and not more bytes than the body |
| `RangeGrammar.ParseWritten` | open_src/objs_ngx/objs/ngx_http_range_filter_module.c:301-404 | Running the whole loop on the text of a header gives the verdict on the list that it means, early exits included |
| `RangeGrammar.AcceptedWasWritten` | open_src/objs_ngx/objs/ngx_http_range_filter_module.c:301-394 | Every accepted header is the text of a list of grammatical items |
| `RangeParse.ReadNumber` | open_src/objs_ngx/objs/ngx_http_range_filter_module.c:309-319 | The digit loop with its cutoff accepts a run of digits exactly when its value is at most the largest off_t, and yields that value; the loop is never past the end of the text |
| `RangeParse.ReadItem` | open_src/objs_ngx/objs/ngx_http_range_filter_module.c:302-367 | The branches for one item, in place on the cursor, find an item exactly when the scanning function does and leave its start, end and end position, clamped as written |
| `RangeParse.ReadClosing` | open_src/objs_ngx/objs/ngx_http_range_filter_module.c:339-355 | The last number of a range and what may stand behind it, as scanned; nothing if anything else stands there |
| `RangeParse.Parse` | open_src/objs_ngx/objs/ngx_http_range_filter_module.c:274-405 | The whole loop, appending to the ranges of the context in place, has the status and leaves the list of the recursive parser about which the theorems above are proved |
| `RangeSinglepartRun.RunEmitsRange` | open_src/objs_ngx/objs/ngx_http_range_filter_module.c:690-773 | From any content offset, for any division of the body into buffers and any grouping of the buffers into calls, the data handed on over the whole run is exactly the part of the body from the start of the range to its end, in order; so the buffers dropped behind the early break are never missed |
| `RangeSinglepartRun.RunData` | open_src/objs_ngx/objs/ngx_http_range_filter_module.c:703-766 | The invariant of every run, complete or not: after any number of calls the saved offset and the data handed on so far are those of the body seen so far, clipped to the range |
| `RangeSinglepartRun.RunMarksOnce` | open_src/objs_ngx/objs/ngx_http_range_filter_module.c:747-762 | Over a whole body, from any content offset, exactly one of the buffers that come out with data is marked as the last, and none with data follows it, if and only if no buffer that ends strictly inside the range came in marked by its sender; buffers without data are counted in the next rows |
| `RangeSinglepartRun.EarlyMarkStays` | open_src/objs_ngx/objs/ngx_http_range_filter_module.c:747-762 | An input with an early mark: two marked buffers come out |
| `RangeSinglepartFlags.OneFlagIff` | open_src/objs_ngx/objs/ngx_http_range_filter_module.c:703-762 | Of all buffers that come out over a whole body, those without data included and only special ones aside, exactly one is marked as the last if and only if no stray came in: no marked buffer that shows part of the range and ends before it does, and none outside the range that stands behind the last buffer its call passes on |
| `RangeSinglepartFlags.RunFlags` | open_src/objs_ngx/objs/ngx_http_range_filter_module.c:703-762 | After any number of calls: one mark if the end of the range has been reached, none before, and more exactly if there has been a stray |
| `RangeSinglepartFlags.OutputFlags` | open_src/objs_ngx/objs/ngx_http_range_filter_module.c:703-772 | The same for what one call hands on, from any saved offset |
| `RangeSinglepartPieces.PieceByPiece` | open_src/objs_ngx/objs/ngx_http_range_filter_module.c:703-772 | Which buffers one call hands on, in their order, and how each looks: a special one as it came, last-buffer mark included; one that overlaps the range with just that part of its data, its sync mark as it was, marked last if it was or if the range ends in it; one outside the range and behind the last of those, without data, marked sync, its other marks as they were; and no other |
| `RangeSinglepartFlags.EmptiedMarkStays` | open_src/objs_ngx/objs/ngx_http_range_filter_module.c:721-734 | An input: a marked buffer before the range, behind a special one, comes out empty and marked, ahead of all data |
| `RangeSinglepartRun.RunMarks` | open_src/objs_ngx/objs/ngx_http_range_filter_module.c:703-766 | After any number of calls from any offset the marked data buffers that came out are, by their place in the body, those that came in marked strictly inside the range, and then the end of the range if it was reached: the filter itself sets the mark once, there, and nowhere else |
| `RangeSinglepartRun.FilterMarks` | open_src/objs_ngx/objs/ngx_http_range_filter_module.c:703-766 | The same for one call, from any saved offset |
| `RangeSinglepartRun.FilterData` | open_src/objs_ngx/objs/ngx_http_range_filter_module.c:703-766 | One call hands on exactly the bytes of its buffers that lie in the range, and moves the offset past all of them or past the end of the range |
| `RangeSinglepartRun.ShownIsProper` | open_src/objs_ngx/objs/ngx_http_range_filter_module.c:705-708 | Valid heap buffers always show pieces of the kind the run theorems speak about |
| `RangeSinglepart.SinglepartBody` | open_src/objs_ngx/objs/ngx_http_range_filter_module.c:690-773 | The in-place filter: what it hands on is a chain of links of the chain it was given, in their old order, that shows exactly what the pure filter says, and the new offset is that of the pure filter; no link or buffer outside the chain is written |
| `RangeSinglepart.TrimChain` | open_src/objs_ngx/objs/ngx_http_range_filter_module.c:699-766 | The loop over the links: kept links are chained from `out` in place, and after the early break the chain ends at the last of them |
| `RangeSinglepart.Round` | open_src/objs_ngx/objs/ngx_http_range_filter_module.c:705-765 | One round of the loop keeps the shape of the half-relinked chain and does to the buffer what one step of the pure filter does |
| `RangeSinglepart.Treat` | open_src/objs_ngx/objs/ngx_http_range_filter_module.c:715-757 | The buffer at one place of the chain is treated as the step function says, and no other buffer of the call changes |
| `RangeSinglepart.TreatBuf` | open_src/objs_ngx/objs/ngx_http_range_filter_module.c:715-757 | A buffer is passed on, emptied or trimmed according to where it lies, and the two answers say which and whether the range ends in it |
| `RangeSinglepart.TrimBuf` | open_src/objs_ngx/objs/ngx_http_range_filter_module.c:736-757 | Memory and file positions are both moved so that the buffer shows exactly its part of the range, marked if the range ends in it |
| `RangeSinglepart.SkipBuf` | open_src/objs_ngx/objs/ngx_http_range_filter_module.c:726-731 | A buffer outside the range shows no data afterwards and is marked sync, file part included |
| `RangeSinglepart.TrimFront` | open_src/objs_ngx/objs/ngx_http_range_filter_module.c:736-745 | Drops exactly the first k bytes of what the buffer shows, whether they are in memory, in a file or both |
| `RangeSinglepart.TrimBack` | open_src/objs_ngx/objs/ngx_http_range_filter_module.c:749-757 | Drops exactly the last k bytes and sets the last-buffer mark |
| `RangeSinglepart.LinkIn` | open_src/objs_ngx/objs/ngx_http_range_filter_module.c:758-765 | Storing through the link pointer chains one more kept link without disturbing those kept before or the links still to come |
| `RangeSinglepart.CutAfter` | open_src/objs_ngx/objs/ngx_http_range_filter_module.c:758-761 | Ending the chain at the current link leaves exactly the kept links reachable |
| `RangeSinglepart.FilterDone` | open_src/objs_ngx/objs/ngx_http_range_filter_module.c:761 | Once the range has ended in a buffer, the rest of the same call changes nothing |
| `RangeMultipartRun.ChainIsMessage` | open_src/objs_ngx/objs/ngx_http_range_filter_module.c:776-903 | If the ranges lie in the buffer, the chain the body filter builds shows, byte for byte, the multipart message of these ranges, which is a multipart/byteranges body in the sense of the next row |
| `RangeMultipartRun.MessageIsMultipart` | open_src/objs_ngx/objs/ngx_http_range_filter_module.c:776-903 | Read from the front: for each range CRLF `--` and twenty digits that denote the boundary number, the type line, `Content-Range: bytes `, three numerals S-E/T with S the start, E + 1 the end and T the size of the body, two CRLF and body[start..end); then the same boundary between `--` and `--` |
| `RangeMultipartRun.MarkedAtEnd` | open_src/objs_ngx/objs/ngx_http_range_filter_module.c:776-903 | The chain has three buffers for each range and one more; that one, and no other, is marked as the last, and none has another mark |
| `RangeResponse.MultipartResponse` | open_src/objs_ngx/objs/ngx_http_range_filter_module.c:274-405 | From the header to the response: if the parser answers OK and the body comes in one buffer, the call that brings it is answered with the multipart message of exactly these ranges, byte for byte, each part headed by the numerals of its first and last position and of the size of the body; and the length announced by the header filter is its length, if that is an off_t |
| `RangeResponse.OneRangeResponse` | open_src/objs_ngx/objs/ngx_http_range_filter_module.c:690-773 | If the parser answers OK with one range, the response is that range of the body, which is not empty and lies in it, however the body is cut into buffers and the buffers into calls |
| `RangeMultipartRun.LengthIsConserved` | open_src/objs_ngx/objs/ngx_http_range_filter_module.c:544-570 | The length summed up beforehand by the header filter is the number of bytes in the chain that the body filter builds later, for any ranges and any headers, whether or not the ranges lie in the buffer |
| `RangeMultipartRun.AnnouncedExactly` | open_src/objs_ngx/objs/ngx_http_range_filter_module.c:546-570 | The Content-Length announced, after size_t wrap-around and the store into an off_t, is the number of bytes emitted if and only if that number is an off_t |
| `RangeMultipartRun.RunHandsOn` | open_src/objs_ngx/objs/ngx_http_range_filter_module.c:615-647 | For any sequence of calls, failed ones included, from any offset, what is handed on is piece by piece this: a call that starts with a special buffer hands on its own chain; one that is let through hands on the message, if the run started at offset 0 and all let through before it started with an empty buffer; every other hands on nothing |
| `RangeMultipartRun.RunConserves` | open_src/objs_ngx/objs/ngx_http_range_filter_module.c:615-647 | so the number of bytes handed on is that of the messages, each of the announced length, and of the chains passed on |
| `RangeMultipartRun.AtMostOnceIff` | open_src/objs_ngx/objs/ngx_http_range_filter_module.c:659-679 | Over any run the message is handed on at most once if and only if the run does not start at offset 0, or no call is let through after others that all started with an empty buffer; and not at all if and only if it does not start at 0 or no call is let through |
| `RangeMultipartRun.EmptyRepeats` | open_src/objs_ngx/objs/ngx_http_range_filter_module.c:659-679 | An input: two calls that start with an empty buffer marked as the last get the message twice, one such call once |
| `RangeMultipartRun.AcceptedHasRanges` | open_src/objs_ngx/objs/ngx_http_range_filter_module.c:665-679 | An accepted buffer has all the ranges if and only if it is unmarked or reaches as far as the furthest of them; it has them if it is the whole body |
| `RangeMultipart.MultipartHeader` | open_src/objs_ngx/objs/ngx_http_range_filter_module.c:457-578 | The header filter: the boundary is twenty digits that denote the given number, in the rewritten content type and in the boundary header, which is spelled out; each stored Content-Range text reads back as the start, the end less one and the size of the body; the announced length is the sum of the parts modulo the width of size_t |
| `RangeMultipart.RangeTextReads` | open_src/objs_ngx/objs/ngx_http_range_filter_module.c:553-564 | The text for a range is three numerals without leading zeros, which denote start, end - 1 and the content length, with `-`, `/` and two CRLF |
| `RangeMultipart.BoundaryReads` | open_src/objs_ngx/objs/ngx_http_range_filter_module.c:532-537 | The padded boundary is twenty digits that denote the number |
| `RangeMultipart.TypeLineReads` | open_src/objs_ngx/objs/ngx_http_range_filter_module.c:489-519 | The type line in each case: with the charset if there is one and the type has no parameters, without it otherwise, none if there is no type |
| `RangeMultipart.PrintBoundaryHeader` | open_src/objs_ngx/objs/ngx_http_range_filter_module.c:484-519 | The three ways to print the boundary header all give the delimiter with the type line that the headers call for |
| `RangeMultipart.MultipartBody` | open_src/objs_ngx/objs/ngx_http_range_filter_module.c:776-903 | The body filter builds, link by link and buffer by buffer, a null-terminated chain of fresh links and fresh buffers that shows the parts of all ranges in order and the closing delimiter, which alone is marked last; all windows lie in their memory if and only if all ranges do; the buffer of the body is not written |
| `RangeMultipart.AppendParts` | open_src/objs_ngx/objs/ngx_http_range_filter_module.c:789-869 | The loop over the ranges chains the three buffers of each, in order |
| `RangeMultipart.AppendPart` | open_src/objs_ngx/objs/ngx_http_range_filter_module.c:799-868 | Three new buffers for one range, the third a window onto the body's buffer, are chained behind the rest |
| `RangeMultipart.AppendTexts` | open_src/objs_ngx/objs/ngx_http_range_filter_module.c:799-832 | The boundary header and the range text are chained, in this order |
| `RangeMultipart.AppendData` | open_src/objs_ngx/objs/ngx_http_range_filter_module.c:837-868 | The data buffer of one range is chained behind the rest, with the window that the range names |
| `RangeMultipart.DataBuf` | open_src/objs_ngx/objs/ngx_http_range_filter_module.c:837-856 | The third buffer has the pointers of the body's buffer moved to the range, in memory and in the file; it is a proper window if and only if the range lies in that memory and file |
| `RangeMultipart.WindowsAreWindows` | open_src/objs_ngx/objs/ngx_http_range_filter_module.c:848-856 | Such a window shows exactly body[start..end) if the range lies in the buffer, and as many bytes as the range has in any case |
| `RangeMultipart.TestOverlapped` | open_src/objs_ngx/objs/ngx_http_range_filter_module.c:650-687 | Answers OK exactly when nothing was replaced before and the buffer is the last one or has all the ranges; only then the offset moves, by the size of the buffer |
| `RangeMultipart.MultipartFilter` | open_src/objs_ngx/objs/ngx_http_range_filter_module.c:615-647 | The dispatch for several ranges does to the chain, the context and the answer what the pure function of one call says: passed on untouched, failed with nothing handed on, or replaced by fresh links that show the message; whatever the size of a buffer that is marked as the last; and the windows of the message lie in their memory if and only if every range does |
| `RangeMultipart.BeyondIsOutside` | open_src/objs_ngx/objs/ngx_http_range_filter_module.c:848-856 | If the memory ends with the buffer, a range inside the memory is one inside the buffer |
| `RangeMultipart.ShortBuffer` | open_src/objs_ngx/objs/ngx_http_range_filter_module.c:659-679 | An input: a buffer of two bytes, marked as the last, is let through for a range that ends at three, and the window reaches out of the memory |
| `RangeMultipart.BoundaryLength` | open_src/objs_ngx/objs/ngx_http_range_filter_module.c:546 | The padded boundary number always has the width that the announced length counts for it |
| `RangeMultipart.HeaderFits` | open_src/objs_ngx/objs/ngx_http_range_filter_module.c:464-479 | The boundary header never overruns the bytes allocated for it, and fills them exactly when there is a type line |
| `RangeMultipart.RangeTextFits` | open_src/objs_ngx/objs/ngx_http_range_filter_module.c:553-564 | Every Content-Range text fits the bytes allocated for it |
| `RegexSyntax.ValidateRegex` | test/src/gtest/src/gtest-port.cc:232-286 | Accepts a pattern if and only if it is the text of a regular expression of the small language: an optional `^`, items each an atom or escape with at most one of `?*+`, an optional `$` |
| `RegexSyntax.ScanIffWellFormed` | test/src/gtest/src/gtest-port.cc:242-283 | The validator's pass with its one flag of memory decides exactly the printable patterns |
| `RegexMatch.MatchRegexAtHead` | test/src/gtest/src/gtest-port.cc:322-349 | For every valid regex and string, true exactly when some prefix of the string is in the language of the items, or the whole string if `$` ends the regex (what the items stand for is spelled out in the rows of RegexAtoms); terminates since the pattern shrinks, and never reads past either terminator |
| `RegexMatch.MatchRepetitionAndRegexAtHead` | test/src/gtest/src/gtest-port.cc:295-320 | The repetition loop finds a match exactly when some number of leading characters fits the repeated atom and the rest matches the rest |
| `RegexMatch.HeadMatchIffSplit` | test/src/gtest/src/gtest-port.cc:295-349 | The backtracking search is complete: a match of all items exists exactly when one exists that splits off the first item as the loop tries it |
| `RegexMatch.MatchRegexAnywhere` | test/src/gtest/src/gtest-port.cc:358-371 | True exactly when some substring matches, only at the start if the regex has `^`, and only up to the end if it has `$`; null arguments give false |
| `RegexMatch.MatchesIffSomeHead` | test/src/gtest/src/gtest-port.cc:358-371 | Matching somewhere is matching at the head of some suffix; with `^` it is matching at the head |
| `RegexFull.BuildFullPattern` | test/src/gtest/src/gtest-port.cc:404-423 | The buffer filled from the pattern holds it with the anchors it lacks, and fits the bytes reserved |
| `RegexFull.RE.constructor` | test/src/gtest/src/gtest-port.cc:392-423 | After construction the validity flag and the full pattern are those of the pattern, and the full pattern of a valid regex is itself valid |
| `RegexFull.RE.PartialMatch` | test/src/gtest/src/gtest-port.cc:387-390 | True exactly when the pattern is valid and some substring is in its language |
| `RegexFull.RE.FullMatch` | test/src/gtest/src/gtest-port.cc:381-384 | For a valid regex that does not end in an escaped dollar, true exactly when the whole string is in its language; for one that does, exactly when some prefix is |
| `RegexFull.FullMatchExactness` | test/src/gtest/src/gtest-port.cc:419-420 | Matching the full pattern means membership of the whole string, for all strings, if and only if the regex does not end in an escaped dollar: the check for a final `$` looks at the last character only |
| `RegexFull.LongerText` | test/src/gtest/src/gtest-port.cc:419-420 | For every regex that does end so, a string that starts with a member of the language and is none itself |
| `RegexFull.FullTextIsFullSyntax` | test/src/gtest/src/gtest-port.cc:411-422 | The text that is built is the text of a regex: the same items, anchored at the start, and at the end unless an escaped dollar hides the missing anchor |
| `RegexFull.RenderInjective` | test/src/gtest/src/gtest-port.cc:236-286 | A valid pattern is the text of only one regex, so its language is well defined |
| `RegexAtoms.AtomStands` | test/src/gtest/src/gtest-port.cc:178-226 | What each atom stands for, character by character: `.` every character but the newline, another plain character itself, `\d \D \f \n \r \s \S \t \v \w \W` their sets as listed, any other escape itself |
| `RegexAtoms.OneItemMatches` | test/src/gtest/src/gtest-port.cc:295-349 | So an atom with its repetition matches a whole string if and only if every character is one of these and their number is one, at most one, any, or at least one |
| `RegexAtoms.OnceLanguage` | test/src/gtest/src/gtest-port.cc:339-348 | Atoms without repetition match one character each, in order, and nothing else |
| `RegexAtoms.EscapesAre` | test/src/gtest/src/gtest-port.cc:178-199 | The escapes are the eleven letters and the ASCII characters between `!` and `~` that are neither letters nor digits |
| `RegexAtoms.PlainAtomsAre` | test/src/gtest/src/gtest-port.cc:262-281 | A character is a plain atom unless it is the terminator, a backslash, an anchor, a repetition, a bracket or a bar |
| `RegexAtoms.SignsAre` | test/src/gtest/src/gtest-port.cc:295-371 | A plain atom with `?`, `*` or `+` behind it is that atom with at most one, any, or at least one repetition; with `^` before and `$` behind it is anchored at both ends |
| `RegexAtoms.DotExample` | test/src/gtest/src/gtest-port.cc:381-390 | The three operations on one pattern: `a.c` is found in abc and matches it in full, and is not found across a newline |
| `Div64.U64Div64` | src/src/securec/securecutil.c:268-475 | For all 64-bit dividends and divisors held as two words: 0 exactly when the quotient pointers are given and the divisor is not zero, and then the quotient and remainder are the mathematical ones, through every early exit and both shift loops; otherwise -1 and nothing written |
| `Div64.U64Div32` | src/src/securec/securecutil.c:477-524 | Returns 0 exactly when both results are asked for and the divisor is not zero: the failure for a remainder with a high word is never reached; the results are n / d and n % d |
| `Div64.DivideWide` | src/src/securec/securecutil.c:360-396 | The shift-subtract loop for a divisor with a high word: quotient * divisor + remainder == dividend and remainder < divisor, though the loop may stop early |
| `Div64.DivideHighWord` | src/src/securec/securecutil.c:399-426 | The loop over the upper quotient word, with the divisor moved up by a word |
| `Div64.DivideLowWord` | src/src/securec/securecutil.c:428-458 | The loop over the lower quotient word, with the divisor's shifted-out bits in the high word |
| `Div64.TryDigit` | src/src/securec/securecutil.c:379-393 | One digit: the shifted divisor is subtracted and the bit set exactly when it fits the remainder, and the partial quotient and remainder stay those of the dividend |
| `Div64.NextBit` | src/src/securec/securecutil.c:379-393 | Why it does: doubling the quotient, and adding one exactly when the shifted divisor fits the remainder, keeps the partial division |
| `Div64.ShiftNumber` | src/src/securec/securecutil.c:338-358 | The normalising loop finds the shift that puts the top bit of the word into its place |
| `Div64.ShiftedPair` | src/src/securec/securecutil.c:367-377 | The two words shifted and or-ed together hold the divisor times the power of two, provided nothing leaves the top |
| `Div64.Compare64` | src/src/securec/securecutil.c:247-266 | The comparison on words is the comparison of the numbers |
| `Div64.Sub64` | src/src/securec/securecutil.c:233-245 | The subtraction with borrow, modulo the word size in each half, is the difference of the numbers whenever it is not negative |
| `WordMath.OrIsSum` | src/src/securec/securecutil.c:373-374 | Bitwise or of numbers with no common bits is their sum |
| `CMemory.MemMove` | src/src/securec/securecutil.c:83-118 | For any two places in one memory, overlapping or not, the destination holds the old source and no other character changes |
| `CMemory.CopyUp` | src/src/securec/securecutil.c:88-99 | Copying upwards is right when the destination is not inside the source behind its start |
| `CMemory.CopyDown` | src/src/securec/securecutil.c:100-117 | Copying downwards is right when it is |
| `StrCopy.StrCpy` | src/src/securec/strcpy_s.c:165-206 | On one flat memory with any aliasing: the code for each bad argument, for a string that does not fit and for an overlap; EOK exactly otherwise, and then the destination holds the old source string with its terminator and nothing else changed; any other code leaves an empty string if there is a destination of a proper size, and the memory as it was if there is none; nothing outside dest[0..destMax) is written |
| `StrCopy.StrCpyError` | src/src/securec/strcpy_s.c:140-163 | The code for each bad argument, and the reset of the destination where there is one |
| `StrCopy.CopyApart` | src/src/securec/strcpy_s.c:172-203 | A string that fits is copied if the two places do not meet, and the overlap is reported and the destination emptied if they do |
| `StrCopy.StrNCpy` | src/src/securec/strncpy_s.c:91-145 | The same for the bounded copy: the code for each bad argument, count and unterminated source; EOK means the destination holds the first `count` characters of the old source, or all of it if shorter, terminated |
| `StrCopy.StrNCpyError` | src/src/securec/strncpy_s.c:47-89 | The code for each bad argument or zero count, and the reset of the destination |
| `StrCopy.BoundedNLength` | src/src/securec/strncpy_s.c:99-118 | The scan with two counters tells which of the three comes first: the terminator, the count or the end of the destination |
| `StrCopy.CopyNApart` | src/src/securec/strncpy_s.c:121-142 | The copy for a source that fits, with the overlap test on exactly the characters to be written |
| `StrCopy.ApartAndFittingCopies` | src/src/securec/strcpy_s.c:165-206 | Disjoint places that fit always give EOK, for both functions |
| `StrCat.StrCat` | src/src/securec/strcat_s.c:45-140 | The code for each bad argument and for a destination without a terminator in its size; EOK only if the destination then holds the exact concatenation of the two old strings; otherwise the code computed from the old memory, an empty destination (or, if there is none of a proper size, an untouched memory), and nothing written outside dest[0..destMax) |
| `StrCat.CatSucceedsIff` | src/src/securec/strcat_s.c:45-140 | For checked arguments EOK exactly when the concatenation fits and the source and the result do not meet, or the source is the empty tail of the destination itself |
| `StrCat.OverlapReported` | src/src/securec/strcat_s.c:20-140 | When the concatenation fits and the call still fails the code is the one for overlap, except for a string appended to itself, which is reported as out of range |
| `StrCat.NotFitting` | src/src/securec/strcat_s.c:92-137 | Strings that lie apart and do not fit together are reported as out of range, also where the source starts right behind the destination |
| `StrCat.SelfAppend` | src/src/securec/strcat_s.c:103-137 | An input: the string "a" appended to itself with room for "aa" is reported as out of range |
| `StrCat.AppendBelow` | src/src/securec/strcat_s.c:92-137 | The copying loop with a source above the destination: it copies exactly the source, or stops with the code for which of overlap guard and end of room it meets first |
| `StrCat.AppendAbove` | src/src/securec/strcat_s.c:120-137 | The same for a source below the destination, where the loop may run into characters it has itself written |
| `StrCat.SeekEnd` | src/src/securec/strcat_s.c:69-119 | The scan for the end of the destination string, stopped by the guard exactly when the source starts inside it |
| `StrTok.TokenizeAll` | src/src/securec/strtok_s.c:44-113 | One call on a string and then calls with NULL return exactly the maximal runs of characters that are no delimiters, in order, each terminated in place, and then NULL, with the context on the terminator |
| `StrTok.CallAgain` | src/src/securec/strtok_s.c:44-113 | From there any number of further calls return NULL, and change neither the context nor the memory |
| `StrTok.OneRound` | src/src/securec/strtok_s.c:61-112 | One call within the sequence finds the next run and keeps the state of the sequence, or ends it |
| `StrTok.StrTok` | src/src/securec/strtok_s.c:44-113 | One call: the token found, the context stored and the one character overwritten, as a function of the old memory; bad arguments change nothing |
| `StrTok.TokensAreMaximalRuns` | src/src/securec/strtok_s.c:67-110 | The tokens found one behind the other are exactly all maximal delimiter-free runs |
| `StrTok.TokensStayReadable` | src/src/securec/strtok_s.c:95-104 | After all the cuts every token, read as a C string, is the run of the original string |
| `BoundedPrint.VsnprintfS` | src/src/securec/vsnprintf_s.c:58-108 | For any text the formatter writes, in any sequence of writer calls: the length and the whole text if it fits count and destination; -1 and the first `count` characters if only count cuts it; -1 and an empty string if the destination is too small, or if the format is bad before count cuts the text; bad arguments empty the destination; nothing outside it is written |
| `BoundedPrint.AnswerRead` | src/src/securec/vsnprintf_s.c:58-108 | The same spelled out for a good format and proper arguments: the length and all of the text with its terminator; -1 and exactly `count` characters with a terminator; -1 and an empty string |
| `BoundedPrint.VsnprintfHelper` | src/src/securec/securecutil.c:136-162 | -2 exactly when the text, or after a good format its terminator, did not fit; -1 for a bad format found before that; else the length; with the memory left in each case |
| `BoundedPrint.Output` | src/src/securec/output.inl:287-313 | Any sequence of writer calls, with the fast path where the room is known to suffice, keeps the stream's account of the text sent to it |
| `BoundedPrint.Stream.Putc` | src/src/securec/securecutil.c:166-176 | One character: stored exactly when there is room, and after the first failure the stream fails for good |
| `BoundedPrint.Stream.WriteChecked` | src/src/securec/securecutil.c:179-212 | The writers that stop at the first failure leave the account of the stream as if all of their text had been sent |
| `BoundedPrint.Stream.WriteDirect` | src/src/securec/output.inl:85-122 | The unchecked stores of the fast path stay in the buffer and agree with the checked ones |
| `BoundedPrint.FailsForGood` | src/src/securec/securecutil.c:166-176 | A stream that has failed has the same state whatever else is sent |
| `Primes.OnTheFlyPrimeTable.IsPrime` | test/src/gtest/samples/prime_tables.h:58-67 | Trial division up to the square root decides primality for every integer |
| `Primes.OnTheFlyPrimeTable.GetNextPrime` | test/src/gtest/samples/prime_tables.h:69-75 | The least prime above p, for every p >= 0; the search ends because there always is one |
| `Primes.SquareRootSuffices` | test/src/gtest/samples/prime_tables.h:61-66 | A number without divisors up to its square root is prime |
| `Primes.PrimeAbove` | test/src/gtest/samples/prime_tables.h:70-72 | Above every number there is a prime, at most its factorial plus one |
| `Primes.PreCalculatedPrimeTable.CalculatePrimesUpTo` | test/src/gtest/samples/prime_tables.h:102-114 | The sieve, in place: each entry is true exactly for a prime |
| `Primes.PreCalculatedPrimeTable.StrikeOut` | test/src/gtest/samples/prime_tables.h:109-112 | Marks exactly the proper multiples of i, and changes no other entry |
| `Primes.SurvivorsArePrime` | test/src/gtest/samples/prime_tables.h:106-113 | A number is struck out by no smaller prime exactly when it is prime |
| `Primes.PreCalculatedPrimeTable.constructor` | test/src/gtest/samples/prime_tables.h:83-86 | The table is filled for 0 to max |
| `Primes.PreCalculatedPrimeTable.IsPrime` | test/src/gtest/samples/prime_tables.h:89-91 | Prime and inside the table, for every integer |
| `Primes.PreCalculatedPrimeTable.GetNextPrime` | test/src/gtest/samples/prime_tables.h:93-99 | The least prime above p if the table has one, -1 only if it has none; and for p below -1 exactly, the search reads the table before its start |
| `Primes.HybridPrimeTable.constructor` | test/src/gtest/samples/sample8_unittest.cc:52-56 | The flag decides which tables exist |
| `Primes.HybridPrimeTable.IsPrime` | test/src/gtest/samples/sample8_unittest.cc:62-67 | Whichever table answers, the answer is primality |
| `Primes.HybridPrimeTable.GetNextPrime` | test/src/gtest/samples/sample8_unittest.cc:69-75 | The least prime above p for every p >= 0, flag and table size; for p = -1 the two implementations differ as stated; below, only trial division has an answer, and the table is read before its start |
| `Primes.NextPrimeUnique` | test/src/gtest/samples/sample8_unittest.cc:69-75 | So all implementations return the same number |
| `VssComponents.VssWriter.DiscoverTopLevel` | src/src/vss/requester/VSSWriterInfo.cpp:306-318 | The quadratic loop marks, in place, exactly the components that are below no component: none is shorter, equal up to case as far as it goes, and either ends in a backslash or is followed by one there |
| `VssComponents.AncestorIff` | src/src/vss/requester/VSSWriterInfo.cpp:208-221 | One path is an ancestor of another if and only if it is shorter, equals the front of the other up to case, and ends in a backslash or is followed there by a character that folds to what a backslash folds to |
| `VssComponents.LookAlikes` | src/src/vss/requester/VSSWriterInfo.cpp:208-221 | So a path is an ancestor of what continues it behind a backslash, and of nothing that continues it with another character: `\foo` of `\foo\bar`, not of `\foobar` |
| `VssComponents.RootAbove` | src/src/vss/requester/VSSWriterInfo.cpp:208-221 | Every component that is not marked has a marked ancestor, however long the chain of ancestors and whatever the case folding |
| `VssComponents.RootUnique` | src/src/vss/requester/VSSWriterInfo.cpp:208-221 | and only one, up to paths that differ in case only |
| `VssComponents.AncestorIrreflexive` | src/src/vss/requester/VSSWriterInfo.cpp:208-221 | No path is an ancestor of itself or of one that differs in case only |
| `VssComponents.AncestorTransitive` | src/src/vss/requester/VSSWriterInfo.cpp:208-221 | An ancestor of an ancestor is an ancestor, though the test adds and drops backslashes |
| `VssComponents.AncestorsComparable` | src/src/vss/requester/VSSWriterInfo.cpp:208-221 | The ancestors of a path form a chain |
| `VssComponents.VssComponent.constructor` | src/src/vss/requester/VSSWriterInfo.cpp:122-132 | The full path is the logical path with a backslash behind it if it has none, then the name, with exactly one backslash in front if there was none |
| `VssComponents.AppendBackslash` | src/src/vss/requester/VSSCommon.cpp:25-39 | The path itself exactly when it ends in a backslash, else one character longer, and it always ends in one |
| `VssComponents.FindStringInList` | src/src/vss/requester/VSSCommon.cpp:13-24 | Found exactly when some element is equal up to case |
| `VssComponents.CollectAffected` | src/src/vss/requester/VSSWriterInfo.cpp:187-199 | The loop keeps exactly the first of each class of equal paths |
| `VssComponents.FirstsCover` | src/src/vss/requester/VSSWriterInfo.cpp:187-199 | Every path is equal, up to case, to one that is kept |
| `VssComponents.FirstsDistinct` | src/src/vss/requester/VSSWriterInfo.cpp:187-199 | No two kept paths are equal |
| `FuseHeaders.HeadersFusedOnce` | test/src/gtest/scripts/fuse_gtest_files.py:146-172 | The same of the expansion that the run is proved to be, for any set of files |
| `FuseSources.SourcesFusedOnce` | test/src/gtest/scripts/fuse_gtest_files.py:175-215 | The same of the expansion that this run is proved to be |
| `FuseGraph.ReachesIff` | test/src/gtest/scripts/fuse_gtest_files.py:152-211 | If a fuser goes where the lines lead, a file reaches another in the graph it walks exactly if it does in the files as they are |
| `FuseGraph.OccurrencesIff` | test/src/gtest/scripts/fuse_gtest_files.py:169-213 | and a text stands in the lines it copies as often as in the files as they are |
| `FuseGraph.TextsIff` | test/src/gtest/scripts/fuse_gtest_files.py:169-213 | and in the same order |
| `FuseTheory.FusesReachableOnce` | test/src/gtest/scripts/fuse_gtest_files.py:152-171 | The theorem behind both, for any graph in which names that are only noted are not also opened |
| `FuseTheory.FileKeepsOrder` | test/src/gtest/scripts/fuse_gtest_files.py:161-169 | The text lines of every file opened stand in the output in the order of that file |
| `FuseTheory.IncludeStands` | test/src/gtest/scripts/fuse_gtest_files.py:162-169 | All that is written for an included file, and for the files opened below it, stands in one piece at the line where the file is first met, between what the lines before and behind it write; at a later include of it nothing is written |
| `FuseTheory.FileCloses` | test/src/gtest/scripts/fuse_gtest_files.py:152-170 | When a call returns, the processed set is closed: every file that is included, and every name asked for, by a file opened since is in it |
| `FuseTheory.FileSound` | test/src/gtest/scripts/fuse_gtest_files.py:152-170 | Only files reachable from the file are opened, and a failure has a reachable missing one |
| `FuseTheory.FileOpensNew` | test/src/gtest/scripts/fuse_gtest_files.py:155-159 | The files opened are distinct, were not processed before, and are all that is added to the processed set besides names asked for |
| `FuseTheory.FileCopies` | test/src/gtest/scripts/fuse_gtest_files.py:161-169 | Every text is written as often as it stands in the files opened |
| `FuseTheory.FileMarksOnce` | test/src/gtest/scripts/fuse_gtest_files.py:203-206 | A name is written when it is first met, and only then |
| `FuseTheory.FileAsked` | test/src/gtest/scripts/fuse_gtest_files.py:203-206 | and it is met only if an opened file asks for it |
| `FuseExpansion.Fuser.ProcessFile` | test/src/gtest/scripts/fuse_gtest_files.py:152-170 | The recursive closure of either fuser, on the shared processed set and output file, does what the pure depth-first expansion does, in its order |
| `FuseExpansion.Fuser.ProcessLines` | test/src/gtest/scripts/fuse_gtest_files.py:186-213 | The loop over the lines of one file does so for any processed set it finds |
| `FuseHeaders.FuseGTestH` | test/src/gtest/scripts/fuse_gtest_files.py:146-172 | For any headers, cyclic includes too, where a line `#include "gtest/x.h"` leads to include/gtest/x.h: the run ends, fails exactly when some header reachable from gtest.h is missing, and otherwise opens every reachable header exactly once and no other, and writes exactly the other lines of these files, each as often as it stands in them and in its order there |
| `FuseSources.FuseGTestAllCc` | test/src/gtest/scripts/fuse_gtest_files.py:175-215 | The same for the sources from gtest-all.cc, where `#include "src/x"` leads to src/x and, of the gtest headers, gtest-spi.h is opened; the include of the fused header is written exactly once if any opened file asks for a header that went into it, and not at all if none does |
| `FuseSources.HeaderNotExpanded` | test/src/gtest/scripts/fuse_gtest_files.py:193-211 | No line makes the source fuser open the header whose name it notes |
| `PumpRoundTrip.ParserRange` | test/src/gtest/scripts/pump.py:475-574 | A tree comes out of the parser, for some tokens, if and only if it is well formed and no else-less `$if` in it is directly followed by blank code |
| `PumpRoundTrip.RoundTripIffClean` | test/src/gtest/scripts/pump.py:475-574 | For every well-formed tree, written out with or without `$elif`, and every remainder that ends a run of code: parsing gives that tree and exactly that remainder if and only if no `$if` still open for an else is directly followed by blank code, anywhere in the tree |
| `PumpRoundTrip.BlankIsLost` | test/src/gtest/scripts/pump.py:496-498 | An input: `$if c [[]]` and a blank, of which the blank is lost |
| `PumpRoundTrip.CodeRead` | test/src/gtest/scripts/pump.py:475-574 | Without any condition: what comes back is the tree less the blank code behind open `$if`s |
| `PumpRoundTrip.ParseIsStable` | test/src/gtest/scripts/pump.py:475-574 | Writing out whatever was parsed and parsing again changes nothing |
| `PumpRoundTrip.CodeIsProper` | test/src/gtest/scripts/pump.py:475-574 | Every parse result is well formed and free of blank code behind an else-less `$if` |
| `PumpRoundTrip.ElseRead` | test/src/gtest/scripts/pump.py:475-500 | Else branches, `$elif` chains of any length included, are read back whole |
| `PumpRoundTrip.BlanksSkipped` | test/src/gtest/scripts/pump.py:496-498 | Looking for an else, the parser drops all the blank code before the next other node, or before the remainder |
| `PumpRoundTrip.KeptCodeSize` | test/src/gtest/scripts/pump.py:496-498 | A clean tree keeps everything, and any other loses something |
| `PumpForms.CodeTaken` | test/src/gtest/scripts/pump.py:475-574 | What a parse has consumed: the tokens are a written form of the nodes returned, token by token and block by block, followed by the rest, which is empty or starts with a token that starts no node; blank code is passed over only where an `$if` looks for its else |
| `PumpForms.BlockTaken` | test/src/gtest/scripts/pump.py:484-486 | A block consumed is an opening bracket, a written form of its code, and a closing bracket: a block that is not closed is not accepted |
| `PumpForms.ElseTaken` | test/src/gtest/scripts/pump.py:475-500 | An else branch consumed is blank code and then `$else` with a block, `$elif` with a condition, a block and an else branch of its own, or nothing |
| `PumpForms.AtomicTaken` | test/src/gtest/scripts/pump.py:503-561 | A node consumed is the form of that node; where none is, the first token is one of those that start none |
| `PumpParser.ParseAtomic` | test/src/gtest/scripts/pump.py:503-561 | The tokens shrink on every node accepted, and are left as they were when none is |
| `PumpParser.ParseElse` | test/src/gtest/scripts/pump.py:475-500 | The tokens never grow |
| `PumpParser.ParseBlock` | test/src/gtest/scripts/pump.py:484-486 | A block takes at least one token |
| `PumpParser.ParseCode` | test/src/gtest/scripts/pump.py:564-574 | The tokens never grow, so the loop ends |
| `PumpParser.Parser.ParseAtomicCodeNode` | test/src/gtest/scripts/pump.py:503-561 | The in-place routine returns the node, or the error, of the pure parser and leaves its rest in the list |
| `PumpParser.Parser.ParseElseNode` | test/src/gtest/scripts/pump.py:475-500 | The same for else branches |
| `PumpParser.Parser.ParseCodeNode` | test/src/gtest/scripts/pump.py:564-574 | The loop that appends node after node returns the code of the recursive parser |
| `PumpParser.Parser.ParseBlockTokens` | test/src/gtest/scripts/pump.py:484-486 | The three calls that read a block take exactly its tokens |
| `PumpParser.Parser.PopToken` | test/src/gtest/scripts/pump.py:443-460 | Takes the first token, and succeeds exactly when there is one of the kind asked for |
| `PumpInterp.RunAtomicCode` | test/src/gtest/scripts/pump.py:656-699 | Running a node on the caller's environment and output only appends to the output; the text appended and the scope left behind are those of the expansion, whose meaning is spelled out per kind of node in the rows of PumpLaws; `$var` and `$range` put exactly one binding in front of the old ones and every other node leaves the environment as it was |
| `PumpInterp.RunBinding` | test/src/gtest/scripts/pump.py:657-667 | `$var` and `$range` touch the environment only |
| `PumpInterp.RunText` | test/src/gtest/scripts/pump.py:668-695 | and all other nodes touch the output only |
| `PumpInterp.RunCode` | test/src/gtest/scripts/pump.py:702-704 | Running code appends its expansion and puts in front of the environment one binding for each `$var` and `$range` that stands directly in it, latest first, with the old environment intact behind them |
| `PumpInterp.RunFor` | test/src/gtest/scripts/pump.py:672-684 | The loop over a range appends the bodies joined by the separator, and leaves the environment unchanged |
| `PumpInterp.Env.Clone` | test/src/gtest/scripts/pump.py:589-593 | A fresh environment with the same bindings |
| `PumpInterp.Env.PushText` | test/src/gtest/scripts/pump.py:595-603 | One binding more, in front; seen as a scope, the name now means the value stored |
| `PumpInterp.Env.PushRange` | test/src/gtest/scripts/pump.py:608-609 | One range more, in front |
| `PumpInterp.Env.GetValue` | test/src/gtest/scripts/pump.py:614-620 | The search from the front finds the innermost meaning, or none exactly when the name is unbound |
| `PumpInterp.Env.GetRange` | test/src/gtest/scripts/pump.py:632-638 | The same for ranges |
| `PumpInterp.FirstCounts` | test/src/gtest/scripts/pump.py:614-620 | The first binding of a name is its meaning in the scope |
| `PumpExpand.Stored` | test/src/gtest/scripts/pump.py:595-603 | Whatever the host makes of the text as an integer, a variable prints as exactly the text it was set to |
| `PumpExpand.ForIsUnrolled` | test/src/gtest/scripts/pump.py:672-684 | A `$for` means the same, errors included, as its unrolled form: for each value a block that sets the variable by `$var` and holds the body, with the separator between |
| `PumpExpand.UnrolledText` | test/src/gtest/scripts/pump.py:672-684 | The unrolled form has the texts of the bodies, each under the caller's scope plus the loop variable, joined by the separator |
| `PumpExpand.Sequential` | test/src/gtest/scripts/pump.py:702-704 | Code may be cut anywhere: the second part runs in the scope that the first leaves, and its text follows |
| `PumpExpand.Bodies` | test/src/gtest/scripts/pump.py:679-684 | One body for each value from lower to upper, none if upper is below lower |
| `PumpLaws.ThenLaw` | test/src/gtest/scripts/pump.py:683-686 | A condition that is a number other than zero, a text other than the empty one or a true object makes an `$if` mean what the block of its first branch means |
| `PumpLaws.ElseLaw` | test/src/gtest/scripts/pump.py:683-688 | Zero, the empty text or a false object makes it mean the block of its else branch, or nothing if it has none |
| `PumpLaws.NoConditionLaw` | test/src/gtest/scripts/pump.py:683-684 | A condition that cannot be evaluated ends the program |
| `PumpLaws.BlockLaw` | test/src/gtest/scripts/pump.py:694-695 | A block has the text of its code and leaves the scope of the caller, whatever the code binds |
| `PumpLaws.PrintLaw` | test/src/gtest/scripts/pump.py:689-691 | An expression prints its value: a text as it is, an integer as a numeral that denotes it, with a minus sign if it is negative, any other object as the host shows it |
| `PumpLaws.LiteralLaw` | test/src/gtest/scripts/pump.py:681-693 | A literal dollar prints one dollar, and raw code itself |
| `PumpLaws.VarCodeLaw` | test/src/gtest/scripts/pump.py:657-662 | `$var` with code writes nothing, and gives the one name a value that prints as the text of the code, which sees the scope of the caller and changes nothing in it |
| `PumpLaws.VarExpLaw` | test/src/gtest/scripts/pump.py:657-662 | with an expression, a value that prints as the expression does |
| `PumpLaws.RangeLaw` | test/src/gtest/scripts/pump.py:663-667 | `$range` gives the name the first number as lower bound and the second as upper, and changes nothing else |
| `PumpLaws.NoRangeLaw` | test/src/gtest/scripts/pump.py:663-667 | It ends the program if either is no integer |
| `PumpLaws.ForLaw` | test/src/gtest/scripts/pump.py:668-680 | A `$for` writes the texts of its body for the numbers from the lower bound to the upper, each in the scope of the caller with only the loop variable added, with the separator between them and not behind the last |
| `PumpLaws.NoRoundsLaw` | test/src/gtest/scripts/pump.py:668-680 | It writes nothing if the lower bound is above the upper, and ends the program if there is no such range |
| `PumpLaws.StripLaw` | test/src/gtest/scripts/pump.py:658-669 | Names are taken without the white space around them |

## Left out

- RangeParse.Parse: the value of `start * 10 + *p++ - '0'` is the mathematical one; that the sum may overflow on the way for values next to the limit, and the allocation failure for a stored range, are not modelled.
- RangeMultipart.MultipartFilter: if a range does not lie in a buffer that is marked as the last, its window reaches out of the buffer; only the number of its bytes is then known.
- RangeMultipart.MultipartHeader: the random boundary number is a parameter, and the request's pool never runs out.
- Div64.U64Div64: the result pointers are flags that say whether a pointer was given; results that alias each other are not modelled.
- Div64.U64Div32: says nothing about the results when it returns -1.
- Primes.OnTheFlyPrimeTable.IsPrime: integers are unbounded; that `i*i` may exceed a 32-bit int is not modelled.
- Primes.PreCalculatedPrimeTable.constructor: needs max >= 1, as the source does: for a smaller max it clears an entry outside its array.
- Primes.PreCalculatedPrimeTable.GetNextPrime: for p below -1 the source reads outside its array; the model says so and gives no number.
- Primes.HybridPrimeTable.GetNextPrime: the same, where it asks the table.
- Primes.OnTheFlyPrimeTable.GetNextPrime: nor is the wrap of `n` to a negative number that would end the search.
- StrTok.StrTok: the delimiter string is a separate value and not part of the memory that is cut.
- BoundedPrint.VsnprintfS: the formatter is any finite sequence of writer calls with an optional bad end; the text that a format and its arguments give is not modelled, nor is the Windows build.
- PumpInterp.RunAtomicCode: Python's `eval` and `int` are parameters; an expression sees the variables by their innermost meaning only, and has no effects of its own.
- PumpParser.Parser.ParseAtomicCodeNode: positions of tokens, which only error messages use, and the rewriting of expressions for Python are left out; an error is one value.
- VssComponents.VssWriter.DiscoverTopLevel: the platform's case folding is any function on characters.
- nginx: If-Range and ETag, the headers of a single-range and of a refused response, logging, filter registration, and the ranges that a subrequest copies from its main request. The buffer macros of nginx (`ngx_buf_size`, `ngx_buf_special`, `ngx_buf_in_memory`) are not part of the repository; they are modelled by their published meaning.
- gtest-port.cc: the POSIX variant of the regular expressions, error messages of the validator, captured streams, flags and environment variables.
- securec: `memcpy_s`, `memset_s` and `memmove_s`, the unrolled copies of short strings (a plain copy here), scanning, and the wide-character variants.
- pump.py: the tokenizer, `WrapCode` and the other line wrapping, and the command line.
- fuse_gtest_files.py: the file system is a map from paths to lines that have been classified by the script's patterns; directory checks and path normalisation are left out.
- VSS: the COM calls, volume queries, and the sorting of the affected paths behind the loop.
