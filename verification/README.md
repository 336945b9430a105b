# A verified model of the decoders and loggers

Dafny 4.11 models of the parts of this repository that take bytes from the network and turn them into
log lines and values: the inflater, the JSON tokenizer, WebSocket framing, line logging with the
sockets' state machine, and three smaller parser and printer pairs. Code that changes things in place
is modelled by classes, arrays and loops; each method is proved against a function or a predicate, and
what the code is for is proved about those as lemmas over all inputs. `dafny verify dfyconfig.toml`
checks everything.

| files | subject |
|---|---|
| `Options`, `Strings`, `Decimals` | small helpers |
| `Bits`, `BitOps`, `Huffman` | bits of a byte string, machine shifts and masks, canonical codes |
| `Deflate`, `Decoder`, `Inflation`, `Overrun`, `Encoder`, `Tables` | the format of RFC 1951 as a printer, the decoder as a function of the bit position, why they are inverse, and which error when |
| `Published` | the numbers printed in RFC 1951 |
| `Tinflate` | `src/tinflate.c` |
| `Tokenizer`, `Lexis`, `TokenTree`, `Brackets`, `JsonText`, `Jsmn` | `src/jsmn.c` |
| `Frames`, `Ws`, `Sending`, `Framing` | `ws_recv` and `ws_send` of `src/ws.c`, the two together, and frames from any sender |
| `Search`, `Massage`, `MassageText` | `xmemmem`, and the unpacking of data strings in `src/btsp.c` |
| `LineLog`, `Snarfer`, `Liveness` | line logging and the life of the sockets in `src/wssnarf.c` |
| `Version`, `VersionText`, `Fix` | `build-aux/yuck-scmver.c`, `src/fix.c` |

Inflate. `Deflate` says what a stream of stored, fixed and dynamic blocks is in bits and what it stands
for in bytes. `Decoder` follows every branch of the C code, with a symbol being the one whose canonical
code stands at the bit position. Decoding succeeds if and only if the input begins with a stream whose
expansion fits, and then gives that expansion; a stream whose expansion does not fit is a buffer error.
A buffer error means just this: whole blocks, and then whole tokens of one more, that stand in front of
the input expand to more than the destination holds (`BufferErrorExact`). The bits of the last of these
tokens behind its first code may lie past the end of the input, where the code reads zeros. Everything
else is a data error, a match that reaches back too far among it. The imperative inflater computes
exactly that. Between reads it holds fewer than eight bits, which is why a stored block loses no byte.
The code for a tree with a single one-bit code hands the other bit to a symbol that is then refused.

JSON. One step of the parser is a function of its state; a run is its iteration. The single cursor
`toksuper` and the parent links act as a bracket stack, except for a closing bracket outside any
container, which this non-strict build may let through. `Brackets` decides every text with a stack of
brackets, and outside brackets with the place a colon or comma leaves the cursor at; its verdict is that
of the parser, on all texts. Which strings and primitives it reads is stated without the scans
(`Lexis`): control characters are let through in strings, and every escape is checked. String errors are
returned by `jsmn_parse` as -1 (src/jsmn.c:189-190), which the header calls NOMEM, although the string
parser distinguishes them; the model follows the code. The loops of the consumers that skip a container
look at the place behind the last token; `SkipSubtree` says when that takes them too far.

WebSockets. `Frames` reads the frames of section 5.2 of RFC 6455 from a whole stream. A connection's
invariant says that what was received is what was consumed followed by what is stashed, and that what
was handed on is the payload of what was consumed. Items handed on are tagged as data or as separating
newline, since the code puts out the newline due at the end of a read and again before the next header.
The pending length is an unsigned 64-bit number without further assumption. An opcode the code does not
know aborts the program and is an outcome here; the abort for a read index past the end is unreachable.
The newline behind the last item falls one byte behind the size given exactly if the bytes read are all
payload of the frame under way and fill that size; only then must the buffer have a byte more.
`Framing` prints frames from any sender, with each form of the length, with and without a key, reserved
bits set or not; reading inverts printing, and what is handed on is the payload of all but pongs.
Messages are related to lines if pings and closes carry no payload: the code puts a newline behind each
part of such a payload, so that the lines would depend on where the reads are cut. A ping or close ends a
message, a pong neither adds to one nor ends it.

A header is unpacked only when 14 bytes are there, and when 15 are if it does not start what was stashed
and read. So not everything sent is handed on: counting from the last frame with a payload to the end of
what was sent, more than 14 bytes are always enough (`AllReceived`), fewer are not enough for any cut into
reads (`NeverReceived`), and just 14 are always enough if they are all that was sent, but not if they
follow other frames and all is read in one go (`ReadAtOnce`). In the 64-bit branch of `ws_send` the words
of the length come out reversed on a little-endian host: `SendHeaderExact` says for which lengths the
header is right.

Unpacking of data strings. `Massaged` is nothing when the C code would read on behind the text, that is
when white space behind the token or a string runs into its end. `MassagedExact` gives a grammar for
all other texts and their results.

Logging. A time stamp is 20 bytes and a tab follows. The massage hook is any function of the line that does
not lengthen it. The hook of `src/btsp.c` is such a function on the lines it reads to their end and no
further. On others it is not: behind `"data":` it takes the newline for white space, and goes on reading,
and possibly writing, behind the line (`LineLeft`). What is logged with this hook is stated for lines it
stays within (`UnpackedLog`). The socket state machine takes the results of hooks, openings, reads and the
idleness test from outside, in any order, and may go on after the event loop was told to stop, so that it
has more runs than the program. `Liveness` says what does happen: a web socket that nothing refuses never
falls back and has joined from the first `prepare` on in which every hook accepts; it stays joined, open
and unchanged until it is idle, its heart stops or the user interrupts; and then it is closed.

Version strings. `VersionText` prints both forms, vTAG-DIST-SCM REVISION and vTAG.SCM DIST.REVISION, and
says exactly when reading gives back what they mean. A name of an SCM found in the tag ends it, and .git
is looked for before .bzr, and that before .hg, so that a tag before .git may hold the other two. A tag
of exactly 16 characters fills its field, and its terminator falls on the distance, which is read
afterwards; the model keeps the 16 characters. Likewise, a tag that just fills the buffer it is written
to has its terminator put one character behind the buffer; `WrVersion` says that this is the only case.

FIX. The sequence number wraps at 2^32 to zero, which prints no digit. Parsing may look at characters
behind the size given, which the caller must have there (`InReach`), and the length it returns for a
shorter text wraps around; the model has both.

## Model

| member | source | states |
|---|---|---|
| Tinflate.Tree.Build | src/tinflate.c:110-174 | The builder accepts exactly the lists with no code, one code of one bit, or at least two codes with Kraft sum one; the tree then has the counts and the sorted symbols of the canonical code, the single code completed by its other bit. |
| Tinflate.Tree.Offsets | src/tinflate.c:134-146 | The space left and the offsets are those of the canonical code; it gives up only on lists that may not be sent. |
| Tinflate.Tree.Fill | src/tinflate.c:157-162 | The symbols end up in the slots given by length first and number second. |
| Huffman.SortedTable | src/tinflate.c:157-162 | Such a table holds exactly the used symbols, strictly ordered by length, then symbol. |
| Huffman.PrefixFree | src/tinflate.c:226-260 | At most one symbol has its canonical codeword (section 3.2.2 of RFC 1951) at a position. |
| Huffman.CountFits | src/tinflate.c:134-146 | While the Kraft sum is at most one, no length has more codes than space left, so that the builder does not give up. |
| Huffman.AvailKraft | src/tinflate.c:134-155 | What is left behind length 15 is twice what the Kraft sum lacks to one. |
| Tinflate.BuildDecision | src/tinflate.c:148-155 | The two final tests of the builder are the Kraft condition. |
| Tinflate.DecodeStep | src/tinflate.c:229-255 | The loop invariant of symbol decoding: `offs` is the bits so far minus the first code of that length, and stays below the space left. |
| Tinflate.SymbolInTable | src/tinflate.c:257-259 | Base plus offset is inside the table and holds the symbol whose codeword was read. |
| Tinflate.Inflater.DecodeSymbol | src/tinflate.c:226-260 | On any bits, reading a complete code stops within 15 of them and consumes exactly the codeword of the symbol returned. |
| Decoder.SymbolIs | src/tinflate.c:226-260 | A codeword, whatever follows it, is decoded as its symbol. |
| Tinflate.Inflater.Refill | src/tinflate.c:178-194 | The held bits and the remaining bytes are the unread suffix of the bit string, zeros past the end being flagged; for every request that leaves at most 32 bits held, as the source asserts. |
| Tinflate.Inflater.GetBitsNoRefill | src/tinflate.c:196-210 | A field is the next bits, least significant first, and the reader moves on by them. |
| Tinflate.Inflater.GetBits | src/tinflate.c:213-217 | The same, leaving less than a byte held. |
| Tinflate.Inflater.OverflowIff | src/tinflate.c:178-193 | Between reads the overflow flag says exactly that a bit past the end was read. |
| Bits.FieldTakeDrop | src/tinflate.c:196-210 | Masking and shifting the held bits splits a field into the part read and the rest. |
| BitOps.OrAbove | src/tinflate.c:178-193 | Oring a shifted byte above the held bits is adding it. |
| Tinflate.FixedLiteralTree | src/tinflate.c:67-101 | The fixed literal table is the one built from the lengths of section 3.2.6 of RFC 1951. |
| Tinflate.FixedDistanceTree | src/tinflate.c:67-107 | So is the fixed distance table. |
| Inflation.FixedUsable | src/tinflate.c:67-107 | Both fixed codes are complete. |
| Tables.LengthTablesAgree | src/tinflate.c:393-404 | The length tables are the closed forms used in the model. |
| Tables.DistTablesAgree | src/tinflate.c:406-417 | So are the distance tables. |
| Tables.OrderTableAgrees | src/tinflate.c:269-272 | And the order of the code length codes. |
| Published.LengthCodes | src/tinflate.c:393-404 | Extra bits and first lengths are those of section 3.2.5 of RFC 1951. |
| Published.DistanceCodes | src/tinflate.c:406-417 | So are those of the distances. |
| Published.CodeLengthCodes | src/tinflate.c:269-272 | The order is that of section 3.2.7 of RFC 1951. |
| Published.Repeats | src/tinflate.c:332-350 | The repeat codes reach as far as section 3.2.7 of RFC 1951 says. |
| Published.FixedCodes | src/tinflate.c:67-101 | The canonical codes of the fixed lengths are the codes printed in section 3.2.6 of RFC 1951. |
| Published.FixedDistances | src/tinflate.c:99-107 | And five bits each for the distances. |
| Published.AcceptableExact | src/tinflate.c:110-174 | A list is acceptable if and only if no symbol has a code, or just one has, of one bit, or the Kraft sum is one. |
| Inflation.HeaderSound | src/tinflate.c:263-387 | A dynamic header accepted is the printed form of a run-length coded pair of acceptable length lists. |
| Inflation.HeaderComplete | src/tinflate.c:263-387 | Every such header, with runs crossing from literal to distance lengths, is read back to those lists. |
| Inflation.LengthsSound | src/tinflate.c:324-364 | The run-length loop yields the expansion of the steps printed in front of it. |
| Tinflate.Inflater.DecodeTrees | src/tinflate.c:263-387 | The imperative header decoder does what the header function says and leaves both trees built. |
| Tinflate.Inflater.CopyMatch | src/tinflate.c:472-477 | Copying front to back appends the extension of the output and changes nothing before or behind it. |
| Encoder.ExtendPeriodic | src/tinflate.c:472-477 | That extension repeats the last `d` bytes with period `d`, overlapping or not. |
| Tinflate.Inflater.PutMatch | src/tinflate.c:464-477 | A match too far back is a data error, one without room a buffer error; the room test is exact. |
| Tinflate.Inflater.InflateBlockData | src/tinflate.c:390-480 | The symbol loop terminates on every input by the real bits unread, and ends as the token reader says; no byte already out changes. |
| Inflation.TokensSound | src/tinflate.c:419-479 | Bits read up to the end of a block are the printed form of valid tokens whose expansion is the output. |
| Inflation.TokensComplete | src/tinflate.c:419-479 | Printed tokens are read back and written until one does not fit or reaches back too far. |
| Tinflate.Inflater.InflateUncompressedBlock | src/tinflate.c:483-522 | Reading from `source` and dropping the held bits skips to the byte boundary and loses no byte. |
| Inflation.StoredIff | src/tinflate.c:483-522 | The length check accepts exactly the printed form of section 3.2.4 of RFC 1951. |
| Inflation.InflateInverts | src/tinflate.c:552-609 | For every valid stream of blocks, followed by anything, decoding gives the expansion if it fits, and otherwise a buffer error. |
| Inflation.InflateWrites | src/tinflate.c:552-609 | On every valid stream decoding ends as writing its tokens and data one by one does, matches reaching back too far included. |
| Overrun.BufferErrorExact | src/tinflate.c:419-522 | Decoding ends in a buffer error if and only if whole blocks, and then whole tokens or the stored data of one more block, stand in front of the input and expand to more than the destination holds; every other failure is a data error. |
| Overrun.TokensOver | src/tinflate.c:419-470 | At a buffer error within a block the tokens read, up to the one that does not fit, stand in the input, and none of them reaches back too far. |
| Inflation.InflateExact | src/tinflate.c:552-609 | Decoding succeeds with an output if and only if the input begins with a stream for it and it fits. |
| Tinflate.Uncompress | src/tinflate.c:552-609 | The imperative inflater succeeds exactly on inputs that begin with a fitting stream, sets the length and stores the expansion; it returns a buffer error exactly on inputs of which whole blocks and tokens in front expand to too much; it writes only inside the destination. |
| Encoder.CopyExact | src/tinflate.c:393-417 | Every length from 3 to 258 and distance from 1 to 32768 has a token. |
| Encoder.RoundTrip | src/tinflate.c:552-609 | A packed stream with any bytes behind it inflates to its expansion. |
| Encoder.LiteralRoundTrip | src/tinflate.c:525-533 | Any data written as literals of a fixed block comes back. |
| Encoder.DynamicEncodable | src/tinflate.c:263-387 | Every two acceptable lists of code lengths with an end-of-block code have a valid header, so every sequence of tokens they have codes for is a dynamic block. |
| Jsmn.Parser.AllocToken | src/jsmn.c:6-18 | A token is taken as long as there is one, with no end, no children and no parent; no other changes. |
| Jsmn.Parser.ParsePrimitive | src/jsmn.c:23-64 | The next token spans the primitive, or the call fails and moves nothing. |
| Jsmn.Parser.ParseString | src/jsmn.c:69-128 | The next token spans the string, escapes checked, or the call fails and moves nothing. |
| Lexis.StringExact | src/jsmn.c:79-127 | A string is read up to a place if and only if there is a quote and before it are characters other than quote, backslash and NUL, the eight escapes of one character, and `\u` with four hexadecimal digits. |
| Lexis.PrimitiveExact | src/jsmn.c:30-64 | A primitive is read up to a place if and only if it is the first where one can end and all before is printable. |
| Lexis.PrimitiveRefused | src/jsmn.c:41-44 | It is refused if and only if a character below 32 or from 127 on comes first. |
| Jsmn.Parser.CloseBracket | src/jsmn.c:161-188 | The walk over parent links is one step of the parser at a bracket. |
| Jsmn.Parser.Parse | src/jsmn.c:133-249 | Filling ends in the code, tokens, position and cursor of the run function; counting returns its count. |
| Tokenizer.Resumable | src/jsmn.c:137-152 | Going on with a larger array after a run that stopped, for whatever reason, ends as one run with the larger array. |
| Tokenizer.LessRoom | src/jsmn.c:6-18 | A run with less room ends as with more, or reports that all tokens are used, and they are. |
| Tokenizer.CountAgrees | src/jsmn.c:51-63 | Whenever filling succeeds, counting returns the same number. |
| TokenTree.StepInv | src/jsmn.c:150-237 | Every step keeps: parents precede children, starts increase, every open token is on the parent chain of the last token and of the cursor, spans nest or are disjoint. |
| TokenTree.RunInv | src/jsmn.c:133-249 | So does every run, whatever the bytes. |
| TokenTree.WalkFindsLast | src/jsmn.c:169-186 | Following parents from the last token finds the innermost open one. |
| TokenTree.CloseExact | src/jsmn.c:161-188 | A closing bracket closes the innermost open container if the kinds match and is refused otherwise; with nothing open it changes no token, and is let through under an exact condition. |
| Brackets.RunJudges | src/jsmn.c:133-249 | With enough tokens a run is what the judge of brackets says, on every text: it succeeds exactly on what is found balanced, and otherwise returns the code of the first fault. |
| Brackets.StrayAccepted | src/jsmn.c:161-188 | A text with a bracket outside any container that is accepted, and one that is not. |
| TokenTree.SuccessForest | src/jsmn.c:239-249 | After success all tokens are closed, starts strictly increase and spans nest or are disjoint. |
| TokenTree.SkipSubtree | src/btsp2b.c:290-296 | The skip loop of the consumers lands behind a token and exactly everything inside it among those in use; it runs past the last one in use exactly if the token is outermost and last and the place behind starts before its end. |
| JsonText.JsonTokens | src/jsmn.c:133-249 | For every JSON value (sections 4 to 7 of RFC 8259), with any white space, tokenizing its text gives the node count and the pre-order flattening: kinds, spans, sizes, values parented by their key. |
| Frames.FeedConcat | src/ws.c:643-705 | A stream can be cut at any point outside a header without changing frames or payload. |
| Framing.HeaderRead | src/ws.c:647-674 | All parts of a header are read as section 5.2 of RFC 6455 writes them: final bit, opcode, each of the three length forms, and the key skipped exactly if there is one. |
| Framing.FramesRead | src/ws.c:643-716 | For every list of such frames reading inverts printing: frame ends, payloads but for those of pongs, supported kinds, and messages. |
| Framing.FramesReceived | src/ws.c:607-729 | Every connection that receives them, in any reads, hands on a first part of those payloads and messages, and all once nothing is stashed or outstanding. |
| Framing.SendShown | src/ws.c:731-784 | What is sent is a final text frame with no reserved bit and a key of zero, exactly if a receiver understands its length. |
| Ws.Connection.Unpack | src/ws.c:647-680 | A header is copied out before anything is written over it, its three length forms and the mask bit are read, and the newline due is written. |
| Ws.Connection.PutPayload | src/ws.c:682-722 | What there is of a payload is moved down, the write index moving on by it; unknown opcodes abort, pongs are dropped; a newline is due behind any part of a ping or close and behind the end of another final frame but a pong. |
| Ws.FrameStep | src/ws.c:647-722 | A header and a first part of its payload keep the delivered items in step with the stream. |
| Ws.Connection.Stash | src/ws.c:718-728 | At most 14 bytes are kept, none inside a payload, and received is consumed followed by stashed. |
| Ws.Connection.Recv | src/ws.c:607-729 | Every read keeps the invariant: the payload delivered, newlines apart, is that of the consumed frames, and a frame is started only with 14 bytes there, 15 if behind another; an abort happens only on an unsupported opcode; the byte behind the size given is needed exactly if payload under way fills it. |
| Ws.Pump | src/ws.c:607-729 | Over every list of reads, everything read is consumed or stashed, and nothing aborts if all frames are supported. |
| Ws.ChunkingIndependent | src/ws.c:607-729 | Two connections that received the same bytes in different reads differ by at most 14 bytes, and the payload of one is the other's and what those bytes bring. |
| Sending.SendHeaderExact | src/ws.c:731-756 | The header sent is complete and says the right length exactly below 65536 bytes and for longer lengths whose 16-bit words read the same backwards. |
| Sending.Sender.Send | src/ws.c:758-784 | Header and payload stand in the buffer, grown if need be, as the frame sent; without memory for that nothing is sent and there is no buffer. |
| Sending.SentStream | src/ws.c:731-784 | Frames sent one after the other are text frames whose messages are the non-empty payloads. |
| Sending.SendReceive | src/ws.c:607-784 | Payloads sent and cut into any reads are received as lines in order, a prefix of them whatever is still to come. |
| Sending.AllReceived | src/ws.c:635-728 | All payloads sent are received, for every cut, if more than 14 bytes were sent from the last frame with a payload on, or just 14 in all. |
| Sending.NeverReceived | src/ws.c:635-640 | With fewer than 14 bytes from there on, the last payload is not handed on, for no cut. |
| Sending.ReadAtOnce | src/ws.c:714-723 | With just 14 bytes, behind other frames, it is not handed on when all is read in one go. |
| Sending.Boundary | src/ws.c:714-723 | A frame boundary in what was sent is one between two payloads. |
| Search.LastForced | src/ws.c:107-113 | Equal sums of exclusive ors and all but the last byte equal make the last byte equal. |
| Search.XMemMem | src/btsp.c:24-78 | The rolling search finds the leftmost occurrence, or nothing if and only if there is none, as the naive search does. |
| Search.XMemMemEnd | src/ws.c:61-117 | The variant that points behind it. |
| Massaging.NextData | src/btsp.c:81-109 | The opening quote found is where unpacking goes on; without one the text stays; where reading leaves the text, unpacking is undefined. |
| Massaging.Massage | src/btsp.c:111-148 | Done in place, with writing behind reading, the result is that of the function on the original text; bytes behind the text do not change. |
| MassageText.MassagedExact | src/btsp.c:81-148 | A text unpacks to a result if and only if it is a list of pieces around tokens of which the result is the text with each data string unquoted and its backslashes dropped. |
| MassageText.EscapeUndone | src/btsp.c:128-138 | Any content, escaped, comes back. |
| MassageText.MassagedShorter | src/btsp.c:111-148 | Unpacking never lengthens a text. |
| LineLog.LinesExact | src/wssnarf.c:156-178 | Lines and tail are the one way to cut a text behind its newlines. |
| LineLog.LinesConcat | src/wssnarf.c:374-377 | With more text coming, the tail and that text make the further lines. |
| LineLog.Buffer.LogWss | src/wssnarf.c:156-178 | Each complete line is written once, massaged, behind stamp and tab, though lines are moved to the front of the buffer being scanned; what follows them is untouched. |
| LineLog.Buffer.Reserve | src/wssnarf.c:283-288 | The growth step keeps the contents and leaves at least 4000 bytes free. |
| LineLog.Buffer.Receive | src/wssnarf.c:374-381 | Over every run of reads since a reset, the bodies logged are the massaged lines received, and the residue is the unterminated tail. |
| LineLog.UnpackedLog | src/wssnarf.c:156-178 | With the hook of btsp, as long as it stays within the lines, what is logged is the lines with their data strings unpacked. |
| LineLog.LineLeft | src/btsp.c:94-106 | A line within which the hook of btsp does not stay. |
| Snarfer.StepInv | src/wssnarf.c:303-341 | Every event keeps: live sockets are open and watched, finished ones closed, and what a state needs was accepted in order. |
| Snarfer.JoinedSafely | src/wssnarf.c:702-795 | A web socket has joined only after connection, authentication and join were accepted in this order since it was opened. |
| Snarfer.LiveOpen | src/wssnarf.c:702-795 | From CONN to JOIND a socket is open. |
| Snarfer.FinishedForGood | src/wssnarf.c:764-795 | From FINI only FINI, NODATA and INTR are reached, and the socket stays closed. |
| Snarfer.OpenedOnce | src/wssnarf.c:598-632 | A web socket is never opened a second time. |
| Liveness.Joins | src/wssnarf.c:702-779 | While nothing refuses, is idle, dead or interrupted, a web socket never falls back, and from a `prepare` on in which every hook accepts it has joined and is open. |
| Liveness.StaysJoined | src/wssnarf.c:769-776 | A web socket that has joined stays as it is in every run without an idle `prepare`, a stopped heart or an interrupt. |
| Liveness.LeavesJoined | src/wssnarf.c:567-595 | It is left by the first such event, and by no other. |
| Liveness.IdleCloses | src/wssnarf.c:769-783 | An idle one is closed by the next `prepare`; a REST socket is not. |
| Liveness.Stopped | src/wssnarf.c:567-595 | A stopped heart and an interrupt change the state alone, and the next `prepare` closes the socket. |
| Liveness.OneGo | src/wssnarf.c:712-767 | With all hooks accepting, one `prepare` goes from not opened to joined, with the acceptances in order. |
| Liveness.NotOpened | src/wssnarf.c:715-718 | A socket that cannot be opened is finished. |
| Liveness.Waits | src/wssnarf.c:724-766 | A hook that waits leaves the state that asks; one that refuses closes the socket or sends it back to the state before. |
| Liveness.Answered | src/wssnarf.c:303-341 | An answer that accepts takes a web socket one phase on; any other leaves it. |
| Liveness.ComesBack | src/wssnarf.c:517-532 | A REST socket that fails to read is opened again, and has joined again. |
| Snarfer.Context.PrepareAll | src/wssnarf.c:702-795 | `prepare` takes every socket one step. |
| Snarfer.Context.PrepareOne | src/wssnarf.c:712-789 | The switch with its cases falling through is that step. |
| Snarfer.Context.WsCb | src/wssnarf.c:303-341 | Reads of a web socket are their step. |
| Snarfer.Context.RestCb | src/wssnarf.c:500-549 | A failed read of a REST socket closes it for another opening. |
| Snarfer.Context.HbeatCb | src/wssnarf.c:567-581 | A failed heartbeat or inactivity is its step, of one socket only. |
| Snarfer.Context.SigintCb | src/wssnarf.c:583-595 | An interrupt takes all sockets their step. |
| Decimals.DecimalValue | src/fix.c:89-96 | A numeral has the value it was printed for. |
| Versions.Hextou | build-aux/yuck-scmver.c:221-271 | The first seven hex digits and their number, in 32 bits, with all digits read over. |
| Versions.NormalRevision | build-aux/yuck-scmver.c:584-585 | A printed revision is read back the same exactly if its digit count is from 1 to 7 and enough. |
| Versions.Version.RdVersion | build-aux/yuck-scmver.c:422-553 | Reading on any string is the reading function, refusals included. |
| Versions.Version.WrVersion | build-aux/yuck-scmver.c:555-595 | The string is in the buffer if it fits, and it is refused only with too little to spare; a terminator is put behind the buffer exactly if the tag fills it. |
| Versions.RoundTrip | build-aux/yuck-scmver.c:422-595 | Writing and reading give back a version if and only if its tag holds nothing that ends a tag, what is not printed is not there, and the revision's digit count is right. |
| Versions.AlternativeInTag | build-aux/yuck-scmver.c:459-480 | The search for the other form over all of what was written finds it inside the tag or nowhere. |
| VersionText.TextRead | build-aux/yuck-scmver.c:422-553 | For both forms of the string, SCM, tag, distance, revision and dirty flag are read as meant if and only if nothing in the tag is taken for its end, the tag has at most 16 characters and the distance fits 32 bits. |
| VersionText.RefusedExact | build-aux/yuck-scmver.c:435-513 | A string is refused if and only if it starts with neither v nor digit, or holds no name of an SCM and has a full stop behind the distance. |
| VersionText.NumberRead | build-aux/yuck-scmver.c:490-493 | The distance is read over white space and sign, cut at 64 bits and negated by a minus. |
| VersionText.WrittenText | build-aux/yuck-scmver.c:555-595 | What is written is such a text, with the letter g, b or h of its SCM. |
| Fix.BackwardsNumeral | src/fix.c:89-96 | Digits written from the last and turned around are the numeral. |
| Fix.PutNumeral | src/fix.c:88-97 | The digit loops put the numeral into the buffer. |
| Fix.ChkSum | src/fix.c:24-31 | The byte sum modulo 256. |
| Fix.RenderedFrame | src/fix.c:123-139 | CheckSum is the byte sum of all before it, modulo 256; BodyLength is right exactly below 1000, and then the message is framed as FIX demands. |
| Fix.Session.Render | src/fix.c:71-144 | The buffer holds the rendered message; the n-th one after a reset carries n, before the number wraps. |
| Fix.BodyText | src/fix.c:77-121 | The body is type, number, sender if there is one, time, target and the user's fields. |
| Fix.MessageText | src/fix.c:71-144 | The message is version, length, body and checksum. |
| Fix.ParseExact | src/fix.c:152-172 | A message is parsed if and only if it starts with the version, a BodyLength of one to five characters, the first not looked at, and the tag of the type. |
| Fix.ParseHead | src/fix.c:173-179 | The type is one character, and a second one is skipped. |
| Fix.ParseMessage | src/fix.c:146-187 | Parsing is the parsing function, for every buffer that holds what is looked at, and turns separators into NUL in place. |
| Fix.ParseRendered | src/fix.c:71-187 | A rendered message parses to its type and its fields with NUL for SOH, the user's as they were exactly if they hold no SOH. |

## Left out

- Sockets, TLS, the HTTP upgrade, socket.io sessions, libev, files and clocks: reads are arbitrary chunks, hooks arbitrary results, time stamps parameters.
- `rest_recv` and `rest_send`: a heuristic scan of HTTP without a stream contract.
- Unmasking of received frames, which the code does not do, and the pong sent in answer to a ping.
- Sending.Sender.Send: the buffer shared by connections is one sender's.
- Sending.SendReceive: for payloads whose header says the right length; others are not received as sent.
- LineLog.Buffer.Receive: the residue moved is the true one, while the C code copies 21 further bytes that mean nothing; the inflate step between read and log, and the failure path that logs past what was read, are not part of this model.
- LineLog.Buffer and Snarfer.Context are separate: which callback resets or fills which buffer is not connected to the socket's state.
- TokenTree.SkipSubtree: some place of the array must start behind the token, as the source needs to stay within it.
- Jsmn.Parser.AllocToken: the start of -1 that every caller overwrites at once.
- LineLog.UnpackedLog: what becomes of a line that the hook of btsp reads on behind.
- Massaging.Massage: what the C code reads behind the text when white space or a string runs past its end; the outcome says only that it does.
- Tinflate.Uncompress: source and destination do not overlap.
- Versions.Version.RdVersion: the search functions are called as functions; the string ends in NUL.
- VersionText.TextRead: for strings with at least one digit of distance.
- Fix.Session.Render: the source never checks the size of the buffer, so that it must be large enough; the contents of the time stamp are a parameter.
- Anchors of data strings other than `"data"`, the converters apart from the skip loop, the subscriptions of the exchanges.
- `src/hash.c`, where a specification would repeat the code; `build-aux/yuck.c`, templates and makefiles; SCM detection.
