# Verified model of io-imap

io-imap is a set of I/O-free IMAP coroutines: each is a state machine that is
resumed with whatever octets the transport happened to deliver and answers with
what it wants next (a tag, a read, a write, a body to stream) or with its
result. This project models the parts whose correctness is not visible in any
single function and proves what they promise over every input, every way of
cutting the server's octets into reads and every run.

State that the source updates in place is a `class` whose methods update the
same fields; loops are loops. Each method is proved against a specification
function (or a reference parser that sees the whole stream at once), and the
properties are proved about that specification.

| files | what they model |
|---|---|
| `Octets`, `Ids` | octets, fields, decimal notation, 32-bit ids and the order of a B-tree map |
| `Base64`, `Utf16`, `MailboxName` | mailbox names in modified UTF-7 |
| `LineScanner`, `UidToken`, `FetchBatch`, `FetchClient`, `FetchStream`, `StartTls` | the incremental line reader and what is built on it: streamed FETCH, many bodies or one, with the client loops that pump them, and STARTTLS |
| `WatchLedger`, `WatchOrder`, `Watch`, `UidRanges` | the mailbox watcher: its shadow, its event queue, both ways of computing deltas and the order they tell events in |
| `Parser`, `Send`, `Append`, `AppendStream`, `Raw` | the send primitive, buffered and streamed APPEND, the raw passthrough |
| `SortOrder`, `Sort` | the client-side SORT fallback |
| `CopyUid` | the lenient COPYUID reader |

Other code enters as a parameter that may be any function: the response grammar
(`announce` and `terminal` of one complete line, the steps a parser still has
queued), the command encoder, the tag syntax, the base64 decoder (any one that
inverts the encoder), the date parser, the conversion of a text to a mailbox.
The server enters as an arbitrary octet stream, and the transport as reads of
arbitrary size.

## What the code does that its documentation does not say

- `src/lib.rs:68-69` says that a send pauses before a synchronising literal
  until the server's continuation. It pauses until the next read that reaches
  the parser: half a line, which completes nothing, is enough
  (`Send.LiteralWithoutContinuation`). The late continuation then ends the
  exchange with no tagged status. The continuation is there for the literal
  exactly when that read completes one (`Send.ReadAtPause`).
- `src/rfc3501/append_stream.rs:276-278` says that a synchronising body waits for
  the server's `+`. It waits once, while a mailbox sent as a synchronising
  literal goes out inline before it (`src/rfc3501/append_stream.rs:254-256`) and
  takes that `+`. There is one wait per synchronising literal exactly when none
  precedes the message (`AppendStream.WaitPerLiteral`); otherwise the body may go
  out early and the run end as if unanswered (`AppendStream.MailboxLiteral`).
- `src/client.rs:1130` declares the length of a streamed message truncated to 32
  bits while `src/client.rs:1152` streams it in full, so the octets are those of
  the buffered form exactly when the message is shorter than 2^32
  (`Append.SameOctets`).
- `src/rfc3501/starttls.rs:234-266` looks at lines that came in with the greeting
  only once something more is read. The upgrade is noticed exactly when the read
  that completed the greeting left something to read (`StartTls.Upgrade`); if
  not, the exchange ends in `Eof` although the tagged line is already buffered
  (`StartTls.ClosedWithGreeting`).
- `src/watch.rs:18-19` calls the events of the two delta paths identical. For a
  truthful answer they are the same events, each once (`WatchLedger.PathsAgree`),
  but not always in the same order (`WatchLedger.OrderDiffers`). They come in the
  same order exactly when the answer names removals, and reports messages that
  differ, in ascending order (`WatchOrder.SameOrder`), and they are identical
  exactly when moreover its reports carry the items of the snapshot
  (`WatchOrder.Identical`).
- `src/rfc3501/mailbox.rs:36` calls decoding the inverse of encoding. It is on
  every encoded name (`MailboxName.RoundTrip`); a name from the wire is encoded
  back to itself exactly when it is canonical (`MailboxName.WireRoundTrip`), which
  leaves out padded shifts, `/` in a shift, shifts holding printable characters
  or ill-formed UTF-16, and adjacent shifts (`MailboxName.NotCanonical`).

## Model

| member | source | states |
|---|---|---|
| Octets.DecimalPlaces | src/rfc3501/copy.rs:274 | decimal notation: a digit counts ten times for each digit after it |
| Base64.LetterMeaning | src/rfc3501/mailbox.rs:89-95 | the letter of a sextet is its entry in Table 1 of RFC 4648 |
| Base64.GroupMeaning | src/rfc3501/mailbox.rs:89-95 | the letters of a group are its 24 bits, six at a time, highest first; those of a shorter group its bits followed by zeros |
| Base64.EncodeMeaning | src/rfc3501/mailbox.rs:89-95 | groups of three octets encode one after the other, a shorter last one to as many letters as hold its bits, filled up when padded |
| Base64.DecodeEncode | src/rfc3501/mailbox.rs:89-95 | base64 as the codec computes it, by sextets, decodes to the octets it encoded, padded or not, whatever the tail |
| Base64.EncodeDecode | src/rfc3501/mailbox.rs:143-146 | a canonical text (alphabet, length, zero trailing bits, right padding) is the encoding of what it decodes to |
| Base64.ReencodeCheck | src/rfc3501/mailbox.rs:138-148 | for any decoder inverting the encoder, encoding its result again gives the text back exactly when the text is canonical, and then the octets are determined |
| Utf16.EncodeCharMeaning | src/rfc3501/mailbox.rs:72-74 | a character of the first plane is itself, any other the ten upper and the ten lower bits of what it exceeds that plane by (section 2.1 of RFC 2781) |
| Utf16.BigEndianMeaning | src/rfc3501/mailbox.rs:74 | each unit is two octets, the higher one first |
| Utf16.LoneSurrogate | src/rfc3501/mailbox.rs:110-111 | a surrogate that is no half of a pair decodes to one replacement character, what surrounds it to itself |
| Utf16.DecodeEncode | src/rfc3501/mailbox.rs:72-75 | the UTF-16 units of any string of scalar values, surrogate pairs included, decode losslessly to it |
| Utf16.EncodeDecode | src/rfc3501/mailbox.rs:150-153 | units decode to a string that encodes back to them exactly when every surrogate is paired |
| Utf16.FromToBytes | src/rfc3501/mailbox.rs:72-75 | big-endian octets of a string read back as that string, an even number of them |
| Utf16.ToFromBytes | src/rfc3501/mailbox.rs:149-153 | well-formed octets read as a string are the octets of that string |
| MailboxName.PrintableMeaning | src/rfc3501/mailbox.rs:64 | the characters sent as they are, listed |
| MailboxName.FlushShifted | src/rfc3501/mailbox.rs:84-108 | flushing writes nothing for an empty buffer, else one shift in the comma alphabet, unpadded, and leaves the buffer empty |
| MailboxName.Encode | src/rfc3501/mailbox.rs:58-82 | the loop with its pending shift computes the wire form defined run by run: one shift per maximal unprintable run, `&-` for `&` |
| MailboxName.WireForm | src/rfc3501/mailbox.rs:58-108 | what the wire form is: printable characters stand for themselves, `&` as `&-`, a run of others as its UTF-16 octets in unpadded base64 with commas for slashes, between `&` and `-` |
| MailboxName.Examples | src/rfc3501/mailbox.rs:58-108 | the wire forms of U+1F600 and of the example in section 5.1.3 of RFC 3501 |
| MailboxName.Decode | src/rfc3501/mailbox.rs:112-178 | the two-index loop computes the decoding defined shift by shift |
| MailboxName.ReadsAs | src/rfc3501/mailbox.rs:112-178 | how a wire name reads: anything but `&` as itself, `&-` and a last `&` as `&`, and `&` up to the next `-`, or to the end, as a shift |
| MailboxName.RoundTrip | src/rfc3501/mailbox.rs:58-178 | decoding undoes encoding on every string, with any base64 decoder that inverts the encoder |
| MailboxName.EncodeInjective | src/rfc3501/mailbox.rs:58-82 | no two names share a wire form |
| MailboxName.DecodeShiftMeaning | src/rfc3501/mailbox.rs:143-171 | a shift is replaced by its text exactly when canonical and of even length, and re-emitted verbatim otherwise |
| MailboxName.DecoderIndependent | src/rfc3501/mailbox.rs:135-148 | the leniency of the base64 decoder never shows in a decoded name |
| MailboxName.EncodeCanonical | src/rfc3501/mailbox.rs:58-108 | an encoded name has only printable plain characters, `&-`, and closed canonical shifts of unprintable characters only, no two of them adjacent |
| MailboxName.CanonicalRoundTrip | src/rfc3501/mailbox.rs:135-139 | a canonical wire name is encoded back to itself after decoding |
| MailboxName.WireRoundTrip | src/rfc3501/mailbox.rs:37-178 | a wire name survives decoding and encoding if and only if it is canonical, and the canonical names are exactly the encoder's outputs |
| MailboxName.NotCanonical | src/rfc3501/mailbox.rs:135-171 | a wire name of each kind that is not canonical, and so not encoded back to itself |
| MailboxName.EncodePrintable | src/rfc3501/mailbox.rs:58-108 | the wire form is printable ASCII |
| MailboxName.EncodeFixpoint | src/rfc3501/mailbox.rs:13-26 | the wire form is the name itself if and only if the name is printable ASCII without `&` |
| MailboxName.MailboxCell.EncodeInPlace | src/rfc3501/mailbox.rs:15-34 | INBOX, undecodable and unchanged names stay, as does a name whose wire form is no mailbox; any other becomes its wire form |
| MailboxName.MailboxCell.DecodeInPlace | src/rfc3501/mailbox.rs:37-56 | the same for decoding |
| MailboxName.InPlaceRoundTrip | src/rfc3501/mailbox.rs:15-56 | encoding then decoding in place gives the mailbox back |
| LineScanner.Scanner.NextLine | src/rfc3501/fetch_stream_batch.rs:365-386 | with its resume index it returns what a search from the beginning would: first line, need of more, or line too long; no line feed lies below the index, at most the cap stays buffered when more is asked for, and over a run no octet is searched twice |
| LineScanner.FirstLineMeaning | src/rfc3501/fetch_stream_batch.rs:365-386 | a line is what ends with the first line feed, within the cap; more is asked for exactly when there is none and room is left; and it is too long exactly when the cap is exceeded without one |
| LineScanner.FirstLineStable | src/rfc3501/fetch_stream.rs:377-398 | a line or an over-cap verdict is not changed by what is read later, so it does not depend on the reads |
| UidToken.ParseUid | src/rfc3501/fetch_stream_batch.rs:422-445 | the nested loops return the digits of the leftmost `UID` token of the line as a 32-bit number, nothing when there is no token or the number is too large |
| UidToken.WordMeaning | src/rfc3501/fetch_stream_batch.rs:425-427 | the word in any case with no letter or digit before it |
| UidToken.AlphanumericMeaning | src/rfc3501/fetch_stream_batch.rs:426 | the letters and digits, listed |
| UidToken.UidAt | src/rfc3501/fetch_stream_batch.rs:422-445 | how a token placed anywhere in a line with none before it is read |
| UidToken.UidOfHeader | src/rfc3501/fetch_stream_batch.rs:418-420 | every rendered FETCH header line with a 32-bit UID is read as that UID |
| FetchBatch.AdmitMeaning | src/rfc3501/fetch_stream_batch.rs:272-296 | a body is admitted if and only if it exceeds neither the caller's cap nor the size declared for its UID, and a refusal carries the smaller of the two; a line without a UID is refused as such |
| FetchBatch.ParseExplains | src/rfc3501/fetch_stream_batch.rs:247-356 | every line is accounted for: announcing a body, it is followed by that body, or refused, or cut short; a status ends the exchange; any other is skipped; and only the lack of a line, or one too long, ends it otherwise |
| FetchBatch.BodiesMeaning | src/client.rs:1077-1109 | the messages committed are the bodies, in order, each under its UID |
| FetchBatch.ParsePartition | src/rfc3501/fetch_stream_batch.rs:214-356 | the lines and bodies consumed and the leftover are the stream, nothing lost or read twice |
| FetchBatch.ParseAttributed | src/rfc3501/fetch_stream_batch.rs:271-308 | every body delivered is exactly the octets announced by the line right before it, under the UID of that line and within the limit of that UID |
| FetchBatch.Coroutine.Send | src/rfc3501/fetch_stream_batch.rs:216-246 | the tag is asked for once; a valid one gives the command, an invalid or missing one an error |
| FetchBatch.Coroutine.TakeLine | src/rfc3501/fetch_stream_batch.rs:269-313 | one complete line leads where the reference parser says: a body within its limit, a refusal, a status, or on to the next line |
| FetchBatch.Coroutine.Next | src/rfc3501/fetch_stream_batch.rs:247-315 | whatever is still to come, the lines taken here and then the rest are what the reference reads |
| FetchBatch.Coroutine.Body | src/rfc3501/fetch_stream_batch.rs:316-352 | buffered octets first, then a stream request for exactly the rest, then the end; per message a start, at most one chunk, at most one stream and an end, lengths adding up to the announced one |
| FetchBatch.TraceMeaning | src/rfc3501/fetch_stream_batch.rs:124-152 | the yields about bodies are whole messages one after the other, start, at most one chunk, at most one stream, end, with lengths adding up to the announced one within both bounds |
| FetchClient.CopyBody | src/client.rs:1088-1103 | the copy loop moves the requested octets and no other to the sink and says whether the stream ended first |
| FetchClient.PumpLines | src/client.rs:1061-1083 | between messages the loop keeps the reference's outcome unchanged and makes progress |
| FetchClient.PumpBody | src/client.rs:1084-1109 | within a message likewise; the sink the three `expect`s ask for is always open |
| FetchClient.FetchBodies | src/client.rs:1038-1113 | for every stream and every cut into reads, the bodies committed and the verdict are those of the reference parser, and what it leaves is the sink not committed, the octets buffered and the octets unread |
| FetchStream.HeaderPartition | src/rfc3501/fetch_stream.rs:242-366 | the stream is header lines, then the octets the last of them announced, then trailer lines, then the leftover; and these say how it ends: a status ends it, a literal before the body is the body and one after it refused, any other line is skipped |
| FetchStream.SameBody | src/rfc3501/fetch_stream.rs:242-321 | the batched form delivers the single form's body first when it admits the line announcing it and the body comes in full, and no body at all otherwise |
| FetchStream.Coroutine.Send | src/rfc3501/fetch_stream.rs:214-241 | the tag is asked for once; a valid one gives the command, an invalid or missing one an error |
| FetchStream.Coroutine.Headers | src/rfc3501/fetch_stream.rs:242-288 | lines are skipped up to the one announcing the body or a status |
| FetchStream.Coroutine.Bodies | src/rfc3501/fetch_stream.rs:289-322 | buffered octets first, then the socket, then the trailer; a stream cut short is an error |
| FetchStream.Coroutine.Trailers | src/rfc3501/fetch_stream.rs:323-366 | lines are skipped up to a status; a literal is refused |
| FetchStream.Coroutine.Resume | src/rfc3501/fetch_stream.rs:207-369 | one resume, whatever its argument, leaves what the reference makes of sink, buffer and future octets unchanged; while the body is streamed the argument only says whether it came in full |
| FetchStream.FetchBody | src/client.rs:981-1032 | for every stream and every cut into reads, sink and verdict are those of the reference parser, and what it leaves is buffered or unread |
| StartTls.TaggedMeaning | src/rfc3501/starttls.rs:259-260 | a tagged line is the tag, a space and anything |
| StartTls.DiscardPartition | src/rfc3501/starttls.rs:234-266 | discarded lines, tagged line and leftover are the input in that order, and the tagged line is the first that starts with the tag and a space |
| StartTls.DiscardEnds | src/rfc3501/starttls.rs:247-266 | only lines are discarded, and without a tagged one no line is left, or one too long |
| StartTls.ConversationPartition | src/rfc3501/starttls.rs:174-266 | so are greeting, discarded lines, tagged line and leftover |
| StartTls.Coroutine.DiscardLines | src/rfc3501/starttls.rs:247-266 | the loop over lines does what the reference does on everything buffered and still to come |
| StartTls.Coroutine.Resume | src/rfc3501/starttls.rs:159-270 | what each state answers to nothing, to the end of the stream and to octets |
| StartTls.Upgrade | src/rfc3501/starttls.rs:155-270 | however the stream is cut, an upgrade hands over the reference's leftover; it happens exactly when the reference finds the tagged line and the read that completed the greeting left something to read |
| StartTls.ReadGreeting | src/rfc3501/starttls.rs:174-198 | reading stops with the read that completes the greeting line, or with the end of the stream, or a line too long |
| StartTls.ClosedWithGreeting | src/rfc3501/starttls.rs:234-266 | a stream whose reference finds the tagged line, read in one go with the greeting, ends in `Eof` |
| WatchLedger.SettablesMeaning | src/watch.rs:816-824 | settable flags are kept, in order, and `\Recent` is not |
| WatchLedger.LastCounts | src/watch.rs:806-828 | of several UIDs, and of several lists of flags, the last one counts |
| WatchLedger.NoneCounts | src/watch.rs:806-828 | without a UID item there is no UID, without a FLAGS item no flag |
| WatchLedger.MinusMeaning | src/watch.rs:373-382 | flags gained, and lost, keep their order |
| WatchLedger.ExtractUidFlags | src/watch.rs:806-828 | the last UID item and the last FLAGS item decide, without `\Recent` |
| WatchLedger.QresyncFaithful | src/watch.rs:430-466 | the QRESYNC deltas, replayed over what the shadow was, give what it became; no event contradicts what a consumer holds |
| WatchLedger.SnapshotFaithful | src/watch.rs:400-428 | the same for the whole-mailbox diff |
| WatchLedger.SnapshotMeaning | src/watch.rs:397-428 | the diff brings the shadow to the snapshot and tells exactly the differences, each once |
| WatchLedger.QresyncMeaning | src/watch.rs:430-466 | so does the QRESYNC path, for every truthful answer |
| WatchLedger.PathsAgree | src/watch.rs:16-19 | both paths reach the same shadow and tell the same events up to order and flag order |
| WatchLedger.OrderDiffers | src/watch.rs:18-19 | a truthful answer for which the two paths tell the same events in different orders |
| WatchOrder.SnapshotOrdered | src/watch.rs:400-428 | the whole-mailbox diff tells removals, then the rest, each in ascending order of UID, what a message gained before what it lost |
| WatchOrder.QresyncOrdered | src/watch.rs:430-466 | the QRESYNC path tells removals by the first range that names them, upwards within a range, then the rest by the first FETCH that reports them |
| WatchOrder.SameOrder | src/watch.rs:18-19 | for every truthful answer the two paths tell the same changes in the same order if and only if no lower known UID is named gone by a later range and every lower differing UID is reported first |
| WatchOrder.Identical | src/watch.rs:18-19 | and the two lists of events are equal if and only if moreover the first report of each new message is the snapshot's and that of each changed one lists the flags gained in the snapshot's order |
| WatchLedger.WalkIsExpansion | src/watch.rs:431-445 | walking the shadow within a range is the same as expanding the range and deleting UID by UID |
| WatchLedger.VanishedMeaning | src/watch.rs:431-445 | the announced ranges remove exactly the known messages they cover, with one event each, however they overlap |
| Watch.MailboxWatch.constructor | src/watch.rs:276-316 | a new watch is consistent, with nothing known, queued or emitted |
| Watch.MailboxWatch.Resync | src/watch.rs:323-347 | the UIDVALIDITY a QRESYNC needs is known, and changes are asked for since the last known point, never since 0 |
| Watch.MailboxWatch.CheckUidValidity | src/watch.rs:350-363 | refused exactly when both UIDVALIDITYs are known and differ |
| Watch.MailboxWatch.PushFlagDeltas | src/watch.rs:367-395 | queues flags gained, then flags lost, neither when empty |
| Watch.MailboxWatch.ComputeSnapshotDeltas | src/watch.rs:400-428 | the loops compute the whole-mailbox deltas |
| Watch.MailboxWatch.ComputeDeltas | src/watch.rs:430-466 | the loops compute the QRESYNC deltas |
| Watch.MailboxWatch.ExamineFirst | src/watch.rs:550-578 | the first EXAMINE fixes the UIDVALIDITY, and for QRESYNC the resync point, or ends the watch |
| Watch.MailboxWatch.Seed | src/watch.rs:601-611 | the first FETCH is the baseline and tells no event |
| Watch.MailboxWatch.ExamineAgain | src/watch.rs:702-745 | a changed UIDVALIDITY ends the watch with the shadow untouched; otherwise deltas are queued, or the mailbox is read again |
| Watch.MailboxWatch.FetchAgain | src/watch.rs:767-781 | the mailbox read again is diffed against the shadow |
| Watch.SnapshotMeansLast | src/watch.rs:767-778 | of several FETCHes of one UID the last one counts |
| Watch.SnapshotMeansAny | src/watch.rs:767-778 | a UID no FETCH carries is not in the snapshot |
| Watch.MailboxWatch.Answered | src/watch.rs:504-785 | what each state does with the answer of its sub-exchange |
| Watch.MailboxWatch.Moved | src/watch.rs:617-646 | what each state without a sub-exchange does: stop, wait, hold IDLE, resync, emit the next event |
| Watch.MailboxWatch.Step | src/watch.rs:499-801 | the whole meaning of one turn in every state; and whatever a sub-exchange answers and whenever shutdown is raised: emitted events then queued ones lead from the baseline to the shadow, the queue is non-empty only while it is emitted, the UIDVALIDITY is known before it is needed and never changes, and the watch stops with nothing queued |
| Watch.MailboxWatch.Run | src/watch.rs:491-801 | over any run, what was yielded is what was emitted, in order, and after a clean stop it alone leads from the baseline to the shadow |
| Watch.EventsMeaning | src/watch.rs:787-793 | the events of a run are those yielded, in order |
| UidRanges.AsteriskIsLargest | src/rfc3501/select.rs:253-254 | `*` stands for the largest UID |
| UidRanges.RangesCover | src/rfc3501/select.rs:256-270 | the ranges cover exactly the UIDs the set names, reversed and `*` forms included, and never end below where they start |
| UidRanges.VanishedByName | src/rfc3501/select.rs:250-270 | a VANISHED answer removes exactly the known messages it names, with one event each |
| Send.RenderIsConcat | src/send.rs:209-237 | a command is the octets of its fragments, end to end |
| Send.BurstsRender | src/send.rs:209-237 | the writes of a command put together are the encoded command |
| Send.BurstsStop | src/send.rs:224-231 | every write but the last stops right before a synchronising literal |
| Send.BurstsBreak | src/send.rs:224-231 | and at every synchronising literal a write has stopped |
| Send.DoneSawEnd | src/send.rs:278-303 | an exchange that is done has seen its own completion, a BYE, or a continuation with no literal held back |
| Send.DoneMeaning | src/send.rs:268-293 | an exchange is over if and only if it saw its own completion, a BYE, or a continuation with nothing held back, and no continuation since |
| Send.ProjectionsAppend | src/send.rs:262-267 | data and statuses are reported in order, with nothing else among them |
| Send.LastReported | src/send.rs:276-292 | of several completions, BYEs or continuations the last one is reported |
| Send.RefusalMeaning | src/send.rs:294-332 | a message fails the exchange unless it was decoded or is untagged and could not be; which error it fails with |
| Send.DigestMeaning | src/send.rs:251-344 | draining sees every response in order up to the first message that fails the exchange |
| Send.ImapSend.SerializeBurst | src/send.rs:209-237 | one pass writes up to the next synchronising literal, holds that literal back and keeps the rest |
| Send.ImapSend.File | src/send.rs:262-293 | a response is filed by its kind, in order; a completion of another command changes nothing |
| Send.ImapSend.Take | src/send.rs:261-333 | an undecodable untagged message is skipped, any other undecodable, overlong or poisoned one fails the exchange |
| Send.ImapSend.DeserializeArm | src/send.rs:251-344 | draining the parser terminates and folds every message it holds; the exchange then ends exactly when the responses seen say so |
| Send.ImapSend.Resume | src/send.rs:165-347 | the whole meaning of one resume in every state: it ends, writes the next of the command's bursts at most, and reads one read through; a read that completes the exchange of the command, and fails on nothing, returns; a completed exchange reports its own tag and the projections of what was decoded |
| Send.ImapSend.New | src/send.rs:108-133 | a message without a tag of its own, continuing a command |
| Send.ImapSend.Receive | src/send.rs:138-160 | a receive-only exchange starts reading, with nothing to write |
| Send.ImapSend.Command | src/send.rs:354-377 | a command starts by asking for its tag |
| Send.ImapSend.Conservation | src/send.rs:209-237 | at every yield of every run, what was written, the literal held back and the fragments left are the encoded command in order |
| Send.ImapSend.WritesStop | src/send.rs:209-237 | after any write but the last, what was written stops right before a synchronising literal |
| Send.ImapSend.PausePerLiteral | src/send.rs:224-231 | once everything is sent, there was one pause per synchronising literal |
| Send.ImapSend.Proceed | src/send.rs:238-344 | with nothing to write, a resume asks for a read, refuses the end of the stream, or reads one read through |
| Send.ImapSend.ReceiveWritesNothing | src/send.rs:138-160 | a receive-only exchange never writes |
| Send.DigestContinues | src/send.rs:290-293 | draining decodes a continuation exactly when the queued steps hold one |
| Send.ReadAtPause | src/send.rs:338-340 | the read that ends a pause lets the literal go whatever it completes; the continuation was there for it if and only if the steps the parser then makes hold one |
| Send.LiteralWithoutContinuation | src/send.rs:290-340 | a run in which half a line lets a synchronising literal out with no continuation seen, and the late continuation ends the exchange with no tagged status |
| Append.LiteralHeaderMeaning | src/rfc3501/append_stream.rs:264-274 | the announcement as text, with `+` when it does not wait to be invited |
| Append.AppendParts | src/rfc3501/append.rs:125-151 | where the encoding of an APPEND splits at its message literal |
| Append.StreamedParts | src/rfc3501/append_stream.rs:246-277 | splicing the real count into the line encoded for an empty message gives the line announcing that count |
| Append.SameOctets | src/client.rs:1123-1158 | the streamed octets are those of the buffered form if and only if the message is shorter than 2^32 octets |
| Append.BufferedOctets | src/send.rs:209-237 | the buffered form, through the send primitive, writes that encoding |
| AppendStream.Verdicts | src/rfc3501/append_stream.rs:293-385 | a BYE fails the append whatever else came; of a completion only an OK does not, and before the body even an OK is a refusal |
| AppendStream.CountIsLast | src/rfc3501/append_stream.rs:356-362 | the message count reported is the last one the server sent |
| AppendStream.ContinuationSeen | src/rfc3501/append_stream.rs:293-314 | an exchange that ended without completion or BYE saw a continuation, though not necessarily the message's own |
| AppendStream.WaitPerLiteral | src/rfc3501/append_stream.rs:250-283 | the streamed form waits once per synchronising literal of its encoding, as the buffered one does, if and only if none precedes the message |
| AppendStream.MailboxLiteral | src/rfc3501/append_stream.rs:250-354 | a run in which the continuation for a mailbox literal invites the body, and the one for the message ends the run as if unanswered |
| AppendStream.Coroutine.SpliceHeader | src/rfc3501/append_stream.rs:246-277 | the loop over fragments and the truncation compute header and closing line as specified |
| AppendStream.Coroutine.Resume | src/rfc3501/append_stream.rs:206-385 | what each state answers to a tag, to the inner exchange and to a short stream |
| AppendStream.AwaitInvitation | src/rfc3501/append_stream.rs:293-314 | the first answer that is not a request for more decides: an invitation or a failure |
| AppendStream.AppendMessage | src/client.rs:1123-1158 | the answers and the source decide how far a run gets, how often it waits and how it ends, and the connection carries exactly the header, the body sent and the closing line of that stage |
| Raw.MessagesMeaning | src/rfc3501/raw.rs:215-232 | the messages are those the steps complete, in order |
| Raw.TextMeaning | src/rfc3501/raw.rs:221-223 | what is captured is the octets of the messages, end to end |
| Raw.CollectTags | src/rfc3501/raw.rs:139-153 | the tags of a batch, all different, or its first command that has none or repeats one |
| Raw.ImapRaw.New | src/rfc3501/raw.rs:130-174 | a batch is accepted exactly when every command is tagged, no tag repeats, the last command is terminated and there is one; the first reason to refuse is the one given |
| Raw.ImapRaw.Capture | src/rfc3501/raw.rs:215-232 | a complete message is captured and its tag no longer awaited |
| Raw.ImapRaw.Resume | src/rfc3501/raw.rs:182-248 | always, what is awaited is what was sent less what was completed, and what is captured is every complete message; a run ends exactly when a drained read leaves nothing awaited |
| Raw.Exchange | src/rfc3501/raw.rs:182-248 | the input is written once and verbatim; the run ends with the first read after which every tag was completed |
| Raw.OverWhenAnswered | src/rfc3501/raw.rs:18-22 | a run ends if and only if every tag is completed somewhere in the answer, in any order |
| Raw.CutsAgree | src/rfc3501/raw.rs:215-244 | wherever one answer is cut into reads, both runs end or neither does, and one captures a beginning of what the other captures |
| SortOrder.ReadsFirst | src/rfc5256/sort.rs:403-464 | of several items of a kind the first is the one compared; of envelopes the first that has a date, or a subject |
| SortOrder.ReadsNothing | src/rfc5256/sort.rs:403-464 | and without one there is nothing to compare |
| SortOrder.CmpKeyMeaning | src/rfc5256/sort.rs:403-464 | each key compares by value: the earlier instant, the smaller size, the subject lower at its first differing octet or a proper prefix, an absent value before any other, and addresses not at all |
| SortOrder.BeforeMeaning | src/rfc5256/sort.rs:232-246 | the comparator goes by the first criterion that is not a tie, reversed where asked, then by the earlier date, and ties stay in mailbox order |
| SortOrder.CmpLawful | src/rfc5256/sort.rs:232-246 | for every list of criteria, reversals included, the comparator is a total preorder |
| SortOrder.SortBySorted | src/rfc5256/sort.rs:232-246 | sorting messages in mailbox order gives a sorted permutation with ties in mailbox order |
| SortOrder.SortedUnique | src/rfc5256/sort.rs:232-246 | there is only one such arrangement |
| SortOrder.FetchItems | src/rfc5256/sort.rs:364-396 | each item once: the date received and the size when a criterion goes by them, the envelope always, the UID in UID mode |
| SortOrder.FetchItemsSuffice | src/rfc5256/sort.rs:356-396 | the comparator reads nothing but the items fetched |
| Sort.LocalOrderMeaning | src/rfc5256/sort.rs:226-246 | the local order lists every message fetched once, each ahead of the next by value: the criteria in turn, then the earlier date, then the lower sequence number; and it is the only sequence that does |
| Sort.IdsMeaning | src/rfc5256/sort.rs:248-261 | in order, the sequence number of each entry, or the first UID it holds, an entry without one being passed over |
| Sort.MergedMeaning | src/rfc5256/sort.rs:325-327 | of several answers about a message the last one counts |
| Sort.MergedOnly | src/rfc5256/sort.rs:325-327 | and a message no answer is about was not fetched |
| Sort.Fetches | src/rfc5256/sort.rs:100-101 | the number of FETCHes is the least that holds all ids at 255 each |
| Sort.LocalIdsMeaning | src/rfc5256/sort.rs:248-261 | the ids returned are those of the messages fetched, less messages without a UID in UID mode |
| Sort.MessageSort.NextFetch | src/rfc5256/sort.rs:204-224 | chunks of 255 and a last shorter one, taken off in order, none once all was asked for |
| Sort.MessageSort.LocalSort | src/rfc5256/sort.rs:226-261 | returns the ids of the local order and forgets what was fetched |
| Sort.MessageSort.Step | src/rfc5256/sort.rs:268-339 | the fallback ends with the local order of everything fetched once every searched id was asked for; the server's own order, and its refusals, are passed on |
| Sort.ChunkCount | src/rfc5256/sort.rs:204-211 | how many FETCHes have been made, from what is left to ask for |
| Sort.RunFallback | src/rfc5256/sort.rs:313-336 | a whole run takes one FETCH per 255 ids found and returns the local order of all they brought |
| CopyUid.KeywordMeaning | src/rfc3501/copy.rs:224 | the keyword, each letter in either case |
| CopyUid.NzNumberExact | src/rfc3501/copy.rs:267-275 | a number is read exactly from its notation without leading zeros, within 32 bits and not zero |
| CopyUid.ReadElementExact | src/rfc3501/copy.rs:252-260 | an element is read exactly from its notation |
| CopyUid.ReadUidSet | src/rfc3501/copy.rs:249-264 | a set is read if and only if the text is its notation |
| CopyUid.TimesMeaning | src/rfc3501/copy.rs:281-295 | an element counts for each UID it names, the ends of a range in either order |
| CopyUid.UidSetToVec | src/rfc3501/copy.rs:278-300 | sorted, and each UID as often as the set names it, ranges in either direction included |
| CopyUid.ExpansionUnique | src/rfc3501/copy.rs:278-300 | which leaves one sequence only |
| CopyUid.CopyUidFromOther | src/rfc3501/copy.rs:221-246 | a mapping is returned if and only if the text is a COPYUID in the grammar with UIDVALIDITY 0 allowed, and it is the mapping that text denotes |
| CopyUid.DenotesOne | src/rfc3501/copy.rs:210-220 | a text denotes one COPYUID at most |
| CopyUid.Example | src/rfc3501/copy.rs:210-220 | a text as a server sends it, and what it denotes |
| CopyUid.CopyUidFromCode | src/rfc3501/copy.rs:196-208 | both readings of a code expand alike; any other code, or none, maps nothing |

## Left out

- The one-command wrappers (create, delete, rename, noop, check, close, list, status, store and the like): each runs the send primitive and maps its status in one branch.
- Login, SASL and OAUTHBEARER exchanges: the mechanisms are not part of this repository.
- `session.rs`, `greeting.rs`, `capability.rs`, `idle.rs`: short linear machines. Within the watcher IDLE may see data, end or fail; data that arrives between DONE and its completion is dropped by `src/rfc2177/idle.rs:371-381`, so no claim is made that every notification wakes the watch.
- The response grammar, the fragmentizer and the command encoder of imap-codec: arbitrary functions of one line, or an arbitrary queue of steps per read.
- Sockets, TLS, I/O errors, threads, channels, timers, logging and error texts; the shutdown flag may be raised before any turn.
- UTF-8: mailbox names are strings of Unicode scalar values, where the source walks the same string as octets; a name that is not UTF-8 is only known to stay as it is.
- RFC 2822 date parsing: any function from a raw header to an optional instant.
- The sort of the standard library: stable insertion for messages, which `SortOrder.SortedUnique` shows to be the only stable result, and insertion for numbers.
- What a FETCH answers relative to the ids asked for: any map of messages.
- Send.ImapSend.Resume: the loop of the source is written as its arms in order, one after the other, since no state is visited twice in one resume.
- StartTls.Coroutine.Resume: likewise one pass through the loop.
- FetchBatch.Coroutine.Next: the arms of the batched `resume` are separate methods, chosen by the state, since no resume passes from one to another.
- Watch.MailboxWatch.Step: one turn of the loop, with the sub-exchange of the state answering anything that fits it; the many arms that pass on a sub-exchange's request are one.
- Raw.CutsAgree: the messages of an answer do not depend on the reads, which is the fragmentizer's promise.
- The cost of removing octets from the front of a buffer: only octets searched are counted.
