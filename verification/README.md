# camlite: a verified model

camlite is a small MJPEG webcam server written in C. This project models its five pieces of
state-heavy code and proves what they keep, over every input, every run and every answer of the
socket, the event loop and the camera driver:

- **The intrusive hash table** (`src/uthash.h`). `TableSpec` is the table as a value: elements in
  application order, one chain per bucket, and every counter. `UtHash` is the table in place, with
  both doubly linked structures; each operation is proved to change that value exactly as `TableSpec`
  says. `SortSpec` and `ListSort` do the same for the bottom-up merge sort. `Handles` are the elements.
- **The HTTP connections** (`src/http.c` over `src/pevent.c`). `HttpSpec` is one connection as a step
  system with histories of what was sent and what the socket took; `HeaderSpec` is the request header
  as a stream; `FeedSpec` is the delivery of a video frame to the clients that wait for it. `Pevents`
  is the registration of a descriptor, as recorded and as epoll has it. `Clients` are the clients in
  place and their table, which is the hash table above; `Http` is the server on them: write buffers
  that grow, the in-place header scan, iteration over the table while clients are freed.
- **Streaming MD5** (`src/md5.c`). `Md5Spec` follows RFC 1321, and `Md5Vector` works out one
  digest of its test suite; `Md5` is the context with its partial block, its two-word counter and the
  unrolled transform.
- **The digest sessions and the parameter parser** (`src/camhttp.c`). `ParamSpec`, `Params` and `Hex`
  are the tokenizer and the hexadecimal text; `DigestSpec` is the session table as a value, and
  `Digest` runs it on the real hash table, with nonces and responses that are real MD5 digests.
- **The camera lifecycle** (`src/v4l2port.c`, `src/video_manager.c`). `CameraSpec` and `Camera`.

`Seqs`, `Bits` and `Texts` hold facts about sequences, sums, shifts, masks and C strings.

Each component comes twice. The classes change fields, arrays and links step by step as the C code
does, with loops where it has loops; the functions beside them say what one operation does to the
state as a value; the methods are proved to do exactly that, and the lemmas about whole runs are
proved about the functions. Results of the outside world (writes, reads, registrations, driver calls,
clocks) are parameters; a socket result is an arbitrary integer read the way `pevent_read` and
`pevent_write` report it.

Where the code does something a reader may not expect, the model follows the code, and the exact
condition is proved:

- The bucket-expansion policy bounds the load: while expansion is not inhibited there are at most 19
  items per bucket, whatever the hash function. It is inhibited exactly after two expansions in a row
  that each left more than half of the elements past the ideal length (`TableSpec.NoexpandExactly`).
- A connection is freed by an event exactly for the reasons of `HttpSpec.FreedExactly`; a request to
  the digest check has exactly the outcome of `DigestSpec.OutcomeExactly`; a stream starts exactly
  under the conditions of `CameraSpec.StreamStartExactly`.
- `md5_update` compares `i+63` with the length in 32 bits. The test goes wrong on some block boundary
  exactly when the length is so close to 2^32 that `i+63` wraps (`Md5.WrapExactly`); then, and only
  then, the loop never ends: it takes a block that is not there and its index comes back to where it
  started (`Md5.UpdateEndsExactly`).
- `hex2string` writes its terminator inside the length it is given exactly when that is odd or
  exceeds the text (`Hex.Hex2String`).
- A (nonce, nc) pair is accepted twice in a run exactly when its nonce is issued anew between two uses
  of it (`DigestSpec.NoReplayExactly`). In a run of the code with at most 2^32 requests, the two texts
  hashed for that nonce are then an MD5 collision (`Digest.CodeReplayIsCollision`); conversely two
  such texts, made more than an hour apart, make a replay (`DigestSpec.ReplayHappens`).
- A positive delivery count tells that a client was served exactly when no client waits for anything
  but the device (`FeedSpec.CountTellsExactly`). So a client of another device postpones the idle
  timeout: a device is turned off exactly when nothing set its check time in the last `timeout`
  seconds (`CameraSpec.TurnedOffExactly`), and exactly when it was unused if only its own clients
  wait (`CameraSpec.IdleTimeoutExact`). A used device is never turned off (`CameraSpec.IdleTimeoutSafe`).
- Setting an interest fails exactly if it is set already or epoll fails; withdrawing one can leave
  epoll with it exactly if epoll fails (`Pevents.SetAgreeing`, `Pevents.WithdrawParts`).
- Over a run, what is mapped is what is recorded exactly as long as no `munmap` of a recorded mapping
  has failed (`CameraSpec.MappedIsRecorded`). A descriptor is lost exactly when `open` returns 0 and a
  later step fails (`CameraSpec.InitLoses`). Setting up buffers stays inside `reqbufs` exactly if the
  driver grants no more of them than it was asked for (`CameraSpec.StaysInside`).
- `get_http_parameter` stops at a field without `=`, and at once when the text starts with a comma;
  empty fields elsewhere are passed over. `ParamSpec.Lookup` is this behaviour.

## Model

| member | source | states |
|---|---|---|
| TableSpec.ReachableTables | src/uthash.h:182-257 | after any legal run of additions and deletions the table satisfies everything HASH_FSCK checks (counts exact, every element once, in the bucket of its hash), obeys the load bound, and holds exactly the insertion-ordered sequence the run stands for |
| TableSpec.ReachableLoad | src/uthash.h:621-632 | for any hash function, while `noexpand` is 0, at most 19 items per bucket |
| TableSpec.ReachableIdeal | src/uthash.h:687-689 | every `ideal_chain_maxlen` a run computes is at most 10 |
| TableSpec.ExpandLoad | src/uthash.h:676-722 | expansion re-establishes the sum bound on max(count, 10*(expand_mult+1)-1) |
| TableSpec.AddKeeps | src/uthash.h:182-205 | an addition keeps the invariant and the load bound and appends the element |
| TableSpec.DeleteKeeps | src/uthash.h:224-257 | a deletion keeps the invariant and the load bound and removes exactly that element |
| TableSpec.AddExactly | src/uthash.h:621-722 | an addition doubles the buckets exactly if it fills its bucket to ten times one more than the multiplier and expansion is not inhibited; then the ideal length, the count past it and the multipliers are those of the new chains, and otherwise they stay |
| TableSpec.AddChains | src/uthash.h:621-710 | the new element is in front of its chain; on doubling each new chain takes what hashes to it from its old one, last first |
| TableSpec.DeleteExactly | src/uthash.h:224-257 | a deletion takes the element out of its chain and changes no other chain, multiplier, count or flag; deleting the last element drops the table |
| TableSpec.NoexpandExactly | src/uthash.h:714-719 | over every run, `noexpand` is set exactly if two expansions in a row, since the table was made, each left more than half of the elements past the ideal length |
| TableSpec.LoadWithoutTwoPoor | src/uthash.h:714-719 | a run without two such expansions in a row has at most 19 items per bucket, whatever the hash function |
| TableSpec.IdealByShiftAndMask | src/uthash.h:687-689 | the shift-and-mask expression is the exact ceiling of items over buckets |
| TableSpec.ExpandSplits | src/uthash.h:691-710 | an element of old bucket b is in new bucket b or b + old count, and in no other |
| TableSpec.ExpandKeepsWf | src/uthash.h:676-722 | expansion keeps elements, order, counts and the power-of-two size |
| UtHash.Hash.Find | src/uthash.h:103-114 | NULL exactly when no element has the key, and otherwise an element that has it |
| UtHash.Hash.FindInBkt | src/uthash.h:607-618 | walking one chain decides for the whole table |
| UtHash.Hash.Add | src/uthash.h:182-205 | links, bucket and counters become those of the table with the element appended, including creation and expansion |
| UtHash.Hash.MakeTable | src/uthash.h:150-167 | the fresh table: 32 empty buckets, all counters zero |
| UtHash.Hash.AddToBkt | src/uthash.h:621-632 | insertion at the chain head, and expansion exactly when the threshold is met and not inhibited |
| UtHash.Hash.Delete | src/uthash.h:224-257 | head, tail, middle or sole element: the table without it, both linked structures repaired |
| UtHash.Hash.DelInBkt | src/uthash.h:635-645 | unlinking from the chain, with the count |
| UtHash.Hash.ExpandBuckets | src/uthash.h:676-722 | doubling in place: new chains, multipliers, ideal length, nonideal count, inhibition |
| UtHash.Hash.MoveChain | src/uthash.h:693-709 | one old chain is distributed over its two new buckets |
| UtHash.Hash.Sort | src/uthash.h:729-814 | if the comparison is a total preorder on the elements, they end up in order, ties in the order they had; always a permutation, with buckets and counters as they were |
| SortSpec.MergeSortCorrect | src/uthash.h:725-814 | for every comparison that is a total preorder on the elements, of any type, the result is sorted, a permutation, and stable |
| ListSort.SortList | src/uthash.h:729-814 | the in-place bottom-up sort computes MergeSort, with prev, next, head and tail consistent, and ends |
| ListSort.RunPass | src/uthash.h:738-804 | one pass merges runs of the current size pairwise and counts the merges |
| ListSort.MergeRuns | src/uthash.h:743-801 | one merge of two runs, ties from the left first |
| HttpSpec.RunInv | src/http.c:155-246 | over every run: wire plus buffer is everything sent; a freed connection's wire is a prefix of it; `writing` exactly when registered for writing; empty buffer when not writing; cur <= size <= max and size <= 200*1024; a connection that has answered and is not reading is writing or waits for frames |
| HttpSpec.ResponsesInOrder | src/http.c:431-435 | over every run, wire and buffer hold the responses made for the connection, whole and in order, and a freed connection's wire a prefix of them |
| HttpSpec.StepInv | src/http.c:622-643 | each event keeps the invariant, and histories only grow |
| HttpSpec.SendOk | src/http.c:173-246 | a send keeps order and bounds whatever is written, buffered, reallocated or refused |
| HttpSpec.CompileOk | src/http.c:431-441 | both sends of a response keep them, and a live connection has been sent text and extra data |
| HttpSpec.SendExactly | src/http.c:173-246 | a client survives a send exactly if the write does not fail and what is not taken, EAGAIN included, fits the buffer and can be waited for; then buffer, wire, capacity and registration are these |
| HttpSpec.CompileExactly | src/http.c:431-441 | the same for a response: exactly if both sends go on |
| HttpSpec.AnswerExactly | src/http.c:543-560 | after an answer the connection is gone exactly if a send does not go on, or nothing is left to send or to wait for; a live one has its request cleared |
| HttpSpec.FreedExactly | src/http.c:463-643 | an event frees a live connection exactly for a hangup, the end of the stream, an overflow, a request that is not a GET, a failing write or registration, a response that does not fit, or nothing left to send or to wait for |
| HttpSpec.DrainOk | src/http.c:563-620 | the write loop keeps them under partial writes, EAGAIN and errors |
| HttpSpec.DrainStops | src/http.c:576-619 | positive results that leave something buffered move on by their sum, whatever their sizes; EAGAIN then keeps the client, an error frees it |
| HttpSpec.DrainEmpties | src/http.c:576-619 | positive results that reach the size empty the buffer; the client then reads again exactly if it waits for frames and can be registered |
| HttpSpec.DrainDelivers | src/http.c:576-619 | enough positive results empty the buffer onto the wire; the connection survives exactly if it waits for frames and can be registered again |
| HttpSpec.RequestPending | src/http.c:494-534 | until a request is complete, exactly the lines of all that has arrived have been handed on, and the unfinished one is kept |
| HttpSpec.RequestComplete | src/http.c:494-560 | a completed request is answered from the lines of the whole stream up to the first empty line, however it was divided, and freed unless it is a GET |
| HeaderSpec.ChunkIndependence | src/http.c:463-534 | for every division that does not fill the buffer the lines are those of the whole stream |
| HeaderSpec.ScanConcat | src/http.c:494-534 | scanning a kept unfinished line with more input is scanning everything at once |
| HeaderSpec.ScannedLine | src/http.c:497-520 | one line end found in place, after earlier NULs, is the next one of the stream; an empty line completes the header |
| HeaderSpec.ScanExactly | src/http.c:494-534 | the input is the lines, none of them empty, each with CR and LF behind it, and then an empty line, or what is not ended yet |
| HeaderSpec.MethodExactly | src/http.c:263-288 | the method is what the last line recognised as GET or POST says |
| HeaderSpec.CStringsExactly | src/http.c:500-510 | a line is handed on up to its first NUL, so one without NUL unchanged |
| Http.Server.Free | src/http.c:155-171 | only a client in the table can be freed; it leaves the hash table, its descriptor is closed and no longer registered |
| Clients.ClientTable.Delete | src/http.c:160 | HASH_DEL on the real table removes exactly that client |
| Clients.ClientTable.Add | src/http.c:150 | HASH_ADD_INT on the real table appends the client |
| Clients.ClientTable.Next | src/uthash.h:881-883 | the next link of a client leads to the client behind it |
| Http.Server.Send | src/http.c:173-246 | the buffer code takes HttpSpec's step; -1 exactly when the client was freed and dropped |
| Http.Server.Compile | src/http.c:431-441 | the same for the two sends of a response |
| Clients.Client.Reserve | src/http.c:206-224 | allocation and reallocation keep what is buffered |
| Pevents.Pevent.Signal | src/pevent.c:58-107 | adding, modifying and withdrawing: what is recorded and what epoll has afterwards |
| Pevents.Pevent.Set | src/pevent.c:48-56 | refuses the interest already recorded, and otherwise signals it |
| Pevents.Pevent.Change | src/pevent.c:48-107 | a registration in order stays in order, and changes exactly if the interest is new and epoll agrees |
| Pevents.SignalExactly | src/pevent.c:48-107 | whether or not record and epoll agree: setting succeeds exactly if epoll does and the record is right about there being a registration; withdrawing always clears the record |
| Pevents.SetAgreeing | src/pevent.c:63-64 | while record and epoll agree the choice between adding and modifying is always right |
| Pevents.WithdrawParts | src/pevent.c:94-104 | withdrawing parts record and epoll exactly if there was something to withdraw and epoll fails |
| Pevents.Pevent.Free | src/pevent.c:109-125 | the descriptor is closed and nothing stays registered |
| Pevents.Pevent.FreeNoClose | src/pevent.c:127-142 | whatever was recorded: a recorded registration is withdrawn exactly if epoll lets it go, nothing else changes, and the descriptor stays open |
| Http.Server.Await | src/http.c:230-242 | a client that cannot be registered is freed |
| Http.Server.OnWrite | src/http.c:563-620 | the write loop takes HttpSpec's step |
| Http.Server.ReadLoop | src/http.c:468-492 | the read loop ends for all read sizes, and its outcome depends only on what had arrived |
| Http.Server.ScanLines | src/http.c:494-532 | the in-place scan with NULs and compaction hands over exactly the lines of Scan and keeps its rest |
| Http.Server.OnRead | src/http.c:463-560 | reading, scanning, answering and freeing take HttpSpec's step |
| Http.Server.Dispatch | src/http.c:622-643 | an event changes its client only, drops it exactly if it was freed, and keeps the invariant of all connections |
| Http.Server.Accept | src/http.c:129-153 | a client joins the hash table exactly if it can be registered |
| Http.Server.KeepliveDelayIter | src/http.c:800-836 | iteration over the links of the client table, with deletion of the current client, delivers and counts as Iter does and drops exactly the freed clients |
| FeedSpec.FlagAnswered | src/camhttp.c:359-401 | a client that asked for device n is answered exactly for frames of device n, with that frame under its own header, and its delay is cleared exactly for a snapshot |
| FeedSpec.FlagSplits | src/camhttp.c:364-383 | the device of a flag is its low 16 bits with their sign, the kind what is above them |
| FeedSpec.IdleClients | src/http.c:814 | a client that waits for nothing, or is reading or writing, is left alone and not counted |
| FeedSpec.PassExactly | src/http.c:814-832 | each waiting client in full: left alone and counted for another device; for its own counted exactly if the response goes on, and then kept exactly if it streams or is still writing |
| FeedSpec.ServedExactly | src/http.c:812-833 | no send of the response to a waiting client fails exactly if it is counted, and then it was sent the frame whole; if one fails it is gone |
| FeedSpec.ServedCounts | src/camhttp.c:411-416 | if any client was served, the count is positive, so the check time is set |
| FeedSpec.CountTellsExactly | src/http.c:812-836 | over all socket results, a positive count means that someone was served exactly when no client waits for anything but this device |
| FeedSpec.SnapshotOnce | src/camhttp.c:368-383 | after one frame, over every further run, nothing more is sent to a snapshot client |
| FeedSpec.FrameIsEvent | src/http.c:814-832 | what the pass does to a client is the video event of that client's own run |
| FeedSpec.ServerRunsAreRuns | src/http.c:129-836 | over every run of accepting, dispatching and feeding, each connection in the table is a run of its own, so it keeps the invariant and the responses made for it are whole and in order |
| Md5.Md5Ctx.Update | src/md5.c:184-209 | after any updates the state is the fold over the whole blocks, the buffer starts with the rest, and the count words hold the bit length modulo 2^64 |
| Md5.Md5Ctx.Final | src/md5.c:211-222 | the digest is the one-shot definition of section 3 of RFC 1321 for every message, and the context is wiped |
| Md5.DigestOf | src/md5.c:184-222 | the digest does not depend on how the message is cut |
| Md5.Unrolled | src/md5.c:93-164 | the 64 written-out steps equal the table-driven loop with rotating registers |
| Md5.Md5Ctx.Transform | src/md5.c:93-172 | the state becomes the compression of state and block |
| Md5.Md5Ctx.AddLength | src/md5.c:189-192 | the carry code adds the bit length modulo 2^64 |
| Md5.Md5Ctx.constructor | src/md5.c:176-182 | the empty message and the initial state |
| Md5.Encode | src/md5.c:74-83 | words become bytes, low-order first |
| Md5.Decode | src/md5.c:85-91 | bytes become words, low-order first |
| Md5.WrapExactly | src/md5.c:200-202 | the block test is right on every boundary exactly when `i+63` does not wrap |
| Md5.UpdateEndsExactly | src/md5.c:194-203 | the block loop ends exactly under that condition; otherwise it takes a block past the input and its index returns to its first value |
| Md5.PaddingFits | src/md5.c:217-219 | padding is 1 to 64 bytes and ends 8 bytes before a block boundary |
| Md5Spec.DecodeEncode | src/md5.c:74-91 | decoding inverts encoding |
| Md5Spec.EncodeDecode | src/md5.c:74-91 | encoding inverts decoding on whole words |
| Md5Spec.FoldConcat | src/md5.c:196-203 | folding a concatenation is folding its parts in turn |
| Md5Spec.FSelects | src/md5.c:46 | F has y where x has ones and z where it has zeros |
| Md5Spec.GSelects | src/md5.c:47 | G is F with its arguments turned |
| Md5Spec.HCancels | src/md5.c:48 | H and z cancel to x and y |
| Md5Spec.ILaw | src/md5.c:49 | I differs from y exactly where x has ones or z has zeros |
| Md5Spec.RotateOr | src/md5.c:51 | rotation works bit by bit |
| Md5Spec.RotateBit | src/md5.c:51 | rotation by n takes bit k to bit k + n modulo 32 |
| Md5Spec.RotateBack | src/md5.c:51 | rotating on by 32 - n comes back |
| Md5Spec.InitBytes | src/md5.c:176-182 | the initial words are the bytes 01 23 45 67 89 ab cd ef fe dc ba 98 76 54 32 10 |
| Md5Spec.PadExactly | src/md5.c:211-219 | padding is 0x80, the fewest zero bytes, and the bit length modulo 2^64, low-order byte first |
| Md5Spec.LittleReads | src/md5.c:74-91 | little-endian bytes read back as the value modulo 256^k |
| Md5Vector.AlphabetDigest | src/md5.c:93-222 | the digest of the alphabet is the one in section A.5 of RFC 1321; all constants and shifts take part |
| ParamSpec.LookupInvertsRendering | src/camhttp.c:85-175 | each key gets the last value rendered for it, and none otherwise, for every list of rendered fields |
| ParamSpec.LookupExactly | src/camhttp.c:85-175 | for any text a key has the value of the last piece that names it, empty pieces passed over, up to the first piece without `=`; nothing is found in a text that starts with a comma |
| ParamSpec.SplitExactly | src/camhttp.c:95 | the pieces have no comma, and joined with commas they are the text |
| ParamSpec.TrimNameExactly | src/camhttp.c:108-124 | a name is the text without the blanks and tabs around it |
| ParamSpec.TrimValueExactly | src/camhttp.c:126-157 | a value is the text without the blanks around it and, inside these, without at most one quote on each side |
| Params.GetHttpParameter | src/camhttp.c:85-175 | the in-place tokenizer computes Lookup; 1 exactly when every key was found; every slot points at a string inside the buffer |
| Params.StrSep | src/camhttp.c:95-96 | cutting at the first delimiter |
| Params.CutValue | src/camhttp.c:126-157 | trimming and unquoting a value in place |
| Params.CutName | src/camhttp.c:108-124 | trimming a name in place |
| Hex.Hex2String | src/camhttp.c:66-83 | the hexadecimal text and its terminator, which lies inside the length given exactly if that is odd or exceeds the text; nothing else written |
| Hex.HexInjective | src/camhttp.c:66-83 | different bytes give different text |
| Hex.HexReads | src/camhttp.c:66-83 | read as digits 0 to 9 and a to f, high one first, the text is the bytes |
| Hex.WriteDigits | src/camhttp.c:71-80 | for every length the loop ends where the terminator goes, with the whole bytes that fit written |
| DigestSpec.RunInv | src/camhttp.c:177-346 | over every run: at most 1000 sessions with distinct nonces; the counts accepted for a nonce since it was issued are 1, 2, 3, ... without gap or repeat; a session's `count` is one more than the number accepted |
| DigestSpec.OutcomeExactly | src/camhttp.c:238-357 | over every run, each outcome and the sessions after it in full: accepted exactly if authentication is on, the response matches, and an unexpired session of that 32-digit nonce expects the count; issued exactly for a matching log-in with room and a new nonce; open exactly without authentication |
| DigestSpec.ExpireExactly | src/camhttp.c:177-194 | expiry keeps, once and in order, exactly the sessions with check_time + 3600 >= now |
| DigestSpec.RunNoReplay | src/camhttp.c:307-346 | a run that issues no nonce twice accepts no (nonce, nc) pair twice |
| DigestSpec.NoReplayExactly | src/camhttp.c:196-346 | for any nonce maker a run has a replay exactly when a nonce is issued anew between two uses of it |
| DigestSpec.ReplayNeedsReissue | src/camhttp.c:307-346 | a pair accepted twice has had its nonce issued in between |
| DigestSpec.ReissueReplays | src/camhttp.c:177-346 | a nonce issued anew between two uses makes a replay |
| DigestSpec.AcceptNeedsIssue | src/camhttp.c:335-346 | an accepted nonce has been issued before |
| DigestSpec.ReplayHappens | src/camhttp.c:177-236 | for any nonce maker, the code's included: if its first two counter values make one nonce more than an hour apart, a run of four requests is a replay |
| Digest.Digests.CheckDigestExpire | src/camhttp.c:177-194 | iteration with deletion of the current session leaves exactly those with check_time + 3600 >= now, in order |
| Digest.Digests.NewDigest | src/camhttp.c:196-236 | the bound, the clash and the new session with count 1 |
| Digest.Digests.UseDigest | src/camhttp.c:329-346 | accepted exactly if the session exists and the count is the expected one, which then advances |
| Digest.Digests.OnCheckDigest | src/camhttp.c:238-357 | expiry, parsing, response check and the three outcomes together are DigestSpec's step |
| Digest.Digests.ResponseMatches | src/camhttp.c:273-307 | the response is compared in 16 digits with the digest of the named parts |
| Digest.MatchesExactly | src/camhttp.c:273-307 | the response matches exactly if its first 16 digits are those of the request-digest of section 3.2.2.1 of RFC 2617 for GET and "auth" |
| Digest.CredentialsExactly | src/camhttp.c:252-305 | of a rendered header, nonce, count and response are taken under their own names, in any order |
| Digest.NonceReads | src/camhttp.c:214-219 | what is hashed for a nonce reads back as counter, time and address |
| Digest.CodeRuns | src/camhttp.c:196-346 | with the nonces the code makes, the session invariant holds over every run |
| Digest.CodeReplayIsCollision | src/camhttp.c:196-346 | a replay in a run of at most 2^32 requests exhibits two different texts the code hashed, with one MD5 digest |
| CameraSpec.RunOk | src/video_manager.c:33-189 | over every run, whichever driver calls fail: a registered device is initialised, streaming, and registered for reading on its own descriptor; a streaming device is initialised and has buffers; mapped is recorded plus what munmap refused |
| CameraSpec.MappedIsRecorded | src/v4l2port.c:103-201 | over every run, however starts and stops fail, mapped is exactly recorded if and only if no munmap of a recorded mapping has failed so far |
| CameraSpec.StepLoses | src/video_manager.c:33-189 | one event loses a mapping of a port exactly if in it a munmap of a mapping recorded for that port fails |
| CameraSpec.StaysInside | src/v4l2port.c:127-201 | the entries written while mapping, and read to release after a failure, stay inside the array exactly if no more buffers are granted than asked for |
| CameraSpec.ReleaseLoses | src/v4l2port.c:103-119 | a mapping is lost exactly when munmap fails on it |
| CameraSpec.MmapInitOk | src/v4l2port.c:121-201 | after a failure nothing is recorded, after success every buffer is |
| CameraSpec.InitOk | src/v4l2port.c:217-317 | initialised exactly on success, never streaming, descriptor open |
| CameraSpec.InitLoses | src/v4l2port.c:312-313 | a descriptor stays open exactly when it is 0 and a later step fails |
| CameraSpec.StreamStartOk | src/video_manager.c:80-132 | 0 exactly when the device is registered afterwards |
| CameraSpec.StreamStartExactly | src/video_manager.c:80-132 | 0 exactly if there is a port and it is registered already, or it is initialised or opens, it streams or its buffer is set up and STREAMON succeeds, and it can be registered; -1 otherwise; every request is stamped |
| CameraSpec.StreamOnExactly | src/v4l2port.c:365-389 | switched on exactly if it was off, the buffer is granted, queried, mapped and queued, and STREAMON succeeds |
| CameraSpec.StreamOffExactly | src/v4l2port.c:390-419 | switched off, and the buffers given back, exactly if it was on and STREAMOFF succeeds |
| CameraSpec.StreamsExactly | src/v4l2port.c:365-486 | over every run, `stream_flag` is set exactly if some STREAMON succeeded and since then no STREAMOFF has and the device was not closed |
| CameraSpec.InitExactly | src/v4l2port.c:217-317 | initialised exactly if the device opens and passes every check, and then with that descriptor |
| CameraSpec.InitVideoExactly | src/video_manager.c:157-189 | 0 exactly if there is a port and it opens, and -1 otherwise; not registered afterwards |
| CameraSpec.AddDeviceExactly | src/video_manager.c:134-155 | a device is added exactly while there are fewer than ten, in the next slot |
| CameraSpec.IdleTimeoutSafe | src/video_manager.c:37-49 | with a clock that never goes back, a device turned off at t had no stream request and served no frame in the `timeout` seconds before t |
| CameraSpec.TurnedOffExactly | src/video_manager.c:33-56 | over every run, a video event turns a registered device off exactly if no stream request and no positive delivery count fell in the `timeout` seconds before |
| CameraSpec.IdleTimeoutExact | src/video_manager.c:33-56 | if only its own clients wait whenever its frames come, exactly if it was not used in that time |
| CameraSpec.CheckTimeCovers | src/video_manager.c:191-209 | everything that sets the check time of a device is no later than its check time |
| Camera.Port.MmapRelease | src/v4l2port.c:103-119 | the loop gives back what munmap allows and clears every record |
| Camera.Port.MmapInit | src/v4l2port.c:121-201 | request, query, map and queue loops with their error path |
| Camera.Port.Init | src/v4l2port.c:217-317 | opening, the checks in order, and the error path |
| Camera.Port.StreamOn | src/v4l2port.c:365-389 | switching on |
| Camera.Port.StreamOff | src/v4l2port.c:390-419 | switching off |
| Camera.Port.Read | src/v4l2port.c:422-468 | the buffer handed to the callback is a live mapping |
| Camera.Port.Uninit | src/v4l2port.c:471-486 | what Uninit of the specification says |
| Camera.VideoManager.StreamStart | src/video_manager.c:80-132 | one slot takes CameraSpec's step, the others stay |
| Camera.VideoManager.InitVideo | src/video_manager.c:157-189 | the same for a new initialisation |
| Camera.VideoManager.Add | src/video_manager.c:134-155 | a device joins the next free slot, up to ten |
| Camera.VideoManager.SetCheckTime | src/video_manager.c:191-209 | the slot that holds the port is stamped, and nothing happens if none does |
| Camera.VideoManager.OnVideoEvent | src/video_manager.c:33-56 | delivery, stamp and idle check take CameraSpec's step |

## Left out

- HASH_SELECT, HASH_CLEAR, HASH_OVERHEAD, HASH_REPLACE, the Bloom filter: unused in camlite or easy.
- The hash functions: an arbitrary fixed function of the key; elements are looked up by key text.
- Unsigned overflow of the table's counters and of the sort's run size: they are natural numbers.
- The table pointer in every element's handle: the one table object stands for it.
- UtHash.Hash.Add: asks that the element is not yet in the table, not that its key is new, as the macro does.
- UtHash.Hash.Sort: the comparison is a fixed function of two elements; it does not change them.
- Batches of epoll events: one event at a time, so stale pointers inside a batch do not arise.
- Http.Server.ParseLine: keeps the lines and the method; sscanf of the path, the query and the headers is not modelled.
- The text of responses (http_response_compile's formatting, HTML pages, status strings): arbitrary text, then the data.
- The dispatch of requests to pages (on_reuqest and the on_get functions): an arbitrary callback of the request's lines that may answer and set the delay.
- on_accept closes the descriptor once more when http_client_new has failed: only the first close is modelled.
- A pevent freed without closing may stay known to epoll if epoll fails: later registrations of that descriptor are then failures the driver answers.
- Md5.Md5Ctx.Update: asks for a length for which the 32-bit test does not wrap; for any other it does not return, by UpdateEndsExactly.
- MD5 words are numbers below 2^32 with `|` of disjoint bytes as addition. The 64 sine constants are not derived from the sine; `Md5Vector.AlphabetDigest` ties them to RFC 1321.
- MD5's strength: a replay is shown to need a collision, and collisions are not excluded.
- Digest.Digests.OnCheckDigest: strtol is an arbitrary function of the text, and the creation counter is a natural number reduced to 32 bits where it is hashed.
- time_t is taken as 64 bits and the machine as little-endian where a nonce is hashed.
- Camera.Port.MmapInit: asks that the driver grants no more buffers than REQ_BUFFER_MAX; the C code does not check this and leaves its array exactly otherwise, by StaysInside.
- Camera.Port.StreamOn: the same, as it sets up the buffers.
- Camera.VideoManager.StreamStart: the same, as it starts the stream.
- last_error and last_errno, capability and format records, and the lengths of mappings.
- Camera.VideoManager.OnVideoEvent: the delivery count is Count of the connections at that moment, which Http.Server.KeepliveDelayIter is proved to return.
- video_manager_cleanup, v4l2port_free, signals, main, logging, the /proc readers and the allocation tracker.
- Negative device numbers: indices are natural numbers.
