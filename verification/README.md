# Native shims and release tooling, verified

Dafny models of the parts of this repository that move bytes, descriptors and evidence: the C shims under
`Ffi/`, the Windows launcher, and the Python tooling under `tools/` and `Plans/`. Each component is written
in the form its source has (methods with loops and fields that change, classes for the objects that hold
them) and proved against functions, and what the source promises is proved about those functions for all
inputs, all runs or all crash histories.

| file | component |
|---|---|
| `CommandLine.dfy` | argument quoting of the launcher, and a parser written from Microsoft's "Parsing C command-line arguments" |
| `WinArgv.dfy` | the bounded argv tokenizer, its packed result, and `getArgsIO` |
| `PeImports.dfy`, `PeImages.dfy` | the two PE import readers, the PE32+ format as a relation on bytes, and a writer of such images |
| `Shim.dfy`, `Ownership.dfy` | connect, handshake, shutdown and finalizer; any number of connections over recycled descriptor numbers |
| `ServerContext.dfy`, `Ledger.dfy` | creation of a server TLS context, with every OpenSSL object accounted for |
| `Transfer.dfy` | the two send loops |
| `HttpFixture.dfy`, `HttpClient.dfy` | the keep-alive HTTP fixture, and a client that reads by RFC 9112 |
| `TraceAcceptor.dfy`, `BlobReader.dfy`, `LineReaders.dfy` | the trace-capture peer, the `cat-file --batch` reader, the two JSON line readers |
| `FreezeRunner.dfy`, `AttemptLog.dfy` | the resumable receipt runner and the never-retry runner |
| `Inventory.dfy` | the closed-inventory validator and the archive loop |
| `JobContainment.dfy` | the launcher's job and child lifecycle |

What the operating system, OpenSSL, Win32, git and JSON answer is a parameter: a script of outcomes, or a
function of the packet. Closing the last handle of a job whose kill-on-close limit was set kills its members;
an open descriptor number is never handed out again before it is closed. SHA-256 is any function, and
injective where a result says so.

## What the proofs found

- The `/chunked` response of the HTTP fixture is one response only when the body has at least two bytes: a
  shorter one makes an empty half, which is itself a last chunk, and what follows it is not a response.
- The TLS write loop passes its remainder to `SSL_write` as an `int`: a buffer of 2^31 bytes or more can never
  be written, although the loop is written for 64-bit lengths.
- A certificate that `load_chain` reads and cannot push onto its stack is freed by nobody. Every other object
  of `dsh_tls_server_ctx` is freed exactly once on every path. The server then accepts a chain that is shorter
  than its file: an accepted chain is the whole file exactly when every push succeeded.
- The comment in `dsh_tls_read` that every socket is blocking is not always so. Both connect functions and the
  shutdown ignore whether the mode could be cleared: a read meets a nonblocking socket exactly when an earlier
  connect or shutdown of the same connection set the mode and neither it nor a later one cleared it.
- The launcher's quoting and the shim's own tokenizer are not inverse to each other: empty arguments are
  dropped, quotes lost and final backslashes doubled, and what does not fit in 8190 bytes is cut at a whole
  argument.
- The two PE readers part where the descriptor that ends the table has no name and is not all zero: one stops,
  the other looks for a name at RVA 0. On a table in one section, with RVA 0 in no section, they agree exactly
  when that descriptor is all zero or the reading fails before it.
- The launcher waits without limit after `TerminateProcess`, whose result it ignores: where the child could not be
  assigned or resumed, the termination failed and the wait did not, it hangs with the suspended child. It can
  return and leave a process behind in one case only: a never-run child where assignment, termination and wait
  all failed.

## Model

| member | source | states |
|---|---|---|
| `CommandLine.Quote` | Plans/completion-iteration-20261106/windows-test-job.cpp:7-19 | the loop with its backslash counter appends exactly the printer function |
| `CommandLine.Join` | Plans/completion-iteration-20261106/windows-test-job.cpp:23-27 | the joined command is the quoted arguments with one space between, for any number of them |
| `CommandLine.QuotedText` | Plans/completion-iteration-20261106/windows-test-job.cpp:7-19 | the printed text: double quotes around every argument, a run of n backslashes becomes 2n+1 before a double quote and 2n at the end, nothing else changes |
| `CommandLine.JoinedSnoc` | Plans/completion-iteration-20261106/windows-test-job.cpp:23-27 | one more argument adds one space and its quoted text |
| `CommandLine.ScanUndoesQuote` | Plans/completion-iteration-20261106/windows-test-job.cpp:7-19 | from any point inside an argument, with any run of pending backslashes, the C runtime scanner reads back the rest of the argument and stops at the separator |
| `CommandLine.ParseUndoesJoin` | Plans/completion-iteration-20261106/windows-test-job.cpp:23-27 | parsing the arguments after the program name returns exactly the list, empty arguments included |
| `CommandLine.CommandLineRoundTrip` | Plans/completion-iteration-20261106/windows-test-job.cpp:7-27 | for a program name without a double quote, all later arguments come back exactly; the name comes back exactly when it does not end in a backslash |
| `CommandLine.WholeListComesBack` | Plans/completion-iteration-20261106/windows-test-job.cpp:7-27 | for every program name: the whole list comes back if and only if the name has no double quote and no final backslash |
| `CommandLine.JoinIsInjective` | Plans/completion-iteration-20261106/windows-test-job.cpp:23-27 | two argument lists with the same command line are the same list |
| `WinArgv.Split` | Ffi/socket_shim.c:427-451 | for every command line and capacity, the buffer is the first bytes (at most the capacity less one) of the NUL-terminated tokens, every token is counted even when cut, and nothing else is written |
| `WinArgv.TokensOfWords` | Ffi/socket_shim.c:433-448 | any line of words in any mixture of bare and quoted stretches, with any nonempty runs of spaces and tabs between them and any around, has exactly the texts of the words as tokens; empty ones are dropped |
| `WinArgv.UnclosedQuote` | Ffi/socket_shim.c:435-444 | a quote that is never closed reaches to the end of the line |
| `WinArgv.UnquotedTokens` | Ffi/socket_shim.c:436 | no token of a line without quotes holds a space or a tab |
| `WinArgv.PackUnpacks` | Ffi/socket_shim.c:450 | the two halves come back from the packed 64-bit result if and only if each fits 32 bits |
| `WinArgv.RunsAreClean` | Ffi/socket_shim.c:433-448 | no token is empty or holds a quote, and there are no more tokens than bytes |
| `WinArgv.CollectedPrefix` | Shell/Cli.lean:87-102 | from a cut buffer, exactly the tokens that were written whole are collected, and no part of the one that was cut |
| `WinArgv.Collect` | Shell/Cli.lean:89-100 | the loop over the buffer collects the NUL-terminated strings, at most the packed count of them |
| `WinArgv.CollectsAtMost` | Shell/Cli.lean:89-100 | of NUL-terminated strings exactly the first are collected, as many as the count says |
| `WinArgv.GetArgs` | Shell/Cli.lean:80-102 | through the 8192-byte buffer, a program receives all tokens after the first that fit whole |
| `WinArgv.ReceivedExactly` | Shell/Cli.lean:80-102 | what is received is every token but the first, up to the last that fits whole with those before it in 8190 bytes |
| `WinArgv.TokensOfJoined` | Ffi/socket_shim.c:420-451 | quoted arguments without quotes are tokenized with their final backslashes doubled and the empty ones dropped |
| `WinArgv.TokenizerInvertsQuote` | Ffi/socket_shim.c:420-451 | the tokenizer reads a quoted list back if and only if every argument is nonempty, has no double quote and no final backslash |
| `WinArgv.LaunchedArgumentsArrive` | Shell/Cli.lean:80-102 | launcher, tokenizer, buffer and collection together deliver the arguments if and only if all are such arguments and all of them fit in 8190 bytes |
| `PeImports.ReadHeaders` | Plans/completion-rc11-20261106/windows-pe.py:38-52 | the header checks and the section loop give the directory offset and the table, or the first error |
| `PeImports.FindOffset` | Plans/completion-rc11-20261106/windows-pe.py:54-59 | the loop returns the offset in the first section that has the address in memory or in its file data, and nothing when none has |
| `PeImports.FollowRva` | Plans/completion-rc11-20261106/windows-pe.py:61-71 | the descriptor loop refines the walk that maps every address anew; it ends because an address past the last section is unmapped |
| `PeImports.ReadByRva` | Plans/completion-rc11-20261106/windows-pe.py:37-71 | on every input, the reader returns the specified set of names or the specified error |
| `PeImports.ReadByCursor` | Plans/completion-s3-windows-evidence-20261030/verify.py:52-88 | the cursor reader on directory 1 returns the specified set of names or the specified error |
| `PeImports.WalksAgree` | Plans/completion-s3-windows-evidence-20261030/verify.py:74-88 | inside one section, mapping the next address and advancing the cursor by 20 are the same step at every descriptor with a name; at the one without, the walks agree if and only if it is all zero or the walk had failed |
| `PeImports.ReadersAgree` | Plans/completion-s3-windows-evidence-20261030/verify.py:52-88 | on any bytes whose table lies in one section, with RVA 0 unmapped, both readers return the same result if and only if the descriptor that ends the table is all zero or the reading fails before it; with zeros they agree whatever maps RVA 0 |
| `PeImages.HeadersReadBack` | Plans/completion-rc11-20261106/windows-pe.py:38-52 | wherever the field at 0x3C points and whatever the size of the optional header, the headers of an image are read as its section table and import address |
| `PeImages.LoadedReadsBack` | Plans/completion-rc11-20261106/windows-pe.py:54-59 | for disjoint sections, what is loaded at an address is what the file has at the offset the reader maps it to |
| `PeImages.WalkReads` | Plans/completion-rc11-20261106/windows-pe.py:61-71 | a row of live descriptors and a nameless one are walked to exactly the names from any point on |
| `PeImages.ImportsReadBack` | Plans/completion-rc11-20261106/windows-pe.py:37-71 | every image, with any number of disjoint sections and descriptors and its headers and data anywhere in the file, is read as exactly the names of its import directory in memory |
| `PeImages.RefusesBadImport` | Plans/completion-rc11-20261106/windows-pe.py:54-70 | a bad entry after any number of good ones (an unmapped descriptor, or a name that is unmapped, unterminated or not ASCII) fails with that entry's error |
| `PeImages.RefusesOtherFiles` | Plans/completion-rc11-20261106/windows-pe.py:38-46 | both readers refuse a file without the signature where 0x3C says, and one that is not PE32+ |
| `PeImages.RefusesCutHeaders` | Plans/completion-rc11-20261106/windows-pe.py:48-52 | a file that ends inside a section header or inside the import directory's entry is refused |
| `PeImages.RefusesUnmappedTable` | Plans/completion-s3-windows-evidence-20261030/verify.py:68-74 | both readers refuse an import address outside all sections |
| `PeImages.NoImports` | Plans/completion-rc11-20261106/windows-pe.py:63-64 | both readers find no imports in an image whose import address is 0 |
| `PeImages.CursorReadsBack` | Plans/completion-s3-windows-evidence-20261030/verify.py:52-88 | the cursor reader reads every image whose table lies in one section back when the table ends with zeros and, with no section at RVA 0, only then |
| `PeImages.AnyNamesReadBack` | Plans/completion-rc11-20261106/windows-pe.py:37-71 | for every list of ASCII names and every nameless last descriptor there is an import section; in every image with it, one reader reads the names back always, the other, with no section at RVA 0, exactly when that descriptor is all zero |
| `PeImages.BuildIsImage` | Plans/completion-rc11-20261106/windows-pe.py:38-52 | there are such images, with a DOS stub and an optional header of any length |
| `Shim.Shim.ConnectLoopback` | Ffi/socket_shim.c:138-162 | connected if and only if the connect started, the poll answered above 0 and the pending error was read as 0; every failure goes through the one exit that clears the mode |
| `Shim.Shim.ConnectIpv4` | Ffi/socket_shim.c:181-206 | as for loopback, except that a malformed address is refused before the mode is touched |
| `Shim.ConnectMode` | Ffi/socket_shim.c:138-206 | a connect leaves its socket nonblocking if and only if clearing the mode failed and it was or had been made nonblocking; no other socket is affected |
| `Shim.Shim.TlsAccept` | Ffi/tls_shim.c:430-450 | an object if and only if allocation, descriptor and handshake succeeded; every exit leaves the descriptor with the caller |
| `Shim.Shim.TlsConnect` | Ffi/tls_shim.c:452-503 | an object, which closes the socket when freed, if and only if allocation, descriptor, peer name and handshake all succeeded; otherwise descriptors and objects are as they were |
| `Shim.Shim.Finalize` | Ffi/tls_shim.c:99-111 | the finalizer frees a real object and skips the failure sentinel |
| `Shim.Shim.TlsClose` | Ffi/tls_shim.c:562-577 | the four mode calls on the shared BIO, each of which may fail, amount to one set and one clear that work if either of their two calls did; nothing is freed |
| `Ownership.StepKeeps` | Ffi/tls_shim.c:430-503 | every step of any caller, of the finalizer and of the operating system keeps the ownership invariant |
| `Ownership.NoSocketIsClosedTwice` | Ffi/README.md:24-30 | in every run over any number of connections with recycled numbers, every close hit a socket and no socket was closed twice |
| `Ownership.EverySocketIsClosedOnce` | Ffi/README.md:24-30 | when callers have closed what they owe and all objects are finalized, each socket was closed exactly once and no number or object is left |
| `Ownership.StepsCloseTheirOwn` | Ffi/tls_shim.c:496-501 | a close or finalization closes the socket of its own connection; freeing an accepted object closes nothing |
| `Ownership.ReadsNeedAHandshake` | Ffi/tls_shim.c:430-503 | in every run, a connection that can be read from has been through a successful handshake; a client also through a completed connect and with its peer's name pinned |
| `Ownership.UsesTheirOwnSocket` | Ffi/tls_shim.c:539-552 | whenever a run reaches a read or shutdown, the object still stands for its own socket, and that socket is nonblocking if and only if an earlier connect or shutdown of this connection set the mode and neither it nor a later one cleared it |
| `Ownership.NonblockingExactly` | Ffi/socket_shim.c:138-206 | in every run and for every connection, open or not, the mode of its socket is what its own mode calls left; no call of another connection touches it |
| `Ownership.ReadsBlock` | Ffi/tls_shim.c:539-541 | the assumption of the read loop holds in every run in which each call that sets the mode also clears it |
| `Ownership.ReadCanMeetNonblocking` | Ffi/socket_shim.c:138-162 | a run that reaches a read on a nonblocking socket: a connect that sets the mode and fails to clear it, then a good handshake |
| `Ownership.DoubleOwnerHitsAnother` | Ffi/tls_shim.c:496-501 | a caller that also closes after a successful client handshake lets the finalizer close a recycled number |
| `ServerContext.OpenSsl.LoadChain` | Ffi/tls_shim.c:214-254 | returns the chain exactly when the file opens, is well formed and yields a certificate; what stays live is the chain and the certificates that could not be pushed |
| `ServerContext.OpenSsl.LeafHasSan` | Ffi/tls_shim.c:258-269 | true exactly when a DNS or IP entry exists; the names are freed |
| `ServerContext.OpenSsl.OpenStore` | Ffi/tls_shim.c:271-280 | the store is returned live, or freed |
| `ServerContext.OpenSsl.ChainValidates` | Ffi/tls_shim.c:285-303 | all it creates is freed on every path |
| `ServerContext.OpenSsl.BaseCtx` | Ffi/tls_shim.c:305-316 | the context is returned live, or freed |
| `ServerContext.OpenSsl.ServerCtx` | Ffi/tls_shim.c:320-379 | for all answers and any chain length: a context exactly when every check passes; every object created is freed exactly once, except that context and certificates whose push failed |
| `ServerContext.AcceptsExactly` | Ffi/tls_shim.c:320-379 | in the single answers of all calls: when a server context is created, if and only if |
| `ServerContext.PushedCounts` | Ffi/tls_shim.c:228-229 | the chain has one certificate for each push that succeeded |
| `ServerContext.NothingLostExactly` | Ffi/tls_shim.c:228-229 | no certificate is lost if and only if none was read or every push onto the chain succeeded |
| `ServerContext.AcceptedChainIsWhole` | Ffi/tls_shim.c:228-253 | an accepted chain is nonempty, and is the whole file if and only if every certificate that was read was pushed |
| `Transfer.Connection.DshSendAll` | Ffi/socket_shim.c:270-287 | for any script of partial writes, interrupts and errors, a prefix of the buffer is on the stream, in order and once, and the reply is the specified one |
| `Transfer.Connection.DshTlsWriteAll` | Ffi/tls_shim.c:505-528 | the same for the TLS loop, which never retries and passes the remainder as a 32-bit length |
| `Transfer.ReplyTellsAll` | Ffi/socket_shim.c:270-287 | the reply is the length if and only if the whole prefix was sent, and else the all-ones value; a length beyond the buffer sends nothing |
| `Transfer.InterruptsAreInvisible` | Ffi/socket_shim.c:279-281 | a script means what it means with its interrupts removed |
| `Transfer.RefusalEnds` | Ffi/socket_shim.c:278-282 | an error ends the loop where it stands, whatever would be answered next |
| `Transfer.WriteIsStrictSend` | Ffi/tls_shim.c:516-527 | below 2^31 bytes the TLS loop is the send loop with every answer that takes nothing as an error |
| `Transfer.SendsWhatIsOffered` | Ffi/socket_shim.c:276-284 | without errors, exactly as many bytes are sent as were taken, up to the length |
| `Transfer.TlsWriteCanSucceed` | Ffi/tls_shim.c:516-527 | some script lets a write return its length if and only if the length is below 2^31 |
| `HttpFixture.Handler.ReadHead` | tools/http_test_server.py:18-23 | the header loop refines the field reader, and stops where it stops |
| `HttpFixture.Handler.Compose` | tools/http_test_server.py:39-50 | head and payload are the specified response |
| `HttpFixture.Handler.Handle` | tools/http_test_server.py:12-54 | on every input the handler writes the specified bytes and leaves the specified rest unread |
| `HttpClient.ResponseText` | tools/http_test_server.py:39-50 | every response byte for byte: status line, connection option, length or chunked coding with the body in its two halves |
| `HttpClient.AnswersExactly` | tools/http_test_server.py:24-54 | for any head and any bytes after it: how many are taken as the body, which requests get no response, and which response the others get |
| `HttpClient.RefusesBadHead` | tools/http_test_server.py:15-22 | a head cut short anywhere, or with a line that has no colon, gets no response |
| `HttpClient.PathIs` | tools/http_test_server.py:30 | the path stands between the first two spaces of the request line |
| `HttpFixture.LowerIsAscii` | tools/http_test_server.py:23 | names and values lose the case of ASCII letters and nothing else |
| `HttpClient.ChunkedRoundTrip` | tools/http_test_server.py:42-48 | every chunked payload decodes by section 7.1 of RFC 9112 to the body, and is read to its end if and only if the body has at least two bytes |
| `HttpClient.ReadEncodedFields` | tools/http_test_server.py:18-23 | the field lines of any request are read as the dictionary they mean, up to the blank line and no further |
| `HttpClient.ServesOne` | tools/http_test_server.py:15-54 | a well-formed request is consumed to its last byte and answered with its own body, whatever follows |
| `HttpClient.RefusesBadLength` | tools/http_test_server.py:26-29 | a length above 65536 or below -1, or none that is a number, gets no response and leaves the body unread |
| `HttpClient.ServesInOrder` | tools/http_test_server.py:14-54 | any sequence of well-formed requests is answered once each and in order up to the first that closes; what follows a close stays unread |
| `HttpClient.ReadsResponse` | tools/http_test_server.py:39-51 | a client reading by sections 4 and 6.3 of RFC 9112 gets status 200, the body and the connection option, and the stream after it |
| `HttpClient.Conversation` | tools/http_test_server.py:12-54 | the client reads back one response of status 200 per request in order with its own body if and only if every answered chunked request has at least two bytes of body |
| `HttpClient.PostIsWellFormed` | tools/http_test_server.py:24-30 | an ordinary POST with Content-Length is well formed and says its path and connection option |
| `TraceAcceptor.Serve` | tools/check-trace-capture.py:35-73 | the reply loop, the cancel step and the final read refine the specified session |
| `TraceAcceptor.PassesExactly` | tools/check-trace-capture.py:35-91 | for every script, the case passes if and only if the input is one register, one fixed await per further reply, the scripted cancel, and nothing more, and only the last reply may be the closing one |
| `TraceAcceptor.PassingExchange` | tools/check-trace-capture.py:40-70 | a session that passes has sent every scripted reply in order with its line feed, and recorded the whole input |
| `TraceAcceptor.TakenIs` | tools/check-trace-capture.py:42 | a packet ends at its first line feed, after 65537 bytes, or with the stream |
| `TraceAcceptor.PacketsAreTheInput` | tools/check-trace-capture.py:42 | the packets are the whole input in order |
| `BlobReader.VerifyBlobs` | Plans/completion-rc11-20261106/windows-source-verify.py:9-13 | the loop with its read position collects the mismatching paths in order, or fails as specified |
| `BlobReader.ReadsBlob` | Plans/completion-rc11-20261106/windows-source-verify.py:11 | a blob is recovered whatever bytes it holds, and the next object starts right after it |
| `BlobReader.RefusesMissing` | Plans/completion-rc11-20261106/windows-source-verify.py:11 | a missing object is refused instead of read as data |
| `BlobReader.RefusesBadFrame` | Plans/completion-rc11-20261106/windows-source-verify.py:11 | data that no line feed follows at the announced size are refused |
| `BlobReader.ComparesEveryBlob` | Plans/completion-rc11-20261106/windows-source-verify.py:8-13 | for any list of contents, every blob is compared and the stream is read exactly to its end; a list with a missing object fails |
| `BlobReader.PassesExactlyOnEqualFiles` | Plans/completion-rc11-20261106/windows-source-verify.py:9-15 | with an injective digest there is no mismatch if and only if every tracked path is a file equal to its blob |
| `LineReaders.Socket.ReadPacket` | tools/check-client-framing.py:94-99 | the byte-wise loop returns the packet of the stream and takes no byte after it |
| `LineReaders.Client.ReadLine` | tools/check-async-server-resources.py:31-35 | a buffered line is the line of the stream however it arrives |
| `LineReaders.Client.Call` | tools/check-async-server-resources.py:33-37 | a call sends its line and returns the packet, leaving what follows for the next call |
| `LineReaders.PacketExactly` | tools/check-client-framing.py:95-99 | a stream has a packet if and only if a line feed is among its first 65536 bytes |
| `LineReaders.PacketByFirstLineFeed` | tools/check-client-framing.py:95-99 | the packet is everything through the first line feed |
| `LineReaders.CallsReturnTheLines` | tools/check-async-server-resources.py:33-37 | a stream of lines within the limit is returned line by line, without loss or bleeding |
| `LineReaders.ReadersAgree` | tools/check-async-server-resources.py:33-37 | on one stream cut into pieces in two ways, both readers return the same packet or refuse, and leave the same rest |
| `FreezeRunner.Runner.Run` | Plans/completion-rc11-20261106/freeze-rc11.py:52-66 | the code in order, stopped at any point, has the specified effect and result |
| `FreezeRunner.ReceiptsAreFinal` | Plans/completion-rc11-20261106/freeze-rc11.py:52-66 | over any history no receipt changes and no command is executed again once its receipt exists |
| `FreezeRunner.ExecutionsAreAccounted` | Plans/completion-rc11-20261106/freeze-rc11.py:58-63 | executions of a name are those that left its receipt plus those lost to a crash or an exception |
| `FreezeRunner.AtMostOnce` | Plans/completion-rc11-20261106/freeze-rc11.py:58-63 | with nothing lost, a name is executed at most once |
| `FreezeRunner.SuccessIsRecorded` | Plans/completion-rc11-20261106/freeze-rc11.py:55-66 | a success is what the receipt on disk says for this very command |
| `FreezeRunner.SuccessIsReal` | Plans/completion-rc11-20261106/freeze-rc11.py:52-66 | over any history every whole receipt records an execution as it happened, and a success returns the output of an execution of that very command that ended with 0 |
| `FreezeRunner.NewNameSucceedsExactly` | Plans/completion-rc11-20261106/freeze-rc11.py:58-66 | a first call that nothing stops succeeds if and only if its command exits with 0, records it as it was, and the next call repeats the success or refuses |
| `FreezeRunner.AnswerIsFixed` | Plans/completion-rc11-20261106/freeze-rc11.py:54-57 | once a receipt exists every later call has the same answer, a success if and only if arguments, directory and exit code 0 match |
| `FreezeRunner.ResumedPassesAgree` | Plans/completion-rc11-20261106/freeze-rc11.py:52-66 | two completed passes over a script return the same results whatever happened between them |
| `AttemptLog.Directory.Run` | Plans/completion-rc11-20261106/common.py:38-57 | the call alone, stopped after any step, is the specified run of steps |
| `AttemptLog.LoneCall` | Plans/completion-rc11-20261106/common.py:44-57 | a lone call for a fresh name leaves its files and succeeds exactly when the command ends with an accepted code |
| `AttemptLog.TokenKept` | Plans/completion-rc11-20261106/common.py:44-48 | creating the output file is a token that at most one process ever holds for a name |
| `AttemptLog.AtMostOnceEver` | Plans/completion-rc11-20261106/common.py:38-57 | for any interleaving of any number of processes and crashes, each name is executed at most once; a success stands for that one execution, whose code is the returned one and accepted, and its record is on disk |
| `AttemptLog.EarlierAttemptRefused` | Plans/completion-rc11-20261106/common.py:44-45 | with any file of an earlier attempt, the name is never executed in any interleaving, its files stay as they are, and no call for it gets past the check |
| `AttemptLog.RunsExactlyOnFreshNames` | Plans/completion-rc11-20261106/common.py:38-57 | some run executes a name if and only if the directory held no file of it |
| `Inventory.CheckInventory` | Plans/mainwork-freeze-20261103/verify.py:299-321 | the loops and set comparisons give the specified verdict, first failure included |
| `Inventory.SizeTellsDistinct` | Plans/mainwork-freeze-20261103/verify.py:302-303 | the length comparison detects exactly the repeated paths |
| `Inventory.RetainsExactly` | Plans/mainwork-freeze-20261103/verify.py:311-316 | what has to be listed, by the parts of its path |
| `Inventory.FirstFailure` | Plans/mainwork-freeze-20261103/verify.py:299-321 | which failure is reported, in the order of the checks |
| `Inventory.AcceptsExactly` | Plans/mainwork-freeze-20261103/verify.py:299-321 | accepted if and only if the entries are a duplicate-free, validly classed one-to-one listing of the retained files with matching sizes and digests |
| `Inventory.OneInventoryOneTree` | Plans/mainwork-freeze-20261103/verify.py:299-321 | with an injective digest, an inventory accepted for one tree is accepted for another if and only if the retained files are equal |
| `Inventory.LoadArchive` | Plans/completion-evidence-20261029/verify.py:48-60 | the member loop with its dictionary gives the specified contents or first failure |
| `Inventory.HasDotDotExactly` | Plans/completion-evidence-20261029/verify.py:56 | a name goes up if and only if one of its parts is `..` |
| `Inventory.MemberRefused` | Plans/completion-evidence-20261029/verify.py:54-58 | why a member is refused |
| `Inventory.ArchiveIsPermutation` | Plans/completion-evidence-20261029/verify.py:48-60 | accepted if and only if the files of the archive are a permutation of the index, each as recorded |
| `Inventory.ContentsAreTheMembers` | Plans/completion-evidence-20261029/verify.py:49-59 | an accepted archive delivers each file under its own name with its own bytes |
| `JobContainment.Launcher.Poll` | Plans/completion-iteration-20261106/windows-test-job.cpp:60-65 | at most forty queries, the last of which decides |
| `JobContainment.Launcher.ListMembers` | Plans/completion-iteration-20261106/windows-test-job.cpp:67-84 | of at most 128 listed members each that can be opened is opened, and its handle closed again |
| `JobContainment.Launcher.Wmain` | Plans/completion-iteration-20261106/windows-test-job.cpp:21-88 | for every pattern of API failures: nothing runs outside the job; the launcher is stuck if and only if the child was created, the wait does not fail, and the child neither ends by itself after a resume nor, without one, could be terminated; if it returns, every handle was closed exactly once, no process survives except a never-run child where assignment, termination and wait all failed, and the code is the verdict |
| `JobContainment.ZeroExactly` | Plans/completion-iteration-20261106/windows-test-job.cpp:55-87 | 0 is returned if and only if the child was started, the wait came back, the exit code was read as 0 and one of the queries found no member after earlier ones that found some |
| `JobContainment.CodePassesThrough` | Plans/completion-iteration-20261106/windows-test-job.cpp:55-87 | with the child started, the wait back and the job found empty, the result is the child's code as a signed 32-bit number, or 2 if it could not be read; every other launcher that returns returns 2 |

## Left out

- Program name under `quote`: it is read by another rule, so the round trip speaks of the arguments after it; when the name comes back too is `WholeListComesBack`.
- ANSI conversion: `GetCommandLineA` converts the wide command line; the composition of launcher and tokenizer is about text that the conversion leaves alone.
- PE import directory 13 (delay load) of the S3 reader, and the closure test over DLL names.
- Interleaving inside one shim call: the steps of a run are whole calls, so the mode flip inside `dsh_tls_close` is not seen by a read on another thread.
- `SSL_set_fd` takes an `int`; descriptor values are taken to fit it, as the shim documents.
- `dsh_tls_client_ctx`, fingerprints, expiry, key permissions, error texts, certificate verification itself.
- `Transfer.Connection.DshSendAll`: the POSIX `send`; Winsock's `send` takes an `int` length like `SSL_write`.
- `dsh_recv_some` and the retry in `dsh_tls_read`: one call each, nothing across calls.
- HTTP fixture: the `/race` barrier is a parameter and `/silent` ends at once; timeouts and other threads are not modelled. `int()` reads any number of digits.
- `HttpClient.DecodeChunks`: chunk extensions and trailer fields are not read, since the fixture sends none.
- The blob check's own `git status` condition, and how the list of tracked paths is read.
- Trace-capture peer: JSON is a function from packets to kinds, writes to the peer succeed, and a reset instead of an end of stream is not modelled.
- `FreezeRunner.Runner.Run`: the recorded output is bytes and `strip` removes ASCII blanks; a torn receipt is one that is not JSON (a receipt that only lacks its final newline is whole).
- `Inventory.CheckInventory`: the error lists are sets instead of their first eight members; names are canonical strings relative to the root.
- The `check_inventory` of the completion evidence: the same entry loop without the closure test.
- `JobContainment.Launcher.Wmain`: a suspended child is killed by nobody but the launcher; what the member listing prints is not modelled.
- The Lean protocol, codecs and job store; release, publication and deployment scripts; the fixed tables of versions and hashes.
