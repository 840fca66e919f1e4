# A verified model of a small epoll HTTP server

This project models, in Dafny, the core of a small HTTP/1.1 server written in
C++ and the demo image gallery built on it. Each core file is modelled in its
own module:

- `HttpMessage` (http_message.hpp). It models the exact-match splitter
  `split` with its optional piece limit, the request parser `parse`, and the
  response serialiser `get_HTTP`.
  - `split` is specified by the function `Scan`. The method `Split` runs the
    source's loop, including the index jump after a match.
  - `parse` is a method of the class `HttpRequest`, which updates its four
    fields.
- `HttpSocket` (http_socket.hpp). It models the framer `receive_message`.
  - `read` and `poll` become a sequence of `ReadResult` events.
  - One loop iteration is the function `Step` on a machine state, and `Run`
    iterates it. Both take a `Reading`: the digit loop as written, or the
    evidently intended decimal reading of `Content-Length`, used by the
    findings.
  - The class `Socket` keeps its buffer in an `array<byte>` that is doubled
    in place when full. Its method `ReceiveMessage` is proved to compute
    `Run` and to leave the parsed request in the `request` object.
- `HttpServer` (http_server.hpp). It models the dispatcher's bookkeeping in
  `handle_connections`: the fd encoding on the control pipe, the events, the
  admission loop, the assignment loop, and the worker verdict of
  `handle_fd`.
  - The datatype `Books` holds the queues, the slot pool, the counters and
    `working_fd`.
  - The functions `OnEvent`, `Admit` and `Assign` say what each step does.
    The class `Server` does the same on its fields.
  - Ghost state (`armed`) records the fds the dispatcher believes it
    registered in epoll. A failed accept arrives as fd 65535 and stays
    armed, although epoll refuses it. An accounting invariant relates the
    counters to the armed fds, and the slot pool to the number of workers.
- `HtmlTemplate` (html_template.hpp). It models the constructor's escape
  machine, which cuts the template into components at each unescaped `%`,
  and `render`. The machine runs over the template's lines.
- `GalleryServer` (gallery_server.cpp). It models the handler.
  - The image map is a list sorted by name.
  - It covers `parse_uri`, the check of a posted link, the `render_gallery`
    fold, and the routing of `handle_request`.
  - The response is a record of the fields the handler sets.
- `Common` holds the `Option` and `Result` types, bytes and strings.

Where the specification of the system and the code disagree, the model
follows the code:
- Serialisation: `get_HTTP` returns a constant with `Content-Length: 0`.
  The specification says the length is recomputed from the body. See the
  findings.
- Declared body length: the framer does not wait for a declared
  `Content-Length` body. The digit loop applies `isdigit` to the buffer
  index instead of the byte, and adds raw byte codes. Unless the key starts
  at offsets 32-41, the loop reads no byte after the key, and the expected
  size is `body_start`. See the findings.
- Peer closes early: `receive_message` returns 1 and parses what arrived.
  The specification calls this a fatal error (`Finish`).
- Poll timeout: a timeout (`poll` returning 0) is retried, not treated as
  fatal (`PollRetries`).
- Close before any byte: when the peer closes before sending anything,
  `receive_message` returns -1. The specification calls this a clean close.
- Closed connections: on `EPOLLERR` or `EPOLLHUP` the dispatcher deletes
  and closes the fd, but counts it down in neither
  `concurrent_connection_count` nor `current_size`. The counters then drift
  from the live connections, and after `max_concurrent` such closes nothing
  more is admitted. See the findings.
- Failed accepts: the acceptor forwards the result of `accept4` without
  checking it, so a failure (-1, for instance on `EMFILE`) arrives as fd
  65535. Admission counts it in both counters and registers it with an
  unchecked `epoll_ctl`, which fails. No event ever comes for it, so each
  failed accept keeps one admission slot for good (`FailedAcceptArmed`).
- Response fields: the `http_response` class declares no `status_code` or
  `reason_phrase`. `handle_request` sets them anyway, so the model keeps
  them as optional fields of `Response`. `None` means the handler left the
  default in place. None of these fields reaches the wire: `get_HTTP`
  reads only the member `response`, which `handle_request` never sets.
  Every reply is therefore the fixed "200 OK" text, and it would still be
  "200 OK" with an empty body if lines 117-125 ran. A 404, 400 or 501, the
  caching headers and the gallery page are never sent.

## Model

| member | source | states |
|---|---|---|
| HttpMessage.Scan | http_message.hpp:19-52 | the pieces of split, from the front; never an empty list before the final pop |
| HttpMessage.MatchAt | http_message.hpp:29-37 | the inner comparison loop reports a match exactly when the separator is at i, or the input ends before a whole separator fits (good stays true) |
| HttpMessage.Split | http_message.hpp:19-52 | the imperative splitter, with its index jump, computes the specification SplitSpec (Scan followed by popping one trailing empty piece) |
| HttpMessage.ScanJoin | http_message.hpp:24-50 | joining the pieces with the separator gives back the input, up to the final separator or short tail |
| HttpMessage.SplitJoinOneChar | http_message.hpp:24-50 | for a one-character separator with no limit, joining the pieces gives the input less a final separator character |
| HttpMessage.ScanHeadIsPrefix | http_message.hpp:24-44 | the first piece is a prefix of the input |
| HttpMessage.ScanPieceFree | http_message.hpp:29-44 | with no limit (or before the last piece) no piece holds the separator |
| HttpMessage.SplitPiecesFree | http_message.hpp:29-44 | with no limit no piece of split contains the separator |
| HttpMessage.SplitEmptyIff | http_message.hpp:22-50 | split returns the empty list exactly for the empty input |
| HttpMessage.ScanLimit | http_message.hpp:25-27 | with a limit n the scan has at most n+1 pieces |
| HttpMessage.SplitLimit | http_message.hpp:25-27 | with a limit n split returns at most n+1 pieces |
| HttpMessage.ScanFirstSeparator | http_message.hpp:29-41 | the scan cuts at the first separator and goes on with one separator less to consume |
| HttpMessage.SplitOnceVerbatim | http_message.hpp:25-27 | with limit 1 everything after the first separator is one verbatim piece, later separators included |
| HttpMessage.SplitHeaderExample | http_message.hpp:90 | "a: b: c" split on ": " with limit 1 gives ["a", "b: c"] |
| HttpMessage.SplitTrailingExample | http_message.hpp:48-50 | only one trailing empty piece is popped: "a  " on " " keeps one empty piece |
| HttpMessage.SplitShortTailExample | http_message.hpp:29-41 | near the end good stays true, so "abc" split on CRLF loses its last character |
| HttpMessage.FirstEmpty | http_message.hpp:89-94 | the header loop stops at the first empty line after the request line, or at the end |
| HttpMessage.ContentOf | http_message.hpp:100-107 | the body is the lines after the first empty line, each followed by CRLF, and empty when there is no empty line |
| HttpMessage.BodyJoin | http_message.hpp:104-106 | the accumulated body is the lines joined by CRLF plus a final CRLF |
| HttpMessage.HeaderMapKeys | http_message.hpp:89-98 | a key is in the header map exactly when some header line has it |
| HttpMessage.HeaderMapLast | http_message.hpp:96 | a repeated header keeps the value of its last line |
| HttpMessage.HeaderLineTokens | http_message.hpp:90-96 | a line "key: value" is split into key and value, the value keeping further ": " |
| HttpMessage.HeaderMapStep | http_message.hpp:96 | one loop iteration adds one key to the map built so far |
| HttpMessage.BodyStep | http_message.hpp:105 | one loop iteration appends one line and CRLF to the body |
| HttpMessage.ParseHeaders | http_message.hpp:87-98 | the header loop builds the header map of the header lines and returns where the content starts, or -1 |
| HttpMessage.CollectContent | http_message.hpp:101-107 | the content loop produces the body of the remaining lines |
| HttpMessage.HttpRequest.constructor | http_message.hpp:74 | a new request has empty method, URI, headers and content |
| HttpMessage.HttpRequest.Parse | http_message.hpp:75-108 | parse sets method and URI to the first two tokens of the first line, replaces the headers by those of this request, and sets the body |
| HttpMessage.Decimal | http_message.hpp:122 | to_string gives a non-empty string of decimal digits |
| HttpMessage.DecimalRoundTrip | http_message.hpp:122 | reading back the decimal text of n gives n |
| HttpMessage.DigitRun | http_message.hpp:122 | the run of leading digits is maximal |
| HttpMessage.DigitRunOf | http_message.hpp:122 | digits followed by a non-digit form a run of exactly their length |
| HttpMessage.ReadReplyOf | http_message.hpp:117-125 | a reader that honours Content-Length takes exactly the declared body |
| HttpMessage.GetHttp | http_message.hpp:115-116 | the reply get_HTTP returns declares and carries an empty body, whatever the response |
| HttpMessage.GetHttpDropsBody | http_message.hpp:116 | two different bodies give the same reply, and the body is not delivered |
| HttpMessage.Serialize | http_message.hpp:117-125 | the serialiser of the unreachable lines delivers exactly the body to a reader that honours Content-Length |
| HttpSocket.ScanFrom | http_socket.hpp:100-108 | the terminator scan stops at the first "\r\n\r\n" ending at or after the cursor, or at the end of the received bytes |
| HttpSocket.CString | http_socket.hpp:129-131 | the text handed to parse is the received bytes up to the first NUL |
| HttpSocket.Text | http_socket.hpp:131 | bytes become characters one to one |
| HttpSocket.FindFrom | http_socket.hpp:111 | the search for "Content-Length: " returns its first occurrence, or none |
| HttpSocket.Wrap | http_socket.hpp:61 | helper: size_t arithmetic is taken modulo 2^64; its contract is only the range, and ContentLengthIgnored and BodyNotAwaited say what the wrapped loop computes |
| HttpSocket.DigitLoop | http_socket.hpp:115-118 | the loop tests isdigit of the index and adds raw bytes; when the index is not a digit code it adds nothing |
| HttpSocket.Scanned | http_socket.hpp:99-108 | the terminator scan keeps the invariant and only moves the cursor forward |
| HttpSocket.Expect | http_socket.hpp:109-124 | once headers end, the loop either stops (no Content-Length) or goes on with a computed expected size |
| HttpSocket.ExpectKey | http_socket.hpp:110-123 | without the key the expected size is 0 and the loop ends; with it, the loop goes on and only the expected size changes |
| HttpSocket.KeyEnd | http_socket.hpp:113-119 | the expected size for a key found at f is the as-written ContentEnd, or the intended reading of the digits, as a size_t |
| HttpSocket.ContentEnd | http_socket.hpp:113-119 | helper: body_start plus the digit loop's value as a size_t; its contract is only the range, and ContentLengthIgnored states its value |
| HttpSocket.After | http_socket.hpp:96-125 | the checks after a read keep the invariant, and a finished loop has all expected bytes |
| HttpSocket.Fill | http_socket.hpp:65-94 | a read appends at most the free room of the buffer, the rest waits for the next read, and a full buffer doubles |
| HttpSocket.Deliver | http_socket.hpp:86-125 | a successful read appends the bytes it delivers and keeps the buffer invariant |
| HttpSocket.Step | http_socket.hpp:63-127 | one iteration loses no byte, consumes input, at most doubles the buffer, and never moves the cursor back |
| HttpSocket.ReadStep | http_socket.hpp:86-126 | the iteration for a read that returns data keeps every received byte |
| HttpSocket.Run | http_socket.hpp:63-127 | the loop ends, loses no byte, a normal end has all expected bytes, and a known expected size never changes again |
| HttpSocket.Start | http_socket.hpp:55-62 | the initial state (checked 3, mss 0, expected (size_t)-1) satisfies the invariant |
| HttpSocket.Finish | http_socket.hpp:128-136 | the result is -1 on error or no bytes, 1 on EOF after bytes, and 0 after a complete message |
| HttpSocket.PollRetries | http_socket.hpp:67-75 | after EAGAIN, a poll result of 0 or more retries the read, and a negative one fails |
| HttpSocket.HeaderWithoutLength | http_socket.hpp:109-123 | when headers end without Content-Length, reading stops at once |
| HttpSocket.ContentLengthIgnored | http_socket.hpp:115-116 | with the key anywhere but offsets 32-41 the expected size is the body start |
| HttpSocket.BodyNotAwaited | http_socket.hpp:111-119 | a request whose first read ends at the header terminator finishes without waiting for its declared body |
| HttpSocket.IntendedContentEndReads | http_socket.hpp:113-119 | the intended digit loop reads the decimal value after the key |
| HttpSocket.IntendedKeyEnd | http_socket.hpp:113-119 | with the intended reading, a key followed by the decimal text of n gives the expected size body_start + n |
| HttpSocket.HeaderRead | http_socket.hpp:86-124 | a first read that completes the header and holds the key goes on running, with the expected size the reading gives |
| HttpSocket.BodyAwaited | http_socket.hpp:109-124 | with the intended reading, a header declaring Content-Length n makes the loop end normally only once body_start + n bytes have arrived |
| HttpSocket.PostHeaderScans | http_socket.hpp:100-116 | the header of the finding holds no NUL, its terminator ends at 37 and its key starts at 17, followed by "5" |
| HttpSocket.PostBodyLeft | http_socket.hpp:63-127 | as written, that header in one read and "hello" in the next: the loop ends after the header and "hello" stays unread |
| HttpSocket.FirstRead | http_socket.hpp:86-108 | a first read that ends at the header's terminator leaves all of it received, body_start one past the terminator and the expected size still unknown |
| HttpSocket.IntendedHeaderRead | http_socket.hpp:86-124 | with the intended reading, a first read holding a whole header that declares n bytes leaves the loop running, expecting the header's length plus n, with the rest of the input untouched |
| HttpSocket.HeaderThenBody | http_socket.hpp:63-127 | with the intended reading, a header declaring the body's length in one read and the body in the next: the loop ends normally with both received and nothing left |
| HttpSocket.LastRead | http_socket.hpp:86-97 | a last read that brings exactly the missing bytes ends the loop normally with everything received |
| HttpSocket.PostBodyAwaited | http_socket.hpp:63-127 | with the intended reading the same input ends normally with header and "hello" both received and nothing left |
| HttpSocket.BodyStartAfterFirstTerminator | http_socket.hpp:99-108 | body_start is 0 or one past the first "\r\n\r\n", and then at least 4 |
| HttpSocket.CopyPrefix | http_socket.hpp:92 | memcpy copies the first k bytes and leaves the rest of the target unchanged |
| HttpSocket.Socket.constructor | http_socket.hpp:34-40 | the buffer is not allocated yet, its size is the starting size, and the request is empty |
| HttpSocket.Socket.ReadInto | http_socket.hpp:65 | a read writes min(bytes, free room) at mss and nothing else |
| HttpSocket.Socket.Grow | http_socket.hpp:88-94 | the new buffer is twice as long and starts with the old contents |
| HttpSocket.Socket.ScanTerminator | http_socket.hpp:100-108 | the scanning loop computes ScanFrom on the received bytes |
| HttpSocket.Socket.CLength | http_socket.hpp:131 | the length of the C string is that of the prefix before the first NUL |
| HttpSocket.Socket.KeyAt | http_socket.hpp:111 | the comparison reports an occurrence of the key at i |
| HttpSocket.Socket.FindLengthKey | http_socket.hpp:111 | the search returns the first occurrence of the key in the received text |
| HttpSocket.Socket.DigitValue | http_socket.hpp:113-118 | the digit loop on the array computes DigitLoop |
| HttpSocket.Socket.ExpectedSize | http_socket.hpp:109-124 | the expected-size code computes ExpectKey |
| HttpSocket.Socket.AfterRead | http_socket.hpp:96-125 | the checks after a read compute After |
| HttpSocket.Socket.Receive | http_socket.hpp:65-94 | one read into the array computes Fill, growing the array when it fills up |
| HttpSocket.Socket.Iteration | http_socket.hpp:64-126 | one loop iteration on the array computes Step |
| HttpSocket.Socket.Loop | http_socket.hpp:58-127 | the read loop on the array computes Run from the initial state |
| HttpSocket.Socket.Conclude | http_socket.hpp:128-136 | the end of receive_message writes the NUL, parses the request when a message arrived, and returns Finish |
| HttpSocket.Socket.ReceiveMessage | http_socket.hpp:48-137 | receive_message allocates the buffer once, computes Run and Finish, and leaves the parsed request, or the old one on -1 |
| HttpServer.DecodeFd | http_server.hpp:157 | the two bytes decode to an fd in 0..65535 |
| HttpServer.FdRoundTrip | http_server.hpp:106-107 | decoding the encoding gives back the fd exactly when 0 <= fd < 65536 |
| HttpServer.EncodeDecode | http_server.hpp:157 | every byte pair is the encoding of what it decodes to |
| HttpServer.FailedAcceptDecodes | http_server.hpp:105-107 | a failed accept4 (-1) reaches the dispatcher as fd 65535 |
| HttpServer.FailedAcceptArmed | http_server.hpp:208-221 | a failed accept queued as 65535 is admitted like a connection: both counters grow and it joins the armed fds, keeping the accounting, so nothing counts it down again |
| HttpServer.Admit | http_server.hpp:208-221 | admission takes the first Admitted fds from conn_fd_queue in FIFO order and counts each in the counter and current_size |
| HttpServer.AdmitBounded | http_server.hpp:208-221 | a counter within the cap stays within it, and admission stops only at the cap or on an empty queue |
| HttpServer.AssignPairs | http_server.hpp:223-235 | assignment makes min(fds, slots) pairs, fds from the front and slots from the back of the pool, and changes no counter |
| HttpServer.AssignRecords | http_server.hpp:232 | working_fd records each pair's fd under its slot and keeps other slots' entries |
| HttpServer.HangUpChangesNothing | http_server.hpp:189-200 | an ERR or HUP event changes neither the counter nor current_size |
| HttpServer.ReadyQueues | http_server.hpp:201-204 | a readiness event queues the fd and decrements current_size |
| HttpServer.CompletionReturnsSlot | http_server.hpp:160-185 | a completion returns the slot to the pool; close decrements the counter, keep-alive increments current_size |
| HttpServer.Verdict | http_server.hpp:239-255 | the worker reports 0 exactly when receive succeeded and the handler returned 0 |
| HttpServer.VerdictCloses | http_server.hpp:173-179 | the dispatcher closes the connection exactly when receive failed or the handler returned non-zero |
| HttpServer.PoolBound | http_server.hpp:227-234 | a pool of distinct slot ids below n has at most n slots |
| HttpServer.OnEventAccounts | http_server.hpp:149-206 | each legitimate event keeps the accounting of slots and connections |
| HttpServer.AdmitAccounts | http_server.hpp:208-221 | admission keeps the accounting, the admitted fds becoming registered |
| HttpServer.AssignAccounts | http_server.hpp:223-235 | assignment keeps the accounting |
| HttpServer.PoolWithinWorkers | http_server.hpp:160-163 | under the accounting the pool never exceeds the number of workers, and the counter covers every live connection |
| HttpServer.LeaksBlockAdmission | http_server.hpp:208-221 | once max_concurrent connections have been closed on ERR/HUP, admission takes nothing and changes nothing |
| HttpServer.HangUp | http_server.hpp:189-200 | the intended ERR/HUP step counts the closed connection down in both counters and changes nothing else |
| HttpServer.HangUpReleases | http_server.hpp:189-200 | counted down that way, a closed connection keeps the accounting with no leaked connection added |
| HttpServer.Server.constructor | http_server.hpp:38-62 | the pool holds the slots 0..n-1 in order, both pipe ends map to their slot, and all queues are empty |
| HttpServer.Server.HandleEvent | http_server.hpp:149-206 | handling one event computes OnEvent, failing where the source exits |
| HttpServer.Server.NewConnection | http_server.hpp:151-159 | a control-pipe event decodes two bytes and queues the fd |
| HttpServer.Server.WorkerDone | http_server.hpp:160-185 | a worker-pipe event returns the slot and closes or re-arms the connection per the verdict |
| HttpServer.Server.ConnectionEvent | http_server.hpp:186-205 | a connection event closes on ERR/HUP, otherwise queues the fd |
| HttpServer.Server.HandleEvents | http_server.hpp:149-206 | the event loop computes OnEvents over the batch |
| HttpServer.Server.AdmitConnections | http_server.hpp:208-221 | the admission loop computes Admit and registers the admitted fds |
| HttpServer.Server.AssignWorkers | http_server.hpp:223-235 | the assignment loop computes Assign and returns the (slot, fd) pairs dispatched |
| HttpServer.Server.HandleRound | http_server.hpp:133-236 | one iteration of the dispatcher loop computes Round: events, then admission, then assignment |
| HtmlTemplate.Escape | html_template.hpp:28-34 | helper: escaping a text for the template; its contract is only the length bound, and EscapedCopied and BlankScans state the round trip |
| HtmlTemplate.LineScan | html_template.hpp:26-50 | a line fails exactly when it holds an unsupported escape; otherwise the flag ends as the parity of the final backslash run and one component starts per unescaped '%' |
| HtmlTemplate.LinesScan | html_template.hpp:24-51 | the lines fail exactly when one has an unsupported escape; otherwise one component starts per unescaped '%' |
| HtmlTemplate.ComponentCount | html_template.hpp:23-51 | the template has 1 plus the number of unescaped '%' components, or is refused when a line has an unsupported escape |
| HtmlTemplate.EscapedCopied | html_template.hpp:28-34 | "\\" and "\%" copy a backslash and a percent sign into the current component, without cutting it |
| HtmlTemplate.BlankScans | html_template.hpp:27-50 | a line made of escaped texts joined by '%' is cut back into those texts |
| HtmlTemplate.LoadBlank | html_template.hpp:20-53 | a one-line template built from given components yields them, the first preceded by CRLF |
| HtmlTemplate.FlagForgotten | html_template.hpp:26 | the escape flag does not survive into the next line |
| HtmlTemplate.TrailingBackslashDropped | html_template.hpp:26-43 | a lone backslash at the end of a line is dropped without effect |
| HtmlTemplate.RenderedStarts | html_template.hpp:55-64 | every partial rendering is a prefix of the result |
| HtmlTemplate.ParameterPlaced | html_template.hpp:57-61 | parameter i follows component i in the rendered page |
| HtmlTemplate.ExtraParametersIgnored | html_template.hpp:55-64 | parameters past the number of placeholders make no difference |
| HtmlTemplate.HtmlTemplate.constructor | html_template.hpp:20-23 | the component list starts as one empty component |
| HtmlTemplate.HtmlTemplate.ReadLines | html_template.hpp:24-51 | the nested loops over the lines compute FeedLines, and stop on an unsupported escape |
| HtmlTemplate.HtmlTemplate.Render | html_template.hpp:55-64 | render interleaves components and parameters as Rendered |
| HtmlTemplate.LinePrefixFails | html_template.hpp:35-38 | once a line fails on an escape, the whole line fails |
| HtmlTemplate.LinesPrefixFails | html_template.hpp:35-38 | once a line fails, the whole template fails |
| HtmlTemplate.Load | html_template.hpp:20-53 | loading yields a template exactly when no line has an unsupported escape, with the components of the lines |
| GalleryServer.BeforeIrreflexive | gallery_server.cpp:19 | no name sorts before itself in the map's order |
| GalleryServer.BeforeTransitive | gallery_server.cpp:19 | the map's order is transitive |
| GalleryServer.BeforeTotal | gallery_server.cpp:19 | any two different names are ordered |
| GalleryServer.PutLookup | gallery_server.cpp:31 | after imgs[s] = res, s maps to res and every other name keeps its bytes |
| GalleryServer.PutSorted | gallery_server.cpp:31 | storing keeps the images in key order |
| GalleryServer.LoadImageKeeps | gallery_server.cpp:21-32 | load_image never replaces a stored image and adds a new one |
| GalleryServer.Segment | gallery_server.cpp:55-66 | a segment is a prefix of the text |
| GalleryServer.SegmentNoSlash | gallery_server.cpp:55-66 | a segment contains no '/' |
| GalleryServer.SegmentFrom | gallery_server.cpp:55-66 | each loop of parse_uri collects the text from its start up to the next '/' and stops there |
| GalleryServer.ParseUri | gallery_server.cpp:51-68 | parse_uri returns the category and resource of UriParts, skipping the first character |
| GalleryServer.UriPartsNoSlash | gallery_server.cpp:51-68 | neither string parse_uri returns contains '/' |
| GalleryServer.UriPartsOf | gallery_server.cpp:51-68 | "/" category "/" resource, then nothing or '/', gives back category and resource |
| GalleryServer.HomeUri | gallery_server.cpp:51-68 | "/home" has category "home" |
| GalleryServer.ImageUri | gallery_server.cpp:51-68 | "/image/" name has category "image" and resource name |
| GalleryServer.AfterLastSlash | gallery_server.cpp:113-119 | the file name is a suffix of the link |
| GalleryServer.LastSlashBefore | gallery_server.cpp:113-119 | the file name has no '/', and a '/' stands right before it unless it is the whole link |
| GalleryServer.Reverse | gallery_server.cpp:119 | helper: std::reverse; its contract is only the length, and ReverseReverse and FileName state what it does |
| GalleryServer.ReverseReverse | gallery_server.cpp:119 | reversing twice gives back the text |
| GalleryServer.FileName | gallery_server.cpp:113-119 | the backward loop and the reverse give the text after the last '/' |
| GalleryServer.ValidateLink | gallery_server.cpp:99-126 | the validation steps compute CheckLink |
| GalleryServer.WholeLinkIffNoSlash | gallery_server.cpp:120-122 | the file name equals the link exactly when the link has no '/' |
| GalleryServer.PrefixUnchecked | gallery_server.cpp:105 | the five dropped characters are never checked |
| GalleryServer.AcceptedLink | gallery_server.cpp:99-126 | an accepted link is the body less 5 leading and 2 trailing characters, with a '/' before a new name ending in .jpg or .png |
| GalleryServer.LinkName | gallery_server.cpp:112-122 | a link ending in an image extension and holding a '/' names a file of at least 4 characters with that extension |
| GalleryServer.PostedLink | gallery_server.cpp:99-126 | a body "link=" URL CRLF whose URL ends in "/" and a new image name is accepted with that URL and name |
| GalleryServer.EmbedStep | gallery_server.cpp:45-46 | with a two-placeholder embed, each step wraps the page so far and the next image path |
| GalleryServer.EveryImageLinked | gallery_server.cpp:43-49 | with a two-placeholder embed, the gallery contains the path of every stored image |
| GalleryServer.Routing | gallery_server.cpp:70-145 | GET image gives 200 or 404, GET home the default status with the gallery, other GETs 404, POST home 400 on a rejected link, other POSTs 404, other methods 501 |
| GalleryServer.UploadOnlyAdds | gallery_server.cpp:127-131 | only an accepted upload changes the store, and then only by storing the new image |
| GalleryServer.UploadStores | gallery_server.cpp:127-131 | an accepted POST to /home loads the download under the link's file name |
| GalleryServer.ServeImage | gallery_server.cpp:76-84 | a GET of a stored image answers 200 OK with caching headers and the bytes |
| GalleryServer.UploadThenServe | gallery_server.cpp:99-131 | after an accepted upload, a GET of /image/ and the file name serves the downloaded bytes |
| GalleryServer.Gallery.constructor | gallery_server.cpp:16-19 | the store starts empty and keeps both templates |
| GalleryServer.Gallery.LoadImage | gallery_server.cpp:21-32 | load_image on the object's map computes Loaded and keeps the map sorted |
| GalleryServer.Gallery.RenderGallery | gallery_server.cpp:43-49 | the fold over the map in key order computes GalleryPage |
| GalleryServer.Gallery.HandleRequest | gallery_server.cpp:70-148 | handle_request computes the response and new store of Handle, and returns 0 (keep the connection) |

## Left out

- Sockets: creating the socket, `bind`, `listen` and the `accept4` loop (http_server.hpp:69-111) are system calls. Only the two-byte encoding of the accepted fd is modelled.
- Multiplexing and threads: `epoll_create1`, `epoll_ctl`, `epoll_wait`, the pipes and the detached worker threads are OS facilities.
  - They become events fed to the dispatcher, and registration in epoll is ghost state.
  - Thread interleavings and the shared `sock[]` array are not modelled.
- Fatal exits: `exit(-1)` on a short read of a pipe (http_server.hpp:153-155, 168-171) is modelled as a failed step (`None`). A template with an unsupported escape (html_template.hpp:36-37) is modelled the same way (`null` from `Load`, `false` from `ReadLines`).
- Socket I/O: real `read`, `poll` and `errno` become the `ReadResult` sequence. When that sequence runs out, the model reports `Blocked`, where the source would wait.
- `send_message` (http_socket.hpp:139-145) is a single `send` call. Writing the reply is not modelled.
- `get_server_time` (http_message.hpp:54-64) reads the wall clock.
- File input:
  - the template file is replaced by its lines;
  - the image file read by `load_image` and the bytes `curl` downloads become the parameters `bytes` and `download`;
  - `load_images`, the `system` calls and `main` (gallery_server.cpp:34-41, 128, 151-159) are shell and process bootstrap.
- http_define.hpp is not part of this model. `SOCKET_STARTING_BUFFER_SIZE` is taken as 4096, per the constructor's comment.
- HttpRequest.Parse: requires the request line to have two tokens and every header line to hold ": " with a non-empty value. The source indexes `tokens[1]` there, which is undefined behaviour.
- HttpMessage.Split: requires a non-empty separator. The source loops forever on an empty one.
- HttpSocket.FindFrom: the search for `Content-Length: ` covers only the received bytes up to the first NUL. Where `strstr` would run past them into stale buffer bytes is not modelled.
- HttpSocket.Socket.Memory: the buffer allocated on the first call, and the unused part of a grown buffer, are zero in the model, where the source leaves them uninitialised. The grown part is never read before it is written, since the digit loop reads only offsets 48-57, below 4096. The first allocation can be read: with the key at offsets 32-41 in a message shorter than 58 bytes, the digit loop reads bytes past `mss_size`, which the source sees as indeterminate.
- HttpSocket.DigitLoop: `isdigit` of an index above 255 is undefined in C (the key then starts after offset 239). The model takes it as false, as for any other non-digit code.
- HttpSocket.Socket.Grow: `buffer_size` is an `int` in the source. The model doubles an unbounded number, so the overflow after 2^30 bytes is not modelled.
- HtmlTemplate.HtmlTemplate.Render: requires at least n-1 parameters for n components. The source indexes `params[i]` out of range otherwise, which is undefined behaviour. For the same reason GalleryServer.GalleryFold, GalleryServer.GalleryPage, GalleryServer.Handle and the class invariant of GalleryServer.Gallery require the gallery template to have at most 2 components and the embed template at most 3, the number of parameters `render_gallery` passes them.
- HttpSocket.Text: the text handed to `parse` is cut at the first NUL, as the conversion to `std::string` does. Binary bodies are therefore truncated, in the model as in the source.
- GalleryServer.Gallery.HandleRequest: the response is the record of fields the handler sets. The headers map starts empty. `send_message` and `get_HTTP` (modelled in `HttpMessage`) do not serialise this record: `get_HTTP` reads only the member `response`, which the handler never sets, so the record's status, headers and content are never sent.

## Findings

| source | as written | input that shows it | evidently intended | confidence | as-written member | corrected member |
|---|---|---|---|---|---|---|
| http_message.hpp:116 | `get_HTTP` returns a constant reply with `Content-Length: 0` before the serialiser, so every response body is dropped | any response with body "<p>hi</p>" | status line, headers, `Content-Length` equal to the body size, then the body (lines 117-125); even then the body serialised is `response`, which `handle_request` never sets, so the handler's status, headers and content would also have to be carried into it | not executed | HttpMessage.GetHttpDropsBody | HttpMessage.Serialize |
| http_socket.hpp:115-116 | the digit loop tests `isdigit(pos)` on the index and adds raw bytes, so the declared length is ignored and the body is not awaited | "POST / HTTP/1.1\r\nContent-Length: 5\r\n\r\nhello" arriving as the headers in one read and "hello" in the next | read the decimal digits after the key and wait for body_start plus that value | not executed | HttpSocket.PostBodyLeft | HttpSocket.PostBodyAwaited |
| http_server.hpp:189-200 | on ERR or HUP the connection is closed without decrementing `concurrent_connection_count` or `current_size`, so both drift from the live connections and admission eventually stops for good | `max_concurrent` connections that each hang up while armed | count the closed connection down in both counters | not executed | HttpServer.LeaksBlockAdmission | HttpServer.HangUpReleases |
