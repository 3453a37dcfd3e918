# Verification of network-requests-handler

A Dafny model of the hand-written parts of the library: its text codecs (URL, query, percent-encoding,
headers, IPv4), its DNS codec, the composer of HTTP requests, the transfer loops of raw and HTTP requests,
and the cooperative scheduler. Loops, objects and buffers keep the shape of the C++ code; each method is
proved against a short specification function, and what the library is for (round trips, framing,
conservation, exact delivery) is proved about those functions for all inputs.

`dafny verify dfyconfig.toml` checks the whole project.

## How the code is modelled

| module | models |
|---|---|
| `Text`, `Numbers`, `Bytes` | cutting of sequences, `std::to_string`/`stoi`/`stoll`, integers in memory and byte order |
| `PercentEncoding` | `encodeUrl`, `decodeUrl` and the table of `network_utility.cpp` |
| `Query`, `Headers`, `Urls`, `UrlPorts`, `Ipv4Address` | `param.cpp`, `header.cpp`, `url.cpp` and its way of reading a port, `ipv4.cpp` |
| `RequestComposer`, `RequestFraming` | `_prepareRequest` of GET, POST and PUT; how a receiver takes the bytes apart |
| `DnsNames`, `DnsQuery`, `DnsReply` | names on the wire and `nameFromPointer`, `dns_request.cpp`, `dns_response.cpp` |
| `Scheduler`, `RoundRobin` | the lists and iterators of `request_handler.cpp`, and the order in which they resume |
| `ChunkedCoding` | the chunked transfer coding as a sender writes it (section 7.1 of RFC 9112) |
| `Sockets` | the network, with what each host sends and has received, and a TCP socket on it: a byte stream that accepts or delivers any number of bytes per call, with any error |
| `HttpResponses` | `http_response.cpp`, and what a whole answer announces |
| `OutputFiles` | what opening, writing, closing and removing the output file of `base_request.cpp` leave behind |
| `RequestBases`, `RawRequests`, `HttpTransfers` | `base_request.cpp`, `raw_request.cpp`, `http_base_request.tpp` |
| `Counterexamples` | one input for each expectation that the code does not meet |

- On the HTTP side a byte is the character with its code; on the DNS side bytes are the integers 0 to 255.
  The host is little-endian, so byte-order conversions reverse bytes.
- Exceptions are values: `Result` is `Ok` or `Thrown`, and a transfer phase that throws ends as `Aborted`.
- `HttpRequest` derives from `RequestBase`; here it has a field `base`.
- `delivered` is the text that `addResponseData` has passed on since the run began, and `events` is what has
  happened to the output file. Without an output file the response holds just `delivered` (`Collects`). With one,
  `RequestBases.OutputIsCompleteIff` says exactly when the file does.
- `Sockets.Network` fixes what the host at each address sends and records in `received` what each address has been
  sent. Its constant `calm` says two things. When the read of a line end is tried again, at most `Skippable` text got
  lost in front of it: nothing, or zeros and line feeds with a hexadecimal digit behind them. And the read of the line
  end behind a chunk takes a byte when there is one. All other reads are split as they may be. The delivery of chunked
  bodies is promised on calm networks; `HttpTransfers.SkippableIsHarmless` says that on the wire no more could be
  allowed to get lost, and everything else holds on all networks.
- The socket, the clock and the other threads are nondeterministic. `Sockets.TcpSocket` picks every count and
  every error anew; `RequestBase.Now` moves the clock by any positive step; `RequestBase.Interfere` lets another
  thread cancel, pause or resume before every test of a flag and before every delivery. What is proved holds for
  every choice.
- `processRequest` and `_asyncProcessRequest` run through the same phases. One method models both; its parameter
  `async` selects where they differ: frame limits, the socket reused after a failed address, and the status test
  in front of the body.
- `late` counts the calls of `addResponseData` since a flag was raised, and `lateBytes` the bytes that they passed
  on. `RequestBase.Valid` bounds them by one call and the largest frame, and every phase keeps `Valid`;
  `RequestBases.RequestBase.ReadFrame` bounds the bytes by the frame size in use.
- `doneWithError` records that Done was ever set over an error. Every HTTP phase leaves it unchanged.
- POST and PUT share `RequestComposer.HttpRequest.PrepareWithBody`; their bodies in the source are the same text.
- The scheduler's state is what is left between two resumes. `State` is the value that the object's `View()`
  gives; `Run` is any interleaving of adds with resumes.
- Library helpers from outside the repository have small contracts: `capitalizeByWord` raises the first letter
  and each letter behind a separator, `readUntil` delivers up to and with the delimiter or a part of what stands
  before it, `swapBytes` reverses bytes as the comments at source/network_utility.cpp:110-145 describe.

## Where the code does not do what its names suggest

Each of these is stated with the exact condition under which the expected behaviour does hold. The module
`Counterexamples` has an input on which it does not, except where the lemma named speaks of every input already.

- `decodeUrl` undoes `encodeUrl` on texts made of '%' only (`PercentEncoding.DecodeUrlUndoesEncodeUrlIff`), and
  `encodeUrl` applied twice changes text again exactly when it changed it once (`PercentEncoding.EncodeTwice`).
- `composeUrl` never encodes a reserved character of a fragment: its last loop throws, or goes on for ever exactly
  on the texts of `Urls.PassesForeverIff`.
- A URL with a fragment never survives composing and parsing (`Urls.FragmentIsLost`), nor does a user without a
  password when no ':' stands behind the host (`Urls.UserWithoutPasswordIsLost`). Without a fragment a URL survives
  exactly when `Urls.Recoverable` holds (`Urls.ParseComposeIff`).
- `nameFromPointer` comes back exactly when it stays in the message and enters no segment twice
  (`DnsNames.DecoderEndsIff`); so it also decodes pointers that lead forwards, which are no names. On names it writes
  one '.' too many exactly when a label is followed, through a pointer, by the root (`DnsNames.DecodedNameIff`).
- The root as CNAME data is not read as the root: the loop looks at the byte behind it
  (`DnsReply.RootDataOverread`).
- A host with an empty label, such as one with a trailing '.', does not read back: the name ends at that label, and
  the question before the query does (`DnsReply.QueryReadsBackIff`, `DnsReply.EmptyLabelEndsName`).
- A CNAME chain in which a name follows itself loses that alias (`DnsReply.ChainAliasesIff`).
- A length header supplied by the caller hides the composer's own (`RequestFraming.LengthLookedUpIff`).
- The blank line behind a header block is read as one more, empty header (`Headers.BlankLineIsEmptyHeader`).
- The scheduler's lists stay in lockstep exactly as long as no DNS request is added, which adds to one list only
  (`Scheduler.LockstepIff`). Afterwards a request that has finished can be canceled at shutdown, and an iterator can
  leave its list. A pass gives every coroutine one resume exactly when the counter, which is not reset between passes,
  does not exceed the limit in front of the last one (`RoundRobin.OneResumeEachIff`); over the limit only the first
  request is resumed (`Scheduler.OverTheLimit`).
- `toNetworkByteOrder(uint32_t)` returns 16 bits, so it is undone exactly on values with a zero low half
  (`Bytes.NetworkOrder32Iff`).
- The port in the text of a URL is read as the sum of the codes of its characters, which is the port itself exactly
  from 150 to 159 (`UrlPorts.PortIsReadIff`); a known scheme overrides it (`UrlPorts.ParseComposeWithPortIff`).
- An octet above 255 or with leading zeros is accepted by the IPv4 pattern and does not print back
  (`Ipv4Address.PrintParseIff`).
- What arrives of a size line before it is complete is dropped. As long as a character of the size is left, it is
  still read right exactly when only zeros, or the line feed behind the data before, got lost in front of it; when
  nothing of the size is left, reading throws; behind that, what is left of the extension is read as the size, which
  is right by accident only (`ChunkedCoding.DroppedReads`, `ChunkedCoding.DroppedIff`). Of the two bytes behind a
  chunk one suffices; when neither was read, the next size line throws (`ChunkedCoding.MissedLineEndThrows`).
- A pause closes the output file, and the next delivery truncates it; an error or a cancellation removes it. The file
  holds what was delivered exactly when it is there and nothing had been written before a truncation or removal
  (`OutputFiles.FileIsCompleteIff`).
- A failover to another address never yields a finished run: the error of the first address stays recorded, and the
  run ends at the head of the answer (`HttpTransfers.HttpTransfer.ProcessRequest`).

## Model

| member | source | states |
|---|---|---|
| Bytes.SwapInvolution | source/network_utility.cpp:106-146 | the 16-bit conversions to network and to host order undo each other, and the 32-bit conversion to host order is its own inverse, on all values |
| Bytes.NetworkOrder32Iff | source/network_utility.cpp:116-125 | the 32-bit conversion to network order, narrowed to 16 bits by its result type, is undone exactly on values whose low half is zero |
| Numbers.DecimalOfValueIff | source/ipv4.cpp:54-64 | printing the value of a numeral gives the numeral back exactly when it has no leading zero |
| Numbers.StollOfNumeral | source/http_base_request.tpp:184-185 | a plain numeral, whatever text follows it, is read at its value, or thrown at when it does not fit 64 bits |
| Numbers.StollOfSigned | source/http_base_request.tpp:127-129 | a sign in front of a numeral is read |
| PercentEncoding.TableCoversReserved | source/network_utility.cpp:15-36 | the search set and the table have the same characters, and every entry is '%' with the two hexadecimal digits of its character |
| PercentEncoding.ReservedAsInRfc | source/network_utility.cpp:15-36 | what is encoded are the reserved characters of section 2.2 of RFC 3986, the space and the '%' |
| PercentEncoding.EncodeUrl | source/network_utility.cpp:67-79 | the in-place find-and-replace loop ends and equals encoding each character on its own |
| PercentEncoding.EncodeLength | source/network_utility.cpp:67-79 | the encoding is longer by two for each reserved character |
| PercentEncoding.EncodeAlphabet | source/network_utility.cpp:67-79 | the only reserved character left is '%', always followed by two hexadecimal digits |
| PercentEncoding.DecodeEncode | source/network_utility.cpp:67-79 | a percent-decoder recovers every text from its encoding |
| PercentEncoding.EncodeInjective | source/network_utility.cpp:67-79 | different texts have different encodings |
| PercentEncoding.EncodeTwice | source/network_utility.cpp:67-79 | a second encoding changes nothing exactly when the text has no reserved character |
| PercentEncoding.DecodeUrl | source/network_utility.cpp:81-104 | what the library's decoder yields: the '%' signs only, since its table lookup never succeeds |
| PercentEncoding.DecodeUrlUndoesEncodeUrlIff | source/network_utility.cpp:67-104 | the library's decoder undoes its encoder exactly on texts made of '%' |
| Query.ParseParameter | source/param.cpp:5-24 | the flag-driven loop reads the piece up to the first '&', cut at its first '=' with every '=' dropped, and leaves the shared iterator behind it |
| Query.Params.Parse | source/param.cpp:26-31 | the block parser ends and yields one parameter for every piece, in order |
| Query.Params.ParameterValue | source/param.cpp:35-43 | the value of the first parameter with the name, or none |
| Query.LookupFirst | source/param.cpp:35-43 | the first parameter with the name is found, and nothing exactly when there is none |
| Query.ParsePrint | source/url.cpp:234-246 | parsing undoes printing on lists without '=' and '&' in names and values, empty ones included |
| Query.ParsePrintIff | source/url.cpp:234-246 | and on no other lists |
| Query.ParsedIsClean | source/param.cpp:5-31 | no parsed name or value holds a separator |
| Query.OnlySeparatorsAreLost | source/param.cpp:5-31 | for every text, the names and values one behind the other are the text without its '&' and '=' |
| Query.ParseIsNormalForm | source/param.cpp:5-31 | for every text, printing what was parsed and parsing again gives the same list |
| Headers.ParseHeader | source/header.cpp:9-49 | the three-flag loop reads one line, throws exactly on a bare line feed before the value, and leaves the shared iterator behind the line |
| Headers.HttpHeaders.Parse | source/header.cpp:51-56 | the block parser ends, since each accepted line consumes a character, and yields the headers in order or the exception |
| Headers.HttpHeaders.HeaderValue | source/header.cpp:60-68 | the value of the first header with the name, in lower case or capitalized word by word |
| Headers.LookupFirst | source/header.cpp:60-68 | the first header with the name in either spelling is found, and nothing exactly when there is none |
| Headers.Spellings | source/header.cpp:60-68 | the capitalized spellings of the three names that the library looks up |
| Headers.ParsePrint | source/header.cpp:9-56 | printed lines parse back to the same headers, in front of whatever follows them |
| Headers.BlankLineIsEmptyHeader | source/header.cpp:9-56 | a final blank line adds exactly one empty header |
| Headers.ParsedIsPrintable | source/header.cpp:9-56 | every parsed header can be printed and read back |
| Headers.ParsePrintIff | source/header.cpp:9-56 | a header list survives printing and parsing exactly when its names are free of ':', CR and LF, and its values free of CR and of a leading space or LF |
| Ipv4Address.FromText | source/ipv4.cpp:10-31 | the splitting loop fills the four bytes with the low bytes of the four parts, and throws exactly on text outside the pattern |
| Ipv4Address.AcceptedIff | source/ipv4.cpp:10-16 | the text is accepted exactly when it is four parts of one to three digits with a '.' between them |
| Ipv4Address.ParsedOctets | source/ipv4.cpp:17-31 | each byte is congruent to its part modulo 256 |
| Ipv4Address.ParsePrint | source/ipv4.cpp:10-64 | every address prints to accepted text that parses to the same four bytes |
| Ipv4Address.PrintParseIff | source/ipv4.cpp:10-64 | accepted text survives parsing and printing exactly when each part is at most 255 and has no leading zero |
| Ipv4Address.IntegerRoundTrip | source/ipv4.cpp:35-52 | the big-endian constructor and the conversion undo each other; the little-endian one reverses the bytes |
| Urls.ScanCharacter | source/url.cpp:65-124 | one round of the parser keeps what is still to be read from the rest of the text, whatever flag is next |
| Urls.Scan | source/url.cpp:45-140 | the flag machine reads each part as the text up to its first stop character |
| Urls.Url.constructor | source/url.cpp:45-148 | the parsed parts, with the default path and the port of the scheme, which `Urls.ParsedPort` and `Urls.PortsOfSchemes` pin to its bytes |
| Urls.Url.SetScheme | source/url.cpp:150-161 | sets the scheme and its port exactly when the scheme begins with a letter and has no other character than those of a scheme, and otherwise throws and changes nothing |
| Urls.Url.SetAuthority | source/url.cpp:163-176 | sets host, user and password exactly when the host has at most 253 characters, all of them those of a host, and no '-' at its ends, and otherwise throws and changes nothing |
| Urls.PortsOfSchemes | source/url.cpp:150-161 | the bytes of the port of every known scheme in network order; any other scheme leaves the port alone |
| Urls.ParsedPort | source/url.cpp:140-148 | setting the scheme that a URL was parsed with changes no part; in memory the port of a parsed http URL is 0, 80 and of an https URL 1, 187 |
| Urls.SchemeAlphabet | source/url.cpp:150-171 | which characters the setters let pass |
| Urls.Url.Query | source/url.cpp:234-246 | the loop with its erased last '&' prints the parameters separated by '&' |
| Urls.Url.ComposeUrl | source/url.cpp:250-296 | the text of every part when the fragment has no reserved character; otherwise the trailing loop throws, wherever it ends |
| Urls.HostOrAddress | source/url.cpp:256-279 | without a host the first address stands in its place, and without either there is no authority |
| Urls.PortOnDemand | source/url.cpp:271-274 | a port is printed exactly when there is one and it is asked for |
| Urls.Url.EncodePasses | source/url.cpp:286-294 | the trailing loop, cut off after any number of passes, does what that many passes of the specification do |
| Urls.PassesForeverIff | source/url.cpp:286-294 | the trailing loop never ends exactly when the text has a reserved character at the position of the first one in the fragment; on all other texts its first pass ends it, or throws when the fragment has one |
| Urls.PassesGrow | source/url.cpp:286-294 | what each number of passes has made of such a text: it grows by two characters a pass |
| Urls.ParseComposeIff | source/url.cpp:45-296 | for a scheme and host that the setters accept and no fragment, composing and parsing recover every part exactly when the URL is recoverable |
| Urls.ParseCompose | source/url.cpp:45-296 | the usual URLs are recovered: user and password both set on one line, or both empty and no '@' behind the host |
| Urls.PathIsParsed | source/url.cpp:45-296 | an empty path is read as "/", and any other as it is |
| UrlPorts.ParseComposeWithPortIff | source/url.cpp:45-296 | composing with the port and parsing recover every part exactly when they would without it and the port is the one read |
| UrlPorts.PortIsReadIff | source/url.cpp:107-114 | the sum of the character codes of a port number is that number exactly from 150 to 159 |
| UrlPorts.PortIsLostIff | source/url.cpp:107-147 | so with an unknown scheme all other ports are lost |
| Urls.UserInfoOfComposed | source/url.cpp:53-55 | the regular expression finds the user of a composed URL with a password, and nothing in one without a user and without '@' behind the host |
| Urls.UserInfoIff | source/url.cpp:53-55 | between parts without ':', '@' and '/' the regular expression matches exactly when user and host are not empty and all is on one line; the password may be empty |
| Urls.UserWithoutPasswordIsLost | source/url.cpp:53-55 | a user without a password is not found in the composed URL, and the URL not recovered, when neither the user nor the text behind the host holds a ':' |
| Urls.ParsedShape | source/url.cpp:45-148 | every parsed URL has a path without '?', clean parameters and no separator in user and password |
| Urls.FragmentIsLost | source/url.cpp:125-139 | a URL with a fragment is never recovered: its query or path swallows it |
| RequestComposer.HttpRequest.constructor | source/http_base_request.tpp:233-245 | a host header, and TLS for port 443 in network order, unless the URL is invalid or has neither an HTTP scheme nor a port that prints as 80 or 443, which is recorded as an error; a parsed https URL gets TLS and a parsed http URL does not |
| RequestComposer.HttpRequest.AddHeader | source/http_base_request.tpp:459-464 | appends a header unless its name is empty |
| RequestComposer.HttpRequest.AddParam | source/http_base_request.tpp:466-471 | appends a parameter unless its name is empty, so that no stored name is empty |
| RequestComposer.HttpRequest.SetBody | source/http_request.cpp:67 | the body that POST and PUT send instead of their parameters |
| RequestComposer.HttpRequest.PrepareGet | source/http_request.cpp:12-60 | appends line, query, encoded headers and blank line, once |
| RequestComposer.HttpRequest.PrepareWithBody | source/http_request.cpp:69-176 | makes a body of the parameters when none is set (what it carries is `RequestFraming.FormBodyParsesIff` and the two beside it), adds its length as the last header, and appends line, headers, blank line and body, once |
| RequestComposer.HttpRequest.PrepareRequest | source/http_request.cpp:12-176 | the message of GET, POST or PUT is appended to what is sent; a composed request is left unchanged |
| RequestFraming.GetQueryParse | source/http_request.cpp:19-42 | the query of a GET request parses to each name with its encoded value, then the URL's own parameters |
| RequestFraming.GetQueryParseIff | source/http_request.cpp:19-42 | exactly when no name and no parameter of the URL holds a separator; values are arbitrary |
| RequestFraming.GetQueryInjective | source/http_request.cpp:19-42 | different parameter lists give different queries |
| RequestFraming.EncodedKeeps | source/http_request.cpp:26-60 | names are sent as they are, and decoding gives back the values |
| RequestFraming.RequestLineReads | source/http_request.cpp:97-104 | split at its spaces, the line is the method, the path with a '/' in front, and the version |
| RequestFraming.GetLineReads | source/http_request.cpp:14-48 | split at its spaces and at the first '?', the line of a GET request is GET, the path, a query that reads as the encoded parameters and those of the URL, and the version |
| RequestFraming.FormBodyParsesIff | source/http_request.cpp:71-92 | with the form type the body reads back as the encoded parameters, whatever the values are, exactly when no name holds a separator |
| RequestFraming.MultipartBodyParsesIff | source/http_request.cpp:71-92 | with the multipart type it reads back as the names without values, under the same condition |
| RequestFraming.PlainBodyParsesIff | source/http_request.cpp:71-92 | with any other type, or none, it reads back as the parameters exactly when neither names nor values hold a separator |
| RequestFraming.BlankLineFirst | source/http_request.cpp:98-109 | the first CRLFCRLF of a message is the one behind its headers |
| RequestFraming.BodyMessageFraming | source/http_request.cpp:69-176 | a POST or PUT message cut at its first CRLFCRLF leaves exactly the body, and the block in front of it parses to the headers with the length last |
| RequestFraming.LengthLookedUpIff | source/http_request.cpp:89 | looking up content-length in that block finds the composer's length exactly when the caller supplied no other one |
| RequestFraming.LengthReadsBack | source/http_base_request.tpp:127-128 | the receiver reads the length header as the number of bytes of the body (section 8.6 of RFC 9110) |
| RequestFraming.GetMessageFraming | source/http_request.cpp:12-60 | a GET message ends with its first blank line, and its block parses to the names with encoded values |
| DnsNames.NameFromPointer | source/dns_response.cpp:156-175 | wherever the decoder comes back at all, the recursion ends, by segments not entered yet and bytes left, and returns the decoded text |
| DnsNames.DecoderEndsIff | source/dns_response.cpp:156-175 | round by round, the decoder ends exactly when it stays in the message and enters no segment twice, goes on for ever exactly when it enters one again, and leaves the message otherwise |
| DnsNames.NamesAreDecoded | source/dns_response.cpp:156-175 | a name whose pointers lead strictly backwards is always decoded, to its spelling |
| DnsNames.NearNamesAreNames | source/dns_response.cpp:156-175 | a name whose pointers fit the signed byte is the name that section 4.1.4 of RFC 1035 denotes |
| DnsNames.SpelledIsDotted | source/dns_response.cpp:156-175 | the decoded text is the dotted name, with one '.' more exactly when a label is followed through a pointer by the root |
| DnsNames.DecodedNameIff | source/dns_response.cpp:156-175 | the decoder returns the name that the standard denotes exactly in the other cases |
| DnsNames.DecoderPointer | source/dns_response.cpp:160-162 | the test for 192 with a signed byte behind it accepts exactly the backward pointers up to offset 127 |
| DnsQuery.DnsRequest.constructor | source/dns_request.cpp:46-71 | the back-patched encoder equals header, length-prefixed labels of the host split at '.', root and question tail, for labels up to 255 bytes |
| DnsQuery.QueryOnTheWire | source/dns_request.cpp:47-76 | the bytes of the header, a recursive query with one question, and those behind the labels |
| DnsQuery.LengthPatched | source/dns_request.cpp:58-60 | writing the length over the zero in front of a label completes the label |
| DnsReply.ParseQuestion | source/dns_response.cpp:34-50 | the question at a position: dotted name, type, class and where it ends, or none when it does not fit the message |
| DnsReply.NonEmptyLabelsReadBack | source/dns_response.cpp:34-50 | when no label of the host is empty, the question of a query gives back the host, type 1 and class 1, and stops at the end of the query |
| DnsReply.EmptyLabelEndsName | source/dns_response.cpp:34-50 | otherwise the name ends at the first empty label, and the question stops before the end of the query |
| DnsReply.QueryReadsBackIff | source/dns_response.cpp:34-50 | the question of a query is the host with type 1 and class 1 and ends with the query, exactly when no label of the host is empty |
| DnsReply.QueryIsAnEmptyReply | source/dns_response.cpp:60-82 | a whole query, taken as its own response, has no error, no addresses and no aliases |
| DnsReply.AnotherIdIsRefused | source/dns_response.cpp:65-68 | a query taken as the reply to another one has the wrong id exactly when the ids differ |
| DnsReply.ReadAlias | source/dns_response.cpp:108-128 | the inline CNAME loop on any bytes: the text and where it stops, or that it never comes back or leaves the message |
| DnsReply.DecodersAgree | source/dns_response.cpp:108-175 | on every name other than the root the inline loop stops at the end of the data with the text that the recursive decoder returns |
| DnsReply.RootDataOverread | source/dns_response.cpp:108-128 | on the root as data it depends on the byte behind the data |
| DnsReply.RecordNames | source/dns_response.cpp:83-133 | a record owned by a pointer to a prior name, and a CNAME whose data is a name, are read with the names of the standard and end with the data |
| DnsReply.StandardAnswersAreRead | source/dns_response.cpp:82-147 | every message of standard records (an owner that points to a prior name, and an address of four bytes or a CNAME whose data is a name other than the root) is read as just these records, to its end |
| DnsReply.DnsResponse.constructor | source/dns_response.cpp:60-148 | goes on from the header exactly when the message has at least 12 bytes, begins with the id as it stands in memory, and has the return code 0; otherwise it ends with the error that belongs to the size, the id or the code, without names and addresses; a message of A and CNAME records whose pointers come back is consumed to its end without error, with the addresses in order and the names noted; a record of another type ends it with its error and keeps what was read before; `DnsReply.StandardAnswersAreRead` says that every standard message is one |
| DnsReply.DnsResponse.ReadRecord | source/dns_response.cpp:83-146 | one record: its end, its address or its target, and the owner noted unless it is the root or repeats the last name; or its error when its type is another |
| DnsReply.DnsResponse.ReadAnswers | source/dns_response.cpp:82-147 | the record loop collects all records up to the end of the message, or up to one of another type, where it ends with the error |
| DnsReply.ChainNames | source/dns_response.cpp:85-131 | in a chain where each record is owned by the name reached so far, the names noted are those already noted and the targets, exactly when no name follows itself |
| DnsReply.ChainAliasesIff | source/dns_response.cpp:85-131 | so a CNAME chain from the host gives the host and every target in order, exactly when no name follows itself |
| DnsReply.NamesDiffer | source/dns_response.cpp:85-131 | consecutive names noted always differ, and no name noted is lost again |
| DnsReply.NamesOfAddresses | source/dns_response.cpp:85-103 | the names of addresses alone are exactly their owners other than the root |
| DnsReply.StandardChainIsResolved | source/dns_response.cpp:60-148 | a standard response that is a CNAME chain from the host is consumed to its end, and gives the host and every target in order exactly when no name follows itself |
| DnsReply.AddressIsResolved | source/dns_response.cpp:60-148 | the query for a host followed by an address owned by a pointer to it resolves to that host and that address, for every host of labels with 1 to 63 bytes |
| Scheduler.AddedLockstepIff | source/request_handler.cpp:80-88 | an add keeps the lists in lockstep exactly when the request is no DNS request |
| Scheduler.EndStaysTheEnd | source/request_handler.cpp:40-88 | an add leaves a second iterator at the end of its list at the end, so a resume that moves or erases it stays undefined |
| Scheduler.ResumedLockstep | source/request_handler.cpp:39-63 | a resume, with erase, wrap to the beginning or restart, keeps lists and iterators in lockstep and loses no request |
| Scheduler.ConservationOfTransfers | source/request_handler.cpp:33-89 | under every interleaving, DNS requests included, each transfer added has finished or has a coroutine, without loss or duplicate, and the pointers outnumber the coroutines by the DNS requests |
| Scheduler.LockstepIff | source/request_handler.cpp:33-89 | a run ends in lockstep exactly when it adds no DNS request |
| Scheduler.LockstepAndConservation | source/request_handler.cpp:33-89 | such a run is always defined; its lists name the same requests, both iterators stand at one index, and added = finished + live as multisets |
| Scheduler.NoDuplicates | source/request_handler.cpp:33-89 | in such a run a request added once is finished or live, exactly once |
| Scheduler.ResumeUsesOne | source/request_handler.cpp:40-63 | each step on non-empty lists uses exactly one resume, whatever the 8-bit counter and the limit hold |
| Scheduler.Drains | source/request_handler.cpp:34-63 | once adds stop, there is no coroutine after exactly the sum of the remaining resumes, and not before, as long as the second iterator stays in its list |
| Scheduler.LockstepDrains | source/request_handler.cpp:34-63 | which it does from every state in lockstep |
| Scheduler.OverTheLimit | source/request_handler.cpp:54-58 | while the counter exceeds the limit only the first request is resumed and nothing else changes, until that request finishes |
| RoundRobin.OneResumeEach | source/request_handler.cpp:39-63 | in a pass in lockstep, as long as the counter does not exceed the limit, k resumes are one for each of the first k coroutines; both iterators stand behind them, the 8-bit counter has counted them, and nothing else has changed |
| RoundRobin.OneResumeEachIff | source/request_handler.cpp:39-63 | n resumes are one for each of n coroutines exactly when n is at most 1 or the counter does not exceed the limit in front of the last one |
| RoundRobin.LastIsNotResumed | source/request_handler.cpp:54-58 | otherwise the walk has gone back to the first one, and the last one still waits |
| RoundRobin.FinishedIsTakenOff | source/request_handler.cpp:41-53 | the last resume of a coroutine takes off it and its pointer and nothing else; both iterators stand at the next one, or at the first, and the 8-bit counter is one less |
| Scheduler.AsyncRequestHandler.AddRequest | source/request_handler.cpp:69-89 | appends to both lists, to the pointers only for a DNS request, or refuses when the thread is not running |
| Scheduler.AsyncRequestHandler.ResumeCurrent | source/request_handler.cpp:41-62 | the body of the inner loop is one resume of the specification, whose order is that of `RoundRobin.OneResumeEach` and `RoundRobin.OneResumeEachIff` |
| Scheduler.AsyncRequestHandler.ExecutionThread | source/request_handler.cpp:33-66 | the thread, with adds of any requests and new limits between its steps, performs the run that the specification describes |
| Scheduler.AsyncRequestHandler.Drain | source/request_handler.cpp:34-63 | the nested loops end without coroutines and with every transfer finished, after exactly the remaining resumes; the pointers of DNS requests are left |
| Scheduler.AsyncRequestHandler.Shutdown | source/request_handler.cpp:12-26 | the transfers among the pointers are set Canceled when a coroutine is left; in lockstep these are exactly the requests that have not finished |
| ChunkedCoding.SizeLineEnds | source/http_base_request.tpp:174-175 | the first CRLF of a chunk is the one behind its size line, whatever the extension says |
| ChunkedCoding.SizeLineReads | source/http_base_request.tpp:184-185 | a size line with any extension is read at the number of bytes of the chunk |
| ChunkedCoding.DroppedReads | source/http_base_request.tpp:179-185 | what a size line reads as for every number of dropped characters: the size exactly when harmless, an exception when just the size is gone, the rest of the extension behind that |
| ChunkedCoding.DroppedIff | source/http_base_request.tpp:179-185 | a size line of which any leading characters were dropped, the extension included, is read at the size exactly when these were zeros or a line feed in front of a remaining digit, or when all of the size is gone and the rest of the extension reads as the size |
| ChunkedCoding.ValidIsReceivable | source/http_base_request.tpp:184-217 | a size line is read right also behind the line feed that a read of one byte of the line end leaves |
| ChunkedCoding.MissedLineEndThrows | source/http_base_request.tpp:174-217 | when neither byte of the line end was read, the next size line is empty and throws |
| OutputFiles.ContentSinceReset | source/base_request.cpp:207-290 | the file holds what it held before, unless that was truncated or removed, and what has been written since |
| OutputFiles.FileIsCompleteIff | source/base_request.cpp:207-290 | the file holds exactly what was written if and only if it is there, nothing had been written before a truncation or removal, and without one it was empty at first |
| RequestBases.OutputIsCompleteIff | source/base_request.cpp:196-292 | so the output file of a run holds exactly the delivered bytes under that condition only |
| RequestBases.FrameSizeIsExact | source/http_base_request.tpp:77-78 | narrowing the frame size to 16 or 8 bits never changes it |
| RequestBases.RequestBase.SetUserStatus | source/base_request.cpp:228-292 | pausing, resuming and canceling set exactly their flag and the status; pausing and canceling close the output file, and canceling removes it |
| RequestBases.RequestBase.Cancel | source/base_request.cpp:23 | the flag is raised, the number of late deliveries does not grow, and no output file is left |
| RequestBases.RequestBase.SetStatus | source/base_request.cpp:228-292 | the transfer's own statuses touch no flag; Done and Error close the output file, and Error removes it; records whether Done is set over an error |
| RequestBases.RequestBase.SetError | source/base_request.cpp:294-297 | records the error and the status Error, and no output file is left |
| RequestBases.RequestBase.CheckSocketOperationErrorAndTimeOut | source/base_request.cpp:299-316 | passes exactly when the error is none or one of the six to be tried again, and less than the timeout has passed in whole seconds; then it changes nothing, and otherwise it records that error, or the timeout |
| RequestBases.RequestBase.AddResponseData | source/base_request.cpp:196-226 | appends the data to the response, or to the file with exactly the events of opening and writing, and counts it, or records that there is no path or that the file cannot be opened and leaves no file; behind a raised flag it is the one late call, of the size of its data |
| RequestBases.RequestBase.Deliver | source/http_base_request.tpp:148-152 | a frame handed on while another thread may raise a flag: it is the only late delivery and no longer than the frame |
| RequestBases.RequestBase.OpenOutput | source/base_request.cpp:212-221 | an open stream stays; a new one truncates the file, a second try in append mode does not, and failing changes nothing |
| RequestBases.RequestBase.TryHost | source/http_base_request.tpp:40-49 | one attempt ends connected or to be repeated with less time left, at a flag, or with an error |
| RequestBases.RequestBase.WriteFrame | source/http_base_request.tpp:71-90 | one round hands the peer the next bytes of the request, at most one frame, and moves on by the number it accepted |
| RequestBases.RequestBase.WriteRequest | source/http_base_request.tpp:67-90 | for every pattern of short writes the peer has received the prefix of the request of the length counted, and all of it at the normal end; the loop ends by the clock |
| RequestBases.RequestBase.ReadFrame | source/http_base_request.tpp:135-157 | one round takes at most one frame and delivers what it took, ends at a flag without reading, or fails with an error; what is delivered late is at most one frame |
| RequestBases.RequestBase.ReadCounted | source/http_base_request.tpp:132-158 | for every pattern of short reads a counted body is delivered up to exactly the count, takes no byte behind it, and each byte counted is delivered; without an output file the response holds just that |
| RawRequests.RawRequest.Connect | source/raw_request.cpp:23-56 | ends connected to the host, at a flag or with an error, within the time limit |
| RawRequests.RawRequest.ProcessRequest | source/raw_request.cpp:21-202 | the host, and no other address, has received a prefix of the request, and all of it before anything is read; a finished run delivered exactly the bytes asked for, in order, and counted them; the response holds them, or the file under its exact condition |
| HttpTransfers.HttpTransfer.Connect | source/http_base_request.tpp:15-65 | ends connected to one of the addresses, at a flag or with an error, by the addresses left and then the time left; connected to another than the first, an error is recorded |
| HttpTransfers.HttpTransfer.Attempt | source/http_base_request.tpp:40-64 | one round of it: connected, or led to the next address in order with the error recorded, or less time left; it fails only at the last address |
| HttpTransfers.HttpTransfer.ReadHead | source/http_base_request.tpp:92-123 | the pieces that arrive add up to the stream up to its first blank line |
| HttpTransfers.HttpTransfer.ReadHeadPart | source/http_base_request.tpp:99-121 | one round of it takes the stream up to and with its first blank line, or a part in front of that with less time left, or ends at a flag or with an error |
| HttpTransfers.HttpTransfer.ReadSize | source/http_base_request.tpp:168-188 | the size of the line up to the first CRLF, which is taken off the stream; what was read of a line tried again is dropped, and on a calm network that is skippable |
| HttpTransfers.HttpTransfer.ReadChunk | source/http_base_request.tpp:189-224 | delivers the data of one chunk and no byte behind it, however reads are split, and on a calm network ends in front of the next size line or one line feed before it |
| HttpTransfers.HttpTransfer.ReadChunks | source/http_base_request.tpp:167-225 | on every calm network, for every list of chunks, any extensions and any split of payload reads, exactly the concatenated data is delivered at the normal end and never more, no exception is thrown, and the loop stops behind the zero chunk's line |
| HttpTransfers.HttpTransfer.ReadByLength | source/http_base_request.tpp:127-161 | a body with Content-Length is delivered byte for byte, up to the count |
| HttpTransfers.HttpTransfer.ReadBody | source/http_base_request.tpp:127-230 | chooses by length, then by chunks, and fails with a size error without either; at the normal end the body that the head announces has been delivered, on a calm network when it is chunked; sets Done there and never over an error |
| HttpTransfers.HttpTransfer.Converse | source/http_base_request.tpp:66-230 | over a connected socket: the request is composed once and the peer receives a prefix of it, all of it at the normal end, where what the peer sends has been answered as `HttpResponses.Answered` says; a coroutine uses frames of at most 255 bytes |
| HttpTransfers.HttpTransfer.ProcessRequest | source/http_base_request.tpp:15-449 | every run ends with Done and no error, with an error, at a flag or with an exception; Done is never set over an error; one address has received a prefix of the composed request and the others nothing; in a finished run it is the first address and has received all of it, and for every answer that this host may have sent, the response has its status and headers, and just its body was delivered and counted: up to the content length, or the data of its chunks on a calm network, or nothing in a coroutine for a status other than 200; the response holds it, or the file under its exact condition |
| HttpResponses.HeadIsParsed | source/http_response.cpp:6-19 | the head of every answer of version 1.1 is read at the value of its three status digits, with the status line as a header without a value, then the headers, then an empty one |
| HttpResponses.HeadIsFound | source/http_base_request.tpp:92-123 | the first blank line of an answer is the one behind its headers |
| HttpResponses.FramingHeaders | source/http_base_request.tpp:127-162 | content-length and transfer-encoding are found among the headers of the answer, in either spelling, and nowhere else |
| HttpResponses.EveryAnswerIsDelivered | source/http_base_request.tpp:107-230 | whenever the body announced by the parsed head was delivered, it is the one in the answer, for every answer that the host may have sent; and without an asynchronous run the answer has version 1.1 |
| HttpTransfers.NextSize | source/http_base_request.tpp:174-188 | between two chunks the next size line either ends the body with everything delivered, or is followed by the data of the next chunk |
| HttpTransfers.DataDelivered | source/http_base_request.tpp:189-217 | reading a chunk never delivers more than its data, and behind all of it stands the next size line |
| HttpTransfers.SkippableIsHarmless | source/http_base_request.tpp:174-183 | what a calm network may lose in front of a size line on the wire is exactly what leaves the size readable |
| HttpTransfers.LineEndSkipped | source/http_base_request.tpp:217 | behind the data, one or two bytes of the line end leave the chunks left readable, with a line feed in front of the next size or without |
| HttpTransfers.SizeShortened | source/http_base_request.tpp:179-183 | after skippable text was dropped, the chunks left are still readable and lack nothing |
| Counterexamples.DecodeUrlLosesText | source/network_utility.cpp:81-104 | "a" is encoded as itself and decoded as nothing |
| Counterexamples.SecondEncodingChanges | source/network_utility.cpp:67-79 | a space is encoded as %20, and that as %2520 |
| Counterexamples.NetworkOrderOfOne | source/network_utility.cpp:116-125 | 1 comes back as 0 |
| Counterexamples.LeadingZeroIsLost | source/ipv4.cpp:10-64 | 00.0.0.0 is accepted and printed differently |
| Counterexamples.OctetWrapsAround | source/ipv4.cpp:10-64 | 256.0.0.0 is accepted and printed differently |
| Counterexamples.FragmentBecomesPath | source/url.cpp:116-139 | the fragment of http://h/p#f is read as part of the path |
| Counterexamples.PortIsASumOfCodes | source/url.cpp:107-114 | the port of x://h:80/p is read as 104 |
| Counterexamples.LoneUserIsLost | source/url.cpp:53-55 | the user of http://u@h/p is not read |
| Counterexamples.FragmentMakesComposeThrow | source/url.cpp:286-294 | the fragment "!" makes composing throw |
| Counterexamples.FragmentMakesComposeLoop | source/url.cpp:286-294 | the fragment "frag!" makes composing go on for ever |
| Counterexamples.BlankLineIsAHeader | source/header.cpp:9-56 | a blank line is parsed as an empty header |
| Counterexamples.CallersLengthHidesTheComposers | source/header.cpp:60-68 | a content-length of 5 in front of an empty body is the one found |
| Counterexamples.SplitSizeEndsTheBody | source/http_base_request.tpp:179-188 | when the first digit of size 10 is dropped, a chunk of 16 bytes is read as the last one |
| Counterexamples.ExtensionReadsAsTheSize | source/http_base_request.tpp:179-188 | when the size is lost from "10;10", the extension is read as 16, the size of the chunk |
| Counterexamples.PauseTruncatesTheFile | source/base_request.cpp:196-246 | a request object that delivers "ab", is paused and resumed, and delivers "cd": both count as delivered, the file was opened twice, and holds "cd" only when the second opening truncated it |
| Counterexamples.RootTailAddsADot | source/dns_response.cpp:156-175 | the name "a" is decoded as "a." |
| Counterexamples.PointerToItselfLoops | source/dns_response.cpp:160-164 | a pointer to itself is followed for ever |
| Counterexamples.ForwardPointerIsDecoded | source/dns_response.cpp:156-175 | a pointer that leads forwards is no name but decoded |
| Counterexamples.TrailingDotIsLost | source/dns_request.cpp:54-67 | the host "a." reads back as "a" |
| Counterexamples.RepeatedAliasIsLost | source/dns_response.cpp:129-131 | a CNAME record of a name for itself adds no alias |
| Counterexamples.BehindDnsIsReached | source/request_handler.cpp:80-88 | a DNS request and two transfers lead to lists of different lengths |
| Counterexamples.FinishedRequestIsCanceled | source/request_handler.cpp:12-63 | two passes later the first transfer has finished, and its pointer is among those that shutting down cancels |
| Counterexamples.ThreeBehindDnsIsReached | source/request_handler.cpp:80-88 | a DNS request and three transfers, of which the last has one resume left, are reached by adds |
| Counterexamples.IteratorLeavesItsList | source/request_handler.cpp:39-63 | four resumes from there are defined; the fifth moves the second iterator behind the end of its list |

## Left out

- Real sockets, TLS, certificates, sleeping, bind and local ports, and `/etc/resolv.conf`: I/O. The socket is a byte stream with arbitrary counts and errors.
- Errors while writing an open output file, which the source does not look at, and other programs that use the file. Whether it can be opened is an arbitrary choice.
- Changes of status by another thread inside `addResponseData`: such a change is one atomic step in front of it or behind it.
- Callbacks and the `signupFor...` overloads: no property here depends on them.
- `encodeToUrlEncoding`, which its own comment marks as not working, and `urlEncodeSequence`.
- The choice of DNS servers, the UDP exchange, the random id (a parameter here) and `Url::resolve`.
- Tables of error messages, status codes and schemes, beyond the default ports that the URL parser uses.
- Data races between an add and the walk over the lists, and starting and joining the thread. An add and a new limit are each one atomic step. `std::monostate` as a request, which adds a pointer like a DNS request.
- The response's priority and delimiter fields, and the parts of the request base that only read fields.
- That transfers finish: a peer may stay silent for ever, so the results say what holds whenever and however a run ends, and that it ends.
- Urls.ParseComposeIff: covers composing without a port and without a fragment; the first is the subject of `UrlPorts.ParseComposeWithPortIff`, the second of `Urls.FragmentIsLost`.
- Urls.Url.ComposeUrl: leaves out the texts on which the trailing loop never ends; `Urls.PassesForeverIff` says which these are.
- Urls.Url.SetAuthority: needs a host that is not empty, as the source reads its first and last character.
- PercentEncoding.DecodeUrl: needs a character behind each '%', as the source copies two without a test.
- DnsQuery.DnsRequest.constructor: says nothing of labels above 255 bytes, whose 8-bit length wraps around.
- DnsNames.NameFromPointer: leaves out the inputs from which the source does not come back or on which it reads outside of the message; `DnsNames.DecoderEndsIff` says which these are.
- DnsReply.DnsResponse.constructor: says of messages with an owner that is no pointer, or in which something is read outside of the message, only what `DnsReply.DnsResponse.ReadData` and `DnsReply.DnsResponse.ReadOwner` do.
- Scheduler.AsyncRequestHandler.ExecutionThread: leaves out runs in which the second iterator is moved or erased at the end of its list, which the source does not define.
- Scheduler.AsyncRequestHandler.Drain: the same, and so does Shutdown; from a state in lockstep there are none (`Scheduler.LockstepDrains`).
- Scheduler.AsyncRequestHandler.Shutdown: see Drain.
- HttpTransfers.HttpTransfer.ReadChunks: promises the delivery of all data on calm networks. On others a size line that lost more reads as `ChunkedCoding.DroppedReads` says, and a missed line end throws (`ChunkedCoding.MissedLineEndThrows`); what the loop does behind a size read wrong is not described.
- HttpTransfers.HttpTransfer.ProcessRequest: a head in another protocol version leaves the status unset in the source; the model takes 0. A head too short to hold a status ends the run like an exception.
