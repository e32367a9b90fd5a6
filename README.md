# DNSMsg in Dafny

DNSMsg carries short text messages inside DNS query names. It has two sides.

**The client (`DNSMsgClient.py`).** It builds a header: an encoding marker, the sender id and a hex timestamp. It works out how many message characters fit in one query under a 250-character ceiling. It then cuts the message into that many characters per query. Each chunk is UTF-8 encoded and written in Base32 or Base64 (sections 6 and 4 of RFC 4648). The encoded text is split into labels of at most 63 characters. The labels go between a per-query header (`<seq as 6 hex>-<count as 6 hex>.`) and the domain. The client asks for the TXT record of each name in turn. It stops at the first reply that does not carry `"OK"`.

**The server (`DNSMsgServer.py`).** It is an authoritative responder for one zone. For every name in the zone it tries to decode a message:
- it strips the domain, reads `'0'` as `'='`, removes the dots, and Base32-decodes the upper-cased text;
- it reads a 12-byte UTF-8 sender id, three acknowledgment octets, and the UTF-8 message from byte 16 on;
- it remembers the address `1.b12.b13.b14`;
- it queues a command line built from a template.

It then answers from a fixed table of records. When the table has nothing for the name, it falls back to an `A` record carrying the remembered address or to `TXT "FALSE"`. Every in-zone reply also carries the two NS records and the SOA.

The project has six modules:

- `Text` (`text.dfy`): the Python string behaviour both sides rely on.
  - slicing with negative and clamped bounds;
  - `format(n, 'x')`, `format(n, '06x')` and `str(n)`, with their inverses;
  - `str.replace`, which is leftmost and non-overlapping;
  - `rstrip`;
  - splitting and joining on a separator.
- `Utf8` (`utf8.dfy`): strict UTF-8 encoding and decoding, proved inverse in both directions.
- `Base32` (`base32.dfy`): `b32encode`, and `b32decode` with its padding rules. Decoding is proved to invert encoding.
- `Base64` (`base64.dfy`): `b64encode`, with a strict decoder as its reference inverse.
- `DNSMsgClient` (`client.dfy`):
  - the header, the budget arithmetic, chunking, labels and the query name, as functions;
  - `main`'s loops as the methods `SendMessage`, `SendQueries` and `JoinLabels`, each proved against those functions.
- `DNSMsgServer` (`server.dfy`):
  - names, the records table and answer selection, as functions;
  - the server state (the global `IP` and the command queue) as the class `Server`, with `ProcMsg`, `SelectAnswers`, `Sections` and `DnsResponse` as methods.

The model follows the code as written, including where it surprises:
- **The ceiling is 250, not 255.** The character ceiling is 250 (`DNSMsgClient.py:34`). What is proved (`HostnameFits`) is a bound of 253 characters on the whole name; it reads as the 255-octet limit of section 2.3.4 of RFC 1035 only when the sender and the domain are ASCII as well.
- **The chunk size can be zero or negative.** Nothing rejects a domain too long for any payload before sending starts.
  - A zero chunk size makes `math.ceil` divide by zero.
  - A negative chunk size gives a non-positive query count. The loop then never runs, and the final report reads an unbound `seq`.
  - A message of length zero has the same effect.

  `SendMessage` returns these as the outcomes `ZeroDivisionError` and `UnboundLocalError`.
- **The two sides do not interoperate.** The server's reply is `TXT "FALSE"`, but the client wants `"OK"`. The client also sends a text header, not the server's 16-byte binary frame. The client never writes Base32 padding '=' as '0', and its default Base64 output holds '+', '/' and lower-case letters, so the server's '0'→'=' step and upper-casing have no counterpart on the client side. Each side is modelled as written, with no end-to-end round trip.

## Model

| member | source | states |
|---|---|---|
| DNSMsgClient.SendMessage | DNSMsgClient.py:23-85 | A zero chunk size ends the run before any query, as ZeroDivisionError. A non-positive query count (empty message or negative chunk size) ends it with no query, as UnboundLocalError. Otherwise the run is exactly what `Sent` describes for ceil(len/chunk) queries. |
| DNSMsgClient.SendQueries | DNSMsgClient.py:54-85 | The names of chunks 1..k are queried in ascending order, and every query but the last was acknowledged. The run reports n of n exactly when the n-th is acknowledged; otherwise it stops, reporting k-1 of n, and issues no later query. |
| DNSMsgClient.JoinLabels | DNSMsgClient.py:73-75 | The payload the inner loop builds is each label followed by a dot, in order. |
| DNSMsgClient.HeaderFields | DNSMsgClient.py:25-31 | The header is sender, timestamp, sequence number and count plus 18 characters. It ends in '.', and splitting the rest at '-' gives the marker ("2" exactly for Base32, else "4"), the sender, the hex timestamp and the two 6-digit hex numbers. Each numeral reads back as the value it encodes. |
| DNSMsgClient.HeaderJoined | DNSMsgClient.py:57 | The per-query header is the five fields joined by '-' and followed by '.'. |
| DNSMsgClient.ChunkSizeShrinks | DNSMsgClient.py:34-46 | The chunk size depends only on the encoding and the lengths of header1 and of the domain. It never grows as either gets longer. |
| DNSMsgClient.TruncDivMono | DNSMsgClient.py:42-44 | `int(x/8)` (truncation toward zero) is monotone in x, for negative x too. |
| DNSMsgClient.CeilDivBelow | DNSMsgClient.py:50 | k < ceil(a/c) if and only if k*c < a. |
| DNSMsgClient.QueryCountIsCeiling | DNSMsgClient.py:50 | For a positive chunk size, numMessages is the least n whose n chunks cover the message. A negative chunk size gives no positive count. The count is positive exactly when the chunk size and the message length are positive. |
| DNSMsgClient.PieceAt | DNSMsgClient.py:72 | The i-th piece of `[s[i:i+c] for i in range(0, len(s), c)]` is s[i*c .. min(i*c+c, len)], and it starts inside s. |
| DNSMsgClient.PieceLength | DNSMsgClient.py:72 | Every piece is 1..c characters long, and every piece but the last is exactly c. |
| DNSMsgClient.PiecesStep | DNSMsgClient.py:72 | The first j pieces joined are the first j-1 joined, then the j-th piece. |
| DNSMsgClient.PiecesPrefix | DNSMsgClient.py:72 | The first j pieces joined are the first min(j*c, len) characters. |
| DNSMsgClient.PiecesCover | DNSMsgClient.py:72 | There are ceil(len/c) pieces, each 1..c characters long and all but the last exactly c. Joined, they are the text. |
| DNSMsgClient.ChunksCover | DNSMsgClient.py:50-61 | The slices of queries 1..numMessages are each 1..chunk characters long and all but the last exactly chunk. Their concatenation is the message. |
| DNSMsgClient.LabelsCover | DNSMsgClient.py:72-75 | An encoded chunk has ceil(len/63) labels, each 1..63 characters. Joined, they are the chunk. |
| DNSMsgClient.EncodedChunkLength | DNSMsgClient.py:64-69 | n bytes of UTF-8 encode to 8*ceil(n/5) characters in Base32 and 4*ceil(n/3) in Base64. |
| DNSMsgClient.NoDotInChunk | DNSMsgClient.py:64-69 | An encoded chunk holds no '.', so labels cut from it never contain one. |
| DNSMsgClient.PayloadDecodes | DNSMsgClient.py:64-75 | Deleting the dots of a query's labels gives the encoded chunk. Decoding that gives the chunk's UTF-8, which decodes back to the chunk. |
| DNSMsgClient.ChunkBytes | DNSMsgClient.py:61-64 | A slice of an ASCII message is at most chunk bytes once UTF-8 encoded. |
| DNSMsgClient.Base32Fits | DNSMsgClient.py:42 | A chunk of at most int(A*5/8)-4 bytes Base32-encodes to at most A characters. |
| DNSMsgClient.Base64Fits | DNSMsgClient.py:44 | A chunk of at most int(A*6/8)-4 bytes Base64-encodes to at most A characters. |
| DNSMsgClient.HostnameFits | DNSMsgClient.py:34-78 | Every query name ends with the domain, and each of its data labels is 1..63 characters. For an ASCII message, a positive chunk size and sequence numbers below 16^6, it is at most 253 characters (a bound in characters, not octets). |
| DNSMsgClient.AcknowledgedIff | DNSMsgClient.py:89-98 | `query` succeeds if and only if there is a first answer whose characters 1 and 2 are 'O' and 'K'. A raised exception or a missing answer is a failure. |
| DNSMsgServer.ChildInZone | DNSMsgServer.py:34-36 | `D.x` is "x." + D, which lies in the zone, ends with "." + D and is |x| + 1 + |D| long. |
| DNSMsgServer.RecordsInZone | DNSMsgServer.py:64-69 | The table has four entries: the apex first, then ns1, ns2 and mail. Their names are distinct and all lie in the zone. |
| DNSMsgServer.Server.constructor | DNSMsgServer.py:39-69 | D is domain + ".". The SOA, NS and records globals are built from it and the startup IP. The current IP starts as the startup IP, and the queue starts empty. |
| DNSMsgServer.Server.ProcMsg | DNSMsgServer.py:73-95 | On any decode failure, IP, queue and output are unchanged. On success: IP becomes "1.b12.b13.b14"; exactly one command line (the template with {id}, then {msg} substituted) is appended when a command is configured, and none otherwise; "id\|msg" is printed. |
| DNSMsgServer.AppendMatches | DNSMsgServer.py:160-164 | The inner loop appends exactly the entry's records of the query type (all for '*'), in order. `found` is true exactly when there is an answer. |
| DNSMsgServer.Server.SelectAnswers | DNSMsgServer.py:157-171 | The answers are `Answers(records, qn, qt, ip)`: the table's matches, or else the fallback with the current IP. |
| DNSMsgServer.Server.Sections | DNSMsgServer.py:157-178 | The answers are as selected. The additional section is the two NS records owned by the zone, and the authority section is the one SOA record. |
| DNSMsgServer.Server.DnsResponse | DNSMsgServer.py:142-180 | The reply echoes id and question with qr=aa=ra=1. A name outside the zone gets empty sections and changes nothing. A name in the zone is first given to procmsg, and its fallback uses the IP procmsg leaves. |
| DNSMsgServer.MatchingSpec | DNSMsgServer.py:160-164 | Every answer is a record of the entry whose type is the query type (or the query type is '*'), owned by the query name. Every such record is answered. |
| DNSMsgServer.MatchingAppend | DNSMsgServer.py:160-164 | The matches of two runs of records are the matches of each, in order. |
| DNSMsgServer.MatchAll | DNSMsgServer.py:162 | A '*' query answers every record of the entry, in order. |
| DNSMsgServer.SelectNone | DNSMsgServer.py:158-159 | A table with no entry named qn selects nothing. |
| DNSMsgServer.SelectFromEntry | DNSMsgServer.py:158-164 | With distinct names, the table selects exactly what the one entry named qn matches. |
| DNSMsgServer.AnswerSelection | DNSMsgServer.py:157-171 | For a key, the answers are its matches or, when there are none, the fallback. A name that is not a key gets the fallback. |
| DNSMsgServer.FallbackCases | DNSMsgServer.py:167-171 | Without a match: type A gets one A record with the current IP, type TXT gets one TXT "FALSE", and any other type gets nothing. |
| DNSMsgServer.ApexAnswers | DNSMsgServer.py:65 | The apex answers A with the startup IP whatever the current IP, and NS with ns1 then ns2. It answers TXT with "FALSE" (it has no TXT record), and '*' with all six records, NS ns1 fifth. |
| DNSMsgServer.ApexMatching | DNSMsgServer.py:65 | The apex entry has six records, and its answers for any type are their matches in order, or the fallback. |
| DNSMsgServer.HostAnswers | DNSMsgServer.py:66-68 | ns1, ns2 and mail answer A with the startup IP, not the IP set by decoding. |
| DNSMsgServer.MessageNameAnswers | DNSMsgServer.py:157-171 | A name in the zone that is not a table key, such as one carrying a message, gets exactly the fallback. |
| DNSMsgServer.StripChild | DNSMsgServer.py:76 | Dropping len(domain)+2 characters from "x." + D leaves x. |
| DNSMsgServer.StripApex | DNSMsgServer.py:76 | For D itself the end index is -1, which leaves the domain without the final dot. |
| DNSMsgServer.CleanedLabels | DNSMsgServer.py:76-78 | Labels that spell e with its '=' written as '0' give back e after stripping, '0'→'=' and dot removal. |
| DNSMsgServer.UpperKeeps | DNSMsgServer.py:81 | upper() leaves text without lower-case letters unchanged. |
| DNSMsgServer.DecodedFields | DNSMsgServer.py:80-85 | Soundness: a decoded message comes from a Base32 payload of at least 15 bytes. Bytes 0..11 are the UTF-8 of the id, bytes 16.. are the UTF-8 of the message, and bytes 12..14 give the address. |
| DNSMsgServer.FrameParts | DNSMsgServer.py:82-85 | For a 12 + 4 + n byte frame, [0:12] is the id bytes, [16:] is the message bytes, and bytes 12..14 are the first three acknowledgment octets. |
| DNSMsgServer.AcceptsFrame | DNSMsgServer.py:73-85 | Completeness: a name whose labels spell the Base32 of id, four octets and message (padding written as '0') decodes to that id, that message and the address from the first three octets. |
| DNSMsgServer.AckAddressFields | DNSMsgServer.py:85 | The address splits at '.' into "1" and three decimal numerals, which read back as bytes 12, 13 and 14. |
| DNSMsgServer.CommandPlain | DNSMsgServer.py:90-92 | A template without braces is queued unchanged. |
| DNSMsgServer.CommandTemplate | DNSMsgServer.py:90-92 | A template with one {id} before one {msg} and no other brace gets the id and the message in their places. The id must hold no brace either. |
| Text.SliceBound | DNSMsgServer.py:76 | A Python slice bound: kept when within 0..len, counted from the end when negative, and clamped otherwise. |
| Text.Slice | DNSMsgClient.py:61 | A slice is never longer than the text and holds only characters of it. It is s[i..j] whenever the bounds are in range. |
| Text.SliceFrom | DNSMsgClient.py:61 | A slice from a non-negative start is s[i..min(j, len)] and at most j-i long. |
| Text.TrimRight | DNSMsgServer.py:81 | Stripping trailing '=' leaves a prefix that does not end in '=', and everything removed was '='. |
| Text.TrimRightRun | DNSMsgServer.py:81 | Stripping a run of '=' from text not ending in '=' gives the text back. |
| Text.NumeralRoundTrip | DNSMsgClient.py:26 | format(n, 'x') and str(n) are numerals without '-' or '.', and they read back as n. |
| Text.NumeralLength | DNSMsgClient.py:57 | A number below base^k has at most k digits. |
| Text.Hex6Fields | DNSMsgClient.py:57 | format(n, '06x') for n below 16^6 is exactly six hex digits that read back as n. |
| Text.SplitJoin | DNSMsgClient.py:31 | Fields without the separator, joined by it, split back into the same fields. |
| Text.ReplaceAbsent | DNSMsgServer.py:91-92 | Replacing a pattern that does not occur changes nothing. |
| Text.ReplaceLeftmost | DNSMsgServer.py:91-92 | The leftmost occurrence is replaced, and scanning resumes after it. |
| Text.ReplaceChar | DNSMsgServer.py:77-78 | Replacing a one-character pattern replaces each occurrence of that character. |
| Text.SubstituteBack | DNSMsgServer.py:77 | Writing '=' as '0' and reading '0' as '=' gives the text back, for text without '0'. |
| Text.RemoveDots | DNSMsgServer.py:78 | Removing the dots of dot-terminated labels without dots of their own gives the labels run together. |
| Text.DotAfterEachLength | DNSMsgClient.py:73-75 | The payload is as long as its labels plus one dot each. |
| Utf8.EncodeCharDecodes | DNSMsgClient.py:64 | The encoding of one scalar value decodes to that value and its length, whatever follows. |
| Utf8.EncodeDecode | DNSMsgClient.py:64 | Decoding the UTF-8 of any string gives the string. |
| Utf8.DecodeEncode | DNSMsgServer.py:82-83 | Whatever decodes is exactly the encoding of what it decodes to. |
| Utf8.AsciiEncode | DNSMsgClient.py:64 | ASCII text encodes one byte per character, each byte its code. |
| Base32.SymbolTable | DNSMsgClient.py:66 | Each 5-bit value maps to the alphabet of section 6 of RFC 4648, and reading the symbol back gives the value. |
| Base32.EncodedLength | DNSMsgClient.py:66 | n bytes encode to 8*ceil(n/5) characters, a multiple of 8. |
| Base32.EncodedSymbols | DNSMsgClient.py:66 | The encoding is alphabet symbols followed by '=' only. |
| Base32.EncodedBody | DNSMsgClient.py:66 | Stripping the '=' run gives the symbols back, and the run is as long as the padding count. |
| Base32.QuantumRoundTrip | DNSMsgServer.py:81 | The five bytes of a 40-bit quantum come back from its eight groups. |
| Base32.DigitsRoundTrip | DNSMsgServer.py:81 | The bytes of the groups of b are b. |
| Base32.RoundTrip | DNSMsgServer.py:81 | b32decode(b32encode(b)) == b. |
| Base64.SymbolTable | DNSMsgClient.py:68 | Each 6-bit value maps to the alphabet of section 4 of RFC 4648, and reading the symbol back gives the value. |
| Base64.EncodedLength | DNSMsgClient.py:68 | n bytes encode to 4*ceil(n/3) characters, a multiple of 4. |
| Base64.EncodedSymbols | DNSMsgClient.py:68 | The encoding is alphabet symbols followed by '=' only. |
| Base64.EncodedBody | DNSMsgClient.py:68 | Stripping the '=' run gives the symbols back, and the run is as long as the padding count. |
| Base64.QuantumRoundTrip | DNSMsgClient.py:68 | The three bytes of a 24-bit quantum come back from its four groups. |
| Base64.RoundTrip | DNSMsgClient.py:68 | The strict decoder inverts b64encode. |

## Left out

- The socket listeners and request handlers (`DNSMsgServer.py:99-138`), and thread startup and shutdown (`DNSMsgServer.py:201-234`): I/O and concurrency.
- `ExtMessageHandler` (`DNSMsgServer.py:184-197`): a polling thread that runs queued commands through a shell. Only the enqueue is modelled.
- dnslib parsing, packing, `RR`/`QTYPE` construction and `str(qname)`: a foreign library.
  - `DnsResponse` takes the request id, the name and the type name as inputs.
  - Record data is a datatype.
  - An `MX` built without a preference carries dnslib's default of 10.
- `dns.resolver.query` (`DNSMsgClient.py:92`): the network. The resolver is a function parameter that returns the rendered answers or an exception.
- argparse, the `uuid.getnode()` default sender and the `datetime` timestamp: inputs. The timestamp is the number HHMMSS.
- `print` and `sys.stderr.write`: `ProcMsg` and `DnsResponse` return the printed line, and `SendMessage` returns the outcome that the report would print.
- DNSMsgServer.Server.ProcMsg: `str.upper()` is modelled on ASCII letters only. Other letters are left as they are.
- The float expressions `int((a/8)*5)`, `int((a/8)*6)` and `math.ceil(len/c)` are modelled as exact integer truncation and ceiling.
  - `(a/8)*5` and `(a/8)*6` are exact in binary floating point for these small integers, since a/8 is a dyadic fraction.
  - `len/c` at `DNSMsgClient.py:50` is generally not exact (10/3 has no binary representation); only the ceiling of the rounded quotient agrees with the integer ceiling. That agreement holds for message lengths below 2^53, where the rounding error is smaller than the distance 1/c from the exact quotient to the next integer; for longer messages the model's exact ceiling may differ from the float one.
- DNSMsgClient.HostnameFits: holds only for ASCII messages, because the budget counts characters while UTF-8 may need up to four bytes each.
- DNSMsgClient.HostnameFits: bounds the name in characters, not octets. Nothing restricts the sender or the domain (`DNSMsgClient.py:17-18`), and `len` at `DNSMsgClient.py:31,36-37` counts their characters; a non-ASCII character there takes two or more octets on the wire (UTF-8 or an IDNA "xn--" label), so reading 253 characters as at most 255 octets also needs an ASCII sender and domain.
- DNSMsgClient.HostnameFits: bounds the whole name and each data label, but not the header label. With a long sender, the header label can exceed 63 characters.
- `msgpart.encode('utf-8')` at `DNSMsgClient.py:64` raises UnicodeEncodeError for a message holding lone surrogates, which Python 3 makes from undecodable command-line bytes. A Dafny `string` holds only Unicode scalar values and `Utf8.Encode` is total, so that crash path is not expressed: the model's messages are always encodable.
- The `'*'` query type: `qt` comes from dnslib's `QTYPE` table (`DNSMsgServer.py:148`), which names type 255 "ANY", so the `'*'` test at `DNSMsgServer.py:162` is unlikely to fire for a real query. dnslib is not part of this model; `qt` is an input, and `MatchAll` and the `'*'` part of `ApexAnswers` describe the code's branch, not behaviour a client is known to trigger.
- `Base64.Decode`: not used by either program. It is a strict reading of section 4 of RFC 4648, kept only as the encoder's inverse.
- The client and server are not wire-compatible. No end-to-end round trip is stated.
