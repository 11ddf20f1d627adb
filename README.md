# MultipartRequest in Dafny

A model of `MultipartRequest`, the Volley request from MultiPartVolley. The
request collects an ordered list of parts and sends them as a
`multipart/form-data` body. Delimiters follow section 5.1.1 of RFC 2046, and
each part gets a `Content-Disposition: form-data` header as in section 4.2 of
RFC 7578.

The project has four modules:

- `JavaBytes` (`java_bytes.dfy`) models `DataOutputStream.writeBytes`. It
  writes the low byte of every char. ISO 8859-1 decoding is included to read
  the bytes back as text.
- `HexString` (`hex_string.dfy`) models `Long.toHexString`, which turns the
  clock value read at construction into the boundary. It is the canonical
  lower-case hexadecimal numeral of the long's unsigned value. It round-trips
  with its reading, and it is injective.
- `SeqFacts` (`seq_facts.dfy`) holds generic slicing and associativity facts
  used by the proofs.
- `Multipart` (`multipart.dfy`) holds the rest:
  - the two part variants and their accessors;
  - the framing as pure functions: `Block`, `Blocks` and `Serialize`;
  - the Content-Type value and how to read the boundary back out of it;
  - the class `MultipartRequest`.

`MultipartRequest` keeps its parts in a `seq` field that `AddPart` reassigns.
`GetBody` builds the body in a loop, one write at a time, the way the Java
code writes to its `DataOutputStream`. Its postcondition says the result
equals `Serialize`. The lemmas then prove what the body looks like:

- it is one block per part, in list order, followed by the close delimiter;
- every block opens with a delimiter that uses the announced boundary;
- every part's data appears verbatim at a known offset;
- no opening delimiter reads as the close delimiter;
- the body ends with the close delimiter;
- with no parts, the body is the close delimiter alone.
- a form field followed by a small text file reads back as exactly the expected text.

Calls the model cannot see become parameters:

- The clock value is the constructor argument `millis`.
- The platform charset of `String.getBytes()` is a `Charset` function that
  the request holds.
- Volley's default headers are an argument of `GetHeaders`.

## Model

| member | source | states |
|---|---|---|
| JavaBytes.WriteBytes | MultiPartVolley/src/main/java/uk/me/hardill/volley/multipart/MultipartRequest.java:99-117 | defines DataOutputStream.writeBytes: one byte per char, the char's low eight bits, in order |
| Multipart.Delimiter | MultiPartVolley/src/main/java/uk/me/hardill/volley/multipart/MultipartRequest.java:99 | defines the delimiter line: "--", the boundary, CRLF |
| Multipart.CloseDelimiter | MultiPartVolley/src/main/java/uk/me/hardill/volley/multipart/MultipartRequest.java:117 | defines the close-delimiter line: "--", the boundary, "--", CRLF |
| Multipart.Disposition | MultiPartVolley/src/main/java/uk/me/hardill/volley/multipart/MultipartRequest.java:101-108 | defines the Content-Disposition line: the field name in quotes, and for a file part also the filename in quotes ("null" when absent), then CRLF |
| Multipart.ContentTypeLine | MultiPartVolley/src/main/java/uk/me/hardill/volley/multipart/MultipartRequest.java:109 | defines a file part's "Content-type: " line with its MIME type and CRLF |
| Multipart.HeaderText | MultiPartVolley/src/main/java/uk/me/hardill/volley/multipart/MultipartRequest.java:99-110 | defines the text before a part's data: delimiter, disposition line, Content-type line for a file part only, blank line |
| Multipart.Block | MultiPartVolley/src/main/java/uk/me/hardill/volley/multipart/MultipartRequest.java:99-112 | defines a part's block: its header text written with writeBytes, its data verbatim, CRLF |
| Multipart.Blocks | MultiPartVolley/src/main/java/uk/me/hardill/volley/multipart/MultipartRequest.java:98-114 | defines the blocks of a part list: each part's block, in list order |
| Multipart.Serialize | MultiPartVolley/src/main/java/uk/me/hardill/volley/multipart/MultipartRequest.java:98-117 | defines the body: the blocks of all parts, then the close delimiter |
| Multipart.Part.MimeType | MultiPartVolley/src/main/java/uk/me/hardill/volley/multipart/MultipartRequest.java:186-189 | a form part's MIME type is the empty string; a file part's is the one it was built with |
| Multipart.Part.Data | MultiPartVolley/src/main/java/uk/me/hardill/volley/multipart/MultipartRequest.java:192-221 | a form part's data is its value encoded by the platform charset; a file part's data is its constructor bytes, unchanged |
| Multipart.JavaString | MultiPartVolley/src/main/java/uk/me/hardill/volley/multipart/MultipartRequest.java:107-108 | a filename is rendered as itself; a null filename is rendered as "null", as string concatenation does |
| HexString.HexOf | MultiPartVolley/src/main/java/uk/me/hardill/volley/multipart/MultipartRequest.java:43 | the numeral is non-empty and made of lower-case hex digits; it has no leading zero, and it starts with '0' exactly when the number is zero |
| HexString.HexOfValue | MultiPartVolley/src/main/java/uk/me/hardill/volley/multipart/MultipartRequest.java:43 | reading the hex numeral of n gives back n |
| HexString.ValueHexOf | MultiPartVolley/src/main/java/uk/me/hardill/volley/multipart/MultipartRequest.java:43 | every canonical numeral is the one produced for the value it denotes |
| HexString.Unsigned | MultiPartVolley/src/main/java/uk/me/hardill/volley/multipart/MultipartRequest.java:43 | the unsigned reading of a long is below 2^64 and congruent to it modulo 2^64 |
| HexString.ToHexString | MultiPartVolley/src/main/java/uk/me/hardill/volley/multipart/MultipartRequest.java:43 | the boundary is canonical lower-case hex, at most 16 digits, and denotes the clock value read as unsigned 64-bit |
| HexString.ToHexStringInjective | MultiPartVolley/src/main/java/uk/me/hardill/volley/multipart/MultipartRequest.java:43 | distinct clock values give distinct boundaries |
| JavaBytes.DecodeWriteBytes | MultiPartVolley/src/main/java/uk/me/hardill/volley/multipart/MultipartRequest.java:99 | for ISO 8859-1 text, writeBytes loses nothing: decoding its bytes gives the text back |
| Multipart.ContentType | MultiPartVolley/src/main/java/uk/me/hardill/volley/multipart/MultipartRequest.java:89 | the boundary read back from the Content-Type value is the boundary it was built from |
| Multipart.BoundaryParam | MultiPartVolley/src/main/java/uk/me/hardill/volley/multipart/MultipartRequest.java:89 | a value announces a boundary exactly when it starts with "multipart/form-data;boundary=", and then the value is that prefix followed by the boundary |
| Multipart.MultipartRequest.constructor | MultiPartVolley/src/main/java/uk/me/hardill/volley/multipart/MultipartRequest.java:43-74 | a new request has no parts; it keeps the caller's headers; its boundary is toHexString of the clock value, canonical and at most 16 digits |
| Multipart.MultipartRequest.AddPart | MultiPartVolley/src/main/java/uk/me/hardill/volley/multipart/MultipartRequest.java:81-85 | a null part changes neither the parts nor the body; any other part is appended after the existing parts, which keep their order; the body then gains that part's block just before the close delimiter |
| Multipart.MultipartRequest.BodyContentType | MultiPartVolley/src/main/java/uk/me/hardill/volley/multipart/MultipartRequest.java:87-90 | the Content-Type value announces exactly the request's boundary |
| Multipart.MultipartRequest.GetBody | MultiPartVolley/src/main/java/uk/me/hardill/volley/multipart/MultipartRequest.java:93-118 | the bytes the write loop produces are the serialisation of the request's parts under its boundary and charset |
| Multipart.MultipartRequest.GetHeaders | MultiPartVolley/src/main/java/uk/me/hardill/volley/multipart/MultipartRequest.java:127-133 | the caller's headers when present, otherwise the defaults |
| Multipart.ResendBody | MultiPartVolley/src/main/java/uk/me/hardill/volley/multipart/MultipartRequest.java:93-124 | two body requests with no part added in between return identical bytes, provided no caller writes into a part's array in between |
| Multipart.BlockWrites | MultiPartVolley/src/main/java/uk/me/hardill/volley/multipart/MultipartRequest.java:99-112 | a form block is the delimiter, the disposition line, a blank line, the data and CRLF; a file block also has the Content-type line before the blank line |
| Multipart.BlockStartsWithDelimiter | MultiPartVolley/src/main/java/uk/me/hardill/volley/multipart/MultipartRequest.java:99 | every block opens with the bytes of "--" + boundary + CRLF |
| Multipart.DataInBlock | MultiPartVolley/src/main/java/uk/me/hardill/volley/multipart/MultipartRequest.java:102-112 | within a block, the data sits verbatim between the header bytes and a final CR LF |
| Multipart.BlocksAppend | MultiPartVolley/src/main/java/uk/me/hardill/volley/multipart/MultipartRequest.java:98-114 | the blocks of two part lists concatenated are the blocks of each, concatenated |
| Multipart.BlocksPrefix | MultiPartVolley/src/main/java/uk/me/hardill/volley/multipart/MultipartRequest.java:98-114 | the blocks of the first i+1 parts are the blocks of the first i followed by the i-th part's block |
| Multipart.BlocksOne | MultiPartVolley/src/main/java/uk/me/hardill/volley/multipart/MultipartRequest.java:98-114 | the blocks of a one-part list are exactly that part's block |
| Multipart.BlocksAround | MultiPartVolley/src/main/java/uk/me/hardill/volley/multipart/MultipartRequest.java:98-114 | the blocks of a list are those before part k, part k's block, and those after |
| Multipart.BlockAt | MultiPartVolley/src/main/java/uk/me/hardill/volley/multipart/MultipartRequest.java:98-117 | part k's block sits in the body right after the blocks of the parts before it (list order) |
| Multipart.DataAt | MultiPartVolley/src/main/java/uk/me/hardill/volley/multipart/MultipartRequest.java:98-117 | part k's data appears byte for byte in the body, after the earlier blocks and part k's header bytes |
| Multipart.DelimiterAt | MultiPartVolley/src/main/java/uk/me/hardill/volley/multipart/MultipartRequest.java:98-117 | part k's delimiter line sits in the body where its block begins |
| Multipart.ContentTypeMatchesBody | MultiPartVolley/src/main/java/uk/me/hardill/volley/multipart/MultipartRequest.java:89-117 | the boundary the Content-Type announces is the one in every part's delimiter and in the close delimiter, which ends the body |
| Multipart.OpeningIsNotClose | MultiPartVolley/src/main/java/uk/me/hardill/volley/multipart/MultipartRequest.java:99-117 | no part's opening delimiter reads as the close delimiter |
| Multipart.FormBlockText | MultiPartVolley/src/main/java/uk/me/hardill/volley/multipart/MultipartRequest.java:99-104 | for an ISO 8859-1 boundary and name, a form block reads as "--B" CRLF, the disposition line naming the field, a blank line, the value's bytes and CRLF, with no Content-type line |
| Multipart.FileBlockText | MultiPartVolley/src/main/java/uk/me/hardill/volley/multipart/MultipartRequest.java:105-112 | for ISO 8859-1 header fields, a file block reads as "--B" CRLF, the disposition line with name and filename, the Content-type line, a blank line, the data and CRLF |
| Multipart.CloseDelimiterBytes | MultiPartVolley/src/main/java/uk/me/hardill/volley/multipart/MultipartRequest.java:117 | the close delimiter is the bytes "--", the boundary, "--", CR LF |
| Multipart.EmptyBody | MultiPartVolley/src/main/java/uk/me/hardill/volley/multipart/MultipartRequest.java:97-118 | with no parts the body is exactly "--" + boundary + "--" + CRLF |
| Multipart.HexBoundaryLatin1 | MultiPartVolley/src/main/java/uk/me/hardill/volley/multipart/MultipartRequest.java:43 | every boundary a request can have is ISO 8859-1 text, so the textual lemmas apply to every request |
| Multipart.CloseDelimiterText | MultiPartVolley/src/main/java/uk/me/hardill/volley/multipart/MultipartRequest.java:117 | for an ISO 8859-1 boundary the close delimiter's bytes read back as "--" + boundary + "--" + CRLF |
| Multipart.SerializeTwo | MultiPartVolley/src/main/java/uk/me/hardill/volley/multipart/MultipartRequest.java:98-117 | the body of two parts is the first block, the second block, then the close delimiter |
| Multipart.TwoPartBody | MultiPartVolley/src/main/java/uk/me/hardill/volley/multipart/MultipartRequest.java:98-117 | a form field "field1"="value1" then a file "file1" (text/plain, "a.txt", bytes "hi") read back as the exact expected text under any request boundary |

## Left out

- The `IOException` handler that prints a stack trace and returns null. Writing to a `ByteArrayOutputStream` does not throw, so the model has no failure path.
- `parseNetworkResponse` and `HttpHeaderParser.parseCacheHeaders` are not modelled. They parse responses in Volley code that is not part of this model.
- `deliverResponse`, the listeners and the `super(method, url, errorListener)` calls are not modelled. They are Volley transport plumbing. The URL, the method and the listeners are therefore not fields of the model.
- `super.getHeaders()` is Volley code. Its result is passed in as the `defaults` argument of `GetHeaders`.
- `System.currentTimeMillis()` is a clock read. The constructor takes its value as the argument `millis`.
- `String.getBytes()` depends on the platform's default charset. The request holds that encoding as a `Charset` function and assumes nothing more about it.
- JavaBytes.WriteBytes writes one byte per char. Java does the same per UTF-16 code unit, so it writes two bytes for a character outside the Basic Multilingual Plane. The model's strings are sequences of Unicode scalar values, so such a character gets one byte here.
- Multipart.Part.Data: in Java a file part keeps the caller's byte array by reference and reads it only when the body is built. The model takes the bytes as an immutable value when the part is made, so writes into that array after `addPart` are not modelled.
- Multipart.ResendBody: the equality of the two bodies holds in Java only if no caller writes into a part's array between the calls. The model has no such writes.
- Multipart.MultipartRequest.GetHeaders: Java hands back the caller's own map object, which the caller may still change. The model treats the headers map as an immutable value.
- Null names, MIME types, form values and file data are not modelled. Java would render the first three as "null" or throw on them. Only the documented null filename is modelled, and it renders as "null".
- A `MultiPart` subclass other than form or file is not modelled. The base class is abstract, and the part datatype has exactly the two variants.
- Quote escaping in header values is not modelled, and neither is the boundary also occurring inside part data. The code does neither.
- Multipart.ContentTypeMatchesBody: says the body ends with the close delimiter, not that the close delimiter occurs only once. Part data may contain the same bytes. Multipart.OpeningIsNotClose proves the part of uniqueness that holds: no part's opening delimiter is a close delimiter.
- Multipart.FormBlockText: the textual reading requires ISO 8859-1 boundary and name. For other text, Multipart.BlockWrites still states the exact bytes.
- Multipart.FileBlockText: the textual reading requires ISO 8859-1 boundary, name, MIME type and filename. For other text, Multipart.BlockWrites still states the exact bytes.
- Multipart.MultipartRequest.GetBody: the fact that the body call leaves the parts and the boundary unchanged is stated by its empty modifies frame, not by an `ensures`.
