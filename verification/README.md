# HTTP/1.1 message parser, modelled in Dafny

This is a model of a small HTTP/1.1 library. It has three layers.

- **Recognizers.** There is one finder per ABNF production of RFC 9110 and RFC 9112: tchar, token, OWS/RWS/BWS, field-content, field-value, quoted-string, HTTP-version, request-line, status-line, field-line, HTTP-message and message-body. A finder maps a byte buffer to the set of prefix lengths at which its production matches.
  - The finders are built from the RFC 5234 operators: concatenation, alternatives (set union), value ranges, variable and specific repetition, and the optional element.
  - These operators live in module `Abnf`. The productions live in module `Grammar`, and what they match is characterised in `GrammarProperties`.
  - The URI productions (host, segment, query, absolute-URI, port) belong to another library. They are a parameter `UriGrammar`. What the proofs need of them is stated as predicates: `UriLocal`, `UriAvoids` and `UriBounded`.
- **The structured parser** ("Marshal"). It commits each element to one match.
  - The start-line fields, field-name, OWS and field-value take the longest match. ":" and CRLF take the shortest match (`ParseLongest`, `ParseShortest`).
  - A loop reads field lines while a field line matches at the front of the buffer. One CRLF then ends the header section, and the rest of the buffer is the body.
  - Errors are the library's own messages.
  - The request target is the longest match over the union of all four request-target forms, as `FindRequestTarget` computes it (http11-parser.go:334-342). `MessageProperties.RequestTargetLongest` states it.
- **The serializer** ("Unmarshal"), the string view and the header lookup.

The library has two versions of the message layer.
- `http11message.go` is modelled by module `Message`. Its properties are proved in `MessageProperties`, with one-step facts in `MessageSteps`.
- `http11request.go` and `http11response.go` are modelled by modules `RequestVariant` and `ResponseVariant`. Both variants share the field-line loop and the header lookup in `Headers`.

The variants take CRLF by the longest match. The model proves that this gives the same result as the shortest match (`RequestVariant.MarshalAgrees`, `ResponseVariant.MarshalIntendedAgrees`). The response variant does not fill in the body; see Findings.

## Model

| member | source | states |
|---|---|---|
| GrammarProperties.TCharMatches | http11-parser.go:115-136 | tchar matches exactly one byte, and only when that byte is one of the 15 listed punctuation bytes, a DIGIT or an ALPHA; otherwise nothing matches |
| GrammarProperties.TCharAt | http11-parser.go:115-136 | offset k is a tchar match iff k = 1 and the first byte is a tchar |
| GrammarProperties.FieldVCharMatches | http11-parser.go:81-96 | obs-text matches one byte in 0x80-0xFF; field-vchar matches one byte that is VCHAR (0x21-0x7E) or obs-text, so SP and DEL are rejected |
| GrammarProperties.TextBytesMatch | http11-parser.go:209-219 | qdtext matches one byte from HTAB, SP, 0x21, 0x23-0x5B, 0x5D-0x7E or 0x80-0xFF, so DQUOTE, backslash and DEL are rejected |
| GrammarProperties.TokenMatches | http11-parser.go:38-40 | token, method and field-name match exactly the lengths 1..k, where k is the length of the leading run of tchar bytes; nothing matches when k = 0 |
| GrammarProperties.WhitespaceMatches | http11-parser.go:144-179 | OWS and BWS match exactly 0..k and RWS exactly 1..k, where k is the length of the leading SP/HTAB run |
| GrammarProperties.ReasonPhraseMatches | http11-parser.go:424-435 | reason-phrase matches exactly 1..k over the leading run of HTAB/SP/VCHAR/obs-text bytes |
| GrammarProperties.MessageBodyMatches | http11-parser.go:458-460 | message-body matches every length 0..\|data\| |
| GrammarProperties.StatusCodeMatches | http11-parser.go:415-417 | status-code matches {3} when the first three bytes are digits and nothing otherwise |
| GrammarProperties.FieldContentAt | http11-parser.go:57-74 | field-content matches at k iff 1 <= k, k != 2, and the first k bytes start and end with a field-vchar and hold only SP/HTAB/field-vchar, so trailing whitespace is never included |
| GrammarProperties.FieldValueAt | http11-parser.go:47-49 | field-value always matches the empty prefix; otherwise it matches exactly the prefixes of field-content shape |
| GrammarProperties.QuotedPairAt | http11-parser.go:226-237 | quoted-pair matches only at 2: a backslash followed by HTAB, SP, VCHAR or obs-text |
| GrammarProperties.QdTextOrQuotedPairAt | http11-parser.go:189-194 | the repeated element of quoted-string is one qdtext byte or one quoted pair |
| GrammarProperties.QuotedStringBodyAt | http11-parser.go:189-194 | *( qdtext / quoted-pair ) matches at k iff the first k bytes are a sequence of qdtext bytes and quoted pairs |
| GrammarProperties.QuotedStringAt | http11-parser.go:186-198 | quoted-string matches at k iff k >= 2, the first and the k-th byte are DQUOTE, and the bytes between are quoted content |
| GrammarProperties.HttpVersionAt | http11-parser.go:281-299 | HTTP-version matches at k iff k = 8 and the buffer opens with the case-sensitive "HTTP" "/" DIGIT "." DIGIT |
| GrammarProperties.HttpVersionMatches | http11-parser.go:281-299 | HTTP-version matches {8} or nothing, by that same condition |
| GrammarProperties.StatusLineAt | http11-parser.go:399-408 | status-line matches at k iff HTTP-version SP status-code SP opens the buffer and 13 <= k <= 13 + the length of the reason-phrase run, so an empty reason phrase is accepted |
| GrammarProperties.FieldLineNonEmpty | http11-parser.go:442-451 | field-line matches somewhere iff a token followed by ":" opens the buffer |
| GrammarProperties.HttpMessageReachesEnd | http11-parser.go:247-261 | an HTTP-message that matches at all also matches the whole buffer, because the optional message-body can take every remaining byte |
| GrammarProperties.AbsolutePathStartsWithSlash | http11-parser.go:22-31 | every absolute-path match is non-empty and starts with "/" |
| Abnf.Concatenation | http11-parser.go:399-408 | no concatenation (request-line, status-line, field-line, HTTP-message, ...) matches beyond the end of the buffer |
| Abnf.OneOrMore | http11-parser.go:103-105 | a 1*rule match is at least 1 and at most the buffer length |
| Abnf.RepetitionOfClass | http11-parser.go:144-152 | a repetition of a one-byte class matches exactly the lengths up to the class's leading run: 0..k for *, 1..k for 1* |
| Abnf.SpecificRepetitionOfClass | http11-parser.go:415-417 | n repetitions of a one-byte class match {n} when the leading run is at least n and nothing otherwise |
| Abnf.LongestSpec | http11message.go:61-66 | the longest match parsed is a member of the match-set, and no member inside the buffer is longer |
| Abnf.ShortestSpec | http11message.go:155-159 | the shortest match parsed is a member of the match-set, and no member is shorter |
| RequestTarget.RequestTargetLocal | http11-parser.go:334-392 | whether request-target matches at k depends only on the first k bytes, given that this holds for each URI rule |
| RequestTarget.RequestTargetAvoidsSp | http11-parser.go:334-392 | no request-target match contains SP, given that no URI rule match does |
| RequestTarget.RequestTargetBounded | http11-parser.go:334-342 | request-target matches nowhere beyond the buffer, given that the URI rules do not |
| MessageProperties.RequestLineSound | http11message.go:58-95 | a parsed request line is method SP target SP version followed by the remaining bytes: a token, a request-target and an HTTP-version |
| MessageProperties.RequestTargetLongest | http11message.go:74-79 | the parsed request target is a request-target match, and no match of any of the four forms is longer |
| MessageProperties.StatusLineSound | http11message.go:97-134 | a parsed status line is version SP code SP reason followed by the rest; its fields are an HTTP-version, three digits and a non-empty reason phrase |
| MessageProperties.FieldLineSound | http11message.go:146-187 | a parsed field line is name ":" OWS value OWS CRLF followed by the rest; the name is a token and the value is non-empty field-content with its surrounding whitespace stripped |
| MessageProperties.FieldLinesSound | http11message.go:136-191 | every field line read is well formed, the bytes left are a suffix of the input, and no field line opens them |
| MessageProperties.FieldLineRoundTrip | http11message.go:146-187 | reading a serialized well-formed field line returns it and the bytes after it |
| MessageProperties.FieldLinesRoundTrip | http11message.go:136-191 | reading serialized well-formed field lines followed by CR returns them all, in order and with duplicates kept |
| MessageProperties.RequestLineRoundTrip | http11message.go:58-95 | a serialized request line parses back to its method, target and version |
| MessageProperties.StatusLineRoundTrip | http11message.go:97-134 | a serialized status line parses back to its version, code and reason phrase |
| MessageProperties.RequestRoundTrip | http11message.go:193-219 | Marshal of the Unmarshal of a well-formed request gives the request back, body included |
| MessageProperties.ResponseRoundTrip | http11message.go:221-247 | Marshal of the Unmarshal of a well-formed response gives the response back, body included |
| MessageProperties.RequestSound | http11message.go:193-219 | a parsed request is well formed and its body follows a CRLF at the end of the input; given URI rules that never consume SP, bytes appended to the input are appended to the body and nothing else changes, so the body is exactly what follows the header section, with no length check |
| MessageProperties.RequestExtends | http11message.go:193-219 | bytes appended to a request that parses are appended to its body; method, target, version and field lines stay as they were |
| MessageProperties.ResponseSound | http11message.go:221-247 | a parsed response is well formed and its body follows a CRLF at the end of the input; bytes appended to the input are appended to the body and nothing else changes, so the body is exactly what follows the header section, with no length check |
| MessageProperties.ResponseExtends | http11message.go:221-247 | bytes appended to a response that parses are appended to its body; version, status code, reason phrase and field lines stay as they were |
| MessageProperties.HeaderSectionExtends | http11message.go:202-217 | after a start line, the CRLF, the field-line loop and the final CRLF read appended bytes into the body and nothing else |
| MessageProperties.RequestLineExtends | http11message.go:58-95 | bytes appended after a request line that parses are left over after it, and the line read is unchanged |
| MessageProperties.StatusLineExtends | http11message.go:97-134 | bytes appended after a status line that parses, where the bytes left start outside the reason-phrase bytes, are left over after it, and the line read is unchanged |
| MessageProperties.FieldLineExtends | http11message.go:146-187 | bytes appended after a field line that parses are left over after it, the same line is read, and a field line still opens the buffer |
| MessageProperties.FieldLinesExtends | http11message.go:140-190 | when the field-line loop stops at a CR, appended bytes are left over after it and the same lines are read |
| MessageProperties.FieldLineWsRoundTrip | http11message.go:146-187 | a field line with any SP/HTAB run before and after its value parses to that name and value, the whitespace dropped, followed by the rest |
| MessageProperties.CrLfExtends | http11message.go:202-206 | a CRLF taken by the shortest match opens with CR and is still taken when bytes are appended, which are left over |
| MessageSteps.FieldValueStepBeforeWs | http11message.go:165-175 | a field value followed by whitespace and then a byte outside field-content is taken without the whitespace |
| MessageProperties.RequestIdempotent | http11message.go:193-271 | parsing, serializing and parsing again gives the first parse |
| MessageProperties.ResponseIdempotent | http11message.go:221-295 | parsing, serializing and parsing again gives the first parse |
| MessageProperties.FieldLinesErrors | http11message.go:136-191 | the field-line loop fails only with one of its four field-line errors |
| MessageProperties.RequestErrorSource | http11message.go:193-219 | a request-line failure is the request's failure; after a good request line, only the header-section errors can occur |
| MessageProperties.ResponseErrorSource | http11message.go:221-247 | a status-line failure is the response's failure; after a good status line, only the header-section errors can occur |
| MessageProperties.RequestMethodMissing | http11message.go:61-64 | the request fails with "method not found" iff the buffer does not open with a tchar |
| MessageProperties.EmptyRequestRejected | http11message.go:61-64 | an empty request fails with "method not found" |
| MessageProperties.ResponseVersionMissing | http11message.go:100-103 | the response fails with "http-version not found" iff the buffer does not open with an HTTP-version |
| MessageProperties.EmptyResponseRejected | http11message.go:100-103 | an empty response fails with "http-version not found" |
| MessageProperties.StatusLineOutcome | http11message.go:97-134 | the status line parses iff HTTP-version SP status-code SP opens the buffer and a reason-phrase byte follows; it fails with "reason-phrase not found" iff the opening is there and no such byte follows |
| MessageProperties.ResponseReasonMissing | http11message.go:126-129 | the response fails with "reason-phrase not found" exactly when the status line's reason phrase is empty |
| MessageProperties.EmptyReasonRejected | http11message.go:126-129 | a status line with an empty reason phrase matches the status-line production but the response fails with "reason-phrase not found" |
| MessageProperties.EmptyFieldValueRejected | http11message.go:165-169 | a field line with an empty value matches the field-line production, yet reading it fails with "field-value not found" |
| MessageProperties.RequestStringBytes | http11message.go:297-300 | String of a request holds one character per serialized byte, with that byte's code |
| MessageProperties.ResponseStringBytes | http11message.go:302-305 | String of a response holds one character per serialized byte, with that byte's code |
| Headers.FieldLinesBytesSnoc | http11message.go:260-266 | serializing one more field line appends its bytes to those of the lines before it |
| Headers.AppendFieldLines | http11message.go:260-266 | the serializer's loop appends name ":" SP value CRLF for each field line, in order |
| Headers.FindHeader | http11request.go:105-112 | the lookup returns the value of the first field line with the name, and the empty value when no line has it |
| Headers.NameIsBytes | http11request.go:107 | names are compared byte for byte, so the comparison is case-sensitive |
| RequestVariant.MarshalAgrees | http11request.go:49-74 | the variant Marshal, which takes CRLF by the longest match, gives the same result or error as the shortest-match Marshal on every input |
| RequestVariant.EmptyRejected | http11request.go:21-24 | an empty request fails with "method not found" |
| RequestVariant.BodyIsRest | http11request.go:49-74 | on success the body follows a CRLF at the end of the input; given URI rules that never consume SP, bytes appended to the input are appended to the body and nothing else changes, so the body is exactly what follows the header section |
| RequestVariant.RoundTrip | http11request.go:49-98 | Marshal of the Unmarshal of a well-formed request gives it back |
| RequestVariant.Unmarshal | http11request.go:76-98 | serializes by the same template as the other version |
| RequestVariant.String | http11request.go:100-103 | one character per serialized byte |
| RequestVariant.GetHeader | http11request.go:105-112 | the value of the first field line with that exact name, or empty when none has it |
| ResponseVariant.MarshalIntendedAgrees | http11response.go:48-74 | with the body taken from the bytes after the header section, the variant Marshal agrees with the shortest-match Marshal on every input |
| ResponseVariant.MarshalDropsBody | http11response.go:72 | Marshal as written fails exactly where the intended one does, and otherwise differs only in having an empty body |
| ResponseVariant.BodyLost | http11response.go:49-72 | a serialized well-formed response comes back with its body emptied, so a response with a body never round-trips |
| ResponseVariant.BodyLostExample | http11response.go:72 | "HTTP/1.1 200 OK" CRLF CRLF "A" round-trips by the intended reading but reads back with no body as written |
| ResponseVariant.IntendedBodyIsRest | http11response.go:48-74 | by the intended reading, bytes appended to a response that parses are appended to its body and nothing else changes |
| ResponseVariant.IntendedRoundTrip | http11response.go:48-98 | Marshal as intended inverts Unmarshal for well-formed responses, body included |
| ResponseVariant.EmptyRejected | http11response.go:20-23 | an empty response fails with "http-version not found" |
| ResponseVariant.ReasonMissing | http11response.go:40-43 | Marshal fails with "reason-phrase not found" exactly when the status line opens correctly and its reason phrase is empty |
| ResponseVariant.Unmarshal | http11response.go:76-98 | serializes by the fixed template version SP code SP reason CRLF, field lines, CRLF, body |
| ResponseVariant.String | http11response.go:100-103 | one character per serialized byte |
| ResponseVariant.GetHeader | http11response.go:105-112 | the value of the first field line with that exact name, or empty when none has it |

## Left out

- The URI grammar: host, segment, query, absolute-URI and port come from a separate library that is not part of this model. They are the parameter `UriGrammar`. The request-line lemmas assume only that these rules are local (`UriLocal`). The round trip also assumes that no URI match consumes SP (`UriAvoids`), and boundedness assumes `UriBounded`.
- The combinator library (`abnfp`) is not part of this model. Its operators are defined by their RFC 5234 meaning. `ParseLongest` and `Parse` commit to the largest offset in the buffer, and parse nothing when the set is empty or holds only 0. `ParseShortest` commits to the smallest offset. A repeated element that matches the empty prefix adds no offset, and a concatenation never reads past the buffer (where the Go code would panic).
- The object-style finders (`NewMethodFinder`, `NewSpFinder`, ...) used by the second variant are taken to be the corresponding `Find...` functions.
- The debug `fmt.Printf` at http11request.go:66 is I/O and is not modelled.
- Marshal writes fields into its receiver as it goes, so a failed Marshal can leave some fields set. The model returns a `Result` instead and says nothing about a receiver after a failure.
- Go's nil slice and empty slice are both the empty sequence. `GetHeader` returning nil is modelled as returning `[]`, which cannot be told apart from a matched empty value, as in Go.
- Go's `string(bytes)` is modelled as one character per byte, with the byte's value as its code. Go strings are byte strings, so the model takes header names as texts of single-byte characters (`Headers.NameIsBytes`).
- The cost of set-based matching (time, memory) is not functional behaviour and is not modelled.
- The two variants define the same Go names in one package, which cannot compile together. Here they are separate modules, and the clash is not modelled.
- GrammarProperties.FieldLineNonEmpty: states which buffers field-line matches at all, not the full set of field-line offsets. The message layer only asks whether that set is empty.
- Abnf.Concatenation: boundedness is stated for every concatenation once, not repeated per production. Productions that are a bare URI rule (uri-host, absolute-form) are bounded only under `UriBounded`.

## Findings

| source | as written | input that shows it | evidently intended | confidence | as-written member | corrected member |
|---|---|---|---|---|---|---|
| http11response.go:72 | the body is set from `result.Remaining`, where `result` is declared at line 49 and never assigned, so the body is always empty | "HTTP/1.1 200 OK" CRLF CRLF "A" parses with an empty body instead of "A" | the body is the bytes after the CRLF that ends the header section (`remaining`), as in http11message.go:245 and http11request.go:72 | not executed | ResponseVariant.BodyLost | ResponseVariant.IntendedRoundTrip |
