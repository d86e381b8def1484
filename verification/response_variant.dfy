/**
 * The response as the second variant of the message layer defines it:
 * every element, CRLF included, is taken by the longest match, and the
 * status line and field lines are read by the same steps as in module
 * Message.  Its Marshal stores as the body the remainder of a parse result
 * that nothing ever assigns, so the body always comes back empty; the
 * intended reading, the bytes after the header section, is modelled beside it.
 */
module ResponseVariant {
  import opened Abnf
  import opened Grammar
  import opened Message
  import opened MessageSteps
  import opened MessageProperties
  import opened Headers

  /** What the parse steps read: the status line, the field lines, and the bytes after the final CRLF. */
  datatype Sections = Sections(line: StatusLine, fieldLines: seq<FieldLine>, rest: seq<byte>)

  /** The steps both readings share: status line, CRLF, field lines, CRLF. */
  function ReadSections(data: seq<byte>): Result<Sections>
  {
    var line :- MarshalStatusLine(data);
    var crlf1 :- TakeLongest(line.remaining, FindCrLf, "CRLF after request-line not found");
    var fields :- MarshalFieldLines(crlf1.remaining);
    var crlf2 :- TakeLongest(fields.remaining, FindCrLf, "CRLF before message-body not found");
    Success(Sections(line.value, fields.value, crlf2.remaining))
  }

  /** Marshal as written: the body is the remainder of a parse result nothing assigns, so it is empty. */
  function Marshal(data: seq<byte>): Result<Response>
  {
    var s :- ReadSections(data);
    Success(Response(s.line.httpVersion, s.line.statusCode, s.line.reasonPhrase, s.fieldLines, []))
  }

  /** Marshal as intended: the bytes after the CRLF that ends the header section are the body. */
  function MarshalIntended(data: seq<byte>): Result<Response>
  {
    var s :- ReadSections(data);
    Success(Response(s.line.httpVersion, s.line.statusCode, s.line.reasonPhrase, s.fieldLines, s.rest))
  }

  /**
   * The intended Marshal, with CRLF taken by the longest match, parses
   * every input exactly as the shortest-match one does, errors included.
   */
  lemma MarshalIntendedAgrees(data: seq<byte>)
    ensures MarshalIntended(data) == MarshalResponse(data)
  {
    var line := MarshalStatusLine(data);
    if line.Success? {
      var rest := line.value.remaining;
      CrLfLongestStep(rest, "CRLF after request-line not found");
      var crlf1 := TakeShortest(rest, FindCrLf, "CRLF after request-line not found");
      if crlf1.Success? {
        var fields := MarshalFieldLines(crlf1.value.remaining);
        if fields.Success? {
          CrLfLongestStep(fields.value.remaining, "CRLF before message-body not found");
        }
      }
    }
  }

  /** Marshal as written fails exactly where the intended one does and otherwise differs only in the body. */
  lemma MarshalDropsBody(data: seq<byte>)
    ensures Marshal(data).Failure? <==> MarshalIntended(data).Failure?
    ensures Marshal(data).Failure? ==> Marshal(data).error == MarshalIntended(data).error
    ensures Marshal(data).Success? ==> Marshal(data).value == MarshalIntended(data).value.(messageBody := [])
  {
  }

  /**
   * The intended Marshal takes everything after the header section as the
   * body: bytes appended to a response that parses are appended to its
   * body and change nothing else.
   */
  lemma IntendedBodyIsRest(data: seq<byte>)
    requires MarshalIntended(data).Success?
    ensures var r := MarshalIntended(data).value;
      forall e :: MarshalIntended(data + e) == Success(r.(messageBody := r.messageBody + e))
  {
    MarshalIntendedAgrees(data);
    ResponseSound(data);
    forall e ensures MarshalIntended(data + e) == MarshalResponse(data + e) {
      MarshalIntendedAgrees(data + e);
    }
  }

  /** Parsing a serialized well-formed response by the intended Marshal gives it back, body included. */
  lemma IntendedRoundTrip(r: Response)
    requires WellFormedResponse(r)
    ensures MarshalIntended(UnmarshalResponse(r)) == Success(r)
  {
    MarshalIntendedAgrees(UnmarshalResponse(r));
    ResponseRoundTrip(r);
  }

  /**
   * Marshal as written loses every body: a serialized well-formed response
   * comes back with its body emptied, so one with a body never round-trips.
   */
  lemma BodyLost(r: Response)
    requires WellFormedResponse(r)
    ensures Marshal(UnmarshalResponse(r)) == Success(r.(messageBody := []))
    ensures |r.messageBody| > 0 ==> Marshal(UnmarshalResponse(r)) != Success(r)
  {
    IntendedRoundTrip(r);
    MarshalDropsBody(UnmarshalResponse(r));
  }

  /** "HTTP/1.1 200 OK" CRLF CRLF "A": Marshal as written reads no body. */
  lemma BodyLostExample()
    ensures var r := Response([0x48, 0x54, 0x54, 0x50, 0x2F, 0x31, 0x2E, 0x31], [0x32, 0x30, 0x30], [0x4F, 0x4B], [], [0x41]);
      && MarshalIntended(UnmarshalResponse(r)) == Success(r)
      && Marshal(UnmarshalResponse(r)).Success?
      && Marshal(UnmarshalResponse(r)).value.messageBody == []
  {
    var r := Response([0x48, 0x54, 0x54, 0x50, 0x2F, 0x31, 0x2E, 0x31], [0x32, 0x30, 0x30], [0x4F, 0x4B], [], [0x41]);
    assert r.httpVersion[..4] == HTTP_NAME;
    BodyLost(r);
    IntendedRoundTrip(r);
  }

  /** An empty response fails with "http-version not found". */
  lemma EmptyRejected()
    ensures Marshal([]) == Failure("http-version not found")
  {
    MarshalDropsBody([]);
    MarshalIntendedAgrees([]);
    EmptyResponseRejected();
  }

  /**
   * Marshal fails with "reason-phrase not found" exactly when HTTP-version SP
   * status-code SP opens the input and no text byte follows.
   */
  lemma ReasonMissing(data: seq<byte>)
    ensures Marshal(data) == Failure("reason-phrase not found") <==>
      IsStatusLineOpening(data) && Run(IsTextByte, data[13..]) == 0
  {
    MarshalDropsBody(data);
    MarshalIntendedAgrees(data);
    ResponseReasonMissing(data);
  }

  /** Unmarshal: the status line, the field lines appended in order, CRLF and the body. */
  method Unmarshal(resp: Response) returns (data: seq<byte>)
    ensures data == UnmarshalResponse(resp)
  {
    data := resp.httpVersion + [SP] + resp.statusCode + [SP] + resp.reasonPhrase + CRLF;
    data := AppendFieldLines(data, resp.fieldLines);
    data := data + CRLF + resp.messageBody;
  }

  /** String: the serialized bytes, one character per byte. */
  method String(resp: Response) returns (s: string)
    ensures |s| == |UnmarshalResponse(resp)|
    ensures forall i :: 0 <= i < |s| ==> s[i] as int == UnmarshalResponse(resp)[i]
  {
    var data := Unmarshal(resp);
    s := BytesToString(data);
    BytesStringRoundTrip(data);
  }

  /** GetHeader: the first field line with that exact name, or the empty value. */
  method GetHeader(resp: Response, name: string) returns (value: seq<byte>)
    ensures forall i ::
              0 <= i < |resp.fieldLines| && NameIs(resp.fieldLines[i], name)
              && (forall j :: 0 <= j < i ==> !NameIs(resp.fieldLines[j], name))
              ==> value == resp.fieldLines[i].fieldValue
    ensures (forall i :: 0 <= i < |resp.fieldLines| ==> !NameIs(resp.fieldLines[i], name)) ==> value == []
  {
    value := FindHeader(resp.fieldLines, name);
  }
}
