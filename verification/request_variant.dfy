/**
 * The request as the second variant of the message layer defines it: every
 * element, CRLF included, is taken by the longest match, and the request
 * line and field lines are read by the same steps as in module Message.
 * It adds the header lookup.
 */
module RequestVariant {
  import opened Abnf
  import opened Grammar
  import opened Message
  import opened MessageSteps
  import opened MessageProperties
  import opened Headers

  /** Marshal: request line, CRLF, field lines, CRLF, and the rest as the body. */
  function Marshal(u: UriGrammar, data: seq<byte>): Result<Request>
  {
    var line :- MarshalRequestLine(u, data);
    var crlf1 :- TakeLongest(line.remaining, FindCrLf, "CRLF after request-line not found");
    var fields :- MarshalFieldLines(crlf1.remaining);
    var crlf2 :- TakeLongest(fields.remaining, FindCrLf, "CRLF before message-body not found");
    Success(Request(line.value.requestMethod, line.value.requestTarget, line.value.httpVersion,
                    fields.value, crlf2.remaining))
  }

  /**
   * Taking CRLF by the longest match changes nothing: this Marshal parses
   * every input exactly as the shortest-match one does, errors included.
   */
  lemma MarshalAgrees(u: UriGrammar, data: seq<byte>)
    ensures Marshal(u, data) == MarshalRequest(u, data)
  {
    var line := MarshalRequestLine(u, data);
    if line.Success? {
      var rest := line.value.remaining;
      CrLfLongestStep(rest, "CRLF after request-line not found");
      var crlf1 := TakeShortest(rest, FindCrLf, "CRLF after request-line not found");
      if crlf1.Success? {
        var fields := MarshalFieldLines(crlf1.value.remaining);
        if fields.Success? {
          CrLfLongestStep(fields.value.remaining, "CRLF before message-body not found");
        }
      }
    }
  }

  /** An empty request fails with "method not found". */
  lemma EmptyRejected(u: UriGrammar)
    ensures Marshal(u, []) == Failure("method not found")
  {
    MarshalAgrees(u, []);
    EmptyRequestRejected(u);
  }

  /**
   * A parsed request's body follows a CRLF at the end of the input, and it
   * is exactly what follows the header section, whatever its length: bytes
   * appended to the input are appended to the body and change nothing else
   * (given URI rules that never consume SP).
   */
  lemma BodyIsRest(u: UriGrammar, data: seq<byte>)
    requires UriLocal(u) && Marshal(u, data).Success?
    ensures IsSuffix(CRLF + Marshal(u, data).value.messageBody, data)
    ensures var r := Marshal(u, data).value;
      UriAvoids(u, SP) ==> forall e :: Marshal(u, data + e) == Success(r.(messageBody := r.messageBody + e))
  {
    MarshalAgrees(u, data);
    RequestSound(u, data);
    forall e ensures Marshal(u, data + e) == MarshalRequest(u, data + e) {
      MarshalAgrees(u, data + e);
    }
  }

  /** Parsing a serialized well-formed request gives it back, body included. */
  lemma RoundTrip(u: UriGrammar, r: Request)
    requires UriLocal(u) && UriAvoids(u, SP) && WellFormedRequest(u, r)
    ensures Marshal(u, UnmarshalRequest(r)) == Success(r)
  {
    MarshalAgrees(u, UnmarshalRequest(r));
    RequestRoundTrip(u, r);
  }

  /** Unmarshal: the start line, the field lines appended in order, CRLF and the body. */
  method Unmarshal(req: Request) returns (data: seq<byte>)
    ensures data == UnmarshalRequest(req)
  {
    data := req.requestMethod + [SP] + req.requestTarget + [SP] + req.httpVersion + CRLF;
    data := AppendFieldLines(data, req.fieldLines);
    data := data + CRLF + req.messageBody;
  }

  /** String: the serialized bytes, one character per byte. */
  method String(req: Request) returns (s: string)
    ensures |s| == |UnmarshalRequest(req)|
    ensures forall i :: 0 <= i < |s| ==> s[i] as int == UnmarshalRequest(req)[i]
  {
    var data := Unmarshal(req);
    s := BytesToString(data);
    BytesStringRoundTrip(data);
  }

  /** GetHeader: the first field line with that exact name, or the empty value. */
  method GetHeader(req: Request, name: string) returns (value: seq<byte>)
    ensures forall i ::
              0 <= i < |req.fieldLines| && NameIs(req.fieldLines[i], name)
              && (forall j :: 0 <= j < i ==> !NameIs(req.fieldLines[j], name))
              ==> value == req.fieldLines[i].fieldValue
    ensures (forall i :: 0 <= i < |req.fieldLines| ==> !NameIs(req.fieldLines[i], name)) ==> value == []
  {
    value := FindHeader(req.fieldLines, name);
  }
}
