/**
 * The two loops both message variants share: appending the serialized
 * field lines one after another, and looking a header up by name.
 */
module Headers {
  import opened Abnf
  import opened Grammar
  import opened Message

  /** Serializing one more field line extends the bytes of the lines before it. */
  lemma {:induction false} FieldLinesBytesSnoc(ls: seq<FieldLine>, l: FieldLine)
    ensures FieldLinesBytes(ls + [l]) == FieldLinesBytes(ls) + FieldLineBytes(l)
    decreases |ls|
  {
    if |ls| == 0 {
      assert ls + [l] == [l];
      assert FieldLinesBytes([l]) == FieldLineBytes(l) + FieldLinesBytes([]);
    } else {
      assert (ls + [l])[1..] == ls[1..] + [l];
      FieldLinesBytesSnoc(ls[1..], l);
    }
  }

  /**
   * The serializer's loop: each field line appended as name ":" SP value
   * CRLF, in order, after the bytes already emitted.
   */
  method AppendFieldLines(data: seq<byte>, ls: seq<FieldLine>) returns (out: seq<byte>)
    ensures out == data + FieldLinesBytes(ls)
  {
    out := data;
    var i := 0;
    while i < |ls|
      invariant 0 <= i <= |ls|
      invariant out == data + FieldLinesBytes(ls[..i])
    {
      var l := ls[i];
      out := out + l.fieldName + [COLON] + [SP] + l.fieldValue + CRLF;
      FieldLinesBytesSnoc(ls[..i], l);
      assert ls[..i + 1] == ls[..i] + [l];
      i := i + 1;
    }
    assert ls[..|ls|] == ls;
  }

  /** Whether the field line's name, read as a string, is the name looked up. */
  predicate NameIs(l: FieldLine, name: string)
  {
    BytesToString(l.fieldName) == name
  }

  /**
   * GetHeader: the value of the first field line whose name is the name
   * looked up, or the empty value when no line has that name.
   */
  method FindHeader(ls: seq<FieldLine>, name: string) returns (value: seq<byte>)
    ensures forall i ::
              0 <= i < |ls| && NameIs(ls[i], name) && (forall j :: 0 <= j < i ==> !NameIs(ls[j], name))
              ==> value == ls[i].fieldValue
    ensures (forall i :: 0 <= i < |ls| ==> !NameIs(ls[i], name)) ==> value == []
  {
    var i := 0;
    while i < |ls|
      invariant 0 <= i <= |ls|
      invariant forall j :: 0 <= j < i ==> !NameIs(ls[j], name)
    {
      if BytesToString(ls[i].fieldName) == name {
        return ls[i].fieldValue;
      }
      i := i + 1;
    }
    return [];
  }

  /** Names are compared byte for byte: a name of single-byte characters matches exactly its own bytes. */
  lemma NameIsBytes(l: FieldLine, name: string)
    requires forall i :: 0 <= i < |name| ==> name[i] as int < 256
    ensures NameIs(l, name) <==> l.fieldName == StringToBytes(name)
  {
    if l.fieldName == StringToBytes(name) {
      assert BytesToString(l.fieldName) == name;
    }
    if NameIs(l, name) {
      forall i | 0 <= i < |name| ensures l.fieldName[i] == StringToBytes(name)[i] {
        assert BytesToString(l.fieldName)[i] == name[i];
      }
    }
  }
}
