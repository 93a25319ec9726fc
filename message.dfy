/** The framing shared by requests and responses (section 2.1 of
    RFC 9112): after the start line come field lines `name: value`, each
    ended by CRLF, then an empty line, then the body. */
module Message {
  import opened Wrappers
  import opened Text

  /** One header field line, `name: value` and its CRLF. */
  function FieldLine(field: (string, string)): string {
    field.0 + ": " + field.1 + CRLF
  }

  /** The field lines of `headers`, in list order. */
  function FieldBlock(headers: seq<(string, string)>): string {
    if headers == [] then ""
    else FieldBlock(headers[..|headers| - 1]) + FieldLine(headers[|headers| - 1])
  }

  /** The field block of a concatenation is the concatenation of the blocks:
      nothing is reordered, merged or dropped. */
  lemma {:induction false} FieldBlockAppend(a: seq<(string, string)>, b: seq<(string, string)>)
    ensures FieldBlock(a + b) == FieldBlock(a) + FieldBlock(b)
    decreases |b|
  {
    if b != [] {
      var last := |b| - 1;
      assert (a + b)[..|a + b| - 1] == a + b[..last];
      FieldBlockAppend(a, b[..last]);
    } else {
      assert a + b == a;
    }
  }

  /** The first field line comes first in the text. */
  lemma FieldBlockCons(field: (string, string), rest: seq<(string, string)>)
    ensures FieldBlock([field] + rest) == FieldLine(field) + FieldBlock(rest)
  {
    FieldBlockAppend([field], rest);
    assert [field][..0] == [];
  }

  // Reading field lines back

  /** A field that a reader can recover from its line: no carriage return in
      the name or value, and no ": " inside the name. */
  predicate RecoverableField(field: (string, string)) {
    '\r' !in field.0 && '\r' !in field.1 && !Contains(field.0, ": ")
  }

  /** Every field of the list is recoverable. */
  predicate AllRecoverable(fields: seq<(string, string)>) {
    forall i :: 0 <= i < |fields| ==> RecoverableField(fields[i])
  }

  /** The field lines up to the empty line, and the body after it. */
  function ReadFields(text: string): Option<(seq<(string, string)>, string)>
    decreases |text|
  {
    if |text| >= 2 && text[..2] == CRLF then Some(([], text[2..]))
    else
      match SplitOnce(text, CRLF)
      case None => None
      case Some(split) =>
        match SplitOnce(split.0, ": ")
        case None => None
        case Some(field) =>
          match ReadFields(split.1)
          case None => None
          case Some(tail) => Some(([field] + tail.0, tail.1))
  }

  /** Reading a field block back, up to its empty line, recovers the list
      of fields, in order, and the body that follows. */
  lemma {:induction false} ReadFieldBlock(headers: seq<(string, string)>, body: string)
    requires forall i :: 0 <= i < |headers| ==> RecoverableField(headers[i])
    ensures ReadFields(FieldBlock(headers) + CRLF + body) == Some((headers, body))
    decreases |headers|
  {
    if headers == [] {
      assert FieldBlock(headers) + CRLF + body == CRLF + body;
    } else {
      var field, rest := headers[0], headers[1..];
      assert headers == [field] + rest;
      FieldBlockCons(field, rest);
      var line := field.0 + ": " + field.1;
      var after := FieldBlock(rest) + CRLF + body;
      var text := FieldBlock(headers) + CRLF + body;
      assert text == line + CRLF + after;
      assert text[0] != '\r' by {
        if |field.0| > 0 { assert text[0] == field.0[0]; } else { assert text[0] == ':'; }
      }
      SplitOnceLine(line, after);
      SplitOnceField(field.0, field.1);
      ReadFieldBlock(rest, body);
    }
  }

  /** A reader of a whole message: the start line up to the first CRLF, the
      field lines up to the empty line, and the body after it. */
  function ReadMessage(text: string): Option<(string, seq<(string, string)>, string)> {
    match SplitOnce(text, CRLF)
    case None => None
    case Some(split) =>
      match ReadFields(split.1)
      case None => None
      case Some(fields) => Some((split.0, fields.0, fields.1))
  }

  /** A message written as start line, CRLF, field lines, CRLF and body reads
      back as exactly those parts, when no part but the body holds a carriage
      return and no name holds ": ". */
  lemma MessageRoundTrip(start: string, fields: seq<(string, string)>, body: string)
    requires '\r' !in start
    requires AllRecoverable(fields)
    ensures ReadMessage(start + CRLF + FieldBlock(fields) + CRLF + body) == Some((start, fields, body))
  {
    var after := FieldBlock(fields) + CRLF + body;
    var text := start + CRLF + FieldBlock(fields) + CRLF + body;
    assert text == start + CRLF + after;
    SplitOnceLine(start, after);
    assert SplitOnce(text, CRLF) == Some((start, after));
    ReadFieldBlock(fields, body);
    assert ReadFields(after) == Some((fields, body));
  }
}
