/** internal/server/handler.go: the error a handler returns, and the plain
    text response the server sends for it. */
module Server {
  import opened Results
  import opened Wire
  import opened Sinks
  import opened HeaderFields
  import opened StatusLines
  import opened ResponseHeaders

  /** HandlerError: a status code and a message for the body. */
  datatype HandlerError = HandlerError(code: StatusCode, message: string)

  /** The whole error response when the sink takes it all: status line,
      default headers for the message's length, the message. `order` is the
      order the map gave up its keys in. */
  function ErrorResponse(he: HandlerError, order: seq<string>): (r: string)
    requires IsOrdering(DefaultFields(|he.message|), order)
    ensures ReadStatusLine(r) == Some((he.code, Reason(he.code), |StatusLine(he.code)|))
    ensures |he.message| <= |r| && r[|r| - |he.message|..] == he.message
  {
    var block := HeaderBlock(DefaultFields(|he.message|), order);
    StatusLineReadsBack(he.code, block + he.message);
    assert StatusLine(he.code) + block + he.message == StatusLine(he.code) + (block + he.message);
    StatusLine(he.code) + block + he.message
  }

  /** respondWithError: three writes whose errors are ignored. What reaches
      the sink is the prefix of the whole response it has room for. */
  method RespondWithError(he: HandlerError, w: Sink) returns (ghost order: seq<string>)
    modifies w
    ensures IsOrdering(DefaultFields(|he.message|), order)
    ensures var out := ErrorResponse(he, order);
            var n := Min(|out|, old(w.room));
            w.bytes == old(w.bytes) + out[..n] && w.room == old(w.room) - n
  {
    ghost var room0, bytes0 := w.room, w.bytes;
    var _ := WriteStatusLine(w, he.code);
    ghost var room1, bytes1 := w.room, w.bytes;
    var messageBytes := he.message;
    var headers := GetDefaultHeaders(|messageBytes|);
    var _, o := WriteHeaders(w, headers.fields);
    order := o;
    ghost var room2, bytes2 := w.room, w.bytes;
    var _, _ := w.Write(messageBytes);
    ThreeWrites(StatusLine(he.code), HeaderBlock(headers.fields, order), messageBytes,
                room0, room1, room2, w.room, bytes0, bytes1, bytes2, w.bytes);
  }

  /** Three writes in a row leave what one write of all three pieces would. */
  lemma ThreeWrites(a: string, b: string, c: string, room0: nat, room1: nat, room2: nat, room3: nat,
                    bytes0: string, bytes1: string, bytes2: string, bytes3: string)
    requires bytes1 == bytes0 + a[..Min(|a|, room0)] && room1 == room0 - Min(|a|, room0)
    requires bytes2 == bytes1 + b[..Min(|b|, room1)] && room2 == room1 - Min(|b|, room1)
    requires bytes3 == bytes2 + c[..Min(|c|, room2)] && room3 == room2 - Min(|c|, room2)
    ensures var n := Min(|a + b + c|, room0);
            bytes3 == bytes0 + (a + b + c)[..n] && room3 == room0 - n
  {
    WritesCompose(a, b, room0);
    WritesCompose(a + b, c, room0);
  }

  /** What a client reads back from a status line, a header block and a body. */
  lemma ResponseReadsBack(code: StatusCode, fields: map<string, string>, order: seq<string>, body: string, resp: string)
    requires IsOrdering(fields, order) && IsPlainFields(fields)
    requires resp == StatusLine(code) + HeaderBlock(fields, order) + body
    ensures var line := StatusLine(code);
            var block := HeaderBlock(fields, order);
            && ReadStatusLine(resp) == Some((code, Reason(code), |line|))
            && ReadsAs(map[], resp[|line|..], fields, |block|)
            && resp[|line| + |block|..] == body
  {
    var line := StatusLine(code);
    var block := HeaderBlock(fields, order);
    assert resp == line + (block + body);
    StatusLineReadsBack(code, block + body);
    assert resp[|line|..] == block + body;
    BlockReadsBack(fields, order, body);
  }

  /** A client reading the error response gets back the code and its phrase
      from the status line, exactly the default fields from the header
      section, a content-length that is the message's length, and the
      message as the rest of the bytes. */
  lemma ErrorResponseReadsBack(he: HandlerError, order: seq<string>)
    requires IsOrdering(DefaultFields(|he.message|), order)
    ensures var line := StatusLine(he.code);
            var fields := DefaultFields(|he.message|);
            var block := HeaderBlock(fields, order);
            var resp := ErrorResponse(he, order);
            && ReadStatusLine(resp) == Some((he.code, Reason(he.code), |line|))
            && ReadsAs(map[], resp[|line|..], fields, |block|)
            && resp[|line| + |block|..] == he.message
            && "content-length" in fields && DecimalValue(fields["content-length"]) == |he.message|
  {
    DefaultFieldsPlain(|he.message|);
    ResponseReadsBack(he.code, DefaultFields(|he.message|), order, he.message, ErrorResponse(he, order));
    DefaultContentLength(|he.message|);
  }

  /** The default fields announce the length they were built for. */
  lemma DefaultContentLength(n: nat)
    ensures "content-length" in DefaultFields(n) && DecimalValue(DefaultFields(n)["content-length"]) == n
  {
    DecimalRoundTrip(n);
  }

  /** The response's length, whatever order the headers came out in. */
  lemma ErrorResponseLength(he: HandlerError, order: seq<string>)
    requires IsOrdering(DefaultFields(|he.message|), order)
    ensures |ErrorResponse(he, order)| ==
              |StatusLine(he.code)| + FieldsSize(DefaultFields(|he.message|)) + 2 + |he.message|
  {
    BlockSizeAnyOrder(DefaultFields(|he.message|), order);
  }
}
