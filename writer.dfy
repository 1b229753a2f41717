/** internal/response/writer.go: a response writer whose `state` field holds
    it to the order status line, headers, body, trailers. Every method
    checks the state first; a call out of order is refused and writes
    nothing. An accepted call moves to its next state even when the write
    behind it falls short, as the deferred assignments in the source do. */
module ResponseWriter {
  import opened Results
  import opened Wire
  import opened Sinks
  import opened StatusLines
  import opened ResponseHeaders

  datatype WriterState = StatusLineState | HeadersState | BodyState | TrailersState

  /** The position of a state in the fixed order. */
  function Rank(s: WriterState): nat {
    match s
    case StatusLineState => 0
    case HeadersState => 1
    case BodyState => 2
    case TrailersState => 3
  }

  datatype WriterError =
    | OutOfOrder(want: WriterState, got: WriterState)   // "Called write functions out of order"
    | WriteFailed(cause: WriteError)

  function FromSink(e: Option<WriteError>): Option<WriterError> {
    match e
    case None => None
    case Some(c) => Some(WriteFailed(c))
  }

  /** The reason table WriteStatusLine declares for itself. */
  const WriterReasonPhrases: map<StatusCode, string> :=
    map[StatusOK := "OK", StatusBadRequest := "Bad Request", StatusServerError := "Internal Server Error"]

  function WriterStatusLine(code: StatusCode): string {
    var info := if code in WriterReasonPhrases then WriterReasonPhrases[code] else "";
    "HTTP/1.1 " + Decimal(code) + " " + info + CRLF
  }

  /** The last chunk of section 7.1 of RFC 9112, without the trailer
      section and final CRLF that WriteTrailers supplies. */
  const LastChunk: string := "0\r\n"

  // ---------------------------------------------------------------------------
  // The six calls, as data

  datatype Call =
    | StatusLineCall(code: StatusCode)
    | HeadersCall(fields: map<string, string>, order: seq<string>)
    | BodyCall(body: string)
    | ChunkCall(chunk: string)
    | ChunkEndCall
    | TrailersCall(trailers: map<string, string>, trailerOrder: seq<string>)

  /** A header or trailer call names only keys of its map. */
  predicate WellFormedCall(c: Call) {
    match c
    case HeadersCall(m, order) => forall i :: 0 <= i < |order| ==> order[i] in m
    case TrailersCall(m, order) => forall i :: 0 <= i < |order| ==> order[i] in m
    case _ => true
  }

  /** The state a call requires. */
  function Wants(c: Call): WriterState {
    match c
    case StatusLineCall(_) => StatusLineState
    case HeadersCall(_, _) => HeadersState
    case BodyCall(_) => BodyState
    case ChunkCall(_) => BodyState
    case ChunkEndCall => BodyState
    case TrailersCall(_, _) => TrailersState
  }

  /** The state an accepted call leaves behind. */
  function After(c: Call): WriterState {
    match c
    case StatusLineCall(_) => HeadersState
    case HeadersCall(_, _) => BodyState
    case BodyCall(_) => TrailersState
    case ChunkCall(_) => BodyState
    case ChunkEndCall => TrailersState
    case TrailersCall(_, _) => TrailersState
  }

  /** The writes an accepted call makes, in order. */
  function Pieces(c: Call): seq<string>
    requires WellFormedCall(c)
  {
    match c
    case StatusLineCall(code) => [WriterStatusLine(code)]
    case HeadersCall(m, order) => [HeaderBlock(m, order)]
    case BodyCall(p) => [p]
    case ChunkCall(p) => [Hex(|p|) + CRLF, p, CRLF]
    case ChunkEndCall => [LastChunk]
    case TrailersCall(m, order) => [HeaderBlock(m, order)]
  }

  function Concat(ps: seq<string>): string
    decreases |ps|
  {
    if ps == [] then "" else ps[0] + Concat(ps[1..])
  }

  lemma ConcatOne(p: string)
    ensures Concat([p]) == p
  {
    assert [p][1..] == [];
  }

  /** The bytes an accepted call writes when the sink takes them all. */
  function Output(c: Call): string
    requires WellFormedCall(c)
  {
    Concat(Pieces(c))
  }

  /** The byte count WriteChunkedBody reports: the lengths of the writes that
      went through whole before the first short one. */
  function Completed(ps: seq<string>, room: nat): nat
    decreases |ps|
  {
    if ps == [] then 0
    else if |ps[0]| <= room then |ps[0]| + Completed(ps[1..], room - |ps[0]|)
    else 0
  }

  // ---------------------------------------------------------------------------
  // The writer

  class Writer {
    var state: WriterState
    const w: Sink

    /** NewWriter. */
    constructor (w: Sink)
      ensures state == StatusLineState && this.w == w
    {
      state := StatusLineState;
      this.w := w;
    }

    /** What every method promises for its call `c`. Out of order: the
        ordering error, the state and the sink as they were. In order: the
        call's bytes, as many as the sink takes, and the call's next state
        whether or not the write went through. */
    twostate predicate Did(c: Call, new err: Option<WriterError>)
      requires WellFormedCall(c)
      reads this, w
    {
      if old(state) != Wants(c) then
        && err == Some(OutOfOrder(Wants(c), old(state)))
        && state == old(state) && w.bytes == old(w.bytes) && w.room == old(w.room)
      else
        var out := Output(c);
        var n := Min(|out|, old(w.room));
        && state == After(c)
        && w.bytes == old(w.bytes) + out[..n] && w.room == old(w.room) - n
        && (err.None? <==> n == |out|)
    }

    method WriteStatusLine(code: StatusCode) returns (err: Option<WriterError>)
      modifies this, w
      ensures Did(StatusLineCall(code), err)
    {
      if state != StatusLineState {
        return Some(OutOfOrder(StatusLineState, state));
      }
      var info := if code in WriterReasonPhrases then WriterReasonPhrases[code] else "";
      var line := "HTTP/1.1 " + Decimal(code) + " " + info + CRLF;
      var _, e := w.Write(line);
      ConcatOne(line);
      state := HeadersState;
      return FromSink(e);
    }

    method WriteHeaders(fields: map<string, string>) returns (err: Option<WriterError>, ghost order: seq<string>)
      modifies this, w
      ensures WellFormedCall(HeadersCall(fields, order))
      ensures old(state) == HeadersState ==> IsOrdering(fields, order)
      ensures Did(HeadersCall(fields, order), err)
    {
      if state != HeadersState {
        return Some(OutOfOrder(HeadersState, state)), [];
      }
      var block;
      block, order := SerializeFields(fields);
      var _, e := w.Write(block);
      ConcatOne(block);
      state := BodyState;
      return FromSink(e), order;
    }

    method WriteBody(p: string) returns (n: nat, err: Option<WriterError>)
      modifies this, w
      ensures Did(BodyCall(p), err)
      ensures n == if old(state) == BodyState then Min(|p|, old(w.room)) else 0
    {
      if state != BodyState {
        return 0, Some(OutOfOrder(BodyState, state));
      }
      var e;
      n, e := w.Write(p);
      ConcatOne(p);
      state := TrailersState;
      return n, FromSink(e);
    }

    /** One chunk: its size in hex and CRLF, the bytes, CRLF, as three
        writes; the first short write ends the call. The state stays at
        the body. */
    method WriteChunkedBody(p: string) returns (n: nat, err: Option<WriterError>)
      modifies w
      ensures Did(ChunkCall(p), err)
      ensures n == if old(state) == BodyState then Completed(Pieces(ChunkCall(p)), old(w.room)) else 0
    {
      if state != BodyState {
        return 0, Some(OutOfOrder(BodyState, state));
      }
      var size := Hex(|p|) + CRLF;
      ConcatThree(size, p, CRLF);
      n, err := WriteInTurn(w, size, p, CRLF);
    }

    method WriteChunkedBodyEnd() returns (n: nat, err: Option<WriterError>)
      modifies this, w
      ensures Did(ChunkEndCall, err)
      ensures n == if old(state) == BodyState then Min(|LastChunk|, old(w.room)) else 0
    {
      if state != BodyState {
        return 0, Some(OutOfOrder(BodyState, state));
      }
      var e;
      n, e := w.Write(LastChunk);
      ConcatOne(LastChunk);
      state := TrailersState;
      return n, FromSink(e);
    }

    /** The trailer block, in header format; the state is left at trailers. */
    method WriteTrailers(trailers: map<string, string>) returns (err: Option<WriterError>, ghost order: seq<string>)
      modifies w
      ensures WellFormedCall(TrailersCall(trailers, order))
      ensures old(state) == TrailersState ==> IsOrdering(trailers, order)
      ensures Did(TrailersCall(trailers, order), err)
    {
      if state != TrailersState {
        return Some(OutOfOrder(TrailersState, state)), [];
      }
      var block;
      block, order := SerializeFields(trailers);
      var _, e := w.Write(block);
      ConcatOne(block);
      return FromSink(e), order;
    }
  }

  /** The three writes of WriteChunkedBody: `a`, `b`, `c` in turn, stopping
      at the first that falls short. The count is that of the writes that
      went through whole, as the source returns before adding a short one. */
  method WriteInTurn(w: Sink, a: string, b: string, c: string) returns (n: nat, err: Option<WriterError>)
    modifies w
    ensures var out := a + b + c;
            var k := Min(|out|, old(w.room));
            && w.bytes == old(w.bytes) + out[..k] && w.room == old(w.room) - k
            && (err.None? <==> k == |out|)
            && n == Completed([a, b, c], old(w.room))
  {
    ghost var room := w.room;
    CompletedThree(a, b, c, room);
    WritesCompose(a, b, room);
    WritesCompose(a + b, c, room);
    var bytesWritten := 0;
    var k, e := w.Write(a);
    if e.Some? {
      return bytesWritten, FromSink(e);
    }
    bytesWritten := bytesWritten + k;
    k, e := w.Write(b);
    if e.Some? {
      return bytesWritten, FromSink(e);
    }
    bytesWritten := bytesWritten + k;
    k, e := w.Write(c);
    if e.Some? {
      return bytesWritten, FromSink(e);
    }
    bytesWritten := bytesWritten + k;
    return bytesWritten, None;
  }

  lemma ConcatThree(a: string, b: string, c: string)
    ensures Concat([a, b, c]) == a + b + c
  {
    var ps := [a, b, c];
    assert ps[1..] == [b, c] && ps[1..][1..] == [c] && ps[1..][1..][1..] == [];
    assert Concat([c]) == c;
    assert Concat([b, c]) == b + c;
  }

  lemma CompletedThree(a: string, b: string, c: string, room: nat)
    ensures Completed([a, b, c], room) ==
              if room < |a| then 0
              else if room < |a| + |b| then |a|
              else if room < |a| + |b| + |c| then |a| + |b|
              else |a| + |b| + |c|
  {
    var ps := [a, b, c];
    assert ps[1..] == [b, c] && ps[1..][1..] == [c] && ps[1..][1..][1..] == [];
    if |a| <= room {
      var r1 := room - |a|;
      if |b| <= r1 {
        var r2 := r1 - |b|;
        assert Completed([c], r2) == if |c| <= r2 then |c| else 0;
      }
    }
  }

  // ---------------------------------------------------------------------------
  // Properties of the writer

  /** The writer's reason table is the one in status_line.go, so the two
      status-line writers emit the same bytes for every code. */
  lemma WriterStatusLineAgrees(code: StatusCode)
    ensures WriterStatusLine(code) == StatusLine(code)
  {
  }

  /** No call moves the state backwards. */
  lemma Monotone(c: Call)
    ensures Rank(Wants(c)) <= Rank(After(c))
  {
  }

  /** The count WriteChunkedBody reports never exceeds the bytes that
      reached the sink, and is the whole output when the sink had room. */
  lemma {:induction false} CompletedBounds(ps: seq<string>, room: nat)
    ensures Completed(ps, room) <= Min(|Concat(ps)|, room)
    ensures Completed(ps, room) == |Concat(ps)| <== |Concat(ps)| <= room
    decreases |ps|
  {
    if ps != [] && |ps[0]| <= room {
      CompletedBounds(ps[1..], room - |ps[0]|);
    }
  }

  /** The chunks "abc" then "de" on the wire. */
  lemma ChunkExample()
    ensures Output(ChunkCall("abc")) + Output(ChunkCall("de")) == "3\r\nabc\r\n2\r\nde\r\n"
  {
    HexDigit(3);
    HexDigit(2);
    ConcatThree(Hex(3) + CRLF, "abc", CRLF);
    ConcatThree(Hex(2) + CRLF, "de", CRLF);
  }

  lemma HexDigit(n: nat)
    requires n < 16
    ensures Hex(n) == [DigitChar(n)]
  {
  }

  /** The chunked body is only complete, last chunk followed by an empty
      trailer section, once WriteTrailers has run after WriteChunkedBodyEnd. */
  lemma EndNeedsTrailers()
    ensures Output(ChunkEndCall) == "0\r\n"
    ensures Output(ChunkEndCall) + Output(TrailersCall(map[], [])) == "0\r\n\r\n"
  {
    assert Concat([LastChunk]) == LastChunk + Concat([]);
    assert Concat([HeaderBlock(map[], [])]) == HeaderBlock(map[], []) + Concat([]);
  }

  // ---------------------------------------------------------------------------
  // Sequences of calls

  /** The state after a run of calls from `s`, when every call in it is
      accepted; None as soon as one is out of order. */
  function Replay(s: WriterState, calls: seq<Call>): Option<WriterState>
    decreases |calls|
  {
    if calls == [] then Some(s)
    else if Wants(calls[0]) != s then None
    else Replay(After(calls[0]), calls[1..])
  }

  predicate AllTrailers(calls: seq<Call>) {
    forall i :: 0 <= i < |calls| ==> calls[i].TrailersCall?
  }

  /** How many chunk calls a run starts with. */
  function LeadingChunks(calls: seq<Call>): (j: nat)
    ensures j <= |calls|
    ensures forall i :: 0 <= i < j ==> calls[i].ChunkCall?
    ensures j < |calls| ==> !calls[j].ChunkCall?
    decreases |calls|
  {
    if calls != [] && calls[0].ChunkCall? then 1 + LeadingChunks(calls[1..]) else 0
  }

  /** The calls the body phase accepts: any number of chunks, then possibly
      a plain body or the end of the chunks, and after that only trailers. */
  predicate BodyCalls(calls: seq<Call>) {
    var j := LeadingChunks(calls);
    j == |calls| || ((calls[j].BodyCall? || calls[j].ChunkEndCall?) && AllTrailers(calls[j + 1..]))
  }

  /** The runs a new writer accepts whole, written as a grammar: a status
      line, headers, then the body phase; any prefix of such a run too. */
  predicate InOrder(calls: seq<Call>) {
    calls == [] ||
    (calls[0].StatusLineCall? && (|calls| == 1 || (calls[1].HeadersCall? && BodyCalls(calls[2..]))))
  }

  lemma {:induction false} ReplayTrailers(calls: seq<Call>)
    ensures Replay(TrailersState, calls).Some? <==> AllTrailers(calls)
    ensures AllTrailers(calls) ==> Replay(TrailersState, calls) == Some(TrailersState)
    decreases |calls|
  {
    if calls != [] {
      ReplayTrailers(calls[1..]);
      assert forall i :: 0 <= i < |calls| - 1 ==> calls[1..][i] == calls[i + 1];
    }
  }

  lemma {:induction false} ReplayBody(calls: seq<Call>)
    ensures Replay(BodyState, calls).Some? <==> BodyCalls(calls)
    decreases |calls|
  {
    if calls != [] {
      var c := calls[0];
      if c.ChunkCall? {
        ReplayBody(calls[1..]);
        var j := LeadingChunks(calls[1..]);
        if j < |calls| - 1 {
          assert calls[j + 1] == calls[1..][j];
          assert calls[j + 2..] == calls[1..][j + 1..];
        }
      } else if c.BodyCall? || c.ChunkEndCall? {
        ReplayTrailers(calls[1..]);
      }
    }
  }

  /** A new writer accepts every call of a run exactly when the run follows
      the grammar. */
  lemma ReplayIff(calls: seq<Call>)
    ensures Replay(StatusLineState, calls).Some? <==> InOrder(calls)
  {
    if |calls| >= 2 && calls[0].StatusLineCall? && calls[1].HeadersCall? {
      assert calls[1..][1..] == calls[2..];
      ReplayBody(calls[2..]);
    }
  }

  /** A run of accepted calls never leaves the writer in an earlier state. */
  lemma {:induction false} ReplayMonotone(s: WriterState, calls: seq<Call>)
    ensures Replay(s, calls).Some? ==> Rank(s) <= Rank(Replay(s, calls).value)
    decreases |calls|
  {
    if calls != [] && Wants(calls[0]) == s {
      ReplayMonotone(After(calls[0]), calls[1..]);
      Monotone(calls[0]);
    }
  }
}
