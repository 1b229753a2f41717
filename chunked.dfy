/** The chunked transfer coding of section 7.1 of RFC 9112, read back: a
    decoder for what WriteChunkedBody, WriteChunkedBodyEnd and WriteTrailers
    put on the wire, and the proof that it recovers the body and the
    trailers. It is the decoder that reads back what the writer writes; the
    repository has no decoder of its own. */
module ChunkedCoding {
  import opened Results
  import opened Wire
  import opened ResponseHeaders
  import opened ResponseWriter

  /** The body, the trailer fields, and the bytes the coding took up. */
  datatype Decoded = Decoded(body: string, trailers: map<string, string>, used: nat)

  /** chunk-size: one or more hexadecimal digits (lower case, as %x writes). */
  predicate IsHexNumeral(s: string) {
    |s| >= 1 && forall i :: 0 <= i < |s| ==> IsDigitOf(s[i], 16)
  }

  /** A chunk-size line: the size and where the chunk's data begins. */
  function SizeLine(s: string): (r: Option<(nat, nat)>)
    ensures r.Some? ==> 3 <= r.value.1 <= |s|
  {
    var e := IndexOf(s, CRLF);
    if e < 0 || !IsHexNumeral(s[..e]) then None
    else Some((NumeralValue(s[..e], 16), e + 2))
  }

  /** SizeLine succeeds on `s` with these components. */
  predicate SizeLineAs(s: string, size: nat, start: nat) {
    var r := SizeLine(s);
    r.Some? && r.value.0 == size && r.value.1 == start
  }

  /** Chunks up to and including the last chunk, a size of zero: the data
      they carry and where the trailer section begins. */
  function DataChunks(s: string): (r: Option<(string, nat)>)
    ensures r.Some? ==> r.value.1 <= |s|
    decreases |s|
  {
    var line := SizeLine(s);
    if line.None? then None
    else if line.value.0 == 0 then Some(([], line.value.1))
    else
      var size := line.value.0;
      var start := line.value.1;
      if |s| < start + size + 2 || s[start + size] != '\r' || s[start + size + 1] != '\n' then None
      else
        var more := DataChunks(s[start + size + 2..]);
        if more.None? then None
        else Some((s[start..start + size] + more.value.0, start + size + 2 + more.value.1))
  }

  /** A chunked body: the data chunks and the last chunk, then the trailer
      section, read with the field-line parser up to its blank line. */
  function DecodeChunked(s: string): (r: Option<Decoded>)
    ensures r.Some? ==> r.value.used <= |s|
  {
    match DataChunks(s)
    case None => None
    case Some((body, k)) =>
      match ReadBlock(map[], s[k..])
      case None => None
      case Some((trailers, u)) => Some(Decoded(body, trailers, k + u))
  }

  /** DataChunks succeeds on `s` with these components. */
  predicate ChunksAs(s: string, body: string, k: nat) {
    var r := DataChunks(s);
    r.Some? && r.value.0 == body && r.value.1 == k
  }

  /** DecodeChunked succeeds on `s` with these components. */
  predicate DecodesAs(s: string, body: string, trailers: map<string, string>, used: nat) {
    var r := DecodeChunked(s);
    r.Some? && r.value.body == body && r.value.trailers == trailers && r.value.used == used
  }

  /** The bytes of one chunk. */
  function ChunkBytes(p: string): string {
    Hex(|p|) + CRLF + p + CRLF
  }

  /** The chunks of a body, in order, on the wire. */
  function ChunkedBody(ps: seq<string>): string
    decreases |ps|
  {
    if ps == [] then "" else ChunkBytes(ps[0]) + ChunkedBody(ps[1..])
  }

  /** The body the chunks carry. */
  function Payload(ps: seq<string>): string
    decreases |ps|
  {
    if ps == [] then "" else ps[0] + Payload(ps[1..])
  }

  /** ChunkBytes is the output of WriteChunkedBody. */
  lemma ChunkBytesIsOutput(p: string)
    ensures Output(ChunkCall(p)) == ChunkBytes(p)
  {
    ConcatThree(Hex(|p|) + CRLF, p, CRLF);
  }

  lemma HexHasNoCR(n: nat)
    ensures '\r' !in Hex(n)
  {
    var h := Hex(n);
    assert forall i :: 0 <= i < |h| ==> IsDigitOf(h[i], 16);
  }

  /** The size line of a chunk of `n` bytes. */
  lemma ReadSizeLine(n: nat, rest: string)
    ensures SizeLineAs(Hex(n) + CRLF + rest, n, |Hex(n)| + 2)
  {
    var h := Hex(n);
    HexHasNoCR(n);
    IndexOfLineEnd(h, rest);
    assert (h + CRLF + rest)[..|h|] == h;
    HexRoundTrip(n);
  }

  /** One non-empty chunk in front of more chunks. */
  lemma DecodeChunk(p: string, rest: string, body: string, k: nat, s: string, body': string, k': nat)
    requires |p| > 0 && ChunksAs(rest, body, k)
    requires s == ChunkBytes(p) + rest && body' == p + body && k' == |ChunkBytes(p)| + k
    ensures ChunksAs(s, body', k')
  {
    var start := |Hex(|p|)| + 2;
    ChunkLayout(p, rest, s, start);
    DataChunk(s, |p|, start, start + |p| + 2, rest, body, k, p, body', k');
  }

  /** Where the parts of a chunk lie. */
  lemma ChunkLayout(p: string, rest: string, s: string, start: nat)
    requires s == ChunkBytes(p) + rest && start == |Hex(|p|)| + 2
    ensures SizeLineAs(s, |p|, start)
    ensures start + |p| + 2 <= |s|
    ensures s[start..start + |p|] == p && s[start + |p|] == '\r' && s[start + |p| + 1] == '\n'
    ensures s[start + |p| + 2..] == rest
  {
    var h := Hex(|p|);
    assert s == h + CRLF + (p + CRLF + rest);
    ReadSizeLine(|p|, p + CRLF + rest);
  }

  /** DataChunks on one chunk of data followed by more. */
  lemma DataChunk(s: string, size: nat, start: nat, next: nat, rest: string, body: string, k: nat,
                  chunk: string, body': string, k': nat)
    requires SizeLineAs(s, size, start) && size > 0
    requires next == start + size + 2 && next <= |s| && s[start + size] == '\r' && s[start + size + 1] == '\n'
    requires s[next..] == rest && ChunksAs(rest, body, k)
    requires s[start..start + size] == chunk && body' == chunk + body && k' == next + k
    ensures ChunksAs(s, body', k')
  {
    var more := DataChunks(rest);
    assert more.Some? && more.value.0 == body && more.value.1 == k;
    var line := SizeLine(s);
    assert line.value.0 == size && line.value.1 == start;
    assert s[start + size + 2..] == rest;
    var r := DataChunks(s);
    assert r.Some?;
    assert r.value.1 == next + k;
    assert r.value.0 == s[start..start + size] + body;
  }

  /** The last chunk. */
  lemma DecodeLastChunk(tail: string)
    ensures ChunksAs(LastChunk + tail, [], |LastChunk|)
  {
    assert LastChunk + tail == "0" + CRLF + tail;
    IndexOfLineEnd("0", tail);
    assert (LastChunk + tail)[..1] == "0";
  }

  lemma {:induction false} DecodeChunks(ps: seq<string>, tail: string, body: string, k: nat)
    requires forall i :: 0 <= i < |ps| ==> |ps[i]| > 0
    requires ChunksAs(tail, body, k)
    ensures ChunksAs(ChunkedBody(ps) + tail, Payload(ps) + body, |ChunkedBody(ps)| + k)
    decreases |ps|
  {
    if ps == [] {
      DecodeNoChunks(ps, tail, body, k);
    } else {
      DecodeChunks(ps[1..], tail, body, k);
      DecodeMoreChunks(ps, tail, body, k);
    }
  }

  lemma DecodeNoChunks(ps: seq<string>, tail: string, body: string, k: nat)
    requires ps == [] && ChunksAs(tail, body, k)
    ensures ChunksAs(ChunkedBody(ps) + tail, Payload(ps) + body, |ChunkedBody(ps)| + k)
  {
    assert ChunkedBody(ps) == [] && Payload(ps) == [];
    assert ChunkedBody(ps) + tail == tail;
    assert Payload(ps) + body == body;
    SameChunks(tail, body, k, ChunkedBody(ps) + tail, Payload(ps) + body, |ChunkedBody(ps)| + k);
  }

  lemma SameChunks(s: string, body: string, k: nat, s': string, body': string, k': nat)
    requires ChunksAs(s, body, k) && s' == s && body' == body && k' == k
    ensures ChunksAs(s', body', k')
  {
  }

  lemma DecodeMoreChunks(ps: seq<string>, tail: string, body: string, k: nat)
    requires ps != [] && |ps[0]| > 0
    requires ChunksAs(ChunkedBody(ps[1..]) + tail, Payload(ps[1..]) + body, |ChunkedBody(ps[1..])| + k)
    ensures ChunksAs(ChunkedBody(ps) + tail, Payload(ps) + body, |ChunkedBody(ps)| + k)
  {
    var p := ps[0];
    Associate(ChunkBytes(p), ChunkedBody(ps[1..]), tail, []);
    Associate(p, Payload(ps[1..]), body, []);
    DecodeChunk(p, ChunkedBody(ps[1..]) + tail, Payload(ps[1..]) + body, |ChunkedBody(ps[1..])| + k,
                ChunkedBody(ps) + tail, Payload(ps) + body, |ChunkedBody(ps)| + k);
  }

  /** The data part and the trailer section together. */
  lemma DecodeWhole(s: string, body: string, k: nat, trailers: map<string, string>, u: nat, used: nat)
    requires ChunksAs(s, body, k) && ReadsAs(map[], s[k..], trailers, u) && used == k + u
    ensures DecodesAs(s, body, trailers, used)
  {
  }

  /** A chunked body as the writer sends it, non-empty chunks then the last
      chunk and a trailer block, decodes to the chunks' bytes and the
      trailers, and takes up exactly the bytes written. */
  lemma ChunkedRoundTrip(ps: seq<string>, t: map<string, string>, order: seq<string>, rest: string)
    requires forall i :: 0 <= i < |ps| ==> |ps[i]| > 0
    requires IsOrdering(t, order) && IsPlainFields(t)
    ensures var wire := ChunkedBody(ps) + LastChunk + HeaderBlock(t, order);
            DecodesAs(wire + rest, Payload(ps), t, |wire|)
  {
    var block := HeaderBlock(t, order);
    var tail := block + rest;
    DecodeLastChunk(tail);
    DecodeChunks(ps, LastChunk + tail, [], |LastChunk|);
    var s := ChunkedBody(ps) + (LastChunk + tail);
    var k := |ChunkedBody(ps)| + |LastChunk|;
    assert s[k..] == tail;
    BlockReadsBack(t, order, rest);
    assert Payload(ps) + [] == Payload(ps);
    var wire := ChunkedBody(ps) + LastChunk + block;
    Associate(ChunkedBody(ps), LastChunk, block, rest);
    DecodeWhole(wire + rest, Payload(ps), k, t, |block|, |wire|);
  }

  // ---------------------------------------------------------------------------
  // The writer's calls that produce a chunked body

  /** The bytes a run of accepted calls writes when the sink takes them all. */
  function Transcript(calls: seq<Call>): string
    requires forall i :: 0 <= i < |calls| ==> WellFormedCall(calls[i])
    decreases |calls|
  {
    if calls == [] then "" else Output(calls[0]) + Transcript(calls[1..])
  }

  /** One WriteChunkedBody call per chunk. */
  function ChunkCalls(ps: seq<string>): (calls: seq<Call>)
    ensures |calls| == |ps| && forall i :: 0 <= i < |ps| ==> calls[i] == ChunkCall(ps[i])
    decreases |ps|
  {
    if ps == [] then [] else [ChunkCall(ps[0])] + ChunkCalls(ps[1..])
  }

  lemma {:induction false} TranscriptAppend(a: seq<Call>, b: seq<Call>)
    requires forall i :: 0 <= i < |a| ==> WellFormedCall(a[i])
    requires forall i :: 0 <= i < |b| ==> WellFormedCall(b[i])
    ensures Transcript(a + b) == Transcript(a) + Transcript(b)
    decreases |a|
  {
    if a != [] {
      assert (a + b)[0] == a[0] && (a + b)[1..] == a[1..] + b;
      TranscriptAppend(a[1..], b);
      Associate(Output(a[0]), Transcript(a[1..]), Transcript(b), []);
    } else {
      assert a + b == b;
    }
  }

  lemma {:induction false} ChunkTranscript(ps: seq<string>)
    ensures Transcript(ChunkCalls(ps)) == ChunkedBody(ps)
    decreases |ps|
  {
    if ps != [] {
      var calls := ChunkCalls(ps);
      assert calls[1..] == ChunkCalls(ps[1..]);
      ChunkTranscript(ps[1..]);
      ChunkBytesIsOutput(ps[0]);
    }
  }

  /** The writer accepts any number of chunks in the body state and stays
      there. */
  lemma {:induction false} ReplayChunks(ps: seq<string>, rest: seq<Call>)
    ensures Replay(BodyState, ChunkCalls(ps) + rest) == Replay(BodyState, rest)
    decreases |ps|
  {
    if ps != [] {
      var calls := ChunkCalls(ps) + rest;
      assert calls[0] == ChunkCall(ps[0]) && calls[1..] == ChunkCalls(ps[1..]) + rest;
      ReplayChunks(ps[1..], rest);
    } else {
      assert ChunkCalls(ps) + rest == rest;
    }
  }

  /** The calls WriteChunkedBody for each chunk, WriteChunkedBodyEnd and
      WriteTrailers are accepted in turn from the body state and put on the
      wire exactly the chunked coding the decoder reads back. */
  lemma ChunkedWire(ps: seq<string>, t: map<string, string>, order: seq<string>)
    requires IsOrdering(t, order)
    ensures var calls := ChunkCalls(ps) + [ChunkEndCall, TrailersCall(t, order)];
            && Replay(BodyState, calls) == Some(TrailersState)
            && Transcript(calls) == ChunkedBody(ps) + LastChunk + HeaderBlock(t, order)
  {
    var end := [ChunkEndCall, TrailersCall(t, order)];
    ReplayChunks(ps, end);
    assert end[1..] == [TrailersCall(t, order)] && end[1..][1..] == [];
    assert Replay(BodyState, end) == Replay(TrailersState, [TrailersCall(t, order)]) == Some(TrailersState);
    TranscriptAppend(ChunkCalls(ps), end);
    ChunkTranscript(ps);
    ConcatOne(LastChunk);
    ConcatOne(HeaderBlock(t, order));
    assert Transcript(end[1..]) == HeaderBlock(t, order) + Transcript([]);
    assert Transcript(end) == LastChunk + HeaderBlock(t, order);
    Associate(ChunkedBody(ps), LastChunk, HeaderBlock(t, order), []);
  }

  lemma Associate(a: string, b: string, c: string, d: string)
    ensures a + b + c + d == a + (b + (c + d))
    ensures a + b + c == a + (b + c)
  {
  }
}
