/** internal/response/headers.go: the default response headers and the
    serialiser of a header block, `name: value` lines and a blank line
    (section 5 of RFC 9112). Go visits a map in an unspecified order, so
    the block is stated for an ordering of the keys, any ordering. */
module ResponseHeaders {
  import opened Results
  import opened Wire
  import opened HeaderFields
  import opened Sinks

  function FieldLine(key: string, value: string): string {
    key + ": " + value + CRLF
  }

  /** The field lines of `m`, one per key of `order`, in that order. */
  function FieldLines(m: map<string, string>, order: seq<string>): string
    requires forall i :: 0 <= i < |order| ==> order[i] in m
    decreases |order|
  {
    if order == [] then ""
    else
      var k := order[|order| - 1];
      FieldLines(m, order[..|order| - 1]) + FieldLine(k, m[k])
  }

  /** `order` lists every key of `m` exactly once. */
  predicate IsOrdering(m: map<string, string>, order: seq<string>) {
    && (forall i :: 0 <= i < |order| ==> order[i] in m)
    && (forall k :: k in m ==> k in order)
    && (forall i, j :: 0 <= i < j < |order| ==> order[i] != order[j])
  }

  /** The bytes WriteHeaders writes when it visits the keys in `order`. */
  function HeaderBlock(m: map<string, string>, order: seq<string>): string
    requires forall i :: 0 <= i < |order| ==> order[i] in m
  {
    FieldLines(m, order) + CRLF
  }

  /** The loop that accumulates `headerWrite`: one field line per key, in the
      order the keys are picked, then the blank line. */
  method SerializeFields(m: map<string, string>) returns (block: string, ghost order: seq<string>)
    ensures IsOrdering(m, order) && block == HeaderBlock(m, order)
  {
    var rest := m.Keys;
    block := "";
    order := [];
    while rest != {}
      invariant rest <= m.Keys
      invariant forall i :: 0 <= i < |order| ==> order[i] in m && order[i] !in rest
      invariant forall k :: k in m ==> k in rest || k in order
      invariant forall i, j :: 0 <= i < j < |order| ==> order[i] != order[j]
      invariant block == FieldLines(m, order)
      decreases |rest|
    {
      var k :| k in rest;
      block := block + (k + ": " + m[k] + CRLF);
      FieldLinesSnoc(m, order, k);
      order := order + [k];
      rest := rest - {k};
    }
    block := block + CRLF;
  }

  lemma FieldLinesSnoc(m: map<string, string>, order: seq<string>, k: string)
    requires forall i :: 0 <= i < |order| ==> order[i] in m
    requires k in m
    ensures FieldLines(m, order + [k]) == FieldLines(m, order) + FieldLine(k, m[k])
  {
    assert (order + [k])[..|order|] == order;
  }

  /** WriteHeaders: the block, as one write. */
  method WriteHeaders(w: Sink, fields: map<string, string>) returns (err: Option<WriteError>, ghost order: seq<string>)
    modifies w
    ensures IsOrdering(fields, order)
    ensures var block := HeaderBlock(fields, order);
            && w.bytes == old(w.bytes) + block[..Min(|block|, old(w.room))]
            && w.room == old(w.room) - Min(|block|, old(w.room))
            && (err.None? <==> |block| <= old(w.room))
  {
    var block;
    block, order := SerializeFields(fields);
    var _, e := w.Write(block);
    return e, order;
  }

  // ---------------------------------------------------------------------------
  // GetDefaultHeaders

  /** The map the three Set calls build: exactly content-length (the decimal
      length), connection "close" and content-type "text/plain", each under
      its lower-cased name. Each key is set once, so no value is combined
      with ", ". */
  function DefaultFields(contentLen: int): (m: map<string, string>)
    ensures m == map["content-length" := Decimal(contentLen), "connection" := "close", "content-type" := "text/plain"]
  {
    DefaultNames();
    var m1 := SetField(map[], "Content-Length", Decimal(contentLen)).value;
    assert m1 == map["content-length" := Decimal(contentLen)];
    var m2 := SetField(m1, "Connection", "close").value;
    assert m2 == m1["connection" := "close"];
    assert SetField(m2, "Content-Type", "text/plain").value == m2["content-type" := "text/plain"];
    SetField(m2, "Content-Type", "text/plain").value
  }

  method GetDefaultHeaders(contentLen: int) returns (h: Headers)
    ensures fresh(h) && h.fields == DefaultFields(contentLen)
  {
    DefaultNames();
    h := new Headers();
    var _ := h.Set("Content-Length", Decimal(contentLen));
    var _ := h.Set("Connection", "close");
    var _ := h.Set("Content-Type", "text/plain");
  }

  /** The three names are tokens, and what Set stores them under. */
  lemma DefaultNames()
    ensures IsValidKey("Content-Length") && Lower("Content-Length") == "content-length"
    ensures IsValidKey("Connection") && Lower("Connection") == "connection"
    ensures IsValidKey("Content-Type") && Lower("Content-Type") == "content-type"
  {
    ContentLengthName();
    ConnectionName();
    ContentTypeName();
  }

  lemma ContentLengthName()
    ensures IsValidKey("Content-Length") && Lower("Content-Length") == "content-length"
  {
  }

  lemma ConnectionName()
    ensures IsValidKey("Connection") && Lower("Connection") == "connection"
  {
  }

  lemma ContentTypeName()
    ensures IsValidKey("Content-Type") && Lower("Content-Type") == "content-type"
  {
  }

  // ---------------------------------------------------------------------------
  // The length of a block does not depend on the order

  function FieldSize(key: string, value: string): nat {
    |key| + |value| + 4
  }

  /** The sum of FieldSize over the entries of `m` whose keys are in `keys`. */
  ghost function SizeOf(m: map<string, string>, keys: set<string>): nat
    requires keys <= m.Keys
    decreases keys
  {
    if keys == {} then 0
    else
      var k :| k in keys;
      FieldSize(k, m[k]) + SizeOf(m, keys - {k})
  }

  /** The sum over all of `m`. */
  ghost function FieldsSize(m: map<string, string>): nat {
    SizeOf(m, m.Keys)
  }

  /** The sum may be started from any entry. */
  lemma {:induction false} SizeOfRemove(m: map<string, string>, keys: set<string>, k: string)
    requires keys <= m.Keys && k in keys
    ensures SizeOf(m, keys) == FieldSize(k, m[k]) + SizeOf(m, keys - {k})
    decreases keys
  {
    var j :| j in keys && SizeOf(m, keys) == FieldSize(j, m[j]) + SizeOf(m, keys - {j});
    if j != k {
      SizeOfRemove(m, keys - {j}, k);
      SizeOfRemove(m, keys - {k}, j);
      assert keys - {j} - {k} == keys - {k} - {j};
    }
  }

  lemma {:induction false} FieldLinesLength(m: map<string, string>, order: seq<string>)
    requires forall i :: 0 <= i < |order| ==> order[i] in m
    requires forall i, j :: 0 <= i < j < |order| ==> order[i] != order[j]
    ensures |FieldLines(m, order)| == SizeOf(m, set k | k in order)
    decreases |order|
  {
    if order == [] {
      assert (set k | k in order) == {};
    } else {
      var k := order[|order| - 1];
      var p := order[..|order| - 1];
      assert (set k' | k' in p) == (set k' | k' in order) - {k} by {
        assert forall k' :: k' in order <==> k' in p || k' == k;
        forall i | 0 <= i < |p|
          ensures p[i] != k
        {
          assert p[i] == order[i];
        }
      }
      FieldLinesLength(m, p);
      SizeOfRemove(m, (set k' | k' in order), k);
    }
  }

  /** Whatever order the keys are visited in, the block is |k| + |v| + 4
      bytes per entry plus the two of the blank line; an empty map gives
      just the blank line. */
  lemma BlockSizeAnyOrder(m: map<string, string>, order: seq<string>)
    requires IsOrdering(m, order)
    ensures |HeaderBlock(m, order)| == FieldsSize(m) + 2
    ensures m == map[] ==> HeaderBlock(m, order) == CRLF
  {
    FieldLinesLength(m, order);
    assert (set k | k in order) == m.Keys;
  }

  // ---------------------------------------------------------------------------
  // Reading a block back with the field-line parser

  /** A reader of a whole header section built from Parse: one field line per
      call until the blank line. Gives the fields and the bytes used. */
  function ReadBlock(m: map<string, string>, data: string): (r: Option<(map<string, string>, nat)>)
    ensures r.Some? ==> 2 <= r.value.1 <= |data|
    decreases |data|
  {
    var p := ParseField(m, data);
    if p.err.Some? || p.n == 0 then None
    else if p.done then Some((m, 2))
    else
      match ReadBlock(p.fields, data[p.n..])
      case None => None
      case Some((m', k)) => Some((m', p.n + k))
  }

  /** A map the serialiser and the parser agree on: lower-case token names
      and plain values. */
  predicate IsPlainFields(m: map<string, string>) {
    forall k :: k in m ==> IsValidKey(k) && Lower(k) == k && IsPlainValue(m[k])
  }

  lemma {:induction false} FieldLinesFront(m: map<string, string>, k: string, order: seq<string>)
    requires k in m && forall i :: 0 <= i < |order| ==> order[i] in m
    ensures FieldLines(m, [k] + order) == FieldLine(k, m[k]) + FieldLines(m, order)
    decreases |order|
  {
    if order != [] {
      var last := order[|order| - 1];
      var p := order[..|order| - 1];
      var o := [k] + order;
      assert o[..|o| - 1] == [k] + p && o[|o| - 1] == last;
      FieldLinesFront(m, k, p);
      assert FieldLines(m, o) == FieldLines(m, [k] + p) + FieldLine(last, m[last]);
      assert FieldLines(m, order) == FieldLines(m, p) + FieldLine(last, m[last]);
    }
  }

  /** One field line as written is one field line as parsed. */
  lemma ReadFieldLine(acc: map<string, string>, k: string, v: string, rest: string)
    requires IsValidKey(k) && Lower(k) == k && IsPlainValue(v) && k !in acc
    ensures ParseField(acc, FieldLine(k, v) + rest) == FieldParse(|FieldLine(k, v)|, false, None, acc[k := v])
  {
    var raw := " " + v;
    forall i | 0 <= i < |raw|
      ensures raw[i] != '\r' && raw[i] != '\n'
    {
      if i > 0 {
        assert raw[i] == v[i - 1];
      }
    }
    assert IsFieldLine("", k, raw);
    TrimSpaceAfterSpace(" ", v);
    FieldLineShape(k, v, rest);
    ParseFieldLine(acc, "", k, raw, rest);
  }

  lemma FieldLineShape(k: string, v: string, rest: string)
    ensures "" + k + ":" + (" " + v) + CRLF + rest == FieldLine(k, v) + rest
  {
  }

  /** ReadBlock, started with `acc`, gives `fields` after `used` bytes. */
  predicate ReadsAs(acc: map<string, string>, data: string, fields: map<string, string>, used: nat) {
    var r := ReadBlock(acc, data);
    r.Some? && r.value.0 == fields && r.value.1 == used
  }

  lemma {:induction false} ReadLines(acc: map<string, string>, m: map<string, string>, order: seq<string>, rest: string)
    requires IsPlainFields(m)
    requires forall i :: 0 <= i < |order| ==> order[i] in m && order[i] !in acc
    requires forall i, j :: 0 <= i < j < |order| ==> order[i] != order[j]
    requires forall k :: k in acc ==> k in m && acc[k] == m[k]
    requires forall k :: k in m ==> k in acc || k in order
    ensures ReadsAs(acc, FieldLines(m, order) + CRLF + rest, m, |FieldLines(m, order)| + 2)
    decreases |order|
  {
    if order == [] {
      ReadLinesEnd(acc, m, rest);
    } else {
      var k := order[0];
      ReadLines(acc[k := m[k]], m, order[1..], rest);
      ReadLinesCons(acc, m, order, rest);
    }
  }

  lemma ReadLinesEnd(acc: map<string, string>, m: map<string, string>, rest: string)
    requires forall k :: k in acc ==> k in m && acc[k] == m[k]
    requires forall k :: k in m ==> k in acc
    ensures ReadsAs(acc, FieldLines(m, []) + CRLF + rest, m, |FieldLines(m, [])| + 2)
  {
    assert acc == m;
    assert FieldLines(m, []) + CRLF + rest == CRLF + rest;
    ReadBlockEnd(acc, rest);
  }

  lemma ReadLinesCons(acc: map<string, string>, m: map<string, string>, order: seq<string>, rest: string)
    requires order != [] && forall i :: 0 <= i < |order| ==> order[i] in m
    requires order[0] !in acc && IsValidKey(order[0]) && Lower(order[0]) == order[0] && IsPlainValue(m[order[0]])
    requires ReadsAs(acc[order[0] := m[order[0]]], FieldLines(m, order[1..]) + CRLF + rest, m, |FieldLines(m, order[1..])| + 2)
    ensures ReadsAs(acc, FieldLines(m, order) + CRLF + rest, m, |FieldLines(m, order)| + 2)
  {
    var k, p := order[0], order[1..];
    var tail := FieldLines(m, p) + CRLF + rest;
    FrontLine(m, order, rest);
    ReadBlockStep(acc, k, m[k], tail, m, |FieldLines(m, p)| + 2, |FieldLines(m, order)| + 2);
  }

  lemma FrontLine(m: map<string, string>, order: seq<string>, rest: string)
    requires order != [] && forall i :: 0 <= i < |order| ==> order[i] in m
    ensures FieldLines(m, order) + CRLF + rest == FieldLine(order[0], m[order[0]]) + (FieldLines(m, order[1..]) + CRLF + rest)
  {
    assert order == [order[0]] + order[1..];
    FieldLinesFront(m, order[0], order[1..]);
  }

  lemma ReadBlockEnd(m: map<string, string>, rest: string)
    ensures ReadsAs(m, CRLF + rest, m, 2)
  {
    ParseDoneIff(m, CRLF + rest);
    assert (CRLF + rest)[..2] == CRLF;
  }

  lemma ReadBlockStep(acc: map<string, string>, k: string, v: string, tail: string, m: map<string, string>, n: nat, used: nat)
    requires IsValidKey(k) && Lower(k) == k && IsPlainValue(v) && k !in acc
    requires ReadsAs(acc[k := v], tail, m, n) && used == |FieldLine(k, v)| + n
    ensures ReadsAs(acc, FieldLine(k, v) + tail, m, used)
  {
    var line := FieldLine(k, v);
    var data := line + tail;
    ReadFieldLine(acc, k, v, tail);
    assert data[|line|..] == tail;
    ReadBlockUnfold(acc, data, |line|, acc[k := v], m, n);
  }

  lemma ReadBlockUnfold(m: map<string, string>, data: string, n: nat, m2: map<string, string>, fields: map<string, string>, k: nat)
    requires 0 < n <= |data| && ParseField(m, data) == FieldParse(n, false, None, m2)
    requires ReadsAs(m2, data[n..], fields, k)
    ensures ReadsAs(m, data, fields, n + k)
  {
  }

  /** The parser reads a serialised block back as the map it came from,
      using exactly the block's bytes, whatever the keys' order. */
  lemma BlockReadsBack(m: map<string, string>, order: seq<string>, rest: string)
    requires IsOrdering(m, order) && IsPlainFields(m)
    ensures ReadsAs(map[], HeaderBlock(m, order) + rest, m, |HeaderBlock(m, order)|)
  {
    assert HeaderBlock(m, order) + rest == FieldLines(m, order) + CRLF + rest;
    ReadLines(map[], m, order, rest);
  }

  /** The default headers are plain, so their block reads back as them. */
  lemma DefaultFieldsPlain(contentLen: nat)
    ensures IsPlainFields(DefaultFields(contentLen))
  {
    var d := Decimal(contentLen);
    assert forall i :: 0 <= i < |d| ==> '0' <= d[i] <= '9';
    DefaultShapePlain(d);
  }

  lemma DefaultShapePlain(d: string)
    requires IsPlainValue(d)
    ensures IsPlainFields(map["content-length" := d, "connection" := "close", "content-type" := "text/plain"])
  {
    LowerToken("content-length");
    LowerToken("connection");
    LowerToken("content-type");
    assert IsPlainValue("close") && IsPlainValue("text/plain");
  }

  /** A name of lower-case letters and dashes is a token and its own Lower. */
  lemma LowerToken(name: string)
    requires |name| > 0 && forall i :: 0 <= i < |name| ==> 'a' <= name[i] <= 'z' || name[i] == '-'
    ensures IsValidKey(name) && Lower(name) == name
  {
  }
}
