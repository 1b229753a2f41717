/** internal/response/status_line.go: the status codes the server uses, their
    reason phrases, and the status line of section 4 of RFC 9112. */
module StatusLines {
  import opened Results
  import opened Wire
  import opened Sinks

  /** StatusCode: any int, as in Go. */
  type StatusCode = int

  const StatusOK: StatusCode := 200
  /** 400; the source names this constant HttpNotFoud. */
  const StatusBadRequest: StatusCode := 400
  const StatusServerError: StatusCode := 500

  /** statusCodeMap. */
  const ReasonPhrases: map<StatusCode, string> :=
    map[StatusOK := "OK", StatusBadRequest := "Bad Request", StatusServerError := "Internal Server Error"]

  /** The reason phrase of a code: its entry in the table, or the empty
      string that a lookup of a missing key yields in Go. */
  function Reason(code: StatusCode): (r: string)
    ensures '\r' !in r && '\n' !in r
  {
    if code in ReasonPhrases then ReasonPhrases[code] else ""
  }

  /** The bytes of `fmt.Fprintf(w, "HTTP/1.1 %d %s", code, reason + crlf)`:
      a line that holds exactly one CRLF, the one it ends with. */
  function StatusLine(code: StatusCode): (r: string)
    ensures |r| >= 2 && forall i :: OccursAt(r, CRLF, i) <==> i == |r| - 2
  {
    var head := "HTTP/1.1 " + Decimal(code) + " " + Reason(code);
    assert forall i :: OccursAt(head + CRLF, CRLF, i) <==> i == |head| by {
      HeadHasNoCR(code);
      forall i | 0 <= i < |head|
        ensures !OccursAt(head + CRLF, CRLF, i)
      {
        assert (head + CRLF)[i..i + 2][0] == head[i];
      }
      assert (head + CRLF)[|head|..] == CRLF;
    }
    head + CRLF
  }

  /** WriteStatusLine: one write of the status line. */
  method WriteStatusLine(w: Sink, code: StatusCode) returns (err: Option<WriteError>)
    modifies w
    ensures var line := StatusLine(code);
            && w.bytes == old(w.bytes) + line[..Min(|line|, old(w.room))]
            && w.room == old(w.room) - Min(|line|, old(w.room))
            && (err.None? <==> |line| <= old(w.room))
  {
    var line := "HTTP/1.1 " + Decimal(code) + " " + Reason(code) + CRLF;
    var _, e := w.Write(line);
    return e;
  }

  // ---------------------------------------------------------------------------
  // Properties

  /** The three mapped codes and their phrases; every other code has the
      empty phrase, so its line keeps the space before the CRLF. */
  lemma ReasonTable(code: StatusCode)
    ensures code == 200 ==> Reason(code) == "OK"
    ensures code == 400 ==> Reason(code) == "Bad Request"
    ensures code == 500 ==> Reason(code) == "Internal Server Error"
    ensures code != 200 && code != 400 && code != 500 ==>
              Reason(code) == "" && StatusLine(code) == "HTTP/1.1 " + Decimal(code) + " \r\n"
  {
  }

  /** The status line without its CRLF holds no CR. */
  lemma HeadHasNoCR(code: StatusCode)
    ensures '\r' !in "HTTP/1.1 " + Decimal(code) + " " + Reason(code)
  {
    var d := Decimal(code);
    var head := "HTTP/1.1 " + d + " " + Reason(code);
    forall i | 0 <= i < |head|
      ensures head[i] != '\r'
    {
      if 9 <= i < 9 + |d| {
        assert head[i] == d[i - 9];
      } else if i > 9 + |d| {
        assert head[i] == Reason(code)[i - 10 - |d|];
      }
    }
  }

  /** Reading a status line back, as a client would: the version and a space,
      the code up to the next space, the phrase up to the CRLF. Gives the
      code, the phrase and the length of the line. */
  function ReadStatusLine(s: string): (r: Option<(StatusCode, string, nat)>)
    ensures r.Some? ==> r.value.2 <= |s|
  {
    var e := IndexOf(s, CRLF);
    if e < 9 || s[..9] != "HTTP/1.1 " then None
    else
      var t := s[9..e];
      var sp := IndexOf(t, " ");
      if sp < 0 then None else Some((DecimalValue(t[..sp]), t[sp + 1..], e + 2))
  }

  /** Every status line reads back as its code and phrase, whatever follows. */
  lemma StatusLineReadsBack(code: StatusCode, rest: string)
    ensures ReadStatusLine(StatusLine(code) + rest) == Some((code, Reason(code), |StatusLine(code)|))
  {
    var d := Decimal(code);
    assert ' ' !in d by {
      assert forall i :: 0 <= i < |d| ==> d[i] == '-' || '0' <= d[i] <= '9';
    }
    HeadHasNoCR(code);
    LineReadsBack(d, Reason(code), rest);
    assert StatusLine(code) + rest == "HTTP/1.1 " + d + " " + Reason(code) + CRLF + rest;
    DecimalRoundTrip(code);
  }

  lemma LineReadsBack(d: string, reason: string, rest: string)
    requires ' ' !in d && '\r' !in "HTTP/1.1 " + d + " " + reason
    ensures ReadStatusLine("HTTP/1.1 " + d + " " + reason + CRLF + rest) == Some((DecimalValue(d), reason, |d| + |reason| + 12))
  {
    var head := "HTTP/1.1 " + d + " " + reason;
    var s := head + CRLF + rest;
    IndexOfLineEnd(head, rest);
    assert s[..9] == "HTTP/1.1 ";
    var t := s[9..|head|];
    assert t == d + " " + reason;
    IndexOfChar(t, ' ');
    assert t[|d|] == ' ';
    assert t[..|d|] == d && t[|d| + 1..] == reason;
  }
}
