/** internal/request/request.go: the request line, the three-state request
    parser and the buffered read loop that feeds it. */
module Requests {
  import opened Results
  import opened Wire
  import HeaderFields

  /** The initial size of the read buffer. */
  const BufferSize: nat := 8

  datatype Status = Initialized | ParsingHeaders | Done

  function Rank(st: Status): nat {
    match st
    case Initialized => 0
    case ParsingHeaders => 1
    case Done => 2
  }

  datatype RequestLine = RequestLine(httpVersion: string, requestTarget: string, requestMethod: string)

  datatype LineError =
    | MalformedLine         // not three space-separated parts
    | EmptyMethod
    | InvalidMethod         // a method character outside 'A'..'Z'
    | InvalidTarget         // refused by url.ParseRequestURI
    | MalformedVersion      // the version part does not split on "/" in two
    | UnrecognizedProtocol  // the name before "/" is not "HTTP"
    | UnsupportedVersion    // the number after "/" is not "1.1"

  // ---------------------------------------------------------------------------
  // The request target, as Go's url.ParseRequestURI accepts it

  predicate IsCtl(c: char) {
    c as int < 0x20 || c as int == 0x7f
  }

  predicate IsHexDigit(c: char) {
    '0' <= c <= '9' || 'a' <= c <= 'f' || 'A' <= c <= 'F'
  }

  /** Every '%' is followed by two hex digits. */
  predicate ValidEscapes(p: string)
    decreases |p|
  {
    if p == [] then true
    else if p[0] == '%' then |p| >= 3 && IsHexDigit(p[1]) && IsHexDigit(p[2]) && ValidEscapes(p[3..])
    else ValidEscapes(p[1..])
  }

  /** How a URL starts: with no scheme, with `scheme ":"`, or with a bare ":". */
  datatype SchemeSplit = NoScheme | Scheme(scheme: string, rest: string) | MissingScheme

  function SchemeFrom(s: string, i: nat): SchemeSplit
    requires i <= |s|
    decreases |s| - i
  {
    if i == |s| then NoScheme
    else
      var c := s[i];
      if 'a' <= c <= 'z' || 'A' <= c <= 'Z' then SchemeFrom(s, i + 1)
      else if '0' <= c <= '9' || c == '+' || c == '-' || c == '.' then
        if i == 0 then NoScheme else SchemeFrom(s, i + 1)
      else if c == ':' then
        if i == 0 then MissingScheme else Scheme(s[..i], s[i + 1..])
      else NoScheme
  }

  /** The part before the first '?'. */
  function BeforeQuery(s: string): (p: string)
    ensures '?' !in p && p <= s
  {
    var q := IndexOf(s, "?");
    IndexOfChar(s, '?');
    if q == -1 then s else s[..q]
  }

  /** The path that follows an authority: from its first '/', or empty. */
  function AfterAuthority(a: string): string {
    var i := IndexOf(a, "/");
    if i == -1 then "" else a[i..]
  }

  /** url.ParseRequestURI succeeds: no control byte; not empty; "*"; or, with
      no scheme, a path starting with "/"; or, after a scheme, an opaque part,
      an authority and path, or a path. Percent escapes in the path must be
      complete. */
  predicate AcceptedTarget(t: string) {
    && (forall i :: 0 <= i < |t| ==> !IsCtl(t[i]))
    && t != ""
    && (t == "*" ||
        match SchemeFrom(t, 0)
        case MissingScheme => false
        case NoScheme =>
          var p := BeforeQuery(t);
          |p| >= 1 && p[0] == '/' && ValidEscapes(p)
        case Scheme(_, rest) =>
          var p := BeforeQuery(rest);
          if !(|p| >= 1 && p[0] == '/') then true
          else if |p| >= 2 && p[1] == '/' then ValidEscapes(AfterAuthority(p[2..]))
          else ValidEscapes(p))
  }

  lemma OriginFormAccepted(path: string)
    requires |path| >= 1 && path[0] == '/'
    requires forall i :: 0 <= i < |path| ==> !IsCtl(path[i]) && path[i] != '%' && path[i] != '?'
    ensures AcceptedTarget(path)
  {
    assert SchemeFrom(path, 0) == NoScheme;
    IndexOfChar(path, '?');
    assert BeforeQuery(path) == path;
    NoPercentValid(path);
  }

  lemma {:induction false} NoPercentValid(p: string)
    requires forall i :: 0 <= i < |p| ==> p[i] != '%'
    ensures ValidEscapes(p)
    decreases |p|
  {
    if p != [] {
      NoPercentValid(p[1..]);
    }
  }

  // ---------------------------------------------------------------------------
  // requestLineFromString and parseRequestLine

  /** The method check: every character in 'A'..'Z'. */
  predicate AllUpper(m: string) {
    forall i :: 0 <= i < |m| ==> 'A' <= m[i] <= 'Z'
  }

  /** The request line split on single spaces must have three parts; the
      method must be a non-empty run of upper-case letters; the target must
      be accepted; the version must read "HTTP/1.1". */
  function RequestLineFromString(s: string): (r: Result<RequestLine, LineError>)
    ensures r.Ok? ==> r.value.httpVersion == "1.1" && |r.value.requestMethod| > 0 && AllUpper(r.value.requestMethod)
    ensures r.Ok? ==> AcceptedTarget(r.value.requestTarget) && ' ' !in r.value.requestTarget
  {
    var parts := Split(s, ' ');
    if |parts| != 3 then Err(MalformedLine)
    else
      var requestMethod := parts[0];
      if |requestMethod| == 0 then Err(EmptyMethod)
      else if !AllUpper(requestMethod) then Err(InvalidMethod)
      else
        var requestTarget := parts[1];
        if !AcceptedTarget(requestTarget) then Err(InvalidTarget)
        else
          var versionParts := Split(parts[2], '/');
          if |versionParts| != 2 then Err(MalformedVersion)
          else if versionParts[0] != "HTTP" then Err(UnrecognizedProtocol)
          else if versionParts[1] != "1.1" then Err(UnsupportedVersion)
          else Ok(RequestLine(versionParts[1], requestTarget, requestMethod))
  }

  /** What a request line must be for requestLineFromString to accept it. */
  predicate WellFormed(rl: RequestLine) {
    && |rl.requestMethod| > 0 && AllUpper(rl.requestMethod)
    && AcceptedTarget(rl.requestTarget) && ' ' !in rl.requestTarget
    && rl.httpVersion == "1.1"
  }

  /** The request line as it appears on the wire (without its CRLF). */
  function Render(rl: RequestLine): string {
    rl.requestMethod + " " + rl.requestTarget + " HTTP/" + rl.httpVersion
  }

  lemma HttpVersionSplit()
    ensures Split("HTTP/1.1", '/') == ["HTTP", "1.1"]
  {
    assert "HTTP/1.1" == "HTTP" + ['/'] + "1.1";
    SplitAtFirst("HTTP", "1.1", '/');
    SplitNoSeparator("1.1", '/');
  }

  lemma UpperHasNoSpace(m: string)
    requires AllUpper(m)
    ensures ' ' !in m && '\r' !in m
  {
    assert forall i :: 0 <= i < |m| ==> 'A' <= m[i] <= 'Z';
  }

  /** requestLineFromString accepts exactly the rendered well-formed request
      lines, and gives back the line they render. */
  lemma RequestLineIff(s: string, rl: RequestLine)
    ensures RequestLineFromString(s) == Ok(rl) <==> WellFormed(rl) && s == Render(rl)
  {
    if WellFormed(rl) && s == Render(rl) {
      RenderedLineAccepted(rl);
    }
    if RequestLineFromString(s) == Ok(rl) {
      AcceptedLineRenders(s);
    }
  }

  lemma RenderedLineAccepted(rl: RequestLine)
    requires WellFormed(rl)
    ensures RequestLineFromString(Render(rl)) == Ok(rl)
  {
    var s := Render(rl);
    UpperHasNoSpace(rl.requestMethod);
    assert s == rl.requestMethod + " " + rl.requestTarget + " " + "HTTP/1.1";
    RequestLineParts(rl.requestMethod, rl.requestTarget, "HTTP/1.1");
    var parts := Split(s, ' ');
    assert parts[2] == "HTTP/1.1";
    HttpVersionSplit();
    assert Split(parts[2], '/') == ["HTTP", "1.1"];
  }

  lemma AcceptedLineRenders(s: string)
    requires RequestLineFromString(s).Ok?
    ensures s == Render(RequestLineFromString(s).value)
  {
    var parts := Split(s, ' ');
    var vp := Split(parts[2], '/');
    JoinSplit(parts[2], '/');
    assert Join(vp, '/') == vp[0] + ['/'] + vp[1] by {
      assert vp[1..] == [vp[1]];
    }
    assert parts[2] == "HTTP/1.1";
    JoinSplit(s, ' ');
    assert parts == [parts[0], parts[1], parts[2]];
    Join3(parts[0], parts[1], parts[2], ' ');
  }

  /** Only the number of spaces decides whether the line has three parts: a
      doubled space or an extra token gives too many, a missing one too few. */
  lemma MalformedLineIff(s: string)
    ensures RequestLineFromString(s) == Err(MalformedLine) <==> Count(s, ' ') != 2
  {
    SplitCount(s, ' ');
  }

  lemma InvalidNotAccepted()
    ensures !AcceptedTarget("invalid")
  {
    assert SchemeFrom("invalid", 0) == NoScheme;
    IndexOfChar("invalid", '?');
  }

  lemma Join3(a: string, b: string, c: string, sep: char)
    ensures Join([a, b, c], sep) == a + [sep] + b + [sep] + c
  {
    assert [a, b, c][1..] == [b, c];
    assert [b, c][1..] == [c];
    assert Join([c], sep) == c;
    assert Join([b, c], sep) == b + [sep] + c;
  }

  lemma RequestLineParts(m: string, t: string, v: string)
    requires ' ' !in m && ' ' !in t && ' ' !in v
    ensures Split(m + " " + t + " " + v, ' ') == [m, t, v]
  {
    Join3(m, t, v, ' ');
    assert m + " " + t + " " + v == m + [' '] + t + [' '] + v;
    SplitJoin([m, t, v], ' ');
  }

  /** parseRequestLine's three results: the line and the bytes it used, no
      line and nothing used (more data needed), or an error. */
  datatype LineParse = LineParse(line: Option<RequestLine>, n: nat, err: Option<LineError>)

  function ParseRequestLine(data: string): (r: LineParse)
    ensures r.n <= |data|
    ensures r.n > 0 <==> r.line.Some?
    ensures r.err.Some? ==> r.n == 0
  {
    var idx := IndexOf(data, CRLF);
    if idx == -1 then LineParse(None, 0, None)
    else
      match RequestLineFromString(data[..idx])
      case Err(e) => LineParse(None, 0, Some(e))
      case Ok(rl) => LineParse(Some(rl), idx + |CRLF|, None)
  }

  /** More data is needed exactly when no CRLF has arrived; once one has, the
      line up to it decides the outcome and a success uses the line and its
      CRLF. */
  lemma ParseRequestLineCases(data: string)
    ensures ParseRequestLine(data) == LineParse(None, 0, None) <==> IndexOf(data, CRLF) == -1
    ensures IndexOf(data, CRLF) >= 0 ==>
              match RequestLineFromString(data[..IndexOf(data, CRLF)])
              case Ok(rl) => ParseRequestLine(data) == LineParse(Some(rl), IndexOf(data, CRLF) + 2, None)
              case Err(e) => ParseRequestLine(data) == LineParse(None, 0, Some(e))
  {
  }

  /** A rendered well-formed line followed by CRLF parses back to itself. */
  lemma ParseRequestLineRoundTrip(rl: RequestLine, rest: string)
    requires WellFormed(rl)
    ensures ParseRequestLine(Render(rl) + CRLF + rest) == LineParse(Some(rl), |Render(rl)| + 2, None)
  {
    var line := Render(rl);
    RenderHasNoCR(rl);
    IndexOfLineEnd(line, rest);
    assert (line + CRLF + rest)[..|line|] == line;
    RequestLineIff(line, rl);
  }

  /** A rendered well-formed line holds no carriage return. */
  lemma RenderHasNoCR(rl: RequestLine)
    requires WellFormed(rl)
    ensures '\r' !in Render(rl)
  {
    var line := Render(rl);
    UpperHasNoSpace(rl.requestMethod);
    forall j | 0 <= j < |line|
      ensures line[j] != '\r'
    {
      if j < |rl.requestMethod| {
        assert line[j] == rl.requestMethod[j];
      } else if |rl.requestMethod| < j < |rl.requestMethod| + 1 + |rl.requestTarget| {
        assert line[j] == rl.requestTarget[j - |rl.requestMethod| - 1];
        assert !IsCtl(rl.requestTarget[j - |rl.requestMethod| - 1]);
      }
    }
  }

  /** Once parseRequestLine has decided (a line or an error), more bytes
      change nothing. */
  lemma ParseRequestLineExtend(d: string, c: string)
    ensures ParseRequestLine(d).n > 0 || ParseRequestLine(d).err.Some? ==>
              ParseRequestLine(d + c) == ParseRequestLine(d)
  {
    IndexOfExtend(d, c, CRLF);
    var idx := IndexOf(d, CRLF);
    if idx >= 0 {
      assert (d + c)[..idx] == d[..idx];
    }
  }

  // ---------------------------------------------------------------------------
  // parseSingle and parse, on values

  /** What the request holds: its status, its request line and its header
      fields (an absent header map reads as the empty one). */
  datatype ParseState = ParseState(status: Status, line: RequestLine, fields: map<string, string>)

  const Initial: ParseState := ParseState(Initialized, RequestLine("", "", ""), map[])

  datatype ParseError =
    | LineFailed(lineError: LineError)
    | HeaderFailed(headerError: HeaderFields.HeaderError)
    | AlreadyParsed

  datatype StepResult = Stepped(state: ParseState, n: nat) | StepFailed(error: ParseError)

  /** parseSingle: one request line or one field line, by status. */
  function Step(s: ParseState, data: string): (r: StepResult)
    ensures r.Stepped? ==> r.n <= |data|
    ensures r.Stepped? && r.n == 0 ==> r.state == s
  {
    match s.status
    case Initialized =>
      var lp := ParseRequestLine(data);
      if lp.err.Some? then StepFailed(LineFailed(lp.err.value))
      else if lp.n == 0 then Stepped(s, 0)
      else Stepped(s.(status := ParsingHeaders, line := lp.line.value), lp.n)
    case ParsingHeaders =>
      var fp := HeaderFields.ParseField(s.fields, data);
      if fp.err.Some? then StepFailed(HeaderFailed(fp.err.value))
      else Stepped(s.(fields := fp.fields, status := if fp.done then Done else ParsingHeaders), fp.n)
    case Done =>
      StepFailed(AlreadyParsed)
  }

  /** The status only moves forward, Initialized, ParsingHeaders, Done; past
      Initialized the request line stays; Done is reached only on the blank
      line that ends the header block; and a request already Done refuses
      another step. */
  lemma StepMonotone(s: ParseState, data: string)
    ensures Step(s, data).Stepped? ==> Rank(s.status) <= Rank(Step(s, data).state.status)
    ensures Step(s, data).Stepped? && s.status != Initialized ==> Step(s, data).state.line == s.line
    ensures Step(s, data).Stepped? && Step(s, data).state.status == Done ==>
              s.status == ParsingHeaders && HeaderFields.ParseField(s.fields, data).done
    ensures s.status == Done ==> Step(s, data) == StepFailed(AlreadyParsed)
  {
  }

  /** The request line is taken exactly once, on the step that leaves
      Initialized, and is what parseRequestLine returned. */
  lemma StepTakesLine(s: ParseState, data: string)
    requires s.status == Initialized && Step(s, data).Stepped?
    ensures Step(s, data).state.status != Initialized <==> ParseRequestLine(data).line.Some?
    ensures ParseRequestLine(data).line.Some? ==>
              Step(s, data).state == s.(status := ParsingHeaders, line := ParseRequestLine(data).line.value)
  {
  }

  /** A step that used bytes, or failed, does the same on a longer input. */
  lemma StepExtend(s: ParseState, d: string, c: string)
    ensures Step(s, d).Stepped? && Step(s, d).n > 0 ==> Step(s, d + c) == Step(s, d)
    ensures Step(s, d).StepFailed? ==> Step(s, d + c).StepFailed?
  {
    match s.status
    case Initialized => ParseRequestLineExtend(d, c);
    case ParsingHeaders => HeaderFields.ParseFieldExtend(s.fields, d, c);
    case Done =>
  }

  datatype RunResult = Ran(state: ParseState, n: nat) | RunFailed(state: ParseState, error: ParseError)

  function Shift(r: RunResult, k: nat): RunResult {
    match r
    case Ran(s, n) => Ran(s, n + k)
    case RunFailed(s, e) => RunFailed(s, e)
  }

  lemma ShiftShift(r: RunResult, a: nat, b: nat, c: nat)
    requires c == a + b
    ensures Shift(Shift(r, a), b) == Shift(r, c)
  {
  }

  /** parse resumed after `total` bytes, one step further along: the step
      consumed the bytes up to `next`. */
  lemma RunAdvance(start: ParseState, data: string, total: nat, next: nat, s0: ParseState, s1: ParseState)
    requires total < next && total <= |data| && Run(start, data) == Shift(Run(s0, data[total..]), total)
    requires s0.status != Done && Step(s0, data[total..]) == Stepped(s1, next - total)
    ensures next <= |data|
    ensures Run(start, data) == Shift(Run(s1, data[next..]), next)
  {
    var d, k := data[total..], next - total;
    RunUnfold(s0, d, s1, k);
    assert d[k..] == data[next..];
    ShiftChain(Run(start, data), Run(s0, d), Run(s1, data[next..]), total, k, next);
  }

  lemma ShiftChain(a: RunResult, b: RunResult, c: RunResult, i: nat, j: nat, k: nat)
    requires a == Shift(b, i) && b == Shift(c, j) && k == i + j
    ensures a == Shift(c, k)
  {
  }

  /** Zero bytes consumed so far: parse resumed at the start is parse. */
  lemma RunAtStart(s: ParseState, data: string)
    ensures Run(s, data) == Shift(Run(s, data[0..]), 0)
  {
    assert data[0..] == data;
    ShiftShift(Run(s, data), 0, 0, 0);
  }

  /** parse: steps until Done or until a step uses nothing; on an error it
      reports nothing consumed, and the state holds what earlier steps did. */
  function Run(s: ParseState, data: string): (r: RunResult)
    ensures r.Ran? ==> r.n <= |data|
    decreases |data|
  {
    if s.status == Done then Ran(s, 0)
    else
      match Step(s, data)
      case StepFailed(e) => RunFailed(s, e)
      case Stepped(s1, n) =>
        if n == 0 then Ran(s1, 0) else Shift(Run(s1, data[n..]), n)
  }

  /** Past Initialized, parse never touches the request line again, nor goes
      back to Initialized. */
  lemma {:induction false} RunKeepsLine(s: ParseState, data: string)
    requires s.status != Initialized
    ensures Run(s, data).state.line == s.line && Run(s, data).state.status != Initialized
    decreases |data|
  {
    if s.status != Done {
      StepMonotone(s, data);
      match Step(s, data)
      case StepFailed(_) =>
      case Stepped(s1, n) =>
        if n > 0 {
          RunKeepsLine(s1, data[n..]);
        }
    }
  }

  /** One step of parse, read off its definition: a step that uses bytes is
      followed by parse on the rest. */
  lemma RunUnfold(s: ParseState, d: string, s1: ParseState, n: nat)
    requires s.status != Done && Step(s, d) == Stepped(s1, n) && n > 0
    ensures Run(s, d) == Shift(Run(s1, d[n..]), n)
  {
  }

  /** A step that fails makes parse fail. */
  lemma RunFailsHere(s: ParseState, d: string)
    requires s.status != Done && Step(s, d).StepFailed?
    ensures Run(s, d) == RunFailed(s, Step(s, d).error)
  {
  }

  /** A step that uses nothing ends parse. */
  lemma RunStopsHere(s: ParseState, d: string)
    requires s.status != Done && Step(s, d).Stepped? && Step(s, d).n == 0
    ensures Run(s, d) == Ran(s, 0)
  {
  }

  /** parse stops only at Done or where a further step would use nothing. */
  lemma {:induction false} RunStops(s: ParseState, data: string)
    requires Run(s, data).Ran?
    ensures var r := Run(s, data);
            r.state.status == Done || Step(r.state, data[r.n..]) == Stepped(r.state, 0)
    decreases |data|
  {
    assert data[0..] == data;
    if s.status != Done {
      var st := Step(s, data);
      if st.StepFailed? {
        RunFailsHere(s, data);
      } else if st.n == 0 {
        RunStopsHere(s, data);
      } else {
        var s1, n := st.state, st.n;
        RunUnfold(s, data, s1, n);
        var r1 := Run(s1, data[n..]);
        RunStops(s1, data[n..]);
        assert data[n..][r1.n..] == data[n + r1.n..];
      }
    }
  }

  lemma FailedRunUsedBytes(s: ParseState, d: string)
    requires Run(s, d).RunFailed? && Step(s, d).Stepped?
    ensures s.status != Done && Step(s, d).n > 0
  {
  }

  lemma DropAppend(d: string, c: string, n: nat)
    requires n <= |d|
    ensures (d + c)[n..] == d[n..] + c
  {
  }

  /** Where parse stopped is where it resumes: if parse stops on `d` in
      state `st` after `j` bytes, what it makes of more bytes is what it
      makes, from `st`, of the bytes it left plus the new ones. */
  lemma {:induction false} RunResume(s: ParseState, d: string, c: string, st: ParseState, j: nat)
    requires Run(s, d) == Ran(st, j)
    ensures j <= |d|
    ensures Run(s, d + c) == Shift(Run(st, d[j..] + c), j)
    decreases |d|
  {
    if s.status != Done && Step(s, d).n > 0 {
      var s1, n, k := RunStepped(s, d, st, j);
      RunResume(s1, d[n..], c, st, k);
      StepExtend(s, d, c);
      RunUnfold(s, d + c, s1, n);
      RunResumeStep(s, d, c, s1, n, st, k);
      assert d[n + k..] == d[j..];
    } else {
      RunResumeHere(s, d, c, st, j);
    }
  }

  /** The base case of RunResume: parse stops at once. */
  lemma RunResumeHere(s: ParseState, d: string, c: string, st: ParseState, j: nat)
    requires Run(s, d) == Ran(st, j) && (s.status == Done || Step(s, d).n == 0)
    ensures st == s && j == 0
    ensures Run(s, d + c) == Shift(Run(st, d[j..] + c), j)
  {
    if s.status != Done {
      RunStopsHere(s, d);
    }
    assert d[0..] == d;
    ShiftZero(Run(s, d + c));
  }

  lemma ShiftZero(r: RunResult)
    ensures Shift(r, 0) == r
  {
  }

  /** Where parse stops, read after one step that used `n` bytes. */
  lemma RunStepped(s: ParseState, d: string, st: ParseState, j: nat) returns (s1: ParseState, n: nat, k: nat)
    requires Run(s, d) == Ran(st, j) && s.status != Done && Step(s, d).Stepped? && Step(s, d).n > 0
    ensures Step(s, d) == Stepped(s1, n) && n > 0 && n + k == j <= |d|
    ensures Run(s1, d[n..]) == Ran(st, k)
  {
    s1, n := Step(s, d).state, Step(s, d).n;
    RunUnfold(s, d, s1, n);
    k := Run(s1, d[n..]).n;
  }

  /** The inductive step of RunResume on the extended input: parse on
      `d + c` takes the same first step of `n` bytes as on `d`. */
  lemma RunResumeStep(s: ParseState, d: string, c: string, s1: ParseState, n: nat, st: ParseState, k: nat)
    requires n > 0 && n + k <= |d| && Run(s, d + c) == Shift(Run(s1, (d + c)[n..]), n)
    requires Run(s1, d[n..] + c) == Shift(Run(st, d[n..][k..] + c), k)
    ensures Run(s, d + c) == Shift(Run(st, d[n + k..] + c), n + k)
  {
    DropAppend(d, c, n);
    assert d[n..][k..] == d[n + k..];
    ShiftShift(Run(st, d[n + k..] + c), k, n, n + k);
  }

  /** A failure stays a failure whatever follows. */
  lemma {:induction false} RunFailExtend(s: ParseState, d: string, c: string)
    requires Run(s, d).RunFailed?
    ensures Run(s, d + c).RunFailed?
    decreases |d|
  {
    StepExtend(s, d, c);
    if Step(s, d).StepFailed? {
      RunFailsHere(s, d + c);
    } else {
      FailedRunUsedBytes(s, d);
      var s1, n := Step(s, d).state, Step(s, d).n;
      RunUnfold(s, d, s1, n);
      RunFailExtend(s1, d[n..], c);
      DropAppend(d, c, n);
      RunUnfold(s, d + c, s1, n);
    }
  }

  // ---------------------------------------------------------------------------
  // The outcome of reading a whole request

  datatype RequestError = Incomplete | ParseFailed(error: ParseError)

  datatype Outcome = Parsed(state: ParseState) | Failed(error: RequestError)

  /** What RequestFromReader makes of `data` when EOF follows it: the parsed
      request once the blank line ends the headers, the parse error if one
      occurs, and otherwise "Incomplete Request". */
  function FromBytes(data: string): (o: Outcome)
    ensures o.Parsed? ==> o.state.status == Done
  {
    match Run(Initial, data)
    case RunFailed(_, e) => Failed(ParseFailed(e))
    case Ran(s, _) => if s.status == Done then Parsed(s) else Failed(Incomplete)
  }

  /** A parsed request, or a parse error, is final: bytes after it change
      neither the request nor the fact of failure. */
  lemma FromBytesExtend(d: string, c: string)
    ensures FromBytes(d).Parsed? ==> FromBytes(d + c) == FromBytes(d)
    ensures FromBytes(d).Failed? && FromBytes(d).error.ParseFailed? ==>
              FromBytes(d + c).Failed? && FromBytes(d + c).error.ParseFailed?
  {
    if Run(Initial, d).Ran? {
      RunResume(Initial, d, c, Run(Initial, d).state, Run(Initial, d).n);
    } else {
      RunFailExtend(Initial, d, c);
    }
  }

  /** Two outcomes agree when they are the same request, or are both
      "Incomplete Request", or are both parse errors. */
  predicate Agrees(o1: Outcome, o2: Outcome) {
    o1 == o2 || (o1.Failed? && o2.Failed? && o1.error.ParseFailed? == o2.error.ParseFailed?)
  }

  /** A well-formed request line is taken in one step, and parse goes on
      with the bytes after its CRLF. */
  lemma RunTakesLine(rl: RequestLine, rest: string)
    requires WellFormed(rl)
    ensures Run(Initial, Render(rl) + CRLF + rest) ==
            Shift(Run(ParseState(ParsingHeaders, rl, map[]), rest), |Render(rl)| + 2)
  {
    var data := Render(rl) + CRLF + rest;
    var k := |Render(rl)| + 2;
    ParseRequestLineRoundTrip(rl, rest);
    RunUnfold(Initial, data, ParseState(ParsingHeaders, rl, map[]), k);
    assert data[k..] == rest;
  }

  /** The blank line ends the header block: parse stops there, Done, having
      used its two bytes. */
  lemma RunEndsAtBlankLine(s: ParseState, rest: string)
    requires s.status == ParsingHeaders
    ensures Run(s, CRLF + rest) == Ran(s.(status := Done), 2)
  {
    HeaderFields.ParseDoneIff(s.fields, CRLF + rest);
    assert (CRLF + rest)[..2] == CRLF;
    RunUnfold(s, CRLF + rest, s.(status := Done), 2);
  }

  /** A request whose request line is rendered from a well-formed line and
      whose header block is empty parses to that line with no fields. */
  lemma BareRequest(rl: RequestLine, rest: string)
    requires WellFormed(rl)
    ensures FromBytes(Render(rl) + CRLF + CRLF + rest) == Parsed(ParseState(Done, rl, map[]))
  {
    assert Render(rl) + CRLF + CRLF + rest == Render(rl) + CRLF + (CRLF + rest);
    RunTakesLine(rl, CRLF + rest);
    RunEndsAtBlankLine(ParseState(ParsingHeaders, rl, map[]), rest);
  }

  /** Every proper prefix of a bare request (a well-formed request line, its
      CRLF and the blank line) is an incomplete request: either its request
      line has not ended yet, or the blank line has not fully arrived. */
  lemma BarePrefixIncomplete(rl: RequestLine, k: nat)
    requires WellFormed(rl) && k < |Render(rl)| + 4
    ensures FromBytes((Render(rl) + CRLF + CRLF)[..k]) == Failed(Incomplete)
  {
    var line := Render(rl);
    var p := (line + CRLF + CRLF)[..k];
    if k <= |line| + 1 {
      RenderHasNoCR(rl);
      forall j | 0 <= j < k - 1
        ensures p[j] != '\r'
      {
        assert p[j] == line[j];
      }
      NoLineEnd(p);
      ParseRequestLineCases(p);
    } else {
      var q := (line + CRLF + CRLF)[|line| + 2..k];
      assert p == line + CRLF + q;
      RunTakesLine(rl, q);
      var s := ParseState(ParsingHeaders, rl, map[]);
      assert HeaderFields.ParseField(s.fields, q) == HeaderFields.FieldParse(0, false, None, s.fields);
      assert Run(s, q) == Ran(s, 0);
    }
  }

  // ---------------------------------------------------------------------------
  // The request object

  class Request {
    var requestLine: RequestLine
    var headers: HeaderFields.Headers?
    var status: Status

    constructor ()
      ensures State() == Initial && headers == null
    {
      requestLine := RequestLine("", "", "");
      headers := null;
      status := Initialized;
    }

    function State(): ParseState
      reads this, headers
    {
      ParseState(status, requestLine, if headers == null then map[] else headers.fields)
    }

    method ParseSingle(data: string) returns (n: nat, err: Option<ParseError>)
      modifies this, headers
      ensures headers == old(headers) || (old(headers) == null && fresh(headers))
      ensures err.None? ==> Step(old(State()), data) == Stepped(State(), n)
      ensures err.Some? ==> Step(old(State()), data) == StepFailed(err.value) && n == 0 && State() == old(State())
    {
      match status
      case Initialized =>
        var lp := ParseRequestLine(data);
        if lp.err.Some? {
          return 0, Some(LineFailed(lp.err.value));
        }
        if lp.n == 0 {
          return 0, None;
        }
        requestLine := lp.line.value;
        status := ParsingHeaders;
        return lp.n, None;
      case ParsingHeaders =>
        if headers == null {
          headers := new HeaderFields.Headers();
        }
        var bytesRead, doneHeaders, e := headers.Parse(data);
        if e.Some? {
          return 0, Some(HeaderFailed(e.value));
        }
        if doneHeaders {
          status := Done;
        }
        return bytesRead, None;
      case Done =>
        return 0, Some(AlreadyParsed);
    }

    method Parse(data: string) returns (n: nat, err: Option<ParseError>)
      modifies this, headers
      ensures headers == old(headers) || (old(headers) == null && fresh(headers))
      ensures err.None? ==> Run(old(State()), data) == Ran(State(), n)
      ensures err.Some? ==> Run(old(State()), data) == RunFailed(State(), err.value) && n == 0
    {
      var total: nat := 0;
      RunAtStart(State(), data);
      while status != Done
        invariant total <= |data|
        invariant headers == old(headers) || (old(headers) == null && fresh(headers))
        invariant Run(old(State()), data) == Shift(Run(State(), data[total..]), total)
        decreases |data| - total
      {
        ghost var s0 := State();
        var k, e := ParseSingle(data[total..]);
        if e.Some? {
          RunFailsHere(s0, data[total..]);
          return 0, e;
        }
        if k == 0 {
          RunStopsHere(s0, data[total..]);
          break;
        }
        var next := total + k;
        RunAdvance(old(State()), data, total, next, s0, State());
        total := next;
      }
      return total, None;
    }
  }

  // ---------------------------------------------------------------------------
  // The reader and RequestFromReader

  function Flatten(chunks: seq<string>): string {
    if chunks == [] then [] else chunks[0] + Flatten(chunks[1..])
  }

  /** An io.Reader that hands out a fixed sequence of chunks, each cut to the
      room the caller offers. With `eofWithLast` it reports EOF on the read
      that hands out its last bytes; otherwise on the read after it. */
  class ChunkReader {
    var chunks: seq<string>
    const eofWithLast: bool

    constructor (chunks: seq<string>, eofWithLast: bool)
      ensures this.chunks == chunks && this.eofWithLast == eofWithLast
    {
      this.chunks := chunks;
      this.eofWithLast := eofWithLast;
    }

    function Remaining(): string
      reads this
    {
      Flatten(chunks)
    }

    /** The last chunk still to be handed out holds bytes, so the read that
        reports EOF with it hands those bytes out too. */
    predicate EndsNonEmpty()
      reads this
    {
      chunks != [] && chunks[|chunks| - 1] != []
    }

    method Read(buf: array<char>, from: nat) returns (n: nat, eof: bool)
      requires from <= buf.Length
      modifies this, buf
      ensures from + n <= buf.Length
      ensures old(chunks) == [] ==> n == 0 && eof && chunks == []
      ensures old(chunks) != [] ==>
                && n == Min(|old(chunks)[0]|, buf.Length - from)
                && chunks == (if n == |old(chunks)[0]| then old(chunks)[1..]
                              else [old(chunks)[0][n..]] + old(chunks)[1..])
                && (eof <==> eofWithLast && chunks == [])
      ensures buf[..from] == old(buf[..from])
      ensures buf[from..from + n] == old(Remaining())[..n]
      ensures forall i :: 0 <= i < buf.Length && !(from <= i < from + n) ==> buf[i] == old(buf[i])
      ensures old(Remaining()) == buf[from..from + n] + Remaining()
      ensures eof && !eofWithLast ==> n == 0 && Remaining() == []
      ensures from < buf.Length && !eof ==>
                |Remaining()| < |old(Remaining())| || (n == 0 && |chunks| < |old(chunks)|)
      ensures eof ==> chunks == []
      ensures from < buf.Length && old(EndsNonEmpty()) ==> EndsNonEmpty() || (chunks == [] && n > 0)
    {
      if chunks == [] {
        return 0, true;
      }
      var c := chunks[0];
      n := Min(|c|, buf.Length - from);
      forall i | from <= i < from + n {
        buf[i] := c[i - from];
      }
      assert buf[from..from + n] == c[..n];
      assert c == c[..n] + c[n..];
      if n == |c| {
        chunks := chunks[1..];
      } else {
        chunks := [c[n..]] + chunks[1..];
      }
      eof := eofWithLast && chunks == [];
    }
  }

  /** A buffer twice as long holding the old contents at the front; the
      first `r` bytes, the buffered ones, are among them. */
  method Grow(buffer: array<char>, r: nat) returns (bigger: array<char>)
    requires r <= buffer.Length
    ensures fresh(bigger) && bigger.Length == 2 * buffer.Length
    ensures bigger[..buffer.Length] == buffer[..]
    ensures bigger[..r] == buffer[..r]
  {
    bigger := new char[buffer.Length * 2];
    forall i | 0 <= i < buffer.Length {
      bigger[i] := buffer[i];
    }
    assert bigger[..r] == bigger[..buffer.Length][..r];
  }

  /** Go's copy(buffer, buffer[n:]) followed by readToIndex -= n, with `r`
      bytes buffered: the bytes from `n` on move to the front and the tail
      keeps its old bytes, so the `left` unparsed bytes now start the buffer. */
  method Compact(buffer: array<char>, n: nat, r: nat) returns (left: nat)
    requires n <= r <= buffer.Length
    modifies buffer
    ensures buffer[..] == old(buffer[n..]) + old(buffer[buffer.Length - n..])
    ensures left == r - n && buffer[..left] == old(buffer[..r])[n..]
  {
    forall i | 0 <= i < buffer.Length - n {
      buffer[i] := buffer[i + n];
    }
    assert buffer[..] == old(buffer[n..]) + old(buffer[buffer.Length - n..]);
    left := r - n;
    assert buffer[..left] == buffer[..][..left];
  }

  /** One read of the loop: a full buffer is first replaced by one twice as
      long, then the reader fills it after the `r` buffered bytes. */
  method Fill(reader: ChunkReader, buffer: array<char>, r: nat) returns (buf: array<char>, n: nat, eof: bool)
    requires 0 < buffer.Length && r <= buffer.Length
    modifies reader, buffer
    ensures buf == buffer || fresh(buf)
    ensures buffer.Length <= buf.Length && r + n <= buf.Length
    ensures buf[..r + n] == old(buffer[..r]) + buf[r..r + n]
    ensures old(reader.Remaining()) == buf[r..r + n] + reader.Remaining()
    ensures eof && !reader.eofWithLast ==> n == 0 && reader.Remaining() == []
    ensures !eof ==> |reader.Remaining()| < |old(reader.Remaining())| ||
                     (n == 0 && |reader.chunks| < |old(reader.chunks)|)
    ensures eof ==> reader.chunks == [] && reader.Remaining() == []
    ensures !eof && reader.eofWithLast ==> reader.chunks != []
    ensures old(reader.EndsNonEmpty()) ==> reader.EndsNonEmpty() || (reader.chunks == [] && n > 0)
  {
    buf := buffer;
    if r >= buf.Length {
      buf := Grow(buf, r);
    }
    n, eof := reader.Read(buf, r);
    TakeConcat(buf[..], r, n);
  }

  /** RequestFromReader: read into a buffer that starts at eight bytes and
      doubles when full, parse what is buffered, and move the unparsed bytes to
      the front. `seen` is the input taken in (bytes handed out together with
      EOF are not). */
  method RequestFromReader(reader: ChunkReader)
      returns (request: Request?, err: Option<RequestError>, ghost seen: string, ghost dropped: string)
    modifies reader
    ensures seen <= old(reader.Remaining())
    ensures match FromBytes(seen)
            case Parsed(s) => err == None && request != null && request.State() == s
            case Failed(e) => err == Some(e) && request == null
    ensures !reader.eofWithLast ==> Agrees(FromBytes(seen), FromBytes(old(reader.Remaining())))
    ensures err == Some(Incomplete) ==>
              && reader.Remaining() == [] && old(reader.Remaining()) == seen + dropped
              && (dropped == [] || reader.eofWithLast)
    ensures reader.eofWithLast && old(reader.EndsNonEmpty()) ==> |seen| < |old(reader.Remaining())|
  {
    var req := new Request();
    var buffer := new char[BufferSize];
    var readToIndex: nat := 0;
    seen, dropped := [], [];
    ghost var all := reader.Remaining();
    ghost var endsNonEmpty := reader.EndsNonEmpty();
    ghost var consumed: nat := 0;
    while req.status != Done
      invariant fresh(req) && (req.headers == null || fresh(req.headers))
      invariant fresh(buffer) && BufferSize <= buffer.Length
      invariant readToIndex <= buffer.Length && consumed + readToIndex == |seen|
      invariant buffer[..readToIndex] == seen[consumed..]
      invariant all == seen + reader.Remaining()
      invariant Run(Initial, seen) == Ran(req.State(), consumed)
      invariant reader.eofWithLast && endsNonEmpty ==> reader.EndsNonEmpty()
      decreases |reader.Remaining()|, |reader.chunks|
    {
      var eof, e;
      ghost var delivered, used;
      buffer, readToIndex, eof, e, delivered, used := ReadAndParse(req, reader, buffer, readToIndex, seen, consumed);
      if eof {
        // The loop runs only while the request is not Done, so EOF here
        // always means an incomplete request; what this last read handed
        // out is dropped.
        IncompleteOutcome(seen, req.State(), consumed, all, delivered + reader.Remaining());
        DroppedAtEof(all, seen, delivered, reader.Remaining());
        return null, Some(Incomplete), seen, delivered;
      }
      AppendAssoc(seen, delivered, reader.Remaining());
      seen := seen + delivered;
      if e.Some? {
        FromBytesExtend(seen, reader.Remaining());
        ShorterThanAll(all, seen, reader.chunks);
        return null, Some(ParseFailed(e.value)), seen, [];
      }
      consumed := used;
    }
    DoneOutcome(seen, req.State(), consumed, all, reader.Remaining());
    ShorterThanAll(all, seen, reader.chunks);
    return req, None, seen, [];
  }

  /** One turn of the loop: one read (after growing a full buffer) and,
      unless the read reported EOF, one parse of the buffered bytes and their
      move to the front. */
  method ReadAndParse(req: Request, reader: ChunkReader, buffer: array<char>, readToIndex: nat,
                      ghost seen: string, ghost consumed: nat)
      returns (buf: array<char>, left: nat, eof: bool, err: Option<ParseError>, ghost delivered: string, ghost used: nat)
    requires 0 < buffer.Length && readToIndex <= buffer.Length
    requires consumed + readToIndex == |seen| && buffer[..readToIndex] == seen[consumed..]
    requires Run(Initial, seen) == Ran(req.State(), consumed)
    modifies reader, buffer, req, req.headers
    ensures buf == buffer || fresh(buf)
    ensures buffer.Length <= buf.Length
    ensures req.headers == old(req.headers) || (old(req.headers) == null && fresh(req.headers))
    ensures old(reader.Remaining()) == delivered + reader.Remaining()
    ensures eof ==> reader.chunks == [] && req.State() == old(req.State())
    ensures eof && !reader.eofWithLast ==> delivered == []
    ensures !eof && reader.eofWithLast ==> reader.chunks != []
    ensures old(reader.EndsNonEmpty()) ==> reader.EndsNonEmpty() || (reader.chunks == [] && delivered != [])
    ensures !eof ==> |reader.Remaining()| < |old(reader.Remaining())| ||
                     (delivered == [] && |reader.chunks| < |old(reader.chunks)|)
    ensures !eof && err.None? ==>
              && left <= buf.Length && used + left == |seen + delivered|
              && buf[..left] == (seen + delivered)[used..]
              && Run(Initial, seen + delivered) == Ran(req.State(), used)
    ensures !eof && err.Some? ==> FromBytes(seen + delivered) == Failed(ParseFailed(err.value))
  {
    var nRead;
    buf, nRead, eof := Fill(reader, buffer, readToIndex);
    delivered := buf[readToIndex..readToIndex + nRead];
    if eof {
      return buf, readToIndex, eof, None, delivered, consumed;
    }
    left, err, used := ParseBuffered(req, buf, readToIndex + nRead, seen, consumed, delivered);
  }

  /** A reader that hands out "GET / HTTP/1.1\r\n\r\n" as one chunk and
      reports EOF with it: the request arrives whole, but the read that
      brings its blank line also reports EOF, so those bytes are dropped and
      the verdict is "Incomplete Request". */
  method EofWithLastRequest() returns (err: Option<RequestError>)
    ensures err == Some(Incomplete)
  {
    var rl := RequestLine("1.1", "/", "GET");
    var reader := new ChunkReader([Render(rl) + CRLF + CRLF], true);
    FlattenOne(Render(rl) + CRLF + CRLF);
    var request;
    ghost var seen, dropped;
    request, err, seen, dropped := RequestFromReader(reader);
    OriginFormAccepted("/");
    assert seen == (Render(rl) + CRLF + CRLF)[..|seen|];
    BarePrefixIncomplete(rl, |seen|);
  }

  lemma FlattenOne(chunk: string)
    ensures Flatten([chunk]) == chunk
  {
    assert [chunk][1..] == [];
  }

  /** Chunks whose last one holds bytes flatten to a non-empty string. */
  lemma {:induction false} FlattenEndsNonEmpty(chunks: seq<string>)
    ensures chunks != [] && chunks[|chunks| - 1] != [] ==> Flatten(chunks) != []
  {
    if |chunks| > 1 {
      FlattenEndsNonEmpty(chunks[1..]);
    }
  }

  /** Bytes still held by a last chunk are bytes not yet seen. */
  lemma ShorterThanAll(all: string, seen: string, chunks: seq<string>)
    requires all == seen + Flatten(chunks)
    ensures chunks != [] && chunks[|chunks| - 1] != [] ==> |seen| < |all|
  {
    FlattenEndsNonEmpty(chunks);
  }

  /** At EOF nothing is left, and the input is what was seen and what the
      last read handed out. */
  lemma DroppedAtEof(all: string, seen: string, delivered: string, remaining: string)
    requires all == seen + (delivered + remaining) && remaining == []
    ensures all == seen + delivered
  {
    assert delivered + remaining == delivered;
  }

  lemma DropAfterAppend(seen: string, k: nat, delivered: string, n: nat, used: nat)
    requires k <= |seen| && n <= |seen[k..] + delivered| && used == k + n
    ensures (seen + delivered)[used..] == (seen[k..] + delivered)[n..]
  {
    assert (seen + delivered)[k..] == seen[k..] + delivered;
  }

  /** One parse of the `filled` buffered bytes, which are the unparsed bytes
      of `seen` followed by the newly `delivered` ones, and the move of the
      unparsed rest to the front of the buffer. It continues the parse of
      everything seen, which has then used `used` bytes, or ends it with the
      same error. */
  method ParseBuffered(req: Request, buffer: array<char>, filled: nat, ghost seen: string, ghost consumed: nat,
                       ghost delivered: string)
      returns (left: nat, err: Option<ParseError>, ghost used: nat)
    requires filled <= buffer.Length
    requires consumed <= |seen| && Run(Initial, seen) == Ran(req.State(), consumed)
    requires buffer[..filled] == seen[consumed..] + delivered
    modifies req, req.headers, buffer
    ensures req.headers == old(req.headers) || (old(req.headers) == null && fresh(req.headers))
    ensures err.None? ==> && left <= filled && used + left == |seen + delivered|
                          && buffer[..left] == (seen + delivered)[used..]
                          && Run(Initial, seen + delivered) == Ran(req.State(), used)
    ensures err.Some? ==> FromBytes(seen + delivered) == Failed(ParseFailed(err.value))
  {
    RunResume(Initial, seen, delivered, req.State(), consumed);
    var n;
    n, err := req.Parse(buffer[..filled]);
    if err.Some? {
      return 0, err, 0;
    }
    used := consumed + n;
    DropAfterAppend(seen, consumed, delivered, n, used);
    left := Compact(buffer, n, filled);
  }

  /** EOF before Done: "Incomplete Request", which is also the verdict on the
      whole input unless the reader handed bytes out together with EOF. */
  lemma IncompleteOutcome(seen: string, s: ParseState, k: nat, all: string, rest: string)
    requires Run(Initial, seen) == Ran(s, k) && s.status != Done
    requires all == seen + rest
    ensures FromBytes(seen) == Failed(Incomplete)
    ensures rest == [] ==> Agrees(FromBytes(seen), FromBytes(all))
  {
    assert rest == [] ==> all == seen;
  }

  lemma AppendAssoc(a: string, b: string, c: string)
    ensures a + (b + c) == (a + b) + c
  {
  }

  lemma TakeConcat(b: seq<char>, i: nat, n: nat)
    requires i + n <= |b|
    ensures b[..i + n] == b[..i] + b[i..i + n]
  {
  }

  /** Done: the request parsed from what was seen, whatever followed it. */
  lemma DoneOutcome(seen: string, s: ParseState, k: nat, all: string, remaining: string)
    requires Run(Initial, seen) == Ran(s, k) && s.status == Done
    requires all == seen + remaining
    ensures FromBytes(seen) == Parsed(s)
    ensures Agrees(FromBytes(seen), FromBytes(all))
  {
    FromBytesExtend(seen, remaining);
  }
}
