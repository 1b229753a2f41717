/** internal/headers/headers.go: the header collection, a map from lower-cased
    field name to value, and the parser of one field line. */
module HeaderFields {
  import opened Results
  import opened Wire

  datatype HeaderError =
    | NoColon        // "no colon found"
    | MalformedKey   // "malformed key with space"
    | InvalidKey     // "invalid key characters"

  /** tchar of section 5.6.2 of RFC 9110. */
  predicate IsTchar(c: char) {
    || 'a' <= c <= 'z' || 'A' <= c <= 'Z' || '0' <= c <= '9'
    || c in "!#$%&'*+-.^_`|~"
  }

  /** isValidKey: a field name is a token, one or more tchars. */
  predicate IsValidKey(key: string) {
    |key| > 0 && forall i :: 0 <= i < |key| ==> IsTchar(key[i])
  }

  /** validateKeyWhitespace, as the predicate "reports an error": the rune
      loop returns at the first white-space character. */
  function HasWhitespace(key: string): (r: bool)
    ensures r <==> exists i :: 0 <= i < |key| && IsSpace(key[i])
  {
    if key == [] then false
    else if IsSpace(key[0]) then true
    else
      var rest := HasWhitespace(key[1..]);
      assert forall i :: 1 <= i < |key| ==> key[i] == key[1..][i - 1];
      rest
  }

  // ---------------------------------------------------------------------------
  // The map updates behind Set, Overwrite and Get

  /** Set on the map value: an invalid name is refused; a name already present
      gets ", " and the new value appended; a new name is inserted. */
  function SetField(m: map<string, string>, key: string, value: string): (r: Result<map<string, string>, HeaderError>)
    ensures r.Err? <==> !IsValidKey(key)
    ensures r.Err? ==> r.error == InvalidKey
    ensures r.Ok? ==> r.value.Keys == m.Keys + {Lower(key)}
    ensures r.Ok? ==> forall k :: k in m && k != Lower(key) ==> r.value[k] == m[k]
    ensures r.Ok? && Lower(key) in m ==> r.value[Lower(key)] == m[Lower(key)] + ", " + value
    ensures r.Ok? && Lower(key) !in m ==> r.value[Lower(key)] == value
  {
    if !IsValidKey(key) then Err(InvalidKey)
    else
      var k := Lower(key);
      if k in m then Ok(m[k := m[k] + ", " + value]) else Ok(m[k := value])
  }

  /** Overwrite on the map value: like Set, but the value replaces any old one. */
  function OverwriteField(m: map<string, string>, key: string, value: string): (r: Result<map<string, string>, HeaderError>)
    ensures r.Err? <==> !IsValidKey(key)
    ensures r.Ok? ==> r.value.Keys == m.Keys + {Lower(key)} && r.value[Lower(key)] == value
    ensures r.Ok? ==> forall k :: k in m && k != Lower(key) ==> r.value[k] == m[k]
  {
    if !IsValidKey(key) then Err(InvalidKey) else Ok(m[Lower(key) := value])
  }

  /** Get on the map value: the lookup is made with the lower-cased name. */
  function Lookup(m: map<string, string>, key: string): (r: (string, bool))
    ensures r.1 <==> Lower(key) in m
    ensures r.1 ==> r.0 == m[Lower(key)]
    ensures !r.1 ==> r.0 == ""
  {
    if Lower(key) in m then (m[Lower(key)], true) else ("", false)
  }

  // ---------------------------------------------------------------------------
  // Parse on the map value

  /** What one call of Parse reports, with the map it leaves behind. */
  datatype FieldParse = FieldParse(n: nat, done: bool, err: Option<HeaderError>, fields: map<string, string>)

  /** If the first colon lies beyond the first CRLF, the name candidate keeps
      that CR after its leading spaces are stripped, so the white-space check
      fires; the slice between colon and CRLF is therefore never inverted. */
  lemma ColonBeyondLineHasSpace(data: string, idx: nat, idxSep: nat)
    requires idx < idxSep <= |data| && data[idx] == '\r'
    ensures HasWhitespace(TrimLeftSpaces(data[..idxSep]))
  {
    var key := data[..idxSep];
    var t := TrimLeftSpaces(key);
    assert key[idx] == '\r';
    assert |key| - |t| <= idx;
    assert t[idx - (|key| - |t|)] == '\r';
  }

  lemma ColonWithinLine(data: string, idx: nat, idxSep: nat)
    requires idx < |data| && idxSep <= |data| && data[idx] == '\r'
    requires idxSep < |data| ==> data[idxSep] == ':'
    requires !HasWhitespace(TrimLeftSpaces(data[..idxSep]))
    ensures idxSep < idx
  {
    if idxSep > idx {
      ColonBeyondLineHasSpace(data, idx, idxSep);
    }
  }

  /** Parse: one field line per call. No CRLF yet: nothing consumed, not done.
      CRLF first: the blank line ending the block. Otherwise the text before
      the first colon, stripped of leading spaces, must hold no white space;
      the value between colon and CRLF is trimmed and handed to Set. */
  function ParseField(m: map<string, string>, data: string): (r: FieldParse)
    ensures r.n <= |data|
    ensures r.err.Some? ==> r.n == 0 && !r.done && r.fields == m
    ensures r.done ==> r.n == 2 && r.fields == m
    ensures r.n == 0 ==> r.fields == m && !r.done
  {
    var idx := IndexOf(data, CRLF);
    if idx == -1 then FieldParse(0, false, None, m)
    else if idx == 0 then FieldParse(2, true, None, m)
    else
      var idxSep := IndexOf(data, ":");
      if idxSep == -1 then FieldParse(0, false, Some(NoColon), m)
      else
        var key := TrimLeftSpaces(data[..idxSep]);
        if HasWhitespace(key) then FieldParse(0, false, Some(MalformedKey), m)
        else
          IndexOfCRLF(data);
          IndexOfChar(data, ':');
          ColonWithinLine(data, idx, idxSep);
          var value := TrimSpace(data[idxSep + 1..idx]);
          match SetField(m, TrimSpace(key), value)
          case Err(e) => FieldParse(0, false, Some(e), m)
          case Ok(m') => FieldParse(idx + 2, false, None, m')
  }

  // ---------------------------------------------------------------------------
  // The collection itself: Go's Headers map, updated in place

  class Headers {
    var fields: map<string, string>

    /** NewHeaders: an empty collection. */
    constructor ()
      ensures fields == map[]
    {
      fields := map[];
    }

    method Set(key: string, value: string) returns (err: Option<HeaderError>)
      modifies this
      ensures match SetField(old(fields), key, value)
              case Ok(m) => err == None && fields == m
              case Err(e) => err == Some(e) && fields == old(fields)
    {
      if !IsValidKey(key) {
        return Some(InvalidKey);
      }
      var k := Lower(key);
      if k in fields {
        fields := fields[k := fields[k] + ", " + value];
        return None;
      }
      fields := fields[k := value];
      return None;
    }

    method Overwrite(key: string, value: string) returns (err: Option<HeaderError>)
      modifies this
      ensures match OverwriteField(old(fields), key, value)
              case Ok(m) => err == None && fields == m
              case Err(e) => err == Some(e) && fields == old(fields)
    {
      if !IsValidKey(key) {
        return Some(InvalidKey);
      }
      fields := fields[Lower(key) := value];
      return None;
    }

    /** Get: the value stored under the lower-cased name, and whether there
        is one; the empty string when there is not. */
    function Get(key: string): (r: (string, bool))
      reads this
      ensures r.1 <==> Lower(key) in fields
      ensures r.1 ==> r.0 == fields[Lower(key)]
      ensures !r.1 ==> r.0 == ""
    {
      Lookup(fields, key)
    }

    method Parse(data: string) returns (n: nat, done: bool, err: Option<HeaderError>)
      modifies this
      ensures FieldParse(n, done, err, fields) == ParseField(old(fields), data)
    {
      var idx := IndexOf(data, CRLF);
      if idx == -1 {
        return 0, false, None;
      }
      if idx == 0 {
        return |CRLF|, true, None;
      }
      var idxSep := IndexOf(data, ":");
      if idxSep == -1 {
        return 0, false, Some(NoColon);
      }
      var key := TrimLeftSpaces(data[..idxSep]);
      if HasWhitespace(key) {
        return 0, false, Some(MalformedKey);
      }
      IndexOfCRLF(data);
      IndexOfChar(data, ':');
      ColonWithinLine(data, idx, idxSep);
      key := TrimSpace(key);
      var value := TrimSpace(data[idxSep + 1..idx]);
      err := Set(key, value);
      if err.Some? {
        return 0, false, err;
      }
      return idx + |CRLF|, false, None;
    }
  }

  // ---------------------------------------------------------------------------
  // Properties of Parse

  /** Parse asks for more data (0 consumed, not done, no error, map untouched)
      exactly when the input holds no CRLF. */
  lemma ParseNeedsMoreIff(m: map<string, string>, data: string)
    ensures (ParseField(m, data) == FieldParse(0, false, None, m)) <==> IndexOf(data, CRLF) == -1
  {
  }

  /** Parse reports the end of the block exactly when the input starts with
      CRLF, and then consumes those two bytes and nothing else. */
  lemma ParseDoneIff(m: map<string, string>, data: string)
    ensures ParseField(m, data).done <==> |data| >= 2 && data[..2] == CRLF
    ensures ParseField(m, data).done ==> ParseField(m, data) == FieldParse(2, true, None, m)
  {
    ParseDoneAtStart(m, data);
    CRLFAtStart(data);
    var r := ParseField(m, data);
    if r.done {
      assert r.n == 2 && r.err.None? && r.fields == m;
    }
  }

  lemma ParseDoneAtStart(m: map<string, string>, data: string)
    ensures ParseField(m, data).done <==> IndexOf(data, CRLF) == 0
  {
  }

  lemma CRLFAtStart(data: string)
    ensures IndexOf(data, CRLF) == 0 <==> |data| >= 2 && data[..2] == CRLF
  {
    if |data| >= 2 && data[..2] == CRLF {
      assert OccursAt(data, CRLF, 0);
    }
  }

  /** A field line: any number of leading spaces, a token name, a colon, a
      value with no CR or LF, and CRLF. */
  predicate IsFieldLine(spaces: string, name: string, raw: string) {
    && (forall i :: 0 <= i < |spaces| ==> spaces[i] == ' ')
    && IsValidKey(name)
    && (forall i :: 0 <= i < |raw| ==> raw[i] != '\r' && raw[i] != '\n')
  }

  lemma TokenHasNoColonOrSpace(name: string)
    requires IsValidKey(name)
    ensures ':' !in name && !HasWhitespace(name)
  {
    forall i | 0 <= i < |name|
      ensures name[i] != ':' && !IsSpace(name[i])
    {
      TcharIsNotColonOrSpace(name[i]);
    }
  }

  lemma TcharIsNotColonOrSpace(c: char)
    requires IsTchar(c)
    ensures c != ':' && !IsSpace(c)
  {
  }

  /** In a field line the first CRLF is the one ending it. */
  lemma FieldLineCRLF(spaces: string, name: string, raw: string, rest: string)
    requires IsFieldLine(spaces, name, raw)
    ensures IndexOf(spaces + name + ":" + raw + CRLF + rest, CRLF) == |spaces| + |name| + 1 + |raw|
  {
    var line := spaces + name + ":" + raw;
    forall j | 0 <= j < |line|
      ensures line[j] != '\r'
    {
      if j < |spaces| {
        assert line[j] == spaces[j];
      } else if j < |spaces| + |name| {
        assert line[j] == name[j - |spaces|];
        assert IsTchar(name[j - |spaces|]);
      } else if j > |spaces| + |name| {
        assert line[j] == raw[j - |spaces| - |name| - 1];
      }
    }
    IndexOfLineEnd(line, rest);
    assert line + CRLF + rest == spaces + name + ":" + raw + CRLF + rest;
  }

  /** In a field line the first colon is the one ending the name. */
  lemma FieldLineColon(spaces: string, name: string, raw: string, rest: string)
    requires IsFieldLine(spaces, name, raw)
    ensures IndexOf(spaces + name + ":" + raw + CRLF + rest, ":") == |spaces| + |name|
  {
    var data := spaces + name + ":" + raw + CRLF + rest;
    var c := |spaces| + |name|;
    TokenHasNoColonOrSpace(name);
    IndexOfChar(data, ':');
    assert data[c] == ':';
    forall j | 0 <= j < c
      ensures data[j] != ':'
    {
      if j < |spaces| {
        assert data[j] == spaces[j];
      } else {
        assert data[j] == name[j - |spaces|];
      }
    }
  }

  /** The success path of Parse, read off its definition. */
  lemma ParseFieldOk(m: map<string, string>, data: string, idx: nat, idxSep: nat, key: string, value: string)
    requires IndexOf(data, CRLF) == idx > 0 && IndexOf(data, ":") == idxSep && idxSep < idx
    requires TrimLeftSpaces(data[..idxSep]) == key && !HasWhitespace(key)
    requires TrimSpace(data[idxSep + 1..idx]) == value && IsValidKey(TrimSpace(key))
    ensures ParseField(m, data) == FieldParse(idx + 2, false, None, SetField(m, TrimSpace(key), value).value)
  {
  }

  /** A well-formed field line consumes up to and including its CRLF, is not
      the end of the block, and stores the trimmed value under the lower-cased
      name, combined with any earlier value as Set does. */
  lemma ParseFieldLine(m: map<string, string>, spaces: string, name: string, raw: string, rest: string)
    requires IsFieldLine(spaces, name, raw)
    ensures var data := spaces + name + ":" + raw + CRLF + rest;
            ParseField(m, data) == FieldParse(|spaces| + |name| + 1 + |raw| + 2, false, None,
                                              SetField(m, name, TrimSpace(raw)).value)
  {
    var data := spaces + name + ":" + raw + CRLF + rest;
    var idx := |spaces| + |name| + 1 + |raw|;
    var c := |spaces| + |name|;
    FieldLineCRLF(spaces, name, raw, rest);
    FieldLineColon(spaces, name, raw, rest);
    TokenHasNoColonOrSpace(name);
    assert data[..c] == spaces + name;
    TrimLeftPastSpaces(spaces, name);
    assert data[c + 1..idx] == raw;
    assert IsTchar(name[0]) && IsTchar(name[|name| - 1]);
    TrimSpaceOfTrimmed(name);
    ParseFieldOk(m, data, idx, c, name, TrimSpace(raw));
  }

  lemma {:induction false} TrimLeftPastSpaces(spaces: string, name: string)
    requires forall i :: 0 <= i < |spaces| ==> spaces[i] == ' '
    requires name == [] || name[0] != ' '
    ensures TrimLeftSpaces(spaces + name) == name
    decreases |spaces|
  {
    if spaces == [] {
      assert spaces + name == name;
    } else {
      assert (spaces + name)[1..] == spaces[1..] + name;
      TrimLeftPastSpaces(spaces[1..], name);
    }
  }

  /** One field line `name: value` on an empty map, followed by anything: the
      line and its CRLF are consumed and the value is stored under the
      lower-cased name. */
  lemma SingleField(name: string, v: string, rest: string)
    requires IsFieldLine("", name, " " + v)
    requires v != [] && !IsSpace(v[0]) && !IsSpace(v[|v| - 1])
    ensures ParseField(map[], name + ":" + (" " + v) + CRLF + rest) ==
            FieldParse(|name| + |v| + 4, false, None, map[Lower(name) := v])
  {
    ParseFieldLine(map[], "", name, " " + v, rest);
    assert "" + name == name;
    TrimSpaceAfterSpace(" ", v);
    SetFresh(name, v);
  }

  /** Set on an empty map gives the one entry. */
  lemma SetFresh(name: string, v: string)
    requires IsValidKey(name)
    ensures SetField(map[], name, v) == Ok(map[Lower(name) := v])
  {
  }

  /** The single field of the header test, `Host: localhost:42069` and the
      blank line: the line is 23 bytes and the blank line 2 more, 25 in all,
      and the value is stored under "host". */
  lemma HostFieldExample()
    ensures ParseField(map[], "Host" + ":" + (" " + "localhost:42069") + CRLF + CRLF) ==
            FieldParse(23, false, None, map["host" := "localhost:42069"])
    ensures ParseField(map["host" := "localhost:42069"], CRLF) ==
            FieldParse(2, true, None, map["host" := "localhost:42069"])
  {
    var v := "localhost:42069";
    assert IsFieldLine("", "Host", " " + v);
    SingleField("Host", v, CRLF);
    LowerHost();
    ParseAtBlankLine(map["host" := v], CRLF);
  }

  lemma LowerHost()
    ensures Lower("Host") == "host"
  {
  }

  /** A line whose name, once its leading spaces are stripped, still holds
      white space (`Host : x`, `Ho st: x`, a tab in the name) is refused
      with MalformedKey: nothing consumed, not done, the map intact. */
  lemma ParseRejectsWhitespaceInName(m: map<string, string>, spaces: string, name: string, raw: string, rest: string)
    requires forall i :: 0 <= i < |spaces| ==> spaces[i] == ' '
    requires name != [] && name[0] != ' ' && ':' !in name && '\r' !in name
    requires HasWhitespace(name)
    ensures ParseField(m, spaces + name + ":" + raw + CRLF + rest) == FieldParse(0, false, Some(MalformedKey), m)
  {
    var key := spaces + name;
    var data := spaces + name + ":" + raw + CRLF + rest;
    var e := |key| + 1 + |raw|;
    assert data[..|key| + 1] == key + ":";
    assert data[e..e + 2] == CRLF;
    assert key[0] != '\r' by {
      if spaces == [] {
        assert key[0] == name[0];
      } else {
        assert key[0] == spaces[0];
      }
    }
    assert ':' !in key by {
      forall j | 0 <= j < |key|
        ensures key[j] != ':'
      {
        if j >= |spaces| {
          assert key[j] == name[j - |spaces|];
        }
      }
    }
    WhitespaceAfterSpaces(spaces, name);
    RejectsKeyWithWhitespace(m, data, key, e);
  }

  /** The same, for any data that starts with a key free of colons and a
      colon, and holds a CRLF somewhere after them. */
  lemma RejectsKeyWithWhitespace(m: map<string, string>, data: string, key: string, e: nat)
    requires key != [] && key[0] != '\r' && ':' !in key && HasWhitespace(TrimLeftSpaces(key))
    requires |key| + 1 <= |data| && data[..|key| + 1] == key + ":"
    requires e + 2 <= |data| && data[e..e + 2] == CRLF
    ensures ParseField(m, data) == FieldParse(0, false, Some(MalformedKey), m)
  {
    KeyThenLineEnd(data, key, e);
    ParseKeyBefore(m, data, key);
  }

  /** Where the first colon and the first CRLF of such data lie. */
  lemma KeyThenLineEnd(data: string, key: string, e: nat)
    requires key != [] && key[0] != '\r' && ':' !in key
    requires |key| + 1 <= |data| && data[..|key| + 1] == key + ":"
    requires e + 2 <= |data| && data[e..e + 2] == CRLF
    ensures IndexOf(data, CRLF) > 0 && IndexOf(data, ":") == |key| && data[..|key|] == key
  {
    LineEndAfterStart(data, key + ":", e);
    FirstColonAfterKey(data, key);
  }

  lemma ParseKeyBefore(m: map<string, string>, data: string, key: string)
    requires IndexOf(data, CRLF) > 0 && IndexOf(data, ":") == |key| && data[..|key|] == key
    requires HasWhitespace(TrimLeftSpaces(key))
    ensures ParseField(m, data) == FieldParse(0, false, Some(MalformedKey), m)
  {
    ParseBadKey(m, data, IndexOf(data, CRLF), |key|);
  }

  /** Stripping the leading spaces leaves the name, white space and all. */
  lemma WhitespaceAfterSpaces(spaces: string, name: string)
    requires forall i :: 0 <= i < |spaces| ==> spaces[i] == ' '
    requires name != [] && name[0] != ' ' && HasWhitespace(name)
    ensures HasWhitespace(TrimLeftSpaces(spaces + name))
  {
    TrimLeftPastSpaces(spaces, name);
  }

  /** Data that starts with a byte other than CR and holds a CRLF has its
      first CRLF after the start. */
  lemma LineEndAfterStart(data: string, head: string, e: nat)
    requires head != [] && head[0] != '\r' && |head| <= |data| && data[..|head|] == head
    requires e + 2 <= |data| && data[e..e + 2] == CRLF
    ensures IndexOf(data, CRLF) > 0
  {
    assert data[0] == head[0];
    assert OccursAt(data, CRLF, e);
  }

  /** Data that starts with a key free of colons and a colon has its first
      colon right after the key. */
  lemma FirstColonAfterKey(data: string, key: string)
    requires ':' !in key && |key| + 1 <= |data| && data[..|key| + 1] == key + ":"
    ensures IndexOf(data, ":") == |key| && data[..|key|] == key
  {
    var c := |key|;
    var head := key + ":";
    assert data[c] == head[c];
    forall j | 0 <= j < c
      ensures data[j] != ':'
    {
      assert data[j] == head[j] == key[j];
    }
    IndexOfChar(data, ':');
    assert data[..c] == head[..c] == key;
  }

  /** A space between the name and the colon (`Host : x`, with or without
      leading spaces) is refused: nothing consumed, not done, map intact. */
  lemma ParseRejectsSpaceBeforeColon(m: map<string, string>, spaces: string, name: string, raw: string, rest: string)
    requires IsFieldLine(spaces, name, raw)
    ensures ParseField(m, spaces + name + " :" + raw + CRLF + rest) == FieldParse(0, false, Some(MalformedKey), m)
  {
    var line := spaces + name + " :" + raw;
    var data := line + CRLF + rest;
    var c := |spaces| + |name| + 1;
    TokenHasNoColonOrSpace(name);
    forall j | 0 <= j < |line|
      ensures line[j] != '\r' && (j < c ==> line[j] != ':')
    {
      if j < |spaces| {
        assert line[j] == spaces[j];
      } else if j < |spaces| + |name| {
        assert line[j] == name[j - |spaces|];
        TcharIsNotColonOrSpace(name[j - |spaces|]);
      } else if j > c {
        assert line[j] == raw[j - c - 1];
      }
    }
    IndexOfLineEnd(line, rest);
    IndexOfChar(data, ':');
    assert data[c] == ':';
    assert forall j :: 0 <= j < c ==> data[j] == line[j];
    assert data[..c] == spaces + (name + " ");
    assert IsTchar(name[0]);
    TrimLeftPastSpaces(spaces, name + " ");
    assert IsSpace((name + " ")[|name|]);
    ParseBadKey(m, data, |line|, c);
  }

  /** A line with no colon fails: with NoColon when there is no colon at all,
      and with MalformedKey when the first colon lies on a later line. */
  lemma ParseRejectsLineWithoutColon(m: map<string, string>, data: string)
    requires IndexOf(data, CRLF) > 0
    requires ':' !in data[..IndexOf(data, CRLF)]
    ensures ParseField(m, data).err.Some? && ParseField(m, data).fields == m && ParseField(m, data).n == 0
    ensures ParseField(m, data).err == Some(NoColon) <==> ':' !in data
    ensures ':' in data ==> ParseField(m, data).err == Some(MalformedKey)
  {
    var idx := IndexOf(data, CRLF);
    var idxSep := IndexOf(data, ":");
    IndexOfChar(data, ':');
    IndexOfCRLF(data);
    if idxSep >= 0 {
      forall j | 0 <= j < idx
        ensures data[j] != ':'
      {
        assert data[..idx][j] == data[j];
      }
      ColonBeyondLineHasSpace(data, idx, idxSep);
    }
  }

  /** Once the first CRLF and (for a field line) the first colon are in
      view, more bytes change nothing Parse looks at. */
  lemma ParseFieldExtendSame(m: map<string, string>, d: string, c: string)
    requires IndexOf(d, CRLF) >= 0
    requires IndexOf(d, CRLF) > 0 ==> IndexOf(d, ":") >= 0
    ensures ParseField(m, d + c) == ParseField(m, d)
  {
    var e := d + c;
    var idx := IndexOf(d, CRLF);
    IndexOfExtend(d, c, CRLF);
    if idx == 0 {
      ParseAtBlankLine(m, d);
      ParseAtBlankLine(m, e);
    } else {
      var idxSep := IndexOf(d, ":");
      IndexOfExtend(d, c, ":");
      assert e[..idxSep] == d[..idxSep];
      if HasWhitespace(TrimLeftSpaces(d[..idxSep])) {
        ParseBadKey(m, d, idx, idxSep);
        ParseBadKey(m, e, idx, idxSep);
      } else {
        ParseFieldExtendLine(m, d, c, idx, idxSep);
      }
    }
  }

  /** The field-line case of ParseFieldExtendSame: the name and the value
      both lie before the first CRLF, which more bytes do not move. */
  lemma ParseFieldExtendLine(m: map<string, string>, d: string, c: string, idx: nat, idxSep: nat)
    requires IndexOf(d, CRLF) == idx > 0 && IndexOf(d, ":") == idxSep
    requires IndexOf(d + c, CRLF) == idx && IndexOf(d + c, ":") == idxSep
    requires (d + c)[..idxSep] == d[..idxSep]
    requires !HasWhitespace(TrimLeftSpaces(d[..idxSep]))
    ensures ParseField(m, d + c) == ParseField(m, d)
  {
    var e := d + c;
    var key := TrimLeftSpaces(d[..idxSep]);
    IndexOfCRLF(d);
    IndexOfChar(d, ':');
    ColonWithinLine(d, idx, idxSep);
    assert e[idxSep + 1..idx] == d[idxSep + 1..idx];
    var value := TrimSpace(d[idxSep + 1..idx]);
    ParseLineAt(m, d, idx, idxSep, key, value);
    ParseLineAt(m, e, idx, idxSep, key, value);
  }

  /** What Set makes of a line's name and value, as Parse reports it. */
  function SetOutcome(m: map<string, string>, key: string, value: string, n: nat): FieldParse {
    match SetField(m, key, value)
    case Err(err) => FieldParse(0, false, Some(err), m)
    case Ok(m') => FieldParse(n, false, None, m')
  }

  lemma ParseAtBlankLine(m: map<string, string>, data: string)
    requires IndexOf(data, CRLF) == 0
    ensures ParseField(m, data) == FieldParse(2, true, None, m)
  {
  }

  lemma ParseBadKey(m: map<string, string>, data: string, idx: nat, idxSep: nat)
    requires IndexOf(data, CRLF) == idx > 0 && IndexOf(data, ":") == idxSep
    requires HasWhitespace(TrimLeftSpaces(data[..idxSep]))
    ensures ParseField(m, data) == FieldParse(0, false, Some(MalformedKey), m)
  {
  }

  lemma ParseLineAt(m: map<string, string>, data: string, idx: nat, idxSep: nat, key: string, value: string)
    requires IndexOf(data, CRLF) == idx > 0 && IndexOf(data, ":") == idxSep && idxSep < idx
    requires TrimLeftSpaces(data[..idxSep]) == key && !HasWhitespace(key)
    requires TrimSpace(data[idxSep + 1..idx]) == value
    ensures ParseField(m, data) == SetOutcome(m, TrimSpace(key), value, idx + 2)
  {
  }

  /** A line that has no colon in view fails, and keeps failing as more bytes
      arrive: a colon that turns up later lies beyond the line's CRLF. */
  lemma ParseFieldExtendNoColon(m: map<string, string>, d: string, c: string)
    requires IndexOf(d, CRLF) > 0 && IndexOf(d, ":") == -1
    ensures ParseField(m, d + c).err.Some?
  {
    var idx := IndexOf(d, CRLF);
    IndexOfExtend(d, c, CRLF);
    IndexOfExtend(d, c, ":");
    var idxSep := IndexOf(d + c, ":");
    if idxSep >= 0 {
      IndexOfCRLF(d + c);
      ColonBeyondLineHasSpace(d + c, idx, idxSep);
    }
  }

  /** What Parse decided on some bytes it keeps deciding when more bytes
      arrive: a consumed line or the end of the block is reported again
      unchanged, and a failure is again a failure (possibly of another kind:
      NoColon can turn into MalformedKey). */
  lemma ParseFieldExtend(m: map<string, string>, d: string, c: string)
    ensures ParseField(m, d).n > 0 ==> ParseField(m, d + c) == ParseField(m, d)
    ensures ParseField(m, d).err.Some? ==> ParseField(m, d + c).err.Some?
  {
    if IndexOf(d, CRLF) >= 0 {
      if IndexOf(d, CRLF) > 0 && IndexOf(d, ":") == -1 {
        ParseFieldExtendNoColon(m, d, c);
      } else {
        ParseFieldExtendSame(m, d, c);
      }
    }
  }

  // ---------------------------------------------------------------------------
  // Properties of Set, Overwrite and Get

  /** Setting the same name repeatedly. */
  function SetAll(m: map<string, string>, key: string, values: seq<string>): map<string, string>
    requires IsValidKey(key)
    decreases |values|
  {
    if values == [] then m
    else SetAll(SetField(m, key, values[0]).value, key, values[1..])
  }

  function JoinComma(values: seq<string>): string
    requires |values| >= 1
  {
    if |values| == 1 then values[0] else values[0] + ", " + JoinComma(values[1..])
  }

  /** Repeated values accumulate in encounter order, separated by ", ": after
      an existing value `first`, setting v1..vn leaves "first, v1, ..., vn". */
  lemma {:induction false} SetAllAccumulates(m: map<string, string>, key: string, first: string, values: seq<string>)
    requires IsValidKey(key) && Lower(key) in m && m[Lower(key)] == first
    ensures SetAll(m, key, values) == m[Lower(key) := JoinComma([first] + values)]
    decreases |values|
  {
    if values == [] {
      assert m[Lower(key) := first] == m;
    } else {
      var m1 := SetField(m, key, values[0]).value;
      SetAllAccumulates(m1, key, first + ", " + values[0], values[1..]);
      JoinCommaShift(first, values);
      assert m1[Lower(key) := JoinComma([first] + values)] == m[Lower(key) := JoinComma([first] + values)];
    }
  }

  lemma {:induction false} JoinCommaShift(first: string, values: seq<string>)
    requires |values| >= 1
    ensures JoinComma([first + ", " + values[0]] + values[1..]) == JoinComma([first] + values)
    decreases |values|
  {
    if |values| > 1 {
      assert ([first + ", " + values[0]] + values[1..])[1..] == values[1..];
      assert ([first] + values)[1..] == values;
      assert values == [values[0]] + values[1..];
    } else {
      assert ([first] + values)[1..] == values;
    }
  }

  /** On a fresh name, a run of Set calls stores the values joined by ", ". */
  lemma SetAllFresh(m: map<string, string>, key: string, values: seq<string>)
    requires IsValidKey(key) && Lower(key) !in m && |values| >= 1
    ensures SetAll(m, key, values) == m[Lower(key) := JoinComma(values)]
  {
    var m1 := SetField(m, key, values[0]).value;
    SetAllAccumulates(m1, key, values[0], values[1..]);
    assert [values[0]] + values[1..] == values;
    assert m1[Lower(key) := JoinComma(values)] == m[Lower(key) := JoinComma(values)];
  }

  /** The repeated-field test: three `Set-Person` lines and the blank line
      are read by four Parse calls, each on the bytes the previous ones left,
      27 + 29 + 28 + 2 = 86 bytes in all; the values are joined in the order
      they came, and Get("Set-Person") returns them. */
  lemma RepeatedFieldExample(name: string, v1: string, v2: string, v3: string)
    requires name == "Set-Person" && v1 == "lane-loves-go" && v2 == "prime-loves-zig" && v3 == "tj-loves-ocaml"
    ensures var l1 := name + ":" + (" " + v1) + CRLF;
            var l2 := name + ":" + (" " + v2) + CRLF;
            var l3 := name + ":" + (" " + v3) + CRLF;
            var m1 := map["set-person" := v1];
            var m2 := map["set-person" := v1 + ", " + v2];
            var m3 := map["set-person" := v1 + ", " + v2 + ", " + v3];
            && |l1| == 27 && |l2| == 29 && |l3| == 28 && |l1 + (l2 + (l3 + CRLF))| == 86
            && ParseField(map[], l1 + (l2 + (l3 + CRLF))) == FieldParse(|l1|, false, None, m1)
            && ParseField(m1, l2 + (l3 + CRLF)) == FieldParse(|l2|, false, None, m2)
            && ParseField(m2, l3 + CRLF) == FieldParse(|l3|, false, None, m3)
            && ParseField(m3, CRLF) == FieldParse(2, true, None, m3)
            && Lookup(m3, name) == ("lane-loves-go, prime-loves-zig, tj-loves-ocaml", true)
  {
    SetPersonTest();
    RepeatedFields(name, v1, v2, v3);
  }

  lemma SetPersonTest()
    ensures IsValidKey("Set-Person") && Lower("Set-Person") == "set-person"
    ensures IsPlainValue("lane-loves-go") && IsPlainValue("prime-loves-zig") && IsPlainValue("tj-loves-ocaml")
    ensures "lane-loves-go" + ", " + "prime-loves-zig" + ", " + "tj-loves-ocaml" ==
            "lane-loves-go, prime-loves-zig, tj-loves-ocaml"
  {
    SetPersonName();
    PlainLiteral("lane-loves-go");
    PlainLiteral("prime-loves-zig");
    PlainLiteral("tj-loves-ocaml");
    SetPersonJoined();
  }

  lemma SetPersonName()
    ensures IsValidKey("Set-Person") && Lower("Set-Person") == "set-person"
  {
  }

  lemma SetPersonJoined()
    ensures "lane-loves-go" + ", " + "prime-loves-zig" + ", " + "tj-loves-ocaml" ==
            "lane-loves-go, prime-loves-zig, tj-loves-ocaml"
  {
  }

  lemma PlainLiteral(v: string)
    requires v != [] && forall i :: 0 <= i < |v| ==> 'a' <= v[i] <= 'z' || v[i] == '-'
    requires v[0] != '-' && v[|v| - 1] != '-'
    ensures IsPlainValue(v)
  {
  }

  /** Three field lines with the same name and the blank line, read by four
      Parse calls on what the previous ones left: each call consumes one line,
      the last one the blank line, and the values accumulate in order. */
  lemma RepeatedFields(name: string, v1: string, v2: string, v3: string)
    requires IsValidKey(name) && IsPlainValue(v1) && IsPlainValue(v2) && IsPlainValue(v3)
    ensures var l1 := name + ":" + (" " + v1) + CRLF;
            var l2 := name + ":" + (" " + v2) + CRLF;
            var l3 := name + ":" + (" " + v3) + CRLF;
            var m1 := map[Lower(name) := v1];
            var m2 := map[Lower(name) := v1 + ", " + v2];
            var m3 := map[Lower(name) := v1 + ", " + v2 + ", " + v3];
            && ParseField(map[], l1 + (l2 + (l3 + CRLF))) == FieldParse(|l1|, false, None, m1)
            && ParseField(m1, l2 + (l3 + CRLF)) == FieldParse(|l2|, false, None, m2)
            && ParseField(m2, l3 + CRLF) == FieldParse(|l3|, false, None, m3)
            && ParseField(m3, CRLF) == FieldParse(2, true, None, m3)
  {
    var l3 := name + ":" + (" " + v3) + CRLF;
    var l2 := name + ":" + (" " + v2) + CRLF;
    var m1 := map[Lower(name) := v1];
    var m2 := map[Lower(name) := v1 + ", " + v2];
    var m3 := map[Lower(name) := v1 + ", " + v2 + ", " + v3];
    SetThree(name, v1, v2, v3);
    FieldOnMap(map[], name, v1, l2 + (l3 + CRLF));
    FieldOnMap(m1, name, v2, l3 + CRLF);
    FieldOnMap(m2, name, v3, CRLF);
    ParseAtBlankLine(m3, CRLF);
  }

  /** Three Set calls on a fresh name, one after the other. */
  lemma SetThree(name: string, v1: string, v2: string, v3: string)
    requires IsValidKey(name)
    ensures SetField(map[], name, v1).value == map[Lower(name) := v1]
    ensures SetField(map[Lower(name) := v1], name, v2).value == map[Lower(name) := v1 + ", " + v2]
    ensures SetField(map[Lower(name) := v1 + ", " + v2], name, v3).value == map[Lower(name) := v1 + ", " + v2 + ", " + v3]
  {
  }

  /** A value the parser gives back unchanged: no CR or LF, no white space at
      either end. */
  predicate IsPlainValue(v: string) {
    && (forall i :: 0 <= i < |v| ==> v[i] != '\r' && v[i] != '\n')
    && (v == [] || (!IsSpace(v[0]) && !IsSpace(v[|v| - 1])))
  }

  /** One field line `name: value`, followed by anything, on any map: the
      line and its CRLF are consumed and the value is set as Set does. */
  lemma FieldOnMap(m: map<string, string>, name: string, v: string, rest: string)
    requires IsValidKey(name) && IsPlainValue(v)
    ensures ParseField(m, name + ":" + (" " + v) + CRLF + rest) ==
            FieldParse(|name| + |v| + 4, false, None, SetField(m, name, v).value)
  {
    assert IsFieldLine("", name, " " + v);
    ParseFieldLine(m, "", name, " " + v, rest);
    assert "" + name == name;
    TrimSpaceAfterSpace(" ", v);
  }

  /** Get is case-insensitive: after a Set of `key` to `value` on a fresh
      name, every spelling with the same lower case finds `value`. */
  lemma GetAfterSet(m: map<string, string>, key: string, value: string, key2: string)
    requires IsValidKey(key) && Lower(key) !in m && Lower(key2) == Lower(key)
    ensures Lookup(SetField(m, key, value).value, key2) == (value, true)
  {
  }

  /** Overwrite leaves exactly `value` behind whatever was stored before. */
  lemma GetAfterOverwrite(m: map<string, string>, key: string, value: string, key2: string)
    requires IsValidKey(key) && Lower(key2) == Lower(key)
    ensures Lookup(OverwriteField(m, key, value).value, key2) == (value, true)
  {
  }
}
