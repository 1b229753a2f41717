/** The byte- and string-level helpers the HTTP code takes from Go's standard
    library (`bytes.Index`, `strings.Split`, `strings.TrimLeft`,
    `strings.TrimSpace`, `strings.ToLower`, `unicode.IsSpace`, and the `%d` and
    `%x` verbs of `fmt`), restated over octet strings: a `string` here is a
    sequence of octets, one `char` per octet. */
module Wire {

  const CRLF: string := "\r\n"

  /** The smaller of two counts: how much of a piece fits in the room left. */
  function Min(a: nat, b: nat): nat {
    if a <= b then a else b
  }

  // ---------------------------------------------------------------------------
  // Searching: bytes.Index

  /** `pat` occurs in `s` starting at offset `i`. */
  predicate OccursAt(s: string, pat: string, i: int) {
    0 <= i && i + |pat| <= |s| && s[i..i + |pat|] == pat
  }

  /** The first offset at or after `i` where `pat` occurs, or -1. */
  function IndexFrom(s: string, pat: string, i: nat): (r: int)
    requires |pat| > 0 && i <= |s|
    ensures r == -1 || i <= r <= |s| - |pat|
    ensures r >= 0 ==> OccursAt(s, pat, r)
    ensures forall j :: i <= j && (r == -1 || j < r) ==> !OccursAt(s, pat, j)
    decreases |s| - i
  {
    if i + |pat| > |s| then -1
    else if s[i..i + |pat|] == pat then i
    else IndexFrom(s, pat, i + 1)
  }

  /** bytes.Index: the offset of the first occurrence of `pat` in `s`, or -1
      when there is none. */
  function IndexOf(s: string, pat: string): (r: int)
    requires |pat| > 0
    ensures r == -1 || 0 <= r <= |s| - |pat|
    ensures r >= 0 ==> OccursAt(s, pat, r)
    ensures forall j :: 0 <= j && (r == -1 || j < r) ==> !OccursAt(s, pat, j)
  {
    IndexFrom(s, pat, 0)
  }

  /** An occurrence that lies inside `s` is an occurrence in `s + t`, and back. */
  lemma OccursInPrefix(s: string, t: string, pat: string, j: int)
    requires 0 <= j && j + |pat| <= |s|
    ensures OccursAt(s + t, pat, j) <==> OccursAt(s, pat, j)
  {
    assert (s + t)[j..j + |pat|] == s[j..j + |pat|];
  }

  /** Appending bytes never moves an occurrence that is already there, and can
      only create one that reaches into the appended part. */
  lemma IndexOfExtend(s: string, t: string, pat: string)
    requires |pat| > 0
    ensures IndexOf(s, pat) >= 0 ==> IndexOf(s + t, pat) == IndexOf(s, pat)
    ensures IndexOf(s, pat) == -1 ==> IndexOf(s + t, pat) == -1 || IndexOf(s + t, pat) > |s| - |pat|
  {
    var r, r' := IndexOf(s, pat), IndexOf(s + t, pat);
    if r >= 0 {
      OccursInPrefix(s, t, pat, r);
      if r' < r {
        OccursInPrefix(s, t, pat, r');
      }
    } else if 0 <= r' <= |s| - |pat| {
      OccursInPrefix(s, t, pat, r');
    }
  }

  /** Searching for one character: found exactly when it is in `s`, at a
      place holding it, with no earlier copy. */
  lemma IndexOfChar(s: string, c: char)
    ensures var r := IndexOf(s, [c]);
            && (r >= 0 <==> c in s)
            && (r >= 0 ==> s[r] == c)
            && forall j :: 0 <= j < |s| && (r == -1 || j < r) ==> s[j] != c
  {
    var r := IndexOf(s, [c]);
    forall j | 0 <= j < |s| && s[j] == c
      ensures OccursAt(s, [c], j)
    {
      assert s[j..j + 1] == [c];
    }
    if r >= 0 {
      assert s[r..r + 1] == [c];
      assert s[r] == s[r..r + 1][0];
    }
    if c in s {
      var j :| 0 <= j < |s| && s[j] == c;
      assert OccursAt(s, [c], j);
    }
  }

  /** Where IndexOf finds CRLF, the bytes there are CR and LF. */
  lemma IndexOfCRLF(s: string)
    ensures IndexOf(s, CRLF) >= 0 ==> s[IndexOf(s, CRLF)] == '\r' && s[IndexOf(s, CRLF) + 1] == '\n'
  {
    var r := IndexOf(s, CRLF);
    if r >= 0 {
      assert s[r..r + 2] == CRLF;
      assert s[r..r + 2][0] == s[r];
      assert s[r..r + 2][1] == s[r + 1];
    }
  }

  /** After a line free of CR, the first CRLF is the one that ends it. */
  lemma IndexOfLineEnd(line: string, rest: string)
    requires '\r' !in line
    ensures IndexOf(line + CRLF + rest, CRLF) == |line|
  {
    var data := line + CRLF + rest;
    assert data[|line|..|line| + 2] == CRLF;
    forall j | 0 <= j < |line|
      ensures !OccursAt(data, CRLF, j)
    {
      assert data[j..j + 2][0] == data[j] == line[j];
    }
    var r := IndexOf(data, CRLF);
    assert OccursAt(data, CRLF, |line|);
    if r != |line| {
      assert r >= 0 && r < |line| ==> !OccursAt(data, CRLF, r);
    }
  }

  /** Without a CR before its last byte, a string holds no CRLF. */
  lemma NoLineEnd(s: string)
    requires forall j :: 0 <= j < |s| - 1 ==> s[j] != '\r'
    ensures IndexOf(s, CRLF) == -1
  {
    forall j | 0 <= j
      ensures !OccursAt(s, CRLF, j)
    {
      if j + 2 <= |s| {
        assert s[j..j + 2][0] == s[j];
      }
    }
  }

  // ---------------------------------------------------------------------------
  // Splitting: strings.Split with a one-character separator

  /** strings.Split(s, [sep]): the pieces between separators, at least one. */
  function Split(s: string, sep: char): (parts: seq<string>)
    ensures |parts| >= 1
    ensures forall i :: 0 <= i < |parts| ==> sep !in parts[i]
    decreases |s|
  {
    if s == [] then [""]
    else
      var rest := Split(s[1..], sep);
      if s[0] == sep then [""] + rest
      else [[s[0]] + rest[0]] + rest[1..]
  }

  /** strings.Join(parts, [sep]), the inverse of Split. */
  function Join(parts: seq<string>, sep: char): string
    requires |parts| >= 1
  {
    if |parts| == 1 then parts[0] else parts[0] + [sep] + Join(parts[1..], sep)
  }

  lemma {:induction false} JoinSplit(s: string, sep: char)
    ensures Join(Split(s, sep), sep) == s
    decreases |s|
  {
    if s != [] {
      JoinSplit(s[1..], sep);
      var rest := Split(s[1..], sep);
      if s[0] != sep && |rest| > 1 {
        assert Join(rest, sep) == rest[0] + [sep] + Join(rest[1..], sep);
      }
    }
  }

  lemma {:induction false} SplitNoSeparator(a: string, sep: char)
    requires sep !in a
    ensures Split(a, sep) == [a]
    decreases |a|
  {
    if a != [] {
      SplitNoSeparator(a[1..], sep);
      assert [a[0]] + a[1..] == a;
    }
  }

  lemma {:induction false} SplitAtFirst(a: string, b: string, sep: char)
    requires sep !in a
    ensures Split(a + [sep] + b, sep) == [a] + Split(b, sep)
    decreases |a|
  {
    var s := a + [sep] + b;
    if a == [] {
      assert s[1..] == b;
    } else {
      assert s[1..] == a[1..] + [sep] + b;
      SplitAtFirst(a[1..], b, sep);
      assert [a[0]] + a[1..] == a;
    }
  }

  lemma {:induction false} SplitJoin(parts: seq<string>, sep: char)
    requires |parts| >= 1
    requires forall i :: 0 <= i < |parts| ==> sep !in parts[i]
    ensures Split(Join(parts, sep), sep) == parts
    decreases |parts|
  {
    if |parts| == 1 {
      SplitNoSeparator(parts[0], sep);
    } else {
      SplitJoin(parts[1..], sep);
      SplitAtFirst(parts[0], Join(parts[1..], sep), sep);
      assert [parts[0]] + parts[1..] == parts;
    }
  }

  /** Split yields `parts` exactly when `parts` are separator-free pieces
      whose join is `s`. */
  lemma SplitIsJoin(s: string, sep: char, parts: seq<string>)
    ensures Split(s, sep) == parts <==>
            |parts| >= 1 && (forall i :: 0 <= i < |parts| ==> sep !in parts[i]) && Join(parts, sep) == s
  {
    JoinSplit(s, sep);
    if |parts| >= 1 && (forall i :: 0 <= i < |parts| ==> sep !in parts[i]) && Join(parts, sep) == s {
      SplitJoin(parts, sep);
    }
  }

  /** The number of copies of `c` in `s`. */
  function Count(s: string, c: char): nat {
    if s == [] then 0 else (if s[0] == c then 1 else 0) + Count(s[1..], c)
  }

  /** Split yields one more piece than there are separators. */
  lemma {:induction false} SplitCount(s: string, sep: char)
    ensures |Split(s, sep)| == Count(s, sep) + 1
    decreases |s|
  {
    if s != [] {
      SplitCount(s[1..], sep);
    }
  }

  // ---------------------------------------------------------------------------
  // White space: unicode.IsSpace, strings.TrimLeft(s, " "), strings.TrimSpace

  /** unicode.IsSpace on a single octet: tab, LF, VT, FF, CR and space. */
  predicate IsSpace(c: char) {
    c == ' ' || 9 <= c as int <= 13
  }

  /** strings.TrimLeft(s, " "): drops leading space characters only. */
  function TrimLeftSpaces(s: string): (r: string)
    ensures |r| <= |s| && r == s[|s| - |r|..]
    ensures forall i :: 0 <= i < |s| - |r| ==> s[i] == ' '
    ensures r == [] || r[0] != ' '
  {
    if s != [] && s[0] == ' ' then TrimLeftSpaces(s[1..]) else s
  }

  function TrimLeadingSpace(s: string): (r: string)
    ensures |r| <= |s| && r == s[|s| - |r|..]
    ensures forall i :: 0 <= i < |s| - |r| ==> IsSpace(s[i])
    ensures r == [] || !IsSpace(r[0])
  {
    if s != [] && IsSpace(s[0]) then TrimLeadingSpace(s[1..]) else s
  }

  function TrimTrailingSpace(s: string): (r: string)
    ensures |r| <= |s| && r == s[..|r|]
    ensures forall i :: |r| <= i < |s| ==> IsSpace(s[i])
    ensures r == [] || !IsSpace(r[|r| - 1])
  {
    if s != [] && IsSpace(s[|s| - 1]) then TrimTrailingSpace(s[..|s| - 1]) else s
  }

  /** strings.TrimSpace: the longest infix that neither starts nor ends with
      white space, obtained by dropping only white space. */
  function TrimSpace(s: string): (r: string)
    ensures |r| <= |s|
    ensures r == [] || (!IsSpace(r[0]) && !IsSpace(r[|r| - 1]))
  {
    TrimTrailingSpace(TrimLeadingSpace(s))
  }

  /** TrimSpace keeps an infix of its input and drops only white space
      before and after it. */
  lemma TrimSpaceDropsOnlySpace(s: string)
    ensures exists i, j :: 0 <= i <= j <= |s| && TrimSpace(s) == s[i..j] &&
                           (forall k :: 0 <= k < i ==> IsSpace(s[k])) &&
                           (forall k :: j <= k < |s| ==> IsSpace(s[k]))
  {
    var t := TrimLeadingSpace(s);
    var r := TrimTrailingSpace(t);
    var i := |s| - |t|;
    var j := i + |r|;
    assert r == s[i..j];
    assert forall k :: j <= k < |s| ==> IsSpace(s[k]) by {
      forall k | j <= k < |s|
        ensures IsSpace(s[k])
      {
        assert s[k] == t[k - i];
      }
    }
    assert 0 <= i <= j <= |s| && TrimSpace(s) == s[i..j] &&
           (forall k :: 0 <= k < i ==> IsSpace(s[k])) &&
           (forall k :: j <= k < |s| ==> IsSpace(s[k]));
  }

  /** A string with no white space at either end is its own TrimSpace. */
  lemma TrimSpaceOfTrimmed(s: string)
    requires s == [] || (!IsSpace(s[0]) && !IsSpace(s[|s| - 1]))
    ensures TrimSpace(s) == s
  {
  }

  /** Leading white space before a trimmed string is dropped by TrimSpace. */
  lemma {:induction false} TrimSpaceAfterSpace(w: string, s: string)
    requires forall i :: 0 <= i < |w| ==> IsSpace(w[i])
    requires s == [] || (!IsSpace(s[0]) && !IsSpace(s[|s| - 1]))
    ensures TrimSpace(w + s) == s
    decreases |w|
  {
    if w == [] {
      assert w + s == s;
    } else {
      assert (w + s)[1..] == w[1..] + s;
      TrimSpaceAfterSpace(w[1..], s);
    }
  }

  // ---------------------------------------------------------------------------
  // Case: strings.ToLower on ASCII

  function LowerChar(c: char): char {
    if 'A' <= c <= 'Z' then (c as int + 32) as char else c
  }

  /** strings.ToLower, restricted to the ASCII letters. */
  function Lower(s: string): (r: string)
    ensures |r| == |s| && forall i :: 0 <= i < |s| ==> r[i] == LowerChar(s[i])
  {
    seq(|s|, i requires 0 <= i < |s| => LowerChar(s[i]))
  }

  lemma LowerIdempotent(s: string)
    ensures Lower(Lower(s)) == Lower(s)
  {
  }

  // ---------------------------------------------------------------------------
  // Numerals: the %d and %x verbs of fmt, and their inverses

  function DigitChar(d: nat): (c: char)
    requires d < 16
  {
    if d < 10 then ('0' as int + d) as char else ('a' as int + d - 10) as char
  }

  /** The value of a lower-case hexadecimal or decimal digit. */
  function DigitValue(c: char): nat {
    if '0' <= c <= '9' then c as int - '0' as int
    else if 'a' <= c <= 'f' then c as int - 'a' as int + 10
    else 0
  }

  predicate IsDigitOf(c: char, base: nat) {
    ('0' <= c <= '9' && c as int - '0' as int < base) || ('a' <= c <= 'f' && c as int - 'a' as int + 10 < base)
  }

  /** `n` written in `base` (10 or 16) with lower-case digits and no leading
      zero: what `%d` and `%x` print for a non-negative value. */
  function Numeral(n: nat, base: nat): (s: string)
    requires base == 10 || base == 16
    ensures |s| >= 1
    ensures forall i :: 0 <= i < |s| ==> IsDigitOf(s[i], base)
    ensures n == 0 <==> s == "0"
    ensures n > 0 ==> s[0] != '0'
    decreases n
  {
    if n < base then [DigitChar(n)] else Numeral(n / base, base) + [DigitChar(n % base)]
  }

  /** The value of a string of digits in `base`, read most significant first. */
  function NumeralValue(s: string, base: nat): nat
    decreases |s|
  {
    if s == [] then 0 else NumeralValue(s[..|s| - 1], base) * base + DigitValue(s[|s| - 1])
  }

  lemma {:induction false} NumeralRoundTrip(n: nat, base: nat)
    requires base == 10 || base == 16
    ensures NumeralValue(Numeral(n, base), base) == n
    decreases n
  {
    var s := Numeral(n, base);
    if n >= base {
      NumeralRoundTrip(n / base, base);
      assert s[..|s| - 1] == Numeral(n / base, base);
    }
  }

  /** fmt's %d: an optional minus sign, then the decimal digits. */
  function Decimal(n: int): (s: string)
    ensures |s| >= 1 && forall i :: 0 <= i < |s| ==> s[i] == '-' || '0' <= s[i] <= '9'
    ensures s[0] == '-' <==> n < 0
    ensures forall i :: 1 <= i < |s| ==> '0' <= s[i] <= '9'
  {
    if n < 0 then "-" + Numeral(-n, 10) else Numeral(n, 10)
  }

  /** The integer a %d numeral denotes. */
  function DecimalValue(s: string): int {
    if |s| > 0 && s[0] == '-' then -(NumeralValue(s[1..], 10) as int) else NumeralValue(s, 10)
  }

  lemma DecimalRoundTrip(n: int)
    ensures DecimalValue(Decimal(n)) == n
  {
    if n < 0 {
      NumeralRoundTrip(-n, 10);
      assert Decimal(n)[1..] == Numeral(-n, 10);
    } else {
      NumeralRoundTrip(n, 10);
    }
  }

  /** fmt's %x on a length: lower-case hexadecimal digits, no leading zero. */
  function Hex(n: nat): (s: string)
    ensures |s| >= 1 && forall i :: 0 <= i < |s| ==> IsDigitOf(s[i], 16)
    ensures |s| > 1 ==> s[0] != '0'
  {
    Numeral(n, 16)
  }

  lemma HexRoundTrip(n: nat)
    ensures NumeralValue(Hex(n), 16) == n
  {
    NumeralRoundTrip(n, 16);
  }
}
