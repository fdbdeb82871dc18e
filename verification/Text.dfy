/** Python's text splitting, decimal numbers, and their inverses. */
module Text {

  // ----- Characters -----

  /** The characters `str.splitlines` breaks at. */
  predicate LineBreak(c: char) {
    var n := c as int;
    0x0A <= n <= 0x0D || 0x1C <= n <= 0x1E || n == 0x85 || n == 0x2028 || n == 0x2029
  }

  /** The characters `str.split` and `str.strip` take as blank; line breaks are among them. */
  predicate Blank(c: char) {
    var n := c as int;
    || 0x09 <= n <= 0x0D || 0x1C <= n <= 0x20 || n == 0x85 || n == 0xA0 || n == 0x1680
    || 0x2000 <= n <= 0x200A || n == 0x2028 || n == 0x2029 || n == 0x202F || n == 0x205F || n == 0x3000
  }

  predicate Digit(c: char) {
    '0' <= c <= '9'
  }

  predicate AsciiWord(c: char) {
    Digit(c) || 'a' <= c <= 'z' || 'A' <= c <= 'Z' || c == '_'
  }

  ghost predicate NoBlank(s: string) {
    forall i :: 0 <= i < |s| ==> !Blank(s[i])
  }

  ghost predicate NoBreak(s: string) {
    forall i :: 0 <= i < |s| ==> !LineBreak(s[i])
  }

  /** A nonempty run of non-blank characters. */
  ghost predicate Word(s: string) {
    s != [] && NoBlank(s)
  }

  // ----- `s.split(None, k)` -----

  function SkipBlank(s: string): (r: string)
    ensures |r| <= |s| && (r != [] ==> !Blank(r[0]))
  {
    if s != [] && Blank(s[0]) then SkipBlank(s[1..]) else s
  }

  function WordLength(s: string): (n: nat)
    ensures n <= |s|
    ensures forall i :: 0 <= i < n ==> !Blank(s[i])
    ensures n < |s| ==> Blank(s[n])
  {
    if s == [] || Blank(s[0]) then 0 else 1 + WordLength(s[1..])
  }

  /** At most `k` words, and then the rest of the text with its inner and trailing blanks. */
  function Fields(s: string, k: nat): seq<string>
    decreases k
  {
    var t := SkipBlank(s);
    if t == [] then []
    else if k == 0 then [t]
    else
      var n := WordLength(t);
      [t[..n]] + Fields(t[n..], k - 1)
  }

  /** What the fields of a line look like. */
  lemma FieldsShape(s: string, k: nat)
    ensures |Fields(s, k)| <= k + 1
    ensures forall i :: 0 <= i < |Fields(s, k)| ==> Fields(s, k)[i] != [] && !Blank(Fields(s, k)[i][0])
    ensures forall i :: 0 <= i < |Fields(s, k)| && i < k ==> Word(Fields(s, k)[i])
    ensures NoBreak(s) ==> forall i :: 0 <= i < |Fields(s, k)| ==> NoBreak(Fields(s, k)[i])
  {
    hide *;
    FieldsStart(s, k);
    FieldsAreWords(s, k);
    FieldsKeepBreaks(s, k);
  }

  lemma {:induction false} FieldsStart(s: string, k: nat)
    ensures |Fields(s, k)| <= k + 1
    ensures forall i :: 0 <= i < |Fields(s, k)| ==> Fields(s, k)[i] != [] && !Blank(Fields(s, k)[i][0])
    decreases k
  {
    hide Blank;
    var t := SkipBlank(s);
    if t != [] && k > 0 {
      FieldsStart(t[WordLength(t)..], k - 1);
    }
  }

  lemma {:induction false} FieldsAreWords(s: string, k: nat)
    ensures forall i :: 0 <= i < |Fields(s, k)| && i < k ==> Word(Fields(s, k)[i])
    decreases k
  {
    hide Blank;
    var t := SkipBlank(s);
    if t != [] && k > 0 {
      FieldsAreWords(t[WordLength(t)..], k - 1);
    }
  }

  lemma {:induction false} FieldsKeepBreaks(s: string, k: nat)
    ensures NoBreak(s) ==> forall i :: 0 <= i < |Fields(s, k)| ==> NoBreak(Fields(s, k)[i])
    decreases k
  {
    hide Blank, LineBreak;
    var t := SkipBlank(s);
    SkipBlankKeepsBreaks(s);
    if t != [] && k > 0 {
      FieldsKeepBreaks(t[WordLength(t)..], k - 1);
    }
  }

  lemma {:induction false} SkipBlankKeepsBreaks(s: string)
    ensures NoBreak(s) ==> NoBreak(SkipBlank(s))
  {
    if s != [] && Blank(s[0]) {
      SkipBlankKeepsBreaks(s[1..]);
    }
  }

  lemma WordLengthExact(w: string, rest: string)
    requires Word(w) && (rest == [] || Blank(rest[0]))
    ensures WordLength(w + rest) == |w|
  {
    assert forall i :: 0 <= i < |w| ==> (w + rest)[i] == w[i];
    assert rest != [] ==> (w + rest)[|w|] == rest[0];
  }

  /** A word and a space in front of a text become its first field. */
  lemma FieldsCons(w: string, rest: string, k: nat)
    requires Word(w) && k > 0
    ensures Fields(w + " " + rest, k) == [w] + Fields(rest, k - 1)
  {
    var s := w + " " + rest;
    assert s == w + (" " + rest);
    assert s[0] == w[0] && SkipBlank(s) == s;
    WordLengthExact(w, " " + rest);
    assert s[..|w|] == w && s[|w|..] == " " + rest;
    assert (" " + rest)[1..] == rest;
    assert SkipBlank(" " + rest) == SkipBlank(rest);
  }

  lemma FieldsLast(last: string)
    requires last != [] && !Blank(last[0])
    ensures Fields(last, 0) == [last]
  {
  }

  // ----- `s.splitlines()` and `'\n'.join(lines)` -----

  function LineLength(s: string): (n: nat)
    ensures n <= |s|
    ensures forall i :: 0 <= i < n ==> !LineBreak(s[i])
    ensures n < |s| ==> LineBreak(s[n])
  {
    if s == [] || LineBreak(s[0]) then 0 else 1 + LineLength(s[1..])
  }

  function SplitLines(s: string): seq<string>
    decreases |s|
  {
    if s == [] then []
    else
      var n := LineLength(s);
      if n == |s| then [s]
      else if s[n] == '\r' && n + 1 < |s| && s[n + 1] == '\n' then [s[..n]] + SplitLines(s[n + 2..])
      else [s[..n]] + SplitLines(s[n + 1..])
  }

  function JoinLines(lines: seq<string>): string {
    if lines == [] then []
    else if |lines| == 1 then lines[0]
    else lines[0] + "\n" + JoinLines(lines[1..])
  }

  /** A line of text that survives joining and splitting. */
  ghost predicate Line(s: string) {
    s != [] && NoBreak(s)
  }

  lemma LineLengthExact(line: string, rest: string)
    requires NoBreak(line) && (rest == [] || LineBreak(rest[0]))
    ensures LineLength(line + rest) == |line|
  {
    assert forall i :: 0 <= i < |line| ==> (line + rest)[i] == line[i];
    assert rest != [] ==> (line + rest)[|line|] == rest[0];
  }

  lemma SplitLinesCons(line: string, rest: string)
    requires NoBreak(line)
    ensures SplitLines(line + "\n" + rest) == [line] + SplitLines(rest)
  {
    var s := line + "\n" + rest;
    assert s == line + ("\n" + rest);
    LineLengthExact(line, "\n" + rest);
    assert s[|line|] == '\n' && s[..|line|] == line && s[|line| + 1..] == rest;
  }

  /** Any line break ends a line, and a carriage return takes a newline after it along. */
  lemma SplitLinesExactly(line: string, c: char, rest: string)
    requires NoBreak(line) && LineBreak(c)
    ensures SplitLines(line + [c] + rest)
         == [line] + SplitLines(if c == '\r' && rest != [] && rest[0] == '\n' then rest[1..] else rest)
  {
    var s := line + [c] + rest;
    assert s == line + ([c] + rest);
    LineLengthExact(line, [c] + rest);
    assert s[|line|] == c && s[..|line|] == line && s[|line| + 1..] == rest;
    assert rest != [] ==> s[|line| + 1] == rest[0] && s[|line| + 2..] == rest[1..];
  }

  /** The line breaks, and the blanks: they, the ASCII space and those of Unicode. */
  lemma TablesExactly(c: char)
    ensures LineBreak(c) <==>
              c in {'\n', '\U{B}', '\U{C}', '\r', '\U{1C}', '\U{1D}', '\U{1E}', '\U{85}', '\U{2028}', '\U{2029}'}
    ensures Blank(c) <==>
              || LineBreak(c)
              || c in {'\t', ' ', '\U{1F}', '\U{A0}', '\U{1680}', '\U{202F}', '\U{205F}', '\U{3000}'}
              || '\U{2000}' <= c <= '\U{200A}'
  {
  }

  lemma {:induction false} SplitJoined(lines: seq<string>)
    requires forall i :: 0 <= i < |lines| ==> Line(lines[i])
    ensures SplitLines(JoinLines(lines)) == lines
  {
    if |lines| == 1 {
      LineLengthExact(lines[0], []);
      assert lines[0] + [] == lines[0];
    } else if lines != [] {
      SplitLinesCons(lines[0], JoinLines(lines[1..]));
      SplitJoined(lines[1..]);
    }
  }

  lemma {:induction false} SplitLinesShape(s: string)
    ensures forall i :: 0 <= i < |SplitLines(s)| ==> NoBreak(SplitLines(s)[i])
    decreases |s|
  {
    if s != [] {
      var n := LineLength(s);
      if n < |s| {
        SplitLinesShape(s[n + 1..]);
        if n + 1 < |s| {
          SplitLinesShape(s[n + 2..]);
        }
      }
    }
  }

  // ----- Decimal numbers -----

  ghost predicate Digits(s: string) {
    s != [] && forall i :: 0 <= i < |s| ==> Digit(s[i])
  }

  /** `isascii() and isdigit()`. */
  predicate AllDigits(s: string)
    ensures AllDigits(s) ==> Digits(s)
  {
    s != [] && forall i :: 0 <= i < |s| ==> Digit(s[i])
  }

  function ParseNat(s: string): nat
    requires Digits(s)
  {
    var d := s[|s| - 1] as int - '0' as int;
    if |s| == 1 then d else 10 * ParseNat(s[..|s| - 1]) + d
  }

  function ShowNat(n: nat): (s: string)
    ensures Digits(s)
  {
    var d := [(n % 10 + '0' as int) as char];
    if n < 10 then d else ShowNat(n / 10) + d
  }

  /** `str(n)`. */
  function Show(n: int): string {
    if n < 0 then "-" + ShowNat(-n) else ShowNat(n)
  }

  lemma {:induction false} ParseShown(n: nat)
    ensures ParseNat(ShowNat(n)) == n
  {
    var s := ShowNat(n);
    assert s[|s| - 1] == (n % 10 + '0' as int) as char;
    if n >= 10 {
      ParseShown(n / 10);
      assert s[..|s| - 1] == ShowNat(n / 10);
    }
  }

  lemma DigitsAreWords(s: string)
    requires Digits(s)
    ensures Word(s) && NoBreak(s) && AllDigits(s)
  {
  }

  // ----- `s.strip()`, `s.split(c)` -----

  function DropTrailing(s: string): string {
    if s != [] && Blank(s[|s| - 1]) then DropTrailing(s[..|s| - 1]) else s
  }

  function Strip(s: string): string {
    DropTrailing(SkipBlank(s))
  }

  lemma StripWord(s: string)
    requires Word(s)
    ensures Strip(s) == s
  {
  }

  /** `s.split(c)` for one separator character. */
  function SplitOn(s: string, c: char): (parts: seq<string>)
    ensures parts != []
  {
    if s == [] then [[]]
    else
      var rest := SplitOn(s[1..], c);
      if s[0] == c then [[]] + rest else [[s[0]] + rest[0]] + rest[1..]
  }

  /** Text up to a separator is the first part. */
  lemma {:induction false} SplitOnHead(head: string, tail: string, c: char)
    requires c !in head
    ensures SplitOn(head + [c] + tail, c) == [head] + SplitOn(tail, c)
  {
    var s := head + [c] + tail;
    if head == [] {
      assert s[1..] == tail;
    } else {
      assert s[1..] == head[1..] + [c] + tail && s[0] == head[0];
      SplitOnHead(head[1..], tail, c);
      assert head == [s[0]] + head[1..] && ([head[1..]] + SplitOn(tail, c))[1..] == SplitOn(tail, c);
    }
  }

  lemma {:induction false} SplitOnWhole(s: string, c: char)
    ensures |SplitOn(s, c)| == 1 <==> c !in s
    ensures c !in s ==> SplitOn(s, c) == [s]
  {
    if s != [] {
      SplitOnWhole(s[1..], c);
      assert s == [s[0]] + s[1..];
    }
  }

  /** The first part of several is followed by a separator. */
  lemma SplitOnFirst(s: string, c: char) returns (head: string, tail: string)
    requires |SplitOn(s, c)| > 1
    ensures s == head + [c] + tail && c !in head && SplitOn(s, c) == [head] + SplitOn(tail, c)
  {
    SplitOnWhole(s, c);
    var n := FirstOf(s, c);
    head, tail := s[..n], s[n + 1..];
    assert s == head + [c] + tail;
    SplitOnHead(head, tail, c);
  }

  lemma {:induction false} FirstOf(s: string, c: char) returns (n: nat)
    requires c in s
    ensures n < |s| && s[n] == c && c !in s[..n]
  {
    if s[0] == c {
      n := 0;
    } else {
      assert c in s[1..];
      var m := FirstOf(s[1..], c);
      n := m + 1;
      assert s[..n] == [s[0]] + s[1..][..m];
    }
  }
}
