/** JSON values and `json.dumps(value, sort_keys=True)` for two choices of separators. */
module JsonText {
  import opened Sorting
  import opened Wrappers

  const QUOTE := 34
  const BACKSLASH := 92
  const COMMA := 44
  const COLON := 58
  const OPEN_LIST := 91
  const CLOSE_LIST := 93
  const OPEN_DICT := 123
  const CLOSE_DICT := 125

  /** Strings are UTF-16 code units; a dict keeps its members in insertion order. */
  datatype Json =
    | Null
    | Bool(b: bool)
    | Number(literal: Text)
    | String(text: Text)
    | List(items: seq<Json>)
    | Dict(members: seq<Member>)

  datatype Member = Member(name: Text, value: Json)

  predicate CodeUnits(s: Text) {
    forall i :: 0 <= i < |s| ==> 0 <= s[i] < 0x10000
  }

  /** Digits, sign, point, exponent, and the letters of NaN and Infinity. */
  predicate NumberChar(c: int) {
    48 <= c <= 57 || c == 43 || c == 45 || c == 46 || 65 <= c <= 90 || 97 <= c <= 122
  }

  /** A number prints as its literal, which starts with a digit, a sign, `N` or `I`. */
  predicate NumberLiteral(s: Text) {
    && s != []
    && (forall c :: c in s ==> NumberChar(c))
    && (48 <= s[0] <= 57 || s[0] == 45 || s[0] == 78 || s[0] == 73)
  }

  function Ascii(s: string): (t: Text)
    ensures |t| == |s| && forall i :: 0 <= i < |s| ==> t[i] == s[i] as int
  {
    seq(|s|, i requires 0 <= i < |s| => s[i] as int)
  }

  /** The literals of JSON and of `repr` are among them. */
  lemma NumbersAreLiterals(s: string)
    requires || s == "NaN" || s == "Infinity" || s == "-Infinity"
             || (s != [] && (forall c :: c in s ==> '0' <= c <= '9' || c in "+-.eE")
                 && ('0' <= s[0] <= '9' || s[0] == '-'))
    ensures NumberLiteral(Ascii(s))
  {
    forall c | c in Ascii(s) ensures NumberChar(c) {
      var i :| 0 <= i < |s| && Ascii(s)[i] == c;
      assert s[i] in s;
    }
  }

  ghost predicate DistinctNames(members: seq<Member>) {
    forall i, j :: 0 <= i < j < |members| ==> members[i].name != members[j].name
  }

  /** What a parsed document satisfies at every depth. */
  ghost predicate Valid(v: Json) {
    match v
    case Null => true
    case Bool(_) => true
    case Number(literal) => NumberLiteral(literal)
    case String(s) => CodeUnits(s)
    case List(items) => forall x :: x in items ==> Valid(x)
    case Dict(members) =>
      && DistinctNames(members)
      && forall m :: m in members ==> CodeUnits(m.name) && Valid(m.value)
  }

  // ----- Printing -----

  /** `separators=(', ', ': ')`, the default, or `(',', ':')`. */
  datatype Style = Style(comma: Text, colon: Text) {
    predicate Ok() {
      comma != [] && comma[0] == COMMA && colon != [] && colon[0] == COLON
    }
  }

  const SPACED := Style([COMMA, 32], [COLON, 32])
  const COMPACT := Style([COMMA], [COLON])

  function HexDigit(d: int): int {
    if d < 10 then 48 + d else 87 + d
  }

  /** One code unit under `ensure_ascii`. */
  function Escape(c: int): (r: Text)
    ensures r != []
  {
    if c == QUOTE || c == BACKSLASH then [BACKSLASH, c]
    else if c == 10 then [BACKSLASH, 110]
    else if c == 13 then [BACKSLASH, 114]
    else if c == 9 then [BACKSLASH, 116]
    else if c == 12 then [BACKSLASH, 102]
    else if c == 8 then [BACKSLASH, 98]
    else if 32 <= c <= 126 then [c]
    else [BACKSLASH, 117, HexDigit(c / 4096), HexDigit(c / 256 % 16), HexDigit(c / 16 % 16), HexDigit(c % 16)]
  }

  function Escaped(s: Text): Text {
    if s == [] then [QUOTE] else Escape(s[0]) + Escaped(s[1..])
  }

  function Quoted(s: Text): Text {
    [QUOTE] + Escaped(s)
  }

  /** Texts joined by the comma of a style, and closed. */
  function Joined(texts: seq<Text>, comma: Text, close: int): Text {
    if texts == [] then [close] else texts[0] + More(texts[1..], comma, close)
  }

  function More(texts: seq<Text>, comma: Text, close: int): Text {
    if texts == [] then [close] else comma + texts[0] + More(texts[1..], comma, close)
  }

  /** A text keyed by itself, as the sort key of a list element. */
  function SelfKeyed(texts: seq<Text>): seq<Keyed<Text>> {
    seq(|texts|, i requires 0 <= i < |texts| => Keyed(texts[i], texts[i]))
  }

  function Arranged(texts: seq<Text>, sorted: bool): seq<Text> {
    if sorted then Items(Sort(SelfKeyed(texts))) else texts
  }

  /**
   * The text of a value, with dict members sorted by name; when `sorted`, the element
   * texts of every list are put in order as well.
   */
  function Print(v: Json, style: Style, sorted: bool): Text
    decreases v, 1
  {
    match v
    case Null => [110, 117, 108, 108]
    case Bool(b) => if b then [116, 114, 117, 101] else [102, 97, 108, 115, 101]
    case Number(literal) => literal
    case String(s) => Quoted(s)
    case List(items) =>
      [OPEN_LIST] + Joined(Arranged(PrintAll(items, style, sorted), sorted), style.comma, CLOSE_LIST)
    case Dict(members) =>
      [OPEN_DICT] + Joined(Items(Sort(Entries(members, style, sorted))), style.comma, CLOSE_DICT)
  }

  function PrintAll(items: seq<Json>, style: Style, sorted: bool): (texts: seq<Text>)
    ensures |texts| == |items|
    ensures forall i :: 0 <= i < |items| ==> texts[i] == Print(items[i], style, sorted)
    decreases items, 0
  {
    if items == [] then [] else [Print(items[0], style, sorted)] + PrintAll(items[1..], style, sorted)
  }

  function EntryText(name: Text, text: Text, style: Style): Text {
    Quoted(name) + (style.colon + text)
  }

  /** The printed members, keyed by their names. */
  function Entries(members: seq<Member>, style: Style, sorted: bool): (entries: seq<Keyed<Text>>)
    ensures |entries| == |members|
    ensures forall i :: 0 <= i < |members| ==>
              entries[i] == Keyed(members[i].name,
                                  EntryText(members[i].name, Print(members[i].value, style, sorted), style))
    decreases members, 0
  {
    if members == [] then [] else
      [Keyed(members[0].name, EntryText(members[0].name, Print(members[0].value, style, sorted), style))]
      + Entries(members[1..], style, sorted)
  }

  /** `json.dumps(value, sort_keys=True)`. */
  function Dumps(v: Json, style: Style): Text {
    Print(v, style, false)
  }

  // ----- Reading a string back -----

  /** The value of a hexadecimal digit. */
  function HexValue(c: int): Option<int> {
    if '0' as int <= c <= '9' as int then Some(c - '0' as int)
    else if 'a' as int <= c <= 'f' as int then Some(c - 'a' as int + 10)
    else if 'A' as int <= c <= 'F' as int then Some(c - 'A' as int + 10)
    else None
  }

  function HexValues(digits: Text): Option<int> {
    if digits == [] then Some(0)
    else
      var before, last := HexValues(digits[..|digits| - 1]), HexValue(digits[|digits| - 1]);
      if before.None? || last.None? then None else Some(16 * before.value + last.value)
  }

  /** One unit of a JSON string (section 7 of RFC 8259), and how many characters it takes. */
  function ReadUnit(t: Text): Option<(int, nat)> {
    if t == [] || t[0] < ' ' as int || t[0] == '"' as int then None
    else if t[0] != '\\' as int then Some((t[0], 1))
    else if |t| < 2 then None
    else if t[1] == 'b' as int then Some((8, 2))
    else if t[1] == 't' as int then Some((9, 2))
    else if t[1] == 'n' as int then Some((10, 2))
    else if t[1] == 'f' as int then Some((12, 2))
    else if t[1] == 'r' as int then Some((13, 2))
    else if t[1] == '"' as int || t[1] == '\\' as int || t[1] == '/' as int then Some((t[1], 2))
    else if t[1] == 'u' as int && |t| >= 6 && HexValues(t[2..6]).Some? then Some((HexValues(t[2..6]).value, 6))
    else None
  }

  /** The rest of a JSON string up to its closing quote, and the text after it. */
  function ReadUnits(t: Text): Option<(Text, Text)> {
    if t != [] && t[0] == '"' as int then Some(([], t[1..]))
    else
      var unit := ReadUnit(t);
      if unit.None? || unit.value.1 > |t| then None
      else
        var more := ReadUnits(t[unit.value.1..]);
        if more.None? then None else Some(([unit.value.0] + more.value.0, more.value.1))
  }

  function ReadString(t: Text): Option<(Text, Text)> {
    if t != [] && t[0] == '"' as int then ReadUnits(t[1..]) else None
  }

  lemma HexAppend(digits: Text, value: int, d: int)
    requires HexValues(digits) == Some(value) && 0 <= d < 16
    ensures HexValues(digits + [HexDigit(d)]) == Some(16 * value + d)
  {
    assert (digits + [HexDigit(d)])[..|digits|] == digits;
  }

  lemma NoDigits()
    ensures HexValues([]) == Some(0)
  {
  }

  lemma HexReadsBack(c: int)
    requires 0 <= c < 0x10000
    ensures HexValues([HexDigit(c / 4096), HexDigit(c / 256 % 16), HexDigit(c / 16 % 16), HexDigit(c % 16)]) == Some(c)
  {
    hide HexValues, HexDigit;
    var top, upper, lower, low := HexDigit(c / 4096), HexDigit(c / 256 % 16), HexDigit(c / 16 % 16), HexDigit(c % 16);
    assert [] + [top] == [top] && [top] + [upper] == [top, upper] && [top, upper] + [lower] == [top, upper, lower]
        && [top, upper, lower] + [low] == [top, upper, lower, low];
    NoDigits();
    HexAppend([], 0, c / 4096);
    HexAppend([top], c / 4096, c / 256 % 16);
    HexAppend([top, upper], c / 256, c / 16 % 16);
    HexAppend([top, upper, lower], c / 16, c % 16);
  }

  lemma UnitReadsBack(c: int, rest: Text)
    requires 0 <= c < 0x10000
    ensures ReadUnit(Escape(c) + rest) == Some((c, |Escape(c)|))
    ensures Escape(c)[0] != '"' as int
    ensures |Escape(c)| == if c in {8, 9, 10, 12, 13, '"' as int, '\\' as int} then 2
                           else if 32 <= c <= 126 then 1 else 6
    ensures |Escape(c)| == 6 ==> forall x :: x in Escape(c)[2..] ==> 48 <= x <= 57 || 'a' as int <= x <= 'f' as int
  {
    var t := Escape(c) + rest;
    if |Escape(c)| == 6 {
      HexReadsBack(c);
      assert t[2..6] == Escape(c)[2..6];
    }
  }

  /** Any string, printed and followed by anything, is read back as it was. */
  lemma {:induction false} StringReadsBack(s: Text, rest: Text)
    requires CodeUnits(s)
    ensures ReadString(Quoted(s) + rest) == Some((s, rest))
  {
    UnitsReadBack(s, rest);
    assert (Quoted(s) + rest)[1..] == Escaped(s) + rest;
  }

  lemma {:induction false} UnitsReadBack(s: Text, rest: Text)
    requires CodeUnits(s)
    ensures ReadUnits(Escaped(s) + rest) == Some((s, rest))
  {
    if s == [] {
      assert ([QUOTE] + rest)[1..] == rest;
    } else {
      UnitReadsBack(s[0], Escaped(s[1..]) + rest);
      UnitsReadBack(s[1..], rest);
      EscapedHead(s, rest);
      UnitsStep(s, Escaped(s) + rest, Escaped(s[1..]) + rest, rest);
    }
  }

  lemma EscapedHead(s: Text, rest: Text)
    requires s != []
    ensures Escaped(s) + rest == Escape(s[0]) + (Escaped(s[1..]) + rest)
  {
  }

  lemma UnitsStep(s: Text, whole: Text, t: Text, rest: Text)
    requires s != [] && whole == Escape(s[0]) + t && Escape(s[0])[0] != QUOTE
    requires ReadUnit(whole) == Some((s[0], |Escape(s[0])|)) && ReadUnits(t) == Some((s[1..], rest))
    ensures ReadUnits(whole) == Some((s, rest))
  {
    hide ReadUnit, Escape;
    assert whole[0] == Escape(s[0])[0] && whole[|Escape(s[0])|..] == t;
    assert |Escape(s[0])| <= |whole| && [s[0]] + s[1..] == s;
  }

  // ----- What surrounds a value -----

  /** The characters that open and close the text of each kind of value. */
  lemma FormExactly(v: Json, style: Style, sorted: bool)
    ensures var t := Print(v, style, sorted);
            match v
            case Null => t == Ascii("null")
            case Bool(b) => t == Ascii(if b then "true" else "false")
            case Number(literal) => t == literal
            case String(_) => |t| >= 2 && t[0] == '"' as int && t[|t| - 1] == '"' as int
            case List(_) => |t| >= 2 && t[0] == '[' as int && t[|t| - 1] == ']' as int
            case Dict(_) => |t| >= 2 && t[0] == '{' as int && t[|t| - 1] == '}' as int
    ensures SPACED == Style(Ascii(", "), Ascii(": ")) && COMPACT == Style(Ascii(","), Ascii(":"))
  {
    match v
    case String(s) => EscapedEnds(s);
    case List(items) =>
      JoinedEnds(Arranged(PrintAll(items, style, sorted), sorted), style.comma, CLOSE_LIST);
    case Dict(members) =>
      JoinedEnds(Items(Sort(Entries(members, style, sorted))), style.comma, CLOSE_DICT);
    case _ =>
  }

  lemma {:induction false} EscapedEnds(s: Text)
    ensures Escaped(s) != [] && Escaped(s)[|Escaped(s)| - 1] == QUOTE
  {
    if s != [] {
      EscapedEnds(s[1..]);
    }
  }

  lemma {:induction false} MoreEnds(texts: seq<Text>, comma: Text, close: int)
    ensures var t := More(texts, comma, close); t != [] && t[|t| - 1] == close
  {
    if texts != [] {
      MoreEnds(texts[1..], comma, close);
    }
  }

  lemma JoinedEnds(texts: seq<Text>, comma: Text, close: int)
    ensures var t := Joined(texts, comma, close); t != [] && t[|t| - 1] == close
  {
    if texts != [] {
      MoreEnds(texts[1..], comma, close);
    }
  }

  // ----- Equality of values -----

  /**
   * Equality up to the order of dict members and, unless `ordered`, up to the order of
   * the lists at every depth.
   */
  ghost predicate Same(a: Json, b: Json, ordered: bool)
    decreases a
  {
    match a
    case List(xs) =>
      b.List? && |xs| == |b.items| &&
      exists p :: Permutation(p, |xs|) && Matched(xs, b.items, p, ordered) && (ordered ==> Identity(p))
    case Dict(ms) =>
      b.Dict? && |ms| == |b.members| &&
      exists p :: Permutation(p, |ms|) && MatchedMembers(ms, b.members, p, ordered)
    case _ => a == b
  }

  ghost predicate Identity(p: seq<nat>) {
    forall i :: 0 <= i < |p| ==> p[i] == i
  }

  ghost predicate Matched(xs: seq<Json>, ys: seq<Json>, p: seq<nat>, ordered: bool)
    requires |xs| == |ys| && Permutation(p, |xs|)
    decreases xs, 0
  {
    forall i :: 0 <= i < |xs| ==> Same(xs[i], ys[p[i]], ordered)
  }

  ghost predicate MatchedMembers(ms: seq<Member>, ns: seq<Member>, p: seq<nat>, ordered: bool)
    requires |ms| == |ns| && Permutation(p, |ms|)
    decreases ms, 0
  {
    forall i :: 0 <= i < |ms| ==> ms[i].name == ns[p[i]].name && Same(ms[i].value, ns[p[i]].value, ordered)
  }

  // ----- Printed texts delimit themselves -----

  predicate Stop(c: int) {
    c == COMMA || c == CLOSE_LIST || c == CLOSE_DICT
  }

  predicate Prefix(t: Text, u: Text) {
    |t| <= |u| && forall i :: 0 <= i < |t| ==> t[i] == u[i]
  }

  /** `t` could be read as a part of `u`: `u` goes on after it with a delimiter. */
  predicate Confusable(t: Text, u: Text) {
    |t| < |u| && Prefix(t, u) && Stop(u[|t|])
  }

  ghost predicate Apart(t: Text, u: Text) {
    !Confusable(t, u) && !Confusable(u, t)
  }

  /** A text that can stand in a list or dict. */
  ghost predicate Element(t: Text) {
    t != [] && !Stop(t[0])
  }

  ghost predicate AllApart(ts: seq<Text>, us: seq<Text>) {
    && (forall t :: t in ts ==> Element(t))
    && (forall u :: u in us ==> Element(u))
    && forall t, u :: t in ts && u in us ==> Apart(t, u)
  }

  lemma ShorterPrefix(t: Text, x: Text, u: Text, y: Text)
    requires Prefix(t + x, u + y) && |t| < |u| && x != []
    ensures Prefix(t, u) && u[|t|] == x[0]
  {
    assert forall i :: 0 <= i < |t| ==> t[i] == (t + x)[i] == (u + y)[i] == u[i];
    assert x[0] == (t + x)[|t|] == (u + y)[|t|] == u[|t|];
  }

  lemma LongerPrefix(t: Text, x: Text, u: Text, y: Text)
    requires Prefix(t + x, u + y) && |u| < |t| && y != []
    ensures Prefix(u, t) && t[|u|] == y[0]
  {
    assert forall i :: 0 <= i < |u| ==> t[i] == (t + x)[i] == (u + y)[i] == u[i];
    assert t[|u|] == (t + x)[|u|] == (u + y)[|u|] == y[0];
  }

  lemma EqualPrefix(t: Text, x: Text, u: Text, y: Text)
    requires |t| == |u|
    ensures Prefix(t + x, u + y) <==> t == u && Prefix(x, y)
  {
    if Prefix(t + x, u + y) {
      assert forall i :: 0 <= i < |t| ==> t[i] == (t + x)[i] == (u + y)[i] == u[i];
      assert forall i :: 0 <= i < |x| ==> x[i] == (t + x)[|t| + i] == (u + y)[|t| + i] == y[i];
    }
  }

  lemma PrefixCons(t: Text, u: Text, head: Text)
    ensures Prefix(head + t, head + u) <==> Prefix(t, u)
  {
    EqualPrefix(head, t, head, u);
  }

  /** Two texts, both followed by a delimiter, one continuing the other: the same text. */
  lemma ApartPrefix(t: Text, x: Text, u: Text, y: Text)
    requires Apart(t, u) && x != [] && y != [] && Stop(x[0]) && Stop(y[0])
    requires Prefix(t + x, u + y)
    ensures t == u && Prefix(x, y)
  {
    hide Prefix, Stop;
    if |t| < |u| {
      ShorterPrefix(t, x, u, y);
    } else if |u| < |t| {
      LongerPrefix(t, x, u, y);
    } else {
      EqualPrefix(t, x, u, y);
    }
  }

  lemma MoreStops(texts: seq<Text>, style: Style, close: int)
    requires style.Ok() && (close == CLOSE_LIST || close == CLOSE_DICT)
    ensures var m := More(texts, style.comma, close);
            m != [] && Stop(m[0]) && (m[0] == close <==> texts == [])
  {
  }

  lemma ApartTails(ts: seq<Text>, us: seq<Text>)
    requires ts != [] && us != [] && AllApart(ts, us)
    ensures Apart(ts[0], us[0]) && AllApart(ts[1..], us[1..])
  {
  }

  lemma ConsSame(ts: seq<Text>, us: seq<Text>)
    requires ts != [] && us != [] && ts[0] == us[0] && ts[1..] == us[1..]
    ensures ts == us
  {
    assert ts == [ts[0]] + ts[1..] && us == [us[0]] + us[1..];
  }

  lemma AssociativeText(a: Text, b: Text, c: Text)
    ensures a + (b + c) == a + b + c
  {
  }

  lemma {:induction false} MorePrefix(ts: seq<Text>, us: seq<Text>, style: Style, close: int)
    requires style.Ok() && (close == CLOSE_LIST || close == CLOSE_DICT) && AllApart(ts, us)
    requires Prefix(More(ts, style.comma, close), More(us, style.comma, close))
    ensures ts == us
  {
    hide AllApart, Apart, Prefix, Element, Stop, Confusable;
    MoreStops(ts, style, close);
    MoreStops(us, style, close);
    PrefixHead(More(ts, style.comma, close), More(us, style.comma, close));
    if ts != [] {
      var m, n := More(ts[1..], style.comma, close), More(us[1..], style.comma, close);
      AssociativeText(style.comma, ts[0], m);
      AssociativeText(style.comma, us[0], n);
      PrefixCons(ts[0] + m, us[0] + n, style.comma);
      NextPrefix(ts, us, m, n, style, close);
      MorePrefix(ts[1..], us[1..], style, close);
      ConsSame(ts, us);
    }
  }

  lemma NextPrefix(ts: seq<Text>, us: seq<Text>, m: Text, n: Text, style: Style, close: int)
    requires style.Ok() && (close == CLOSE_LIST || close == CLOSE_DICT)
    requires ts != [] && us != [] && AllApart(ts, us)
    requires m == More(ts[1..], style.comma, close) && n == More(us[1..], style.comma, close)
    requires Prefix(ts[0] + m, us[0] + n)
    ensures ts[0] == us[0] && Prefix(m, n) && AllApart(ts[1..], us[1..])
  {
    hide AllApart, Apart, Stop, More;
    MoreStops(ts[1..], style, close);
    MoreStops(us[1..], style, close);
    ApartTails(ts, us);
    ApartPrefix(ts[0], m, us[0], n);
  }

  lemma PrefixHead(t: Text, u: Text)
    requires t != [] && Prefix(t, u)
    ensures u != [] && t[0] == u[0]
  {
  }

  /** A joined text is a prefix of another only if both join the same texts. */
  lemma JoinedPrefix(ts: seq<Text>, us: seq<Text>, style: Style, close: int)
    requires style.Ok() && (close == CLOSE_LIST || close == CLOSE_DICT) && AllApart(ts, us)
    requires Prefix(Joined(ts, style.comma, close), Joined(us, style.comma, close))
    ensures ts == us
  {
    JoinedHead(ts, us, style, close);
    if ts != [] {
      var m, n := More(ts[1..], style.comma, close), More(us[1..], style.comma, close);
      NextPrefix(ts, us, m, n, style, close);
      MorePrefix(ts[1..], us[1..], style, close);
      ConsSame(ts, us);
    }
  }

  lemma JoinedHead(ts: seq<Text>, us: seq<Text>, style: Style, close: int)
    requires style.Ok() && (close == CLOSE_LIST || close == CLOSE_DICT) && AllApart(ts, us)
    requires Prefix(Joined(ts, style.comma, close), Joined(us, style.comma, close))
    ensures ts == [] <==> us == []
  {
    PrefixHead(Joined(ts, style.comma, close), Joined(us, style.comma, close));
    JoinedStop(ts, style.comma, close);
    JoinedStop(us, style.comma, close);
  }

  lemma JoinedStop(ts: seq<Text>, comma: Text, close: int)
    requires close == CLOSE_LIST || close == CLOSE_DICT
    requires forall t :: t in ts ==> Element(t)
    ensures var j := Joined(ts, comma, close); j != [] && (Stop(j[0]) <==> ts == [])
  {
    if ts != [] {
      assert ts[0] in ts;
    }
  }

  // ----- Strings -----

  lemma PrefixAt(t: Text, u: Text)
    requires Prefix(t, u)
    ensures |t| <= |u| && forall i :: 0 <= i < |t| ==> t[i] == u[i]
  {
  }

  /** An escape is recognised by its first two units, and its length with it. */
  lemma EscapeShape(c: int, d: int)
    requires 0 <= c < 0x10000 && 0 <= d < 0x10000
    requires Escape(c)[0] == Escape(d)[0]
    ensures |Escape(c)| == 1 <==> |Escape(d)| == 1
    ensures |Escape(c)| == 1 ==> c == d
    ensures |Escape(c)| > 1 && Escape(c)[1] == Escape(d)[1] ==>
              |Escape(c)| == |Escape(d)| && (|Escape(c)| == 2 ==> c == d)
    ensures |Escape(c)| > 1 ==> |Escape(c)| == 2 || |Escape(c)| == 6
  {
  }

  lemma EscapeHex(c: int, d: int)
    requires 0 <= c < 0x10000 && 0 <= d < 0x10000
    requires |Escape(c)| == 6 && Escape(c) == Escape(d)
    ensures c == d
  {
    var e, f := Escape(c), Escape(d);
    assert e[2] == f[2] && e[3] == f[3] && e[4] == f[4] && e[5] == f[5];
    Nibbles(c);
    Nibbles(d);
  }

  lemma Nibbles(c: int)
    requires 0 <= c < 0x10000
    ensures 0 <= c / 4096 < 16
    ensures c == 4096 * (c / 4096) + 256 * (c / 256 % 16) + 16 * (c / 16 % 16) + c % 16
  {
    var q := c / 16;
    var r := q / 16;
    assert c / 256 == r && c / 4096 == r / 16;
    assert c == 16 * q + c % 16 && q == 16 * r + q % 16 && r == 16 * (r / 16) + r % 16;
  }

  /** Escapes form a prefix code. */
  lemma EscapePrefix(c: int, x: Text, d: int, y: Text)
    requires 0 <= c < 0x10000 && 0 <= d < 0x10000
    requires Prefix(Escape(c) + x, Escape(d) + y)
    ensures c == d && Prefix(x, y)
  {
    hide Escape, Prefix;
    var e, f := Escape(c), Escape(d);
    PrefixAt(e + x, f + y);
    assert e[0] == (e + x)[0] == (f + y)[0] == f[0];
    EscapeShape(c, d);
    if |e| > 1 {
      assert e[1] == (e + x)[1] == (f + y)[1] == f[1];
      if |e| == 6 {
        assert forall i :: 0 <= i < 6 ==> e[i] == (e + x)[i] == (f + y)[i] == f[i];
        assert e == f;
        EscapeHex(c, d);
      }
    }
    PrefixCons(x, y, e);
  }

  lemma EscapeIsNotQuote(c: int)
    ensures Escape(c)[0] != QUOTE
  {
  }

  lemma CodeUnitsCons(s: Text)
    requires s != [] && CodeUnits(s)
    ensures 0 <= s[0] < 0x10000 && CodeUnits(s[1..])
  {
  }

  /** The closing quote ends a string: one escaped text is never a prefix of another's. */
  lemma {:induction false} EscapedPrefix(s: Text, x: Text, t: Text, y: Text)
    requires CodeUnits(s) && CodeUnits(t) && Prefix(Escaped(s) + x, Escaped(t) + y)
    ensures s == t && Prefix(x, y)
  {
    hide Prefix, Escape;
    PrefixHead(Escaped(s) + x, Escaped(t) + y);
    if s == [] || t == [] {
      if s != [] { EscapeIsNotQuote(s[0]); }
      if t != [] { EscapeIsNotQuote(t[0]); }
      PrefixCons(x, y, [QUOTE]);
    } else {
      assert Escaped(s) + x == Escape(s[0]) + (Escaped(s[1..]) + x);
      assert Escaped(t) + y == Escape(t[0]) + (Escaped(t[1..]) + y);
      CodeUnitsCons(s);
      CodeUnitsCons(t);
      EscapePrefix(s[0], Escaped(s[1..]) + x, t[0], Escaped(t[1..]) + y);
      EscapedPrefix(s[1..], x, t[1..], y);
      ConsEqual(s, t);
    }
  }

  // ----- Every printed value delimits itself -----

  lemma PrintElement(v: Json, style: Style, sorted: bool)
    requires Valid(v)
    ensures Element(Print(v, style, sorted))
  {
  }

  lemma HeadsApart(t: Text, u: Text)
    requires t != [] && u != [] && t[0] != u[0]
    ensures Apart(t, u)
  {
  }

  lemma NumbersApart(t: Text, u: Text)
    requires NumberLiteral(t) && NumberLiteral(u)
    ensures Apart(t, u)
  {
    forall i | 0 <= i < |t| ensures !Stop(t[i]) {
      assert t[i] in t;
    }
    forall i | 0 <= i < |u| ensures !Stop(u[i]) {
      assert u[i] in u;
    }
  }

  lemma QuotedPrefix(s: Text, x: Text, t: Text, y: Text)
    requires CodeUnits(s) && CodeUnits(t) && Prefix(Quoted(s) + x, Quoted(t) + y)
    ensures s == t && Prefix(x, y)
  {
    AssociativeText([QUOTE], Escaped(s), x);
    AssociativeText([QUOTE], Escaped(t), y);
    PrefixCons(Escaped(s) + x, Escaped(t) + y, [QUOTE]);
    EscapedPrefix(s, x, t, y);
  }

  lemma QuotedApart(s: Text, t: Text)
    requires CodeUnits(s) && CodeUnits(t)
    ensures Apart(Quoted(s), Quoted(t))
  {
    hide Quoted, Stop;
    assert Quoted(s) + [] == Quoted(s) && Quoted(t) + [] == Quoted(t);
    if Prefix(Quoted(s), Quoted(t)) {
      QuotedPrefix(s, [], t, []);
    }
    if Prefix(Quoted(t), Quoted(s)) {
      QuotedPrefix(t, [], s, []);
    }
  }

  lemma EntryPrefix(k: Text, t: Text, l: Text, u: Text, style: Style)
    requires CodeUnits(k) && CodeUnits(l)
    requires Prefix(EntryText(k, t, style), EntryText(l, u, style))
    ensures k == l && Prefix(t, u)
  {
    hide Prefix, Quoted;
    QuotedPrefix(k, style.colon + t, l, style.colon + u);
    PrefixCons(t, u, style.colon);
  }

  lemma EntriesApart(k: Text, t: Text, l: Text, u: Text, style: Style)
    requires CodeUnits(k) && CodeUnits(l) && Apart(t, u)
    ensures Apart(EntryText(k, t, style), EntryText(l, u, style))
  {
    hide Prefix, Quoted, Stop;
    if Prefix(EntryText(k, t, style), EntryText(l, u, style)) {
      EntryPrefix(k, t, l, u, style);
      EntryAt(l, u, style, |t|);
    }
    if Prefix(EntryText(l, u, style), EntryText(k, t, style)) {
      EntryPrefix(l, u, k, t, style);
      EntryAt(k, t, style, |u|);
    }
  }

  lemma EntryAt(k: Text, t: Text, style: Style, n: nat)
    ensures var head := |Quoted(k)| + |style.colon|;
            && |EntryText(k, t, style)| == head + |t|
            && (n < |t| ==> EntryText(k, t, style)[head + n] == t[n])
  {
    hide Quoted;
  }

  lemma EntryElement(k: Text, t: Text, style: Style)
    ensures Element(EntryText(k, t, style))
  {
  }

  /** The texts inside a list, and inside a dict. */
  lemma ArrangedMembers(texts: seq<Text>, sorted: bool, t: Text)
    requires t in Arranged(texts, sorted)
    ensures t in texts
  {
    hide Sort;
    if sorted {
      var xs := SelfKeyed(texts);
      var i :| 0 <= i < |Sort(xs)| && Items(Sort(xs))[i] == t;
      SortMembers(xs);
      assert Sort(xs)[i] in xs;
      var j :| 0 <= j < |xs| && xs[j] == Sort(xs)[i];
      assert texts[j] == t;
    }
  }

  lemma EntryMember(members: seq<Member>, style: Style, sorted: bool, t: Text) returns (i: nat)
    requires t in Items(Sort(Entries(members, style, sorted)))
    ensures i < |members| && t == EntryText(members[i].name, Print(members[i].value, style, sorted), style)
  {
    hide Sort, EntryText, Print;
    var xs := Entries(members, style, sorted);
    var j :| 0 <= j < |Sort(xs)| && Items(Sort(xs))[j] == t;
    SortMembers(xs);
    assert Sort(xs)[j] in xs;
    i :| 0 <= i < |xs| && xs[i] == Sort(xs)[j];
  }

  lemma {:induction false} PrintApart(a: Json, b: Json, style: Style, sorted: bool)
    requires Valid(a) && Valid(b) && style.Ok()
    ensures Apart(Print(a, style, sorted), Print(b, style, sorted))
    decreases a
  {
    hide Prefix, Stop, Joined, Sort, Arranged, Quoted, Items, Confusable;
    match (a, b)
    case (Number(s), Number(t)) => NumbersApart(s, t);
    case (String(s), String(t)) => QuotedApart(s, t);
    case (List(xs), List(ys)) =>
      var ts, us := PrintAll(xs, style, sorted), PrintAll(ys, style, sorted);
      forall i, j | 0 <= i < |xs| && 0 <= j < |ys|
        ensures Apart(Print(xs[i], style, sorted), Print(ys[j], style, sorted))
      {
        PrintApart(xs[i], ys[j], style, sorted);
      }
      ListsAllApart(xs, ys, style, sorted);
      JoinedApart(Arranged(ts, sorted), Arranged(us, sorted), style, OPEN_LIST, CLOSE_LIST);
    case (Dict(ms), Dict(ns)) =>
      forall i, j | 0 <= i < |ms| && 0 <= j < |ns|
        ensures Apart(Print(ms[i].value, style, sorted), Print(ns[j].value, style, sorted))
      {
        PrintApart(ms[i].value, ns[j].value, style, sorted);
      }
      DictsAllApart(ms, ns, style, sorted);
      JoinedApart(Items(Sort(Entries(ms, style, sorted))), Items(Sort(Entries(ns, style, sorted))),
                  style, OPEN_DICT, CLOSE_DICT);
    case _ =>
      KindsApart(a, b, style, sorted);
  }

  /** Values of different kinds print with different first units; constants are themselves. */
  lemma KindsApart(a: Json, b: Json, style: Style, sorted: bool)
    requires Valid(a) && Valid(b)
    requires !(a.Number? && b.Number?) && !(a.String? && b.String?) && !(a.List? && b.List?) && !(a.Dict? && b.Dict?)
    ensures Apart(Print(a, style, sorted), Print(b, style, sorted))
  {
    var t, u := Print(a, style, sorted), Print(b, style, sorted);
    if t != u {
      HeadsApart(t, u);
    }
  }

  lemma ItemMember(items: seq<Json>, style: Style, sorted: bool, t: Text) returns (i: nat)
    requires t in Arranged(PrintAll(items, style, sorted), sorted)
    ensures i < |items| && t == Print(items[i], style, sorted)
  {
    hide Arranged, Print;
    var texts := PrintAll(items, style, sorted);
    ArrangedMembers(texts, sorted, t);
    i :| 0 <= i < |texts| && texts[i] == t;
  }

  lemma ListsAllApart(xs: seq<Json>, ys: seq<Json>, style: Style, sorted: bool)
    requires Valid(List(xs)) && Valid(List(ys))
    requires forall i, j :: 0 <= i < |xs| && 0 <= j < |ys| ==>
               Apart(Print(xs[i], style, sorted), Print(ys[j], style, sorted))
    ensures AllApart(Arranged(PrintAll(xs, style, sorted), sorted), Arranged(PrintAll(ys, style, sorted), sorted))
  {
    hide Arranged, Apart, Print, PrintAll, Element;
    var ts, us := Arranged(PrintAll(xs, style, sorted), sorted), Arranged(PrintAll(ys, style, sorted), sorted);
    forall t | t in ts ensures Element(t) {
      var i := ItemMember(xs, style, sorted, t);
      PrintElement(xs[i], style, sorted);
    }
    forall u | u in us ensures Element(u) {
      var j := ItemMember(ys, style, sorted, u);
      PrintElement(ys[j], style, sorted);
    }
    forall t, u | t in ts && u in us ensures Apart(t, u) {
      var i := ItemMember(xs, style, sorted, t);
      var j := ItemMember(ys, style, sorted, u);
    }
  }

  lemma DictsAllApart(ms: seq<Member>, ns: seq<Member>, style: Style, sorted: bool)
    requires Valid(Dict(ms)) && Valid(Dict(ns))
    requires forall i, j :: 0 <= i < |ms| && 0 <= j < |ns| ==>
               Apart(Print(ms[i].value, style, sorted), Print(ns[j].value, style, sorted))
    ensures AllApart(Items(Sort(Entries(ms, style, sorted))), Items(Sort(Entries(ns, style, sorted))))
  {
    hide Apart, Element, Items, Sort, Print, EntryText;
    var ts, us := Items(Sort(Entries(ms, style, sorted))), Items(Sort(Entries(ns, style, sorted)));
    forall t | t in ts ensures Element(t) {
      var i := EntryMember(ms, style, sorted, t);
      EntryElement(ms[i].name, Print(ms[i].value, style, sorted), style);
    }
    forall u | u in us ensures Element(u) {
      var j := EntryMember(ns, style, sorted, u);
      EntryElement(ns[j].name, Print(ns[j].value, style, sorted), style);
    }
    forall t, u | t in ts && u in us ensures Apart(t, u) {
      var i := EntryMember(ms, style, sorted, t);
      var j := EntryMember(ns, style, sorted, u);
      assert ms[i] in ms && ns[j] in ns;
      EntriesApart(ms[i].name, Print(ms[i].value, style, sorted), ns[j].name, Print(ns[j].value, style, sorted), style);
    }
  }

  lemma AllApartSymmetric(ts: seq<Text>, us: seq<Text>)
    requires AllApart(ts, us)
    ensures AllApart(us, ts)
  {
  }

  lemma JoinedApart(ts: seq<Text>, us: seq<Text>, style: Style, open: int, close: int)
    requires style.Ok() && (close == CLOSE_LIST || close == CLOSE_DICT) && AllApart(ts, us)
    ensures Apart([open] + Joined(ts, style.comma, close), [open] + Joined(us, style.comma, close))
  {
    hide Prefix, AllApart, Joined, Stop;
    var t, u := Joined(ts, style.comma, close), Joined(us, style.comma, close);
    PrefixCons(t, u, [open]);
    PrefixCons(u, t, [open]);
    AllApartSymmetric(ts, us);
    if Prefix(t, u) {
      JoinedPrefix(ts, us, style, close);
    }
    if Prefix(u, t) {
      JoinedPrefix(us, ts, style, close);
    }
  }
}
