/** The re-parse check of scripts/bluebuild/desktop-qualification.py. */
module DesktopQualification {
  import opened Wrappers
  import opened StringSets
  import opened Text
  import opened CheckVmDesktop

  // ----- Printing observations back -----

  /** `' '.join(words)`. */
  function SpaceJoin(words: seq<string>): string {
    if words == [] then []
    else if |words| == 1 then words[0]
    else words[0] + " " + SpaceJoin(words[1..])
  }

  function RowWords(row: Row): seq<string> {
    match row.thread
    case None => [row.context, Show(row.pid), row.command]
    case Some(t) => [row.context, Show(row.pid), t.state, Show(t.nlwp), row.command]
  }

  function SocketWords(s: Socket): seq<string> {
    [s.protocol, s.state, "0", "0", s.local, s.peer, s.owners]
  }

  function RowLines(rows: seq<Row>): seq<string> {
    seq(|rows|, i requires 0 <= i < |rows| => SpaceJoin(RowWords(rows[i])))
  }

  function SocketLines(sockets: seq<Socket>): seq<string> {
    seq(|sockets|, i requires 0 <= i < |sockets| => SpaceJoin(SocketWords(sockets[i])))
  }

  function FormatOf(v: Observations): Format {
    if v.schema == 1 then Legacy else StateThreads
  }

  function Rendered(v: Observations, profile: string): Inputs {
    Inputs(v.mode, Show(v.kernelEnforce), JoinLines(v.permissive), JoinLines(RowLines(v.processes)),
           JoinLines(SocketLines(v.listeners)), profile, FormatOf(v))
  }

  datatype ValidationError = UnknownSchema | BadFields | Reparse(error: Error) | Inconsistent

  /** `validate_observations`: print, parse again, and compare. */
  function Validate(v: Observations, profile: string, unicode: char -> bool): Result<(), ValidationError> {
    if v.schema != 1 && v.schema != 2 then Err(UnknownSchema)
    else if !(0 < |v.processes| <= ROW_LIMIT)
         || exists i :: 0 <= i < |v.processes| && v.processes[i].thread.None? != (v.schema == 1)
    then Err(BadFields)
    else
      var expected := Observe(Rendered(v, profile), unicode);
      if expected.Err? then Err(Reparse(expected.error))
      else if expected.value != v then Err(Inconsistent)
      else Ok(())
  }

  // ----- Words and lines survive -----

  ghost predicate Fieldable(words: seq<string>) {
    && words != []
    && (forall i :: 0 <= i < |words| - 1 ==> Word(words[i]))
    && words[|words| - 1] != [] && !Blank(words[|words| - 1][0])
  }

  lemma {:induction false} FieldsOfJoined(words: seq<string>)
    requires Fieldable(words)
    ensures Fields(SpaceJoin(words), |words| - 1) == words
  {
    hide Fields, Word, Blank;
    if |words| == 1 {
      FieldsLast(words[0]);
    } else {
      var rest := words[1..];
      FieldableTail(words);
      FieldsOfJoined(rest);
      FieldsCons(words[0], SpaceJoin(rest), |words| - 1);
      assert words == [words[0]] + rest;
    }
  }

  lemma FieldableTail(words: seq<string>)
    requires Fieldable(words) && |words| > 1
    ensures Fieldable(words[1..])
  {
    hide Word, Blank;
    var rest := words[1..];
    assert forall i :: 0 <= i < |rest| ==> rest[i] == words[i + 1];
  }

  lemma {:induction false} JoinedIsLine(words: seq<string>)
    requires Fieldable(words) && forall i :: 0 <= i < |words| ==> NoBreak(words[i])
    ensures Line(SpaceJoin(words))
  {
    if |words| > 1 {
      FieldableTail(words);
      JoinedIsLine(words[1..]);
    }
  }

  // ----- Rows -----

  lemma RowWordsOf(line: string, number: nat, seen: set<int>, format: Format)
    requires NoBreak(line) && ParseRow(line, number, seen, format).Ok?
    ensures var words := RowWords(ParseRow(line, number, seen, format).value);
            && Fieldable(words) && |words| == FieldLimit(format) + 1
            && forall i :: 0 <= i < |words| ==> NoBreak(words[i])
  {
    hide Fields, Blank, LineBreak, ParseNat, ShowNat, Labelled;
    var k := FieldLimit(format);
    FieldsShape(line, k);
    var row := ParseRow(line, number, seen, format).value;
    DigitsAreWords(ShowNat(row.pid));
    if row.thread.Some? {
      DigitsAreWords(ShowNat(row.thread.value.nlwp));
    }
  }

  lemma ParseShownDigits(n: int)
    requires n >= 0
    ensures AllDigits(Show(n)) && ParseNat(Show(n)) == n
  {
    DigitsAreWords(ShowNat(n));
    ParseShown(n);
  }

  /** Printing a parsed row and parsing it again gives the row, whatever its blanks. */
  lemma RowRoundTrip(line: string, number: nat, again: nat, seen: set<int>, format: Format)
    requires NoBreak(line) && ParseRow(line, number, seen, format).Ok?
    ensures var row := ParseRow(line, number, seen, format).value;
            && Line(SpaceJoin(RowWords(row)))
            && ParseRow(SpaceJoin(RowWords(row)), again, seen, format) == Ok(row)
  {
    hide Fields, Blank, LineBreak, ParseNat, Show, Labelled, AllDigits, Fieldable;
    var row := ParseRow(line, number, seen, format).value;
    RowWordsOf(line, number, seen, format);
    JoinedIsLine(RowWords(row));
    FieldsOfJoined(RowWords(row));
    ParseShownDigits(row.pid);
    if row.thread.Some? {
      ParseShownDigits(row.thread.value.nlwp);
    }
  }

  lemma {:induction false} ParseRowsPrefix(lines: seq<string>, n: nat, m: nat, format: Format)
    requires m <= n <= |lines| && ParseRows(lines, n, format).Ok?
    ensures ParseRows(lines, m, format) == Ok(ParseRows(lines, n, format).value[..m])
  {
    hide ParseRow;
    if m < n {
      ParseRowsPrefix(lines, n - 1, m, format);
      var rows := ParseRows(lines, n, format).value;
      assert rows[..n - 1][..m] == rows[..m];
    } else {
      var rows := ParseRows(lines, n, format).value;
      assert rows[..n] == rows;
    }
  }

  lemma ParseRowsLast(lines: seq<string>, n: nat, format: Format)
    requires 0 < n <= |lines| && ParseRows(lines, n, format).Ok?
    ensures var before := ParseRows(lines, n - 1, format);
            && before.Ok?
            && ParseRow(lines[n - 1], n, Pids(before.value), format) == Ok(ParseRows(lines, n, format).value[n - 1])
  {
    hide ParseRow;
  }

  lemma {:induction false} RowsRoundTrip(lines: seq<string>, n: nat, format: Format)
    requires n <= |lines| && ParseRows(lines, n, format).Ok?
    requires forall i :: 0 <= i < |lines| ==> NoBreak(lines[i])
    ensures var rows := ParseRows(lines, n, format).value;
            && (forall i :: 0 <= i < n ==> Line(RowLines(rows)[i]))
            && ParseRows(RowLines(rows), n, format) == Ok(rows)
  {
    hide ParseRow, RowWords, SpaceJoin, Line, Pids;
    if n > 0 {
      var rows := ParseRows(lines, n, format).value;
      ParseRowsLast(lines, n, format);
      ParseRowsPrefix(lines, n, n - 1, format);
      RowsRoundTrip(lines, n - 1, format);
      RowRoundTrip(lines[n - 1], n, n, Pids(rows[..n - 1]), format);
      var printed, before := RowLines(rows), RowLines(rows[..n - 1]);
      assert before == printed[..n - 1];
      ParseRowsAppend(before, printed, n - 1, format);
      assert rows == rows[..n - 1] + [rows[n - 1]];
    }
  }

  lemma {:induction false} ParseRowsAppend(before: seq<string>, lines: seq<string>, n: nat, format: Format)
    requires n <= |before| <= |lines| && before == lines[..|before|]
    ensures ParseRows(before, n, format) == ParseRows(lines, n, format)
  {
    hide ParseRow;
    if n > 0 {
      ParseRowsAppend(before, lines, n - 1, format);
      assert before[n - 1] == lines[n - 1];
    }
  }

  // ----- Listeners -----

  lemma SocketWordsOf(line: string)
    requires NoBreak(line) && ParseSocket(line).Ok?
    ensures var words := SocketWords(ParseSocket(line).value);
            Fieldable(words) && forall i :: 0 <= i < |words| ==> NoBreak(words[i])
  {
    hide Fields;
    FieldsShape(line, 6);
  }

  lemma SocketRoundTrip(line: string)
    requires NoBreak(line) && ParseSocket(line).Ok?
    ensures var socket := ParseSocket(line).value;
            && Line(SpaceJoin(SocketWords(socket)))
            && ParseSocket(SpaceJoin(SocketWords(socket))) == Ok(socket)
  {
    hide Fields, Fieldable, Blank, LineBreak;
    var socket := ParseSocket(line).value;
    SocketWordsOf(line);
    JoinedIsLine(SocketWords(socket));
    FieldsOfJoined(SocketWords(socket));
  }

  lemma {:induction false} SocketsRoundTrip(lines: seq<string>, n: nat)
    requires n <= |lines| && ParseSockets(lines, n).Ok?
    requires forall i :: 0 <= i < |lines| ==> NoBreak(lines[i])
    ensures var sockets := ParseSockets(lines, n).value;
            && (forall i :: 0 <= i < n ==> Line(SocketLines(sockets)[i]))
            && ParseSockets(SocketLines(sockets), n) == Ok(sockets)
  {
    hide ParseSocket, SocketWords, SpaceJoin, Line;
    if n > 0 {
      var sockets := ParseSockets(lines, n).value;
      SocketsRoundTrip(lines, n - 1);
      SocketRoundTrip(lines[n - 1]);
      var printed, before := SocketLines(sockets), SocketLines(sockets[..n - 1]);
      assert sockets[..n - 1] == ParseSockets(lines, n - 1).value;
      assert before == printed[..n - 1];
      ParseSocketsAppend(before, printed, n - 1);
      assert sockets == sockets[..n - 1] + [sockets[n - 1]];
    }
  }

  lemma {:induction false} ParseSocketsAppend(before: seq<string>, lines: seq<string>, n: nat)
    requires n <= |before| <= |lines| && before == lines[..|before|]
    ensures ParseSockets(before, n) == ParseSockets(lines, n)
  {
    hide ParseSocket;
    if n > 0 {
      ParseSocketsAppend(before, lines, n - 1);
      assert before[n - 1] == lines[n - 1];
    }
  }

  // ----- SELinux types -----

  lemma RunLengthExact(name: string, rest: string, unicode: char -> bool)
    requires forall i :: 0 <= i < |name| ==> AsciiWord(name[i])
    requires rest == [] || rest[0] == '\n'
    ensures RunLength(name + rest, unicode) == |name|
  {
    assert forall i :: 0 <= i < |name| ==> (name + rest)[i] == name[i];
    assert rest != [] ==> (name + rest)[|name|] == rest[0];
  }

  lemma RunsCons(name: string, rest: string, unicode: char -> bool)
    requires TypeName(name) && (rest == [] || rest[0] == '\n')
    ensures Runs(name + rest, unicode) == [name] + Runs(if rest == [] then [] else rest[1..], unicode)
  {
    var s := name + rest;
    RunLengthExact(name, rest, unicode);
    assert s[0] == name[0] && s[..|name|] == name && s[|name|..] == rest;
  }

  /** Type names on lines of their own are found again, in order. */
  lemma {:induction false} RunsOfNames(names: seq<string>, unicode: char -> bool)
    requires forall i :: 0 <= i < |names| ==> TypeName(names[i])
    ensures Runs(JoinLines(names), unicode) == names
  {
    hide TypeName, Runs;
    RunsOfNone(unicode);
    if |names| == 1 {
      RunsCons(names[0], [], unicode);
      assert names[0] + [] == names[0];
    } else if names != [] {
      var rest := "\n" + JoinLines(names[1..]);
      assert JoinLines(names) == names[0] + rest && rest[1..] == JoinLines(names[1..]);
      RunsCons(names[0], rest, unicode);
      RunsOfNames(names[1..], unicode);
    }
  }

  lemma RunsOfNone(unicode: char -> bool)
    ensures Runs([], unicode) == []
  {
  }

  lemma {:induction false} TypeNamesOfNames(names: seq<string>)
    requires forall i :: 0 <= i < |names| ==> TypeName(names[i])
    ensures TypeNames(names) == names
  {
    if names != [] {
      TypeNamesOfNames(names[1..]);
    }
  }

  lemma TypesRoundTrip(text: string, unicode: char -> bool)
    ensures var types := PermissiveTypes(text, unicode);
            PermissiveTypes(JoinLines(types), unicode) == types
  {
    hide Runs, TypeName, SortedSet;
    var names := TypeNames(Runs(text, unicode));
    var types := SortedSet(names);
    SortedSetMembers(names);
    forall i | 0 <= i < |types| ensures TypeName(types[i]) {
      assert types[i] in types;
    }
    RunsOfNames(types, unicode);
    TypeNamesOfNames(types);
    SortedSetTwice(names);
  }

  // ----- The round trip -----

  lemma ProcessesRoundTrip(text: string, format: Format)
    requires ParseRows(SplitLines(text), |SplitLines(text)|, format).Ok?
    ensures var lines := SplitLines(text);
            var rows := ParseRows(lines, |lines|, format).value;
            var again := SplitLines(JoinLines(RowLines(rows)));
            |again| == |rows| && ParseRows(again, |again|, format) == Ok(rows)
  {
    hide SplitLines, ParseRows, RowLines;
    SplitLinesShape(text);
    var lines := SplitLines(text);
    var rows := ParseRows(lines, |lines|, format).value;
    RowsRoundTrip(lines, |lines|, format);
    RowLinesLength(rows);
    SplitJoined(RowLines(rows));
  }

  lemma RowLinesLength(rows: seq<Row>)
    ensures |RowLines(rows)| == |rows|
  {
  }

  lemma ListenersRoundTrip(text: string)
    requires ParseSockets(SplitLines(text), |SplitLines(text)|).Ok?
    ensures var lines := SplitLines(text);
            var sockets := ParseSockets(lines, |lines|).value;
            var again := SplitLines(JoinLines(SocketLines(sockets)));
            |again| == |sockets| && ParseSockets(again, |again|) == Ok(sockets)
  {
    hide SplitLines, ParseSockets, SocketLines;
    SplitLinesShape(text);
    var lines := SplitLines(text);
    var sockets := ParseSockets(lines, |lines|).value;
    SocketsRoundTrip(lines, |lines|);
    SocketLinesLength(sockets);
    SplitJoined(SocketLines(sockets));
  }

  lemma SocketLinesLength(sockets: seq<Socket>)
    ensures |SocketLines(sockets)| == |sockets|
  {
  }

  lemma ModesRoundTrip()
    ensures Strip("Enforcing") == "Enforcing" && Strip(Show(1)) == "1"
  {
    StripWord("Enforcing");
    DigitsAreWords(ShowNat(1));
    StripWord(ShowNat(1));
    assert ShowNat(1) == "1";
  }

  /** Printing what was observed and observing it again changes nothing. */
  lemma ObservationsRoundTrip(x: Inputs, unicode: char -> bool)
    requires Observe(x, unicode).Ok?
    ensures var v := Observe(x, unicode).value;
            Observe(Rendered(v, v.profile), unicode) == Ok(v)
  {
    hide Strip, PermissiveTypes, ParseRows, ParseSockets, SplitLines, RowLines, SocketLines, Inventory, KnownProfile,
         Show;
    ModesRoundTrip();
    TypesRoundTrip(x.permissive, unicode);
    ProcessesRoundTrip(x.processes, x.format);
    ListenersRoundTrip(x.listeners);
  }

  lemma {:induction false} RowsFollowFormat(lines: seq<string>, n: nat, format: Format)
    requires n <= |lines| && ParseRows(lines, n, format).Ok?
    ensures forall i :: 0 <= i < n ==> (ParseRows(lines, n, format).value[i].thread.None? <==> format.Legacy?)
  {
    hide Fields, Labelled;
    if n > 0 {
      RowsFollowFormat(lines, n - 1, format);
    }
  }

  ghost predicate Producible(v: Observations, unicode: char -> bool) {
    exists x :: Observe(x, unicode) == Ok(v)
  }

  /** Validation accepts exactly what the guest check can produce, for its own profile. */
  lemma ValidatesExactlyTheProducible(v: Observations, profile: string, unicode: char -> bool)
    ensures Validate(v, profile, unicode).Ok? <==> Producible(v, unicode) && profile == v.profile
  {
    hide Observe, Rendered;
    if Validate(v, profile, unicode).Ok? {
      assert Observe(Rendered(v, profile), unicode) == Ok(v);
      ProfileObserved(Rendered(v, profile), unicode);
      RenderedProfile(v, profile);
    }
    if Producible(v, unicode) && profile == v.profile {
      var x :| Observe(x, unicode) == Ok(v);
      ObservationsRoundTrip(x, unicode);
      SchemaObserved(x, unicode);
    }
  }

  lemma RenderedProfile(v: Observations, profile: string)
    ensures Rendered(v, profile).profile == profile
  {
  }

  lemma ProfileObserved(x: Inputs, unicode: char -> bool)
    requires Observe(x, unicode).Ok?
    ensures Observe(x, unicode).value.profile == x.profile
  {
    hide Strip, PermissiveTypes, ParseRows, ParseSockets, SplitLines, Inventory, KnownProfile;
  }

  lemma SchemaObserved(x: Inputs, unicode: char -> bool)
    requires Observe(x, unicode).Ok?
    ensures var v := Observe(x, unicode).value;
            && v.schema == (if x.format.Legacy? then 1 else 2)
            && 0 < |v.processes| <= ROW_LIMIT
            && forall i :: 0 <= i < |v.processes| ==> (v.processes[i].thread.None? <==> v.schema == 1)
  {
    hide Strip, PermissiveTypes, ParseRows, ParseSockets, SplitLines, KnownProfile;
    var lines := SplitLines(x.processes);
    RowsFollowFormat(lines, |lines|, x.format);
  }
}
