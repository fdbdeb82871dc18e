/** The guest observations of scripts/bluebuild/check-vm-desktop.py. */
module CheckVmDesktop {
  import opened Wrappers
  import opened StringSets
  import opened Text

  const ROW_LIMIT := 8192
  const SOCKET_LIMIT := 4096
  const INT31_MAX := 0x7FFF_FFFF

  // ----- Data -----

  datatype Format = Legacy | StateThreads

  /** State and thread count, which only the state-threads format shows. */
  datatype Thread = Thread(state: string, nlwp: int)

  datatype Row = Row(pid: int, context: string, command: string, thread: Option<Thread>)

  datatype Socket = Socket(protocol: string, state: string, local: string, peer: string, owners: string)

  /** The observed parts of a receipt; `standard` stands for its constant fields. */
  datatype Observations = Observations(
    schema: int, profile: string, mode: string, kernelEnforce: int, permissive: seq<string>,
    processes: seq<Row>, listeners: seq<Socket>, standard: bool)

  datatype Error =
    | NotEnforcing
    | SshPermissive
    | BadProcess(number: nat, row: string)
    | NoInitOrSsh
    | BadListener
    | ListenersOutOfBounds
    | UnknownProfile

  // ----- SELinux types -----

  /** `\w`, whose non-ASCII part is the parameter. */
  predicate WordChar(c: char, unicode: char -> bool) {
    AsciiWord(c) || (c as int >= 128 && unicode(c))
  }

  function RunLength(s: string, unicode: char -> bool): (n: nat)
    ensures n <= |s|
    ensures forall i :: 0 <= i < n ==> WordChar(s[i], unicode)
    ensures n < |s| ==> !WordChar(s[n], unicode)
  {
    if s == [] || !WordChar(s[0], unicode) then 0 else 1 + RunLength(s[1..], unicode)
  }

  /** The maximal runs of word characters: where `\b...\b` can match. */
  function Runs(s: string, unicode: char -> bool): seq<string>
    decreases |s|
  {
    if s == [] then []
    else if !WordChar(s[0], unicode) then Runs(s[1..], unicode)
    else
      var n := RunLength(s, unicode);
      [s[..n]] + Runs(s[n..], unicode)
  }

  predicate TypeName(s: string) {
    && |s| >= 3 && s[|s| - 2] == '_' && s[|s| - 1] == 't'
    && forall i :: 0 <= i < |s| ==> AsciiWord(s[i])
  }

  function TypeNames(runs: seq<string>): (names: seq<string>)
    ensures forall i :: 0 <= i < |names| ==> TypeName(names[i])
  {
    if runs == [] then []
    else (if TypeName(runs[0]) then [runs[0]] else []) + TypeNames(runs[1..])
  }

  function PermissiveTypes(text: string, unicode: char -> bool): seq<string> {
    SortedSet(TypeNames(Runs(text, unicode)))
  }

  // ----- Processes -----

  /** `user:role:type_t:level`, none of it blank. */
  predicate Labelled(context: string) {
    var parts := SplitOn(context, ':');
    && (forall i :: 0 <= i < |context| ==> !Blank(context[i]))
    && |parts| >= 4 && parts[0] != [] && parts[1] != [] && TypeName(parts[2])
    && (|parts| > 4 || parts[3] != [])
  }

  predicate DeadState(state: string) {
    state == "Z" || state == "X" || state == "x"
  }

  predicate ProcessState(state: string) {
    |state| == 1 && state[0] in "RSDZTtWXxKPI"
  }

  predicate Live(row: Row) {
    row.thread.None? || !DeadState(row.thread.value.state)
  }

  function FieldLimit(format: Format): nat {
    if format.Legacy? then 2 else 4
  }

  /** One line of `ps`; `seen` are the pids of the lines before it. */
  function ParseRow(line: string, number: nat, seen: set<int>, format: Format): (r: Result<Row, Error>)
    ensures r.Err? ==> r.error == BadProcess(number, line)
  {
    var fields := Fields(line, FieldLimit(format));
    if |fields| != FieldLimit(format) + 1 || !AllDigits(fields[1]) then Err(BadProcess(number, line))
    else
      var pid, context, command := ParseNat(fields[1]), fields[0], fields[|fields| - 1];
      if format.Legacy? then
        if Labelled(context) then Ok(Row(pid, context, command, None)) else Err(BadProcess(number, line))
      else if !(0 < pid <= INT31_MAX) || pid in seen || !ProcessState(fields[2]) || !AllDigits(fields[3])
           || !(0 < ParseNat(fields[3]) <= INT31_MAX) then
        Err(BadProcess(number, line))
      else
        var thread := Thread(fields[2], ParseNat(fields[3]));
        // Only a zombie leader with no other thread may lack a label.
        var exited := thread.state == "Z" && thread.nlwp == 1 && (context == "-" || context == "?");
        if Labelled(context) || exited then Ok(Row(pid, context, command, Some(thread)))
        else Err(BadProcess(number, line))
  }

  function Pids(rows: seq<Row>): set<int> {
    set row | row in rows :: row.pid
  }

  /** The rows of the first `n` lines. */
  function ParseRows(lines: seq<string>, n: nat, format: Format): (r: Result<seq<Row>, Error>)
    requires n <= |lines|
    ensures r.Ok? ==> |r.value| == n
  {
    if n == 0 then Ok([])
    else
      var before := ParseRows(lines, n - 1, format);
      if before.Err? then before
      else
        var row := ParseRow(lines[n - 1], n, Pids(before.value), format);
        if row.Err? then Err(row.error) else Ok(before.value + [row.value])
  }

  predicate InitSeen(rows: seq<Row>) {
    exists i :: 0 <= i < |rows| && Live(rows[i]) && rows[i].pid == 1
  }

  /** The domain of a context, when it has one. */
  predicate SshDomain(context: string) {
    var parts := SplitOn(context, ':');
    |parts| > 2 && parts[2] == "sshd_t"
  }

  predicate SshConfined(rows: seq<Row>) {
    exists i :: 0 <= i < |rows| && Live(rows[i]) && rows[i].command == "sshd" && SshDomain(rows[i].context)
  }

  // ----- Listeners -----

  function ParseSocket(line: string): Result<Socket, Error> {
    var fields := Fields(line, 6);
    if |fields| < 6 || !(fields[0] == "tcp" || fields[0] == "udp") || !(fields[1] == "LISTEN" || fields[1] == "UNCONN")
    then Err(BadListener)
    else Ok(Socket(fields[0], fields[1], fields[4], fields[5], if |fields| == 7 then fields[6] else "unknown"))
  }

  function ParseSockets(lines: seq<string>, n: nat): (r: Result<seq<Socket>, Error>)
    requires n <= |lines|
    ensures r.Ok? ==> |r.value| == n
  {
    if n == 0 then Ok([])
    else
      var before := ParseSockets(lines, n - 1);
      if before.Err? then before
      else
        var socket := ParseSocket(lines[n - 1]);
        if socket.Err? then Err(socket.error) else Ok(before.value + [socket.value])
  }

  // ----- Observations -----

  predicate KnownProfile(profile: string) {
    profile in {"finite", "finite-dev", "bluefin-generic", "bluefin-dx-generic"}
  }

  /** What the guest is asked: the outputs of its commands, the profile file and the format. */
  datatype Inputs = Inputs(
    enforcement: string, kernelEnforcement: string, permissive: string, processes: string,
    listeners: string, profile: string, format: Format)

  function Observe(x: Inputs, unicode: char -> bool): Result<Observations, Error> {
    if Strip(x.enforcement) != "Enforcing" || Strip(x.kernelEnforcement) != "1" then Err(NotEnforcing)
    else
      var permissive := PermissiveTypes(x.permissive, unicode);
      if "sshd_t" in permissive then Err(SshPermissive)
      else
        var lines := SplitLines(x.processes);
        var rows := ParseRows(lines, |lines|, x.format);
        if rows.Err? then Err(rows.error)
        else if !Inventory(rows.value) then Err(NoInitOrSsh)
        else
          var socketLines := SplitLines(x.listeners);
          var sockets := ParseSockets(socketLines, |socketLines|);
          if sockets.Err? then Err(sockets.error)
          else if !(0 < |sockets.value| <= SOCKET_LIMIT) then Err(ListenersOutOfBounds)
          else if !KnownProfile(x.profile) then Err(UnknownProfile)
          else Ok(Observations(if x.format.Legacy? then 1 else 2, x.profile, "Enforcing", 1, permissive,
                               rows.value, sockets.value, true))
  }

  predicate Inventory(rows: seq<Row>) {
    0 < |rows| <= ROW_LIMIT && InitSeen(rows) && SshConfined(rows)
  }

  /** The collection loops, line by line. */
  method CollectRows(lines: seq<string>, format: Format) returns (r: Result<seq<Row>, Error>)
    ensures r == ParseRows(lines, |lines|, format)
  {
    hide ParseRow;
    var rows: seq<Row> := [];
    var seen: set<int> := {};
    for n := 0 to |lines|
      invariant ParseRows(lines, n, format) == Ok(rows)
      invariant seen == Pids(rows)
    {
      var row := ParseRow(lines[n], n + 1, seen, format);
      if row.Err? {
        FirstErrorStays(lines, n + 1, format);
        return Err(row.error);
      }
      seen := seen + {row.value.pid};
      rows := rows + [row.value];
    }
    r := Ok(rows);
  }

  lemma {:induction false} FirstErrorStays(lines: seq<string>, n: nat, format: Format)
    requires n <= |lines| && ParseRows(lines, n, format).Err?
    ensures ParseRows(lines, |lines|, format) == ParseRows(lines, n, format)
    decreases |lines| - n
  {
    hide ParseRow;
    if n < |lines| {
      FirstErrorStays(lines, n + 1, format);
    }
  }

  method CollectSockets(lines: seq<string>) returns (r: Result<seq<Socket>, Error>)
    ensures r == ParseSockets(lines, |lines|)
  {
    hide ParseSocket;
    var sockets: seq<Socket> := [];
    for n := 0 to |lines|
      invariant ParseSockets(lines, n) == Ok(sockets)
    {
      var socket := ParseSocket(lines[n]);
      if socket.Err? {
        FirstSocketErrorStays(lines, n + 1);
        return Err(socket.error);
      }
      sockets := sockets + [socket.value];
    }
    r := Ok(sockets);
  }

  lemma {:induction false} FirstSocketErrorStays(lines: seq<string>, n: nat)
    requires n <= |lines| && ParseSockets(lines, n).Err?
    ensures ParseSockets(lines, |lines|) == ParseSockets(lines, n)
    decreases |lines| - n
  {
    hide ParseSocket;
    if n < |lines| {
      FirstSocketErrorStays(lines, n + 1);
    }
  }

  /** `observations`: the checks in their order around the two collection loops. */
  method Collect(x: Inputs, unicode: char -> bool) returns (r: Result<Observations, Error>)
    ensures r == Observe(x, unicode)
  {
    hide ParseRows, ParseSockets, SplitLines, Strip, PermissiveTypes, Inventory, KnownProfile;
    if Strip(x.enforcement) != "Enforcing" || Strip(x.kernelEnforcement) != "1" {
      return Err(NotEnforcing);
    }
    var permissive := PermissiveTypes(x.permissive, unicode);
    if "sshd_t" in permissive {
      return Err(SshPermissive);
    }
    var rows := CollectRows(SplitLines(x.processes), x.format);
    if rows.Err? {
      return Err(rows.error);
    }
    if !Inventory(rows.value) {
      return Err(NoInitOrSsh);
    }
    var sockets := CollectSockets(SplitLines(x.listeners));
    if sockets.Err? {
      return Err(sockets.error);
    }
    if sockets.value == [] || |sockets.value| > SOCKET_LIMIT {
      return Err(ListenersOutOfBounds);
    }
    if !KnownProfile(x.profile) {
      return Err(UnknownProfile);
    }
    r := Ok(Observations(if x.format.Legacy? then 1 else 2, x.profile, "Enforcing", 1, permissive,
                         rows.value, sockets.value, true));
  }

  /** Every live row of an accepted inventory has a domain, so reading it cannot fail. */
  lemma {:induction false} LiveRowsAreLabelled(lines: seq<string>, n: nat, format: Format, i: nat)
    requires n <= |lines| && ParseRows(lines, n, format).Ok? && i < n
    requires Live(ParseRows(lines, n, format).value[i])
    ensures |SplitOn(ParseRows(lines, n, format).value[i].context, ':')| > 2
  {
    hide SplitOn, Fields;
    if i < n - 1 {
      LiveRowsAreLabelled(lines, n - 1, format, i);
    }
  }

  ghost predicate OnePid(rows: seq<Row>) {
    forall i, j :: 0 <= i < j < |rows| ==> rows[i].pid != rows[j].pid
  }

  lemma {:induction false} RowsAreSound(lines: seq<string>, n: nat, format: Format)
    requires n <= |lines| && ParseRows(lines, n, format).Ok?
    ensures format.StateThreads? ==> OnePid(ParseRows(lines, n, format).value)
    ensures forall row :: row in ParseRows(lines, n, format).value ==>
              Labelled(row.context) || row.thread == Some(Thread("Z", 1))
  {
    hide Labelled, Fields, ProcessState, AllDigits, ParseNat;
    if n > 0 {
      RowsAreSound(lines, n - 1, format);
      var before := ParseRows(lines, n - 1, format).value;
      assert forall i :: 0 <= i < |before| ==> before[i].pid in Pids(before) by {
        assert forall i :: 0 <= i < |before| ==> before[i] in before;
      }
    }
  }

  /**
   * What an accepted observation shows: sshd runs confined in a domain that enforces, init
   * runs, every process is labelled but for exited zombies, and with threads no pid repeats.
   */
  lemma AcceptedIsConfined(x: Inputs, unicode: char -> bool)
    requires Observe(x, unicode).Ok?
    ensures var v := Observe(x, unicode).value;
            && "sshd_t" !in v.permissive
            && (exists row :: row in v.processes && Live(row) && row.command == "sshd" && SshDomain(row.context))
            && (exists row :: row in v.processes && Live(row) && row.pid == 1)
            && (forall row :: row in v.processes ==> Labelled(row.context) || row.thread == Some(Thread("Z", 1)))
            && (x.format.StateThreads? ==> OnePid(v.processes))
            && 0 < |v.processes| <= 8192 && 0 < |v.listeners| <= 4096
  {
    hide Labelled, SshDomain, PermissiveTypes, ParseRows, ParseSockets, SplitLines, Strip, KnownProfile, OnePid;
    var lines := SplitLines(x.processes);
    RowsAreSound(lines, |lines|, x.format);
    var rows := ParseRows(lines, |lines|, x.format).value;
    var i :| 0 <= i < |rows| && Live(rows[i]) && rows[i].command == "sshd" && SshDomain(rows[i].context);
    var j :| 0 <= j < |rows| && Live(rows[j]) && rows[j].pid == 1;
    assert rows[i] in rows && rows[j] in rows;
  }

  // ----- Which types are found -----

  /** `\w`: an ASCII letter, digit or underscore, or a word character beyond ASCII. */
  ghost predicate InWord(c: char, unicode: char -> bool) {
    || 'a' <= c <= 'z' || 'A' <= c <= 'Z' || '0' <= c <= '9' || c == '_'
    || (c as int >= 128 && unicode(c))
  }

  /** A longest run of word characters. */
  ghost predicate RunAt(s: string, i: nat, j: nat, unicode: char -> bool) {
    && i < j <= |s| && (forall k :: i <= k < j ==> InWord(s[k], unicode))
    && (i == 0 || !InWord(s[i - 1], unicode)) && (j == |s| || !InWord(s[j], unicode))
  }

  lemma WordsMean(unicode: char -> bool)
    ensures forall c :: WordChar(c, unicode) <==> InWord(c, unicode)
  {
  }

  /** The runs after a cut at the end of a run, or after a character outside any. */
  lemma ShiftedRuns(s: string, n: nat, i: nat, j: nat, unicode: char -> bool)
    requires n <= |s| && (n == |s| || n == 0 || !InWord(s[n], unicode) || !InWord(s[n - 1], unicode))
    requires n <= i
    ensures RunAt(s, i, j, unicode) <==> n <= j && RunAt(s[n..], i - n, j - n, unicode)
  {
    hide InWord;
    var rest := s[n..];
    assert forall k :: 0 <= k < |rest| ==> rest[k] == s[n + k];
    if RunAt(s, i, j, unicode) {
      assert forall k :: i - n <= k < j - n ==> rest[k] == s[n + k] && InWord(s[n + k], unicode);
      assert i > n ==> rest[i - n - 1] == s[i - 1];
      assert j < |s| ==> rest[j - n] == s[j];
    }
    if n <= j && RunAt(rest, i - n, j - n, unicode) {
      forall k | i <= k < j ensures InWord(s[k], unicode) {
        assert s[k] == rest[k - n];
      }
      assert s[i] == rest[i - n];
      assert i > n ==> rest[i - n - 1] == s[i - 1];
      assert j < |s| ==> rest[j - n] == s[j];
    }
  }

  lemma {:induction false} RunsExactly(s: string, unicode: char -> bool, x: string)
    ensures x in Runs(s, unicode) <==> exists i: nat, j: nat :: RunAt(s, i, j, unicode) && x == s[i..j]
    decreases |s|
  {
    WordsMean(unicode);
    hide InWord, RunAt, WordChar;
    RunBounds(s, unicode);
    if s != [] {
      var word := WordChar(s[0], unicode);
      var n := if word then RunLength(s, unicode) else 1;
      FirstRun(s, n, unicode);
      RunsExactly(s[n..], unicode, x);
      RunBounds(s[n..], unicode);
      forall i: nat, j: nat | RunAt(s, i, j, unicode)
        ensures || (word && s[i..j] == s[..n])
                || (n <= i && RunAt(s[n..], i - n, j - n, unicode) && s[i..j] == s[n..][i - n..j - n])
      {
        RunsBefore(s, n, i, j, unicode);
        if n <= i {
          ShiftedRuns(s, n, i, j, unicode);
        }
      }
      forall i: nat, j: nat | RunAt(s[n..], i, j, unicode)
        ensures RunAt(s, i + n, j + n, unicode) && s[n..][i..j] == s[i + n..j + n]
      {
        ShiftedRuns(s, n, i + n, j + n, unicode);
      }
      assert word ==> RunAt(s, 0, n, unicode) && s[0..n] == s[..n];
    }
  }

  lemma RunBounds(s: string, unicode: char -> bool)
    ensures forall i: nat, j: nat :: RunAt(s, i, j, unicode) ==> i < j <= |s|
  {
  }

  lemma FirstRun(s: string, n: nat, unicode: char -> bool)
    requires s != [] && n == if WordChar(s[0], unicode) then RunLength(s, unicode) else 1
    ensures 0 < n <= |s| && (WordChar(s[0], unicode) ==> RunAt(s, 0, n, unicode))
    ensures n == |s| || !InWord(s[n], unicode) || !InWord(s[n - 1], unicode)
  {
    WordsMean(unicode);
    hide InWord, WordChar;
  }

  lemma RunsBefore(s: string, n: nat, i: nat, j: nat, unicode: char -> bool)
    requires s != [] && RunAt(s, i, j, unicode) && n == if WordChar(s[0], unicode) then RunLength(s, unicode) else 1
    ensures i < n ==> WordChar(s[0], unicode) && i == 0 && j == n
  {
    WordsMean(unicode);
    hide InWord, WordChar, RunLength;
  }

  /** The name stands in the text with no word character beside it. */
  ghost predicate StandsIn(name: string, text: string, unicode: char -> bool) {
    exists i: nat :: StandsAt(name, text, i, unicode)
  }

  ghost predicate StandsAt(name: string, text: string, i: nat, unicode: char -> bool) {
    && i + |name| <= |text| && text[i..i + |name|] == name
    && (i == 0 || !InWord(text[i - 1], unicode))
    && (i + |name| == |text| || !InWord(text[i + |name|], unicode))
  }

  /** ASCII word characters, at least three, the last two `_t`. */
  ghost predicate SpellsType(name: string) {
    && |name| >= 3 && name[|name| - 2..] == "_t"
    && forall i :: 0 <= i < |name| ==>
         'a' <= name[i] <= 'z' || 'A' <= name[i] <= 'Z' || '0' <= name[i] <= '9' || name[i] == '_'
  }

  lemma SpelledMeans(name: string)
    ensures TypeName(name) <==> SpellsType(name)
  {
    if |name| >= 3 {
      assert name[|name| - 2..] == [name[|name| - 2], name[|name| - 1]];
    }
  }

  lemma {:induction false} TypeNamesMembers(runs: seq<string>)
    ensures forall x :: x in TypeNames(runs) <==> x in runs && TypeName(x)
  {
    hide TypeName;
    if runs != [] {
      TypeNamesMembers(runs[1..]);
    }
  }

  /** The permissive types found are exactly the type names that stand in the text. */
  lemma PermissiveTypesExactly(text: string, unicode: char -> bool, name: string)
    ensures name in PermissiveTypes(text, unicode) <==> SpellsType(name) && StandsIn(name, text, unicode)
  {
    hide SortedSet, TypeName, SpellsType;
    SortedSetMembers(TypeNames(Runs(text, unicode)));
    TypeNamesMembers(Runs(text, unicode));
    SpelledMeans(name);
    RunsExactly(text, unicode, name);
    if SpellsType(name) {
      TypesAreRuns(name, text, unicode);
    }
  }

  lemma TypesAreRuns(name: string, text: string, unicode: char -> bool)
    requires SpellsType(name)
    ensures StandsIn(name, text, unicode)
       <==> exists i: nat, j: nat :: RunAt(text, i, j, unicode) && name == text[i..j]
  {
    forall k | 0 <= k < |name| ensures InWord(name[k], unicode) {
    }
    hide InWord, SpellsType;
    if i: nat :| StandsAt(name, text, i, unicode) {
      forall k | i <= k < i + |name| ensures InWord(text[k], unicode) {
        assert text[k] == text[i..i + |name|][k - i] == name[k - i];
      }
      assert RunAt(text, i, i + |name|, unicode);
    }
    if i: nat, j: nat :| RunAt(text, i, j, unicode) && name == text[i..j] {
      assert StandsAt(name, text, i, unicode);
    }
  }

  /** The text of an accepted observation's permissive types never lists the domain of sshd. */
  lemma AcceptedListsNoSshd(x: Inputs, unicode: char -> bool)
    requires Observe(x, unicode).Ok?
    ensures !StandsIn("sshd_t", x.permissive, unicode)
    ensures forall name :: name in Observe(x, unicode).value.permissive <==>
              SpellsType(name) && StandsIn(name, x.permissive, unicode)
  {
    hide PermissiveTypes, StandsIn, ParseRows, ParseSockets, SplitLines, Strip, KnownProfile, Inventory, SpellsType;
    SshdSpelled();
    forall name ensures name in PermissiveTypes(x.permissive, unicode) <==>
                          SpellsType(name) && StandsIn(name, x.permissive, unicode)
    {
      PermissiveTypesExactly(x.permissive, unicode, name);
    }
  }

  // ----- What a row and a listener say -----

  ghost predicate Plain(s: string) {
    s != [] && forall i :: 0 <= i < |s| ==> !Blank(s[i]) && s[i] != ':'
  }

  /** `user:role:type_t:level`: no blank anywhere, and no colon in the first three. */
  ghost predicate Label(context: string, user: string, role: string, name: string, level: string) {
    && context == user + ":" + (role + ":" + (name + ":" + level))
    && Plain(user) && Plain(role) && SpellsType(name) && level != []
    && forall i :: 0 <= i < |level| ==> !Blank(level[i])
  }

  lemma TypeIsPlain(name: string)
    requires SpellsType(name)
    ensures Plain(name)
  {
  }

  lemma LabelParts(context: string, user: string, role: string, name: string, level: string)
    requires Label(context, user, role, name, level)
    ensures SplitOn(context, ':') == [user, role, name] + SplitOn(level, ':')
  {
    TypeIsPlain(name);
    SplitOnHead(name, level, ':');
    SplitOnHead(role, name + ":" + level, ':');
    SplitOnHead(user, role + ":" + (name + ":" + level), ':');
    assert [user] + ([role] + ([name] + SplitOn(level, ':'))) == [user, role, name] + SplitOn(level, ':');
  }

  /** Labelled contexts are exactly those of this form, and the domain is the third part. */
  lemma LabelledExactly(context: string)
    ensures Labelled(context) <==> exists user, role, name, level :: Label(context, user, role, name, level)
  {
    hide SplitOn, Label, TypeName, SpellsType;
    if user, role, name, level :| Label(context, user, role, name, level) {
      LabelIsLabelled(context, user, role, name, level);
    }
    if Labelled(context) {
      LabelledIsLabel(context);
    }
  }

  lemma LabelIsLabelled(context: string, user: string, role: string, name: string, level: string)
    requires Label(context, user, role, name, level)
    ensures Labelled(context)
  {
    LabelParts(context, user, role, name, level);
    TypeIsPlain(name);
    SpelledMeans(name);
    SplitOnWhole(level, ':');
    hide SplitOn, SpellsType, TypeName, Blank;
    forall i | 0 <= i < |context| ensures !Blank(context[i]) {
      NoBlankIn(user, role, name, level, i);
    }
  }

  lemma NoBlankIn(user: string, role: string, name: string, level: string, i: nat)
    requires Plain(user) && Plain(role) && Plain(name) && forall k :: 0 <= k < |level| ==> !Blank(level[k])
    requires i < |user + ":" + (role + ":" + (name + ":" + level))|
    ensures !Blank((user + ":" + (role + ":" + (name + ":" + level)))[i])
  {
    var context := user + ":" + (role + ":" + (name + ":" + level));
    if i < |user| {
      assert context[i] == user[i];
    } else if i == |user| {
      assert context[i] == ':';
    } else {
      var rest, j := role + ":" + (name + ":" + level), i - |user| - 1;
      assert context[i] == rest[j];
      if j < |role| {
        assert rest[j] == role[j];
      } else if j == |role| {
        assert rest[j] == ':';
      } else {
        assert rest[j] == (name + ":" + level)[j - |role| - 1];
      }
    }
  }

  lemma LabelledIsLabel(context: string)
    requires Labelled(context)
    ensures exists user, role, name, level :: Label(context, user, role, name, level)
  {
    hide SplitOn, TypeName, SpellsType, Blank;
    var user, a := SplitOnFirst(context, ':');
    var role, b := SplitOnFirst(a, ':');
    var name, level := SplitOnFirst(b, ':');
    SpelledMeans(name);
    SplitOnWhole(level, ':');
    SpansOf(user, a);
    SpansOf(role, b);
    SpansOf(name, level);
    ThreeParts(SplitOn(context, ':'), user, role, name, SplitOn(level, ':'));
    hide Labelled;
    assert Label(context, user, role, name, level);
  }

  lemma ThreeParts(parts: seq<string>, user: string, role: string, name: string, rest: seq<string>)
    requires parts == [user] + ([role] + ([name] + rest)) && rest != []
    ensures |parts| == 3 + |rest| && parts[0] == user && parts[1] == role && parts[2] == name && parts[3] == rest[0]
  {
  }

  lemma SpansOf(head: string, tail: string)
    requires NoBlank(head + ":" + tail)
    ensures NoBlank(head) && NoBlank(tail)
  {
    var s := head + ":" + tail;
    assert forall i :: 0 <= i < |head| ==> head[i] == s[i];
    assert forall i :: 0 <= i < |tail| ==> tail[i] == s[|head| + 1 + i];
  }

  /** A row of the state-threads format is read from five fields, with these bounds. */
  lemma StateRowExactly(line: string, number: nat, seen: set<int>, row: Row)
    ensures ParseRow(line, number, seen, StateThreads) == Ok(row) <==>
              exists context, pid, state, nlwp, command ::
                && Fields(line, 4) == [context, pid, state, nlwp, command] && AllDigits(pid) && AllDigits(nlwp)
                && row == Row(ParseNat(pid), context, command, Some(Thread(state, ParseNat(nlwp))))
                && 0 < row.pid <= 2147483647 && row.pid !in seen && 0 < ParseNat(nlwp) <= 2147483647
                && state in ["R", "S", "D", "Z", "T", "t", "W", "X", "x", "K", "P", "I"]
                && (Labelled(context) || (state == "Z" && ParseNat(nlwp) == 1 && (context == "-" || context == "?")))
  {
    hide Fields, AllDigits, ParseNat, Labelled;
    var fields := Fields(line, 4);
    if |fields| == 5 {
      assert fields == [fields[0], fields[1], fields[2], fields[3], fields[4]];
      StatesExactly(fields[2]);
    }
    forall context, pid, state, nlwp, command | fields == [context, pid, state, nlwp, command]
      ensures context == fields[0] && pid == fields[1] && state == fields[2]
      ensures nlwp == fields[3] && command == fields[4]
    {
    }
    hide ProcessState;
  }

  lemma StatesExactly(state: string)
    ensures ProcessState(state) <==> state in ["R", "S", "D", "Z", "T", "t", "W", "X", "x", "K", "P", "I"]
  {
    if |state| == 1 {
      assert state == [state[0]];
    }
  }

  /** A row of the legacy format is read from three fields, and is labelled. */
  lemma LegacyRowExactly(line: string, number: nat, seen: set<int>, row: Row)
    ensures ParseRow(line, number, seen, Legacy) == Ok(row) <==>
              exists context, pid, command ::
                && Fields(line, 2) == [context, pid, command] && AllDigits(pid) && Labelled(context)
                && row == Row(ParseNat(pid), context, command, None)
  {
    hide Fields, AllDigits, ParseNat, Labelled;
    var fields := Fields(line, 2);
    if |fields| == 3 {
      assert fields == [fields[0], fields[1], fields[2]];
    }
  }

  /** A listener is read from six fields, and its owners from a seventh if there is one. */
  lemma SocketExactly(line: string, socket: Socket)
    ensures var f := Fields(line, 6);
            ParseSocket(line) == Ok(socket) <==>
              && 6 <= |f| <= 7 && (f[0] == "tcp" || f[0] == "udp") && (f[1] == "LISTEN" || f[1] == "UNCONN")
              && socket.protocol == f[0] && socket.state == f[1] && socket.local == f[4] && socket.peer == f[5]
              && socket.owners == if |f| == 7 then f[6] else "unknown"
  {
    FieldsShape(line, 6);
    hide Fields;
  }

  /** A process that is not a zombie, nor dead. */
  ghost predicate Alive(row: Row) {
    row.thread.Some? ==> row.thread.value.state != "Z" && row.thread.value.state != "X" && row.thread.value.state != "x"
  }

  /** Which guests are accepted, and what is recorded of them. */
  lemma ObservesExactly(x: Inputs, unicode: char -> bool, v: Observations)
    ensures Observe(x, unicode) == Ok(v) <==>
              && Strip(x.enforcement) == "Enforcing" && Strip(x.kernelEnforcement) == "1"
              && !StandsIn("sshd_t", x.permissive, unicode)
              && ParseRows(SplitLines(x.processes), |SplitLines(x.processes)|, x.format) == Ok(v.processes)
              && ParseSockets(SplitLines(x.listeners), |SplitLines(x.listeners)|) == Ok(v.listeners)
              && 0 < |v.processes| <= 8192 && 0 < |v.listeners| <= 4096
              && (exists row :: row in v.processes && Alive(row) && row.pid == 1)
              && (exists row :: row in v.processes && Alive(row) && row.command == "sshd" && SshDomain(row.context))
              && (x.profile == "finite" || x.profile == "finite-dev"
                  || x.profile == "bluefin-generic" || x.profile == "bluefin-dx-generic")
              && v == Observations(if x.format == Legacy then 1 else 2, x.profile, "Enforcing", 1,
                                   PermissiveTypes(x.permissive, unicode), v.processes, v.listeners, true)
  {
    hide *;
    SshdSpelled();
    PermissiveTypesExactly(x.permissive, unicode, "sshd_t");
    InventoryExactly(v.processes);
    ProfilesExactly(x.profile);
    ObservesWhat(x, unicode, v);
  }

  lemma SshdSpelled()
    ensures SpellsType("sshd_t")
  {
  }

  lemma ObservesWhat(x: Inputs, unicode: char -> bool, v: Observations)
    ensures Observe(x, unicode) == Ok(v) <==>
              && Strip(x.enforcement) == "Enforcing" && Strip(x.kernelEnforcement) == "1"
              && "sshd_t" !in PermissiveTypes(x.permissive, unicode)
              && ParseRows(SplitLines(x.processes), |SplitLines(x.processes)|, x.format) == Ok(v.processes)
              && ParseSockets(SplitLines(x.listeners), |SplitLines(x.listeners)|) == Ok(v.listeners)
              && Inventory(v.processes) && 0 < |v.listeners| <= 4096 && KnownProfile(x.profile)
              && v == Observations(if x.format == Legacy then 1 else 2, x.profile, "Enforcing", 1,
                                   PermissiveTypes(x.permissive, unicode), v.processes, v.listeners, true)
  {
    hide PermissiveTypes, ParseRows, ParseSockets, SplitLines, Strip, Inventory, KnownProfile;
  }

  lemma ProfilesExactly(profile: string)
    ensures KnownProfile(profile) <==>
              || profile == "finite" || profile == "finite-dev"
              || profile == "bluefin-generic" || profile == "bluefin-dx-generic"
  {
  }

  lemma InventoryExactly(rows: seq<Row>)
    ensures Inventory(rows) <==>
              && 0 < |rows| <= 8192 && (exists row :: row in rows && Alive(row) && row.pid == 1)
              && exists row :: row in rows && Alive(row) && row.command == "sshd" && SshDomain(row.context)
  {
    hide SshDomain;
    assert forall row :: Live(row) <==> Alive(row);
    forall i | 0 <= i < |rows| ensures rows[i] in rows {
    }
  }

  /** The domain of a labelled context. */
  lemma DomainExactly(context: string, user: string, role: string, name: string, level: string)
    requires Label(context, user, role, name, level)
    ensures SshDomain(context) <==> name == "sshd_t"
  {
    LabelParts(context, user, role, name, level);
    hide SplitOn, SpellsType;
  }
}
