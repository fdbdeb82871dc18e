/** The bounded line splitter and gzip capture of scripts/bluebuild/guest-timings.py. */
module GuestTimings {
  import opened Bytes
  import opened Wrappers
  import opened RedactVmLogs

  const NEWLINE: byte := 10
  const LINE_LIMIT := 16384

  // ----- Lines -----

  /** What reaches the console for one line of the redacted stream. */
  datatype Line = Oversized | Text(content: bytes, terminated: bool)

  /** `s.split(b'\n')`: never empty, and the last part is the unterminated one. */
  function Split(s: bytes): (parts: seq<bytes>)
    ensures parts != []
  {
    var i := Find(s, [NEWLINE], 0);
    if i < 0 then [s] else [s[..i]] + Split(s[i + 1..])
  }

  function Bounded(line: bytes, terminated: bool): Line {
    if |line| > 16384 then Oversized else Text(line, terminated)
  }

  function Terminated(lines: seq<bytes>): seq<Line> {
    seq(|lines|, i requires 0 <= i < |lines| => Bounded(lines[i], true))
  }

  /** The console lines of a whole stream: an unterminated last line is kept if it has bytes. */
  function Console(s: bytes): seq<Line> {
    var parts := Split(s);
    var last := parts[|parts| - 1];
    Terminated(parts[..|parts| - 1]) + if last == [] then [] else [Bounded(last, false)]
  }

  /** Splitting more input extends the last line and then appends the rest. */
  function Extended(parts: seq<bytes>, more: seq<bytes>): seq<bytes>
    requires parts != [] && more != []
  {
    parts[..|parts| - 1] + [parts[|parts| - 1] + more[0]] + more[1..]
  }

  lemma SplitHead(s: bytes, i: nat)
    requires i < |s| && s[i] == NEWLINE && NEWLINE !in s[..i]
    ensures Split(s) == [s[..i]] + Split(s[i + 1..])
  {
    var f := Find(s, [NEWLINE], 0);
    AtOne(s, NEWLINE, i);
    AtOne(s, NEWLINE, f);
    forall j | 0 <= j < i ensures s[j] != NEWLINE {
      assert s[j] == s[..i][j];
    }
    hide Find;
  }

  lemma SplitNone(s: bytes)
    requires NEWLINE !in s
    ensures Split(s) == [s]
  {
    AtOne(s, NEWLINE, Find(s, [NEWLINE], 0));
  }

  /** Lines joined by newlines. */
  function Rejoined(parts: seq<bytes>): bytes
    requires parts != []
  {
    if |parts| == 1 then parts[0] else parts[0] + [10] + Rejoined(parts[1..])
  }

  /** The parts hold no newline, and joined by newlines they are the input again. */
  lemma {:induction false} SplitRejoined(s: bytes)
    ensures Rejoined(Split(s)) == s && forall part :: part in Split(s) ==> 10 !in part
  {
    if NEWLINE in s {
      var i := FirstNewline(s);
      hide Split;
      SplitHead(s, i);
      SplitRejoined(s[i + 1..]);
      var rest := Split(s[i + 1..]);
      assert ([s[..i]] + rest)[1..] == rest;
      assert s == s[..i] + [10] + s[i + 1..];
    } else {
      SplitNone(s);
    }
  }

  lemma FirstNewline(s: bytes) returns (i: nat)
    requires NEWLINE in s
    ensures i < |s| && s[i] == NEWLINE && NEWLINE !in s[..i]
  {
    i := 0;
    while s[i] != NEWLINE
      invariant i < |s| && NEWLINE !in s[..i] && NEWLINE in s[i..]
      decreases |s| - i
    {
      i := i + 1;
    }
  }

  lemma {:induction false} SplitAppend(a: bytes, b: bytes)
    ensures Split(a + b) == Extended(Split(a), Split(b))
    decreases |a|
  {
    hide Split;
    if NEWLINE in a {
      var i := FirstNewline(a);
      SplitHead(a, i);
      assert (a + b)[..i] == a[..i];
      SplitHead(a + b, i);
      assert (a + b)[i + 1..] == a[i + 1..] + b;
      SplitAppend(a[i + 1..], b);
    } else if NEWLINE in b {
      var i := FirstNewline(b);
      SplitNone(a);
      SplitHead(b, i);
      assert (a + b)[..|a| + i] == a + b[..i];
      SplitHead(a + b, |a| + i);
      assert (a + b)[|a| + i + 1..] == b[i + 1..];
    } else {
      SplitNone(a);
      SplitNone(b);
      SplitNone(a + b);
    }
  }

  /** The line being assembled: `overflow` exactly when it is over the limit. */
  ghost predicate Assembling(pending: bytes, overflow: bool, partial: bytes) {
    && (overflow <==> |partial| > 16384)
    && (!overflow ==> pending == partial)
  }

  /** The console lines so far and the line being assembled are those of `parts`. */
  ghost predicate Shown(lines: seq<Line>, pending: bytes, overflow: bool, parts: seq<bytes>) {
    && parts != []
    && lines == Terminated(parts[..|parts| - 1])
    && Assembling(pending, overflow, parts[|parts| - 1])
  }

  lemma ShowNext(lines: seq<Line>, pending: bytes, overflow: bool, parts: seq<bytes>, part: bytes)
    requires Shown(lines, pending, overflow, parts)
    ensures var line := if overflow then Oversized else Text(pending, true);
            Shown(lines + [line], if |part| > LINE_LIMIT then [] else part, |part| > LINE_LIMIT, parts + [part])
  {
    assert (parts + [part])[..|parts|] == parts;
    var last := parts[|parts| - 1];
    assert Terminated(parts) == Terminated(parts[..|parts| - 1]) + [Bounded(last, true)];
  }

  /** The loop over the parts of one redacted chunk. */
  method AddChunk(chunk: bytes, lines: seq<Line>, pending: bytes, overflow: bool, ghost before: bytes)
    returns (lines': seq<Line>, pending': bytes, overflow': bool)
    requires Shown(lines, pending, overflow, Split(before))
    ensures Shown(lines', pending', overflow', Split(before + chunk))
  {
    hide Split, Terminated, Shown;
    lines', pending', overflow' := lines, pending, overflow;
    var parts := Split(chunk);
    ghost var seen := Split(before);
    for index := 0 to |parts|
      invariant Shown(lines', pending', overflow', seen)
      invariant index == 0 ==> seen == Split(before)
      invariant index > 0 ==> seen == Extended(Split(before), parts[..index])
    {
      var part := parts[index];
      if index > 0 {
        ShowNext(lines', pending', overflow', seen, part);
        lines' := lines' + [if overflow' then Oversized else Text(pending', true)];
        pending', overflow' := [], false;
        assert parts[..index + 1] == parts[..index] + [part];
        seen := seen + [part];
      } else {
        ShowMore(lines', pending', overflow', seen, part);
        seen := Extended(Split(before), [part]);
        assert parts[..1] == [part];
      }
      if |pending'| + |part| > LINE_LIMIT {
        overflow' := true;
      }
      if !overflow' {
        assert index > 0 ==> [] + part == part;
        pending' := pending' + part;
      }
    }
    assert parts[..|parts|] == parts;
    SplitAppend(before, chunk);
  }

  lemma ShowMore(lines: seq<Line>, pending: bytes, overflow: bool, parts: seq<bytes>, part: bytes)
    requires Shown(lines, pending, overflow, parts)
    ensures var over := overflow || |pending| + |part| > LINE_LIMIT;
            Shown(lines, if over then pending else pending + part, over, Extended(parts, [part]))
  {
    var more := Extended(parts, [part]);
    assert more[..|more| - 1] == parts[..|parts| - 1];
  }

  // ----- The gzip capture -----

  datatype CaptureError = CompressedByteBudget | StorageIoError | CaptureOpenError

  /** One gzip member for one input, the reader of a member, and of one that was cut short. */
  datatype Codec = Codec(compress: bytes -> bytes, decompress: bytes -> bytes, recover: bytes -> bytes) {
    ghost predicate Lossless() {
      && (forall x :: decompress(compress(x)) == x)
      && forall x, torn :: torn <= compress(x) ==> recover(torn) <= x
    }

    lemma Recovers(torn: bytes, x: bytes)
      requires Lossless() && torn <= compress(x)
      ensures recover(torn) <= x && recover([]) == []
    {
      assert [] <= compress([]);
    }

    /** Decoding concatenated members gives the concatenation of their contents. */
    function Decode(members: seq<bytes>): bytes {
      if members == [] then [] else decompress(members[0]) + Decode(members[1..])
    }

    lemma {:induction false} DecodeAppend(members: seq<bytes>, chunk: bytes)
      requires Lossless()
      ensures Decode(members + [compress(chunk)]) == Decode(members) + chunk
    {
      if members == [] {
        assert [compress(chunk)][1..] == [] && chunk + [] == chunk;
        assert decompress(compress(chunk)) == chunk;
        assert Decode([compress(chunk)]) == decompress(compress(chunk)) + Decode([]);
        assert [] + [compress(chunk)] == [compress(chunk)];
      } else {
        assert (members + [compress(chunk)])[1..] == members[1..] + [compress(chunk)];
        DecodeAppend(members[1..], chunk);
      }
    }
  }

  /** The storage below the capture: a write succeeds, or fails after some bytes. */
  datatype Io = Stored | Interrupted(count: nat)

  /** `members` and then `torn` are the bytes of the capture file. */
  class CompressedCapture {
    const codec: Codec
    const limit: nat
    var members: seq<bytes>
    var torn: bytes
    var size: nat
    var inputBytes: nat
    var error: Option<CaptureError>
    /** Everything handed to `Write`, and the chunk whose member was torn. */
    ghost var input: bytes
    ghost var lost: bytes

    ghost predicate Valid()
      reads this
    {
      && codec.Lossless()
      && size == |Flatten(members)|
      && size + |torn| <= limit
      && inputBytes == |input|
      && codec.Decode(members) <= input
      && (error.None? ==> torn == [] && codec.Decode(members) == input)
      && (torn != [] ==> torn <= codec.compress(lost) && codec.Decode(members) + lost <= input)
    }

    constructor (codec: Codec, limit: nat, error: Option<CaptureError>)
      requires codec.Lossless()
      ensures Valid() && fresh(this)
      ensures this.codec == codec && this.limit == limit && this.error == error
      ensures members == [] && torn == [] && input == []
    {
      this.codec, this.limit, this.error := codec, limit, error;
      members, torn, size, inputBytes := [], [], 0, 0;
      input, lost := [], [];
    }

    /**
     * Append one member, unless an earlier error stopped the capture. A failing write
     * becomes the capture's own error, as the reader of the guest stream does it.
     */
    method Write(chunk: bytes, io: Io)
      requires Valid()
      modifies this
      ensures Valid()
      ensures input == old(input) + chunk
      ensures old(error).Some? || chunk == [] ==>
                error == old(error) && members == old(members) && torn == old(torn) && size == old(size)
      ensures old(error).None? && chunk != [] ==>
                var member := codec.compress(chunk);
                if old(size) + |member| > limit then
                  error == Some(CompressedByteBudget) && members == old(members) && torn == []
                else if io.Stored? then
                  error.None? && members == old(members) + [member] && torn == []
                else
                  && error == Some(StorageIoError) && members == old(members)
                  && torn == if io.count < |member| then member[..io.count] else member
    {
      inputBytes := inputBytes + |chunk|;
      assert old(input) <= input + chunk;
      input := input + chunk;
      if error.Some? || chunk == [] {
        return;
      }
      var member := codec.compress(chunk);
      if size + |member| > limit {
        error := Some(CompressedByteBudget);
        return;
      }
      match io
      case Stored =>
        codec.DecodeAppend(members, chunk);
        FlattenYield(members, member);
        members := members + [member];
        size := size + |member|;
      case Interrupted(count) =>
        torn := member[..if count < |member| then count else |member|];
        lost := chunk;
        error := Some(StorageIoError);
    }
  }

  /**
   * The console lines of a guest stream, captured as it is redacted. Both depend on the
   * whole stream only: the lines are those of its batch redaction, and the complete
   * members decode to a prefix of it, all of it while there is no error.
   */
  method BoundedLines(chunks: seq<bytes>, secret: bytes, capture: CompressedCapture, io: nat -> Io)
    returns (r: Result<seq<Line>, RedactError>)
    requires forall chunk :: chunk in chunks ==> chunk != []
    requires capture.Valid() && capture.input == []
    modifies capture
    ensures r.Err? <==> secret == []
    ensures capture.Valid()
    ensures r.Ok? ==> r.value == Console(Redact(Flatten(chunks), secret))
    ensures r.Ok? ==> capture.input == Redact(Flatten(chunks), secret)
    ensures old(capture.error).Some? ==> capture.error == old(capture.error)
  {
    hide Split, Console, Shown, Flatten, Redact;
    var redacted := RedactedChunks(chunks, secret);
    if redacted.Err? {
      return Err(redacted.error);
    }
    var lines: seq<Line>, pending: bytes, overflow := [], [], false;
    ghost var seen: bytes := [];
    ShowStart();
    assert redacted.value[..0] == [];
    for n := 0 to |redacted.value|
      invariant capture.Valid() && capture.input == seen == Flatten(redacted.value[..n])
      invariant old(capture.error).Some? ==> capture.error == old(capture.error)
      invariant Shown(lines, pending, overflow, Split(seen))
    {
      var chunk := redacted.value[n];
      capture.Write(chunk, io(n));
      lines, pending, overflow := AddChunk(chunk, lines, pending, overflow, seen);
      seen := seen + chunk;
      FlattenPrefix(redacted.value, n);
    }
    assert redacted.value[..|redacted.value|] == redacted.value;
    ShowEnd(lines, pending, overflow, seen);
    if pending != [] || overflow {
      lines := lines + [if overflow then Oversized else Text(pending, false)];
    }
    r := Ok(lines);
  }

  lemma ShowStart()
    ensures Shown([], [], false, Split([])) && Flatten([]) == []
  {
    SplitNone([]);
  }

  lemma ShowEnd(lines: seq<Line>, pending: bytes, overflow: bool, seen: bytes)
    requires Shown(lines, pending, overflow, Split(seen))
    ensures Console(seen)
         == if pending != [] || overflow then lines + [if overflow then Oversized else Text(pending, false)] else lines
  {
    hide Split;
  }

  lemma FlattenPrefix(chunks: seq<bytes>, n: nat)
    requires n < |chunks|
    ensures Flatten(chunks[..n + 1]) == Flatten(chunks[..n]) + chunks[n]
  {
    assert chunks[..n + 1] == chunks[..n] + [chunks[n]];
    FlattenYield(chunks[..n], chunks[n]);
  }

  /**
   * What can be read back from a capture of a redacted stream lacks the secret, whether the
   * stream was captured to its end and whether the last member is whole or only the start of one.
   */
  lemma CaptureHidesSecret(capture: CompressedCapture, s: bytes, secret: bytes)
    requires capture.Valid() && secret != [] && Disjoint(secret, MARKER)
    requires capture.input <= Redact(s, secret)
    ensures !Occurs(capture.codec.Decode(capture.members), secret)
    ensures capture.torn == capture.codec.compress(capture.lost) != [] ==>
              !Occurs(capture.codec.Decode(capture.members + [capture.torn]), secret)
    ensures !Occurs(capture.codec.Decode(capture.members) + capture.codec.recover(capture.torn), secret)
  {
    ghost var recovered := capture.codec.recover(capture.torn);
    if capture.torn == [] {
      capture.codec.Recovers([], []);
      assert capture.codec.Decode(capture.members) + recovered == capture.codec.Decode(capture.members);
    } else {
      capture.codec.Recovers(capture.torn, capture.lost);
      ShorterPart(capture.codec.Decode(capture.members), recovered, capture.lost, capture.input);
      RedactedPrefixHidesSecret(s, secret, capture.codec.Decode(capture.members) + recovered);
    }
    RedactedPrefixHidesSecret(s, secret, capture.codec.Decode(capture.members));
    if capture.torn == capture.codec.compress(capture.lost) != [] {
      capture.codec.DecodeAppend(capture.members, capture.lost);
      RedactedPrefixHidesSecret(s, secret, capture.codec.Decode(capture.members) + capture.lost);
    }
  }

  lemma ShorterPart(a: bytes, b: bytes, c: bytes, whole: bytes)
    requires b <= c && a + c <= whole
    ensures a + b <= whole
  {
    assert a + b == (a + c)[..|a| + |b|];
  }

  /** No line put on the console contains the secret. */
  lemma LinesHideSecret(s: bytes, secret: bytes, i: nat)
    requires secret != [] && Disjoint(secret, MARKER)
    requires i < |Console(Redact(s, secret))| && Console(Redact(s, secret))[i].Text?
    ensures !Occurs(Console(Redact(s, secret))[i].content, secret)
  {
    var out := Redact(s, secret);
    ReplaceRemoves(s, secret, MARKER);
    PartOccurs(out, i);
    if Occurs(Split(out)[i], secret) {
      OccursInPart(out, Split(out)[i], secret);
    }
  }

  lemma {:induction false} PartOccurs(s: bytes, i: nat)
    requires i < |Split(s)|
    ensures Occurs(s, Split(s)[i])
    decreases |s|
  {
    hide At, Find;
    var f := Find(s, [NEWLINE], 0);
    var part := Split(s)[i];
    if f < 0 {
      WholeOccurs(s);
    } else if i == 0 {
      WholeOccurs(s[..f]);
      AtTake(s, part, f, 0);
    } else {
      PartOccurs(s[f + 1..], i - 1);
      var j :| At(s[f + 1..], part, j);
      AtDrop(s, part, f + 1, j);
    }
  }

  lemma WholeOccurs(s: bytes)
    ensures At(s, s, 0)
  {
  }

  lemma OccursInPart(s: bytes, part: bytes, secret: bytes)
    requires Occurs(s, part) && Occurs(part, secret)
    ensures Occurs(s, secret)
  {
    var i :| At(s, part, i);
    var j :| At(part, secret, j);
    forall k | 0 <= k < |secret| ensures s[i + j + k] == secret[k] {
      AtByte(part, secret, j, k);
      AtByte(s, part, i, j + k);
    }
    assert At(s, secret, i + j);
  }
}
