/** The serial relay of scripts/bluebuild/unlock-vm.py. */
module UnlockVm {
  import opened Bytes
  import opened Wrappers
  import opened RedactVmLogs

  const NEWLINE: byte := 10
  const CARRIAGE_RETURN: byte := 13
  const RECV_LIMIT := 4096
  const PENDING_LIMIT := 16384
  const PROMPT_WINDOW := 8192

  /** The connection ended before any window showed the prompt. */
  datatype RelayError = NeverPrompted

  predicate LowerHex(b: byte) {
    48 <= b <= 57 || 97 <= b <= 102
  }

  /** The only keys `main` hands to the relay: 64 lowercase hexadecimal digits. */
  predicate DiskKey(secret: bytes) {
    |secret| == 64 && forall i :: 0 <= i < |secret| ==> LowerHex(secret[i])
  }

  lemma DiskKeyExactly(secret: bytes)
    ensures DiskKey(secret) <==>
              |secret| == 64 && forall b :: b in secret ==>
                exists i :: 0 <= i < |"0123456789abcdef"| && "0123456789abcdef"[i] as int == b
  {
    forall b ensures LowerHex(b) <==> exists i :: 0 <= i < |"0123456789abcdef"| && "0123456789abcdef"[i] as int == b {
      if LowerHex(b) {
        var i := if b <= 57 then b - 48 else b - 87;
        assert "0123456789abcdef"[i] as int == b;
      }
    }
    forall i | 0 <= i < |secret| ensures secret[i] in secret {
    }
  }

  ghost predicate Reads(chunks: seq<bytes>) {
    forall chunk :: chunk in chunks ==> 0 < |chunk| <= RECV_LIMIT
  }

  lemma KeyBytes(secret: bytes)
    requires DiskKey(secret)
    ensures Disjoint(secret, MARKER) && NEWLINE !in secret
  {
  }

  /** Where the relay cuts its buffer: after the last newline, or before it grows too long. */
  function Boundary(pending: bytes, secret: bytes): (cut: nat)
    requires DiskKey(secret)
    ensures cut <= |pending|
  {
    var line := LineEnd(pending);
    if line != 0 || |pending| <= PENDING_LIMIT then line
    else
      var cut := |pending| - |secret|;
      // The key may lie across the cut: then cut before it.
      var start := RFind(pending, secret, cut + |secret|);
      if start != -1 && start < cut < start + |secret| then start else cut
  }

  /** Everything emitted from now on, with `pending` carried over and `chunks` still to come. */
  function Emitted(pending: bytes, chunks: seq<bytes>, secret: bytes): bytes
    requires DiskKey(secret)
    decreases |chunks|
  {
    if chunks == [] then Redact(pending, secret)
    else
      var buffer := pending + chunks[0];
      var cut := Boundary(buffer, secret);
      Redact(buffer[..cut], secret) + Emitted(buffer[cut..], chunks[1..], secret)
  }

  /** The last `limit` bytes. */
  function Window(s: bytes, limit: nat): bytes {
    if |s| <= limit then s else s[|s| - limit..]
  }

  /** Some window of the input, taken after one of the first `n` reads, showed the prompt. */
  ghost predicate PromptedWithin(chunks: seq<bytes>, prompt: bytes -> bool, n: nat)
    requires n <= |chunks|
  {
    exists i :: 0 < i <= n && PromptedAfter(chunks, prompt, i)
  }

  ghost predicate PromptedAfter(chunks: seq<bytes>, prompt: bytes -> bool, n: nat)
    requires n <= |chunks|
  {
    prompt(Window(Flatten(chunks[..n]), 8192))
  }

  /** The buffer kept between reads. */
  ghost predicate Bounded(pending: bytes) {
    NEWLINE !in pending && |pending| <= 16384
  }

  // ----- Cut points -----

  /** The end of the last complete line, or 0. */
  function LineEnd(s: bytes): nat {
    var last := RFind(s, [NEWLINE], |s|);
    if last < 0 then 0 else last + 1
  }

  lemma LineEndMeans(s: bytes)
    ensures var line := LineEnd(s);
            line <= |s| && (line > 0 ==> s[line - 1] == NEWLINE) && NEWLINE !in s[line..]
  {
    hide At, RFind;
    AtBounds(s, [NEWLINE]);
    NewlineAt(s, RFind(s, [NEWLINE], |s|));
  }

  lemma NewlineAt(s: bytes, last: int)
    requires last != -1 ==> At(s, [NEWLINE], last)
    requires forall i :: i + 1 <= |s| && At(s, [NEWLINE], i) ==> i <= last
    ensures -1 <= last < |s|
    ensures last >= 0 ==> s[last] == NEWLINE
    ensures NEWLINE !in s[last + 1..]
  {
    AtOne(s, NEWLINE, last);
    forall i | last < i < |s| ensures s[i] != NEWLINE {
      AtOne(s, NEWLINE, i);
    }
  }

  /** The place straddles the end of all but the last key's length of the buffer. */
  ghost predicate Across(buffer: bytes, secret: bytes, i: int) {
    At(buffer, secret, i) && i < |buffer| - |secret| < i + |secret|
  }

  /**
   * Where the buffer is cut: right after its last newline; without one, nowhere while it has at
   * most 16384 bytes, and else a key's length before its end, or at the last key that lies
   * across that place, if none starts there.
   */
  lemma BoundaryExactly(buffer: bytes, secret: bytes)
    requires DiskKey(secret)
    ensures var cut := Boundary(buffer, secret);
            if NEWLINE in buffer then 0 < cut <= |buffer| && buffer[cut - 1] == 10 && NEWLINE !in buffer[cut..]
            else if |buffer| <= 16384 then cut == 0
            else if !At(buffer, secret, |buffer| - |secret|) && exists i :: Across(buffer, secret, i) then
              Across(buffer, secret, cut) && forall i :: Across(buffer, secret, i) ==> i <= cut
            else cut == |buffer| - |secret|
  {
    LineEndMeans(buffer);
    var line := LineEnd(buffer);
    assert buffer[0..] == buffer;
    assert line > 0 ==> buffer[line - 1] in buffer;
    hide At, LineEnd, RFind;
    AtBounds(buffer, secret);
  }

  lemma WindowExactly(s: bytes, limit: nat)
    ensures var w := Window(s, limit);
            |w| <= limit && |w| <= |s| && (|w| < |s| ==> |w| == limit) && w == s[|s| - |w|..]
  {
    assert s == s[0..];
  }

  /** A forced cut leaves most of the buffer behind it, and keeps fewer than 128 bytes. */
  lemma ForcedCut(buffer: bytes, secret: bytes)
    requires DiskKey(secret) && NEWLINE !in buffer && |buffer| > PENDING_LIMIT
    ensures Boundary(buffer, secret) >= |buffer| - 2 * |secret| + 1
  {
    LineEndMeans(buffer);
  }

  /** After every iteration the retained buffer is newline-free and bounded. */
  lemma RetainedIsBounded(pending: bytes, chunk: bytes, secret: bytes)
    requires DiskKey(secret) && Bounded(pending) && |chunk| <= RECV_LIMIT
    ensures Bounded((pending + chunk)[Boundary(pending + chunk, secret)..])
  {
    var buffer := pending + chunk;
    var line := LineEnd(buffer);
    LineEndMeans(buffer);
    if line > 0 {
      assert line - 1 >= |pending|;
    } else if |buffer| > PENDING_LIMIT {
      assert buffer[0..] == buffer;
      ForcedCut(buffer, secret);
    }
  }

  /** The two places a cut can be: clear of every occurrence in the stream, or at one. */
  lemma CutIsSafe(buffer: bytes, future: bytes, secret: bytes)
    requires DiskKey(secret)
    ensures var cut := Boundary(buffer, secret);
            cut == 0 || At(buffer, secret, cut) || CleanCut(buffer + future, secret, cut)
  {
    var cut, whole := Boundary(buffer, secret), buffer + future;
    var line := LineEnd(buffer);
    LineEndMeans(buffer);
    forall i | At(whole, secret, i) && i < cut < i + |secret|
      ensures cut == 0 || At(buffer, secret, cut)
    {
      if line > 0 {
        AtByte(whole, secret, i, cut - 1 - i);
        KeyBytes(secret);
      } else if cut > 0 {
        assert whole[..|buffer|] == buffer;
        AtTake(whole, secret, |buffer|, i);
      }
    }
  }

  // ----- Secrecy, for every fragmentation -----

  lemma StartsWithKey(buffer: bytes, secret: bytes)
    requires DiskKey(secret) && At(buffer, secret, 0)
    ensures var cut := Boundary(buffer, secret); cut == 0 || |secret| <= cut
  {
    var line := LineEnd(buffer);
    LineEndMeans(buffer);
    KeyBytes(secret);
    if 0 < line < |secret| {
      AtByte(buffer, secret, 0, line - 1);
    }
  }

  /** A buffer that starts with the key is emitted starting with the marker. */
  lemma {:induction false} EmitsMarkerFirst(pending: bytes, chunks: seq<bytes>, secret: bytes)
    requires DiskKey(secret) && At(pending, secret, 0)
    ensures MARKER <= Emitted(pending, chunks, secret)
    decreases |chunks|
  {
    if chunks != [] {
      var buffer := pending + chunks[0];
      var cut := Boundary(buffer, secret);
      assert At(buffer, secret, 0);
      StartsWithKey(buffer, secret);
      if cut == 0 {
        assert buffer[0..] == buffer;
        EmitsMarkerFirst(buffer, chunks[1..], secret);
        assert Redact(buffer[..0], secret) == [];
      } else {
        AtTake(buffer, secret, cut, 0);
      }
    }
  }

  /** Emitted bytes free of marker bytes were copied from the input. */
  lemma {:induction false} EmittedPrefix(pending: bytes, chunks: seq<bytes>, secret: bytes, n: nat)
    requires DiskKey(secret) && n <= |Emitted(pending, chunks, secret)|
    requires Disjoint(Emitted(pending, chunks, secret)[..n], MARKER)
    ensures var input := pending + Flatten(chunks);
            n <= |input| && Emitted(pending, chunks, secret)[..n] == input[..n]
    decreases |chunks|
  {
    if chunks == [] {
      CopiedPrefix(pending, secret, MARKER, n);
    } else {
      var buffer := pending + chunks[0];
      var cut := Boundary(buffer, secret);
      var now, later := Redact(buffer[..cut], secret), Emitted(buffer[cut..], chunks[1..], secret);
      var input := pending + Flatten(chunks);
      CutAppended(pending, chunks[0], Flatten(chunks[1..]), cut);
      TakeAppended(now, later, n);
      var head, tail := buffer[..cut], buffer[cut..] + Flatten(chunks[1..]);
      if n <= |now| {
        CopiedPrefix(head, secret, MARKER, n);
        TakeAppended(head, tail, n);
      } else {
        CopiedWhole(head, secret, MARKER);
        EmittedPrefix(buffer[cut..], chunks[1..], secret, n - |now|);
        TakeAppended(head, tail, n);
      }
    }
  }

  /** The parts of an occurrence that runs over the end of `now` into `later`. */
  lemma OccurrenceParts(now: bytes, later: bytes, secret: bytes, i: int)
    requires At(now + later, secret, i) && i < |now| < i + |secret|
    ensures 0 <= i && now[i..] == secret[..|now| - i]
    ensures i + |secret| - |now| <= |later|
    ensures later[..i + |secret| - |now|] == secret[|now| - i..]
  {
    forall k | 0 <= k < |secret| ensures (now + later)[i + k] == secret[k] {
      AtByte(now + later, secret, i, k);
    }
  }

  lemma JoinParts(head: bytes, tail: bytes, secret: bytes, k: nat)
    requires 0 < k <= |head| && k <= |secret| && |secret| - k <= |tail|
    requires head[|head| - k..] == secret[..k] && tail[..|secret| - k] == secret[k..]
    ensures At(head + tail, secret, |head| - k)
  {
    forall j | 0 <= j < |secret| ensures (head + tail)[|head| - k + j] == secret[j] {
      if j < k {
        assert head[|head| - k..][j] == secret[..k][j];
      } else {
        assert tail[..|secret| - k][j - k] == secret[k..][j - k];
      }
    }
  }

  /** A key straddling the output of a cut was already straddling the cut. */
  lemma KeyInInput(buffer: bytes, chunks: seq<bytes>, secret: bytes, i: int)
    requires DiskKey(secret)
    requires var cut := Boundary(buffer, secret); i < |Redact(buffer[..cut], secret)| < i + |secret|
    requires var cut := Boundary(buffer, secret);
             At(Redact(buffer[..cut], secret) + Emitted(buffer[cut..], chunks, secret), secret, i)
    ensures var cut := Boundary(buffer, secret);
            !CleanCut(buffer + Flatten(chunks), secret, cut)
  {
    hide Emitted, Replace, Boundary, Flatten, At;
    var cut := Boundary(buffer, secret);
    var head, tail := buffer[..cut], buffer[cut..] + Flatten(chunks);
    var now, later := Redact(head, secret), Emitted(buffer[cut..], chunks, secret);
    KeyBytes(secret);
    OccurrenceParts(now, later, secret, i);
    var k := |now| - i;
    CopiedSuffix(head, secret, MARKER, k);
    EmittedPrefix(buffer[cut..], chunks, secret, |secret| - k);
    JoinParts(head, tail, secret, k);
    CutAppended(buffer, [], Flatten(chunks), cut);
    assert buffer + [] == buffer && [] + Flatten(chunks) == Flatten(chunks);
  }

  /** No key straddles what one iteration emits and what follows it. */
  lemma NoKeyAcrossCut(buffer: bytes, chunks: seq<bytes>, secret: bytes, i: int)
    requires DiskKey(secret)
    requires var cut := Boundary(buffer, secret); cut > 0 && i < |Redact(buffer[..cut], secret)| < i + |secret|
    ensures var cut := Boundary(buffer, secret);
            !At(Redact(buffer[..cut], secret) + Emitted(buffer[cut..], chunks, secret), secret, i)
  {
    var cut := Boundary(buffer, secret);
    var now, later := Redact(buffer[..cut], secret), Emitted(buffer[cut..], chunks, secret);
    if At(now + later, secret, i) {
      KeyInInput(buffer, chunks, secret, i);
      CutIsSafe(buffer, Flatten(chunks), secret);
      AtDrop(buffer, secret, cut, 0);
      EmitsMarkerFirst(buffer[cut..], chunks, secret);
      KeyBytes(secret);
      AtByte(now + later, secret, i, |now| - i);
    }
  }

  /** Whatever the fragmentation, the concatenation of everything emitted lacks the key. */
  lemma {:induction false} EmittedHidesKey(pending: bytes, chunks: seq<bytes>, secret: bytes)
    requires DiskKey(secret)
    ensures !Occurs(Emitted(pending, chunks, secret), secret)
    decreases |chunks|
  {
    hide At, Boundary, Flatten;
    KeyBytes(secret);
    if chunks == [] {
      ReplaceRemoves(pending, secret, MARKER);
    } else {
      var buffer := pending + chunks[0];
      var cut := Boundary(buffer, secret);
      var now, later := Redact(buffer[..cut], secret), Emitted(buffer[cut..], chunks[1..], secret);
      ReplaceRemoves(buffer[..cut], secret, MARKER);
      EmittedHidesKey(buffer[cut..], chunks[1..], secret);
      forall i ensures !At(now + later, secret, i) {
        if i + |secret| <= |now| {
          assert (now + later)[..|now|] == now;
          AtTake(now + later, secret, |now|, i);
        } else if |now| <= i {
          assert (now + later)[|now|..] == later;
          AtDrop(now + later, secret, |now|, i - |now|);
        } else if cut > 0 {
          NoKeyAcrossCut(buffer, chunks[1..], secret, i);
        }
      }
    }
  }

  // ----- Agreement with batch redaction -----

  /** No proper prefix of the key is also a suffix of it. */
  ghost predicate BorderFree(secret: bytes) {
    forall k :: 0 < k < |secret| ==> !Border(secret, k)
  }

  predicate Border(secret: bytes, k: nat)
    requires k <= |secret|
  {
    secret[..k] == secret[|secret| - k..]
  }

  /** Only a key with a border can overlap itself. */
  lemma OverlapNeedsBorder(s: bytes, secret: bytes, i: int, j: int)
    requires At(s, secret, i) && At(s, secret, j) && i < j < i + |secret|
    ensures Border(secret, i + |secret| - j)
  {
    var k := i + |secret| - j;
    forall x | 0 <= x < k ensures secret[..k][x] == secret[|secret| - k..][x] {
      AtByte(s, secret, j, x);
      AtByte(s, secret, i, j - i + x);
    }
  }

  /** For a border-free key the relay emits the batch redaction of the whole input. */
  lemma {:induction false} EmittedIsBatch(pending: bytes, chunks: seq<bytes>, secret: bytes)
    requires DiskKey(secret) && BorderFree(secret)
    ensures Emitted(pending, chunks, secret) == Redact(pending + Flatten(chunks), secret)
    decreases |chunks|
  {
    if chunks == [] {
      assert pending + [] == pending;
    } else {
      var buffer, future := pending + chunks[0], Flatten(chunks[1..]);
      var cut := Boundary(buffer, secret);
      EmittedIsBatch(buffer[cut..], chunks[1..], secret);
      CutIsSafe(buffer, future, secret);
      forall i | At(buffer + future, secret, i) && i < cut < i + |secret| ensures false {
        if At(buffer, secret, cut) {
          assert At(buffer + future, secret, cut);
          OverlapNeedsBorder(buffer + future, secret, i, cut);
        }
      }
      ReplaceCut(buffer + future, secret, MARKER, cut);
      CutAppended(pending, chunks[0], future, cut);
      CutSlices(buffer, future, cut);
    }
  }

  lemma CutSlices(buffer: bytes, future: bytes, cut: nat)
    requires cut <= |buffer|
    ensures (buffer + future)[..cut] == buffer[..cut]
    ensures (buffer + future)[cut..] == buffer[cut..] + future
  {
  }

  const BLANK: byte := 32

  function Blanks(n: nat): bytes {
    seq(n, _ => BLANK)
  }

  /** `n` full reads of blanks. */
  function BlankReads(n: nat): seq<bytes> {
    if n == 0 then [] else [Blanks(RECV_LIMIT)] + BlankReads(n - 1)
  }

  /** Blanks up to the limit, then two copies of the key sharing a border of length `k`. */
  function Overlapping(secret: bytes, k: nat): seq<bytes>
    requires k <= |secret|
  {
    BlankReads(4) + [secret + secret[k..]]
  }

  lemma ReadIsKept(pending: bytes, chunks: seq<bytes>, secret: bytes)
    requires DiskKey(secret) && chunks != [] && Bounded(pending + chunks[0])
    ensures Emitted(pending, chunks, secret) == Emitted(pending + chunks[0], chunks[1..], secret)
  {
    var buffer := pending + chunks[0];
    NoCut(buffer, secret);
    hide Boundary, At, Replace;
    ReplaceShort([], secret, MARKER);
    assert buffer[0..] == buffer && buffer[..0] == [];
  }

  lemma NoCut(buffer: bytes, secret: bytes)
    requires DiskKey(secret) && Bounded(buffer)
    ensures Boundary(buffer, secret) == 0
  {
    LineEndMeans(buffer);
  }

  lemma BlanksAppend(m: nat, n: nat)
    ensures Blanks(m) + Blanks(n) == Blanks(m + n)
  {
  }

  lemma {:induction false} BlanksAreKept(m: nat, n: nat, secret: bytes, last: bytes)
    requires DiskKey(secret) && (m + n) * RECV_LIMIT <= PENDING_LIMIT
    ensures Emitted(Blanks(m * RECV_LIMIT), BlankReads(n) + [last], secret)
         == Emitted(Blanks((m + n) * RECV_LIMIT), [last], secret)
    decreases n
  {
    hide Emitted;
    if n == 0 {
      assert BlankReads(0) + [last] == [last];
    } else {
      var chunks := BlankReads(n) + [last];
      assert chunks[0] == Blanks(RECV_LIMIT) && chunks[1..] == BlankReads(n - 1) + [last];
      BlanksAppend(m * RECV_LIMIT, RECV_LIMIT);
      ReadIsKept(Blanks(m * RECV_LIMIT), chunks, secret);
      BlanksAreKept(m + 1, n - 1, secret, last);
    }
  }

  lemma {:induction false} BlanksFlatten(n: nat)
    ensures Flatten(BlankReads(n)) == Blanks(n * RECV_LIMIT)
    ensures Reads(BlankReads(n))
  {
    if n > 0 {
      BlanksFlatten(n - 1);
      assert BlankReads(n)[1..] == BlankReads(n - 1);
    }
  }

  lemma NoKeyInBlanks(tail: bytes, secret: bytes, i: nat)
    requires DiskKey(secret) && i < 16384
    ensures !At(Blanks(16384) + tail, secret, i)
  {
    if At(Blanks(16384) + tail, secret, i) {
      AtByte(Blanks(16384) + tail, secret, i, 0);
    }
  }

  /** Batch redaction replaces the first of the two overlapping keys ... */
  lemma BatchOfOverlap(secret: bytes, k: nat)
    requires DiskKey(secret) && 0 < k < |secret| && Border(secret, k)
    ensures Redact(Blanks(16384) + (secret + secret[k..]), secret) == Blanks(16384) + MARKER + secret[k..]
  {
    var s := Blanks(16384) + (secret + secret[k..]);
    forall i | 0 <= i < 16384 ensures !At(s, secret, i) {
      NoKeyInBlanks(secret + secret[k..], secret, i);
    }
    ReplaceFirst(s, secret, MARKER, 16384);
    assert s[16384 + |secret|..] == secret[k..] && s[..16384] == Blanks(16384);
    ReplaceShort(secret[k..], secret, MARKER);
  }

  lemma OverlapEndsInKey(secret: bytes, k: nat)
    requires DiskKey(secret) && 0 < k < |secret| && Border(secret, k)
    ensures var s := Blanks(16384) + (secret + secret[k..]);
            At(s, secret, |s| - |secret|) && s[|s| - |secret|..] == secret
  {
    var s := Blanks(16384) + (secret + secret[k..]);
    var at := |s| - |secret|;
    forall x | 0 <= x < |secret| ensures s[at + x] == secret[x] {
      if x < k {
        assert secret[..k][x] == secret[|secret| - k..][x];
      }
    }
  }

  lemma CutOfOverlap(secret: bytes, k: nat)
    requires DiskKey(secret) && 0 < k < |secret| && Border(secret, k)
    ensures var s := Blanks(16384) + (secret + secret[k..]);
            Boundary(s, secret) == |s| - |secret|
  {
    LineEndMeans(Blanks(16384) + (secret + secret[k..]));
    var s := Blanks(16384) + (secret + secret[k..]);
    KeyBytes(secret);
    OverlapEndsInKey(secret, k);
    assert NEWLINE !in s;
  }

  lemma HeadOfOverlap(part: bytes, secret: bytes)
    requires DiskKey(secret) && |part| < |secret|
    ensures Redact(Blanks(16384) + part, secret) == Blanks(16384) + part
  {
    forall i ensures !At(Blanks(16384) + part, secret, i) {
      if 0 <= i < 16384 {
        NoKeyInBlanks(part, secret, i);
      }
    }
    ReplaceAbsent(Blanks(16384) + part, secret, MARKER);
  }

  /** ... and the relay, cutting at the second one, replaces only that. */
  lemma RelayOfOverlap(secret: bytes, k: nat)
    requires DiskKey(secret) && 0 < k < |secret| && Border(secret, k)
    ensures Emitted(Blanks(16384), [secret + secret[k..]], secret)
         == Blanks(16384) + secret[..|secret| - k] + MARKER
  {
    hide *;
    var last := secret + secret[k..];
    var s := Blanks(16384) + last;
    var cut := |s| - |secret|;
    CutOfOverlap(secret, k);
    OverlapEndsInKey(secret, k);
    EmittedLast(Blanks(16384), last, secret, cut);
    OverlapStart(Blanks(16384), secret, k);
    HeadOfOverlap(secret[..|secret| - k], secret);
    RedactKey(secret);
  }

  lemma OverlapStart(before: bytes, secret: bytes, k: nat)
    requires 0 < k < |secret|
    ensures var s := before + (secret + secret[k..]); s[..|s| - |secret|] == before + secret[..|secret| - k]
  {
  }

  lemma EmittedLast(pending: bytes, last: bytes, secret: bytes, cut: nat)
    requires DiskKey(secret) && Boundary(pending + last, secret) == cut
    ensures Emitted(pending, [last], secret)
         == Redact((pending + last)[..cut], secret) + Redact((pending + last)[cut..], secret)
  {
    assert [last][1..] == [];
  }

  lemma RedactKey(secret: bytes)
    requires DiskKey(secret)
    ensures Redact(secret, secret) == MARKER
  {
    assert At(secret, secret, 0);
    assert secret[|secret|..] == [] && Redact([], secret) == [];
    assert MARKER + [] == MARKER;
  }

  /** A key with a border has an input, in legal reads, on which relay and batch differ. */
  lemma BorderBreaksBatch(secret: bytes, k: nat)
    requires DiskKey(secret) && 0 < k < |secret| && Border(secret, k)
    ensures var chunks := Overlapping(secret, k);
            Reads(chunks) && Emitted([], chunks, secret) != Redact(Flatten(chunks), secret)
  {
    hide Emitted, Redact, Flatten, BlankReads, Border;
    var last := secret + secret[k..];
    BlanksAreKept(0, 4, secret, last);
    assert Blanks(0) == [];
    BlanksFlatten(4);
    FlattenAppend(BlankReads(4), [last]);
    FlattenOne(last);
    BatchOfOverlap(secret, k);
    RelayOfOverlap(secret, k);
    assert (Blanks(16384) + MARKER + secret[k..])[16384] == MARKER[0];
    assert (Blanks(16384) + secret[..|secret| - k] + MARKER)[16384] == secret[0];
    assert LowerHex(secret[0]);
  }

  ghost predicate BatchFor(secret: bytes, chunks: seq<bytes>)
    requires DiskKey(secret)
  {
    Emitted([], chunks, secret) == Redact(Flatten(chunks), secret)
  }

  /** The relay equals batch redaction on every input exactly when the key has no border. */
  lemma BatchExactlyWhenBorderFree(secret: bytes)
    requires DiskKey(secret)
    ensures (forall chunks :: Reads(chunks) ==> BatchFor(secret, chunks)) <==> BorderFree(secret)
  {
    if BorderFree(secret) {
      forall chunks | Reads(chunks) ensures BatchFor(secret, chunks) {
        EmittedIsBatch([], chunks, secret);
        assert [] + Flatten(chunks) == Flatten(chunks);
      }
    } else {
      var k :| 0 < k < |secret| && Border(secret, k);
      BorderBreaksBatch(secret, k);
      assert !BatchFor(secret, Overlapping(secret, k));
    }
  }

  // ----- The loop -----

  lemma WindowAppend(s: bytes, chunk: bytes, limit: nat)
    ensures Window(Window(s, limit) + chunk, limit) == Window(s + chunk, limit)
  {
  }

  lemma FlattenTake(chunks: seq<bytes>, n: nat)
    requires n < |chunks|
    ensures Flatten(chunks[..n + 1]) == Flatten(chunks[..n]) + chunks[n]
  {
    assert chunks[..n + 1] == chunks[..n] + [chunks[n]];
    FlattenYield(chunks[..n], chunks[n]);
  }

  /** What has been emitted after `n` reads, with the bounded buffer that is carried over. */
  ghost predicate Forwarded(output: bytes, pending: bytes, chunks: seq<bytes>, n: nat, secret: bytes)
    requires DiskKey(secret) && n <= |chunks|
  {
    && Bounded(pending)
    && output + Emitted(pending, chunks[n..], secret) == Emitted([], chunks, secret)
  }

  lemma ForwardStep(output: bytes, pending: bytes, chunks: seq<bytes>, n: nat, secret: bytes)
    requires DiskKey(secret) && n < |chunks| && |chunks[n]| <= RECV_LIMIT
    requires Forwarded(output, pending, chunks, n, secret)
    ensures var buffer := pending + chunks[n];
            var cut := Boundary(buffer, secret);
            && Forwarded(output + Redact(buffer[..cut], secret), buffer[cut..], chunks, n + 1, secret)
            && (cut == 0 ==> Forwarded(output, buffer, chunks, n + 1, secret))
  {
    hide Boundary;
    RetainedIsBounded(pending, chunks[n], secret);
    assert chunks[n..][1..] == chunks[n + 1..];
    var buffer := pending + chunks[n];
    var cut := Boundary(buffer, secret);
    var data := Redact(buffer[..cut], secret);
    Associative(output, data, Emitted(buffer[cut..], chunks[n + 1..], secret));
    if cut == 0 {
      assert buffer[0..] == buffer;
      ReplaceShort([], secret, MARKER);
      assert output + data == output;
    }
  }

  /** What the prompt detector knows after `n` reads. */
  ghost predicate Watched(buffer: bytes, unlocked: bool, chunks: seq<bytes>, prompt: bytes -> bool, n: nat)
    requires n <= |chunks|
  {
    && buffer == Window(Flatten(chunks[..n]), PROMPT_WINDOW)
    && unlocked == PromptedWithin(chunks, prompt, n)
  }

  lemma WatchStep(buffer: bytes, unlocked: bool, chunks: seq<bytes>, prompt: bytes -> bool, n: nat)
    requires n < |chunks| && Watched(buffer, unlocked, chunks, prompt, n)
    ensures var window := Window(buffer + chunks[n], PROMPT_WINDOW);
            Watched(window, unlocked || prompt(window), chunks, prompt, n + 1)
  {
    FlattenTake(chunks, n);
    WindowAppend(Flatten(chunks[..n]), chunks[n], PROMPT_WINDOW);
    if PromptedAfter(chunks, prompt, n + 1) {
    }
  }

  lemma WatchEnd(buffer: bytes, unlocked: bool, chunks: seq<bytes>, prompt: bytes -> bool)
    requires Watched(buffer, unlocked, chunks, prompt, |chunks|)
    ensures unlocked == PromptedWithin(chunks, prompt, |chunks|)
  {
  }

  lemma RelayStart(chunks: seq<bytes>, secret: bytes, prompt: bytes -> bool)
    requires DiskKey(secret)
    ensures Forwarded([], [], chunks, 0, secret) && Watched([], false, chunks, prompt, 0)
  {
    assert chunks[0..] == chunks;
  }

  lemma RelayEnd(output: bytes, pending: bytes, chunks: seq<bytes>, secret: bytes)
    requires DiskKey(secret) && Forwarded(output, pending, chunks, |chunks|, secret)
    ensures output + Redact(pending, secret) == Emitted([], chunks, secret)
  {
    assert chunks[|chunks|..] == [];
  }

  lemma RelayOutput(chunks: seq<bytes>, secret: bytes)
    requires DiskKey(secret)
    ensures !Occurs(Emitted([], chunks, secret), secret)
    ensures BorderFree(secret) ==> Emitted([], chunks, secret) == Redact(Flatten(chunks), secret)
  {
    EmittedHidesKey([], chunks, secret);
    if BorderFree(secret) {
      EmittedIsBatch([], chunks, secret);
      assert [] + Flatten(chunks) == Flatten(chunks);
    }
  }

  /**
   * `chunks` are the results of `recv` up to the end of the connection. Log and
   * console receive the same `output`, which never contains the key; the key is sent once, to the
   * first window that shows the prompt, and a connection without one is an error.
   */
  method Relay(chunks: seq<bytes>, secret: bytes, prompt: bytes -> bool)
    returns (output: bytes, sent: seq<bytes>, r: Result<(), RelayError>)
    requires DiskKey(secret) && Reads(chunks)
    ensures output == Emitted([], chunks, secret)
    ensures !Occurs(output, secret)
    ensures BorderFree(secret) ==> output == Redact(Flatten(chunks), secret)
    ensures PromptedWithin(chunks, prompt, |chunks|) ==> r.Ok? && sent == [secret + [13]]
    ensures !PromptedWithin(chunks, prompt, |chunks|) ==> r.Err? && sent == []
  {
    hide Emitted, Boundary, Redact, Forwarded, Watched, PromptedWithin, Occurs, BorderFree;
    RelayStart(chunks, secret, prompt);
    var pending: bytes, promptBuffer: bytes, unlocked := [], [], false;
    output, sent := [], [];
    for n := 0 to |chunks|
      invariant Forwarded(output, pending, chunks, n, secret)
      invariant Watched(promptBuffer, unlocked, chunks, prompt, n)
      invariant sent == if unlocked then [secret + [CARRIAGE_RETURN]] else []
    {
      ForwardStep(output, pending, chunks, n, secret);
      WatchStep(promptBuffer, unlocked, chunks, prompt, n);
      pending := pending + chunks[n];
      promptBuffer := Window(promptBuffer + chunks[n], PROMPT_WINDOW);
      if !unlocked && prompt(promptBuffer) {
        sent := sent + [secret + [CARRIAGE_RETURN]];
        unlocked := true;
      }
      var boundary := Boundary(pending, secret);
      if boundary != 0 {
        output := output + Redact(pending[..boundary], secret);
        pending := pending[boundary..];
      }
    }
    RelayEnd(output, pending, chunks, secret);
    WatchEnd(promptBuffer, unlocked, chunks, prompt);
    RelayOutput(chunks, secret);
    output := output + Redact(pending, secret);
    r := if unlocked then Ok(()) else Err(NeverPrompted);
  }
}
