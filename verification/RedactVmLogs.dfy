/** The chunked log redactor of scripts/bluebuild/redact-vm-logs.py. */
module RedactVmLogs {
  import opened Bytes
  import opened Wrappers

  /** The bytes of `[REDACTED]`. */
  const MARKER: bytes := [91, 82, 69, 68, 65, 67, 84, 69, 68, 93]

  lemma MarkerExactly()
    ensures |MARKER| == 10 && forall i :: 0 <= i < 10 ==> MARKER[i] == "[REDACTED]"[i] as int
  {
  }

  datatype RedactError = EmptySecret

  /** Batch redaction: the specification of every streaming form. */
  function Redact(s: bytes, secret: bytes): bytes
    requires secret != []
  {
    Replace(s, secret, MARKER)
  }

  /** The first position of the buffer that could start a still-incomplete secret. */
  function Cutoff(pending: bytes, secret: bytes): nat {
    if |pending| - |secret| + 1 > 0 then |pending| - |secret| + 1 else 0
  }

  function Later(a: nat, b: nat): nat {
    if a > b then a else b
  }

  /** The buffer shows exactly the occurrences of the stream that end inside it. */
  lemma AtBuffered(pending: bytes, future: bytes, secret: bytes, cursor: nat, i: nat)
    requires cursor + i + |secret| <= |pending|
    ensures At((pending + future)[cursor..], secret, i) == At(pending, secret, cursor + i)
  {
    var whole := pending + future;
    AtDrop(whole, secret, cursor, i);
    AtTake(whole, secret, |pending|, cursor + i);
    assert whole[..|pending|] == pending;
  }

  lemma DropAppended(pending: bytes, future: bytes, end: nat)
    requires end <= |pending|
    ensures (pending + future)[end..] == pending[end..] + future
  {
  }

  lemma SliceAppended(pending: bytes, future: bytes, cursor: nat, n: nat, m: nat)
    requires cursor + n <= |pending| && cursor + m <= |pending|
    ensures (pending + future)[cursor..][..n] == pending[cursor..cursor + n]
    ensures (pending + future)[cursor..][m..] == (pending + future)[cursor + m..]
  {
  }

  /** Once no match starts before the cutoff, the bytes up to it are final. */
  lemma RedactRest(pending: bytes, future: bytes, secret: bytes, cursor: nat)
    requires secret != [] && cursor <= |pending|
    requires !(0 <= Find(pending, secret, cursor) < Cutoff(pending, secret))
    ensures var end := Later(cursor, Cutoff(pending, secret));
            && end <= |pending|
            && Redact((pending + future)[cursor..], secret)
            == pending[cursor..end] + Redact((pending + future)[end..], secret)
  {
    hide At, Replace;
    var whole, end := pending + future, Later(cursor, Cutoff(pending, secret));
    forall i | 0 <= i < end - cursor ensures !At(whole[cursor..], secret, i) {
      AtBuffered(pending, future, secret, cursor, i);
    }
    ReplaceCopies(whole[cursor..], secret, MARKER, end - cursor);
    SliceAppended(pending, future, cursor, end - cursor, end - cursor);
  }

  /** The next occurrence found in the buffer is the next one of the whole stream. */
  lemma RedactNext(pending: bytes, future: bytes, secret: bytes, cursor: nat)
    requires secret != [] && cursor <= |pending|
    requires Find(pending, secret, cursor) >= 0
    ensures var index := Find(pending, secret, cursor);
            && 0 <= cursor <= index <= index + |secret| <= |pending|
            && Redact((pending + future)[cursor..], secret)
            == pending[cursor..index] + MARKER + Redact((pending + future)[index + |secret|..], secret)
  {
    hide At, Replace;
    var tail, index := (pending + future)[cursor..], Find(pending, secret, cursor);
    forall i | 0 <= i <= index - cursor
      ensures At(tail, secret, i) == At(pending, secret, cursor + i)
    {
      AtBuffered(pending, future, secret, cursor, i);
    }
    ReplaceFirst(tail, secret, MARKER, index - cursor);
    SliceAppended(pending, future, cursor, index - cursor, index - cursor + |secret|);
  }

  /** What has been yielded and what is still to be redacted make up the batch result. */
  ghost predicate Released(yielded: seq<bytes>, rest: bytes, whole: bytes, secret: bytes)
    requires secret != []
  {
    Flatten(yielded) + Redact(rest, secret) == Redact(whole, secret)
  }

  lemma ReleaseNone(whole: bytes, secret: bytes)
    requires secret != []
    ensures Released([], whole, whole, secret)
  {
  }

  lemma ReleaseRest(yielded: seq<bytes>, pending: bytes, future: bytes, secret: bytes, cursor: nat)
    requires secret != [] && cursor <= |pending|
    requires !(0 <= Find(pending, secret, cursor) < Cutoff(pending, secret))
    requires Released(yielded, (pending + future)[cursor..], pending + future, secret)
    ensures var end := Later(cursor, Cutoff(pending, secret));
            && end <= |pending|
            && Released(yielded + [pending[cursor..end]], pending[end..] + future, pending + future, secret)
  {
    RedactRest(pending, future, secret, cursor);
    var end := Later(cursor, Cutoff(pending, secret));
    DropAppended(pending, future, end);
    var f, x, r := Flatten(yielded), pending[cursor..end], Redact(pending[end..] + future, secret);
    FlattenYield(yielded, x);
    Associative(f, x, r);
  }

  lemma ReleaseMatch(yielded: seq<bytes>, pending: bytes, future: bytes, secret: bytes, cursor: nat)
    requires secret != [] && cursor <= |pending|
    requires Find(pending, secret, cursor) >= 0
    requires Released(yielded, (pending + future)[cursor..], pending + future, secret)
    ensures var index := Find(pending, secret, cursor);
            && cursor <= index <= index + |secret| <= |pending|
            && Released(yielded + [pending[cursor..index]] + [MARKER],
                        (pending + future)[index + |secret|..], pending + future, secret)
  {
    RedactNext(pending, future, secret, cursor);
    var index := Find(pending, secret, cursor);
    var f, x, r := Flatten(yielded), pending[cursor..index], Redact((pending + future)[index + |secret|..], secret);
    FlattenYield(yielded, x);
    FlattenYield(yielded + [x], MARKER);
    Associative(x, MARKER, r);
    Associative(f, x, MARKER + r);
    Associative(f + x, MARKER, r);
  }

  lemma FlattenYield(yielded: seq<bytes>, x: bytes)
    ensures Flatten(yielded + [x]) == Flatten(yielded) + x
  {
    FlattenAppend(yielded, [x]);
    FlattenOne(x);
  }

  /** The yields so far, with the buffer scanned up to the cursor. */
  ghost predicate Scanned(yielded: seq<bytes>, pending: bytes, future: bytes, secret: bytes, cursor: nat)
    requires secret != []
  {
    cursor <= |pending| && Released(yielded, (pending + future)[cursor..], pending + future, secret)
  }

  lemma ScanStart(pending: bytes, future: bytes, secret: bytes)
    requires secret != []
    ensures Scanned([], pending, future, secret, 0)
  {
    ReleaseNone(pending + future, secret);
    assert (pending + future)[0..] == pending + future;
  }

  lemma ScanMatch(yielded: seq<bytes>, pending: bytes, future: bytes, secret: bytes, cursor: nat, index: nat)
    requires secret != [] && Scanned(yielded, pending, future, secret, cursor)
    requires index == Find(pending, secret, cursor)
    ensures cursor <= index <= index + |secret| <= |pending|
    ensures Scanned(yielded + [pending[cursor..index]] + [MARKER], pending, future, secret, index + |secret|)
  {
    hide Released, At, Find;
    ReleaseMatch(yielded, pending, future, secret, cursor);
  }

  lemma ScanRest(yielded: seq<bytes>, pending: bytes, future: bytes, secret: bytes, cursor: nat, end: nat)
    requires secret != [] && Scanned(yielded, pending, future, secret, cursor)
    requires !(0 <= Find(pending, secret, cursor) < Cutoff(pending, secret))
    requires end == Later(cursor, Cutoff(pending, secret))
    ensures cursor <= end <= |pending| && |pending| - end < |secret|
    ensures Released(yielded + [pending[cursor..end]], pending[end..] + future, pending + future, secret)
  {
    hide Released, At, Find;
    ReleaseRest(yielded, pending, future, secret, cursor);
  }

  /**
   * The work on one read: everything but a buffer shorter than the secret is
   * yielded, and whatever arrives later completes the batch redaction.
   */
  method RedactRead(pending: bytes, secret: bytes, ghost future: bytes)
    returns (yielded: seq<bytes>, rest: bytes)
    requires secret != []
    ensures |rest| < |secret|
    ensures Released(yielded, rest + future, pending + future, secret)
  {
    ScanStart(pending, future, secret);
    hide *;
    yielded := [];
    // From the cutoff on, a secret may have begun that later reads complete.
    var cutoff := Cutoff(pending, secret);
    var cursor: nat := 0;
    var index := Find(pending, secret, cursor);
    while 0 <= index < cutoff
      invariant index == Find(pending, secret, cursor)
      invariant Scanned(yielded, pending, future, secret, cursor)
      decreases |pending| - cursor
    {
      ScanMatch(yielded, pending, future, secret, cursor, index);
      yielded := yielded + [pending[cursor..index]];
      yielded := yielded + [MARKER];
      cursor := index + |secret|;
      index := Find(pending, secret, cursor);
    }
    var end := Later(cursor, cutoff);
    ScanRest(yielded, pending, future, secret, cursor, end);
    yielded := yielded + [pending[cursor..end]];
    rest := pending[end..];
  }

  lemma FlattenFrom(chunks: seq<bytes>, n: nat)
    requires n < |chunks|
    ensures Flatten(chunks[n..]) == chunks[n] + Flatten(chunks[n + 1..])
  {
    assert chunks[n..][1..] == chunks[n + 1..];
  }

  /**
   * `chunks` are the nonempty results of the stream's reads, up to end of file.
   * The yields concatenate to the batch redaction of the whole stream, however it
   * was split, and the buffer carried to the end is shorter than the secret.
   */
  method RedactedChunks(chunks: seq<bytes>, secret: bytes) returns (r: Result<seq<bytes>, RedactError>)
    requires forall chunk :: chunk in chunks ==> chunk != []
    ensures r.Err? <==> secret == []
    ensures r.Ok? ==> Flatten(r.value) == Redact(Flatten(chunks), secret)
    ensures r.Ok? ==> r.value != [] && |r.value[|r.value| - 1]| < |secret|
  {
    if secret == [] {
      return Err(EmptySecret);
    }
    hide Redacted;
    var yielded: seq<bytes> := [];
    var pending: bytes := [];
    RedactedStart(chunks, secret);
    for n := 0 to |chunks|
      invariant |pending| < |secret|
      invariant Redacted(yielded, pending, chunks, n, secret)
    {
      var now, rest := RedactRead(pending + chunks[n], secret, Flatten(chunks[n + 1..]));
      RedactedStep(yielded, pending, chunks, n, secret, now, rest);
      yielded := yielded + now;
      pending := rest;
    }
    var last := Replace(pending, secret, MARKER);
    RedactedEnd(yielded, pending, chunks, secret);
    r := Ok(yielded + [last]);
  }

  /** The yields so far and the buffer, after `n` reads. */
  ghost predicate Redacted(yielded: seq<bytes>, pending: bytes, chunks: seq<bytes>, n: nat, secret: bytes)
    requires secret != [] && n <= |chunks|
  {
    Flatten(yielded) + Redact(pending + Flatten(chunks[n..]), secret) == Redact(Flatten(chunks), secret)
  }

  lemma RedactedStart(chunks: seq<bytes>, secret: bytes)
    requires secret != []
    ensures Redacted([], [], chunks, 0, secret)
  {
    hide Replace;
    assert chunks[0..] == chunks && [] + Flatten(chunks) == Flatten(chunks);
  }

  lemma RedactedStep(yielded: seq<bytes>, pending: bytes, chunks: seq<bytes>, n: nat, secret: bytes,
                     now: seq<bytes>, rest: bytes)
    requires secret != [] && n < |chunks| && Redacted(yielded, pending, chunks, n, secret)
    requires var future := Flatten(chunks[n + 1..]);
             Released(now, rest + future, pending + chunks[n] + future, secret)
    ensures Redacted(yielded + now, rest, chunks, n + 1, secret)
  {
    var future := Flatten(chunks[n + 1..]);
    FlattenFrom(chunks, n);
    Associative(pending, chunks[n], future);
    FlattenAppend(yielded, now);
    Associative(Flatten(yielded), Flatten(now), Redact(rest + future, secret));
    hide Redact, Flatten;
  }

  lemma RedactedEnd(yielded: seq<bytes>, pending: bytes, chunks: seq<bytes>, secret: bytes)
    requires |pending| < |secret| && Redacted(yielded, pending, chunks, |chunks|, secret)
    ensures var last := Replace(pending, secret, MARKER);
            last == pending && Flatten(yielded + [last]) == Redact(Flatten(chunks), secret)
  {
    ReplaceShort(pending, secret, MARKER);
    hide Replace;
    FlattenYield(yielded, pending);
    assert chunks[|chunks|..] == [] && pending + [] == pending;
  }

  /** What the redacted stream, or any captured prefix of it, can no longer contain. */
  lemma RedactedPrefixHidesSecret(s: bytes, secret: bytes, prefix: bytes)
    requires secret != [] && Disjoint(secret, MARKER)
    requires prefix <= Redact(s, secret)
    ensures !Occurs(prefix, secret)
  {
    ReplaceRemoves(s, secret, MARKER);
    PrefixKeepsAbsence(prefix, Redact(s, secret), secret);
  }
}
