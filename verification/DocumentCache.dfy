/** The immutable document cache of scripts/ci/decision-authority.py. */
module DocumentCache {
  import opened Wrappers
  import opened Bytes

  const DOCUMENT_BYTES := 16 * 1024 * 1024
  const DOCUMENT_ENTRIES := 64
  const MAX_DOCUMENT := 8 * 1024 * 1024

  /** The repository, path and revision of a document. */
  datatype Binding = Binding(repository: string, path: string, revision: string)

  datatype Encoding = Base64 | NotInline | OtherEncoding

  /** What the contents endpoint says of a binding, and the blob endpoint of a blob. */
  datatype Content = Content(isFile: bool, encoding: Encoding, size: int, sha: string, text: Option<string>)
  datatype Blob = Blob(encoding: Encoding, size: int, sha: string, text: Option<string>)

  /**
   * The immutable part of the API, `None` for anything it fails to answer, and the three
   * codecs: `base64` decodes strictly, `hash` is the hash of a Git blob, and `decode` reads JSON.
   */
  datatype Host<!D> = Host(
    contents: Binding -> Option<Content>,
    blob: (string, string) -> Option<Blob>,
    base64: string -> Option<bytes>,
    hash: bytes -> string,
    decode: bytes -> Option<D>)

  datatype ReadError = InvalidRevision | NotABoundedBlob | BlobDiffers | NotEncoded | InvalidBlob
                     | InvalidEntry | LocalDiffers | Conflict

  predicate IsSha(s: string) {
    |s| == 40 && forall i :: 0 <= i < |s| ==> '0' <= s[i] <= '9' || 'a' <= s[i] <= 'f'
  }

  predicate NameCharacter(c: char) {
    'a' <= c <= 'z' || 'A' <= c <= 'Z' || '0' <= c <= '9' || c == '_' || c == '.' || c == '-'
  }

  predicate IsRepository(s: string) {
    exists i :: 0 < i < |s| - 1 && s[i] == '/' && forall j :: 0 <= j < |s| && j != i ==> NameCharacter(s[j])
  }

  // ----- Reading without a cache -----

  function WithoutNewlines(s: string): string {
    if s == [] then [] else (if s[0] == '\n' then [] else [s[0]]) + WithoutNewlines(s[1..])
  }

  /** The bytes of a blob, authenticated by the size and hash the contents endpoint gives. */
  function Authenticated<D>(host: Host<D>, size: nat, sha: string, text: string): Result<bytes, ReadError> {
    var encoded := WithoutNewlines(text);
    if |encoded| != 4 * ((size + 2) / 3) then Err(InvalidBlob)
    else
      match host.base64(encoded)
      case None => Err(InvalidBlob)
      case Some(raw) =>
        if |raw| == size && host.hash(raw) == sha && host.decode(raw).Some? then Ok(raw) else Err(InvalidBlob)
  }

  /** The bytes an uncached read of a binding authenticates. */
  function Fetch<D>(host: Host<D>, b: Binding): Result<bytes, ReadError> {
    match host.contents(b)
    case None => Err(NotABoundedBlob)
    case Some(c) =>
      if !c.isFile || c.encoding == OtherEncoding || !(0 < c.size <= MAX_DOCUMENT) || !IsSha(c.sha) then
        Err(NotABoundedBlob)
      else if c.encoding == Base64 then
        if c.text.None? then Err(NotEncoded) else Authenticated(host, c.size, c.sha, c.text.value)
      else
        match host.blob(b.repository, c.sha)
        case None => Err(BlobDiffers)
        case Some(blob) =>
          if blob.sha != c.sha || blob.size != c.size then Err(BlobDiffers)
          else if blob.encoding != Base64 || blob.text.None? then Err(NotEncoded)
          else Authenticated(host, c.size, c.sha, blob.text.value)
  }

  /** The document an uncached read of a binding returns. */
  function Uncached<D>(host: Host<D>, b: Binding): Result<D, ReadError> {
    if !IsSha(b.revision) then Err(InvalidRevision)
    else
      match Fetch(host, b)
      case Err(e) => Err(e)
      case Ok(raw) => match host.decode(raw) { case Some(d) => Ok(d) case None => Err(InvalidBlob) }
  }

  /** An uncached read returns bytes of the announced size and hash, in bounds, and they decode. */
  lemma FetchedIsAuthentic<D>(host: Host<D>, b: Binding)
    requires Fetch(host, b).Ok?
    ensures var raw, c := Fetch(host, b).value, host.contents(b);
            && c.Some? && |raw| == c.value.size && host.hash(raw) == c.value.sha
            && 0 < |raw| <= MAX_DOCUMENT && host.decode(raw).Some?
  {
  }

  ghost predicate Hex40(s: string) {
    |s| == 40 && forall i :: 0 <= i < 40 ==> '0' <= s[i] <= '9' || 'a' <= s[i] <= 'f'
  }

  /** The text whose Base64 bytes a binding stands for: given inline, or by the blob that is named. */
  ghost predicate Offers<D>(host: Host<D>, b: Binding, size: int, sha: string, text: string) {
    && host.contents(b).Some? && host.contents(b).value.isFile
    && host.contents(b).value.size == size && host.contents(b).value.sha == sha
    && (host.contents(b) == Some(Content(true, Base64, size, sha, Some(text)))
        || (host.contents(b).value.encoding == NotInline
            && host.blob(b.repository, sha) == Some(Blob(Base64, size, sha, Some(text)))))
  }

  /** The bytes decode from the text without its line ends, and have the size and the hash. */
  ghost predicate Authentic<D>(host: Host<D>, size: int, sha: string, text: string, raw: bytes) {
    && 0 < size <= 8388608 && Hex40(sha) && |WithoutNewlines(text)| == 4 * ((size + 2) / 3)
    && host.base64(WithoutNewlines(text)) == Some(raw) && |raw| == size && host.hash(raw) == sha
    && host.decode(raw).Some?
  }

  /** What an uncached read authenticates, of whichever size. */
  lemma FetchesExactly<D>(host: Host<D>, b: Binding, raw: bytes)
    ensures Fetch(host, b) == Ok(raw) <==>
              exists size, sha, text :: Offers(host, b, size, sha, text) && Authentic(host, size, sha, text, raw)
  {
    hide WithoutNewlines;
    if Fetch(host, b) == Ok(raw) {
      var c := host.contents(b).value;
      var text := if c.encoding == Base64 then c.text.value else host.blob(b.repository, c.sha).value.text.value;
      assert Offers(host, b, c.size, c.sha, text) && Authentic(host, c.size, c.sha, text, raw);
    }
  }

  /** What an uncached read returns. */
  lemma ReadsExactly<D>(host: Host<D>, b: Binding, document: D)
    ensures Uncached(host, b) == Ok(document) <==>
              Hex40(b.revision) && exists raw :: Fetch(host, b) == Ok(raw) && host.decode(raw) == Some(document)
  {
    hide Fetch;
  }

  /** Line ends are taken out of a text, and nothing else is. */
  lemma {:induction false} LinesAreJoined(a: string, b: string)
    ensures WithoutNewlines(a + "\n" + b) == WithoutNewlines(a) + WithoutNewlines(b)
    ensures '\n' !in a ==> WithoutNewlines(a) == a
  {
    var s := a + "\n" + b;
    if a == [] {
      assert s[1..] == b;
    } else {
      assert s[1..] == a[1..] + "\n" + b;
      LinesAreJoined(a[1..], b);
      assert a == [a[0]] + a[1..];
    }
  }

  // ----- The bytes a cache holds -----

  ghost function Pick(m: map<Binding, bytes>): (b: Binding)
    requires m != map[]
    ensures b in m
  {
    var b :| b in m;
    b
  }

  ghost function Total(m: map<Binding, bytes>): nat {
    if m == map[] then 0 else |m[Pick(m)]| + Total(m - {Pick(m)})
  }

  lemma {:induction false} TotalRemove(m: map<Binding, bytes>, b: Binding)
    requires b in m
    ensures Total(m) == |m[b]| + Total(m - {b})
    decreases |m|
  {
    var p := Pick(m);
    if p != b {
      TotalRemove(m - {p}, b);
      TotalRemove(m - {b}, p);
      assert m - {p} - {b} == m - {b} - {p};
    }
  }

  lemma TotalAdd(m: map<Binding, bytes>, b: Binding, raw: bytes)
    requires b !in m
    ensures Total(m[b := raw]) == Total(m) + |raw|
  {
    TotalRemove(m[b := raw], b);
    assert m[b := raw] - {b} == m;
  }

  // ----- The cache -----

  /**
   * An entry of a complete Git tree, and the local file said to hold its blob. `valid` is the
   * verdict on the entry's path, type and mode; `local` is `None` without a regular file.
   */
  datatype Entry = Entry(valid: bool, size: int, sha: string)
  datatype Seeding = Seeding(entry: Entry, local: Option<bytes>)

  /** The entry names the blob that the contents endpoint serves for the binding, where it serves one. */
  ghost predicate FromTheTree<D>(host: Host<D>, b: Binding, entry: Entry) {
    Fetch(host, b).Ok? ==> host.contents(b).value.sha == entry.sha
  }

  /** The hash does not confuse the local bytes with the served ones. */
  ghost predicate NoCollision<D>(host: Host<D>, b: Binding, raw: bytes) {
    Fetch(host, b).Ok? && host.hash(Fetch(host, b).value) == host.hash(raw) ==> raw == Fetch(host, b).value
  }

  ghost predicate Trusted<D>(host: Host<D>, b: Binding, s: Seeding) {
    FromTheTree(host, b, s.entry) && (s.local.Some? ==> NoCollision(host, b, s.local.value))
  }

  /** The entry is an authenticated blob of the tree, and the local bytes are its content. */
  ghost predicate Genuine<D>(host: Host<D>, b: Binding, s: Seeding) {
    && TwoNames(b.repository) && Hex40(b.revision) && s.entry.valid && Hex40(s.entry.sha)
    && 0 < s.entry.size <= 8388608 && s.local.Some? && |s.local.value| == s.entry.size
    && host.hash(s.local.value) == s.entry.sha && host.decode(s.local.value).Some?
  }

  ghost predicate NameText(s: string) {
    s != [] && forall i :: 0 <= i < |s| ==>
      || 'a' <= s[i] <= 'z' || 'A' <= s[i] <= 'Z' || '0' <= s[i] <= '9' || s[i] == '_' || s[i] == '.' || s[i] == '-'
  }

  ghost predicate TwoNames(s: string) {
    exists owner, name :: s == owner + "/" + name && NameText(owner) && NameText(name)
  }

  lemma RepositoryExactly(s: string)
    ensures IsRepository(s) <==> TwoNames(s)
  {
    if i :| 0 < i < |s| - 1 && s[i] == '/' && forall j :: 0 <= j < |s| && j != i ==> NameCharacter(s[j]) {
      var owner, name := s[..i], s[i + 1..];
      assert NameText(owner) && NameText(name);
      assert s == owner + "/" + name;
    }
    if owner, name :| s == owner + "/" + name && NameText(owner) && NameText(name) {
      var i := |owner|;
      forall j | 0 <= j < |s| && j != i ensures NameCharacter(s[j]) {
        assert s[j] == if j < i then owner[j] else name[j - i - 1];
      }
      assert s[i] == '/';
    }
  }

  /** A document of the cache: it decodes, and no uncached read gives another. */
  ghost predicate Consistent<D>(host: Host<D>, b: Binding, raw: bytes) {
    IsSha(b.revision) && host.decode(raw).Some? && (Fetch(host, b).Ok? ==> Fetch(host, b).value == raw)
  }

  /** Every stored document is consistent, and is what an uncached read gives unless it was seeded. */
  ghost predicate Truthful<D>(host: Host<D>, values: map<Binding, bytes>, seeded: set<Binding>) {
    && (forall b :: b in values ==> Consistent(host, b, values[b]))
    && (forall b :: b in values && b !in seeded ==> Fetch(host, b) == Ok(values[b]))
  }

  lemma SeedIsTruthful<D>(host: Host<D>, values: map<Binding, bytes>, seeded: set<Binding>, b: Binding, s: Seeding)
    requires Truthful(host, values, seeded) && Trusted(host, b, s) && s.local.Some?
    requires IsSha(b.revision) && host.hash(s.local.value) == s.entry.sha && host.decode(s.local.value).Some?
    ensures Truthful(host, values[b := s.local.value], seeded + {b})
  {
    if Fetch(host, b).Ok? {
      FetchedIsAuthentic(host, b);
    }
  }

  lemma EmptyIsTruthful<D>(host: Host<D>)
    ensures Truthful(host, map[], {})
  {
  }

  class Documents {
    var values: map<Binding, bytes>
    var used: nat

    /** The bindings whose bytes came from a local file. */
    ghost var seeded: set<Binding>

    ghost predicate Valid()
      reads this
    {
      && used == Total(values) && used <= DOCUMENT_BYTES && |values| <= DOCUMENT_ENTRIES
      && seeded <= values.Keys
    }

    ghost predicate Faithful<D>(host: Host<D>)
      reads this
    {
      Truthful(host, values, seeded)
    }

    constructor ()
      ensures Valid() && values == map[] && seeded == {}
    {
      values, used, seeded := map[], 0, {};
      new;
    }

    /** Stores the bytes unless other bytes are stored or there is no room. */
    method Remember(b: Binding, raw: bytes) returns (r: Result<bool, ReadError>)
      requires Valid()
      modifies this`values, this`used
      ensures Valid()
      ensures r == if b in old(values) then (if old(values)[b] == raw then Ok(true) else Err(Conflict))
                   else Ok(|old(values)| < 64 && old(used) + |raw| <= 16777216)
      ensures r == Ok(true) ==> values == old(values)[b := raw]
      ensures r != Ok(true) ==> values == old(values)
    {
      if b in values {
        assert values[b := values[b]] == values;
        return if values[b] != raw then Err(Conflict) else Ok(true);
      }
      if |values| >= DOCUMENT_ENTRIES || used + |raw| > DOCUMENT_BYTES {
        return Ok(false);
      }
      TotalAdd(values, b, raw);
      values, used := values[b := raw], used + |raw|;
      r := Ok(true);
    }

    /** Stores local bytes that a tree entry authenticates. */
    method Seed<D>(host: Host<D>, b: Binding, s: Seeding) returns (r: Result<bool, ReadError>)
      requires Valid() && Faithful(host) && Trusted(host, b, s)
      modifies this
      ensures Valid() && Faithful(host)
      ensures r == Ok(true) ==>
                s.local.Some? && values == old(values)[b := s.local.value] && seeded <= old(seeded) + {b}
      ensures r != Ok(true) ==> values == old(values) && seeded == old(seeded)
      ensures |old(values)| >= 64 || old(used) >= 16777216 ==> r == Ok(false)
      ensures |old(values)| < 64 && old(used) < 16777216 && Genuine(host, b, s) ==>
                var raw := s.local.value;
                r == if b in old(values) then (if old(values)[b] == raw then Ok(true) else Err(Conflict))
                     else Ok(old(used) + |raw| <= 16777216)
      ensures |old(values)| < 64 && old(used) < 16777216 && !Genuine(host, b, s) ==> r.Err?
      ensures r == Ok(true) ==>
        |s.local.value| == s.entry.size && host.hash(s.local.value) == s.entry.sha && host.decode(s.local.value).Some?
    {
      if |values| >= DOCUMENT_ENTRIES || used >= DOCUMENT_BYTES {
        return Ok(false);
      }
      RepositoryExactly(b.repository);
      hide TwoNames, IsRepository;
      if !IsRepository(b.repository) || !IsSha(b.revision) || !s.entry.valid
         || !(0 < s.entry.size <= MAX_DOCUMENT) || !IsSha(s.entry.sha) {
        return Err(InvalidEntry);
      }
      if s.local.None? {
        return Err(InvalidEntry);
      }
      var raw := s.local.value;
      if |raw| != s.entry.size || host.hash(raw) != s.entry.sha || host.decode(raw).None? {
        return Err(LocalDiffers);
      }
      hide Fetch, IsSha, Truthful, Total;
      SeedIsTruthful(host, values, seeded, b, s);
      ghost var same := b in values && values[b] == raw;
      assert same ==> values[b := raw] == values;
      r := Remember(b, raw);
      if r == Ok(true) && !same {
        seeded := seeded + {b};
      }
    }

    /**
     * Reads a document, from the cache where it is stored. It is not what an uncached read
     * gives exactly when the document is stored and the uncached read fails.
     */
    method DocumentAt<D>(host: Host<D>, b: Binding) returns (r: Result<D, ReadError>)
      requires Valid() && Faithful(host)
      modifies this`values, this`used
      ensures Valid() && Faithful(host)
      ensures r != Uncached(host, b) <==> b in old(values) && Uncached(host, b).Err?
      ensures r != Uncached(host, b) ==> r.Ok? && host.decode(old(values)[b]) == Some(r.value)
      ensures values == old(values)
              || (b !in old(values) && Fetch(host, b).Ok? && values == old(values)[b := Fetch(host, b).value])
    {
      if !IsSha(b.revision) {
        return Err(InvalidRevision);
      }
      if b in values {
        StoredReads(host, b, values[b]);
        return Ok(host.decode(values[b]).value);
      }
      var fetched := Fetch(host, b);
      if fetched.Err? {
        return Err(fetched.error);
      }
      FetchedIsAuthentic(host, b);
      var document := host.decode(fetched.value).value;
      var stored := Remember(b, fetched.value);
      r := if stored.Err? then Err(InvalidBlob) else Ok(document);
    }

    /** One operation of a reconciliation. */
    method Perform<D>(host: Host<D>, operation: Operation) returns (outcome: Outcome<D>)
      requires Valid() && Faithful(host)
      requires operation.Seed? ==> Trusted(host, operation.binding, operation.seeding)
      modifies this
      ensures Valid() && Faithful(host) && Performed(host, old(values), values, operation, outcome)
    {
      hide Fetch, Uncached, Truthful, Total, Trusted;
      if operation.Seed? {
        var stored := Seed(host, operation.binding, operation.seeding);
        outcome := Seeded(stored);
      } else {
        var document := DocumentAt(host, operation.binding);
        if operation.binding in values {
          TruthfulReads(host, values, seeded, operation.binding);
        }
        outcome := Document(document);
      }
    }
  }

  datatype Operation = Seed(binding: Binding, seeding: Seeding) | Read(binding: Binding)

  datatype Outcome<D> = Seeded(stored: Result<bool, ReadError>) | Document(document: Result<D, ReadError>)

  /** What one operation does to the stored documents, and what it gives. */
  ghost predicate Performed<D>(host: Host<D>, before: map<Binding, bytes>, after: map<Binding, bytes>,
                               operation: Operation, x: Outcome<D>)
  {
    var b := operation.binding;
    && before.Keys <= after.Keys <= before.Keys + {b}
    && (operation.Seed? ==>
          x.Seeded? && (if x.stored == Ok(true) then b in after else after == before))
    && (operation.Read? ==>
          && x.Document? && (b in after && b !in before ==> Uncached(host, b).Ok?)
          && (x.document != Uncached(host, b) <==> b in before && Uncached(host, b).Err?)
          && (x.document.Err? ==> x.document == Uncached(host, b)))
  }

  lemma StoredReads<D>(host: Host<D>, b: Binding, raw: bytes)
    requires Consistent(host, b, raw)
    ensures host.decode(raw).Some? && (Uncached(host, b).Ok? ==> Uncached(host, b) == Ok(host.decode(raw).value))
    ensures Uncached(host, b).Err? <==> Fetch(host, b).Err?
  {
    if Fetch(host, b).Ok? {
      FetchedIsAuthentic(host, b);
    }
  }

  // ----- A whole reconciliation -----

  /** One of the first `n` operations stored local bytes under the binding. */
  ghost predicate SeededBefore<D>(operations: seq<Operation>, outcomes: seq<Outcome<D>>, n: nat, b: Binding)
    requires n <= |operations| && n <= |outcomes|
  {
    exists j :: 0 <= j < n && operations[j].Seed? && operations[j].binding == b && outcomes[j] == Seeded(Ok(true))
  }

  /**
   * Any sequence of seeds and reads in one fresh cache. A read gives what the uncached read
   * gives, except exactly where that fails and an earlier operation has seeded the binding.
   */
  method Reconcile<D>(host: Host<D>, operations: seq<Operation>) returns (outcomes: seq<Outcome<D>>)
    requires forall o :: o in operations && o.Seed? ==> Trusted(host, o.binding, o.seeding)
    ensures |outcomes| == |operations|
    ensures forall i :: 0 <= i < |outcomes| ==> (outcomes[i].Document? <==> operations[i].Read?)
    ensures forall i :: 0 <= i < |outcomes| && operations[i].Read? ==>
              var b := operations[i].binding;
              && (outcomes[i].document == Uncached(host, b)
                  <==> !(Uncached(host, b).Err? && SeededBefore(operations, outcomes, i, b)))
              && (outcomes[i].document.Err? ==> outcomes[i].document == Uncached(host, b))
  {
    hide Fetch, Uncached, Truthful, Total, Trusted, SeededBefore;
    var documents := new Documents();
    EmptyIsTruthful(host);
    outcomes := [];
    NothingSeeded(host, operations, outcomes);
    for n := 0 to |operations|
      invariant documents.Valid() && documents.Faithful(host) && fresh(documents)
      invariant |outcomes| == n && SeedsKnown(host, documents.values, operations, outcomes)
      invariant forall i :: 0 <= i < n ==> (outcomes[i].Document? <==> operations[i].Read?)
      invariant forall i :: 0 <= i < n && operations[i].Read? ==> ReadOk(host, operations, outcomes, i)
    {
      ghost var before := documents.values;
      assert operations[n] in operations;
      var outcome := documents.Perform(host, operations[n]);
      NextOutcome(host, before, documents.values, operations, outcomes, outcome);
      outcomes := outcomes + [outcome];
    }
  }

  ghost predicate ReadOk<D>(host: Host<D>, operations: seq<Operation>, outcomes: seq<Outcome<D>>, i: nat)
    requires i < |operations| && i < |outcomes| && outcomes[i].Document?
  {
    var b, r := operations[i].binding, outcomes[i].document;
    && (r == Uncached(host, b) <==> !(Uncached(host, b).Err? && SeededBefore(operations, outcomes, i, b)))
    && (r.Err? ==> r == Uncached(host, b))
  }

  /** What is stored was seeded or can be read, and all that was seeded is stored. */
  ghost predicate SeedsKnown<D>(host: Host<D>, values: map<Binding, bytes>, operations: seq<Operation>,
                                outcomes: seq<Outcome<D>>)
    requires |outcomes| <= |operations|
  {
    && (forall b :: SeededBefore(operations, outcomes, |outcomes|, b) ==> b in values)
    && forall b :: b in values && Uncached(host, b).Err? ==> SeededBefore(operations, outcomes, |outcomes|, b)
  }

  lemma NothingSeeded<D>(host: Host<D>, operations: seq<Operation>, outcomes: seq<Outcome<D>>)
    requires outcomes == []
    ensures SeedsKnown(host, map[], operations, outcomes)
  {
  }

  lemma TruthfulReads<D>(host: Host<D>, values: map<Binding, bytes>, seeded: set<Binding>, b: Binding)
    requires Truthful(host, values, seeded) && b in values
    ensures Uncached(host, b).Err? <==> Fetch(host, b).Err?
  {
    StoredReads(host, b, values[b]);
  }

  lemma SeededAppend<D>(operations: seq<Operation>, outcomes: seq<Outcome<D>>, x: Outcome<D>, i: nat, b: Binding)
    requires i <= |outcomes| < |operations|
    ensures SeededBefore(operations, outcomes + [x], i, b) <==> SeededBefore(operations, outcomes, i, b)
    ensures SeededBefore(operations, outcomes + [x], |outcomes| + 1, b)
       <==> SeededBefore(operations, outcomes, |outcomes|, b)
            || (operations[|outcomes|].Seed? && operations[|outcomes|].binding == b && x == Seeded(Ok(true)))
  {
    var n, all := |outcomes|, outcomes + [x];
    assert all[n] == x && forall j :: 0 <= j < n ==> all[j] == outcomes[j];
    if SeededBefore(operations, outcomes, n, b) {
      var j :| 0 <= j < n && operations[j].Seed? && operations[j].binding == b && outcomes[j] == Seeded(Ok(true));
      assert all[j] == Seeded(Ok(true));
    }
  }

  /** One more outcome: a seed stores its binding if it says so, a read only what it can fetch. */
  lemma NextOutcome<D>(host: Host<D>, before: map<Binding, bytes>, after: map<Binding, bytes>,
                       operations: seq<Operation>, outcomes: seq<Outcome<D>>, x: Outcome<D>)
    requires |outcomes| < |operations| && SeedsKnown(host, before, operations, outcomes)
    requires forall i :: 0 <= i < |outcomes| ==> (outcomes[i].Document? <==> operations[i].Read?)
    requires forall i :: 0 <= i < |outcomes| && operations[i].Read? ==> ReadOk(host, operations, outcomes, i)
    requires Performed(host, before, after, operations[|outcomes|], x)
    ensures SeedsKnown(host, after, operations, outcomes + [x])
    ensures forall i :: 0 <= i <= |outcomes| && operations[i].Read? ==>
              (outcomes + [x])[i].Document? && ReadOk(host, operations, outcomes + [x], i)
  {
    hide Uncached, SeededBefore;
    var n, all := |outcomes|, outcomes + [x];
    forall b, i: nat | i <= n
      ensures SeededBefore(operations, all, i, b) <==> SeededBefore(operations, outcomes, i, b)
    {
      SeededAppend(operations, outcomes, x, i, b);
    }
    forall b
      ensures SeededBefore(operations, all, n + 1, b)
         <==> SeededBefore(operations, outcomes, n, b)
              || (operations[n].Seed? && operations[n].binding == b && x == Seeded(Ok(true)))
    {
      SeededAppend(operations, outcomes, x, n, b);
    }
    forall i | 0 <= i < n && operations[i].Read? ensures ReadOk(host, operations, all, i) {
      assert all[i] == outcomes[i] && ReadOk(host, operations, outcomes, i);
    }
  }
}
