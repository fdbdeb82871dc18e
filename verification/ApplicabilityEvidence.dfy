/**
 * Go build information in ELF files, scripts/ci/applicability-evidence.py: inline strings
 * with base-128 lengths, and the load segment that maps the build-info section.
 */
module ApplicabilityEvidence {
  import opened Wrappers
  import opened Bytes

  const MAX_METADATA := 1024 * 1024
  const MAX_GROUPS := 10
  const HEADER := 32
  const MAGIC: bytes := [0xff, 0x20, 0x47, 0x6f, 0x20, 0x62, 0x75, 0x69, 0x6c, 0x64, 0x69, 0x6e, 0x66, 0x3a]
  const FLAGS: bytes := [8, 2]

  datatype EvidenceError =
    | OutOfBounds | Truncated | Overflowed | Unterminated | ExceedsSection
    | InvalidSegment | NotMapped | AmbiguousHeader | UnsupportedFlags

  // ----- Base-128 lengths -----

  function Pow128(k: nat): (p: nat)
    ensures p >= 1
  {
    if k == 0 then 1 else 128 * Pow128(k - 1)
  }

  /** The encoding of `n` in exactly `k` groups, padded with empty groups where `k` asks for more. */
  function Encode(n: nat, k: nat): (s: bytes)
    requires k > 0 && n < Pow128(k)
    ensures |s| == k
  {
    if k == 1 then [n] else [n % 128 + 128] + Encode(n / 128, k - 1)
  }

  /** The number the groups from `index` on encode, and the number of groups in all. */
  function LengthFrom(raw: bytes, position: nat, index: nat): (r: Result<(nat, nat), EvidenceError>)
    requires index <= MAX_GROUPS
    ensures r.Ok? ==> index < r.value.1 <= MAX_GROUPS && position + r.value.1 <= |raw|
    decreases MAX_GROUPS - index
  {
    if index == MAX_GROUPS then Err(Unterminated)
    else if position + index >= |raw| then Err(Truncated)
    else
      var value := raw[position + index];
      if index == MAX_GROUPS - 1 && value > 1 then Err(Overflowed)
      else if value < 128 then Ok((value, index + 1))
      else
        match LengthFrom(raw, position, index + 1)
        case Err(e) => Err(e)
        case Ok((rest, groups)) => Ok((value % 128 + 128 * rest, groups))
  }

  /** One more than the largest number that the groups from `index` on can encode. */
  function Bound(index: nat): nat
    requires index < MAX_GROUPS
  {
    2 * Pow128(MAX_GROUPS - 1 - index)
  }

  ghost predicate Encodes(raw: bytes, position: nat, index: nat, n: nat, groups: nat) {
    && index < groups <= MAX_GROUPS && n < Bound(index) && n < Pow128(groups - index)
    && position + groups <= |raw| && raw[position + index..position + groups] == Encode(n, groups - index)
  }

  lemma SmallerDigit(n: nat, bound: nat)
    ensures n < 128 * bound <==> n / 128 < bound
  {
  }

  lemma BoundStep(index: nat)
    requires index < MAX_GROUPS - 1
    ensures Bound(index) == 128 * Bound(index + 1) && Bound(index) >= 128
  {
  }

  lemma EncodesLast(raw: bytes, position: nat, index: nat, n: nat)
    requires index < MAX_GROUPS
    ensures Encodes(raw, position, index, n, index + 1)
            <==> position + index < |raw| && raw[position + index] == n && n < 128 && n < Bound(index)
  {
    hide Bound;
    assert Pow128(1) == 128 * Pow128(0);
    if position + index < |raw| {
      assert raw[position + index..position + index + 1] == [raw[position + index]];
    }
  }

  lemma EncodesMore(raw: bytes, position: nat, index: nat, n: nat, groups: nat)
    requires index + 1 < groups <= MAX_GROUPS && position + groups <= |raw|
    ensures Encodes(raw, position, index, n, groups)
            <==> raw[position + index] == n % 128 + 128 && Encodes(raw, position, index + 1, n / 128, groups)
  {
    var tail := raw[position + index + 1..position + groups];
    assert raw[position + index..position + groups] == [raw[position + index]] + tail;
    BoundStep(index);
    SmallerDigit(n, Bound(index + 1));
    SmallerDigit(n, Pow128(groups - index - 1));
    assert Pow128(groups - index) == 128 * Pow128(groups - index - 1);
    hide Bound, Pow128;
    if n < 128 * Pow128(groups - index - 1) {
      EncodeMore(n, groups - index, raw[position + index], tail);
    }
  }

  lemma EncodeMore(n: nat, k: nat, value: byte, tail: bytes)
    requires k > 1 && n < Pow128(k) && n / 128 < Pow128(k - 1)
    ensures [value] + tail == Encode(n, k) <==> value == n % 128 + 128 && tail == Encode(n / 128, k - 1)
  {
    var code := [n % 128 + 128] + Encode(n / 128, k - 1);
    assert Encode(n, k) == code;
    assert ([value] + tail)[0] == value && ([value] + tail)[1..] == tail;
    assert code[0] == n % 128 + 128 && code[1..] == Encode(n / 128, k - 1);
  }

  /** The decoder accepts exactly the encodings of at most ten groups of numbers in bounds. */
  lemma {:induction false} LengthExactly(raw: bytes, position: nat, index: nat, n: nat, groups: nat)
    requires index < MAX_GROUPS
    ensures LengthFrom(raw, position, index) == Ok((n, groups)) <==> Encodes(raw, position, index, n, groups)
    decreases MAX_GROUPS - index
  {
    hide LengthFrom, Bound;
    if index < groups <= MAX_GROUPS && position + groups <= |raw| {
      if groups == index + 1 {
        EncodesLast(raw, position, index, n);
        LengthLast(raw, position, index, n);
      } else {
        EncodesMore(raw, position, index, n, groups);
        LengthMore(raw, position, index, n, groups);
        LengthExactly(raw, position, index + 1, n / 128, groups);
      }
      hide Encodes;
    }
  }

  lemma LengthLast(raw: bytes, position: nat, index: nat, n: nat)
    requires index < MAX_GROUPS && position + index < |raw|
    ensures LengthFrom(raw, position, index) == Ok((n, index + 1))
            <==> raw[position + index] == n && n < 128 && n < Bound(index)
  {
    LastGroup(index);
  }

  lemma LengthMore(raw: bytes, position: nat, index: nat, n: nat, groups: nat)
    requires index + 1 < groups <= MAX_GROUPS && position + groups <= |raw|
    ensures LengthFrom(raw, position, index) == Ok((n, groups))
            <==> raw[position + index] == n % 128 + 128 && LengthFrom(raw, position, index + 1) == Ok((n / 128, groups))
  {
  }

  lemma LastGroup(index: nat)
    requires index < MAX_GROUPS
    ensures if index == MAX_GROUPS - 1 then Bound(index) == 2 else Bound(index) >= 128
  {
    if index < MAX_GROUPS - 1 {
      BoundStep(index);
    }
  }

  // ----- Inline strings -----

  /** Reads a length-prefixed string, and the position after it. */
  method InlineString(raw: bytes, start: nat) returns (r: Result<(bytes, nat), EvidenceError>)
    ensures r == Inline(raw, start)
  {
    hide LengthFrom, Progress;
    ProgressStart(raw, start);
    var length: nat, weight: nat := 0, 1;
    for index := 0 to MAX_GROUPS
      invariant Progress(raw, start, index, length, weight)
    {
      ProgressStep(raw, start, index, length, weight);
      if start + index >= |raw| {
        return Err(Truncated);
      }
      var value := raw[start + index];
      if index == MAX_GROUPS - 1 && value > 1 {
        return Err(Overflowed);
      }
      length := Longer(length, value, weight);
      weight := 128 * weight;
      if value < 128 {
        var position := start + index + 1;
        if length > MAX_METADATA || length > |raw| - position {
          return Err(ExceedsSection);
        }
        return Ok((raw[position..position + length], position + length));
      }
    }
    ProgressEnd(raw, start, MAX_GROUPS, length, weight);
    r := Err(Unterminated);
  }

  /** The length so far, and the weight of the next group. */
  ghost predicate Progress(raw: bytes, start: nat, index: nat, length: nat, weight: nat)
    requires index <= MAX_GROUPS
  {
    LengthFrom(raw, start, 0) == Weighed(length, weight, LengthFrom(raw, start, index))
  }

  lemma ProgressStart(raw: bytes, start: nat)
    ensures Progress(raw, start, 0, 0, 1)
  {
    hide LengthFrom;
  }

  lemma ProgressEnd(raw: bytes, start: nat, index: nat, length: nat, weight: nat)
    requires index <= MAX_GROUPS && Progress(raw, start, index, length, weight)
    ensures index == MAX_GROUPS ==> LengthFrom(raw, start, 0) == Err(Unterminated)
  {
  }

  lemma ProgressStep(raw: bytes, start: nat, index: nat, length: nat, weight: nat)
    requires index < MAX_GROUPS && Progress(raw, start, index, length, weight)
    ensures var all := LengthFrom(raw, start, 0);
            if start + index >= |raw| then all == Err(Truncated)
            else
              var value := raw[start + index];
              var longer := Longer(length, value, weight);
              if index == MAX_GROUPS - 1 && value > 1 then all == Err(Overflowed)
              else if value < 128 then all == Ok((longer, index + 1))
              else Progress(raw, start, index + 1, longer, 128 * weight)
  {
    hide Weighed;
    WeighedError(length, weight);
    if start + index < |raw| {
      var value := raw[start + index];
      if value < 128 {
        WeighedLast(length, weight, value, index + 1);
      }
      if value >= 128 && index < MAX_GROUPS - 1 {
        WeighedStep(length, weight, value, LengthFrom(raw, start, index + 1));
      }
    }
  }

  /** The groups occupy disjoint bits, so adding one is the disjunction of the source. */
  function Longer(length: nat, value: byte, weight: nat): nat {
    length + value % 128 * weight
  }

  function Weighed(length: nat, weight: nat, rest: Result<(nat, nat), EvidenceError>)
    : Result<(nat, nat), EvidenceError>
  {
    match rest
    case Err(e) => Err(e)
    case Ok((n, groups)) => Ok((length + weight * n, groups))
  }

  lemma WeighedError(length: nat, weight: nat)
    ensures forall e :: Weighed(length, weight, Err(e)) == Err(e)
  {
  }

  lemma WeighedLast(length: nat, weight: nat, value: byte, groups: nat)
    requires value < 128
    ensures Weighed(length, weight, Ok((value, groups))) == Ok((Longer(length, value, weight), groups))
  {
    assert value % 128 == value;
  }

  lemma WeighedStep(length: nat, weight: nat, value: byte, rest: Result<(nat, nat), EvidenceError>)
    ensures var head := if rest.Err? then rest else Ok((value % 128 + 128 * rest.value.0, rest.value.1));
            Weighed(length, weight, head) == Weighed(Longer(length, value, weight), 128 * weight, rest)
  {
    if rest.Ok? {
      var n := rest.value.0;
      assert weight * (value % 128 + 128 * n) == value % 128 * weight + 128 * weight * n;
    }
  }

  /** A tenth group either ends the number or overflows it: the decoder never runs out of groups. */
  lemma {:induction false} NeverUnterminated(raw: bytes, position: nat, index: nat)
    requires index < MAX_GROUPS
    ensures LengthFrom(raw, position, index) != Err(Unterminated)
    decreases MAX_GROUPS - index
  {
    if index < MAX_GROUPS - 1 {
      NeverUnterminated(raw, position, index + 1);
    }
  }

  function Inline(raw: bytes, start: nat): Result<(bytes, nat), EvidenceError> {
    match LengthFrom(raw, start, 0)
    case Err(e) => Err(e)
    case Ok((length, groups)) =>
      var position := start + groups;
      if length > MAX_METADATA || length > |raw| - position then Err(ExceedsSection)
      else Ok((raw[position..position + length], position + length))
  }

  ghost predicate InlineAt(raw: bytes, start: nat, payload: bytes, next: nat, groups: nat) {
    && 1 <= groups <= 10 && |payload| <= 1048576 && |payload| < Pow128(groups)
    && next == start + groups + |payload| <= |raw|
    && raw[start..next] == Encode(|payload|, groups) + payload
  }

  /** Exactly the encoded strings are read, with up to ten groups of length, padded or not. */
  lemma InlineExactly(raw: bytes, start: nat, payload: bytes, next: nat)
    ensures Inline(raw, start) == Ok((payload, next))
       <==> exists groups: nat :: InlineAt(raw, start, payload, next, groups)
  {
    hide LengthFrom, Encode;
    if Inline(raw, start) == Ok((payload, next)) {
      var (n, groups) := LengthFrom(raw, start, 0).value;
      LengthExactly(raw, start, 0, n, groups);
      CutAt(raw, start, start + groups, next);
      assert InlineAt(raw, start, payload, next, groups);
    }
    if exists groups: nat :: InlineAt(raw, start, payload, next, groups) {
      var groups: nat :| InlineAt(raw, start, payload, next, groups);
      CutAt(raw, start, start + groups, next);
      SameParts(raw[start..start + groups], raw[start + groups..next], Encode(|payload|, groups), payload);
      BoundIsLarge();
      LengthExactly(raw, start, 0, |payload|, groups);
    }
  }

  lemma CutAt(raw: bytes, i: nat, j: nat, k: nat)
    requires i <= j <= k <= |raw|
    ensures raw[i..k] == raw[i..j] + raw[j..k]
  {
  }

  lemma SameParts(a: bytes, b: bytes, c: bytes, d: bytes)
    requires a + b == c + d && |a| == |c|
    ensures a == c && b == d
  {
    assert (a + b)[..|a|] == a && (a + b)[|a|..] == b;
    assert (c + d)[..|c|] == c && (c + d)[|c|..] == d;
  }

  lemma BoundIsLarge()
    ensures Bound(0) == 0x1_0000_0000_0000_0000
  {
    assert Pow128(9) == 128 * (128 * (128 * Pow128(6)));
    assert Pow128(6) == 128 * (128 * (128 * Pow128(3)));
    assert Pow128(3) == 128 * (128 * (128 * Pow128(0)));
  }

  lemma MiddleOf(a: bytes, b: bytes, c: bytes, d: bytes)
    ensures (a + b + c + d)[|a|..|a| + |b| + |c|] == b + c
  {
  }

  /** A string written after any prefix, in any admissible number of groups, is read back. */
  lemma InlineRoundTrip(prefix: bytes, payload: bytes, groups: nat, suffix: bytes)
    requires |payload| <= MAX_METADATA && 1 <= groups <= MAX_GROUPS && |payload| < Pow128(groups)
    ensures Inline(prefix + Encode(|payload|, groups) + payload + suffix, |prefix|)
            == Ok((payload, |prefix| + groups + |payload|))
  {
    var raw := prefix + Encode(|payload|, groups) + payload + suffix;
    var next := |prefix| + groups + |payload|;
    MiddleOf(prefix, Encode(|payload|, groups), payload, suffix);
    assert InlineAt(raw, |prefix|, payload, next, groups);
    hide *;
    InlineExactly(raw, |prefix|, payload, next);
  }

  /** Every length the decoder computes fits in 64 bits, and every such length is decoded. */
  lemma LengthsAre64Bit(raw: bytes, position: nat, n: nat, groups: nat)
    ensures LengthFrom(raw, position, 0) == Ok((n, groups)) ==> n < 0x1_0000_0000_0000_0000
    ensures 1 <= groups <= MAX_GROUPS && n < 0x1_0000_0000_0000_0000 && n < Pow128(groups)
            && position + groups <= |raw| && raw[position..position + groups] == Encode(n, groups)
            ==> LengthFrom(raw, position, 0) == Ok((n, groups))
  {
    BoundIsLarge();
    LengthExactly(raw, position, 0, n, groups);
    assert position + 0 == position;
  }

  // ----- Regions of the file -----

  /** `length` bytes at `offset`; the stream may have fewer bytes than the `size` it was given. */
  function Region(stream: bytes, offset: int, length: int, size: nat): Result<bytes, EvidenceError> {
    if offset < 0 || !(0 < length <= MAX_METADATA) || offset > size || length > size - offset then Err(OutOfBounds)
    else if offset + length > |stream| then Err(Truncated)
    else Ok(stream[offset..offset + length])
  }

  /** Which regions can be read, and what they hold. */
  lemma RegionExactly(stream: bytes, offset: int, length: int, size: nat, raw: bytes)
    ensures Region(stream, offset, length, size) == Ok(raw) <==>
              && 0 <= offset && 0 < length <= 1048576 && offset + length <= size && offset + length <= |stream|
              && raw == stream[offset..offset + length]
  {
  }

  // ----- The segment that maps a section -----

  const LOAD := 1
  const TOP := 0x1_0000_0000_0000_0000

  datatype Program = Program(kind: nat, offset: nat, address: nat, fileSize: nat, memorySize: nat)
  datatype Section = Section(address: nat, offset: nat, size: nat)

  predicate ValidLoad(p: Program, size: nat) {
    p.offset <= size && p.fileSize <= size - p.offset && p.memorySize >= p.fileSize && p.address + p.memorySize < TOP
  }

  /** The section's addresses lie in the file-backed part of the load segment. */
  predicate Maps(p: Program, s: Section) {
    p.kind == LOAD && p.address <= s.address && s.address + s.size <= p.address + p.fileSize
  }

  /** The file holds the byte that the loader puts at an address. */
  ghost predicate FromFile(p: Program, address: int) {
    p.kind == 1 && p.address <= address < p.address + p.fileSize
  }

  /** A segment maps a section exactly if the file holds the byte of each of the section's addresses. */
  lemma SegmentExactly(p: Program, s: Section, size: nat)
    ensures ValidLoad(p, size)
            <==> p.offset + p.fileSize <= size && p.fileSize <= p.memorySize
                 && p.address + p.memorySize <= 0xffff_ffff_ffff_ffff
    ensures s.size > 0 ==> (Maps(p, s) <==> forall a :: s.address <= a < s.address + s.size ==> FromFile(p, a))
  {
    if s.size > 0 && forall a :: s.address <= a < s.address + s.size ==> FromFile(p, a) {
      assert FromFile(p, s.address) && FromFile(p, s.address + s.size - 1);
    }
  }

  /** The file offsets that the first `n` program headers give the section. */
  function Mapped(programs: seq<Program>, n: nat, s: Section): seq<int>
    requires n <= |programs|
  {
    if n == 0 then []
    else
      var p := programs[n - 1];
      Mapped(programs, n - 1, s) + if Maps(p, s) then [p.offset + s.address - p.address] else []
  }

  ghost predicate ValidLoads(programs: seq<Program>, n: nat, size: nat)
    requires n <= |programs|
  {
    forall i :: 0 <= i < n && programs[i].kind == LOAD ==> ValidLoad(programs[i], size)
  }

  /** The bytes of the section, if exactly the right segment maps it. */
  method MappedSection(stream: bytes, size: nat, programs: seq<Program>, s: Section)
    returns (r: Result<bytes, EvidenceError>)
    ensures r.Ok? <==>
              && ValidLoads(programs, |programs|, size) && Mapped(programs, |programs|, s) == [s.offset]
              && Region(stream, s.offset, s.size, size).Ok?
    ensures r.Ok? ==> r == Region(stream, s.offset, s.size, size)
  {
    var mapped: seq<int> := [];
    for n := 0 to |programs|
      invariant ValidLoads(programs, n, size)
      invariant mapped == Mapped(programs, n, s)
    {
      var p := programs[n];
      if p.kind == LOAD
         && (p.offset > size || p.fileSize > size - p.offset || p.memorySize < p.fileSize
             || p.address + p.memorySize >= TOP)
      {
        return Err(InvalidSegment);
      }
      if p.kind == LOAD && p.address <= s.address && s.address - p.address <= p.fileSize
         && s.size <= p.fileSize - (s.address - p.address) {
        mapped := mapped + [p.offset + s.address - p.address];
      }
    }
    if mapped != [s.offset] {
      return Err(NotMapped);
    }
    r := Region(stream, s.offset, s.size, size);
  }

  /** Exactly one segment maps the section, and it places it at the section's file offset. */
  ghost predicate MappedBy(programs: seq<Program>, n: nat, s: Section, i: nat)
    requires n <= |programs|
  {
    && i < n && Maps(programs[i], s) && s.offset == programs[i].offset + s.address - programs[i].address
    && forall j :: 0 <= j < n && Maps(programs[j], s) ==> j == i
  }

  lemma {:induction false} MappedNone(programs: seq<Program>, n: nat, s: Section)
    requires n <= |programs|
    ensures Mapped(programs, n, s) == [] <==> forall j :: 0 <= j < n ==> !Maps(programs[j], s)
  {
    if n > 0 {
      MappedNone(programs, n - 1, s);
    }
  }

  ghost predicate MappedOnce(programs: seq<Program>, n: nat, s: Section)
    requires n <= |programs|
  {
    exists i: nat :: MappedBy(programs, n, s, i)
  }

  /** The offsets found are the section's own, alone, exactly when one segment places it there. */
  lemma {:induction false} MappedExactly(programs: seq<Program>, n: nat, s: Section)
    requires n <= |programs|
    ensures Mapped(programs, n, s) == [s.offset] <==> MappedOnce(programs, n, s)
  {
    if n > 0 {
      MappedNone(programs, n - 1, s);
      MappedExactly(programs, n - 1, s);
      MappedOnceStep(programs, n, s);
      LastOnly(Mapped(programs, n - 1, s), programs[n - 1].offset + s.address - programs[n - 1].address, s.offset);
    }
  }

  lemma LastOnly(before: seq<int>, x: int, y: int)
    ensures before + [x] == [y] <==> before == [] && x == y
    ensures before + [] == before
  {
    if before + [x] == [y] {
      assert |before| == 0 && (before + [x])[0] == x;
    }
  }

  lemma MappedOnceStep(programs: seq<Program>, n: nat, s: Section)
    requires 0 < n <= |programs|
    ensures MappedOnce(programs, n, s)
            <==> if Maps(programs[n - 1], s) then MappedBy(programs, n, s, n - 1) else MappedOnce(programs, n - 1, s)
  {
    if MappedOnce(programs, n, s) {
      var i: nat :| MappedBy(programs, n, s, i);
      assert i < n - 1 && !Maps(programs[n - 1], s) ==> MappedBy(programs, n - 1, s, i);
    }
    if MappedOnce(programs, n - 1, s) && !Maps(programs[n - 1], s) {
      var i: nat :| MappedBy(programs, n - 1, s, i);
      assert MappedBy(programs, n, s, i);
    }
  }

  /** What the loader puts at a segment's addresses from the file. */
  function LoadedBytes(stream: bytes, p: Program): bytes
    requires p.offset + p.fileSize <= |stream|
  {
    stream[p.offset..p.offset + p.fileSize]
  }

  /**
   * The bytes accepted for the section are the ones loaded at its address, by the only segment
   * that maps it, and they lie inside that segment's part of the file.
   */
  lemma AcceptedSectionIsLoaded(stream: bytes, programs: seq<Program>, s: Section, raw: bytes) returns (i: nat)
    requires ValidLoads(programs, |programs|, |stream|) && Mapped(programs, |programs|, s) == [s.offset]
    requires Region(stream, s.offset, s.size, |stream|) == Ok(raw)
    ensures MappedBy(programs, |programs|, s, i)
    ensures var p := programs[i];
            && p.kind == 1 && s.offset - p.offset == s.address - p.address
            && p.offset <= s.offset && s.offset + s.size <= p.offset + p.fileSize <= |stream|
            && raw == LoadedBytes(stream, p)[s.address - p.address..s.address - p.address + s.size]
  {
    hide Mapped;
    MappedExactly(programs, |programs|, s);
    i :| MappedBy(programs, |programs|, s, i);
    var p, from := programs[i], s.address - programs[i].address;
    assert p.kind == LOAD && ValidLoad(p, |stream|);
    SliceOfSlice(stream, p.offset, p.offset + p.fileSize, from, from + s.size);
  }

  lemma SliceOfSlice(s: bytes, i: nat, j: nat, m: nat, n: nat)
    requires i <= j <= |s| && m <= n <= j - i
    ensures s[i..j][m..n] == s[i + m..i + n]
  {
    var outer := s[i..j];
    var inner, direct := outer[m..n], s[i + m..i + n];
    forall k | 0 <= k < n - m ensures inner[k] == direct[k] {
      assert inner[k] == outer[m + k] == s[i + m + k];
    }
    assert inner == direct;
  }

  // ----- The build-info header -----

  lemma MagicExactly()
    ensures MAGIC[0] == 255 && |MAGIC| == 14 && forall i :: 1 <= i < 14 ==> MAGIC[i] == "? Go buildinf:"[i] as int
  {
  }

  predicate HeaderAt(raw: bytes, position: nat) {
    position % 16 == 0 && position + HEADER <= |raw| && raw[position..position + 14] == MAGIC
  }

  ghost predicate OnlyHeader(raw: bytes, position: nat) {
    HeaderAt(raw, position) && forall p: nat :: HeaderAt(raw, p) ==> p == position
  }

  /** The section holds one aligned header, its flags, and the two strings after it. */
  ghost predicate Holds(raw: bytes, header: nat, version: bytes, next: nat, modules: bytes, end: nat) {
    && OnlyHeader(raw, header)
    && raw[header + 14..header + 16] == [8, 2]
    && Inline(raw, header + HEADER) == Ok((version, next)) && Inline(raw, next) == Ok((modules, end))
  }

  /** The aligned headers below `limit`. */
  ghost predicate Collected(raw: bytes, limit: nat, positions: seq<nat>) {
    && (forall i :: 0 <= i < |positions| ==> HeaderAt(raw, positions[i]) && positions[i] < limit)
    && (forall i, j :: 0 <= i < j < |positions| ==> positions[i] < positions[j])
    && (forall p: nat :: HeaderAt(raw, p) && p < limit ==> p in positions)
  }

  method BuildStrings(raw: bytes) returns (r: Result<(bytes, bytes), EvidenceError>)
    ensures r.Ok? ==> exists header, next, end :: Holds(raw, header, r.value.0, next, r.value.1, end)
    ensures r.Err? ==> forall header, version, next, modules, end :: !Holds(raw, header, version, next, modules, end)
  {
    hide Inline;
    var positions: seq<nat> := [];
    var position: nat := 0;
    while position + HEADER <= |raw|
      invariant position % 16 == 0 && Collected(raw, position, positions)
    {
      CollectedStep(raw, position, positions);
      if raw[position..position + 14] == MAGIC {
        positions := positions + [position];
      }
      position := position + 16;
    }
    hide HeaderAt;
    CollectedAll(raw, position, positions);
    if |positions| != 1 {
      return Err(AmbiguousHeader);
    }
    var header := positions[0];
    if raw[header + 14..header + 16] != FLAGS {
      return Err(UnsupportedFlags);
    }
    var version := InlineString(raw, header + HEADER);
    if version.Err? {
      return Err(version.error);
    }
    var modules := InlineString(raw, version.value.1);
    if modules.Err? {
      return Err(modules.error);
    }
    assert Holds(raw, header, version.value.0, version.value.1, modules.value.0, modules.value.1);
    r := Ok((version.value.0, modules.value.0));
  }

  lemma CollectedStep(raw: bytes, position: nat, positions: seq<nat>)
    requires position % 16 == 0 && position + HEADER <= |raw| && Collected(raw, position, positions)
    ensures Collected(raw, position + 16, if HeaderAt(raw, position) then positions + [position] else positions)
  {
    HeadersAreAligned(raw);
    hide HeaderAt;
    forall p: nat | HeaderAt(raw, p) && p < position + 16 ensures p < position || p == position {
    }
  }

  lemma HeadersAreAligned(raw: bytes)
    ensures forall p: nat :: HeaderAt(raw, p) ==> p % 16 == 0
  {
  }

  lemma CollectedAll(raw: bytes, position: nat, positions: seq<nat>)
    requires Collected(raw, position, positions) && position + HEADER > |raw|
    ensures |positions| == 1 ==> OnlyHeader(raw, positions[0]) && positions[0] + HEADER <= |raw|
    ensures |positions| != 1 ==> forall p: nat :: !OnlyHeader(raw, p)
  {
    forall p: nat | HeaderAt(raw, p) ensures p in positions {
    }
    if |positions| >= 2 {
      assert HeaderAt(raw, positions[0]) && HeaderAt(raw, positions[1]) && positions[0] < positions[1];
    }
  }

  /** The bytes of a section up to and including its header. */
  function UpToHeader(before: bytes, padding: bytes): (header: bytes)
    requires |padding| == 16
    ensures |header| == |before| + HEADER && header[|before| + 14..|before| + 16] == FLAGS
  {
    var header := before + (MAGIC + FLAGS + padding);
    assert |MAGIC + FLAGS + padding| == HEADER;
    assert header[|before| + 14..|before| + 16] == (MAGIC + FLAGS + padding)[14..16];
    header
  }

  /** Two strings written after the only aligned header, in any admissible encodings, are read back. */
  lemma BuildStringsRoundTrip(before: bytes, padding: bytes, version: bytes, j: nat, modules: bytes, k: nat,
                              after: bytes)
    requires |padding| == 16
    requires |version| <= MAX_METADATA && 1 <= j <= MAX_GROUPS && |version| < Pow128(j)
    requires |modules| <= MAX_METADATA && 1 <= k <= MAX_GROUPS && |modules| < Pow128(k)
    ensures var header := UpToHeader(before, padding);
            var raw := header + (Encode(|version|, j) + version + (Encode(|modules|, k) + modules + after));
            OnlyHeader(raw, |before|) ==>
              Holds(raw, |before|, version, |header| + j + |version|, modules, |header| + j + |version| + k + |modules|)
  {
    hide *;
    var header, code, tail := UpToHeader(before, padding), Encode(|version|, j), Encode(|modules|, k) + modules + after;
    TwoStrings(header, version, j, modules, k, after);
    HeldAfter(before, padding, code + version + tail, version, |header| + j + |version|, modules,
              |header| + j + |version| + k + |modules|);
  }

  /** With its strings after it, an only header holds them. */
  lemma HeldAfter(before: bytes, padding: bytes, rest: bytes, version: bytes, next: nat, modules: bytes, end: nat)
    requires |padding| == 16
    requires var header := UpToHeader(before, padding);
             Inline(header + rest, |header|) == Ok((version, next)) && Inline(header + rest, next) == Ok((modules, end))
    ensures var raw := UpToHeader(before, padding) + rest;
            OnlyHeader(raw, |before|) ==> Holds(raw, |before|, version, next, modules, end)
  {
    hide Inline, OnlyHeader, HeaderAt, UpToHeader;
    InPrefix(UpToHeader(before, padding), rest, |before| + 14, |before| + 16);
  }

  lemma InPrefix(a: bytes, b: bytes, i: nat, j: nat)
    requires i <= j <= |a|
    ensures (a + b)[i..j] == a[i..j]
  {
  }

  lemma TwoStrings(header: bytes, version: bytes, j: nat, modules: bytes, k: nat, after: bytes)
    requires |version| <= MAX_METADATA && 1 <= j <= MAX_GROUPS && |version| < Pow128(j)
    requires |modules| <= MAX_METADATA && 1 <= k <= MAX_GROUPS && |modules| < Pow128(k)
    ensures var raw := header + (Encode(|version|, j) + version + (Encode(|modules|, k) + modules + after));
            var next := |header| + j + |version|;
            Inline(raw, |header|) == Ok((version, next)) && Inline(raw, next) == Ok((modules, next + k + |modules|))
  {
    hide *;
    var code, tail := Encode(|version|, j), Encode(|modules|, k) + modules + after;
    LastString(header, version, j, tail);
    StringAfter(header, code, version, modules, k, after);
  }

  lemma StringAfter(header: bytes, code: bytes, version: bytes, modules: bytes, k: nat, after: bytes)
    requires |modules| <= MAX_METADATA && 1 <= k <= MAX_GROUPS && |modules| < Pow128(k)
    ensures var next := |header| + |code| + |version|;
            Inline(header + (code + version + (Encode(|modules|, k) + modules + after)), next)
            == Ok((modules, next + k + |modules|))
  {
    hide *;
    LastString(header + code + version, modules, k, after);
    Rotate(header, code, version, Encode(|modules|, k) + modules + after);
    assert |header + code + version| == |header| + |code| + |version|;
  }

  lemma LastString(prefix: bytes, payload: bytes, groups: nat, suffix: bytes)
    requires |payload| <= MAX_METADATA && 1 <= groups <= MAX_GROUPS && |payload| < Pow128(groups)
    ensures Inline(prefix + (Encode(|payload|, groups) + payload + suffix), |prefix|)
            == Ok((payload, |prefix| + groups + |payload|))
  {
    hide *;
    InlineRoundTrip(prefix, payload, groups, suffix);
    Rotate(prefix, Encode(|payload|, groups), payload, suffix);
  }

  lemma Rotate(a: bytes, b: bytes, c: bytes, d: bytes)
    ensures a + b + c + d == a + (b + c + d)
  {
    assert a + b + c + d == a + (b + c + d);
  }
}
