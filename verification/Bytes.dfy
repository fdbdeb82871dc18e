/** Byte strings with the search and replace operations of Python's `bytes`. */
module Bytes {
  type byte = b: int | 0 <= b < 256
  type bytes = seq<byte>

  /** `needle` occupies the positions `i .. i + |needle|` of `s`. */
  predicate At(s: bytes, needle: bytes, i: int) {
    && 0 <= i <= i + |needle| <= |s|
    && forall k {:trigger needle[k]} :: 0 <= k < |needle| ==> s[i + k] == needle[k]
  }

  ghost predicate Occurs(s: bytes, needle: bytes) {
    exists i :: At(s, needle, i)
  }

  /** `s.find(needle, from)`: the first occurrence at or after `from`, or -1. */
  function Find(s: bytes, needle: bytes, from: nat): (r: int)
    ensures r == -1 || (from <= r <= r + |needle| <= |s| && At(s, needle, r))
    ensures forall i :: from <= i && At(s, needle, i) ==> r != -1 && r <= i
    decreases |s| - from
  {
    if from + |needle| > |s| then -1
    else if At(s, needle, from) then from
    else Find(s, needle, from + 1)
  }

  /** `s.rfind(needle, 0, end)`: the last occurrence that ends at or before `end`, or -1. */
  function RFind(s: bytes, needle: bytes, end: nat): (r: int)
    requires end <= |s|
    ensures r != -1 ==> r + |needle| <= end && At(s, needle, r)
    ensures forall i :: i + |needle| <= end && At(s, needle, i) ==> i <= r
  {
    if end < |needle| then -1
    else if At(s, needle, end - |needle|) then end - |needle|
    else RFind(s, needle, end - 1)
  }

  /** `s.replace(needle, marker)`: the leftmost non-overlapping occurrences, one scan. */
  function Replace(s: bytes, needle: bytes, marker: bytes): bytes
    requires needle != []
  {
    if |s| < |needle| then s
    else if At(s, needle, 0) then marker + Replace(s[|needle|..], needle, marker)
    else [s[0]] + Replace(s[1..], needle, marker)
  }

  function Flatten(chunks: seq<bytes>): bytes {
    if chunks == [] then [] else chunks[0] + Flatten(chunks[1..])
  }

  lemma {:induction false} FlattenAppend(xs: seq<bytes>, ys: seq<bytes>)
    ensures Flatten(xs + ys) == Flatten(xs) + Flatten(ys)
  {
    if xs == [] {
      assert xs + ys == ys;
    } else {
      assert (xs + ys)[1..] == xs[1..] + ys;
      FlattenAppend(xs[1..], ys);
    }
  }

  lemma Associative(a: bytes, b: bytes, c: bytes)
    ensures a + (b + c) == a + b + c
  {
  }

  lemma TakeAppended(a: bytes, b: bytes, n: nat)
    requires n <= |a| + |b|
    ensures (a + b)[..n] == if n <= |a| then a[..n] else a + b[..n - |a|]
  {
  }

  lemma CutAppended(a: bytes, b: bytes, c: bytes, cut: nat)
    requires cut <= |a + b|
    ensures a + (b + c) == (a + b) + c == (a + b)[..cut] + ((a + b)[cut..] + c)
  {
  }

  lemma DropDrop(s: bytes, n: nat, m: nat)
    requires n + m <= |s|
    ensures s[n..][m..] == s[n + m..]
  {
  }

  lemma FlattenOne(x: bytes)
    ensures Flatten([x]) == x
  {
    assert Flatten([x]) == x + Flatten([]);
  }

  /** A slice has the occurrences of the whole that it contains, shifted. */
  lemma AtSlice(s: bytes, needle: bytes, lo: nat, hi: nat, i: int)
    requires lo <= hi <= |s|
    ensures At(s[lo..hi], needle, i) <==> lo <= lo + i && lo + i + |needle| <= hi && At(s, needle, lo + i)
  {
    if 0 <= i && lo + i + |needle| <= hi {
      var a, b := s[lo..hi][i..i + |needle|], s[lo + i..lo + i + |needle|];
      assert |a| == |b| && forall j :: 0 <= j < |a| ==> a[j] == s[lo + i + j] == b[j];
      assert a == b;
    }
  }

  lemma AtByte(s: bytes, needle: bytes, i: int, k: nat)
    requires At(s, needle, i) && k < |needle|
    ensures s[i + k] == needle[k] && needle[k] in needle
  {
    assert s[i..i + |needle|][k] == s[i + k];
  }

  lemma AtBounds(s: bytes, needle: bytes)
    ensures forall i :: At(s, needle, i) ==> 0 <= i <= i + |needle| <= |s|
  {
  }

  lemma AtStart(s: bytes, needle: bytes)
    ensures At(s, needle, 0) <==> needle <= s
    ensures At(s, needle, 0) ==> s[..|needle|] == needle
  {
  }

  lemma AtOne(s: bytes, b: byte, i: int)
    ensures At(s, [b], i) <==> 0 <= i < |s| && s[i] == b
  {
    assert [b][0] == b;
  }

  lemma AtDrop(s: bytes, needle: bytes, n: nat, i: int)
    requires n <= |s|
    ensures At(s[n..], needle, i) <==> 0 <= i && At(s, needle, n + i)
  {
    assert s[n..] == s[n..|s|];
    AtSlice(s, needle, n, |s|, i);
  }

  lemma AtTake(s: bytes, needle: bytes, n: nat, i: int)
    requires n <= |s|
    ensures At(s[..n], needle, i) <==> i + |needle| <= n && At(s, needle, i)
  {
    assert s[..n] == s[0..n];
    AtSlice(s, needle, 0, n, i);
  }

  // ----- How a replacement distributes over a cut -----

  ghost predicate NoneBefore(s: bytes, needle: bytes, n: nat) {
    forall i :: 0 <= i < n ==> !At(s, needle, i)
  }

  lemma HeadAndRest(s: bytes, n: nat, rest: bytes)
    requires 0 < n <= |s|
    ensures s[1..][n - 1..] == s[n..] && [s[0]] + (s[1..][..n - 1] + rest) == s[..n] + rest
  {
    assert [s[0]] + s[1..][..n - 1] == s[..n];
  }

  /** Bytes before the first occurrence are copied. */
  lemma {:induction false} ReplaceCopies(s: bytes, needle: bytes, marker: bytes, n: nat)
    requires needle != [] && n <= |s| && NoneBefore(s, needle, n)
    ensures Replace(s, needle, marker) == s[..n] + Replace(s[n..], needle, marker)
  {
    if n == 0 {
      assert s[0..] == s;
    } else if |s| < |needle| {
    } else {
      forall i | 0 <= i < n - 1 ensures !At(s[1..], needle, i) {
        AtDrop(s, needle, 1, i);
      }
      assert !At(s, needle, 0);
      ReplaceCopies(s[1..], needle, marker, n - 1);
      HeadAndRest(s, n, Replace(s[n..], needle, marker));
    }
  }

  /** The first occurrence becomes the marker and the scan resumes after it. */
  lemma ReplaceFirst(s: bytes, needle: bytes, marker: bytes, i: nat)
    requires needle != [] && At(s, needle, i) && NoneBefore(s, needle, i)
    ensures Replace(s, needle, marker)
         == s[..i] + marker + Replace(s[i + |needle|..], needle, marker)
  {
    var t, rest := s[i..], Replace(s[i + |needle|..], needle, marker);
    ReplaceCopies(s, needle, marker, i);
    AtDrop(s, needle, i, 0);
    DropDrop(s, i, |needle|);
    assert Replace(t, needle, marker) == marker + rest;
    Associative(s[..i], marker, rest);
  }

  /** No occurrence lies on both sides of the cut. */
  ghost predicate CleanCut(s: bytes, needle: bytes, cut: nat) {
    forall i :: At(s, needle, i) ==> i + |needle| <= cut || cut <= i
  }

  lemma CleanCutDrop(s: bytes, needle: bytes, cut: nat, k: nat)
    requires k <= cut <= |s| && CleanCut(s, needle, cut)
    ensures CleanCut(s[k..], needle, cut - k)
  {
    forall i | At(s[k..], needle, i) ensures i + |needle| <= cut - k || cut - k <= i {
      AtDrop(s, needle, k, i);
    }
  }

  lemma CleanCutStart(s: bytes, needle: bytes, cut: nat)
    requires needle != [] && 0 < cut <= |s| && CleanCut(s, needle, cut)
    ensures At(s, needle, 0) ==> |needle| <= cut
  {
  }

  /** One step of the scan, whichever branch it takes. */
  lemma ReplaceStep(s: bytes, needle: bytes, marker: bytes, k: nat, head: bytes)
    requires needle != [] && s != []
    requires if At(s, needle, 0) then k == |needle| && head == marker else k == 1 && head == [s[0]]
    ensures k <= |s| && Replace(s, needle, marker) == head + Replace(s[k..], needle, marker)
  {
    if |s| < |needle| {
      assert s == [s[0]] + s[1..];
    }
  }

  /** A cut inside no occurrence can be made before or after replacing. */
  lemma {:induction false} ReplaceCut(s: bytes, needle: bytes, marker: bytes, cut: nat)
    requires needle != [] && cut <= |s| && CleanCut(s, needle, cut)
    ensures Replace(s, needle, marker)
         == Replace(s[..cut], needle, marker) + Replace(s[cut..], needle, marker)
    decreases |s|
  {
    hide *;
    if cut == 0 {
      assert s[..0] == [] && s[0..] == s;
      ReplaceShort([], needle, marker);
    } else {
      var matched := At(s, needle, 0);
      var k := if matched then |needle| else 1;
      var head := if matched then marker else [s[0]];
      CleanCutStart(s, needle, cut);
      CleanCutDrop(s, needle, cut, k);
      ReplaceCut(s[k..], needle, marker, cut - k);
      AtTake(s, needle, cut, 0);
      ReplaceStep(s, needle, marker, k, head);
      ReplaceStep(s[..cut], needle, marker, k, head);
      assert s[..cut][k..] == s[k..][..cut - k];
      DropDrop(s, k, cut - k);
      Associative(head, Replace(s[k..][..cut - k], needle, marker), Replace(s[cut..], needle, marker));
    }
  }

  lemma ReplaceShort(s: bytes, needle: bytes, marker: bytes)
    requires needle != [] && |s| < |needle|
    ensures Replace(s, needle, marker) == s
  {
  }

  lemma ReplaceAbsent(s: bytes, needle: bytes, marker: bytes)
    requires needle != [] && !Occurs(s, needle)
    ensures Replace(s, needle, marker) == s
  {
    ReplaceCopies(s, needle, marker, |s|);
    assert s[|s|..] == [] && s[..|s|] == s;
  }

  // ----- Redaction: the needle does not survive -----

  ghost predicate Disjoint(a: bytes, b: bytes) {
    forall x :: x in a ==> x !in b
  }

  /** A prefix of the output without marker bytes was copied from the input. */
  lemma {:induction false} CopiedPrefix(s: bytes, needle: bytes, marker: bytes, n: nat)
    requires needle != [] && marker != []
    requires n <= |Replace(s, needle, marker)| && Disjoint(Replace(s, needle, marker)[..n], marker)
    ensures n <= |s| && Replace(s, needle, marker)[..n] == s[..n]
    decreases |s|
  {
    var out := Replace(s, needle, marker);
    if n == 0 || |s| < |needle| {
    } else {
      assert out[0] == out[..n][0] && marker[0] in marker;
      assert !At(s, needle, 0);
      var rest := Replace(s[1..], needle, marker);
      assert out[..n] == [s[0]] + rest[..n - 1];
      CopiedPrefix(s[1..], needle, marker, n - 1);
      assert s[..n] == [s[0]] + s[1..][..n - 1];
    }
  }

  lemma {:induction false} CopiedWhole(s: bytes, needle: bytes, marker: bytes)
    requires needle != [] && marker != [] && Disjoint(Replace(s, needle, marker), marker)
    ensures Replace(s, needle, marker) == s
  {
    if |s| < |needle| {
    } else {
      var out := Replace(s, needle, marker);
      assert out[0] in out && marker[0] in marker;
      assert !At(s, needle, 0);
      assert out[1..] == Replace(s[1..], needle, marker);
      CopiedWhole(s[1..], needle, marker);
    }
  }

  /** A suffix of the output without marker bytes was copied from the input. */
  lemma {:induction false} CopiedSuffix(s: bytes, needle: bytes, marker: bytes, n: nat)
    requires needle != [] && marker != [] && n <= |Replace(s, needle, marker)|
    requires var out := Replace(s, needle, marker); Disjoint(out[|out| - n..], marker)
    ensures var out := Replace(s, needle, marker);
            n <= |s| && out[|out| - n..] == s[|s| - n..]
    decreases |s|
  {
    hide Replace, At, Disjoint;
    var out := Replace(s, needle, marker);
    if s == [] {
      ReplaceShort(s, needle, marker);
    } else {
      var matched := At(s, needle, 0);
      var k := if matched then |needle| else 1;
      var head := if matched then marker else [s[0]];
      ReplaceStep(s, needle, marker, k, head);
      var rest := Replace(s[k..], needle, marker);
      if n <= |rest| {
        SuffixOfRest(head, rest, n);
        CopiedSuffix(s[k..], needle, marker, n);
        SuffixOfDrop(s, k, n);
      } else {
        LongSuffix(head, rest, marker, n);
        assert |head| == 1 && n == |out|;
        WholeSuffix(out);
        CopiedWhole(s, needle, marker);
        WholeSuffix(s);
      }
    }
  }

  lemma WholeSuffix(s: bytes)
    ensures s[|s| - |s|..] == s
  {
  }

  lemma SuffixOfRest(head: bytes, rest: bytes, n: nat)
    requires n <= |rest|
    ensures (head + rest)[|head + rest| - n..] == rest[|rest| - n..]
  {
  }

  lemma SuffixOfDrop(s: bytes, k: nat, n: nat)
    requires k <= |s| && n <= |s| - k
    ensures s[k..][|s[k..]| - n..] == s[|s| - n..]
  {
  }

  /** A marker-free suffix that reaches into the head shows that the head is not the marker. */
  lemma LongSuffix(head: bytes, rest: bytes, marker: bytes, n: nat)
    requires marker != [] && head != [] && |rest| < n <= |head + rest|
    requires Disjoint((head + rest)[|head + rest| - n..], marker)
    ensures head != marker
  {
    var suffix := (head + rest)[|head + rest| - n..];
    assert suffix[n - |rest| - 1] == head[|head| - 1];
    assert head[|head| - 1] in suffix && marker[|marker| - 1] in marker;
  }

  /** Replacing by a marker that shares no byte with the needle leaves no occurrence. */
  lemma {:induction false} ReplaceRemoves(s: bytes, needle: bytes, marker: bytes)
    requires needle != [] && marker != [] && Disjoint(needle, marker)
    ensures !Occurs(Replace(s, needle, marker), needle)
    decreases |s|
  {
    hide Replace, At;
    var out := Replace(s, needle, marker);
    if s == [] {
      ReplaceShort(s, needle, marker);
      AtBounds(s, needle);
    } else {
      var matched := At(s, needle, 0);
      var k := if matched then |needle| else 1;
      var head := if matched then marker else [s[0]];
      ReplaceStep(s, needle, marker, k, head);
      var rest := Replace(s[k..], needle, marker);
      ReplaceRemoves(s[k..], needle, marker);
      AtBounds(out, needle);
      forall i ensures !At(out, needle, i) {
        if |head| <= i {
          assert out[|head|..] == rest;
          AtDrop(out, needle, |head|, i - |head|);
        } else if matched {
          assert 0 <= i ==> out[i] == marker[i] && marker[i] in marker;
          if At(out, needle, i) {
            AtByte(out, needle, i, 0);
          }
        } else if At(out, needle, i) {
          AtStart(out, needle);
          AtStart(s, needle);
          CopiedPrefix(s, needle, marker, |needle|);
        }
      }
    }
  }

  lemma PrefixKeepsAbsence(s: bytes, t: bytes, needle: bytes)
    requires s <= t && !Occurs(t, needle)
    ensures !Occurs(s, needle)
  {
    forall i ensures !At(s, needle, i) {
      AtTake(t, needle, |s|, i);
      assert t[..|s|] == s;
    }
  }
}
