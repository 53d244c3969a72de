/** Pattern search (src/SFPlatform/Linux/ByteSearch.cpp): a Horspool scanner over a buffer, and
    a scan of a file in overlapping windows.  Both are measured against the plain notion of
    the leftmost occurrence. */
module ByteSearch {
  import opened Outcomes
  import opened Bytes

  predicate OccursAt(text: seq<byte>, pattern: seq<byte>, k: nat) {
    k + |pattern| <= |text| && text[k..k + |pattern|] == pattern
  }

  /** r is the first place from lo on, and before hi, where the pattern lies wholly before end. */
  ghost predicate Leftmost(text: seq<byte>, pattern: seq<byte>, lo: nat, end: nat, r: Option<nat>)
    requires end <= |text|
  {
    match r
    case Some(k) =>
      && lo <= k && OccursAt(text[..end], pattern, k)
      && forall j :: lo <= j < k ==> !OccursAt(text[..end], pattern, j)
    case None => forall j :: lo <= j ==> !OccursAt(text[..end], pattern, j)
  }

  /** There is only one leftmost occurrence, so the search is a function of its input. */
  lemma LeftmostIsUnique(text: seq<byte>, pattern: seq<byte>, lo: nat, end: nat, r: Option<nat>, s: Option<nat>)
    requires end <= |text| && Leftmost(text, pattern, lo, end, r) && Leftmost(text, pattern, lo, end, s)
    ensures r == s
  {
  }

  /** skip holds for each byte the distance from its last place before the end of the pattern
      to that end, or the length of the pattern if it does not occur there. */
  ghost predicate SkipTable(pattern: seq<byte>, skip: seq<nat>) {
    && |skip| == 0x100
    && forall b: byte ::
         if exists i :: 0 <= i < |pattern| - 1 && pattern[i] == b then
           && 1 <= skip[b] < |pattern| && pattern[|pattern| - 1 - skip[b]] == b
           && forall i :: |pattern| - 1 - skip[b] < i < |pattern| - 1 ==> pattern[i] != b
         else skip[b] == if pattern == [] then 1 else |pattern|
  }

  /** No skip jumps over a match: the byte under the end of the pattern would have to stand,
      in a match in between, at a place of the pattern nearer to its end than the table says. */
  lemma SkipIsSafe(text: seq<byte>, pattern: seq<byte>, skip: seq<nat>, offset: nat, k: nat)
    requires pattern != [] && SkipTable(pattern, skip) && offset + |pattern| <= |text|
    requires offset < k < offset + skip[text[offset + |pattern| - 1]]
    ensures !OccursAt(text, pattern, k)
  {
    var tail, i := text[offset + |pattern| - 1], |pattern| - 1 - (k - offset);
    assert pattern[i] != tail == text[k + i];
    if k + |pattern| <= |text| {
      assert text[k..k + |pattern|][i] == text[k + i];
    }
  }

  lemma SkipAdvances(pattern: seq<byte>, skip: seq<nat>, b: byte)
    requires SkipTable(pattern, skip)
    ensures skip[b] >= 1
  {
  }

  class FixedPatternScanner {
    const pattern: seq<byte>
    const skip: array<nat>

    ghost predicate Valid()
      reads skip
    {
      SkipTable(pattern, skip[..])
    }

    constructor (pattern: seq<byte>)
      ensures this.pattern == pattern && fresh(skip) && Valid()
    {
      this.pattern := pattern;
      var length := |pattern|;
      var table := new nat[0x100](_ => if length == 0 then 1 else length);
      skip := table;
      new;
      if |pattern| > 1 {
        var i := 0;
        while i + 1 < |pattern|
          invariant 0 <= i < |pattern| && skip.Length == 0x100
          invariant forall b: byte ::
                      if exists j :: 0 <= j < i && pattern[j] == b then
                        && 1 <= skip[b] < |pattern| && pattern[|pattern| - 1 - skip[b]] == b
                        && |pattern| - 1 - skip[b] < i
                        && forall j :: |pattern| - 1 - skip[b] < j < i ==> pattern[j] != b
                      else skip[b] == |pattern|
        {
          skip[pattern[i]] := |pattern| - 1 - i;
          i := i + 1;
        }
      }
    }

    /** The leftmost occurrence in the buffer; an empty pattern is never found. */
    method Find(bytes: seq<byte>) returns (r: Option<nat>)
      requires Valid()
      ensures if pattern == [] then r == None else Leftmost(bytes, pattern, 0, |bytes|, r)
      ensures r.Some? ==> r.value <= |bytes| && pattern <= bytes[r.value..]
      ensures pattern != [] ==>
                forall k :: 0 <= k <= |bytes| && (r.Some? ==> k < r.value) ==> !(pattern <= bytes[k..])
    {
      var n := |pattern|;
      Prefixes(bytes, pattern);
      if n == 0 || |bytes| < n {
        return None;
      }
      assert bytes[..|bytes|] == bytes;
      var offset := 0;
      while offset <= |bytes| - n
        invariant forall j :: 0 <= j < offset ==> !OccursAt(bytes, pattern, j)
        decreases |bytes| - offset
      {
        var tail := bytes[offset + n - 1];
        if tail == pattern[n - 1] {
          var i := n - 1;
          while i > 0 && bytes[offset + i - 1] == pattern[i - 1]
            invariant 0 <= i < n
            invariant forall k :: i <= k < n ==> bytes[offset + k] == pattern[k]
          {
            i := i - 1;
          }
          if i == 0 {
            assert bytes[offset..offset + n] == pattern;
            return Some(offset);
          }
          assert bytes[offset..offset + n][i - 1] != pattern[i - 1];
        } else {
          assert bytes[offset..offset + n][n - 1] != pattern[n - 1];
        }
        forall k | offset < k < offset + skip[tail] ensures !OccursAt(bytes, pattern, k) {
          SkipIsSafe(bytes, pattern, skip[..], offset, k);
        }
        SkipAdvances(pattern, skip[..], tail);
        offset := offset + skip[tail];
      }
      return None;
    }
  }

  function Min(a: nat, b: nat): nat {
    if a <= b then a else b
  }

  /** An answer of pread: how many of the bytes asked for were read, if not an error. */
  type Reader = (nat, nat) -> int

  ghost predicate ReadsHonestly(pread: Reader) {
    forall at, want :: 0 <= at && 0 <= want ==> pread(at, want) <= want
  }

  ghost predicate ReadsInFull(pread: Reader) {
    forall at, want :: 0 <= at && 0 <= want ==> pread(at, want) == want
  }

  // ---- the scan as a function ----

  function FirstFrom(text: seq<byte>, pattern: seq<byte>, k: nat): (r: Option<nat>)
    requires pattern != []
    ensures Leftmost(text[..|text|], pattern, k, |text|, r)
    decreases |text| - k
  {
    assert text[..|text|] == text;
    if k + |pattern| > |text| then None
    else if OccursAt(text, pattern, k) then Some(k)
    else FirstFrom(text, pattern, k + 1)
  }

  function ToRead(current: nat, rangeEnd: nat, chunkBytes: nat): (n: nat)
    requires current <= rangeEnd
    ensures current + n <= rangeEnd && n <= chunkBytes
  {
    Min(chunkBytes, rangeEnd - current)
  }

  /** What is found from the window at current on. */
  function Windows(file: seq<byte>, current: nat, rangeEnd: nat, pattern: seq<byte>, chunkBytes: nat,
                   pread: Reader): Option<nat>
    requires rangeEnd <= |file| && 0 < |pattern| <= chunkBytes && ReadsHonestly(pread)
    decreases rangeEnd - current
  {
    if current >= rangeEnd then None
    else
      var bytesRead := pread(current, ToRead(current, rangeEnd, chunkBytes));
      if bytesRead <= 0 then None
      else
        match FirstFrom(file[current..current + bytesRead], pattern, 0)
        case Some(k) => Some(current + k)
        case None => Windows(file, current + chunkBytes - (|pattern| - 1), rangeEnd, pattern, chunkBytes, pread)
  }

  function RangeEnd(fileSize: nat, offset: nat, size: nat): nat {
    Min(fileSize, offset + size)
  }

  function ChunkBytes(chunk: nat, n: nat): nat {
    if chunk < n then n else chunk
  }

  function ScanRange(file: seq<byte>, offset: nat, size: nat, pattern: seq<byte>, chunk: nat,
                     pread: Reader): Option<nat>
    requires ReadsHonestly(pread)
  {
    if pattern == [] then None
    else Windows(file, offset, RangeEnd(|file|, offset, size), pattern, ChunkBytes(chunk, |pattern|), pread)
  }

  /** Is every window that can hold a pattern of n bytes read in full? */
  predicate FullReads(current: nat, rangeEnd: nat, n: nat, chunkBytes: nat, pread: Reader)
    requires 0 < n <= chunkBytes
    decreases rangeEnd - current
  {
    current >= rangeEnd ||
    (&& (current + n <= rangeEnd ==>
           pread(current, ToRead(current, rangeEnd, chunkBytes)) == ToRead(current, rangeEnd, chunkBytes))
     && FullReads(current + chunkBytes - (n - 1), rangeEnd, n, chunkBytes, pread))
  }

  /** Scan the part of a file from offset on, at most size bytes, in windows of at least chunk bytes
      that overlap by one byte less than the pattern.  Whatever is found is there and inside the
      range; if the windows are read in full, and so if every read is, it is the leftmost, and
      nothing found means nothing there. */
  method FindInFileRange(file: seq<byte>, offset: nat, size: nat, pattern: seq<byte>, chunk: nat, pread: Reader)
    returns (r: Option<nat>)
    requires ReadsHonestly(pread)
    ensures r == ScanRange(file, offset, size, pattern, chunk, pread)
    ensures pattern == [] || size == 0 || offset >= |file| ==> r == None
    ensures r.Some? ==>
              && offset <= r.value && r.value + |pattern| <= offset + size && r.value + |pattern| <= |file|
              && pattern <= file[r.value..]
    ensures var end, chunkBytes := if offset + size < |file| then offset + size else |file|,
                                   if chunk < |pattern| then |pattern| else chunk;
            pattern != [] && (ReadsInFull(pread) || FullReads(offset, end, |pattern|, chunkBytes, pread)) ==>
              forall k :: offset <= k <= end && (r.Some? ==> k < r.value) ==> !(pattern <= file[k..end])
  {
    ScanFinds(file, offset, size, pattern, chunk, pread);
    hide OccursAt, Leftmost, FullReads, FirstFrom, Windows, ScanRange;
    r := ScanWindows(file, offset, size, pattern, chunk, pread);
  }

  method ScanWindows(file: seq<byte>, offset: nat, size: nat, pattern: seq<byte>, chunk: nat, pread: Reader)
    returns (r: Option<nat>)
    requires ReadsHonestly(pread)
    ensures r == ScanRange(file, offset, size, pattern, chunk, pread)
  {
    hide OccursAt, Leftmost, FirstFrom, Windows, SkipTable;
    var scanner := new FixedPatternScanner(pattern);
    var n := |pattern|;
    if n == 0 {
      return None;
    }
    if size == 0 || |file| == 0 || offset >= |file| {
      NoWindow(file, offset, RangeEnd(|file|, offset, size), pattern, ChunkBytes(chunk, n), pread);
      return None;
    }
    var rangeEnd := offset + Min(size, |file| - offset);
    assert rangeEnd == RangeEnd(|file|, offset, size);
    var chunkBytes := if chunk < n then n else chunk;
    var stride := chunkBytes - (n - 1);
    var current := offset;
    while current < rangeEnd
      invariant offset <= current && scanner.Valid()
      invariant Windows(file, current, rangeEnd, pattern, chunkBytes, pread) ==
                Windows(file, offset, rangeEnd, pattern, chunkBytes, pread)
      decreases rangeEnd - current
    {
      var toRead := Min(chunkBytes, rangeEnd - current);
      var bytesRead := pread(current, toRead);
      WindowsStep(file, current, rangeEnd, pattern, chunkBytes, pread);
      if bytesRead <= 0 {
        return None;
      }
      var hit := scanner.Find(file[current..current + bytesRead]);
      FirstIs(file[current..current + bytesRead], pattern, hit);
      if hit.Some? {
        return Some(current + hit.value);
      }
      current := current + stride;
    }
    NoWindow(file, current, rangeEnd, pattern, chunkBytes, pread);
    return None;
  }

  lemma NoWindow(file: seq<byte>, current: nat, rangeEnd: nat, pattern: seq<byte>, chunkBytes: nat, pread: Reader)
    requires rangeEnd <= |file| && 0 < |pattern| <= chunkBytes && ReadsHonestly(pread) && current >= rangeEnd
    ensures Windows(file, current, rangeEnd, pattern, chunkBytes, pread) == None
  {
  }

  lemma WindowsStep(file: seq<byte>, current: nat, rangeEnd: nat, pattern: seq<byte>, chunkBytes: nat, pread: Reader)
    requires rangeEnd <= |file| && 0 < |pattern| <= chunkBytes && ReadsHonestly(pread) && current < rangeEnd
    ensures Windows(file, current, rangeEnd, pattern, chunkBytes, pread) ==
            var len := pread(current, ToRead(current, rangeEnd, chunkBytes));
            if len <= 0 then None
            else
              var hit := FirstFrom(file[current..current + len], pattern, 0);
              if hit.Some? then Some(current + hit.value)
              else Windows(file, current + chunkBytes - (|pattern| - 1), rangeEnd, pattern, chunkBytes, pread)
  {
  }

  lemma FirstIs(text: seq<byte>, pattern: seq<byte>, r: Option<nat>)
    requires pattern != [] && Leftmost(text, pattern, 0, |text|, r)
    ensures r == FirstFrom(text, pattern, 0)
  {
    hide OccursAt;
    var first := FirstFrom(text, pattern, 0);
    assert text[..|text|] == text;
    LeftmostIsUnique(text, pattern, 0, |text|, r, first);
  }

  lemma ScanFinds(file: seq<byte>, offset: nat, size: nat, pattern: seq<byte>, chunk: nat, pread: Reader)
    requires ReadsHonestly(pread)
    ensures var r := ScanRange(file, offset, size, pattern, chunk, pread);
            var end, chunkBytes := if offset + size < |file| then offset + size else |file|,
                                   if chunk < |pattern| then |pattern| else chunk;
            && (pattern == [] || size == 0 || offset >= |file| ==> r == None)
            && (r.Some? ==> offset <= r.value <= end && pattern <= file[r.value..end])
            && (pattern != [] && (ReadsInFull(pread) || FullReads(offset, end, |pattern|, chunkBytes, pread)) ==>
                forall k :: offset <= k <= end && (r.Some? ==> k < r.value) ==> !(pattern <= file[k..end]))
  {
    if pattern != [] {
      var end, chunkBytes := RangeEnd(|file|, offset, size), ChunkBytes(chunk, |pattern|);
      WindowsFind(file, offset, end, pattern, chunkBytes, pread);
      if ReadsInFull(pread) {
        InFullIsEnough(offset, end, |pattern|, chunkBytes, pread);
      }
      LeftmostIs(file, pattern, offset, end, ScanRange(file, offset, size, pattern, chunk, pread));
      hide OccursAt, Leftmost, FullReads, Windows;
    }
  }

  lemma {:induction false} InFullIsEnough(current: nat, rangeEnd: nat, n: nat, chunkBytes: nat, pread: Reader)
    requires 0 < n <= chunkBytes && ReadsInFull(pread)
    ensures FullReads(current, rangeEnd, n, chunkBytes, pread)
    decreases rangeEnd - current
  {
    if current < rangeEnd {
      InFullIsEnough(current + chunkBytes - (n - 1), rangeEnd, n, chunkBytes, pread);
    }
  }

  /** The pattern occurs at k exactly if it is in front of what stands there. */
  lemma Prefixes(text: seq<byte>, pattern: seq<byte>)
    ensures forall k :: 0 <= k <= |text| ==> (OccursAt(text, pattern, k) <==> pattern <= text[k..])
  {
    forall k | 0 <= k <= |text| ensures OccursAt(text, pattern, k) <==> pattern <= text[k..] {
      if k + |pattern| <= |text| {
        assert text[k..][..|pattern|] == text[k..k + |pattern|];
      }
    }
  }

  lemma LeftmostIs(file: seq<byte>, pattern: seq<byte>, lo: nat, end: nat, r: Option<nat>)
    requires end <= |file|
    ensures Leftmost(file, pattern, lo, end, r) <==>
            && (r.Some? ==> lo <= r.value <= end && pattern <= file[r.value..end])
            && forall k :: lo <= k <= end && (r.Some? ==> k < r.value) ==> !(pattern <= file[k..end])
  {
    Prefixes(file[..end], pattern);
    assert forall k :: 0 <= k <= end ==> file[..end][k..] == file[k..end];
    NoRoom(file[..end], pattern);
  }

  /** What the windows find is an occurrence, and the leftmost if they are read in full. */
  lemma {:induction false} WindowsFind(file: seq<byte>, current: nat, rangeEnd: nat, pattern: seq<byte>,
                                       chunkBytes: nat, pread: Reader)
    requires rangeEnd <= |file| && 0 < |pattern| <= chunkBytes && ReadsHonestly(pread)
    ensures var r := Windows(file, current, rangeEnd, pattern, chunkBytes, pread);
            && (r.Some? ==> current <= r.value && OccursAt(file[..rangeEnd], pattern, r.value))
            && (FullReads(current, rangeEnd, |pattern|, chunkBytes, pread) ==>
               Leftmost(file, pattern, current, rangeEnd, r))
    decreases rangeEnd - current
  {
    hide OccursAt, FirstFrom;
    if current < rangeEnd {
      var text, len := file[..rangeEnd], pread(current, ToRead(current, rangeEnd, chunkBytes));
      if len > 0 {
        var window := file[current..current + len];
        var hit := FirstFrom(window, pattern, 0);
        assert text[current..current + len] == window && window[..|window|] == window;
        WindowLeftmost(text, pattern, current, len, hit);
        NoRoom(window, pattern);
        WindowsFind(file, current + chunkBytes - (|pattern| - 1), rangeEnd, pattern, chunkBytes, pread);
        if FullReads(current, rangeEnd, |pattern|, chunkBytes, pread) {
          forall k: nat | current <= k < current + chunkBytes - (|pattern| - 1)
            && (hit.Some? ==> k < current + hit.value)
            ensures !OccursAt(text, pattern, k)
          {
            if k + |pattern| <= rangeEnd {
              assert k + |pattern| <= current + len;
            } else {
              NoRoom(text, pattern);
            }
          }
        }
      } else {
        NoRoom(text, pattern);
      }
    } else {
      NoRoom(file[..rangeEnd], pattern);
    }
  }

  lemma NoRoom(text: seq<byte>, pattern: seq<byte>)
    ensures forall k: nat :: k + |pattern| > |text| ==> !OccursAt(text, pattern, k)
  {
  }

  // ---- exactly when short reads do no harm ----

  /** Nothing but zeros, and one run of ones. */
  function OneRun(size: nat, at: nat, n: nat): (text: seq<byte>)
    ensures |text| == size
  {
    seq(size, i => if at <= i < at + n then 1 else 0)
  }

  lemma RunOccursOnce(size: nat, at: nat, n: nat, k: nat)
    requires n > 0
    ensures OccursAt(OneRun(size, at, n), OneRun(n, 0, n), k) <==> k == at && at + n <= size
  {
    var text, pattern := OneRun(size, at, n), OneRun(n, 0, n);
    if k + n <= size {
      var part := text[k..k + n];
      assert part[0] == text[k] && part[n - 1] == text[k + n - 1];
      if k == at {
        assert forall i :: 0 <= i < n ==> part[i] == pattern[i];
      }
      if part == pattern {
        assert part[0] == 1 && part[n - 1] == 1;
      }
    }
  }

  lemma RunInRange(size: nat, at: nat, n: nat, lo: nat, hi: nat, k: nat)
    requires n > 0 && lo <= hi <= size
    ensures OccursAt(OneRun(size, at, n)[lo..hi], OneRun(n, 0, n), k) ==> lo + k == at && at + n <= hi
    ensures lo == 0 && at + n <= hi ==> OccursAt(OneRun(size, at, n)[lo..hi], OneRun(n, 0, n), at)
  {
    var file := OneRun(size, at, n);
    if k + n <= hi - lo {
      InWindow(file, OneRun(n, 0, n), lo, hi - lo, k);
      RunOccursOnce(size, at, n, lo + k);
    }
    if lo == 0 && at + n <= hi {
      InWindow(file, OneRun(n, 0, n), 0, hi, at);
      RunOccursOnce(size, at, n, at);
    }
  }

  /** Are the windows from current on those from bad on, after some more? */
  predicate LeadsTo(current: nat, bad: nat, stride: nat)
    requires stride > 0
    decreases bad - current
  {
    current == bad || (current < bad && LeadsTo(current + stride, bad, stride))
  }

  lemma {:induction false} FirstShortRead(current: nat, rangeEnd: nat, n: nat, chunkBytes: nat, pread: Reader)
    returns (bad: nat)
    requires 0 < n <= chunkBytes && !FullReads(current, rangeEnd, n, chunkBytes, pread)
    ensures LeadsTo(current, bad, chunkBytes - (n - 1)) && bad + n <= rangeEnd
    ensures pread(bad, ToRead(bad, rangeEnd, chunkBytes)) != ToRead(bad, rangeEnd, chunkBytes)
    decreases rangeEnd - current
  {
    var toRead := ToRead(current, rangeEnd, chunkBytes);
    if current + n <= rangeEnd && pread(current, toRead) != toRead {
      bad := current;
    } else {
      bad := FirstShortRead(current + chunkBytes - (n - 1), rangeEnd, n, chunkBytes, pread);
      LeadsLater(current + chunkBytes - (n - 1), bad, chunkBytes - (n - 1));
    }
  }

  lemma LeadsLater(current: nat, bad: nat, stride: nat)
    requires stride > 0 && LeadsTo(current, bad, stride)
    ensures current <= bad
  {
  }

  /** A run of ones that ends where the window at bad should end: no window shows all of it. */
  lemma {:induction false} WindowsMiss(size: nat, current: nat, rangeEnd: nat, n: nat, chunkBytes: nat, pread: Reader,
                                       bad: nat)
    requires rangeEnd <= size && 0 < n <= chunkBytes && ReadsHonestly(pread)
    requires bad + n <= rangeEnd && pread(bad, ToRead(bad, rangeEnd, chunkBytes)) < ToRead(bad, rangeEnd, chunkBytes)
    requires LeadsTo(current, bad, chunkBytes - (n - 1)) || current >= bad + chunkBytes - (n - 1)
    ensures var at := bad + ToRead(bad, rangeEnd, chunkBytes) - n;
            Windows(OneRun(size, at, n), current, rangeEnd, OneRun(n, 0, n), chunkBytes, pread) == None
    decreases rangeEnd - current
  {
    hide OneRun, OccursAt;
    var at, stride := bad + ToRead(bad, rangeEnd, chunkBytes) - n, chunkBytes - (n - 1);
    var file, pattern := OneRun(size, at, n), OneRun(n, 0, n);
    if current < rangeEnd {
      var len := pread(current, ToRead(current, rangeEnd, chunkBytes));
      if len > 0 {
        var window := file[current..current + len];
        var hit := FirstFrom(window, pattern, 0);
        assert window[..|window|] == window;
        if current < bad {
          LeadsLater(current + stride, bad, stride);
        }
        if hit.Some? {
          RunInRange(size, at, n, current, current + len, hit.value);
          assert false;
        }
        WindowsMiss(size, current + stride, rangeEnd, n, chunkBytes, pread, bad);
      }
    }
  }

  lemma ShortReadMisses(size: nat, offset: nat, rangeEnd: nat, n: nat, chunkBytes: nat, pread: Reader)
    returns (file: seq<byte>, pattern: seq<byte>)
    requires offset <= rangeEnd <= size && 0 < n <= chunkBytes && ReadsHonestly(pread)
    requires !FullReads(offset, rangeEnd, n, chunkBytes, pread)
    ensures |file| == size && |pattern| == n
    ensures !Leftmost(file, pattern, offset, rangeEnd, Windows(file, offset, rangeEnd, pattern, chunkBytes, pread))
  {
    var bad := FirstShortRead(offset, rangeEnd, n, chunkBytes, pread);
    var at := bad + ToRead(bad, rangeEnd, chunkBytes) - n;
    file, pattern := OneRun(size, at, n), OneRun(n, 0, n);
    WindowsMiss(size, offset, rangeEnd, n, chunkBytes, pread, bad);
    LeadsLater(offset, bad, chunkBytes - (n - 1));
    RunInRange(size, at, n, 0, rangeEnd, 0);
    assert file[0..rangeEnd] == file[..rangeEnd];
  }

  /** The scan finds the leftmost occurrence of every pattern of n bytes in every file of a size
      exactly if every window that can hold such a pattern is read in full. */
  lemma FullReadsAreNeeded(size: nat, offset: nat, count: nat, n: nat, chunk: nat, pread: Reader)
    requires offset < size && n > 0 && ReadsHonestly(pread)
    ensures var end, chunkBytes := if offset + count < size then offset + count else size,
                                   if chunk < n then n else chunk;
            FullReads(offset, end, n, chunkBytes, pread) <==>
            forall file: seq<byte>, pattern: seq<byte> :: |file| == size && |pattern| == n ==>
              var r := ScanRange(file, offset, count, pattern, chunk, pread);
              && (r.Some? ==> offset <= r.value <= end && pattern <= file[r.value..end])
              && forall k :: offset <= k <= end && (r.Some? ==> k < r.value) ==> !(pattern <= file[k..end])
  {
    hide Leftmost, FullReads, Windows;
    var end, chunkBytes := RangeEnd(size, offset, count), ChunkBytes(chunk, n);
    if FullReads(offset, end, n, chunkBytes, pread) {
      forall file: seq<byte>, pattern: seq<byte> | |file| == size && |pattern| == n
        ensures Leftmost(file, pattern, offset, end, ScanRange(file, offset, count, pattern, chunk, pread))
      {
        WindowsFind(file, offset, end, pattern, chunkBytes, pread);
      }
    } else {
      var file, pattern := ShortReadMisses(size, offset, end, n, chunkBytes, pread);
    }
    forall file: seq<byte>, pattern: seq<byte> | |file| == size && |pattern| == n {
      LeftmostIs(file, pattern, offset, end, ScanRange(file, offset, count, pattern, chunk, pread));
    }
  }

  /** What the leftmost occurrence in a window says about the text around it. */
  lemma WindowLeftmost(text: seq<byte>, pattern: seq<byte>, at: nat, len: nat, r: Option<nat>)
    requires at + len <= |text| && Leftmost(text[at..at + len], pattern, 0, len, r)
    ensures r.Some? ==> OccursAt(text, pattern, at + r.value)
    ensures forall j :: at <= j && j + |pattern| <= at + len && (r.Some? ==> j < at + r.value) ==>
            !OccursAt(text, pattern, j)
  {
    var window := text[at..at + len];
    assert window[..len] == window;
    if r.Some? {
      InWindow(text, pattern, at, len, r.value);
    }
    forall j | at <= j && j + |pattern| <= at + len && (r.Some? ==> j < at + r.value)
      ensures !OccursAt(text, pattern, j)
    {
      assert !OccursAt(window, pattern, j - at);
      InWindow(text, pattern, at, len, j - at);
    }
  }

  lemma InWindow(text: seq<byte>, pattern: seq<byte>, at: nat, len: nat, k: nat)
    requires at + len <= |text| && k + |pattern| <= len
    ensures OccursAt(text[at..at + len], pattern, k) <==> OccursAt(text, pattern, at + k)
  {
    SliceOfSlice(text, at, len, k, |pattern|);
  }

  lemma SliceOfSlice(text: seq<byte>, at: nat, len: nat, k: nat, n: nat)
    requires at + len <= |text| && k + n <= len
    ensures text[at..at + len][k..k + n] == text[at + k..at + k + n]
  {
    var a, b := text[at..at + len][k..k + n], text[at + k..at + k + n];
    assert forall i :: 0 <= i < n ==> a[i] == text[at + k + i] == b[i];
  }

  /** Every place where the pattern can start falls into exactly one stride, and the window of
      that stride holds the whole pattern. */
  lemma OneWindowEach(offset: nat, rangeEnd: nat, chunkBytes: nat, n: nat, start: nat)
    requires 0 < n <= chunkBytes && offset <= start && start + n <= rangeEnd
    ensures var stride := chunkBytes - (n - 1);
            var w := (start - offset) / stride;
            && offset + w * stride <= start < offset + (w + 1) * stride
            && start + n <= offset + w * stride + Min(chunkBytes, rangeEnd - (offset + w * stride))
            && forall v: nat :: offset + v * stride <= start < offset + (v + 1) * stride ==> v == w
  {
    var stride := chunkBytes - (n - 1);
    var w := (start - offset) / stride;
    WindowAt(offset, start, stride, w);
    Held(rangeEnd, chunkBytes, n, start, offset + w * stride);
    forall v: nat | offset + v * stride <= start < offset + (v + 1) * stride ensures v == w {
      Between(start - offset, stride, v, w);
    }
  }

  lemma WindowAt(offset: nat, start: nat, stride: nat, w: nat)
    requires stride > 0 && offset <= start && w == (start - offset) / stride
    ensures offset + w * stride <= start < offset + w * stride + stride == offset + (w + 1) * stride
  {
    Strides(start - offset, stride);
  }

  lemma Held(rangeEnd: nat, chunkBytes: nat, n: nat, start: nat, at: nat)
    requires 0 < n <= chunkBytes && at <= start < at + chunkBytes - (n - 1) && start + n <= rangeEnd
    ensures start + n <= at + Min(chunkBytes, rangeEnd - at)
  {
  }

  lemma Strides(x: nat, stride: nat)
    requires stride > 0
    ensures (x / stride) * stride <= x < (x / stride + 1) * stride
  {
    assert x == (x / stride) * stride + x % stride;
    assert (x / stride + 1) * stride == (x / stride) * stride + stride;
  }

  lemma Between(x: nat, stride: nat, v: nat, w: nat)
    requires v * stride <= x < (v + 1) * stride && w * stride <= x < (w + 1) * stride
    ensures v == w
  {
    if v < w {
      NextStride(stride, v, w);
    } else if w < v {
      NextStride(stride, w, v);
    }
  }

  lemma NextStride(stride: nat, v: nat, w: nat)
    requires v < w
    ensures (v + 1) * stride <= w * stride
  {
  }
}
