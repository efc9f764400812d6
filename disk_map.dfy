// A disk of numbered blocks holding numbered files: the file -> blocks and
// block -> file maps, the checksum, and whole-file compaction towards the
// start of the disk.

module DiskMaps {
  import opened Wrappers

  // ---------------------------------------------------------------------------
  // Free spans
  // ---------------------------------------------------------------------------

  /** A run of consecutive free blocks. */
  datatype Span = Span(start: int, length: int)

  predicate Covers(s: Span, b: int)
  { s.start <= b < s.start + s.length }

  /** m is where findFreeSpans stops scanning: the largest occupied block, and never below 0. */
  predicate IsMaxBlock(m: int, occupied: set<int>)
  { m >= 0 && (forall b :: b in occupied ==> b <= m) && (m == 0 || m in occupied) }

  /** s is a maximal run of free blocks within 0..maxBlock. */
  predicate MaximalRun(occupied: set<int>, maxBlock: int, s: Span)
  {
    && s.length >= 1 && 0 <= s.start && s.start + s.length <= maxBlock + 1
    && (forall b :: s.start <= b < s.start + s.length ==> b !in occupied)
    && (s.start == 0 || s.start - 1 in occupied)
    && (s.start + s.length == maxBlock + 1 || s.start + s.length in occupied)
  }

  /** Each span ends before the next one starts, with a block in between. */
  predicate Ascending(spans: seq<Span>)
  { forall i, j :: 0 <= i < j < |spans| ==> spans[i].start + spans[i].length < spans[j].start }

  /**
   * The loop of findFreeSpans from block onwards, with a run open since
   * curStart (-1 when no run is open) of curLength blocks.
   */
  function Scan(occupied: set<int>, block: int, maxBlock: int, curStart: int, curLength: int): seq<Span>
    decreases maxBlock + 1 - block
  {
    if block > maxBlock then
      if curStart != -1 then [Span(curStart, curLength)] else []
    else if block !in occupied then
      if curStart == -1 then Scan(occupied, block + 1, maxBlock, block, 1)
      else Scan(occupied, block + 1, maxBlock, curStart, curLength + 1)
    else if curStart != -1 then
      [Span(curStart, curLength)] + Scan(occupied, block + 1, maxBlock, -1, 0)
    else
      Scan(occupied, block + 1, maxBlock, -1, 0)
  }

  /** findFreeSpans: the free runs of blocks 0..maxBlock, left to right. */
  function FreeSpans(occupied: set<int>, maxBlock: int): seq<Span>
  {
    Scan(occupied, 0, maxBlock, -1, 0)
  }

  /** Every span is a maximal run starting at lo or later. */
  predicate RunsFrom(occupied: set<int>, maxBlock: int, r: seq<Span>, lo: int)
  { forall i :: 0 <= i < |r| ==> MaximalRun(occupied, maxBlock, r[i]) && lo <= r[i].start }

  /** Every free block from lo to maxBlock lies in one of the spans. */
  predicate CoversFrom(occupied: set<int>, maxBlock: int, r: seq<Span>, lo: int)
  { forall b :: lo <= b <= maxBlock && b !in occupied ==> exists i :: 0 <= i < |r| && Covers(r[i], b) }

  /** The state the loop of findFreeSpans keeps when it reaches block. */
  predicate ScanState(occupied: set<int>, block: int, maxBlock: int, curStart: int, curLength: int)
  {
    && 0 <= block <= maxBlock + 1
    && (curStart == -1 ==> curLength == 0 && (block == 0 || block - 1 in occupied))
    && (curStart != -1 ==>
      && 0 <= curStart < block && curLength == block - curStart
      && (forall b :: curStart <= b < block ==> b !in occupied)
      && (curStart == 0 || curStart - 1 in occupied))
  }

  /** What a scan result promises from lo onwards: maximal runs, in ascending order, covering every free block. */
  predicate RunsAfter(occupied: set<int>, maxBlock: int, r: seq<Span>, lo: int)
  {
    RunsFrom(occupied, maxBlock, r, lo) && Ascending(r) && CoversFrom(occupied, maxBlock, r, lo)
  }

  /**
   * What the scan produces from block onwards: maximal runs, in ascending
   * order, starting no earlier than the open run, covering every free block.
   */
  lemma {:induction false} ScanRuns(occupied: set<int>, block: int, maxBlock: int, curStart: int, curLength: int)
    requires ScanState(occupied, block, maxBlock, curStart, curLength)
    ensures RunsAfter(occupied, maxBlock, Scan(occupied, block, maxBlock, curStart, curLength),
                      if curStart == -1 then block else curStart)
    decreases maxBlock + 1 - block, 1
  {
    if block > maxBlock {
      ScanEnd(occupied, block, maxBlock, curStart, curLength);
    } else if block !in occupied {
      ScanFree(occupied, block, maxBlock, curStart, curLength);
    } else {
      ScanTaken(occupied, block, maxBlock, curStart, curLength);
    }
  }

  lemma ScanEnd(occupied: set<int>, block: int, maxBlock: int, curStart: int, curLength: int)
    requires ScanState(occupied, block, maxBlock, curStart, curLength) && block > maxBlock
    ensures RunsAfter(occupied, maxBlock, Scan(occupied, block, maxBlock, curStart, curLength),
                      if curStart == -1 then block else curStart)
  {
    var r := Scan(occupied, block, maxBlock, curStart, curLength);
    if curStart != -1 {
      assert r == [Span(curStart, curLength)];
      assert CoversFrom(occupied, maxBlock, r, curStart) by {
        forall b | curStart <= b <= maxBlock && b !in occupied ensures Covers(r[0], b) { }
      }
    } else {
      assert r == [];
    }
  }

  lemma {:induction false} ScanFree(occupied: set<int>, block: int, maxBlock: int, curStart: int, curLength: int)
    requires ScanState(occupied, block, maxBlock, curStart, curLength) && block <= maxBlock && block !in occupied
    ensures RunsAfter(occupied, maxBlock, Scan(occupied, block, maxBlock, curStart, curLength),
                      if curStart == -1 then block else curStart)
    decreases maxBlock + 1 - block, 0
  {
    var r := Scan(occupied, block, maxBlock, curStart, curLength);
    if curStart == -1 {
      assert r == Scan(occupied, block + 1, maxBlock, block, 1);
      ScanRuns(occupied, block + 1, maxBlock, block, 1);
    } else {
      assert r == Scan(occupied, block + 1, maxBlock, curStart, curLength + 1);
      ScanRuns(occupied, block + 1, maxBlock, curStart, curLength + 1);
    }
  }

  lemma {:induction false} ScanTaken(occupied: set<int>, block: int, maxBlock: int, curStart: int, curLength: int)
    requires ScanState(occupied, block, maxBlock, curStart, curLength) && block <= maxBlock && block in occupied
    ensures RunsAfter(occupied, maxBlock, Scan(occupied, block, maxBlock, curStart, curLength),
                      if curStart == -1 then block else curStart)
    decreases maxBlock + 1 - block, 0
  {
    var r := Scan(occupied, block, maxBlock, curStart, curLength);
    var rest := Scan(occupied, block + 1, maxBlock, -1, 0);
    ScanRuns(occupied, block + 1, maxBlock, -1, 0);
    if curStart != -1 {
      assert r == [Span(curStart, curLength)] + rest;
      ClosedRun(occupied, block, maxBlock, curStart, rest);
    } else {
      assert r == rest;
    }
  }

  /** Closing the open run at an occupied block, in front of what the scan finds after it. */
  lemma ClosedRun(occupied: set<int>, block: int, maxBlock: int, curStart: int, rest: seq<Span>)
    requires 0 <= curStart < block <= maxBlock && block in occupied
    requires forall b :: curStart <= b < block ==> b !in occupied
    requires curStart == 0 || curStart - 1 in occupied
    requires RunsAfter(occupied, maxBlock, rest, block + 1)
    ensures RunsAfter(occupied, maxBlock, [Span(curStart, block - curStart)] + rest, curStart)
  {
    var r := [Span(curStart, block - curStart)] + rest;
    forall i | 0 <= i < |r| ensures MaximalRun(occupied, maxBlock, r[i]) && curStart <= r[i].start {
      if i > 0 {
        assert r[i] == rest[i - 1];
      }
    }
    forall i, j | 0 <= i < j < |r| ensures r[i].start + r[i].length < r[j].start {
      assert r[j] == rest[j - 1];
      if i > 0 {
        assert r[i] == rest[i - 1];
      }
    }
    forall b | curStart <= b <= maxBlock && b !in occupied
      ensures exists i :: 0 <= i < |r| && Covers(r[i], b)
    {
      if b < block {
        assert Covers(r[0], b);
      } else {
        var i :| 0 <= i < |rest| && Covers(rest[i], b);
        assert Covers(r[i + 1], b);
      }
    }
  }

  /** Two maximal runs that share a block are the same run. */
  lemma RunsMeet(occupied: set<int>, maxBlock: int, s: Span, t: Span, b: int)
    requires MaximalRun(occupied, maxBlock, s) && MaximalRun(occupied, maxBlock, t)
    requires Covers(s, b) && Covers(t, b)
    ensures s == t
  {
    assert s.start < t.start ==> Covers(s, t.start - 1);
    assert t.start < s.start ==> Covers(t, s.start - 1);
    assert s.start + s.length < t.start + t.length ==> Covers(t, s.start + s.length);
    assert t.start + t.length < s.start + s.length ==> Covers(s, t.start + t.length);
  }

  /**
   * findFreeSpans lists exactly the maximal free runs of blocks
   * 0..maxBlock, in ascending order.
   */
  lemma FreeSpansAreRuns(occupied: set<int>, maxBlock: int)
    requires maxBlock >= 0
    ensures var r := FreeSpans(occupied, maxBlock);
      && Ascending(r)
      && (forall i :: 0 <= i < |r| ==> MaximalRun(occupied, maxBlock, r[i]))
      && (forall s :: MaximalRun(occupied, maxBlock, s) ==> s in r)
      && (forall b :: 0 <= b <= maxBlock && b !in occupied ==> exists i :: 0 <= i < |r| && Covers(r[i], b))
  {
    var r := FreeSpans(occupied, maxBlock);
    ScanRuns(occupied, 0, maxBlock, -1, 0);
    forall s | MaximalRun(occupied, maxBlock, s) ensures s in r {
      assert Covers(s, s.start) && s.start !in occupied;
      var i :| 0 <= i < |r| && Covers(r[i], s.start);
      RunsMeet(occupied, maxBlock, s, r[i], s.start);
    }
  }

  // ---------------------------------------------------------------------------
  // The choices Compact makes
  // ---------------------------------------------------------------------------

  /** The position of the first span with room for size blocks, or |spans| when none has. */
  function FirstFitIndex(spans: seq<Span>, size: int): (i: int)
    ensures 0 <= i <= |spans|
    ensures i < |spans| ==> spans[i].length >= size
    ensures forall j :: 0 <= j < i ==> spans[j].length < size
    decreases |spans|
  {
    if spans == [] then 0
    else if spans[0].length >= size then 0
    else 1 + FirstFitIndex(spans[1..], size)
  }

  /** The span Compact picks for a file of size blocks. */
  function FirstFit(spans: seq<Span>, size: int): Option<Span>
  {
    var i := FirstFitIndex(spans, size);
    if i < |spans| then Some(spans[i]) else None
  }

  /** The smallest block of a file. */
  function MinOf(blocks: seq<int>): (m: int)
    requires |blocks| > 0
    ensures m in blocks && forall b :: b in blocks ==> m <= b
    decreases |blocks|
  {
    if |blocks| == 1 then blocks[0]
    else
      var m := MinOf(blocks[1..]);
      assert forall b :: b in blocks ==> b == blocks[0] || b in blocks[1..];
      if blocks[0] <= m then blocks[0] else m
  }

  /** The blocks start, start + 1, ..., start + size - 1. */
  function Range(start: int, size: nat): (r: seq<int>)
    ensures |r| == size && forall i :: 0 <= i < size ==> r[i] == start + i
  {
    seq(size, i requires 0 <= i < size => start + i)
  }

  /** A fitting span holds the whole range of blocks that Compact moves the file to. */
  lemma FitIsFree(occupied: set<int>, maxBlock: int, s: Span, size: nat)
    requires MaximalRun(occupied, maxBlock, s) && s.length >= size
    ensures forall b :: b in Range(s.start, size) ==> b !in occupied && 0 <= b <= maxBlock
  {
  }

  /** A non-empty set has an element. */
  lemma Inhabited(s: set<int>)
    requires s != {}
    ensures exists x :: x in s
  {
    assert (forall x :: x !in s) ==> s == {};
  }

  /** The largest of a non-empty set of numbers. */
  ghost function MaxOf(s: set<int>): (m: int)
    requires s != {}
    ensures m in s && forall x :: x in s ==> x <= m
    decreases |s|
  {
    Inhabited(s);
    var y :| y in s;
    var rest := s - {y};
    assert forall x :: x in s ==> x == y || x in rest;
    if rest == {} then y
    else
      var m := MaxOf(rest);
      if y > m then y else m
  }

  /** Where findFreeSpans stops scanning, as a function of the occupied blocks. */
  ghost function MaxBlockOf(occupied: set<int>): (m: int)
    ensures IsMaxBlock(m, occupied)
  {
    if occupied == {} then 0
    else
      var m := MaxOf(occupied);
      if m > 0 then m else 0
  }

  /** IsMaxBlock pins down a single number. */
  lemma MaxBlockUnique(m: int, n: int, occupied: set<int>)
    requires IsMaxBlock(m, occupied) && IsMaxBlock(n, occupied)
    ensures m == n
  {
  }

  /** The file IDs in the order Compact visits them. */
  ghost function Descending(s: set<int>): (r: seq<int>)
    ensures forall x :: x in r ==> x in s
    decreases |s|
  {
    if s == {} then []
    else
      var m := MaxOf(s);
      var rest := Descending(s - {m});
      assert forall x :: x in [m] + rest ==> x == m || x in rest;
      [m] + rest
  }

  /** Descending lists every ID of the set, and nothing else. */
  lemma {:induction false} DescendingMembers(s: set<int>)
    ensures |Descending(s)| == |s|
    ensures forall x :: x in Descending(s) <==> x in s
    decreases |s|
  {
    if s != {} {
      var m := MaxOf(s);
      DescendingMembers(s - {m});
      assert Descending(s) == [m] + Descending(s - {m});
    }
  }

  /** Strictly decreasing. */
  predicate Decreasing(r: seq<int>)
  { forall i, j :: 0 <= i < j < |r| ==> r[i] > r[j] }

  /** Descending lists the IDs from the largest down, each once. */
  lemma {:induction false} DescendingOrder(s: set<int>)
    ensures Decreasing(Descending(s))
    decreases |s|
  {
    if s == {} {
      assert Descending(s) == [];
    } else {
      var m := MaxOf(s);
      var rest := Descending(s - {m});
      assert Descending(s) == [m] + rest;
      DescendingOrder(s - {m});
      DescendingBelow(s - {m}, m);
      PrependLarger(m, rest);
    }
  }

  /** A bound on the set bounds the IDs Descending lists. */
  lemma {:induction false} DescendingBelow(s: set<int>, bound: int)
    requires forall x :: x in s ==> x < bound
    ensures forall x :: x in Descending(s) ==> x < bound
    decreases |s|
  {
    if s != {} {
      var m := MaxOf(s);
      assert Descending(s) == [m] + Descending(s - {m});
      DescendingBelow(s - {m}, bound);
    }
  }

  lemma PrependLarger(m: int, rest: seq<int>)
    requires Decreasing(rest) && forall x :: x in rest ==> x < m
    ensures Decreasing([m] + rest)
  {
    var r := [m] + rest;
    forall i, j | 0 <= i < j < |r| ensures r[i] > r[j] {
      var y := rest[j - 1];
      assert r[j] == y && y in rest;
      if i > 0 {
        assert r[i] == rest[i - 1];
      }
    }
  }

  // ---------------------------------------------------------------------------
  // The disk's maps as values
  // ---------------------------------------------------------------------------

  /** The three maps of a DiskMap. */
  datatype Disk = Disk(fileSize: map<int, int>, fileBlockIndex: map<int, seq<int>>, blockToFile: map<int, int>)

  /**
   * The maps agree: the same files in the first two, each file's size is its
   * number of blocks, no file lists a block twice, and the block map is
   * exactly the inverse of the file map.
   */
  predicate Consistent(d: Disk)
  {
    && d.fileSize.Keys == d.fileBlockIndex.Keys
    && (forall f :: f in d.fileBlockIndex ==> d.fileSize[f] == |d.fileBlockIndex[f]| && Distinct(d.fileBlockIndex[f]))
    && (forall f, b :: f in d.fileBlockIndex && b in d.fileBlockIndex[f] ==> b in d.blockToFile && d.blockToFile[b] == f)
    && (forall b :: b in d.blockToFile ==> d.blockToFile[b] in d.fileBlockIndex && b in d.fileBlockIndex[d.blockToFile[b]])
  }

  /** owner with every one of blocks given to file f, one after another. */
  function Claim(owner: map<int, int>, blocks: seq<int>, f: int): (r: map<int, int>)
    ensures forall b :: b in r <==> b in owner || b in blocks
    ensures forall b :: b in r ==> r[b] == if b in blocks then f else owner[b]
  {
    if blocks == [] then owner
    else
      var init := blocks[..|blocks| - 1];
      assert forall b :: b in blocks <==> b in init || b == blocks[|blocks| - 1];
      Claim(owner, init, f)[blocks[|blocks| - 1] := f]
  }

  /** owner without the blocks, removed one after another. */
  function Release(owner: map<int, int>, blocks: seq<int>): (r: map<int, int>)
    ensures forall b :: b in r <==> b in owner && b !in blocks
    ensures forall b :: b in r ==> r[b] == owner[b]
  {
    if blocks == [] then owner
    else
      var init := blocks[..|blocks| - 1];
      assert forall b :: b in blocks <==> b in init || b == blocks[|blocks| - 1];
      Release(owner, init) - {blocks[|blocks| - 1]}
  }

  lemma ClaimStep(owner: map<int, int>, blocks: seq<int>, i: int, f: int)
    requires 0 <= i < |blocks|
    ensures Claim(owner, blocks[..i + 1], f) == Claim(owner, blocks[..i], f)[blocks[i] := f]
  {
    assert blocks[..i + 1][..i] == blocks[..i];
  }

  lemma ReleaseStep(owner: map<int, int>, blocks: seq<int>, i: int)
    requires 0 <= i < |blocks|
    ensures Release(owner, blocks[..i + 1]) == Release(owner, blocks[..i]) - {blocks[i]}
  {
    assert blocks[..i + 1][..i] == blocks[..i];
  }

  /** AddFile finds block j of blocks taken: owned before the call, or listed earlier. */
  predicate Clashes(owner: map<int, int>, blocks: seq<int>, j: int)
    requires 0 <= j < |blocks|
  {
    blocks[j] in owner || blocks[j] in blocks[..j]
  }

  /** The position of the first block AddFile finds taken; |blocks| when there is none. */
  function FirstClash(owner: map<int, int>, blocks: seq<int>): (k: int)
    ensures 0 <= k <= |blocks|
    ensures forall j :: 0 <= j < k ==> !Clashes(owner, blocks, j)
    ensures k < |blocks| ==> Clashes(owner, blocks, k)
  {
    ClashFrom(owner, blocks, 0)
  }

  function ClashFrom(owner: map<int, int>, blocks: seq<int>, i: int): (k: int)
    requires 0 <= i <= |blocks|
    ensures i <= k <= |blocks|
    ensures forall j :: i <= j < k ==> !Clashes(owner, blocks, j)
    ensures k < |blocks| ==> Clashes(owner, blocks, k)
    decreases |blocks| - i
  {
    if i == |blocks| then i
    else if Clashes(owner, blocks, i) then i
    else ClashFrom(owner, blocks, i + 1)
  }

  /** AddFile meets no taken block exactly when the blocks are distinct and all free. */
  lemma NoClash(owner: map<int, int>, blocks: seq<int>)
    ensures FirstClash(owner, blocks) == |blocks| <==> Distinct(blocks) && forall b :: b in blocks ==> b !in owner
  {
    var k := FirstClash(owner, blocks);
    if k == |blocks| {
      forall i, j | 0 <= i < j < |blocks| ensures blocks[i] != blocks[j] {
        assert !Clashes(owner, blocks, j);
        assert blocks[i] in blocks[..j];
      }
      forall b | b in blocks ensures b !in owner {
        var j :| 0 <= j < |blocks| && blocks[j] == b;
        assert !Clashes(owner, blocks, j);
      }
    } else {
      assert Clashes(owner, blocks, k);
      var b := blocks[k];
      if b in blocks[..k] {
        var j :| 0 <= j < k && blocks[j] == b;
        assert !Distinct(blocks);
      } else {
        assert b in blocks && b in owner;
      }
    }
  }

  /**
   * AddFile's effect on a new file ID: the size and the block list recorded,
   * and the blocks before the first taken one given to the file.
   */
  function Added(d: Disk, f: int, blocks: seq<int>): Disk
  {
    var k := FirstClash(d.blockToFile, blocks);
    Disk(d.fileSize[f := |blocks|], d.fileBlockIndex[f := blocks], Claim(d.blockToFile, blocks[..k], f))
  }

  /** A new file on distinct free blocks keeps the maps consistent. */
  lemma AddedConsistent(d: Disk, f: int, blocks: seq<int>)
    requires Consistent(d) && f !in d.fileSize
    requires FirstClash(d.blockToFile, blocks) == |blocks|
    ensures Consistent(Added(d, f, blocks))
  {
    NoClash(d.blockToFile, blocks);
    assert blocks[..|blocks|] == blocks;
    var e := Added(d, f, blocks);
    assert e.blockToFile == Claim(d.blockToFile, blocks, f);
    forall g, b | g in e.fileBlockIndex && b in e.fileBlockIndex[g]
      ensures b in e.blockToFile && e.blockToFile[b] == g
    {
      if g != f {
        assert b in d.blockToFile && b !in blocks;
      }
    }
    forall b | b in e.blockToFile
      ensures e.blockToFile[b] in e.fileBlockIndex && b in e.fileBlockIndex[e.blockToFile[b]]
    {
      if b !in blocks {
        assert b in d.blockToFile && d.blockToFile[b] != f;
      }
    }
  }

  /** moveFile's effect: the file's blocks freed and the targets given to it. */
  function Moved(d: Disk, f: int, targets: seq<int>): Disk
    requires f in d.fileBlockIndex
  {
    Disk(d.fileSize, d.fileBlockIndex[f := targets], Claim(Release(d.blockToFile, d.fileBlockIndex[f]), targets, f))
  }

  /** Moving a file to as many distinct free blocks keeps the maps consistent. */
  lemma MovedConsistent(d: Disk, f: int, targets: seq<int>)
    requires Consistent(d) && f in d.fileBlockIndex
    requires Distinct(targets) && |targets| == |d.fileBlockIndex[f]|
    requires forall b :: b in targets ==> b !in d.blockToFile
    ensures Consistent(Moved(d, f, targets))
  {
    var e := Moved(d, f, targets);
    forall g, b | g in e.fileBlockIndex && b in e.fileBlockIndex[g]
      ensures b in e.blockToFile && e.blockToFile[b] == g
    {
      if g != f {
        assert b in d.blockToFile && d.blockToFile[b] == g;
        assert b !in d.fileBlockIndex[f] && b !in targets;
      }
    }
    forall b | b in e.blockToFile
      ensures e.blockToFile[b] in e.fileBlockIndex && b in e.fileBlockIndex[e.blockToFile[b]]
    {
      if b !in targets {
        assert b in d.blockToFile && b !in d.fileBlockIndex[f];
      }
    }
  }

  /** fileID times block, summed over blocks. */
  function BlockSum(f: int, blocks: seq<int>): int
  {
    if blocks == [] then 0 else BlockSum(f, blocks[..|blocks| - 1]) + f * blocks[|blocks| - 1]
  }

  /** The checksum of a disk: the sum of fileID times block over every block of every file. */
  ghost function Checksum(files: map<int, seq<int>>): int
    decreases |files.Keys|
  {
    if files == map[] then 0
    else
      var f := AnyFile(files);
      BlockSum(f, files[f]) + Checksum(files - {f})
  }

  /** Some file of a non-empty map; which one is left open. */
  ghost function AnyFile(files: map<int, seq<int>>): (f: int)
    requires files != map[]
    ensures f in files
  {
    assert (forall f :: f !in files) ==> files == map[];
    var f :| f in files; f
  }

  /** The checksum does not depend on the order the files are visited in. */
  lemma {:induction false} ChecksumAny(files: map<int, seq<int>>, f: int)
    requires f in files
    ensures Checksum(files) == BlockSum(f, files[f]) + Checksum(files - {f})
    decreases |files.Keys|
  {
    var g := AnyFile(files);
    assert Checksum(files) == BlockSum(g, files[g]) + Checksum(files - {g});
    if g != f {
      ChecksumAny(files - {g}, f);
      ChecksumAny(files - {f}, g);
      assert files - {g} - {f} == files - {f} - {g};
    }
  }

  // ---------------------------------------------------------------------------
  // Compaction as a function of the maps
  // ---------------------------------------------------------------------------

  /** s is the leftmost maximal free run with room for size blocks. */
  ghost predicate FirstRoom(occupied: set<int>, maxBlock: int, s: Span, size: int)
  {
    && MaximalRun(occupied, maxBlock, s) && s.length >= size
    && forall t :: MaximalRun(occupied, maxBlock, t) && t.start < s.start ==> t.length < size
  }

  /** The blocks Compact moves a file to are free and distinct. */
  lemma TargetsFree(d: Disk, f: int, s: Span, size: nat)
    requires Consistent(d)
    requires s in FreeSpans(d.blockToFile.Keys, MaxBlockOf(d.blockToFile.Keys)) && s.length >= size
    ensures Distinct(Range(s.start, size))
    ensures forall b :: b in Range(s.start, size) ==> b !in d.blockToFile
  {
    var occupied := d.blockToFile.Keys;
    FreeSpansAreRuns(occupied, MaxBlockOf(occupied));
    FitIsFree(occupied, MaxBlockOf(occupied), s, size);
  }

  /**
   * One round of Compact's loop, for file f: a file of positive size moves
   * to the start of the first free span with room for it, when that span
   * starts left of the file's lowest block.
   */
  ghost function CompactStep(d: Disk, f: int): (r: Disk)
    requires Consistent(d) && f in d.fileSize
    ensures Consistent(r) && r.fileSize == d.fileSize
  {
    var size := d.fileSize[f];
    var occupied := d.blockToFile.Keys;
    var fit := FirstFit(FreeSpans(occupied, MaxBlockOf(occupied)), size);
    if size <= 0 || fit.None? || fit.value.start >= MinOf(d.fileBlockIndex[f]) then d
    else
      TargetsFree(d, f, fit.value, size);
      MovedConsistent(d, f, Range(fit.value.start, size));
      Moved(d, f, Range(fit.value.start, size))
  }

  /** Compact's loop over the files ids, in order. */
  ghost function CompactAll(d: Disk, ids: seq<int>): (r: Disk)
    requires Consistent(d) && forall f :: f in ids ==> f in d.fileSize
    ensures Consistent(r) && r.fileSize == d.fileSize
    ensures forall f :: f in d.fileBlockIndex ==> f in r.fileBlockIndex && |r.fileBlockIndex[f]| == |d.fileBlockIndex[f]|
    decreases |ids|
  {
    if ids == [] then d
    else
      var last := ids[|ids| - 1];
      var init := ids[..|ids| - 1];
      assert forall f :: f in init ==> f in ids;
      CompactStep(CompactAll(d, init), last)
  }

  /** Compact's loop one file further. */
  lemma CompactAllNext(d: Disk, ids: seq<int>, i: int)
    requires Consistent(d) && forall f :: f in ids ==> f in d.fileSize
    requires 0 <= i < |ids|
    ensures forall f :: f in ids[..i] ==> f in d.fileSize
    ensures var prev := CompactAll(d, ids[..i]);
      ids[i] in prev.fileSize && CompactAll(d, ids[..i + 1]) == CompactStep(prev, ids[i])
  {
    assert ids[..i + 1][..i] == ids[..i];
    assert forall f :: f in ids[..i] ==> f in ids;
    var f := ids[i];
    assert f in ids;
  }

  /**
   * A round changes the disk exactly when the leftmost free run with room
   * for the file starts left of the file's lowest block, and then the file
   * occupies the first blocks of that run.
   */
  lemma CompactStepMoves(d: Disk, f: int)
    requires Consistent(d) && f in d.fileSize
    ensures
      var occupied := d.blockToFile.Keys;
      var maxBlock := MaxBlockOf(occupied);
      var size := d.fileSize[f];
      var r := CompactStep(d, f);
      && (r != d ==>
        && size > 0
        && exists s :: FirstRoom(occupied, maxBlock, s, size) && s.start < MinOf(d.fileBlockIndex[f])
                       && r == Moved(d, f, Range(s.start, size)))
      && (size > 0 && (exists s :: FirstRoom(occupied, maxBlock, s, size) && s.start < MinOf(d.fileBlockIndex[f]))
          ==> r != d)
  {
    StepMovesToRoom(d, f);
    RoomMakesStep(d, f);
  }

  lemma StepMovesToRoom(d: Disk, f: int)
    requires Consistent(d) && f in d.fileSize
    ensures
      var occupied := d.blockToFile.Keys;
      var maxBlock := MaxBlockOf(occupied);
      var size := d.fileSize[f];
      var r := CompactStep(d, f);
      r != d ==>
        && size > 0
        && exists s :: FirstRoom(occupied, maxBlock, s, size) && s.start < MinOf(d.fileBlockIndex[f])
                       && r == Moved(d, f, Range(s.start, size))
  {
    var occupied := d.blockToFile.Keys;
    var maxBlock := MaxBlockOf(occupied);
    var size := d.fileSize[f];
    var spans := FreeSpans(occupied, maxBlock);
    var i := FirstFitIndex(spans, size);
    if size > 0 && i < |spans| {
      FreeSpansAreRuns(occupied, maxBlock);
      FirstFitRoom(occupied, maxBlock, spans, i, size);
    }
  }

  lemma RoomMakesStep(d: Disk, f: int)
    requires Consistent(d) && f in d.fileSize
    ensures
      var occupied := d.blockToFile.Keys;
      var maxBlock := MaxBlockOf(occupied);
      var size := d.fileSize[f];
      (size > 0 && exists s :: FirstRoom(occupied, maxBlock, s, size) && s.start < MinOf(d.fileBlockIndex[f]))
      ==> CompactStep(d, f) != d
  {
    var occupied := d.blockToFile.Keys;
    var maxBlock := MaxBlockOf(occupied);
    var size := d.fileSize[f];
    if size > 0 && exists s :: FirstRoom(occupied, maxBlock, s, size) && s.start < MinOf(d.fileBlockIndex[f]) {
      var s :| FirstRoom(occupied, maxBlock, s, size) && s.start < MinOf(d.fileBlockIndex[f]);
      var spans := FreeSpans(occupied, maxBlock);
      FreeSpansAreRuns(occupied, maxBlock);
      assert s in spans;
      RoomIsFirstFit(occupied, maxBlock, spans, s, size);
      var b := s.start;
      var r := CompactStep(d, f);
      assert r == Moved(d, f, Range(b, size));
      assert Range(b, size)[0] == b && b !in d.fileBlockIndex[f];
      assert b in r.fileBlockIndex[f];
    }
  }

  /** The span FirstFit picks from the free spans is the leftmost free run with room. */
  lemma FirstFitRoom(occupied: set<int>, maxBlock: int, spans: seq<Span>, i: int, size: int)
    requires Ascending(spans) && forall t :: MaximalRun(occupied, maxBlock, t) ==> t in spans
    requires i == FirstFitIndex(spans, size) && i < |spans| && MaximalRun(occupied, maxBlock, spans[i])
    ensures FirstRoom(occupied, maxBlock, spans[i], size)
  {
    forall t | MaximalRun(occupied, maxBlock, t) && t.start < spans[i].start
      ensures t.length < size
    {
      var j :| 0 <= j < |spans| && spans[j] == t;
      EarlierStart(spans, j, i);
    }
  }

  /** The leftmost free run with room is the span FirstFit picks. */
  lemma RoomIsFirstFit(occupied: set<int>, maxBlock: int, spans: seq<Span>, s: Span, size: int)
    requires Ascending(spans) && (forall i :: 0 <= i < |spans| ==> MaximalRun(occupied, maxBlock, spans[i])) && s in spans
    requires FirstRoom(occupied, maxBlock, s, size)
    ensures FirstFit(spans, size) == Some(s)
  {
    var i := FirstFitIndex(spans, size);
    var j :| 0 <= j < |spans| && spans[j] == s;
    assert i <= j;
    EarlierStart(spans, i, j);
    var t := spans[i];
    assert MaximalRun(occupied, maxBlock, t) && t.length >= size;
    assert i == j;
  }

  /** In ascending spans, a span that starts earlier comes earlier. */
  lemma EarlierStart(spans: seq<Span>, j: int, i: int)
    requires Ascending(spans) && 0 <= j < |spans| && 0 <= i < |spans|
    requires spans[j].length >= 0 && spans[i].length >= 0
    ensures spans[j].start < spans[i].start <==> j < i
  {
  }

  // ---------------------------------------------------------------------------
  // The DiskMap object
  // ---------------------------------------------------------------------------

  class DiskMap {
    /** The size of each file, in blocks. */
    var fileSize: map<int, int>
    /** The blocks of each file, in the order they were given. */
    var fileBlockIndex: map<int, seq<int>>
    /** The file that owns each occupied block. */
    var blockToFile: map<int, int>
    /** The checksum as last computed; big.Int, so never wrapped. */
    var checksum: int

    function State(): Disk
      reads this
    {
      Disk(fileSize, fileBlockIndex, blockToFile)
    }

    ghost predicate Valid()
      reads this
    {
      Consistent(State())
    }

    /** NewDiskMap: no files, no blocks. */
    constructor ()
      ensures fileSize == map[] && fileBlockIndex == map[] && blockToFile == map[] && checksum == 0
      ensures Valid()
    {
      fileSize, fileBlockIndex, blockToFile := map[], map[], map[];
      checksum := 0;
    }

    /**
     * AddFile: a known file ID is refused with nothing changed; otherwise the
     * size and blocks are recorded, the blocks are claimed one by one, and the
     * first block found taken stops the call with an error, leaving what was
     * already recorded and claimed in place.
     */
    method AddFile(fileID: int, blocks: seq<int>) returns (r: Outcome)
      modifies this
      ensures fileID in old(fileSize) ==> r.Fail? && unchanged(this)
      ensures fileID !in old(fileSize) ==> State() == Added(old(State()), fileID, blocks)
      ensures fileID !in old(fileSize) ==> (r.Pass? <==> FirstClash(old(blockToFile), blocks) == |blocks|)
      ensures checksum == old(checksum)
      ensures r.Pass? && old(Valid()) ==> Valid()
    {
      if fileID in fileSize {
        return Fail("file ID already exists");
      }
      ghost var d := State();
      fileSize := fileSize[fileID := |blocks|];
      fileBlockIndex := fileBlockIndex[fileID := blocks];
      var owned, claimed := ClaimBlocks(blockToFile, blocks, fileID);
      blockToFile := owned;
      if !claimed {
        return Fail("block is already occupied");
      }
      if old(Valid()) {
        AddedConsistent(d, fileID, blocks);
      }
      return Pass;
    }

    /**
     * moveFile: an unknown file or an occupied target is refused with
     * nothing changed; otherwise the file's blocks are freed, the targets
     * given to it, and its block list replaced.
     */
    method MoveFile(fileID: int, targetBlocks: seq<int>) returns (r: Outcome)
      modifies this
      ensures r.Pass? <==> fileID in old(fileBlockIndex) && forall b :: b in targetBlocks ==> b !in old(blockToFile)
      ensures r.Fail? ==> unchanged(this)
      ensures r.Pass? ==> State() == Moved(old(State()), fileID, targetBlocks) && checksum == old(checksum)
    {
      if fileID !in fileBlockIndex {
        return Fail("file ID not found");
      }
      var currentBlocks := fileBlockIndex[fileID];
      var i := 0;
      while i < |targetBlocks|
        invariant 0 <= i <= |targetBlocks|
        invariant forall j :: 0 <= j < i ==> targetBlocks[j] !in blockToFile
      {
        var block := targetBlocks[i];
        if block in blockToFile {
          assert block in targetBlocks;
          return Fail("target block is already occupied");
        }
        i := i + 1;
      }
      ghost var owner := blockToFile;
      assert forall b :: b in targetBlocks ==> b !in owner;
      i := 0;
      assert Release(owner, currentBlocks[..0]) == owner;
      while i < |currentBlocks|
        invariant 0 <= i <= |currentBlocks|
        invariant blockToFile == Release(owner, currentBlocks[..i])
        invariant fileSize == old(fileSize) && fileBlockIndex == old(fileBlockIndex) && checksum == old(checksum)
      {
        ReleaseStep(owner, currentBlocks, i);
        blockToFile := blockToFile - {currentBlocks[i]};
        i := i + 1;
      }
      assert currentBlocks[..i] == currentBlocks;
      ghost var freed := blockToFile;
      i := 0;
      assert Claim(freed, targetBlocks[..0], fileID) == freed;
      while i < |targetBlocks|
        invariant 0 <= i <= |targetBlocks|
        invariant blockToFile == Claim(freed, targetBlocks[..i], fileID)
        invariant fileSize == old(fileSize) && fileBlockIndex == old(fileBlockIndex) && checksum == old(checksum)
      {
        ClaimStep(freed, targetBlocks, i, fileID);
        blockToFile := blockToFile[targetBlocks[i] := fileID];
        i := i + 1;
      }
      assert targetBlocks[..i] == targetBlocks;
      fileBlockIndex := fileBlockIndex[fileID := targetBlocks];
      return Pass;
    }

    /** UpdateChecksum: the checksum recomputed from the file map, and returned. */
    method UpdateChecksum() returns (r: int)
      modifies this
      ensures r == checksum == Checksum(fileBlockIndex)
      ensures State() == old(State())
    {
      checksum := 0;
      var rest := fileBlockIndex;
      while rest != map[]
        invariant checksum + Checksum(rest) == Checksum(fileBlockIndex)
        invariant State() == old(State())
        decreases |rest.Keys|
      {
        assert (forall f :: f !in rest) ==> rest == map[];
        var fileID :| fileID in rest;
        var blocks := rest[fileID];
        ghost var before := checksum;
        var i := 0;
        while i < |blocks|
          invariant 0 <= i <= |blocks|
          invariant checksum == before + BlockSum(fileID, blocks[..i])
          invariant State() == old(State())
        {
          assert blocks[..i + 1][..i] == blocks[..i];
          checksum := checksum + fileID * blocks[i];
          i := i + 1;
        }
        assert blocks[..i] == blocks;
        ChecksumAny(rest, fileID);
        rest := rest - {fileID};
      }
      r := checksum;
    }

    /** The scan bound of findFreeSpans: the largest occupied block, or 0. */
    method MaxBlock() returns (m: int)
      ensures IsMaxBlock(m, blockToFile.Keys)
    {
      m := 0;
      var rest := blockToFile.Keys;
      while rest != {}
        invariant rest <= blockToFile.Keys
        invariant m >= 0 && (m == 0 || m in blockToFile)
        invariant forall b :: b in blockToFile && b !in rest ==> b <= m
        decreases |rest|
      {
        Inhabited(rest);
        var block :| block in rest;
        if block > m {
          m := block;
        }
        rest := rest - {block};
      }
    }

    /** findFreeSpans: the free runs of blocks up to the largest occupied one. */
    method FindFreeSpans() returns (spans: seq<Span>)
      ensures spans == FreeSpans(blockToFile.Keys, MaxBlockOf(blockToFile.Keys))
    {
      var maxBlock := MaxBlock();
      MaxBlockUnique(maxBlock, MaxBlockOf(blockToFile.Keys), blockToFile.Keys);
      ghost var occupied := blockToFile.Keys;
      spans := [];
      var currentStart, currentLength := -1, 0;
      var block := 0;
      while block <= maxBlock
        invariant 0 <= block <= maxBlock + 1
        invariant spans + Scan(occupied, block, maxBlock, currentStart, currentLength) == FreeSpans(occupied, maxBlock)
      {
        if block !in blockToFile {
          if currentStart == -1 {
            currentStart, currentLength := block, 1;
          } else {
            currentLength := currentLength + 1;
          }
        } else if currentStart != -1 {
          spans := spans + [Span(currentStart, currentLength)];
          currentStart, currentLength := -1, 0;
        }
        block := block + 1;
      }
      if currentStart != -1 {
        spans := spans + [Span(currentStart, currentLength)];
      }
    }

    /**
     * One round of Compact's loop: find the free spans, pick the first one
     * with room for the file, and move the file there when that span starts
     * left of the file's lowest block.
     */
    method CompactOne(fileID: int)
      requires Valid() && fileID in fileSize
      modifies this
      ensures State() == CompactStep(old(State()), fileID) && checksum == old(checksum)
    {
      var freeSpans := FindFreeSpans();
      // The spans come out of the scan ordered by start (FreeSpansAreRuns),
      // so sorting them by start leaves them as they are.
      var size := fileSize[fileID];
      if size <= 0 {
        return;
      }
      var span := FindFit(freeSpans, size);
      var smallest := SmallestBlock(fileBlockIndex[fileID]);
      if span.None? || span.value.start >= smallest {
        return;
      }
      var targetBlocks := Consecutive(span.value.start, size);
      TargetsFree(State(), fileID, span.value, size);
      var res := MoveFile(fileID, targetBlocks);
      // moveFile cannot refuse here: the targets lie in a free span.
      assert res.Pass?;
    }

    /**
     * Compact: with no occupied block nothing happens; otherwise every file,
     * in decreasing ID order, gets one round, and the checksum is recomputed.
     */
    method Compact()
      requires Valid()
      modifies this
      ensures old(blockToFile) == map[] ==> unchanged(this)
      ensures old(blockToFile) != map[] ==>
        && State() == CompactAll(old(State()), Descending(old(fileSize).Keys))
        && checksum == Checksum(fileBlockIndex)
      ensures Valid() && fileSize == old(fileSize)
    {
      if blockToFile == map[] {
        return;
      }
      ghost var d := State();
      var fileIDs := SortedDescending(fileSize.Keys);
      var i := 0;
      while i < |fileIDs|
        invariant 0 <= i <= |fileIDs|
        invariant State() == CompactAll(d, fileIDs[..i])
      {
        CompactAllNext(d, fileIDs, i);
        CompactOne(fileIDs[i]);
        i := i + 1;
      }
      assert fileIDs[..i] == fileIDs;
      var _ := UpdateChecksum();
    }
  }

  /**
   * AddFile's loop: give the blocks to f one by one, stopping at the first
   * one found taken.
   */
  method ClaimBlocks(owner: map<int, int>, blocks: seq<int>, f: int) returns (owned: map<int, int>, claimed: bool)
    ensures var k := FirstClash(owner, blocks);
      owned == Claim(owner, blocks[..k], f) && (claimed <==> k == |blocks|)
  {
    owned := owner;
    var i := 0;
    claimed := true;
    while i < |blocks|
      invariant 0 <= i <= FirstClash(owner, blocks)
      invariant owned == Claim(owner, blocks[..i], f)
    {
      var block := blocks[i];
      if block in owned {
        assert Clashes(owner, blocks, i);
        claimed := false;
        break;
      }
      assert !Clashes(owner, blocks, i);
      ClaimStep(owner, blocks, i, f);
      owned := owned[block := f];
      i := i + 1;
    }
  }

  /** The first span with room for size blocks, as Compact's search loop finds it. */
  method FindFit(spans: seq<Span>, size: int) returns (fit: Option<Span>)
    ensures fit == FirstFit(spans, size)
  {
    var i := 0;
    while i < |spans|
      invariant 0 <= i <= |spans|
      invariant forall j :: 0 <= j < i ==> spans[j].length < size
    {
      if spans[i].length >= size {
        return Some(spans[i]);
      }
      i := i + 1;
    }
    return None;
  }

  /** The lowest block of a file, as Compact's scan of its blocks finds it. */
  method SmallestBlock(blocks: seq<int>) returns (m: int)
    requires |blocks| > 0
    ensures m == MinOf(blocks)
  {
    m := blocks[0];
    var i := 0;
    while i < |blocks|
      invariant 0 <= i <= |blocks|
      invariant m in blocks && forall j :: 0 <= j < i ==> m <= blocks[j]
    {
      if blocks[i] < m {
        m := blocks[i];
      }
      i := i + 1;
    }
  }

  /** The target blocks start, start + 1, ..., filled into a fresh array. */
  method Consecutive(start: int, size: nat) returns (r: seq<int>)
    ensures r == Range(start, size)
  {
    var a := new int[size];
    for i := 0 to size
      invariant forall j :: 0 <= j < i ==> a[j] == start + j
    {
      a[i] := start + i;
    }
    r := a[..];
  }

  /** The largest file ID of a non-empty set. */
  method Largest(ids: set<int>) returns (m: int)
    requires ids != {}
    ensures m == MaxOf(ids)
  {
    Inhabited(ids);
    m :| m in ids;
    var rest := ids - {m};
    while rest != {}
      invariant rest <= ids && m in ids
      invariant forall x :: x in ids && x !in rest ==> x <= m
      decreases |rest|
    {
      Inhabited(rest);
      var x :| x in rest;
      if x > m {
        m := x;
      }
      rest := rest - {x};
    }
  }

  /** The file IDs collected and sorted into decreasing order. */
  method SortedDescending(ids: set<int>) returns (r: seq<int>)
    ensures r == Descending(ids)
  {
    r := [];
    var rest := ids;
    while rest != {}
      invariant r + Descending(rest) == Descending(ids)
      decreases |rest|
    {
      var m := Largest(rest);
      assert Descending(rest) == [m] + Descending(rest - {m});
      r := r + [m];
      rest := rest - {m};
    }
  }
}
