/** External merge sort: sorted runs of as many words as fit in memory, merged through a
    priority queue that holds the next word of every run. */
module ExternalSort {
  import opened Bytes
  import opened MergeQueue
  import opened WordFile

  predicate Ascending(s: seq<u64>) {
    forall i, j :: 0 <= i < j < |s| ==> s[i] <= s[j]
  }

  // ---------- Sorting in memory ----------

  function Inserted(s: seq<u64>, x: u64): (r: seq<u64>)
    requires Ascending(s)
    ensures Ascending(r) && multiset(r) == multiset(s) + multiset{x}
  {
    if s == [] then [x]
    else if s[|s| - 1] <= x then s + [x]
    else
      var front, last := s[..|s| - 1], s[|s| - 1];
      var r := Inserted(front, x);
      assert s == front + [last];
      AscendingSnoc(r, last, multiset(front) + multiset{x});
      r + [last]
  }

  lemma AscendingSnoc(r: seq<u64>, last: u64, words: multiset<u64>)
    requires Ascending(r) && multiset(r) == words && forall y :: y in words ==> y <= last
    ensures Ascending(r + [last])
  {
    forall k | 0 <= k < |r| ensures r[k] <= last {
      assert r[k] in multiset(r);
    }
  }

  function Sorted(s: seq<u64>): (r: seq<u64>)
    ensures Ascending(r) && multiset(r) == multiset(s)
  {
    if s == [] then [] else
      assert s == s[..|s| - 1] + [s[|s| - 1]];
      Inserted(Sorted(s[..|s| - 1]), s[|s| - 1])
  }

  lemma SameSize(a: seq<u64>, b: seq<u64>)
    requires multiset(a) == multiset(b)
    ensures |a| == |b|
  {
    assert |multiset(a)| == |a| && |multiset(b)| == |b|;
  }

  method Sort(a: array<u64>)
    modifies a
    ensures Ascending(a[..]) && multiset(a[..]) == multiset(old(a[..]))
  {
    var sorted := Sorted(a[..]);
    SameSize(a[..], sorted);
    forall i | 0 <= i < a.Length {
      a[i] := sorted[i];
    }
    assert a[..] == sorted;
  }

  // ---------- Chunks ----------

  function ChunkCount(n: nat, perChunk: nat): nat
    requires perChunk > 0
  {
    (n + perChunk - 1) / perChunk
  }

  function ChunkSize(n: nat, perChunk: nat, i: nat): nat
    requires i * perChunk <= n
  {
    if perChunk <= n - i * perChunk then perChunk else n - i * perChunk
  }

  /** The chunks tile the input: none is empty, all but the last are full, the last one ends
      with the input. */
  lemma ChunksTile(n: nat, perChunk: nat, i: nat)
    requires perChunk > 0 && i < ChunkCount(n, perChunk)
    ensures i * perChunk < n && 0 < ChunkSize(n, perChunk, i) <= perChunk
    ensures i * perChunk + ChunkSize(n, perChunk, i) == if i + 1 == ChunkCount(n, perChunk) then n
      else (i + 1) * perChunk
    ensures i + 1 < ChunkCount(n, perChunk) ==> (i + 1) * perChunk < n
  {
    var count, up := ChunkCount(n, perChunk), n + perChunk - 1;
    assert up == count * perChunk + up % perChunk;
    Times(i, count - 1, perChunk);
    assert (i + 1) * perChunk == i * perChunk + perChunk;
    if i + 1 < count {
      Times(i + 1, count - 1, perChunk);
    }
    assert (count - 1) * perChunk == count * perChunk - perChunk;
  }

  lemma Times(i: nat, j: nat, k: nat)
    requires i <= j
    ensures i * k <= j * k
  {
  }

  // ---------- Runs ----------

  ghost function Pooled(runs: seq<seq<u64>>): multiset<u64> {
    if runs == [] then multiset{} else Pooled(runs[..|runs| - 1]) + multiset(runs[|runs| - 1])
  }

  /** Ascending runs of the chunk sizes. */
  ghost predicate GoodRuns(runs: seq<seq<u64>>, n: nat, perChunk: nat) {
    perChunk > 0 && |runs| <= ChunkCount(n, perChunk)
    && forall i :: 0 <= i < |runs| ==> Ascending(runs[i]) && i * perChunk < n && |runs[i]| == ChunkSize(n, perChunk, i)
  }

  ghost predicate RunsStored(files: seq<File>, runs: seq<seq<u64>>)
    reads files
  {
    |files| == |runs| && forall i :: 0 <= i < |files| ==> Stores(files[i].content, runs[i])
  }

  /** Reads one chunk, sorts it and writes it to a temporary file. The buffer fits in memory. */
  method MakeRun(input: File, first: nat, size: nat, memSize: nat) returns (file: File, ghost run: seq<u64>)
    requires 8 * size <= memSize
    ensures fresh(file) && Stores(file.content, run) && Ascending(run) && |run| == size
    ensures multiset(run) == multiset(Words(input.content, first + size)[first..])
  {
    var words := input.ReadWords(first, size);
    var buffer := new u64[size](i requires 0 <= i < size => words[i]);
    assert buffer[..] == words;
    Sort(buffer);
    run := buffer[..];
    file := new File();
    file.Resize(8 * size);
    file.WriteWords(buffer[..]);
  }

  method MakeRuns(input: File, n: nat, memSize: nat) returns (files: seq<File>, ghost runs: seq<seq<u64>>)
    requires memSize >= 8
    ensures forall f :: f in files ==> fresh(f)
    ensures RunsStored(files, runs) && GoodRuns(runs, n, memSize / 8) && |runs| == ChunkCount(n, memSize / 8)
    ensures Pooled(runs) == multiset(Words(input.content, n))
  {
    hide GoodRuns, Pooled, ChunkCount, ChunkSize, Stores, Tiled;
    var perChunk := memSize / 8;
    var count := ChunkCount(n, perChunk);
    files, runs := [], [];
    NoRuns(n, perChunk);
    for chunk := 0 to count
      invariant |files| == chunk && (forall f :: f in files ==> fresh(f)) && RunsStored(files, runs)
      invariant GoodRuns(runs, n, perChunk)
      invariant Pooled(runs) == multiset(Words(input.content, Tiled(n, perChunk, chunk)))
    {
      TiledNext(n, perChunk, chunk);
      var first, size := chunk * perChunk, ChunkSize(n, perChunk, chunk);
      Fits(size, memSize);
      var file, run := MakeRun(input, first, size, memSize);
      PooledSnoc(runs, run, Words(input.content, first), Words(input.content, first + size));
      GoodSnoc(runs, run, n, perChunk);
      files, runs := files + [file], runs + [run];
    }
    TiledAll(n, perChunk);
  }

  /** Where a chunk starts, and the end of the input after the last one. */
  ghost function Tiled(n: nat, perChunk: nat, i: nat): nat
    requires perChunk > 0
  {
    if i < ChunkCount(n, perChunk) then i * perChunk else n
  }

  lemma TiledNext(n: nat, perChunk: nat, i: nat)
    requires perChunk > 0 && i < ChunkCount(n, perChunk)
    ensures i * perChunk < n && Tiled(n, perChunk, i) == i * perChunk && ChunkSize(n, perChunk, i) <= perChunk
    ensures Tiled(n, perChunk, i + 1) == i * perChunk + ChunkSize(n, perChunk, i)
  {
    ChunksTile(n, perChunk, i);
  }

  lemma TiledAll(n: nat, perChunk: nat)
    requires perChunk > 0
    ensures Tiled(n, perChunk, ChunkCount(n, perChunk)) == n
  {
  }

  lemma Fits(size: nat, memSize: nat)
    requires size <= memSize / 8
    ensures 8 * size <= memSize
  {
  }

  lemma NoRuns(n: nat, perChunk: nat)
    requires perChunk > 0
    ensures GoodRuns([], n, perChunk) && Pooled([]) == multiset{} && Tiled(n, perChunk, 0) == 0
  {
  }

  lemma GoodSnoc(runs: seq<seq<u64>>, run: seq<u64>, n: nat, perChunk: nat)
    requires GoodRuns(runs, n, perChunk) && |runs| < ChunkCount(n, perChunk) && |runs| * perChunk < n
    requires Ascending(run) && |run| == ChunkSize(n, perChunk, |runs|)
    ensures GoodRuns(runs + [run], n, perChunk)
  {
  }

  lemma PooledSnoc(runs: seq<seq<u64>>, run: seq<u64>, before: seq<u64>, after: seq<u64>)
    requires before <= after && Pooled(runs) == multiset(before) && multiset(run) == multiset(after[|before|..])
    ensures Pooled(runs + [run]) == multiset(after)
  {
    assert after == before + after[|before|..];
    assert (runs + [run])[..|runs|] == runs;
  }

  // ---------- What is left to merge ----------

  /** `taken` words of each run are merged. */
  ghost predicate Within(runs: seq<seq<u64>>, taken: seq<nat>) {
    |taken| == |runs| && forall i :: 0 <= i < |runs| ==> taken[i] <= |runs[i]|
  }

  ghost function Rest(runs: seq<seq<u64>>, taken: seq<nat>): multiset<u64>
    requires Within(runs, taken)
  {
    if runs == [] then multiset{} else
      var k := |runs| - 1;
      Rest(runs[..k], taken[..k]) + multiset(runs[k][taken[k]..])
  }

  lemma {:induction false} RestStep(runs: seq<seq<u64>>, taken: seq<nat>, i: nat)
    requires Within(runs, taken) && i < |runs| && taken[i] < |runs[i]|
    ensures Rest(runs, taken) == Rest(runs, taken[i := taken[i] + 1]) + multiset{runs[i][taken[i]]}
  {
    var k, next := |runs| - 1, taken[i := taken[i] + 1];
    if i == k {
      assert next[..k] == taken[..k];
      assert runs[k][taken[k]..] == [runs[k][taken[k]]] + runs[k][taken[k] + 1..];
    } else {
      RestStep(runs[..k], taken[..k], i);
      assert next[..k] == taken[..k][i := taken[i] + 1];
    }
  }

  lemma {:induction false} RestMember(runs: seq<seq<u64>>, taken: seq<nat>, x: u64) returns (i: nat, j: nat)
    requires Within(runs, taken) && x in Rest(runs, taken)
    ensures i < |runs| && taken[i] <= j < |runs[i]| && runs[i][j] == x
  {
    var k := |runs| - 1;
    if x in multiset(runs[k][taken[k]..]) {
      var m :| 0 <= m < |runs[k][taken[k]..]| && runs[k][taken[k]..][m] == x;
      i, j := k, taken[k] + m;
    } else {
      i, j := RestMember(runs[..k], taken[..k], x);
    }
  }

  lemma {:induction false} RestAll(runs: seq<seq<u64>>, taken: seq<nat>)
    requires Within(runs, taken) && forall i :: 0 <= i < |taken| ==> taken[i] == 0
    ensures Rest(runs, taken) == Pooled(runs)
  {
    if runs != [] {
      var k := |runs| - 1;
      RestAll(runs[..k], taken[..k]);
      assert runs[k][taken[k]..] == runs[k];
    }
  }

  // ---------- The queue ----------

  ghost predicate HasRun(items: multiset<Element>, i: nat) {
    exists e :: e in items && e.run == i
  }

  /** The queue holds exactly the next word of every live run. */
  ghost predicate Heads(items: multiset<Element>, runs: seq<seq<u64>>, taken: seq<nat>, live: set<nat>) {
    && Within(runs, taken)
    && (forall i :: i in live ==> i < |runs| && taken[i] < |runs[i]| && HasRun(items, i))
    && (forall e :: e in items ==> e.run in live && e.value == runs[e.run][taken[e.run]] && items[e] == 1)
    && (forall e, f :: e in items && f in items && e.run == f.run ==> e == f)
  }

  ghost predicate Unfinished(runs: seq<seq<u64>>, taken: seq<nat>, live: set<nat>) {
    |taken| == |runs| && forall i :: i in live <==> 0 <= i < |runs| && taken[i] < |runs[i]|
  }

  lemma HeadsPop(items: multiset<Element>, runs: seq<seq<u64>>, taken: seq<nat>, live: set<nat>, e: Element)
    requires Heads(items, runs, taken, live) && e in items
    ensures e.run in live
    ensures Heads(items - multiset{e}, runs, taken[e.run := taken[e.run] + 1], live - {e.run})
  {
    var rest := items - multiset{e};
    forall f | f in rest ensures f.run != e.run && f in items && rest[f] == items[f] {
      assert f != e;
    }
    forall i | i in live - {e.run} ensures HasRun(rest, i) {
      var f :| f in items && f.run == i;
      assert f in rest;
    }
  }

  lemma HeadsPush(items: multiset<Element>, runs: seq<seq<u64>>, taken: seq<nat>, live: set<nat>, e: Element)
    requires Heads(items, runs, taken, live) && e.run !in live && e.run < |runs|
    requires taken[e.run] < |runs[e.run]| && e.value == runs[e.run][taken[e.run]]
    ensures Heads(items + multiset{e}, runs, taken, live + {e.run})
  {
    var more := items + multiset{e};
    assert e in more && e !in items;
    forall i | i in live ensures HasRun(more, i) {
      var f :| f in items && f.run == i;
      assert f in more;
    }
    assert forall f :: f in more ==> f == e || f in items;
  }

  /** A least element of the queue is a least element of everything that is left. */
  lemma LeastOfRest(items: multiset<Element>, runs: seq<seq<u64>>, taken: seq<nat>, live: set<nat>, e: Element, x: u64)
    requires Heads(items, runs, taken, live) && Unfinished(runs, taken, live) && Least(e, items)
    requires forall i :: 0 <= i < |runs| ==> Ascending(runs[i])
    requires x in Rest(runs, taken)
    ensures e.value <= x
  {
    var i, j := RestMember(runs, taken, x);
    assert i in live && HasRun(items, i);
    var f :| f in items && f.run == i;
    assert f.value == runs[i][taken[i]] <= runs[i][j];
  }

  // ---------- The merge ----------

  /** The byte position of the next word to read from a run: its head, if any, is already in
      the queue. */
  function NextRead(size: nat, taken: nat): nat {
    8 * (if taken < size then taken + 1 else size)
  }

  ghost predicate Positioned(positions: seq<nat>, runs: seq<seq<u64>>, taken: seq<nat>) {
    |positions| == |runs| == |taken| && forall i :: 0 <= i < |runs| ==> positions[i] == NextRead(|runs[i]|, taken[i])
  }

  /** Everything merged so far is in order, and nothing left is smaller. */
  ghost predicate Merged(emitted: seq<u64>, rest: multiset<u64>, all: multiset<u64>) {
    && Ascending(emitted) && multiset(emitted) + rest == all
    && forall k, x :: 0 <= k < |emitted| && x in rest ==> emitted[k] <= x
  }

  lemma MergedSnoc(emitted: seq<u64>, rest: multiset<u64>, rest': multiset<u64>, all: multiset<u64>, value: u64)
    requires Merged(emitted, rest, all) && rest == rest' + multiset{value} && forall x :: x in rest ==> value <= x
    ensures Merged(emitted + [value], rest', all)
  {
    assert value in rest && forall x :: x in rest' ==> x in rest;
    assert multiset(emitted + [value]) == multiset(emitted) + multiset{value};
    assert Ascending(emitted + [value]);
  }

  lemma MergedSize(emitted: seq<u64>, rest: multiset<u64>, all: seq<u64>)
    requires Merged(emitted, rest, multiset(all))
    ensures |emitted| + |rest| == |all|
  {
    assert |multiset(emitted)| == |emitted| && |multiset(all)| == |all|;
  }

  lemma RunFacts(files: seq<File>, runs: seq<seq<u64>>, n: nat, perChunk: nat, i: nat)
    requires GoodRuns(runs, n, perChunk) && RunsStored(files, runs) && i < |runs|
    ensures i < |files| && i * perChunk < n && |runs[i]| == ChunkSize(n, perChunk, i) > 0
    ensures |files[i].content| == 8 * |runs[i]| && forall k :: 0 <= k < |runs[i]| ==>
      WordAt(files[i].content, k) == runs[i][k]
  {
    ChunksTile(n, perChunk, i);
    assert Stores(files[i].content, runs[i]);
  }

  lemma EmptyQueue(runs: seq<seq<u64>>, taken: seq<nat>)
    requires |taken| == |runs| && forall i :: 0 <= i < |taken| ==> taken[i] == 0
    ensures Heads(multiset{}, runs, taken, {})
  {
  }

  lemma FullQueue(runs: seq<seq<u64>>, taken: seq<nat>, live: set<nat>, positions: seq<nat>)
    requires |taken| == |runs| == |positions| && forall i :: 0 <= i < |taken| ==>
      taken[i] == 0 && |runs[i]| > 0 && positions[i] == 8
    requires forall k :: k in live <==> 0 <= k < |runs|
    ensures Unfinished(runs, taken, live) && Positioned(positions, runs, taken)
  {
  }

  /** Pushes the first word of every run. */
  method FillQueue(files: seq<File>, ghost runs: seq<seq<u64>>, n: nat, perChunk: nat, queue: MinQueue,
      positions: array<nat>, ghost taken: seq<nat>)
      returns (ghost live: set<nat>)
    requires perChunk > 0 && GoodRuns(runs, n, perChunk) && RunsStored(files, runs)
    requires positions.Length == |runs| == |taken| && queue.items == multiset{} && forall i :: 0 <= i < |taken| ==>
      taken[i] == 0
    modifies queue, positions
    ensures Heads(queue.items, runs, taken, live) && Unfinished(runs, taken, live) &&
      Positioned(positions[..], runs, taken)
  {
    hide GoodRuns, RunsStored, Heads, Unfinished, Positioned, ChunkSize;
    live := {};
    EmptyQueue(runs, taken);
    for i := 0 to positions.Length
      invariant Heads(queue.items, runs, taken, live) && forall k :: k in live <==> 0 <= k < i
      invariant forall k :: 0 <= k < i ==> positions[k] == 8 && |runs[k]| > 0
    {
      RunFacts(files, runs, n, perChunk, i);
      if i * perChunk < n {
        var value := files[i].ReadWord(0);
        HeadsPush(queue.items, runs, taken, live, Element(value, i, 0));
        queue.Push(Element(value, i, 0));
        positions[i] := 8;
        live := live + {i};
      }
    }
    FullQueue(runs, taken, live, positions[..]);
  }

  /** After the head of a run is merged, its next word enters the queue, if there is one. */
  method Refill(files: seq<File>, ghost runs: seq<seq<u64>>, n: nat, perChunk: nat, queue: MinQueue,
      positions: array<nat>,
                i: nat, ghost taken: seq<nat>, ghost live: set<nat>)
      returns (ghost live': set<nat>)
    requires perChunk > 0 && GoodRuns(runs, n, perChunk) && RunsStored(files, runs)
    requires Unfinished(runs, taken, live) && Positioned(positions[..], runs, taken) && i in live
    requires Heads(queue.items, runs, taken[i := taken[i] + 1], live - {i})
    modifies queue, positions
    ensures var next := taken[i := taken[i] + 1];
      Heads(queue.items, runs, next, live') && Unfinished(runs, next, live') && Positioned(positions[..], runs, next)
  {
    hide GoodRuns, RunsStored, Heads, ChunkSize, Unfinished, Positioned;
    ghost var was := positions[..];
    NextPosition(was, runs, taken, live, i);
    ghost var next := taken[i := taken[i] + 1];
    RunFacts(files, runs, n, perChunk, i);
    live' := live - {i};
    var chunkBytes := ChunkSize(n, perChunk, i) * 8;
    if positions[i] < chunkBytes {
      var value := files[i].ReadWord(positions[i]);
      positions[i] := positions[i] + 8;
      assert positions[..] == was[i := was[i] + 8];
      HeadsPush(queue.items, runs, next, live', Element(value, i, positions[i]));
      queue.Push(Element(value, i, positions[i]));
      live' := live;
    }
  }

  lemma NextPosition(positions: seq<nat>, runs: seq<seq<u64>>, taken: seq<nat>, live: set<nat>, i: nat)
    requires Unfinished(runs, taken, live) && Positioned(positions, runs, taken) && i in live
    ensures i < |runs| == |positions| == |taken| && taken[i] < |runs[i]| && positions[i] == 8 * (taken[i] + 1) &&
      live - {i} + {i} == live
    ensures var next := taken[i := taken[i] + 1];
      if next[i] < |runs[i]|
      then Unfinished(runs, next, live) && Positioned(positions[i := positions[i] + 8], runs, next)
      else Unfinished(runs, next, live - {i}) && Positioned(positions, runs, next)
  {
  }

  /** The state of the merge: the queue, the read positions, the output so far. */
  ghost predicate Merging(items: multiset<Element>, positions: seq<nat>, content: seq<byte>, runs: seq<seq<u64>>,
                          taken: seq<nat>, live: set<nat>, emitted: seq<u64>, all: seq<u64>)
  {
    && Heads(items, runs, taken, live) && Unfinished(runs, taken, live) && Positioned(positions, runs, taken)
    && |content| == 8 * |all|
    && (forall k :: 0 <= k < |emitted| ==> 8 * k + 8 <= |content| && WordAt(content, k) == emitted[k])
    && Within(runs, taken) && Merged(emitted, Rest(runs, taken), multiset(all))
  }

  /** Moves one least word from the queue to the output and refills the queue. */
  method MergeOne(files: seq<File>, ghost runs: seq<seq<u64>>, n: nat, perChunk: nat, queue: MinQueue,
      positions: array<nat>,
                  output: File, outputPosition: nat,
                  ghost taken: seq<nat>, ghost live: set<nat>, ghost emitted: seq<u64>, ghost all: seq<u64>)
      returns (ghost taken': seq<nat>, ghost live': set<nat>, ghost emitted': seq<u64>)
    requires perChunk > 0 && GoodRuns(runs, n, perChunk) && RunsStored(files, runs) && output !in files
    requires queue.items != multiset{} && outputPosition == 8 * |emitted|
    requires Merging(queue.items, positions[..], output.content, runs, taken, live, emitted, all)
    modifies queue, positions, output
    ensures Merging(queue.items, positions[..], output.content, runs, taken', live', emitted', all)
    ensures |emitted'| == |emitted| + 1 <= |all|
  {
    hide GoodRuns, Rest, Heads, Unfinished, Positioned, Merged, RunsStored, Least, Within, Ascending, WordAt;
    ghost var items := queue.items;
    var top := queue.Pop();
    MergeStep(items, runs, taken, live, top, emitted, all, n, perChunk);
    output.WriteWord(outputPosition, top.value);
    emitted' := emitted + [top.value];
    live' := Refill(files, runs, n, perChunk, queue, positions, top.run, taken, live);
    taken' := taken[top.run := taken[top.run] + 1];
  }

  /** Merges the runs into the output, which already has its final size. */
  method Merge(files: seq<File>, ghost runs: seq<seq<u64>>, n: nat, perChunk: nat, output: File, ghost all: seq<u64>)
      returns (ghost emitted: seq<u64>)
    requires perChunk > 0 && GoodRuns(runs, n, perChunk) && |runs| == ChunkCount(n, perChunk) && RunsStored(files, runs)
    requires output !in files && |output.content| == 8 * n && |all| == n && Pooled(runs) == multiset(all)
    modifies output
    ensures Stores(output.content, emitted) && Ascending(emitted) && multiset(emitted) == multiset(all)
  {
    hide GoodRuns, Pooled, RunsStored, Merging, Heads, Unfinished, Positioned, Merged, Rest;
    var queue := new MinQueue();
    var positions := new nat[ChunkCount(n, perChunk)](_ => 0);
    ghost var taken, live := seq(|runs|, _ => 0), {};
    live := FillQueue(files, runs, n, perChunk, queue, positions, taken);
    emitted := [];
    MergeStart(queue.items, positions[..], output.content, runs, taken, live, all);
    var outputPosition := 0;
    while queue.items != multiset{}
      invariant Merging(queue.items, positions[..], output.content, runs, taken, live, emitted, all)
      invariant RunsStored(files, runs) && outputPosition == 8 * |emitted| <= 8 * |all|
      decreases |all| - |emitted|
    {
      taken, live, emitted := MergeOne(files, runs, n, perChunk, queue, positions, output, outputPosition, taken,
        live, emitted, all);
      outputPosition := outputPosition + 8;
    }
    MergeEnd(positions[..], output.content, runs, taken, live, emitted, all);
  }

  lemma MergeStart(items: multiset<Element>, positions: seq<nat>, content: seq<byte>, runs: seq<seq<u64>>,
      taken: seq<nat>, live: set<nat>, all: seq<u64>)
    requires Heads(items, runs, taken, live) && Unfinished(runs, taken, live) && Positioned(positions, runs, taken)
    requires |taken| == |runs| && (forall i :: 0 <= i < |taken| ==> taken[i] == 0) && Pooled(runs) == multiset(all)
    requires |content| == 8 * |all|
    ensures Merging(items, positions, content, runs, taken, live, [], all)
  {
    RestAll(runs, taken);
  }

  lemma RunsAscend(runs: seq<seq<u64>>, n: nat, perChunk: nat)
    requires GoodRuns(runs, n, perChunk)
    ensures forall i :: 0 <= i < |runs| ==> Ascending(runs[i])
  {
  }

  lemma TopIsHead(items: multiset<Element>, runs: seq<seq<u64>>, taken: seq<nat>, live: set<nat>, top: Element)
    requires Heads(items, runs, taken, live) && top in items
    ensures Within(runs, taken) && top.run in live && top.run < |runs| && taken[top.run] < |runs[top.run]|
    ensures top.value == runs[top.run][taken[top.run]]
  {
  }

  /** Why one step keeps the merge in order and in bounds. */
  lemma MergeStep(items: multiset<Element>, runs: seq<seq<u64>>, taken: seq<nat>, live: set<nat>, top: Element,
                  emitted: seq<u64>, all: seq<u64>, n: nat, perChunk: nat)
    requires Heads(items, runs, taken, live) && Unfinished(runs, taken, live) && Least(top, items)
    requires GoodRuns(runs, n, perChunk) && Merged(emitted, Rest(runs, taken), multiset(all))
    ensures top.run in live && top.run < |runs| == |taken| && taken[top.run] < |runs[top.run]| && |emitted| < |all|
    ensures var next := taken[top.run := taken[top.run] + 1];
      Heads(items - multiset{top}, runs, next, live - {top.run}) && Within(runs, next)
      && Merged(emitted + [top.value], Rest(runs, next), multiset(all)) && |Rest(runs, next)| < |Rest(runs, taken)|
  {
    hide Heads, Rest, Merged, GoodRuns, Unfinished;
    RunsAscend(runs, n, perChunk);
    TopIsHead(items, runs, taken, live, top);
    HeadsPop(items, runs, taken, live, top);
    RestStep(runs, taken, top.run);
    forall x | x in Rest(runs, taken) ensures top.value <= x {
      LeastOfRest(items, runs, taken, live, top, x);
    }
    MergedSnoc(emitted, Rest(runs, taken), Rest(runs, taken[top.run := taken[top.run] + 1]), multiset(all), top.value);
    MergedSize(emitted, Rest(runs, taken), all);
  }

  lemma NothingLeft(runs: seq<seq<u64>>, taken: seq<nat>, live: set<nat>, x: u64)
    requires Heads(multiset{}, runs, taken, live) && Unfinished(runs, taken, live)
    ensures x !in Rest(runs, taken)
  {
    forall i ensures i !in live {
      assert !HasRun(multiset{}, i);
    }
    if x in Rest(runs, taken) {
      var i, j := RestMember(runs, taken, x);
      assert false;
    }
  }

  /** An empty queue means that everything is merged. */
  lemma MergeEnd(positions: seq<nat>, content: seq<byte>, runs: seq<seq<u64>>, taken: seq<nat>, live: set<nat>,
                 emitted: seq<u64>, all: seq<u64>)
    requires Merging(multiset{}, positions, content, runs, taken, live, emitted, all)
    ensures Stores(content, emitted) && Ascending(emitted) && multiset(emitted) == multiset(all)
  {
    forall x ensures x !in Rest(runs, taken) {
      NothingLeft(runs, taken, live, x);
    }
    assert Rest(runs, taken) == multiset{};
    MergedSize(emitted, Rest(runs, taken), all);
  }

  lemma StoredWords(file: seq<byte>, emitted: seq<u64>, all: seq<u64>)
    requires Stores(file, emitted) && multiset(emitted) == multiset(all)
    ensures |file| == 8 * |all| && Words(file, |all|) == emitted
  {
    SameSize(emitted, all);
  }

  /** The output is the ascending permutation of the first words of the input, whatever the
      input holds and however little memory there is, down to one word. The input may be the
      output file. */
  method ExternalSort(input: File, n: nat, output: File, memSize: nat)
    requires memSize >= 8
    modifies output
    ensures |output.content| == 8 * n
    ensures Ascending(Words(output.content, n))
    ensures multiset(Words(output.content, n)) == multiset(Words(old(input.content), n))
  {
    hide GoodRuns, RunsStored, Pooled, ChunkCount, Stores;
    var files, runs := MakeRuns(input, n, memSize);
    ghost var all := Words(input.content, n);
    assert output !in files;
    output.Resize(n * 8);
    var emitted := Merge(files, runs, n, memSize / 8, output, all);
    StoredWords(output.content, emitted, all);
  }
}
