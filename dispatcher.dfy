/**
 * The batch dispatcher of the relaxed-JSON normaliser: it picks the extensions to
 * look for, splits the file list into batches, sizes a fixed pool of workers and
 * hands batches to idle workers until every batch has been answered.
 * The event loop is a sequential machine: "some in-flight batch completes" is a
 * nondeterministic choice among the busy workers.
 */
module Dispatcher {
  import opened Wrappers
  import opened Text
  import Worker

  type Batch = seq<string>

  /** Workers are numbered by their position in the pool. */
  type WorkerId = nat

  /** The settings object of the script. */
  datatype Config = Config(minify: bool, jsonc: bool, batchSize: int)

  // ---------------------------------------------------------------------------
  // Selection of files
  // ---------------------------------------------------------------------------

  /** shush.ts:16-17 -- the extensions walked for. */
  function Extensions(jsonc: bool): (exts: seq<string>)
    ensures |exts| >= 1 && exts[0] == "json"
    ensures "jsonc" in exts <==> jsonc
    ensures forall e :: e in exts ==> e == "json" || e == "jsonc"
  {
    if jsonc then ["json", "jsonc"] else ["json"]
  }

  /** The walk keeps a path when it ends with `.` followed by one of the extensions. */
  predicate HasExtension(p: string, exts: seq<string>)
  {
    exists e :: e in exts && EndsWith(p, "." + e)
  }

  /** shush.ts:20-26 -- the files walked, in walk order. */
  function Discover(walked: seq<string>, exts: seq<string>): (files: seq<string>)
    ensures forall p :: p in files <==> p in walked && HasExtension(p, exts)
    ensures |files| <= |walked|
  {
    if walked == [] then []
    else (if HasExtension(walked[0], exts) then [walked[0]] else []) + Discover(walked[1..], exts)
  }

  /** With `jsonc` off, a `.jsonc` file is never discovered; with it on, it is. */
  lemma JsoncDiscoveredIff(p: string, jsonc: bool)
    requires EndsWith(p, ".jsonc")
    ensures HasExtension(p, Extensions(jsonc)) <==> jsonc
  {
    assert p[|p| - 1] == 'c';
    if !jsonc {
      assert !EndsWith(p, ".json") by { assert "json"[3] == 'n'; }
    } else {
      assert "jsonc" in Extensions(jsonc) && EndsWith(p, "." + "jsonc");
    }
  }

  // ---------------------------------------------------------------------------
  // Batches
  // ---------------------------------------------------------------------------

  /** The concatenation of a list of batches. */
  function Flatten<T>(xs: seq<seq<T>>): seq<T>
  {
    if xs == [] then [] else Flatten(xs[..|xs| - 1]) + xs[|xs| - 1]
  }

  function Min(a: int, b: int): int { if a <= b then a else b }

  /** shush.ts:48-54 -- `chunkArray`: contiguous slices of `size` elements, the last one possibly shorter. */
  method ChunkArray<T>(arr: seq<T>, size: int) returns (chunks: seq<seq<T>>)
    requires size >= 1
    ensures Flatten(chunks) == arr
    ensures forall k :: 0 <= k < |chunks| ==> 0 < |chunks[k]| <= size
    ensures forall k :: 0 <= k < |chunks| - 1 ==> |chunks[k]| == size
    ensures (|chunks| - 1) * size < |arr| <= |chunks| * size // |chunks| is |arr| / size rounded up
  {
    chunks := [];
    var i := 0;
    while i < |arr|
      invariant 0 <= i && (chunks == [] <==> i == 0)
      invariant chunks != [] ==> i - size < |arr|
      invariant Flatten(chunks) == arr[..Min(i, |arr|)]
      invariant forall k :: 0 <= k < |chunks| ==> 0 < |chunks[k]| <= size
      invariant forall k :: 0 <= k < |chunks| - 1 ==> |chunks[k]| == size
      invariant chunks != [] ==> |chunks[|chunks| - 1]| == Min(i, |arr|) - (i - size)
      decreases |arr| - i
    {
      var piece := arr[i..Min(i + size, |arr|)];
      assert arr[..Min(i + size, |arr|)] == arr[..i] + piece;
      FlattenSnoc(chunks, piece);
      chunks := chunks + [piece];
      i := i + size;
    }
    if chunks == [] {
      assert |arr| == 0;
    } else {
      ChunkCount(chunks, size);
    }
  }

  /** Batches of exactly `size` paths hold `size` paths each. */
  lemma {:induction false} FullChunksLen<T>(xs: seq<seq<T>>, size: nat)
    requires forall k :: 0 <= k < |xs| ==> |xs[k]| == size
    ensures |Flatten(xs)| == |xs| * size
  {
    if xs != [] {
      var init := xs[..|xs| - 1];
      FullChunksLen(init, size);
      MulStep(|init|, size);
    }
  }

  lemma MulStep(a: nat, b: nat)
    ensures (a + 1) * b == a * b + b
  {
  }

  /** All batches but the last are full and the last is not empty: their count is the length divided by `size`, rounded up. */
  lemma ChunkCount<T>(xs: seq<seq<T>>, size: nat)
    requires xs != [] && size >= 1
    requires forall k :: 0 <= k < |xs| ==> 0 < |xs[k]| <= size
    requires forall k :: 0 <= k < |xs| - 1 ==> |xs[k]| == size
    ensures (|xs| - 1) * size < |Flatten(xs)| <= |xs| * size
  {
    var init := xs[..|xs| - 1];
    FullChunksLen(init, size);
    MulStep(|init|, size);
    assert |Flatten(xs)| == |init| * size + |xs[|xs| - 1]|;
  }

  lemma FlattenSnoc<T>(xs: seq<seq<T>>, x: seq<T>)
    ensures Flatten(xs + [x]) == Flatten(xs) + x
  {
    assert (xs + [x])[..|xs|] == xs;
  }

  /** The total number of paths in a list of batches. */
  function TotalLen(bs: seq<Batch>): nat
  {
    if bs == [] then 0 else |bs[0]| + TotalLen(bs[1..])
  }

  lemma {:induction false} TotalLenOfFlatten(xs: seq<Batch>)
    ensures TotalLen(xs) == |Flatten(xs)|
  {
    if xs != [] {
      var init := xs[..|xs| - 1];
      TotalLenOfFlatten(init);
      TotalLenAppend(init, xs[|xs| - 1]);
      assert init + [xs[|xs| - 1]] == xs;
    }
  }

  lemma {:induction false} TotalLenAppend(xs: seq<Batch>, b: Batch)
    ensures TotalLen(xs + [b]) == TotalLen(xs) + |b|
  {
    if xs != [] {
      assert (xs + [b])[1..] == xs[1..] + [b];
      TotalLenAppend(xs[1..], b);
    }
  }

  // ---------------------------------------------------------------------------
  // Pool size
  // ---------------------------------------------------------------------------

  /** shush.ts:38 -- `min(max(hardwareConcurrency ?? 4, 4), 32)`. */
  function PoolSize(hardwareConcurrency: Option<int>): (n: nat)
    ensures 4 <= n <= 32
    ensures hardwareConcurrency.None? ==> n == 4
    ensures hardwareConcurrency.Some? ==>
      var h := hardwareConcurrency.value;
      (h <= 4 ==> n == 4) && (4 <= h <= 32 ==> n == h) && (h >= 32 ==> n == 32)
  {
    var h := if hardwareConcurrency.Some? then hardwareConcurrency.value else 4;
    var atLeast := if h > 4 then h else 4;
    if atLeast < 32 then atLeast else 32
  }

  // ---------------------------------------------------------------------------
  // Dispatch (shush.ts:91-114)
  // ---------------------------------------------------------------------------

  /** The dispatcher's three structures: the batch queue, the idle stack and the in-flight assignments. */
  datatype PoolState = PoolState(idle: seq<WorkerId>, queue: seq<Batch>, executing: map<WorkerId, Batch>)

  /** Every one of the n workers is either idle (once) or busy with one batch, never both. */
  ghost predicate WellFormed(s: PoolState, n: nat)
  {
    && |s.idle| + |s.executing| == n
    && (forall i :: 0 <= i < |s.idle| ==> s.idle[i] < n && s.idle[i] !in s.executing)
    && (forall i, j :: 0 <= i < j < |s.idle| ==> s.idle[i] != s.idle[j])
    && (forall w :: w in s.executing ==> w < n)
  }

  /** shush.ts:96-107 -- `dispatch`: while a worker is idle and a batch waits, pair the last idle worker with the first waiting batch. */
  function DispatchAll(s: PoolState): PoolState
    decreases |s.queue|
  {
    if s.idle != [] && s.queue != [] then DispatchAll(AssignOne(s)) else s
  }

  /** One step of dispatch keeps every worker either idle or busy. */
  lemma AssignKeepsWellFormed(s: PoolState, n: nat)
    requires WellFormed(s, n) && s.idle != [] && s.queue != []
    ensures WellFormed(AssignOne(s), n)
  {
    var w := s.idle[|s.idle| - 1];
    assert w !in s.executing;
    assert |s.executing[w := s.queue[0]]| == |s.executing| + 1;
  }

  /** The state after one assignment: the last idle worker takes the first waiting batch. */
  function AssignOne(s: PoolState): PoolState
    requires s.idle != [] && s.queue != []
  {
    PoolState(s.idle[..|s.idle| - 1], s.queue[1..], s.executing[s.idle[|s.idle| - 1] := s.queue[0]])
  }

  /** shush.ts:96-107 -- the loop of `dispatch`, on the dispatcher's three structures. */
  method DispatchLoop(s: PoolState, n: nat) returns (r: PoolState)
    requires WellFormed(s, n)
    ensures r == DispatchAll(s)
  {
    var free, waiting, busy := s.idle, s.queue, s.executing;
    while |free| > 0 && |waiting| > 0
      invariant WellFormed(PoolState(free, waiting, busy), n)
      invariant DispatchAll(PoolState(free, waiting, busy)) == DispatchAll(s)
      decreases |waiting|
    {
      AssignKeepsWellFormed(PoolState(free, waiting, busy), n);
      var worker := free[|free| - 1];
      free := free[..|free| - 1];
      busy := busy[worker := waiting[0]];
      waiting := waiting[1..];
    }
    r := PoolState(free, waiting, busy);
  }

  /** Dispatch ends with no idle worker or no waiting batch, having taken k = min(|idle|, |queue|) batches from the front of the queue and k workers from the top of the idle stack. */
  lemma DispatchAllShape(s: PoolState, n: nat)
    requires WellFormed(s, n)
    ensures var r := DispatchAll(s); var k := Min(|s.idle|, |s.queue|);
      && WellFormed(r, n)
      && (r.idle == [] || r.queue == [])
      && r.queue == s.queue[k..]
      && r.idle == s.idle[..|s.idle| - k]
  {
    DispatchAllWellFormed(s, n);
    DispatchAllTakes(s);
  }

  lemma {:induction false} DispatchAllWellFormed(s: PoolState, n: nat)
    requires WellFormed(s, n)
    ensures WellFormed(DispatchAll(s), n)
    decreases |s.queue|
  {
    if s.idle != [] && s.queue != [] {
      AssignKeepsWellFormed(s, n);
      DispatchAllWellFormed(AssignOne(s), n);
    }
  }

  lemma {:induction false} DispatchAllTakes(s: PoolState)
    ensures var r := DispatchAll(s); var k := Min(|s.idle|, |s.queue|);
      && (r.idle == [] || r.queue == [])
      && r.queue == s.queue[k..]
      && r.idle == s.idle[..|s.idle| - k]
    decreases |s.queue|
  {
    if s.idle != [] && s.queue != [] {
      var t := AssignOne(s);
      DispatchAllTakes(t);
      var k := Min(|s.idle|, |s.queue|);
      assert t.queue[k - 1..] == s.queue[k..];
      assert t.idle[..|t.idle| - (k - 1)] == s.idle[..|s.idle| - k];
    }
  }

  /** The idle workers are distinct and none of them is busy. */
  ghost predicate Separate(s: PoolState)
  {
    && (forall i :: 0 <= i < |s.idle| ==> s.idle[i] !in s.executing)
    && (forall i, j :: 0 <= i < j < |s.idle| ==> s.idle[i] != s.idle[j])
  }

  lemma AssignKeepsSeparate(s: PoolState)
    requires Separate(s) && s.idle != [] && s.queue != []
    ensures Separate(AssignOne(s))
  {
    var t := AssignOne(s);
    forall i | 0 <= i < |t.idle| ensures t.idle[i] !in t.executing {
      assert t.idle[i] == s.idle[i];
      assert s.idle[i] != s.idle[|s.idle| - 1];
    }
  }

  /** Dispatch leaves the assignments made before it alone. */
  lemma {:induction false} DispatchAllKeepsBusy(s: PoolState)
    requires Separate(s)
    ensures forall w :: w in s.executing ==> w in DispatchAll(s).executing && DispatchAll(s).executing[w] == s.executing[w]
    decreases |s.queue|
  {
    if s.idle != [] && s.queue != [] {
      var t := AssignOne(s);
      AssignKeepsSeparate(s);
      DispatchAllKeepsBusy(t);
      assert forall w :: w in s.executing ==> w != s.idle[|s.idle| - 1];
    }
  }

  /** The worker at position i among the k taken from the top of the idle stack receives the (|idle| - 1 - i)-th waiting batch: the top worker takes the first batch, the next one the second, and so on. */
  lemma {:induction false} DispatchAllPairs(s: PoolState)
    requires Separate(s)
    ensures forall i :: |s.idle| - Min(|s.idle|, |s.queue|) <= i < |s.idle| ==>
      s.idle[i] in DispatchAll(s).executing && DispatchAll(s).executing[s.idle[i]] == s.queue[|s.idle| - 1 - i]
    decreases |s.queue|
  {
    if s.idle != [] && s.queue != [] {
      var t := AssignOne(s);
      AssignKeepsSeparate(s);
      DispatchAllPairs(t);
      DispatchAllKeepsBusy(t);
      var r := DispatchAll(t);
      assert DispatchAll(s) == r;
      var k := Min(|s.idle|, |s.queue|);
      assert Min(|t.idle|, |t.queue|) == k - 1;
      PairsStep(s, t, r, k);
    }
  }

  lemma PairsStep(s: PoolState, t: PoolState, r: PoolState, k: nat)
    requires s.idle != [] && s.queue != [] && t == AssignOne(s) && k == Min(|s.idle|, |s.queue|)
    requires forall i :: |t.idle| - (k - 1) <= i < |t.idle| ==>
      t.idle[i] in r.executing && r.executing[t.idle[i]] == t.queue[|t.idle| - 1 - i]
    requires forall w :: w in t.executing ==> w in r.executing && r.executing[w] == t.executing[w]
    ensures forall i :: |s.idle| - k <= i < |s.idle| ==>
      s.idle[i] in r.executing && r.executing[s.idle[i]] == s.queue[|s.idle| - 1 - i]
  {
    forall i | |s.idle| - k <= i < |s.idle|
      ensures s.idle[i] in r.executing && r.executing[s.idle[i]] == s.queue[|s.idle| - 1 - i]
    {
      if i == |s.idle| - 1 {
        var w := s.idle[i];
        assert w in t.executing && t.executing[w] == s.queue[0];
      } else {
        assert s.idle[i] == t.idle[i];
        assert s.queue[|s.idle| - 1 - i] == t.queue[|t.idle| - 1 - i];
      }
    }
  }

  /** Dispatch makes a worker busy only if it was busy before or was one of the k taken from the idle stack. */
  lemma {:induction false} DispatchAllOnlyTakesIdle(s: PoolState)
    ensures var r := DispatchAll(s); var k := Min(|s.idle|, |s.queue|);
      forall w :: w in r.executing ==> w in s.executing || w in s.idle[|s.idle| - k..]
    decreases |s.queue|
  {
    if s.idle != [] && s.queue != [] {
      var t := AssignOne(s);
      DispatchAllOnlyTakesIdle(t);
      var r := DispatchAll(t);
      assert DispatchAll(s) == r;
      var k := Min(|s.idle|, |s.queue|);
      assert Min(|t.idle|, |t.queue|) == k - 1;
      var top := s.idle[|s.idle| - 1];
      var taken := s.idle[|s.idle| - k..];
      assert top in taken by { assert taken[k - 1] == top; }
      forall w | w in t.idle[|t.idle| - (k - 1)..] ensures w in taken {
        var i :| 0 <= i < k - 1 && t.idle[|t.idle| - (k - 1)..][i] == w;
        assert taken[i] == w;
      }
      forall w | w in r.executing ensures w in s.executing || w in taken {
        if w !in s.executing && w != top {
          assert w in t.idle[|t.idle| - (k - 1)..];
        }
      }
    }
  }

  /** The paths held by the busy workers among the first n. */
  function InFlight(m: map<WorkerId, Batch>, n: nat): nat
  {
    if n == 0 then 0 else InFlight(m, n - 1) + (if n - 1 in m then |m[n - 1]| else 0)
  }

  lemma {:induction false} InFlightAssign(m: map<WorkerId, Batch>, n: nat, w: WorkerId, b: Batch)
    requires w < n && w !in m
    ensures InFlight(m[w := b], n) == InFlight(m, n) + |b|
  {
    if n - 1 != w { InFlightAssign(m, n - 1, w, b); } else { InFlightSame(m, m[w := b], n - 1); }
  }

  lemma {:induction false} InFlightRelease(m: map<WorkerId, Batch>, n: nat, w: WorkerId)
    requires w < n && w in m
    ensures InFlight(m - {w}, n) + |m[w]| == InFlight(m, n)
  {
    if n - 1 != w { InFlightRelease(m, n - 1, w); } else { InFlightSame(m, m - {w}, n - 1); }
  }

  lemma {:induction false} InFlightSame(m: map<WorkerId, Batch>, m': map<WorkerId, Batch>, n: nat)
    requires forall v :: v < n ==> (v in m <==> v in m') && (v in m ==> m[v] == m'[v])
    ensures InFlight(m, n) == InFlight(m', n)
  {
    if n > 0 { InFlightSame(m, m', n - 1); }
  }

  lemma {:induction false} InFlightNone(n: nat)
    ensures InFlight(map[], n) == 0
  {
    if n > 0 { InFlightNone(n - 1); }
  }

  /** Dispatch moves paths from the queue to busy workers without losing or adding any. */
  lemma {:induction false} DispatchKeepsLoad(s: PoolState, n: nat)
    requires WellFormed(s, n)
    ensures InFlight(DispatchAll(s).executing, n) + TotalLen(DispatchAll(s).queue) == InFlight(s.executing, n) + TotalLen(s.queue)
    decreases |s.queue|
  {
    if s.idle != [] && s.queue != [] {
      var w := s.idle[|s.idle| - 1];
      var t := AssignOne(s);
      AssignKeepsWellFormed(s, n);
      DispatchKeepsLoad(t, n);
      InFlightAssign(s.executing, n, w, s.queue[0]);
    }
  }

  /** What a worker posts back for a batch: its result list, or an error event. */
  datatype Reply = Results(results: seq<Worker.FileResult>) | WorkerError(message: string)

  function CountOk(rs: seq<Worker.FileResult>): (c: nat)
    ensures c <= |rs|
  {
    if rs == [] then 0 else (if rs[0].Succeeded? then 1 else 0) + CountOk(rs[1..])
  }

  function CountFailed(rs: seq<Worker.FileResult>): (c: nat)
    ensures c <= |rs|
  {
    if rs == [] then 0 else (if rs[0].Failed? then 1 else 0) + CountFailed(rs[1..])
  }

  /** Every result is counted once, as a success or as a failure. */
  lemma {:induction false} CountsCoverResults(rs: seq<Worker.FileResult>)
    ensures CountOk(rs) + CountFailed(rs) == |rs|
  {
    if rs != [] { CountsCoverResults(rs[1..]); }
  }

  /** The reply the pool receives for batch b: a worker fault, or the worker's result list. */
  function ReplyFor(b: Batch, minify: bool, disk: string -> Worker.FileAnswers, serialize: Worker.Serializer,
                    faults: Batch -> Option<string>): (r: Reply)
    ensures r.Results? ==> |r.results| == |b|
  {
    if faults(b).Some? then WorkerError(faults(b).value)
    else Results(Worker.BatchResults(b, minify, disk, serialize))
  }

  /** shush.ts:100-101 -- a busy worker's batch is answered: the worker goes back on top of the idle stack. */
  function Released(s: PoolState, w: WorkerId): PoolState
  {
    PoolState(s.idle + [w], s.queue, s.executing - {w})
  }

  /** Freeing a busy worker keeps every worker either idle or busy. */
  lemma ReleasedWellFormed(s: PoolState, n: nat, w: WorkerId)
    requires WellFormed(s, n) && w in s.executing
    ensures WellFormed(Released(s, w), n)
  {
    assert |s.executing - {w}| == |s.executing| - 1;
  }

  /**
   * A completion followed by dispatch: the answered batch leaves the load, and
   * exactly one unit of work (a waiting batch or a busy worker) disappears.
   */
  lemma CompletionStep(s: PoolState, n: nat, w: WorkerId)
    requires WellFormed(s, n) && w in s.executing
    ensures var r := DispatchAll(Released(s, w));
      && WellFormed(r, n)
      && InFlight(r.executing, n) + TotalLen(r.queue) + |s.executing[w]| == InFlight(s.executing, n) + TotalLen(s.queue)
      && |r.queue| + |r.executing| + 1 == |s.queue| + |s.executing|
  {
    var t := Released(s, w);
    ReleasedWellFormed(s, n, w);
    InFlightRelease(s.executing, n, w);
    DispatchAllShape(t, n);
    DispatchKeepsLoad(t, n);
  }

  /** The fixed worker pool of a run, with the success and failure counters. */
  class Pool {
    const size: nat
    var idle: seq<WorkerId>
    var queue: seq<Batch>
    var executing: map<WorkerId, Batch>
    var processed: nat
    var errors: nat

    /** The batches of the run, and those handed to a worker so far, in order. */
    ghost const batches: seq<Batch>
    ghost var handedOut: seq<Batch>

    function State(): PoolState
      reads this
    {
      PoolState(idle, queue, executing)
    }

    ghost predicate Valid()
      reads this
    {
      WellFormed(State(), size) && handedOut + queue == batches
    }

    /** shush.ts:59-62, 92-94 -- a pool of n fresh workers, all idle, and every batch waiting. */
    constructor (bs: seq<Batch>, n: nat)
      ensures Valid() && size == n && batches == bs
      ensures queue == bs && executing == map[] && handedOut == []
      ensures |idle| == n && forall i :: 0 <= i < n ==> idle[i] == i
      ensures processed == 0 && errors == 0
    {
      size := n;
      idle := seq(n, i => i);
      queue := bs;
      executing := map[];
      processed, errors := 0, 0;
      batches := bs;
      handedOut := [];
    }

    /** shush.ts:96-107 -- `dispatch`. */
    method Dispatch()
      requires Valid()
      modifies this
      ensures Valid()
      ensures State() == DispatchAll(old(State()))
      ensures idle == [] || queue == []
      ensures |queue| <= |old(queue)|
      ensures handedOut == old(handedOut) + old(queue)[..|old(queue)| - |queue|]
      ensures processed == old(processed) && errors == old(errors)
    {
      ghost var start := State();
      DispatchAllShape(start, size);
      var r := DispatchLoop(State(), size);
      ghost var taken := |queue| - |r.queue|;
      assert start.queue == start.queue[..taken] + r.queue;
      assert handedOut + (start.queue[..taken] + r.queue) == batches;
      assert (handedOut + start.queue[..taken]) + r.queue == batches;
      idle, queue, executing := r.idle, r.queue, r.executing;
      handedOut := handedOut + start.queue[..taken];
    }

    /** shush.ts:66-85 -- the message and error handlers of `processBatch` updating the counters. */
    method Settle(reply: Reply, batchLen: nat)
      modifies this`processed, this`errors
      ensures reply.Results? ==> processed == old(processed) + CountOk(reply.results)
      ensures reply.Results? ==> errors == old(errors) + CountFailed(reply.results)
      ensures reply.WorkerError? ==> processed == old(processed) && errors == old(errors) + batchLen
    {
      if reply.Results? {
        var i := 0;
        while i < |reply.results|
          invariant 0 <= i <= |reply.results|
          invariant processed + CountOk(reply.results[i..]) == old(processed) + CountOk(reply.results)
          invariant errors + CountFailed(reply.results[i..]) == old(errors) + CountFailed(reply.results)
        {
          assert reply.results[i..][1..] == reply.results[i + 1..];
          if reply.results[i].Succeeded? {
            processed := processed + 1;
          } else {
            errors := errors + 1;
          }
          i := i + 1;
        }
      } else {
        errors := errors + batchLen;
      }
    }

    /** shush.ts:100-104 -- a busy worker's batch is answered: count the results, free the worker, dispatch again. */
    method Complete(w: WorkerId, reply: Reply)
      requires Valid() && w in executing
      modifies this
      ensures Valid()
      ensures State() == DispatchAll(Released(old(State()), w))
      ensures idle == [] || queue == []
      ensures reply.Results? ==> processed == old(processed) + CountOk(reply.results)
      ensures reply.Results? ==> errors == old(errors) + CountFailed(reply.results)
      ensures reply.WorkerError? ==> processed == old(processed) && errors == old(errors) + |old(executing)[w]|
      ensures |queue| <= |old(queue)|
      ensures handedOut == old(handedOut) + old(queue)[..|old(queue)| - |queue|]
    {
      ghost var start := State();
      ReleasedWellFormed(start, size, w);
      var batch := executing[w];
      Settle(reply, |batch|);
      executing := executing - {w};
      idle := idle + [w];
      assert State() == Released(start, w);
      Dispatch();
    }

    /** shush.ts:91-114 -- `runPool`: dispatch, then wait for completions until nothing is in flight. */
    method RunPool(minify: bool, disk: string -> Worker.FileAnswers, serialize: Worker.Serializer,
                   faults: Batch -> Option<string>)
      requires Valid() && size >= 1 && executing == map[]
      modifies this
      ensures Valid()
      ensures queue == [] && executing == map[] && |idle| == size
      ensures handedOut == batches
      ensures processed + errors == old(processed) + old(errors) + TotalLen(old(queue))
    {
      Dispatch();
      InFlightNone(size);
      DispatchKeepsLoad(old(State()), size);
      while executing != map[]
        invariant Valid()
        invariant idle == [] || queue == []
        invariant processed + errors + InFlight(executing, size) + TotalLen(queue)
          == old(processed) + old(errors) + TotalLen(old(queue))
        decreases |queue| + |executing|
      {
        var w :| w in executing;
        var reply := ReplyFor(executing[w], minify, disk, serialize, faults);
        ghost var before := State();
        ghost var settled := processed + errors + |executing[w]|;
        CompletionStep(before, size, w);
        if reply.Results? { CountsCoverResults(reply.results); }
        Complete(w, reply);
        assert processed + errors == settled;
        assert State() == DispatchAll(Released(before, w));
      }
      assert |idle| == size;
    }
  }

  /** How a run ends: no file to process, or the final counters with the pool and batch counts. */
  datatype RunSummary = NoFilesFound | Finished(processed: nat, errors: nat, workers: nat, batchCount: nat)

  /**
   * shush.ts:12-123 -- the whole run: select, batch, pool, dispatch, report.
   * The walk's result, the hardware parallelism, the disk, the JSON library and
   * the worker faults are inputs.
   */
  method Run(config: Config, walked: seq<string>, hardwareConcurrency: Option<int>,
             disk: string -> Worker.FileAnswers, serialize: Worker.Serializer, faults: Batch -> Option<string>)
    returns (summary: RunSummary)
    requires Discover(walked, Extensions(config.jsonc)) != [] ==> config.batchSize >= 1
    ensures |Discover(walked, Extensions(config.jsonc))| == 0 <==> summary == NoFilesFound
    ensures summary.Finished? ==>
      var files := Discover(walked, Extensions(config.jsonc));
      && summary.processed + summary.errors == |files|
      && summary.workers == PoolSize(hardwareConcurrency)
      && (summary.batchCount - 1) * config.batchSize < |files| <= summary.batchCount * config.batchSize
  {
    var exts := Extensions(config.jsonc);
    var files := Discover(walked, exts);
    if |files| == 0 {
      return NoFilesFound;
    }
    var concurrency := PoolSize(hardwareConcurrency);
    var batches := ChunkArray(files, config.batchSize);
    TotalLenOfFlatten(batches);
    var pool := new Pool(batches, concurrency);
    pool.RunPool(config.minify, disk, serialize, faults);
    summary := Finished(pool.processed, pool.errors, concurrency, |batches|);
  }
}
