/**
 * The parallel proof search of `src/block.rs`: the task that scans one
 * range, the split of a proof range into tasks, and what `mine_range`
 * returns for a given order in which the tasks' outputs arrive.
 *
 * Threads and channels are not modelled. Each task is run once (the work
 * queue hands every task to exactly one worker) and its output arrives in
 * some order; that order is the parameter `arrival`, a list of task indices.
 */
module Mining {
  import opened Ints
  import opened Optional
  import opened Digests
  import opened Blocks

  /** The number of tasks `mine_for_proof` asks for. */
  const CHUNKS: u64 := 2345

  /** One search task: a shared snapshot of the block and the half-open proof range `[minRange, maxRange)`. */
  datatype MiningTask = MiningTask(block: Block, minRange: u64, maxRange: u64)

  ghost predicate NoneValidIn(h: Hasher, b: Block, lo: int, hi: int)
  {
    forall q: u64 | lo <= q < hi :: !IsValidForProof(h, b, q)
  }

  ghost predicate LeastValidIn(h: Hasher, b: Block, lo: int, hi: int, p: u64)
  {
    lo <= p < hi && IsValidForProof(h, b, p) && NoneValidIn(h, b, lo, p)
  }

  // ---------------------------------------------------------------------------
  // One task

  /** What a task reports for the proofs `[lo, hi)`. */
  function ScanRange(h: Hasher, b: Block, lo: u64, hi: u64): u64
    decreases hi - lo
  {
    if lo >= hi then 0
    else if IsValidForProof(h, b, lo) then lo
    else ScanRange(h, b, lo + 1, hi)
  }

  /** A task reports the least valid proof of its range, or 0 when the range holds none. */
  lemma {:induction false} ScanRangeFindsLeast(h: Hasher, b: Block, lo: u64, hi: u64)
    ensures var p := ScanRange(h, b, lo, hi);
            LeastValidIn(h, b, lo, hi, p) || (p == 0 && NoneValidIn(h, b, lo, hi))
    decreases hi - lo
  {
    if lo < hi && !IsValidForProof(h, b, lo) {
      ScanRangeFindsLeast(h, b, lo + 1, hi);
      var p := ScanRange(h, b, lo + 1, hi);
      assert ScanRange(h, b, lo, hi) == p;
      if LeastValidIn(h, b, lo + 1, hi, p) {
        NoneValidExtends(h, b, lo, p);
      } else {
        NoneValidExtends(h, b, lo, hi);
      }
    }
  }

  /** An invalid proof in front of a range without valid proofs extends it. */
  lemma NoneValidExtends(h: Hasher, b: Block, lo: u64, hi: int)
    requires !IsValidForProof(h, b, lo) && NoneValidIn(h, b, lo + 1, hi)
    ensures NoneValidIn(h, b, lo, hi)
  {
  }

  lemma NoneValidWithin(h: Hasher, b: Block, lo: int, hi: int, lo2: int, hi2: int)
    requires NoneValidIn(h, b, lo, hi) && lo <= lo2 && hi2 <= hi
    ensures NoneValidIn(h, b, lo2, hi2)
  {
  }

  /** A range without valid proofs makes its task report 0, which is invalid unless proof 0 is valid. */
  lemma ScanReportsInvalid(h: Hasher, b: Block, lo: u64, hi: u64)
    requires NoneValidIn(h, b, lo, hi) && !IsValidForProof(h, b, 0)
    ensures !IsValidForProof(h, b, ScanRange(h, b, lo, hi))
  {
    ScanRangeFindsLeast(h, b, lo, hi);
  }

  /** A range holding a valid proof makes its task report a valid proof. */
  lemma ScanFindsValid(h: Hasher, b: Block, lo: u64, hi: u64, p: u64)
    requires lo <= p < hi && IsValidForProof(h, b, p)
    ensures IsValidForProof(h, b, ScanRange(h, b, lo, hi))
  {
    ScanRangeFindsLeast(h, b, lo, hi);
  }

  /** `MiningTask::run`: tries the proofs of the range in increasing order and stops at the first valid one. */
  method Run(h: Hasher, task: MiningTask) returns (r: Option<u64>)
    ensures r == Some(ScanRange(h, task.block, task.minRange, task.maxRange))
    ensures LeastValidIn(h, task.block, task.minRange, task.maxRange, r.value)
            || (r.value == 0 && NoneValidIn(h, task.block, task.minRange, task.maxRange))
  {
    var proof: u64 := 0;
    var i: u64 := task.minRange;
    while i < task.maxRange
      invariant proof == 0
      invariant ScanRange(h, task.block, i, task.maxRange) == ScanRange(h, task.block, task.minRange, task.maxRange)
      decreases task.maxRange - i
    {
      if IsValidForProof(h, task.block, i) {
        proof := i;
        break;
      }
      i := i + 1;
    }
    r := Some(proof);
    ScanRangeFindsLeast(h, task.block, task.minRange, task.maxRange);
  }

  // ---------------------------------------------------------------------------
  // Splitting a range into tasks

  /** The caller's obligations: no division by zero, no `end - start` underflow, no overflow of the last task's end. */
  predicate PartitionFits(start: u64, end: u64, chunks: u64)
  {
    chunks > 0 && start <= end && ChunkStart(start, end, chunks, chunks) <= U64_MAX
  }

  /** `chunk_size`: the integer share of the range per task. */
  function ChunkSize(start: u64, end: u64, chunks: u64): nat
    requires chunks > 0 && start <= end
  {
    (end - start) / chunks
  }

  /** Where task `i` starts: every task covers `chunk_size + 1` proofs. */
  function ChunkStart(start: u64, end: u64, chunks: u64, i: nat): int
    requires chunks > 0 && start <= end
  {
    start + i * (ChunkSize(start, end, chunks) + 1)
  }

  lemma ChunkStartMonotone(start: u64, end: u64, chunks: u64, i: nat, j: nat)
    requires chunks > 0 && start <= end && i <= j
    ensures start <= ChunkStart(start, end, chunks, i) <= ChunkStart(start, end, chunks, j)
  {
    var w := ChunkSize(start, end, chunks) + 1;
    assert j * w == i * w + (j - i) * w;
  }

  lemma ChunkStartStep(start: u64, end: u64, chunks: u64, i: nat)
    requires chunks > 0 && start <= end
    ensures ChunkStart(start, end, chunks, i + 1) == ChunkStart(start, end, chunks, i) + ChunkSize(start, end, chunks) + 1
  {
    var w := ChunkSize(start, end, chunks) + 1;
    assert (i + 1) * w == i * w + w;
  }

  /** Task `i` of `mine_range`: the block and the proofs `[ChunkStart(i), ChunkStart(i + 1))`. */
  function TaskOf(b: Block, start: u64, end: u64, chunks: u64, i: nat): MiningTask
    requires PartitionFits(start, end, chunks) && i < chunks
  {
    ChunkStartMonotone(start, end, chunks, i, i + 1);
    ChunkStartMonotone(start, end, chunks, i + 1, chunks);
    MiningTask(b, ChunkStart(start, end, chunks, i), ChunkStart(start, end, chunks, i + 1))
  }

  /** The tasks of `mine_range`, in the order it enqueues them. */
  function Partition(b: Block, start: u64, end: u64, chunks: u64): (tasks: seq<MiningTask>)
    requires PartitionFits(start, end, chunks)
  {
    seq(chunks, i requires 0 <= i < chunks => TaskOf(b, start, end, chunks, i))
  }

  /** The last task ends past `end`: `chunks` tasks of `chunk_size + 1` proofs exceed `end - start`. */
  lemma PartitionReachesEnd(start: u64, end: u64, chunks: u64)
    requires chunks > 0 && start <= end
    ensures end < ChunkStart(start, end, chunks, chunks)
  {
    var n, cs := end - start, ChunkSize(start, end, chunks);
    assert n == chunks * cs + n % chunks;
    assert chunks * (cs + 1) == chunks * cs + chunks;
  }

  /**
   * The tasks: `chunks` of them, each of `chunk_size + 1` proofs of the same
   * block; the first starts at `start`, each starts where the one before
   * ends, and the last ends past `end`.
   */
  lemma PartitionShape(b: Block, start: u64, end: u64, chunks: u64)
    requires PartitionFits(start, end, chunks)
    ensures var tasks := Partition(b, start, end, chunks);
            && |tasks| == chunks
            && tasks[0].minRange == start
            && (forall i | 0 <= i < |tasks| ::
                  tasks[i].block == b && tasks[i].maxRange - tasks[i].minRange == ChunkSize(start, end, chunks) + 1)
            && (forall i | 0 < i < |tasks| :: tasks[i].minRange == tasks[i - 1].maxRange)
            && end < tasks[|tasks| - 1].maxRange
  {
    var tasks := Partition(b, start, end, chunks);
    forall i | 0 <= i < chunks
      ensures tasks[i].maxRange - tasks[i].minRange == ChunkSize(start, end, chunks) + 1
    {
      ChunkStartStep(start, end, chunks, i);
    }
    PartitionReachesEnd(start, end, chunks);
  }

  lemma QuotientBounds(x: nat, w: nat)
    requires w > 0
    ensures (x / w) * w <= x < (x / w + 1) * w
  {
    assert x == (x / w) * w + x % w;
    assert (x / w + 1) * w == (x / w) * w + w;
  }

  /** The task that covers proof `p`. */
  function ChunkOf(start: u64, end: u64, chunks: u64, p: int): (i: nat)
    requires PartitionFits(start, end, chunks)
    requires start <= p < ChunkStart(start, end, chunks, chunks)
    ensures i < chunks
    ensures ChunkStart(start, end, chunks, i) <= p < ChunkStart(start, end, chunks, i + 1)
  {
    var w := ChunkSize(start, end, chunks) + 1;
    var i := (p - start) / w;
    QuotientBounds(p - start, w);
    assert i < chunks by {
      if i >= chunks {
        ChunkStartMonotone(start, end, chunks, chunks, i);
      }
    }
    i
  }

  /**
   * The tasks leave no gap and do not overlap: every proof of `[start, end)`
   * lies in exactly one task.
   */
  lemma PartitionCovers(b: Block, start: u64, end: u64, chunks: u64, p: int)
    requires PartitionFits(start, end, chunks)
    requires start <= p < end
    ensures var tasks := Partition(b, start, end, chunks);
            var i := ChunkOf(start, end, chunks, p);
            && tasks[i].minRange <= p < tasks[i].maxRange
            && forall j | 0 <= j < |tasks| && j != i :: !(tasks[j].minRange <= p < tasks[j].maxRange)
  {
    var tasks := Partition(b, start, end, chunks);
    PartitionReachesEnd(start, end, chunks);
    var i := ChunkOf(start, end, chunks, p);
    forall j | 0 <= j < |tasks| && j != i
      ensures !(tasks[j].minRange <= p < tasks[j].maxRange)
    {
      if j < i {
        ChunkStartMonotone(start, end, chunks, j + 1, i);
      } else {
        ChunkStartMonotone(start, end, chunks, i + 1, j);
      }
    }
  }

  // ---------------------------------------------------------------------------
  // Collecting the outputs

  /** Every task index below `n` arrives exactly once. */
  predicate IsArrivalOrder(arrival: seq<nat>, n: nat)
  {
    && |arrival| == n
    && (forall k | 0 <= k < |arrival| :: arrival[k] < n)
    && (forall i | 0 <= i < n :: i in arrival)
  }

  /** Where task `i`'s output arrives. */
  lemma ArrivalOf(arrival: seq<nat>, n: nat, i: nat) returns (k: nat)
    requires IsArrivalOrder(arrival, n) && i < n
    ensures k < |arrival| && arrival[k] == i
  {
    assert i in arrival;
    k :| 0 <= k < |arrival| && arrival[k] == i;
  }

  ghost predicate FirstValidAt(h: Hasher, b: Block, outputs: seq<u64>, k: nat)
  {
    && k < |outputs|
    && IsValidForProof(h, b, outputs[k])
    && forall j | 0 <= j < k :: !IsValidForProof(h, b, outputs[j])
  }

  ghost predicate NoValidOutput(h: Hasher, b: Block, outputs: seq<u64>, n: nat)
  {
    forall k | 0 <= k < n && k < |outputs| :: !IsValidForProof(h, b, outputs[k])
  }

  /**
   * The receive loop of `mine_range`: it reads at most `receives` outputs in
   * arrival order and returns the first one that re-verifies; after
   * `receives` reads without one it returns 0. `None` stands for the loop
   * waiting for an output that will never be sent.
   */
  function SelectProof(h: Hasher, b: Block, outputs: seq<u64>, receives: nat): (r: Option<u64>)
    ensures r.Some? && r.value != 0 ==> r.value in outputs && IsValidForProof(h, b, r.value)
    ensures r.None? ==> |outputs| < receives && NoValidOutput(h, b, outputs, |outputs|)
  {
    if receives == 0 then Some(0)
    else if |outputs| == 0 then None
    else if IsValidForProof(h, b, outputs[0]) then Some(outputs[0])
    else
      var r := SelectProof(h, b, outputs[1..], receives - 1);
      assert forall k | 0 < k < |outputs| :: outputs[k] == outputs[1..][k - 1];
      r
  }

  /**
   * The receive loop answers with the first re-verifying output among the
   * first `receives`; when there is none it answers 0, or waits forever if
   * fewer than `receives` outputs exist.
   */
  lemma {:induction false} SelectProofChoosesFirst(h: Hasher, b: Block, outputs: seq<u64>, receives: nat)
    ensures forall k | 0 <= k < receives :: FirstValidAt(h, b, outputs, k) ==> SelectProof(h, b, outputs, receives) == Some(outputs[k])
    ensures NoValidOutput(h, b, outputs, receives) ==>
              SelectProof(h, b, outputs, receives) == (if |outputs| < receives then None else Some(0))
  {
    if receives > 0 && |outputs| > 0 && !IsValidForProof(h, b, outputs[0]) {
      SelectProofChoosesFirst(h, b, outputs[1..], receives - 1);
      assert forall k | 0 < k < |outputs| :: outputs[k] == outputs[1..][k - 1];
      assert forall k | 0 < k < receives :: FirstValidAt(h, b, outputs, k) ==> FirstValidAt(h, b, outputs[1..], k - 1);
    }
  }

  /** Some output among the first `receives` re-verifies, so the receive loop returns a valid proof. */
  lemma {:induction false} SelectFindsValid(h: Hasher, b: Block, outputs: seq<u64>, receives: nat, k: nat)
    requires k < receives && k < |outputs| && IsValidForProof(h, b, outputs[k])
    ensures SelectProof(h, b, outputs, receives).Some?
    ensures IsValidForProof(h, b, SelectProof(h, b, outputs, receives).value)
  {
    if !IsValidForProof(h, b, outputs[0]) {
      assert outputs[1..][k - 1] == outputs[k];
      SelectFindsValid(h, b, outputs[1..], receives - 1, k - 1);
    }
  }

  /** What task `i` reports. */
  function OutputOf(h: Hasher, b: Block, start: u64, end: u64, chunks: u64, i: nat): u64
    requires PartitionFits(start, end, chunks) && i < chunks
  {
    var task := TaskOf(b, start, end, chunks, i);
    ScanRange(h, b, task.minRange, task.maxRange)
  }

  /** The outputs of the tasks, in arrival order. */
  ghost function Outputs(h: Hasher, b: Block, start: u64, end: u64, chunks: u64, arrival: seq<nat>): (outputs: seq<u64>)
    requires PartitionFits(start, end, chunks)
    requires IsArrivalOrder(arrival, chunks)
  {
    seq(|arrival|, k requires 0 <= k < |arrival| => OutputOf(h, b, start, end, chunks, arrival[k]))
  }

  /** The answer of the receive loop of `mine_range` for the arrival order `arrival`. */
  ghost function RangeOutcome(h: Hasher, b: Block, start: u64, end: u64, chunks: u64, arrival: seq<nat>): Option<u64>
    requires PartitionFits(start, end, chunks)
    requires IsArrivalOrder(arrival, chunks)
  {
    SelectProof(h, b, Outputs(h, b, start, end, chunks, arrival), end - start + 1)
  }

  /** A valid proof in any task's range makes that task's output, wherever it arrives, valid. */
  lemma ValidOutputFor(h: Hasher, b: Block, start: u64, end: u64, chunks: u64, arrival: seq<nat>, p: u64)
    returns (k: nat)
    requires PartitionFits(start, end, chunks)
    requires IsArrivalOrder(arrival, chunks)
    requires start <= p < ChunkStart(start, end, chunks, chunks) && IsValidForProof(h, b, p)
    ensures k < chunks
    ensures IsValidForProof(h, b, Outputs(h, b, start, end, chunks, arrival)[k])
  {
    var i := ChunkOf(start, end, chunks, p);
    k := ArrivalOf(arrival, chunks, i);
    var task := TaskOf(b, start, end, chunks, i);
    ScanFindsValid(h, b, task.minRange, task.maxRange, p);
  }

  /** When no output re-verifies, no proof in any task's range is valid. */
  lemma NoValidOutputMeansNoneValid(h: Hasher, b: Block, start: u64, end: u64, chunks: u64, arrival: seq<nat>)
    requires PartitionFits(start, end, chunks)
    requires IsArrivalOrder(arrival, chunks)
    requires NoValidOutput(h, b, Outputs(h, b, start, end, chunks, arrival), chunks)
    ensures NoneValidIn(h, b, start, ChunkStart(start, end, chunks, chunks))
  {
    var outputs := Outputs(h, b, start, end, chunks, arrival);
    forall q: u64 | start <= q < ChunkStart(start, end, chunks, chunks)
      ensures !IsValidForProof(h, b, q)
    {
      var i := ChunkOf(start, end, chunks, q);
      var k := ArrivalOf(arrival, chunks, i);
      assert !IsValidForProof(h, b, outputs[k]);
      var task := TaskOf(b, start, end, chunks, i);
      ScanRangeFindsLeast(h, b, task.minRange, task.maxRange);
    }
  }

  /**
   * The converse: when no proof in the tasks' ranges is valid and proof 0 is
   * not valid either, no output re-verifies, since every task then reports 0.
   */
  lemma NoneValidMeansNoValidOutput(h: Hasher, b: Block, start: u64, end: u64, chunks: u64, arrival: seq<nat>)
    requires PartitionFits(start, end, chunks)
    requires IsArrivalOrder(arrival, chunks)
    requires NoneValidIn(h, b, start, ChunkStart(start, end, chunks, chunks)) && !IsValidForProof(h, b, 0)
    ensures NoValidOutput(h, b, Outputs(h, b, start, end, chunks, arrival), chunks)
  {
    var outputs := Outputs(h, b, start, end, chunks, arrival);
    forall k | 0 <= k < chunks && k < |outputs|
      ensures !IsValidForProof(h, b, outputs[k])
    {
      OutputInvalid(h, b, start, end, chunks, arrival[k]);
    }
  }

  lemma OutputInvalid(h: Hasher, b: Block, start: u64, end: u64, chunks: u64, i: nat)
    requires PartitionFits(start, end, chunks) && i < chunks
    requires NoneValidIn(h, b, start, ChunkStart(start, end, chunks, chunks)) && !IsValidForProof(h, b, 0)
    ensures !IsValidForProof(h, b, OutputOf(h, b, start, end, chunks, i))
  {
    var task := TaskOf(b, start, end, chunks, i);
    ChunkStartMonotone(start, end, chunks, i + 1, chunks);
    NoneValidWithin(h, b, start, ChunkStart(start, end, chunks, chunks), task.minRange, task.maxRange);
    ScanReportsInvalid(h, b, task.minRange, task.maxRange);
  }

  /** An answer that does not re-verify means none of the outputs read re-verifies. */
  lemma {:induction false} SelectInvalidMeansNoValid(h: Hasher, b: Block, outputs: seq<u64>, receives: nat)
    ensures var r := SelectProof(h, b, outputs, receives);
            r.Some? && !IsValidForProof(h, b, r.value) ==> NoValidOutput(h, b, outputs, receives)
  {
    if receives > 0 && |outputs| > 0 && !IsValidForProof(h, b, outputs[0]) {
      SelectInvalidMeansNoValid(h, b, outputs[1..], receives - 1);
      assert forall k | 0 < k < |outputs| :: outputs[k] == outputs[1..][k - 1];
    }
  }

  /**
   * When every output is read, a valid proof anywhere in the tasks' ranges,
   * which reach past `end`, makes `mine_range` succeed.
   */
  lemma MineRangeComplete(h: Hasher, b: Block, start: u64, end: u64, chunks: u64, arrival: seq<nat>, p: u64)
    requires PartitionFits(start, end, chunks)
    requires IsArrivalOrder(arrival, chunks)
    requires chunks <= end - start + 1
    requires start <= p < ChunkStart(start, end, chunks, chunks) && IsValidForProof(h, b, p)
    ensures RangeOutcome(h, b, start, end, chunks, arrival).Some?
    ensures IsValidForProof(h, b, RangeOutcome(h, b, start, end, chunks, arrival).value)
  {
    var k := ValidOutputFor(h, b, start, end, chunks, arrival, p);
    SelectFindsValid(h, b, Outputs(h, b, start, end, chunks, arrival), end - start + 1, k);
  }

  /**
   * With more reads than tasks, `mine_range` waits forever when no proof in
   * the tasks' ranges, nor proof 0, is valid.
   */
  lemma MineRangeHangs(h: Hasher, b: Block, start: u64, end: u64, chunks: u64, arrival: seq<nat>)
    requires PartitionFits(start, end, chunks)
    requires IsArrivalOrder(arrival, chunks)
    requires chunks < end - start + 1
    requires NoneValidIn(h, b, start, ChunkStart(start, end, chunks, chunks)) && !IsValidForProof(h, b, 0)
    ensures RangeOutcome(h, b, start, end, chunks, arrival).None?
  {
    var outputs := Outputs(h, b, start, end, chunks, arrival);
    NoneValidMeansNoValidOutput(h, b, start, end, chunks, arrival);
    assert NoValidOutput(h, b, outputs, end - start + 1);
    SelectProofChoosesFirst(h, b, outputs, end - start + 1);
  }

  /** A non-zero answer is the least valid proof of one of the tasks' ranges. */
  lemma MineRangeLocal(h: Hasher, b: Block, start: u64, end: u64, chunks: u64, arrival: seq<nat>)
    requires PartitionFits(start, end, chunks)
    requires IsArrivalOrder(arrival, chunks)
    ensures var r := RangeOutcome(h, b, start, end, chunks, arrival);
            r.Some? && r.value != 0 ==>
              exists i | 0 <= i < chunks ::
                LeastValidIn(h, b, TaskOf(b, start, end, chunks, i).minRange, TaskOf(b, start, end, chunks, i).maxRange, r.value)
  {
    var r := RangeOutcome(h, b, start, end, chunks, arrival);
    var outputs := Outputs(h, b, start, end, chunks, arrival);
    if r.Some? && r.value != 0 {
      var k :| 0 <= k < |outputs| && outputs[k] == r.value;
      var task := TaskOf(b, start, end, chunks, arrival[k]);
      ScanRangeFindsLeast(h, b, task.minRange, task.maxRange);
      assert LeastValidIn(h, b, task.minRange, task.maxRange, r.value);
    }
  }

  /**
   * The receive loop can only wait forever when it expects more outputs than
   * there are tasks and no proof in any task's range is valid.
   */
  lemma MineRangeBlocks(h: Hasher, b: Block, start: u64, end: u64, chunks: u64, arrival: seq<nat>)
    requires PartitionFits(start, end, chunks)
    requires IsArrivalOrder(arrival, chunks)
    ensures var r := RangeOutcome(h, b, start, end, chunks, arrival);
            r.None? ==> chunks < end - start + 1 && NoneValidIn(h, b, start, ChunkStart(start, end, chunks, chunks))
  {
    if RangeOutcome(h, b, start, end, chunks, arrival).None? {
      NoValidOutputMeansNoneValid(h, b, start, end, chunks, arrival);
    }
  }

  /** The enqueue loop of `mine_range`: it builds the tasks of the partition, in order. */
  method EnqueueTasks(b: Block, start: u64, end: u64, chunks: u64) returns (tasks: seq<MiningTask>)
    requires PartitionFits(start, end, chunks)
    ensures tasks == Partition(b, start, end, chunks)
  {
    var chunkSize: u64 := (end - start) / chunks;
    tasks := [];
    var minRange: u64 := start;
    var n: u64 := 0;
    while n < chunks
      invariant n <= chunks
      invariant minRange == ChunkStart(start, end, chunks, n)
      invariant |tasks| == n as int
      invariant forall i | 0 <= i < n :: tasks[i] == TaskOf(b, start, end, chunks, i)
    {
      ChunkStartStep(start, end, chunks, n);
      ChunkStartMonotone(start, end, chunks, n + 1, chunks);
      var maxRange: u64 := minRange + chunkSize + 1;
      tasks := tasks + [MiningTask(b, minRange, maxRange)];
      minRange := maxRange;
      n := n + 1;
    }
  }

  /** The workers: each task runs once and its output joins the results in arrival order. */
  method RunTasks(h: Hasher, b: Block, start: u64, end: u64, chunks: u64, tasks: seq<MiningTask>, arrival: seq<nat>)
    returns (outputs: seq<u64>)
    requires PartitionFits(start, end, chunks)
    requires IsArrivalOrder(arrival, chunks)
    requires tasks == Partition(b, start, end, chunks)
    ensures outputs == Outputs(h, b, start, end, chunks, arrival)
  {
    ghost var expected := Outputs(h, b, start, end, chunks, arrival);
    outputs := [];
    var k := 0;
    while k < |arrival|
      invariant k <= |arrival|
      invariant |outputs| == k
      invariant forall j | 0 <= j < k :: outputs[j] == expected[j]
    {
      var output := Run(h, tasks[arrival[k]]);
      outputs := outputs + [output.value];
      k := k + 1;
    }
  }

  /**
   * `mine_range` on the proofs `[start, end)` split into `chunks` tasks, when
   * the tasks' outputs arrive in the order `arrival`. `None` means `mine_range`
   * waits forever.
   */
  method MineRange(h: Hasher, b: Block, start: u64, end: u64, chunks: u64, arrival: seq<nat>)
    returns (r: Option<u64>)
    requires PartitionFits(start, end, chunks)
    requires IsArrivalOrder(arrival, chunks)
    ensures r == RangeOutcome(h, b, start, end, chunks, arrival)
    ensures r.Some? && r.value != 0 ==> IsValidForProof(h, b, r.value)
    // The next clause implies this one, since the tasks reach past `end`.
    ensures chunks <= end - start + 1 && (exists p: u64 | start <= p < end :: IsValidForProof(h, b, p)) ==>
              r.Some? && IsValidForProof(h, b, r.value)
    ensures chunks <= end - start + 1
            && (exists p: u64 | start <= p < ChunkStart(start, end, chunks, chunks) :: IsValidForProof(h, b, p)) ==>
              r.Some? && IsValidForProof(h, b, r.value)
    ensures r.None? ==> chunks < end - start + 1 && NoneValidIn(h, b, start, ChunkStart(start, end, chunks, chunks))
    ensures (chunks < end - start + 1 && NoneValidIn(h, b, start, ChunkStart(start, end, chunks, chunks))
             && !IsValidForProof(h, b, 0)) ==> r.None?
  {
    var tasks := EnqueueTasks(b, start, end, chunks);
    var outputs := RunTasks(h, b, start, end, chunks, tasks, arrival);
    r := SelectProof(h, b, outputs, end - start + 1);
    PartitionReachesEnd(start, end, chunks);
    if chunks <= end - start + 1
       && exists p: u64 | start <= p < ChunkStart(start, end, chunks, chunks) :: IsValidForProof(h, b, p)
    {
      var p: u64 :| start <= p < ChunkStart(start, end, chunks, chunks) && IsValidForProof(h, b, p);
      MineRangeComplete(h, b, start, end, chunks, arrival, p);
    }
    MineRangeBlocks(h, b, start, end, chunks, arrival);
    if chunks < end - start + 1 && NoneValidIn(h, b, start, ChunkStart(start, end, chunks, chunks))
       && !IsValidForProof(h, b, 0)
    {
      MineRangeHangs(h, b, start, end, chunks, arrival);
    }
  }

  /**
   * `mine_range` with the receive loop reading one output per task instead
   * of `end - start + 1` outputs. It never waits forever, and it answers a
   * valid proof whenever one lies in `[start, end)`, whatever the number of
   * tasks and the arrival order.
   */
  method MineRangeCorrected(h: Hasher, b: Block, start: u64, end: u64, chunks: u64, arrival: seq<nat>)
    returns (proof: u64)
    requires PartitionFits(start, end, chunks)
    requires IsArrivalOrder(arrival, chunks)
    ensures proof != 0 ==> IsValidForProof(h, b, proof)
    ensures (exists p: u64 | start <= p < end :: IsValidForProof(h, b, p)) ==> IsValidForProof(h, b, proof)
    ensures !IsValidForProof(h, b, proof) ==> proof == 0 && NoneValidIn(h, b, start, ChunkStart(start, end, chunks, chunks))
  {
    var tasks := EnqueueTasks(b, start, end, chunks);
    var outputs := RunTasks(h, b, start, end, chunks, tasks, arrival);
    var r := SelectProof(h, b, outputs, chunks as nat);
    proof := r.value;
    SelectInvalidMeansNoValid(h, b, outputs, chunks as nat);
    if !IsValidForProof(h, b, proof) {
      NoValidOutputMeansNoneValid(h, b, start, end, chunks, arrival);
    }
    PartitionReachesEnd(start, end, chunks);
  }

  /** A digest function under which, for block `b`, exactly the proof `good` meets difficulty 8. */
  function SingleValidHasher(b: Block, good: u64): Hasher
  {
    s => if s == HashStringForProof(b, good) then ZeroDigest() else ZeroDigest()[DIGEST_LEN - 1 := 1]
  }

  lemma SingleValidHasherValid(b: Block, good: u64)
    requires b.difficulty == 8
    ensures forall q: u64 :: IsValidForProof(SingleValidHasher(b, good), b, q) <==> q == good
  {
    forall q: u64
      ensures IsValidForProof(SingleValidHasher(b, good), b, q) <==> q == good
    {
      var d := HashForProof(SingleValidHasher(b, good), b, q);
      if q == good {
        assert d == ZeroDigest();
        assert ZeroFrom(d, DIGEST_LEN);
      } else {
        if HashStringForProof(b, q) == HashStringForProof(b, good) {
          HashStringInjective(b, q, b, good);
        }
        assert d[DIGEST_LEN - 1] == 1;
      }
    }
  }

  /** With fewer proofs than tasks every task covers exactly one proof: task `i` covers `[i, i + 1)`. */
  lemma UnitTasks(h: Hasher, b: Block, end: u64, chunks: u64)
    requires end < chunks
    ensures PartitionFits(0, end, chunks)
    ensures forall i: nat | i < chunks :: OutputOf(h, b, 0, end, chunks, i) == ScanRange(h, b, i, i + 1)
  {
    assert ChunkSize(0, end, chunks) == 0;
  }

  /** With fewer proofs than tasks, each output says whether the one proof of its task is valid. */
  lemma UnitOutputs(h: Hasher, b: Block, end: u64, chunks: u64, arrival: seq<nat>)
    requires end < chunks
    requires PartitionFits(0, end, chunks) && IsArrivalOrder(arrival, chunks)
    ensures forall k | 0 <= k < |arrival| ::
              Outputs(h, b, 0, end, chunks, arrival)[k] == if IsValidForProof(h, b, arrival[k]) then arrival[k] else 0
  {
    UnitTasks(h, b, end, chunks);
    forall k | 0 <= k < |arrival|
      ensures Outputs(h, b, 0, end, chunks, arrival)[k] == if IsValidForProof(h, b, arrival[k]) then arrival[k] else 0
    {
      ScanOne(h, b, arrival[k]);
    }
  }

  lemma ScanOne(h: Hasher, b: Block, p: u64)
    requires p < U64_MAX
    ensures ScanRange(h, b, p, p + 1) == if IsValidForProof(h, b, p) then p else 0
  {
  }

  /**
   * `mine_range` over the proofs `[0, 2)` in 4 tasks reads 3 outputs; when
   * only proof 1 is valid and the output of task 1 arrives last, it answers 0.
   */
  lemma UnreadValidOutput(h: Hasher, b: Block)
    requires !IsValidForProof(h, b, 0) && IsValidForProof(h, b, 1)
    requires !IsValidForProof(h, b, 2) && !IsValidForProof(h, b, 3)
    ensures PartitionFits(0, 2, 4) && IsArrivalOrder([0, 2, 3, 1], 4)
    ensures RangeOutcome(h, b, 0, 2, 4, [0, 2, 3, 1]) == Some(0)
  {
    var arrival: seq<nat> := [0, 2, 3, 1];
    ArrivalLastIsOne();
    assert PartitionFits(0, 2, 4) by {
      assert ChunkSize(0, 2, 4) == 0;
    }
    var outputs := Outputs(h, b, 0, 2, 4, arrival);
    assert outputs == [0, 0, 0, 1] by {
      UnitOutputs(h, b, 2, 4, arrival);
      assert |outputs| == 4;
    }
    SelectSkipsInvalid(h, b, outputs);
  }

  lemma ArrivalLastIsOne()
    ensures IsArrivalOrder([0, 2, 3, 1], 4)
  {
    var arrival: seq<nat> := [0, 2, 3, 1];
    assert arrival[0] == 0 && arrival[3] == 1 && arrival[1] == 2 && arrival[2] == 3;
  }

  lemma SelectSkipsInvalid(h: Hasher, b: Block, outputs: seq<u64>)
    requires outputs == [0, 0, 0, 1] && !IsValidForProof(h, b, 0)
    ensures SelectProof(h, b, outputs, 3) == Some(0)
  {
    assert SelectProof(h, b, outputs, 3) == SelectProof(h, b, outputs[1..], 2);
    assert SelectProof(h, b, outputs[1..], 2) == SelectProof(h, b, outputs[2..], 1);
    assert SelectProof(h, b, outputs[2..], 1) == SelectProof(h, b, outputs[3..], 0);
  }

  /**
   * With more tasks than outputs read (`mine_for_proof` at difficulty 8 or
   * less has 2345 tasks and reads at most 2049 outputs), `mine_range`
   * answers 0, which is not valid, although the range holds a valid proof:
   * any block of difficulty 8, the digest function under which only proof 1
   * is valid, the proofs `[0, 2)` in 4 tasks, and task 1's output last.
   */
  lemma ReceiveBoundMissesValid(b: Block)
    requires b.difficulty == 8
    ensures var h := SingleValidHasher(b, 1);
            && PartitionFits(0, 2, 4)
            && IsArrivalOrder([0, 2, 3, 1], 4)
            && IsValidForProof(h, b, 1)
            && RangeOutcome(h, b, 0, 2, 4, [0, 2, 3, 1]) == Some(0)
            && !IsValidForProof(h, b, 0)
  {
    var h := SingleValidHasher(b, 1);
    SingleValidHasherValid(b, 1);
    UnreadValidOutput(h, b);
  }

  /**
   * `mine_range` over the proofs `[0, 2)` in one task reads up to 3 outputs
   * but only one is ever sent; when no proof is valid it waits forever.
   */
  lemma MissingOutputs(h: Hasher, b: Block)
    requires NoneValidIn(h, b, 0, 3)
    ensures PartitionFits(0, 2, 1) && IsArrivalOrder([0], 1)
    ensures RangeOutcome(h, b, 0, 2, 1, [0]).None?
  {
    assert ChunkSize(0, 2, 1) == 2;
    assert ScanRange(h, b, 0, 3) == 0 by {
      assert ScanRange(h, b, 1, 3) == 0;
    }
    assert !IsValidForProof(h, b, 0);
    var outputs := Outputs(h, b, 0, 2, 1, [0]);
    assert outputs == [0];
    assert SelectProof(h, b, outputs, 3) == SelectProof(h, b, outputs[1..], 2);
  }

  /**
   * With fewer tasks than outputs read (`mine_for_proof` from difficulty 9
   * on) and no valid proof, `mine_range` waits forever: any block of
   * difficulty 8, the digest function under which only proof 3 is valid,
   * and the proofs `[0, 2)` in one task covering `[0, 3)`.
   */
  lemma ReceiveBoundWaitsForever(b: Block)
    requires b.difficulty == 8
    ensures var h := SingleValidHasher(b, 3);
            && PartitionFits(0, 2, 1)
            && NoneValidIn(h, b, 0, 3)
            && RangeOutcome(h, b, 0, 2, 1, [0]).None?
  {
    var h := SingleValidHasher(b, 3);
    SingleValidHasherValid(b, 3);
    MissingOutputs(h, b);
  }

  // ---------------------------------------------------------------------------
  // The whole search

  /** `mine_for_proof` searches the proofs below `8 * 2^difficulty`. */
  function SearchEnd(difficulty: u8): int
  {
    8 * Pow2(difficulty)
  }

  /**
   * The end of the last task of `mine_for_proof`'s partition, `2345 * (8 * 2^d / 2345 + 1)`:
   * the tasks search every proof below it, which is past `SearchEnd`.
   */
  function SearchReach(difficulty: u8): int
  {
    CHUNKS * (SearchEnd(difficulty) / CHUNKS + 1)
  }

  /**
   * Up to difficulty 60 the search bound and every task's end fit in a `u64`;
   * beyond it `8 * (1 << difficulty)` overflows.
   */
  lemma SearchFits(difficulty: u8)
    requires difficulty <= 60
    ensures SearchEnd(difficulty) <= 0x8000_0000_0000_0000
    ensures PartitionFits(0, SearchEnd(difficulty), CHUNKS)
  {
    Pow2Monotone(difficulty, 60);
    Pow2Sixty();
    var e := SearchEnd(difficulty);
    var cs := ChunkSize(0, e, CHUNKS);
    assert e == CHUNKS * cs + e % CHUNKS;
    assert ChunkStart(0, e, CHUNKS, CHUNKS) == CHUNKS * cs + CHUNKS;
  }

  /**
   * Up to difficulty 8 the receive loop reads fewer outputs than there are
   * tasks; from difficulty 9 on it has room for every task's output.
   */
  lemma ReceivesVersusChunks(difficulty: u8)
    requires difficulty <= 60
    ensures difficulty <= 8 ==> SearchEnd(difficulty) + 1 < CHUNKS
    ensures 9 <= difficulty ==> CHUNKS <= SearchEnd(difficulty) + 1
  {
    if difficulty <= 8 {
      Pow2Monotone(difficulty, 8);
    } else {
      Pow2Monotone(9, difficulty);
    }
  }

  /**
   * `mine_for_proof`: `mine_range` over the proofs `[0, 8 * 2^difficulty)`
   * in 2345 tasks. A non-zero answer is valid. Up to difficulty 8 the loop
   * never waits forever but may answer 0 (it reads fewer outputs than there
   * are tasks); from difficulty 9 on it finds a valid proof whenever one
   * lies below the bound, and it can only wait forever when no proof up to
   * the bound is valid.
   */
  method MineForProof(h: Hasher, b: Block, arrival: seq<nat>) returns (proof: Option<u64>)
    requires b.difficulty <= 60
    requires IsArrivalOrder(arrival, CHUNKS)
    ensures proof.Some? && proof.value != 0 ==> IsValidForProof(h, b, proof.value)
    ensures b.difficulty <= 8 ==> proof.Some?
    // The next clause implies this one, since `SearchEnd` lies below `SearchReach`.
    ensures 9 <= b.difficulty && (exists p: u64 | p < SearchEnd(b.difficulty) :: IsValidForProof(h, b, p)) ==>
              proof.Some? && IsValidForProof(h, b, proof.value)
    ensures 9 <= b.difficulty && (exists p: u64 | p < SearchReach(b.difficulty) :: IsValidForProof(h, b, p)) ==>
              proof.Some? && IsValidForProof(h, b, proof.value)
    // The next clause implies this one, since `SearchEnd` lies below `SearchReach`.
    ensures proof.None? ==> NoneValidIn(h, b, 0, SearchEnd(b.difficulty) + 1)
    ensures proof.None? ==> NoneValidIn(h, b, 0, SearchReach(b.difficulty))
    ensures 9 <= b.difficulty && NoneValidIn(h, b, 0, SearchReach(b.difficulty)) ==> proof.None?
  {
    SearchFits(b.difficulty);
    ReceivesVersusChunks(b.difficulty);
    var rangeEnd: u64 := 8 * Pow2(b.difficulty);
    assert ChunkStart(0, rangeEnd, CHUNKS, CHUNKS) == SearchReach(b.difficulty);
    proof := MineRange(h, b, 0, rangeEnd, CHUNKS, arrival);
    PartitionReachesEnd(0, rangeEnd, CHUNKS);
  }

  /**
   * `mine`: records the answer of `mine_for_proof` as the block's proof and
   * changes nothing else; `None` means the search waits forever.
   */
  method Mine(h: Hasher, b: Block, arrival: seq<nat>) returns (mined: Option<Block>)
    requires b.difficulty <= 60
    requires IsArrivalOrder(arrival, CHUNKS)
    ensures mined.Some? ==> mined.value.proof.Some? && mined.value.(proof := b.proof) == b
    ensures mined.Some? && mined.value.proof.value != 0 ==> IsValid(h, mined.value)
    ensures b.difficulty <= 8 ==> mined.Some?
    // The next clause implies this one, since `SearchEnd` lies below `SearchReach`.
    ensures 9 <= b.difficulty && (exists p: u64 | p < SearchEnd(b.difficulty) :: IsValidForProof(h, b, p)) ==>
              mined.Some? && IsValid(h, mined.value)
    ensures 9 <= b.difficulty && (exists p: u64 | p < SearchReach(b.difficulty) :: IsValidForProof(h, b, p)) ==>
              mined.Some? && IsValid(h, mined.value)
    // The next clause implies this one, since `SearchEnd` lies below `SearchReach`.
    ensures mined.None? ==> NoneValidIn(h, b, 0, SearchEnd(b.difficulty) + 1)
    ensures mined.None? ==> NoneValidIn(h, b, 0, SearchReach(b.difficulty))
    ensures 9 <= b.difficulty && NoneValidIn(h, b, 0, SearchReach(b.difficulty)) ==> mined.None?
  {
    var proof := MineForProof(h, b, arrival);
    if proof.None? {
      return None;
    }
    HashIgnoresStoredProof(h, b, Some(proof.value), proof.value);
    mined := Some(SetProof(b, proof.value));
  }
}
