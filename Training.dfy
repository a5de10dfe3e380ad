/** The bookkeeping of the training loop: which permuted examples each mini-batch of an epoch
    takes, and when the outer loop over epochs stops. The network itself is not modelled. */
module Training {
  import opened Wrappers

  /** offset = (step * BATCH_SIZE) % (train_size - BATCH_SIZE); the window that starts there
      ends strictly before the last example. */
  function BatchOffset(step: nat, batchSize: nat, trainSize: nat): (offset: nat)
    requires trainSize > batchSize
    ensures offset < trainSize - batchSize
    ensures offset + batchSize <= trainSize - 1
  {
    (step * batchSize) % (trainSize - batchSize)
  }

  /** The number of steps of one epoch, int(train_size / BATCH_SIZE). */
  function StepsPerEpoch(trainSize: nat, batchSize: nat): nat
    requires batchSize > 0
  {
    trainSize / batchSize
  }

  /** batch_indices = perm_indices[offset:offset+BATCH_SIZE] at one step. */
  function Window(perm: seq<nat>, batchSize: nat, step: nat): (w: seq<nat>)
    requires |perm| > batchSize
    ensures |w| == batchSize
  {
    Slice(perm, BatchOffset(step, batchSize, |perm|), batchSize)
  }

  /** s[offset:offset+n] for a window that fits. */
  function Slice(s: seq<nat>, offset: nat, n: nat): seq<nat>
    requires offset + n <= |s|
  {
    s[offset..offset + n]
  }

  /** The windows of the first n steps, in step order. */
  function WindowsUpTo(perm: seq<nat>, batchSize: nat, n: nat): (ws: seq<seq<nat>>)
    requires |perm| > batchSize
    ensures |ws| == n
    ensures forall k :: 0 <= k < n ==> ws[k] == Window(perm, batchSize, k)
  {
    if n == 0 then [] else WindowsUpTo(perm, batchSize, n - 1) + [Window(perm, batchSize, n - 1)]
  }

  /** The index windows perm_indices[offset:offset+BATCH_SIZE] of the steps of one epoch, or
      the ZeroDivisionError raised when BATCH_SIZE is 0, or when the offset is computed modulo
      train_size - BATCH_SIZE == 0. */
  function Windows(perm: seq<nat>, batchSize: nat): Result<seq<seq<nat>>> {
    var trainSize := |perm|;
    if batchSize == 0 then Failure("ZeroDivisionError")
    else if StepsPerEpoch(trainSize, batchSize) == 0 then Success([])
    else if trainSize == batchSize then Failure("ZeroDivisionError")
    else Success(WindowsUpTo(perm, batchSize, StepsPerEpoch(trainSize, batchSize)))
  }

  /** The inner loop of one epoch, recording the batch_indices of each step. */
  method EpochBatches(perm: seq<nat>, batchSize: nat) returns (r: Result<seq<seq<nat>>>)
    ensures r == Windows(perm, batchSize)
  {
    var trainSize := |perm|;
    if batchSize == 0 {
      return Failure("ZeroDivisionError");
    }
    var steps := StepsPerEpoch(trainSize, batchSize);
    if steps == 0 {
      return Success([]);
    }
    if trainSize == batchSize {
      // The modulo of the first step divides by train_size - BATCH_SIZE == 0.
      return Failure("ZeroDivisionError");
    }
    var batches: seq<seq<nat>> := [];
    for step := 0 to steps
      invariant batches == WindowsUpTo(perm, batchSize, step)
    {
      var offset := BatchOffset(step, batchSize, trainSize);
      batches := batches + [Slice(perm, offset, batchSize)];
    }
    r := Success(batches);
  }

  /** perm lists 0 .. |perm|-1, each exactly once, as np.random.permutation(range(n)) does. */
  predicate IsPermutation(perm: seq<nat>) {
    (forall k :: 0 <= k < |perm| ==> perm[k] < |perm|) &&
    (forall k, l :: 0 <= k < l < |perm| ==> perm[k] != perm[l])
  }

  /** Whenever the epoch does not raise, it has int(train_size / BATCH_SIZE) steps and every step
      takes exactly BATCH_SIZE distinct examples in range; the last permuted example is never
      taken. It raises exactly when BATCH_SIZE is 0 or equals train_size. */
  lemma WindowsShape(perm: seq<nat>, batchSize: nat)
    requires IsPermutation(perm)
    ensures Windows(perm, batchSize).Failure? <==> batchSize == 0 || batchSize == |perm|
    ensures var r := Windows(perm, batchSize);
            r.Success? ==>
              |r.value| == |perm| / batchSize &&
              forall step :: 0 <= step < |r.value| ==>
                |r.value[step]| == batchSize &&
                (forall k :: 0 <= k < batchSize ==> r.value[step][k] < |perm|) &&
                (forall k, l :: 0 <= k < l < batchSize ==> r.value[step][k] != r.value[step][l]) &&
                (|perm| > 0 ==> perm[|perm| - 1] !in r.value[step])
  {
    var r := Windows(perm, batchSize);
    if r.Success? && batchSize > 0 && |perm| / batchSize > 0 {
      var n := |perm|;
      forall step | 0 <= step < |r.value|
        ensures n > 0 ==> perm[n - 1] !in r.value[step]
      {
        var offset := BatchOffset(step, batchSize, n);
        assert r.value[step] == perm[offset..offset + batchSize];
      }
    }
  }

  /** The outer while run_training loop. elapsed[e] is the reading of time.time() - start taken
      after epoch e + 1 has finished. With TERMINATE_AFTER_TIME the loop stops after the first
      epoch whose reading exceeds maxSeconds (None when the readings run out first); otherwise
      after max(1, NUM_EPOCHS) epochs, since the test follows the first epoch. */
  method TrainingEpochs(terminateAfterTime: bool, numEpochs: nat, maxSeconds: real, elapsed: seq<real>)
    returns (epochs: Option<nat>)
    ensures !terminateAfterTime ==> epochs == Some(if numEpochs == 0 then 1 else numEpochs)
    ensures terminateAfterTime ==>
              (epochs.Some? <==> exists k :: 0 <= k < |elapsed| && elapsed[k] > maxSeconds)
    ensures terminateAfterTime && epochs.Some? ==>
              1 <= epochs.value <= |elapsed| && elapsed[epochs.value - 1] > maxSeconds &&
              forall k :: 0 <= k < epochs.value - 1 ==> elapsed[k] <= maxSeconds
  {
    var iepoch: nat := 0;
    var running := true;
    while running
      invariant terminateAfterTime ==> iepoch <= |elapsed|
      invariant running && terminateAfterTime ==> forall k :: 0 <= k < iepoch ==> elapsed[k] <= maxSeconds
      invariant running && !terminateAfterTime ==> iepoch == 0 || iepoch < numEpochs
      invariant !running ==> 1 <= iepoch
      invariant !running && terminateAfterTime ==>
                  elapsed[iepoch - 1] > maxSeconds && forall k :: 0 <= k < iepoch - 1 ==> elapsed[k] <= maxSeconds
      invariant !running && !terminateAfterTime ==> iepoch == if numEpochs == 0 then 1 else numEpochs
      decreases if terminateAfterTime then |elapsed| - iepoch else numEpochs + 1 - iepoch, running
    {
      // One epoch of training runs here.
      if terminateAfterTime && iepoch == |elapsed| {
        return None;
      }
      iepoch := iepoch + 1;
      if terminateAfterTime && elapsed[iepoch - 1] > maxSeconds {
        running := false;
      }
      if !terminateAfterTime && iepoch >= numEpochs {
        running := false;
      }
    }
    epochs := Some(iepoch);
  }
}
