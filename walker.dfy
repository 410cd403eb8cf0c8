/**
 * The memory walker itself: the scan of the first KiB, the page-stride walk
 * over the buffer, and the whole run from the command line to the summary.
 */
module Walker {
  import opened Wrappers
  import opened Paging
  import opened Config

  /**
   * Counts the non-zero bytes among the first min(1024, size) bytes of the
   * buffer. It only reads the buffer.
   */
  method ScanFirstKiB(buffer: array<Byte>) returns (count: nat)
    ensures count == NonZeroCount(buffer[..Min(1024, buffer.Length)])
    ensures count <= Min(1024, buffer.Length)
  {
    count := 0;
    var i := 0;
    while i < Min(1024, buffer.Length)
      invariant 0 <= i <= Min(1024, buffer.Length)
      invariant count == NonZeroCount(buffer[..i])
      invariant count <= i
    {
      assert buffer[..i + 1][..i] == buffer[..i];
      if buffer[i] != 0 {
        count := count + 1;
      }
      i := i + 1;
    }
  }

  /**
   * The access at one stride position: write mode stores the sentinel there,
   * read mode adds the byte found there to the uint64 checksum.
   */
  method TouchPage(buffer: array<Byte>, mode: Mode, i: nat, checksum: nat) returns (newChecksum: nat)
    requires i < buffer.Length && checksum < Uint64Modulus
    modifies buffer
    ensures mode == Write ==> buffer[..] == old(buffer[..])[i := Sentinel] && newChecksum == checksum
    ensures mode == Read ==> buffer[..] == old(buffer[..]) && newChecksum == AddUint64(checksum, old(buffer[i]) as nat)
  {
    newChecksum := checksum;
    if mode == Write {
      buffer[i] := Sentinel;
    } else {
      newChecksum := AddUint64(checksum, buffer[i] as nat);
    }
  }

  /**
   * Walks the buffer at page stride. At each visited index it stores the
   * sentinel (write mode) or adds the byte to the uint64 checksum (read
   * mode); every step adds pageSize to the processed-byte counter, and a
   * pause is due whenever that counter is a multiple of the pause interval.
   * `touched` records the visited indices and `pauses` the counter value at
   * each pause, in order.
   */
  method Walk(buffer: array<Byte>, mode: Mode, pageSize: nat)
    returns (checksum: nat, processedBytes: nat, ghost touched: seq<nat>, ghost pauses: seq<nat>)
    requires pageSize > 0
    requires buffer.Length + pageSize <= MaxInt
    modifies buffer
    ensures touched == Strides(buffer.Length, pageSize, 0)
    ensures mode == Write ==> buffer[..] == Stamped(old(buffer[..]), pageSize) && checksum == 0
    ensures mode == Read ==> buffer[..] == old(buffer[..])
    ensures mode == Read ==> checksum == WrappedSum(old(buffer[..]), touched)
    ensures |touched| == Pages(buffer.Length, pageSize)
    ensures processedBytes == Covered(buffer.Length, pageSize)
    ensures pauses == Pauses(pageSize, processedBytes)
  {
    ghost var s := buffer[..];
    var size := buffer.Length;
    checksum, processedBytes := 0, 0;
    touched, pauses := [], [];
    var i: nat := 0;
    while i < size
      invariant processedBytes == i < size + pageSize
      invariant Walked(s, buffer[..], mode, pageSize, i, checksum, touched, pauses)
      decreases size - i
    {
      ghost var before := buffer[..];
      ghost var sum := checksum;
      checksum := TouchPage(buffer, mode, i, checksum);
      WalkedStep(s, before, buffer[..], mode, pageSize, i, sum, checksum, touched, pauses);
      touched := touched + [i];
      processedBytes := processedBytes + pageSize;
      pauses := pauses + if processedBytes % PauseInterval == 0 then [processedBytes] else [];
      i := i + pageSize;
    }
    WalkedDone(s, buffer[..], mode, pageSize, i, checksum, touched, pauses);
  }

  /**
   * The state of the walk before the visit at stride position i: the
   * indices below i have been visited in order, the pause log matches the
   * counter, and the buffer and checksum reflect the visits so far (`s` is
   * the buffer before the walk, `b` the buffer now).
   */
  ghost predicate Walked(s: seq<Byte>, b: seq<Byte>, mode: Mode, p: nat, i: nat,
                         checksum: nat, touched: seq<nat>, pauses: seq<nat>)
    requires p > 0
  {
    IsStride(i, p)
    && checksum < Uint64Modulus
    && VisitedBefore(touched, |s|, p, i)
    && AllBelow(touched, |s|)
    && pauses == Pauses(p, i)
    && (mode == Read ==> b == s && checksum == WrappedSum(s, touched))
    && (mode == Write ==> checksum == 0 && StampedBelow(b, s, p, i))
  }

  /** One visit at stride position i < |s| takes the walk to position i + p. */
  lemma WalkedStep(s: seq<Byte>, b: seq<Byte>, b': seq<Byte>, mode: Mode, p: nat, i: nat,
                   checksum: nat, checksum': nat, touched: seq<nat>, pauses: seq<nat>)
    requires p > 0 && i < |s| && |b| == |s| && Walked(s, b, mode, p, i, checksum, touched, pauses)
    requires mode == Write ==> b' == b[i := Sentinel] && checksum' == checksum
    requires mode == Read ==> b' == b && checksum' == AddUint64(checksum, b[i] as nat)
    ensures Walked(s, b', mode, p, i + p, checksum', touched + [i],
                   pauses + if (i + p) % PauseInterval == 0 then [i + p] else [])
  {
    if mode == Write {
      StampStep(b, s, p, i);
    } else {
      WrappedSumAppend(s, touched, i);
    }
    StridesAdvance(touched, |s|, p, i);
    assert IsStride(i + p, p);
  }

  /** Once the position passes the end, the walk's results are those of the specification. */
  lemma WalkedDone(s: seq<Byte>, b: seq<Byte>, mode: Mode, p: nat, i: nat,
                   checksum: nat, touched: seq<nat>, pauses: seq<nat>)
    requires p > 0 && |s| <= i < |s| + p && Walked(s, b, mode, p, i, checksum, touched, pauses)
    ensures touched == Strides(|s|, p, 0) && |touched| == Pages(|s|, p)
    ensures i == Covered(|s|, p) && pauses == Pauses(p, i)
    ensures mode == Write ==> b == Stamped(s, p) && checksum == 0
    ensures mode == Read ==> b == s && checksum == WrappedSum(s, touched)
  {
    FinalCounter(|s|, p, i);
    StridesLength(|s|, p);
    if mode == Write {
      StampedBelowAll(b, s, p, i);
    }
  }

  /** How a run ends. */
  datatype Outcome =
    | Refused(reason: UsageError)
    | AllocationFailed
    | Completed(settings: Settings, size: nat, pageSize: nat, nonZeroInFirstKiB: nat,
                processedBytes: nat, checksum: Option<nat>, memory: seq<Byte>)

  /**
   * The exit status: 1 for refused arguments, 0 for a completed run, and
   * Go's status 2 for the panic that follows an allocation failure.
   */
  function ExitStatus(o: Outcome): (status: int)
    ensures status == 0 <==> o.Completed?
    ensures status == 1 <==> o.Refused?
  {
    match o
    case Refused(_) => 1
    case AllocationFailed => 2
    case Completed(_, _, _, _, _, _, _) => 0
  }

  /**
   * The run: validate the arguments, pick the page size, allocate the block,
   * scan its first KiB, walk it and report. The environment is given as
   * parameters: `parsedSize` is strconv.Atoi's result for args[2],
   * `osPageSize` is os.Getpagesize(), `mallocOk` says whether malloc
   * returned a block and `garbage(k)` is the byte malloc left at offset k.
   * `requested` says whether the block was requested from malloc; `pauses` lists the
   * processed-byte counts at which the operator was asked to press Enter.
   */
  method Run(args: seq<string>, parsedSize: Option<int>, osPageSize: int, mallocOk: bool, garbage: nat -> Byte)
    returns (outcome: Outcome, ghost requested: bool, ghost pauses: seq<nat>)
    requires Validate(args, parsedSize).Success? && mallocOk ==> parsedSize.value <= MaxSizeMB
    requires Validate(args, parsedSize).Success? && mallocOk ==> osPageSize + MaxBufferSize <= MaxInt
    ensures requested <==> Validate(args, parsedSize).Success?
    ensures Validate(args, parsedSize).Failure? ==> outcome == Refused(Validate(args, parsedSize).error)
    ensures requested && !mallocOk ==> outcome == AllocationFailed
    ensures requested && mallocOk ==> outcome.Completed? && outcome.settings == Validate(args, parsedSize).value
    ensures outcome.Completed? ==> CompletedAsSpecified(outcome, osPageSize, garbage, pauses)
  {
    pauses := [];
    var v := Validate(args, parsedSize);
    if v.Failure? {
      requested := false;
      outcome := Refused(v.error);
      return;
    }
    var settings := v.value;
    var size := settings.sizeMB * 1024 * 1024;
    var pageSize := EffectivePageSize(osPageSize);
    requested := true;
    if !mallocOk {
      outcome := AllocationFailed;
      return;
    }
    var buffer := new Byte[size](k => garbage(k));
    ghost var initial := buffer[..];
    assert initial == seq(size, (k: nat) => garbage(k));
    var nonZero := ScanFirstKiB(buffer);
    var checksum, processedBytes, touched, walkPauses := Walk(buffer, settings.mode, pageSize);
    pauses := walkPauses;
    outcome := Completed(settings, size, pageSize, nonZero, processedBytes,
                         if settings.mode == Read then Some(checksum) else None, buffer[..]);
    PageSumFitsUint64(initial, pageSize);
  }

  /** What a completed run reports, in terms of the bytes malloc handed back. */
  ghost predicate CompletedAsSpecified(o: Outcome, osPageSize: int, garbage: nat -> Byte, pauses: seq<nat>)
    requires o.Completed?
  {
    var initial := seq(o.size, (k: nat) => garbage(k));
    o.size == o.settings.sizeMB * Mebibyte
    && o.pageSize == EffectivePageSize(osPageSize)
    && o.nonZeroInFirstKiB == NonZeroCount(initial[..Min(1024, o.size)])
    && o.processedBytes == Covered(o.size, o.pageSize)
    && pauses == Pauses(o.pageSize, o.processedBytes)
    && (o.settings.mode == Read ==> o.checksum == Some(PageSum(initial, o.pageSize)) && o.memory == initial)
    && (o.settings.mode == Write ==> o.checksum == None && o.memory == Stamped(initial, o.pageSize))
  }
}
