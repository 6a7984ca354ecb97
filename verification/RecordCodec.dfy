/** The shared-memory records: written by the Python callbacks, read by the Rust sidecar. */
module RecordCodec {
  import opened Prelude
  import opened Bytes

  const FILE_SIZE: nat := 64
  const TRAINING_RECORD_SIZE: nat := 37
  const DILOCO_RECORD_SIZE: nat := 46

  datatype Error = StructError | AlreadyClosed

  function Zeros(n: nat): (r: seq<Byte>)
    ensures |r| == n && forall i :: 0 <= i < n ==> r[i] == 0
  {
    seq(n, i => 0)
  }

  function Padded(payload: seq<Byte>): (r: seq<Byte>)
    requires |payload| <= FILE_SIZE
    ensures |r| == FILE_SIZE && r[..|payload|] == payload
  {
    payload + Zeros(FILE_SIZE - |payload|)
  }

  /** `mmap.write` at position 0 of a whole file image. */
  method WriteImage(mm: array<Byte>, image: seq<Byte>)
    requires mm.Length == |image|
    modifies mm
    ensures mm[..] == image
  {
    for i := 0 to |image|
      invariant mm[..i] == image[..i]
    {
      mm[i] := image[i];
    }
  }

  // Training records.

  datatype Training = Training(timestampMs: int, step: int, loss: Bits32, gradientNorm: Bits32, learningRate: Bits32,
                               throughputTps: Bits32, mfuPct: Bits32)

  predicate TrainingFits(r: Training) {
    I64_MIN <= r.timestampMs <= I64_MAX && 0 <= r.step <= U64_MAX
  }

  /** `struct.pack("<BqQfffff", ...)`. */
  function PackTraining(flag: Byte, r: Training): (p: seq<Byte>)
    requires TrainingFits(r)
    ensures |p| == TRAINING_RECORD_SIZE
  {
    [flag] + I64Bytes(r.timestampMs) + U64Bytes(r.step)
    + (F32Bytes(r.loss) + F32Bytes(r.gradientNorm) + F32Bytes(r.learningRate) + F32Bytes(r.throughputTps)
      + F32Bytes(r.mfuPct))
  }

  /** `TrainingMetricsReader::read` on the content of the file. */
  function ReadTraining(file: seq<Byte>, nowMs: int): Option<Training> {
    if |file| < TRAINING_RECORD_SIZE then None
    else
      var buf := file[..TRAINING_RECORD_SIZE];
      if buf[0] == 0 then None
      else
        var timestampMs := I64Value(buf[1..9]);
        if !Fresh(nowMs, timestampMs) then None
        else
          Some(Training(timestampMs, LeValue(buf[9..17]), F32Value(buf[17..21]), F32Value(buf[21..25]),
                        F32Value(buf[25..29]), F32Value(buf[29..33]), F32Value(buf[33..37])))
  }

  lemma TrainingSlices(flag: Byte, r: Training)
    requires TrainingFits(r)
    ensures var p := PackTraining(flag, r);
            && p[0] == flag && p[1..9] == I64Bytes(r.timestampMs) && p[9..17] == U64Bytes(r.step)
            && p[17..21] == F32Bytes(r.loss) && p[21..25] == F32Bytes(r.gradientNorm)
            && p[25..29] == F32Bytes(r.learningRate) && p[29..33] == F32Bytes(r.throughputTps)
            && p[33..37] == F32Bytes(r.mfuPct)
  {
    hide LeBytes;
  }

  /** Reading what was written returns every field exactly, unless the flag is clear or the record is stale. */
  lemma TrainingRoundTrip(flag: Byte, r: Training, nowMs: int)
    requires TrainingFits(r)
    ensures ReadTraining(Padded(PackTraining(flag, r)), nowMs)
            == if flag == 0 || !Fresh(nowMs, r.timestampMs) then None else Some(r)
  {
    TrainingSlices(flag, r);
    I64RoundTrip(r.timestampMs);
    U64RoundTrip(r.step);
    F32RoundTrip(r.loss);
    F32RoundTrip(r.gradientNorm);
    F32RoundTrip(r.learningRate);
    F32RoundTrip(r.throughputTps);
    F32RoundTrip(r.mfuPct);
    assert Padded(PackTraining(flag, r))[..TRAINING_RECORD_SIZE] == PackTraining(flag, r);
  }

  /** The reader looks at 37 bytes: without them it reads nothing, and what follows does not matter. */
  lemma TrainingPrefix(file: seq<Byte>, rest: seq<Byte>, nowMs: int)
    ensures |file| < 37 ==> ReadTraining(file, nowMs) == None
    ensures |file| >= 37 ==> ReadTraining(file + rest, nowMs) == ReadTraining(file[..37], nowMs)
  {
    if |file| >= 37 {
      assert (file + rest)[..37] == file[..37] == file[..37][..37];
    }
  }

  class TrainingCallback {
    const mm: array<Byte>
    var closed: bool
    /** The record a reader is meant to see. */
    ghost var shown: Option<Training>

    ghost predicate Valid()
      reads this, mm
    {
      && mm.Length == FILE_SIZE
      && (shown.None? ==> mm[0] == 0)
      && (shown.Some? ==> TrainingFits(shown.value) && mm[..] == Padded(PackTraining(1, shown.value)))
    }

    constructor ()
      ensures Valid() && shown == None && !closed && fresh(mm) && mm.Length == 64
    {
      mm := new Byte[FILE_SIZE](i => 0);
      closed, shown := false, None;
    }

    /** Everything a fresh read can return is the shown record, field for field. */
    lemma ReadsShown(nowMs: int)
      requires Valid()
      ensures ReadTraining(mm[..], nowMs)
              == if shown.Some? && Fresh(nowMs, shown.value.timestampMs) then shown else None
    {
      if shown.Some? {
        TrainingRoundTrip(1, shown.value, nowMs);
      } else {
        assert mm[..][..TRAINING_RECORD_SIZE][0] == mm[0];
      }
    }

    method Write(r: Training) returns (result: Result<(), Error>)
      requires Valid()
      modifies this`shown, mm
      ensures Valid()
      ensures result == if TrainingFits(r) then Ok(()) else Err(StructError)
      ensures shown == if result.Ok? then Some(r) else old(shown)
      ensures result.Err? ==> mm[..] == old(mm[..])
    {
      if !(I64_MIN <= r.timestampMs <= I64_MAX) || !(0 <= r.step <= U64_MAX) {
        return Err(StructError);
      }
      var payload := PackTraining(1, r);
      WriteImage(mm, payload + Zeros(FILE_SIZE - |payload|));
      shown := Some(r);
      result := Ok(());
    }

    method OnTrainBatchEnd(r: Training) returns (result: Result<(), Error>)
      requires Valid()
      modifies this`shown, mm
      ensures Valid()
      ensures result == if closed then Err(AlreadyClosed) else if TrainingFits(r) then Ok(()) else Err(StructError)
      ensures shown == if result.Ok? then Some(r) else old(shown)
    {
      if closed {
        return Err(AlreadyClosed);
      }
      result := Write(r);
    }

    /** Invalidates the record, but only if the callback has not been closed before. */
    method OnTrainEnd()
      requires Valid()
      modifies this, mm
      ensures Valid() && closed
      ensures shown == if old(closed) then old(shown) else None
    {
      if !closed {
        mm[0] := 0;
        shown := None;
      }
      Close();
    }

    /** Closing alone leaves the last record readable. */
    method Close()
      requires Valid()
      modifies this`closed
      ensures Valid() && closed
    {
      closed := true;
    }
  }

  /** Closing the callback before the end of training leaves the last record readable for good. */
  method ClosedRecordStaysReadable(r: Training) returns (callback: TrainingCallback)
    requires TrainingFits(r)
    ensures callback.Valid() && callback.closed && callback.shown == Some(r)
    ensures forall nowMs | Fresh(nowMs, r.timestampMs) :: ReadTraining(callback.mm[..], nowMs) == Some(r)
  {
    callback := new TrainingCallback();
    var written := callback.OnTrainBatchEnd(r);
    callback.Close();
    callback.OnTrainEnd();
    forall nowMs | Fresh(nowMs, r.timestampMs) ensures ReadTraining(callback.mm[..], nowMs) == Some(r) {
      callback.ReadsShown(nowMs);
    }
  }

  // DiLoCo records.

  datatype DiLoCo = DiLoCo(innerStep: int, outerStep: int, innerLoss: Bits32, outerLoss: Bits32, pseudoGradNorm: Bits32,
                           syncDurationMs: Bits32, workerSpeedRatio: Bits32, isStraggler: bool)

  datatype Stamped = Stamped(timestampMs: int, fields: DiLoCo)

  /** 1.0 as a 32-bit float. */
  const ONE_F32: Bits32 := 0x3F80_0000

  predicate DiLoCoFits(r: Stamped) {
    && I64_MIN <= r.timestampMs <= I64_MAX
    && 0 <= r.fields.innerStep <= U64_MAX && 0 <= r.fields.outerStep <= U64_MAX
  }

  /** `struct.pack("<BqQQfffffB", ...)`. */
  function PackDiLoCo(flag: Byte, r: Stamped): (p: seq<Byte>)
    requires DiLoCoFits(r)
    ensures |p| == DILOCO_RECORD_SIZE
  {
    var f := r.fields;
    [flag] + I64Bytes(r.timestampMs) + U64Bytes(f.innerStep) + U64Bytes(f.outerStep)
    + (F32Bytes(f.innerLoss) + F32Bytes(f.outerLoss) + F32Bytes(f.pseudoGradNorm) + F32Bytes(f.syncDurationMs)
       + F32Bytes(f.workerSpeedRatio))
    + [if f.isStraggler then 1 else 0]
  }

  /** `DiLoCoMetricsReader::read` on the content of the file. */
  function ReadDiLoCo(buf: seq<Byte>, nowMs: int): Option<Stamped> {
    if |buf| < DILOCO_RECORD_SIZE || buf[0] == 0 then None
    else
      var timestampMs := I64Value(buf[1..9]);
      if !Fresh(nowMs, timestampMs) then None
      else
        Some(Stamped(timestampMs,
                     DiLoCo(LeValue(buf[9..17]), LeValue(buf[17..25]), F32Value(buf[25..29]), F32Value(buf[29..33]),
                            F32Value(buf[33..37]), F32Value(buf[37..41]), F32Value(buf[41..45]), buf[45] != 0)))
  }

  lemma DiLoCoSlices(flag: Byte, r: Stamped)
    requires DiLoCoFits(r)
    ensures var p, f := PackDiLoCo(flag, r), r.fields;
            && p[0] == flag && p[1..9] == I64Bytes(r.timestampMs) && p[9..17] == U64Bytes(f.innerStep)
            && p[17..25] == U64Bytes(f.outerStep) && p[25..29] == F32Bytes(f.innerLoss)
            && p[29..33] == F32Bytes(f.outerLoss) && p[33..37] == F32Bytes(f.pseudoGradNorm)
            && p[37..41] == F32Bytes(f.syncDurationMs) && p[41..45] == F32Bytes(f.workerSpeedRatio)
            && p[45] == (if f.isStraggler then 1 else 0)
  {
    hide I64Bytes, U64Bytes, F32Bytes, LeBytes;
    var p, f := PackDiLoCo(flag, r), r.fields;
    var head := [flag] + I64Bytes(r.timestampMs) + U64Bytes(f.innerStep) + U64Bytes(f.outerStep);
    var floats := F32Bytes(f.innerLoss) + F32Bytes(f.outerLoss) + F32Bytes(f.pseudoGradNorm)
        + F32Bytes(f.syncDurationMs) + F32Bytes(f.workerSpeedRatio);
    var tail: seq<Byte> := [if f.isStraggler then 1 else 0];
    assert p == head + floats + tail && |head| == 25 && |floats| == 20;
    assert head[1..9] == I64Bytes(r.timestampMs) && head[9..17] == U64Bytes(f.innerStep);
    assert head[17..25] == U64Bytes(f.outerStep);
    assert floats[..4] == F32Bytes(f.innerLoss) && floats[4..8] == F32Bytes(f.outerLoss);
    assert floats[8..12] == F32Bytes(f.pseudoGradNorm) && floats[12..16] == F32Bytes(f.syncDurationMs);
    assert floats[16..] == F32Bytes(f.workerSpeedRatio);
    assert p[45] == tail[0];
  }

  lemma DiLoCoRoundTrip(flag: Byte, r: Stamped, nowMs: int)
    requires DiLoCoFits(r)
    ensures ReadDiLoCo(Padded(PackDiLoCo(flag, r)), nowMs)
            == if flag == 0 || !Fresh(nowMs, r.timestampMs) then None else Some(r)
  {
    var f, p, buf := r.fields, PackDiLoCo(flag, r), Padded(PackDiLoCo(flag, r));
    DiLoCoSlices(flag, r);
    PaddingKeepsSlices(p);
    I64RoundTrip(r.timestampMs);
    U64RoundTrip(f.innerStep);
    U64RoundTrip(f.outerStep);
    F32RoundTrip(f.innerLoss);
    F32RoundTrip(f.outerLoss);
    F32RoundTrip(f.pseudoGradNorm);
    F32RoundTrip(f.syncDurationMs);
    F32RoundTrip(f.workerSpeedRatio);
  }

  lemma DiLoCoPrefix(file: seq<Byte>, rest: seq<Byte>, nowMs: int)
    ensures |file| < 46 ==> ReadDiLoCo(file, nowMs) == None
    ensures |file| >= 46 ==> ReadDiLoCo(file + rest, nowMs) == ReadDiLoCo(file[..46], nowMs)
  {
    if |file| >= 46 {
      var whole, prefix := file + rest, file[..46];
      forall i, j | 0 <= i <= j <= 46 ensures whole[i..j] == prefix[i..j] {
        assert forall k :: i <= k < j ==> whole[k] == prefix[k];
      }
      assert whole[0] == prefix[0] && whole[45] == prefix[45];
    }
  }

  lemma PaddingKeepsSlices(p: seq<Byte>)
    requires |p| == DILOCO_RECORD_SIZE
    ensures forall i, j :: 0 <= i <= j <= DILOCO_RECORD_SIZE ==> Padded(p)[i..j] == p[i..j]
    ensures Padded(p)[0] == p[0] && Padded(p)[45] == p[45]
  {
  }

  /** One call of `on_inner_step` or `on_outer_step`, with the time at which it packs the record. */
  datatype Update =
    | Inner(innerStep: int, outerStep: int, innerLoss: Bits32, atMs: int)
    | Outer(outerStep: int, outerLoss: Bits32, pseudoGradNorm: Bits32, syncDurationMs: Bits32,
            workerSpeedRatio: Bits32, isStraggler: bool, atMs: int)

  const INITIAL := DiLoCo(0, 0, 0, 0, 0, 0, ONE_F32, false)

  /** The newest inner update, if any. */
  function NewestInner(updates: seq<Update>): Option<Update> {
    if |updates| == 0 then None
    else if updates[|updates| - 1].Inner? then Some(updates[|updates| - 1])
    else NewestInner(updates[..|updates| - 1])
  }

  function NewestOuter(updates: seq<Update>): Option<Update> {
    if |updates| == 0 then None
    else if updates[|updates| - 1].Outer? then Some(updates[|updates| - 1])
    else NewestOuter(updates[..|updates| - 1])
  }

  /** The latest value of each field: each comes from the newest update that carries it. */
  ghost predicate IsLatest(f: DiLoCo, updates: seq<Update>) {
    var inner, outer := NewestInner(updates), NewestOuter(updates);
    && f.outerStep == (if |updates| > 0 then updates[|updates| - 1].outerStep else INITIAL.outerStep)
    && (match inner
        case Some(Inner(step, _, loss, _)) => f.innerStep == step && f.innerLoss == loss
        case _ => f.innerStep == INITIAL.innerStep && f.innerLoss == INITIAL.innerLoss)
    && (match outer
        case Some(Outer(_, loss, norm, sync, ratio, straggler, _)) =>
          && f.outerLoss == loss && f.pseudoGradNorm == norm && f.syncDurationMs == sync
          && f.workerSpeedRatio == ratio && f.isStraggler == straggler
        case _ =>
          && f.outerLoss == INITIAL.outerLoss && f.pseudoGradNorm == INITIAL.pseudoGradNorm
          && f.syncDurationMs == INITIAL.syncDurationMs && f.workerSpeedRatio == INITIAL.workerSpeedRatio
          && f.isStraggler == INITIAL.isStraggler)
  }

  function Applied(f: DiLoCo, u: Update): DiLoCo {
    match u
    case Inner(inner, outer, loss, _) => f.(innerStep := inner, outerStep := outer, innerLoss := loss)
    case Outer(outer, loss, norm, sync, ratio, straggler, _) =>
      f.(outerStep := outer, outerLoss := loss, pseudoGradNorm := norm, syncDurationMs := sync,
         workerSpeedRatio := ratio, isStraggler := straggler)
  }

  /** Overwriting only the fields an update carries keeps every field the latest. */
  lemma AppliedIsLatest(f: DiLoCo, updates: seq<Update>, u: Update)
    requires IsLatest(f, updates)
    ensures IsLatest(Applied(f, u), updates + [u])
  {
  }

  /** The remembered fields, and the record shown to readers. */
  datatype Replay = Replay(fields: DiLoCo, shown: Option<Stamped>)

  function After(st: Replay, u: Update): Replay {
    var record := Stamped(u.atMs, Applied(st.fields, u));
    Replay(record.fields, if DiLoCoFits(record) then Some(record) else st.shown)
  }

  /** Where a callback is after `updates`: a record that does not fit is not written, but its fields are kept. */
  function ReplayOf(updates: seq<Update>): Replay {
    if |updates| == 0 then Replay(INITIAL, None)
    else After(ReplayOf(updates[..|updates| - 1]), updates[|updates| - 1])
  }

  lemma ReplayAppend(updates: seq<Update>, u: Update)
    ensures ReplayOf(updates + [u]) == After(ReplayOf(updates), u)
  {
    assert (updates + [u])[..|updates|] == updates;
  }

  /** After any sequence of updates, every remembered field is the latest value given for it. */
  lemma {:induction false} RememberedAreLatest(updates: seq<Update>)
    ensures IsLatest(ReplayOf(updates).fields, updates)
  {
    if |updates| > 0 {
      var rest, u := updates[..|updates| - 1], updates[|updates| - 1];
      RememberedAreLatest(rest);
      AppliedIsLatest(ReplayOf(rest).fields, rest, u);
      assert updates == rest + [u];
    }
  }

  function NewestInnerStep(updates: seq<Update>): int {
    match NewestInner(updates) case Some(Inner(step, _, _, _)) => step case _ => INITIAL.innerStep
  }

  /** What decides whether the newest update can be shown: its time and outer step, and the newest inner step. */
  predicate NewestFit(updates: seq<Update>)
    requires |updates| > 0
  {
    var u := updates[|updates| - 1];
    && I64_MIN <= u.atMs <= I64_MAX
    && 0 <= u.outerStep <= U64_MAX && 0 <= NewestInnerStep(updates) <= U64_MAX
  }

  /** A record carries the newest time and the latest value of each field. */
  ghost predicate IsCurrent(record: Option<Stamped>, updates: seq<Update>)
    requires |updates| > 0
  {
    && record.Some? && record.value.timestampMs == updates[|updates| - 1].atMs
    && IsLatest(record.value.fields, updates)
  }

  lemma {:induction false} ShownFits(updates: seq<Update>)
    ensures var shown := ReplayOf(updates).shown; shown.Some? ==> DiLoCoFits(shown.value)
  {
    if |updates| > 0 {
      ShownFits(updates[..|updates| - 1]);
    }
  }

  /** The shown record is current exactly when the newest steps and the newest time fit the record. */
  lemma ShownIsCurrentIff(updates: seq<Update>)
    requires |updates| > 0
    ensures IsCurrent(ReplayOf(updates).shown, updates) <==> NewestFit(updates)
  {
    RememberedAreLatest(updates);
    ShownFits(updates);
  }

  /** Otherwise it is the one that was current when the newest steps last fit, or none if they never did. */
  lemma {:induction false} ShownWasCurrent(updates: seq<Update>, k: nat)
    requires k <= |updates|
    requires k > 0 ==> NewestFit(updates[..k])
    requires forall i :: k < i <= |updates| ==> !NewestFit(updates[..i])
    ensures ReplayOf(updates).shown.Some? <==> k > 0
    ensures k > 0 ==> IsCurrent(ReplayOf(updates).shown, updates[..k])
  {
    if k == |updates| {
      assert updates[..k] == updates;
      if k > 0 {
        ShownIsCurrentIff(updates);
      }
    } else {
      var rest := updates[..|updates| - 1];
      assert updates[..|updates|] == updates;
      assert forall i :: 0 <= i <= |rest| ==> rest[..i] == updates[..i];
      ShownWasCurrent(rest, k);
      RememberedAreLatest(updates);
    }
  }

  /**
   * A step out of range leaves an older record readable: after an inner step of 1 and one of -1 the reader
   * is shown 1.
   */
  lemma OutOfRangeStepKeepsOldRecord()
    ensures var updates := [Inner(1, 0, 0, 1000), Inner(-1, 0, 0, 1001)];
            var shown := ReplayOf(updates).shown;
            shown.Some? && shown.value.fields.innerStep == 1 && !IsLatest(shown.value.fields, updates)
  {
    var updates := [Inner(1, 0, 0, 1000), Inner(-1, 0, 0, 1001)];
    var first := updates[..1];
    assert first == [Inner(1, 0, 0, 1000)] && first[..0] == [];
    assert ReplayOf(first) == After(Replay(INITIAL, None), updates[0]);
    assert ReplayOf(updates) == After(ReplayOf(first), updates[1]);
    assert NewestInner(updates) == Some(updates[1]);
  }

  class DiLoCoCallback {
    const mm: array<Byte>
    var closed: bool
    var innerStep: int
    var outerStep: int
    var innerLoss: Bits32
    var outerLoss: Bits32
    var pseudoGradNorm: Bits32
    var syncDurationMs: Bits32
    var workerSpeedRatio: Bits32
    var isStraggler: bool
    /** The updates made while open. */
    ghost var updates: seq<Update>

    function Fields(): DiLoCo
      reads this
    {
      DiLoCo(innerStep, outerStep, innerLoss, outerLoss, pseudoGradNorm, syncDurationMs, workerSpeedRatio, isStraggler)
    }

    /** The record a reader is meant to see. */
    ghost function Shown(): Option<Stamped>
      reads this
    {
      if closed then None else ReplayOf(updates).shown
    }

    ghost predicate Valid()
      reads this, mm
    {
      && Fields() == ReplayOf(updates).fields
      && Shows(Shown())
    }

    ghost predicate Shows(record: Option<Stamped>)
      reads mm
    {
      && mm.Length == FILE_SIZE
      && (record.None? ==> mm[0] == 0)
      && (record.Some? ==> DiLoCoFits(record.value) && mm[..] == Padded(PackDiLoCo(1, record.value)))
    }

    constructor ()
      ensures Valid() && updates == [] && !closed && fresh(mm) && mm.Length == 64
      ensures Fields() == DiLoCo(0, 0, 0, 0, 0, 0, 0x3F80_0000, false)
    {
      mm := new Byte[FILE_SIZE](i => 0);
      closed := false;
      innerStep, outerStep, innerLoss, outerLoss, pseudoGradNorm := 0, 0, 0, 0, 0;
      syncDurationMs, workerSpeedRatio, isStraggler := 0, ONE_F32, false;
      updates := [];
    }

    /** In every reachable state, a read returns the shown record if it is fresh, and nothing else. */
    lemma ReadsShown(nowMs: int)
      requires Valid()
      ensures ReadDiLoCo(mm[..], nowMs)
              == if Shown().Some? && Fresh(nowMs, Shown().value.timestampMs) then Shown() else None
    {
      if Shown().Some? {
        DiLoCoRoundTrip(1, Shown().value, nowMs);
      }
    }

    /**
     * In every reachable state of an open callback, a read yields the latest value of each field iff the
     * newest steps and time fit the record and the record is fresh.
     */
    lemma ReadsLatestIff(nowMs: int)
      requires Valid() && !closed && |updates| > 0
      ensures IsCurrent(ReadDiLoCo(mm[..], nowMs), updates)
              <==> NewestFit(updates) && Fresh(nowMs, updates[|updates| - 1].atMs)
    {
      hide NewestFit, ReplayOf, Shows, IsLatest, ReadDiLoCo, Fresh;
      ReadsShown(nowMs);
      ShownIsCurrentIff(updates);
    }

    method Flush(nowMs: int) returns (r: Result<(), Error>)
      requires mm.Length == FILE_SIZE
      modifies mm
      ensures r == if DiLoCoFits(Stamped(nowMs, Fields())) then Ok(()) else Err(StructError)
      ensures r.Ok? ==> Shows(Some(Stamped(nowMs, Fields())))
      ensures r.Err? ==> mm[..] == old(mm[..])
    {
      var record := Stamped(nowMs, Fields());
      if !(I64_MIN <= nowMs <= I64_MAX) || !(0 <= innerStep <= U64_MAX) || !(0 <= outerStep <= U64_MAX) {
        return Err(StructError);
      }
      var payload := PackDiLoCo(1, record);
      WriteImage(mm, payload + Zeros(FILE_SIZE - |payload|));
      r := Ok(());
    }

    /** What both kinds of steps end with, once the fields are remembered. */
    method Write(nowMs: int, ghost u: Update) returns (r: Result<(), Error>)
      requires !closed && u.atMs == nowMs
      requires Fields() == Applied(ReplayOf(updates).fields, u) && Shows(ReplayOf(updates).shown)
      modifies this`updates, mm
      ensures Valid() && updates == old(updates) + [u]
      ensures r == if DiLoCoFits(Stamped(nowMs, Fields())) then Ok(()) else Err(StructError)
      ensures r.Err? ==> mm[..] == old(mm[..])
    {
      hide Applied, DiLoCoFits, Padded, PackDiLoCo, ReplayOf;
      ReplayAppend(updates, u);
      updates := updates + [u];
      r := Flush(nowMs);
    }

    /** The remembered fields change even when packing fails; the shared record then stays the old one. */
    method OnInnerStep(inner: int, outer: int, loss: Bits32, nowMs: int) returns (r: Result<(), Error>)
      requires Valid()
      modifies this, mm
      ensures Valid() && closed == old(closed)
      ensures updates == if closed then old(updates) else old(updates) + [Inner(inner, outer, loss, nowMs)]
      ensures r == if closed then Err(AlreadyClosed)
                   else if DiLoCoFits(Stamped(nowMs, Fields())) then Ok(()) else Err(StructError)
      ensures r.Err? ==> mm[..] == old(mm[..])
    {
      if closed {
        return Err(AlreadyClosed);
      }
      hide DiLoCoFits, Shows, ReplayOf;
      innerStep := inner;
      outerStep := outer;
      innerLoss := loss;
      r := Write(nowMs, Inner(inner, outer, loss, nowMs));
    }

    method OnOuterStep(outer: int, loss: Bits32, norm: Bits32, sync: Bits32, ratio: Bits32, straggler: bool, nowMs: int)
      returns (r: Result<(), Error>)
      requires Valid()
      modifies this, mm
      ensures Valid() && closed == old(closed)
      ensures updates == if closed then old(updates)
                         else old(updates) + [Outer(outer, loss, norm, sync, ratio, straggler, nowMs)]
      ensures r == if closed then Err(AlreadyClosed)
                   else if DiLoCoFits(Stamped(nowMs, Fields())) then Ok(()) else Err(StructError)
      ensures r.Err? ==> mm[..] == old(mm[..])
    {
      if closed {
        return Err(AlreadyClosed);
      }
      hide DiLoCoFits, Shows, ReplayOf;
      outerStep := outer;
      outerLoss := loss;
      pseudoGradNorm := norm;
      syncDurationMs := sync;
      workerSpeedRatio := ratio;
      isStraggler := straggler;
      r := Write(nowMs, Outer(outer, loss, norm, sync, ratio, straggler, nowMs));
    }

    /** After closing, a reader gets nothing. */
    method Close()
      requires Valid()
      modifies this`closed, mm
      ensures Valid() && closed && mm[0] == 0
    {
      if closed {
        return;
      }
      closed := true;
      mm[0] := 0;
    }
  }
}
