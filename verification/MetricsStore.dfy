/** Per-node ring buffers of telemetry (`MetricsStore` in the backend). */
module MetricsStore {
  import opened Prelude

  const RING_BUFFER_SIZE: nat := 1800

  datatype GpuMetrics = GpuMetrics(nodeId: Id, timestampMs: int, fields: map<string, real>)

  datatype TrainingMetrics = TrainingMetrics(
    nodeId: Id, jobId: Option<Id>, timestampMs: int, step: int,
    loss: real, gradientNorm: real, learningRate: real, throughputTps: real, mfuPct: real)

  datatype DiLoCoMetrics = DiLoCoMetrics(
    nodeId: Id, jobId: Option<Id>, timestampMs: int, innerStep: int, outerStep: int,
    innerLoss: real, outerLoss: real, pseudoGradNorm: real, syncDurationMs: real)

  datatype Batch = Batch(gpu: seq<GpuMetrics>, training: Option<TrainingMetrics>, diloco: Option<DiLoCoMetrics>)

  datatype NodeBuffer = NodeBuffer(
    gpu: seq<seq<GpuMetrics>>, training: seq<TrainingMetrics>, diloco: seq<DiLoCoMetrics>, lastSeenMs: int)

  const EMPTY_BUFFER := NodeBuffer([], [], [], 0)

  /** The node a batch is filed under: the first GPU's, else the training record's, else the DiLoCo record's. */
  function Route(b: Batch): Option<Id> {
    if |b.gpu| > 0 then Some(b.gpu[0].nodeId)
    else if b.training.Some? then Some(b.training.value.nodeId)
    else if b.diloco.Some? then Some(b.diloco.value.nodeId)
    else None
  }

  function NewestGpu(gpu: seq<GpuMetrics>): (ts: int)
    requires |gpu| > 0
    ensures exists i :: 0 <= i < |gpu| && ts == gpu[i].timestampMs
    ensures forall i :: 0 <= i < |gpu| ==> gpu[i].timestampMs <= ts
  {
    if |gpu| == 1 then gpu[0].timestampMs
    else MaxInt(NewestGpu(gpu[..|gpu| - 1]), gpu[|gpu| - 1].timestampMs)
  }

  // The unbounded history of one node: everything a list of batches ever delivered to it.

  ghost function RoutedTo(node: Id): Batch -> bool {
    (b: Batch) => Route(b) == Some(node)
  }

  ghost function BatchesFor(history: seq<Batch>, node: Id): (r: seq<Batch>) {
    Filter(history, RoutedTo(node))
  }

  ghost function Collect<T>(batches: seq<Batch>, get: Batch -> Option<T>): seq<T> {
    if |batches| == 0 then []
    else
      var rest := Collect(batches[..|batches| - 1], get);
      match get(batches[|batches| - 1]) case Some(x) => rest + [x] case None => rest
  }

  function GpuOf(b: Batch): Option<seq<GpuMetrics>> {
    if |b.gpu| > 0 then Some(b.gpu) else None
  }

  function TrainingOf(b: Batch): Option<TrainingMetrics> {
    b.training
  }

  function DiLoCoOf(b: Batch): Option<DiLoCoMetrics> {
    b.diloco
  }

  ghost function GpuIn(batches: seq<Batch>): seq<seq<GpuMetrics>> {
    Collect(batches, GpuOf)
  }

  ghost function TrainingIn(batches: seq<Batch>): seq<TrainingMetrics> {
    Collect(batches, TrainingOf)
  }

  ghost function DiLoCoIn(batches: seq<Batch>): seq<DiLoCoMetrics> {
    Collect(batches, DiLoCoOf)
  }

  /** The newest timestamp in a batch, or `floor` when that is newer. */
  function Newest(b: Batch, floor: int): (r: int)
    ensures r >= floor
  {
    var t0 := if |b.gpu| > 0 then MaxInt(floor, NewestGpu(b.gpu)) else floor;
    var t1 := if b.training.Some? then MaxInt(t0, b.training.value.timestampMs) else t0;
    if b.diloco.Some? then MaxInt(t1, b.diloco.value.timestampMs) else t1
  }

  ghost function LastSeenIn(batches: seq<Batch>): (r: int)
    ensures r >= 0
  {
    if |batches| == 0 then 0
    else Newest(batches[|batches| - 1], LastSeenIn(batches[..|batches| - 1]))
  }

  ghost function BoundedBuffer(batches: seq<Batch>): NodeBuffer {
    NodeBuffer(LastN(GpuIn(batches), RING_BUFFER_SIZE),
               LastN(TrainingIn(batches), RING_BUFFER_SIZE),
               LastN(DiLoCoIn(batches), RING_BUFFER_SIZE),
               LastSeenIn(batches))
  }

  /**
   * The slice of a node's unbounded history that its ring buffer and a query of `windowMinutes` minutes
   * (at one sample a second) let through.
   */
  function Window<T>(all: seq<T>, windowMinutes: int): (r: seq<T>)
    ensures windowMinutes > 0 ==> r == LastN(all, WindowSize(windowMinutes))
  {
    LastNNested(all, RING_BUFFER_SIZE, if windowMinutes > 0 then windowMinutes * 60 else 0);
    SliceFromEnd(LastN(all, RING_BUFFER_SIZE), windowMinutes * 60)
  }

  lemma WindowMember<T>(all: seq<T>, windowMinutes: int, i: nat)
    requires i < |Window(all, windowMinutes)|
    ensures Window(all, windowMinutes)[i] in all
  {
  }

  function WindowSize(windowMinutes: int): (n: nat)
    requires windowMinutes > 0
    ensures n <= RING_BUFFER_SIZE && n <= windowMinutes * 60
    ensures n == RING_BUFFER_SIZE || n == windowMinutes * 60
  {
    if RING_BUFFER_SIZE <= windowMinutes * 60 then RING_BUFFER_SIZE else windowMinutes * 60
  }

  /** The buffer kept for `node` holds exactly the newest entries of what the node ever sent. */
  ghost predicate Mirrors(nodes: map<Id, NodeBuffer>, history: seq<Batch>, node: Id) {
    && (node in nodes <==> BatchesFor(history, node) != [])
    && (node in nodes ==> nodes[node] == BoundedBuffer(BatchesFor(history, node)))
  }

  // What ingesting a batch does, in terms of the node ids its records carry.

  /** `x` appended to a ring buffer of 1800 entries, if there is one. */
  ghost predicate Pushed<T>(was: seq<T>, now: seq<T>, x: Option<T>) {
    if x.None? then now == was
    else
      && |now| == (if |was| < 1800 then |was| + 1 else 1800)
      && now[|now| - 1] == x.value
      && now[..|now| - 1] == was[|was| + 1 - |now|..]
  }

  /** Everything in `batch` has gone to `node` and to no other. */
  ghost predicate Filed(was: map<Id, NodeBuffer>, now: map<Id, NodeBuffer>, batch: Batch, node: Id) {
    var before := if node in was then was[node] else NodeBuffer([], [], [], 0);
    && now.Keys == was.Keys + {node}
    && (forall other :: other in was && other != node ==> now[other] == was[other])
    && Pushed(before.gpu, now[node].gpu, if |batch.gpu| > 0 then Some(batch.gpu) else None)
    && Pushed(before.training, now[node].training, batch.training)
    && Pushed(before.diloco, now[node].diloco, batch.diloco)
    && SeenUntil(before.lastSeenMs, now[node].lastSeenMs, batch)
  }

  /** `now` is the latest of `was` and the timestamps in `batch`. */
  ghost predicate SeenUntil(was: int, now: int, batch: Batch) {
    && was <= now
    && (forall i :: 0 <= i < |batch.gpu| ==> batch.gpu[i].timestampMs <= now)
    && (batch.training.Some? ==> batch.training.value.timestampMs <= now)
    && (batch.diloco.Some? ==> batch.diloco.value.timestampMs <= now)
    && (now == was || (exists i :: 0 <= i < |batch.gpu| && batch.gpu[i].timestampMs == now)
        || (batch.training.Some? && batch.training.value.timestampMs == now)
        || (batch.diloco.Some? && batch.diloco.value.timestampMs == now))
  }

  lemma PushedByAppend<T>(was: seq<T>, x: Option<T>)
    requires |was| <= 1800
    ensures Pushed(was, Append(was, x), x)
  {
  }

  lemma AppendedIsPushed(before: NodeBuffer, batch: Batch)
    requires |before.gpu| <= 1800 && |before.training| <= 1800 && |before.diloco| <= 1800
    ensures var buf := Appended(before, batch);
            && Pushed(before.gpu, buf.gpu, if |batch.gpu| > 0 then Some(batch.gpu) else None)
            && Pushed(before.training, buf.training, batch.training)
            && Pushed(before.diloco, buf.diloco, batch.diloco)
            && SeenUntil(before.lastSeenMs, buf.lastSeenMs, batch)
  {
    hide Pushed, SeenUntil, Newest, Append;
    PushedByAppend(before.gpu, GpuOf(batch));
    PushedByAppend(before.training, batch.training);
    PushedByAppend(before.diloco, batch.diloco);
    NewestIsSeen(before.lastSeenMs, batch);
  }

  lemma AppendedIsFiled(was: map<Id, NodeBuffer>, batch: Batch, node: Id)
    requires node in was ==> |was[node].gpu| <= 1800 && |was[node].training| <= 1800 && |was[node].diloco| <= 1800
    ensures Filed(was, was[node := Appended(if node in was then was[node] else EMPTY_BUFFER, batch)], batch, node)
  {
    hide Pushed, SeenUntil, Appended;
    AppendedIsPushed(if node in was then was[node] else EMPTY_BUFFER, batch);
  }

  lemma NewestIsSeen(was: int, batch: Batch)
    ensures SeenUntil(was, Newest(batch, was), batch)
  {
    if |batch.gpu| > 0 {
      var i :| 0 <= i < |batch.gpu| && NewestGpu(batch.gpu) == batch.gpu[i].timestampMs;
    }
  }

  lemma WindowNonEmpty(batches: seq<Batch>, windowMinutes: int)
    ensures forall x :: x in Window(GpuIn(batches), windowMinutes) ==> |x| > 0
  {
    hide Window, GpuIn;
    GpuSnapshotsNonEmpty(batches);
    var all := Window(GpuIn(batches), windowMinutes);
    forall x | x in all ensures |x| > 0 {
      var i :| 0 <= i < |all| && all[i] == x;
      WindowMember(GpuIn(batches), windowMinutes, i);
    }
  }

  lemma WindowOfRing<T>(all: seq<T>, windowMinutes: int)
    ensures Window(all, windowMinutes) == SliceFromEnd(LastN(all, RING_BUFFER_SIZE), windowMinutes * 60)
  {
  }

  class Store {
    var nodes: map<Id, NodeBuffer>
    /** Every batch ever passed to `IngestBatch`. */
    ghost var history: seq<Batch>

    ghost predicate Valid()
      reads this
    {
      forall node :: Mirrors(nodes, history, node)
    }

    constructor ()
      ensures Valid() && history == []
    {
      nodes := map[];
      history := [];
    }

    method IngestBatch(batch: Batch)
      requires Valid()
      modifies this
      ensures Valid() && history == old(history) + [batch]
      ensures |batch.gpu| > 0 ==> Filed(old(nodes), nodes, batch, batch.gpu[0].nodeId)
      ensures |batch.gpu| == 0 && batch.training.Some? ==> Filed(old(nodes), nodes, batch, batch.training.value.nodeId)
      ensures |batch.gpu| == 0 && batch.training.None? && batch.diloco.Some? ==>
                Filed(old(nodes), nodes, batch, batch.diloco.value.nodeId)
      ensures |batch.gpu| == 0 && batch.training.None? && batch.diloco.None? ==> nodes == old(nodes)
    {
      hide Filed, Appended, BoundedBuffer, BatchesFor;
      RouteAppend(history, batch);
      history := history + [batch];
      var target := Route(batch);
      if target.None? {
        forall n ensures Mirrors(nodes, history, n) {
          assert Mirrors(nodes, old(history), n);
        }
        return;
      }
      var node := target.value;
      assert Mirrors(nodes, old(history), node);
      BuffersAreBounded(BatchesFor(old(history), node));
      AppendedIsFiled(nodes, batch, node);
      EmptyHistory();
      AppendToBuffer(BatchesFor(old(history), node), batch);
      var buf := if node in nodes then nodes[node] else EMPTY_BUFFER;
      buf := AppendBatch(buf, batch);
      nodes := nodes[node := buf];
      forall n ensures Mirrors(nodes, history, n) {
        assert Mirrors(old(nodes), old(history), n);
      }
    }

    static method AppendBatch(buf: NodeBuffer, batch: Batch) returns (r: NodeBuffer)
      ensures r == Appended(buf, batch)
    {
      r := buf;
      if |batch.gpu| > 0 {
        var ts := NewestGpu(batch.gpu);
        r := r.(gpu := LastN(r.gpu + [batch.gpu], RING_BUFFER_SIZE), lastSeenMs := MaxInt(r.lastSeenMs, ts));
      }
      if batch.training.Some? {
        var m := batch.training.value;
        r := r.(training := LastN(r.training + [m], RING_BUFFER_SIZE),
          lastSeenMs := MaxInt(r.lastSeenMs, m.timestampMs));
      }
      if batch.diloco.Some? {
        var m := batch.diloco.value;
        r := r.(diloco := LastN(r.diloco + [m], RING_BUFFER_SIZE), lastSeenMs := MaxInt(r.lastSeenMs, m.timestampMs));
      }
    }

    method GetTrainingHistory(node: Id, windowMinutes: int) returns (data: seq<TrainingMetrics>)
      requires Valid()
      ensures data == Window(TrainingIn(BatchesFor(history, node)), windowMinutes)
    {
      assert Mirrors(nodes, history, node);
      if node !in nodes {
        return [];
      }
      data := SliceFromEnd(nodes[node].training, windowMinutes * 60);
    }

    method GetDiLoCoHistory(node: Id, windowMinutes: int) returns (data: seq<DiLoCoMetrics>)
      requires Valid()
      ensures data == Window(DiLoCoIn(BatchesFor(history, node)), windowMinutes)
    {
      assert Mirrors(nodes, history, node);
      if node !in nodes {
        return [];
      }
      data := SliceFromEnd(nodes[node].diloco, windowMinutes * 60);
    }

    lemma EmptyWindow(node: Id, windowMinutes: int)
      requires Valid() && node !in nodes
      ensures Window(GpuIn(BatchesFor(history, node)), windowMinutes) == []
    {
      assert Mirrors(nodes, history, node);
    }

    /** At a resolution of `k > 1` seconds, every `k`-th snapshot of the window, starting with its oldest. */
    method GetGpuHistory(node: Id, windowMinutes: int, resolutionSeconds: int := 1) returns (data: seq<seq<GpuMetrics>>)
      requires Valid()
      ensures var all := Window(GpuIn(BatchesFor(history, node)), windowMinutes);
              data == if resolutionSeconds > 1 then EveryNth(all, resolutionSeconds) else all
      ensures forall i :: 0 <= i < |data| ==> |data[i]| > 0
    {
      hide EveryNth, GpuIn, BatchesFor, Window;
      assert Mirrors(nodes, history, node);
      WindowNonEmpty(BatchesFor(history, node), windowMinutes);
      WindowOfRing(GpuIn(BatchesFor(history, node)), windowMinutes);
      if node !in nodes {
        EmptyWindow(node, windowMinutes);
        EveryNthOfNothing<seq<GpuMetrics>>(resolutionSeconds);
        return [];
      }
      data := SliceFromEnd(nodes[node].gpu, windowMinutes * 60);
      if resolutionSeconds > 1 {
        data := EveryNth(data, resolutionSeconds);
      }
      forall i | 0 <= i < |data| ensures |data[i]| > 0 {
        assert data[i] in data;
      }
    }

    /** `get_node_status(...).last_seen_ms`: the newest timestamp ever received from the node, or none at all. */
    method LastSeen(node: Id) returns (seen: Option<int>)
      requires Valid()
      ensures seen == if BatchesFor(history, node) == [] then None else Some(LastSeenIn(BatchesFor(history, node)))
    {
      assert Mirrors(nodes, history, node);
      seen := if node in nodes then Some(nodes[node].lastSeenMs) else None;
    }
  }

  ghost function Append<T>(ring: seq<T>, x: Option<T>): seq<T> {
    match x case Some(v) => LastN(ring + [v], RING_BUFFER_SIZE) case None => ring
  }

  ghost function Appended(buf: NodeBuffer, b: Batch): NodeBuffer {
    NodeBuffer(Append(buf.gpu, GpuOf(b)), Append(buf.training, b.training), Append(buf.diloco, b.diloco),
               Newest(b, buf.lastSeenMs))
  }

  lemma BuffersAreBounded(batches: seq<Batch>)
    ensures var b := BoundedBuffer(batches); |b.gpu| <= 1800 && |b.training| <= 1800 && |b.diloco| <= 1800
  {
  }

  lemma EmptyHistory()
    ensures BoundedBuffer([]) == EMPTY_BUFFER
  {
  }

  lemma AppendToBuffer(batches: seq<Batch>, b: Batch)
    ensures BoundedBuffer(batches + [b]) == Appended(BoundedBuffer(batches), b)
  {
  }

  lemma RouteAppend(history: seq<Batch>, b: Batch)
    ensures forall node :: BatchesFor(history + [b], node)
                           == if Route(b) == Some(node) then BatchesFor(history, node) + [b]
                              else BatchesFor(history, node)
  {
  }

  /** Empty GPU lists are never stored, so the readers need not skip any. */
  lemma {:induction false} GpuSnapshotsNonEmpty(batches: seq<Batch>)
    ensures forall i :: 0 <= i < |GpuIn(batches)| ==> |GpuIn(batches)[i]| > 0
  {
    if |batches| > 0 {
      var rest := batches[..|batches| - 1];
      GpuSnapshotsNonEmpty(rest);
      assert GpuIn(batches) == match GpuOf(batches[|batches| - 1])
                               case Some(x) => GpuIn(rest) + [x]
                               case None => GpuIn(rest);
    }
  }
}
