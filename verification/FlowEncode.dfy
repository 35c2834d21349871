/** From flows to encodings: windows, batches and the merge of flow-encode.cpp, and the
    batching of _kafka_impl.cpp. The torch model with its normalisation is an arbitrary
    function on rows. */
module FlowEncode {
  import opened Bits
  import opened Bytes

  // ---- packets as rows -------------------------------------------------------------------------

  const IPPROTO_TCP: nat := 6

  /** PacketToTensor: 136 of the first 148 bytes of a blob. */
  function PacketRow(blob: bytes, protocol: nat): (row: bytes)
    requires |blob| >= 148
    ensures |row| == 136
  {
    var end, start := if protocol == IPPROTO_TCP then 60 else 120, if protocol == IPPROTO_TCP then 64 else 124;
    blob[0..12] + blob[20..end] + blob[start..148]
  }

  /** Byte k of the blob does not reach the row. */
  predicate Masked(protocol: nat, k: nat) {
    12 <= k < 20 || if protocol == IPPROTO_TCP then 60 <= k < 64 else 120 <= k < 124
  }

  /** Where a byte of the blob stands in the row. */
  function Place(protocol: nat, k: nat): nat
    requires k < 148 && !Masked(protocol, k)
  {
    if k < 12 then k else if k < (if protocol == IPPROTO_TCP then 60 else 120) then k - 8 else k - 12
  }

  lemma {:induction false} RowAt(blob: bytes, protocol: nat, k: nat)
    requires |blob| >= 148 && k < 148 && !Masked(protocol, k)
    ensures Place(protocol, k) < 136 && PacketRow(blob, protocol)[Place(protocol, k)] == blob[k]
  {
  }

  function Unplace(protocol: nat, j: nat): nat
    requires j < 136
  {
    if j < 12 then j else if j < (if protocol == IPPROTO_TCP then 52 else 112) then j + 8 else j + 12
  }

  /** Two blobs give the same row exactly when they agree on every byte that is not masked. */
  lemma {:induction false} RowExact(x: bytes, y: bytes, protocol: nat)
    requires |x| >= 148 && |y| >= 148
    ensures PacketRow(x, protocol) == PacketRow(y, protocol)
            <==> forall k | 0 <= k < 148 && !Masked(protocol, k) :: x[k] == y[k]
  {
    hide PacketRow;
    if PacketRow(x, protocol) == PacketRow(y, protocol) {
      forall k | 0 <= k < 148 && !Masked(protocol, k) ensures x[k] == y[k] {
        RowAt(x, protocol, k);
        RowAt(y, protocol, k);
      }
    }
    if forall k | 0 <= k < 148 && !Masked(protocol, k) :: x[k] == y[k] {
      forall j | 0 <= j < 136 ensures PacketRow(x, protocol)[j] == PacketRow(y, protocol)[j] {
        RowAt(x, protocol, Unplace(protocol, j));
        RowAt(y, protocol, Unplace(protocol, j));
      }
    }
  }

  /** The row hides addresses (bytes 12 to 19) always, ports (bytes 60 to 63) only for TCP. */
  lemma {:induction false} PortsHidden(protocol: nat)
    ensures forall k | 12 <= k < 20 :: Masked(protocol, k)
    ensures (forall k | 60 <= k < 64 :: Masked(protocol, k)) <==> protocol == IPPROTO_TCP
  {
    assert Masked(protocol, 60) <==> protocol == IPPROTO_TCP;
  }

  /** Where the bytes of a row come from: the masked ones are left out, the others keep their order. */
  lemma {:induction false} RowBytes(blob: bytes, protocol: nat, j: nat)
    requires |blob| >= 148 && j < 136
    ensures PacketRow(blob, protocol)[j]
            == blob[if j < 12 then j else if j < (if protocol == IPPROTO_TCP then 52 else 112) then j + 8 else j + 12]
  {
  }

  // ---- flows as windows -------------------------------------------------------------------------

  /** hd_flow: protocol and packet blobs. */
  datatype Flow = Flow(flowId: string, protocol: nat, packets: seq<bytes>)

  predicate WellFormed(flow: Flow) {
    forall i | 0 <= i < |flow.packets| :: |flow.packets[i]| >= 148
  }

  predicate AllWellFormed(flows: seq<Flow>) {
    forall i | 0 <= i < |flows| :: WellFormed(flows[i])
  }

  /** The rows of the first four packets of group k of five. */
  function Window(flow: Flow, k: nat): (w: bytes)
    requires WellFormed(flow) && 5 * k + 5 <= |flow.packets|
    ensures |w| == 544
  {
    PacketRow(flow.packets[5 * k], flow.protocol) + PacketRow(flow.packets[5 * k + 1], flow.protocol)
    + PacketRow(flow.packets[5 * k + 2], flow.protocol) + PacketRow(flow.packets[5 * k + 3], flow.protocol)
  }

  /** The windows of a flow; up to four packets at its end are in none. */
  function Windows(flow: Flow): (ws: seq<bytes>)
    requires WellFormed(flow)
    ensures |ws| == |flow.packets| / 5
  {
    seq(|flow.packets| / 5, k requires 0 <= k < |flow.packets| / 5 => Window(flow, k))
  }

  /** Byte b of the j-th of the four parts of window k is byte b of the row of packet 5k + j. */
  lemma {:induction false} WindowBytes(flow: Flow, k: nat, j: nat, b: nat)
    requires WellFormed(flow) && k < |flow.packets| / 5 && j < 4 && b < 136
    ensures 5 * k + j < |flow.packets|
    ensures Windows(flow)[k][136 * j + b] == PacketRow(flow.packets[5 * k + j], flow.protocol)[b]
  {
    hide PacketRow;
    assert Windows(flow)[k] == Window(flow, k);
  }

  /** FlowToTensor: one row a packet, the rest of the last incomplete group left out. */
  method FlowToTensor(flow: Flow, width: nat) returns (rows: seq<bytes>)
    requires WellFormed(flow) && width > 0
    ensures |rows| == |flow.packets| - |flow.packets| % width
    ensures forall i | 0 <= i < |rows| :: rows[i] == PacketRow(flow.packets[i], flow.protocol)
  {
    hide PacketRow;
    var windowCount := |flow.packets| - |flow.packets| % width;
    rows := [];
    var index := 0;
    while index < windowCount
      invariant 0 <= index <= windowCount && |rows| == index
      invariant forall i | 0 <= i < index :: rows[i] == PacketRow(flow.packets[i], flow.protocol)
    {
      rows := rows + [PacketRow(flow.packets[index], flow.protocol)];
      index := index + 1;
    }
  }

  /** reshape({-1, 5, 136}).slice(1, 0, 4).reshape({-1, 544}). With no rows the -1 could stand for
      any number, which is an error. */
  method ViewWindows(rows: seq<bytes>, ghost flow: Flow) returns (ok: bool, ws: seq<bytes>)
    requires WellFormed(flow) && |rows| == |flow.packets| - |flow.packets| % 5
    requires forall i | 0 <= i < |rows| :: rows[i] == PacketRow(flow.packets[i], flow.protocol)
    ensures ok <==> |flow.packets| >= 5
    ensures ok ==> ws == Windows(flow)
  {
    ok, ws := true, [];
    if |rows| == 0 {
      return false, [];
    }
    var k := 0;
    while 5 * k < |rows|
      invariant 0 <= k && 5 * k <= |rows| && |ws| == k
      invariant forall i | 0 <= i < k :: ws[i] == Window(flow, i)
    {
      ws := ws + [rows[5 * k] + rows[5 * k + 1] + rows[5 * k + 2] + rows[5 * k + 3]];
      k := k + 1;
    }
  }

  function AllWindows(flows: seq<Flow>): seq<bytes>
    requires AllWellFormed(flows)
  {
    if |flows| == 0 then [] else AllWindows(flows[..|flows| - 1]) + Windows(flows[|flows| - 1])
  }

  /** The stretch of window list entries that belong to flow i. */
  ghost predicate Indexed(flows: seq<Flow>, index: seq<(nat, nat)>)
    requires AllWellFormed(flows)
  {
    && |index| == |flows|
    && forall i | 0 <= i < |flows| ::
         index[i].0 <= index[i].1 <= |AllWindows(flows)| && AllWindows(flows)[index[i].0..index[i].1] == Windows(flows[i])
  }

  ghost predicate AllHaveWindow(flows: seq<Flow>) {
    forall i | 0 <= i < |flows| :: |flows[i].packets| >= 5
  }

  /** BuildSlideWindow with width 5. The first flow without a window ends it, and concatenating no
      windows is an error, too. */
  method BuildSlideWindow(flows: seq<Flow>) returns (ok: bool, windows: seq<bytes>, index: seq<(nat, nat)>)
    requires AllWellFormed(flows)
    ensures ok <==> |flows| > 0 && AllHaveWindow(flows)
    ensures ok ==> windows == AllWindows(flows) && Indexed(flows, index)
  {
    hide AllWindows, Windows, Indexed;
    ok, windows, index := true, [], [];
    var windowList: seq<seq<bytes>> := [];
    NoFlows();
    var offset := 0;
    var i := 0;
    while i < |flows|
      invariant 0 <= i <= |flows| && offset == |windows| && ok && |windowList| == i
      invariant AllHaveWindow(flows[..i])
      invariant windows == AllWindows(flows[..i]) && Indexed(flows[..i], index)
    {
      var rows := FlowToTensor(flows[i], 5);
      var viewed;
      ok, viewed := ViewWindows(rows, flows[i]);
      if !ok { return; }
      IndexMore(flows[..i], index, flows[i]);
      assert flows[..i + 1] == flows[..i] + [flows[i]];
      windowList := windowList + [viewed];
      windows := windows + viewed;
      index := index + [(offset, offset + |viewed|)];
      offset := offset + |viewed|;
      i := i + 1;
    }
    assert flows[..i] == flows;
    ok := |windowList| > 0;
  }

  lemma {:induction false} NoFlows()
    ensures AllWindows([]) == [] && Indexed([], [])
  {
  }

  lemma {:induction false} IndexMore(flows: seq<Flow>, index: seq<(nat, nat)>, flow: Flow)
    requires AllWellFormed(flows) && WellFormed(flow) && Indexed(flows, index)
    ensures AllWindows(flows + [flow]) == AllWindows(flows) + Windows(flow)
    ensures var n := |AllWindows(flows)|;
            Indexed(flows + [flow], index + [(n, n + |Windows(flow)|)])
  {
    hide Windows;
    assert (flows + [flow])[..|flows|] == flows;
    var all := AllWindows(flows + [flow]);
    forall i | 0 <= i < |flows|
      ensures all[index[i].0..index[i].1] == Windows(flows[i])
    {
      assert all[index[i].0..index[i].1] == AllWindows(flows)[index[i].0..index[i].1];
    }
    assert all[|AllWindows(flows)|..] == Windows(flow);
  }

  // ---- the model and the merge --------------------------------------------------------------------

  type Vec = seq<real>

  const DIM: nat := 128

  /** A row-wise model: forward applies the same function to every row. */
  function Forward(model: bytes -> Vec, data: seq<bytes>): (r: seq<Vec>)
    ensures |r| == |data| && forall i | 0 <= i < |data| :: r[i] == model(data[i])
  {
    seq(|data|, i requires 0 <= i < |data| => model(data[i]))
  }

  ghost predicate IsModel(model: bytes -> Vec) {
    forall w :: |model(w)| == DIM
  }

  function Greater(a: real, b: real): real {
    if a > b then a else b
  }

  /** The element-wise maximum of rows. */
  function RowMax(rows: seq<Vec>): (m: Vec)
    requires |rows| > 0 && forall i | 0 <= i < |rows| :: |rows[i]| == DIM
    ensures |m| == DIM
  {
    if |rows| == 1 then rows[0]
    else
      var rest := RowMax(rows[..|rows| - 1]);
      seq(DIM, j requires 0 <= j < DIM => Greater(rest[j], rows[|rows| - 1][j]))
  }

  /** In every place the greatest of the rows' numbers, and one of them. */
  lemma {:induction false} RowMaxMeaning(rows: seq<Vec>, j: nat)
    requires |rows| > 0 && (forall i | 0 <= i < |rows| :: |rows[i]| == DIM) && j < DIM
    ensures forall i | 0 <= i < |rows| :: rows[i][j] <= RowMax(rows)[j]
    ensures exists i | 0 <= i < |rows| :: rows[i][j] == RowMax(rows)[j]
  {
    if |rows| == 1 {
      assert rows[0][j] == RowMax(rows)[j];
    } else {
      var front := rows[..|rows| - 1];
      RowMaxMeaning(front, j);
      var last := |rows| - 1;
      assert RowMax(rows)[j] == Greater(RowMax(front)[j], rows[last][j]);
      if RowMax(front)[j] > rows[last][j] {
        var i :| 0 <= i < |front| && front[i][j] == RowMax(front)[j];
        assert rows[i][j] == RowMax(rows)[j];
      } else {
        assert rows[last][j] == RowMax(rows)[j];
      }
      forall i | 0 <= i < |rows| ensures rows[i][j] <= RowMax(rows)[j] {
        if i < last { assert front[i] == rows[i]; }
      }
    }
  }

  /** BatchEncode: every step forwards the whole data, so its encodings are repeated. Without data
      there is nothing to concatenate, which is an error. */
  method BatchEncode(model: bytes -> Vec, data: seq<bytes>, batchSize: nat) returns (ok: bool, r: seq<Vec>)
    requires batchSize > 0
    ensures ok <==> |data| > 0
    ensures ok ==> |r| >= |data| && r[..|data|] == Forward(model, data)
    ensures |r| == (|data| + batchSize - 1) / batchSize * |data|
  {
    var output := Forward(model, data);
    r := [];
    var start := 0;
    ghost var steps := 0;
    while start < |data|
      invariant start == steps * batchSize && steps >= 0
      invariant |r| == steps * |data|
      invariant steps > 0 ==> |r| >= |data| && r[..|data|] == output
      invariant steps == 0 || (steps - 1) * batchSize < |data|
      decreases |data| - start
    {
      StepMore(steps, batchSize, |data|);
      r := r + output;
      start, steps := start + batchSize, steps + 1;
    }
    StepCount(|data|, batchSize, steps);
    ok := start > 0;
  }

  lemma {:induction false} StepMore(steps: nat, batchSize: nat, size: nat)
    ensures (steps + 1) * batchSize == steps * batchSize + batchSize
    ensures (steps + 1) * size == steps * size + size
  {
  }

  lemma {:induction false} StepCount(size: nat, batchSize: nat, steps: nat)
    requires batchSize > 0 && steps * batchSize >= size
    requires steps == 0 || (steps - 1) * batchSize < size
    ensures (size + batchSize - 1) / batchSize == steps
  {
    var q := (size + batchSize - 1) / batchSize;
    var r := (size + batchSize - 1) % batchSize;
    assert q * batchSize + r == size + batchSize - 1;
    if steps > 0 { StepMore(steps - 1, batchSize, 0); }
    Between(q, steps, batchSize);
  }

  lemma {:induction false} Between(q: int, steps: int, b: nat)
    requires b > 0 && q * b - b < steps * b < q * b + b
    ensures q == steps
  {
    Difference(q, steps, b);
    Far(q - steps, b);
  }

  /** The encoding of one flow: the maximum over its windows. */
  function Encoding(model: bytes -> Vec, flow: Flow): Vec
    requires WellFormed(flow) && |flow.packets| >= 5 && forall i | 0 <= i < |Windows(flow)| :: |model(Windows(flow)[i])| == DIM
  {
    RowMax(Forward(model, Windows(flow)))
  }

  /** In every place the greatest of what the model makes of the flow's windows, and one of them. */
  lemma {:induction false} EncodingMeaning(model: bytes -> Vec, flow: Flow, j: nat)
    requires IsModel(model) && WellFormed(flow) && |flow.packets| >= 5 && j < DIM
    ensures forall k | 0 <= k < |Windows(flow)| :: model(Windows(flow)[k])[j] <= Encoding(model, flow)[j]
    ensures exists k | 0 <= k < |Windows(flow)| :: model(Windows(flow)[k])[j] == Encoding(model, flow)[j]
  {
    hide Windows, RowMax;
    var rows := Forward(model, Windows(flow));
    RowMaxMeaning(rows, j);
    var i :| 0 <= i < |rows| && rows[i][j] == RowMax(rows)[j];
    assert model(Windows(flow)[i])[j] == Encoding(model, flow)[j];
    forall k | 0 <= k < |Windows(flow)| ensures model(Windows(flow)[k])[j] <= Encoding(model, flow)[j] {
      assert rows[k][j] <= RowMax(rows)[j];
    }
  }

  ghost predicate Encodable(model: bytes -> Vec, flows: seq<Flow>) {
    IsModel(model) && AllWellFormed(flows) && AllHaveWindow(flows)
  }

  /** What every way of encoding must give: one row a flow, in the flow's place. */
  ghost function Encodings(model: bytes -> Vec, flows: seq<Flow>): (r: seq<Vec>)
    requires Encodable(model, flows)
    ensures |r| == |flows| && forall i | 0 <= i < |flows| :: r[i] == Encoding(model, flows[i])
  {
    seq(|flows|, i requires 0 <= i < |flows| => Encoding(model, flows[i]))
  }

  /** MergeFlow on the encodings of all windows, whatever follows them. There is no maximum over
      no rows. */
  method MergeFlow(model: bytes -> Vec, flows: seq<Flow>, encoded: seq<Vec>, index: seq<(nat, nat)>) returns (ok: bool, r: seq<Vec>)
    requires IsModel(model) && AllWellFormed(flows) && Indexed(flows, index)
    requires |encoded| >= |AllWindows(flows)| && encoded[..|AllWindows(flows)|] == Forward(model, AllWindows(flows))
    ensures ok <==> AllHaveWindow(flows)
    ensures ok ==> r == Encodings(model, flows)
  {
    hide AllWindows, Encoding, RowMax, Windows;
    ok, r := true, [];
    var i := 0;
    while i < |flows|
      invariant 0 <= i <= |flows| && |r| == i && ok && AllHaveWindow(flows[..i])
      invariant forall k | 0 <= k < i :: |flows[k].packets| >= 5 && r[k] == Encoding(model, flows[k])
    {
      SliceEncodings(model, flows, encoded, index, i);
      if index[i].0 == index[i].1 {
        return false, [];
      }
      r := r + [RowMax(encoded[index[i].0..index[i].1])];
      assert flows[..i + 1] == flows[..i] + [flows[i]];
      i := i + 1;
    }
    assert flows[..i] == flows;
    assert r == Encodings(model, flows);
  }

  lemma {:induction false} SliceEncodings(model: bytes -> Vec, flows: seq<Flow>, encoded: seq<Vec>, index: seq<(nat, nat)>, i: nat)
    requires IsModel(model) && AllWellFormed(flows) && Indexed(flows, index) && i < |flows|
    requires |encoded| >= |AllWindows(flows)| && encoded[..|AllWindows(flows)|] == Forward(model, AllWindows(flows))
    ensures index[i].0 <= index[i].1 <= |encoded|
    ensures index[i].0 < index[i].1 <==> |flows[i].packets| >= 5
    ensures encoded[index[i].0..index[i].1] == Forward(model, Windows(flows[i]))
    ensures |flows[i].packets| >= 5 ==> RowMax(Forward(model, Windows(flows[i]))) == Encoding(model, flows[i])
  {
    hide AllWindows;
    var all := AllWindows(flows);
    var lo, hi := index[i].0, index[i].1;
    assert |Windows(flows[i])| == hi - lo;
    forall k | 0 <= k < hi - lo ensures encoded[lo..hi][k] == model(Windows(flows[i])[k]) {
      assert encoded[lo + k] == encoded[..|all|][lo + k] == model(all[lo + k]);
      assert all[lo..hi][k] == all[lo + k];
    }
  }

  /** encode_flow_tensors. When one of the tensor operations fails the caller gets random numbers
      instead. */
  method EncodeFlowTensors(model: bytes -> Vec, flows: seq<Flow>, batchSize: nat) returns (ok: bool, r: seq<Vec>)
    requires IsModel(model) && AllWellFormed(flows) && batchSize > 0
    ensures ok <==> |flows| > 0 && forall i | 0 <= i < |flows| :: |flows[i].packets| >= 5
    ensures ok ==> r == Encodings(model, flows)
  {
    hide AllWindows, Windows, Encodings;
    r := [];
    var windows, index, encoded;
    ok, windows, index := BuildSlideWindow(flows);
    if !ok { return; }
    FirstWindow(flows, index);
    ok, encoded := BatchEncode(model, windows, batchSize);
    if !ok { return; }
    ok, r := MergeFlow(model, flows, encoded, index);
  }

  lemma {:induction false} FirstWindow(flows: seq<Flow>, index: seq<(nat, nat)>)
    requires AllWellFormed(flows) && Indexed(flows, index) && |flows| > 0 && |flows[0].packets| >= 5
    ensures |AllWindows(flows)| > 0
  {
    hide AllWindows;
    assert |Windows(flows[0])| > 0;
  }

  // ---- batches of flows and of messages -----------------------------------------------------------

  class Encoder {
    var numBlockedFlows: int

    /** EncodeFlowList: at once, or in batches; the result does not depend on it, and every
        flow is taken off the count of waiting ones. */
    method EncodeFlowList(model: bytes -> Vec, flows: seq<Flow>, maxEncodeBatch: nat) returns (r: seq<Vec>)
      requires Encodable(model, flows) && |flows| > 0 && maxEncodeBatch > 0
      modifies this
      ensures r == Encodings(model, flows)
      ensures numBlockedFlows == old(numBlockedFlows) - |flows|
    {
      if |flows| < maxEncodeBatch {
        numBlockedFlows := numBlockedFlows - |flows|;
        var ok;
        ok, r := EncodeFlowTensors(model, flows, 8192);
      } else {
        r := EncodeFlowConcurrently(model, flows, maxEncodeBatch);
      }
    }

    /** encode_flow_concurrently: the threads' results, in the order of their batches. */
    method EncodeFlowConcurrently(model: bytes -> Vec, flows: seq<Flow>, maxEncodeBatch: nat) returns (r: seq<Vec>)
      requires Encodable(model, flows) && |flows| > 0 && maxEncodeBatch > 0
      modifies this
      ensures r == Encodings(model, flows)
      ensures numBlockedFlows == old(numBlockedFlows) - |flows|
    {
      hide Encoding;
      var batchCount := (|flows| + maxEncodeBatch - 1) / maxEncodeBatch;
      CountCovers(|flows|, maxEncodeBatch);
      r := [];
      var batchIndex := 0;
      while batchIndex < batchCount
        invariant 0 <= batchIndex <= batchCount
        invariant |r| == Least(batchIndex * maxEncodeBatch, |flows|)
        invariant r == Encodings(model, flows)[..|r|]
        invariant numBlockedFlows == old(numBlockedFlows) - |r|
      {
        var first := batchIndex * maxEncodeBatch;
        BatchBounds(|flows|, maxEncodeBatch, batchIndex);
        var last := Least(first + maxEncodeBatch, |flows|);
        numBlockedFlows := numBlockedFlows - (last - first);
        var ok, feat := EncodeFlowTensors(model, flows[first..last], 8192);
        r := r + feat;
        batchIndex := batchIndex + 1;
      }
    }
  }

  function Least(a: int, b: int): int {
    if b < a then b else a
  }

  lemma {:induction false} CountCovers(size: nat, batch: nat)
    requires batch > 0
    ensures (size + batch - 1) / batch * batch >= size && (size + batch - 1) / batch >= 0
  {
    var q, r := (size + batch - 1) / batch, (size + batch - 1) % batch;
    assert q * batch + r == size + batch - 1;
  }

  /** Every batch but the last one is full. */
  lemma {:induction false} BatchBounds(size: nat, batch: nat, i: nat)
    requires batch > 0 && i < (size + batch - 1) / batch
    ensures 0 <= i * batch < size && (i + 1) * batch == i * batch + batch
  {
    var q, r := (size + batch - 1) / batch, (size + batch - 1) % batch;
    assert q * batch + r == size + batch - 1;
    assert (q - i - 1) * batch >= 0;
    assert (q - i - 1) * batch == q * batch - i * batch - batch;
  }

  /** One Kafka message: feature rows and the ids of their flows. */
  datatype Message = Message(feature: seq<Vec>, ids: seq<string>)

  function Features(messages: seq<Message>): seq<Vec> {
    if |messages| == 0 then [] else Features(messages[..|messages| - 1]) + messages[|messages| - 1].feature
  }

  function Ids(messages: seq<Message>): seq<string> {
    if |messages| == 0 then [] else Ids(messages[..|messages| - 1]) + messages[|messages| - 1].ids
  }

  lemma {:induction false} OneMore(messages: seq<Message>, m: Message)
    ensures Features(messages + [m]) == Features(messages) + m.feature && Ids(messages + [m]) == Ids(messages) + m.ids
  {
    assert (messages + [m])[..|messages|] == messages;
  }

  /** send_all_to_kafka: every row is sent once, with its own id, in full messages and one for the rest. */
  method SendAll(feature: seq<Vec>, ids: seq<string>, maxSendBatch: nat) returns (messages: seq<Message>)
    requires |feature| == |ids| && maxSendBatch > 0
    ensures Features(messages) == feature && Ids(messages) == ids
    ensures forall m | m in messages :: |m.feature| == |m.ids| <= maxSendBatch
    ensures |messages| > 0 && (forall i | 0 <= i < |messages| - 1 :: |messages[i].ids| == maxSendBatch)
    ensures |ids| > 0 ==> |messages[|messages| - 1].ids| > 0
  {
    hide Features, Ids;
    NoMessages();
    messages := [];
    if |ids| <= maxSendBatch {
      OneMore([], Message(feature, ids));
      assert [] + [Message(feature, ids)] == [Message(feature, ids)] && [] + feature == feature && [] + ids == ids;
      return [Message(feature, ids)];
    }
    var batchCount := (|ids| + maxSendBatch - 1) / maxSendBatch;
    CountCovers(|ids|, maxSendBatch);
    var i := 0;
    while i < batchCount
      invariant 0 <= i <= batchCount && |messages| == i
      invariant forall k | 0 <= k < i :: Filled(messages[k], maxSendBatch, k + 1 < batchCount)
      invariant Features(messages) == feature[..Least(i * maxSendBatch, |ids|)]
      invariant Ids(messages) == ids[..Least(i * maxSendBatch, |ids|)]
    {
      var offset := i * maxSendBatch;
      BatchBounds(|ids|, maxSendBatch, i);
      if i + 1 < batchCount { BatchBounds(|ids|, maxSendBatch, i + 1); }
      var currBatch := Least(maxSendBatch, |ids| - offset);
      var m := Message(feature[offset..offset + currBatch], ids[offset..offset + currBatch]);
      OneMore(messages, m);
      assert feature[..offset + currBatch] == feature[..offset] + m.feature;
      assert ids[..offset + currBatch] == ids[..offset] + m.ids;
      messages := messages + [m];
      i := i + 1;
    }
  }

  /** As many ids as rows, some but not too many, and in all but the last message as many as fit. */
  predicate Filled(m: Message, max: nat, full: bool) {
    |m.feature| == |m.ids| && 0 < |m.ids| <= max && (full ==> |m.ids| == max)
  }

  lemma {:induction false} NoMessages()
    ensures Features([]) == [] && Ids([]) == []
  {
  }
}
