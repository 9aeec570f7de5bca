/** From a logic-analyser capture to SPI transactions (captures/sensor_1855_dasm.py:113-158), and back:
    what any capture decodes to, and the waveforms that carry a given list of transactions. */
module SpiCapture {

  /** One row of the capture: a time stamp and the four levels. */
  datatype Sample = Sample(ts: real, sck: bool, mosi: bool, miso: bool, cs: bool)

  /** A bit taken at a rising clock edge. */
  datatype Bit = Bit(ts: real, mosi: bool, miso: bool)

  datatype Entry = Entry(ts: real, mosi: bv8, miso: bv8)

  /** The last levels seen, the open transaction's bits, and the finished transactions. */
  datatype State = State(sck: bool, mosi: bool, miso: bool, cs: bool, inTx: bool, bits: seq<Bit>, txs: seq<seq<Entry>>)

  const START: State := State(true, false, false, true, false, [], [])

  // ---------------------------------------------------------------- bytes

  function ShiftIn(b: bv8, bit: bool): bv8 { (b << 1) | (if bit then 1 else 0) }

  /** Bits to a byte, the first one ending up highest. */
  function Pack(m: seq<bool>): bv8 { if m == [] then 0 else ShiftIn(Pack(m[..|m| - 1]), m[|m| - 1]) }

  function MosiBits(bits: seq<Bit>): (m: seq<bool>)
    ensures |m| == |bits|
  {
    seq(|bits|, i requires 0 <= i < |bits| => bits[i].mosi)
  }

  function MisoBits(bits: seq<Bit>): (m: seq<bool>)
    ensures |m| == |bits|
  {
    seq(|bits|, i requires 0 <= i < |bits| => bits[i].miso)
  }

  lemma PackNext(m: seq<bool>, bit: bool)
    ensures Pack(m + [bit]) == ShiftIn(Pack(m), bit)
  {
    assert (m + [bit])[..|m|] == m;
  }

  lemma PackGrows(bits: seq<Bit>, i: nat, j: nat)
    requires i + j < |bits|
    ensures Pack(MosiBits(bits[i..i + j + 1])) == ShiftIn(Pack(MosiBits(bits[i..i + j])), bits[i + j].mosi)
    ensures Pack(MisoBits(bits[i..i + j + 1])) == ShiftIn(Pack(MisoBits(bits[i..i + j])), bits[i + j].miso)
  {
    assert MosiBits(bits[i..i + j + 1]) == MosiBits(bits[i..i + j]) + [bits[i + j].mosi];
    assert MisoBits(bits[i..i + j + 1]) == MisoBits(bits[i..i + j]) + [bits[i + j].miso];
    PackNext(MosiBits(bits[i..i + j]), bits[i + j].mosi);
    PackNext(MisoBits(bits[i..i + j]), bits[i + j].miso);
  }

  /** Whole bytes, most significant bit first, stamped with their first bit's time; a remainder of fewer
      than eight bits is dropped. */
  function Bytes(bits: seq<Bit>): seq<Entry>
    decreases |bits|
  {
    if |bits| < 8 then []
    else [Entry(bits[0].ts, Pack(MosiBits(bits[..8])), Pack(MisoBits(bits[..8])))] + Bytes(bits[8..])
  }

  /** One entry for every eight bits, stamped with the time of its first bit. */
  lemma {:induction false} BytesStamped(bits: seq<Bit>)
    ensures |Bytes(bits)| == |bits| / 8
    ensures forall k | 0 <= k < |bits| / 8 :: Bytes(bits)[k].ts == bits[8 * k].ts
    decreases |bits|
  {
    if |bits| >= 8 {
      BytesStamped(bits[8..]);
      forall k | 0 <= k < |bits| / 8 ensures Bytes(bits)[k].ts == bits[8 * k].ts {
        if k > 0 { assert Bytes(bits)[k] == Bytes(bits[8..])[k - 1] && bits[8..][8 * (k - 1)] == bits[8 * k]; }
      }
    }
  }

  function Append(txs: seq<seq<Entry>>, tx: seq<Entry>): seq<seq<Entry>> { if tx == [] then txs else txs + [tx] }

  // ---------------------------------------------------------------- the walk

  function Step(st: State, s: Sample): State {
    var begun := if !s.cs && st.cs then st.(bits := [], inTx := true) else st;
    var closed := if s.cs && !st.cs && begun.inTx
                  then begun.(txs := Append(begun.txs, Bytes(begun.bits)), bits := [], inTx := false)
                  else begun;
    var taken := if s.sck && !st.sck && !s.cs && closed.inTx
                 then closed.(bits := closed.bits + [Bit(s.ts, st.mosi, st.miso)])
                 else closed;
    taken.(sck := s.sck, mosi := s.mosi, miso := s.miso, cs := s.cs)
  }

  function Walk(st: State, samples: seq<Sample>): State
    decreases |samples|
  {
    if samples == [] then st else Walk(Step(st, samples[0]), samples[1..])
  }

  function Close(st: State): seq<seq<Entry>> { if st.inTx then Append(st.txs, Bytes(st.bits)) else st.txs }

  function Extract(samples: seq<Sample>): seq<seq<Entry>> { Close(Walk(START, samples)) }

  /** flush(): group the collected bits into bytes. */
  method Flush(bits: seq<Bit>) returns (out: seq<Entry>)
    ensures out == Bytes(bits)
  {
    out := [];
    var n := |bits| - |bits| % 8;
    var i := 0;
    while i < n
      invariant 0 <= i <= n && i % 8 == 0
      invariant out + Bytes(bits[i..]) == Bytes(bits)
    {
      var entry := NextEntry(bits, i);
      BytesNext(bits, i, out);
      out := out + [entry];
      i := i + 8;
    }
  }

  method NextEntry(bits: seq<Bit>, i: nat) returns (e: Entry)
    requires i + 8 <= |bits|
    ensures e == EntryAt(bits, i)
  {
    var bm, br := PackByte(bits, i);
    e := Entry(bits[i].ts, bm, br);
  }

  function EntryAt(bits: seq<Bit>, i: nat): Entry
    requires i + 8 <= |bits|
  {
    Entry(bits[i].ts, Pack(MosiBits(bits[i..i + 8])), Pack(MisoBits(bits[i..i + 8])))
  }

  lemma BytesNext(bits: seq<Bit>, i: nat, out: seq<Entry>)
    requires i + 8 <= |bits|
    ensures (out + [EntryAt(bits, i)]) + Bytes(bits[i + 8..]) == out + Bytes(bits[i..])
  {
    var rest := bits[i..];
    assert rest[..8] == bits[i..i + 8] && rest[8..] == bits[i + 8..] && rest[0] == bits[i];
    BytesFirst(rest);
  }

  lemma BytesFirst(bits: seq<Bit>)
    requires |bits| >= 8
    ensures Bytes(bits) ==
            [Entry(bits[0].ts, Pack(MosiBits(bits[..8])), Pack(MisoBits(bits[..8])))] + Bytes(bits[8..])
  {
  }

  method PackByte(bits: seq<Bit>, i: nat) returns (bm: bv8, br: bv8)
    requires i + 8 <= |bits|
    ensures bm == Pack(MosiBits(bits[i..i + 8])) && br == Pack(MisoBits(bits[i..i + 8]))
  {
    bm, br := 0, 0;
    for j := 0 to 8
      invariant bm == Pack(MosiBits(bits[i..i + j])) && br == Pack(MisoBits(bits[i..i + j]))
    {
      PackGrows(bits, i, j);
      bm, br := ShiftIn(bm, bits[i + j].mosi), ShiftIn(br, bits[i + j].miso);
    }
  }

  /** extract_tx_by_cs. */
  method ExtractTxByCs(samples: seq<Sample>) returns (txs: seq<seq<Entry>>)
    ensures txs == Extract(samples)
  {
    var sck, mosi, miso, cs := true, false, false, true;
    var cur: seq<Bit> := [];
    var inTx := false;
    txs := [];
    for k := 0 to |samples|
      invariant Walk(State(sck, mosi, miso, cs, inTx, cur, txs), samples[k..]) == Walk(START, samples)
    {
      var s := samples[k];
      ghost var before := State(sck, mosi, miso, cs, inTx, cur, txs);
      assert samples[k..][0] == s && samples[k..][1..] == samples[k + 1..];
      if !s.cs && cs {
        cur, inTx := [], true;
      }
      if s.cs && !cs && inTx {
        var tx := Flush(cur);
        cur := [];
        if tx != [] { txs := txs + [tx]; }
        inTx := false;
      }
      if s.sck && !sck && !s.cs && inTx {
        cur := cur + [Bit(s.ts, mosi, miso)];
      }
      sck, mosi, miso, cs := s.sck, s.mosi, s.miso, s.cs;
      assert State(sck, mosi, miso, cs, inTx, cur, txs) == Step(before, s);
    }
    if inTx {
      var tx := Flush(cur);
      if tx != [] { txs := txs + [tx]; }
    }
  }

  // ---------------------------------------------------------------- repeated samples

  /** Each sample followed by any number of copies of its levels, at any later or earlier times. */
  function Stutter(samples: seq<Sample>, again: seq<seq<real>>): seq<Sample>
    requires |again| == |samples|
    decreases |samples|
  {
    if samples == [] then []
    else [samples[0]] + Copies(samples[0], again[0]) + Stutter(samples[1..], again[1..])
  }

  function Copies(s: Sample, times: seq<real>): seq<Sample> {
    if times == [] then [] else [s.(ts := times[0])] + Copies(s, times[1..])
  }

  lemma {:induction false} WalkConcat(st: State, a: seq<Sample>, b: seq<Sample>)
    ensures Walk(st, a + b) == Walk(Walk(st, a), b)
    decreases |a|
  {
    if a == [] {
      assert a + b == b;
    } else {
      assert (a + b)[1..] == a[1..] + b;
      WalkConcat(Step(st, a[0]), a[1..], b);
    }
  }

  lemma {:induction false} CopiesIgnored(st: State, s: Sample, times: seq<real>)
    ensures Walk(Step(st, s), Copies(s, times)) == Step(st, s)
    decreases |times|
  {
    if times != [] {
      var c := s.(ts := times[0]);
      assert Step(Step(st, s), c) == Step(st, s);
      assert Copies(s, times)[1..] == Copies(s, times[1..]);
      CopiesIgnored(st, s, times[1..]);
    }
  }

  lemma {:induction false} WalkStutter(st: State, samples: seq<Sample>, again: seq<seq<real>>)
    requires |again| == |samples|
    ensures Walk(st, Stutter(samples, again)) == Walk(st, samples)
    decreases |samples|
  {
    if samples != [] {
      var s, rest := samples[0], Stutter(samples[1..], again[1..]);
      WalkConcat(st, [s] + Copies(s, again[0]), rest);
      WalkConcat(st, [s], Copies(s, again[0]));
      assert Walk(st, [s]) == Step(st, s);
      CopiesIgnored(st, s, again[0]);
      WalkStutter(Step(st, s), samples[1..], again[1..]);
    }
  }

  /** Edge-compressed and per-sample captures of the same signal decode alike. */
  lemma StutterIgnored(samples: seq<Sample>, again: seq<seq<real>>)
    requires |again| == |samples|
    ensures Extract(Stutter(samples, again)) == Extract(samples)
  {
    WalkStutter(START, samples, again);
  }

  // ---------------------------------------------------------------- frames

  /** Rows with CS high, then rows with CS low. */
  datatype Frame = Frame(idle: seq<Sample>, low: seq<Sample>)

  /** The levels taken to precede the first row. */
  const REST: Sample := Sample(0.0, true, false, false, true)

  predicate AllCs(samples: seq<Sample>, level: bool) { forall s | s in samples :: s.cs == level }

  predicate GoodFrame(f: Frame) { AllCs(f.idle, true) && AllCs(f.low, false) && f.low != [] }

  /** A capture cut wherever CS changes. Only the first frame may begin with CS already low; without a tail
      the capture ends inside the last frame. */
  predicate Framed(frames: seq<Frame>, tail: seq<Sample>) {
    AllCs(tail, true) && forall i | 0 <= i < |frames| :: GoodFrame(frames[i]) && (i > 0 ==> frames[i].idle != [])
  }

  function Flat(frames: seq<Frame>): seq<Sample>
    decreases |frames|
  {
    if frames == [] then []
    else Flat(frames[..|frames| - 1]) + frames[|frames| - 1].idle + frames[|frames| - 1].low
  }

  function Capture(frames: seq<Frame>, tail: seq<Sample>): seq<Sample> { Flat(frames) + tail }

  /** The row before row i. */
  function Before(prev: Sample, low: seq<Sample>, i: nat): Sample
    requires i < |low|
  {
    if i == 0 then prev else low[i - 1]
  }

  predicate RisesAt(prev: Sample, low: seq<Sample>, i: nat)
    requires i < |low|
  {
    low[i].sck && !Before(prev, low, i).sck
  }

  /** The data levels just before the clock rose, stamped with the time of the rise. */
  function BitAt(prev: Sample, low: seq<Sample>, i: nat): Bit
    requires i < |low|
  {
    Bit(low[i].ts, Before(prev, low, i).mosi, Before(prev, low, i).miso)
  }

  function EdgeBits(prev: Sample, low: seq<Sample>): seq<Bit>
    decreases |low|
  {
    if low == [] then []
    else
      var n := |low| - 1;
      EdgeBits(prev, low[..n]) + if RisesAt(prev, low, n) then [BitAt(prev, low, n)] else []
  }

  function Preceding(f: Frame): Sample { if f.idle == [] then REST else f.idle[|f.idle| - 1] }

  function FrameBits(f: Frame): seq<Bit> { EdgeBits(Preceding(f), f.low) }

  /** The whole bytes of every frame that has at least one. */
  function Transactions(frames: seq<Frame>): seq<seq<Entry>>
    decreases |frames|
  {
    if frames == [] then []
    else Append(Transactions(frames[..|frames| - 1]), Bytes(FrameBits(frames[|frames| - 1])))
  }

  /** Every capture is made of frames. */
  lemma {:induction false} EveryCaptureIsFramed(samples: seq<Sample>) returns (frames: seq<Frame>, tail: seq<Sample>)
    ensures Framed(frames, tail) && Capture(frames, tail) == samples
    decreases |samples|
  {
    if samples == [] {
      frames, tail := [], [];
    } else {
      var n := |samples| - 1;
      var before, rest := EveryCaptureIsFramed(samples[..n]);
      frames, tail := AddRow(before, rest, samples[n]);
      assert samples == samples[..n] + [samples[n]];
    }
  }

  lemma AddRow(frames: seq<Frame>, tail: seq<Sample>, s: Sample) returns (frames': seq<Frame>, tail': seq<Sample>)
    requires Framed(frames, tail)
    ensures Framed(frames', tail') && Capture(frames', tail') == Capture(frames, tail) + [s]
  {
    if s.cs {
      frames', tail' := frames, tail + [s];
    } else if tail == [] && frames != [] {
      var n := |frames| - 1;
      frames', tail' := frames[n := Frame(frames[n].idle, frames[n].low + [s])], [];
      assert frames'[..n] == frames[..n];
    } else {
      frames', tail' := frames + [Frame(tail, [s])], [];
      assert frames'[..|frames|] == frames;
    }
  }

  // ---------------------------------------------------------------- frames decoded

  /** Between rows a transaction is open exactly while CS is low. */
  predicate InStep(st: State) { st.inTx == !st.cs && (st.cs ==> st.bits == []) }

  function Levels(st: State): Sample { Sample(0.0, st.sck, st.mosi, st.miso, st.cs) }

  predicate Shows(st: State, s: Sample) { st.sck == s.sck && st.mosi == s.mosi && st.miso == s.miso && st.cs == s.cs }

  lemma WalkLast(st: State, a: seq<Sample>)
    requires a != []
    ensures Walk(st, a) == Step(Walk(st, a[..|a| - 1]), a[|a| - 1])
  {
    var n := |a| - 1;
    WalkConcat(st, a[..n], [a[n]]);
    assert a == a[..n] + [a[n]];
    assert [a[n]][1..] == [];
  }

  /** With CS high the open transaction, if any, is closed and nothing else is taken. */
  lemma {:induction false} IdleCloses(st: State, idle: seq<Sample>)
    requires InStep(st) && idle != [] && AllCs(idle, true)
    ensures var r := Walk(st, idle);
            InStep(r) && r.cs && r.txs == Close(st) && Shows(r, idle[|idle| - 1])
    decreases |idle|
  {
    var n := |idle| - 1;
    WalkLast(st, idle);
    assert idle[n] in idle;
    if n > 0 { IdleCloses(st, idle[..n]); }
  }

  /** With CS low every rising clock edge takes the data levels before it. */
  lemma {:induction false} LowTakes(st: State, low: seq<Sample>)
    requires InStep(st) && st.cs && low != [] && AllCs(low, false)
    ensures var r := Walk(st, low);
            InStep(r) && !r.cs && r.txs == st.txs && r.bits == EdgeBits(Levels(st), low) && Shows(r, low[|low| - 1])
    decreases |low|
  {
    var n := |low| - 1;
    WalkLast(st, low);
    assert low[n] in low;
    if n > 0 { LowTakes(st, low[..n]); }
  }

  lemma {:induction false} SameLevels(p: Sample, q: Sample, low: seq<Sample>)
    requires p.sck == q.sck && p.mosi == q.mosi && p.miso == q.miso
    ensures EdgeBits(p, low) == EdgeBits(q, low)
    decreases |low|
  {
    if low != [] { SameLevels(p, q, low[..|low| - 1]); }
  }

  lemma FrameDecoded(st: State, f: Frame)
    requires InStep(st) && GoodFrame(f) && (f.idle == [] ==> st == START)
    ensures var r := Walk(st, f.idle + f.low); InStep(r) && !r.cs && Close(r) == Append(Close(st), Bytes(FrameBits(f)))
  {
    var mid := Walk(st, f.idle);
    WalkConcat(st, f.idle, f.low);
    if f.idle != [] { IdleCloses(st, f.idle); }
    LowTakes(mid, f.low);
    SameLevels(Levels(mid), Preceding(f), f.low);
  }

  lemma {:induction false} FramesDecoded(frames: seq<Frame>)
    requires Framed(frames, [])
    ensures var r := Walk(START, Flat(frames)); InStep(r) && Close(r) == Transactions(frames)
    decreases |frames|
  {
    if frames != [] {
      var n := |frames| - 1;
      FramesDecoded(frames[..n]);
      FrameDecoded(Walk(START, Flat(frames[..n])), frames[n]);
      WalkConcat(START, Flat(frames[..n]), frames[n].idle + frames[n].low);
      assert Flat(frames) == Flat(frames[..n]) + (frames[n].idle + frames[n].low);
    }
  }

  /** Framing: a capture, and every capture is one of these, decodes to the whole bytes taken at the rising
      clock edges of each stretch with CS low, in order, whether or not the last stretch was closed; bits
      short of a byte, and stretches without a whole byte, are dropped. */
  lemma FramingDecoded(frames: seq<Frame>, tail: seq<Sample>)
    requires Framed(frames, tail)
    ensures Extract(Capture(frames, tail)) == Transactions(frames)
  {
    var st := Walk(START, Flat(frames));
    FramesDecoded(frames);
    WalkConcat(START, Flat(frames), tail);
    if tail != [] { IdleCloses(st, tail); }
  }

  // ---------------------------------------------------------------- byte transactions

  /** A byte each way. */
  datatype Pair = Pair(mosi: bv8, miso: bv8)

  function MsbBits(b: bv8): (s: seq<bool>)
    ensures |s| == 8
  {
    [b & 0x80 != 0, b & 0x40 != 0, b & 0x20 != 0, b & 0x10 != 0,
     b & 0x08 != 0, b & 0x04 != 0, b & 0x02 != 0, b & 0x01 != 0]
  }

  /** These bits are the bytes, most significant bit first, and then fewer than eight more. */
  predicate Spell(bits: seq<Bit>, tx: seq<Pair>) {
    8 * |tx| <= |bits| < 8 * |tx| + 8 &&
    forall k, j | 0 <= k < |tx| && 0 <= j < 8 ::
      bits[8 * k + j].mosi == MsbBits(tx[k].mosi)[j] && bits[8 * k + j].miso == MsbBits(tx[k].miso)[j]
  }

  function Values(tx: seq<Entry>): (r: seq<Pair>)
    ensures |r| == |tx|
  {
    seq(|tx|, i requires 0 <= i < |tx| => Pair(tx[i].mosi, tx[i].miso))
  }

  function AllValues(txs: seq<seq<Entry>>): (r: seq<seq<Pair>>)
    ensures |r| == |txs|
  {
    seq(|txs|, i requires 0 <= i < |txs| => Values(txs[i]))
  }

  function Join(m: seq<bool>): bv8
    requires |m| == 8
  {
    ShiftIn(ShiftIn(ShiftIn(ShiftIn(ShiftIn(ShiftIn(ShiftIn(ShiftIn(0,
      m[0]), m[1]), m[2]), m[3]), m[4]), m[5]), m[6]), m[7])
  }

  lemma PackEight(m: seq<bool>)
    requires |m| == 8
    ensures Pack(m) == Join(m)
  {
    assert m[..8] == m && m[..8][..7] == m[..7] && m[..7][..6] == m[..6] && m[..6][..5] == m[..5];
    assert m[..5][..4] == m[..4] && m[..4][..3] == m[..3] && m[..3][..2] == m[..2] && m[..2][..1] == m[..1];
    assert m[..1][..0] == [];
    assert Pack(m[..1]) == ShiftIn(0, m[0]);
    assert Pack(m[..2]) == ShiftIn(Pack(m[..1]), m[1]);
    assert Pack(m[..3]) == ShiftIn(Pack(m[..2]), m[2]);
    assert Pack(m[..4]) == ShiftIn(Pack(m[..3]), m[3]);
    assert Pack(m[..5]) == ShiftIn(Pack(m[..4]), m[4]);
    assert Pack(m[..6]) == ShiftIn(Pack(m[..5]), m[5]);
    assert Pack(m[..7]) == ShiftIn(Pack(m[..6]), m[6]);
  }

  lemma JoinMsb(b: bv8)
    ensures Join(MsbBits(b)) == b
  {
  }

  lemma PackMsb(b: bv8)
    ensures Pack(MsbBits(b)) == b
  {
    PackEight(MsbBits(b));
    JoinMsb(b);
  }

  lemma FirstByte(bits: seq<Bit>, tx: seq<Pair>)
    requires Spell(bits, tx) && tx != []
    ensures Pack(MosiBits(bits[..8])) == tx[0].mosi && Pack(MisoBits(bits[..8])) == tx[0].miso
  {
    var first := bits[..8];
    forall j | 0 <= j < 8
      ensures MosiBits(first)[j] == MsbBits(tx[0].mosi)[j] && MisoBits(first)[j] == MsbBits(tx[0].miso)[j]
    {
      assert bits[8 * 0 + j] == bits[j];
    }
    assert MosiBits(first) == MsbBits(tx[0].mosi);
    assert MisoBits(first) == MsbBits(tx[0].miso);
    PackMsb(tx[0].mosi);
    PackMsb(tx[0].miso);
  }

  lemma SpellRest(bits: seq<Bit>, tx: seq<Pair>)
    requires Spell(bits, tx) && tx != []
    ensures Spell(bits[8..], tx[1..])
  {
    var rest := bits[8..];
    forall k, j | 0 <= k < |tx| - 1 && 0 <= j < 8
      ensures rest[8 * k + j].mosi == MsbBits(tx[1..][k].mosi)[j] && rest[8 * k + j].miso == MsbBits(tx[1..][k].miso)[j]
    {
      assert rest[8 * k + j] == bits[8 * (k + 1) + j];
    }
  }

  lemma ValuesCons(e: Entry, tx: seq<Entry>)
    ensures Values([e] + tx) == [Pair(e.mosi, e.miso)] + Values(tx)
  {
  }

  /** The bytes come back; the bits after the last whole byte do not. */
  lemma {:induction false} BytesComeBack(bits: seq<Bit>, tx: seq<Pair>)
    requires Spell(bits, tx)
    ensures Values(Bytes(bits)) == tx
    decreases |tx|
  {
    if tx != [] {
      FirstByte(bits, tx);
      SpellRest(bits, tx);
      BytesComeBack(bits[8..], tx[1..]);
      BytesFirst(bits);
      ValuesCons(Entry(bits[0].ts, tx[0].mosi, tx[0].miso), Bytes(bits[8..]));
    }
  }

  // ---------------------------------------------------------------- waveforms

  /** The rows of low at which the clock rises, in order. */
  predicate AreEdges(prev: Sample, low: seq<Sample>, edges: seq<nat>) {
    (forall k, l | 0 <= k < l < |edges| :: edges[k] < edges[l]) &&
    (forall k | 0 <= k < |edges| :: edges[k] < |low|) &&
    (forall i | 0 <= i < |low| :: RisesAt(prev, low, i) <==> i in edges)
  }

  /** The frame's rising edges find these bytes on the data lines, most significant bit first, and then fewer
      than eight bits more. What the lines do between the edges, and how often they are sampled, is free. */
  predicate Carries(f: Frame, edges: seq<nat>, tx: seq<Pair>) {
    AreEdges(Preceding(f), f.low, edges) && 8 * |tx| <= |edges| < 8 * |tx| + 8 &&
    forall k, j | 0 <= k < |tx| && 0 <= j < 8 ::
      var before := Before(Preceding(f), f.low, edges[8 * k + j]);
      before.mosi == MsbBits(tx[k].mosi)[j] && before.miso == MsbBits(tx[k].miso)[j]
  }

  function BitsAt(prev: Sample, low: seq<Sample>, edges: seq<nat>): (bits: seq<Bit>)
    requires forall k | 0 <= k < |edges| :: edges[k] < |low|
    ensures |bits| == |edges|
  {
    seq(|edges|, k requires 0 <= k < |edges| => BitAt(prev, low, edges[k]))
  }

  lemma {:induction false} EdgesTaken(prev: Sample, low: seq<Sample>, edges: seq<nat>)
    requires AreEdges(prev, low, edges)
    ensures EdgeBits(prev, low) == BitsAt(prev, low, edges)
    decreases |low|
  {
    if low != [] {
      var n := |low| - 1;
      var front, rest := low[..n], if RisesAt(prev, low, n) then edges[..|edges| - 1] else edges;
      EdgesSplit(prev, low, edges);
      EdgesTaken(prev, front, rest);
      assert BitsAt(prev, front, rest) == BitsAt(prev, low, rest);
    }
  }

  lemma EdgesSplit(prev: Sample, low: seq<Sample>, edges: seq<nat>)
    requires AreEdges(prev, low, edges) && low != []
    ensures var n := |low| - 1;
            if RisesAt(prev, low, n) then
              edges != [] && edges[|edges| - 1] == n && AreEdges(prev, low[..n], edges[..|edges| - 1])
            else AreEdges(prev, low[..n], edges)
  {
    var n, m := |low| - 1, |edges| - 1;
    var front := low[..n];
    assert forall i | 0 <= i < n :: RisesAt(prev, front, i) == RisesAt(prev, low, i);
    if RisesAt(prev, low, n) {
      assert n in edges;
      assert edges[m] == n;
      forall i | 0 <= i < n ensures i in edges <==> i in edges[..m] {
        if i in edges {
          var k :| 0 <= k <= m && edges[k] == i;
          assert edges[..m][k] == i;
        }
      }
    }
  }

  predicate Reads(f: Frame, tx: seq<Pair>) { tx != [] && Values(Bytes(FrameBits(f))) == tx }

  lemma FrameReads(f: Frame, edges: seq<nat>, tx: seq<Pair>)
    requires tx != [] && Carries(f, edges, tx)
    ensures Reads(f, tx)
  {
    EdgesTaken(Preceding(f), f.low, edges);
    BytesComeBack(FrameBits(f), tx);
  }

  lemma {:induction false} TransactionsComeBack(frames: seq<Frame>, txs: seq<seq<Pair>>)
    requires |frames| == |txs| && forall i | 0 <= i < |txs| :: Reads(frames[i], txs[i])
    ensures AllValues(Transactions(frames)) == txs
    decreases |frames|
  {
    if frames != [] {
      var n := |frames| - 1;
      var tx, front := Bytes(FrameBits(frames[n])), Transactions(frames[..n]);
      TransactionsComeBack(frames[..n], txs[..n]);
      assert Reads(frames[n], txs[n]);
      assert Transactions(frames) == front + [tx];
      assert AllValues(Transactions(frames)) == AllValues(front) + [Values(tx)];
    }
  }

  /** Round trip: however non-empty byte transactions are put on the wires under CS, as long as the levels
      before the rising edges are their bits, the capture decodes to exactly those transactions - sampled
      at every edge or periodically, with any noise while CS is high, the last one closed or not. */
  lemma CaptureRoundTrip(frames: seq<Frame>, tail: seq<Sample>, edges: seq<seq<nat>>, txs: seq<seq<Pair>>)
    requires Framed(frames, tail) && |frames| == |edges| == |txs|
    requires forall i | 0 <= i < |txs| :: txs[i] != [] && Carries(frames[i], edges[i], txs[i])
    ensures AllValues(Extract(Capture(frames, tail))) == txs
  {
    FramingDecoded(frames, tail);
    forall i | 0 <= i < |txs| ensures Reads(frames[i], txs[i]) { FrameReads(frames[i], edges[i], txs[i]); }
    TransactionsComeBack(frames, txs);
  }

  // ---------------------------------------------------------------- the plain mode-3 waveform

  /** The two data levels of one bit. */
  datatype Wire = Wire(mosi: bool, miso: bool)

  /** CS falls with the clock high; then each bit is set up at a falling edge and held over the rising one. */
  function RowOf(bits: seq<Wire>, i: nat): Sample
    requires i <= 2 * |bits|
  {
    if i == 0 then Sample(0.0, true, false, false, false)
    else Sample(i as real, i % 2 == 0, bits[(i - 1) / 2].mosi, bits[(i - 1) / 2].miso, false)
  }

  function Clocked(bits: seq<Wire>): (f: Frame)
    ensures |f.low| == 2 * |bits| + 1 && f.idle == [REST] && GoodFrame(f)
    ensures forall i | 0 <= i < |f.low| :: f.low[i] == RowOf(bits, i)
  {
    Frame([REST], seq(2 * |bits| + 1, i requires 0 <= i < 2 * |bits| + 1 => RowOf(bits, i)))
  }

  function Rises(n: nat): (edges: seq<nat>)
    ensures |edges| == n && forall b | 0 <= b < n :: edges[b] == 2 * b + 2
  {
    seq(n, b => 2 * b + 2)
  }

  lemma ClockedEdges(bits: seq<Wire>)
    ensures AreEdges(REST, Clocked(bits).low, Rises(|bits|))
  {
    var low, edges := Clocked(bits).low, Rises(|bits|);
    forall i | 0 <= i < |low| ensures RisesAt(REST, low, i) <==> i in edges {
      RowRises(bits, i);
      if i > 0 && i % 2 == 0 { assert edges[i / 2 - 1] == i; }
    }
  }

  lemma RowRises(bits: seq<Wire>, i: nat)
    requires i <= 2 * |bits|
    ensures RisesAt(REST, Clocked(bits).low, i) <==> i > 0 && i % 2 == 0
  {
    if i > 0 { assert Clocked(bits).low[i - 1] == RowOf(bits, i - 1); }
  }

  lemma BitBeforeEdge(bits: seq<Wire>, b: nat)
    requires b < |bits|
    ensures var before := Before(REST, Clocked(bits).low, Rises(|bits|)[b]);
            before.mosi == bits[b].mosi && before.miso == bits[b].miso
  {
    assert Clocked(bits).low[2 * b + 1] == RowOf(bits, 2 * b + 1);
  }

  function WireAt(tx: seq<Pair>, k: nat, j: nat): Wire
    requires k < |tx| && j < 8
  {
    Wire(MsbBits(tx[k].mosi)[j], MsbBits(tx[k].miso)[j])
  }

  function WireOf(tx: seq<Pair>): (bits: seq<Wire>)
    ensures |bits| == 8 * |tx|
  {
    seq(8 * |tx|, b requires 0 <= b < 8 * |tx| => WireAt(tx, b / 8, b % 8))
  }

  lemma ClockedCarries(tx: seq<Pair>)
    ensures Carries(Clocked(WireOf(tx)), Rises(8 * |tx|), tx)
  {
    ClockedEdges(WireOf(tx));
    forall k, j | 0 <= k < |tx| && 0 <= j < 8
      ensures var before := Before(REST, Clocked(WireOf(tx)).low, Rises(8 * |tx|)[8 * k + j]);
              before.mosi == MsbBits(tx[k].mosi)[j] && before.miso == MsbBits(tx[k].miso)[j]
    {
      ClockedBit(tx, k, j);
    }
  }

  lemma ClockedBit(tx: seq<Pair>, k: nat, j: nat)
    requires k < |tx| && j < 8
    ensures var before := Before(REST, Clocked(WireOf(tx)).low, Rises(8 * |tx|)[8 * k + j]);
            before.mosi == WireAt(tx, k, j).mosi && before.miso == WireAt(tx, k, j).miso
  {
    BitBeforeEdge(WireOf(tx), 8 * k + j);
    assert (8 * k + j) / 8 == k && (8 * k + j) % 8 == j;
  }

  function AllClocked(txs: seq<seq<Pair>>): (frames: seq<Frame>)
    ensures |frames| == |txs|
  {
    seq(|txs|, i requires 0 <= i < |txs| => Clocked(WireOf(txs[i])))
  }

  /** Every list of non-empty transactions has such a waveform, and is read back from it. */
  lemma EveryListReadsBack(txs: seq<seq<Pair>>)
    requires [] !in txs
    ensures AllValues(Extract(Capture(AllClocked(txs), []))) == txs
  {
    var edges := seq(|txs|, i requires 0 <= i < |txs| => Rises(8 * |txs[i]|));
    forall i | 0 <= i < |txs| ensures txs[i] != [] && Carries(AllClocked(txs)[i], edges[i], txs[i]) {
      ClockedCarries(txs[i]);
    }
    CaptureRoundTrip(AllClocked(txs), [], edges, txs);
  }
}
