/** The monolithic init transaction of a capture (captures/sensor_1855_dasm.py:214-245, 297-355): the
    SROM upload and readback walks and the split into five phases. */
module InitTransaction {
  import opened Disassembler

  const PREAMBLE: nat := 12

  // ---------------------------------------------------------------- the upload walk

  predicate PairAt(m: Bytes, i: nat) { i + 3 < |m| && m[i] == WR_DATA_L && m[i + 2] == WR_DATA_H }

  /** The data bytes of the register-write pairs from i on, and where the pairs end. */
  function Upload(m: Bytes, i: nat): (r: (Bytes, nat))
    requires i <= |m|
    ensures i <= r.1 <= |m|
    decreases |m| - i
  {
    if PairAt(m, i) then
      var rest := Upload(m, i + 4);
      ([m[i + 1], m[i + 3]] + rest.0, rest.1)
    else ([], i)
  }

  /** walk_srom_upload. */
  method WalkSromUpload(m: Bytes, start: nat) returns (up: Bytes, end: nat)
    requires start <= |m|
    ensures up == Upload(m, start).0 && end == Upload(m, start).1
  {
    up := [];
    var i := start;
    while i + 3 < |m|
      invariant start <= i <= |m|
      invariant up + Upload(m, i).0 == Upload(m, start).0 && Upload(m, i).1 == Upload(m, start).1
    {
      if m[i] == WR_DATA_L && m[i + 2] == WR_DATA_H {
        assert up + Upload(m, i).0 == (up + [m[i + 1], m[i + 3]]) + Upload(m, i + 4).0;
        up := up + [m[i + 1], m[i + 3]];
        i := i + 4;
      } else {
        break;
      }
    }
    end := i;
  }

  /** An SROM image of even length as it goes over the bus: low and high data registers in turn. */
  function EncodeUpload(blob: Bytes): Bytes
    requires |blob| % 2 == 0
  {
    if blob == [] then [] else [WR_DATA_L, blob[0], WR_DATA_H, blob[1]] + EncodeUpload(blob[2..])
  }

  /** The walk loses nothing and stops only where no further pair follows. */
  lemma {:induction false} UploadLossless(m: Bytes, i: nat)
    requires i <= |m|
    ensures var (up, end) := Upload(m, i);
            |up| % 2 == 0 && m[i..end] == EncodeUpload(up) && !PairAt(m, end)
    decreases |m| - i
  {
    if PairAt(m, i) {
      UploadLossless(m, i + 4);
      var (rest, end) := Upload(m, i + 4);
      var up := Upload(m, i).0;
      assert up[2..] == rest;
      assert m[i..end] == m[i..i + 4] + m[i + 4..end];
    }
  }

  /** The walk inverts the encoding: an uploaded image before bytes that do not continue it is found
      exactly, with its end. */
  lemma {:induction false} UploadInverts(pre: Bytes, blob: Bytes, tail: Bytes)
    requires |blob| % 2 == 0 && !PairAt(tail, 0)
    ensures Upload(pre + EncodeUpload(blob) + tail, |pre|) == (blob, |pre| + 2 * |blob|)
    decreases |blob|
  {
    var m := pre + EncodeUpload(blob) + tail;
    if blob == [] {
      assert m == pre + tail;
    } else {
      var four := [WR_DATA_L, blob[0], WR_DATA_H, blob[1]];
      UploadInverts(pre + four, blob[2..], tail);
      assert m == (pre + four) + EncodeUpload(blob[2..]) + tail;
      assert blob == [blob[0], blob[1]] + blob[2..];
    }
  }

  // ---------------------------------------------------------------- the readback walk

  /** Where the read triplets from i on end. */
  function TripletsEnd(m: Bytes, i: nat): (end: nat)
    requires i <= |m|
    ensures i <= end <= |m|
    decreases |m| - i
  {
    if TripletAt(m, i) then TripletsEnd(m, i + 3) else i
  }

  /** The MISO bytes clocked in with the second and third byte of each triplet. */
  function Readback(m: Bytes, r: Bytes, i: nat): Bytes
    requires i <= |m|
    decreases |m| - i
  {
    if TripletAt(m, i) then (if i + 2 < |r| then [r[i + 1], r[i + 2]] else []) + Readback(m, r, i + 3) else []
  }

  function Triplets(n: nat): Bytes { if n == 0 then [] else [RD_DATA_L, RD_DATA_H, MARK] + Triplets(n - 1) }

  /** walk_readback. */
  method WalkReadback(m: Bytes, r: Bytes, start: nat) returns (rb: Bytes, end: nat, trips: nat)
    requires start <= |m|
    ensures rb == Readback(m, r, start) && end == TripletsEnd(m, start) && end == start + 3 * trips
  {
    rb, trips := [], 0;
    var i := start;
    while i + 2 < |m|
      invariant start <= i <= |m| && i == start + 3 * trips
      invariant rb + Readback(m, r, i) == Readback(m, r, start) && TripletsEnd(m, i) == TripletsEnd(m, start)
    {
      if m[i] == RD_DATA_L && m[i + 1] == RD_DATA_H && m[i + 2] == MARK {
        ghost var pair := if i + 2 < |r| then [r[i + 1], r[i + 2]] else [];
        assert (rb + pair) + Readback(m, r, i + 3) == rb + Readback(m, r, i);
        if i + 2 < |r| { rb := rb + [r[i + 1], r[i + 2]]; } else { assert rb + pair == rb; }
        trips := trips + 1;
        i := i + 3;
      } else {
        break;
      }
    }
    end := i;
  }

  /** The readback run is triplets and nothing else, and stops only where no further triplet follows. */
  lemma {:induction false} ReadbackLossless(m: Bytes, i: nat) returns (n: nat)
    requires i <= |m|
    ensures var end := TripletsEnd(m, i);
            end == i + 3 * n && m[i..end] == Triplets(n) && !TripletAt(m, end)
    decreases |m| - i
  {
    n := 0;
    if TripletAt(m, i) {
      var k := ReadbackLossless(m, i + 3);
      n := k + 1;
      var end := TripletsEnd(m, i + 3);
      assert m[i..end] == m[i..i + 3] + m[i + 3..end];
    }
  }

  /** With a full MISO stream the readback holds, triplet by triplet, the second and third MISO byte. */
  lemma {:induction false} ReadbackAt(m: Bytes, r: Bytes, i: nat, k: nat)
    requires i <= |m| && |r| == |m| && i + 3 * k + 2 < TripletsEnd(m, i)
    ensures |Readback(m, r, i)| > 2 * k + 1 && i + 3 * k + 2 < |r|
    ensures Readback(m, r, i)[2 * k] == r[i + 3 * k + 1] && Readback(m, r, i)[2 * k + 1] == r[i + 3 * k + 2]
    decreases k
  {
    assert Readback(m, r, i) == [r[i + 1], r[i + 2]] + Readback(m, r, i + 3);
    if k > 0 {
      ReadbackAt(m, r, i + 3, k - 1);
      assert Readback(m, r, i)[2 * k] == Readback(m, r, i + 3)[2 * (k - 1)];
      assert Readback(m, r, i)[2 * k + 1] == Readback(m, r, i + 3)[2 * (k - 1) + 1];
    }
  }

  // ---------------------------------------------------------------- the phases

  /** The first read triplet at or after j, if any. */
  function FirstTriplet(m: Bytes, j: nat): (i: int)
    requires j <= |m|
    ensures i == -1 || (j <= i && TripletAt(m, i))
    ensures forall k | j <= k < (if i == -1 then |m| else i) :: !TripletAt(m, k)
    decreases |m| - j
  {
    if j == |m| then -1 else if TripletAt(m, j) then j else FirstTriplet(m, j + 1)
  }

  /** What decode_init_tx prints, phase by phase; found says whether there was a readback. */
  datatype Phases = Phases(
    preamble: Bytes, upload: Bytes, uploadEnd: nat, found: bool,
    between: seq<Op>, readStart: nat, readback: Bytes, trips: nat, readEnd: nat, after: seq<Op>)

  /** The phases that decode_init_tx reports when there is a readback. */
  predicate IsSplit(m: Bytes, r: Bytes, p: Phases) {
    |m| >= PREAMBLE && |r| == |m| && p.found && p.preamble == m[..PREAMBLE] &&
    p.upload == Upload(m, PREAMBLE).0 && p.uploadEnd == Upload(m, PREAMBLE).1 &&
    p.readStart == FirstTriplet(m, p.uploadEnd) && p.readEnd == TripletsEnd(m, p.readStart) &&
    p.readEnd == p.readStart + 3 * p.trips &&
    p.between == Decode(m[p.uploadEnd..p.readStart], r[p.uploadEnd..p.readStart], p.uploadEnd) &&
    p.readback == Readback(m, r, p.readStart) &&
    p.after == Decode(m[p.readEnd..], r[p.readEnd..], p.readEnd)
  }

  /** decode_init_tx on the MOSI and MISO bytes of one transaction. */
  method DecodeInit(m: Bytes, r: Bytes) returns (p: Phases)
    requires |m| >= PREAMBLE && |r| == |m|
    ensures p.found <==> FirstTriplet(m, Upload(m, PREAMBLE).1) >= 0
    ensures p.found ==> IsSplit(m, r, p)
    ensures p.preamble == m[..12]
    ensures !p.found ==> p.upload == Upload(m, PREAMBLE).0 && p.uploadEnd == Upload(m, PREAMBLE).1
  {
    var upload, uploadEnd := WalkSromUpload(m, PREAMBLE);
    var readStart := -1;
    var j := uploadEnd;
    while j < |m| - 2
      invariant uploadEnd <= j <= |m| && readStart == -1
      invariant FirstTriplet(m, j) == FirstTriplet(m, uploadEnd)
    {
      if m[j] == RD_DATA_L && m[j + 1] == RD_DATA_H && m[j + 2] == MARK {
        readStart := j;
        break;
      }
      j := j + 1;
    }
    if readStart == -1 {
      NoRoomForTriplet(m, j);
      return Phases(m[..PREAMBLE], upload, uploadEnd, false, [], 0, [], 0, 0, []);
    }
    var between := DecodeConfigStream(m[uploadEnd..readStart], r[uploadEnd..readStart], uploadEnd);
    var readback, readEnd, trips := WalkReadback(m, r, readStart);
    var after := DecodeConfigStream(m[readEnd..], r[readEnd..], readEnd);
    return Phases(m[..PREAMBLE], upload, uploadEnd, true, between, readStart, readback, trips, readEnd, after);
  }

  lemma {:induction false} NoRoomForTriplet(m: Bytes, j: nat)
    requires |m| - 2 <= j <= |m|
    ensures FirstTriplet(m, j) == -1
    decreases |m| - j
  {
    if j < |m| { NoRoomForTriplet(m, j + 1); }
  }

  /** The bus bytes behind the five phases. */
  function Rebuild(p: Phases): Bytes
    requires |p.upload| % 2 == 0
  {
    p.preamble + EncodeUpload(p.upload) + EmitAll(p.between) + Triplets(p.trips) + EmitAll(p.after)
  }

  lemma {:induction false} NoReadWords(m: Bytes, r: Bytes, base: nat, i: nat)
    requires i <= |m| && forall k | i <= k < |m| :: !TripletAt(m, k)
    ensures forall op | op in DecodeFrom(m, r, base, i) :: !op.RdWord?
    decreases |m| - i
  {
    if i < |m| {
      OpEmits(m, r, base, i);
      NoReadWords(m, r, base, i + |Emit(OpAt(m, r, base, i))|);
    }
  }

  lemma DecodeEmits(m: Bytes, r: Bytes, base: nat)
    ensures EmitAll(Decode(m, r, base)) == m
  {
    DecodeLossless(m, r, base, 0);
    assert m[0..] == m;
  }

  /** A line stands in lo..hi, at the bytes it says, with the MISO columns of the bytes after its first. */
  predicate LineAt(m: Bytes, r: Bytes, op: Op, lo: nat, hi: nat)
    requires hi <= |m|
  {
    lo <= op.off && op.off + |Emit(op)| <= hi && StandsAt(m, r, op, op.off)
  }

  /** No read-word line appears between upload and readback. */
  lemma BetweenHasNoReads(m: Bytes, r: Bytes, p: Phases)
    requires IsSplit(m, r, p)
    ensures forall op | op in p.between :: !op.RdWord?
  {
    var c := m[p.uploadEnd..p.readStart];
    forall k | 0 <= k < |c| ensures !TripletAt(c, k) {
      assert !TripletAt(m, p.uploadEnd + k);
    }
    NoReadWords(c, r[p.uploadEnd..p.readStart], p.uploadEnd, 0);
  }

  /** The lines before and after the readback carry the offsets of their bytes in the whole transaction, and
      the MISO columns are the bytes clocked in next, cut off where the phase ends. */
  lemma LinesAreInPlace(m: Bytes, r: Bytes, p: Phases)
    requires IsSplit(m, r, p)
    ensures forall op | op in p.between :: LineAt(m, r[..p.readStart], op, p.uploadEnd, p.readStart)
    ensures forall op | op in p.after :: LineAt(m, r, op, p.readEnd, |m|)
  {
    SliceLines(m, r, p.uploadEnd, p.readStart);
    SliceLines(m, r, p.readEnd, |m|);
    assert m[p.readEnd..] == m[p.readEnd..|m|] && r[p.readEnd..] == r[p.readEnd..|m|] && r[..|m|] == r;
  }

  lemma SliceLines(m: Bytes, r: Bytes, lo: nat, hi: nat)
    requires lo <= hi <= |m| && |r| == |m|
    ensures forall op | op in Decode(m[lo..hi], r[lo..hi], lo) :: LineAt(m, r[..hi], op, lo, hi)
  {
    var c, d := m[lo..hi], r[lo..hi];
    LinesInPlace(c, d, lo, 0);
    forall op | op in Decode(c, d, lo) ensures LineAt(m, r[..hi], op, lo, hi) {
      assert StandsAt(c, d, op, op.off - lo);
      SliceLine(m, r, lo, hi, op);
    }
  }

  lemma SliceOfSlice(m: Bytes, lo: nat, hi: nat, i: nat, n: nat)
    requires lo <= hi <= |m| && i + n <= hi - lo
    ensures m[lo..hi][i..i + n] == m[lo + i..lo + i + n]
  {
    var c := m[lo..hi];
    var x, y := c[i..i + n], m[lo + i..lo + i + n];
    assert |x| == |y| == n;
    forall k | 0 <= k < n ensures x[k] == y[k] { assert x[k] == c[i + k]; }
  }

  lemma SliceLine(m: Bytes, r: Bytes, lo: nat, hi: nat, op: Op)
    requires lo <= hi <= |m| && |r| == |m| && StandsAt(m[lo..hi], r[lo..hi], op, op.off - lo)
    ensures LineAt(m, r[..hi], op, lo, hi)
  {
    var c, d, i, n := m[lo..hi], r[lo..hi], op.off - lo, |Emit(op)|;
    SliceOfSlice(m, lo, hi, i, n);
    assert lo + i == op.off;
    assert i + 1 < |d| ==> d[i + 1] == r[..hi][lo + i + 1];
    assert i + 2 < |d| ==> d[i + 2] == r[..hi][lo + i + 2];
  }

  /** The readback is a maximal, non-empty run of triplets. */
  lemma ReadbackIsRun(m: Bytes, r: Bytes, p: Phases)
    requires IsSplit(m, r, p)
    ensures m[p.readStart..p.readEnd] == Triplets(p.trips) && p.trips >= 1 && !TripletAt(m, p.readEnd)
  {
    var n := ReadbackLossless(m, p.readStart);
  }

  /** When there is a readback the five phases partition the transaction: printed again, they give back
      every byte. */
  lemma PhasesPartition(m: Bytes, r: Bytes, p: Phases)
    requires IsSplit(m, r, p)
    ensures |p.upload| % 2 == 0 && Rebuild(p) == m
  {
    UploadLossless(m, PREAMBLE);
    ReadbackIsRun(m, r, p);
    DecodeEmits(m[p.uploadEnd..p.readStart], r[p.uploadEnd..p.readStart], p.uploadEnd);
    DecodeEmits(m[p.readEnd..], r[p.readEnd..], p.readEnd);
    FivePieces(m, PREAMBLE, p.uploadEnd, p.readStart, p.readEnd);
  }

  lemma FivePieces(m: Bytes, a: nat, b: nat, c: nat, d: nat)
    requires a <= b <= c <= d <= |m|
    ensures m[..a] + m[a..b] + m[b..c] + m[c..d] + m[d..] == m
  {
  }

  // ---------------------------------------------------------------- the integrity line

  /** How many uploaded bytes the readback repeats two places later. */
  function Matches(upload: Bytes, readback: Bytes, n: nat): (k: nat)
    requires n <= |upload| && n + 2 <= |readback|
    ensures k <= n
  {
    if n == 0 then 0
    else Matches(upload, readback, n - 1) + if upload[n - 1] == readback[n + 1] then 1 else 0
  }

  /** The first n places at which the readback repeats the upload. */
  function MatchSet(upload: Bytes, readback: Bytes, n: nat): set<nat>
    requires n <= |upload| && n + 2 <= |readback|
  {
    set i: nat | i < n && upload[i] == readback[i + 2]
  }

  lemma {:induction false} MatchesCount(upload: Bytes, readback: Bytes, n: nat)
    requires n <= |upload| && n + 2 <= |readback|
    ensures Matches(upload, readback, n) == |MatchSet(upload, readback, n)|
    decreases n
  {
    if n > 0 {
      var s, t := MatchSet(upload, readback, n - 1), MatchSet(upload, readback, n);
      MatchesCount(upload, readback, n - 1);
      assert t == if upload[n - 1] == readback[n + 1] then s + {n - 1} else s;
    }
  }

  method CountMatches(upload: Bytes, readback: Bytes) returns (k: nat)
    requires |readback| >= |upload| + 2
    ensures k == |MatchSet(upload, readback, |upload|)|
    ensures k == |upload| <==> readback[2..|upload| + 2] == upload
  {
    k := 0;
    for n := 0 to |upload|
      invariant k == Matches(upload, readback, n)
    {
      if upload[n] == readback[n + 2] { k := k + 1; }
    }
    MatchesCount(upload, readback, |upload|);
    AllMatchIff(upload, readback, |upload|);
    assert upload[..|upload|] == upload;
  }

  /** The star is printed exactly when the whole upload reads back. */
  lemma {:induction false} AllMatchIff(upload: Bytes, readback: Bytes, n: nat)
    requires n <= |upload| && n + 2 <= |readback|
    ensures Matches(upload, readback, n) == n <==> readback[2..n + 2] == upload[..n]
    decreases n
  {
    if n > 0 {
      AllMatchIff(upload, readback, n - 1);
      assert readback[2..n + 2] == readback[2..n + 1] + [readback[n + 1]];
      assert upload[..n] == upload[..n - 1] + [upload[n - 1]];
    }
  }
}
