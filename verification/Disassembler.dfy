/** The stream decoders of the capture disassembler (captures/sensor_1855_dasm.py:214-355), with their
    listing lines as operations: nothing of the capture is lost, and the phases of the init transaction
    partition it. */
module Disassembler {
  import opened Motion

  type Bytes = seq<Byte>

  const RD_DATA_L: Byte := 0xAE
  const RD_DATA_H: Byte := 0xAF
  const MARK: Byte := 0x80
  const WR_DATA_L: Byte := 0x2E
  const WR_DATA_H: Byte := 0x2F

  // ---------------------------------------------------------------- the register stream

  /** A listing line: its printed offset and what it says. */
  datatype Op =
    | RdWord(off: nat, lo: Byte, hi: Byte)
    | LoaderMark(off: nat)
    | Wr(off: nat, addr: Byte, value: Byte)
    | Rd(off: nat, addr: Byte, miso: Byte)
    | Odd(off: nat, byte: Byte)

  predicate TripletAt(m: Bytes, i: nat) {
    i + 2 < |m| && m[i] == RD_DATA_L && m[i + 1] == RD_DATA_H && m[i + 2] == MARK
  }

  function At(r: Bytes, i: nat): Byte { if i < |r| then r[i] else 0 }

  /** The line at position i, by the order of the source's tests. */
  function OpAt(m: Bytes, r: Bytes, base: nat, i: nat): Op
    requires i < |m|
  {
    if TripletAt(m, i) then RdWord(base + i, At(r, i + 1), At(r, i + 2))
    else if m[i] == MARK then LoaderMark(base + i)
    else if m[i] < 0x80 && i + 1 < |m| then Wr(base + i, m[i], m[i + 1])
    else if m[i] >= 0x80 then Rd(base + i, m[i] - 0x80, At(r, i + 1))
    else Odd(base + i, m[i])
  }

  /** The bus bytes behind a line. */
  function Emit(op: Op): Bytes {
    match op
    case RdWord(_, _, _) => [RD_DATA_L, RD_DATA_H, MARK]
    case LoaderMark(_) => [MARK]
    case Wr(_, addr, value) => [addr, value]
    case Rd(_, addr, _) => if addr < 0x80 then [addr + 0x80] else [addr]
    case Odd(_, b) => [b]
  }

  function EmitAll(ops: seq<Op>): Bytes { if ops == [] then [] else Emit(ops[0]) + EmitAll(ops[1..]) }

  function DecodeFrom(m: Bytes, r: Bytes, base: nat, i: nat): seq<Op>
    requires i <= |m|
    decreases |m| - i
  {
    if i == |m| then []
    else
      var op := OpAt(m, r, base, i);
      [op] + DecodeFrom(m, r, base, i + |Emit(op)|)
  }

  function Decode(m: Bytes, r: Bytes, base: nat): seq<Op> { DecodeFrom(m, r, base, 0) }

  /** decode_config_stream. */
  method DecodeConfigStream(m: Bytes, r: Bytes, base: nat) returns (lines: seq<Op>)
    ensures lines == Decode(m, r, base)
  {
    lines := [];
    var i := 0;
    while i < |m|
      invariant 0 <= i <= |m|
      invariant lines + DecodeFrom(m, r, base, i) == Decode(m, r, base)
    {
      LineDone(m, r, base, i, lines);
      var line, size := DecodeLine(m, r, base, i);
      lines := lines + [line];
      i := i + size;
    }
  }

  /** The body of its loop: one line and the number of bytes it takes. */
  method DecodeLine(m: Bytes, r: Bytes, base: nat, i: nat) returns (line: Op, size: nat)
    requires i < |m|
    ensures line == OpAt(m, r, base, i) && size == |Emit(line)|
  {
    var b := m[i];
    if b == RD_DATA_L && i + 2 < |m| && m[i + 1] == RD_DATA_H && m[i + 2] == MARK {
      var lo := if i + 1 < |r| then r[i + 1] else 0;
      var hi := if i + 2 < |r| then r[i + 2] else 0;
      return RdWord(base + i, lo, hi), 3;
    }
    if b == MARK {
      return LoaderMark(base + i), 1;
    } else if b < 0x80 && i + 1 < |m| {
      return Wr(base + i, b, m[i + 1]), 2;
    } else if b >= 0x80 {
      var miso := if i + 1 < |r| then r[i + 1] else 0;
      return Rd(base + i, b % 0x80, miso), 1;
    } else {
      return Odd(base + i, b), 1;
    }
  }

  lemma LineDone(m: Bytes, r: Bytes, base: nat, i: nat, lines: seq<Op>)
    requires i < |m|
    ensures var op := OpAt(m, r, base, i);
            1 <= |Emit(op)| && i + |Emit(op)| <= |m| &&
            (lines + [op]) + DecodeFrom(m, r, base, i + |Emit(op)|) == lines + DecodeFrom(m, r, base, i)
  {
    OpEmits(m, r, base, i);
  }

  /** The lines follow one another on the bus from offset base, and their MISO columns are the bytes clocked
      in with the bytes after theirs. */
  predicate Placed(ops: seq<Op>, r: Bytes, base: nat, at: nat) {
    ops == [] ||
    (ops[0].off == base + at &&
     (ops[0].RdWord? ==> ops[0].lo == At(r, at + 1) && ops[0].hi == At(r, at + 2)) &&
     (ops[0].Rd? ==> ops[0].miso == At(r, at + 1)) &&
     Placed(ops[1..], r, base, at + |Emit(ops[0])|))
  }

  /** Lines the decoder can produce: register addresses are seven bits, address zero reads as a marker, a
      lone address byte only ends a stream, and three lines never spell a read-word triplet. */
  predicate Canonical(ops: seq<Op>) {
    LinesOk(ops) && forall k | 0 <= k && k + 2 < |ops| :: !SpellsTriplet(ops, k)
  }

  predicate LinesOk(ops: seq<Op>) {
    forall k | 0 <= k < |ops| :: LineOk(ops[k], k == |ops| - 1)
  }

  predicate LineOk(op: Op, last: bool) {
    (op.Wr? ==> op.addr < 0x80) && (op.Rd? ==> 0 < op.addr < 0x80) && (op.Odd? ==> op.byte < 0x80 && last)
  }

  predicate SpellsTriplet(ops: seq<Op>, k: nat)
    requires k + 2 < |ops|
  {
    ops[k].Rd? && ops[k].addr == 0x2E && ops[k + 1].Rd? && ops[k + 1].addr == 0x2F && ops[k + 2].LoaderMark?
  }

  lemma OpEmits(m: Bytes, r: Bytes, base: nat, i: nat)
    requires i < |m|
    ensures var e := Emit(OpAt(m, r, base, i)); 1 <= |e| && i + |e| <= |m| && m[i..i + |e|] == e
  {
  }

  /** Lossless: emitting the lines again gives back every byte, and the printed offsets are their places. */
  lemma {:induction false} DecodeLossless(m: Bytes, r: Bytes, base: nat, i: nat)
    requires i <= |m|
    ensures var ops := DecodeFrom(m, r, base, i); EmitAll(ops) == m[i..] && Placed(ops, r, base, i)
    decreases |m| - i
  {
    if i < |m| {
      var op := OpAt(m, r, base, i);
      var next := i + |Emit(op)|;
      OpEmits(m, r, base, i);
      DecodeLossless(m, r, base, next);
      var rest := DecodeFrom(m, r, base, next);
      assert ([op] + rest)[1..] == rest;
      OpPlaced(m, r, base, i);
      assert EmitAll([op] + rest) == Emit(op) + EmitAll(rest);
      assert m[i..] == m[i..next] + m[next..];
    }
  }

  lemma OpPlaced(m: Bytes, r: Bytes, base: nat, i: nat)
    requires i < |m|
    ensures var op := OpAt(m, r, base, i);
            op.off == base + i && (op.RdWord? ==> op.lo == At(r, i + 1) && op.hi == At(r, i + 2)) &&
            (op.Rd? ==> op.miso == At(r, i + 1))
  {
  }

  /** The bytes at position i are this line's, and its MISO columns are the bytes clocked in with the one and
      two after, or 0 past the end of the capture. */
  predicate StandsAt(m: Bytes, r: Bytes, op: Op, i: int) {
    0 <= i && i + |Emit(op)| <= |m| && m[i..i + |Emit(op)|] == Emit(op) &&
    (op.RdWord? ==> op.lo == (if i + 1 < |r| then r[i + 1] else 0) && op.hi == (if i + 2 < |r| then r[i + 2] else 0)) &&
    (op.Rd? ==> op.miso == if i + 1 < |r| then r[i + 1] else 0)
  }

  /** Every line stands at its printed offset. */
  lemma {:induction false} LinesInPlace(m: Bytes, r: Bytes, base: nat, i: nat)
    requires i <= |m|
    ensures forall op | op in DecodeFrom(m, r, base, i) :: StandsAt(m, r, op, op.off - base)
    decreases |m| - i
  {
    if i < |m| {
      var op := OpAt(m, r, base, i);
      OpStands(m, r, base, i);
      LinesInPlace(m, r, base, i + |Emit(op)|);
      assert DecodeFrom(m, r, base, i) == [op] + DecodeFrom(m, r, base, i + |Emit(op)|);
    }
  }

  lemma OpStands(m: Bytes, r: Bytes, base: nat, i: nat)
    requires i < |m|
    ensures var op := OpAt(m, r, base, i); op.off == base + i && |Emit(op)| >= 1 && StandsAt(m, r, op, i)
  {
    OpEmits(m, r, base, i);
    OpPlaced(m, r, base, i);
  }

  /** What the decoder produces is canonical. */
  lemma {:induction false} DecodeCanonical(m: Bytes, r: Bytes, base: nat, i: nat)
    requires i <= |m|
    ensures Canonical(DecodeFrom(m, r, base, i))
    decreases |m| - i
  {
    if i < |m| {
      var op := OpAt(m, r, base, i);
      var next := i + |Emit(op)|;
      OpEmits(m, r, base, i);
      DecodeCanonical(m, r, base, next);
      OpLineOk(m, r, base, i);
      if |DecodeFrom(m, r, base, i)| > 2 { NoTripletFirst(m, r, base, i); }
      CanonicalCons(op, DecodeFrom(m, r, base, next));
    }
  }

  lemma OpLineOk(m: Bytes, r: Bytes, base: nat, i: nat)
    requires i < |m|
    ensures LineOk(OpAt(m, r, base, i), i + |Emit(OpAt(m, r, base, i))| == |m|)
  {
  }

  lemma NoTripletFirst(m: Bytes, r: Bytes, base: nat, i: nat)
    requires i < |m| && |DecodeFrom(m, r, base, i)| > 2
    ensures !SpellsTriplet(DecodeFrom(m, r, base, i), 0)
  {
    var ops := DecodeFrom(m, r, base, i);
    var next := i + |Emit(OpAt(m, r, base, i))|;
    SecondOp(m, r, base, i);
    assert DecodeFrom(m, r, base, next) == ops[1..];
    SecondOp(m, r, base, next);
    assert ops[1..][1] == ops[2];
    if SpellsTriplet(ops, 0) { MarkDoesNotFollow(m, r, base, i); }
  }

  /** Two reads that a marker would complete are not listed as reads. */
  lemma MarkDoesNotFollow(m: Bytes, r: Bytes, base: nat, i: nat)
    requires i + 2 < |m| && OpAt(m, r, base, i).Rd? && OpAt(m, r, base, i + 1).Rd?
    requires OpAt(m, r, base, i).addr == 0x2E && OpAt(m, r, base, i + 1).addr == 0x2F
    ensures !OpAt(m, r, base, i + 2).LoaderMark?
  {
  }

  lemma CanonicalCons(op: Op, rest: seq<Op>)
    requires Canonical(rest) && LineOk(op, rest == []) && (|rest| >= 2 ==> !SpellsTriplet([op] + rest, 0))
    ensures Canonical([op] + rest)
  {
    var ops := [op] + rest;
    forall k | 0 <= k && k + 2 < |ops| ensures !SpellsTriplet(ops, k) {
      if k > 0 { assert !SpellsTriplet(rest, k - 1); }
    }
    forall k | 0 <= k < |ops| ensures LineOk(ops[k], k == |ops| - 1) {
      if k > 0 { assert ops[k] == rest[k - 1]; }
    }
  }

  /** The second line of a stream starts right after the first. */
  lemma SecondOp(m: Bytes, r: Bytes, base: nat, i: nat)
    requires i < |m| && |DecodeFrom(m, r, base, i)| >= 2
    ensures var n := i + |Emit(OpAt(m, r, base, i))|;
            n < |m| && DecodeFrom(m, r, base, i)[0] == OpAt(m, r, base, i) &&
            DecodeFrom(m, r, base, i)[1] == OpAt(m, r, base, n)
  {
    OpEmits(m, r, base, i);
  }

  /** Canonical lines with the right offsets and MISO columns decode to themselves. */
  lemma {:induction false} DecodeInverts(m: Bytes, r: Bytes, base: nat, i: nat, ops: seq<Op>)
    requires i <= |m| && m[i..] == EmitAll(ops) && Canonical(ops) && Placed(ops, r, base, i)
    ensures DecodeFrom(m, r, base, i) == ops
    decreases |ops|
  {
    if ops != [] {
      var e, rest := Emit(ops[0]), ops[1..];
      DropEmitted(m, i, e, EmitAll(rest));
      CanonicalRest(ops);
      FirstOp(m, r, base, i, ops);
      DecodeInverts(m, r, base, i + |e|, rest);
      assert DecodeFrom(m, r, base, i) == [ops[0]] + rest;
    }
  }

  lemma DropEmitted(m: Bytes, i: nat, e: Bytes, rest: Bytes)
    requires i <= |m| && m[i..] == e + rest
    ensures i + |e| <= |m| && m[i + |e|..] == rest
  {
    assert m[i + |e|..] == m[i..][|e|..];
  }

  lemma CanonicalRest(ops: seq<Op>)
    requires Canonical(ops) && ops != []
    ensures Canonical(ops[1..])
  {
    forall k | 0 <= k && k + 2 < |ops[1..]| ensures !SpellsTriplet(ops[1..], k) {
      assert !SpellsTriplet(ops, k + 1);
    }
    forall k | 0 <= k < |ops[1..]| ensures LineOk(ops[1..][k], k == |ops[1..]| - 1) {
      assert LineOk(ops[k + 1], k + 1 == |ops| - 1);
    }
  }

  /** The decoder reads the first line of a canonical list. */
  lemma FirstOp(m: Bytes, r: Bytes, base: nat, i: nat, ops: seq<Op>)
    requires i <= |m| && ops != [] && m[i..] == EmitAll(ops) && Canonical(ops) && Placed(ops, r, base, i)
    ensures i < |m| && OpAt(m, r, base, i) == ops[0]
  {
    var w := EmitAll(ops);
    assert forall k | 0 <= k < |w| :: m[i + k] == m[i..][k];
    assert |w| >= 1 && w[0] == Emit(ops[0])[0];
    if ops[0].Rd? && TripletAt(m, i) {
      TripletSpelled(ops);
    }
  }

  /** If lines that start with a read emit a triplet, they spell it. */
  lemma TripletSpelled(ops: seq<Op>)
    requires LinesOk(ops) && ops != [] && ops[0].Rd? && TripletAt(EmitAll(ops), 0)
    ensures |ops| > 2 && SpellsTriplet(ops, 0)
  {
    var w, v := EmitAll(ops), ops[1..];
    assert w == Emit(ops[0]) + EmitAll(v) && w[1..] == EmitAll(v);
    assert v != [] && w[1..][0] == RD_DATA_H;
    assert Emit(v[0])[0] == EmitAll(v)[0];
    assert v[0] == ops[1];
    assert ops[1].Rd? && ops[1].addr == 0x2F;
    var u := v[1..];
    assert EmitAll(v)[1..] == EmitAll(u) && u != [] && Emit(u[0])[0] == EmitAll(u)[0] == MARK;
    assert u[0] == ops[2];
  }

  /** A list of lines is what the decoder makes of its own bytes exactly when it is canonical and placed. */
  lemma DecodesToItselfIff(ops: seq<Op>, r: Bytes, base: nat)
    ensures Decode(EmitAll(ops), r, base) == ops <==> Canonical(ops) && Placed(ops, r, base, 0)
  {
    var m := EmitAll(ops);
    if Decode(m, r, base) == ops {
      DecodeCanonical(m, r, base, 0);
      DecodeLossless(m, r, base, 0);
    } else if Canonical(ops) && Placed(ops, r, base, 0) {
      assert m[0..] == m;
      DecodeInverts(m, r, base, 0, ops);
    }
  }
}
