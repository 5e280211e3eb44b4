/** Input operations as 17-byte records: a tag and two little-endian 64-bit words, with
  * floating-point values as their bit patterns.
  */
module InputRecords {
  import opened Options
  import opened Utf8
  import opened Wire

  const RECORD: nat := 17

  /** An operation as the pipe carries it; `InputForwarding.Op` has its values as numbers. */
  datatype WireOp =
    | Motion(xBits: nat, yBits: nat)
    | Button(code: nat, state: nat)
    | Axis(axis: nat, valueBits: nat)
    | Key(code: nat, state: nat)
    | Presented

  /** Codes, states and axes are u32, bit patterns u64. */
  predicate Fits(op: WireOp) {
    match op
    case Motion(x, y) => x < U64 && y < U64
    case Button(code, state) => code < U32 && state < U32
    case Axis(axis, value) => axis < U32 && value < U64
    case Key(code, state) => code < U32 && state < U32
    case Presented => true
  }

  /** The tag and the two words of an operation's record. */
  function Parts(op: WireOp): (byte, nat, nat) {
    match op
    case Motion(x, y) => (1, x, y)
    case Button(code, state) => (2, code, state)
    case Axis(axis, value) => (3, axis, value)
    case Key(code, state) => (4, code, state)
    case Presented => (5, 0, 0)
  }

  function Encode(op: WireOp): (record: seq<byte>)
    ensures |record| == RECORD
  {
    [Parts(op).0] + ToLe(Parts(op).1, 8) + ToLe(Parts(op).2, 8)
  }

  function Decode(record: seq<byte>): Option<WireOp>
    requires |record| == RECORD
  {
    var a, b := FromLe(record[1..9]), FromLe(record[9..17]);
    match record[0] as int
    case 1 => Some(Motion(a, b))
    case 2 => if a < U32 && b < U32 then Some(Button(a, b)) else None
    case 3 => if a < U32 then Some(Axis(a, b)) else None
    case 4 => if a < U32 && b < U32 then Some(Key(a, b)) else None
    case 5 => if a == 0 && b == 0 then Some(Presented) else None
    case _ => None
  }

  /** The layout: one tag byte, then the two words, least byte first. */
  lemma Layout(op: WireOp)
    requires Fits(op)
    ensures
      Encode(op)[0] as nat ==
      match op
      case Motion(_, _) => 1
      case Button(_, _) => 2
      case Axis(_, _) => 3
      case Key(_, _) => 4
      case Presented => 5
    ensures var words: (nat, nat) := match op
              case Motion(x, y) => (x, y)
              case Button(code, state) => (code, state)
              case Axis(axis, value) => (axis, value)
              case Key(code, state) => (code, state)
              case Presented => (0, 0);
      forall k :: 0 <= k < 8 ==>
        && Encode(op)[1 + k] as nat == words.0 / Power256(k) % 0x100
        && Encode(op)[9 + k] as nat == words.1 / Power256(k) % 0x100
  {
    var (tag, first, second) := Parts(op);
    forall k | 0 <= k < 8
      ensures Encode(op)[1 + k] as nat == first / Power256(k) % 0x100
      ensures Encode(op)[9 + k] as nat == second / Power256(k) % 0x100
    {
      LeastByteFirst(first, 8, k);
      LeastByteFirst(second, 8, k);
    }
  }

  lemma RecordParts(tag: byte, a: nat, b: nat)
    requires a < U64 && b < U64
    ensures var record := [tag] + ToLe(a, 8) + ToLe(b, 8);
      record[0] == tag && FromLe(record[1..9]) == a && FromLe(record[9..17]) == b
  {
    var record := [tag] + ToLe(a, 8) + ToLe(b, 8);
    assert record[1..9] == ToLe(a, 8) && record[9..17] == ToLe(b, 8);
    WordSizes();
    LeReadsBack(a, 8);
    LeReadsBack(b, 8);
  }

  /** Every operation decodes from its own record. */
  lemma DecodesWhatWasEncoded(op: WireOp)
    requires Fits(op)
    ensures Decode(Encode(op)) == Some(op)
  {
    match op
    case Motion(x, y) => RecordParts(1, x, y);
    case Button(code, state) => RecordParts(2, code, state);
    case Axis(axis, value) => RecordParts(3, axis, value);
    case Key(code, state) => RecordParts(4, code, state);
    case Presented => RecordParts(5, 0, 0);
  }

  /** Every record that decodes is the record of what it decodes to, so the codec is a
    * bijection between the operations that fit and the records that decode.
    */
  lemma EncodesWhatWasDecoded(record: seq<byte>)
    requires |record| == RECORD && Decode(record).Some?
    ensures Fits(Decode(record).value) && Encode(Decode(record).value) == record
  {
    Rebuilt(record);
  }

  lemma Rebuilt(record: seq<byte>)
    requires |record| == RECORD
    ensures var a, b := FromLe(record[1..9]), FromLe(record[9..17]);
      a < U64 && b < U64 && record == [record[0]] + ToLe(a, 8) + ToLe(b, 8)
  {
    WordSizes();
    LeWritesBack(record[1..9]);
    LeWritesBack(record[9..17]);
    assert record == [record[0]] + record[1..9] + record[9..17];
  }

  function EncodeAll(ops: seq<WireOp>): seq<byte> {
    if ops == [] then [] else Encode(ops[0]) + EncodeAll(ops[1..])
  }

  /** What a server reading `bytes` applies: up to the first short or invalid record. */
  function DecodeAll(bytes: seq<byte>): seq<WireOp> {
    if |bytes| < RECORD then []
    else
      var first := Decode(bytes[..RECORD]);
      if first.None? then [] else [first.value] + DecodeAll(bytes[RECORD..])
  }

  /** The operation of the next 17 bytes; None for fewer, or for bytes that are no record. */
  method ReadOp(input: Pipe) returns (op: Option<WireOp>)
    modifies input
    ensures |old(input.unread)| < RECORD ==> op == None && input.unread == []
    ensures RECORD <= |old(input.unread)| ==>
      op == Decode(old(input.unread)[..RECORD]) && input.unread == old(input.unread)[RECORD..]
  {
    var record := input.ReadExact(RECORD);
    if record.None? {
      return None;
    }
    op := Decode(record.value);
  }

  method ServeInput(input: Pipe) returns (applied: seq<WireOp>)
    modifies input
    ensures applied == DecodeAll(old(input.unread))
  {
    applied := [];
    ghost var before := input.unread;
    var op := ReadOp(input);
    ghost var unread := before;
    while op.Some?
      invariant DecodeAll(before) == applied + DecodeAll(unread)
      invariant |unread| < RECORD ==> op == None
      invariant RECORD <= |unread| ==> op == Decode(unread[..RECORD]) && input.unread == unread[RECORD..]
      decreases |unread|
    {
      assert applied + ([op.value] + DecodeAll(unread[RECORD..])) ==
             (applied + [op.value]) + DecodeAll(unread[RECORD..]);
      applied := applied + [op.value];
      unread := input.unread;
      op := ReadOp(input);
    }
  }

  /** Whole records followed by less than one give back exactly the operations sent. */
  lemma {:induction false} StreamReadsBack(ops: seq<WireOp>, tail: seq<byte>)
    requires (forall op :: op in ops ==> Fits(op)) && |tail| < RECORD
    ensures DecodeAll(EncodeAll(ops) + tail) == ops
  {
    if ops == [] {
      assert EncodeAll(ops) + tail == tail;
    } else {
      assert ops[0] in ops && ops == [ops[0]] + ops[1..];
      StreamReadsBack(ops[1..], tail);
      FirstReadsBack(ops[0], EncodeAll(ops[1..]) + tail);
      assert EncodeAll(ops) + tail == Encode(ops[0]) + (EncodeAll(ops[1..]) + tail);
    }
  }

  lemma FirstReadsBack(op: WireOp, rest: seq<byte>)
    requires Fits(op)
    ensures DecodeAll(Encode(op) + rest) == [op] + DecodeAll(rest)
  {
    var bytes := Encode(op) + rest;
    assert bytes[..RECORD] == Encode(op) && bytes[RECORD..] == rest;
    DecodesWhatWasEncoded(op);
  }

  /** Cut anywhere, the stream gives exactly the operations sent whole before the cut. */
  lemma {:induction false} CutStreamReadsWholeRecords(ops: seq<WireOp>, cut: nat)
    requires (forall op :: op in ops ==> Fits(op)) && cut <= |EncodeAll(ops)|
    ensures cut / RECORD <= |ops| && DecodeAll(EncodeAll(ops)[..cut]) == ops[..cut / RECORD]
  {
    if RECORD <= cut {
      var bytes := EncodeAll(ops)[..cut];
      assert bytes[..RECORD] == Encode(ops[0]) && bytes[RECORD..] == EncodeAll(ops[1..])[..cut - RECORD];
      assert ops[0] in ops;
      DecodesWhatWasEncoded(ops[0]);
      CutStreamReadsWholeRecords(ops[1..], cut - RECORD);
      assert ops[..cut / RECORD] == [ops[0]] + ops[1..][..cut / RECORD - 1];
    }
  }

  /** Nothing is invented and nothing whole is skipped: the operations applied are a prefix
    * of the bytes received, and what follows is short or invalid.
    */
  lemma {:induction false} AppliedWasReceived(bytes: seq<byte>)
    ensures EncodeAll(DecodeAll(bytes)) <= bytes
    ensures forall op :: op in DecodeAll(bytes) ==> Fits(op)
    ensures var rest := bytes[|EncodeAll(DecodeAll(bytes))|..];
      |rest| < RECORD || Decode(rest[..RECORD]).None?
  {
    if RECORD <= |bytes| && Decode(bytes[..RECORD]).Some? {
      EncodesWhatWasDecoded(bytes[..RECORD]);
      AppliedWasReceived(bytes[RECORD..]);
      var rest := EncodeAll(DecodeAll(bytes[RECORD..]));
      assert DecodeAll(bytes)[1..] == DecodeAll(bytes[RECORD..]);
      assert EncodeAll(DecodeAll(bytes)) == bytes[..RECORD] + rest;
      assert bytes == bytes[..RECORD] + bytes[RECORD..];
      assert bytes[RECORD + |rest|..] == bytes[RECORD..][|rest|..];
    }
  }
}
