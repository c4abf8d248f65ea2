// The packed binary tape of device_models/twintrace/twintrace.c and its writer in
// src/fastdyn/utils/twintrace.py: a 20-byte header followed by 40-byte records.
module TapeFormat {
  import opened Bytes

  const TT_R: nat := 0
  const TT_W: nat := 1
  const TT_IRQ_TAKEN: nat := 2
  const TT_IRQ_SERVED: nat := 3

  const U32: nat := 0x1_0000_0000
  const U64: nat := 0x1_0000_0000_0000_0000

  const HEADER_SIZE: nat := 20
  const RECORD_SIZE: nat := 40
  const MAGIC: seq<byte> := [0x54, 0x54, 0x54, 0x52]

  datatype Record = Record(icount: nat, pc: nat, addr: nat, value: nat, size: nat, kind: nat)

  datatype OpenError = TooSmall | BadMagic | BadVersion | BadRecordSize | Truncated
  datatype OpenResult = Opened(count: nat) | Refused(error: OpenError)

  /** The fields fit the widths of the packed struct. */
  predicate Fits(r: Record) {
    r.icount < U64 && r.pc < U64 && r.addr < U64 && r.value < U64 && r.size < U32 && r.kind < U32
  }

  function EncodeRecord(r: Record): (s: seq<byte>)
    ensures |s| == RECORD_SIZE
  {
    ToLe(r.icount, 8) + ToLe(r.pc, 8) + ToLe(r.addr, 8) + ToLe(r.value, 8) + ToLe(r.size, 4) + ToLe(r.kind, 4)
  }

  function EncodeHeader(count: nat): (s: seq<byte>)
    ensures |s| == HEADER_SIZE
  {
    MAGIC + ToLe(1, 4) + ToLe(RECORD_SIZE, 4) + ToLe(count, 8)
  }

  function EncodeRecords(tape: seq<Record>): (s: seq<byte>)
    ensures |s| == RECORD_SIZE * |tape|
  {
    if tape == [] then [] else EncodeRecord(tape[0]) + EncodeRecords(tape[1..])
  }

  /** What the converter writes: the header patched with the final count, then every record. */
  function EncodeTape(tape: seq<Record>): seq<byte> {
    EncodeHeader(|tape|) + EncodeRecords(tape)
  }

  /** The checks made on opening. The needed length is computed in a 64-bit size_t, so it wraps. */
  function Open(file: seq<byte>): OpenResult {
    if |file| < HEADER_SIZE then Refused(TooSmall)
    else if file[..4] != MAGIC then Refused(BadMagic)
    else if FromLe(file[4..8]) != 1 then Refused(BadVersion)
    else if FromLe(file[8..12]) != RECORD_SIZE then Refused(BadRecordSize)
    else
      var count := FromLe(file[12..20]);
      if (HEADER_SIZE + count * RECORD_SIZE) % U64 > |file| then Refused(Truncated) else Opened(count)
  }

  /** Record idx lies inside the mapped file. */
  predicate InBounds(file: seq<byte>, idx: nat) {
    HEADER_SIZE + (idx + 1) * RECORD_SIZE <= |file|
  }

  /** The fields of the record whose bytes these are. */
  function DecodeRecord(p: seq<byte>): Record
    requires |p| == RECORD_SIZE
  {
    Record(FromLe(p[..8]), FromLe(p[8..16]), FromLe(p[16..24]), FromLe(p[24..32]), FromLe(p[32..36]), FromLe(p[36..40]))
  }

  function GetRecord(file: seq<byte>, idx: nat): Record
    requires InBounds(file, idx)
  {
    DecodeRecord(file[HEADER_SIZE + idx * RECORD_SIZE..HEADER_SIZE + (idx + 1) * RECORD_SIZE])
  }

  /** Opening what was written accepts it with the right count, and every record reads back. */
  lemma WrittenTapeReadsBack(tape: seq<Record>, idx: nat)
    requires forall r <- tape :: Fits(r)
    requires HEADER_SIZE + |tape| * RECORD_SIZE < U64
    ensures Open(EncodeTape(tape)) == Opened(|tape|)
    ensures idx < |tape| ==> InBounds(EncodeTape(tape), idx) && GetRecord(EncodeTape(tape), idx) == tape[idx]
  {
    hide Open, EncodeHeader, EncodeRecord, EncodeRecords, GetRecord;
    HeaderReadsBack(|tape|, EncodeRecords(tape));
    if idx < |tape| {
      RecordSlice(tape, idx);
      RecordReadsBack(tape[idx]);
      SlicedRecord(EncodeTape(tape), idx, tape[idx]);
    }
  }

  lemma SlicedRecord(file: seq<byte>, idx: nat, r: Record)
    requires InBounds(file, idx) && DecodeRecord(EncodeRecord(r)) == r
    requires file[HEADER_SIZE + idx * RECORD_SIZE..HEADER_SIZE + (idx + 1) * RECORD_SIZE] == EncodeRecord(r)
    ensures GetRecord(file, idx) == r
  {
    hide EncodeRecord, DecodeRecord;
  }

  lemma RecordSlice(tape: seq<Record>, idx: nat)
    requires idx < |tape|
    ensures InBounds(EncodeTape(tape), idx)
    ensures EncodeTape(tape)[HEADER_SIZE + idx * RECORD_SIZE..HEADER_SIZE + (idx + 1) * RECORD_SIZE] == EncodeRecord(tape[idx])
  {
    hide EncodeHeader, EncodeRecord, EncodeRecords;
    RecordsAt(tape, idx);
    SliceAfter(EncodeHeader(|tape|), EncodeRecords(tape), idx * RECORD_SIZE, (idx + 1) * RECORD_SIZE);
  }

  lemma SliceAfter(head: seq<byte>, body: seq<byte>, lo: nat, hi: nat)
    requires lo <= hi <= |body|
    ensures (head + body)[|head| + lo..|head| + hi] == body[lo..hi]
  {
  }

  /** A written header followed by any body is judged only by its count. */
  lemma HeaderReadsBack(count: nat, body: seq<byte>)
    requires count < U64
    ensures Open(EncodeHeader(count) + body)
            == if (HEADER_SIZE + count * RECORD_SIZE) % U64 > HEADER_SIZE + |body| then Refused(Truncated) else Opened(count)
  {
    var file := EncodeHeader(count) + body;
    RadixValues();
    LeRoundTrip(1, 4);
    LeRoundTrip(RECORD_SIZE, 4);
    LeRoundTrip(count, 8);
    HeaderFields(count, body);
    hide ToLe, FromLe, EncodeHeader;
  }

  lemma HeaderFields(count: nat, body: seq<byte>)
    ensures var file := EncodeHeader(count) + body;
            && file[..4] == MAGIC && file[4..8] == ToLe(1, 4) && file[8..12] == ToLe(RECORD_SIZE, 4)
            && file[12..20] == ToLe(count, 8)
  {
    hide ToLe, FromLe, Radix;
  }

  lemma {:induction false} RecordsAt(tape: seq<Record>, idx: nat)
    requires idx < |tape|
    ensures (idx + 1) * RECORD_SIZE <= |EncodeRecords(tape)|
    ensures EncodeRecords(tape)[idx * RECORD_SIZE..(idx + 1) * RECORD_SIZE] == EncodeRecord(tape[idx])
  {
    hide EncodeRecord;
    if idx > 0 {
      RecordsAt(tape[1..], idx - 1);
      var rest := EncodeRecords(tape[1..]);
      SliceAfter(EncodeRecord(tape[0]), rest, (idx - 1) * RECORD_SIZE, idx * RECORD_SIZE);
    }
  }

  lemma RecordReadsBack(r: Record)
    requires Fits(r)
    ensures DecodeRecord(EncodeRecord(r)) == r
  {
    RadixValues();
    LeRoundTrip(r.icount, 8);
    LeRoundTrip(r.pc, 8);
    LeRoundTrip(r.addr, 8);
    LeRoundTrip(r.value, 8);
    LeRoundTrip(r.size, 4);
    LeRoundTrip(r.kind, 4);
    RecordFields(r);
    hide EncodeRecord, ToLe, FromLe;
  }

  lemma RecordFields(r: Record)
    ensures var p := EncodeRecord(r);
            && p[..8] == ToLe(r.icount, 8) && p[8..16] == ToLe(r.pc, 8) && p[16..24] == ToLe(r.addr, 8)
            && p[24..32] == ToLe(r.value, 8) && p[32..36] == ToLe(r.size, 4) && p[36..40] == ToLe(r.kind, 4)
  {
    hide ToLe, FromLe, Radix;
  }

  /** A file is accepted with a count exactly if it begins with the header for that count and is as long as
      the wrapped length test asks: nothing else about it is looked at. */
  lemma OpenedIff(file: seq<byte>, count: nat)
    requires count < U64
    ensures Open(file) == Opened(count) <==>
            && |file| >= HEADER_SIZE && file[..HEADER_SIZE] == EncodeHeader(count)
            && (HEADER_SIZE + count * RECORD_SIZE) % U64 <= |file|
  {
    hide ToLe, FromLe, Radix;
    if |file| >= HEADER_SIZE && file[..HEADER_SIZE] == EncodeHeader(count) {
      assert file == EncodeHeader(count) + file[HEADER_SIZE..];
      HeaderReadsBack(count, file[HEADER_SIZE..]);
    }
    if Open(file) == Opened(count) {
      LeBytesComeBack(file[4..8]);
      LeBytesComeBack(file[8..12]);
      LeBytesComeBack(file[12..20]);
      FourParts(file);
    }
  }

  lemma FourParts(file: seq<byte>)
    requires |file| >= HEADER_SIZE
    ensures file[..HEADER_SIZE] == file[..4] + file[4..8] + file[8..12] + file[12..20]
  {
  }

  /** The header, byte by byte: the letters TTTR, version 1, record size 40, and the count, least byte first. */
  lemma HeaderSpells(count: nat, k: nat)
    requires k < 8
    ensures EncodeHeader(count)[..12] == [0x54, 0x54, 0x54, 0x52, 1, 0, 0, 0, 40, 0, 0, 0]
    ensures EncodeHeader(count)[12 + k] == count / Radix(k) % 256
  {
    LeastByteFirst(count, 8, k);
    HeaderFields(count, []);
    assert EncodeHeader(count) + [] == EncodeHeader(count);
    assert ToLe(1, 4) == [1, 0, 0, 0] && ToLe(RECORD_SIZE, 4) == [40, 0, 0, 0];
    assert EncodeHeader(count)[12..20][k] == EncodeHeader(count)[12 + k];
    hide ToLe;
    assert EncodeHeader(count)[..12] == EncodeHeader(count)[..4] + EncodeHeader(count)[4..8] + EncodeHeader(count)[8..12];
  }

  /** The record, field by field: each lies where the packed struct has it. */
  lemma RecordSpells(r: Record, k: nat)
    requires k < 8
    ensures var p := EncodeRecord(r);
            && p[k] == r.icount / Radix(k) % 256 && p[8 + k] == r.pc / Radix(k) % 256
            && p[16 + k] == r.addr / Radix(k) % 256 && p[24 + k] == r.value / Radix(k) % 256
            && (k < 4 ==> p[32 + k] == r.size / Radix(k) % 256 && p[36 + k] == r.kind / Radix(k) % 256)
  {
    var p := EncodeRecord(r);
    RecordFields(r);
    LeastByteFirst(r.icount, 8, k);
    LeastByteFirst(r.pc, 8, k);
    LeastByteFirst(r.addr, 8, k);
    LeastByteFirst(r.value, 8, k);
    if k < 4 {
      LeastByteFirst(r.size, 4, k);
      LeastByteFirst(r.kind, 4, k);
      assert p[32 + k] == p[32..36][k] && p[36 + k] == p[36..40][k];
    }
    assert p[k] == p[..8][k] && p[8 + k] == p[8..16][k] && p[16 + k] == p[16..24][k] && p[24 + k] == p[24..32][k];
    hide EncodeRecord, ToLe, Radix;
  }

  /** For an accepted file every record is in bounds exactly when the header's count does not wrap the length check. */
  lemma AcceptedIsBoundedIffNoWrap(file: seq<byte>)
    requires |file| < U64
    requires Open(file).Opened?
    ensures (forall idx: nat | idx < Open(file).count :: InBounds(file, idx))
            <==> HEADER_SIZE + Open(file).count * RECORD_SIZE < U64
  {
    var count := Open(file).count;
    if HEADER_SIZE + count * RECORD_SIZE >= U64 {
      assert !InBounds(file, count - 1);
    }
  }

  /** A file of one header whose count is 2^61 passes every check and holds no record at all. */
  lemma WrappingCountIsAccepted(count: nat)
    requires count == 0x2000_0000_0000_0000
    ensures Open(EncodeHeader(count)) == Opened(count) && !InBounds(EncodeHeader(count), 0)
  {
    HeaderReadsBack(count, []);
    assert EncodeHeader(count) + [] == EncodeHeader(count);
  }
}
