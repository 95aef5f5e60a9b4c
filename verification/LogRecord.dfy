/** The binary format of the write-ahead log: what `write_log_record` appends and what
    `read_log_record` and `get_record_size` make of it again. */
module LogRecord {
  import opened Bytes

  datatype Record =
    | Invalid(txn: u64)
    | Abort(txn: u64)
    | Commit(txn: u64)
    | Update(txn: u64, page: u64, offset: u64, before: seq<byte>, after: seq<byte>)
    | Begin(txn: u64)
    | Checkpoint(txn: u64, active: seq<(u64, nat)>)

  /** Both images of an update have the record's 64-bit length. */
  ghost predicate WellFormed(r: Record) {
    r.Update? ==> |r.before| == |r.after| && |r.after| < 0x1_0000_0000_0000_0000
  }

  /** The numeric value of the record's type, stored in four bytes. */
  function Code(r: Record): (c: nat)
    ensures c < 6
  {
    match r
    case Invalid(_) => 0
    case Abort(_) => 1
    case Commit(_) => 2
    case Update(_, _, _, _, _) => 3
    case Begin(_) => 4
    case Checkpoint(_, _) => 5
  }

  /** What of a record reaches the file: everything but a checkpoint's active list. */
  function Stored(r: Record): Record {
    if r.Checkpoint? then Checkpoint(r.txn, []) else r
  }

  function RecordSize(r: Record): nat {
    if r.Update? then 4 + 8 + 3 * 8 + 2 * |r.before| else 4 + 8
  }

  /** The 64-bit length field. */
  function Length(r: Record): u64
    requires r.Update?
  {
    |r.before| % 0x1_0000_0000_0000_0000
  }

  function EncodeRecord(r: Record): seq<byte> {
    U32Bytes(Code(r)) + U64Bytes(r.txn) +
    if r.Update? then
      U64Bytes(r.page) + U64Bytes(Length(r)) + U64Bytes(r.offset) + r.before + r.after
    else []
  }

  function EncodeLog(log: seq<Record>): seq<byte> {
    if log == [] then [] else EncodeLog(log[..|log| - 1]) + EncodeRecord(log[|log| - 1])
  }

  /** Where record `i` starts. */
  function Offset(log: seq<Record>, i: nat): nat
    requires i <= |log|
  {
    |EncodeLog(log[..i])|
  }

  function ReadField(file: seq<byte>, offset: nat): u64 {
    U64Of(ReadBlock(file, offset, Zeros(8)))
  }

  function ReadCode(file: seq<byte>, offset: nat): nat {
    U32Of(ReadBlock(file, offset, Zeros(4)))
  }

  /** `read_log_record` on the bytes of the file. */
  function ParseRecord(file: seq<byte>, offset: nat): Record {
    ParseWith(ReadCode(file, offset), (o: nat) => ReadField(file, o),
      (o: nat, n: nat) => ReadBlock(file, o, Zeros(n)), offset)
  }

  /** The fields of a record at `offset`, in the order in which they are read. */
  function ParseWith(code: nat, field: nat -> u64, block: (nat, nat) -> seq<byte>, offset: nat): Record {
    var txn := field(offset + 4);
    if code == 3 then
      var length := field(offset + 20);
      Update(txn, field(offset + 12), field(offset + 28), block(offset + 36, length),
        block(offset + 36 + length, length))
    else if code == 1 then Abort(txn)
    else if code == 2 then Commit(txn)
    else if code == 4 then Begin(txn)
    else if code == 5 then Checkpoint(txn, [])
    else Invalid(txn)
  }

  /** The records found by stepping from `offset` with `get_record_size` until `end`. */
  function Scan(file: seq<byte>, offset: nat, end: nat): seq<Record> {
    ScanWith((o: nat) => ParseRecord(file, o), offset, end)
  }

  function ScanWith(parse: nat -> Record, offset: nat, end: nat): seq<Record>
    decreases end - offset
  {
    if offset >= end then [] else
    [parse(offset)] + ScanWith(parse, offset + RecordSize(parse(offset)), end)
  }

  lemma EncodedSize(r: Record)
    requires WellFormed(r)
    ensures |EncodeRecord(r)| == RecordSize(r)
  {
    hide U32Bytes, U64Bytes, Code, Length;
  }

  lemma EncodeSnoc(log: seq<Record>, r: Record)
    ensures EncodeLog(log + [r]) == EncodeLog(log) + EncodeRecord(r)
  {
    assert (log + [r])[..|log|] == log;
  }

  lemma {:induction false} EncodeConcat(a: seq<Record>, b: seq<Record>)
    ensures EncodeLog(a + b) == EncodeLog(a) + EncodeLog(b)
  {
    if b == [] {
      assert a + b == a;
    } else {
      var front, r := b[..|b| - 1], b[|b| - 1];
      EncodeConcat(a, front);
      EncodeSnoc(a + front, r);
      EncodeSnoc(front, r);
      assert b == front + [r] && a + b == a + front + [r];
      ConcatAssociates(EncodeLog(a), EncodeLog(front), EncodeRecord(r));
    }
  }

  lemma ConcatAssociates(x: seq<byte>, y: seq<byte>, z: seq<byte>)
    ensures x + y + z == x + (y + z)
  {
  }

  /** Record `i` occupies exactly the bytes between its offset and the next one. */
  lemma RecordBytes(log: seq<Record>, i: nat)
    requires i < |log| && WellFormed(log[i])
    ensures Offset(log, i + 1) == Offset(log, i) + RecordSize(log[i]) <= |EncodeLog(log)|
    ensures EncodeLog(log)[Offset(log, i)..Offset(log, i + 1)] == EncodeRecord(log[i])
  {
    hide EncodeRecord, RecordSize, EncodeLog, WellFormed;
    EncodedSize(log[i]);
    EncodeSnoc(log[..i], log[i]);
    assert log[..i] + [log[i]] == log[..i + 1];
    EncodeConcat(log[..i + 1], log[i + 1..]);
    assert log[..i + 1] + log[i + 1..] == log;
  }

  /** Parsing the bytes of one record gives back what was stored of it. */
  lemma ParseEncoded(file: seq<byte>, offset: nat, r: Record)
    requires WellFormed(r)
    requires offset + RecordSize(r) <= |file| && file[offset..offset + RecordSize(r)] == EncodeRecord(r)
    ensures ParseRecord(file, offset) == Stored(r)
  {
    hide EncodeRecord, WellFormed, HasHeader, HasFields, ParseRecord, Stored;
    EncodedSize(r);
    EncodedHeader(r);
    if r.Update? {
      EncodedFields(r);
    }
    ParseFields(file, offset, EncodeRecord(r), r);
  }

  lemma ParseFields(file: seq<byte>, offset: nat, e: seq<byte>, r: Record)
    requires WellFormed(r) && HasHeader(e, r) && (r.Update? ==> HasFields(e, r))
    requires offset + |e| <= |file| && file[offset..offset + |e|] == e
    ensures ParseRecord(file, offset) == Stored(r)
  {
    CodeAt(file, offset, e, r);
    FieldAt(file, offset, e, 4, r.txn);
    if r.Update? {
      ParseUpdateFields(file, offset, e, r);
    }
    ParseWithFields(ReadCode(file, offset), (o: nat) => ReadField(file, o),
                    (o: nat, n: nat) => ReadBlock(file, o, Zeros(n)), offset, r);
  }

  lemma CodeAt(file: seq<byte>, offset: nat, e: seq<byte>, r: Record)
    requires HasHeader(e, r) && offset + |e| <= |file| && file[offset..offset + |e|] == e
    ensures ReadCode(file, offset) == Code(r)
  {
    Piece(file, offset, e, 0, 4);
    U32RoundTrip(Code(r));
  }

  lemma ParseWithFields(code: nat, field: nat -> u64, block: (nat, nat) -> seq<byte>, offset: nat, r: Record)
    requires WellFormed(r) && code == Code(r) && field(offset + 4) == r.txn
    requires r.Update? ==>
      && field(offset + 12) == r.page && field(offset + 20) == Length(r) && field(offset + 28) == r.offset
      && block(offset + 36, |r.before|) == r.before && block(offset + 36 + |r.before|, |r.before|) == r.after
    ensures ParseWith(code, field, block, offset) == Stored(r)
  {
  }

  ghost predicate HasHeader(e: seq<byte>, r: Record) {
    |e| >= 12 && e[0..4] == U32Bytes(Code(r)) && e[4..12] == U64Bytes(r.txn)
  }

  lemma EncodedHeader(r: Record)
    ensures HasHeader(EncodeRecord(r), r)
  {
    hide U32Bytes, U64Bytes, Code, Length;
  }

  lemma Piece(file: seq<byte>, offset: nat, e: seq<byte>, at: nat, n: nat)
    requires offset + |e| <= |file| && file[offset..offset + |e|] == e && at + n <= |e|
    ensures ReadBlock(file, offset + at, Zeros(n)) == e[at..at + n]
  {
    var read, piece := ReadBlock(file, offset + at, Zeros(n)), e[at..at + n];
    forall k | 0 <= k < n ensures read[k] == piece[k] {
      assert file[offset..offset + |e|][at + k] == file[offset + at + k];
    }
  }

  lemma ParseUpdateFields(file: seq<byte>, offset: nat, e: seq<byte>, r: Record)
    requires r.Update? && HasFields(e, r)
    requires offset + |e| <= |file| && file[offset..offset + |e|] == e
    ensures ReadField(file, offset + 12) == r.page
    ensures ReadField(file, offset + 20) == Length(r)
    ensures ReadField(file, offset + 28) == r.offset
    ensures ReadBlock(file, offset + 36, Zeros(|r.before|)) == r.before
    ensures ReadBlock(file, offset + 36 + |r.before|, Zeros(|r.before|)) == r.after
  {
    FieldAt(file, offset, e, 12, r.page);
    FieldAt(file, offset, e, 20, Length(r));
    FieldAt(file, offset, e, 28, r.offset);
    Piece(file, offset, e, 36, |r.before|);
    Piece(file, offset, e, 36 + |r.before|, |r.before|);
  }

  ghost predicate HasFields(e: seq<byte>, r: Record)
    requires r.Update?
  {
    var n := |r.before|;
    && |e| == 36 + n + n
    && e[12..20] == U64Bytes(r.page) && e[20..28] == U64Bytes(Length(r)) && e[28..36] == U64Bytes(r.offset)
    && e[36..36 + n] == r.before && e[36 + n..36 + n + n] == r.after
  }

  lemma FieldAt(file: seq<byte>, offset: nat, e: seq<byte>, at: nat, v: u64)
    requires offset + |e| <= |file| && file[offset..offset + |e|] == e && at + 8 <= |e|
    requires e[at..at + 8] == U64Bytes(v)
    ensures ReadField(file, offset + at) == v
  {
    Piece(file, offset, e, at, 8);
    U64RoundTrip(v);
  }

  lemma EncodedFields(r: Record)
    requires WellFormed(r) && r.Update?
    ensures HasFields(EncodeRecord(r), r)
  {
    hide U32Bytes, U64Bytes, Code, Length;
    Fields(U32Bytes(Code(r)), U64Bytes(r.txn), U64Bytes(r.page), U64Bytes(Length(r)), U64Bytes(r.offset), r.before,
      r.after);
  }

  /** Where the fields of an update lie. */
  lemma Fields(code: seq<byte>, txn: seq<byte>, page: seq<byte>, length: seq<byte>, at: seq<byte>, before: seq<byte>,
      after: seq<byte>)
    requires |code| == 4 && |txn| == |page| == |length| == |at| == 8 && |before| == |after|
    ensures var e := code + txn + (page + length + at + before + after);
      && e[12..20] == page && e[20..28] == length && e[28..36] == at
      && e[36..36 + |before|] == before && e[36 + |before|..36 + |before| + |after|] == after
  {
  }

  /** The file holds the log: its first `|EncodeLog(log)|` bytes are the log's encoding. */
  ghost predicate Holds(file: seq<byte>, log: seq<Record>) {
    && (forall i :: 0 <= i < |log| ==> WellFormed(log[i]))
    && |EncodeLog(log)| <= |file|
    && file[..|EncodeLog(log)|] == EncodeLog(log)
  }

  lemma SlicePrefix(file: seq<byte>, n: nat, from: nat, to: nat)
    requires from <= to <= n <= |file|
    ensures file[..n][from..to] == file[from..to]
  {
  }

  lemma ParseAt(file: seq<byte>, log: seq<Record>, i: nat)
    requires Holds(file, log) && i < |log|
    ensures ParseRecord(file, Offset(log, i)) == Stored(log[i])
    ensures Offset(log, i + 1) == Offset(log, i) + RecordSize(log[i]) <= Offset(log, |log|) == |EncodeLog(log)|
  {
    hide EncodeRecord, RecordSize, EncodeLog, WellFormed, ParseRecord, Stored;
    RecordBytes(log, i);
    assert log[..|log|] == log;
    var o, o' := Offset(log, i), Offset(log, i + 1);
    SlicePrefix(file, |EncodeLog(log)|, o, o');
    ParseEncoded(file, o, log[i]);
  }

  function StoredLog(log: seq<Record>): (s: seq<Record>)
    ensures |s| == |log| && forall i :: 0 <= i < |log| ==> s[i] == Stored(log[i])
  {
    seq(|log|, i requires 0 <= i < |log| => Stored(log[i]))
  }

  /** Scanning from any record boundary returns exactly the records from there on and
      stops exactly at the end of the log. */
  lemma ScanRoundTrip(file: seq<byte>, log: seq<Record>, i: nat)
    requires Holds(file, log) && i <= |log|
    ensures Scan(file, Offset(log, i), |EncodeLog(log)|) == StoredLog(log)[i..]
  {
    var parse := (o: nat) => ParseRecord(file, o);
    var starts := seq(|log| + 1, k requires 0 <= k <= |log| => Offset(log, k));
    forall k | 0 <= k < |log|
      ensures parse(starts[k]) == StoredLog(log)[k] && starts[k + 1] == starts[k] + RecordSize(StoredLog(log)[k])
    {
      ParseAt(file, log, k);
    }
    assert log[..|log|] == log;
    ScanWithRoundTrip(parse, starts, StoredLog(log), i);
  }

  lemma {:induction false} ScanWithRoundTrip(parse: nat -> Record, starts: seq<nat>, log: seq<Record>, i: nat)
    requires i <= |log| && |starts| == |log| + 1
    requires forall k :: 0 <= k < |log| ==>
      parse(starts[k]) == log[k] && starts[k + 1] == starts[k] + RecordSize(log[k])
    ensures ScanWith(parse, starts[i], starts[|log|]) == log[i..]
    ensures starts[i] <= starts[|log|]
    decreases |log| - i
  {
    if i < |log| {
      ScanWithRoundTrip(parse, starts, log, i + 1);
    }
  }
}
