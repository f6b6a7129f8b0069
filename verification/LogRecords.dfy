/** Log records and their byte form. */
module LogRecords {
  import opened Defs
  import opened Arith

  type Byte = x: int | 0 <= x < 256

  const LOG_HEADER_SIZE: nat := 20
  const INVALID_LSN: int := -1

  // ---------- integers as little-endian bytes ----------

  function LE(n: nat, k: nat): (s: seq<Byte>)
    ensures |s| == k
  {
    if k == 0 then [] else [n % 256] + LE(n / 256, k - 1)
  }

  function UnLE(s: seq<Byte>): nat {
    if s == [] then 0 else s[0] + 256 * UnLE(s[1..])
  }

  lemma {:induction false} LERoundTrip(n: nat, k: nat)
    requires n < Pow256(k)
    ensures UnLE(LE(n, k)) == n
  {
    if k > 0 { LERoundTrip(n / 256, k - 1); }
  }

  predicate IsI32(x: int) { -0x8000_0000 <= x < 0x8000_0000 }

  predicate IsU64(x: int) { 0 <= x < 0x1_0000_0000_0000_0000 }

  /** A signed 32-bit integer, in two's complement. */
  function I32(x: int): (s: seq<Byte>)
    requires IsI32(x)
    ensures |s| == 4
  {
    LE(if x < 0 then x + 0x1_0000_0000 else x, 4)
  }

  function UnI32(s: seq<Byte>): int {
    var v := UnLE(s);
    if v >= 0x8000_0000 then v - 0x1_0000_0000 else v
  }

  lemma {:induction false} I32RoundTrip(x: int)
    requires IsI32(x)
    ensures UnI32(I32(x)) == x
  {
    assert Pow256(4) == 0x1_0000_0000;
    LERoundTrip(if x < 0 then x + 0x1_0000_0000 else x, 4);
  }

  lemma {:induction false} U64RoundTrip(x: nat)
    requires IsU64(x)
    ensures UnLE(LE(x, 8)) == x
  {
    assert Pow256(4) == 0x1_0000_0000;
    assert Pow256(8) == 256 * (256 * (256 * (256 * Pow256(4))));
    LERoundTrip(x, 8);
  }

  lemma {:induction false} U32RoundTrip(x: nat)
    requires x < 0x1_0000_0000
    ensures UnLE(LE(x, 4)) == x
  {
    assert Pow256(4) == 0x1_0000_0000;
    LERoundTrip(x, 4);
  }

  // ---------- records ----------

  /** table is the character array with its terminator; file is a string, stored without one. */
  datatype Payload =
    | Update(before: seq<Byte>, after: seq<Byte>, rid: Rid, table: seq<Byte>)
    | Insert(value: seq<Byte>, rid: Rid, table: seq<Byte>)
    | Delete(value: seq<Byte>, rid: Rid, table: seq<Byte>)
    | Begin
    | Commit
    | Abort
    | End
    | PageSet(file: seq<Byte>, pageNo: nat, oldPage: seq<Byte>, newPage: seq<Byte>)
    | UndoNext(next: int)
  {
    /** The number of the record's type. */
    function Code(): (c: nat)
      ensures c < 9
    {
      match this
      case Update(_, _, _, _) => 0
      case Insert(_, _, _) => 1
      case Delete(_, _, _) => 2
      case Begin => 3
      case Commit => 4
      case Abort => 5
      case End => 6
      case PageSet(_, _, _, _) => 7
      case UndoNext(_) => 8
    }

    /** A record that undo rolls back. */
    predicate IsTuple() { Update? || Insert? || Delete? }
  }

  datatype LogRecord = LogRecord(lsn: int, tid: int, prevLsn: int, payload: Payload)

  /** log_tot_len_, as the constructors add it up. */
  function TotLen(p: Payload): (n: nat)
    ensures n >= LOG_HEADER_SIZE
  {
    match p
    case Update(before, after, _, table) => LOG_HEADER_SIZE + 2 * 4 + |before| + |after| + 8 + 8 + |table|
    case Insert(value, _, table) => LOG_HEADER_SIZE + 4 + |value| + 8 + 8 + |table|
    case Delete(value, _, table) => LOG_HEADER_SIZE + 4 + |value| + 8 + 8 + |table|
    case PageSet(file, _, _, _) => LOG_HEADER_SIZE + 8 + |file| + 8 + 2 * PAGE_SIZE
    case UndoNext(_) => LOG_HEADER_SIZE + 4
    case _ => LOG_HEADER_SIZE
  }

  predicate RidFits(r: Rid) { IsI32(r.pageNo) && IsI32(r.slotNo) }

  predicate PayloadFits(p: Payload) {
    match p
    case Update(before, after, rid, _) => RidFits(rid)
    case Insert(value, rid, _) => RidFits(rid)
    case Delete(value, rid, _) => RidFits(rid)
    case PageSet(file, pageNo, oldPage, newPage) =>
      && (forall i :: 0 <= i < |file| ==> file[i] != 0)
      && IsU64(pageNo) && |oldPage| == PAGE_SIZE && |newPage| == PAGE_SIZE
    case UndoNext(next) => IsI32(next)
    case _ => true
  }

  /** Every field is in the range of its C++ type; lengths are bounded by the total length, an int. */
  predicate Fits(rec: LogRecord) {
    && IsI32(rec.lsn) && IsI32(rec.tid) && IsI32(rec.prevLsn)
    && TotLen(rec.payload) < 0x8000_0000 && PayloadFits(rec.payload)
  }

  // ---------- the byte form ----------

  function EncodeRid(r: Rid): (s: seq<Byte>)
    requires RidFits(r)
    ensures |s| == 8
  {
    I32(r.pageNo) + I32(r.slotNo)
  }

  /** RmRecord: a length and the bytes. */
  function EncodeRow(v: seq<Byte>): (s: seq<Byte>)
    requires |v| < 0x8000_0000
    ensures |s| == 4 + |v|
  {
    I32(|v|) + v
  }

  function EncodeName(v: seq<Byte>): (s: seq<Byte>)
    ensures |s| == 8 + |v|
  {
    LE(|v|, 8) + v
  }

  function EncodePayload(p: Payload): (s: seq<Byte>)
    requires PayloadFits(p) && TotLen(p) < 0x8000_0000
    ensures |s| == TotLen(p) - LOG_HEADER_SIZE
  {
    match p
    case Update(before, after, rid, table) => EncodeRow(before) + (EncodeRow(after) + (EncodeRid(rid) + EncodeName(table)))
    case Insert(value, rid, table) => EncodeRow(value) + (EncodeRid(rid) + EncodeName(table))
    case Delete(value, rid, table) => EncodeRow(value) + (EncodeRid(rid) + EncodeName(table))
    case PageSet(file, pageNo, oldPage, newPage) => EncodeName(file) + (LE(pageNo, 8) + (oldPage + newPage))
    case UndoNext(next) => I32(next)
    case _ => []
  }

  function EncodeHeader(rec: LogRecord): (s: seq<Byte>)
    requires Fits(rec)
    ensures |s| == LOG_HEADER_SIZE
  {
    I32(rec.payload.Code()) + (I32(rec.lsn) + (LE(TotLen(rec.payload), 4) + (I32(rec.tid) + I32(rec.prevLsn))))
  }

  /** The counted bytes of a record. */
  function Encode(rec: LogRecord): (s: seq<Byte>)
    requires Fits(rec)
    ensures |s| == TotLen(rec.payload)
  {
    EncodeHeader(rec) + EncodePayload(rec.payload)
  }

  // ---------- the header byte by byte ----------

  /** The number of a record's type on disk. */
  ghost function TypeNumber(p: Payload): nat {
    if p.Update? then 0 else if p.Insert? then 1 else if p.Delete? then 2
    else if p.Begin? then 3 else if p.Commit? then 4 else if p.Abort? then 5 else if p.End? then 6
    else if p.PageSet? then 7 else 8
  }

  /** Four bytes that hold v modulo 2^32, the lowest byte first. */
  ghost predicate Word(s: seq<Byte>, v: int) {
    |s| == 4 && s[0] as int + 0x100 * s[1] as int + 0x1_0000 * s[2] as int + 0x100_0000 * s[3] as int == v % 0x1_0000_0000
  }

  lemma {:induction false} WordOf(n: nat)
    ensures Word(LE(n, 4), n)
  {
    var a, b, c := n / 256, n / 256 / 256, n / 256 / 256 / 256;
    assert LE(c, 1) == [c % 256] + LE(c / 256, 0);
    assert LE(b, 2) == [b % 256] + LE(c, 1);
    assert LE(a, 3) == [a % 256] + LE(b, 2);
    assert LE(n, 4) == [n % 256] + LE(a, 3);
  }

  lemma {:induction false} WordOfI32(x: int)
    requires IsI32(x)
    ensures Word(I32(x), x)
  {
    WordOf(if x < 0 then x + 0x1_0000_0000 else x);
  }

  /** The first twenty bytes of a record: type, number, total length, transaction and previous number. */
  lemma {:induction false} HeaderBytes(rec: LogRecord)
    requires Fits(rec)
    ensures var s := Encode(rec);
            && Word(s[..4], TypeNumber(rec.payload)) && Word(s[4..8], rec.lsn) && Word(s[8..12], TotLen(rec.payload))
            && Word(s[12..16], rec.tid) && Word(s[16..20], rec.prevLsn)
  {
    hide LE, I32, Word, EncodePayload, TotLen;
    var p := rec.payload;
    var s, n := Encode(rec), LE(TotLen(p), 4);
    var (a, b, c, d) := (I32(p.Code()), I32(rec.lsn), I32(rec.tid), I32(rec.prevLsn));
    assert s == a + (b + (n + (c + d))) + EncodePayload(p);
    assert s[..4] == a && s[4..8] == b && s[8..12] == n && s[12..16] == c && s[16..20] == d;
    WordOfI32(p.Code());
    WordOfI32(rec.lsn);
    WordOf(TotLen(p));
    WordOfI32(rec.tid);
    WordOfI32(rec.prevLsn);
  }

  // ---------- reading at an offset ----------

  /** bytes stand in src at offset at. */
  ghost predicate Holds(src: seq<Byte>, at: nat, bytes: seq<Byte>) {
    at + |bytes| <= |src| && src[at..at + |bytes|] == bytes
  }

  lemma {:induction false} HoldsSplit(src: seq<Byte>, at: nat, a: seq<Byte>, b: seq<Byte>)
    requires Holds(src, at, a + b)
    ensures Holds(src, at, a) && Holds(src, at + |a|, b)
  {
    var s := src[at..at + |a + b|];
    assert src[at..at + |a|] == s[..|a|] == a;
    assert src[at + |a|..at + |a| + |b|] == s[|a|..] == b;
  }

  // ---------- the payload byte by byte ----------

  lemma {:induction false} WideWord(n: nat)
    ensures LE(n, 8) == LE(n, 4) + LE(n / 0x1_0000_0000, 4)
  {
    var a, b, c, d := n / 256, n / 256 / 256, n / 256 / 256 / 256, n / 256 / 256 / 256 / 256;
    assert d == n / 0x1_0000_0000;
    assert LE(n, 8) == [n % 256] + LE(a, 7) && LE(a, 7) == [a % 256] + LE(b, 6);
    assert LE(b, 6) == [b % 256] + LE(c, 5) && LE(c, 5) == [c % 256] + LE(d, 4);
    assert LE(n, 4) == [n % 256] + LE(a, 3) && LE(a, 3) == [a % 256] + LE(b, 2);
    assert LE(b, 2) == [b % 256] + LE(c, 1) && LE(c, 1) == [c % 256] + LE(d, 0);
  }

  ghost predicate WordAt(s: seq<Byte>, at: nat, v: int) { at + 4 <= |s| && Word(s[at..at + 4], v) }

  /** Eight bytes, the lowest first. */
  ghost predicate WideAt(s: seq<Byte>, at: nat, v: nat) { WordAt(s, at, v) && WordAt(s, at + 4, v / 0x1_0000_0000) }

  ghost predicate RowAt(s: seq<Byte>, at: nat, v: seq<Byte>) { WordAt(s, at, |v|) && Holds(s, at + 4, v) }

  ghost predicate RidAt(s: seq<Byte>, at: nat, r: Rid) { WordAt(s, at, r.pageNo) && WordAt(s, at + 4, r.slotNo) }

  ghost predicate NameAt(s: seq<Byte>, at: nat, v: seq<Byte>) { WideAt(s, at, |v|) && Holds(s, at + 8, v) }

  lemma {:induction false} WordHeld(s: seq<Byte>, at: nat, v: int)
    requires IsI32(v) && Holds(s, at, I32(v))
    ensures WordAt(s, at, v)
  {
    WordOfI32(v);
  }

  lemma {:induction false} WideHeld(s: seq<Byte>, at: nat, v: nat)
    requires Holds(s, at, LE(v, 8))
    ensures WideAt(s, at, v)
  {
    hide LE, Word;
    WideWord(v);
    HoldsSplit(s, at, LE(v, 4), LE(v / 0x1_0000_0000, 4));
    WordOf(v);
    WordOf(v / 0x1_0000_0000);
  }

  lemma {:induction false} RowHeld(s: seq<Byte>, at: nat, v: seq<Byte>)
    requires |v| < 0x8000_0000 && Holds(s, at, EncodeRow(v))
    ensures RowAt(s, at, v)
  {
    hide I32, Holds, WordAt;
    HoldsSplit(s, at, I32(|v|), v);
    WordHeld(s, at, |v|);
  }

  lemma {:induction false} RidHeld(s: seq<Byte>, at: nat, r: Rid)
    requires RidFits(r) && Holds(s, at, EncodeRid(r))
    ensures RidAt(s, at, r)
  {
    hide I32, Holds, WordAt;
    HoldsSplit(s, at, I32(r.pageNo), I32(r.slotNo));
    WordHeld(s, at, r.pageNo);
    WordHeld(s, at + 4, r.slotNo);
  }

  lemma {:induction false} NameHeld(s: seq<Byte>, at: nat, v: seq<Byte>)
    requires Holds(s, at, EncodeName(v))
    ensures NameAt(s, at, v)
  {
    hide LE, Holds, WideAt;
    HoldsSplit(s, at, LE(|v|, 8), v);
    WideHeld(s, at, |v|);
  }

  /** Where the fields of a payload stand, counted from its start. */
  ghost predicate PayloadAt(s: seq<Byte>, p: Payload) {
    match p
    case Update(before, after, rid, table) =>
      var (b, a) := (|before|, |after|);
      RowAt(s, 0, before) && RowAt(s, 4 + b, after) && RidAt(s, 8 + b + a, rid) && NameAt(s, 16 + b + a, table)
    case Insert(value, rid, table) => RowAt(s, 0, value) && RidAt(s, 4 + |value|, rid) && NameAt(s, 12 + |value|, table)
    case Delete(value, rid, table) => RowAt(s, 0, value) && RidAt(s, 4 + |value|, rid) && NameAt(s, 12 + |value|, table)
    case PageSet(file, pageNo, oldPage, newPage) =>
      && NameAt(s, 0, file) && WideAt(s, 8 + |file|, pageNo)
      && Holds(s, 16 + |file|, oldPage) && Holds(s, 16 + |file| + PAGE_SIZE, newPage)
    case UndoNext(next) => WordAt(s, 0, next)
    case _ => s == []
  }

  lemma {:induction false} PayloadBytes(p: Payload)
    requires PayloadFits(p) && TotLen(p) < 0x8000_0000
    ensures PayloadAt(EncodePayload(p), p)
  {
    match p
    case Update(_, _, _, _) => UpdateBytes(p);
    case Insert(value, rid, table) => TupleBytes(EncodePayload(p), value, rid, table);
    case Delete(value, rid, table) => TupleBytes(EncodePayload(p), value, rid, table);
    case PageSet(_, _, _, _) => PageBytes(p);
    case UndoNext(next) =>
      HoldsAll(I32(next));
      WordHeld(I32(next), 0, next);
    case _ =>
  }

  lemma {:induction false} UpdateBytes(p: Payload)
    requires p.Update? && PayloadFits(p) && TotLen(p) < 0x8000_0000
    ensures PayloadAt(EncodePayload(p), p)
  {
    var s, b, a := EncodePayload(p), |p.before|, |p.after|;
    HoldsAll(s);
    hide EncodeRow, EncodeRid, EncodeName, Holds, RowAt, RidAt, NameAt;
    var tail := EncodeRid(p.rid) + EncodeName(p.table);
    HoldsSplit(s, 0, EncodeRow(p.before), EncodeRow(p.after) + tail);
    HoldsSplit(s, 4 + b, EncodeRow(p.after), tail);
    RowHeld(s, 0, p.before);
    RowHeld(s, 4 + b, p.after);
    TailHeld(s, 8 + b + a, p.rid, p.table);
  }

  lemma {:induction false} TupleBytes(s: seq<Byte>, value: seq<Byte>, rid: Rid, table: seq<Byte>)
    requires RidFits(rid) && |value| < 0x8000_0000 && s == EncodeRow(value) + (EncodeRid(rid) + EncodeName(table))
    ensures RowAt(s, 0, value) && RidAt(s, 4 + |value|, rid) && NameAt(s, 12 + |value|, table)
  {
    HoldsAll(s);
    hide EncodeRow, EncodeRid, EncodeName, Holds, RowAt, RidAt, NameAt;
    HoldsSplit(s, 0, EncodeRow(value), EncodeRid(rid) + EncodeName(table));
    RowHeld(s, 0, value);
    TailHeld(s, 4 + |value|, rid, table);
  }

  lemma {:induction false} PageBytes(p: Payload)
    requires p.PageSet? && PayloadFits(p) && TotLen(p) < 0x8000_0000
    ensures PayloadAt(EncodePayload(p), p)
  {
    var s, n := EncodePayload(p), |p.file|;
    HoldsAll(s);
    hide EncodeName, LE, Holds, NameAt, WideAt;
    HoldsSplit(s, 0, EncodeName(p.file), LE(p.pageNo, 8) + (p.oldPage + p.newPage));
    HoldsSplit(s, 8 + n, LE(p.pageNo, 8), p.oldPage + p.newPage);
    HoldsSplit(s, 16 + n, p.oldPage, p.newPage);
    NameHeld(s, 0, p.file);
    WideHeld(s, 8 + n, p.pageNo);
  }

  lemma {:induction false} HoldsAll(s: seq<Byte>)
    ensures Holds(s, 0, s)
  {}

  lemma {:induction false} TailHeld(s: seq<Byte>, at: nat, rid: Rid, table: seq<Byte>)
    requires RidFits(rid) && Holds(s, at, EncodeRid(rid) + EncodeName(table))
    ensures RidAt(s, at, rid) && NameAt(s, at + 8, table)
  {
    hide EncodeRid, EncodeName, Holds, RidAt, NameAt;
    HoldsSplit(s, at, EncodeRid(rid), EncodeName(table));
    RidHeld(s, at, rid);
    NameHeld(s, at + 8, table);
  }

  // ---------- reading back ----------

  /** A read past the end gives nothing in the model; undefined in the source. */
  function Slice(src: seq<Byte>, at: int, n: int): seq<Byte> {
    if 0 <= at && 0 <= n && at + n <= |src| then src[at..at + n] else []
  }

  function ReadI32(src: seq<Byte>, at: int): int { UnI32(Slice(src, at, 4)) }

  function ReadU64(src: seq<Byte>, at: int): nat { UnLE(Slice(src, at, 8)) }

  function ReadRid(src: seq<Byte>, at: int): Rid { Rid(ReadI32(src, at), ReadI32(src, at + 4)) }

  /** A C string stops at the first zero byte. */
  function CString(s: seq<Byte>): seq<Byte> {
    if s == [] || s[0] == 0 then [] else [s[0]] + CString(s[1..])
  }

  lemma {:induction false} CStringSame(s: seq<Byte>)
    requires forall i :: 0 <= i < |s| ==> s[i] != 0
    ensures CString(s) == s
  {
    if s != [] { CStringSame(s[1..]); }
  }

  /** The header fields after the type: LogRecord::deserialize. */
  datatype Header = Header(code: int, lsn: int, totLen: nat, tid: int, prevLsn: int)

  function ReadHeader(src: seq<Byte>, at: int): Header {
    Header(ReadI32(src, at), ReadI32(src, at + 4), UnLE(Slice(src, at + 8, 4)), ReadI32(src, at + 12), ReadI32(src, at + 16))
  }

  /** The payload fields, at running offsets. */
  function ReadPayload(src: seq<Byte>, at: int, code: int): Option<Payload> {
    if code == 0 then
      var n := ReadI32(src, at);
      var at1 := at + 4 + n;
      var m := ReadI32(src, at1);
      var at2 := at1 + 4 + m;
      Some(Update(Slice(src, at + 4, n), Slice(src, at1 + 4, m), ReadRid(src, at2), Slice(src, at2 + 16, ReadU64(src, at2 + 8))))
    else if code == 1 || code == 2 then
      var n := ReadI32(src, at);
      var at1 := at + 4 + n;
      var value, rid, table := Slice(src, at + 4, n), ReadRid(src, at1), Slice(src, at1 + 16, ReadU64(src, at1 + 8));
      Some(if code == 1 then Insert(value, rid, table) else Delete(value, rid, table))
    else if code == 3 then Some(Begin)
    else if code == 4 then Some(Commit)
    else if code == 5 then Some(Abort)
    else if code == 6 then Some(End)
    else if code == 7 then
      var n := ReadU64(src, at);
      var at1 := at + 8 + n;
      Some(PageSet(CString(Slice(src, at + 8, n)), ReadU64(src, at1), Slice(src, at1 + 8, PAGE_SIZE), Slice(src, at1 + 8 + PAGE_SIZE, PAGE_SIZE)))
    else if code == 8 then Some(UndoNext(ReadI32(src, at)))
    else None
  }

  function Decode(src: seq<Byte>, at: int): Option<LogRecord> {
    var h := ReadHeader(src, at);
    match ReadPayload(src, at + LOG_HEADER_SIZE, h.code)
    case Some(p) => Some(LogRecord(h.lsn, h.tid, h.prevLsn, p))
    case None => None
  }

  lemma {:induction false} ReadRidBack(src: seq<Byte>, at: nat, r: Rid)
    requires RidFits(r) && Holds(src, at, EncodeRid(r))
    ensures ReadRid(src, at) == r
  {
    HoldsSplit(src, at, I32(r.pageNo), I32(r.slotNo));
    I32RoundTrip(r.pageNo);
    I32RoundTrip(r.slotNo);
  }

  lemma {:induction false} ReadRowBack(src: seq<Byte>, at: nat, v: seq<Byte>)
    requires |v| < 0x8000_0000 && Holds(src, at, EncodeRow(v))
    ensures ReadI32(src, at) == |v| && Slice(src, at + 4, |v|) == v
  {
    HoldsSplit(src, at, I32(|v|), v);
    I32RoundTrip(|v|);
  }

  lemma {:induction false} ReadNameBack(src: seq<Byte>, at: nat, v: seq<Byte>)
    requires IsU64(|v|) && Holds(src, at, EncodeName(v))
    ensures ReadU64(src, at) == |v| && Slice(src, at + 8, |v|) == v
  {
    HoldsSplit(src, at, LE(|v|, 8), v);
    U64RoundTrip(|v|);
  }

  /** The two fields that end every tuple record. */
  lemma {:induction false} ReadTailBack(src: seq<Byte>, at: nat, rid: Rid, table: seq<Byte>)
    requires RidFits(rid) && IsU64(|table|) && Holds(src, at, EncodeRid(rid) + EncodeName(table))
    ensures ReadRid(src, at) == rid && ReadU64(src, at + 8) == |table| && Slice(src, at + 16, |table|) == table
  {
    HoldsSplit(src, at, EncodeRid(rid), EncodeName(table));
    ReadRidBack(src, at, rid);
    ReadNameBack(src, at + 8, table);
  }

  lemma {:induction false} ReadHeaderBack(src: seq<Byte>, at: nat, rec: LogRecord)
    requires Fits(rec) && Holds(src, at, EncodeHeader(rec))
    ensures ReadHeader(src, at) == Header(rec.payload.Code(), rec.lsn, TotLen(rec.payload), rec.tid, rec.prevLsn)
  {
    hide I32, LE, UnLE, UnI32;
    var e := I32(rec.tid) + I32(rec.prevLsn);
    var d := LE(TotLen(rec.payload), 4) + e;
    var c := I32(rec.lsn) + d;
    HoldsSplit(src, at, I32(rec.payload.Code()), c);
    HoldsSplit(src, at + 4, I32(rec.lsn), d);
    HoldsSplit(src, at + 8, LE(TotLen(rec.payload), 4), e);
    HoldsSplit(src, at + 12, I32(rec.tid), I32(rec.prevLsn));
    I32RoundTrip(rec.payload.Code());
    I32RoundTrip(rec.lsn);
    U32RoundTrip(TotLen(rec.payload));
    I32RoundTrip(rec.tid);
    I32RoundTrip(rec.prevLsn);
  }

  lemma {:induction false} ReadUpdateBack(src: seq<Byte>, at: nat, p: Payload)
    requires p.Update? && PayloadFits(p) && TotLen(p) < 0x8000_0000 && Holds(src, at, EncodePayload(p))
    ensures ReadPayload(src, at, p.Code()) == Some(p)
  {
    hide EncodeRow, EncodeRid, EncodeName, ReadI32, ReadU64, ReadRid, Slice, Holds;
    var tail := EncodeRid(p.rid) + EncodeName(p.table);
    HoldsSplit(src, at, EncodeRow(p.before), EncodeRow(p.after) + tail);
    ReadRowBack(src, at, p.before);
    var at1 := at + 4 + |p.before|;
    HoldsSplit(src, at1, EncodeRow(p.after), tail);
    ReadRowBack(src, at1, p.after);
    ReadTailBack(src, at1 + 4 + |p.after|, p.rid, p.table);
  }

  lemma {:induction false} ReadTupleBack(src: seq<Byte>, at: nat, p: Payload)
    requires (p.Insert? || p.Delete?) && PayloadFits(p) && TotLen(p) < 0x8000_0000 && Holds(src, at, EncodePayload(p))
    ensures ReadPayload(src, at, p.Code()) == Some(p)
  {
    hide EncodeRow, EncodeRid, EncodeName, ReadI32, ReadU64, ReadRid, Slice, Holds;
    HoldsSplit(src, at, EncodeRow(p.value), EncodeRid(p.rid) + EncodeName(p.table));
    ReadRowBack(src, at, p.value);
    ReadTailBack(src, at + 4 + |p.value|, p.rid, p.table);
  }

  lemma {:induction false} ReadPageBack(src: seq<Byte>, at: nat, p: Payload)
    requires p.PageSet? && PayloadFits(p) && TotLen(p) < 0x8000_0000 && Holds(src, at, EncodePayload(p))
    ensures ReadPayload(src, at, p.Code()) == Some(p)
  {
    hide EncodeName, LE, UnLE, ReadU64, Slice, CString, Holds;
    var pages := p.oldPage + p.newPage;
    var rest := LE(p.pageNo, 8) + pages;
    HoldsSplit(src, at, EncodeName(p.file), rest);
    ReadNameBack(src, at, p.file);
    var at1 := at + 8 + |p.file|;
    HoldsSplit(src, at1, LE(p.pageNo, 8), pages);
    ReadNumberBack(src, at1, p.pageNo);
    HoldsSplit(src, at1 + 8, p.oldPage, p.newPage);
    SliceBack(src, at1 + 8, p.oldPage);
    SliceBack(src, at1 + 8 + PAGE_SIZE, p.newPage);
    CStringSame(p.file);
  }

  lemma {:induction false} SliceBack(src: seq<Byte>, at: nat, bytes: seq<Byte>)
    requires Holds(src, at, bytes)
    ensures Slice(src, at, |bytes|) == bytes
  {}

  lemma {:induction false} ReadNumberBack(src: seq<Byte>, at: nat, x: nat)
    requires IsU64(x) && Holds(src, at, LE(x, 8))
    ensures ReadU64(src, at) == x
  {
    hide LE, UnLE, Slice;
    SliceBack(src, at, LE(x, 8));
    U64RoundTrip(x);
  }

  /** A record stands at an offset: reading there gives it back, whatever follows. */
  lemma {:induction false} DecodeBack(src: seq<Byte>, at: nat, rec: LogRecord)
    requires Fits(rec) && Holds(src, at, Encode(rec))
    ensures Decode(src, at) == Some(rec)
    ensures ReadHeader(src, at).totLen == TotLen(rec.payload)
  {
    hide ReadHeader, EncodeHeader, ReadPayload, EncodePayload;
    HoldsSplit(src, at, EncodeHeader(rec), EncodePayload(rec.payload));
    ReadHeaderBack(src, at, rec);
    PayloadBack(src, at + LOG_HEADER_SIZE, rec.payload);
  }

  lemma {:induction false} PayloadBack(src: seq<Byte>, at: nat, p: Payload)
    requires PayloadFits(p) && TotLen(p) < 0x8000_0000 && Holds(src, at, EncodePayload(p))
    ensures ReadPayload(src, at, p.Code()) == Some(p)
  {
    match p
    case Update(_, _, _, _) => ReadUpdateBack(src, at, p);
    case Insert(_, _, _) => ReadTupleBack(src, at, p);
    case Delete(_, _, _) => ReadTupleBack(src, at, p);
    case PageSet(_, _, _, _) => ReadPageBack(src, at, p);
    case UndoNext(next) => I32RoundTrip(next);
    case _ =>
  }

  // ---------- writing into a buffer ----------

  /** memcpy of bytes to the end of the base..offset part that a record has filled so far. */
  method Append(dest: array<Byte>, offset: nat, bytes: seq<Byte>, ghost base: nat, ghost written: seq<Byte>) returns (next: nat)
    requires offset == base + |written| && Holds(dest[..], base, written) && offset + |bytes| <= dest.Length
    modifies dest
    ensures next == offset + |bytes| && Holds(dest[..], base, written + bytes)
    ensures dest[..base] == old(dest[..base])
  {
    ghost var before := dest[..];
    forall i | 0 <= i < |bytes| { dest[offset + i] := bytes[i]; }
    next := offset + |bytes|;
    assert dest[base..offset] == before[base..offset];
    assert dest[base..next] == written + bytes;
    assert dest[..base] == before[..base];
    assert dest[..][base..next] == dest[base..next];
  }

  /** LogRecord::serialize. */
  method SerializeHeader(rec: LogRecord, dest: array<Byte>, at: nat)
    requires Fits(rec) && at + LOG_HEADER_SIZE <= dest.Length
    modifies dest
    ensures Holds(dest[..], at, EncodeHeader(rec)) && dest[..at] == old(dest[..at])
  {
    hide Holds, I32, LE;
    HoldsNothing(dest[..], at);
    var p := rec.payload;
    var o := Append(dest, at, I32(p.Code()), at, []);
    ghost var w := [] + I32(p.Code());
    o := Append(dest, o, I32(rec.lsn), at, w);
    w := w + I32(rec.lsn);
    o := Append(dest, o, LE(TotLen(p), 4), at, w);
    w := w + LE(TotLen(p), 4);
    o := Append(dest, o, I32(rec.tid), at, w);
    w := w + I32(rec.tid);
    o := Append(dest, o, I32(rec.prevLsn), at, w);
    w := w + I32(rec.prevLsn);
    assert w == EncodeHeader(rec);
  }

  lemma {:induction false} HoldsNothing(src: seq<Byte>, at: nat)
    requires at <= |src|
    ensures Holds(src, at, [])
  {}

  /** Bytes a tuple record writes behind its counted length. */
  function Overhang(p: Payload): nat { if p.IsTuple() then 4 else 0 }

  method AppendRow(dest: array<Byte>, offset: nat, v: seq<Byte>, ghost base: nat, ghost written: seq<Byte>) returns (next: nat)
    requires |v| < 0x8000_0000
    requires offset == base + |written| && Holds(dest[..], base, written) && offset + 4 + |v| <= dest.Length
    modifies dest
    ensures next == offset + 4 + |v| && Holds(dest[..], base, written + EncodeRow(v))
    ensures dest[..base] == old(dest[..base])
  {
    hide Holds, I32;
    next := Append(dest, offset, I32(|v|), base, written);
    next := Append(dest, next, v, base, written + I32(|v|));
    assert written + I32(|v|) + v == written + EncodeRow(v);
  }

  /** The record id, the table name and the undo_next that end every tuple record. */
  method AppendTail(dest: array<Byte>, offset: nat, rid: Rid, table: seq<Byte>, ghost base: nat, ghost written: seq<Byte>)
    requires RidFits(rid)
    requires offset == base + |written| && Holds(dest[..], base, written) && offset + 16 + |table| + 4 <= dest.Length
    modifies dest
    ensures Holds(dest[..], base, written + (EncodeRid(rid) + EncodeName(table)))
    ensures dest[..base] == old(dest[..base])
  {
    hide Holds, I32, LE;
    var o := Append(dest, offset, EncodeRid(rid), base, written);
    ghost var w := written + EncodeRid(rid);
    o := Append(dest, o, LE(|table|, 8), base, w);
    w := w + LE(|table|, 8);
    o := Append(dest, o, table, base, w);
    w := w + table;
    assert w == written + (EncodeRid(rid) + EncodeName(table));
    ghost var full := w + I32(INVALID_LSN);
    o := Append(dest, o, I32(INVALID_LSN), base, w);
    HoldsSplit(dest[..], base, w, I32(INVALID_LSN));
  }

  method SerializeUpdate(p: Payload, dest: array<Byte>, offset: nat, ghost base: nat, ghost written: seq<Byte>)
    requires p.Update? && PayloadFits(p) && TotLen(p) < 0x8000_0000
    requires offset == base + |written| && Holds(dest[..], base, written)
    requires offset + TotLen(p) - LOG_HEADER_SIZE + Overhang(p) <= dest.Length
    modifies dest
    ensures Holds(dest[..], base, written + EncodePayload(p)) && dest[..base] == old(dest[..base])
  {
    hide Holds, EncodeRow, EncodeRid, EncodeName;
    var o := AppendRow(dest, offset, p.before, base, written);
    o := AppendRow(dest, o, p.after, base, written + EncodeRow(p.before));
    ghost var w := written + EncodeRow(p.before) + EncodeRow(p.after);
    AppendTail(dest, o, p.rid, p.table, base, w);
    assert w + (EncodeRid(p.rid) + EncodeName(p.table)) == written + EncodePayload(p);
  }

  /** Insert and delete records have the same form. */
  method SerializeTuple(p: Payload, dest: array<Byte>, offset: nat, ghost base: nat, ghost written: seq<Byte>)
    requires (p.Insert? || p.Delete?) && PayloadFits(p) && TotLen(p) < 0x8000_0000
    requires offset == base + |written| && Holds(dest[..], base, written)
    requires offset + TotLen(p) - LOG_HEADER_SIZE + Overhang(p) <= dest.Length
    modifies dest
    ensures Holds(dest[..], base, written + EncodePayload(p)) && dest[..base] == old(dest[..base])
  {
    hide Holds, EncodeRow, EncodeRid, EncodeName;
    var o := AppendRow(dest, offset, p.value, base, written);
    ghost var w := written + EncodeRow(p.value);
    AppendTail(dest, o, p.rid, p.table, base, w);
    assert w + (EncodeRid(p.rid) + EncodeName(p.table)) == written + EncodePayload(p);
  }

  method SerializePage(p: Payload, dest: array<Byte>, offset: nat, ghost base: nat, ghost written: seq<Byte>)
    requires p.PageSet? && PayloadFits(p) && TotLen(p) < 0x8000_0000
    requires offset == base + |written| && Holds(dest[..], base, written)
    requires offset + TotLen(p) - LOG_HEADER_SIZE <= dest.Length
    modifies dest
    ensures Holds(dest[..], base, written + EncodePayload(p)) && dest[..base] == old(dest[..base])
  {
    hide Holds, LE;
    var o := Append(dest, offset, LE(|p.file|, 8), base, written);
    ghost var w := written + LE(|p.file|, 8);
    o := Append(dest, o, p.file, base, w);
    w := w + p.file;
    o := Append(dest, o, LE(p.pageNo, 8), base, w);
    w := w + LE(p.pageNo, 8);
    o := Append(dest, o, p.oldPage, base, w);
    w := w + p.oldPage;
    o := Append(dest, o, p.newPage, base, w);
    w := w + p.newPage;
    assert w == written + EncodePayload(p);
  }

  /** The serialize methods of the record classes: the counted bytes land at dest + at, and nothing before changes. */
  method Serialize(rec: LogRecord, dest: array<Byte>, at: nat)
    requires Fits(rec) && at + TotLen(rec.payload) + Overhang(rec.payload) <= dest.Length
    modifies dest
    ensures Holds(dest[..], at, Encode(rec)) && dest[..at] == old(dest[..at])
  {
    hide Holds, I32, EncodeHeader, EncodeRow, EncodeRid, EncodeName;
    SerializeHeader(rec, dest, at);
    var o := at + LOG_HEADER_SIZE;
    match rec.payload {
      case Update(_, _, _, _) => SerializeUpdate(rec.payload, dest, o, at, EncodeHeader(rec));
      case Insert(_, _, _) => SerializeTuple(rec.payload, dest, o, at, EncodeHeader(rec));
      case Delete(_, _, _) => SerializeTuple(rec.payload, dest, o, at, EncodeHeader(rec));
      case PageSet(_, _, _, _) => SerializePage(rec.payload, dest, o, at, EncodeHeader(rec));
      case UndoNext(next) => o := Append(dest, o, I32(next), at, EncodeHeader(rec));
      case _ => assert Encode(rec) == EncodeHeader(rec);
    }
  }
}
