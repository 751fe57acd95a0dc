/** The byte format of the log: records of seven kinds, each with its total length in the
    header, and the scan that steps from record to record. */
module LogCodec {
  import opened Defs
  import IxNode

  type Byte = b: int | 0 <= b < 256
  type Rid = IxNode.Rid

  // Little-endian integers

  function Pow256(k: nat): nat {
    if k == 0 then 1 else 256 * Pow256(k - 1)
  }

  function LittleEndian(v: nat, k: nat): (r: seq<Byte>)
    ensures |r| == k
  {
    if k == 0 then [] else [v % 256] + LittleEndian(v / 256, k - 1)
  }

  function FromLittleEndian(s: seq<Byte>): nat {
    if s == [] then 0 else s[0] + 256 * FromLittleEndian(s[1..])
  }

  lemma {:induction false} LittleEndianBack(v: nat, k: nat)
    requires v < Pow256(k)
    ensures FromLittleEndian(LittleEndian(v, k)) == v
  {
    if k > 0 {
      LittleEndianBack(v / 256, k - 1);
    }
  }

  /** The lowest byte comes first. */
  lemma {:induction false} LowestFirst(v: nat, k: nat)
    requires v < 256 && 0 < k
    ensures LittleEndian(v, k)[0] == v && forall i :: 1 <= i < k ==> LittleEndian(v, k)[i] == 0
  {
    if k > 1 { LowestFirst(0, k - 1); }
  }

  predicate IsInt(v: int) {
    INT_MIN <= v <= INT_MAX
  }

  function Unsigned(v: int): int {
    if v < 0 then v + 0x1_0000_0000 else v
  }

  function Signed(u: int): int {
    if u > INT_MAX then u - 0x1_0000_0000 else u
  }

  function IntBytes(v: int): (r: seq<Byte>)
    requires IsInt(v)
    ensures |r| == 4
  {
    LittleEndian(Unsigned(v), 4)
  }

  function SizeBytes(v: nat): (r: seq<Byte>)
    ensures |r| == 8
  {
    LittleEndian(v, 8)
  }

  predicate Within(src: seq<Byte>, off: int, n: int) {
    0 <= off && 0 <= n && off + n <= |src|
  }

  function ReadInt(src: seq<Byte>, off: int): int
    requires Within(src, off, 4)
  {
    Signed(FromLittleEndian(src[off..off + 4]))
  }

  function ReadUnsigned(src: seq<Byte>, off: int): nat
    requires Within(src, off, 4)
  {
    FromLittleEndian(src[off..off + 4])
  }

  function ReadSize(src: seq<Byte>, off: int): nat
    requires Within(src, off, 8)
  {
    FromLittleEndian(src[off..off + 8])
  }

  lemma Powers()
    ensures Pow256(4) == 0x1_0000_0000 && Pow256(8) == 0x1_0000_0000_0000_0000
  {
    assert Pow256(1) == 256 && Pow256(2) == 0x1_0000 && Pow256(3) == 0x100_0000;
    assert Pow256(5) == 0x100_0000_0000 && Pow256(6) == 0x1_0000_0000_0000 && Pow256(7) == 0x100_0000_0000_0000;
  }

  /** Reading back an integer at the front of the unread part. */
  lemma IntBack(src: seq<Byte>, off: nat, v: int, tail: seq<Byte>)
    requires IsInt(v) && off <= |src| && src[off..] == IntBytes(v) + tail
    ensures Within(src, off, 4) && ReadInt(src, off) == v && src[off + 4..] == tail
  {
    Powers();
    LittleEndianBack(Unsigned(v), 4);
    assert src[off..][..4] == src[off..off + 4] && src[off..][4..] == src[off + 4..];
  }

  lemma UnsignedBack(src: seq<Byte>, off: nat, v: nat, tail: seq<Byte>)
    requires v < 0x1_0000_0000 && off <= |src| && src[off..] == LittleEndian(v, 4) + tail
    ensures Within(src, off, 4) && ReadUnsigned(src, off) == v && src[off + 4..] == tail
  {
    Powers();
    LittleEndianBack(v, 4);
    assert src[off..][..4] == src[off..off + 4] && src[off..][4..] == src[off + 4..];
  }

  lemma SizeBack(src: seq<Byte>, off: nat, v: nat, tail: seq<Byte>)
    requires v < 0x1_0000_0000_0000_0000 && off <= |src| && src[off..] == SizeBytes(v) + tail
    ensures Within(src, off, 8) && ReadSize(src, off) == v && src[off + 8..] == tail
  {
    Powers();
    LittleEndianBack(v, 8);
    assert src[off..][..8] == src[off..off + 8] && src[off..][8..] == src[off + 8..];
  }

  lemma BytesBack(src: seq<Byte>, off: nat, b: seq<Byte>, tail: seq<Byte>)
    requires off <= |src| && src[off..] == b + tail
    ensures Within(src, off, |b|) && src[off..off + |b|] == b && src[off + |b|..] == tail
  {
    assert src[off..][..|b|] == src[off..off + |b|] && src[off..][|b|..] == src[off + |b|..];
  }

  // Records

  datatype Kind = UPDATE | INSERT | DELETE | BEGIN | COMMIT | ABORT | CHECKPOINT

  /** `before` and `after` are the old and the new record; insertions have no old one and
      deletions no new one. */
  datatype Payload =
    | Nothing
    | Change(values: seq<seq<Byte>>, rid: Rid, table: seq<Byte>, firstFree: int, numPages: int)

  datatype RawRecord = RawRecord(kind: Kind, lsn: int, tid: int, prev: int, payload: Payload)

  const LOG_HEADER_SIZE: nat := 20

  function Code(k: Kind): int {
    match k
    case UPDATE => 0
    case INSERT => 1
    case DELETE => 2
    case BEGIN => 3
    case COMMIT => 4
    case ABORT => 5
    case CHECKPOINT => 6
  }

  function KindOf(c: int): Kind {
    match c
    case 0 => UPDATE
    case 1 => INSERT
    case 2 => DELETE
    case 3 => BEGIN
    case 4 => COMMIT
    case 5 => ABORT
    case _ => CHECKPOINT
  }

  /** The kinds in the order of their numbers. */
  const KINDS: seq<Kind> := [UPDATE, INSERT, DELETE, BEGIN, COMMIT, ABORT, CHECKPOINT]

  lemma CodeIsRank(k: Kind)
    ensures 0 <= Code(k) < |KINDS| && KINDS[Code(k)] == k && KindOf(Code(k)) == k
  {
  }

  /** How many record values the kind carries. */
  function NumValues(k: Kind): nat {
    match k
    case UPDATE => 2
    case INSERT => 1
    case DELETE => 1
    case _ => 0
  }

  function ValuesLen(vs: seq<seq<Byte>>): nat {
    if vs == [] then 0 else 4 + |vs[0]| + ValuesLen(vs[1..])
  }

  /** `log_tot_len_`, as the constructors add it up. */
  function TotLen(r: RawRecord): nat {
    LOG_HEADER_SIZE + match r.payload
                      case Nothing => 0
                      case Change(vs, _, table, _, _) => ValuesLen(vs) + 8 + 8 + |table| + 4 + 4
  }

  ghost predicate Wf(r: RawRecord) {
    && IsInt(r.lsn) && IsInt(r.tid) && IsInt(r.prev) && TotLen(r) < 0x1_0000_0000
    && match r.payload
       case Nothing => r.kind !in {UPDATE, INSERT, DELETE}
       case Change(vs, rid, table, firstFree, numPages) =>
         && r.kind in {UPDATE, INSERT, DELETE} && |vs| == (if r.kind == UPDATE then 2 else 1)
         && (forall i :: 0 <= i < |vs| ==> IsInt(|vs[i]|))
         && IsInt(rid.pageNo) && IsInt(rid.slotNo) && IsInt(firstFree) && IsInt(numPages)
  }

  function ValuesBytes(vs: seq<seq<Byte>>): (r: seq<Byte>)
    requires forall i :: 0 <= i < |vs| ==> IsInt(|vs[i]|)
    ensures |r| == ValuesLen(vs)
  {
    if vs == [] then [] else IntBytes(|vs[0]|) + vs[0] + ValuesBytes(vs[1..])
  }

  ghost function PlaceBytes(p: Payload): (r: seq<Byte>)
    requires p.Change? && IsInt(p.rid.pageNo) && IsInt(p.rid.slotNo) && IsInt(p.firstFree) && IsInt(p.numPages)
    ensures |r| == 24 + |p.table|
  {
    IntBytes(p.rid.pageNo) +
        (IntBytes(p.rid.slotNo) + (SizeBytes(|p.table|) + (p.table + (IntBytes(p.firstFree) + IntBytes(p.numPages)))))
  }

  ghost function PayloadBytes(r: RawRecord): (b: seq<Byte>)
    requires Wf(r)
    ensures |b| == TotLen(r) - LOG_HEADER_SIZE
  {
    match r.payload
    case Nothing => []
    case Change(vs, _, _, _, _) => ValuesBytes(vs) + PlaceBytes(r.payload)
  }

  /** The bytes of a record; their number is the length that the header tells. */
  ghost function Encoded(r: RawRecord): (b: seq<Byte>)
    requires Wf(r)
    ensures |b| == TotLen(r)
  {
    IntBytes(Code(r.kind)) +
        (IntBytes(r.lsn) + (LittleEndian(TotLen(r), 4) + (IntBytes(r.tid) + (IntBytes(r.prev) + PayloadBytes(r)))))
  }

  // Writing

  method Put(dest: array<Byte>, off: nat, b: seq<Byte>) returns (next: nat)
    requires off + |b| <= dest.Length
    modifies dest
    ensures next == off + |b| && dest[..next] == old(dest[..off]) + b
  {
    for i := 0 to |b|
      invariant dest[..off + i] == old(dest[..off]) + b[..i]
    {
      dest[off + i] := b[i];
      assert b[..i + 1] == b[..i] + [b[i]];
    }
    assert b[..|b|] == b;
    next := off + |b|;
  }

  /** `serialize` writes the fields at an advancing offset; they fill `log_tot_len_` bytes. */
  method Serialize(r: RawRecord) returns (dest: array<Byte>)
    requires Wf(r)
    ensures fresh(dest) && dest.Length == TotLen(r) && dest[..] == Encoded(r)
  {
    hide LittleEndian, IntBytes, SizeBytes, ValuesLen, ValuesBytes;
    dest := new Byte[TotLen(r)](_ => 0);
    var off := Put(dest, 0, IntBytes(Code(r.kind)));
    off := Put(dest, off, IntBytes(r.lsn));
    off := Put(dest, off, LittleEndian(TotLen(r), 4));
    off := Put(dest, off, IntBytes(r.tid));
    off := Put(dest, off, IntBytes(r.prev));
    if r.payload.Change? {
      off := PutChange(dest, off, r);
    }
    assert dest[..off] == dest[..];
  }

  method PutChange(dest: array<Byte>, start: nat, r: RawRecord) returns (off: nat)
    requires Wf(r) && r.payload.Change? && start + |PayloadBytes(r)| == dest.Length
    modifies dest
    ensures off == dest.Length && dest[..] == old(dest[..start]) + PayloadBytes(r)
  {
    hide LittleEndian, IntBytes, SizeBytes, ValuesBytes, ValuesLen, PlaceBytes;
    off := PutValues(dest, start, r.payload.values);
    off := PutPlace(dest, off, r.payload);
    assert dest[..off] == dest[..];
  }

  method PutValues(dest: array<Byte>, start: nat, vs: seq<seq<Byte>>) returns (off: nat)
    requires (forall i :: 0 <= i < |vs| ==> IsInt(|vs[i]|)) && start + ValuesLen(vs) <= dest.Length
    modifies dest
    ensures off == start + ValuesLen(vs) && dest[..off] == old(dest[..start]) + ValuesBytes(vs)
  {
    hide LittleEndian, IntBytes, ValuesBytes, ValuesLen;
    off := start;
    ghost var head := dest[..start];
    NoValues(vs);
    for i := 0 to |vs|
      invariant off == start + ValuesLen(vs[..i]) && off + ValuesLen(vs[i..]) == start + ValuesLen(vs)
      invariant dest[..off] == head + ValuesBytes(vs[..i])
    {
      ValuesSplit(vs, i);
      off := Put(dest, off, IntBytes(|vs[i]|));
      off := Put(dest, off, vs[i]);
    }
    assert vs[..|vs|] == vs;
  }

  lemma NoValues(vs: seq<seq<Byte>>)
    ensures ValuesLen(vs[..0]) == 0 && ValuesBytes(vs[..0]) == [] && vs[0..] == vs && ValuesLen(vs[|vs|..]) == 0
  {
  }

  method PutPlace(dest: array<Byte>, start: nat, p: Payload) returns (off: nat)
    requires p.Change? && IsInt(p.rid.pageNo) && IsInt(p.rid.slotNo) && IsInt(p.firstFree) && IsInt(p.numPages)
    requires start + |PlaceBytes(p)| <= dest.Length
    modifies dest
    ensures off == start + |PlaceBytes(p)| && dest[..off] == old(dest[..start]) + PlaceBytes(p)
  {
    hide LittleEndian, IntBytes, SizeBytes;
    off := Put(dest, start, IntBytes(p.rid.pageNo));
    off := Put(dest, off, IntBytes(p.rid.slotNo));
    off := Put(dest, off, SizeBytes(|p.table|));
    off := Put(dest, off, p.table);
    off := Put(dest, off, IntBytes(p.firstFree));
    off := Put(dest, off, IntBytes(p.numPages));
  }

  lemma {:induction false} ValuesSnoc(vs: seq<seq<Byte>>, v: seq<Byte>)
    requires (forall i :: 0 <= i < |vs| ==> IsInt(|vs[i]|)) && IsInt(|v|)
    ensures ValuesBytes(vs + [v]) == ValuesBytes(vs) + IntBytes(|v|) + v
    ensures ValuesLen(vs + [v]) == ValuesLen(vs) + 4 + |v|
  {
    if vs == [] {
      assert vs + [v] == [v];
      assert ValuesBytes([v]) == IntBytes(|v|) + v + ValuesBytes([]);
    } else {
      assert (vs + [v])[1..] == vs[1..] + [v];
      ValuesSnoc(vs[1..], v);
    }
  }

  lemma ValuesSplit(vs: seq<seq<Byte>>, i: nat)
    requires i < |vs| && (forall j :: 0 <= j < |vs| ==> IsInt(|vs[j]|))
    ensures ValuesBytes(vs[..i + 1]) == ValuesBytes(vs[..i]) + IntBytes(|vs[i]|) + vs[i]
    ensures ValuesLen(vs[..i + 1]) == ValuesLen(vs[..i]) + 4 + |vs[i]|
    ensures ValuesLen(vs[i..]) == 4 + |vs[i]| + ValuesLen(vs[i + 1..])
    ensures ValuesBytes(vs[i..]) == IntBytes(|vs[i]|) + vs[i] + ValuesBytes(vs[i + 1..])
  {
    assert vs[..i + 1] == vs[..i] + [vs[i]];
    ValuesSnoc(vs[..i], vs[i]);
    assert vs[i..][1..] == vs[i + 1..];
  }

  // Reading

  /** `deserialize` gives back the record. */
  method Deserialize(src: seq<Byte>, ghost r: RawRecord) returns (rec: RawRecord)
    requires Wf(r) && src == Encoded(r)
    ensures rec == r
  {
    hide LittleEndian, FromLittleEndian, IntBytes, SizeBytes, ReadInt, ReadUnsigned, ReadSize, PayloadBytes, TotLen;
    HeaderBack(src, r);
    var kind := KindOf(ReadInt(src, 0));
    var payload := Nothing;
    if NumValues(kind) > 0 {
      payload := DeserializeChange(src, kind, r);
    }
    rec := RawRecord(kind, ReadInt(src, 4), ReadInt(src, 12), ReadInt(src, 16), payload);
  }

  lemma HeaderBack(src: seq<Byte>, r: RawRecord)
    requires Wf(r) && LOG_HEADER_SIZE <= |src| && src[..LOG_HEADER_SIZE] == Encoded(r)[..LOG_HEADER_SIZE]
    ensures ReadInt(src, 0) == Code(r.kind) && ReadInt(src, 4) == r.lsn && ReadUnsigned(src, 8) == TotLen(r)
    ensures ReadInt(src, 12) == r.tid && ReadInt(src, 16) == r.prev && KindOf(ReadInt(src, 0)) == r.kind
  {
    hide LittleEndian, FromLittleEndian, IntBytes, ReadInt, ReadUnsigned, PayloadBytes, TotLen;
    var tail := src[LOG_HEADER_SIZE..];
    var t4 := IntBytes(r.prev) + tail;
    var t3 := IntBytes(r.tid) + t4;
    var t2 := LittleEndian(TotLen(r), 4) + t3;
    var t1 := IntBytes(r.lsn) + t2;
    assert src == src[..LOG_HEADER_SIZE] + tail;
    assert src[0..] == IntBytes(Code(r.kind)) + t1;
    IntBack(src, 0, Code(r.kind), t1);
    IntBack(src, 4, r.lsn, t2);
    UnsignedBack(src, 8, TotLen(r), t3);
    IntBack(src, 12, r.tid, t4);
    IntBack(src, 16, r.prev, tail);
  }

  lemma ChangeStarts(r: RawRecord)
    requires Wf(r) && r.payload.Change?
    ensures Encoded(r)[LOG_HEADER_SIZE..] == ValuesBytes(r.payload.values) + PlaceBytes(r.payload)
  {
    hide LittleEndian, IntBytes, ValuesBytes, PlaceBytes;
  }

  lemma ValueBack(src: seq<Byte>, off: nat, vs: seq<seq<Byte>>, i: nat, place: seq<Byte>)
    requires i < |vs| && (forall j :: 0 <= j < |vs| ==> IsInt(|vs[j]|))
    requires off <= |src| && src[off..] == ValuesBytes(vs[i..]) + place
    ensures Within(src, off, 4) && ReadInt(src, off) == |vs[i]| && Within(src, off + 4, |vs[i]|)
    ensures src[off + 4..off + 4 + |vs[i]|] == vs[i] && src[off + 4 + |vs[i]|..] == ValuesBytes(vs[i + 1..]) + place
  {
    hide LittleEndian, FromLittleEndian, IntBytes, ReadInt, ValuesBytes;
    ValuesSplit(vs, i);
    var tail := ValuesBytes(vs[i + 1..]) + place;
    assert src[off..] == IntBytes(|vs[i]|) + (vs[i] + tail);
    IntBack(src, off, |vs[i]|, vs[i] + tail);
    BytesBack(src, off + 4, vs[i], tail);
  }

  method DeserializeChange(src: seq<Byte>, kind: Kind, ghost r: RawRecord) returns (p: Payload)
    requires Wf(r) && src == Encoded(r) && r.payload.Change? && kind == r.kind
    ensures p == r.payload
  {
    hide LittleEndian, FromLittleEndian, IntBytes, SizeBytes, ReadInt, ReadUnsigned, ReadSize, Encoded, PlaceBytes,
      ValuesBytes;
    ghost var q := r.payload;
    ghost var place := PlaceBytes(q);
    var off := LOG_HEADER_SIZE;
    var values := [];
    NoValues(q.values);
    ChangeStarts(r);
    for i := 0 to NumValues(kind)
      invariant 0 <= off <= |src| && values == q.values[..i] && src[off..] == ValuesBytes(q.values[i..]) + place
    {
      ValueBack(src, off, q.values, i, place);
      var size := ReadInt(src, off);
      values := values + [src[off + 4..off + 4 + size]];
      off := off + 4 + size;
    }
    NoValues(q.values[|q.values|..]);
    assert src[off..] == place;
    var rid, table, firstFree, numPages := ReadPlace(src, off, q);
    p := Change(values, rid, table, firstFree, numPages);
  }

  method ReadPlace(src: seq<Byte>, start: nat, ghost q: Payload) returns (rid: Rid, table: seq<Byte>, firstFree: int,
                   numPages: int)
    requires q.Change? && IsInt(q.rid.pageNo) && IsInt(q.rid.slotNo) && IsInt(q.firstFree) && IsInt(q.numPages)
    requires start <= |src| && src[start..] == PlaceBytes(q) && |q.table| < 0x1_0000_0000_0000_0000
    ensures rid == q.rid && table == q.table && firstFree == q.firstFree && numPages == q.numPages
  {
    hide LittleEndian, FromLittleEndian, IntBytes, SizeBytes, ReadInt, ReadUnsigned, ReadSize;
    ghost var t5 := IntBytes(q.numPages);
    ghost var t4 := IntBytes(q.firstFree) + t5;
    ghost var t3 := q.table + t4;
    ghost var t2 := SizeBytes(|q.table|) + t3;
    ghost var t1 := IntBytes(q.rid.slotNo) + t2;
    var off := start;
    IntBack(src, off, q.rid.pageNo, t1);
    var pageNo := ReadInt(src, off);
    off := off + 4;
    IntBack(src, off, q.rid.slotNo, t2);
    rid := IxNode.Rid(pageNo, ReadInt(src, off));
    off := off + 4;
    SizeBack(src, off, |q.table|, t3);
    var size := ReadSize(src, off);
    off := off + 8;
    BytesBack(src, off, q.table, t4);
    table := src[off..off + size];
    off := off + size;
    IntBack(src, off, q.firstFree, t5);
    firstFree := ReadInt(src, off);
    off := off + 4;
    assert t5 == IntBytes(q.numPages) + [];
    IntBack(src, off, q.numPages, []);
    numPages := ReadInt(src, off);
  }

  // The whole log file

  ghost function EncodedAll(rs: seq<RawRecord>): seq<Byte>
    requires AllWf(rs)
  {
    if rs == [] then [] else Encoded(rs[0]) + EncodedAll(rs[1..])
  }

  /** Where each record starts. */
  ghost function StartOf(rs: seq<RawRecord>, i: nat): nat
    requires i <= |rs|
  {
    if i == 0 then 0 else StartOf(rs, i - 1) + TotLen(rs[i - 1])
  }

  /** The offset of each of the first `n` records by its LSN, and nothing else. */
  ghost predicate OffsetsOf(rs: seq<RawRecord>, n: nat, offsets: map<int, int>)
    requires n <= |rs|
  {
    && (forall i :: 0 <= i < n ==> rs[i].lsn in offsets && offsets[rs[i].lsn] == StartOf(rs, i))
    && (forall l :: l in offsets ==> HasLsn(rs, n, l))
  }

  ghost predicate HasLsn(rs: seq<RawRecord>, n: nat, l: int)
    requires n <= |rs|
  {
    exists i :: 0 <= i < n && rs[i].lsn == l
  }

  ghost predicate DistinctLsns(rs: seq<RawRecord>) {
    forall i, j :: 0 <= i < j < |rs| ==> rs[i].lsn != rs[j].lsn
  }

  lemma OffsetsMore(rs: seq<RawRecord>, n: nat, offsets: map<int, int>)
    requires DistinctLsns(rs) && n < |rs| && OffsetsOf(rs, n, offsets)
    ensures rs[n].lsn !in offsets && OffsetsOf(rs, n + 1, offsets[rs[n].lsn := StartOf(rs, n)])
  {
    hide StartOf;
    var more := offsets[rs[n].lsn := StartOf(rs, n)];
    assert !HasLsn(rs, n, rs[n].lsn);
    assert HasLsn(rs, n + 1, rs[n].lsn);
    forall l | l in more
      ensures HasLsn(rs, n + 1, l)
    {
      assert l != rs[n].lsn ==> HasLsn(rs, n, l);
    }
  }

  ghost predicate AllWf(rs: seq<RawRecord>) {
    forall i :: 0 <= i < |rs| ==> Wf(rs[i])
  }

  /** The scan of the log file recovers exactly the records written, and where they start. */
  method ReadLog(file: seq<Byte>, ghost rs: seq<RawRecord>) returns (recs: seq<RawRecord>, offsets: map<int, int>)
    requires AllWf(rs) && DistinctLsns(rs) && file == EncodedAll(rs)
    ensures recs == rs && OffsetsOf(rs, |rs|, offsets)
  {
    hide Encoded, EncodedAll, ReadInt, ReadUnsigned, TotLen, Wf, OffsetsOf, DistinctLsns;
    recs, offsets := [], map[];
    var offset := 0;
    ghost var n := 0;
    NoOffsets(rs);
    while offset < |file|
      invariant 0 <= n <= |rs| && offset == StartOf(rs, n) <= |file| && recs == rs[..n]
      invariant file[offset..] == EncodedAll(rs[n..]) && OffsetsOf(rs, n, offsets)
      decreases |file| - offset
    {
      FirstRecord(file, offset, rs, n);
      var header := file[offset..offset + LOG_HEADER_SIZE];
      HeaderBack(header, rs[n]);
      OffsetsMore(rs, n, offsets);
      var totLen, lsn := ReadUnsigned(header, 8), ReadInt(header, 4);
      if lsn !in offsets {
        offsets := offsets[lsn := offset];
      }
      var rec := Deserialize(file[offset..offset + totLen], rs[n]);
      recs := recs + [rec];
      offset := offset + totLen;
      n := n + 1;
    }
    NothingLeft(rs[n..]);
  }

  lemma NoOffsets(rs: seq<RawRecord>)
    ensures OffsetsOf(rs, 0, map[]) && rs[0..] == rs
  {
  }

  lemma FirstRecord(file: seq<Byte>, offset: nat, rs: seq<RawRecord>, n: nat)
    requires AllWf(rs) && n <= |rs| && offset < |file| && file[offset..] == EncodedAll(rs[n..])
    ensures n < |rs| && LOG_HEADER_SIZE <= TotLen(rs[n]) && offset + TotLen(rs[n]) <= |file|
    ensures file[offset..offset + TotLen(rs[n])] == Encoded(rs[n])
    ensures file[offset..offset + LOG_HEADER_SIZE] == Encoded(rs[n])[..LOG_HEADER_SIZE]
    ensures file[offset + TotLen(rs[n])..] == EncodedAll(rs[n + 1..])
  {
    hide Encoded;
    assert rs[n..] != [];
    var e := Encoded(rs[n]);
    assert rs[n..][0] == rs[n] && rs[n..][1..] == rs[n + 1..];
    BytesBack(file, offset, e, EncodedAll(rs[n + 1..]));
    assert e[..LOG_HEADER_SIZE] == file[offset..offset + LOG_HEADER_SIZE];
  }

  lemma NothingLeft(rs: seq<RawRecord>)
    requires AllWf(rs) && EncodedAll(rs) == []
    ensures rs == []
  {
    hide Encoded;
  }
}
