/** The parser of Tuya data-point frames, against the grammar of the wire format. */
module TuyaDpParser {
  import opened Common
  import opened CoreTypes

  const MAX_PER_FRAME: nat := 8
  const MAX_VALUE: nat := 32
  const MAX_PAYLOAD: nat := 128
  const HEADER: nat := 2
  const TUYA_CLUSTER: u16 := 0xEF00

  datatype DpType = Raw | Bool | Value | String | Enum | Bitmap | UnknownType

  datatype DpItem = DpItem(dpId: u8, dpType: DpType, value: seq<u8>)

  /** A record as it travels: identifier, type code, big-endian length, value. */
  datatype WireRecord = WireRecord(dpId: u8, typeCode: u8, value: seq<u8>)

  datatype ParseStatus = Ok | PayloadTooShort | PayloadTooLong | DpValueTooLong | DpOverflow | Malformed

  /** `data` is None for a null pointer; its length travels in one byte. */
  datatype PayloadView = PayloadView(shortAddr: u16, endpoint: u8, clusterId: u16, data: Option<seq<u8>>)

  datatype ParseResult = ParseResult(status: ParseStatus, shortAddr: u16, endpoint: u8, items: seq<DpItem>)

  predicate IsTuya(view: PayloadView) {
    && view.data.Some? && view.data.value != [] && view.shortAddr != UNKNOWN_SHORT_ADDR
    && view.clusterId == TUYA_CLUSTER
  }

  // ---------------------------------------------------------------------------------------------
  // The grammar
  // ---------------------------------------------------------------------------------------------

  function TypeOf(code: u8): DpType {
    match code
    case 0 => Raw
    case 1 => Bool
    case 2 => Value
    case 3 => String
    case 4 => Enum
    case 5 => Bitmap
    case _ => UnknownType
  }

  function CodeOf(t: DpType): u8 {
    match t
    case Raw => 0
    case Bool => 1
    case Value => 2
    case String => 3
    case Enum => 4
    case Bitmap => 5
    case UnknownType => 0xFF
  }

  predicate InBound(r: WireRecord) {
    |r.value| <= MAX_VALUE
  }

  ghost predicate AllInBound(records: seq<WireRecord>) {
    forall i | 0 <= i < |records| :: InBound(records[i])
  }

  function Wire(r: WireRecord): seq<u8>
    requires InBound(r)
  {
    [r.dpId, r.typeCode, |r.value| / 0x100, |r.value| % 0x100] + r.value
  }

  function WireAll(records: seq<WireRecord>): seq<u8>
    requires AllInBound(records)
  {
    if records == [] then [] else Wire(records[0]) + WireAll(records[1..])
  }

  function ItemOf(r: WireRecord): DpItem {
    DpItem(r.dpId, TypeOf(r.typeCode), r.value)
  }

  function ItemsOf(records: seq<WireRecord>): (items: seq<DpItem>)
    ensures |items| == |records|
    ensures forall i | 0 <= i < |items| :: items[i] == ItemOf(records[i])
  {
    if records == [] then [] else ItemsOf(records[..|records| - 1]) + [ItemOf(records[|records| - 1])]
  }

  function DeclaredLength(bytes: seq<u8>): nat
    requires |bytes| >= 4
  {
    var high: int := bytes[2];
    high * 0x100 + bytes[3]
  }

  /** What may follow `count` complete records, and the verdict it gets. */
  predicate Tail(status: ParseStatus, count: nat, rest: seq<u8>) {
    match status
    case Ok => rest == []
    case DpOverflow => count == MAX_PER_FRAME && rest != []
    case DpValueTooLong => count < MAX_PER_FRAME && |rest| >= 4 && DeclaredLength(rest) > MAX_VALUE
    case Malformed =>
      count < MAX_PER_FRAME && rest != []
      && (|rest| < 4 || (DeclaredLength(rest) <= MAX_VALUE && |rest| < 4 + DeclaredLength(rest)))
    case PayloadTooShort => false
    case PayloadTooLong => false
  }

  /** The body is `records`, in order, and then a tail that gets `status`. */
  ghost predicate Splits(body: seq<u8>, status: ParseStatus, records: seq<WireRecord>, rest: seq<u8>) {
    && AllInBound(records) && |records| <= MAX_PER_FRAME
    && body == WireAll(records) + rest && Tail(status, |records|, rest)
  }

  /** The verdict on a frame, with the records complete in it. */
  ghost predicate Describes(view: PayloadView, status: ParseStatus, records: seq<WireRecord>) {
    if !IsTuya(view) then status == Malformed && records == []
    else if |view.data.value| < HEADER then status == PayloadTooShort && records == []
    else if |view.data.value| > MAX_PAYLOAD then status == PayloadTooLong && records == []
    else exists rest :: Splits(view.data.value[HEADER..], status, records, rest)
  }

  // ---------------------------------------------------------------------------------------------
  // The parser
  // ---------------------------------------------------------------------------------------------

  lemma {:induction false} WireAllAppend(records: seq<WireRecord>, r: WireRecord)
    requires AllInBound(records) && InBound(r)
    ensures AllInBound(records + [r]) && WireAll(records + [r]) == WireAll(records) + Wire(r)
  {
    if records == [] {
      assert [r][1..] == [];
    } else {
      assert (records + [r])[1..] == records[1..] + [r];
      WireAllAppend(records[1..], r);
    }
  }

  lemma EmptyWire()
    ensures WireAll([]) == []
  {
  }

  method Parse(view: PayloadView) returns (r: ParseResult, ghost records: seq<WireRecord>)
    ensures r.shortAddr == view.shortAddr && r.endpoint == view.endpoint
    ensures Describes(view, r.status, records)
    ensures r.items == ItemsOf(records)
  {
    r := ParseResult(Malformed, view.shortAddr, view.endpoint, []);
    records := [];
    if !IsTuya(view) {
      return;
    }
    var data := view.data.value;
    if |data| < HEADER {
      return r.(status := PayloadTooShort), [];
    }
    if |data| > MAX_PAYLOAD {
      return r.(status := PayloadTooLong), [];
    }
    var offset: nat := HEADER;
    StartReading(data);
    hide Wire, WireAll, TypeOf, Describes, ItemsOf, Reading;
    while offset < |data|
      invariant HEADER <= offset <= |data| && |records| <= MAX_PER_FRAME && Reading(data, offset, records)
      invariant r == ParseResult(Malformed, view.shortAddr, view.endpoint, ItemsOf(records))
    {
      if |r.items| >= MAX_PER_FRAME {
        Concluded(view, DpOverflow, records, offset);
        return r.(status := DpOverflow), records;
      }
      var verdict, record, next := ReadRecord(data, offset, |r.items|);
      if verdict != Ok {
        Concluded(view, verdict, records, offset);
        return r.(status := verdict), records;
      }
      RecordRead(data, offset, next, records, record);
      ItemsAppend(records, record);
      r := r.(items := r.items + [ItemOf(record)]);
      records := records + [record];
      offset := next;
    }
    r := r.(status := Ok);
    Concluded(view, Ok, records, offset);
  }

  /** One turn of the loop: the record at `start` and where the next one begins, or the verdict that ends the
      frame. */
  method ReadRecord(data: seq<u8>, start: nat, count: nat) returns (verdict: ParseStatus, record: WireRecord, next: nat)
    requires start < |data| && count < MAX_PER_FRAME
    ensures verdict == Ok ==> start < next <= |data| && InBound(record) && data[start..] == Wire(record) + data[next..]
    ensures verdict != Ok ==> Tail(verdict, count, data[start..])
  {
    record, next := WireRecord(0, 0, []), start;
    if start + 4 > |data| {
      return Malformed, record, next;
    }
    ghost var rest := data[start..];
    var high: int := data[start + 2];
    var length := high * 0x100 + data[start + 3];
    assert length == DeclaredLength(rest);
    if length > MAX_VALUE {
      return DpValueTooLong, record, next;
    }
    if start + 4 + length > |data| {
      return Malformed, record, next;
    }
    next := start + 4 + length;
    record := WireRecord(data[start], data[start + 1], data[start + 4..next]);
    verdict := Ok;
    assert rest[4..] == record.value + data[next..];
    SplitRecord(rest, record, data[next..]);
  }

  /** Up to `offset`, the body is exactly `records`. */
  ghost predicate Reading(data: seq<u8>, offset: nat, records: seq<WireRecord>) {
    HEADER <= offset <= |data| && AllInBound(records) && data[HEADER..] == WireAll(records) + data[offset..]
  }

  lemma StartReading(data: seq<u8>)
    requires |data| >= HEADER
    ensures Reading(data, HEADER, []) && ItemsOf([]) == []
  {
    assert data[HEADER..] == [] + data[HEADER..];
  }

  lemma Concluded(view: PayloadView, status: ParseStatus, records: seq<WireRecord>, offset: nat)
    requires IsTuya(view) && HEADER <= |view.data.value| <= MAX_PAYLOAD && |records| <= MAX_PER_FRAME
    requires Reading(view.data.value, offset, records) && Tail(status, |records|, view.data.value[offset..])
    ensures Describes(view, status, records)
  {
    assert Splits(view.data.value[HEADER..], status, records, view.data.value[offset..]);
  }

  lemma ItemsAppend(records: seq<WireRecord>, r: WireRecord)
    ensures ItemsOf(records + [r]) == ItemsOf(records) + [ItemOf(r)]
  {
    assert (records + [r])[..|records|] == records;
  }

  /** The record between `start` and `next` extends the part of the body already read. */
  lemma RecordRead(data: seq<u8>, start: nat, next: nat, records: seq<WireRecord>, r: WireRecord)
    requires Reading(data, start, records) && next <= |data| && start <= next && InBound(r)
    requires data[start..] == Wire(r) + data[next..]
    ensures Reading(data, next, records + [r])
  {
    hide Wire, WireAll;
    WireAllAppend(records, r);
    Regroup(WireAll(records), Wire(r), data[next..]);
  }

  lemma SplitRecord(rest: seq<u8>, r: WireRecord, after: seq<u8>)
    requires InBound(r) && |rest| >= 4 && rest[0] == r.dpId && rest[1] == r.typeCode
    requires DeclaredLength(rest) == |r.value| && rest[4..] == r.value + after
    ensures rest == Wire(r) + after
  {
    assert rest[2] == |r.value| / 0x100 && rest[3] == |r.value| % 0x100;
    assert rest == rest[..4] + rest[4..];
  }

  // ---------------------------------------------------------------------------------------------
  // The grammar is unambiguous
  // ---------------------------------------------------------------------------------------------

  lemma FirstRecord(r: WireRecord, after: seq<u8>)
    requires InBound(r)
    ensures var bytes := Wire(r) + after;
            && |bytes| >= 4 + |r.value| && bytes[0] == r.dpId && bytes[1] == r.typeCode
            && DeclaredLength(bytes) == |r.value| && bytes[4..4 + |r.value|] == r.value
            && bytes[4 + |r.value|..] == after
  {
  }

  /** A body that starts with an in-bound record reads as that record first, whatever follows. */
  lemma SameFirstRecord(r: WireRecord, s: WireRecord, after: seq<u8>, afterwards: seq<u8>)
    requires InBound(r) && InBound(s) && Wire(r) + after == Wire(s) + afterwards
    ensures r == s && after == afterwards
  {
    hide Wire;
    FirstRecord(r, after);
    FirstRecord(s, afterwards);
  }

  /** What starts with an in-bound record is no tail, except of a frame that is already full. */
  lemma RecordIsNoTail(status: ParseStatus, count: nat, r: WireRecord, after: seq<u8>)
    requires InBound(r) && Tail(status, count, Wire(r) + after)
    ensures status == DpOverflow && count == MAX_PER_FRAME
  {
    FirstRecord(r, after);
  }

  lemma PeelRecord(records: seq<WireRecord>, rest: seq<u8>)
    requires AllInBound(records) && records != []
    ensures WireAll(records) + rest == Wire(records[0]) + (WireAll(records[1..]) + rest)
  {
    hide Wire;
  }

  lemma {:induction false} SplitsAgree(body: seq<u8>, done: nat, s: ParseStatus, a: seq<WireRecord>, x: seq<u8>,
                                       t: ParseStatus, b: seq<WireRecord>, y: seq<u8>)
    requires AllInBound(a) && AllInBound(b) && done + |a| <= MAX_PER_FRAME && done + |b| <= MAX_PER_FRAME
    requires body == WireAll(a) + x && body == WireAll(b) + y
    requires Tail(s, done + |a|, x) && Tail(t, done + |b|, y)
    ensures s == t && a == b && x == y
    decreases |a|
  {
    hide Wire, WireAll, Tail;
    EmptyWire();
    if a == [] && b == [] {
      assert x == [] + x == [] + y == y;
      TailIsUnique(s, t, done, x);
    } else if a == [] {
      PeelRecord(b, y);
      assert x == Wire(b[0]) + (WireAll(b[1..]) + y);
      RecordIsNoTail(s, done, b[0], WireAll(b[1..]) + y);
      assert false;
    } else if b == [] {
      PeelRecord(a, x);
      assert y == Wire(a[0]) + (WireAll(a[1..]) + x);
      RecordIsNoTail(t, done, a[0], WireAll(a[1..]) + x);
      assert false;
    } else {
      PeelRecord(a, x);
      PeelRecord(b, y);
      SameFirstRecord(a[0], b[0], WireAll(a[1..]) + x, WireAll(b[1..]) + y);
      SplitsAgree(WireAll(a[1..]) + x, done + 1, s, a[1..], x, t, b[1..], y);
    }
  }

  lemma TailIsUnique(s: ParseStatus, t: ParseStatus, count: nat, rest: seq<u8>)
    requires Tail(s, count, rest) && Tail(t, count, rest)
    ensures s == t
  {
  }

  /** Every frame has one verdict and one list of complete records; with the contract of `Parse`, that is what the
      parser returns. */
  lemma VerdictIsUnique(view: PayloadView, s: ParseStatus, a: seq<WireRecord>, t: ParseStatus, b: seq<WireRecord>)
    requires Describes(view, s, a) && Describes(view, t, b)
    ensures s == t && a == b
  {
    if IsTuya(view) && HEADER <= |view.data.value| <= MAX_PAYLOAD {
      var body := view.data.value[HEADER..];
      var x :| Splits(body, s, a, x);
      var y :| Splits(body, t, b, y);
      SplitsAgree(body, 0, s, a, x, t, b, y);
    }
  }

  /** The frame carrying `records` after a two-byte header. */
  function Frame(shortAddr: u16, endpoint: u8, header: seq<u8>, records: seq<WireRecord>): PayloadView
    requires AllInBound(records)
  {
    PayloadView(shortAddr, endpoint, TUYA_CLUSTER, Some(header + WireAll(records)))
  }

  /** A frame is accepted exactly when its body is a concatenation of at most eight in-bound records. */
  lemma AcceptedIff(view: PayloadView, status: ParseStatus, records: seq<WireRecord>)
    requires Describes(view, status, records)
    ensures status == Ok <==>
            && IsTuya(view) && HEADER <= |view.data.value| <= MAX_PAYLOAD
            && exists rs: seq<WireRecord> :: AllInBound(rs) && |rs| <= MAX_PER_FRAME
                                            && view.data.value[HEADER..] == WireAll(rs)
  {
    if IsTuya(view) && HEADER <= |view.data.value| <= MAX_PAYLOAD {
      var body := view.data.value[HEADER..];
      if rs: seq<WireRecord> :| AllInBound(rs) && |rs| <= MAX_PER_FRAME && body == WireAll(rs) {
        assert WireAll(rs) == WireAll(rs) + [];
        assert Splits(body, Ok, rs, []);
        VerdictIsUnique(view, Ok, rs, status, records);
      }
      if status == Ok {
        var rest :| Splits(body, status, records, rest);
        assert body == WireAll(records);
      }
    }
  }

  /** Parsing a serialised list of records gives back that list. */
  lemma ParseOfSerialised(shortAddr: u16, endpoint: u8, header: seq<u8>, records: seq<WireRecord>,
                          status: ParseStatus, parsed: seq<WireRecord>)
    requires shortAddr != UNKNOWN_SHORT_ADDR && |header| == HEADER
    requires AllInBound(records) && |records| <= MAX_PER_FRAME && HEADER + |WireAll(records)| <= MAX_PAYLOAD
    requires Describes(Frame(shortAddr, endpoint, header, records), status, parsed)
    ensures status == Ok && parsed == records && ItemsOf(parsed) == ItemsOf(records)
  {
    var view := Frame(shortAddr, endpoint, header, records);
    assert view.data.value[HEADER..] == WireAll(records) + [];
    assert Splits(view.data.value[HEADER..], Ok, records, []);
    VerdictIsUnique(view, Ok, records, status, parsed);
  }

  // ---------------------------------------------------------------------------------------------
  // Serialising the items again
  // ---------------------------------------------------------------------------------------------

  function RecordOf(item: DpItem): WireRecord {
    WireRecord(item.dpId, CodeOf(item.dpType), item.value)
  }

  function Reserialise(items: seq<DpItem>): seq<WireRecord> {
    if items == [] then [] else Reserialise(items[..|items| - 1]) + [RecordOf(items[|items| - 1])]
  }

  predicate KnownCode(code: u8) {
    code <= 5 || code == 0xFF
  }

  lemma {:induction false} ReserialiseAt(items: seq<DpItem>)
    ensures |Reserialise(items)| == |items|
    ensures forall i | 0 <= i < |items| :: Reserialise(items)[i] == RecordOf(items[i])
  {
    if items != [] {
      ReserialiseAt(items[..|items| - 1]);
    }
  }

  lemma CodeRoundTrip(code: u8)
    ensures CodeOf(TypeOf(code)) == code <==> KnownCode(code)
  {
  }

  lemma {:induction false} ReserialisedItems(records: seq<WireRecord>)
    requires AllInBound(records)
    ensures AllInBound(Reserialise(ItemsOf(records)))
    ensures Reserialise(ItemsOf(records)) == records <==> forall i | 0 <= i < |records| :: KnownCode(records[i].typeCode)
    ensures |Reserialise(ItemsOf(records))| == |records|
  {
    var again := Reserialise(ItemsOf(records));
    ReserialiseAt(ItemsOf(records));
    hide ItemsOf, Reserialise, TypeOf, CodeOf;
    forall i | 0 <= i < |records| ensures again[i] == records[i] <==> KnownCode(records[i].typeCode) {
      CodeRoundTrip(records[i].typeCode);
      assert again[i] == RecordOf(ItemOf(records[i]));
    }
  }

  /** Items keep everything but type codes above 5 other than 255: the items of an accepted frame serialise to its
      bytes exactly when it has no such code. */
  lemma ReserialisesIff(view: PayloadView, records: seq<WireRecord>)
    requires Describes(view, Ok, records)
    ensures IsTuya(view) && HEADER <= |view.data.value| && AllInBound(records)
    ensures AllInBound(Reserialise(ItemsOf(records)))
    ensures WireAll(Reserialise(ItemsOf(records))) == view.data.value[HEADER..] <==>
            forall i | 0 <= i < |records| :: KnownCode(records[i].typeCode)
  {
    hide Wire, WireAll, Reserialise, ItemsOf;
    var body := view.data.value[HEADER..];
    var rest :| Splits(body, Ok, records, rest);
    var again := Reserialise(ItemsOf(records));
    ReserialisedItems(records);
    assert body == WireAll(records) + [];
    if WireAll(again) == body {
      assert body == WireAll(again) + [];
      SplitsAgree(body, 0, Ok, again, [], Ok, records, []);
    }
  }

  /** The item a record becomes: its own identifier and value, and the type its code stands for on the wire. */
  lemma ItemsCarryRecords(records: seq<WireRecord>, i: nat)
    requires i < |records|
    ensures var item, record := ItemsOf(records)[i], records[i];
            && item.dpId == record.dpId && item.value == record.value
            && (item.dpType == Raw <==> record.typeCode == 0x00)
            && (item.dpType == Bool <==> record.typeCode == 0x01)
            && (item.dpType == Value <==> record.typeCode == 0x02)
            && (item.dpType == String <==> record.typeCode == 0x03)
            && (item.dpType == Enum <==> record.typeCode == 0x04)
            && (item.dpType == Bitmap <==> record.typeCode == 0x05)
            && (item.dpType == UnknownType <==> record.typeCode > 0x05)
  {
  }
}
