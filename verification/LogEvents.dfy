/** The packed log-event parser: a stream of 26-byte headers, each followed by data whose length the type decides. */
module LogEvents {
  import opened Bytes
  import opened Collections

  const LOG_HEADER_SIZE := 26

  /** The last seven header bytes; the first is the size byte of unknown event types. */
  type Reserved = b: Bytes | |b| == 7 witness [0, 0, 0, 0, 0, 0, 0]

  datatype Head = Head(tick: u32, txIndex: u32, epoch: u16, amount: i64, eventType: byte, reserved: Reserved)

  /** An event as it lies on the wire. */
  datatype Wire = Wire(head: Head, data: Bytes)

  /** The decoded event: the reserved bytes are dropped. */
  datatype LogEvent = LogEvent(tick: u32, txIndex: u32, epoch: u16, amount: i64, eventType: byte, data: Bytes)

  function EventOf(w: Wire): LogEvent {
    LogEvent(w.head.tick, w.head.txIndex, w.head.epoch, w.head.amount, w.head.eventType, w.data)
  }

  function EventsOf(ws: seq<Wire>): seq<LogEvent> {
    seq(|ws|, i requires 0 <= i < |ws| => EventOf(ws[i]))
  }

  // ---------------------------------------------------------------- fixed-width fields

  /** A little-endian field of `w` bytes. */
  function Field(b: Bytes, w: nat): (n: nat)
    requires |b| == w
    ensures n < Pow256(w)
  {
    ValueLEInverse(b);
    ValueLE(b)
  }

  /** Two's complement of a 64-bit word, and back. */
  function Signed(n: u64): i64 {
    if n < 0x8000_0000_0000_0000 then n else n - 0x1_0000_0000_0000_0000
  }

  function Unsigned(a: i64): u64 {
    if a < 0 then a + 0x1_0000_0000_0000_0000 else a
  }

  lemma {:induction false} Widths()
    ensures Pow256(2) == 0x1_0000 && Pow256(4) == 0x1_0000_0000 && Pow256(8) == 0x1_0000_0000_0000_0000
  {
    assert Pow256(2) == 0x1_0000;
    assert Pow256(4) == 0x1_0000_0000;
    assert Pow256(6) == 0x1_0000_0000_0000;
  }

  function HeadBytes(h: Head): (b: Bytes)
    ensures |b| == LOG_HEADER_SIZE
  {
    Widths();
    LE(h.tick, 4) + LE(h.txIndex, 4) + LE(h.epoch, 2) + LE(Unsigned(h.amount), 8) + [h.eventType] + h.reserved
  }

  function HeadOf(b: Bytes): Head
    requires |b| == LOG_HEADER_SIZE
  {
    Widths();
    Head(Field(b[0..4], 4), Field(b[4..8], 4), Field(b[8..10], 2), Signed(Field(b[10..18], 8)), b[18], b[19..26])
  }

  lemma {:induction false} HeadRoundTrip(h: Head)
    ensures HeadOf(HeadBytes(h)) == h
  {
    Widths();
    var b := HeadBytes(h);
    assert b[0..4] == LE(h.tick, 4) && b[4..8] == LE(h.txIndex, 4) && b[8..10] == LE(h.epoch, 2);
    assert b[10..18] == LE(Unsigned(h.amount), 8) && b[18] == h.eventType && b[19..26] == h.reserved;
    LEInverse(h.tick, 4);
    LEInverse(h.txIndex, 4);
    LEInverse(h.epoch, 2);
    LEInverse(Unsigned(h.amount), 8);
  }

  lemma {:induction false} SixParts(b: Bytes)
    requires |b| == LOG_HEADER_SIZE
    ensures b == b[0..4] + b[4..8] + b[8..10] + b[10..18] + [b[18]] + b[19..26]
  {
  }

  lemma {:induction false} FieldRoundTrip(b: Bytes, w: nat)
    requires |b| == w
    ensures LE(Field(b, w), w) == b
  {
    ValueLEInverse(b);
  }

  lemma {:induction false} BytesRoundTrip(b: Bytes)
    requires |b| == LOG_HEADER_SIZE
    ensures HeadBytes(HeadOf(b)) == b
  {
    Widths();
    FieldRoundTrip(b[0..4], 4);
    FieldRoundTrip(b[4..8], 4);
    FieldRoundTrip(b[8..10], 2);
    FieldRoundTrip(b[10..18], 8);
    SixParts(b);
  }

  // ---------------------------------------------------------------- data sizes

  /** The types with a fixed data size. */
  function FixedSize(eventType: byte): Option<nat> {
    match eventType
    case 0 => Some(64)
    case 1 => Some(816)
    case 2 => Some(64)
    case 3 => Some(64)
    case 8 => Some(8)
    case 9 => Some(8)
    case 10 => Some(224)
    case 11 => Some(64)
    case 12 => Some(64)
    case 13 => Some(8)
    case 14 => Some(8)
    case _ => None
  }

  /** The types whose data starts with its own 16-bit length. */
  predicate LengthPrefixed(eventType: byte) {
    4 <= eventType <= 7 || eventType == 15 || eventType == 255
  }

  /** How much data follows a header, given the bytes after it; `None` stops the parse. */
  function DataSize(h: Head, after: Bytes): Option<nat> {
    if FixedSize(h.eventType).Some? then FixedSize(h.eventType)
    else if LengthPrefixed(h.eventType) then
      if |after| >= 2 then Some(ValueLE(after[..2]) + 2) else None
    else if h.reserved[0] > 0 then Some(h.reserved[0])
    else None
  }

  /** An event whose data has the size its own header and data announce. */
  predicate WellSized(w: Wire) {
    DataSize(w.head, w.data) == Some(|w.data|)
  }

  predicate AllWellSized(ws: seq<Wire>) {
    forall i :: 0 <= i < |ws| ==> WellSized(ws[i])
  }

  // ---------------------------------------------------------------- printing and parsing

  function Print(w: Wire): Bytes {
    HeadBytes(w.head) + w.data
  }

  function PrintAll(ws: seq<Wire>): Bytes {
    if ws == [] then [] else Print(ws[0]) + PrintAll(ws[1..])
  }

  /** One iteration of the loop on the bytes from the offset on; `None` ends the loop. */
  function ParseOne(rest: Bytes): Option<Wire> {
    if |rest| < LOG_HEADER_SIZE then None
    else
      var head, after := HeadOf(rest[..LOG_HEADER_SIZE]), rest[LOG_HEADER_SIZE..];
      match DataSize(head, after)
      case None => None
      case Some(n) => if n > |after| then None else Some(Wire(head, after[..n]))
  }

  /** The events, in order, and the bytes left unread. */
  function ParseAll(rest: Bytes): (seq<Wire>, Bytes)
    decreases |rest|
  {
    match ParseOne(rest)
    case None => ([], rest)
    case Some(w) =>
      PrintParseOne(rest);
      var more := ParseAll(rest[|Print(w)|..]);
      ([w] + more.0, more.1)
  }

  /** Looking at more bytes than the data holds does not change its announced size. */
  lemma {:induction false} SizeIsLocal(h: Head, after: Bytes, n: nat)
    requires n <= |after|
    ensures DataSize(h, after[..n]) == Some(n) <==> DataSize(h, after) == Some(n)
  {
    if LengthPrefixed(h.eventType) && n >= 2 {
      assert after[..n][..2] == after[..2];
    }
  }

  /** A parsed event is well-sized and is exactly the bytes it was parsed from. */
  lemma {:induction false} PrintParseOne(rest: Bytes)
    ensures match ParseOne(rest)
            case None => true
            case Some(w) => WellSized(w) && LOG_HEADER_SIZE <= |Print(w)| <= |rest| && rest[..|Print(w)|] == Print(w)
  {
    if ParseOne(rest).Some? {
      var w := ParseOne(rest).value;
      var after := rest[LOG_HEADER_SIZE..];
      BytesRoundTrip(rest[..LOG_HEADER_SIZE]);
      SizeIsLocal(w.head, after, |w.data|);
      assert rest == rest[..LOG_HEADER_SIZE] + after;
      assert rest[..|Print(w)|] == rest[..LOG_HEADER_SIZE] + after[..|w.data|];
    }
  }

  /** A well-sized event is parsed back, whatever follows it. */
  lemma {:induction false} ParsePrintOne(w: Wire, tail: Bytes)
    requires WellSized(w)
    ensures ParseOne(Print(w) + tail) == Some(w)
  {
    var rest := Print(w) + tail;
    var after := w.data + tail;
    assert rest == HeadBytes(w.head) + after;
    assert rest[..LOG_HEADER_SIZE] == HeadBytes(w.head) && rest[LOG_HEADER_SIZE..] == after;
    HeadRoundTrip(w.head);
    assert after[..|w.data|] == w.data;
    SizeIsLocal(w.head, after, |w.data|);
  }

  lemma {:induction false} ParseStep(w: Wire, tail: Bytes)
    requires WellSized(w)
    ensures ParseAll(Print(w) + tail) == ([w] + ParseAll(tail).0, ParseAll(tail).1)
  {
    ParsePrintOne(w, tail);
    assert (Print(w) + tail)[|Print(w)|..] == tail;
  }

  /** Printing and parsing any list of well-sized events gives the list back, then whatever the tail holds. */
  lemma {:induction false} ParsePrint(ws: seq<Wire>, tail: Bytes)
    requires AllWellSized(ws)
    ensures ParseAll(PrintAll(ws) + tail) == (ws + ParseAll(tail).0, ParseAll(tail).1)
  {
    if ws == [] {
      assert PrintAll(ws) + tail == tail && ws + ParseAll(tail).0 == ParseAll(tail).0;
    } else {
      var w, rest := ws[0], PrintAll(ws[1..]) + tail;
      ParsePrint(ws[1..], tail);
      assert PrintAll(ws) + tail == Print(w) + rest;
      ParseStep(w, rest);
      HeadAndTail(ws, ParseAll(tail).0);
    }
  }

  /** The parsed events and the unread bytes are the whole input, cut at event boundaries; the rest does not parse. */
  lemma {:induction false} PrintParse(rest: Bytes)
    ensures AllWellSized(ParseAll(rest).0) && ParseOne(ParseAll(rest).1) == None
    ensures PrintAll(ParseAll(rest).0) + ParseAll(rest).1 == rest
    decreases |rest|
  {
    if ParseOne(rest).Some? {
      var w := ParseOne(rest).value;
      PrintParseOne(rest);
      var next := rest[|Print(w)|..];
      PrintParse(next);
      var more := ParseAll(next);
      assert rest == Print(w) + next;
      PrintCons(w, more.0, more.1);
    }
  }

  lemma {:induction false} PrintCons(w: Wire, ws: seq<Wire>, left: Bytes)
    ensures PrintAll([w] + ws) + left == Print(w) + (PrintAll(ws) + left)
  {
    PrintFirst(w, ws);
  }

  /** The parse is the only way to cut the input into well-sized events and an unparsable rest. */
  lemma {:induction false} ParseIff(rest: Bytes, ws: seq<Wire>, left: Bytes)
    ensures ParseAll(rest) == (ws, left) <==> rest == PrintAll(ws) + left && AllWellSized(ws) && ParseOne(left) == None
  {
    PrintParse(rest);
    if rest == PrintAll(ws) + left && AllWellSized(ws) && ParseOne(left) == None {
      ParsePrint(ws, left);
      assert ws + [] == ws;
    }
  }

  /** An event found in a prefix is found in the whole. */
  lemma {:induction false} ParseOneExtends(rest: Bytes, n: nat)
    requires n <= |rest| && ParseOne(rest[..n]).Some?
    ensures ParseOne(rest) == ParseOne(rest[..n])
  {
    var w := ParseOne(rest[..n]).value;
    PrintParseOne(rest[..n]);
    assert rest[..n][..|Print(w)|] == rest[..|Print(w)|];
    assert rest == Print(w) + rest[|Print(w)|..];
    ParsePrintOne(w, rest[|Print(w)|..]);
  }

  /** Cutting the input short cuts the list of events short and changes nothing else. */
  lemma {:induction false} PrefixParses(rest: Bytes, n: nat)
    requires n <= |rest|
    ensures ParseAll(rest[..n]).0 <= ParseAll(rest).0
    decreases |rest|
  {
    if ParseOne(rest[..n]).Some? {
      ParseOneExtends(rest, n);
      var w := ParseOne(rest).value;
      PrintParseOne(rest[..n]);
      PrintParseOne(rest);
      var size := |Print(w)|;
      PrefixParses(rest[size..], n - size);
      assert rest[size..][..n - size] == rest[..n][size..];
    }
  }

  // ---------------------------------------------------------------- positions

  /** Where the `i`-th event starts, counting the 8 bytes before the first. */
  function Offset(ws: seq<Wire>, i: nat): nat
    requires i <= |ws|
  {
    8 + |PrintAll(ws[..i])|
  }

  lemma {:induction false} PrintAppend(a: seq<Wire>, b: seq<Wire>)
    ensures PrintAll(a + b) == PrintAll(a) + PrintAll(b)
  {
    if a == [] {
      assert a + b == b;
    } else {
      PrintAppend(a[1..], b);
      assert a + b == [a[0]] + (a[1..] + b);
      PrintFirst(a[0], a[1..] + b);
      ConcatAssociates(Print(a[0]), PrintAll(a[1..]), PrintAll(b));
    }
  }

  lemma {:induction false} PrintFirst(w: Wire, ws: seq<Wire>)
    ensures PrintAll([w] + ws) == Print(w) + PrintAll(ws)
  {
    assert ([w] + ws)[1..] == ws;
  }

  lemma {:induction false} PrintSingle(w: Wire)
    ensures PrintAll([w]) == Print(w)
  {
    assert PrintAll([w][1..]) == [];
  }

  /** Each event is an in-bounds slice; slices follow one another without gap or overlap, 26 bytes or more apart. */
  lemma {:induction false} SlicesAreConsecutive(payload: Bytes, i: nat)
    requires |payload| >= 8 && i < |ParseAll(payload[8..]).0|
    ensures var ws := ParseAll(payload[8..]).0;
            && Offset(ws, 0) == 8
            && Offset(ws, i + 1) == Offset(ws, i) + LOG_HEADER_SIZE + |ws[i].data| <= |payload|
            && payload[Offset(ws, i)..Offset(ws, i + 1)] == Print(ws[i])
            && payload[Offset(ws, i) + LOG_HEADER_SIZE..Offset(ws, i + 1)] == EventsOf(ws)[i].data
  {
    var rest := payload[8..];
    var ws, left := ParseAll(rest).0, ParseAll(rest).1;
    PrintParse(rest);
    SliceAt(payload, ws, left, i);
    var from, to := Offset(ws, i), Offset(ws, i + 1);
    assert payload[from + LOG_HEADER_SIZE..to] == payload[from..to][LOG_HEADER_SIZE..];
  }

  lemma {:induction false} SliceAt(payload: Bytes, ws: seq<Wire>, left: Bytes, i: nat)
    requires |payload| >= 8 && payload[8..] == PrintAll(ws) + left && i < |ws|
    ensures Offset(ws, i + 1) == Offset(ws, i) + |Print(ws[i])| <= |payload|
    ensures payload[Offset(ws, i)..Offset(ws, i + 1)] == Print(ws[i])
  {
    var a, w, b := ws[..i], ws[i], ws[i + 1..];
    assert ws[..i + 1] == a + [w];
    assert ws == (a + [w]) + b;
    PrintAppend(a + [w], b);
    PrintAppend(a, [w]);
    PrintSingle(w);
    CutOut(payload, PrintAll(a), Print(w), PrintAll(b) + left);
  }

  lemma {:induction false} CutOut(payload: Bytes, a: Bytes, w: Bytes, b: Bytes)
    requires |payload| >= 8 && payload[8..] == (a + w) + b
    ensures 8 + |a| + |w| <= |payload| && payload[8 + |a|..8 + |a| + |w|] == w
  {
    assert payload[8 + |a|..8 + |a| + |w|] == payload[8..][|a|..|a| + |w|];
  }

  // ---------------------------------------------------------------- the loop

  lemma {:induction false} EventsSnoc(ws: seq<Wire>, w: Wire)
    ensures EventsOf(ws + [w]) == EventsOf(ws) + [EventOf(w)]
  {
  }

  /** The bytes read so far are exactly the events found so far. */
  ghost predicate Seen(payload: Bytes, ws: seq<Wire>, offset: nat) {
    8 <= offset <= |payload| && payload[8..offset] == PrintAll(ws) && AllWellSized(ws)
  }

  /** The event at `offset`, ending at `end`. */
  ghost predicate EventAt(payload: Bytes, offset: nat, w: Wire, end: nat) {
    offset + LOG_HEADER_SIZE <= end <= |payload| && payload[offset..end] == Print(w) && WellSized(w)
  }

  lemma {:induction false} SeenStep(payload: Bytes, ws: seq<Wire>, offset: nat, w: Wire, end: nat)
    requires Seen(payload, ws, offset) && EventAt(payload, offset, w, end)
    ensures Seen(payload, ws + [w], end)
  {
    PrintAppend(ws, [w]);
    PrintSingle(w);
    assert payload[8..end] == payload[8..offset] + payload[offset..end];
  }

  lemma {:induction false} SeenStop(payload: Bytes, ws: seq<Wire>, offset: nat)
    requires Seen(payload, ws, offset) && ParseOne(payload[offset..]) == None
    ensures ParseAll(payload[8..]).0 == ws
  {
    assert payload[8..] == payload[8..offset] + payload[offset..];
    ParseIff(payload[8..], ws, payload[offset..]);
  }

  lemma {:induction false} StepAt(payload: Bytes, offset: nat, n: nat)
    requires offset + LOG_HEADER_SIZE + n <= |payload|
    requires DataSize(HeadOf(payload[offset..offset + LOG_HEADER_SIZE]), payload[offset + LOG_HEADER_SIZE..]) == Some(n)
    ensures var from := offset + LOG_HEADER_SIZE;
            EventAt(payload, offset, Wire(HeadOf(payload[offset..from]), payload[from..from + n]), from + n)
  {
    var from := offset + LOG_HEADER_SIZE;
    BytesRoundTrip(payload[offset..from]);
    SizeIsLocal(HeadOf(payload[offset..from]), payload[from..], n);
    assert payload[from..][..n] == payload[from..from + n];
    assert payload[offset..from + n] == payload[offset..from] + payload[from..from + n];
  }

  lemma {:induction false} StopAt(payload: Bytes, offset: nat)
    requires offset <= |payload|
    requires offset + LOG_HEADER_SIZE <= |payload| ==>
      match DataSize(HeadOf(payload[offset..offset + LOG_HEADER_SIZE]), payload[offset + LOG_HEADER_SIZE..])
      case None => true
      case Some(n) => offset + LOG_HEADER_SIZE + n > |payload|
    ensures ParseOne(payload[offset..]) == None
  {
    if offset + LOG_HEADER_SIZE <= |payload| {
      var rest := payload[offset..];
      assert rest[..LOG_HEADER_SIZE] == payload[offset..offset + LOG_HEADER_SIZE];
      assert rest[LOG_HEADER_SIZE..] == payload[offset + LOG_HEADER_SIZE..];
    }
  }

  /** The body of the loop, up to the push: the event at `offset`, or `None` where the source breaks. */
  method NextEvent(payload: Bytes, offset: nat) returns (w: Option<Wire>)
    requires offset + LOG_HEADER_SIZE <= |payload|
    ensures w.Some? ==> EventAt(payload, offset, w.value, offset + LOG_HEADER_SIZE + |w.value.data|)
    ensures w.None? ==> ParseOne(payload[offset..]) == None
  {
    var head := HeadOf(payload[offset..offset + LOG_HEADER_SIZE]);
    var dataStart := offset + LOG_HEADER_SIZE;
    var dataSize := DataSize(head, payload[dataStart..]);
    if dataSize.None? || dataStart + dataSize.value > |payload| {
      StopAt(payload, offset);
      return None;
    }
    StepAt(payload, offset, dataSize.value);
    w := Some(Wire(head, payload[dataStart..dataStart + dataSize.value]));
  }

  /** `None` is the "payload too small" error. */
  method DecodeLogEvents(payload: Bytes) returns (events: Option<seq<LogEvent>>)
    ensures events == if |payload| < 8 then None else Some(EventsOf(ParseAll(payload[8..]).0))
  {
    if |payload| < 8 {
      return None;
    }
    var found: seq<LogEvent> := [];
    var offset := 8;
    ghost var ws: seq<Wire> := [];
    while offset + LOG_HEADER_SIZE <= |payload|
      invariant Seen(payload, ws, offset)
      invariant found == EventsOf(ws)
      decreases |payload| - offset
    {
      var next := NextEvent(payload, offset);
      if next.None? {
        break;
      }
      var w := next.value;
      var dataEnd := offset + LOG_HEADER_SIZE + |w.data|;
      SeenStep(payload, ws, offset, w, dataEnd);
      EventsSnoc(ws, w);
      ws := ws + [w];
      found := found + [EventOf(w)];
      offset := dataEnd;
    }
    SeenStop(payload, ws, offset);
    events := Some(found);
  }

  // ---------------------------------------------------------------- fields and sizes

  /** The data size each event type calls for; unknown types say it in the byte after the type. */
  ghost predicate HasItsSize(eventType: byte, sizeByte: byte, data: Bytes) {
    if eventType in {0, 2, 3, 11, 12} then |data| == 64
    else if eventType == 1 then |data| == 816
    else if eventType in {8, 9, 13, 14} then |data| == 8
    else if eventType == 10 then |data| == 224
    else if eventType in {4, 5, 6, 7, 15, 255} then |data| >= 2 && |data| == 2 + ValueLE(data[..2])
    else sizeByte > 0 && |data| == sizeByte
  }

  /** The sizes the parser accepts are exactly these. */
  lemma {:induction false} WellSizedIff(w: Wire)
    ensures WellSized(w) <==> HasItsSize(w.head.eventType, w.head.reserved[0], w.data)
  {
  }

  lemma {:induction false} HeadFields(b: Bytes)
    requires |b| == 26
    ensures var h := HeadOf(b);
            && h.tick == ValueLE(b[0..4]) && h.txIndex == ValueLE(b[4..8]) && h.epoch == ValueLE(b[8..10])
            && h.amount == (if ValueLE(b[10..18]) < 0x8000_0000_0000_0000 then ValueLE(b[10..18]) else ValueLE(b[10..18]) - 0x1_0000_0000_0000_0000)
            && h.eventType == b[18] && h.reserved == b[19..26]
  {
  }

  lemma {:induction false} SubSlice(payload: Bytes, o: nat, end: nat, a: nat, b: nat)
    requires a <= b && o + b <= end <= |payload|
    ensures payload[o..end][a..b] == payload[o + a..o + b]
  {
    forall k | 0 <= k < b - a ensures payload[o..end][a..b][k] == payload[o + a..o + b][k] {
      assert payload[o..end][a + k] == payload[o + (a + k)];
    }
  }

  /** The bytes of a head lie at `o`. */
  ghost predicate HeadLiesAt(payload: Bytes, o: nat, h: Head) {
    && o + 26 <= |payload|
    && ValueLE(payload[o..o + 4]) == h.tick && ValueLE(payload[o + 4..o + 8]) == h.txIndex && ValueLE(payload[o + 8..o + 10]) == h.epoch
    && ValueLE(payload[o + 10..o + 18]) == (if h.amount >= 0 then h.amount else h.amount + 0x1_0000_0000_0000_0000)
    && payload[o + 18] == h.eventType && payload[o + 19..o + 26] == h.reserved
  }

  lemma {:induction false} HeadAt(payload: Bytes, o: nat, h: Head)
    requires o + 26 <= |payload| && payload[o..o + 26] == HeadBytes(h)
    ensures HeadLiesAt(payload, o, h)
  {
    HeadRoundTrip(h);
    HeadFields(payload[o..o + 26]);
    SubSlice(payload, o, o + 26, 0, 4);
    SubSlice(payload, o, o + 26, 4, 8);
    SubSlice(payload, o, o + 26, 8, 10);
    SubSlice(payload, o, o + 26, 10, 18);
    SubSlice(payload, o, o + 26, 19, 26);
    assert payload[o..o + 26][18] == payload[o + 18];
    ValueLEInverse(payload[o + 10..o + 18]);
    Widths();
  }

  /** Each decoded event holds the fields that lie at its offset, little-endian, the amount in two's complement. */
  lemma {:induction false} EventFields(payload: Bytes, i: nat)
    requires |payload| >= 8 && i < |ParseAll(payload[8..]).0|
    ensures var ws := ParseAll(payload[8..]).0;
            var o, e := Offset(ws, i), EventsOf(ws)[i];
            && HeadLiesAt(payload, o, Head(e.tick, e.txIndex, e.epoch, e.amount, e.eventType, ws[i].head.reserved))
            && o + 26 + |e.data| <= |payload| && payload[o + 26..o + 26 + |e.data|] == e.data
            && HasItsSize(e.eventType, payload[o + 19], e.data)
  {
    var ws := ParseAll(payload[8..]).0;
    var o, end, w := Offset(ws, i), Offset(ws, i + 1), ws[i];
    SlicesAreConsecutive(payload, i);
    WellSizedAt(payload, i);
    SubSlice(payload, o, end, 0, 26);
    assert payload[o..end][0..26] == HeadBytes(w.head);
    HeadAt(payload, o, w.head);
    assert payload[o + 19..o + 26][0] == payload[o + 19];
  }

  lemma {:induction false} WellSizedAt(payload: Bytes, i: nat)
    requires |payload| >= 8 && i < |ParseAll(payload[8..]).0|
    ensures var w := ParseAll(payload[8..]).0[i]; HasItsSize(w.head.eventType, w.head.reserved[0], w.data)
  {
    PrintParse(payload[8..]);
    WellSizedIff(ParseAll(payload[8..]).0[i]);
  }
}
