/** The wireless event stream of help_ifconfig.c: iw_init_event_stream() and
    iw_extract_event_stream(), a cursor over events (len, cmd, values) whose lengths come from the
    stream itself. Pointers into the stream are offsets in memory. */
module EventStream {
  import opened Wrappers

  /** The memory the stream lies in; what is past the end of the stream is arbitrary. */
  type Memory = nat -> Byte

  datatype Kind = Null | Char | Uint | Freq | Addr | Point | Param | Qual

  datatype Descr = Descr(kind: Kind, tokenSize: nat, minTokens: nat, maxTokens: nat, noMax: bool)

  /** standard_ioctl_descr and standard_event_descr; the laws hold for any rows. */
  datatype Tables = Tables(ioctls: seq<Descr>, events: seq<Descr>)

  const LCP: nat := 4
  const FIRST: nat := 0x8B00
  const LAST: nat := 0x8BFF
  const EVENT_FIRST: nat := 0x8C00
  const POINT_OFF: nat := 8
  const WORD32: nat := 0x1_0000_0000

  function Two(m: Memory, p: nat): (v: nat)
    ensures v < 0x1_0000
  {
    m(p) + 256 * m(p + 1)
  }

  /** stream->current and stream->value. */
  datatype Cursor = Cursor(current: nat, value: Option<nat>)

  /** What iw_extract_event_stream writes in the event record: the offset the fixed part was copied
      from and its size; for iw_point events, data.length and data.pointer. */
  datatype Event = Event(len: nat, cmd: nat, from: nat, size: nat, length: nat, payload: Option<nat>)

  function Describe(t: Tables, cmd: nat): Option<Descr>
    requires cmd < 0x1_0000
  {
    var rows := if cmd <= LAST then t.ioctls else t.events;
    var index := Minus32(cmd, if cmd <= LAST then FIRST else EVENT_FIRST);
    if index < |rows| then Some(rows[index]) else None
  }

  function KindOf(t: Tables, cmd: nat): Kind
    requires cmd < 0x1_0000
  {
    match Describe(t, cmd) case Some(d) => d.kind case None => Null
  }

  /** event_type_size less the header: the size of one value; 0 for events that are skipped. */
  function ValueSize(k: Kind, version: int): nat {
    match k
    case Null => 0
    case Char => 16
    case Uint => 4
    case Freq => 8
    case Addr => 16
    case Point => if version <= 18 then 4 + POINT_OFF else 4
    case Param => 8
    case Qual => 4
  }

  /** The test of the second alignment fixup: four bytes of padding before the first value. */
  predicate Padded(k: Kind, len: nat, e: nat)
    requires e > 0 && len > LCP
  {
    (len - LCP) % e == 4 || (len == 12 && (k == Uint || k == Qual))
  }

  /** a - b in 32 unsigned bits. */
  function Minus32(a: nat, b: nat): nat { (a - b) % WORD32 }

  /** Where data.length lies in a fixed part at p: up to version 18 the pointer is in the stream too. */
  function LengthAt(p: nat, version: int): nat { if version > 18 then p else p + POINT_OFF }

  // ----- extraction, as code

  class Stream {
    const memory: Memory
    const tables: Tables
    const end: nat
    var current: nat
    var value: Option<nat>

    function View(): Cursor
      reads this
    {
      Cursor(current, value)
    }

    /** iw_init_event_stream. */
    constructor (memory: Memory, tables: Tables, data: nat, len: nat)
      ensures this.memory == memory && this.tables == tables && end == data + len
      ensures View() == Start(data) && Reachable(memory, tables, end, View())
    {
      this.memory, this.tables := memory, tables;
      current, end, value := data, data + len, None;
    }

    /** iw_extract_event_stream. */
    method Extract(version: int) returns (code: int, iwe: Event)
      modifies this
      ensures Outcome(View(), code, iwe) == Step(memory, tables, end, version, old(View()))
    {
      iwe := Event(0, 0, 0, 0, 0, None);
      if current + LCP > end {
        return 0, iwe;
      }
      iwe := iwe.(len := Two(memory, current), cmd := Two(memory, current + 2));
      if iwe.len <= LCP {
        return -1, iwe;
      }
      var descr := Describe(tables, iwe.cmd);
      var kind := if descr.Some? then descr.value.kind else Null;
      var e := ValueSize(kind, version);
      if e == 0 {
        current := current + iwe.len;
        return 2, iwe;
      }
      var pointer := if value.Some? then value.value else current + LCP;
      if pointer + e > end {
        current := current + iwe.len;
        return -2, iwe;
      }
      if kind == Point {
        iwe := ExtractPoint(iwe, descr.value, version, pointer, e);
        current := current + iwe.len;
      } else {
        iwe := ExtractValue(iwe, kind, pointer, e);
      }
      return 1, iwe;
    }

    /** One value of a fixed type, expected at p, and the move to the next value or event. */
    method ExtractValue(h: Event, kind: Kind, p: nat, e: nat) returns (iwe: Event)
      requires e > 0 && h.len > LCP
      modifies this
      ensures Outcome(View(), 1, iwe) == ValueStep(h, kind, old(View()), p, e)
    {
      var pointer, from := p + e, p;
      if value == None && Padded(kind, h.len, e) {
        from := pointer - e + 4;
        pointer := from + e;
      }
      iwe := h.(from := from, size := e);
      if pointer + e <= current + h.len {
        value := Some(pointer);
      } else {
        value := None;
        current := current + h.len;
      }
    }

    /** The special processing for iw_point events, with the fixed part at p. */
    method ExtractPoint(h: Event, d: Descr, version: int, p: nat, e: nat) returns (iwe: Event)
      ensures iwe == PointEvent(memory, d, version, h.(payload := None), p, e)
    {
      var pointer, from := p + e, p;
      var length := Two(memory, LengthAt(p, version));
      var payload := None;
      var extra := Minus32(h.len, e + LCP);
      if extra > 0 {
        payload := Some(pointer);
        var tokens := length * d.tokenSize;
        if tokens != extra && extra >= 4 {
          var alt := Two(memory, pointer) * d.tokenSize;
          if alt + 8 == extra {
            pointer := pointer - e + 4;
            // the second copy puts data.length first in every version
            from, length := pointer, Two(memory, pointer);
            pointer := pointer + e + 4;
            payload := Some(pointer);
            tokens := alt;
          }
        }
        if tokens > extra {
          payload := None;
        }
        if length > d.maxTokens && !d.noMax {
          payload := None;
        }
        if length < d.minTokens {
          payload := None;
        }
      }
      iwe := Event(h.len, h.cmd, from, e, length, payload);
    }
  }

  // ----- extraction, as a step on the cursor

  function Start(data: nat): Cursor { Cursor(data, None) }

  datatype Outcome = Outcome(cursor: Cursor, code: int, event: Event)

  function Header(m: Memory, p: nat): Event { Event(Two(m, p), Two(m, p + 2), 0, 0, 0, None) }

  /** One extraction: skip an unknown event, run off the end, one iw_point event, one value. */
  function Step(m: Memory, t: Tables, end: nat, version: int, c: Cursor): Outcome {
    var h := Header(m, c.current);
    if c.current + LCP > end then Outcome(c, 0, Event(0, 0, 0, 0, 0, None))
    else if h.len <= LCP then Outcome(c, -1, h)
    else
      var next := c.(current := c.current + h.len);
      var k := KindOf(t, h.cmd);
      var e := ValueSize(k, version);
      var p := if c.value.Some? then c.value.value else c.current + LCP;
      if e == 0 then Outcome(next, 2, h)
      else if p + e > end then Outcome(next, -2, h)
      else if k == Point then Outcome(next, 1, PointEvent(m, Describe(t, h.cmd).value, version, h, p, e))
      else ValueStep(h, k, c, p, e)
  }

  function ValueStep(h: Event, k: Kind, c: Cursor, p: nat, e: nat): Outcome
    requires e > 0 && h.len > LCP
  {
    var from := if c.value == None && Padded(k, h.len, e) then p + 4 else p;
    Outcome(if from + 2 * e <= c.current + h.len then c.(value := Some(from + e)) else Cursor(c.current + h.len, None),
            1, h.(from := from, size := e))
  }

  /** The padded form of an iw_point event: eight bytes more than the tokens it carries. */
  predicate PaddedPoint(m: Memory, d: Descr, version: int, len: nat, p: nat, e: nat) {
    var extra := Minus32(len, e + LCP);
    && Two(m, LengthAt(p, version)) * d.tokenSize != extra
    && Two(m, p + e) * d.tokenSize + 8 == extra
  }

  function PointEvent(m: Memory, d: Descr, version: int, h: Event, p: nat, e: nat): Event {
    var extra := Minus32(h.len, e + LCP);
    var from := if PaddedPoint(m, d, version, h.len, p, e) then p + 4 else p;
    var length := Two(m, if from == p then LengthAt(p, version) else from);
    var tokens := (if from == p then length else Two(m, p + e)) * d.tokenSize;
    h.(from := from, size := e, length := length, payload :=
         if extra > 0 && tokens <= extra && d.minTokens <= length && (length <= d.maxTokens || d.noMax)
         then Some(if from == p then p + e else p + e + 8) else None)
  }

  // ----- every cursor a stream can get to

  /** A cursor between two values of an event has room for the next value in that event; one past the
      end may keep a stale value. */
  predicate Reachable(m: Memory, t: Tables, end: nat, c: Cursor) {
    c.value.Some? ==>
      || c.current + LCP > end
      || var len, k := Two(m, c.current), KindOf(t, Two(m, c.current + 2));
         && len > LCP && k != Null && k != Point
         && c.current + LCP < c.value.value
         && c.value.value + ValueSize(k, 0) <= c.current + len
         && c.value.value <= end + 4
  }

  lemma StepReachable(m: Memory, t: Tables, end: nat, version: int, c: Cursor)
    requires Reachable(m, t, end, c)
    ensures Reachable(m, t, end, Step(m, t, end, version, c).cursor)
  {
  }

  /** What is left to extract. */
  function Left(end: nat, c: Cursor): nat {
    if c.current + LCP > end then 0 else end - c.current
  }

  function LeftInEvent(end: nat, c: Cursor): nat {
    match c.value
    case None => end + 5
    case Some(v) => if v <= end + 4 then end + 4 - v else 0
  }

  /** Every extraction that reports anything but the end (0) or a bad length (-1) moves the cursor on:
      to another event, or within the event. */
  lemma StepProgress(m: Memory, t: Tables, end: nat, version: int, c: Cursor)
    requires Reachable(m, t, end, c)
    ensures var o := Step(m, t, end, version, c);
      if o.code == 0 || o.code == -1 then
        o.cursor == c
      else
        || Left(end, o.cursor) < Left(end, c)
        || (Left(end, o.cursor) == Left(end, c) && LeftInEvent(end, o.cursor) < LeftInEvent(end, c))
  {
  }

  /** Repeated extraction ends on every stream, whatever version each call is told. */
  function Drain(m: Memory, t: Tables, end: nat, version: nat -> int, n: nat, c: Cursor): (run: seq<Outcome>)
    requires Reachable(m, t, end, c)
    ensures run != [] && (run[|run| - 1].code == 0 || run[|run| - 1].code == -1)
    decreases Left(end, c), LeftInEvent(end, c)
  {
    var o := Step(m, t, end, version(n), c);
    if o.code == 0 || o.code == -1 then [o]
    else
      StepReachable(m, t, end, version(n), c);
      StepProgress(m, t, end, version(n), c);
      [o] + Drain(m, t, end, version, n + 1, o.cursor)
  }

  /** The event is at least as long as its fixed part at p, and if it is padded, the two bytes taken for
      data.length count no more tokens than those its size was compared with. */
  predicate PointFits(m: Memory, d: Descr, version: int, len: nat, p: nat, e: nat) {
    && LCP + e <= len
    && (PaddedPoint(m, d, version, len, p, e) ==> Two(m, p + 4) <= Two(m, p + e) || d.tokenSize == 0)
  }

  /** The payload a fixed part at p gives: only for a length the row allows, and ending within an
      event of len bytes that starts LCP bytes before p exactly when the fixed part fits. */
  lemma PointPayload(m: Memory, d: Descr, version: int, h: Event, p: nat, e: nat)
    requires e == ValueSize(Point, version) && LCP < h.len < 0x1_0000
    ensures var r := PointEvent(m, d, version, h, p, e);
      r.payload.Some? ==>
        && d.minTokens <= r.length && (r.length <= d.maxTokens || d.noMax)
        && (r.payload.value + r.length * d.tokenSize <= p - LCP + h.len <==> PointFits(m, d, version, h.len, p, e))
  {
    var r := PointEvent(m, d, version, h, p, e);
    var extra := Minus32(h.len, e + LCP);
    if r.payload.Some? {
      if PaddedPoint(m, d, version, h.len, p, e) {
        assert r.length == Two(m, p + 4);
        TimesMonotone(r.length, Two(m, p + e), d.tokenSize);
        if h.len < LCP + e { assert r.payload.value > p - LCP + h.len; }
      } else {
        assert r.payload.value == p + e && r.length * d.tokenSize <= extra;
      }
    }
  }

  lemma TimesMonotone(a: nat, b: nat, k: nat)
    ensures a * k <= b * k <==> a <= b || k == 0
  {
    if a <= b { assert (b - a) * k >= 0; } else if k > 0 { assert (a - b) * k > 0; }
  }

  lemma PointStep(m: Memory, t: Tables, end: nat, version: int, c: Cursor)
    requires Reachable(m, t, end, c)
    ensures var o := Step(m, t, end, version, c);
      o.code == 1 && KindOf(t, o.event.cmd) == Point ==>
        && LCP < o.event.len
        && o.event == PointEvent(m, Describe(t, o.event.cmd).value, version, Header(m, c.current), c.current + LCP,
                                 ValueSize(Point, version))
  {
  }

  /** An iw_point payload is handed out only for a length the row allows, and never from a stale value.
      It lies in its event exactly when the fixed part fits; past version 18 that is exactly when the
      event is as long as the fixed part. */
  lemma PayloadInEvent(m: Memory, t: Tables, end: nat, version: int, c: Cursor)
    requires Reachable(m, t, end, c)
    ensures var o := Step(m, t, end, version, c);
      o.code == 1 && KindOf(t, o.event.cmd) == Point && o.event.payload.Some? ==>
        var d, e := Describe(t, o.event.cmd).value, ValueSize(Point, version);
        && d.minTokens <= o.event.length && (o.event.length <= d.maxTokens || d.noMax)
        && (o.event.payload.value + o.event.length * d.tokenSize <= c.current + o.event.len
            <==> PointFits(m, d, version, o.event.len, c.current + LCP, e))
        && (version > 18 ==> (PointFits(m, d, version, o.event.len, c.current + LCP, e) <==> LCP + e <= o.event.len))
  {
    PointStep(m, t, end, version, c);
    var o := Step(m, t, end, version, c);
    if o.code == 1 && KindOf(t, o.event.cmd) == Point {
      PointPayload(m, Describe(t, o.event.cmd).value, version, Header(m, c.current), c.current + LCP, ValueSize(Point, version));
    }
  }

  /** One IWEVCUSTOM event of 24 bytes with a 12-byte fixed part: 200 at its offset 8, nothing after that. */
  function OldEvent(): Memory {
    (p: nat) => if p == 0 then 24 else if p == 2 then 0x02 else if p == 3 then 0x8C else if p == 8 then 200 else 0
  }

  /** The rows of IWEVTXDROP, IWEVQUAL and IWEVCUSTOM. */
  function OldTables(): Tables {
    Tables([], [Descr(Addr, 0, 0, 0, false), Descr(Qual, 0, 0, 0, false), Descr(Point, 1, 0, 256, false)])
  }

  /** Up to version 18 the padded form can hand out a payload of 200 tokens that starts where its event
      ends, although the event is longer than its fixed part. */
  lemma OldPaddedPayload()
    ensures var o := Step(OldEvent(), OldTables(), 24, 18, Start(0));
      && o.code == 1 && o.event.len == 24 > LCP + ValueSize(Point, 18)
      && o.event.payload == Some(24) && o.event.length == 200
  {
    var m, row := OldEvent(), OldTables().events[2];
    assert Two(m, 0) == 24 && Two(m, 2) == 0x8C02 && Two(m, 8) == 200 && Two(m, 12) == 0 && Two(m, 16) == 0;
    assert Minus32(24, 16) == 8 && Minus32(0x8C02, EVENT_FIRST) == 2;
    assert PaddedPoint(m, row, 18, 24, 4, 12);
  }

  // ----- how many values an event yields

  /** n steps that each yield a value. */
  ghost predicate Yields(m: Memory, t: Tables, end: nat, version: int, c: Cursor, from: nat, e: nat, n: nat, last: Cursor)
    decreases n
  {
    if n == 0 then c == last
    else
      var o := Step(m, t, end, version, c);
      && o.code == 1 && o.event.from == from && o.event.size == e
      && (n > 1 ==> o.cursor.value == Some(from + e) && o.cursor.current == c.current)
      && Yields(m, t, end, version, o.cursor, from + e, e, n - 1, last)
  }

  /** An event of a fixed type that lies in the stream and has room for a value. */
  predicate FixedEvent(m: Memory, t: Tables, end: nat, p: nat) {
    var h := Header(m, p);
    var k := KindOf(t, h.cmd);
    && p + h.len <= end && k != Null && k != Point && LCP + ValueSize(k, 0) <= h.len
  }

  /** Values after the first are taken while a whole one fits in the event. */
  lemma {:induction false} YieldsRest(m: Memory, t: Tables, end: nat, version: int, p: nat, v: nat, n: nat)
    requires FixedEvent(m, t, end, p) && p + LCP < v
    requires var h := Header(m, p);
      var e := ValueSize(KindOf(t, h.cmd), 0);
      n > 0 && v + n * e <= p + h.len < v + (n + 1) * e
    ensures Yields(m, t, end, version, Cursor(p, Some(v)), v, ValueSize(KindOf(t, Two(m, p + 2)), 0), n,
                   Cursor(p + Two(m, p), None))
    decreases n
  {
    var e := ValueSize(KindOf(t, Two(m, p + 2)), 0);
    assert n * e == e + (n - 1) * e && (n + 1) * e == e + n * e;
    if n > 1 {
      assert (n - 1) * e >= e by { assert (n - 1) * e == e + (n - 2) * e; }
      YieldsRest(m, t, end, version, p, v + e, n - 1);
    }
  }

  /** A fixed-type event with k values, or with k values after four bytes of padding, yields them one
      by one and then leaves the cursor at the next event. */
  lemma YieldsAll(m: Memory, t: Tables, end: nat, version: int, p: nat, pad: nat, k: nat)
    requires FixedEvent(m, t, end, p) && k > 0
    requires var h := Header(m, p);
      var kind := KindOf(t, h.cmd);
      var e := ValueSize(kind, 0);
      && h.len == LCP + pad + k * e && pad == if Padded(kind, h.len, e) then 4 else 0
    ensures Yields(m, t, end, version, Cursor(p, None), p + LCP + pad, ValueSize(KindOf(t, Two(m, p + 2)), 0), k,
                   Cursor(p + Two(m, p), None))
  {
    var h := Header(m, p);
    var e := ValueSize(KindOf(t, h.cmd), 0);
    assert k * e == e + (k - 1) * e && (k + 1) * e == e + k * e;
    if k > 1 {
      assert (k - 1) * e == e + (k - 2) * e;
      YieldsRest(m, t, end, version, p, p + LCP + pad + e, k - 1);
    }
  }

  /** An event of k values written without padding yields exactly those, unless it is one of two values
      of a 4-byte kind (12 bytes), which yields its second value only. */
  lemma YieldsExactly(m: Memory, t: Tables, end: nat, version: int, p: nat, k: nat)
    requires FixedEvent(m, t, end, p) && k > 0
    requires Two(m, p) == LCP + k * ValueSize(KindOf(t, Two(m, p + 2)), 0)
    ensures var kind := KindOf(t, Two(m, p + 2));
      var e := ValueSize(kind, 0);
      var last := Cursor(p + Two(m, p), None);
      if (kind == Uint || kind == Qual) && k == 2 then
        Yields(m, t, end, version, Cursor(p, None), p + LCP + e, e, 1, last)
      else
        Yields(m, t, end, version, Cursor(p, None), p + LCP, e, k, last)
  {
    var kind := KindOf(t, Two(m, p + 2));
    var e := ValueSize(kind, 0);
    assert (k * e) % e == 0 by { MultipleOf(k, e); }
    if (kind == Uint || kind == Qual) && k == 2 {
      YieldsAll(m, t, end, version, p, 4, 1);
    } else {
      assert Two(m, p) == 12 && e == 4 ==> k == 2;
      YieldsAll(m, t, end, version, p, 0, k);
    }
  }

  lemma MultipleOf(k: nat, e: nat)
    requires e == 4 || e == 8 || e == 16
    ensures k * e % e == 0
  {
    assert e == 4 ==> k * e == 4 * k;
    assert e == 8 ==> k * e == 8 * k;
    assert e == 16 ==> k * e == 16 * k;
  }
}
