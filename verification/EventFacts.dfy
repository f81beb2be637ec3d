/** What iw_extract_event_stream does with the bytes of an event, in numbers: sizes, offsets, commands and
    return codes as the wire format has them. */
module EventFacts {
  import opened Wrappers
  import opened EventStream

  /** The bytes at p are the header of an event of len bytes with this command. */
  predicate HeaderAt(m: Memory, p: nat, len: nat, cmd: nat) {
    m(p) + 256 * m(p + 1) == len && m(p + 2) + 256 * m(p + 3) == cmd
  }

  /** The row of the command: up to 0x8BFF in the table of ioctls, from 0x8B00 on; past that in the table of
      events, from 0x8C00 on. */
  predicate RowIs(t: Tables, cmd: nat, d: Descr) {
    if cmd <= 0x8BFF then 0x8B00 <= cmd && cmd - 0x8B00 < |t.ioctls| && t.ioctls[cmd - 0x8B00] == d
    else 0x8C00 <= cmd && cmd - 0x8C00 < |t.events| && t.events[cmd - 0x8C00] == d
  }

  lemma RowFound(t: Tables, cmd: nat, d: Descr)
    requires RowIs(t, cmd, d) && cmd < 0x1_0000
    ensures Describe(t, cmd) == Some(d)
  {
  }

  /** A name or an address has 16 bytes, a frequency or a parameter 8, a number or a quality 4. */
  predicate BytesOf(k: Kind, n: nat) {
    || (n == 16 && (k.Char? || k.Addr?))
    || (n == 8 && (k.Freq? || k.Param?))
    || (n == 4 && (k.Uint? || k.Qual?))
  }

  /** An event of one value in the stream yields that value, and the cursor goes to the next event. */
  lemma OneValue(m: Memory, t: Tables, end: nat, version: int, p: nat, cmd: nat, d: Descr, n: nat)
    requires HeaderAt(m, p, 4 + n, cmd) && RowIs(t, cmd, d) && BytesOf(d.kind, n) && p + 4 + n <= end
    ensures Step(m, t, end, version, Cursor(p, None))
            == Outcome(Cursor(p + 4 + n, None), 1, Event(4 + n, cmd, p + 4, n, 0, None))
  {
    RowFound(t, cmd, d);
  }

  /** k values written one behind the other come out one by one, unless they are two of 4 bytes. */
  lemma ManyValues(m: Memory, t: Tables, end: nat, version: int, p: nat, cmd: nat, d: Descr, n: nat, k: nat)
    requires HeaderAt(m, p, 4 + k * n, cmd) && RowIs(t, cmd, d) && BytesOf(d.kind, n) && p + 4 + k * n <= end && k > 0
    requires !(n == 4 && k == 2)
    ensures Yields(m, t, end, version, Cursor(p, None), p + 4, n, k, Cursor(p + 4 + k * n, None))
  {
    RowFound(t, cmd, d);
    assert k * n >= n by { assert k * n == n + (k - 1) * n; }
    YieldsExactly(m, t, end, version, p, k);
  }

  /** Behind four bytes of padding, too; for values of 4 bytes only if there is one. */
  lemma PaddedValues(m: Memory, t: Tables, end: nat, version: int, p: nat, cmd: nat, d: Descr, n: nat, k: nat)
    requires HeaderAt(m, p, 8 + k * n, cmd) && RowIs(t, cmd, d) && BytesOf(d.kind, n) && p + 8 + k * n <= end && k > 0
    requires n == 4 ==> k == 1
    ensures Yields(m, t, end, version, Cursor(p, None), p + 8, n, k, Cursor(p + 8 + k * n, None))
  {
    RowFound(t, cmd, d);
    PaddedSize(d.kind, n, k);
    YieldsAll(m, t, end, version, p, 4, k);
  }

  lemma PaddedSize(kind: Kind, n: nat, k: nat)
    requires BytesOf(kind, n) && k > 0 && (n == 4 ==> k == 1)
    ensures Padded(kind, 8 + k * n, n) && k * n >= n
  {
    if n == 8 { assert k * n == 8 * k; }
    if n == 16 { assert k * n == 16 * k; }
  }

  /** The end of the stream, a bad length, a command without a row: 0, -1 and 2. */
  lemma Codes(m: Memory, t: Tables, end: nat, version: int, c: Cursor, len: nat, cmd: nat)
    requires HeaderAt(m, c.current, len, cmd) && |t.ioctls| < 0x1_0000
    ensures var o := Step(m, t, end, version, c);
      && (c.current + 4 > end ==> o.code == 0 && o.cursor == c)
      && (c.current + 4 <= end && len <= 4 ==> o.code == -1 && o.cursor == c)
      && (c.current + 4 <= end && len > 4 && (forall d: Descr :: RowIs(t, cmd, d) ==> d.kind.Null?) ==>
            o.code == 2 && o.cursor == c.(current := c.current + len))
  {
    if c.current + 4 <= end && len > 4 && forall d: Descr :: RowIs(t, cmd, d) ==> d.kind.Null? {
      match Describe(t, cmd)
      case Some(d) => assert RowIs(t, cmd, d);
      case None =>
    }
  }

  /** A value that runs past the end of the stream: -2, and the next event. An iw_point has 4 bytes, and 12
      up to version 18. */
  lemma PastEnd(m: Memory, t: Tables, end: nat, version: int, c: Cursor, len: nat, cmd: nat, d: Descr, n: nat)
    requires HeaderAt(m, c.current, len, cmd) && RowIs(t, cmd, d) && len > 4 && c.current + 4 <= end
    requires BytesOf(d.kind, n) || (d.kind.Point? && n == if version <= 18 then 12 else 4)
    requires (if c.value.Some? then c.value.value else c.current + 4) + n > end
    ensures Step(m, t, end, version, c).code == -2
    ensures Step(m, t, end, version, c).cursor == c.(current := c.current + len)
  {
    RowFound(t, cmd, d);
  }

  /** The number of tokens in two bytes. */
  function Tokens(m: Memory, p: nat): nat { m(p) + 256 * m(p + 1) }

  /** An iw_point event past version 18 has its length in the first two bytes behind the header and the
      payload behind four. In the padded form both come eight bytes later. */
  lemma NewPoint(m: Memory, t: Tables, end: nat, version: int, p: nat, len: nat, cmd: nat, d: Descr)
    requires HeaderAt(m, p, len, cmd) && RowIs(t, cmd, d) && d.kind.Point? && len >= 8 && p + 8 <= end && version > 18
    ensures var size, n, alt := d.tokenSize, Tokens(m, p + 4), Tokens(m, p + 8);
      var padded := n * size != len - 8 && alt * size + 16 == len;
      var length := if padded then alt else n;
      var ok := len > 8 && (padded || n * size <= len - 8) && d.minTokens <= length && (length <= d.maxTokens || d.noMax);
      Step(m, t, end, version, Cursor(p, None))
      == Outcome(Cursor(p + len, None), 1,
                 Event(len, cmd, if padded then p + 8 else p + 4, 4, length,
                       if ok then Some(if padded then p + 16 else p + 8) else None))
  {
    RowFound(t, cmd, d);
    NewPadded(m, d, version, p, len);
  }

  lemma NewPadded(m: Memory, d: Descr, version: int, p: nat, len: nat)
    requires 8 <= len < 0x1_0000 && version > 18
    ensures Minus32(len, 8) == len - 8
    ensures PaddedPoint(m, d, version, len, p + 4, 4)
            <==> Tokens(m, p + 4) * d.tokenSize != len - 8 && Tokens(m, p + 8) * d.tokenSize + 16 == len
  {
  }

  /** Up to version 18 the pointer is in the stream: the length comes eight bytes later, and so does the
      payload. The padded form takes the length from where it would be without the pointer. */
  lemma OldPoint(m: Memory, t: Tables, end: nat, version: int, p: nat, len: nat, cmd: nat, d: Descr)
    requires HeaderAt(m, p, len, cmd) && RowIs(t, cmd, d) && d.kind.Point? && len >= 16 && p + 16 <= end && version <= 18
    ensures var size, n, alt := d.tokenSize, Tokens(m, p + 12), Tokens(m, p + 16);
      var padded := n * size != len - 16 && alt * size + 24 == len;
      var length := if padded then Tokens(m, p + 8) else n;
      var ok := len > 16 && (padded || n * size <= len - 16) && d.minTokens <= length && (length <= d.maxTokens || d.noMax);
      Step(m, t, end, version, Cursor(p, None))
      == Outcome(Cursor(p + len, None), 1,
                 Event(len, cmd, if padded then p + 8 else p + 4, 12, length,
                       if ok then Some(if padded then p + 24 else p + 16) else None))
  {
    RowFound(t, cmd, d);
    OldPadded(m, d, version, p, len);
  }

  lemma OldPadded(m: Memory, d: Descr, version: int, p: nat, len: nat)
    requires 16 <= len < 0x1_0000 && version <= 18
    ensures Minus32(len, 16) == len - 16
    ensures PaddedPoint(m, d, version, len, p + 4, 12)
            <==> Tokens(m, p + 12) * d.tokenSize != len - 16 && Tokens(m, p + 16) * d.tokenSize + 24 == len
  {
  }
}
