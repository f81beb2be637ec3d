/** The loops and buffer writes of lib/nlattr.c, and what writing and then parsing gives back. */
module NetlinkCode {
  import opened Wrappers
  import opened NetlinkAttr

  /** An attribute to write: the type field, flags included, and the payload. */
  datatype Attr = Attr(rawType: nat, payload: Bytes)

  /** What nla_put returns: 0 or -EMSGSIZE. */
  datatype Status = Success | MessageSize

  /** nla_attr_size, nla_total_size. */
  function Size(payload: nat): nat { HDRLEN + payload }

  function Total(payload: nat): (n: nat)
    ensures n % 4 == 0 && Size(payload) <= n < Size(payload) + 4
  {
    Align(Size(payload))
  }

  /** A 16-bit field, little-endian; larger values are cut off. */
  function Two(v: nat): (b: Bytes)
    ensures |b| == 2 && var lo: nat, hi: nat := b[0], b[1]; lo + 256 * hi == v % WORD16
  {
    var w := v % WORD16;
    [w % 256, w / 256]
  }

  function Zeros(n: nat): (b: Bytes)
    ensures |b| == n && forall i: nat :: i < n ==> b[i] == 0
  {
    seq(n, _ => 0)
  }

  /** nla_padlen. */
  function Padding(payload: nat): (n: nat)
    ensures n < 4 && (Size(payload) % WORD16 + n) % 4 == 0
  {
    Total(payload) - Size(payload)
  }

  /** An attribute as a reader expects it. */
  function Encode(a: Attr): (b: Bytes)
    ensures |b| == Total(|a.payload|)
  {
    Two(Size(|a.payload|)) + Two(a.rawType) + a.payload + Zeros(Padding(|a.payload|))
  }

  /** The header once __nla_reserve has zeroed the padding, which begins where the length field says: for a
      length past 16 bits that can be inside the header. */
  function Header(rawType: nat, len: nat): (b: Bytes)
    ensures |b| == HDRLEN
  {
    var h, w := Two(Size(len)) + Two(rawType), Size(len) % WORD16;
    if Size(len) >= WORD16 && 0 < w < HDRLEN then h[..w] + Zeros(HDRLEN - w) else h
  }

  /** What nla_put appends where the buffer held was. */
  function Appended(a: Attr, was: Bytes): (b: Bytes)
    requires |was| == Total(|a.payload|)
    ensures |b| == |was|
  {
    var n := Size(|a.payload|);
    Header(a.rawType, |a.payload|) + a.payload + if n < WORD16 then Zeros(Padding(|a.payload|)) else was[n..]
  }

  /** Nothing is lost when the attribute's length needs no more than 16 bits, or no padding, or what was
      cleared and what was not were zero anyway. */
  predicate AppendsWhole(a: Attr, was: Bytes)
    requires |was| == Total(|a.payload|)
  {
    var n, t := Size(|a.payload|), a.rawType % WORD16;
    || n < WORD16
    || n % 4 == 0
    || (was[n..] == Zeros(|was| - n) && (n % WORD16 < 3 ==> t == 0) && (n % WORD16 == 3 ==> t < 256))
  }

  /** Exactly when nla_put appends what a reader expects. */
  lemma AppendedWhole(a: Attr, was: Bytes)
    requires |was| == Total(|a.payload|)
    ensures Appended(a, was) == Encode(a) <==> AppendsWhole(a, was)
  {
    var n := Size(|a.payload|);
    if n >= WORD16 {
      SameEnds(Header(a.rawType, |a.payload|), Two(n) + Two(a.rawType), a.payload, was[n..], Zeros(|was| - n));
      HeaderWhole(a.rawType, |a.payload|);
      if n % 4 == 0 { assert was[n..] == Zeros(0); }
    }
  }

  lemma AppendedFits(a: Attr, was: Bytes)
    requires |was| == Total(|a.payload|)
    ensures Size(|a.payload|) < WORD16 ==> Appended(a, was) == Encode(a)
  {
  }

  lemma SameEnds(h: Bytes, g: Bytes, p: Bytes, q: Bytes, r: Bytes)
    requires |h| == |g| && |q| == |r|
    ensures h + p + q == g + p + r <==> h == g && q == r
  {
    assert h == (h + p + q)[..|h|] && g == (g + p + r)[..|h|];
    assert q == (h + p + q)[|h| + |p|..] && r == (g + p + r)[|h| + |p|..];
  }

  lemma HeaderWhole(rawType: nat, len: nat)
    requires Size(len) >= WORD16
    ensures var w, t := Size(len) % WORD16, rawType % WORD16;
      Header(rawType, len) == Two(Size(len)) + Two(rawType) <==> Size(len) % 4 == 0 || ((w < 3 ==> t == 0) && (w == 3 ==> t < 256))
  {
    var h, w := Two(Size(len)) + Two(rawType), Size(len) % WORD16;
    HeaderBytes(Size(len), rawType);
    assert w % 4 == Size(len) % 4;
    if 0 < w < HDRLEN { CutWhole(h, w); }
  }

  lemma HeaderBytes(n: nat, rawType: nat)
    ensures var h, w, t := Two(n) + Two(rawType), n % WORD16, rawType % WORD16;
      && h[0] == w % 256 && h[1] == w / 256 && h[2] == t % 256 && h[3] == t / 256
      && (t == 0 <==> h[2] == 0 && h[3] == 0) && (t < 256 <==> h[3] == 0) && (w < 256 <==> h[1] == 0)
  {
  }

  /** Four bytes with all but the first w cleared. */
  lemma CutWhole(h: Bytes, w: nat)
    requires |h| == HDRLEN && 0 < w < HDRLEN
    ensures h[..w] + Zeros(HDRLEN - w) == h <==> forall i: nat :: w <= i < HDRLEN ==> h[i] == 0
  {
    var b := h[..w] + Zeros(HDRLEN - w);
    assert forall i: nat :: i < HDRLEN ==> b[i] == if i < w then h[i] else 0;
  }

  /** A header was put at at: a buffer that held s holds d. */
  ghost predicate Reserved(s: Bytes, d: Bytes, at: nat, rawType: nat, len: nat) {
    && |s| == |d| && at + Total(len) <= |s|
    && d[..at] == s[..at] && d[at..at + HDRLEN] == Header(rawType, len)
    && forall i: nat :: at + HDRLEN <= i < |s| ==>
         d[i] == if 0 <= i - at - Size(len) % WORD16 < Padding(len) then 0 else s[i]
  }

  /** Bytes were put at at: a buffer that held d holds u. */
  ghost predicate Wrote(d: Bytes, u: Bytes, at: nat, bytes: Bytes) {
    && |d| == |u| && at + |bytes| <= |u| && u[at..at + |bytes|] == bytes
    && forall i: nat :: i < |u| && !(at <= i < at + |bytes|) ==> u[i] == d[i]
  }

  /** The buffer before a put, once the header is in place, and once the payload is. */
  lemma PutWhole(s: Bytes, d: Bytes, u: Bytes, at: nat, a: Attr)
    requires Reserved(s, d, at, a.rawType, |a.payload|) && Wrote(d, u, at + HDRLEN, a.payload)
    ensures u[..at + Total(|a.payload|)] == s[..at] + Appended(a, s[at..at + Total(|a.payload|)])
  {
    var n, end, was := at + Size(|a.payload|), at + Total(|a.payload|), s[at..at + Total(|a.payload|)];
    ZeroedInside(|a.payload|);
    assert u[..at] == s[..at] && u[at..at + HDRLEN] == d[at..at + HDRLEN];
    PaddingKept(s, d, at, a);
    assert u[n..end] == d[n..end];
    assert u[..end] == u[..at] + (u[at..at + HDRLEN] + u[at + HDRLEN..n] + u[n..end]);
  }

  lemma PaddingKept(s: Bytes, d: Bytes, at: nat, a: Attr)
    requires |s| == |d| && at + Total(|a.payload|) <= |s|
    requires var n := Size(|a.payload|);
      forall i: nat :: at + HDRLEN <= i < |s| ==> d[i] == if 0 <= i - at - n % WORD16 < Padding(|a.payload|) then 0 else s[i]
    ensures var n, end := Size(|a.payload|), at + Total(|a.payload|);
      d[at + n..end] == if n < WORD16 then Zeros(Padding(|a.payload|)) else s[at..end][n..]
  {
    ZeroedInside(|a.payload|);
  }

  /** Which header bytes the zeroing of the padding reaches. */
  lemma HeaderCleared(rawType: nat, len: nat)
    ensures forall i: nat :: i < HDRLEN ==>
      Header(rawType, len)[i] == if 0 <= i - Size(len) % WORD16 < Padding(len) then 0 else (Two(Size(len)) + Two(rawType))[i]
  {
    var n, w := Size(len), Size(len) % WORD16;
    if n < WORD16 { assert w == n; }
    if 0 < w < HDRLEN { assert Padding(len) == HDRLEN - w; }
    if w == 0 { assert Padding(len) == 0; }
  }

  /** The zeros stay inside the attribute, and reach its own padding only if its length fits 16 bits. */
  lemma ZeroedInside(len: nat)
    ensures var n, w, d := Size(len), Size(len) % WORD16, Padding(len);
      n + d == Total(len) && if n < WORD16 then w == n else w + d <= n
  {
    var n, w := Size(len), Size(len) % WORD16;
    if n < WORD16 { assert w == n; } else { assert w <= n - WORD16; }
  }

  function EncodeAll(attrs: seq<Attr>): (b: Bytes)
    ensures |b| % 4 == 0
  {
    if attrs == [] then [] else Encode(attrs[0]) + EncodeAll(attrs[1..])
  }

  /** An attribute whose length and type fit their 16-bit fields. */
  predicate InRange16(a: Attr) { Size(|a.payload|) < WORD16 && a.rawType < WORD16 }

  // ----- the buffer

  class SkBuff {
    const data: array<Byte>
    var tail: nat

    ghost predicate Valid()
      reads this
    {
      tail <= data.Length
    }

    ghost function Contents(): Bytes
      requires Valid()
      reads this, data
    {
      data[..tail]
    }

    constructor (capacity: nat)
      ensures Valid() && fresh(data) && data.Length == capacity && Contents() == []
    {
      data := new Byte[capacity](_ => 0);
      tail := 0;
    }

    /** skb_put: room for len more bytes, whose old contents stay. */
    method Put(len: nat) returns (at: nat)
      requires Valid() && tail + len <= data.Length
      modifies this`tail
      ensures Valid() && at == old(tail) && tail == at + len
    {
      at := tail;
      tail := tail + len;
    }

    /** memcpy into the buffer. */
    method Write(at: nat, bytes: Bytes)
      requires Valid() && at + |bytes| <= tail
      modifies data
      ensures Wrote(old(data[..]), data[..], at, bytes)
    {
      for i := 0 to |bytes|
        invariant data[at..at + i] == bytes[..i]
        invariant forall j: nat :: j < data.Length && !(at <= j < at + i) ==> data[j] == old(data[j])
      {
        data[at + i] := bytes[i];
      }
    }

    /** memset to 0. */
    method Zero(at: nat, n: nat)
      requires Valid() && at + n <= tail
      modifies data
      ensures forall i: nat :: i < data.Length ==> data[i] == if at <= i < at + n then 0 else old(data[i])
    {
      Write(at, Zeros(n));
      ghost var zeroed := data[at..at + n];
      assert forall i: nat :: i < n ==> data[at + i] == zeroed[i];
    }

    /** __nla_reserve: the header, and zeros from where its length field says. The other bytes are whatever
        the buffer held. */
    method Reserve(rawType: nat, len: nat) returns (at: nat)
      requires Valid() && data.Length - tail >= Total(len)
      modifies this`tail, data
      ensures Valid() && at == old(tail) && tail == at + Total(len)
      ensures Reserved(old(data[..]), data[..], at, rawType, len)
    {
      at := Put(Total(len));
      var header, w := Two(Size(len)) + Two(rawType), Size(len) % WORD16;
      Write(at, header);
      assert forall i: nat :: i < HDRLEN ==> data[at..at + HDRLEN][i] == header[i];
      ZeroedInside(len);
      Zero(at + w, Padding(len));
      HeaderCleared(rawType, len);
      assert forall i: nat :: i < HDRLEN ==> data[at..at + HDRLEN][i] == Header(rawType, len)[i];
    }

    /** nla_put: 0, or -EMSGSIZE and nothing changed when the attribute does not fit. */
    method PutAttr(a: Attr) returns (err: Status)
      requires Valid()
      modifies this`tail, data
      ensures Valid()
      ensures err == Success <==> old(tail) + Total(|a.payload|) <= data.Length
      ensures err == Success ==>
                Contents() == old(Contents()) + Appended(a, old(data[..])[old(tail)..old(tail) + Total(|a.payload|)])
      ensures err == Success && Size(|a.payload|) < WORD16 ==> Contents() == old(Contents()) + Encode(a)
      ensures err != Success ==> tail == old(tail) && data[..] == old(data[..])
    {
      var tailroom := data.Length - tail;
      if tailroom < Total(|a.payload|) { return MessageSize; }
      var at := Reserve(a.rawType, |a.payload|);
      ghost var d := data[..];
      Write(at + HDRLEN, a.payload);
      PutWhole(old(data[..]), d, data[..], at, a);
      AppendedFits(a, old(data[..])[old(tail)..old(tail) + Total(|a.payload|)]);
      err := Success;
    }
  }

  // ----- the loops

  /** nla_find: the offset of the first attribute of a type. */
  function FindFirst(m: Bytes, off: nat, rem: int, t: nat): Option<nat>
    decreases if rem < 0 then 0 else rem
  {
    if !Fits(m, off, rem) then None
    else if Type(m, off) == t then Some(off)
    else FindFirst(m, off + Align(AttrLen(m, off)), rem - Align(AttrLen(m, off)), t)
  }

  method Find(m: Bytes, head: nat, len: int, t: nat) returns (r: Option<nat>)
    ensures r == FindFirst(m, head, len, t)
  {
    var off: nat, rem: int := head, len;
    while Fits(m, off, rem)
      invariant FindFirst(m, off, rem, t) == FindFirst(m, head, len, t)
      decreases rem
    {
      if Type(m, off) == t { return Some(off); }
      off, rem := off + Align(AttrLen(m, off)), rem - Align(AttrLen(m, off));
    }
    return None;
  }

  /** __nla_validate_parse with a table to fill: entry t of tb is the offset of the last attribute
      of type t. */
  method ParseInto(c: Context, m: Bytes, head: nat, len: int, maxtype: nat, policy: Option<nat>, f: Strictness,
                   tb: array<Option<nat>>) returns (r: Result<()>)
    requires ContextOk(c) && (policy.Some? ==> PolicyOk(c, policy.value, maxtype)) && tb.Length == maxtype + 1
    modifies tb
    ensures var spec := Parse(c, m, head, len, maxtype, policy, f, map[]);
      && (r.Ok? <==> spec.Ok?)
      && (r.Ok? ==> forall t: nat :: t <= maxtype ==> tb[t] == if t in spec.value then Some(spec.value[t]) else None)
      && (r.Err? ==> r.error == spec.error)
  {
    for t := 0 to tb.Length
      invariant forall u: nat :: u < t ==> tb[u] == None
    {
      tb[t] := None;
    }
    var off: nat, rem: int := head, len;
    ghost var seen: map<nat, nat> := map[];
    while Fits(m, off, rem)
      invariant Parse(c, m, off, rem, maxtype, policy, f, seen) == Parse(c, m, head, len, maxtype, policy, f, map[])
      invariant forall t: nat :: t <= maxtype ==> tb[t] == if t in seen then Some(seen[t]) else None
      decreases rem
    {
      var t := Type(m, off);
      if t == 0 || t > maxtype {
        if f.maxtype { return Err(EINVAL); }
      } else {
        if policy.Some? {
          r := ValidateAttr(c, m, off, maxtype, policy.value, f);
          if r.Err? { return; }
        }
        tb[t] := Some(off);
        seen := seen[t := off];
      }
      off, rem := off + Align(AttrLen(m, off)), rem - Align(AttrLen(m, off));
    }
    if rem > 0 && f.trailing { return Err(EINVAL); }
    return Ok(());
  }

  // ----- writing, then parsing

  /** Offset off of message m holds an attribute with this payload. */
  ghost predicate PayloadIs(m: Bytes, off: nat, payload: Bytes) {
    && off + HDRLEN + |payload| <= |m|
    && AttrLen(m, off) == Size(|payload|)
    && m[off + HDRLEN..off + HDRLEN + |payload|] == payload
  }

  /** What is read back where attribute a was written. */
  lemma ReadBack(pre: Bytes, a: Attr, post: Bytes)
    requires a.rawType < WORD16
    ensures var m := pre + Encode(a) + post;
      && AttrLen(m, |pre|) == Size(|a.payload|) % WORD16
      && RawType(m, |pre|) == a.rawType
      && m[|pre| + HDRLEN..|pre| + HDRLEN + |a.payload|] == a.payload
  {
    var m, e := pre + Encode(a) + post, Encode(a);
    assert forall i: nat :: i < |e| ==> At(m, |pre| + i) == e[i];
    assert e[0] == Two(Size(|a.payload|))[0] && e[1] == Two(Size(|a.payload|))[1];
    assert e[2] == Two(a.rawType)[0] && e[3] == Two(a.rawType)[1];
    assert Number(m, |pre| + 2, 0) == 0 && Number(m, |pre| + 4, 0) == 0;
    assert Number(m, |pre| + 1, 1) == At(m, |pre| + 1) && Number(m, |pre| + 3, 1) == At(m, |pre| + 3);
    assert e[HDRLEN..HDRLEN + |a.payload|] == a.payload;
    assert m[|pre| + HDRLEN..|pre| + HDRLEN + |a.payload|] == e[HDRLEN..HDRLEN + |a.payload|];
  }

  lemma LengthBytes(a: Attr, was: Bytes)
    requires |was| == Total(|a.payload|)
    ensures var e, w := Appended(a, was), Size(|a.payload|) % WORD16;
      e[0] == w % 256 && e[1] == w / 256
  {
    var n, h := Size(|a.payload|), Header(a.rawType, |a.payload|);
    HeaderBytes(n, a.rawType);
    assert Appended(a, was)[0] == h[0] && Appended(a, was)[1] == h[1];
  }

  /** The 16-bit length field decides: an attribute that was put is read back whole exactly when its
      length, header included, fits it. */
  lemma ReadBackFits(pre: Bytes, a: Attr, was: Bytes, post: Bytes)
    requires |was| == Total(|a.payload|)
    ensures var m := pre + Appended(a, was) + post;
      && AttrLen(m, |pre|) == Size(|a.payload|) % WORD16
      && (Fits(m, |pre|, |was|) && PayloadIs(m, |pre|, a.payload) <==> Size(|a.payload|) < WORD16)
  {
    var m, e := pre + Appended(a, was) + post, Appended(a, was);
    assert forall i: nat :: i < |e| ==> At(m, |pre| + i) == e[i];
    LengthBytes(a, was);
    assert Number(m, |pre| + 2, 0) == 0 && Number(m, |pre| + 1, 1) == At(m, |pre| + 1);
    assert e[HDRLEN..HDRLEN + |a.payload|] == a.payload;
    assert m[|pre| + HDRLEN..|pre| + HDRLEN + |a.payload|] == e[HDRLEN..HDRLEN + |a.payload|];
  }

  /** An attribute with 65533 bytes of payload is put as one of length 1 and no type. */
  lemma LongAttr(a: Attr, was: Bytes)
    requires |a.payload| == 65533 && |was| == Total(65533)
    ensures Appended(a, was)[..HDRLEN] == [1, 0, 0, 0]
  {
    assert Size(65533) == WORD16 + 1;
  }

  /** The first of a list of written attributes, as a reader meets it. */
  lemma WrittenHead(pre: Bytes, attrs: seq<Attr>)
    requires attrs != [] && InRange16(attrs[0])
    ensures pre + EncodeAll(attrs) == (pre + Encode(attrs[0])) + EncodeAll(attrs[1..])
    ensures |EncodeAll(attrs)| == Total(|attrs[0].payload|) + |EncodeAll(attrs[1..])|
    ensures Fits(pre + EncodeAll(attrs), |pre|, |EncodeAll(attrs)|)
    ensures PayloadIs(pre + EncodeAll(attrs), |pre|, attrs[0].payload)
    ensures RawType(pre + EncodeAll(attrs), |pre|) == attrs[0].rawType
  {
    EncodeSplit(pre, attrs);
    ReadBackWhole(pre, attrs[0], EncodeAll(attrs[1..]));
  }

  lemma ReadBackWhole(pre: Bytes, a: Attr, post: Bytes)
    requires InRange16(a)
    ensures PayloadIs((pre + Encode(a)) + post, |pre|, a.payload)
    ensures RawType((pre + Encode(a)) + post, |pre|) == a.rawType
  {
    ReadBack(pre, a, post);
  }

  lemma EncodeSplit(pre: Bytes, attrs: seq<Attr>)
    requires attrs != []
    ensures |EncodeAll(attrs)| == |Encode(attrs[0])| + |EncodeAll(attrs[1..])|
    ensures pre + EncodeAll(attrs) == (pre + Encode(attrs[0])) + EncodeAll(attrs[1..])
  {
    var e, t := Encode(attrs[0]), EncodeAll(attrs[1..]);
    assert pre + (e + t) == (pre + e) + t;
  }

  /** The table a list of attributes written from offset base on leaves behind. */
  function TableOf(attrs: seq<Attr>, base: nat, maxtype: nat, tb: map<nat, nat>): map<nat, nat> {
    if attrs == [] then tb
    else
      var t := attrs[0].rawType % 0x4000;
      TableOf(attrs[1..], base + Total(|attrs[0].payload|), maxtype, if 0 < t <= maxtype then tb[t := base] else tb)
  }

  predicate TypesKnown(attrs: seq<Attr>, maxtype: nat) {
    forall i: nat :: i < |attrs| ==> 0 < attrs[i].rawType % 0x4000 <= maxtype
  }

  /** One step of a parse without a policy. */
  lemma ParseStep(c: Context, m: Bytes, off: nat, rem: int, maxtype: nat, f: Strictness, tb: map<nat, nat>)
    requires ContextOk(c) && Fits(m, off, rem) && (f.maxtype ==> 0 < Type(m, off) <= maxtype)
    ensures Parse(c, m, off, rem, maxtype, None, f, tb)
            == Parse(c, m, off + Align(AttrLen(m, off)), rem - Align(AttrLen(m, off)), maxtype, None, f,
                     if 0 < Type(m, off) <= maxtype then tb[Type(m, off) := off] else tb)
  {
  }

  /** One step of the parse of a written list. */
  lemma ParseWrittenHead(c: Context, pre: Bytes, attrs: seq<Attr>, maxtype: nat, f: Strictness, tb: map<nat, nat>)
    requires ContextOk(c) && attrs != [] && InRange16(attrs[0])
    requires f.maxtype ==> 0 < attrs[0].rawType % 0x4000 <= maxtype
    ensures var t, pre', rest := attrs[0].rawType % 0x4000, pre + Encode(attrs[0]), attrs[1..];
      Parse(c, pre + EncodeAll(attrs), |pre|, |EncodeAll(attrs)|, maxtype, None, f, tb)
      == Parse(c, pre' + EncodeAll(rest), |pre'|, |EncodeAll(rest)|, maxtype, None, f, if 0 < t <= maxtype then tb[t := |pre|] else tb)
  {
    WrittenHead(pre, attrs);
    ParseStep(c, pre + EncodeAll(attrs), |pre|, |EncodeAll(attrs)|, maxtype, f, tb);
  }

  /** Parsing what was written, without a policy, leaves no trailing bytes and finds the table. */
  lemma {:induction false} ParseWritten(c: Context, pre: Bytes, attrs: seq<Attr>, maxtype: nat, f: Strictness, tb: map<nat, nat>)
    requires ContextOk(c) && forall i: nat :: i < |attrs| ==> InRange16(attrs[i])
    requires f.maxtype ==> TypesKnown(attrs, maxtype)
    ensures Parse(c, pre + EncodeAll(attrs), |pre|, |EncodeAll(attrs)|, maxtype, None, f, tb)
            == Ok(TableOf(attrs, |pre|, maxtype, tb))
    decreases |attrs|
  {
    if attrs != [] {
      var t, rest := attrs[0].rawType % 0x4000, attrs[1..];
      ParseWrittenHead(c, pre, attrs, maxtype, f, tb);
      assert forall i: nat :: i < |rest| ==> rest[i] == attrs[i + 1];
      ParseWritten(c, pre + Encode(attrs[0]), rest, maxtype, f, if 0 < t <= maxtype then tb[t := |pre|] else tb);
    }
  }

  /** Where attribute i of a written list begins. */
  function Offset(attrs: seq<Attr>, base: nat, i: nat): nat
    requires i <= |attrs|
  {
    if i == 0 then base else Offset(attrs[1..], base + Total(|attrs[0].payload|), i - 1)
  }

  /** The table has, per type, the offset of the last attribute of that type. */
  lemma {:induction false} TableIsLast(attrs: seq<Attr>, base: nat, maxtype: nat, tb: map<nat, nat>, t: nat, i: nat)
    requires 0 < t <= maxtype && i < |attrs| && attrs[i].rawType % 0x4000 == t
    requires forall j: nat :: i < j < |attrs| ==> attrs[j].rawType % 0x4000 != t
    ensures t in TableOf(attrs, base, maxtype, tb) && TableOf(attrs, base, maxtype, tb)[t] == Offset(attrs, base, i)
    decreases |attrs|
  {
    var a := attrs[0];
    var u := a.rawType % 0x4000;
    var tb' := if 0 < u <= maxtype then tb[u := base] else tb;
    if i == 0 {
      assert forall j: nat :: j < |attrs[1..]| ==> attrs[1..][j] == attrs[j + 1];
      TableKeeps(attrs[1..], base + Total(|a.payload|), maxtype, tb', t);
    } else {
      assert attrs[1..][i - 1] == attrs[i];
      assert forall j: nat :: j < |attrs[1..]| ==> attrs[1..][j] == attrs[j + 1];
      TableIsLast(attrs[1..], base + Total(|a.payload|), maxtype, tb', t, i - 1);
    }
  }

  /** A type that no attribute has keeps its entry, or its lack of one. */
  lemma {:induction false} TableKeeps(attrs: seq<Attr>, base: nat, maxtype: nat, tb: map<nat, nat>, t: nat)
    requires forall j: nat :: j < |attrs| ==> attrs[j].rawType % 0x4000 != t
    ensures t in TableOf(attrs, base, maxtype, tb) <==> t in tb
    ensures t in tb ==> TableOf(attrs, base, maxtype, tb)[t] == tb[t]
    decreases |attrs|
  {
    if attrs != [] {
      assert forall j: nat :: j < |attrs[1..]| ==> attrs[1..][j] == attrs[j + 1];
      var u := attrs[0].rawType % 0x4000;
      TableKeeps(attrs[1..], base + Total(|attrs[0].payload|), maxtype, if 0 < u <= maxtype then tb[u := base] else tb, t);
    }
  }

  /** The payload at an attribute's offset is the payload written. */
  lemma {:induction false} PayloadAt(pre: Bytes, attrs: seq<Attr>, i: nat)
    requires i < |attrs| && forall j: nat :: j < |attrs| ==> InRange16(attrs[j])
    ensures var m, off := pre + EncodeAll(attrs), Offset(attrs, |pre|, i);
      PayloadIs(m, off, attrs[i].payload) && RawType(m, off) == attrs[i].rawType
    decreases i
  {
    WrittenHead(pre, attrs);
    if i > 0 {
      var rest := attrs[1..];
      assert forall j: nat :: j < |rest| ==> rest[j] == attrs[j + 1];
      EncodeSplit(pre, attrs);
      PayloadAt(pre + Encode(attrs[0]), rest, i - 1);
      assert |pre + Encode(attrs[0])| == |pre| + Total(|attrs[0].payload|);
    }
  }

  /** Attribute i is the last of type t. */
  ghost predicate IsLast(attrs: seq<Attr>, t: nat, i: nat) {
    i < |attrs| && attrs[i].rawType % 0x4000 == t && forall j: nat :: i < j < |attrs| ==> attrs[j].rawType % 0x4000 != t
  }

  /** Writing a list of attributes and parsing it back: per type, the last payload written ... */
  lemma RoundTrip(c: Context, pre: Bytes, attrs: seq<Attr>, maxtype: nat, f: Strictness, t: nat, i: nat)
    requires ContextOk(c) && (forall j: nat :: j < |attrs| ==> InRange16(attrs[j]))
    requires (f.maxtype ==> TypesKnown(attrs, maxtype)) && 0 < t <= maxtype && IsLast(attrs, t, i)
    ensures var m := pre + EncodeAll(attrs);
      var r := Parse(c, m, |pre|, |EncodeAll(attrs)|, maxtype, None, f, map[]);
      r.Ok? && t in r.value && PayloadIs(m, r.value[t], attrs[i].payload)
  {
    ParseWritten(c, pre, attrs, maxtype, f, map[]);
    TableIsLast(attrs, |pre|, maxtype, map[], t, i);
    PayloadAt(pre, attrs, i);
  }

  /** ... and an entry for a type exactly when an attribute of that type was written. */
  lemma RoundTripTypes(c: Context, pre: Bytes, attrs: seq<Attr>, maxtype: nat, f: Strictness, t: nat)
    requires ContextOk(c) && (forall j: nat :: j < |attrs| ==> InRange16(attrs[j]))
    requires (f.maxtype ==> TypesKnown(attrs, maxtype)) && 0 < t <= maxtype
    ensures var r := Parse(c, pre + EncodeAll(attrs), |pre|, |EncodeAll(attrs)|, maxtype, None, f, map[]);
      r.Ok? && (t in r.value <==> exists i: nat :: i < |attrs| && attrs[i].rawType % 0x4000 == t)
  {
    ParseWritten(c, pre, attrs, maxtype, f, map[]);
    if exists i: nat :: i < |attrs| && attrs[i].rawType % 0x4000 == t {
      var k := LastOfType(attrs, t);
      TableIsLast(attrs, |pre|, maxtype, map[], t, k);
    } else {
      TableKeeps(attrs, |pre|, maxtype, map[], t);
    }
  }

  lemma LastOfType(attrs: seq<Attr>, t: nat) returns (k: nat)
    requires exists i: nat :: i < |attrs| && attrs[i].rawType % 0x4000 == t
    ensures k < |attrs| && attrs[k].rawType % 0x4000 == t
    ensures forall j: nat :: k < j < |attrs| ==> attrs[j].rawType % 0x4000 != t
  {
    k := |attrs| - 1;
    while attrs[k].rawType % 0x4000 != t
      invariant k < |attrs| && forall j: nat :: k < j < |attrs| ==> attrs[j].rawType % 0x4000 != t
      decreases k
    {
      k := k - 1;
    }
  }

  /** One step of a search in a written list. */
  lemma FindHead(pre: Bytes, attrs: seq<Attr>, t: nat)
    requires attrs != [] && InRange16(attrs[0])
    ensures var pre', rest := pre + Encode(attrs[0]), attrs[1..];
      FindFirst(pre + EncodeAll(attrs), |pre|, |EncodeAll(attrs)|, t)
      == if attrs[0].rawType % 0x4000 == t then Some(|pre|) else FindFirst(pre' + EncodeAll(rest), |pre'|, |EncodeAll(rest)|, t)
  {
    WrittenHead(pre, attrs);
  }

  /** nla_find gives the first attribute written with the type ... */
  lemma {:induction false} FindWritten(pre: Bytes, attrs: seq<Attr>, t: nat, i: nat)
    requires (forall j: nat :: j < |attrs| ==> InRange16(attrs[j])) && i < |attrs|
    requires attrs[i].rawType % 0x4000 == t && forall j: nat :: j < i ==> attrs[j].rawType % 0x4000 != t
    ensures FindFirst(pre + EncodeAll(attrs), |pre|, |EncodeAll(attrs)|, t) == Some(Offset(attrs, |pre|, i))
    decreases i
  {
    FindHead(pre, attrs, t);
    if i > 0 {
      var rest := attrs[1..];
      assert forall j: nat :: j < |rest| ==> rest[j] == attrs[j + 1];
      assert attrs[0].rawType % 0x4000 != t;
      FindWritten(pre + Encode(attrs[0]), rest, t, i - 1);
      assert |pre + Encode(attrs[0])| == |pre| + Total(|attrs[0].payload|);
    }
  }

  /** ... and nothing when there is none. */
  lemma {:induction false} FindAbsent(pre: Bytes, attrs: seq<Attr>, t: nat)
    requires forall j: nat :: j < |attrs| ==> InRange16(attrs[j]) && attrs[j].rawType % 0x4000 != t
    ensures FindFirst(pre + EncodeAll(attrs), |pre|, |EncodeAll(attrs)|, t) == None
    decreases |attrs|
  {
    if attrs != [] {
      FindHead(pre, attrs, t);
      FindAbsent(pre + Encode(attrs[0]), attrs[1..], t);
    }
  }

  /** What nla_put appends to a written list makes the list with that attribute at its end. */
  lemma {:induction false} EncodeAppend(attrs: seq<Attr>, a: Attr)
    ensures EncodeAll(attrs + [a]) == EncodeAll(attrs) + Encode(a)
  {
    if attrs == [] {
      assert attrs + [a] == [a] && [a][1..] == [];
    } else {
      assert (attrs + [a])[1..] == attrs[1..] + [a] && (attrs + [a])[0] == attrs[0];
      EncodeAppend(attrs[1..], a);
      assert (Encode(attrs[0]) + EncodeAll(attrs[1..])) + Encode(a) == Encode(attrs[0]) + (EncodeAll(attrs[1..]) + Encode(a));
    }
  }
}
