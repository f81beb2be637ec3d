/** The layout of netlink attributes (net/netlink.h, section 2.2 of RFC 3549) and the validator of
    lib/nlattr.c. Attributes are addressed by their offset in the message. Header fields are in
    host byte order, taken to be little-endian. */
module NetlinkAttr {
  import opened Wrappers
  import Words

  type Bytes = seq<Byte>

  const HDRLEN: nat := 4
  const WORD16: nat := 0x1_0000
  type Word32 = x: nat | x < 0x1_0000_0000

  const WORD64: nat := 0x1_0000_0000_0000_0000

  /** NLA_ALIGN. */
  function Align(n: nat): (r: nat)
    ensures n <= r < n + 4 && r % 4 == 0
  {
    (n + 3) / 4 * 4
  }

  // ----- reading

  /** A byte of memory; a read past the end of the message is taken to give 0. */
  function At(m: Bytes, i: nat): Byte {
    if i < |m| then m[i] else 0
  }

  /** n bytes from off as a little-endian number. */
  function Number(m: Bytes, off: nat, n: nat): (v: nat)
    decreases n
  {
    if n == 0 then 0 else At(m, off) + 256 * Number(m, off + 1, n - 1)
  }

  function Signed(v: nat, bits: nat): int {
    if v < Half(bits) then v else v - 2 * Half(bits)
  }

  function Half(bits: nat): nat {
    if bits == 8 then 0x80 else if bits == 16 then 0x8000 else if bits == 32 then 0x8000_0000 else 0x8000_0000_0000_0000
  }

  function AttrLen(m: Bytes, off: nat): nat { Number(m, off, 2) }

  function RawType(m: Bytes, off: nat): nat { Number(m, off + 2, 2) }

  /** nla_type: the type without NLA_F_NESTED and NLA_F_NET_BYTEORDER. */
  function Type(m: Bytes, off: nat): nat { RawType(m, off) % 0x4000 }

  predicate NestedFlag(m: Bytes, off: nat) { RawType(m, off) / 0x8000 % 2 == 1 }

  /** nla_ok. */
  predicate Fits(m: Bytes, off: nat, rem: int) {
    rem >= HDRLEN && HDRLEN <= AttrLen(m, off) <= rem
  }

  // ----- policies

  datatype Kind =
    | Unspec | U8 | U16 | U32 | U64 | String | Flag | Msecs | Nested | NestedArray | NulString | Binary
    | S8 | S16 | S32 | S64 | Bitfield32 | Reject | ExactLen | ExactLenWarn | MinLen

  datatype Check = NoCheck | Range | Min | Max | Function

  /** struct nla_policy. nested, mask, fn, min/max and strictStart share a union; each is given only
      where the code reads it. A nested policy is named by a number, so that policies may refer
      to each other or to themselves. */
  datatype Policy = Policy(
    kind: Kind, check: Check, len: nat, strictStart: nat,
    nested: Option<nat>, mask: Option<Word32>, min: int, max: int, fn: Option<nat>)

  /** policies are the policy arrays; fns are the validate callbacks, on the payload. */
  datatype Context = Context(policies: map<nat, seq<Policy>>, fns: (nat, Bytes) -> bool)

  datatype Strictness = Strictness(trailing: bool, maxtype: bool, unspec: bool, attrs: bool, nested: bool)

  /** NL_VALIDATE_STRICT. */
  const STRICT := Strictness(true, true, true, true, true)

  datatype Error = EINVAL | ERANGE

  datatype Result<+T> = Ok(value: T) | Err(error: Error)

  /** A policy array reaches up to the largest type it is used with. */
  ghost predicate PolicyOk(c: Context, policy: nat, maxtype: nat) {
    policy in c.policies && maxtype < |c.policies[policy]|
  }

  ghost predicate ContextOk(c: Context) {
    forall k: nat, t: nat {:trigger c.policies[k][t]} :: k in c.policies && t < |c.policies[k]| ==>
      c.policies[k][t].nested.Some? && (c.policies[k][t].kind.Nested? || c.policies[k][t].kind.NestedArray?) ==>
        PolicyOk(c, c.policies[k][t].nested.value, c.policies[k][t].len)
  }

  /** nla_attr_len. */
  function FixedLen(k: Kind): nat {
    match k
    case U8 => 1 case S8 => 1
    case U16 => 2 case S16 => 2
    case U32 => 4 case S32 => 4
    case U64 => 8 case S64 => 8
    case _ => 0
  }

  /** nla_attr_minlen. */
  function MinimumLen(k: Kind): nat {
    if k.Msecs? then 8 else if k.Nested? then HDRLEN else FixedLen(k)
  }

  // ----- the checks of one attribute

  /** validate_nla_bitfield32. */
  function CheckBitfield(m: Bytes, off: nat, mask: Option<Word32>): Result<()> {
    if mask == None then Err(EINVAL)
    else
      var value, selector := Word(m, off + HDRLEN), Word(m, off + HDRLEN + 4);
      if Words.And(selector, Not(mask.value)) != 0 then Err(EINVAL)
      else if Words.And(value, Not(mask.value)) != 0 then Err(EINVAL)
      else if Words.And(value, Not(selector)) != 0 then Err(EINVAL)
      else Ok(())
  }

  function Word(m: Bytes, off: nat): Word32 {
    At(m, off) + 0x100 * At(m, off + 1) + 0x1_0000 * At(m, off + 2) + 0x100_0000 * At(m, off + 3)
  }

  /** ~x */
  function Not(x: Word32): Word32 { 0xffff_ffff - x }

  /** nla_validate_int_range. The 64-bit getters copy no more than the payload; the shorter ones
      read their width whatever the payload's length is. */
  function CheckRange(m: Bytes, off: nat, p: Policy): Result<()> {
    var d, len := off + HDRLEN, if AttrLen(m, off) < HDRLEN then 0 else AttrLen(m, off) - HDRLEN;
    var lo, hi := p.check.Range? || p.check.Min?, p.check.Range? || p.check.Max?;
    var wide := Number(m, d, if len < 8 then len else 8);
    match p.kind
    case U64 => if (lo && wide < p.min % WORD64) || (hi && wide > p.max % WORD64) then Err(ERANGE) else Ok(())
    case U8 => InRange(Number(m, d, 1), lo, hi, p)
    case U16 => InRange(Number(m, d, 2), lo, hi, p)
    case U32 => InRange(Number(m, d, 4), lo, hi, p)
    case S8 => InRange(Signed(Number(m, d, 1), 8), lo, hi, p)
    case S16 => InRange(Signed(Number(m, d, 2), 16), lo, hi, p)
    case S32 => InRange(Signed(Number(m, d, 4), 32), lo, hi, p)
    case S64 => InRange(Signed(wide, 64), lo, hi, p)
    case _ => Err(EINVAL)
  }

  function InRange(v: int, lo: bool, hi: bool, p: Policy): Result<()> {
    if (lo && v < p.min) || (hi && v > p.max) then Err(ERANGE) else Ok(())
  }

  predicate HasZero(m: Bytes, off: nat, n: nat) {
    exists i: nat :: off <= i < off + n && At(m, i) == 0
  }

  /** The NLA_NUL_STRING and NLA_STRING cases. */
  function CheckString(m: Bytes, off: nat, len: nat, p: Policy): Result<()> {
    var limit := if p.len > 0 && p.len + 1 < len then p.len + 1 else len;
    if p.kind.NulString? && (limit == 0 || !HasZero(m, off + HDRLEN, limit)) then Err(EINVAL)
    else if len < 1 then Err(ERANGE)
    else if p.len > 0 && (if At(m, off + HDRLEN + len - 1) == 0 then len - 1 else len) > p.len then Err(ERANGE)
    else Ok(())
  }

  /** The further validation at the end of validate_nla. */
  function CheckFurther(c: Context, m: Bytes, off: nat, len: nat, p: Policy): Result<()> {
    match p.check
    case NoCheck => Ok(())
    case Function =>
      if p.fn.Some? && !c.fns(p.fn.value, Slice(m, off + HDRLEN, len)) then Err(EINVAL) else Ok(())
    case _ => CheckRange(m, off, p)
  }

  /** The payload bytes that are in the message. */
  function Slice(m: Bytes, from: nat, n: nat): Bytes {
    if from + n <= |m| then m[from..from + n] else if from <= |m| then m[from..] else []
  }

  /** validate_nla. */
  function ValidateAttr(c: Context, m: Bytes, off: nat, maxtype: nat, policy: nat, given: Strictness): Result<()>
    requires ContextOk(c) && PolicyOk(c, policy, maxtype) && AttrLen(m, off) >= HDRLEN
    decreases AttrLen(m, off), 0
  {
    var ps := c.policies[policy];
    var f := if ps[0].strictStart != 0 && Type(m, off) >= ps[0].strictStart then STRICT else given;
    if Type(m, off) == 0 || Type(m, off) > maxtype then Ok(())
    else
      var p := ps[Type(m, off)];
      var len := AttrLen(m, off) - HDRLEN;
      if f.attrs && ((FixedLen(p.kind) != 0 && len != FixedLen(p.kind)) || (p.kind.ExactLenWarn? && len != p.len)) then
        Err(EINVAL)
      else if f.nested && (p.kind.Nested? || p.kind.NestedArray?) && !NestedFlag(m, off) then Err(EINVAL)
      else if f.nested && !p.kind.Nested? && !p.kind.NestedArray? && !p.kind.Unspec? && NestedFlag(m, off) then Err(EINVAL)
      else
        var r := ValidateKind(c, m, off, p, f);
        if r.Err? then r else CheckFurther(c, m, off, len, p)
  }

  /** The switch over pt->type. */
  function ValidateKind(c: Context, m: Bytes, off: nat, p: Policy, f: Strictness): Result<()>
    requires ContextOk(c) && AttrLen(m, off) >= HDRLEN
    requires p.nested.Some? && (p.kind.Nested? || p.kind.NestedArray?) ==> PolicyOk(c, p.nested.value, p.len)
    decreases AttrLen(m, off) - HDRLEN, 2
  {
    var len := AttrLen(m, off) - HDRLEN;
    match p.kind
    case ExactLen => if len != p.len then Err(ERANGE) else Ok(())
    case Reject => Err(EINVAL)
    case Flag => if len > 0 then Err(ERANGE) else Ok(())
    case Bitfield32 => if len != 8 then Err(ERANGE) else CheckBitfield(m, off, p.mask)
    case NulString => CheckString(m, off, len, p)
    case String => CheckString(m, off, len, p)
    case Binary => if p.len > 0 && len > p.len then Err(ERANGE) else Ok(())
    case Nested =>
      if len == 0 then Ok(())
      else if len < HDRLEN then Err(ERANGE)
      else if p.nested == None then Ok(())
      else
        var r := Parse(c, m, off + HDRLEN, len, p.len, p.nested, f, map[]);
        if r.Err? then Err(r.error) else Ok(())
    case NestedArray =>
      if len == 0 then Ok(())
      else if len < HDRLEN then Err(ERANGE)
      else if p.nested == None then Ok(())
      else ValidateArray(c, m, off + HDRLEN, len, p.len, p.nested.value, f)
    case Unspec => if f.unspec then Err(EINVAL) else if len < p.len then Err(ERANGE) else Ok(())
    case MinLen => if len < p.len then Err(ERANGE) else Ok(())
    case _ => if len < (if p.len > 0 then p.len else MinimumLen(p.kind)) then Err(ERANGE) else Ok(())
  }

  /** nla_validate_array. */
  function ValidateArray(c: Context, m: Bytes, off: nat, rem: int, maxtype: nat, policy: nat, f: Strictness): Result<()>
    requires ContextOk(c) && PolicyOk(c, policy, maxtype)
    decreases if rem < 0 then 0 else rem, 1
  {
    if !Fits(m, off, rem) then Ok(())
    else
      var n := AttrLen(m, off);
      var rest := ValidateArray(c, m, off + Align(n), rem - Align(n), maxtype, policy, f);
      if n == HDRLEN then rest
      else if n < HDRLEN + HDRLEN then Err(ERANGE)
      else
        var r := Parse(c, m, off + HDRLEN, n - HDRLEN, maxtype, Some(policy), f, map[]);
        if r.Err? then Err(r.error) else rest
  }

  /** __nla_validate_parse from offset off on, with rem bytes left: the offset of the last attribute
      of each type. rem may end up negative, when padding runs past the end. */
  function Parse(c: Context, m: Bytes, off: nat, rem: int, maxtype: nat, policy: Option<nat>, f: Strictness,
                 tb: map<nat, nat>): Result<map<nat, nat>>
    requires ContextOk(c) && (policy.Some? ==> PolicyOk(c, policy.value, maxtype))
    decreases if rem < 0 then 0 else rem, 1
  {
    if !Fits(m, off, rem) then
      if rem > 0 && f.trailing then Err(EINVAL) else Ok(tb)
    else
      var n, t := AttrLen(m, off), Type(m, off);
      if t == 0 || t > maxtype then
        if f.maxtype then Err(EINVAL)
        else Parse(c, m, off + Align(n), rem - Align(n), maxtype, policy, f, tb)
      else
        var r := if policy.Some? then ValidateAttr(c, m, off, maxtype, policy.value, f) else Ok(());
        if r.Err? then Err(r.error)
        else Parse(c, m, off + Align(n), rem - Align(n), maxtype, policy, f, tb[t := off])
  }

  // ----- strictness is monotone

  /** g asks for no more than f. */
  predicate NoStricter(g: Strictness, f: Strictness) {
    && (g.trailing ==> f.trailing) && (g.maxtype ==> f.maxtype) && (g.unspec ==> f.unspec)
    && (g.attrs ==> f.attrs) && (g.nested ==> f.nested)
  }

  lemma {:induction false} AttrMonotone(c: Context, m: Bytes, off: nat, maxtype: nat, policy: nat, g: Strictness, f: Strictness)
    requires ContextOk(c) && PolicyOk(c, policy, maxtype) && AttrLen(m, off) >= HDRLEN && NoStricter(g, f)
    ensures ValidateAttr(c, m, off, maxtype, policy, f).Ok? ==> ValidateAttr(c, m, off, maxtype, policy, g).Ok?
    decreases AttrLen(m, off), 0
  {
    var ps := c.policies[policy];
    var strict := ps[0].strictStart != 0 && Type(m, off) >= ps[0].strictStart;
    if 0 < Type(m, off) <= maxtype {
      var p := ps[Type(m, off)];
      KindMonotone(c, m, off, p, if strict then STRICT else g, if strict then STRICT else f);
    }
  }

  lemma {:induction false} KindMonotone(c: Context, m: Bytes, off: nat, p: Policy, g: Strictness, f: Strictness)
    requires ContextOk(c) && AttrLen(m, off) >= HDRLEN && NoStricter(g, f)
    requires p.nested.Some? && (p.kind.Nested? || p.kind.NestedArray?) ==> PolicyOk(c, p.nested.value, p.len)
    ensures ValidateKind(c, m, off, p, f).Ok? ==> ValidateKind(c, m, off, p, g).Ok?
    decreases AttrLen(m, off) - HDRLEN, 2
  {
    var len := AttrLen(m, off) - HDRLEN;
    if p.kind.Nested? && p.nested.Some? {
      ParseMonotone(c, m, off + HDRLEN, len, p.len, p.nested, g, f, map[]);
    } else if p.kind.NestedArray? && p.nested.Some? {
      ArrayMonotone(c, m, off + HDRLEN, len, p.len, p.nested.value, g, f);
    }
  }

  lemma {:induction false} ArrayMonotone(c: Context, m: Bytes, off: nat, rem: int, maxtype: nat, policy: nat, g: Strictness, f: Strictness)
    requires ContextOk(c) && PolicyOk(c, policy, maxtype) && NoStricter(g, f)
    ensures ValidateArray(c, m, off, rem, maxtype, policy, f).Ok? ==> ValidateArray(c, m, off, rem, maxtype, policy, g).Ok?
    decreases if rem < 0 then 0 else rem, 1
  {
    if Fits(m, off, rem) {
      var n := AttrLen(m, off);
      ArrayMonotone(c, m, off + Align(n), rem - Align(n), maxtype, policy, g, f);
      if n >= HDRLEN + HDRLEN {
        ParseMonotone(c, m, off + HDRLEN, n - HDRLEN, maxtype, Some(policy), g, f, map[]);
      }
    }
  }

  /** What is accepted under strict flags is accepted, with the same table, under any subset of
      them; for every message and every set of policies, self-referencing ones included. */
  lemma {:induction false} ParseMonotone(c: Context, m: Bytes, off: nat, rem: int, maxtype: nat, policy: Option<nat>,
                                         g: Strictness, f: Strictness, tb: map<nat, nat>)
    requires ContextOk(c) && (policy.Some? ==> PolicyOk(c, policy.value, maxtype)) && NoStricter(g, f)
    ensures Parse(c, m, off, rem, maxtype, policy, f, tb).Ok? ==>
              Parse(c, m, off, rem, maxtype, policy, g, tb) == Parse(c, m, off, rem, maxtype, policy, f, tb)
    decreases if rem < 0 then 0 else rem, 1
  {
    if Fits(m, off, rem) {
      var n, t := AttrLen(m, off), Type(m, off);
      if t == 0 || t > maxtype {
        ParseMonotone(c, m, off + Align(n), rem - Align(n), maxtype, policy, g, f, tb);
      } else {
        if policy.Some? { AttrMonotone(c, m, off, maxtype, policy.value, g, f); }
        ParseMonotone(c, m, off + Align(n), rem - Align(n), maxtype, policy, g, f, tb[t := off]);
      }
    }
  }

  const LIBERAL := Strictness(false, false, false, false, false)

  /** A policy decides whether a message is accepted, never what is found in it. */
  lemma {:induction false} PolicyOnlyAccepts(c: Context, m: Bytes, off: nat, rem: int, maxtype: nat, policy: Option<nat>,
                                             f: Strictness, tb: map<nat, nat>)
    requires ContextOk(c) && (policy.Some? ==> PolicyOk(c, policy.value, maxtype))
    ensures Parse(c, m, off, rem, maxtype, policy, f, tb).Ok? ==>
              Parse(c, m, off, rem, maxtype, policy, f, tb) == Parse(c, m, off, rem, maxtype, None, LIBERAL, tb)
    decreases if rem < 0 then 0 else rem
  {
    if Fits(m, off, rem) {
      var n, t := AttrLen(m, off), Type(m, off);
      if t == 0 || t > maxtype {
        PolicyOnlyAccepts(c, m, off + Align(n), rem - Align(n), maxtype, policy, f, tb);
      } else {
        PolicyOnlyAccepts(c, m, off + Align(n), rem - Align(n), maxtype, policy, f, tb[t := off]);
      }
    }
  }

  // ----- what a policy accepts

  /** The shortest payload of a kind. */
  function LeastLen(p: Policy): nat {
    match p.kind
    case ExactLen => p.len
    case Unspec => p.len
    case MinLen => p.len
    case Bitfield32 => 8
    case String => 1
    case NulString => 1
    case Nested => 0
    case NestedArray => 0
    case Flag => 0
    case Binary => 0
    case Reject => 0
    case _ => if p.len > 0 then p.len else MinimumLen(p.kind)
  }

  /** The longest payload of a kind, if it has one; a string may have one byte more, a final NUL. */
  function MostLen(p: Policy): Option<nat> {
    match p.kind
    case ExactLen => Some(p.len)
    case Flag => Some(0)
    case Bitfield32 => Some(8)
    case Binary => if p.len > 0 then Some(p.len) else None
    case String => if p.len > 0 then Some(p.len + 1) else None
    case NulString => if p.len > 0 then Some(p.len + 1) else None
    case _ => None
  }

  predicate SizeFits(p: Policy, len: nat, f: Strictness) {
    && LeastLen(p) <= len && (MostLen(p).Some? ==> len <= MostLen(p).value)
    && (f.attrs && FixedLen(p.kind) != 0 ==> len == FixedLen(p.kind))
    && (f.attrs && p.kind.ExactLenWarn? ==> len == p.len)
  }

  predicate KindAllowed(m: Bytes, off: nat, p: Policy, f: Strictness) {
    && !p.kind.Reject? && (p.kind.Unspec? ==> !f.unspec)
    && (f.nested && !p.kind.Unspec? ==> (NestedFlag(m, off) <==> p.kind.Nested? || p.kind.NestedArray?))
  }

  /** Strings: no longer than the policy allows, a final NUL aside; a NUL string has one in time. */
  predicate TextFits(m: Bytes, off: nat, len: nat, p: Policy) {
    var d := off + HDRLEN;
    && (p.kind.String? || p.kind.NulString? ==> p.len == 0 || len <= p.len || At(m, d + len - 1) == 0)
    && (p.kind.NulString? ==> HasZero(m, d, if p.len > 0 && p.len + 1 < len then p.len + 1 else len))
  }

  /** Bit fields: the value lies in the selector and both lie in the mask. */
  predicate BitsAllowed(m: Bytes, off: nat, p: Policy) {
    p.kind.Bitfield32? ==>
      && p.mask.Some?
      && var value, selector := Word(m, off + HDRLEN), Word(m, off + HDRLEN + 4);
         Words.And(value, selector) == value && Words.And(selector, p.mask.value) == selector
         && Words.And(value, p.mask.value) == value
  }

  /** The number a range is checked against. */
  function Integer(m: Bytes, off: nat, len: nat, k: Kind): Option<int> {
    var d := off + HDRLEN;
    match k
    case U8 => Some(Number(m, d, 1))
    case U16 => Some(Number(m, d, 2))
    case U32 => Some(Number(m, d, 4))
    case U64 => Some(Number(m, d, if len < 8 then len else 8))
    case S8 => Some(Signed(Number(m, d, 1), 8))
    case S16 => Some(Signed(Number(m, d, 2), 16))
    case S32 => Some(Signed(Number(m, d, 4), 32))
    case S64 => Some(Signed(Number(m, d, if len < 8 then len else 8), 64))
    case _ => None
  }

  predicate ChecksHold(c: Context, m: Bytes, off: nat, len: nat, p: Policy) {
    var v := Integer(m, off, len, p.kind);
    var lo, hi := if p.kind.U64? then p.min % WORD64 else p.min, if p.kind.U64? then p.max % WORD64 else p.max;
    && (p.check.Function? && p.fn.Some? ==> c.fns(p.fn.value, Slice(m, off + HDRLEN, len)))
    && (p.check.Range? || p.check.Min? ==> v.Some? && lo <= v.value)
    && (p.check.Range? || p.check.Max? ==> v.Some? && v.value <= hi)
  }

  /** The element at off of a nested array is accepted, and so are those after it. */
  ghost predicate ElementsFit(c: Context, m: Bytes, off: nat, rem: int, maxtype: nat, policy: nat, f: Strictness)
    requires ContextOk(c) && PolicyOk(c, policy, maxtype)
    decreases if rem < 0 then 0 else rem
  {
    Fits(m, off, rem) ==>
      var n := AttrLen(m, off);
      && (n == HDRLEN || (n >= HDRLEN + HDRLEN && Parse(c, m, off + HDRLEN, n - HDRLEN, maxtype, Some(policy), f, map[]).Ok?))
      && ElementsFit(c, m, off + Align(n), rem - Align(n), maxtype, policy, f)
  }

  ghost predicate ContainerFits(c: Context, m: Bytes, off: nat, len: nat, p: Policy, f: Strictness)
    requires ContextOk(c)
    requires p.nested.Some? && (p.kind.Nested? || p.kind.NestedArray?) ==> PolicyOk(c, p.nested.value, p.len)
  {
    && (p.kind.Nested? || p.kind.NestedArray? ==> len == 0 || len >= HDRLEN)
    && (p.kind.Nested? && p.nested.Some? && len > 0 ==>
          Parse(c, m, off + HDRLEN, len, p.len, p.nested, f, map[]).Ok?)
    && (p.kind.NestedArray? && p.nested.Some? && len > 0 ==>
          ElementsFit(c, m, off + HDRLEN, len, p.len, p.nested.value, f))
  }

  lemma {:induction false} ArrayAccepted(c: Context, m: Bytes, off: nat, rem: int, maxtype: nat, policy: nat, f: Strictness)
    requires ContextOk(c) && PolicyOk(c, policy, maxtype)
    ensures ValidateArray(c, m, off, rem, maxtype, policy, f).Ok? <==> ElementsFit(c, m, off, rem, maxtype, policy, f)
    decreases if rem < 0 then 0 else rem
  {
    if Fits(m, off, rem) {
      var n := AttrLen(m, off);
      ArrayAccepted(c, m, off + Align(n), rem - Align(n), maxtype, policy, f);
    }
  }

  lemma BitfieldAccepted(m: Bytes, off: nat, p: Policy)
    requires p.kind.Bitfield32?
    ensures CheckBitfield(m, off, p.mask).Ok? <==> BitsAllowed(m, off, p)
  {
    if p.mask.Some? {
      Subset(Word(m, off + HDRLEN), Word(m, off + HDRLEN + 4));
      Subset(Word(m, off + HDRLEN + 4), p.mask.value);
      Subset(Word(m, off + HDRLEN), p.mask.value);
    }
  }

  /** a has no bit outside b exactly when it is a part of b. */
  lemma Subset(a: Word32, b: Word32)
    ensures Words.And(a, Not(b)) == 0 <==> Words.And(a, b) == a
  {
    Power32();
    SubsetBits(a, b, 32);
  }

  lemma Power32()
    ensures Words.Pow2(32) == 0x1_0000_0000
  {
    assert Words.Pow2(8) == 0x100 by { assert Words.Pow2(4) == 16; }
    assert Words.Pow2(16) == 0x1_0000 by { assert Words.Pow2(12) == 0x1000; }
    assert Words.Pow2(24) == 0x100_0000 by { assert Words.Pow2(20) == 0x10_0000; }
    assert Words.Pow2(28) == 0x1000_0000;
  }

  lemma {:induction false} SubsetBits(a: nat, b: nat, n: nat)
    requires a < Words.Pow2(n) && b < Words.Pow2(n)
    ensures Words.And(a, Words.Pow2(n) - 1 - b) == 0 <==> Words.And(a, b) == a
    decreases n
  {
    if n > 0 {
      SubsetBits(a / 2, b / 2, n - 1);
      var c := Words.Pow2(n) - 1 - b;
      assert c / 2 == Words.Pow2(n - 1) - 1 - b / 2 && c % 2 == 1 - b % 2;
      AndStep(a, c);
      AndStep(a, b);
    }
  }

  lemma AndStep(a: nat, b: nat)
    ensures Words.And(a, b) == (if a % 2 == 1 && b % 2 == 1 then 1 else 0) + 2 * Words.And(a / 2, b / 2)
  {
  }

  lemma TextAccepted(m: Bytes, off: nat, len: nat, p: Policy)
    requires p.kind.String? || p.kind.NulString?
    ensures CheckString(m, off, len, p).Ok? <==> 1 <= len && (p.len > 0 ==> len <= p.len + 1) && TextFits(m, off, len, p)
  {
  }

  /** An attribute of a known type is accepted exactly when its size, its kind and flags, its text, its
      bits, its nested attributes and its value are what the policy asks for. */
  lemma AcceptedMeans(c: Context, m: Bytes, off: nat, maxtype: nat, policy: nat, given: Strictness)
    requires ContextOk(c) && PolicyOk(c, policy, maxtype) && AttrLen(m, off) >= HDRLEN && 0 < Type(m, off) <= maxtype
    ensures var ps := c.policies[policy];
      var p, len := ps[Type(m, off)], AttrLen(m, off) - HDRLEN;
      var f := if ps[0].strictStart != 0 && Type(m, off) >= ps[0].strictStart then STRICT else given;
      ValidateAttr(c, m, off, maxtype, policy, given).Ok? <==>
        && SizeFits(p, len, f) && KindAllowed(m, off, p, f) && TextFits(m, off, len, p) && BitsAllowed(m, off, p)
        && ContainerFits(c, m, off, len, p, f) && ChecksHold(c, m, off, len, p)
  {
    var ps := c.policies[policy];
    var p, len := ps[Type(m, off)], AttrLen(m, off) - HDRLEN;
    var f := if ps[0].strictStart != 0 && Type(m, off) >= ps[0].strictStart then STRICT else given;
    KindAccepted(c, m, off, p, f);
    FurtherAccepted(c, m, off, len, p);
  }

  lemma KindAccepted(c: Context, m: Bytes, off: nat, p: Policy, f: Strictness)
    requires ContextOk(c) && AttrLen(m, off) >= HDRLEN
    requires p.nested.Some? && (p.kind.Nested? || p.kind.NestedArray?) ==> PolicyOk(c, p.nested.value, p.len)
    ensures var len := AttrLen(m, off) - HDRLEN;
      ValidateKind(c, m, off, p, f).Ok? <==>
        && LeastLen(p) <= len && (MostLen(p).Some? ==> len <= MostLen(p).value)
        && !p.kind.Reject? && (p.kind.Unspec? ==> !f.unspec)
        && TextFits(m, off, len, p) && BitsAllowed(m, off, p) && ContainerFits(c, m, off, len, p, f)
  {
    var len := AttrLen(m, off) - HDRLEN;
    match p.kind
    case Bitfield32 => BitfieldAccepted(m, off, p);
    case String => TextAccepted(m, off, len, p);
    case NulString => TextAccepted(m, off, len, p);
    case NestedArray =>
      if p.nested.Some? { ArrayAccepted(c, m, off + HDRLEN, len, p.len, p.nested.value, f); }
    case _ =>
  }

  lemma FurtherAccepted(c: Context, m: Bytes, off: nat, len: nat, p: Policy)
    requires AttrLen(m, off) >= HDRLEN && len == AttrLen(m, off) - HDRLEN
    ensures CheckFurther(c, m, off, len, p).Ok? <==> ChecksHold(c, m, off, len, p)
  {
    if !p.check.NoCheck? && !p.check.Function? { RangeAccepted(m, off, len, p); }
  }

  lemma RangeAccepted(m: Bytes, off: nat, len: nat, p: Policy)
    requires AttrLen(m, off) >= HDRLEN && len == AttrLen(m, off) - HDRLEN && !p.check.NoCheck? && !p.check.Function?
    ensures var v := Integer(m, off, len, p.kind);
      CheckRange(m, off, p).Ok? <==>
        && v.Some?
        && (p.check.Range? || p.check.Min? ==> (if p.kind.U64? then p.min % WORD64 else p.min) <= v.value)
        && (p.check.Range? || p.check.Max? ==> v.value <= (if p.kind.U64? then p.max % WORD64 else p.max))
  {
    match p.kind
    case U64 =>
    case U8 =>
    case U16 =>
    case U32 =>
    case S8 =>
    case S16 =>
    case S32 =>
    case S64 =>
    case _ =>
  }
}
