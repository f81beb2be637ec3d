/** What the validator and the parser of lib/nlattr.c do with the bytes of a message, in numbers: widths,
    offsets and error codes as the format and the policies have them. */
module NetlinkFacts {
  import opened Wrappers
  import opened NetlinkAttr
  import opened NetlinkCode
  import Words

  function ByteAt(m: Bytes, i: nat): nat
    requires i < |m|
  {
    m[i]
  }

  /** Two and four bytes, least significant first. */
  function Short(m: Bytes, d: nat): nat
    requires d + 2 <= |m|
  {
    ByteAt(m, d) + 0x100 * ByteAt(m, d + 1)
  }

  function Long(m: Bytes, d: nat): nat
    requires d + 4 <= |m|
  {
    ByteAt(m, d) + 0x100 * ByteAt(m, d + 1) + 0x1_0000 * ByteAt(m, d + 2) + 0x100_0000 * ByteAt(m, d + 3)
  }

  /** At offset off lies an attribute with len bytes of payload and this type field, flags included. */
  predicate AttrAt(m: Bytes, off: nat, len: nat, field: nat) {
    off + 4 + len <= |m| && Short(m, off) == 4 + len && Short(m, off + 2) == field
  }

  lemma HeaderSays(m: Bytes, off: nat, len: nat, field: nat)
    requires AttrAt(m, off, len, field)
    ensures AttrLen(m, off) == 4 + len && RawType(m, off) == field
    ensures Type(m, off) == field % 0x4000 && (NestedFlag(m, off) <==> field >= 0x8000)
  {
    assert Number(m, off + 2, 0) == 0 && Number(m, off + 4, 0) == 0;
    assert Number(m, off + 1, 1) == At(m, off + 1) && Number(m, off + 3, 1) == At(m, off + 3);
  }

  /** The policy for the type, in a list of policies that makes types from strictStart on strict. */
  ghost predicate PolicyIs(c: Context, policy: nat, maxtype: nat, t: nat, p: Policy, strict: bool) {
    && ContextOk(c) && PolicyOk(c, policy, maxtype) && 0 < t <= maxtype && c.policies[policy][t] == p
    && (strict <==> c.policies[policy][0].strictStart != 0 && t >= c.policies[policy][0].strictStart)
  }

  // ----- integers

  predicate IsInteger(k: Kind, w: nat, signed: bool) {
    match k
    case U8 => w == 1 && !signed
    case U16 => w == 2 && !signed
    case U32 => w == 4 && !signed
    case U64 => w == 8 && !signed
    case S8 => w == 1 && signed
    case S16 => w == 2 && signed
    case S32 => w == 4 && signed
    case S64 => w == 8 && signed
    case _ => false
  }

  /** w bytes from d on, least significant first; with the top bit as a sign, if there is one. */
  function ValueAt(m: Bytes, d: nat, w: nat, signed: bool): int
    requires d + w <= |m| && (w == 1 || w == 2 || w == 4 || w == 8)
  {
    var v := if w == 1 then ByteAt(m, d) else if w == 2 then Short(m, d) else if w == 4 then Long(m, d)
             else Long(m, d) + 0x1_0000_0000 * Long(m, d + 4);
    var top := if w == 1 then 0x100 else if w == 2 then 0x1_0000 else if w == 4 then 0x1_0000_0000 else 0x1_0000_0000_0000_0000;
    if signed && v >= top / 2 then v - top else v
  }

  lemma IntegerIs(m: Bytes, off: nat, len: nat, field: nat, p: Policy, w: nat, signed: bool)
    requires AttrAt(m, off, len, field) && IsInteger(p.kind, w, signed) && len >= w
    ensures Integer(m, off, len, p.kind) == Some(ValueAt(m, off + 4, w, signed))
  {
    var d := off + 4;
    NumberSteps(m, d);
  }

  lemma NumberSteps(m: Bytes, d: nat)
    requires d + 1 <= |m|
    ensures Number(m, d, 1) == ByteAt(m, d)
    ensures d + 2 <= |m| ==> Number(m, d, 2) == Short(m, d)
    ensures d + 4 <= |m| ==> Number(m, d, 4) == Long(m, d)
    ensures d + 8 <= |m| ==> Number(m, d, 8) == Long(m, d) + 0x1_0000_0000 * Long(m, d + 4)
  {
    assert Number(m, d + 1, 0) == 0;
    assert Number(m, d + 1, 1) == At(m, d + 1) + 256 * Number(m, d + 2, 0);
    if d + 4 <= |m| {
      Number4(m, d);
      if d + 8 <= |m| {
        Number4(m, d + 4);
        assert Number(m, d, 8) == At(m, d) + 256 * Number(m, d + 1, 7);
        assert Number(m, d + 1, 7) == At(m, d + 1) + 256 * Number(m, d + 2, 6);
        assert Number(m, d + 2, 6) == At(m, d + 2) + 256 * Number(m, d + 3, 5);
        assert Number(m, d + 3, 5) == At(m, d + 3) + 256 * Number(m, d + 4, 4);
      }
    }
  }

  lemma Number4(m: Bytes, d: nat)
    ensures Number(m, d, 4) == At(m, d) + 0x100 * At(m, d + 1) + 0x1_0000 * At(m, d + 2) + 0x100_0000 * At(m, d + 3)
  {
    assert Number(m, d, 4) == At(m, d) + 256 * Number(m, d + 1, 3);
    assert Number(m, d + 1, 3) == At(m, d + 1) + 256 * Number(m, d + 2, 2);
    assert Number(m, d + 2, 2) == At(m, d + 2) + 256 * Number(m, d + 3, 1);
    assert Number(m, d + 3, 1) == At(m, d + 3) + 256 * Number(m, d + 4, 0);
  }

  /** An integer of w bytes: under strict attributes only that length will do; else a longer one, or one as
      long as the policy says, will. */
  lemma IntegerSays(c: Context, m: Bytes, off: nat, maxtype: nat, policy: nat, given: Strictness,
                    len: nat, field: nat, p: Policy, strict: bool, w: nat, signed: bool)
    requires AttrAt(m, off, len, field) && PolicyIs(c, policy, maxtype, field % 0x4000, p, strict) && IsInteger(p.kind, w, signed)
    ensures var r := ValidateAttr(c, m, off, maxtype, policy, given);
      if (strict || given.attrs) && len != w then r == Err(EINVAL)
      else if (strict || given.nested) && field >= 0x8000 then r == Err(EINVAL)
      else if len < (if p.len > 0 then p.len else w) then r == Err(ERANGE)
      else
        && (p.check.NoCheck? ==> r == Ok(()))
        && (len >= w && (p.check.Range? || p.check.Min? || p.check.Max?) ==>
              var v := ValueAt(m, off + 4, w, signed);
              var lo, hi := if p.kind.U64? then p.min % 0x1_0000_0000_0000_0000 else p.min,
                            if p.kind.U64? then p.max % 0x1_0000_0000_0000_0000 else p.max;
              r == if (!p.check.Max? && v < lo) || (!p.check.Min? && v > hi) then Err(ERANGE) else Ok(()))
  {
    HeaderSays(m, off, len, field);
    if len >= w {
      IntegerIs(m, off, len, field, p, w, signed);
      if p.check.Range? || p.check.Min? || p.check.Max? { RangeSays(m, off, len, field, p, w, signed); }
    }
  }

  lemma RangeSays(m: Bytes, off: nat, len: nat, field: nat, p: Policy, w: nat, signed: bool)
    requires AttrAt(m, off, len, field) && IsInteger(p.kind, w, signed) && len >= w && (p.check.Range? || p.check.Min? || p.check.Max?)
    ensures var v := ValueAt(m, off + 4, w, signed);
      var lo, hi := if p.kind.U64? then p.min % 0x1_0000_0000_0000_0000 else p.min,
                    if p.kind.U64? then p.max % 0x1_0000_0000_0000_0000 else p.max;
      CheckRange(m, off, p) == if (!p.check.Max? && v < lo) || (!p.check.Min? && v > hi) then Err(ERANGE) else Ok(())
  {
    HeaderSays(m, off, len, field);
    IntegerIs(m, off, len, field, p, w, signed);
    RangeAccepted(m, off, len, p);
    RangeError(m, off, p);
  }

  lemma RangeError(m: Bytes, off: nat, p: Policy)
    requires !p.kind.Reject?
    ensures CheckRange(m, off, p).Err? && IsInteger(p.kind, 1, p.kind.S8?) ==> CheckRange(m, off, p) == Err(ERANGE)
    ensures CheckRange(m, off, p).Err? && IsInteger(p.kind, 2, p.kind.S16?) ==> CheckRange(m, off, p) == Err(ERANGE)
    ensures CheckRange(m, off, p).Err? && IsInteger(p.kind, 4, p.kind.S32?) ==> CheckRange(m, off, p) == Err(ERANGE)
    ensures CheckRange(m, off, p).Err? && IsInteger(p.kind, 8, p.kind.S64?) ==> CheckRange(m, off, p) == Err(ERANGE)
  {
  }

  // ----- the other kinds

  /** The nested flag, where it is asked for: exactly on nested attributes, and anywhere it likes to be on
      those without a kind. */
  predicate FlagWrong(p: Policy, field: nat) {
    if p.kind.Nested? || p.kind.NestedArray? then field < 0x8000 else !p.kind.Unspec? && field >= 0x8000
  }

  /** Kinds without contents of their own. Without a check, or with a function to ask. */
  lemma PlainSays(c: Context, m: Bytes, off: nat, maxtype: nat, policy: nat, given: Strictness,
                  len: nat, field: nat, p: Policy, strict: bool)
    requires AttrAt(m, off, len, field) && PolicyIs(c, policy, maxtype, field % 0x4000, p, strict)
    requires p.check.NoCheck? || p.check.Function?
    ensures var r := ValidateAttr(c, m, off, maxtype, policy, given);
      var further: Result<()> :=
        if p.check.Function? && p.fn.Some? && !c.fns(p.fn.value, m[off + 4..off + 4 + len]) then Err(EINVAL) else Ok(());
      if p.kind.ExactLenWarn? && (strict || given.attrs) && len != p.len then r == Err(EINVAL)
      else
        match p.kind
        case Flag => r == if (strict || given.nested) && FlagWrong(p, field) then Err(EINVAL) else if len > 0 then Err(ERANGE) else further
        case ExactLen => r == if (strict || given.nested) && FlagWrong(p, field) then Err(EINVAL) else if len != p.len then Err(ERANGE) else further
        case Reject => r == Err(EINVAL)
        case Binary =>
          r == if (strict || given.nested) && FlagWrong(p, field) then Err(EINVAL) else if p.len > 0 && len > p.len then Err(ERANGE) else further
        case Unspec => r == if strict || given.unspec then Err(EINVAL) else if len < p.len then Err(ERANGE) else further
        case MinLen => r == if (strict || given.nested) && FlagWrong(p, field) then Err(EINVAL) else if len < p.len then Err(ERANGE) else further
        case Msecs =>
          r == if (strict || given.nested) && FlagWrong(p, field) then Err(EINVAL)
               else if len < (if p.len > 0 then p.len else 8) then Err(ERANGE) else further
        case ExactLenWarn =>
          r == if (strict || given.nested) && FlagWrong(p, field) then Err(EINVAL) else if len < p.len then Err(ERANGE) else further
        case _ => true
  {
    HeaderSays(m, off, len, field);
  }

  /** A bit field: two words, the value and the selector, and nothing in them that is not selected and
      allowed. */
  lemma BitsSay(c: Context, m: Bytes, off: nat, maxtype: nat, policy: nat, given: Strictness,
                len: nat, field: nat, p: Policy, strict: bool)
    requires AttrAt(m, off, len, field) && PolicyIs(c, policy, maxtype, field % 0x4000, p, strict)
    requires p.kind.Bitfield32? && p.check.NoCheck? && !((strict || given.nested) && field >= 0x8000)
    ensures var r := ValidateAttr(c, m, off, maxtype, policy, given);
      if len != 8 then r == Err(ERANGE)
      else
        var value, selector := ValueAt(m, off + 4, 4, false), ValueAt(m, off + 8, 4, false);
        value >= 0 && selector >= 0 &&
        r == if p.mask.Some? && Words.And(value, selector) == value && Words.And(selector, p.mask.value) == selector
                && Words.And(value, p.mask.value) == value then Ok(()) else Err(EINVAL)
  {
    HeaderSays(m, off, len, field);
    BitfieldAccepted(m, off, p);
  }

  /** Text: no longer than the policy allows, a final NUL aside; a NUL string has one in time, or the answer
      is -EINVAL. */
  lemma TextSays(c: Context, m: Bytes, off: nat, maxtype: nat, policy: nat, given: Strictness,
                 len: nat, field: nat, p: Policy, strict: bool)
    requires AttrAt(m, off, len, field) && PolicyIs(c, policy, maxtype, field % 0x4000, p, strict)
    requires (p.kind.String? || p.kind.NulString?) && p.check.NoCheck? && !((strict || given.nested) && field >= 0x8000)
    ensures var d, r := off + 4, ValidateAttr(c, m, off, maxtype, policy, given);
      var limit := if p.len > 0 && p.len + 1 < len then p.len + 1 else len;
      if p.kind.NulString? && (forall i: nat :: d <= i < d + limit ==> m[i] != 0) then r == Err(EINVAL)
      else if len == 0 then r == Err(ERANGE)
      else if p.len > 0 && len > p.len && !(len == p.len + 1 && m[d + len - 1] == 0) then r == Err(ERANGE)
      else r == Ok(())
  {
    HeaderSays(m, off, len, field);
    var limit := if p.len > 0 && p.len + 1 < len then p.len + 1 else len;
    assert HasZero(m, off + 4, limit) <==> exists i: nat :: off + 4 <= i < off + 4 + limit && m[i] == 0 by {
      assert forall i: nat :: off + 4 <= i < off + 4 + limit ==> At(m, i) == m[i];
    }
  }

  /** Nested attributes: empty, or a message of their own that is accepted. */
  lemma NestedSays(c: Context, m: Bytes, off: nat, maxtype: nat, policy: nat, given: Strictness,
                   len: nat, field: nat, p: Policy, strict: bool)
    requires AttrAt(m, off, len, field) && PolicyIs(c, policy, maxtype, field % 0x4000, p, strict)
    requires (p.kind.Nested? || p.kind.NestedArray?) && p.check.NoCheck?
    ensures var r, f := ValidateAttr(c, m, off, maxtype, policy, given), if strict then Strictness(true, true, true, true, true) else given;
      if f.nested && field < 0x8000 then r == Err(EINVAL)
      else if len == 0 then r == Ok(())
      else if len < 4 then r == Err(ERANGE)
      else if p.nested == None then r == Ok(())
      else if p.kind.Nested? then
        PolicyOk(c, p.nested.value, p.len) &&
        var inner := Parse(c, m, off + 4, len, p.len, p.nested, f, map[]);
        r == if inner.Ok? then Ok(()) else Err(inner.error)
      else
        PolicyOk(c, p.nested.value, p.len) &&
        var inner := ValidateArray(c, m, off + 4, len, p.len, p.nested.value, f);
        r == if inner.Ok? then Ok(()) else Err(inner.error)
  {
    HeaderSays(m, off, len, field);
  }

  /** The elements of a nested array: empty ones are skipped, the first one that is too short or not
      accepted decides. */
  lemma ArraySays(c: Context, m: Bytes, off: nat, rem: int, maxtype: nat, policy: nat, f: Strictness, len: nat, field: nat)
    requires ContextOk(c) && PolicyOk(c, policy, maxtype) && AttrAt(m, off, len, field) && 4 + len <= rem
    ensures var step := (4 + len + 3) / 4 * 4;
      var r, rest := ValidateArray(c, m, off, rem, maxtype, policy, f), ValidateArray(c, m, off + step, rem - step, maxtype, policy, f);
      if len == 0 then r == rest
      else if len < 4 then r == Err(ERANGE)
      else
        var inner := Parse(c, m, off + 4, len, maxtype, Some(policy), f, map[]);
        r == if inner.Ok? then rest else Err(inner.error)
  {
    HeaderSays(m, off, len, field);
  }

  // ----- the message

  /** An attribute that lies in what is left: an unknown type is skipped or refused, a known one validated
      and entered, and the next one begins at a multiple of four behind it. */
  lemma ParseSays(c: Context, m: Bytes, off: nat, rem: int, maxtype: nat, policy: Option<nat>, f: Strictness,
                  tb: map<nat, nat>, len: nat, field: nat)
    requires ContextOk(c) && (policy.Some? ==> PolicyOk(c, policy.value, maxtype)) && AttrAt(m, off, len, field) && 4 + len <= rem
    ensures var t, step := field % 0x4000, (4 + len + 3) / 4 * 4;
      var r := Parse(c, m, off, rem, maxtype, policy, f, tb);
      if t == 0 || t > maxtype then
        r == if f.maxtype then Err(EINVAL) else Parse(c, m, off + step, rem - step, maxtype, policy, f, tb)
      else
        AttrLen(m, off) >= HDRLEN &&
        if policy.Some? && ValidateAttr(c, m, off, maxtype, policy.value, f).Err? then
          r == Err(ValidateAttr(c, m, off, maxtype, policy.value, f).error)
        else r == Parse(c, m, off + step, rem - step, maxtype, policy, f, tb[t := off])
  {
    HeaderSays(m, off, len, field);
  }

  /** Less than a header, or a length below 4 or beyond what is left, ends the message. Leftover bytes are an
      error only if trailing ones are asked about. */
  lemma ParseEnds(c: Context, m: Bytes, off: nat, rem: int, maxtype: nat, policy: Option<nat>, f: Strictness, tb: map<nat, nat>)
    requires ContextOk(c) && (policy.Some? ==> PolicyOk(c, policy.value, maxtype))
    requires rem < 4 || (off + 2 <= |m| && (Short(m, off) < 4 || Short(m, off) > rem))
    ensures Parse(c, m, off, rem, maxtype, policy, f, tb) == if rem > 0 && f.trailing then Err(EINVAL) else Ok(tb)
  {
    if off + 2 <= |m| { NumberSteps(m, off); }
  }

  // ----- writing

  /** The bytes of an attribute: length and type, least significant byte first, the payload, and zeros up to
      a multiple of four. */
  lemma EncodeSays(a: Attr)
    requires |a.payload| + 4 < 0x1_0000 && a.rawType < 0x1_0000
    ensures var n, b := |a.payload| + 4, Encode(a);
      && |b| == (n + 3) / 4 * 4
      && b[0] == n % 256 && b[1] == n / 256 && b[2] == a.rawType % 256 && b[3] == a.rawType / 256
      && b[4..n] == a.payload && forall i: nat :: n <= i < |b| ==> b[i] == 0
  {
    var n := |a.payload| + 4;
    assert n % 0x1_0000 == n && a.rawType % 0x1_0000 == a.rawType;
  }
}
