/** The "function" section: the offsets of the initialisation functions, an
    unused count, then the named entry points as (offset, name) pairs. */
module FunctionTables {
  import opened Bytes

  /** A function's start offset in the image section and its name. */
  datatype NamedOffset = NamedOffset(offset: U32, name: U16String)

  datatype FunctionTable = FunctionTable(init: seq<U32>, named: seq<NamedOffset>)

  /** The counted loop `for i < n: read offset, read name`, stopping at the
      first short read; an entry whose name is cut short is not kept. */
  function ReadNamedOffsets(p: seq<Byte>, pos: nat, n: nat): Parsed<NamedOffset>
    decreases n
  {
    if n == 0 then Parsed([], Some(pos))
    else
      match ReadU32(p, pos)
      case None => Parsed([], None)
      case Some((o, q)) =>
        match ReadString(p, q)
        case None => Parsed([], None)
        case Some((name, q')) => Prepend([NamedOffset(o, name)], ReadNamedOffsets(p, q', n - 1))
  }

  /** The payload layout `n0, offsets[n0], unused, n1, (offset, name)[n1]`,
      read in that order; whatever was read before a short read is kept. */
  function DecodeFunctionTable(p: seq<Byte>): FunctionTable
  {
    match ReadU32(p, 0)
    case None => FunctionTable([], [])
    case Some((n0, q0)) =>
      var init := ReadU32s(p, q0, n0);
      match init.end
      case None => FunctionTable(init.items, [])
      case Some(q1) =>
        match ReadU32(p, q1)
        case None => FunctionTable(init.items, [])
        case Some((_, q2)) =>
          match ReadU32(p, q2)
          case None => FunctionTable(init.items, [])
          case Some((n1, q3)) => FunctionTable(init.items, ReadNamedOffsets(p, q3, n1).items)
  }

  method ReadNamedList(p: seq<Byte>, pos: nat, n: nat) returns (items: seq<NamedOffset>, next: Option<nat>)
    ensures Parsed(items, next) == ReadNamedOffsets(p, pos, n)
  {
    items := [];
    var cur := pos;
    var i := 0;
    while i < n
      invariant i <= n
      invariant Prepend(items, ReadNamedOffsets(p, cur, n - i)) == ReadNamedOffsets(p, pos, n)
    {
      var o := ReadU32(p, cur);
      if o.None? {
        return items, None;
      }
      var name := ReadString(p, o.value.1);
      if name.None? {
        return items, None;
      }
      var entry := NamedOffset(o.value.0, name.value.0);
      assert [entry] + ReadNamedOffsets(p, name.value.1, n - i - 1).items == ReadNamedOffsets(p, cur, n - i).items;
      items := items + [entry];
      cur := name.value.1;
      i := i + 1;
    }
    next := Some(cur);
  }

  /** The body of `read_offsets` for one matching section. */
  method DecodeFunctionSection(p: seq<Byte>) returns (t: FunctionTable)
    ensures t == DecodeFunctionTable(p)
  {
    var count := ReadU32(p, 0);
    if count.None? {
      return FunctionTable([], []);
    }
    var init, next := ReadU32List(p, count.value.1, count.value.0);
    if next.None? {
      return FunctionTable(init, []);
    }
    var unused := ReadU32(p, next.value);
    if unused.None? {
      return FunctionTable(init, []);
    }
    count := ReadU32(p, unused.value.1);
    if count.None? {
      return FunctionTable(init, []);
    }
    var named, _ := ReadNamedList(p, count.value.1, count.value.0);
    t := FunctionTable(init, named);
  }

  // ---------------------------------------------------------------------
  // Encoding, the partner of decoding

  predicate NamesFit(named: seq<NamedOffset>)
  {
    forall i :: 0 <= i < |named| ==> Fits(named[i].name)
  }

  ghost function NamedBytes(named: seq<NamedOffset>): seq<Byte>
    requires NamesFit(named)
  {
    if named == [] then []
    else U32Bytes(named[0].offset) + (StringBytes(named[0].name) + NamedBytes(named[1..]))
  }

  predicate TableFits(t: FunctionTable)
  {
    |t.init| < 0x1_0000_0000 && |t.named| < 0x1_0000_0000 && NamesFit(t.named)
  }

  /** A "function" payload holding `t`, with `unused` in the slot the decoder skips. */
  ghost function EncodeFunctionTable(t: FunctionTable, unused: U32): seq<Byte>
    requires TableFits(t)
  {
    U32Bytes(|t.init|) + (U32sBytes(t.init) + (U32Bytes(unused) + (U32Bytes(|t.named|) + NamedBytes(t.named))))
  }

  lemma NamedHead(p: seq<Byte>, pos: nat, e: NamedOffset, rest: seq<Byte>)
    requires Fits(e.name) && At(p, pos, U32Bytes(e.offset) + (StringBytes(e.name) + rest))
    ensures ReadU32(p, pos) == Some((e.offset, pos + 4))
    ensures ReadString(p, pos + 4) == Some((e.name, pos + 4 + |StringBytes(e.name)|))
    ensures At(p, pos + 4 + |StringBytes(e.name)|, rest)
  {
    U32Head(p, pos, e.offset, StringBytes(e.name) + rest);
    AtSplit(p, pos + 4, StringBytes(e.name), rest);
    ReadStringEncoded(p, pos + 4, e.name);
  }

  lemma ReadNamedOffsetsStep(p: seq<Byte>, pos: nat, n: nat, e: NamedOffset, q: nat)
    requires n > 0 && ReadU32(p, pos) == Some((e.offset, pos + 4)) && ReadString(p, pos + 4) == Some((e.name, q))
    ensures ReadNamedOffsets(p, pos, n) == Prepend([e], ReadNamedOffsets(p, q, n - 1))
  {
  }

  lemma {:induction false} ReadNamedOffsetsEncoded(p: seq<Byte>, pos: nat, named: seq<NamedOffset>)
    requires NamesFit(named) && At(p, pos, NamedBytes(named))
    ensures ReadNamedOffsets(p, pos, |named|) == Parsed(named, Some(pos + |NamedBytes(named)|))
    decreases |named|
  {
    if named != [] {
      var q := pos + 4 + |StringBytes(named[0].name)|;
      NamedHead(p, pos, named[0], NamedBytes(named[1..]));
      ReadNamedOffsetsStep(p, pos, |named|, named[0], q);
      ReadNamedOffsetsEncoded(p, q, named[1..]);
      assert [named[0]] + named[1..] == named;
    }
  }

  /** `DecodeFunctionTable` when every count and the offsets read in full. */
  lemma DecodeFunctionTableSteps(p: seq<Byte>, n0: U32, init: seq<U32>, q1: nat, unused: U32, n1: U32)
    requires ReadU32(p, 0) == Some((n0, 4)) && ReadU32s(p, 4, n0) == Parsed(init, Some(q1))
    requires ReadU32(p, q1) == Some((unused, q1 + 4)) && ReadU32(p, q1 + 4) == Some((n1, q1 + 8))
    ensures DecodeFunctionTable(p) == FunctionTable(init, ReadNamedOffsets(p, q1 + 8, n1).items)
  {
  }

  /** The part after the initialisation offsets: the skipped count, the count
      of named entries, then the entries. */
  lemma NamedPartEncoded(p: seq<Byte>, q: nat, unused: U32, named: seq<NamedOffset>)
    requires |named| < 0x1_0000_0000 && NamesFit(named)
    requires At(p, q, U32Bytes(unused) + (U32Bytes(|named|) + NamedBytes(named)))
    ensures ReadU32(p, q) == Some((unused, q + 4))
    ensures ReadU32(p, q + 4) == Some((|named|, q + 8))
    ensures ReadNamedOffsets(p, q + 8, |named|).items == named
  {
    U32Head(p, q, unused, U32Bytes(|named|) + NamedBytes(named));
    U32Head(p, q + 4, |named|, NamedBytes(named));
    ReadNamedOffsetsEncoded(p, q + 8, named);
  }

  /** A payload that starts with the encoding of `t` decodes to `t`; bytes
      after the last entry are never looked at. */
  lemma DecodeEncodedPrefix(p: seq<Byte>, t: FunctionTable, unused: U32)
    requires TableFits(t) && At(p, 0, EncodeFunctionTable(t, unused))
    ensures DecodeFunctionTable(p) == t
  {
    var tail := U32Bytes(unused) + (U32Bytes(|t.named|) + NamedBytes(t.named));
    U32Head(p, 0, |t.init|, U32sBytes(t.init) + tail);
    AtSplit(p, 4, U32sBytes(t.init), tail);
    ReadU32sEncoded(p, 4, t.init);
    var q1 := 4 + 4 * |t.init|;
    NamedPartEncoded(p, q1, unused, t.named);
    DecodeFunctionTableSteps(p, |t.init|, t.init, q1, unused, |t.named|);
  }

  /** Decoding an encoded table gives back both lists exactly, in on-disk
      order and unsorted, whatever the skipped count holds. */
  lemma FunctionTableRoundTrip(t: FunctionTable, unused: U32)
    requires TableFits(t)
    ensures DecodeFunctionTable(EncodeFunctionTable(t, unused)) == t
  {
    AtWhole(EncodeFunctionTable(t, unused));
    DecodeEncodedPrefix(EncodeFunctionTable(t, unused), t, unused);
  }
}
