/** The "linkinf " section: a counted list of target offsets, a counted list
    of u32 the reader passes over, then string bindings in the layout of the
    "conststr" section. */
module LinkInfo {
  import opened Bytes
  import opened StringTables

  /** What one "linkinf " payload contributes: the target offsets in on-disk
      order, and the entries whose strings are stored under their offsets. */
  datatype LinkTable = LinkTable(targets: seq<U32>, symbols: seq<Binding>)

  /** The payload layout `n0, target[n0], n2, word[n2], n1, entry[n1]`, read
      in that order; the `n2` words are read and dropped, however many the
      count says. Whatever was read before a short read is kept. */
  function DecodeLinkTable(p: seq<Byte>): LinkTable
  {
    match ReadU32(p, 0)
    case None => LinkTable([], [])
    case Some((n0, q0)) =>
      var targets := ReadU32s(p, q0, n0);
      match targets.end
      case None => LinkTable(targets.items, [])
      case Some(q1) =>
        match ReadU32(p, q1)
        case None => LinkTable(targets.items, [])
        case Some((n2, q2)) =>
          match ReadU32s(p, q2, n2).end
          case None => LinkTable(targets.items, [])
          case Some(q3) =>
            match ReadU32(p, q3)
            case None => LinkTable(targets.items, [])
            case Some((n1, q4)) => LinkTable(targets.items, ReadBindings(p, q4, n1).items)
  }

  /** The body of `read_linkinf` for one matching section: the targets read,
      and the map `m0` with the entries stored into it as they are read. */
  method DecodeLinkSection(p: seq<Byte>, m0: StringMap) returns (targets: seq<U32>, m: StringMap)
    ensures targets == DecodeLinkTable(p).targets
    ensures m == Assign(m0, DecodeLinkTable(p).symbols)
  {
    var count := ReadU32(p, 0);
    if count.None? {
      return [], m0;
    }
    var next;
    targets, next := ReadU32List(p, count.value.1, count.value.0);
    if next.None? {
      return targets, m0;
    }
    count := ReadU32(p, next.value);
    if count.None? {
      return targets, m0;
    }
    var dropped;
    dropped, next := ReadU32List(p, count.value.1, count.value.0);
    if next.None? {
      return targets, m0;
    }
    count := ReadU32(p, next.value);
    if count.None? {
      return targets, m0;
    }
    m, next := ReadBindingsInto(p, count.value.1, count.value.0, m0);
  }

  // ---------------------------------------------------------------------
  // Encoding, the partner of decoding

  predicate TableFits(lt: LinkTable)
  {
    |lt.targets| < 0x1_0000_0000 && |lt.symbols| < 0x1_0000_0000 && AllFit(lt.symbols)
  }

  /** A "linkinf " payload holding `lt`, with `dropped` in the list the
      reader passes over. */
  ghost function EncodeLinkTable(lt: LinkTable, dropped: seq<U32>): seq<Byte>
    requires TableFits(lt) && |dropped| < 0x1_0000_0000
  {
    U32Bytes(|lt.targets|) + (U32sBytes(lt.targets) +
      (U32Bytes(|dropped|) + (U32sBytes(dropped) +
        (U32Bytes(|lt.symbols|) + BindingsBytes(lt.symbols)))))
  }

  /** `DecodeLinkTable` when every count and both u32 lists read in full. */
  lemma DecodeLinkTableSteps(p: seq<Byte>, n0: U32, targets: seq<U32>, q1: nat, n2: U32, dropped: seq<U32>, q3: nat, n1: U32)
    requires ReadU32(p, 0) == Some((n0, 4)) && ReadU32s(p, 4, n0) == Parsed(targets, Some(q1))
    requires ReadU32(p, q1) == Some((n2, q1 + 4)) && ReadU32s(p, q1 + 4, n2) == Parsed(dropped, Some(q3))
    requires ReadU32(p, q3) == Some((n1, q3 + 4))
    ensures DecodeLinkTable(p) == LinkTable(targets, ReadBindings(p, q3 + 4, n1).items)
  {
  }

  /** A counted u32 list at `pos`, read in full and ending at `q`, followed
      by `rest`. */
  lemma CountedU32sEncoded(p: seq<Byte>, pos: nat, vs: seq<U32>, rest: seq<Byte>, q: nat)
    requires |vs| < 0x1_0000_0000 && At(p, pos, U32Bytes(|vs|) + (U32sBytes(vs) + rest))
    requires q == pos + 4 + 4 * |vs|
    ensures ReadU32(p, pos) == Some((|vs|, pos + 4))
    ensures ReadU32s(p, pos + 4, |vs|) == Parsed(vs, Some(q))
    ensures At(p, q, rest)
  {
    U32Head(p, pos, |vs|, U32sBytes(vs) + rest);
    AtSplit(p, pos + 4, U32sBytes(vs), rest);
    ReadU32sEncoded(p, pos + 4, vs);
  }

  /** The counted entries at the end of the payload, read in full. */
  lemma SymbolsEncoded(p: seq<Byte>, pos: nat, symbols: seq<Binding>)
    requires |symbols| < 0x1_0000_0000 && AllFit(symbols)
    requires At(p, pos, U32Bytes(|symbols|) + BindingsBytes(symbols))
    ensures ReadU32(p, pos) == Some((|symbols|, pos + 4))
    ensures ReadBindings(p, pos + 4, |symbols|).items == symbols
  {
    U32Head(p, pos, |symbols|, BindingsBytes(symbols));
    ReadBindingsEncoded(p, pos + 4, symbols, |symbols|, pos + 4 + |BindingsBytes(symbols)|);
  }

  /** A payload that starts with the encoding of `lt` decodes to `lt`; bytes
      after the last entry are never looked at. */
  lemma DecodeEncodedPrefix(p: seq<Byte>, lt: LinkTable, dropped: seq<U32>)
    requires TableFits(lt) && |dropped| < 0x1_0000_0000 && At(p, 0, EncodeLinkTable(lt, dropped))
    ensures DecodeLinkTable(p) == lt
  {
    var symbols := U32Bytes(|lt.symbols|) + BindingsBytes(lt.symbols);
    var q1 := 4 + 4 * |lt.targets|;
    var q3 := q1 + 4 + 4 * |dropped|;
    CountedU32sEncoded(p, 0, lt.targets, U32Bytes(|dropped|) + (U32sBytes(dropped) + symbols), q1);
    CountedU32sEncoded(p, q1, dropped, symbols, q3);
    SymbolsEncoded(p, q3, lt.symbols);
    DecodeLinkTableSteps(p, |lt.targets|, lt.targets, q1, |dropped|, dropped, q3, |lt.symbols|);
  }

  /** Decoding an encoded payload gives back the targets and the entries
      exactly, whatever the dropped list holds and however long it is: its
      count is honoured, not assumed to be zero. */
  lemma LinkTableRoundTrip(lt: LinkTable, dropped: seq<U32>)
    requires TableFits(lt) && |dropped| < 0x1_0000_0000
    ensures DecodeLinkTable(EncodeLinkTable(lt, dropped)) == lt
  {
    AtWhole(EncodeLinkTable(lt, dropped));
    DecodeEncodedPrefix(EncodeLinkTable(lt, dropped), lt, dropped);
  }
}
