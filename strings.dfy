/** String bindings, the layout shared by the "conststr" section and the second
    half of the "linkinf " section: a count, then per entry a string, a count
    and that many offsets. Reading an entry stores the string under each of
    its offsets in a map, so an offset named twice keeps the string stored
    last. */
module StringTables {
  import opened Bytes

  /** One entry: a string and the offsets it is stored under, as read. */
  datatype Binding = Binding(text: U16String, offsets: seq<U32>)

  type StringMap = map<U32, U16String>

  /** One entry: its string, its count, then the offsets. `None` when the
      string or the count is cut short; otherwise the entry with the offsets
      read, and the cursor after them or `None` when they were cut short. */
  function ReadEntry(p: seq<Byte>, pos: nat): Option<(Binding, Option<nat>)>
  {
    match ReadString(p, pos)
    case None => None
    case Some((text, q)) =>
      match ReadU32(p, q)
      case None => None
      case Some((count, q')) =>
        var offsets := ReadU32s(p, q', count);
        Some((Binding(text, offsets.items), offsets.end))
  }

  /** The counted loop over entries, stopping at the first short read. An
      entry whose offset list is cut short keeps the offsets read before the
      cut; an entry cut short before its offsets is not kept. */
  function ReadBindings(p: seq<Byte>, pos: nat, n: nat): Parsed<Binding>
    decreases n
  {
    if n == 0 then Parsed([], Some(pos))
    else
      match ReadEntry(p, pos)
      case None => Parsed([], None)
      case Some((b, None)) => Parsed([b], None)
      case Some((b, Some(q))) => Prepend([b], ReadBindings(p, q, n - 1))
  }

  /** The payload layout `n, entry[n]`. */
  function DecodeBindings(p: seq<Byte>): seq<Binding>
  {
    match ReadU32(p, 0)
    case None => []
    case Some((n, q)) => ReadBindings(p, q, n).items
  }

  /** `m[o] := text` for each offset in order. */
  function Bind(m: StringMap, text: U16String, offsets: seq<U32>): StringMap
    decreases |offsets|
  {
    if offsets == [] then m
    else Bind(m, text, offsets[..|offsets| - 1])[offsets[|offsets| - 1] := text]
  }

  /** Every entry bound in order. */
  function Assign(m: StringMap, bs: seq<Binding>): StringMap
    decreases |bs|
  {
    if bs == [] then m
    else Bind(Assign(m, bs[..|bs| - 1]), bs[|bs| - 1].text, bs[|bs| - 1].offsets)
  }

  /** Binding leaves every other key alone, and stores `text` under each of
      the offsets. */
  lemma {:induction false} BindSpec(m: StringMap, text: U16String, offsets: seq<U32>, k: U32)
    ensures k in Bind(m, text, offsets) <==> k in m || k in offsets
    ensures k in offsets ==> Bind(m, text, offsets)[k] == text
    ensures k !in offsets && k in m ==> Bind(m, text, offsets)[k] == m[k]
    decreases |offsets|
  {
    if offsets != [] {
      var init := offsets[..|offsets| - 1];
      assert offsets == init + [offsets[|offsets| - 1]];
      BindSpec(m, text, init, k);
    }
  }

  /** Offset `k` is named by entry `i` and by none after it. */
  ghost predicate LastNamedBy(bs: seq<Binding>, k: U32, i: int)
  {
    0 <= i < |bs| && k in bs[i].offsets && forall j :: i < j < |bs| ==> k !in bs[j].offsets
  }

  /** The keys after the entries are the keys before and every offset an
      entry names. */
  lemma {:induction false} AssignKeys(m: StringMap, bs: seq<Binding>, k: U32)
    ensures k in Assign(m, bs) <==> k in m || exists i :: 0 <= i < |bs| && k in bs[i].offsets
    decreases |bs|
  {
    if bs != [] {
      var init := bs[..|bs| - 1];
      var last := bs[|bs| - 1];
      AssignKeys(m, init, k);
      BindSpec(Assign(m, init), last.text, last.offsets, k);
      if exists i :: 0 <= i < |bs| && k in bs[i].offsets {
        var i :| 0 <= i < |bs| && k in bs[i].offsets;
        if i < |bs| - 1 {
          assert init[i] == bs[i];
        }
      }
    }
  }

  /** Last write wins: an offset maps to the string of the last entry that
      names it. */
  lemma {:induction false} AssignLastWins(m: StringMap, bs: seq<Binding>, k: U32, i: int)
    requires LastNamedBy(bs, k, i)
    ensures k in Assign(m, bs) && Assign(m, bs)[k] == bs[i].text
    decreases |bs|
  {
    var init := bs[..|bs| - 1];
    var last := bs[|bs| - 1];
    BindSpec(Assign(m, init), last.text, last.offsets, k);
    if i < |bs| - 1 {
      assert init[i] == bs[i];
      assert LastNamedBy(init, k, i) by {
        forall j | i < j < |init| ensures k !in init[j].offsets {
          assert init[j] == bs[j];
        }
      }
      AssignLastWins(m, init, k, i);
    }
  }

  /** An offset no entry names keeps the string it had. */
  lemma {:induction false} AssignUntouched(m: StringMap, bs: seq<Binding>, k: U32)
    requires k in m && forall i :: 0 <= i < |bs| ==> k !in bs[i].offsets
    ensures k in Assign(m, bs) && Assign(m, bs)[k] == m[k]
    decreases |bs|
  {
    if bs != [] {
      var init := bs[..|bs| - 1];
      var last := bs[|bs| - 1];
      forall i | 0 <= i < |init| ensures k !in init[i].offsets {
        assert init[i] == bs[i];
      }
      AssignUntouched(m, init, k);
      BindSpec(Assign(m, init), last.text, last.offsets, k);
    }
  }

  /** Binding one list of entries after another is binding their concatenation. */
  lemma {:induction false} AssignAppend(m: StringMap, a: seq<Binding>, b: seq<Binding>)
    ensures Assign(Assign(m, a), b) == Assign(m, a + b)
    decreases |b|
  {
    if b == [] {
      assert a + b == a;
    } else {
      var b' := b[..|b| - 1];
      assert (a + b)[..|a + b| - 1] == a + b';
      assert (a + b)[|a + b| - 1] == b[|b| - 1];
      AssignAppend(m, a, b');
    }
  }

  lemma AssignSnoc(m: StringMap, bs: seq<Binding>, b: Binding)
    ensures Assign(m, bs + [b]) == Bind(Assign(m, bs), b.text, b.offsets)
  {
    assert (bs + [b])[..|bs|] == bs;
  }

  lemma BindSnoc(m: StringMap, text: U16String, offsets: seq<U32>, o: U32)
    ensures Bind(m, text, offsets + [o]) == Bind(m, text, offsets)[o := text]
  {
    assert (offsets + [o])[..|offsets|] == offsets;
  }

  lemma ReadU32sFirst(p: seq<Byte>, pos: nat, n: nat)
    requires n > 0
    ensures ReadU32(p, pos).None? ==> ReadU32s(p, pos, n) == Parsed([], None)
    ensures ReadU32(p, pos).Some? ==>
      ReadU32s(p, pos, n) == Prepend([ReadU32(p, pos).value.0], ReadU32s(p, pos + 4, n - 1))
  {
  }

  // ---------------------------------------------------------------------
  // The loops

  /** The inner loop: reads `n` offsets and stores `text` under each as soon
      as it is read, on a map that already holds `m0`. */
  method BindOffsets(p: seq<Byte>, pos: nat, n: nat, text: U16String, m0: StringMap)
    returns (m: StringMap, next: Option<nat>)
    ensures m == Bind(m0, text, ReadU32s(p, pos, n).items)
    ensures next == ReadU32s(p, pos, n).end
  {
    m := m0;
    ghost var offsets: seq<U32> := [];
    var cur := pos;
    var j := 0;
    while j < n
      invariant j <= n
      invariant Prepend(offsets, ReadU32s(p, cur, n - j)) == ReadU32s(p, pos, n)
      invariant m == Bind(m0, text, offsets)
    {
      var offset := ReadU32(p, cur);
      ReadU32sFirst(p, cur, n - j);
      if offset.None? {
        assert offsets + [] == offsets;
        return m, None;
      }
      BindSnoc(m0, text, offsets, offset.value.0);
      m := m[offset.value.0 := text];
      offsets := offsets + [offset.value.0];
      cur := offset.value.1;
      j := j + 1;
    }
    assert offsets + [] == offsets;
    next := Some(cur);
  }

  /** The entry loop, storing as it reads, on a map that already holds `m0`. */
  method ReadBindingsInto(p: seq<Byte>, pos: nat, n: nat, m0: StringMap) returns (m: StringMap, next: Option<nat>)
    ensures m == Assign(m0, ReadBindings(p, pos, n).items)
    ensures next == ReadBindings(p, pos, n).end
  {
    m := m0;
    ghost var done: seq<Binding> := [];
    var cur := pos;
    var i := 0;
    while i < n
      invariant i <= n
      invariant Prepend(done, ReadBindings(p, cur, n - i)) == ReadBindings(p, pos, n)
      invariant m == Assign(m0, done)
    {
      var text := ReadString(p, cur);
      var count := if text.None? then None else ReadU32(p, text.value.1);
      if count.None? {
        assert ReadEntry(p, cur).None?;
        assert done + [] == done;
        return m, None;
      }
      ghost var entry := Binding(text.value.0, ReadU32s(p, count.value.1, count.value.0).items);
      AssignSnoc(m0, done, entry);
      var after;
      m, after := BindOffsets(p, count.value.1, count.value.0, text.value.0, m);
      assert ReadEntry(p, cur) == Some((entry, after));
      if after.None? {
        done := done + [entry];
        return m, None;
      }
      PrependTwice(done, [entry], ReadBindings(p, after.value, n - i - 1));
      done := done + [entry];
      cur := after.value;
      i := i + 1;
    }
    assert done + [] == done;
    next := Some(cur);
  }

  /** The body of a section reader over this layout, on a map holding `m0`. */
  method DecodeBindingsInto(p: seq<Byte>, m0: StringMap) returns (m: StringMap)
    ensures m == Assign(m0, DecodeBindings(p))
  {
    var count := ReadU32(p, 0);
    if count.None? {
      return m0;
    }
    var next;
    m, next := ReadBindingsInto(p, count.value.1, count.value.0, m0);
  }

  // ---------------------------------------------------------------------
  // Encoding, the partner of decoding

  predicate BindingFits(b: Binding)
  {
    Fits(b.text) && |b.offsets| < 0x1_0000_0000
  }

  predicate AllFit(bs: seq<Binding>)
  {
    forall i :: 0 <= i < |bs| ==> BindingFits(bs[i])
  }

  ghost function BindingBytes(b: Binding): (r: seq<Byte>)
    requires BindingFits(b)
    ensures |r| == 8 + 2 * |b.text| + 4 * |b.offsets|
  {
    StringBytes(b.text) + (U32Bytes(|b.offsets|) + U32sBytes(b.offsets))
  }

  ghost function BindingsBytes(bs: seq<Binding>): seq<Byte>
    requires AllFit(bs)
  {
    if bs == [] then [] else BindingBytes(bs[0]) + BindingsBytes(bs[1..])
  }

  /** Reading back the bytes of one entry gives the entry, offsets complete. */
  lemma ReadEntryEncoded(p: seq<Byte>, pos: nat, b: Binding, rest: seq<Byte>)
    requires BindingFits(b) && At(p, pos, BindingBytes(b) + rest)
    ensures ReadEntry(p, pos) == Some((b, Some(pos + |BindingBytes(b)|)))
    ensures At(p, pos + |BindingBytes(b)|, rest)
  {
    var q := pos + |StringBytes(b.text)|;
    AtSplit(p, pos, BindingBytes(b), rest);
    AtSplit(p, pos, StringBytes(b.text), U32Bytes(|b.offsets|) + U32sBytes(b.offsets));
    ReadStringEncoded(p, pos, b.text);
    U32Head(p, q, |b.offsets|, U32sBytes(b.offsets));
    ReadU32sEncoded(p, q + 4, b.offsets);
  }

  lemma ReadBindingsNext(p: seq<Byte>, pos: nat, n: nat, b: Binding, q: nat)
    requires n > 0 && ReadEntry(p, pos) == Some((b, Some(q)))
    ensures ReadBindings(p, pos, n) == Prepend([b], ReadBindings(p, q, n - 1))
  {
  }

  /** One entry read in full, followed by a run of entries read in full. */
  lemma ReadBindingsCons(p: seq<Byte>, pos: nat, n: nat, b: Binding, q: nat, bs: seq<Binding>, last: nat)
    requires n > 0 && ReadEntry(p, pos) == Some((b, Some(q)))
    requires ReadBindings(p, q, n - 1) == Parsed(bs, Some(last))
    ensures ReadBindings(p, pos, n) == Parsed([b] + bs, Some(last))
  {
    ReadBindingsNext(p, pos, n, b, q);
  }

  /** A run of encoded entries reads back as those entries, in order, and
      the cursor ends just past the last one (`n` and `last` name the count
      and that end). */
  lemma {:induction false} ReadBindingsEncoded(p: seq<Byte>, pos: nat, bs: seq<Binding>, n: nat, last: nat)
    requires AllFit(bs) && At(p, pos, BindingsBytes(bs))
    requires n == |bs| && last == pos + |BindingsBytes(bs)|
    ensures ReadBindings(p, pos, n) == Parsed(bs, Some(last))
    decreases |bs|
  {
    if bs != [] {
      var q := pos + |BindingBytes(bs[0])|;
      assert BindingsBytes(bs) == BindingBytes(bs[0]) + BindingsBytes(bs[1..]);
      ReadEntryEncoded(p, pos, bs[0], BindingsBytes(bs[1..]));
      ReadBindingsEncoded(p, q, bs[1..], n - 1, last);
      ReadBindingsCons(p, pos, n, bs[0], q, bs[1..], last);
      assert [bs[0]] + bs[1..] == bs;
    } else {
      assert |BindingsBytes(bs)| == 0;
    }
  }

  ghost function EncodeBindings(bs: seq<Binding>): seq<Byte>
    requires |bs| < 0x1_0000_0000 && AllFit(bs)
  {
    U32Bytes(|bs|) + BindingsBytes(bs)
  }

  /** Decoding an encoded payload gives back every entry, strings and offset
      lists alike, in order. */
  lemma BindingsRoundTrip(bs: seq<Binding>)
    requires |bs| < 0x1_0000_0000 && AllFit(bs)
    ensures DecodeBindings(EncodeBindings(bs)) == bs
  {
    var p := EncodeBindings(bs);
    AtWhole(p);
    U32Head(p, 0, |bs|, BindingsBytes(bs));
    ReadBindingsEncoded(p, 4, bs, |bs|, 4 + |BindingsBytes(bs)|);
  }
}
