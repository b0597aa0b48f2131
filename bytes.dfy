/** The byte cursor the decoders step through a payload with: little-endian
    32-bit reads, length-prefixed UTF-16 strings and relative skips, all over an
    in-memory byte sequence and a position. A read that would run past the end
    yields `None` instead of a value. */
module Bytes {

  datatype Option<+T> = None | Some(value: T)

  type Byte = b: int | 0 <= b < 0x100
  type U16 = u: int | 0 <= u < 0x1_0000
  type U32 = u: int | 0 <= u < 0x1_0000_0000

  /** A string as the format stores it: 16-bit code units, no terminator. */
  type U16String = seq<U16>

  /** What a counted loop over a payload produced: the items it read, in
      order, and the cursor afterwards, or `None` when a read came up short
      and the loop stopped there. */
  datatype Parsed<T> = Parsed(items: seq<T>, end: Option<nat>)

  /** `r` with `acc` read before it. */
  function Prepend<T>(acc: seq<T>, r: Parsed<T>): Parsed<T>
  {
    Parsed(acc + r.items, r.end)
  }

  lemma AppendAssoc<T>(a: seq<T>, b: seq<T>, c: seq<T>)
    ensures a + b + c == a + (b + c)
  {
  }

  lemma PrependTwice<T>(a: seq<T>, b: seq<T>, r: Parsed<T>)
    ensures Prepend(a, Prepend(b, r)) == Prepend(a + b, r)
  {
    assert a + (b + r.items) == (a + b) + r.items;
  }

  /** The bytes `e` stand in `p` from position `pos` on. Stated one byte at a
      time so that the verifier unfolds it only as far as a proof asks. */
  predicate At(p: seq<Byte>, pos: nat, e: seq<Byte>)
    decreases |e|
  {
    if e == [] then pos <= |p| else pos < |p| && p[pos] == e[0] && At(p, pos + 1, e[1..])
  }

  lemma {:induction false} AtIndex(p: seq<Byte>, pos: nat, e: seq<Byte>)
    requires At(p, pos, e)
    ensures pos + |e| <= |p| && forall i :: 0 <= i < |e| ==> p[pos + i] == e[i]
    decreases |e|
  {
    if e != [] {
      AtIndex(p, pos + 1, e[1..]);
      forall i | 0 < i < |e| ensures p[pos + i] == e[i] {
        assert p[pos + 1 + (i - 1)] == e[1..][i - 1];
      }
    }
  }

  lemma {:induction false} IndexAt(p: seq<Byte>, pos: nat, e: seq<Byte>)
    requires pos + |e| <= |p| && forall i :: 0 <= i < |e| ==> p[pos + i] == e[i]
    ensures At(p, pos, e)
    decreases |e|
  {
    if e != [] {
      forall i | 0 <= i < |e[1..]| ensures p[pos + 1 + i] == e[1..][i] {
        assert p[pos + (i + 1)] == e[i + 1];
      }
      IndexAt(p, pos + 1, e[1..]);
    }
  }

  lemma AtSplit(p: seq<Byte>, pos: nat, a: seq<Byte>, b: seq<Byte>)
    requires At(p, pos, a + b)
    ensures At(p, pos, a) && At(p, pos + |a|, b)
  {
    AtIndex(p, pos, a + b);
    forall i | 0 <= i < |a| ensures p[pos + i] == a[i] {
      assert p[pos + i] == (a + b)[i];
    }
    forall i | 0 <= i < |b| ensures p[pos + |a| + i] == b[i] {
      assert p[pos + (|a| + i)] == (a + b)[|a| + i];
    }
    IndexAt(p, pos, a);
    IndexAt(p, pos + |a|, b);
  }

  lemma AtJoin(p: seq<Byte>, pos: nat, a: seq<Byte>, b: seq<Byte>)
    requires At(p, pos, a) && At(p, pos + |a|, b)
    ensures At(p, pos, a + b)
  {
    AtIndex(p, pos, a);
    AtIndex(p, pos + |a|, b);
    forall i | 0 <= i < |a + b| ensures p[pos + i] == (a + b)[i] {
      if i >= |a| {
        assert p[pos + |a| + (i - |a|)] == b[i - |a|];
      }
    }
    IndexAt(p, pos, a + b);
  }

  lemma AtWhole(p: seq<Byte>)
    ensures At(p, 0, p)
  {
    IndexAt(p, 0, p);
  }

  lemma AtSlice(p: seq<Byte>, pos: nat, e: seq<Byte>)
    requires At(p, pos, e)
    ensures pos + |e| <= |p| && p[pos..pos + |e|] == e
  {
    AtIndex(p, pos, e);
  }

  lemma SliceAt(p: seq<Byte>, pos: nat, q: nat)
    requires pos <= q <= |p|
    ensures At(p, pos, p[pos..q])
  {
    IndexAt(p, pos, p[pos..q]);
  }

  // ---------------------------------------------------------------------
  // 32-bit little-endian integers

  function LittleEndian32(b0: Byte, b1: Byte, b2: Byte, b3: Byte): U32
  {
    b0 + 0x100 * b1 + 0x1_0000 * b2 + 0x100_0000 * b3
  }

  /** Reads a u32 at `pos`; the cursor moves on by exactly four bytes. */
  function ReadU32(p: seq<Byte>, pos: nat): (r: Option<(U32, nat)>)
    ensures r.Some? <==> pos + 4 <= |p|
    ensures r.Some? ==> r.value.1 == pos + 4
  {
    if pos + 4 <= |p| then
      Some((LittleEndian32(p[pos], p[pos + 1], p[pos + 2], p[pos + 3]), pos + 4))
    else
      None
  }

  /** Splitting off the low byte of `x`. */
  lemma LowByte(x: int, lo: int, hi: int)
    requires 0 <= lo < 0x100 && x == lo + 0x100 * hi
    ensures x % 0x100 == lo && x / 0x100 == hi
  {
  }

  /** Every u32 has a little-endian byte representation. */
  lemma LittleEndian32Onto(v: U32)
    ensures exists b0: Byte, b1: Byte, b2: Byte, b3: Byte :: LittleEndian32(b0, b1, b2, b3) == v
  {
    var r1 := v / 0x100;
    var r2 := r1 / 0x100;
    var d0, d1, d2, d3 := v % 0x100, r1 % 0x100, r2 % 0x100, r2 / 0x100;
    assert v == d0 + 0x100 * r1;
    assert r1 == d1 + 0x100 * r2;
    assert r2 == d2 + 0x100 * d3;
    assert d3 < 0x100;
    assert LittleEndian32(d0, d1, d2, d3) == v;
  }

  /** Four bytes are determined by their little-endian value. */
  lemma LittleEndian32Injective(a0: Byte, a1: Byte, a2: Byte, a3: Byte, b0: Byte, b1: Byte, b2: Byte, b3: Byte)
    requires LittleEndian32(a0, a1, a2, a3) == LittleEndian32(b0, b1, b2, b3)
    ensures a0 == b0 && a1 == b1 && a2 == b2 && a3 == b3
  {
    var v := LittleEndian32(a0, a1, a2, a3);
    LowByte(v, a0, a1 + 0x100 * a2 + 0x1_0000 * a3);
    LowByte(v, b0, b1 + 0x100 * b2 + 0x1_0000 * b3);
    var x := v / 0x100;
    LowByte(x, a1, a2 + 0x100 * a3);
    LowByte(x, b1, b2 + 0x100 * b3);
    var y := x / 0x100;
    LowByte(y, a2, a3);
    LowByte(y, b2, b3);
  }

  /** The four bytes that store `v`, least significant first. */
  ghost function U32Bytes(v: U32): (r: seq<Byte>)
    ensures |r| == 4 && LittleEndian32(r[0], r[1], r[2], r[3]) == v
  {
    LittleEndian32Onto(v);
    var b0: Byte, b1: Byte, b2: Byte, b3: Byte :| LittleEndian32(b0, b1, b2, b3) == v;
    [b0, b1, b2, b3]
  }

  lemma BytesOfLittleEndian32(b0: Byte, b1: Byte, b2: Byte, b3: Byte)
    ensures U32Bytes(LittleEndian32(b0, b1, b2, b3)) == [b0, b1, b2, b3]
  {
    var e := U32Bytes(LittleEndian32(b0, b1, b2, b3));
    LittleEndian32Injective(e[0], e[1], e[2], e[3], b0, b1, b2, b3);
  }

  /** Reading back the bytes of `v` gives `v` and consumes four bytes. */
  lemma ReadU32Encoded(p: seq<Byte>, pos: nat, v: U32)
    requires At(p, pos, U32Bytes(v))
    ensures ReadU32(p, pos) == Some((v, pos + 4))
  {
    var e := U32Bytes(v);
    AtIndex(p, pos, e);
    assert p[pos] == e[0] && p[pos + 1] == e[1] && p[pos + 2] == e[2] && p[pos + 3] == e[3];
  }

  /** A u32 at the front of the bytes expected at `pos`. */
  lemma U32Head(p: seq<Byte>, pos: nat, v: U32, rest: seq<Byte>)
    requires At(p, pos, U32Bytes(v) + rest)
    ensures ReadU32(p, pos) == Some((v, pos + 4)) && At(p, pos + 4, rest)
  {
    AtSplit(p, pos, U32Bytes(v), rest);
    ReadU32Encoded(p, pos, v);
  }

  /** The value read is the one the four bytes at `pos` store. */
  lemma ReadU32Decoded(p: seq<Byte>, pos: nat)
    requires pos + 4 <= |p|
    ensures At(p, pos, U32Bytes(ReadU32(p, pos).value.0))
  {
    BytesOfLittleEndian32(p[pos], p[pos + 1], p[pos + 2], p[pos + 3]);
    IndexAt(p, pos, [p[pos], p[pos + 1], p[pos + 2], p[pos + 3]]);
  }

  // ---------------------------------------------------------------------
  // Length-prefixed UTF-16 strings

  /** One 16-bit code unit from its two bytes, low byte first. */
  function Unit(lo: Byte, hi: Byte): U16
  {
    lo + 0x100 * hi
  }

  /** The two bytes that store `u`, low byte first. */
  ghost function UnitBytes(u: U16): (r: seq<Byte>)
    ensures |r| == 2 && Unit(r[0], r[1]) == u
  {
    assert Unit(u % 0x100, u / 0x100) == u;
    var lo: Byte, hi: Byte :| Unit(lo, hi) == u;
    [lo, hi]
  }

  lemma BytesOfUnit(lo: Byte, hi: Byte)
    ensures UnitBytes(Unit(lo, hi)) == [lo, hi]
  {
    var e := UnitBytes(Unit(lo, hi));
    assert lo == Unit(lo, hi) % 0x100 == e[0];
  }

  /** Reads `n` 16-bit units: all of them or nothing. */
  function ReadUnits(p: seq<Byte>, pos: nat, n: nat): (r: Option<(U16String, nat)>)
    decreases n
    ensures pos <= |p| ==> (r.Some? <==> pos + 2 * n <= |p|)
    ensures r.Some? ==> |r.value.0| == n && r.value.1 == pos + 2 * n
  {
    if n == 0 then Some(([], pos))
    else if pos + 2 > |p| then None
    else
      match ReadUnits(p, pos + 2, n - 1)
      case None => None
      case Some((rest, q)) => Some(([Unit(p[pos], p[pos + 1])] + rest, q))
  }

  ghost function UnitsBytes(s: U16String): (r: seq<Byte>)
    ensures |r| == 2 * |s|
  {
    if s == [] then [] else UnitBytes(s[0]) + UnitsBytes(s[1..])
  }

  /** Reads a u32 count of code units, then that many units, no terminator. */
  function ReadString(p: seq<Byte>, pos: nat): Option<(U16String, nat)>
  {
    match ReadU32(p, pos)
    case None => None
    case Some((n, q)) => ReadUnits(p, q, n)
  }

  predicate Fits(s: U16String)
  {
    |s| < 0x1_0000_0000
  }

  ghost function StringBytes(s: U16String): (r: seq<Byte>)
    requires Fits(s)
    ensures |r| == 4 + 2 * |s|
  {
    U32Bytes(|s|) + UnitsBytes(s)
  }

  lemma UnitsHead(p: seq<Byte>, pos: nat, s: U16String)
    requires s != [] && At(p, pos, UnitsBytes(s))
    ensures pos + 2 <= |p| && Unit(p[pos], p[pos + 1]) == s[0] && At(p, pos + 2, UnitsBytes(s[1..]))
  {
    var e := UnitBytes(s[0]);
    AtSplit(p, pos, e, UnitsBytes(s[1..]));
    AtIndex(p, pos, e);
  }

  lemma {:induction false} ReadUnitsEncoded(p: seq<Byte>, pos: nat, s: U16String)
    requires At(p, pos, UnitsBytes(s))
    ensures ReadUnits(p, pos, |s|) == Some((s, pos + 2 * |s|))
    decreases |s|
  {
    if s != [] {
      UnitsHead(p, pos, s);
      ReadUnitsEncoded(p, pos + 2, s[1..]);
      assert [s[0]] + s[1..] == s;
    }
  }

  lemma {:induction false} ReadUnitsDecoded(p: seq<Byte>, pos: nat, n: nat)
    requires pos + 2 * n <= |p|
    ensures At(p, pos, UnitsBytes(ReadUnits(p, pos, n).value.0))
    decreases n
  {
    if n > 0 {
      ReadUnitsDecoded(p, pos + 2, n - 1);
      var rest := ReadUnits(p, pos + 2, n - 1).value.0;
      var s := [Unit(p[pos], p[pos + 1])] + rest;
      assert ReadUnits(p, pos, n).value.0 == s;
      assert s[1..] == rest;
      BytesOfUnit(p[pos], p[pos + 1]);
      IndexAt(p, pos, UnitBytes(s[0]));
      AtJoin(p, pos, UnitBytes(s[0]), UnitsBytes(rest));
    }
  }

  /** Reading back the bytes of `s` gives `s`, and the cursor moves past them. */
  lemma ReadStringEncoded(p: seq<Byte>, pos: nat, s: U16String)
    requires Fits(s) && At(p, pos, StringBytes(s))
    ensures ReadString(p, pos) == Some((s, pos + |StringBytes(s)|))
  {
    AtSplit(p, pos, U32Bytes(|s|), UnitsBytes(s));
    ReadU32Encoded(p, pos, |s|);
    ReadUnitsEncoded(p, pos + 4, s);
  }

  /** Conversely, a string that was read is exactly the bytes it was read from. */
  lemma ReadStringDecoded(p: seq<Byte>, pos: nat)
    requires ReadString(p, pos).Some?
    ensures Fits(ReadString(p, pos).value.0)
    ensures At(p, pos, StringBytes(ReadString(p, pos).value.0))
    ensures ReadString(p, pos).value.1 == pos + |StringBytes(ReadString(p, pos).value.0)|
  {
    var n := ReadU32(p, pos).value.0;
    ReadU32Decoded(p, pos);
    ReadUnitsDecoded(p, pos + 4, n);
    AtJoin(p, pos, U32Bytes(n), UnitsBytes(ReadUnits(p, pos + 4, n).value.0));
  }

  // ---------------------------------------------------------------------
  // Relative seek

  /** Moves the cursor `n` bytes on; running past the end is a short read. */
  function Skip(p: seq<Byte>, pos: nat, n: nat): (r: Option<nat>)
    ensures r.Some? <==> pos + n <= |p|
    ensures r.Some? ==> r.value == pos + n
  {
    if pos + n <= |p| then Some(pos + n) else None
  }

  // ---------------------------------------------------------------------
  // Counted lists of u32

  /** The counted loop `for i < n: read u32`, stopping at the first short read. */
  function ReadU32s(p: seq<Byte>, pos: nat, n: nat): Parsed<U32>
    decreases n
  {
    if n == 0 then Parsed([], Some(pos))
    else
      match ReadU32(p, pos)
      case None => Parsed([], None)
      case Some((v, q)) => Prepend([v], ReadU32s(p, q, n - 1))
  }

  /** `ReadU32s` reads item `i` at `pos + 4 * i` and stops exactly where the
      payload runs out, or after `n` items. */
  lemma {:induction false} ReadU32sShape(p: seq<Byte>, pos: nat, n: nat)
    requires pos <= |p|
    ensures var r := ReadU32s(p, pos, n);
            && (r.end.Some? <==> pos + 4 * n <= |p|)
            && (r.end.Some? ==> |r.items| == n && r.end.value == pos + 4 * n)
            && (r.end.None? ==> |r.items| < n && |p| < pos + 4 * |r.items| + 4)
            && forall i :: 0 <= i < |r.items| ==> ReadU32(p, pos + 4 * i) == Some((r.items[i], pos + 4 * i + 4))
    decreases n
  {
    if n > 0 && pos + 4 <= |p| {
      ReadU32sShape(p, pos + 4, n - 1);
      var r := ReadU32s(p, pos, n);
      var rest := ReadU32s(p, pos + 4, n - 1);
      assert r.items == [ReadU32(p, pos).value.0] + rest.items;
      forall i | 0 < i < |r.items|
        ensures ReadU32(p, pos + 4 * i) == Some((r.items[i], pos + 4 * i + 4))
      {
        assert r.items[i] == rest.items[i - 1];
        assert pos + 4 * i == pos + 4 + 4 * (i - 1);
      }
    }
  }

  ghost function U32sBytes(vs: seq<U32>): (r: seq<Byte>)
    ensures |r| == 4 * |vs|
  {
    if vs == [] then [] else U32Bytes(vs[0]) + U32sBytes(vs[1..])
  }

  lemma U32sHead(p: seq<Byte>, pos: nat, vs: seq<U32>)
    requires vs != [] && At(p, pos, U32sBytes(vs))
    ensures ReadU32(p, pos) == Some((vs[0], pos + 4)) && At(p, pos + 4, U32sBytes(vs[1..]))
  {
    AtSplit(p, pos, U32Bytes(vs[0]), U32sBytes(vs[1..]));
    ReadU32Encoded(p, pos, vs[0]);
  }

  lemma {:induction false} ReadU32sEncoded(p: seq<Byte>, pos: nat, vs: seq<U32>)
    requires At(p, pos, U32sBytes(vs))
    ensures ReadU32s(p, pos, |vs|) == Parsed(vs, Some(pos + 4 * |vs|))
    decreases |vs|
  {
    if vs != [] {
      U32sHead(p, pos, vs);
      ReadU32sEncoded(p, pos + 4, vs[1..]);
      assert [vs[0]] + vs[1..] == vs;
    }
  }

  /** The counted loop itself, stepping a cursor through the payload. */
  method ReadU32List(p: seq<Byte>, pos: nat, n: nat) returns (items: seq<U32>, next: Option<nat>)
    ensures Parsed(items, next) == ReadU32s(p, pos, n)
  {
    items := [];
    var cur := pos;
    var i := 0;
    while i < n
      invariant i <= n
      invariant Prepend(items, ReadU32s(p, cur, n - i)) == ReadU32s(p, pos, n)
    {
      var r := ReadU32(p, cur);
      if r.None? {
        return items, None;
      }
      assert [r.value.0] + ReadU32s(p, r.value.1, n - i - 1).items == ReadU32s(p, cur, n - i).items;
      items := items + [r.value.0];
      cur := r.value.1;
      i := i + 1;
    }
    next := Some(cur);
  }
}
