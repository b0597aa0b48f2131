/** The "global  " section: a count, then one record per global variable.
    A record is a name, a u32 type tag, a declared type name when the tag is
    0, then whatever the tag's kind carries. */
module Globals {
  import opened Bytes

  /** The numeric tags of the variable kinds the reader tells apart. Their
      values belong to the interpreter's type enumeration, which is not part
      of this model, so they are a parameter. */
  datatype TagTable = TagTable(referenceTag: U32, parentTag: U32, unknownTag: U32, integerTag: U32, realTag: U32, stringTag: U32)

  /** Case labels of one switch: no two kinds share a tag. */
  predicate DistinctTags(t: TagTable)
  {
    var tags := [t.referenceTag, t.parentTag, t.unknownTag, t.integerTag, t.realTag, t.stringTag];
    forall i, j :: 0 <= i < j < |tags| ==> tags[i] != tags[j]
  }

  datatype VariableKind = Reference | Parent | Unknown | Integer | Real | Str | Other

  /** Which branch of the switch a tag takes. */
  function Classify(t: TagTable, tag: U32): VariableKind
  {
    if tag == t.referenceTag then Reference
    else if tag == t.parentTag then Parent
    else if tag == t.unknownTag then Unknown
    else if tag == t.integerTag then Integer
    else if tag == t.realTag then Real
    else if tag == t.stringTag then Str
    else Other
  }

  function TagOf(t: TagTable, k: VariableKind): U32
    requires k != Other
  {
    match k
    case Reference => t.referenceTag
    case Parent => t.parentTag
    case Unknown => t.unknownTag
    case Integer => t.integerTag
    case Real => t.realTag
    case Str => t.stringTag
  }

  /** With distinct tags each kind's tag selects that kind's branch, and
      every other tag falls through to the default. */
  lemma ClassifyTags(t: TagTable, tag: U32)
    requires DistinctTags(t)
    ensures Classify(t, tag) != Other ==> TagOf(t, Classify(t, tag)) == tag
    ensures forall k :: k != Other ==> Classify(t, TagOf(t, k)) == k
    ensures Classify(t, tag) == Other <==> forall k :: k != Other ==> TagOf(t, k) != tag
  {
    var tags := [t.referenceTag, t.parentTag, t.unknownTag, t.integerTag, t.realTag, t.stringTag];
    assert tags[0] != tags[1] && tags[0] != tags[2] && tags[0] != tags[3] && tags[0] != tags[4] && tags[0] != tags[5];
    assert tags[1] != tags[2] && tags[1] != tags[3] && tags[1] != tags[4] && tags[1] != tags[5];
    assert tags[2] != tags[3] && tags[2] != tags[4] && tags[2] != tags[5];
    assert tags[3] != tags[4] && tags[3] != tags[5] && tags[4] != tags[5];
    if Classify(t, tag) == Other {
      forall k | k != Other ensures TagOf(t, k) != tag {
      }
    } else {
      assert TagOf(t, Classify(t, tag)) == tag;
    }
  }

  // The type names the switch stores, as UTF-16 code units.
  const ReferenceName: U16String := [0x52, 0x65, 0x66, 0x65, 0x72, 0x65, 0x6E, 0x63, 0x65]  // "Reference"
  const ParentName: U16String := [0x70, 0x61, 0x72, 0x65, 0x6E, 0x74]  // "parent"
  const UnknownName: U16String := [0x75, 0x6E, 0x6B, 0x6E, 0x6F, 0x77, 0x6E, 0x5F, 0x74, 0x79, 0x70, 0x65]  // "unknown_type"
  const IntegerName: U16String := [0x49, 0x6E, 0x74, 0x65, 0x67, 0x65, 0x72]  // "Integer"
  const RealName: U16String := [0x52, 0x65, 0x61, 0x6C]  // "Real"
  const StringName: U16String := [0x53, 0x74, 0x72, 0x69, 0x6E, 0x67]  // "String"

  /** The type name each branch stores; the default branch stores none. */
  function KindName(k: VariableKind): U16String
  {
    match k
    case Reference => ReferenceName
    case Parent => ParentName
    case Unknown => UnknownName
    case Integer => IntegerName
    case Real => RealName
    case Str => StringName
    case Other => []
  }

  /** A global as read: `initInteger` holds the u32 read for Integer and
      String globals, `initReal` the raw 32 bits read for Real globals; a
      field that was not read is `None`. */
  datatype Global = Global(name: U16String, tag: U32, typeName: U16String, initInteger: Option<U32>, initReal: Option<U32>)

  /** The switch on the kind, after the name, the tag and the declared type
      name were read into `g`; `pos` is the cursor at that point. */
  function ReadKindData(p: seq<Byte>, pos: nat, g: Global, k: VariableKind): Option<(Global, nat)>
  {
    var named := if k == Other then g else g.(typeName := KindName(k));
    match k
    case Parent =>
      (match ReadU32(p, pos)
       case None => None
       case Some((len, q)) =>
         if len > 0 then
           match Skip(p, q, 112)
           case None => None
           case Some(q') => Some((named, q'))
         else Some((named, q)))
    case Integer =>
      (match ReadU32(p, pos)
       case None => None
       case Some((v, q)) => Some((named.(initInteger := Some(v)), q)))
    case Real =>
      (match ReadU32(p, pos)
       case None => None
       case Some((v, q)) => Some((named.(initReal := Some(v)), q)))
    case Str =>
      (match ReadU32(p, pos)
       case None => None
       case Some((v, q)) => Some((named.(initInteger := Some(v)), q)))
    case _ => Some((named, pos))
  }

  /** The fixed part of a record: the name, the tag and, for tag 0 only, the
      declared type name (empty otherwise). */
  function ReadGlobalHead(p: seq<Byte>, pos: nat): Option<(Global, nat)>
  {
    match ReadString(p, pos)
    case None => None
    case Some((name, q)) =>
      match ReadU32(p, q)
      case None => None
      case Some((tag, q')) =>
        if tag == 0 then
          match ReadString(p, q')
          case None => None
          case Some((typeName, q'')) => Some((Global(name, tag, typeName, None, None), q''))
        else Some((Global(name, tag, [], None, None), q'))
  }

  /** One record at `pos`; `None` when any read comes up short. */
  function ReadGlobal(p: seq<Byte>, pos: nat, t: TagTable): Option<(Global, nat)>
  {
    match ReadGlobalHead(p, pos)
    case None => None
    case Some((g, q)) => ReadKindData(p, q, g, Classify(t, g.tag))
  }

  /** The shape every record read has: its type name is its kind's, or the
      declared one for tag 0 in the default branch, or empty; exactly the
      kinds that carry an initial value have one. */
  predicate Canonical(t: TagTable, g: Global)
  {
    var k := Classify(t, g.tag);
    && Fits(g.name)
    && (k != Other ==> g.typeName == KindName(k))
    && (k == Other && g.tag != 0 ==> g.typeName == [])
    && (k == Other && g.tag == 0 ==> Fits(g.typeName))
    && (g.initInteger.Some? <==> k == Integer || k == Str)
    && (g.initReal.Some? <==> k == Real)
  }

  /** What the fixed part of a record consumes: the name, the tag, and the
      declared type name exactly when the tag is 0. */
  lemma ReadGlobalHeadShape(p: seq<Byte>, pos: nat, g: Global, q: nat)
    requires ReadGlobalHead(p, pos) == Some((g, q))
    ensures Fits(g.name) && ReadString(p, pos) == Some((g.name, pos + 4 + 2 * |g.name|))
    ensures ReadU32(p, pos + 4 + 2 * |g.name|) == Some((g.tag, pos + 8 + 2 * |g.name|))
    ensures g.tag == 0 ==> Fits(g.typeName) && ReadString(p, pos + 8 + 2 * |g.name|) == Some((g.typeName, q))
    ensures g.tag == 0 ==> q == pos + 12 + 2 * |g.name| + 2 * |g.typeName|
    ensures g.tag != 0 ==> g.typeName == [] && q == pos + 8 + 2 * |g.name|
    ensures g.initInteger.None? && g.initReal.None? && pos < q <= |p|
  {
    var (name, q1) := ReadString(p, pos).value;
    var (tag, q2) := ReadU32(p, q1).value;
    ReadStringDecoded(p, pos);
    assert name == g.name && tag == g.tag && q2 == q1 + 4;
    if tag == 0 {
      var (declared, q3) := ReadString(p, q2).value;
      ReadStringDecoded(p, q2);
      assert declared == g.typeName && q3 == q;
    }
  }

  /** What the switch consumes and stores for each kind: Integer, Real and
      String read one u32 into their field; Parent reads a length, then
      skips 112 bytes exactly when it is not 0; the others read nothing.
      The name and tag are kept, and the type name is the kind's own. */
  lemma ReadKindDataShape(p: seq<Byte>, pos: nat, g: Global, k: VariableKind, g': Global, q: nat)
    requires pos <= |p| && ReadKindData(p, pos, g, k) == Some((g', q))
    ensures g'.name == g.name && g'.tag == g.tag && pos <= q <= |p|
    ensures g'.typeName == (if k == Other then g.typeName else KindName(k))
    ensures k == Integer || k == Str ==>
      q == pos + 4 && g'.initInteger == Some(ReadU32(p, pos).value.0) && g'.initReal == g.initReal
    ensures k == Real ==>
      q == pos + 4 && g'.initReal == Some(ReadU32(p, pos).value.0) && g'.initInteger == g.initInteger
    ensures k == Parent ==> ReadU32(p, pos).Some? && q == pos + 4 + (if ReadU32(p, pos).value.0 > 0 then 112 else 0)
    ensures k == Reference || k == Unknown || k == Other ==> q == pos
    ensures k != Integer && k != Str && k != Real ==> g'.initInteger == g.initInteger && g'.initReal == g.initReal
  {
  }

  /** The switch comes up short exactly when its kind reads a u32 that is
      not there, or a Parent's 112 bytes are not all there. */
  lemma ReadKindDataFails(p: seq<Byte>, pos: nat, g: Global, k: VariableKind)
    requires pos <= |p|
    ensures ReadKindData(p, pos, g, k).None? <==>
      (k in {Parent, Integer, Real, Str} && pos + 4 > |p|)
      || (k == Parent && pos + 4 <= |p| && ReadU32(p, pos).value.0 > 0 && pos + 116 > |p|)
  {
  }

  /** Every record read has the canonical shape for its tag, and reading it
      moved the cursor forward within the payload. */
  lemma ReadGlobalCanonical(p: seq<Byte>, pos: nat, t: TagTable, g: Global, q: nat)
    requires ReadGlobal(p, pos, t) == Some((g, q))
    ensures Canonical(t, g) && pos < q <= |p|
  {
    var (g0, q0) := ReadGlobalHead(p, pos).value;
    ReadGlobalHeadShape(p, pos, g0, q0);
    ReadKindDataShape(p, q0, g0, Classify(t, g0.tag), g, q);
  }

  // ---------------------------------------------------------------------
  // Lists of records

  function ReadGlobals(p: seq<Byte>, pos: nat, n: nat, t: TagTable): Parsed<Global>
    decreases n
  {
    if n == 0 then Parsed([], Some(pos))
    else
      match ReadGlobal(p, pos, t)
      case None => Parsed([], None)
      case Some((g, q)) => Prepend([g], ReadGlobals(p, q, n - 1, t))
  }

  /** The payload layout `n, record[n]`; the records read before a short read
      are kept. */
  function DecodeGlobals(p: seq<Byte>, t: TagTable): seq<Global>
  {
    match ReadU32(p, 0)
    case None => []
    case Some((n, q)) => ReadGlobals(p, q, n, t).items
  }

  lemma ReadGlobalsNext(p: seq<Byte>, pos: nat, n: nat, t: TagTable, g: Global, q: nat)
    requires n > 0 && ReadGlobal(p, pos, t) == Some((g, q))
    ensures ReadGlobals(p, pos, n, t) == Prepend([g], ReadGlobals(p, q, n - 1, t))
  {
  }

  lemma ReadGlobalsFirst(p: seq<Byte>, pos: nat, n: nat, t: TagTable)
    requires n > 0
    ensures ReadGlobal(p, pos, t).None? ==> ReadGlobals(p, pos, n, t) == Parsed([], None)
    ensures ReadGlobal(p, pos, t).Some? ==>
      ReadGlobals(p, pos, n, t) == Prepend([ReadGlobal(p, pos, t).value.0], ReadGlobals(p, ReadGlobal(p, pos, t).value.1, n - 1, t))
  {
  }

  method ReadGlobalList(p: seq<Byte>, pos: nat, n: nat, t: TagTable) returns (items: seq<Global>, next: Option<nat>)
    ensures Parsed(items, next) == ReadGlobals(p, pos, n, t)
  {
    items := [];
    var cur := pos;
    var i := 0;
    while i < n
      invariant i <= n
      invariant Prepend(items, ReadGlobals(p, cur, n - i, t)) == ReadGlobals(p, pos, n, t)
    {
      var r := ReadGlobal(p, cur, t);
      ReadGlobalsFirst(p, cur, n - i, t);
      if r.None? {
        assert items + [] == items;
        return items, None;
      }
      PrependTwice(items, [r.value.0], ReadGlobals(p, r.value.1, n - i - 1, t));
      items := items + [r.value.0];
      cur := r.value.1;
      i := i + 1;
    }
    assert items + [] == items;
    next := Some(cur);
  }

  /** The body of `read_global` for one matching section. */
  method DecodeGlobalSection(p: seq<Byte>, t: TagTable) returns (gs: seq<Global>)
    ensures gs == DecodeGlobals(p, t)
  {
    var count := ReadU32(p, 0);
    if count.None? {
      return [];
    }
    var next;
    gs, next := ReadGlobalList(p, count.value.1, count.value.0, t);
  }

  // ---------------------------------------------------------------------
  // Encoding, the partner of decoding

  /** The bytes the reader passes over after a Parent tag: a u32 length, and
      112 bytes of unknown content when the length is not zero. */
  predicate ParentPadding(len: U32, skipped: seq<Byte>)
  {
    |skipped| == if len > 0 then 112 else 0
  }

  /** A record as stored: the global, and for a Parent global the length word
      and the bytes the reader skips. */
  datatype Stored = Stored(g: Global, len: U32, skipped: seq<Byte>)

  predicate Storable(t: TagTable, s: Stored)
  {
    Canonical(t, s.g) && ParentPadding(s.len, s.skipped)
  }

  /** The declared type name slot: present only for tag 0. */
  ghost function Slot(tag: U32, declared: U16String): (r: seq<Byte>)
    requires Fits(declared)
    ensures |r| == if tag == 0 then 4 + 2 * |declared| else 0
  {
    if tag == 0 then StringBytes(declared) else []
  }

  /** The type name the fixed part of a stored record reads back as: the
      declared one where the default branch keeps it, else empty. */
  function DeclaredName(t: TagTable, g: Global): (r: U16String)
    ensures Fits(r)
  {
    if g.tag == 0 && Classify(t, 0) == Other && Fits(g.typeName) then g.typeName else []
  }

  ghost function KindBytes(t: TagTable, s: Stored): seq<Byte>
    requires Storable(t, s)
  {
    match Classify(t, s.g.tag)
    case Parent => U32Bytes(s.len) + s.skipped
    case Integer => U32Bytes(s.g.initInteger.value)
    case Real => U32Bytes(s.g.initReal.value)
    case Str => U32Bytes(s.g.initInteger.value)
    case _ => []
  }

  /** The name, the tag and the declared type name slot. */
  ghost function HeadParts(name: U16String, tag: U32, declared: U16String): (r: seq<Byte>)
    requires Fits(name) && Fits(declared)
    ensures |r| == 4 + 2 * |name| + 4 + |Slot(tag, declared)|
  {
    StringBytes(name) + (U32Bytes(tag) + Slot(tag, declared))
  }

  ghost function HeadBytes(t: TagTable, g: Global): seq<Byte>
    requires Fits(g.name)
  {
    HeadParts(g.name, g.tag, DeclaredName(t, g))
  }

  lemma ReadGlobalHeadSteps(p: seq<Byte>, pos: nat, name: U16String, q: nat, tag: U32, declared: U16String, q': nat)
    requires ReadString(p, pos) == Some((name, q)) && ReadU32(p, q) == Some((tag, q + 4))
    requires tag == 0 ==> ReadString(p, q + 4) == Some((declared, q'))
    requires tag != 0 ==> declared == [] && q' == q + 4
    ensures ReadGlobalHead(p, pos) == Some((Global(name, tag, declared, None, None), q'))
  {
  }

  lemma ReadHeadPartsEncoded(p: seq<Byte>, pos: nat, name: U16String, tag: U32, declared: U16String, rest: seq<Byte>, q: nat)
    requires Fits(name) && Fits(declared) && (tag != 0 ==> declared == [])
    requires At(p, pos, HeadParts(name, tag, declared) + rest) && q == pos + |HeadParts(name, tag, declared)|
    ensures ReadGlobalHead(p, pos) == Some((Global(name, tag, declared, None, None), q))
    ensures At(p, q, rest)
  {
    var d := Slot(tag, declared);
    var q := pos + |StringBytes(name)|;
    AtSplit(p, pos, HeadParts(name, tag, declared), rest);
    AtSplit(p, pos, StringBytes(name), U32Bytes(tag) + d);
    ReadStringEncoded(p, pos, name);
    AtSplit(p, q, U32Bytes(tag), d);
    ReadU32Encoded(p, q, tag);
    if tag == 0 {
      ReadStringEncoded(p, q + 4, declared);
    }
    ReadGlobalHeadSteps(p, pos, name, q, tag, declared, q + 4 + |d|);
  }

  lemma ReadGlobalHeadEncoded(p: seq<Byte>, pos: nat, t: TagTable, g: Global, rest: seq<Byte>)
    requires Fits(g.name) && At(p, pos, HeadBytes(t, g) + rest)
    ensures ReadGlobalHead(p, pos) == Some((Global(g.name, g.tag, DeclaredName(t, g), None, None), pos + |HeadBytes(t, g)|))
    ensures At(p, pos + |HeadBytes(t, g)|, rest)
  {
    ReadHeadPartsEncoded(p, pos, g.name, g.tag, DeclaredName(t, g), rest, pos + |HeadBytes(t, g)|);
  }

  lemma ReadKindDataEncoded(p: seq<Byte>, pos: nat, t: TagTable, s: Stored, rest: seq<Byte>, g0: Global)
    requires Storable(t, s) && At(p, pos, KindBytes(t, s) + rest)
    requires g0 == Global(s.g.name, s.g.tag, DeclaredName(t, s.g), None, None)
    ensures ReadKindData(p, pos, g0, Classify(t, s.g.tag)) == Some((s.g, pos + |KindBytes(t, s)|))
    ensures At(p, pos + |KindBytes(t, s)|, rest)
  {
    match Classify(t, s.g.tag)
    case Parent =>
      assert KindBytes(t, s) + rest == U32Bytes(s.len) + (s.skipped + rest);
      U32Head(p, pos, s.len, s.skipped + rest);
      AtSplit(p, pos + 4, s.skipped, rest);
      AtIndex(p, pos + 4, s.skipped);
    case Integer =>
      U32Head(p, pos, s.g.initInteger.value, rest);
    case Real =>
      U32Head(p, pos, s.g.initReal.value, rest);
    case Str =>
      U32Head(p, pos, s.g.initInteger.value, rest);
    case _ =>
      assert KindBytes(t, s) + rest == rest;
  }

  lemma ReadGlobalSteps(p: seq<Byte>, pos: nat, t: TagTable, g0: Global, q: nat)
    requires ReadGlobalHead(p, pos) == Some((g0, q))
    ensures ReadGlobal(p, pos, t) == ReadKindData(p, q, g0, Classify(t, g0.tag))
  {
  }

  /** Reading back a stored record gives the global exactly and consumes its
      bytes, the skipped Parent bytes included. */
  lemma ReadGlobalEncoded(p: seq<Byte>, pos: nat, t: TagTable, s: Stored, rest: seq<Byte>, q: nat)
    requires Storable(t, s) && At(p, pos, HeadBytes(t, s.g) + (KindBytes(t, s) + rest))
    requires q == pos + |HeadBytes(t, s.g)| + |KindBytes(t, s)|
    ensures ReadGlobal(p, pos, t) == Some((s.g, q))
    ensures At(p, q, rest)
  {
    var h := HeadBytes(t, s.g);
    var g0 := Global(s.g.name, s.g.tag, DeclaredName(t, s.g), None, None);
    ReadGlobalHeadEncoded(p, pos, t, s.g, KindBytes(t, s) + rest);
    ReadKindDataEncoded(p, pos + |h|, t, s, rest, g0);
    ReadGlobalSteps(p, pos, t, g0, pos + |h|);
  }

  // ---------------------------------------------------------------------
  // Lists of stored records

  predicate AllStorable(t: TagTable, ss: seq<Stored>)
  {
    forall i :: 0 <= i < |ss| ==> Storable(t, ss[i])
  }

  function GlobalsOf(ss: seq<Stored>): (r: seq<Global>)
    ensures |r| == |ss| && forall i :: 0 <= i < |ss| ==> r[i] == ss[i].g
  {
    if ss == [] then [] else [ss[0].g] + GlobalsOf(ss[1..])
  }

  ghost function GlobalsBytes(t: TagTable, ss: seq<Stored>): seq<Byte>
    requires AllStorable(t, ss)
  {
    if ss == [] then []
    else HeadBytes(t, ss[0].g) + (KindBytes(t, ss[0]) + GlobalsBytes(t, ss[1..]))
  }

  /** One record read in full, followed by a run of records read in full. */
  lemma ReadGlobalsCons(p: seq<Byte>, pos: nat, n: nat, t: TagTable, g: Global, q: nat, gs: seq<Global>, last: nat)
    requires n > 0 && ReadGlobal(p, pos, t) == Some((g, q))
    requires ReadGlobals(p, q, n - 1, t) == Parsed(gs, Some(last))
    ensures ReadGlobals(p, pos, n, t) == Parsed([g] + gs, Some(last))
  {
    ReadGlobalsNext(p, pos, n, t, g, q);
  }

  /** The first stored record of a run, read back. */
  lemma GlobalsBytesHead(p: seq<Byte>, pos: nat, t: TagTable, ss: seq<Stored>, q: nat)
    requires ss != [] && AllStorable(t, ss) && At(p, pos, GlobalsBytes(t, ss))
    requires AllStorable(t, ss[1..]) && q == pos + |GlobalsBytes(t, ss)| - |GlobalsBytes(t, ss[1..])|
    ensures ReadGlobal(p, pos, t) == Some((ss[0].g, q))
    ensures At(p, q, GlobalsBytes(t, ss[1..]))
  {
    var h := HeadBytes(t, ss[0].g);
    var k := KindBytes(t, ss[0]);
    var b := GlobalsBytes(t, ss[1..]);
    assert GlobalsBytes(t, ss) == h + (k + b);
    assert |GlobalsBytes(t, ss)| - |b| == |h| + |k|;
    ReadGlobalEncoded(p, pos, t, ss[0], b, q);
  }

  /** A run of stored records reads back as their globals, in order, and the
      cursor ends just past the last one (`n` and `last` name the count and
      that end, so that the step is a matter of equalities). */
  lemma {:induction false} ReadGlobalsEncoded(p: seq<Byte>, pos: nat, t: TagTable, ss: seq<Stored>, n: nat, last: nat)
    requires AllStorable(t, ss) && At(p, pos, GlobalsBytes(t, ss))
    requires n == |ss| && last == pos + |GlobalsBytes(t, ss)|
    ensures ReadGlobals(p, pos, n, t) == Parsed(GlobalsOf(ss), Some(last))
    decreases |ss|
  {
    if ss == [] {
      assert GlobalsOf(ss) == [] && GlobalsBytes(t, ss) == [];
    } else {
      var rest := ss[1..];
      assert AllStorable(t, rest);
      var q := pos + |GlobalsBytes(t, ss)| - |GlobalsBytes(t, rest)|;
      GlobalsBytesHead(p, pos, t, ss, q);
      ReadGlobalsEncoded(p, q, t, rest, n - 1, last);
      ReadGlobalsCons(p, pos, n, t, ss[0].g, q, GlobalsOf(rest), last);
      assert GlobalsOf(ss) == [ss[0].g] + GlobalsOf(rest);
    }
  }

  ghost function EncodeGlobals(t: TagTable, ss: seq<Stored>): seq<Byte>
    requires |ss| < 0x1_0000_0000 && AllStorable(t, ss)
  {
    U32Bytes(|ss|) + GlobalsBytes(t, ss)
  }

  lemma DecodeGlobalsSteps(p: seq<Byte>, t: TagTable, n: U32)
    requires ReadU32(p, 0) == Some((n, 4))
    ensures DecodeGlobals(p, t) == ReadGlobals(p, 4, n, t).items
  {
  }

  /** A payload that starts with the encoding of `ss` decodes to their
      globals; bytes after the last record are never looked at. */
  lemma DecodeEncodedPrefix(p: seq<Byte>, t: TagTable, ss: seq<Stored>)
    requires |ss| < 0x1_0000_0000 && AllStorable(t, ss) && At(p, 0, EncodeGlobals(t, ss))
    ensures DecodeGlobals(p, t) == GlobalsOf(ss)
  {
    U32Head(p, 0, |ss|, GlobalsBytes(t, ss));
    ReadGlobalsEncoded(p, 4, t, ss, |ss|, 4 + |GlobalsBytes(t, ss)|);
    DecodeGlobalsSteps(p, t, |ss|);
  }

  /** Decoding an encoded "global  " payload gives back every global, in
      order, whatever the skipped Parent bytes held. */
  lemma GlobalsRoundTrip(t: TagTable, ss: seq<Stored>)
    requires |ss| < 0x1_0000_0000 && AllStorable(t, ss)
    ensures DecodeGlobals(EncodeGlobals(t, ss), t) == GlobalsOf(ss)
  {
    AtWhole(EncodeGlobals(t, ss));
    DecodeEncodedPrefix(EncodeGlobals(t, ss), t, ss);
  }
}
