/** The container layout: a fixed-size header that starts with an 18-byte
    magic, then self-describing section records `{ id: 8 bytes, size: u32,
    payload: size bytes }` up to the end of the data. */
module Sections {
  import opened Bytes

  /** A named raw byte block of the container. */
  datatype Section = Section(id: seq<Byte>, payload: seq<Byte>)

  const IdLength: nat := 8

  /** The bytes of an ASCII literal. */
  function Ascii(s: string): (r: seq<Byte>)
    ensures |r| == |s|
  {
    seq(|s|, i requires 0 <= i < |s| => (s[i] as int) % 0x100)
  }

  const Magic: seq<Byte> := Ascii("Cotopha Image file")

  /** The first 18 bytes of the file are the magic exactly (a `strncmp` of
      18 bytes against a literal with no NUL in it). The rest of the header
      is not looked at, so a file cut short after the magic still matches. */
  predicate HeaderMatches(file: seq<Byte>)
  {
    |Magic| <= |file| && file[..|Magic|] == Magic
  }

  /** One section record at `pos`: the id, the size, then `size` bytes. */
  function ReadSection(p: seq<Byte>, pos: nat): (r: Option<(Section, nat)>)
    ensures r.Some? ==> pos + 12 <= r.value.1 <= |p|
  {
    if pos + IdLength > |p| then None
    else
      match ReadU32(p, pos + IdLength)
      case None => None
      case Some((size, q)) =>
        if q + size <= |p| then Some((Section(p[pos..pos + IdLength], p[q..q + size]), q + size))
        else None
  }

  predicate WellFormed(s: Section)
  {
    |s.id| == IdLength && |s.payload| < 0x1_0000_0000
  }

  ghost function SectionBytes(s: Section): (r: seq<Byte>)
    requires WellFormed(s)
    ensures |r| == 12 + |s.payload|
  {
    s.id + U32Bytes(|s.payload|) + s.payload
  }

  lemma ReadSectionEncoded(p: seq<Byte>, pos: nat, s: Section)
    requires WellFormed(s) && At(p, pos, SectionBytes(s))
    ensures ReadSection(p, pos) == Some((s, pos + |SectionBytes(s)|))
  {
    AtSplit(p, pos, s.id + U32Bytes(|s.payload|), s.payload);
    AtSplit(p, pos, s.id, U32Bytes(|s.payload|));
    AtSlice(p, pos, s.id);
    AtSlice(p, pos + 12, s.payload);
    ReadU32Encoded(p, pos + IdLength, |s.payload|);
  }

  lemma ReadSectionDecoded(p: seq<Byte>, pos: nat)
    requires ReadSection(p, pos).Some?
    ensures var (s, q) := ReadSection(p, pos).value;
            WellFormed(s) && q == pos + |SectionBytes(s)| && p[pos..q] == SectionBytes(s)
  {
    var (s, q) := ReadSection(p, pos).value;
    ReadU32Decoded(p, pos + IdLength);
    SliceAt(p, pos, pos + IdLength);
    SliceAt(p, pos + 12, q);
    AtJoin(p, pos, s.id, U32Bytes(|s.payload|));
    AtJoin(p, pos, s.id + U32Bytes(|s.payload|), s.payload);
    AtSlice(p, pos, SectionBytes(s));
  }

  /** The sections of a container, and whether the data ended exactly on a
      record boundary. */
  datatype Loaded = Loaded(sections: seq<Section>, complete: bool)

  /** The loop `while not at end: read one section record`. A record cut
      short stops the loop and leaves `complete` false. */
  function ParseSections(p: seq<Byte>, pos: nat): Loaded
    decreases |p| - pos
  {
    if pos >= |p| then Loaded([], true)
    else
      match ReadSection(p, pos)
      case None => Loaded([], false)
      case Some((s, q)) =>
        var rest := ParseSections(p, q);
        Loaded([s] + rest.sections, rest.complete)
  }

  predicate AllWellFormed(ss: seq<Section>)
  {
    forall i :: 0 <= i < |ss| ==> WellFormed(ss[i])
  }

  /** The records of `ss`, one after another. */
  ghost function Flatten(ss: seq<Section>): (r: seq<Byte>)
    requires AllWellFormed(ss)
  {
    if ss == [] then [] else SectionBytes(ss[0]) + Flatten(ss[1..])
  }

  /** A load that reached the end of the data read records that, put back
      together, are exactly the bytes after the header. */
  lemma {:induction false} SectionsReassemble(p: seq<Byte>, pos: nat)
    requires pos <= |p| && ParseSections(p, pos).complete
    ensures AllWellFormed(ParseSections(p, pos).sections)
    ensures Flatten(ParseSections(p, pos).sections) == p[pos..]
    decreases |p| - pos
  {
    if pos < |p| {
      var (s, q) := ReadSection(p, pos).value;
      ReadSectionDecoded(p, pos);
      SectionsReassemble(p, q);
      var ss := ParseSections(p, pos).sections;
      assert ss[0] == s && ss[1..] == ParseSections(p, q).sections;
      assert p[pos..] == p[pos..q] + p[q..];
    }
  }

  lemma SuffixSplit(p: seq<Byte>, pos: nat, e: seq<Byte>, rest: seq<Byte>)
    requires pos <= |p| && p[pos..] == e + rest
    ensures At(p, pos, e) && p[pos + |e|..] == rest
  {
    assert p[pos..pos + |e|] == p[pos..][..|e|] == (e + rest)[..|e|];
    assert p[pos + |e|..] == p[pos..][|e|..] == (e + rest)[|e|..];
    SliceAt(p, pos, pos + |e|);
  }

  lemma ParseSectionsStep(p: seq<Byte>, pos: nat, s: Section, q: nat)
    requires pos < |p| && ReadSection(p, pos) == Some((s, q))
    ensures ParseSections(p, pos) == Loaded([s] + ParseSections(p, q).sections, ParseSections(p, q).complete)
  {
  }

  lemma SectionAtFront(p: seq<Byte>, pos: nat, s: Section, rest: seq<Byte>)
    requires WellFormed(s) && pos <= |p| && p[pos..] == SectionBytes(s) + rest
    ensures ReadSection(p, pos) == Some((s, pos + |SectionBytes(s)|))
    ensures p[pos + |SectionBytes(s)|..] == rest
  {
    SuffixSplit(p, pos, SectionBytes(s), rest);
    ReadSectionEncoded(p, pos, s);
  }

  /** Conversely, records laid end to end up to the end of the data load back
      as the same sections, in the same order. */
  lemma {:induction false} SectionsRoundTrip(p: seq<Byte>, pos: nat, ss: seq<Section>)
    requires AllWellFormed(ss) && pos <= |p| && p[pos..] == Flatten(ss)
    ensures ParseSections(p, pos) == Loaded(ss, true)
    decreases |ss|
  {
    if ss == [] {
      assert pos == |p|;
    } else {
      var q := pos + |SectionBytes(ss[0])|;
      assert Flatten(ss) == SectionBytes(ss[0]) + Flatten(ss[1..]);
      SectionAtFront(p, pos, ss[0], Flatten(ss[1..]));
      SectionsRoundTrip(p, q, ss[1..]);
      ParseSectionsStep(p, pos, ss[0], q);
      assert [ss[0]] + ss[1..] == ss;
    }
  }

  /** The payloads of the sections whose id is exactly `id`, in container
      order; every other section is passed over. */
  function Matching(ss: seq<Section>, id: seq<Byte>): seq<seq<Byte>>
  {
    if ss == [] then []
    else Matching(ss[..|ss| - 1], id) + (if ss[|ss| - 1].id == id then [ss[|ss| - 1].payload] else [])
  }

  /** Matching one list after another is matching each. */
  lemma {:induction false} MatchingAppend(a: seq<Section>, b: seq<Section>, id: seq<Byte>)
    ensures Matching(a + b, id) == Matching(a, id) + Matching(b, id)
    decreases |b|
  {
    if b != [] {
      var b' := b[..|b| - 1];
      assert (a + b)[..|a + b| - 1] == a + b';
      MatchingAppend(a, b', id);
    } else {
      assert a + b == a;
    }
  }
}
