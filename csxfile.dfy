/** The container object: it loads the sections of a file, then each section
    reader walks every section, decodes the ones carrying its id, and adds
    what it decoded to the object's tables. */
module Csx {
  import opened Bytes
  import opened Sections
  import opened FunctionTables
  import opened StringTables
  import opened Globals
  import opened LinkInfo

  // The section ids the readers compare against, 8 bytes each.
  const FunctionId: seq<Byte> := Ascii("function")
  const ConstStrId: seq<Byte> := Ascii("conststr")
  const GlobalId: seq<Byte> := Ascii("global  ")
  const LinkInfId: seq<Byte> := Ascii("linkinf ")
  const ImageId: seq<Byte> := Ascii("image   ")

  // ---------------------------------------------------------------------
  // What the readers add, over the payloads of the matching sections in
  // container order

  function AllInit(ps: seq<seq<Byte>>): seq<U32>
  {
    if ps == [] then [] else AllInit(ps[..|ps| - 1]) + DecodeFunctionTable(ps[|ps| - 1]).init
  }

  function AllNamed(ps: seq<seq<Byte>>): seq<NamedOffset>
  {
    if ps == [] then [] else AllNamed(ps[..|ps| - 1]) + DecodeFunctionTable(ps[|ps| - 1]).named
  }

  function AllBindings(ps: seq<seq<Byte>>): seq<Binding>
  {
    if ps == [] then [] else AllBindings(ps[..|ps| - 1]) + DecodeBindings(ps[|ps| - 1])
  }

  function AllGlobals(ps: seq<seq<Byte>>, t: TagTable): seq<Global>
  {
    if ps == [] then [] else AllGlobals(ps[..|ps| - 1], t) + DecodeGlobals(ps[|ps| - 1], t)
  }

  function AllTargets(ps: seq<seq<Byte>>): seq<U32>
  {
    if ps == [] then [] else AllTargets(ps[..|ps| - 1]) + DecodeLinkTable(ps[|ps| - 1]).targets
  }

  function AllSymbols(ps: seq<seq<Byte>>): seq<Binding>
  {
    if ps == [] then [] else AllSymbols(ps[..|ps| - 1]) + DecodeLinkTable(ps[|ps| - 1]).symbols
  }

  /** The payloads of `ss[..i + 1]` carrying `id` are those of `ss[..i]`,
      then `ss[i]`'s when its id is `id`. */
  lemma MatchingNext(ss: seq<Section>, id: seq<Byte>, i: nat)
    requires i < |ss|
    ensures ss[i].id == id ==> Matching(ss[..i + 1], id) == Matching(ss[..i], id) + [ss[i].payload]
    ensures ss[i].id != id ==> Matching(ss[..i + 1], id) == Matching(ss[..i], id)
  {
    assert ss[..i + 1][..i] == ss[..i];
    assert Matching(ss[..i], id) + [] == Matching(ss[..i], id);
  }

  lemma AllInitNext(ps: seq<seq<Byte>>, p: seq<Byte>)
    ensures AllInit(ps + [p]) == AllInit(ps) + DecodeFunctionTable(p).init
  {
    assert (ps + [p])[..|ps|] == ps;
  }

  lemma AllNamedNext(ps: seq<seq<Byte>>, p: seq<Byte>)
    ensures AllNamed(ps + [p]) == AllNamed(ps) + DecodeFunctionTable(p).named
  {
    assert (ps + [p])[..|ps|] == ps;
  }

  lemma AllBindingsNext(ps: seq<seq<Byte>>, p: seq<Byte>)
    ensures AllBindings(ps + [p]) == AllBindings(ps) + DecodeBindings(p)
  {
    assert (ps + [p])[..|ps|] == ps;
  }

  lemma AllGlobalsNext(ps: seq<seq<Byte>>, p: seq<Byte>, t: TagTable)
    ensures AllGlobals(ps + [p], t) == AllGlobals(ps, t) + DecodeGlobals(p, t)
  {
    assert (ps + [p])[..|ps|] == ps;
  }

  lemma AllTargetsNext(ps: seq<seq<Byte>>, p: seq<Byte>)
    ensures AllTargets(ps + [p]) == AllTargets(ps) + DecodeLinkTable(p).targets
  {
    assert (ps + [p])[..|ps|] == ps;
  }

  lemma AllSymbolsNext(ps: seq<seq<Byte>>, p: seq<Byte>)
    ensures AllSymbols(ps + [p]) == AllSymbols(ps) + DecodeLinkTable(p).symbols
  {
    assert (ps + [p])[..|ps|] == ps;
  }

  /** A reader decodes a payload exactly when some section whose id is its
      own carries it. */
  lemma {:induction false} MatchingSpec(ss: seq<Section>, id: seq<Byte>, x: seq<Byte>)
    ensures x in Matching(ss, id) <==> exists i :: 0 <= i < |ss| && ss[i].id == id && ss[i].payload == x
    decreases |ss|
  {
    if ss != [] {
      var init := ss[..|ss| - 1];
      MatchingSpec(init, id, x);
      if exists i :: 0 <= i < |ss| && ss[i].id == id && ss[i].payload == x {
        var i :| 0 <= i < |ss| && ss[i].id == id && ss[i].payload == x;
        if i < |ss| - 1 {
          assert init[i] == ss[i];
        }
      }
      if x in Matching(init, id) {
        var i :| 0 <= i < |init| && init[i].id == id && init[i].payload == x;
        assert ss[i] == init[i];
      }
    }
  }

  /** Sections with other ids are passed over: adding them changes nothing. */
  lemma {:induction false} MatchingSkipsOthers(ss: seq<Section>, others: seq<Section>, id: seq<Byte>)
    requires forall i :: 0 <= i < |others| ==> others[i].id != id
    ensures Matching(ss + others, id) == Matching(ss, id)
    decreases |others|
  {
    if others == [] {
      assert ss + others == ss;
    } else {
      var init := others[..|others| - 1];
      assert (ss + others)[..|ss + others| - 1] == ss + init;
      assert (ss + others)[|ss + others| - 1] == others[|others| - 1];
      MatchingSkipsOthers(ss, init, id);
    }
  }

  /** The offset list the decompiler is started on: the initialisation
      offsets, then the offset of each named function. */
  function DispatchList(init: seq<U32>, named: seq<NamedOffset>): seq<U32>
  {
    if named == [] then init
    else DispatchList(init, named[..|named| - 1]) + [named[|named| - 1].offset]
  }

  /** Its length is the sum of both lengths, and it holds both lists in
      order, duplicates included. */
  lemma {:induction false} DispatchListSpec(init: seq<U32>, named: seq<NamedOffset>)
    ensures |DispatchList(init, named)| == |init| + |named|
    ensures forall i :: 0 <= i < |init| ==> DispatchList(init, named)[i] == init[i]
    ensures forall j :: 0 <= j < |named| ==> DispatchList(init, named)[|init| + j] == named[j].offset
    decreases |named|
  {
    if named != [] {
      DispatchListSpec(init, named[..|named| - 1]);
    }
  }

  /** A decompiler thread as `decompile` starts it: the payload of an
      "image   " section and an offset in it. */
  datatype Launch = Launch(image: seq<Byte>, offset: U32)

  /** One launch per image and offset, image by image. */
  function Launches(images: seq<seq<Byte>>, list: seq<U32>): seq<Launch>
  {
    if images == [] then []
    else Launches(images[..|images| - 1], list) + seq(|list|, j requires 0 <= j < |list| => Launch(images[|images| - 1], list[j]))
  }

  lemma LaunchesNext(images: seq<seq<Byte>>, image: seq<Byte>, list: seq<U32>)
    ensures Launches(images + [image], list) == Launches(images, list) + seq(|list|, j requires 0 <= j < |list| => Launch(image, list[j]))
  {
    assert (images + [image])[..|images|] == images;
  }

  /** There are `|images| * |list|` launches in all. */
  lemma {:induction false} LaunchesLength(images: seq<seq<Byte>>, list: seq<U32>)
    ensures |Launches(images, list)| == |images| * |list|
    decreases |images|
  {
    if images != [] {
      var n := |images| - 1;
      LaunchesLength(images[..n], list);
      assert |Launches(images, list)| == n * |list| + |list|;
      assert n * |list| + |list| == (n + 1) * |list|;
    }
  }

  /** Every image is paired with every offset of the list, and with nothing
      else. */
  lemma {:induction false} LaunchesSpec(images: seq<seq<Byte>>, list: seq<U32>, l: Launch)
    ensures l in Launches(images, list) <==> l.image in images && l.offset in list
    decreases |images|
  {
    if images != [] {
      var init := images[..|images| - 1];
      var last := images[|images| - 1];
      var row := seq(|list|, j requires 0 <= j < |list| => Launch(last, list[j]));
      LaunchesSpec(init, list, l);
      assert images == init + [last];
      assert l in row <==> l.image == last && l.offset in list by {
        if l.image == last && l.offset in list {
          var j :| 0 <= j < |list| && list[j] == l.offset;
          assert row[j] == l;
        }
      }
    }
  }

  /** Launch `i * |list| + j` is image `i` with offset `j`: every offset is
      launched once per image, image by image and in list order. */
  lemma {:induction false} LaunchesIndex(images: seq<seq<Byte>>, list: seq<U32>, i: nat, j: nat)
    requires i < |images| && j < |list|
    ensures i * |list| + j < |Launches(images, list)|
    ensures Launches(images, list)[i * |list| + j] == Launch(images[i], list[j])
    decreases |images|
  {
    var n := |images| - 1;
    var init := images[..n];
    LaunchesLength(init, list);
    assert |Launches(init, list)| == n * |list|;
    if i < n {
      LaunchesIndex(init, list, i, j);
      assert init[i] == images[i];
    } else {
      assert i * |list| + j == |Launches(init, list)| + j;
    }
  }

  class CsxFile {
    /** The size of the fixed header; the layout of that header beyond its
        18-byte magic is not part of this model; the sections start after
        it. */
    const headerSize: nat
    /** The numeric values of the variable kinds, the case labels of one
        switch and so distinct. */
    const tags: TagTable

    var sections: seq<Section>
    var initOffsets: seq<U32>
    var offsets: seq<NamedOffset>
    var conststr: StringMap
    var globals: seq<Global>
    var linkTargets: seq<U32>
    var linkSymbols: StringMap

    constructor(headerSize: nat, tags: TagTable)
      requires |Magic| <= headerSize && DistinctTags(tags)
      ensures this.headerSize == headerSize && this.tags == tags
      ensures sections == [] && initOffsets == [] && offsets == [] && conststr == map[]
      ensures globals == [] && linkTargets == [] && linkSymbols == map[]
    {
      this.headerSize := headerSize;
      this.tags := tags;
      sections := [];
      initOffsets := [];
      offsets := [];
      conststr := map[];
      globals := [];
      linkTargets := [];
      linkSymbols := map[];
    }

    /** `load_from_file` on the file's bytes: a file whose first 18 bytes
        are not the magic fails with no section added; otherwise the
        section records after the header are appended in file order until
        the data ends, or until a record is cut short, which is not added.
        A file that ends inside the header has no sections. */
    method LoadFromFile(file: seq<Byte>) returns (ok: bool)
      modifies this
      ensures ok <==> HeaderMatches(file)
      ensures !ok ==> sections == old(sections)
      ensures ok ==> sections == old(sections) + ParseSections(file, headerSize).sections
      ensures initOffsets == old(initOffsets) && offsets == old(offsets) && conststr == old(conststr)
      ensures globals == old(globals) && linkTargets == old(linkTargets) && linkSymbols == old(linkSymbols)
    {
      if |file| < |Magic| || file[..|Magic|] != Magic {
        return false;
      }
      var pos := headerSize;
      while pos < |file|
        invariant headerSize <= pos
        invariant sections + ParseSections(file, pos).sections == old(sections) + ParseSections(file, headerSize).sections
        invariant initOffsets == old(initOffsets) && offsets == old(offsets) && conststr == old(conststr)
        invariant globals == old(globals) && linkTargets == old(linkTargets) && linkSymbols == old(linkSymbols)
        decreases |file| - pos
      {
        var r := ReadSection(file, pos);
        if r.None? {
          assert sections + [] == sections;
          return true;
        }
        ParseSectionsStep(file, pos, r.value.0, r.value.1);
        AppendAssoc(sections, [r.value.0], ParseSections(file, r.value.1).sections);
        sections := sections + [r.value.0];
        pos := r.value.1;
      }
      assert sections + [] == sections;
      return true;
    }

    /** `read_offsets`: every "function" section adds its initialisation
        offsets and its named entries, in container and on-disk order. */
    method ReadOffsets()
      modifies this
      ensures initOffsets == old(initOffsets) + AllInit(Matching(sections, FunctionId))
      ensures offsets == old(offsets) + AllNamed(Matching(sections, FunctionId))
      ensures sections == old(sections) && conststr == old(conststr) && globals == old(globals)
      ensures linkTargets == old(linkTargets) && linkSymbols == old(linkSymbols)
    {
      for i := 0 to |sections|
        invariant sections == old(sections) && conststr == old(conststr) && globals == old(globals)
        invariant linkTargets == old(linkTargets) && linkSymbols == old(linkSymbols)
        invariant initOffsets == old(initOffsets) + AllInit(Matching(sections[..i], FunctionId))
        invariant offsets == old(offsets) + AllNamed(Matching(sections[..i], FunctionId))
      {
        MatchingNext(sections, FunctionId, i);
        if sections[i].id == FunctionId {
          var t := DecodeFunctionSection(sections[i].payload);
          AllInitNext(Matching(sections[..i], FunctionId), sections[i].payload);
          AllNamedNext(Matching(sections[..i], FunctionId), sections[i].payload);
          AppendAssoc(old(initOffsets), AllInit(Matching(sections[..i], FunctionId)), t.init);
          AppendAssoc(old(offsets), AllNamed(Matching(sections[..i], FunctionId)), t.named);
          initOffsets := initOffsets + t.init;
          offsets := offsets + t.named;
        }
      }
      assert sections[..|sections|] == sections;
    }

    /** `read_conststr`: every "conststr" section stores its strings under
        their offsets, a later store to an offset replacing an earlier one. */
    method ReadConstStr()
      modifies this
      ensures conststr == Assign(old(conststr), AllBindings(Matching(sections, ConstStrId)))
      ensures sections == old(sections) && initOffsets == old(initOffsets) && offsets == old(offsets)
      ensures globals == old(globals) && linkTargets == old(linkTargets) && linkSymbols == old(linkSymbols)
    {
      for i := 0 to |sections|
        invariant sections == old(sections) && initOffsets == old(initOffsets) && offsets == old(offsets)
        invariant globals == old(globals) && linkTargets == old(linkTargets) && linkSymbols == old(linkSymbols)
        invariant conststr == Assign(old(conststr), AllBindings(Matching(sections[..i], ConstStrId)))
      {
        MatchingNext(sections, ConstStrId, i);
        if sections[i].id == ConstStrId {
          AllBindingsNext(Matching(sections[..i], ConstStrId), sections[i].payload);
          AssignAppend(old(conststr), AllBindings(Matching(sections[..i], ConstStrId)), DecodeBindings(sections[i].payload));
          conststr := DecodeBindingsInto(sections[i].payload, conststr);
        }
      }
      assert sections[..|sections|] == sections;
    }

    /** `read_global`: every "global  " section appends its records in
        declaration order. */
    method ReadGlobal()
      modifies this
      ensures globals == old(globals) + AllGlobals(Matching(sections, GlobalId), tags)
      ensures sections == old(sections) && initOffsets == old(initOffsets) && offsets == old(offsets)
      ensures conststr == old(conststr) && linkTargets == old(linkTargets) && linkSymbols == old(linkSymbols)
    {
      for i := 0 to |sections|
        invariant sections == old(sections) && initOffsets == old(initOffsets) && offsets == old(offsets)
        invariant conststr == old(conststr) && linkTargets == old(linkTargets) && linkSymbols == old(linkSymbols)
        invariant globals == old(globals) + AllGlobals(Matching(sections[..i], GlobalId), tags)
      {
        MatchingNext(sections, GlobalId, i);
        if sections[i].id == GlobalId {
          var gs := DecodeGlobalSection(sections[i].payload, tags);
          AllGlobalsNext(Matching(sections[..i], GlobalId), sections[i].payload, tags);
          AppendAssoc(old(globals), AllGlobals(Matching(sections[..i], GlobalId), tags), gs);
          globals := globals + gs;
        }
      }
      assert sections[..|sections|] == sections;
    }

    /** `read_linkinf`: every "linkinf " section appends its targets and
        stores its strings under their offsets, last store winning. */
    method ReadLinkInf()
      modifies this
      ensures linkTargets == old(linkTargets) + AllTargets(Matching(sections, LinkInfId))
      ensures linkSymbols == Assign(old(linkSymbols), AllSymbols(Matching(sections, LinkInfId)))
      ensures sections == old(sections) && initOffsets == old(initOffsets) && offsets == old(offsets)
      ensures conststr == old(conststr) && globals == old(globals)
    {
      for i := 0 to |sections|
        invariant sections == old(sections) && initOffsets == old(initOffsets) && offsets == old(offsets)
        invariant conststr == old(conststr) && globals == old(globals)
        invariant linkTargets == old(linkTargets) + AllTargets(Matching(sections[..i], LinkInfId))
        invariant linkSymbols == Assign(old(linkSymbols), AllSymbols(Matching(sections[..i], LinkInfId)))
      {
        MatchingNext(sections, LinkInfId, i);
        if sections[i].id == LinkInfId {
          AllTargetsNext(Matching(sections[..i], LinkInfId), sections[i].payload);
          AllSymbolsNext(Matching(sections[..i], LinkInfId), sections[i].payload);
          AssignAppend(old(linkSymbols), AllSymbols(Matching(sections[..i], LinkInfId)), DecodeLinkTable(sections[i].payload).symbols);
          var targets, symbols := DecodeLinkSection(sections[i].payload, linkSymbols);
          AppendAssoc(old(linkTargets), AllTargets(Matching(sections[..i], LinkInfId)), targets);
          linkTargets := linkTargets + targets;
          linkSymbols := symbols;
        }
      }
      assert sections[..|sections|] == sections;
    }

    /** The offset list `decompile` builds: the initialisation offsets, then
        the offset of every named function, with nothing sorted or removed. */
    method DispatchOffsets() returns (list: seq<U32>)
      ensures list == DispatchList(initOffsets, offsets)
    {
      list := [];
      for i := 0 to |initOffsets|
        invariant list == initOffsets[..i]
      {
        list := list + [initOffsets[i]];
      }
      assert initOffsets[..|initOffsets|] == initOffsets;
      for j := 0 to |offsets|
        invariant list == DispatchList(initOffsets, offsets[..j])
      {
        assert offsets[..j + 1][..j] == offsets[..j];
        list := list + [offsets[j].offset];
      }
      assert offsets[..|offsets|] == offsets;
    }

    /** The threads `decompile` starts: for each "image   " section in
        container order, one per offset of the dispatch list, in order. */
    method Decompile() returns (launches: seq<Launch>)
      ensures launches == Launches(Matching(sections, ImageId), DispatchList(initOffsets, offsets))
    {
      launches := [];
      for i := 0 to |sections|
        invariant launches == Launches(Matching(sections[..i], ImageId), DispatchList(initOffsets, offsets))
      {
        MatchingNext(sections, ImageId, i);
        if sections[i].id == ImageId {
          var list := DispatchOffsets();
          var image := sections[i].payload;
          var started := [];
          for k := 0 to |list|
            invariant started == seq(k, j requires 0 <= j < k => Launch(image, list[j]))
          {
            started := started + [Launch(image, list[k])];
          }
          LaunchesNext(Matching(sections[..i], ImageId), image, list);
          launches := launches + started;
        }
      }
      assert sections[..|sections|] == sections;
    }

    /** `get_function_name`: the name of the first named function at
        `offset`, or the empty string when there is none. */
    method GetFunctionName(offset: U32) returns (name: U16String)
      ensures (exists i :: 0 <= i < |offsets| && offsets[i].offset == offset) ==>
        exists i :: 0 <= i < |offsets| && offsets[i].offset == offset && name == offsets[i].name
          && forall j :: 0 <= j < i ==> offsets[j].offset != offset
      ensures (forall i :: 0 <= i < |offsets| ==> offsets[i].offset != offset) ==> name == []
    {
      for i := 0 to |offsets|
        invariant forall j :: 0 <= j < i ==> offsets[j].offset != offset
      {
        if offsets[i].offset == offset {
          return offsets[i].name;
        }
      }
      return [];
    }
  }
}
