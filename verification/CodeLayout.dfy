/** Where the sections of modules go: as collected, and as recomputed while they are mapped. */
module CodeLayout {
  import opened Bytes

  const TEXT := 5
  const RO := 1
  const DATA := 3

  datatype SectionType = Text | Ro | Data
  datatype Section = Section(kind: SectionType, content: seq<byte>)

  /** A module with its three sections, in the order the loader lists them, and the size of its .bss. */
  datatype Nso = Nso(text: seq<byte>, ro: seq<byte>, data: seq<byte>, bss: nat)

  function Sections(nso: Nso): seq<Section> {
    [Section(Text, nso.text), Section(Ro, nso.ro), Section(Data, nso.data)]
  }

  datatype Placed = Placed(offset: nat, content: seq<byte>)

  /** A piece of the process image as it is mapped. */
  datatype Segment = Segment(offset: nat, size: nat, permission: nat, content: seq<byte>, bss: nat)

  // ---- collecting -------------------------------------------------------------------------

  function ExtentOf(s: Section, bss: nat): nat {
    PageUp(if s.kind == Data then |s.content| + bss else |s.content|)
  }

  class ProcessCodeLayout {
    var start: nat
    var offset: nat
    var procimage: seq<Placed>
    var bsslayoutsize: seq<nat>

    constructor ()
      ensures start == 0 && offset == 0 && procimage == [] && bsslayoutsize == []
    {
      start, offset, procimage, bsslayoutsize := 0, 0, [], [];
    }
  }

  method GetCodeSet(codeset: ProcessCodeLayout, nso: Nso)
    modifies codeset
    ensures codeset.start == old(codeset.start)
    ensures codeset.procimage == old(codeset.procimage) + PlacedFrom(nso, old(codeset.offset))
    ensures codeset.bsslayoutsize == old(codeset.bsslayoutsize) + [nso.bss]
    ensures codeset.offset == EndOf(nso, old(codeset.offset))
  {
    var baseoffset, sections := codeset.offset, Sections(nso);
    ghost var before := codeset.procimage;
    for i := 0 to |sections|
      invariant codeset.start == old(codeset.start)
      invariant baseoffset == [old(codeset.offset), RoOffset(nso, old(codeset.offset)),
                               DataOffset(nso, old(codeset.offset)), EndOf(nso, old(codeset.offset))][i]
      invariant codeset.procimage == before + PlacedFrom(nso, old(codeset.offset))[..i]
      invariant codeset.bsslayoutsize == old(codeset.bsslayoutsize) + if i == 3 then [nso.bss] else []
    {
      codeset.procimage := codeset.procimage + [Placed(baseoffset, sections[i].content)];
      if sections[i].kind == Data {
        codeset.bsslayoutsize := codeset.bsslayoutsize + [nso.bss];
      }
      baseoffset := baseoffset + ExtentOf(sections[i], nso.bss);
    }
    codeset.offset := baseoffset;
  }

  function RoOffset(nso: Nso, base: nat): nat { base + PageUp(|nso.text|) }
  function DataOffset(nso: Nso, base: nat): nat { RoOffset(nso, base) + PageUp(|nso.ro|) }
  function EndOf(nso: Nso, base: nat): nat { DataOffset(nso, base) + PageUp(|nso.data| + nso.bss) }

  function PlacedFrom(nso: Nso, base: nat): seq<Placed> {
    [Placed(base, nso.text), Placed(RoOffset(nso, base), nso.ro), Placed(DataOffset(nso, base), nso.data)]
  }

  /** The code set of a list of modules, collected from `base`. */
  function ImagesOf(modules: seq<Nso>, base: nat): seq<Placed> {
    if modules == [] then [] else PlacedFrom(modules[0], base) + ImagesOf(modules[1..], EndOf(modules[0], base))
  }

  function BssOf(modules: seq<Nso>): seq<nat> {
    if modules == [] then [] else [modules[0].bss] + BssOf(modules[1..])
  }

  function EndOfAll(modules: seq<Nso>, base: nat): nat {
    if modules == [] then base else EndOfAll(modules[1..], EndOf(modules[0], base))
  }

  lemma {:induction false} CollectMore(modules: seq<Nso>, nso: Nso, base: nat)
    ensures ImagesOf(modules + [nso], base) == ImagesOf(modules, base) + PlacedFrom(nso, EndOfAll(modules, base))
    ensures BssOf(modules + [nso]) == BssOf(modules) + [nso.bss]
    ensures EndOfAll(modules + [nso], base) == EndOf(nso, EndOfAll(modules, base))
    decreases |modules|
  {
    if modules == [] {
      assert [nso][1..] == [];
      assert PlacedFrom(nso, base) + [] == PlacedFrom(nso, base);
    } else {
      assert (modules + [nso])[1..] == modules[1..] + [nso];
      CollectMore(modules[1..], nso, EndOf(modules[0], base));
    }
  }

  /** The loop of `Load` over the modules. */
  method CollectAll(modules: seq<Nso>) returns (codeset: ProcessCodeLayout)
    ensures fresh(codeset) && codeset.start == 0 && codeset.procimage == ImagesOf(modules, 0)
    ensures codeset.bsslayoutsize == BssOf(modules) && codeset.offset == EndOfAll(modules, 0)
  {
    codeset := new ProcessCodeLayout();
    for i := 0 to |modules|
      invariant fresh(codeset) && codeset.start == 0 && codeset.procimage == ImagesOf(modules[..i], 0)
      invariant codeset.bsslayoutsize == BssOf(modules[..i]) && codeset.offset == EndOfAll(modules[..i], 0)
    {
      hide ImagesOf, BssOf, EndOfAll, PlacedFrom, EndOf;
      CollectMore(modules[..i], modules[i], 0);
      assert modules[..i + 1] == modules[..i] + [modules[i]];
      GetCodeSet(codeset, modules[i]);
    }
    assert modules[..|modules|] == modules;
  }

  // ---- mapping ----------------------------------------------------------------------------

  function PermissionOf(bintype: nat): nat {
    if bintype == 0 then TEXT else if bintype == 1 then RO else DATA
  }

  /** In bits (read, write, execute): text is read and executed, read-only data is read, data is read and written. */
  lemma PermissionBits()
    ensures PermissionOf(0) == 1 + 4 && PermissionOf(1) == 1
    ensures forall bintype :: bintype >= 2 ==> PermissionOf(bintype) == 1 + 2
    ensures forall nso, base :: var w := Wanted(nso, base);
      |w| == 3 && w[0].permission == 1 + 4 && w[1].permission == 1 && w[2].permission == 1 + 2
  {
  }

  /** What `SetProcessMemory` recomputes for the next image. */
  function NextSegment(image: Placed, bss: seq<nat>, bintype: nat): Segment {
    var permission := PermissionOf(bintype);
    var bsssize := if permission == DATA && bss != [] then bss[0] else 0;
    Segment(image.offset, PageUp(|image.content| + bsssize), permission, image.content, bsssize)
  }

  function Segments(images: seq<Placed>, bss: seq<nat>, bintype: nat): seq<Segment>
    decreases |images|
  {
    if images == [] then []
    else
      var segment := NextSegment(images[0], bss, bintype);
      [segment] + if segment.bss == 0 then Segments(images[1..], bss, bintype + 1)
                  else Segments(images[1..], bss[1..], 0)
  }

  /** What the module asks for: its sections adjacent, with their own permissions. */
  function Wanted(nso: Nso, base: nat): seq<Segment> {
    [Segment(base, PageUp(|nso.text|), TEXT, nso.text, 0),
     Segment(RoOffset(nso, base), PageUp(|nso.ro|), RO, nso.ro, 0),
     Segment(DataOffset(nso, base), PageUp(|nso.data| + nso.bss), DATA, nso.data, nso.bss)]
  }

  function WantedAll(modules: seq<Nso>, base: nat): seq<Segment> {
    if modules == [] then [] else Wanted(modules[0], base) + WantedAll(modules[1..], EndOf(modules[0], base))
  }

  /** The sections of module `m` are the segments from `i` on, from offset `at`: each at the page-aligned end of the one
      before, the .bss behind the data. */
  ghost predicate SectionsAt(w: seq<Segment>, i: nat, m: Nso, at: nat) {
    && i + 2 < |w| && w[i] == Segment(at, PageUp(|m.text|), 5, m.text, 0)
    && w[i + 1] == Segment(at + w[i].size, PageUp(|m.ro|), 1, m.ro, 0)
    && w[i + 2] == Segment(at + w[i].size + w[i + 1].size, PageUp(|m.data| + m.bss), 3, m.data, m.bss)
  }

  /** Where the sections of module `k` go: behind those of the modules before it. */
  lemma {:induction false} SectionsByPosition(modules: seq<Nso>, base: nat, k: nat)
    requires k < |modules|
    ensures |WantedAll(modules, base)| == 3 * |modules|
    ensures SectionsAt(WantedAll(modules, base), 3 * k, modules[k], EndOfAll(modules[..k], base))
    decreases |modules|
  {
    hide PageUp, Wanted, WantedAll, EndOf, SectionsAt;
    WantedCount(modules, base);
    if k == 0 {
      WantedFirst(modules, base);
    } else {
      var rest, end := modules[1..], EndOf(modules[0], base);
      assert modules[..k][1..] == rest[..k - 1];
      SectionsByPosition(rest, end, k - 1);
      SectionsBehind(modules, base, 3 * (k - 1), rest[k - 1], EndOfAll(rest[..k - 1], end));
    }
  }

  lemma WantedFirst(modules: seq<Nso>, base: nat)
    requires modules != []
    ensures SectionsAt(WantedAll(modules, base), 0, modules[0], base)
  {
    hide PageUp;
  }

  lemma SectionsBehind(modules: seq<Nso>, base: nat, i: nat, m: Nso, at: nat)
    requires modules != [] && SectionsAt(WantedAll(modules[1..], EndOf(modules[0], base)), i, m, at)
    ensures SectionsAt(WantedAll(modules, base), i + 3, m, at)
  {
    hide PageUp, Wanted, WantedAll, EndOf;
    WantedBehind(modules, base, i);
    WantedBehind(modules, base, i + 1);
    WantedBehind(modules, base, i + 2);
  }

  /** ... and where those of the first `k` modules end. */
  lemma EndByPosition(modules: seq<Nso>, base: nat, k: nat)
    requires k < |modules|
    ensures EndOfAll(modules[..0], base) == base
    ensures var m := modules[k];
      EndOfAll(modules[..k + 1], base)
      == EndOfAll(modules[..k], base) + PageUp(|m.text|) + PageUp(|m.ro|) + PageUp(|m.data| + m.bss)
  {
    hide PageUp;
    assert modules[..k + 1] == modules[..k] + [modules[k]];
    CollectMore(modules[..k], modules[k], base);
  }

  lemma WantedBehind(modules: seq<Nso>, base: nat, i: nat)
    requires modules != [] && i < |WantedAll(modules[1..], EndOf(modules[0], base))|
    ensures i + 3 < |WantedAll(modules, base)|
    ensures WantedAll(modules, base)[i + 3] == WantedAll(modules[1..], EndOf(modules[0], base))[i]
  {
    hide PageUp;
  }

  lemma {:induction false} WantedCount(modules: seq<Nso>, base: nat)
    ensures |WantedAll(modules, base)| == 3 * |modules|
    decreases |modules|
  {
    hide PageUp;
    if modules != [] {
      WantedCount(modules[1..], EndOf(modules[0], base));
    }
  }

  lemma FirstSegment(first: Placed, rest: seq<Placed>, bss: seq<nat>, bintype: nat)
    ensures var segment := NextSegment(first, bss, bintype);
      Segments([first] + rest, bss, bintype)
        == [segment] + if segment.bss == 0 then Segments(rest, bss, bintype + 1) else Segments(rest, bss[1..], 0)
  {
    assert ([first] + rest)[1..] == rest;
  }

  lemma Triple<T>(x: T, y: T, z: T, rest: seq<T>)
    ensures [x, y, z] + rest == [x] + ([y] + ([z] + rest))
  {
  }

  lemma WantedIsNext(nso: Nso, base: nat, bss: seq<nat>)
    requires bss != [] && bss[0] == nso.bss
    ensures var images, wanted := PlacedFrom(nso, base), Wanted(nso, base);
      && NextSegment(images[0], bss, 0) == wanted[0] && NextSegment(images[1], bss, 1) == wanted[1]
      && NextSegment(images[2], bss, 2) == wanted[2] && wanted[0].bss == wanted[1].bss == 0 && wanted[2].bss == nso.bss
      && images == [images[0], images[1], images[2]] && wanted == [wanted[0], wanted[1], wanted[2]]
  {
  }

  lemma SegmentsOfModule(nso: Nso, base: nat, rest: seq<Placed>, bss: seq<nat>)
    ensures Segments(PlacedFrom(nso, base) + rest, [nso.bss] + bss, 0)
         == Wanted(nso, base) + if nso.bss > 0 then Segments(rest, bss, 0) else Segments(rest, [0] + bss, 3)
  {
    var all := [nso.bss] + bss;
    assert |PlacedFrom(nso, base)| == |Wanted(nso, base)| == 3 && all[1..] == bss && all[0] == nso.bss;
    hide *;
    var images, wanted := PlacedFrom(nso, base), Wanted(nso, base);
    WantedIsNext(nso, base, all);
    var tail := if nso.bss > 0 then Segments(rest, bss, 0) else Segments(rest, all, 3);
    Triple(images[0], images[1], images[2], rest);
    Triple(wanted[0], wanted[1], wanted[2], tail);
    FirstSegment(images[0], [images[1]] + ([images[2]] + rest), all, 0);
    FirstSegment(images[1], [images[2]] + rest, all, 1);
    FirstSegment(images[2], rest, all, 2);
  }

  /** Both computations give the same segments, with permissions cycling Text, Ro, Data, exactly when every
      module but the last has a .bss. */
  lemma {:induction false} SegmentsAgreeIff(modules: seq<Nso>, base: nat)
    ensures Segments(ImagesOf(modules, base), BssOf(modules), 0) == WantedAll(modules, base)
       <==> forall i :: 0 <= i < |modules| - 1 ==> modules[i].bss > 0
    decreases |modules|
  {
    if modules != [] {
      var first, rest, end := modules[0], modules[1..], EndOf(modules[0], base);
      SegmentsOfModule(first, base, ImagesOf(rest, end), BssOf(rest));
      SegmentsAgreeIff(rest, end);
      var tail := WantedAll(rest, end);
      assert (Wanted(first, base) + tail)[3..] == tail;
      if first.bss > 0 {
        var got := Segments(ImagesOf(rest, end), BssOf(rest), 0);
        assert (Wanted(first, base) + got)[3..] == got;
        assert forall i :: 0 <= i < |rest| ==> rest[i] == modules[i + 1];
      } else {
        var got := Segments(ImagesOf(rest, end), [0] + BssOf(rest), 3);
        assert (Wanted(first, base) + got)[3..] == got;
        if rest != [] {
          assert got[0].permission == DATA != tail[0].permission;
        }
      }
    }
  }

  // ---- the extents alone ------------------------------------------------------------------

  datatype Extent = Extent(offset: nat, size: nat)

  function ExtentsOf(segments: seq<Segment>): (r: seq<Extent>)
    ensures |r| == |segments|
  {
    seq(|segments|, i requires 0 <= i < |segments| => Extent(segments[i].offset, segments[i].size))
  }

  /** The extents of the images without any .bss. */
  function BareExtents(images: seq<Placed>): (r: seq<Extent>)
    ensures |r| == |images|
  {
    seq(|images|, i requires 0 <= i < |images| => Extent(images[i].offset, PageUp(|images[i].content|)))
  }

  lemma ExtentsOfConcat(a: seq<Segment>, b: seq<Segment>)
    ensures ExtentsOf(a + b) == ExtentsOf(a) + ExtentsOf(b)
  {
  }

  lemma BareExtentsOfConcat(a: seq<Placed>, b: seq<Placed>)
    ensures BareExtents(a + b) == BareExtents(a) + BareExtents(b)
  {
    hide PageUp;
  }

  /** Once an empty .bss heads the list, no later .bss is ever counted. */
  lemma {:induction false} StuckExtents(images: seq<Placed>, bss: seq<nat>, bintype: nat)
    requires bss != [] && bss[0] == 0 && bintype >= 2
    ensures ExtentsOf(Segments(images, bss, bintype)) == BareExtents(images)
    decreases |images|
  {
    hide PageUp;
    if images != [] {
      StuckExtents(images[1..], bss, bintype + 1);
      var first := NextSegment(images[0], bss, bintype);
      ExtentsOfConcat([first], Segments(images[1..], bss, bintype + 1));
      BareExtentsOfConcat([images[0]], images[1..]);
      assert images == [images[0]] + images[1..];
    }
  }

  /** The .bss of the module fits the last page of its data. */
  predicate BssFits(nso: Nso) {
    PageUp(|nso.data|) == PageUp(|nso.data| + nso.bss)
  }

  lemma BareModule(nso: Nso, base: nat)
    ensures BareExtents(PlacedFrom(nso, base)) == ExtentsOf(Wanted(nso, base)) <==> BssFits(nso)
    ensures |BareExtents(PlacedFrom(nso, base))| == |ExtentsOf(Wanted(nso, base))| == 3
  {
    hide PageUp;
    var bare, wanted := BareExtents(PlacedFrom(nso, base)), ExtentsOf(Wanted(nso, base));
    assert bare == [bare[0], bare[1], bare[2]] && wanted == [wanted[0], wanted[1], wanted[2]];
    assert bare[2].size == PageUp(|nso.data|) && wanted[2].size == PageUp(|nso.data| + nso.bss);
  }

  lemma {:induction false} BareModules(modules: seq<Nso>, base: nat)
    ensures BareExtents(ImagesOf(modules, base)) == ExtentsOf(WantedAll(modules, base))
       <==> forall j :: 0 <= j < |modules| ==> BssFits(modules[j])
    decreases |modules|
  {
    hide BareExtents, ExtentsOf, PlacedFrom, Wanted, EndOf, BssFits;
    if modules != [] {
      var first, rest, end := modules[0], modules[1..], EndOf(modules[0], base);
      BareModule(first, base);
      BareModules(rest, end);
      BareExtentsOfConcat(PlacedFrom(first, base), ImagesOf(rest, end));
      ExtentsOfConcat(Wanted(first, base), WantedAll(rest, end));
      PartsEqual(BareExtents(PlacedFrom(first, base)), BareExtents(ImagesOf(rest, end)),
        ExtentsOf(Wanted(first, base)), ExtentsOf(WantedAll(rest, end)));
      assert forall j :: 0 <= j < |rest| ==> rest[j] == modules[j + 1];
    } else {
      NoExtents();
    }
  }

  lemma NoExtents()
    ensures BareExtents([]) == [] == ExtentsOf([])
  {
  }

  lemma PartsEqual(a: seq<Extent>, b: seq<Extent>, c: seq<Extent>, d: seq<Extent>)
    requires |a| == |c|
    ensures a + b == c + d <==> a == c && b == d
  {
    if a + b == c + d {
      assert (a + b)[..|a|] == a && (c + d)[..|c|] == c;
      assert (a + b)[|a|..] == b && (c + d)[|c|..] == d;
    }
  }

  /** The extents alone agree exactly when, behind a module without a .bss, every .bss fits the last page of its
      data. */
  lemma {:induction false} ExtentsAgreeIff(modules: seq<Nso>, base: nat)
    ensures ExtentsOf(Segments(ImagesOf(modules, base), BssOf(modules), 0)) == ExtentsOf(WantedAll(modules, base))
       <==> forall i, j :: 0 <= i < j < |modules| && modules[i].bss == 0 ==> BssFits(modules[j])
    decreases |modules|
  {
    hide BareExtents, ExtentsOf, PlacedFrom, Wanted, EndOf, BssFits, Segments;
    if modules == [] {
      NoSegments();
    } else {
      var first, rest, end := modules[0], modules[1..], EndOf(modules[0], base);
      var images, bss, wanted := ImagesOf(rest, end), BssOf(rest), Wanted(first, base);
      SegmentsOfModule(first, base, images, bss);
      var got := if first.bss > 0 then Segments(images, bss, 0) else Segments(images, [0] + bss, 3);
      ExtentsOfConcat(wanted, got);
      ExtentsOfConcat(wanted, WantedAll(rest, end));
      PartsEqual(ExtentsOf(wanted), ExtentsOf(got), ExtentsOf(wanted), ExtentsOf(WantedAll(rest, end)));
      assert forall j :: 0 <= j < |rest| ==> rest[j] == modules[j + 1];
      if first.bss > 0 {
        ExtentsAgreeIff(rest, end);
        LaterModules(modules);
      } else {
        StuckExtents(images, [0] + bss, 3);
        BareModules(rest, end);
        AllLaterModules(modules);
      }
    }
  }

  lemma NoSegments()
    ensures Segments([], [], 0) == []
  {
  }

  ghost predicate LaterFit(modules: seq<Nso>) {
    forall i, j :: 0 <= i < j < |modules| && modules[i].bss == 0 ==> BssFits(modules[j])
  }

  lemma LaterModules(modules: seq<Nso>)
    requires modules != [] && modules[0].bss > 0
    ensures LaterFit(modules) <==> LaterFit(modules[1..])
  {
    hide BssFits;
    var rest := modules[1..];
    if LaterFit(rest) {
      forall i, j | 0 <= i < j < |modules| && modules[i].bss == 0 ensures BssFits(modules[j]) {
        assert rest[i - 1] == modules[i] && rest[j - 1] == modules[j];
      }
    }
    if LaterFit(modules) {
      forall i, j | 0 <= i < j < |rest| && rest[i].bss == 0 ensures BssFits(rest[j]) {
        assert rest[i] == modules[i + 1] && rest[j] == modules[j + 1];
      }
    }
  }

  lemma AllLaterModules(modules: seq<Nso>)
    requires modules != [] && modules[0].bss == 0
    ensures LaterFit(modules) <==> forall j :: 0 <= j < |modules[1..]| ==> BssFits(modules[1..][j])
  {
    hide BssFits;
    var rest := modules[1..];
    if LaterFit(modules) {
      forall j | 0 <= j < |rest| ensures BssFits(rest[j]) {
        assert rest[j] == modules[j + 1];
      }
    }
    if forall j :: 0 <= j < |rest| ==> BssFits(rest[j]) {
      forall i, j | 0 <= i < j < |modules| && modules[i].bss == 0 ensures BssFits(modules[j]) {
        assert rest[j - 1] == modules[j];
      }
    }
  }

  /** Behind a module without a .bss, one byte of .bss and no data come out a page too short. */
  lemma BssLostBehindEmptyOne()
    ensures var modules := [Nso([], [], [], 0), Nso([], [], [], 1)];
      ExtentsOf(Segments(ImagesOf(modules, 0), BssOf(modules), 0)) != ExtentsOf(WantedAll(modules, 0))
  {
    hide Segments, ImagesOf, BssOf, WantedAll;
    var modules := [Nso([], [], [], 0), Nso([], [], [], 1)];
    ExtentsAgreeIff(modules, 0);
    assert modules[0].bss == 0 && !BssFits(modules[1]);
  }

  /** Two modules without a .bss: the second one's text is mapped as data, at the extent it was placed at. */
  lemma SecondModuleWithoutBss(text: seq<byte>)
    ensures var modules := [Nso(text, [], [], 0), Nso(text, [], [], 0)];
      && Segments(ImagesOf(modules, 0), BssOf(modules), 0) != WantedAll(modules, 0)
      && ExtentsOf(Segments(ImagesOf(modules, 0), BssOf(modules), 0)) == ExtentsOf(WantedAll(modules, 0))
  {
    hide Segments, ImagesOf, BssOf, WantedAll, ExtentsOf;
    var modules := [Nso(text, [], [], 0), Nso(text, [], [], 0)];
    SegmentsAgreeIff(modules, 0);
    ExtentsAgreeIff(modules, 0);
    assert modules[0].bss == 0 && BssFits(modules[1]);
  }
}
