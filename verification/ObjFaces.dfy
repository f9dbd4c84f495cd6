/**
 gcode_viewer/js/OBJLoader.js: what the faces of a file become. The numbers of the `v`, `vn` and `vt` lines read so far
 are lists of entries; a face is a fan of triangles whose corners are entries of these lists.
 */
module ObjFaces {
  import opened Options
  import opened ObjParser

  datatype Kind = Coordinates | Normals | TexCoords | Colors

  function Width(kind: Kind): nat { if kind == TexCoords then 2 else 3 }

  /** What one line adds to a list. */
  function Entry(line: Line, kind: Kind): Option<seq<real>> {
    match line
    case Vertex(x, y, z, color) =>
      if kind == Coordinates then Some([x, y, z]) else if kind == Colors && |color| == 3 then Some(color) else None
    case Normal(x, y, z) => if kind == Normals then Some([x, y, z]) else None
    case TexCoord(u, v) => if kind == TexCoords then Some([u, v]) else None
    case _ => None
  }

  function Entries(lines: seq<Line>, kind: Kind): (entries: seq<seq<real>>)
    ensures forall e <- entries :: |e| == Width(kind)
  {
    if lines == [] then []
    else
      var before, e := Entries(lines[..|lines| - 1], kind), Entry(lines[|lines| - 1], kind);
      if e.Some? then before + [e.value] else before
  }

  /** The entry a reference names, counted from 1 or, with a negative number, from the end; otherwise undefined. */
  function Corner(entries: seq<seq<real>>, r: Reference, width: nat): seq<Option<real>>
    requires forall e <- entries :: |e| == width
  {
    var n := |entries|;
    if r.Number? && 1 <= r.k <= n then Known(entries[r.k - 1])
    else if r.Number? && -n <= r.k <= -1 then Known(entries[n + r.k])
    else seq(width, _ => None)
  }

  function Known(entry: seq<real>): seq<Option<real>> {
    seq(|entry|, i requires 0 <= i < |entry| => Some(entry[i]))
  }

  /** Triangle j of a polygon has the corners 0, j and j + 1. */
  function Fan(entries: seq<seq<real>>, refs: seq<Reference>, width: nat, j: nat): seq<Option<real>>
    requires (forall e <- entries :: |e| == width) && (j == 0 || j + 1 < |refs|)
  {
    if j == 0 then []
    else
      Fan(entries, refs, width, j - 1)
      + (Corner(entries, refs[0], width) + Corner(entries, refs[j], width) + Corner(entries, refs[j + 1], width))
  }

  // ---------------------------------------------------------------- lists of entries as flat arrays

  function Flat(entries: seq<seq<real>>): seq<real> {
    if entries == [] then [] else Flat(entries[..|entries| - 1]) + entries[|entries| - 1]
  }

  lemma {:induction false} FlatEntry(entries: seq<seq<real>>, width: nat, i: nat, at: nat)
    requires (forall e <- entries :: |e| == width) && i < |entries| && at == width * i
    ensures at + width <= |Flat(entries)| && Flat(entries)[at..at + width] == entries[i]
    decreases |entries|
  {
    var n := |entries| - 1;
    var front := entries[..n];
    assert Flat(entries) == Flat(front) + entries[n] && entries[n] in entries;
    if i < n {
      FlatEntry(front, width, i, at);
      assert Flat(entries)[at..at + width] == Flat(front)[at..at + width];
    } else {
      FlatLength(front, width);
    }
  }

  lemma OneMoreTime(width: nat, n: nat)
    ensures width * (n + 1) == width * n + width
  {
  }

  lemma {:induction false} FlatLength(entries: seq<seq<real>>, width: nat)
    requires forall e <- entries :: |e| == width
    ensures |Flat(entries)| == width * |entries|
  {
    if entries != [] {
      var n := |entries| - 1;
      var last := entries[n];
      assert Flat(entries) == Flat(entries[..n]) + last && last in entries;
      hide Flat;
      FlatLength(entries[..n], width);
      OneMoreTime(width, n);
    }
  }

  /** Reading through an index of the flat array is naming a corner of the list. */
  lemma GatheredIsCorner(entries: seq<seq<real>>, r: Reference, width: nat)
    requires (width == 2 || width == 3) && forall e <- entries :: |e| == width
    ensures Gather(Flat(entries), Index(r, |Flat(entries)|, width), width) == Corner(entries, r, width)
  {
    var n := |entries|;
    FlatLength(entries, width);
    IndexIsEntry(r, n, width);
    hide Flat, Index, Known, Gather;
    if r.Number? && 1 <= r.k <= n {
      EntryIsGathered(entries, width, r.k - 1, width * (r.k - 1));
    } else if r.Number? && -n <= r.k <= -1 {
      EntryIsGathered(entries, width, n + r.k, width * (n + r.k));
    } else {
      NothingIsGathered(Flat(entries), Index(r, |Flat(entries)|, width), width);
    }
  }

  lemma EntryIsGathered(entries: seq<seq<real>>, width: nat, p: nat, at: nat)
    requires (forall e <- entries :: |e| == width) && p < |entries| && at == width * p
    ensures Gather(Flat(entries), Some(at), width) == Known(entries[p])
  {
    hide Flat, Gather, Known;
    FlatEntry(entries, width, p, at);
    EntryIsRead(Flat(entries), at, width, entries[p]);
  }

  lemma NothingIsGathered(flat: seq<real>, i: Option<int>, width: nat)
    requires i.None? || i.value + width <= 0 || i.value >= |flat|
    ensures Gather(flat, i, width) == seq(width, _ => None)
  {
  }

  lemma IndexIsEntry(r: Reference, n: nat, width: nat)
    requires width == 2 || width == 3
    ensures var i, m: int := Index(r, width * n, width), n;
      if !r.Number? then i == None
      else if 1 <= r.k <= n then i.Some? && i.value == width * (r.k - 1)
      else if -m <= r.k <= -1 then i.Some? && i.value == width * (m + r.k)
      else i.Some? && (i.value + width <= 0 || i.value >= width * n)
  {
    assert (width * n) / width == n;
    if width == 2 {
      assert r.Number? && r.k >= 0 ==> Index(r, width * n, width) == Some(2 * (r.k - 1));
    } else {
      assert r.Number? && r.k >= 0 ==> Index(r, width * n, width) == Some(3 * (r.k - 1));
    }
  }

  lemma EntryIsRead(flat: seq<real>, at: nat, width: nat, entry: seq<real>)
    requires at + width <= |flat| && flat[at..at + width] == entry
    ensures Gather(flat, Some(at), width) == Known(entry)
  {
    assert forall k :: 0 <= k < width ==> entry[k] == flat[at + k];
  }

  /** The arrays of the parser are the lists of the lines read. */
  lemma {:induction false} SourceHoldsEntries(lines: seq<Line>)
    ensures var s := Run(lines).source;
      && s.vertices == Flat(Entries(lines, Coordinates)) && s.normals == Flat(Entries(lines, Normals))
      && s.uvs == Flat(Entries(lines, TexCoords)) && s.colors == Flat(Entries(lines, Colors))
  {
    if lines != [] {
      var n := |lines| - 1;
      SourceHoldsEntries(lines[..n]);
      LineAddsEntries(Run(lines[..n]), lines[n]);
      OneMore(lines, Coordinates);
      OneMore(lines, Normals);
      OneMore(lines, TexCoords);
      OneMore(lines, Colors);
      hide Step, Entry, Entries, Flat;
    }
  }

  function Added(line: Line, kind: Kind): seq<real> {
    if Entry(line, kind).Some? then Entry(line, kind).value else []
  }

  lemma OneMore(lines: seq<Line>, kind: Kind)
    requires lines != []
    ensures var n := |lines| - 1;
      Flat(Entries(lines, kind)) == Flat(Entries(lines[..n], kind)) + Added(lines[n], kind)
  {
    var n := |lines| - 1;
    var before, e := Entries(lines[..n], kind), Entry(lines[n], kind);
    hide Entry;
    if e.Some? {
      assert (before + [e.value])[..|before|] == before;
    } else {
      assert Flat(before) + [] == Flat(before);
    }
  }

  lemma LineAddsEntries(s: State, line: Line)
    requires s.objects != []
    ensures var after := Step(s, line).source;
      && after.vertices == s.source.vertices + Added(line, Coordinates)
      && after.normals == s.source.normals + Added(line, Normals)
      && after.uvs == s.source.uvs + Added(line, TexCoords)
      && after.colors == s.source.colors + Added(line, Colors)
  {
    hide Finalized, StartMaterial, AddFan, AddPoints, SetSmooth, CurrentMaterial, Inherited;
  }

  // ---------------------------------------------------------------- faces

  function Refs(face: seq<FaceVertex>, kind: Kind): seq<Reference> {
    seq(|face|, i requires 0 <= i < |face| => RefOf(face[i], kind))
  }

  lemma ThreeCorners(entries: seq<seq<real>>, src: seq<real>, a: Reference, b: Reference, c: Reference, width: nat)
    requires (width == 2 || width == 3) && (forall e <- entries :: |e| == width) && src == Flat(entries)
    ensures GatherThree(src, Index(a, |src|, width), Index(b, |src|, width), Index(c, |src|, width), width)
         == Corner(entries, a, width) + Corner(entries, b, width) + Corner(entries, c, width)
  {
    GatheredIsCorner(entries, a, width);
    GatheredIsCorner(entries, b, width);
    GatheredIsCorner(entries, c, width);
    hide Gather, Index, Corner, Flat;
  }

  function ArrayIn(s: Source, kind: Kind): seq<real> {
    match kind case Coordinates => s.vertices case Normals => s.normals case TexCoords => s.uvs case Colors => s.colors
  }

  function ArrayOf(o: Obj, kind: Kind): seq<Option<real>> {
    match kind case Coordinates => o.vertices case Normals => o.normals case TexCoords => o.uvs case Colors => o.colors
  }

  /** Normals and texture coordinates are drawn if the first corner names one, colours if there are any. */
  predicate Names(s: Source, first: FaceVertex, kind: Kind) {
    match kind
    case Coordinates => true
    case Normals => first.n != Absent
    case TexCoords => first.uv != Absent
    case Colors => s.colors != []
  }

  /** The colour of a corner is looked up like its vertex on a plain face, if every vertex has a colour. */
  predicate LooksUp(s: Source, first: FaceVertex, kind: Kind) {
    kind == Colors ==> first.uv == Absent && first.n == Absent && (s.colors == [] || |s.colors| == |s.vertices|)
  }

  function RefOf(w: FaceVertex, kind: Kind): Reference {
    match kind case Coordinates => w.v case Normals => w.n case TexCoords => w.uv case Colors => w.v
  }

  lemma TriangleIsAdded(o: Obj, s: Source, a: FaceVertex, b: FaceVertex, c: FaceVertex, kind: Kind)
    requires LooksUp(s, a, kind)
    ensures var src, w := ArrayIn(s, kind), Width(kind);
      ArrayOf(AddFace(o, s, a, b, c), kind) == ArrayOf(o, kind) +
        if Names(s, a, kind) then
          GatherThree(src, Index(RefOf(a, kind), |src|, w), Index(RefOf(b, kind), |src|, w),
                      Index(RefOf(c, kind), |src|, w), w)
        else []
  {
    hide GatherThree, Index;
    assert ArrayOf(o, kind) + [] == ArrayOf(o, kind);
  }

  lemma {:induction false} FanIsDrawn(o: Obj, s: Source, face: seq<FaceVertex>, j: nat, kind: Kind,
                                      entries: seq<seq<real>>)
    requires |face| > 0 && (j == 0 || j + 1 < |face|) && LooksUp(s, face[0], kind)
    requires (forall e <- entries :: |e| == Width(kind)) && ArrayIn(s, kind) == Flat(entries)
    ensures ArrayOf(AddFan(o, s, face, j), kind) == ArrayOf(o, kind) +
      if Names(s, face[0], kind) then Fan(entries, Refs(face, kind), Width(kind), j) else []
  {
    hide Corner, Flat, AddFace, ArrayIn, ArrayOf, Names, LooksUp, GatherThree, Index, RefOf;
    var refs, named, width := Refs(face, kind), Names(s, face[0], kind), Width(kind);
    assert |refs| == |face| && (width == 2 || width == 3);
    hide Width;
    if j == 0 {
      assert AddFan(o, s, face, j) == o && Fan(entries, refs, width, j) == [];
      assert ArrayOf(o, kind) + [] == ArrayOf(o, kind);
    } else {
      assert refs[0] == RefOf(face[0], kind) && refs[j] == RefOf(face[j], kind);
      assert refs[j + 1] == RefOf(face[j + 1], kind);
      hide Refs;
      var q, p := AddFan(o, s, face, j - 1), AddFan(o, s, face, j);
      assert p == AddFace(q, s, face[0], face[j], face[j + 1]);
      hide AddFan;
      FanIsDrawn(o, s, face, j - 1, kind, entries);
      TriangleIsAdded(q, s, face[0], face[j], face[j + 1], kind);
      ThreeCorners(entries, Flat(entries), refs[0], refs[j], refs[j + 1], width);
      var corners := Corner(entries, refs[0], width) + Corner(entries, refs[j], width)
                     + Corner(entries, refs[j + 1], width);
      assert Fan(entries, refs, width, j) == Fan(entries, refs, width, j - 1) + corners;
      hide Fan;
      Associates(ArrayOf(o, kind), if named then Fan(entries, refs, width, j - 1) else [],
                 if named then corners else []);
    }
  }

  lemma Associates(a: seq<Option<real>>, b: seq<Option<real>>, c: seq<Option<real>>)
    ensures (a + b) + c == a + (b + c) && a + [] == a && [] + c == c
  {
  }

  /**
   A polygon of a file becomes the triangles of its fan: their corners are the entries that its references name among
   the `v`, `vn` and `vt` lines before it. On a plain face colours follow the vertices, if all vertices have one.
   */
  lemma FaceIsTriangulated(lines: seq<Line>, face: seq<FaceVertex>, kind: Kind)
    requires |face| >= 3
    requires kind == Colors ==>
               face[0].uv == face[0].n == Absent
               && |Entries(lines, Colors)| in [0, |Entries(lines, Coordinates)|]
    ensures var drawn := match kind
        case Coordinates => true
        case Normals => face[0].n != Absent
        case TexCoords => face[0].uv != Absent
        case Colors => Entries(lines, Colors) != [];
      ArrayOf(Last(Run(lines + [Face(face)])), kind) == ArrayOf(Last(Run(lines)), kind) +
        if drawn then Fan(Entries(lines, kind), Refs(face, kind), Width(kind), |face| - 2) else []
  {
    hide Run, AddFan, Fan, Refs, Entries, Flat, ArrayOf, ArrayIn, LooksUp;
    var o, s := Last(Run(lines)), Run(lines).source;
    FaceStep(lines, face);
    SourceLooksUp(lines, face[0], kind);
    FanIsDrawn(o, s, face, |face| - 2, kind, Entries(lines, kind));
  }

  lemma SourceLooksUp(lines: seq<Line>, first: FaceVertex, kind: Kind)
    requires kind == Colors ==>
               first.uv == first.n == Absent && |Entries(lines, Colors)| in [0, |Entries(lines, Coordinates)|]
    ensures var s := Run(lines).source;
      && ArrayIn(s, kind) == Flat(Entries(lines, kind)) && LooksUp(s, first, kind)
      && (kind == Colors ==> (Names(s, first, kind) <==> Entries(lines, Colors) != []))
  {
    hide Run, Entries, Flat;
    SourceHoldsEntries(lines);
    FlatLength(Entries(lines, Colors), 3);
    FlatLength(Entries(lines, Coordinates), 3);
  }

  lemma OneMoreLine(lines: seq<Line>, line: Line)
    ensures Run(lines + [line]) == Step(Run(lines), line)
  {
    var all := lines + [line];
    assert all[..|lines|] == lines && all[|lines|] == line;
    hide Step;
  }

  lemma FaceStep(lines: seq<Line>, face: seq<FaceVertex>)
    requires |face| >= 3
    ensures Last(Run(lines + [Face(face)])) == AddFan(Last(Run(lines)), Run(lines).source, face, |face| - 2)
  {
    hide Run, AddFan;
    OneMoreLine(lines, Face(face));
  }

  /** The entries that the references of a `p` line name. */
  function Spots(entries: seq<seq<real>>, refs: seq<Reference>): seq<Option<real>>
    requires forall e <- entries :: |e| == 3
  {
    if refs == [] then []
    else Spots(entries, refs[..|refs| - 1]) + Corner(entries, refs[|refs| - 1], 3)
  }

  lemma {:induction false} PointsAreDrawn(o: Obj, s: Source, refs: seq<Reference>, entries: seq<seq<real>>)
    requires (forall e <- entries :: |e| == 3) && s.vertices == Flat(entries)
    ensures AddPoints(o, s, refs) == o.(vertices := o.vertices + Spots(entries, refs))
    decreases |refs|
  {
    hide Corner, Flat, Gather, Index;
    if refs == [] {
      assert o.vertices + [] == o.vertices;
    } else {
      var front, last := refs[..|refs| - 1], refs[|refs| - 1];
      PointsAreDrawn(o, s, front, entries);
      GatheredIsCorner(entries, last, 3);
      Associates(o.vertices, Spots(entries, front), Corner(entries, last, 3));
    }
  }

  lemma PointsOfAFile(lines: seq<Line>, refs: seq<Reference>)
    ensures Last(Run(lines + [Points(refs)])).vertices
         == Last(Run(lines)).vertices + Spots(Entries(lines, Coordinates), refs)
  {
    hide Run, Entries, Flat, AddPoints, Spots;
    OneMoreLine(lines, Points(refs));
    SourceHoldsEntries(lines);
    PointsAreDrawn(Last(Run(lines)), Run(lines).source, refs, Entries(lines, Coordinates));
  }

  // ---------------------------------------------------------------- what a new group takes over

  /** The last `mtllib`. */
  function LastLibrary(lines: seq<Line>): string {
    if lines == [] then ""
    else
      var last := lines[|lines| - 1];
      if last.MtlLib? then last.name else LastLibrary(lines[..|lines| - 1])
  }

  /** The library in force at the last `usemtl`. */
  function UsedLibrary(lines: seq<Line>): string {
    if lines == [] then ""
    else
      var before := lines[..|lines| - 1];
      if lines[|lines| - 1].UseMtl? then LastLibrary(before) else UsedLibrary(before)
  }

  /** The last `s` line decides; a new object without a material to inherit starts smooth. */
  function Shading(lines: seq<Line>): bool {
    if lines == [] then true
    else
      var before, last := lines[..|lines| - 1], lines[|lines| - 1];
      if last.Smooth? then last.on
      else if last.ObjectLine? && Declared(before) && InForce(before) == "" then true
      else Shading(before)
  }

  /** The open group is shaded like this and has this library; before the first one only the object is shaded. */
  predicate Shaded(o: Obj, on: bool, library: string) {
    if o.materials == [] then o.smooth == on
    else
      var m := o.materials[|o.materials| - 1];
      m.Material? && m.smooth == on && m.mtllib == library
  }

  lemma ObjectTakesShading(s: State, name: string, on: bool, library: string, inForce: string)
    requires s.objects != [] && Open(Last(s)) && Carries(Last(s), inForce) && Shaded(Last(s), on, library)
    ensures Shaded(Last(StartObject(s, name)), if Last(s).fromDeclaration && inForce == "" then true else on, library)
  {
    hide Finalized, Open;
  }

  lemma StepShades(s: State, line: Line, on: bool, library: string, inForce: string, declared: bool)
    requires s.objects != [] && Open(Last(s)) && Carries(Last(s), inForce) && Shaded(Last(s), on, library)
    requires Last(s).fromDeclaration == declared
    ensures Shaded(Last(Step(s, line)), if line.Smooth? then line.on
                                        else if line.ObjectLine? && declared && inForce == "" then true else on,
                   if !line.UseMtl? then library
                   else if s.source.libraries == [] then "" else s.source.libraries[|s.source.libraries| - 1])
  {
    hide Finalized, Open, AddFan, AddPoints;
    hide StartMaterial, KeptMaterials, StartObject;
    var o := Last(s);
    match line
    case UseMtl(name) => StartMaterialAppends(o, name, s.source.libraries);
    case Face(face) => FanGrows(o, s.source, face, Triangles(face));
    case Points(refs) => PointsGrow(o, s.source, refs);
    case ObjectLine(name) => ObjectTakesShading(s, name, on, library, inForce);
    case _ =>
  }

  lemma {:induction false} ShadingIsInForce(lines: seq<Line>)
    ensures Open(Last(Run(lines))) && Shaded(Last(Run(lines)), Shading(lines), UsedLibrary(lines))
  {
    hide Step, Tiled, Fits, InForce, Paints;
    RunKeepsInv(lines);
    if lines != [] {
      hide Open, Carries, Shaded;
      var before, line := lines[..|lines| - 1], lines[|lines| - 1];
      assert Run(lines) == Step(Run(before), line);
      hide Run;
      ShadingIsInForce(before);
      LibrariesAreRead(before);
      RunKeepsInv(before);
      StepShades(Run(before), line, Shading(before), UsedLibrary(before), InForce(before), Declared(before));
    }
  }

  lemma {:induction false} LibrariesAreRead(lines: seq<Line>)
    ensures var libraries := Run(lines).source.libraries;
      (if libraries == [] then "" else libraries[|libraries| - 1]) == LastLibrary(lines)
  {
    if lines != [] {
      LibrariesAreRead(lines[..|lines| - 1]);
      hide AddFan, AddPoints, StartObject, StartMaterial, SetSmooth;
    }
  }

  /**
   At any point of any file: the group a `usemtl` opens has the name, the last `mtllib`, and the shading in force, which
   the last `s` line set unless an object without an inherited material began after it.
   */
  lemma NewGroupTakesOver(lines: seq<Line>, name: string)
    ensures var o := Last(Run(lines + [UseMtl(name)]));
      && o.materials != []
      && var m := o.materials[|o.materials| - 1];
        m.Material? && m.name == name && m.mtllib == LastLibrary(lines) && m.smooth == Shading(lines)
  {
    hide Run, Open, Shading, LastLibrary, UsedLibrary, StartMaterial, KeptMaterials;
    OneMoreLine(lines, UseMtl(name));
    ShadingIsInForce(lines);
    LibrariesAreRead(lines);
    StartMaterialAppends(Last(Run(lines)), name, Run(lines).source.libraries);
  }

  /**
   An `o` or `g` line after the first one begins an object without vertices. A material in force goes over to it, with
   the library it was used from and the shading, as a single group that takes the vertices from the first on.
   */
  lemma ObjectInheritsMaterial(lines: seq<Line>, name: string)
    requires Declared(lines)
    ensures var before, after := Run(lines), Run(lines + [ObjectLine(name)]);
      && |after.objects| == |before.objects| + 1
      && Last(after) == Obj(name, true, [], [], [], [],
           if InForce(lines) == "" then []
           else [Material(0, InForce(lines), UsedLibrary(lines), Shading(lines), 0, -1, -1, true)], true)
  {
    hide Run, Open, Tiled, Fits, Shading, UsedLibrary, Finalized, InForce, Paints, Declared;
    OneMoreLine(lines, ObjectLine(name));
    RunKeepsInv(lines);
    ShadingIsInForce(lines);
  }

  /** The first such line names the object everything before it went to. */
  lemma FirstObjectIsNamed(lines: seq<Line>, name: string)
    requires !Declared(lines)
    ensures var before, after := Run(lines), Run(lines + [ObjectLine(name)]);
      && |after.objects| == |before.objects|
      && Last(after) == Last(before).(name := name, fromDeclaration := true)
  {
    hide Run, Open, Tiled, Fits, InForce, Paints, Declared;
    OneMoreLine(lines, ObjectLine(name));
    RunKeepsInv(lines);
  }
}
