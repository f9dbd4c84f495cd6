/**
 gcode_viewer/js/OBJLoader.js, `ParserState`: faces, `usemtl` and `o`/`g` lines turned into objects whose material
 groups share out the vertices.
 */
module ObjParser {

  import opened Options

  // ---------------------------------------------------------------- index references

  /** One number of a face vertex: missing or empty, not a number, or an integer. */
  datatype Reference = Absent | NotANumber | Number(k: int)

  datatype FaceVertex = FaceVertex(v: Reference, uv: Reference, n: Reference)

  /** `parseVertexIndex`, `parseNormalIndex` (stride 3) and `parseUVIndex` (stride 2); `None` is NaN. */
  function Index(r: Reference, len: nat, stride: nat): Option<int>
    requires stride == 2 || stride == 3
  {
    if !r.Number? then None
    else Some((if r.k >= 0 then r.k - 1 else r.k + len / stride) * stride)
  }

  /** Reading an array outside its bounds gives undefined. */
  function Read(src: seq<real>, i: Option<int>, offset: nat): Option<real> {
    if i.Some? && 0 <= i.value + offset < |src| then Some(src[i.value + offset]) else None
  }

  function Gather(src: seq<real>, i: Option<int>, stride: nat): seq<Option<real>> {
    seq(stride, k requires 0 <= k < stride => Read(src, i, k))
  }

  /** An index is usable exactly for 1..n and -n..-1, and a negative one counts from the end. */
  lemma IndexIsUsableExactlyWhen(src: seq<real>, k: int, stride: nat)
    requires (stride == 2 || stride == 3) && |src| % stride == 0
    ensures var n := |src| / stride;
      && ((forall v <- Gather(src, Index(Number(k), |src|, stride), stride) :: v.Some?)
          <==> 1 <= k <= n || -n <= k <= -1)
      && (-n <= k <= -1 ==> Index(Number(k), |src|, stride) == Index(Number(n + k + 1), |src|, stride))
  {
    var n := |src| / stride;
    var i := Index(Number(k), |src|, stride);
    var got := Gather(src, i, stride);
    assert |src| == n * stride;
    assert got[0] == Read(src, i, 0);
    assert got[0] in got;
    forall v | v in got && (1 <= k <= n || -n <= k <= -1)
      ensures v.Some?
    {
      var o :| 0 <= o < |got| && got[o] == v;
    }
  }

  // ---------------------------------------------------------------- the entities

  /** A material of an object; `groupEnd == -1` while it is open. `Placeholder` is the one pushed for a bare object. */
  datatype Material =
    | Material(index: nat, name: string, mtllib: string, smooth: bool, groupStart: int, groupEnd: int, groupCount: int,
               inherited: bool)
    | Placeholder(smooth: bool)

  datatype Obj = Obj(name: string, fromDeclaration: bool, vertices: seq<Option<real>>, normals: seq<Option<real>>,
                     colors: seq<Option<real>>, uvs: seq<Option<real>>, materials: seq<Material>, smooth: bool)

  datatype Source = Source(vertices: seq<real>, normals: seq<real>, colors: seq<real>, uvs: seq<real>,
                           libraries: seq<string>)

  /** The object being filled is the last one. */
  datatype State = State(objects: seq<Obj>, source: Source)

  function Count(o: Obj): nat { |o.vertices| / 3 }

  function NewObj(name: string, fromDeclaration: bool): Obj {
    Obj(name, fromDeclaration, [], [], [], [], [], true)
  }

  const START := State([NewObj("", false)], Source([], [], [], [], []))

  // ---------------------------------------------------------------- materials

  function CurrentMaterial(o: Obj): Option<Material> {
    if o.materials == [] then None else Some(o.materials[|o.materials| - 1])
  }

  function Closed(m: Material, end: nat): Material {
    if m.Material? && m.groupEnd == -1 then
      m.(groupEnd := end, groupCount := end - m.groupStart, inherited := false)
    else m
  }

  function CloseLast(o: Obj): Obj {
    if o.materials == [] then o
    else
      var last := |o.materials| - 1;
      o.(materials := o.materials[last := Closed(o.materials[last], Count(o))])
  }

  function NonEmptyGroups(ms: seq<Material>): seq<Material> {
    if ms == [] then []
    else
      var last := ms[|ms| - 1];
      NonEmptyGroups(ms[..|ms| - 1]) + if last.Material? && last.groupCount <= 0 then [] else [last]
  }

  /** `_finalize( true )` */
  function Finalized(o: Obj): Obj {
    var c := CloseLast(o);
    var kept := if |c.materials| > 1 then NonEmptyGroups(c.materials) else c.materials;
    c.(materials := if kept == [] then [Placeholder(o.smooth)] else kept)
  }

  /** `startMaterial` splices out the group before it if that is inherited or empty. */
  function Spliced(materials: seq<Material>, previous: Option<Material>): seq<Material> {
    if previous.Some? && previous.value.Material? && (previous.value.inherited || previous.value.groupCount <= 0)
       && previous.value.index < |materials| then
      materials[..previous.value.index] + materials[previous.value.index + 1..]
    else materials
  }

  function Opened(index: nat, name: string, libraries: seq<string>, previous: Option<Material>, smooth: bool):
      Material {
    Material(index, name, if libraries == [] then "" else libraries[|libraries| - 1],
             if previous.Some? then previous.value.smooth else smooth,
             if previous.Some? && previous.value.Material? then previous.value.groupEnd else 0, -1, -1, false)
  }

  /** `startMaterial`, after `_finalize( false )` */
  function StartMaterial(o: Obj, name: string, libraries: seq<string>): Obj {
    var c := CloseLast(o);
    var previous := CurrentMaterial(c);
    var kept := Spliced(c.materials, previous);
    c.(materials := kept + [Opened(|kept|, name, libraries, previous, o.smooth)])
  }

  /** The inherited clone a new object starts with. */
  function Inherited(previous: Option<Material>): seq<Material> {
    if previous.Some? && previous.value.Material? && previous.value.name != "" then
      var m := previous.value;
      [Material(0, m.name, m.mtllib, m.smooth, 0, -1, -1, true)]
    else []
  }

  function Last(s: State): Obj
    requires s.objects != []
  {
    s.objects[|s.objects| - 1]
  }

  function WithLast(s: State, o: Obj): State
    requires s.objects != []
  {
    s.(objects := s.objects[|s.objects| - 1 := o])
  }

  function StartObject(s: State, name: string): State
    requires s.objects != []
  {
    var o := Last(s);
    if !o.fromDeclaration then WithLast(s, o.(name := name, fromDeclaration := true))
    else
      var t := WithLast(s, Finalized(o));
      t.(objects := t.objects + [NewObj(name, true).(materials := Inherited(CurrentMaterial(o)))])
  }

  // ---------------------------------------------------------------- geometry

  function GatherThree(src: seq<real>, a: Option<int>, b: Option<int>, c: Option<int>, stride: nat): seq<Option<real>> {
    Gather(src, a, stride) + Gather(src, b, stride) + Gather(src, c, stride)
  }

  /** The indices `addFace` ends up with; each kind of index overwrites the one before. */
  function ColorIndex(s: Source, first: FaceVertex, w: FaceVertex): Option<int> {
    if first.n != Absent then Index(w.n, |s.normals|, 3)
    else if first.uv != Absent then Index(w.uv, |s.uvs|, 2)
    else Index(w.v, |s.vertices|, 3)
  }

  function AddFace(o: Obj, s: Source, a: FaceVertex, b: FaceVertex, c: FaceVertex): Obj {
    var v, t, n := |s.vertices|, |s.uvs|, |s.normals|;
    o.(vertices := o.vertices + GatherThree(s.vertices, Index(a.v, v, 3), Index(b.v, v, 3), Index(c.v, v, 3), 3),
       uvs := if a.uv == Absent then o.uvs
              else o.uvs + GatherThree(s.uvs, Index(a.uv, t, 2), Index(b.uv, t, 2), Index(c.uv, t, 2), 2),
       normals := if a.n == Absent then o.normals
                  else o.normals + GatherThree(s.normals, Index(a.n, n, 3), Index(b.n, n, 3), Index(c.n, n, 3), 3),
       colors := if s.colors == [] then o.colors
                 else
                   o.colors + GatherThree(s.colors, ColorIndex(s, a, a), ColorIndex(s, a, b), ColorIndex(s, a, c), 3))
  }

  /** The fan of a polygon around its first vertex, up to triangle j. */
  function AddFan(o: Obj, s: Source, face: seq<FaceVertex>, j: nat): Obj
    requires j == 0 || j + 1 < |face|
  {
    if j == 0 then o else AddFace(AddFan(o, s, face, j - 1), s, face[0], face[j], face[j + 1])
  }

  function Triangles(face: seq<FaceVertex>): nat { if |face| < 3 then 0 else |face| - 2 }

  function AddPoints(o: Obj, s: Source, refs: seq<Reference>): Obj
    decreases |refs|
  {
    if refs == [] then o
    else
      var last := |refs| - 1;
      var p := AddPoints(o, s, refs[..last]);
      p.(vertices := p.vertices + Gather(s.vertices, Index(refs[last], |s.vertices|, 3), 3))
  }

  // ---------------------------------------------------------------- lines

  datatype Line =
    | Vertex(x: real, y: real, z: real, color: seq<real>)
    | Normal(x: real, y: real, z: real)
    | TexCoord(u: real, v: real)
    | Face(face: seq<FaceVertex>)
    | Points(refs: seq<Reference>)
    | ObjectLine(name: string)
    | UseMtl(name: string)
    | MtlLib(name: string)
    | Smooth(on: bool)

  function SetSmooth(o: Obj, on: bool): Obj {
    var p := o.(smooth := on);
    if o.materials == [] then p
    else
      var last := |o.materials| - 1;
      p.(materials := o.materials[last := o.materials[last].(smooth := on)])
  }

  function Step(s: State, line: Line): State
    requires s.objects != []
    ensures Step(s, line).objects != []
  {
    match line
    case Vertex(x, y, z, color) =>
      s.(source := s.source.(vertices := s.source.vertices + [x, y, z],
                             colors := if |color| == 3 then s.source.colors + color else s.source.colors))
    case Normal(x, y, z) => s.(source := s.source.(normals := s.source.normals + [x, y, z]))
    case TexCoord(u, v) => s.(source := s.source.(uvs := s.source.uvs + [u, v]))
    case Face(face) => WithLast(s, AddFan(Last(s), s.source, face, Triangles(face)))
    case Points(refs) => WithLast(s, AddPoints(Last(s), s.source, refs))
    case ObjectLine(name) => StartObject(s, name)
    case UseMtl(name) => WithLast(s, StartMaterial(Last(s), name, s.source.libraries))
    case MtlLib(name) => s.(source := s.source.(libraries := s.source.libraries + [name]))
    case Smooth(on) => WithLast(s, SetSmooth(Last(s), on))
  }

  function Run(lines: seq<Line>): (s: State)
    ensures s.objects != []
  {
    if lines == [] then START else Step(Run(lines[..|lines| - 1]), lines[|lines| - 1])
  }

  /** `parse` up to and including `finalize`. */
  function Parsed(lines: seq<Line>): State {
    WithLast(Run(lines), Finalized(Last(Run(lines))))
  }

  // ---------------------------------------------------------------- what the materials of an object look like

  /** Every index is the position, and every group starts where the one before ends. */
  ghost predicate Chained(ms: seq<Material>) {
    && (forall i :: 0 <= i < |ms| ==> ms[i].Material? && ms[i].index == i)
    && (ms != [] ==> ms[0].groupStart == 0)
    && (forall i, j :: 0 <= i < j < |ms| && j == i + 1 ==> ms[j].groupStart == ms[i].groupEnd)
  }

  ghost predicate NonEmptyUpTo(ms: seq<Material>, n: nat)
    requires n <= |ms| && Chained(ms)
  {
    forall i :: 0 <= i < n ==>
      0 <= ms[i].groupStart < ms[i].groupEnd && ms[i].groupCount == ms[i].groupEnd - ms[i].groupStart
  }

  /** While an object is filled: non-empty groups chained from 0, and a last one that is open. */
  ghost predicate Open(o: Obj) {
    && |o.vertices| % 3 == 0 && Chained(o.materials)
    && (o.materials != [] ==>
          var last := |o.materials| - 1;
          && NonEmptyUpTo(o.materials, last)
          && o.materials[last].groupEnd == o.materials[last].groupCount == -1
          && 0 <= o.materials[last].groupStart <= Count(o))
  }

  /** After `_finalize( true )`: the groups tile [0, Count), and none is empty if the object has a vertex. */
  ghost predicate Tiled(o: Obj) {
    && |o.vertices| % 3 == 0 && o.materials != []
    && if o.materials[0].Placeholder? then |o.materials| == 1
       else
         && Chained(o.materials)
         && o.materials[|o.materials| - 1].groupEnd == Count(o)
         && (Count(o) > 0 ==> NonEmptyUpTo(o.materials, |o.materials|))
         && (Count(o) == 0 ==> |o.materials| == 1 && o.materials[0].groupCount == 0)
  }

  lemma {:induction false} NonEmptyGroupsAll(ms: seq<Material>)
    requires forall m <- ms :: m.Material? && m.groupCount > 0
    ensures NonEmptyGroups(ms) == ms
  {
    if ms != [] {
      NonEmptyGroupsAll(ms[..|ms| - 1]);
      assert ms == ms[..|ms| - 1] + [ms[|ms| - 1]];
    }
  }

  lemma {:induction false} NonEmptyGroupsButLast(front: seq<Material>, last: Material)
    requires last.Material? && forall m <- front :: m.Material? && m.groupCount > 0
    ensures NonEmptyGroups(front + [last]) == if last.groupCount <= 0 then front else front + [last]
  {
    NonEmptyGroupsAll(front);
    assert (front + [last])[..|front|] == front;
  }

  lemma ClosingLast(o: Obj)
    requires Open(o) && o.materials != []
    ensures var ms, last := CloseLast(o).materials, |o.materials| - 1;
      && |ms| == |o.materials| && ms[..last] == o.materials[..last]
      && Chained(ms) && NonEmptyUpTo(ms, last)
      && ms[last] == o.materials[last].(groupEnd := Count(o), groupCount := Count(o) - ms[last].groupStart,
                                        inherited := false)
      && ms[last].groupCount >= 0
    ensures CloseLast(o) == o.(materials := CloseLast(o).materials)
  {
  }

  lemma PrefixIsChained(ms: seq<Material>, n: nat)
    requires n <= |ms| && Chained(ms)
    ensures Chained(ms[..n]) && (NonEmptyUpTo(ms, n) ==> NonEmptyUpTo(ms[..n], n))
  {
  }

  lemma AppendIsChained(ms: seq<Material>, m: Material)
    requires Chained(ms) && m.Material? && m.index == |ms|
    requires m.groupStart == if ms == [] then 0 else ms[|ms| - 1].groupEnd
    ensures Chained(ms + [m])
    ensures NonEmptyUpTo(ms, |ms|) ==> NonEmptyUpTo(ms + [m], |ms|)
  {
  }

  /** What a `usemtl` keeps: the groups before the last one, and the last one if it has vertices. */
  function KeptMaterials(o: Obj): seq<Material> {
    if o.materials == [] then []
    else
      var last := |o.materials| - 1;
      var m := Closed(o.materials[last], Count(o));
      o.materials[..last] + if m.Material? && m.groupCount <= 0 then [] else [m]
  }

  /** The new group starts where the vertices end, whatever became of the group before. */
  lemma StartMaterialAppends(o: Obj, name: string, libraries: seq<string>)
    requires Open(o)
    ensures var kept := KeptMaterials(o);
      StartMaterial(o, name, libraries) == o.(materials := kept
        + [Material(|kept|, name, if libraries == [] then "" else libraries[|libraries| - 1],
                    if o.materials == [] then o.smooth else o.materials[|o.materials| - 1].smooth,
                    if o.materials == [] then 0 else Count(o), -1, -1, false)])
  {
    if o.materials != [] {
      var last := |o.materials| - 1;
      ClosingLast(o);
      hide CloseLast;
      var ms := CloseLast(o).materials;
      assert ms == ms[..last] + [ms[last]];
      assert ms[..last] + ms[last + 1..] == ms[..last];
      assert ms[last].index == last;
    }
  }

  lemma KeptMaterialsEndAtCount(o: Obj)
    requires Open(o)
    ensures var kept := KeptMaterials(o);
      Chained(kept) && NonEmptyUpTo(kept, |kept|)
      && (o.materials != [] ==> Count(o) == if kept == [] then 0 else kept[|kept| - 1].groupEnd)
  {
    if o.materials != [] {
      var last := |o.materials| - 1;
      var m := Closed(o.materials[last], Count(o));
      var front := o.materials[..last];
      PrefixIsChained(o.materials, last);
      assert front != [] ==> front[|front| - 1] == o.materials[last - 1];
      AppendIsChained(front, m);
    }
  }

  lemma StartMaterialKeepsOpen(o: Obj, name: string, libraries: seq<string>)
    requires Open(o)
    ensures Open(StartMaterial(o, name, libraries))
    ensures StartMaterial(o, name, libraries).fromDeclaration == o.fromDeclaration
  {
    StartMaterialAppends(o, name, libraries);
    KeptMaterialsEndAtCount(o);
    hide StartMaterial, KeptMaterials;
    var kept := KeptMaterials(o);
    var after := StartMaterial(o, name, libraries).materials;
    AppendIsChained(kept, after[|after| - 1]);
  }

  /** At the end the same groups are kept, but a lone one is kept even without vertices. */
  lemma FinalizedKeeps(o: Obj)
    requires Open(o)
    ensures Finalized(o) == o.(materials := match |o.materials|
      case 0 => [Placeholder(o.smooth)]
      case 1 => [Closed(o.materials[0], Count(o))]
      case _ => KeptMaterials(o))
    ensures |o.materials| > 1 ==> KeptMaterials(o) != []
  {
    if o.materials != [] {
      var last := |o.materials| - 1;
      ClosingLast(o);
      hide CloseLast;
      var front := o.materials[..last];
      assert CloseLast(o).materials == front + [Closed(o.materials[last], Count(o))];
      NonEmptyGroupsButLast(front, Closed(o.materials[last], Count(o)));
    }
  }

  lemma FinalizedIsTiled(o: Obj)
    requires Open(o)
    ensures Tiled(Finalized(o)) && Count(Finalized(o)) == Count(o)
    ensures Finalized(o).materials[0].Material? <==> o.materials != []
  {
    FinalizedKeeps(o);
    if |o.materials| > 1 {
      KeptMaterialsEndAtCount(o);
      hide Finalized, KeptMaterials;
      assert Tiled(o.(materials := KeptMaterials(o)));
    }
  }

  // ---------------------------------------------------------------- which material a position should have

  /** The name of the last `usemtl`. */
  function InForce(lines: seq<Line>): string {
    if lines == [] then ""
    else
      var last := lines[|lines| - 1];
      if last.UseMtl? then last.name else InForce(lines[..|lines| - 1])
  }

  predicate Declared(lines: seq<Line>) { exists line <- lines :: line.ObjectLine? }

  /** How many positions a line appends to the current object. */
  function Positions(line: Line): nat {
    match line
    case Face(face) => 3 * Triangles(face)
    case Points(refs) => |refs|
    case _ => 0
  }

  /** For every object and position, the material in force when the position was appended. */
  function Paints(lines: seq<Line>): (r: seq<seq<string>>)
    ensures r != []
  {
    if lines == [] then [[]]
    else
      var before, line := lines[..|lines| - 1], lines[|lines| - 1];
      var paints := Paints(before);
      if line.ObjectLine? && Declared(before) then paints + [[]]
      else paints[|paints| - 1 := paints[|paints| - 1] + seq(Positions(line), _ => InForce(before))]
  }

  function GroupEnd(o: Obj, i: nat): int
    requires i < |o.materials| && o.materials[i].Material?
  {
    if o.materials[i].groupEnd == -1 then Count(o) else o.materials[i].groupEnd
  }

  /** Position p is in group i. */
  predicate InGroup(o: Obj, i: nat, p: int) {
    i < |o.materials| && o.materials[i].Material? && o.materials[i].groupStart <= p < GroupEnd(o, i)
  }

  /** Every position is in a group of its material; the first group also takes what came before any material. */
  ghost predicate Fits(o: Obj, paint: seq<string>) {
    && |paint| == Count(o)
    && (o.materials == [] || o.materials[0].Placeholder? ==> forall p :: 0 <= p < |paint| ==> paint[p] == "")
    && forall i: nat, p: nat :: p < |paint| && InGroup(o, i, p) ==>
         paint[p] == o.materials[i].name || (i == 0 && paint[p] == "")
  }

  /** The material in force is that of the open group. */
  predicate Carries(o: Obj, inForce: string) {
    if o.materials == [] then inForce == ""
    else o.materials[|o.materials| - 1].Material? && o.materials[|o.materials| - 1].name == inForce
  }

  /** A group that starts where the vertices end takes no position; the first group of all takes the unpainted ones. */
  lemma FitsWithNewGroup(o: Obj, paint: seq<string>, kept: seq<Material>, m: Material, after: Obj)
    requires Fits(o, paint) && after == o.(materials := kept + [m]) && m.Material? && |kept| <= |o.materials|
    requires forall i :: 0 <= i < |kept| ==>
               o.materials[i].Material? && kept[i].Material? && kept[i].groupEnd == GroupEnd(o, i) != -1
               && kept[i].groupStart == o.materials[i].groupStart && kept[i].name == o.materials[i].name
    requires o.materials == [] || m.groupStart == Count(o)
    ensures Fits(after, paint)
  {
    forall i: nat, p: nat | p < |paint| && InGroup(after, i, p)
      ensures paint[p] == after.materials[i].name || (i == 0 && paint[p] == "")
    {
      if i < |kept| {
        assert InGroup(o, i, p) && after.materials[i].name == o.materials[i].name;
      } else {
        assert after.materials[i] == m && o.materials == [];
      }
    }
  }

  lemma FitsAfterUseMtl(o: Obj, paint: seq<string>, inForce: string, name: string, libraries: seq<string>)
    requires Open(o) && Fits(o, paint) && Carries(o, inForce)
    ensures Fits(StartMaterial(o, name, libraries), paint) && Carries(StartMaterial(o, name, libraries), name)
  {
    StartMaterialAppends(o, name, libraries);
    KeptGroups(o);
    hide StartMaterial, KeptMaterials, Fits, NonEmptyUpTo;
    var kept, after := KeptMaterials(o), StartMaterial(o, name, libraries);
    FitsWithNewGroup(o, paint, kept, after.materials[|kept|], after);
  }

  /** A kept group is the group of the same index before, closed. */
  lemma KeptGroups(o: Obj)
    requires Open(o)
    ensures var kept := KeptMaterials(o);
      |kept| <= |o.materials|
      && forall i :: 0 <= i < |kept| ==>
           kept[i].Material? && kept[i].groupEnd == GroupEnd(o, i) != -1
           && kept[i].groupStart == o.materials[i].groupStart && kept[i].name == o.materials[i].name
  {
  }

  lemma FitsFinalized(o: Obj, paint: seq<string>)
    requires Open(o) && Fits(o, paint)
    ensures Fits(Finalized(o), paint)
  {
    FinalizedKeeps(o);
    KeptGroups(o);
    hide Finalized;
    var after := Finalized(o);
    forall i: nat, p: nat | p < |paint| && InGroup(after, i, p)
      ensures paint[p] == after.materials[i].name || (i == 0 && paint[p] == "")
    {
      assert InGroup(o, i, p) && after.materials[i].name == o.materials[i].name;
    }
  }

  /** More positions, all of the material in force. */
  lemma FitsMore(o: Obj, paint: seq<string>, inForce: string, after: Obj, n: nat)
    requires Open(o) && Fits(o, paint) && Carries(o, inForce)
    requires after.materials == o.materials && |after.vertices| == |o.vertices| + 3 * n
    ensures Open(after) && Fits(after, paint + seq(n, _ => inForce)) && Carries(after, inForce)
  {
    var more := paint + seq(n, _ => inForce);
    assert Count(after) == Count(o) + n;
    forall i: nat, p: nat | p < |more| && InGroup(after, i, p)
      ensures more[p] == after.materials[i].name || (i == 0 && more[p] == "")
    {
      if p < |paint| {
        assert InGroup(o, i, p);
      } else if i < |o.materials| - 1 {
        GroupEndsBeforeOpen(o, i);
      }
    }
  }

  lemma {:induction false} GroupEndsBeforeOpen(o: Obj, i: nat)
    requires Open(o) && i + 1 < |o.materials|
    ensures o.materials[i].groupEnd <= o.materials[|o.materials| - 1].groupStart <= Count(o)
    decreases |o.materials| - i
  {
    if i + 2 < |o.materials| {
      GroupEndsBeforeOpen(o, i + 1);
    }
  }

  lemma {:induction false} FanGrows(o: Obj, s: Source, face: seq<FaceVertex>, j: nat)
    requires j == 0 || j + 1 < |face|
    ensures var p := AddFan(o, s, face, j);
      && p.materials == o.materials && p.smooth == o.smooth && p.fromDeclaration == o.fromDeclaration
      && |p.vertices| == |o.vertices| + 9 * j
  {
    if j > 0 {
      FanGrows(o, s, face, j - 1);
      hide Index, Read;
    }
  }

  lemma {:induction false} PointsGrow(o: Obj, s: Source, refs: seq<Reference>)
    ensures var p := AddPoints(o, s, refs);
      && p.materials == o.materials && p.smooth == o.smooth && p.fromDeclaration == o.fromDeclaration
      && |p.vertices| == |o.vertices| + 3 * |refs|
    decreases |refs|
  {
    if refs != [] {
      PointsGrow(o, s, refs[..|refs| - 1]);
      hide Index, Read;
    }
  }

  // ---------------------------------------------------------------- whole files

  ghost predicate Inv(s: State, paints: seq<seq<string>>, inForce: string, declared: bool) {
    && s.objects != [] && |paints| == |s.objects|
    && (forall k :: 0 <= k < |s.objects| ==> Fits(s.objects[k], paints[k]))
    && (forall k :: 0 <= k < |s.objects| - 1 ==> Tiled(s.objects[k]))
    && Open(Last(s)) && Carries(Last(s), inForce) && Last(s).fromDeclaration == declared
  }

  lemma ChangeLastKeepsInv(s: State, paints: seq<seq<string>>, inForce: string, declared: bool,
                           o: Obj, paint: seq<string>, now: string, declaredNow: bool)
    requires Inv(s, paints, inForce, declared)
    requires Open(o) && Fits(o, paint) && Carries(o, now) && o.fromDeclaration == declaredNow
    ensures Inv(WithLast(s, o), paints[|paints| - 1 := paint], now, declaredNow)
  {
    hide Open, Fits, Tiled, Carries;
  }

  lemma NewObjectKeepsInv(s: State, paints: seq<seq<string>>, inForce: string, name: string)
    requires Inv(s, paints, inForce, true)
    ensures Inv(StartObject(s, name), paints + [[]], inForce, true)
  {
    var o := Last(s);
    var paint := paints[|paints| - 1];
    FinalizedIsTiled(o);
    FitsFinalized(o, paint);
    var next := NewObj(name, true).(materials := Inherited(CurrentMaterial(o)));
    assert Open(next) && Fits(next, []) && Carries(next, inForce);
    hide Open, Fits, Tiled, Carries, Finalized, Inherited;
  }

  /** Groups that keep their bounds and names keep fitting. */
  lemma FitsAlike(o: Obj, p: Obj, paint: seq<string>)
    requires Fits(o, paint) && o.materials != [] && |p.materials| == |o.materials| && |p.vertices| == |o.vertices|
    requires forall i :: 0 <= i < |o.materials| ==>
      && o.materials[i].Material? && p.materials[i].Material? && p.materials[i].name == o.materials[i].name
      && p.materials[i].groupStart == o.materials[i].groupStart && p.materials[i].groupEnd == o.materials[i].groupEnd
    ensures Fits(p, paint)
  {
    forall i: nat, q: nat | q < |paint| && InGroup(p, i, q)
      ensures paint[q] == p.materials[i].name || (i == 0 && paint[q] == "")
    {
      assert InGroup(o, i, q) && p.materials[i].name == o.materials[i].name;
    }
  }

  lemma SmoothKeeps(o: Obj, paint: seq<string>, inForce: string, on: bool)
    requires Open(o) && Fits(o, paint) && Carries(o, inForce)
    ensures Open(SetSmooth(o, on)) && Fits(SetSmooth(o, on), paint) && Carries(SetSmooth(o, on), inForce)
    ensures SetSmooth(o, on).fromDeclaration == o.fromDeclaration
  {
    if o.materials != [] {
      hide Fits;
      FitsAlike(o, SetSmooth(o, on), paint);
    } else {
      assert SetSmooth(o, on).materials == [];
    }
  }

  lemma StepKeepsInv(s: State, paints: seq<seq<string>>, inForce: string, declared: bool, line: Line)
    requires Inv(s, paints, inForce, declared)
    ensures Inv(Step(s, line),
                if line.ObjectLine? && declared then paints + [[]]
                else paints[|paints| - 1 := paints[|paints| - 1] + seq(Positions(line), _ => inForce)],
                if line.UseMtl? then line.name else inForce,
                declared || line.ObjectLine?)
  {
    hide Tiled, Fits, Open, Carries, AddFan, AddPoints, StartMaterial, SetSmooth;
    var o, paint := Last(s), paints[|paints| - 1];
    var none := seq(0, _ => inForce);
    assert paint + none == paint && paints[|paints| - 1 := paint] == paints;
    match line
    case Face(face) =>
      FanGrows(o, s.source, face, Triangles(face));
      var after := AddFan(o, s.source, face, Triangles(face));
      FitsMore(o, paint, inForce, after, 3 * Triangles(face));
      var painted := paint + seq(Positions(line), _ => inForce);
      ChangeLastKeepsInv(s, paints, inForce, declared, after, painted, inForce, declared);
    case Points(refs) =>
      PointsGrow(o, s.source, refs);
      var after := AddPoints(o, s.source, refs);
      FitsMore(o, paint, inForce, after, |refs|);
      var painted := paint + seq(Positions(line), _ => inForce);
      ChangeLastKeepsInv(s, paints, inForce, declared, after, painted, inForce, declared);
    case ObjectLine(name) =>
      if declared {
        NewObjectKeepsInv(s, paints, inForce, name);
      } else {
        var after := o.(name := name, fromDeclaration := true);
        FitsMore(o, paint, inForce, after, 0);
        ChangeLastKeepsInv(s, paints, inForce, declared, after, paint, inForce, true);
      }
    case UseMtl(name) =>
      var after := StartMaterial(o, name, s.source.libraries);
      StartMaterialKeepsOpen(o, name, s.source.libraries);
      FitsAfterUseMtl(o, paint, inForce, name, s.source.libraries);
      ChangeLastKeepsInv(s, paints, inForce, declared, after, paint, name, declared);
    case Smooth(on) =>
      SmoothKeeps(o, paint, inForce, on);
      ChangeLastKeepsInv(s, paints, inForce, declared, SetSmooth(o, on), paint, inForce, declared);
    case _ =>
  }

  lemma {:induction false} RunKeepsInv(lines: seq<Line>)
    ensures Inv(Run(lines), Paints(lines), InForce(lines), Declared(lines))
  {
    StartIsInv();
    hide Inv, Step;
    if lines != [] {
      var before, line := lines[..|lines| - 1], lines[|lines| - 1];
      RunKeepsInv(before);
      StepKeepsInv(Run(before), Paints(before), InForce(before), Declared(before), line);
      assert lines == before + [line];
      assert Declared(lines) <==> Declared(before) || line.ObjectLine?;
    }
  }

  lemma StartIsInv()
    ensures Inv(START, [[]], "", false)
  {
  }

  /**
   For every file: the groups of each object are chained and non-empty and tile its positions, and every position
   lies in a group of the material that was in force when it was read. An object without any material has the
   placeholder.
   */
  lemma GroupsTileAndFit(lines: seq<Line>)
    ensures var s := Parsed(lines);
      |s.objects| == |Paints(lines)|
      && forall k :: 0 <= k < |s.objects| ==> Tiled(s.objects[k]) && Fits(s.objects[k], Paints(lines)[k])
  {
    RunKeepsInv(lines);
    var o := Last(Run(lines));
    FinalizedIsTiled(o);
    FitsFinalized(o, Paints(lines)[|Run(lines).objects| - 1]);
    hide Tiled, Fits, Open, Finalized;
  }

  lemma {:induction false} GroupsAreOrdered(o: Obj, i: nat, j: nat)
    requires Tiled(o) && o.materials[0].Material? && Count(o) > 0 && i < j < |o.materials|
    ensures o.materials[i].groupEnd <= o.materials[j].groupStart
    decreases j
  {
    if i + 1 < j {
      GroupsAreOrdered(o, i, j - 1);
    }
  }

  /** In a tiled object every position is in exactly one group. */
  lemma {:induction false} EveryPositionHasOneGroup(o: Obj, p: nat, n: nat) returns (i: nat)
    requires Tiled(o) && o.materials[0].Material? && 0 < n <= |o.materials|
    requires p < o.materials[n - 1].groupEnd && p < Count(o)
    ensures i < n && InGroup(o, i, p) && forall j :: 0 <= j < n && j != i ==> !InGroup(o, j, p)
  {
    if o.materials[n - 1].groupStart <= p {
      i := n - 1;
      forall j | 0 <= j < n - 1
        ensures !InGroup(o, j, p)
      {
        GroupsAreOrdered(o, j, n - 1);
      }
    } else {
      i := EveryPositionHasOneGroup(o, p, n - 1);
    }
  }

  // ---------------------------------------------------------------- colours of a face

  /** The indices a colour is meant to be looked up with: those of the vertices. */
  ghost predicate ColorsFollowVertices(s: Source, a: FaceVertex, b: FaceVertex, c: FaceVertex) {
    forall colors: seq<real> :: SameColors(colors, s, a, b, c)
  }

  predicate SameColors(colors: seq<real>, s: Source, a: FaceVertex, b: FaceVertex, c: FaceVertex) {
    var v := |s.vertices|;
    GatherThree(colors, ColorIndex(s, a, a), ColorIndex(s, a, b), ColorIndex(s, a, c), 3)
    == GatherThree(colors, Index(a.v, v, 3), Index(b.v, v, 3), Index(c.v, v, 3), 3)
  }

  /** Two indices read the same from every colour array: they are equal, or neither reaches any entry. */
  predicate Alike(i: Option<int>, j: Option<int>) {
    i == j || ((i.None? || i.value + 2 < 0) && (j.None? || j.value + 2 < 0))
  }

  function Ramp(n: nat): seq<real> { seq(n, i requires 0 <= i < n => i as real) }

  lemma UnlikeIndicesDiffer(i: Option<int>, j: Option<int>) returns (n: nat)
    ensures !Alike(i, j) ==> forall m :: m >= n ==> Gather(Ramp(m), i, 3) != Gather(Ramp(m), j, 3)
  {
    n := (if i.Some? && i.value > 0 then i.value else 0) + (if j.Some? && j.value > 0 then j.value else 0) + 3;
    if !Alike(i, j) {
      forall m: nat | m >= n
        ensures Gather(Ramp(m), i, 3)[2] != Gather(Ramp(m), j, 3)[2]
      {
        assert i.Some? && i.value + 2 >= 0 ==> Read(Ramp(m), i, 2) == Some((i.value + 2) as real);
        assert j.Some? && j.value + 2 >= 0 ==> Read(Ramp(m), j, 2) == Some((j.value + 2) as real);
      }
    }
  }

  /** A face gets its vertices' colours whatever they are exactly when every index that overwrote theirs reads alike. */
  lemma ColorsFollowVerticesExactlyWhen(s: Source, a: FaceVertex, b: FaceVertex, c: FaceVertex)
    ensures ColorsFollowVertices(s, a, b, c) <==>
              forall w <- [a, b, c] :: Alike(ColorIndex(s, a, w), Index(w.v, |s.vertices|, 3))
  {
    hide ColorIndex, Index;
    var v := |s.vertices|;
    var ws := [a, b, c];
    var na := UnlikeIndicesDiffer(ColorIndex(s, a, a), Index(a.v, v, 3));
    var nb := UnlikeIndicesDiffer(ColorIndex(s, a, b), Index(b.v, v, 3));
    var nc := UnlikeIndicesDiffer(ColorIndex(s, a, c), Index(c.v, v, 3));
    var m := na + nb + nc;
    hide Alike;
    if ColorsFollowVertices(s, a, b, c) {
      assert SameColors(Ramp(m), s, a, b, c);
      ThreeParts(Ramp(m), ColorIndex(s, a, a), ColorIndex(s, a, b), ColorIndex(s, a, c),
                 Index(a.v, v, 3), Index(b.v, v, 3), Index(c.v, v, 3));
    }
    if forall w <- ws :: Alike(ColorIndex(s, a, w), Index(w.v, v, 3)) {
      assert a in ws && b in ws && c in ws;
      forall colors: seq<real>
        ensures SameColors(colors, s, a, b, c)
      {
        AlikeReadAlike(colors, ColorIndex(s, a, a), Index(a.v, v, 3));
        AlikeReadAlike(colors, ColorIndex(s, a, b), Index(b.v, v, 3));
        AlikeReadAlike(colors, ColorIndex(s, a, c), Index(c.v, v, 3));
      }
    }
  }

  lemma AlikeReadAlike(colors: seq<real>, i: Option<int>, j: Option<int>)
    requires Alike(i, j)
    ensures Gather(colors, i, 3) == Gather(colors, j, 3)
  {
  }

  lemma ThreeParts(src: seq<real>, i: Option<int>, j: Option<int>, k: Option<int>,
                   x: Option<int>, y: Option<int>, z: Option<int>)
    requires GatherThree(src, i, j, k, 3) == GatherThree(src, x, y, z, 3)
    ensures Gather(src, i, 3) == Gather(src, x, 3) && Gather(src, j, 3) == Gather(src, y, 3)
    ensures Gather(src, k, 3) == Gather(src, z, 3)
  {
    var l, r := GatherThree(src, i, j, k, 3), GatherThree(src, x, y, z, 3);
    assert l[..3] == Gather(src, i, 3) && r[..3] == Gather(src, x, 3);
    assert l[3..6] == Gather(src, j, 3) && r[3..6] == Gather(src, y, 3);
    assert l[6..] == Gather(src, k, 3) && r[6..] == Gather(src, z, 3);
  }

  /** A plain face always does; one whose three corners share a single normal, as flat faces do, does not. */
  lemma SharedNormalMixesColors(s: Source, a: FaceVertex, b: FaceVertex, c: FaceVertex)
    ensures a.uv == Absent && a.n == Absent ==> ColorsFollowVertices(s, a, b, c)
    ensures a.v == Number(1) && b.v == Number(2) && a.n == b.n == Number(1) ==> !ColorsFollowVertices(s, a, b, c)
  {
    ColorsFollowVerticesExactlyWhen(s, a, b, c);
    assert b in [a, b, c];
  }

  /**
   Corners that carry the same number for everything they name: with normals the colours follow, with texture
   coordinates alone only where that number is 1, for those are read in pairs.
   */
  lemma TexturesMixColorsExactlyWhen(s: Source, a: FaceVertex, b: FaceVertex, c: FaceVertex)
    requires forall w <- [a, b, c] :: w.v.Number? && w.v.k >= 1
    ensures a.n == a.v && b.n == b.v && c.n == c.v ==> ColorsFollowVertices(s, a, b, c)
    ensures a.n == Absent && a.uv == a.v && b.uv == b.v && c.uv == c.v ==>
              (ColorsFollowVertices(s, a, b, c) <==> a.v == b.v == c.v == Number(1))
  {
    ColorsFollowVerticesExactlyWhen(s, a, b, c);
    assert a in [a, b, c] && b in [a, b, c] && c in [a, b, c];
    hide ColorsFollowVertices;
  }

  // ---------------------------------------------------------------- the parser state, updated in place

  lemma OneGroup(all: seq<Material>)
    ensures NonEmptyGroups([]) == []
    ensures forall m <- all :: NonEmptyGroups([m]) == if m.Material? && m.groupCount <= 0 then [] else [m]
  {
    forall m <- all
      ensures NonEmptyGroups([m]) == if m.Material? && m.groupCount <= 0 then [] else [m]
    {
      assert [m][..0] == [];
    }
  }

  /** The loop that splices out groups without vertices, from the back. */
  method SpliceEmpty(all: seq<Material>) returns (materials: seq<Material>)
    ensures materials == NonEmptyGroups(all)
  {
    OneGroup(all);
    hide NonEmptyGroups;
    materials := all;
    var mi := |all|;
    assert all[..mi] == all && all[mi..] == [];
    while mi > 0
      invariant mi <= |all|
      invariant materials == all[..mi] + NonEmptyGroups(all[mi..])
    {
      mi := mi - 1;
      NonEmptyGroupsSplit([all[mi]], all[mi + 1..]);
      assert [all[mi]] + all[mi + 1..] == all[mi..];
      assert all[..mi + 1] == all[..mi] + [all[mi]];
      if materials[mi].Material? && materials[mi].groupCount <= 0 {
        materials := materials[..mi] + materials[mi + 1..];
      }
    }
    assert all[0..] == all;
  }

  class ParserState {
    var objects: seq<Obj>
    var source: Source

    constructor ()
      ensures Value() == START
    {
      objects, source := [NewObj("", false)], Source([], [], [], [], []);
    }

    function Value(): State
      reads this
    {
      State(objects, source)
    }

    /** `_finalize` of the current object: closes its open group and, at the end, splices out empty ones. */
    method FinalizeObject(end: bool) returns (last: Option<Material>)
      requires objects != []
      modifies `objects
      ensures last == CurrentMaterial(CloseLast(old(Last(Value()))))
      ensures var o := old(Last(Value()));
        Value() == WithLast(old(Value()), if end then Finalized(o) else CloseLast(o))
    {
      hide NonEmptyGroups, Closed;
      var o := CloseLast(objects[|objects| - 1]);
      last := CurrentMaterial(o);
      var materials := o.materials;
      if end && |materials| > 1 {
        materials := SpliceEmpty(materials);
      }
      if end && materials == [] {
        materials := [Placeholder(o.smooth)];
      }
      objects := objects[|objects| - 1 := o.(materials := materials)];
    }

    method BeginObject(name: string)
      requires objects != []
      modifies `objects
      ensures Value() == StartObject(old(Value()), name)
    {
      var o := objects[|objects| - 1];
      if !o.fromDeclaration {
        objects := objects[|objects| - 1 := o.(name := name, fromDeclaration := true)];
        return;
      }
      var previous := CurrentMaterial(o);
      var _ := FinalizeObject(true);
      objects := objects + [NewObj(name, true).(materials := Inherited(previous))];
    }

    method UseMaterial(name: string)
      requires objects != []
      modifies `objects
      ensures Value() == Step(old(Value()), UseMtl(name))
    {
      assert CloseLast(objects[|objects| - 1]).smooth == objects[|objects| - 1].smooth;
      var previous := FinalizeObject(false);
      hide CloseLast, Finalized;
      var o := objects[|objects| - 1];
      var materials := o.materials;
      if previous.Some? && previous.value.Material? && (previous.value.inherited || previous.value.groupCount <= 0)
         && previous.value.index < |materials| {
        materials := materials[..previous.value.index] + materials[previous.value.index + 1..];
      }
      assert materials == Spliced(o.materials, previous);
      hide Spliced;
      var libraries := source.libraries;
      var material := Material(|materials|, name, if libraries == [] then "" else libraries[|libraries| - 1],
                               if previous.Some? then previous.value.smooth else o.smooth,
                               if previous.Some? && previous.value.Material? then previous.value.groupEnd else 0,
                               -1, -1, false);
      objects := objects[|objects| - 1 := o.(materials := materials + [material])];
    }

    /** The fan loop of an `f` line. */
    method AddPolygon(face: seq<FaceVertex>)
      requires objects != []
      modifies `objects
      ensures Value() == Step(old(Value()), Face(face))
    {
      hide AddFace;
      var j := 1;
      ghost var o := objects[|objects| - 1];
      assert objects == objects[|objects| - 1 := o];
      while j < |face| - 1
        invariant j == 1 || j <= |face| - 1
        invariant Value() == WithLast(old(Value()), AddFan(o, source, face, j - 1))
      {
        objects := objects[|objects| - 1 := AddFace(objects[|objects| - 1], source, face[0], face[j], face[j + 1])];
        j := j + 1;
      }
    }

    /** The end of `parse`. */
    method Finish()
      requires objects != []
      modifies `objects
      ensures Value() == WithLast(old(Value()), Finalized(old(Last(Value()))))
    {
      var _ := FinalizeObject(true);
    }
  }

  lemma {:induction false} NonEmptyGroupsSplit(a: seq<Material>, b: seq<Material>)
    ensures NonEmptyGroups(a + b) == NonEmptyGroups(a) + NonEmptyGroups(b)
    decreases |b|
  {
    if b == [] {
      assert a + b == a;
    } else {
      var front := b[..|b| - 1];
      assert (a + b)[..|a + b| - 1] == a + front;
      NonEmptyGroupsSplit(a, front);
    }
  }
}
