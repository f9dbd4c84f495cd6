/**
 gcode_viewer/js/prettygcode.js, `syncGcodeObjToFilePos` and `syncGcodeObjToLayer`: how much of each
 drawn object is visible for a file position or a layer number.
 */
module LayerSync {
  import opened Options
  import opened GcodeReading
  import opened LayerStore

  /** `visible` and `maxInstancedCount` of one drawn object. */
  datatype Display = Display(visible: bool, instances: int) {
    function Shown(): int { if visible then instances else 0 }
  }

  /** Reading an array one past its end yields undefined, and undefined compares false. */
  function At(fp: seq<nat>, i: nat): Option<nat> { if i < |fp| then Some(fp[i]) else None }
  predicate LessThan(a: Option<nat>, p: int) { a.Some? && a.value < p }
  predicate MoreThan(a: Option<nat>, p: int) { a.Some? && a.value > p }

  function Min(a: int, b: int): int { if a < b then a else b }

  /** Where the counting loop stops. */
  function PrefixBelow(fp: seq<nat>, p: int): (n: nat)
    ensures n <= |fp|
    ensures n < |fp| ==> fp[n] >= p
    ensures forall i :: 0 <= i < n ==> fp[i] < p
  {
    if fp == [] || fp[0] >= p then 0
    else
      var n := PrefixBelow(fp[1..], p) + 1;
      assert forall i :: 0 < i < n ==> fp[i] == fp[1..][i - 1];
      n
  }

  predicate During(d: Drawn, p: int) {
    !LessThan(At(d.filePositions, |d.filePositions|), p) && !MoreThan(At(d.filePositions, 0), p)
  }

  function SyncOne(h: Host, d: Drawn, p: int, before: Display): Display {
    if LessThan(At(d.filePositions, |d.filePositions|), p) then Display(true, d.numLines)
    else if MoreThan(At(d.filePositions, 0), p) then before.(visible := false)
    else Display(true, Min(PrefixBelow(d.filePositions, p) * h.Copies(), d.numLines))
  }

  /** The layer number that the last object in the traversal left behind. */
  function SyncedLayer(ds: seq<Drawn>, p: int): nat {
    if ds == [] then 0
    else if During(ds[|ds| - 1], p) then ds[|ds| - 1].layerNumber
    else SyncedLayer(ds[..|ds| - 1], p)
  }

  /** `lineNumber` defaults to Infinity, here None. */
  function LayerSyncOne(h: Host, d: Drawn, layerNumber: nat, lineNumber: Option<nat>, before: Display): Display {
    if d.layerNumber < layerNumber then Display(true, d.numLines)
    else if d.layerNumber == layerNumber then
      Display(true, if lineNumber.None? then d.numLines else Min(lineNumber.value * h.Copies(), d.numLines))
    else before.(visible := false)
  }

  // ---------------------------------------------------------------- the drawn objects of a valid store

  predicate Solid(h: Host, d: Drawn) {
    && d.filePositions != [] && Ascending(d.filePositions) && d.layerNumber > 0
    && d.numLines == h.Copies() * |d.filePositions|
  }

  /** Drawn objects are non-empty, numbered upwards, and lie strictly one after the other in the file. */
  ghost predicate Stack(h: Host, ds: seq<Drawn>) {
    && (forall i :: 0 <= i < |ds| ==> Solid(h, ds[i]))
    && (forall i, j :: 0 <= i < j < |ds| ==> ds[i].layerNumber < ds[j].layerNumber)
    && (forall i, j :: 0 <= i < j < |ds| ==> Before(ds[i].filePositions, ds[j].filePositions))
  }

  predicate DrawsLayer(h: Host, layers: seq<Layer>, n: nat, d: Drawn) {
    && 1 <= d.layerNumber <= n && d.layerNumber <= |layers|
    && d.filePositions == layers[d.layerNumber - 1].filePositions && d.filePositions != []
    && d.numLines == h.Copies() * |d.filePositions|
  }

  lemma DrawnShape(h: Host, layer: Layer, number: nat)
    requires ShapeOk(h, layer)
    ensures DrawnFrom(layer, number) ==
      if layer.filePositions == [] then []
      else [Drawn(layer.z, number, h.Copies() * |layer.filePositions|, layer.filePositions)]
  {
  }

  lemma {:induction false} DrawnMembers(h: Host, layers: seq<Layer>, n: nat)
    requires n <= |layers| && forall k :: 0 <= k < |layers| ==> ShapeOk(h, layers[k])
    ensures forall i :: 0 <= i < |DrawnLayers(layers, n)| ==> DrawsLayer(h, layers, n, DrawnLayers(layers, n)[i])
    ensures forall i, j :: 0 <= i < j < |DrawnLayers(layers, n)| ==>
      DrawnLayers(layers, n)[i].layerNumber < DrawnLayers(layers, n)[j].layerNumber
  {
    if n > 0 {
      DrawnMembers(h, layers, n - 1);
      DrawnShape(h, layers[n - 1], n);
      var before, ds := DrawnLayers(layers, n - 1), DrawnLayers(layers, n);
      assert forall i :: 0 <= i < |before| ==> ds[i] == before[i];
      assert forall i :: 0 <= i < |before| ==> DrawsLayer(h, layers, n - 1, before[i]);
    }
  }

  lemma StoreGivesStack(h: Host, v: Viewer)
    requires Valid(h, v)
    ensures Stack(h, Flush(v).objects)
  {
    var ds, n := DrawnLayers(v.layers, |v.layers|), |v.layers|;
    DrawnMembers(h, v.layers, n);
    assert Flush(v).objects == ds;
    forall i | 0 <= i < |ds|
      ensures Solid(h, ds[i])
    {
      assert DrawsLayer(h, v.layers, n, ds[i]);
    }
    forall i, j | 0 <= i < j < |ds|
      ensures Before(ds[i].filePositions, ds[j].filePositions)
    {
      assert DrawsLayer(h, v.layers, n, ds[i]) && DrawsLayer(h, v.layers, n, ds[j]);
    }
  }

  // ---------------------------------------------------------------- counting

  function NumBelow(fp: seq<nat>, p: int): nat {
    if fp == [] then 0 else (if fp[0] < p then 1 else 0) + NumBelow(fp[1..], p)
  }

  lemma {:induction false} PrefixCounts(fp: seq<nat>, p: int)
    requires Ascending(fp)
    ensures PrefixBelow(fp, p) == NumBelow(fp, p)
  {
    if fp != [] {
      PrefixCounts(fp[1..], p);
      if fp[0] >= p {
        NoneBelow(fp, p);
      }
    }
  }

  lemma {:induction false} NoneBelow(fp: seq<nat>, p: int)
    requires forall i :: 0 <= i < |fp| ==> fp[i] >= p
    ensures NumBelow(fp, p) == 0
  {
    if fp != [] {
      NoneBelow(fp[1..], p);
    }
  }

  lemma {:induction false} CountBounds(fp: seq<nat>, p: int, q: int)
    requires p <= q
    ensures NumBelow(fp, p) <= NumBelow(fp, q) <= |fp|
  {
    if fp != [] {
      CountBounds(fp[1..], p, q);
    }
  }

  /** One object shows each copy of exactly its segments before the position. */
  lemma ShownIsCount(h: Host, d: Drawn, p: int, before: Display)
    requires Ascending(d.filePositions) && d.numLines == h.Copies() * |d.filePositions|
    ensures SyncOne(h, d, p, before).Shown() == h.Copies() * NumBelow(d.filePositions, p)
  {
    PrefixCounts(d.filePositions, p);
    CountBounds(d.filePositions, p, p);
    if MoreThan(At(d.filePositions, 0), p) {
      NoneBelow(d.filePositions, p);
    }
  }

  function SyncAll(h: Host, ds: seq<Drawn>, p: int, shown: seq<Display>): (after: seq<Display>)
    requires |shown| == |ds|
  {
    seq(|ds|, i requires 0 <= i < |ds| => SyncOne(h, ds[i], p, shown[i]))
  }

  function TotalShown(shown: seq<Display>): int {
    if shown == [] then 0 else TotalShown(shown[..|shown| - 1]) + shown[|shown| - 1].Shown()
  }

  /** Segments before the position over the first n layers, drawn or not. */
  function SegmentsBelow(layers: seq<Layer>, n: nat, p: int): nat
    requires n <= |layers|
  {
    if n == 0 then 0 else SegmentsBelow(layers, n - 1, p) + NumBelow(layers[n - 1].filePositions, p)
  }

  function DrawnBelow(ds: seq<Drawn>, p: int): nat {
    if ds == [] then 0 else DrawnBelow(ds[..|ds| - 1], p) + NumBelow(ds[|ds| - 1].filePositions, p)
  }

  lemma {:induction false} LastIsAdded(h: Host, ds: seq<Drawn>, p: int, shown: seq<Display>)
    requires |shown| == |ds| > 0
    ensures var n := |ds| - 1;
      TotalShown(SyncAll(h, ds, p, shown))
      == TotalShown(SyncAll(h, ds[..n], p, shown[..n])) + SyncOne(h, ds[n], p, shown[n]).Shown()
  {
    hide SyncOne;
    var n := |ds| - 1;
    assert SyncAll(h, ds, p, shown)[..n] == SyncAll(h, ds[..n], p, shown[..n]);
  }

  lemma Distributes(k: int, a: int, b: int)
    ensures k * (a + b) == k * a + k * b
  {
  }

  lemma {:induction false} TotalIsDrawn(h: Host, ds: seq<Drawn>, p: int, shown: seq<Display>)
    requires |shown| == |ds| && forall i :: 0 <= i < |ds| ==> Solid(h, ds[i])
    ensures TotalShown(SyncAll(h, ds, p, shown)) == h.Copies() * DrawnBelow(ds, p)
  {
    if ds != [] {
      var n := |ds| - 1;
      assert Solid(h, ds[n]);
      ShownIsCount(h, ds[n], p, shown[n]);
      hide SyncOne, NumBelow, Solid, Ascending, TotalShown, SyncAll;
      TotalIsDrawn(h, ds[..n], p, shown[..n]);
      LastIsAdded(h, ds, p, shown);
      Distributes(h.Copies(), DrawnBelow(ds[..n], p), NumBelow(ds[n].filePositions, p));
    }
  }

  lemma DrawnBelowAppend(before: seq<Drawn>, d: Drawn, p: int)
    ensures DrawnBelow(before + [d], p) == DrawnBelow(before, p) + NumBelow(d.filePositions, p)
  {
    assert (before + [d])[..|before|] == before;
  }

  lemma {:induction false} DrawnIsAll(h: Host, layers: seq<Layer>, n: nat, p: int)
    requires n <= |layers| && forall k :: 0 <= k < |layers| ==> ShapeOk(h, layers[k])
    ensures DrawnBelow(DrawnLayers(layers, n), p) == SegmentsBelow(layers, n, p)
  {
    hide DrawnFrom;
    if n > 0 {
      var before, layer := DrawnLayers(layers, n - 1), layers[n - 1];
      hide NumBelow;
      assert DrawnLayers(layers, n) == before + DrawnFrom(layer, n);
      assert SegmentsBelow(layers, n, p) == SegmentsBelow(layers, n - 1, p) + NumBelow(layer.filePositions, p);
      DrawnShape(h, layer, n);
      hide DrawnLayers, SegmentsBelow, ShapeOk, DrawnBelow;
      DrawnIsAll(h, layers, n - 1, p);
      if layer.filePositions == [] {
        assert before + [] == before;
      } else {
        DrawnBelowAppend(before, DrawnFrom(layer, n)[0], p);
      }
    }
  }

  /** The whole view shows every copy of every segment before the position, and nothing else. */
  lemma SyncShowsExactlyThePast(h: Host, v: Viewer, p: int, shown: seq<Display>)
    requires Valid(h, v) && |shown| == |Flush(v).objects|
    ensures TotalShown(SyncAll(h, Flush(v).objects, p, shown))
         == h.Copies() * SegmentsBelow(v.layers, |v.layers|, p)
  {
    StoreGivesStack(h, v);
    TotalIsDrawn(h, Flush(v).objects, p, shown);
    DrawnIsAll(h, v.layers, |v.layers|, p);
  }

  // ---------------------------------------------------------------- the returned layer

  /** How many objects, counted up to the last such one, begin at or before p. */
  function Begun(ds: seq<Drawn>, p: int): (n: nat)
    ensures n <= |ds|
  {
    if ds == [] then 0
    else if At(ds[|ds| - 1].filePositions, 0).None? || ds[|ds| - 1].filePositions[0] <= p then |ds|
    else Begun(ds[..|ds| - 1], p)
  }

  lemma {:induction false} BegunIsPrefix(h: Host, ds: seq<Drawn>, p: int)
    requires Stack(h, ds)
    ensures forall i :: 0 <= i < |ds| ==>
      ds[i].filePositions != [] && (ds[i].filePositions[0] <= p <==> i < Begun(ds, p))
  {
    forall i | 0 <= i < |ds|
      ensures ds[i].filePositions != []
    {
      assert Solid(h, ds[i]);
    }
    if ds != [] {
      var n := |ds| - 1;
      assert Stack(h, ds[..n]);
      BegunIsPrefix(h, ds[..n], p);
      forall i | 0 <= i < n
        ensures ds[i].filePositions[0] < ds[n].filePositions[0] && ds[..n][i] == ds[i]
      {
        assert Before(ds[i].filePositions, ds[n].filePositions);
      }
    }
  }

  /** The returned layer is the one of the last object whose first position is not after p, or 0. */
  lemma {:induction false} SyncedLayerIsLastBegun(ds: seq<Drawn>, p: int)
    ensures SyncedLayer(ds, p) == if Begun(ds, p) == 0 then 0 else ds[Begun(ds, p) - 1].layerNumber
  {
    if ds != [] {
      SyncedLayerIsLastBegun(ds[..|ds| - 1], p);
    }
  }

  lemma SyncedLayerMonotone(h: Host, ds: seq<Drawn>, p: int, q: int)
    requires Stack(h, ds) && p <= q
    ensures SyncedLayer(ds, p) <= SyncedLayer(ds, q)
  {
    var a, b := Begun(ds, p), Begun(ds, q);
    BegunIsPrefix(h, ds, p);
    BegunIsPrefix(h, ds, q);
    SyncedLayerIsLastBegun(ds, p);
    SyncedLayerIsLastBegun(ds, q);
    assert a > 0 ==> ds[a - 1].filePositions[0] <= q;
  }

  /** A later position never hides anything. */
  lemma SyncIsMonotone(h: Host, d: Drawn, p: int, q: int, before: Display, before': Display)
    requires Solid(h, d) && p <= q
    ensures SyncOne(h, d, p, before).Shown() <= SyncOne(h, d, q, before').Shown()
  {
    ShownIsCount(h, d, p, before);
    ShownIsCount(h, d, q, before');
    CountBounds(d.filePositions, p, q);
  }

  lemma PastIsWhole(h: Host, d: Drawn, p: int, before: Display)
    requires Solid(h, d) && Below(d.filePositions, p)
    ensures SyncOne(h, d, p, before) == Display(true, d.numLines)
  {
    assert PrefixBelow(d.filePositions, p) == |d.filePositions|;
  }

  /** Layer sync shows the layers below in full, of the layer itself the given number of lines or all, nothing above. */
  lemma LayerSyncShows(h: Host, d: Drawn, layerNumber: nat, lineNumber: Option<nat>, before: Display)
    requires Solid(h, d)
    ensures var after, lines := LayerSyncOne(h, d, layerNumber, lineNumber, before), |d.filePositions|;
      var shown := if d.layerNumber > layerNumber then 0
        else if d.layerNumber < layerNumber || lineNumber == None || lineNumber.value >= lines then lines
        else lineNumber.value;
      && (after.visible <==> d.layerNumber <= layerNumber)
      && after.Shown() == (if h.mirror then 2 * shown else shown)
  {
  }

  /** Position sync is layer sync at the layer it returns, cut after that layer's own past segments. */
  lemma PositionSyncIsLayerSync(h: Host, ds: seq<Drawn>, p: int, i: int, before: Display)
    requires Stack(h, ds) && SyncedLayer(ds, p) > 0 && 0 <= i < |ds|
    ensures Begun(ds, p) > 0
    ensures SyncOne(h, ds[i], p, before)
         == LayerSyncOne(h, ds[i], SyncedLayer(ds, p), Some(PrefixBelow(ds[Begun(ds, p) - 1].filePositions, p)), before)
  {
    BegunIsPrefix(h, ds, p);
    SyncedLayerIsLastBegun(ds, p);
    var at := Begun(ds, p) - 1;
    var d := ds[at];
    assert d.filePositions[0] <= p;
    assert Solid(h, ds[i]);
    if i < at {
      assert Before(ds[i].filePositions, d.filePositions);
      hide SyncOne;
      PastIsWhole(h, ds[i], p, before);
    }
  }
}
