/** Extracting an image: the loops of dockerv2.py's extract_docker_layers over the linked layers. */
module Extraction {
  import opened Layers
  import opened Text
  import opened Unpacking
  import opened Wrappers
  import LayerChain

  type Layer = LayerChain.Layer

  /** The tar members of the layers that are not excluded, eldest first. */
  function Selected(chain: seq<Layer>, exclude: set<string>, tars: string -> seq<Member>): seq<seq<Member>> {
    if chain == [] then []
    else
      var last := chain[|chain| - 1];
      var before := Selected(chain[..|chain| - 1], exclude, tars);
      if last.blobSum in exclude then before else before + [tars(last.blobSum)]
  }

  /** Each layer brings the members of its own tar, in the order of the chain, unless it is excluded. */
  lemma {:induction false} SelectedExact(a: seq<Layer>, b: seq<Layer>, exclude: set<string>,
      tars: string -> seq<Member>)
    ensures Selected(a + b, exclude, tars) == Selected(a, exclude, tars) + Selected(b, exclude, tars)
    ensures forall layer: Layer ::
              Selected([layer], exclude, tars) == if layer.blobSum in exclude then [] else [tars(layer.blobSum)]
  {
    forall layer: Layer
      ensures Selected([layer], exclude, tars) == if layer.blobSum in exclude then [] else [tars(layer.blobSum)]
    {
      assert [layer][..0] == [];
    }
    if b == [] {
      assert a + b == a;
    } else {
      assert (a + b)[..|a + b| - 1] == a + b[..|b| - 1];
      SelectedExact(a, b[..|b| - 1], exclude, tars);
    }
  }

  /** Remove the targets of a layer's whiteouts from every older layer, where they are listed. */
  method RemoveWhiteoutTargets(layerPaths: seq<seq<Member>>, whiteouts: seq<Member>) returns (r: seq<seq<Member>>)
    ensures |r| == |layerPaths|
    ensures forall i :: 0 <= i < |r| ==> r[i] == PruneWhiteouts(layerPaths[i], whiteouts)
  {
    r := layerPaths;
    for idx := 0 to |r|
      invariant |r| == |layerPaths|
      invariant forall i :: 0 <= i < idx ==> r[i] == PruneWhiteouts(layerPaths[i], whiteouts)
      invariant forall i :: idx <= i < |r| ==> r[i] == layerPaths[i]
    {
      var ancestor := r[idx];
      for w := 0 to |whiteouts|
        invariant ancestor == PruneWhiteouts(layerPaths[idx], whiteouts[..w])
      {
        assert whiteouts[..w + 1][..w] == whiteouts[..w];
        var path := WhiteoutPath(whiteouts[w].name);
        if Lists(ancestor, path) {
          ancestor := FilterLayer(ancestor, path);
        }
      }
      assert whiteouts[..|whiteouts|] == whiteouts;
      r := r[idx := ancestor];
    }
  }

  /** Remove what a layer's non-directories replace from every older layer. */
  method RemoveReplaced(layerPaths: seq<seq<Member>>, notDirs: set<string>) returns (r: seq<seq<Member>>)
    ensures |r| == |layerPaths|
    ensures forall i :: 0 <= i < |r| ==> r[i] == PruneNotDirs(layerPaths[i], notDirs)
  {
    r := layerPaths;
    for idx := 0 to |r|
      invariant |r| == |layerPaths|
      invariant forall i :: 0 <= i < idx ==> r[i] == PruneNotDirs(layerPaths[i], notDirs)
      invariant forall i :: idx <= i < |r| ==> r[i] == layerPaths[i]
    {
      var ancestor := r[idx];
      var dirs := Filter(ancestor, (m: Member) => m.isDir && m.name in notDirs);
      for f := 0 to |dirs|
        invariant ancestor == DropTrees(layerPaths[idx], dirs[..f])
      {
        assert dirs[..f + 1][..f] == dirs[..f];
        var name := dirs[f].name;
        ancestor := Filter(ancestor, (m: Member) => m.name != name && !(name + "/" <= m.name));
      }
      assert dirs[..|dirs|] == dirs;
      r := r[idx := Filter(ancestor, (m: Member) => m.name !in notDirs)];
    }
  }

  /** Prune the older layers by a new one and add it to the collection. */
  method PushLayer(layerPaths: seq<seq<Member>>, raw: seq<Member>) returns (r: seq<seq<Member>>)
    ensures r == PruneAll(layerPaths, Clean(raw)) + [Regular(Clean(raw))]
  {
    var members := Clean(raw);
    var whiteouts := Whiteouts(members);
    var regular := Regular(members);
    r := RemoveWhiteoutTargets(layerPaths, whiteouts);
    r := RemoveReplaced(r, NotDirs(regular));
    assert r == PruneAll(layerPaths, members);
    r := r + [regular];
  }

  lemma FlattenLast(layers: seq<seq<Member>>, raw: seq<Member>)
    ensures Flatten(layers + [raw]) == PruneAll(Flatten(layers), Clean(raw)) + [Regular(Clean(raw))]
  {
    assert (layers + [raw])[..|layers|] == layers;
  }

  /** The first pass: which members of each layer to extract. */
  method SelectMembers(eldest: LayerChain.Layer?, ghost chain: seq<Layer>,
      exclude: set<string>, tars: string -> seq<Member>)
    returns (layerPaths: seq<seq<Member>>)
    requires LayerChain.Linked(eldest, chain)
    ensures layerPaths == Flatten(Selected(chain, exclude, tars))
  {
    layerPaths := [];
    var layer := eldest;
    ghost var k := 0;
    while layer != null
      invariant 0 <= k <= |chain| && (layer == null <==> k == |chain|) && (layer != null ==> layer == chain[k])
      invariant layerPaths == Flatten(Selected(chain[..k], exclude, tars))
      decreases |chain| - k
    {
      assert chain[..k + 1][..k] == chain[..k];
      LayerChain.Next(eldest, chain, k);
      if layer.blobSum !in exclude {
        ghost var before := Selected(chain[..k], exclude, tars);
        FlattenLast(before, tars(layer.blobSum));
        layerPaths := PushLayer(layerPaths, tars(layer.blobSum));
      }
      layer, k := layer.child, k + 1;
    }
    assert chain[..k] == chain;
  }

  /** The second pass: extract the selected members of each layer; None when that raises an error. */
  method ExtractMembers(eldest: LayerChain.Layer?, ghost chain: seq<Layer>, exclude: set<string>,
                        ghost tars: string -> seq<Member>, layerPaths: seq<seq<Member>>)
    returns (r: Option<FileSystem>)
    requires LayerChain.Linked(eldest, chain) && |layerPaths| == |Selected(chain, exclude, tars)|
    ensures r == ExtractAll(layerPaths)
  {
    var fs: FileSystem := map[];
    var layerIdx, layer := 0, eldest;
    ghost var k := 0;
    while layer != null
      invariant 0 <= k <= |chain| && (layer == null <==> k == |chain|) && (layer != null ==> layer == chain[k])
      invariant layerIdx == |Selected(chain[..k], exclude, tars)| <= |layerPaths|
      invariant ExtractAll(layerPaths[..layerIdx]) == Some(fs)
      decreases |chain| - k
    {
      assert chain[..k + 1][..k] == chain[..k];
      LayerChain.Next(eldest, chain, k);
      SelectedGrows(chain, k + 1, exclude, tars);
      if layer.blobSum !in exclude {
        assert layerPaths[..layerIdx + 1][..layerIdx] == layerPaths[..layerIdx];
        var next := Extract(fs, layerPaths[layerIdx]);
        if next.None? {
          ExtractAllStops(layerPaths, layerIdx + 1);
          return None;
        }
        fs, layerIdx := next.value, layerIdx + 1;
      }
      layer, k := layer.child, k + 1;
    }
    assert chain[..k] == chain && layerPaths[..layerIdx] == layerPaths;
    r := Some(fs);
  }

  lemma {:induction false} ExtractAllStops(lists: seq<seq<Member>>, k: nat)
    requires k <= |lists| && ExtractAll(lists[..k]).None?
    ensures ExtractAll(lists).None?
  {
    if k < |lists| {
      assert lists[..|lists| - 1][..k] == lists[..k];
      ExtractAllStops(lists[..|lists| - 1], k);
    } else {
      assert lists[..k] == lists;
    }
  }

  /** Both passes: what ends up below the base path, and when it is what applying the layers one by one leaves. */
  method ExtractDockerLayers(
    eldest: LayerChain.Layer?, ghost chain: seq<Layer>, exclude: set<string>, tars: string -> seq<Member>)
    returns (r: Option<FileSystem>)
    requires LayerChain.Linked(eldest, chain)
    ensures r == ExtractAll(Flatten(Selected(chain, exclude, tars)))
    ensures var layers := Selected(chain, exclude, tars);
            AllWellFormed(layers) && AllUnique(Cleaned(layers)) ==>
              (r == Some(ApplyAll(layers)) <==> !DirOverFile(layers)) && (r.None? <==> MemberBelowFile(layers))
  {
    var layerPaths := SelectMembers(eldest, chain, exclude, tars);
    r := ExtractMembers(eldest, chain, exclude, tars, layerPaths);
    ghost var layers := Selected(chain, exclude, tars);
    if AllWellFormed(layers) && AllUnique(Cleaned(layers)) {
      FlattenPreservesMeaning(layers);
      FlattenFails(layers);
    }
  }

  lemma {:induction false} SelectedGrows(chain: seq<Layer>, k: nat, exclude: set<string>, tars: string -> seq<Member>)
    requires k <= |chain|
    ensures |Selected(chain[..k], exclude, tars)| <= |Selected(chain, exclude, tars)|
    decreases |chain|
  {
    if k < |chain| {
      assert chain[..|chain| - 1][..k] == chain[..k];
      SelectedGrows(chain[..|chain| - 1], k, exclude, tars);
    } else {
      assert chain[..k] == chain;
    }
  }
}
