/** The linked list of layers built from a manifest's history (dockerv2.py, _construct_image_metadata). */
module LayerChain {
  import opened Wrappers

  /** One history entry: without the compatibility record, or with that record's optional keys. */
  datatype HistoryEntry = Unknown | Entry(id: Option<string>, parent: Option<string>)

  datatype Manifest = Manifest(schemaVersion: Option<int>, fsLayers: Option<seq<string>>,
                               history: Option<seq<HistoryEntry>>, hasSignatures: bool)

  datatype ManifestError =
    | IncorrectFormat | IncompatibleSchema | SizeMismatch | UnknownLayerFormat
    | SecondRoot | MultipleInheritance | MissingId | KeyMissing | NoRoot

  /** A layer's record, with the link that is filled in while walking the history. */
  class Layer {
    const id: string
    const parent: Option<string>
    const blobSum: string
    var child: Layer?

    constructor (id: string, parent: Option<string>, blobSum: string)
      ensures this.id == id && this.parent == parent && this.blobSum == blobSum && child == null
    {
      this.id, this.parent, this.blobSum, this.child := id, parent, blobSum, null;
    }
  }

  /** `chain` is what following `child` from `first` visits. */
  ghost predicate Linked(first: Layer?, chain: seq<Layer>)
    reads chain
  {
    && (first == null <==> chain == [])
    && (chain != [] ==> first == chain[0] && chain[|chain| - 1].child == null)
    && forall i :: 0 <= i < |chain| - 1 ==> chain[i].child == chain[i + 1]
  }

  lemma Next(first: Layer?, chain: seq<Layer>, k: nat)
    requires Linked(first, chain) && k < |chain|
    ensures chain[k].child == null <==> k + 1 == |chain|
    ensures k + 1 < |chain| ==> chain[k].child == chain[k + 1]
  {
  }

  // ---------- specification on history indices ----------

  /** The layer without a parent, and for each parent id the layer that names it. */
  datatype Collected = Collected(root: Option<nat>, byParent: map<string, nat>)

  function AddEntry(c: Collected, history: seq<HistoryEntry>, i: nat): Result<Collected, ManifestError>
    requires i < |history| && Sound(c, history, i)
  {
    match history[i]
    case Unknown => Err(UnknownLayerFormat)
    case Entry(id, None) =>
      if c.root.Some? then Err(SecondRoot)
      else if id.None? then Err(MissingId)
      else Ok(c.(root := Some(i)))
    case Entry(id, Some(p)) =>
      if p in c.byParent then
        if id.None? then Err(KeyMissing)
        else if history[c.byParent[p]].id == id then Ok(c)
        else Err(MultipleInheritance)
      else if id.None? then Err(MissingId)
      else Ok(c.(byParent := c.byParent[p := i]))
  }

  /** Entry `i` is a layer with an id that names `p` as its parent. */
  predicate Names(history: seq<HistoryEntry>, i: nat, p: string) {
    i < |history| && history[i].Entry? && history[i].id.Some?
    && history[i].parent.Some? && history[i].parent.value == p
  }

  predicate IsRoot(history: seq<HistoryEntry>, i: nat) {
    i < |history| && history[i].Entry? && history[i].id.Some? && history[i].parent.None?
  }

  /** A layer kept by the collection is an entry with an id, stored under its own parent. */
  ghost predicate Sound(c: Collected, history: seq<HistoryEntry>, n: nat) {
    && (c.root.Some? ==> c.root.value < n && IsRoot(history, c.root.value))
    && forall p :: p in c.byParent ==> c.byParent[p] < n && Names(history, c.byParent[p], p)
  }

  function Collect(history: seq<HistoryEntry>, n: nat): (r: Result<Collected, ManifestError>)
    requires n <= |history|
    ensures r.Ok? ==> Sound(r.value, history, n)
  {
    if n == 0 then Ok(Collected(None, map[]))
    else
      var c :- Collect(history, n - 1);
      AddEntry(c, history, n - 1)
  }

  function IdOf(history: seq<HistoryEntry>, i: nat): string {
    if i < |history| && history[i].Entry? && history[i].id.Some? then history[i].id.value else ""
  }

  /** The walk: each step uses up one map entry, so it ends whatever the parent relation is. */
  function Walk(history: seq<HistoryEntry>, byParent: map<string, nat>, curr: nat): (w: seq<nat>)
    ensures |w| > 0 && w[0] == curr
    decreases |byParent|
  {
    var id := IdOf(history, curr);
    if id in byParent then
      assert |byParent - {id}| < |byParent| by { assert (byParent - {id}).Keys == byParent.Keys - {id}; }
      [curr] + Walk(history, byParent - {id}, byParent[id])
    else [curr]
  }

  function Order(history: seq<HistoryEntry>): (r: Result<seq<nat>, ManifestError>) {
    var c :- Collect(history, |history|);
    if c.root.None? then Err(NoRoot) else Ok(Walk(history, c.byParent, c.root.value))
  }

  function CheckManifest(m: Option<Manifest>): Result<Manifest, ManifestError> {
    match m
    case None => Err(IncorrectFormat)
    case Some(m) =>
      if m.schemaVersion.None? || m.fsLayers.None? || m.history.None? || !m.hasSignatures then Err(IncorrectFormat)
      else if m.schemaVersion.value != 1 then Err(IncompatibleSchema)
      else if |m.fsLayers.value| != |m.history.value| then Err(SizeMismatch)
      else Ok(m)
  }

  function ChainOrder(m: Option<Manifest>): Result<seq<nat>, ManifestError> {
    var ok :- CheckManifest(m);
    if ok.history.Some? then Order(ok.history.value) else Err(IncorrectFormat)
  }

  // ---------- which histories are accepted ----------

  /** Entry `i` has no parent. */
  predicate Parentless(history: seq<HistoryEntry>, i: nat) {
    i < |history| && history[i].Entry? && history[i].parent.None?
  }

  /** Entry `i` has parent `p`, with or without an id of its own. */
  predicate HasParent(history: seq<HistoryEntry>, i: nat, p: string) {
    i < |history| && history[i].Entry? && history[i].parent == Some(p)
  }

  /** The first entry that has parent `p`. */
  predicate FirstChild(history: seq<HistoryEntry>, p: string, j: nat) {
    HasParent(history, j, p) && forall k :: 0 <= k < j ==> !HasParent(history, k, p)
  }

  /**
   * What is wrong with entry `i`, seen from the entries before it: it cannot be read; it is a second one without a
   * parent; it has the parent of an earlier one, but not its id; or it has no id.
   */
  ghost predicate Faulty(history: seq<HistoryEntry>, i: nat, error: ManifestError)
    requires i < |history|
  {
    match error
    case UnknownLayerFormat => history[i].Unknown?
    case SecondRoot => Parentless(history, i) && exists k :: 0 <= k < i && Parentless(history, k)
    case KeyMissing => RepeatsParent(history, i) && history[i].id.None?
    case MultipleInheritance => RepeatsParent(history, i) && history[i].id.Some? && OtherChild(history, i)
    case MissingId =>
      && history[i].Entry? && history[i].id.None? && !RepeatsParent(history, i)
      && (Parentless(history, i) ==> forall k :: 0 <= k < i ==> !Parentless(history, k))
    case _ => false
  }

  ghost predicate RepeatsParent(history: seq<HistoryEntry>, i: nat)
    requires i < |history|
  {
    && history[i].Entry? && history[i].parent.Some?
    && exists k :: 0 <= k < i && HasParent(history, k, history[i].parent.value)
  }

  /** The first child of its parent has another id. */
  ghost predicate OtherChild(history: seq<HistoryEntry>, i: nat)
    requires i < |history| && history[i].Entry? && history[i].parent.Some?
  {
    exists j :: 0 <= j < i && FirstChild(history, history[i].parent.value, j) && history[j].id != history[i].id
  }

  ghost predicate Fine(history: seq<HistoryEntry>, i: nat)
    requires i < |history|
  {
    forall error :: !Faulty(history, i, error)
  }

  /** The collection so far knows the entry without a parent, and the first child of each parent. */
  ghost predicate Knows(c: Collected, history: seq<HistoryEntry>, n: nat) {
    && (c.root.Some? <==> exists k :: 0 <= k < n && Parentless(history, k))
    && (forall p :: p in c.byParent <==> exists k :: 0 <= k < n && HasParent(history, k, p))
    && (forall p :: p in c.byParent ==> FirstChild(history, p, c.byParent[p]))
  }

  lemma RepeatsIsKnown(c: Collected, history: seq<HistoryEntry>, i: nat)
    requires i < |history| && history[i].Entry? && history[i].parent.Some?
    requires Sound(c, history, i) && Knows(c, history, i)
    ensures RepeatsParent(history, i) <==> history[i].parent.value in c.byParent
    ensures var p := history[i].parent.value;
            p in c.byParent ==> (OtherChild(history, i) <==> history[c.byParent[p]].id != history[i].id)
  {
    var p := history[i].parent.value;
    if p in c.byParent {
      var first := c.byParent[p];
      assert FirstChild(history, p, first) && first < i;
      if OtherChild(history, i) {
        var j :| 0 <= j < i && FirstChild(history, p, j) && history[j].id != history[i].id;
        assert j == first;
      }
    }
  }

  /** One entry is refused exactly for what is wrong with it. */
  lemma EntryExact(c: Collected, history: seq<HistoryEntry>, i: nat)
    requires i < |history| && Sound(c, history, i) && Knows(c, history, i)
    ensures AddEntry(c, history, i).Ok? <==> Fine(history, i)
    ensures AddEntry(c, history, i).Err? ==> Faulty(history, i, AddEntry(c, history, i).error)
  {
    hide RepeatsParent, OtherChild;
    if history[i].Entry? && history[i].parent.Some? {
      RepeatsIsKnown(c, history, i);
    } else if history[i].Entry? {
      assert Parentless(history, i) && !RepeatsParent(history, i) by { NoParentRepeats(history, i); }
    }
    var r := AddEntry(c, history, i);
    assert r.Err? ==> Faulty(history, i, r.error);
    if r.Ok? {
      forall error ensures !Faulty(history, i, error) {
      }
    }
  }

  lemma NoParentRepeats(history: seq<HistoryEntry>, i: nat)
    requires i < |history| && history[i].Entry? && history[i].parent.None?
    ensures !RepeatsParent(history, i)
  {
  }

  /** After a good entry, everything up to it is known. */
  lemma EntryKnown(c: Collected, history: seq<HistoryEntry>, i: nat)
    requires i < |history| && Sound(c, history, i) && Knows(c, history, i) && AddEntry(c, history, i).Ok?
    ensures Knows(AddEntry(c, history, i).value, history, i + 1)
  {
    var next := AddEntry(c, history, i).value;
    assert Parentless(history, i) ==> next.root == Some(i);
    forall p ensures p in next.byParent <==> exists k :: 0 <= k < i + 1 && HasParent(history, k, p) {
      if p in next.byParent && p !in c.byParent {
        assert HasParent(history, i, p);
      }
      if k :| 0 <= k < i + 1 && HasParent(history, k, p) {
        assert k < i ==> p in c.byParent;
      }
    }
  }

  /** A history is collected exactly when no entry has anything wrong with it; if not, the first fault is the error. */
  lemma {:induction false} CollectExact(history: seq<HistoryEntry>, n: nat)
    requires n <= |history|
    ensures Collect(history, n).Ok? <==> forall i :: 0 <= i < n ==> Fine(history, i)
    ensures Collect(history, n).Ok? ==> Knows(Collect(history, n).value, history, n)
    ensures Collect(history, n).Err? ==>
              exists i :: 0 <= i < n && Faulty(history, i, Collect(history, n).error)
                          && forall k :: 0 <= k < i ==> Fine(history, k)
  {
    hide Faulty, Fine, Knows, AddEntry, Sound;
    if n > 0 {
      CollectExact(history, n - 1);
      if Collect(history, n - 1).Ok? {
        EntryExact(Collect(history, n - 1).value, history, n - 1);
        if Collect(history, n).Ok? { EntryKnown(Collect(history, n - 1).value, history, n - 1); }
      }
    } else {
      KnowsNothing(history);
    }
  }

  lemma KnowsNothing(history: seq<HistoryEntry>)
    ensures Knows(Collected(None, map[]), history, 0)
  {
  }

  // ---------- the walk visits a chain, once ----------

  /** The id that the `k`-th entry of a chain must name as its parent. */
  function ParentInChain(history: seq<HistoryEntry>, order: seq<nat>, k: nat): string
    requires 0 < k < |order|
  {
    IdOf(history, order[k - 1])
  }

  /** The `k`-th layer of a chain names the one before it as its parent. */
  predicate Follows(history: seq<HistoryEntry>, order: seq<nat>, k: nat)
    requires 0 < k < |order|
  {
    Names(history, order[k], ParentInChain(history, order, k))
  }

  /** Each layer of a chain follows the one before it, and the ids it is looked up by all differ. */
  ghost predicate IsChain(history: seq<HistoryEntry>, order: seq<nat>) {
    && (forall k :: 0 < k < |order| ==> Follows(history, order, k))
    && (forall j, k :: 0 < j < k < |order| ==> ParentInChain(history, order, j) != ParentInChain(history, order, k))
  }

  ghost predicate Injective(m: map<string, nat>) {
    forall p, q :: p in m && q in m && m[p] == m[q] ==> p == q
  }

  ghost predicate Distinct(s: seq<nat>) {
    forall i, j :: 0 <= i < j < |s| ==> s[i] != s[j]
  }

  /** No layer is visited twice, and everything visited after the start was collected. */
  lemma {:induction false} WalkVisitsOnce(history: seq<HistoryEntry>, byParent: map<string, nat>, curr: nat)
    requires Injective(byParent) && curr !in byParent.Values
    ensures Distinct(Walk(history, byParent, curr))
    ensures forall i :: 0 < i < |Walk(history, byParent, curr)| ==> Walk(history, byParent, curr)[i] in byParent.Values
    decreases |byParent|
  {
    var id := IdOf(history, curr);
    if id in byParent {
      var rest := byParent - {id};
      assert rest.Keys == byParent.Keys - {id};
      assert byParent[id] !in rest.Values;
      assert byParent[id] in byParent.Values;
      assert forall v :: v in rest.Values ==> v in byParent.Values;
      WalkVisitsOnce(history, rest, byParent[id]);
      assert Walk(history, byParent, curr) == [curr] + Walk(history, rest, byParent[id]);
    }
  }

  /** Each visited layer is followed by one whose parent is its id, and no id is looked up twice. */
  lemma {:induction false} WalkFollowsParents(history: seq<HistoryEntry>,
      byParent: map<string, nat>, curr: nat, w: seq<nat>)
    requires forall p :: p in byParent ==> Names(history, byParent[p], p)
    requires w == Walk(history, byParent, curr)
    ensures IsChain(history, w)
    ensures forall k :: 0 < k < |w| ==>
              ParentInChain(history, w, k) in byParent && byParent[ParentInChain(history, w, k)] == w[k]
    ensures var last := IdOf(history, w[|w| - 1]);
            last in byParent ==> exists k :: 0 < k < |w| && ParentInChain(history, w, k) == last
    decreases |byParent|
  {
    var id := IdOf(history, curr);
    if id in byParent {
      var rest, tail := byParent - {id}, w[1..];
      assert rest.Keys == byParent.Keys - {id};
      WalkFollowsParents(history, rest, byParent[id], tail);
      forall k | 0 < k < |w|
        ensures Follows(history, w, k) && ParentInChain(history, w, k) ==
                  if k == 1 then id else ParentInChain(history, tail, k - 1)
      {
        if k > 1 { assert Follows(history, tail, k - 1); }
      }
      var last := IdOf(history, w[|w| - 1]);
      assert tail[|tail| - 1] == w[|w| - 1];
      if last == id {
        assert ParentInChain(history, w, 1) == last;
      } else if last in byParent {
        var k :| 0 < k < |tail| && ParentInChain(history, tail, k) == last;
        assert ParentInChain(history, w, k + 1) == last;
      }
    }
  }

  // ---------- when the walk covers the whole history ----------

  /** `order` lists every history entry once, from the root along parent links, with ids that differ
      (the last layer's id is never looked up and may be anything). */
  ghost predicate SingleChain(history: seq<HistoryEntry>, order: seq<nat>) {
    && |order| == |history| > 0 && Distinct(order)
    && IsRoot(history, order[0]) && IsChain(history, order)
  }

  lemma CollectedIsInjective(history: seq<HistoryEntry>, c: Collected, n: nat)
    requires Sound(c, history, n)
    ensures Injective(c.byParent)
    ensures c.root.Some? ==> c.root.value !in c.byParent.Values
  {
    forall p, q | p in c.byParent && q in c.byParent && c.byParent[p] == c.byParent[q] ensures p == q {
      assert Names(history, c.byParent[p], p) && Names(history, c.byParent[q], q);
    }
  }

  /** The collection holds exactly the entries at these positions of the chain, each under its parent. */
  ghost predicate HoldsChain(history: seq<HistoryEntry>, order: seq<nat>, byParent: map<string, nat>, held: set<nat>) {
    && (forall k :: k in held && 0 < k < |order| ==>
          ParentInChain(history, order, k) in byParent && byParent[ParentInChain(history, order, k)] == order[k])
    && (forall p :: p in byParent ==>
          exists k :: k in held && 0 < k < |order| && p == ParentInChain(history, order, k))
  }

  lemma HoldOneMore(history: seq<HistoryEntry>, order: seq<nat>, byParent: map<string, nat>, held: set<nat>, k: nat)
    requires SingleChain(history, order) && 0 < k < |order| && k !in held
    requires HoldsChain(history, order, byParent, held)
    ensures ParentInChain(history, order, k) !in byParent
    ensures HoldsChain(history, order, byParent[ParentInChain(history, order, k) := order[k]], held + {k})
  {
  }

  /** The positions of the chain whose history index is below `n`. */
  function Seen(order: seq<nat>, n: nat): set<nat> {
    set k | 0 <= k < |order| && order[k] < n
  }

  lemma HoldRoot(history: seq<HistoryEntry>, order: seq<nat>, byParent: map<string, nat>, held: set<nat>)
    requires HoldsChain(history, order, byParent, held)
    ensures HoldsChain(history, order, byParent, held + {0})
  {
  }

  lemma SeenStep(order: seq<nat>, n: nat, k: nat)
    requires Distinct(order) && k < |order| && order[k] == n
    ensures k !in Seen(order, n) && Seen(order, n + 1) == Seen(order, n) + {k}
  {
  }

  /** What has been collected after `n` entries of a single chain. */
  ghost predicate CollectedChain(history: seq<HistoryEntry>, order: seq<nat>, n: nat)
    requires n <= |history| && order != []
  {
    && Collect(history, n).Ok?
    && Collect(history, n).value.root == (if order[0] < n then Some(order[0]) else None)
    && HoldsChain(history, order, Collect(history, n).value.byParent, Seen(order, n))
  }

  lemma CollectOneMore(history: seq<HistoryEntry>, order: seq<nat>, n: nat, k: nat)
    requires n < |history| && SingleChain(history, order)
    requires k < |order| && order[k] == n
    requires CollectedChain(history, order, n)
    ensures CollectedChain(history, order, n + 1)
  {
    var c := Collect(history, n).value;
    SeenStep(order, n, k);
    assert Collect(history, n + 1) == AddEntry(c, history, n);
    if k == 0 {
      HoldRoot(history, order, c.byParent, Seen(order, n));
    } else {
      assert order[0] != order[k] && Follows(history, order, k);
      HoldOneMore(history, order, c.byParent, Seen(order, n), k);
    }
  }

  lemma {:induction false} CollectSingleChain(history: seq<HistoryEntry>, order: seq<nat>, n: nat)
    requires SingleChain(history, order) && n <= |history|
    requires forall i :: 0 <= i < |history| ==> i in order
    ensures CollectedChain(history, order, n)
  {
    hide *;
    if n > 0 {
      CollectSingleChain(history, order, n - 1);
      assert n - 1 in order;
      var k :| 0 <= k < |order| && order[k] == n - 1;
      SingleChainStarts(history, order);
      CollectOneMore(history, order, n - 1, k);
    } else {
      CollectNothing(history, order);
    }
  }

  lemma SingleChainStarts(history: seq<HistoryEntry>, order: seq<nat>)
    requires SingleChain(history, order)
    ensures order != []
  {
  }

  lemma CollectNothing(history: seq<HistoryEntry>, order: seq<nat>)
    requires SingleChain(history, order)
    ensures CollectedChain(history, order, 0)
  {
    assert Seen(order, 0) == {};
  }

  /** A walk over a collected single chain goes from one position to the next. */
  lemma {:induction false} WalkAgrees(history: seq<HistoryEntry>, order: seq<nat>, w: seq<nat>, k: nat)
    requires |w| > 0 && |order| > 0 && w[0] == order[0]
    requires forall i :: 0 < i < |w| && i < |order| && w[i - 1] == order[i - 1] ==> w[i] == order[i]
    requires k < |w| && k < |order|
    ensures w[k] == order[k]
  {
    if k > 0 {
      WalkAgrees(history, order, w, k - 1);
    }
  }

  lemma WalkStaysOnChain(history: seq<HistoryEntry>, order: seq<nat>, byParent: map<string, nat>, w: seq<nat>, i: nat)
    requires 0 < i < |w| && i < |order| && w[i - 1] == order[i - 1]
    requires ParentInChain(history, w, i) in byParent && byParent[ParentInChain(history, w, i)] == w[i]
    requires ParentInChain(history, order, i) in byParent && byParent[ParentInChain(history, order, i)] == order[i]
    ensures w[i] == order[i]
  {
  }

  function Elements(s: seq<nat>): (r: set<nat>)
    ensures forall x :: x in r <==> x in s
  {
    set x | x in s
  }

  lemma {:induction false} DistinctCount(s: seq<nat>)
    requires Distinct(s)
    ensures |Elements(s)| == |s|
  {
    if s != [] {
      DistinctCount(s[1..]);
      assert Elements(s) == {s[0]} + Elements(s[1..]);
    } else {
      assert Elements(s) == {};
    }
  }

  function Below(n: nat): (r: set<nat>)
    ensures |r| == n && forall x: int :: x in r <==> 0 <= x < n
  {
    if n == 0 then {} else Below(n - 1) + {n - 1}
  }

  lemma SubsetCount(a: set<nat>, b: set<nat>)
    requires a <= b
    ensures |a| <= |b| && (|a| == |b| ==> a == b)
  {
    assert b == a + (b - a);
  }

  /** Distinct indices below `n` are at most `n`, and if they are `n` they are all of them. */
  lemma DistinctCovers(s: seq<nat>, n: nat)
    requires Distinct(s) && forall x :: x in s ==> x < n
    ensures |s| <= n
    ensures |s| == n ==> forall i :: 0 <= i < n ==> i in s
  {
    DistinctCount(s);
    SubsetCount(Elements(s), Below(n));
    if |s| == n {
      forall i | 0 <= i < n ensures i in s { assert i in Below(n); }
    }
  }

  lemma ChainIsWithinHistory(history: seq<HistoryEntry>, order: seq<nat>)
    requires SingleChain(history, order)
    ensures forall i :: 0 <= i < |history| ==> i in order
  {
    forall i | 0 <= i < |order| ensures order[i] < |history| {
      if i > 0 { assert Follows(history, order, i); }
    }
    DistinctCovers(order, |history|);
  }

  /** Whatever the history, a successful result starts at the only root, follows parent links and visits
      no layer twice; if it visits as many layers as the history has, it is the history's single chain. */
  lemma OrderIsChain(history: seq<HistoryEntry>)
    requires Order(history).Ok?
    ensures var w := Order(history).value;
            && Distinct(w) && 0 < |w| <= |history| && IsRoot(history, w[0])
            && IsChain(history, w)
            && (|w| == |history| ==> SingleChain(history, w))
  {
    var c := Collect(history, |history|).value;
    var w := Order(history).value;
    CollectedIsInjective(history, c, |history|);
    WalkVisitsOnce(history, c.byParent, c.root.value);
    WalkFollowsParents(history, c.byParent, c.root.value, w);
    DistinctCovers(w, |history|);
  }

  /** The walk covers the whole history exactly when the history is one chain. */
  lemma WalkCoversSingleChain(history: seq<HistoryEntry>)
    ensures Order(history).Ok? && |Order(history).value| == |history|
       <==> exists order :: SingleChain(history, order)
  {
    if order :| SingleChain(history, order) {
      ChainIsCovered(history, order);
    } else if Order(history).Ok? {
      OrderIsChain(history);
    }
  }

  lemma ChainIsCovered(history: seq<HistoryEntry>, order: seq<nat>)
    requires SingleChain(history, order)
    ensures Order(history).Ok? && |Order(history).value| == |history|
  {
    ChainIsWithinHistory(history, order);
    CollectSingleChain(history, order, |history|);
    AllSeen(history, order);
    OrderIsChain(history);
    var byParent, w := Collect(history, |history|).value.byParent, Order(history).value;
    WalkFollowsParents(history, byParent, order[0], w);
    forall i | 0 < i < |w| && i < |order| && w[i - 1] == order[i - 1] ensures w[i] == order[i] {
      WalkStaysOnChain(history, order, byParent, w, i);
    }
    WalkReachesEnd(history, order, byParent, w);
  }

  lemma WalkReachesEnd(history: seq<HistoryEntry>, order: seq<nat>, byParent: map<string, nat>, w: seq<nat>)
    requires 0 < |w| <= |order| && w[0] == order[0] && IsChain(history, order)
    requires forall i :: 0 < i < |w| && i < |order| && w[i - 1] == order[i - 1] ==> w[i] == order[i]
    requires forall k :: 0 < k < |order| ==> ParentInChain(history, order, k) in byParent
    requires var last := IdOf(history, w[|w| - 1]);
             last in byParent ==> exists k :: 0 < k < |w| && ParentInChain(history, w, k) == last
    ensures |w| == |order|
  {
    assert |w| < |order| ==> ParentInChain(history, order, |w|) in byParent;
    if |w| < |order| {
      WalkAgrees(history, order, w, |w| - 1);
      forall k | 0 < k < |w| ensures ParentInChain(history, w, k) != IdOf(history, w[|w| - 1]) {
        WalkAgrees(history, order, w, k - 1);
        assert ParentInChain(history, order, k) != ParentInChain(history, order, |w|);
      }
    }
  }

  lemma AllSeen(history: seq<HistoryEntry>, order: seq<nat>)
    requires SingleChain(history, order)
    ensures forall x: int :: x in Seen(order, |history|) <==> 0 <= x < |order|
    ensures order[0] < |history|
  {
    forall k | 0 < k < |order| ensures order[k] < |history| {
      assert Follows(history, order, k);
    }
  }

  // ---------- the code ----------

  /** The record that a history entry is decoded into. */
  ghost predicate Decodes(layer: Layer, m: Manifest, i: nat) {
    && m.history.Some? && i < |m.history.value| && m.history.value[i].Entry?
    && m.fsLayers.Some? && i < |m.fsLayers.value|
    && layer.id == IdOf(m.history.value, i)
    && layer.parent == m.history.value[i].parent
    && layer.blobSum == m.fsLayers.value[i]
  }

  /** The dictionary and the root found so far, as objects. */
  ghost predicate Holds(c: Collected, m: Manifest, nodes: map<nat, Layer>, layers: map<string, Layer>, noParent: Layer?)
    requires m.history.Some?
  {
    && (forall i :: i in nodes ==> Decodes(nodes[i], m, i))
    && (forall i, j :: i in nodes && j in nodes && i != j ==> nodes[i] != nodes[j])
    && layers.Keys == c.byParent.Keys
    && (forall p :: p in layers ==> c.byParent[p] in nodes && layers[p] == nodes[c.byParent[p]])
    && (c.root.None? <==> noParent == null)
    && (c.root.Some? ==> c.root.value in nodes && noParent == nodes[c.root.value])
  }

  lemma HoldsRoot(c: Collected, m: Manifest, nodes: map<nat, Layer>, layers: map<string, Layer>, i: nat, layer: Layer)
    requires m.history.Some? && Holds(c, m, nodes, layers, null)
    requires i !in nodes && Decodes(layer, m, i) && forall j :: j in nodes ==> nodes[j] != layer
    ensures Holds(c.(root := Some(i)), m, nodes[i := layer], layers, layer)
  {
  }

  lemma HoldsLayer(c: Collected, m: Manifest, nodes: map<nat, Layer>, layers: map<string, Layer>, noParent: Layer?,
                   i: nat, p: string, layer: Layer)
    requires m.history.Some? && Holds(c, m, nodes, layers, noParent)
    requires i !in nodes && Decodes(layer, m, i) && forall j :: j in nodes ==> nodes[j] != layer
    ensures Holds(c.(byParent := c.byParent[p := i]), m, nodes[i := layer], layers[p := layer], noParent)
  {
  }

  /** One turn of the loop over the history. */
  method DecodeLayer(m: Manifest, idx: nat, layers: map<string, Layer>, noParent: Layer?,
                     ghost c: Collected, ghost nodes: map<nat, Layer>)
    returns (error: Option<ManifestError>, newLayers: map<string, Layer>, newNoParent: Layer?,
             ghost newC: Collected, ghost newNodes: map<nat, Layer>)
    requires m.history.Some? && m.fsLayers.Some? && |m.fsLayers.value| == |m.history.value|
    requires idx < |m.history.value| && Sound(c, m.history.value, idx) && Holds(c, m, nodes, layers, noParent)
    requires idx !in nodes
    ensures error.Some? ==> AddEntry(c, m.history.value, idx) == Err(error.value)
    ensures error.None? ==> AddEntry(c, m.history.value, idx) == Ok(newC)
    ensures error.None? ==> Holds(newC, m, newNodes, newLayers, newNoParent)
    ensures forall i :: i in newNodes ==> (i in nodes && newNodes[i] == nodes[i]) || (i == idx && fresh(newNodes[i]))
  {
    var entry := m.history.value[idx];
    error, newLayers, newNoParent, newC, newNodes := None, layers, noParent, c, nodes;
    if entry.Unknown? {
      error := Some(UnknownLayerFormat);
    } else if entry.parent.None? {
      if noParent != null {
        error := Some(SecondRoot);
      } else if entry.id.None? {
        error := Some(MissingId);
      } else {
        newNoParent := new Layer(entry.id.value, None, m.fsLayers.value[idx]);
        newC, newNodes := c.(root := Some(idx)), nodes[idx := newNoParent];
        HoldsRoot(c, m, nodes, layers, idx, newNoParent);
      }
    } else {
      var p := entry.parent.value;
      if p in layers {
        if entry.id.None? {
          error := Some(KeyMissing);
        } else if layers[p].id != entry.id.value {
          error := Some(MultipleInheritance);
        }
      } else if entry.id.None? {
        error := Some(MissingId);
      } else {
        var layer := new Layer(entry.id.value, entry.parent, m.fsLayers.value[idx]);
        newLayers, newC, newNodes := layers[p := layer], c.(byParent := c.byParent[p := idx]), nodes[idx := layer];
        HoldsLayer(c, m, nodes, layers, noParent, idx, p, layer);
      }
    }
  }

  /** Decoding the history: the layers by the parent they name, and the one without a parent. */
  method CollectLayers(m: Manifest)
    returns (r: Result<map<string, Layer>, ManifestError>, noParent: Layer?, ghost nodes: map<nat, Layer>)
    requires m.history.Some? && m.fsLayers.Some? && |m.fsLayers.value| == |m.history.value|
    ensures r.Ok? <==> Collect(m.history.value, |m.history.value|).Ok?
    ensures r.Err? ==> r.error == Collect(m.history.value, |m.history.value|).error
    ensures r.Ok? ==> Holds(Collect(m.history.value, |m.history.value|).value, m, nodes, r.value, noParent)
    ensures forall i :: i in nodes ==> fresh(nodes[i])
  {
    hide Collect, AddEntry, Holds, Decodes;
    var history := m.history.value;
    var layers: map<string, Layer> := map[];
    noParent, nodes := null, map[];
    NothingCollected(m, nodes, layers);
    ghost var c := Collect(history, 0).value;
    var idx := 0;
    while idx < |history|
      invariant 0 <= idx <= |history|
      invariant Collect(history, idx).Ok? && Collect(history, idx).value == c
      invariant Holds(c, m, nodes, layers, noParent)
      invariant forall i :: i in nodes ==> i < idx && fresh(nodes[i])
    {
      CollectStep(history, idx);
      var error;
      error, layers, noParent, c, nodes := DecodeLayer(m, idx, layers, noParent, c, nodes);
      idx := idx + 1;
      if error.Some? {
        CollectStopsAt(history, idx, |history|);
        return Err(error.value), noParent, nodes;
      }
    }
    r := Ok(layers);
  }

  lemma NothingCollected(m: Manifest, nodes: map<nat, Layer>, layers: map<string, Layer>)
    requires m.history.Some? && nodes == map[] && layers == map[]
    ensures Collect(m.history.value, 0).Ok? && Holds(Collect(m.history.value, 0).value, m, nodes, layers, null)
  {
  }

  lemma CollectStep(history: seq<HistoryEntry>, n: nat)
    requires n < |history| && Collect(history, n).Ok?
    ensures Sound(Collect(history, n).value, history, n)
    ensures Collect(history, n + 1) == AddEntry(Collect(history, n).value, history, n)
  {
    hide AddEntry;
  }

  lemma {:induction false} CollectStopsAt(history: seq<HistoryEntry>, n: nat, m: nat)
    requires n <= m <= |history| && Collect(history, n).Err?
    ensures Collect(history, m) == Collect(history, n)
  {
    if n < m {
      CollectStopsAt(history, n, m - 1);
    }
  }

  /** The same walk over the records themselves. */
  ghost function Visit(layers: map<string, Layer>, curr: Layer): (w: seq<Layer>)
    ensures |w| > 0 && w[0] == curr
    decreases |layers|
  {
    if curr.id in layers then
      assert (layers - {curr.id}).Keys == layers.Keys - {curr.id};
      [curr] + Visit(layers - {curr.id}, layers[curr.id])
    else [curr]
  }

  lemma HoldsLess(m: Manifest, c: Collected, nodes: map<nat, Layer>, layers: map<string, Layer>, id: string, at: nat)
    requires m.history.Some? && Holds(c, m, nodes, layers, null) && at in nodes
    ensures nodes[at].id == IdOf(m.history.value, at)
    ensures layers.Keys == c.byParent.Keys
    ensures id in layers ==> c.byParent[id] in nodes && layers[id] == nodes[c.byParent[id]]
    ensures Holds(c.(byParent := c.byParent - {id}), m, nodes, layers - {id}, null)
  {
  }

  lemma {:induction false} VisitIsWalk(m: Manifest, c: Collected,
      nodes: map<nat, Layer>, layers: map<string, Layer>, at: nat)
    requires m.history.Some? && Holds(c, m, nodes, layers, null) && c.root.None?
    requires at in nodes
    ensures var w := Walk(m.history.value, c.byParent, at);
            && |Visit(layers, nodes[at])| == |w|
            && forall i :: 0 <= i < |w| ==> w[i] in nodes && Visit(layers, nodes[at])[i] == nodes[w[i]]
    decreases |layers|
  {
    hide Holds;
    var id := nodes[at].id;
    HoldsLess(m, c, nodes, layers, id, at);
    if id in layers {
      assert (layers - {id}).Keys == layers.Keys - {id};
      VisitIsWalk(m, c.(byParent := c.byParent - {id}), nodes, layers - {id}, c.byParent[id]);
    }
  }

  /** Follow the chain from the root, linking each layer to its child and using up the dictionary. */
  method LinkLayers(noParent: Layer, found: map<string, Layer>)
    returns (youngest: Layer, ghost chain: seq<Layer>)
    requires forall i, j :: 0 <= i < j < |Visit(found, noParent)| ==>
               Visit(found, noParent)[i] != Visit(found, noParent)[j]
    modifies Visit(found, noParent)
    ensures chain == Visit(found, noParent)
    ensures Linked(noParent, chain) && chain[|chain| - 1] == youngest
  {
    chain := Visit(found, noParent);
    var layers, curr := found, noParent;
    ghost var k := 0;
    while curr.id in layers
      invariant 0 <= k < |chain| && curr == chain[k] && chain[k..] == Visit(layers, curr)
      invariant forall i :: 0 <= i < k ==> chain[i].child == chain[i + 1]
      decreases |layers|
    {
      var id := curr.id;
      assert (layers - {id}).Keys == layers.Keys - {id};
      assert chain[k..] == [curr] + Visit(layers - {id}, layers[id]);
      assert chain[k + 1..] == chain[k..][1..] == Visit(layers - {id}, layers[id]);
      curr.child := layers[id];
      curr, layers := layers[id], layers - {id};
      k := k + 1;
    }
    curr.child := null;
    youngest := curr;
  }

  lemma VisitsDecodedLayers(m: Manifest, c: Collected, nodes: map<nat, Layer>,
      layers: map<string, Layer>, noParent: Layer)
    requires m.history.Some? && Sound(c, m.history.value, |m.history.value|) && c.root.Some?
    requires Holds(c, m, nodes, layers, noParent)
    ensures var order := Walk(m.history.value, c.byParent, c.root.value);
            var chain := Visit(layers, noParent);
            && |chain| == |order|
            && (forall i :: 0 <= i < |order| ==> Decodes(chain[i], m, order[i]))
            && (forall i, j :: 0 <= i < j < |chain| ==> chain[i] != chain[j])
            && forall i :: 0 <= i < |order| ==> order[i] in nodes && chain[i] == nodes[order[i]]
  {
    var history := m.history.value;
    CollectedIsInjective(history, c, |history|);
    WalkVisitsOnce(history, c.byParent, c.root.value);
    VisitIsWalk(m, c.(root := None), nodes, layers, c.root.value);
  }

  /** The error of the first faulty entry; without faults, none exactly when some entry has no parent. */
  ghost predicate HistoryFares(history: seq<HistoryEntry>, error: Option<ManifestError>) {
    if forall i :: 0 <= i < |history| ==> Fine(history, i)
    then error == if exists i :: Parentless(history, i) then None else Some(NoRoot)
    else error.Some? && exists i :: 0 <= i < |history| && Faulty(history, i, error.value)
                                    && forall k :: 0 <= k < i ==> Fine(history, k)
  }

  /** How a manifest fares: by its four keys, its schema, the lengths of its lists and the faults of its history. */
  ghost predicate Fares(manifest: Option<Manifest>, error: Option<ManifestError>) {
    if manifest.None? then error == Some(IncorrectFormat)
    else
      var m := manifest.value;
      if m.schemaVersion.None? || m.fsLayers.None? || m.history.None? || !m.hasSignatures
      then error == Some(IncorrectFormat)
      else if m.schemaVersion != Some(1) then error == Some(IncompatibleSchema)
      else if |m.fsLayers.value| != |m.history.value| then error == Some(SizeMismatch)
      else HistoryFares(m.history.value, error)
  }

  lemma ManifestExact(manifest: Option<Manifest>)
    ensures Fares(manifest, if ChainOrder(manifest).Err? then Some(ChainOrder(manifest).error) else None)
  {
    hide Fine, Faulty, Collect, Walk;
    if manifest.Some? && manifest.value.history.Some? {
      var history := manifest.value.history.value;
      CollectExact(history, |history|);
      var c := Collect(history, |history|);
      if c.Ok? { RootIsKnown(c.value, history); }
    }
  }

  lemma RootIsKnown(c: Collected, history: seq<HistoryEntry>)
    requires Knows(c, history, |history|)
    ensures c.root.Some? <==> exists i :: Parentless(history, i)
  {
  }

  /** The manifest has all its keys and the schema of the first version, and its history is a single chain. */
  ghost predicate IsSingleChain(manifest: Option<Manifest>) {
    && manifest.Some?
    && var m := manifest.value;
    && m.schemaVersion == Some(1) && m.fsLayers.Some? && m.history.Some? && m.hasSignatures
    && |m.fsLayers.value| == |m.history.value|
    && exists order :: SingleChain(m.history.value, order)
  }

  /** A single chain is found, and every entry is in the result. */
  lemma SingleChainFound(manifest: Option<Manifest>)
    requires IsSingleChain(manifest)
    ensures manifest.Some? && manifest.value.history.Some?
    ensures ChainOrder(manifest).Ok? && |ChainOrder(manifest).value| == |manifest.value.history.value|
    ensures forall i :: 0 <= i < |manifest.value.history.value| ==> i in ChainOrder(manifest).value
  {
    var history := manifest.value.history.value;
    WalkCoversSingleChain(history);
    OrderIsChain(history);
    ChainIsWithinHistory(history, ChainOrder(manifest).value);
  }

  ghost predicate IsDecoded(chain: seq<Layer>, m: Manifest, i: nat) {
    exists k :: 0 <= k < |chain| && Decodes(chain[k], m, i)
  }

  /** What the order says about the layers decoded in that order. */
  lemma ChainOfOrder(m: Manifest, order: seq<nat>, chain: seq<Layer>)
    requires m.history.Some? && Order(m.history.value) == Ok(order) && |chain| == |order|
    requires forall i :: 0 <= i < |chain| ==> Decodes(chain[i], m, order[i])
    ensures chain != [] && chain[0].parent == None
    ensures forall k :: 0 < k < |chain| ==> chain[k].parent == Some(chain[k - 1].id)
    ensures forall i :: i in order ==> IsDecoded(chain, m, i)
  {
    OrderIsChain(m.history.value);
    forall k | 0 < k < |chain| ensures chain[k].parent == Some(chain[k - 1].id) {
      assert Follows(m.history.value, order, k);
    }
    forall i | i in order ensures IsDecoded(chain, m, i) {
      var k :| 0 <= k < |order| && order[k] == i;
      assert Decodes(chain[k], m, i);
    }
  }

  /** The linked layers of a manifest: the eldest, and the youngest. */
  method ConstructImageMetadata(manifest: Option<Manifest>)
    returns (r: Result<(Layer, Layer), ManifestError>, ghost chain: seq<Layer>)
    ensures r.Ok? <==> ChainOrder(manifest).Ok?
    ensures r.Err? ==> r.error == ChainOrder(manifest).error
    ensures r.Ok? ==>
              && |chain| == |ChainOrder(manifest).value|
              && (forall i :: 0 <= i < |chain| ==> Decodes(chain[i], manifest.value, ChainOrder(manifest).value[i]))
              && Linked(r.value.0, chain) && chain[|chain| - 1] == r.value.1
    ensures Fares(manifest, if r.Err? then Some(r.error) else None)
    ensures r.Ok? ==> forall k :: 0 < k < |chain| ==> chain[k].parent == Some(chain[k - 1].id)
    ensures r.Ok? ==> chain[0].parent == None
    ensures IsSingleChain(manifest) ==>
              && r.Ok? && |chain| == |manifest.value.history.value|
              && forall i :: 0 <= i < |chain| ==> IsDecoded(chain, manifest.value, i)
  {
    hide Fares, Walk, Decodes, IsDecoded, Collect, IsSingleChain, Knows;
    ManifestExact(manifest);
    if IsSingleChain(manifest) { SingleChainFound(manifest); }
    chain := [];
    var checked := CheckManifest(manifest);
    if checked.Err? {
      return Err(checked.error), chain;
    }
    var m := checked.value;
    var layers, noParent, nodes := CollectLayers(m);
    if layers.Err? {
      return Err(layers.error), chain;
    }
    if noParent == null {
      return Err(NoRoot), chain;
    }
    VisitsDecodedLayers(m, Collect(m.history.value, |m.history.value|).value, nodes, layers.value, noParent);
    var youngest;
    youngest, chain := LinkLayers(noParent, layers.value);
    ChainOfOrder(m, ChainOrder(manifest).value, chain);
    r := Ok((noParent, youngest));
  }
}
