/** The layered view of a Git workspace (`fuse_git.go`): a tree of committed paths under an overlay
    of upserts and whiteouts; resolving one path, and listing one directory. Names only. */
module GitView {
  import opened GoSort

  /** Paths are the sequences of their components. */
  type Rel = seq<string>

  /** `overlay[p]` says whether the overlay entry at `p` is a whiteout. */
  datatype Workspace = Workspace(root: Rel, tree: set<Rel>, overlay: map<Rel, bool>)

  /** The workspaces in the order they are searched; deeper roots come first. */
  type View = seq<Workspace>

  ghost predicate DeepestFirst(view: View) {
    forall i, j :: 0 <= i < j < |view| ==> !(view[i].root < view[j].root)
  }

  function RelPath(root: Rel, path: Rel): (r: Rel)
    requires root <= path
    ensures root + r == path
  {
    path[|root|..]
  }

  /** The first workspace whose root is the path or lies above it; the number of workspaces if none. */
  function WorkspaceFor(view: View, path: Rel): (i: nat)
    ensures i <= |view|
    ensures i < |view| ==> view[i].root <= path
    ensures forall k :: 0 <= k < i ==> !(view[k].root <= path)
  {
    if view == [] then 0
    else if view[0].root <= path then 0
    else 1 + WorkspaceFor(view[1..], path)
  }

  predicate IsWhiteouted(w: Workspace, rel: Rel) { rel in w.overlay && w.overlay[rel] }

  predicate IsUpserted(w: Workspace, rel: Rel) { rel in w.overlay && !w.overlay[rel] }

  predicate HasVisibleChild(w: Workspace, rel: Rel) {
    || (exists p :: p in w.tree && rel < p && !IsWhiteouted(w, p))
    || (exists p :: p in w.overlay && rel < p && !w.overlay[p])
  }

  /** Whether the path resolves to an entry. */
  predicate Resolves(view: View, path: Rel) {
    var i := WorkspaceFor(view, path);
    i < |view| &&
    var w, rel := view[i], RelPath(view[i].root, path);
    if rel == [] then true
    else if rel in w.overlay then !w.overlay[rel]
    else if rel in w.tree then true
    else HasVisibleChild(w, rel)
  }

  // ---------- listing ----------

  datatype Child = NotBelow | DirectChild(name: string) | NestedChild(name: string)

  function ChildOf(parent: Rel, rel: Rel): Child {
    if !(parent < rel) then NotBelow
    else if |rel| == |parent| + 1 then DirectChild(rel[|parent|])
    else NestedChild(rel[|parent|])
  }

  function RootNames(view: View, path: Rel): set<string> {
    set i | 0 <= i < |view| && view[i].root != [] && view[i].root[..|view[i].root| - 1] == path ::
      view[i].root[|view[i].root| - 1]
  }

  /** The loop over the overlay entries, in the order given. */
  function OverlayNames(names: set<string>, w: Workspace, parent: Rel, order: seq<Rel>): set<string>
    requires forall p :: p in order ==> p in w.overlay
  {
    if order == [] then names else
      var init, rel := order[..|order| - 1], order[|order| - 1];
      var before := OverlayNames(names, w, parent, init);
      match ChildOf(parent, rel)
      case NotBelow => before
      case DirectChild(name) => if w.overlay[rel] then before - {name} else before + {name}
      case NestedChild(name) => if w.overlay[rel] then before else before + {name}
  }

  function HiddenNames(w: Workspace, parent: Rel, order: seq<Rel>): set<string>
    requires forall p :: p in order ==> p in w.overlay
  {
    set i | 0 <= i < |order| && ChildOf(parent, order[i]).DirectChild? && w.overlay[order[i]] ::
      ChildOf(parent, order[i]).name
  }

  /** The names the loop over the tree adds; their order does not matter. */
  function TreeNames(w: Workspace, parent: Rel, hidden: set<string>, order: seq<Rel>): set<string> {
    set i | 0 <= i < |order| && parent < order[i] && order[i][|parent|] !in hidden && !IsWhiteouted(w, order[i]) ::
      order[i][|parent|]
  }

  function Listed(view: View, path: Rel, overlayOrder: seq<Rel>, treeOrder: seq<Rel>): set<string>
    requires Orders(view, path, overlayOrder, treeOrder)
  {
    var roots, i := RootNames(view, path), WorkspaceFor(view, path);
    if i == |view| then roots else
      var w, parent := view[i], RelPath(view[i].root, path);
      OverlayNames(roots, w, parent, overlayOrder) +
        TreeNames(w, parent, HiddenNames(w, parent, overlayOrder), treeOrder)
  }

  /** The orders in which the maps of the workspace of `path` may be walked. */
  predicate Orders(view: View, path: Rel, overlayOrder: seq<Rel>, treeOrder: seq<Rel>) {
    var i := WorkspaceFor(view, path);
    i < |view| ==>
      multiset(overlayOrder) == multiset(view[i].overlay.Keys) && multiset(treeOrder) == multiset(view[i].tree)
      && (forall p :: p in overlayOrder ==> p in view[i].overlay)
  }

  method GitReaddir(view: View, path: Rel, overlayOrder: seq<Rel>, treeOrder: seq<Rel>) returns (names: set<string>)
    requires Orders(view, path, overlayOrder, treeOrder)
    ensures names == Listed(view, path, overlayOrder, treeOrder)
  {
    names := {};
    for i := 0 to |view|
      invariant names == RootNames(view[..i], path)
    {
      var root := view[i].root;
      RootNamesStep(view, path, i);
      if root != [] && root[..|root| - 1] == path {
        names := names + {root[|root| - 1]};
      }
    }
    assert view[..|view|] == view;
    var i := WorkspaceFor(view, path);
    if i == |view| { return; }
    var w, parent := view[i], RelPath(view[i].root, path);
    ghost var roots := names;
    var hidden: set<string> := {};
    for k := 0 to |overlayOrder|
      invariant names == OverlayNames(roots, w, parent, overlayOrder[..k])
      invariant hidden == HiddenNames(w, parent, overlayOrder[..k])
    {
      var rel := overlayOrder[k];
      assert overlayOrder[..k + 1][..k] == overlayOrder[..k];
      HiddenNamesStep(w, parent, overlayOrder, k);
      match ChildOf(parent, rel)
      case NotBelow =>
      case DirectChild(name) =>
        if w.overlay[rel] {
          hidden := hidden + {name};
          names := names - {name};
        } else {
          names := names + {name};
        }
      case NestedChild(name) =>
        if !w.overlay[rel] {
          names := names + {name};
        }
    }
    assert overlayOrder[..|overlayOrder|] == overlayOrder;
    ghost var overlaid := names;
    for k := 0 to |treeOrder|
      invariant names == overlaid + TreeNames(w, parent, hidden, treeOrder[..k])
    {
      var rel := treeOrder[k];
      TreeNamesStep(w, parent, hidden, treeOrder, k);
      var child := ChildOf(parent, rel);
      if child.NotBelow? || child.name in hidden { continue; }
      if IsWhiteouted(w, rel) { continue; }
      names := names + {child.name};
    }
    assert treeOrder[..|treeOrder|] == treeOrder;
  }

  lemma RootNamesStep(view: View, path: Rel, i: nat)
    requires i < |view|
    ensures var root := view[i].root;
      RootNames(view[..i + 1], path) == RootNames(view[..i], path)
        + (if root != [] && root[..|root| - 1] == path then {root[|root| - 1]} else {})
  {
    assert view[..i + 1] == view[..i] + [view[i]];
  }

  lemma HiddenNamesStep(w: Workspace, parent: Rel, order: seq<Rel>, k: nat)
    requires k < |order| && forall p :: p in order ==> p in w.overlay
    ensures var c := ChildOf(parent, order[k]);
      HiddenNames(w, parent, order[..k + 1]) == HiddenNames(w, parent, order[..k])
        + (if c.DirectChild? && w.overlay[order[k]] then {c.name} else {})
  {
    assert order[..k + 1] == order[..k] + [order[k]];
  }

  lemma TreeNamesStep(w: Workspace, parent: Rel, hidden: set<string>, order: seq<Rel>, k: nat)
    requires k < |order|
    ensures var rel := order[k];
      TreeNames(w, parent, hidden, order[..k + 1]) == TreeNames(w, parent, hidden, order[..k])
        + (if parent < rel && rel[|parent|] !in hidden && !IsWhiteouted(w, rel) then {rel[|parent|]} else {})
  {
    assert order[..k + 1] == order[..k] + [order[k]];
  }

  // ---------- what a listing contains ----------

  /** Some overlay upsert lies strictly below `rel`. */
  predicate UpsertBelow(w: Workspace, rel: Rel) {
    exists p :: p in w.overlay && rel < p && !w.overlay[p]
  }

  /** Some tree node at or below `rel` is not itself whiteouted. */
  predicate TreeAtOrBelow(w: Workspace, rel: Rel) {
    exists p :: p in w.tree && rel <= p && !IsWhiteouted(w, p)
  }

  predicate IsNestedRoot(view: View, path: Rel) {
    exists i :: 0 <= i < |view| && view[i].root == path
  }

  lemma ChildAt(parent: Rel, name: string, rel: Rel)
    ensures ChildOf(parent, rel) == DirectChild(name) <==> rel == parent + [name]
    ensures ChildOf(parent, rel) == NestedChild(name) <==> parent + [name] < rel
    ensures parent < rel && rel[|parent|] == name <==> parent + [name] <= rel
  {
    if parent < rel && rel[|parent|] == name {
      assert rel[..|parent| + 1] == parent + [name];
      assert rel == rel[..|parent| + 1] + rel[|parent| + 1..];
    }
    if parent + [name] <= rel {
      assert rel[..|parent| + 1] == parent + [name];
      assert rel[..|parent|] == (parent + [name])[..|parent|] == parent;
    }
  }

  /** Without a whiteout at the child, walking the overlay lists it iff it was there or an upsert
      at or below it was met. */
  lemma {:induction false} ListedWithoutWhiteout(names: set<string>, w: Workspace, parent: Rel, order: seq<Rel>,
                                                 name: string)
    requires (forall p :: p in order ==> p in w.overlay) && !IsWhiteouted(w, parent + [name])
    ensures name in OverlayNames(names, w, parent, order) <==>
      name in names || exists p :: p in order && parent + [name] <= p && !w.overlay[p]
    decreases |order|
  {
    if order == [] {
    } else {
      var init, rel := order[..|order| - 1], order[|order| - 1];
      ListedWithoutWhiteout(names, w, parent, init, name);
      ChildAt(parent, name, rel);
      assert forall p :: p in order <==> p in init || p == rel;
    }
  }

  /** With a whiteout at the child and no upsert below it, walking the overlay hides it. */
  lemma {:induction false} HiddenByWhiteout(names: set<string>, w: Workspace, parent: Rel, order: seq<Rel>,
                                            name: string)
    requires (forall p :: p in order ==> p in w.overlay) && IsWhiteouted(w, parent + [name]) &&
      !UpsertBelow(w, parent + [name])
    requires parent + [name] in order
    ensures name !in OverlayNames(names, w, parent, order)
    decreases |order|
  {
    var init, rel := order[..|order| - 1], order[|order| - 1];
    ChildAt(parent, name, rel);
    if rel != parent + [name] {
      assert parent + [name] in init;
      HiddenByWhiteout(names, w, parent, init, name);
    }
  }

  lemma {:induction false} OnceListedStaysListed(names: set<string>, w: Workspace, parent: Rel, order: seq<Rel>,
                                                 name: string)
    requires forall p :: p in order ==> p in w.overlay
    requires parent + [name] !in order &&
      (name in names || exists p :: p in order && parent + [name] < p && !w.overlay[p])
    ensures name in OverlayNames(names, w, parent, order)
    decreases |order|
  {
    if order == [] {
    } else {
      var init, rel := order[..|order| - 1], order[|order| - 1];
      ChildAt(parent, name, rel);
      assert forall p :: p in order <==> p in init || p == rel;
      if name in names || exists p :: p in init && parent + [name] < p && !w.overlay[p] {
        OnceListedStaysListed(names, w, parent, init, name);
      }
    }
  }

  lemma OverlayNamesConcat(names: set<string>, w: Workspace, parent: Rel, a: seq<Rel>, b: seq<Rel>)
    requires forall p :: p in a + b ==> p in w.overlay
    requires forall p :: p in a || p in b ==> p in w.overlay
    ensures OverlayNames(names, w, parent, a + b) == OverlayNames(OverlayNames(names, w, parent, a), w, parent, b)
    decreases |b|
  {
    if b == [] {
      assert a + b == a;
    } else {
      var init, rel := b[..|b| - 1], b[|b| - 1];
      assert a + b == (a + init) + [rel];
      assert (a + b)[..|a + b| - 1] == a + init;
      OverlayNamesConcat(names, w, parent, a, init);
    }
  }

  lemma SomeOrder(s: set<Rel>) returns (order: seq<Rel>)
    ensures multiset(order) == multiset(s)
    ensures forall p :: p in order <==> p in s
  {
    if s == {} {
      order := [];
    } else {
      var x :| x in s;
      order := SomeOrder(s - {x});
      order := order + [x];
      assert s == (s - {x}) + {x};
    }
    ListingOfSet(order, s);
  }

  /** Outside every workspace a listing shows exactly the workspace roots; inside one, a name is
      listed according to the overlay at and below it, the tree, and nested roots. */
  lemma ListedMeans(view: View, path: Rel, name: string, overlayOrder: seq<Rel>, treeOrder: seq<Rel>)
    requires DeepestFirst(view) && Orders(view, path, overlayOrder, treeOrder)
    ensures var i, child := WorkspaceFor(view, path), path + [name];
      i == |view| || !IsWhiteouted(view[i], RelPath(view[i].root, path) + [name])
        || (!UpsertBelow(view[i], RelPath(view[i].root, path) + [name]) && !IsNestedRoot(view, child)) ==>
      (name in Listed(view, path, overlayOrder, treeOrder) <==> Resolves(view, child))
  {
    hide TreeNames, HiddenNames, OverlayNames, RootNames, Resolves, IsNestedRoot, TreeAtOrBelow;
    var i, child := WorkspaceFor(view, path), path + [name];
    RootListed(view, path, name);
    if i < |view| {
      var w, parent := view[i], RelPath(view[i].root, path);
      ListingOfSet(overlayOrder, w.overlay.Keys);
      ListingOfSet(treeOrder, w.tree);
      HiddenMeans(w, parent, overlayOrder, name);
      TreeMeans(w, parent, HiddenNames(w, parent, overlayOrder), treeOrder, name);
      if !IsWhiteouted(w, parent + [name]) {
        ListedWithoutWhiteout(RootNames(view, path), w, parent, overlayOrder, name);
        UpsertAtOrBelow(w, parent + [name], overlayOrder);
      } else if !UpsertBelow(w, parent + [name]) {
        HiddenByWhiteout(RootNames(view, path), w, parent, overlayOrder, name);
      }
      ChildResolves(view, path, name);
    } else {
      ChildOutside(view, path, name);
    }
  }

  lemma AtOrBelow(rel: Rel, paths: set<Rel>)
    ensures forall p :: p in paths ==> (rel <= p <==> rel == p || rel < p)
  {
    forall p | p in paths ensures rel <= p <==> rel == p || rel < p {
      assert rel <= p && |rel| == |p| ==> p == p[..|rel|] == rel;
    }
  }

  lemma UpsertAtOrBelow(w: Workspace, rel: Rel, order: seq<Rel>)
    requires forall p :: p in order <==> p in w.overlay
    ensures (exists p :: p in order && rel <= p && !w.overlay[p]) <==> IsUpserted(w, rel) || UpsertBelow(w, rel)
  {
    AtOrBelow(rel, w.overlay.Keys);
    if IsUpserted(w, rel) { assert rel in order && rel <= rel; }
  }

  lemma RootListed(view: View, path: Rel, name: string)
    ensures name in RootNames(view, path) <==> IsNestedRoot(view, path + [name])
  {
    if i :| 0 <= i < |view| && view[i].root == path + [name] {
      assert view[i].root[..|view[i].root| - 1] == path;
    }
    if name in RootNames(view, path) {
      var i :| 0 <= i < |view| && view[i].root != [] && view[i].root[..|view[i].root| - 1] == path &&
        view[i].root[|view[i].root| - 1] == name;
      assert view[i].root == path + [name];
    }
  }

  lemma HiddenMeans(w: Workspace, parent: Rel, order: seq<Rel>, name: string)
    requires forall p :: p in order <==> p in w.overlay
    ensures name in HiddenNames(w, parent, order) <==> IsWhiteouted(w, parent + [name])
  {
    if name in HiddenNames(w, parent, order) {
      var i :| 0 <= i < |order| && ChildOf(parent, order[i]) == DirectChild(name) && w.overlay[order[i]];
      ChildAt(parent, name, order[i]);
    }
    if IsWhiteouted(w, parent + [name]) {
      assert parent + [name] in order;
      var i :| 0 <= i < |order| && order[i] == parent + [name];
      ChildAt(parent, name, order[i]);
    }
  }

  lemma TreeMeans(w: Workspace, parent: Rel, hidden: set<string>, order: seq<Rel>, name: string)
    requires forall p :: p in order <==> p in w.tree
    ensures name in TreeNames(w, parent, hidden, order) <==> name !in hidden && TreeAtOrBelow(w, parent + [name])
  {
    if name in TreeNames(w, parent, hidden, order) {
      var i :| 0 <= i < |order| && parent < order[i] && order[i][|parent|] == name && name !in hidden &&
        !IsWhiteouted(w, order[i]);
      ChildAt(parent, name, order[i]);
      assert order[i] in w.tree;
    }
    if name !in hidden && TreeAtOrBelow(w, parent + [name]) {
      var p :| p in w.tree && parent + [name] <= p && !IsWhiteouted(w, p);
      ChildAt(parent, name, p);
      var i :| 0 <= i < |order| && order[i] == p;
    }
  }

  /** A child resolves in the workspace of its directory, unless it is the root of another one. */
  lemma ChildResolves(view: View, path: Rel, name: string)
    requires DeepestFirst(view) && WorkspaceFor(view, path) < |view|
    ensures var w := view[WorkspaceFor(view, path)];
      var rel := RelPath(w.root, path) + [name];
      Resolves(view, path + [name]) <==>
        IsNestedRoot(view, path + [name])
        || (!IsWhiteouted(w, rel) && (IsUpserted(w, rel) || UpsertBelow(w, rel) || TreeAtOrBelow(w, rel)))
  {
    if IsNestedRoot(view, path + [name]) {
      NestedRootResolves(view, path + [name]);
    } else {
      ChildStays(view, path, name);
      var w := view[WorkspaceFor(view, path)];
      VisibleOrExact(w, RelPath(w.root, path) + [name]);
    }
  }

  lemma NestedRootResolves(view: View, path: Rel)
    requires DeepestFirst(view) && IsNestedRoot(view, path)
    ensures Resolves(view, path)
  {
    var k :| 0 <= k < |view| && view[k].root == path;
    var j := WorkspaceFor(view, path);
    assert j <= k;
    assert view[j].root == path;
    assert RelPath(view[j].root, path) == [];
  }

  lemma ChildStays(view: View, path: Rel, name: string)
    requires WorkspaceFor(view, path) < |view| && !IsNestedRoot(view, path + [name])
    ensures WorkspaceFor(view, path + [name]) == WorkspaceFor(view, path)
    ensures var root := view[WorkspaceFor(view, path)].root;
      RelPath(root, path + [name]) == RelPath(root, path) + [name]
  {
    var i, j, child := WorkspaceFor(view, path), WorkspaceFor(view, path + [name]), path + [name];
    var root := view[i].root;
    assert root + (RelPath(root, path) + [name]) == child;
    assert root <= child;
    assert j <= i;
    PrefixOfChild(view[j].root, path, name);
  }

  lemma VisibleOrExact(w: Workspace, rel: Rel)
    ensures (if rel in w.overlay then !w.overlay[rel] else rel in w.tree || HasVisibleChild(w, rel))
       <==> !IsWhiteouted(w, rel) && (IsUpserted(w, rel) || UpsertBelow(w, rel) || TreeAtOrBelow(w, rel))
  {
    AtOrBelow(rel, w.tree);
    if rel in w.tree && !IsWhiteouted(w, rel) { assert rel <= rel; }
  }

  lemma PrefixOfChild(root: Rel, path: Rel, name: string)
    requires root <= path + [name]
    ensures root == path + [name] || root <= path
  {
    if |root| <= |path| {
      assert root == (path + [name])[..|root|] == path[..|root|];
    }
  }

  lemma ChildOutside(view: View, path: Rel, name: string)
    requires WorkspaceFor(view, path) == |view|
    ensures Resolves(view, path + [name]) <==> IsNestedRoot(view, path + [name])
  {
    var j, child := WorkspaceFor(view, path + [name]), path + [name];
    if j < |view| {
      PrefixOfChild(view[j].root, path, name);
      assert RelPath(view[j].root, child) == [];
    }
  }

  /** A whiteout at the child together with an upsert below it, or with the root of another
      workspace there, makes the listing disagree with resolution in some order of the overlay. */
  lemma DisagreesInSomeOrder(view: View, path: Rel, name: string) returns (overlayOrder: seq<Rel>, treeOrder: seq<Rel>)
    requires DeepestFirst(view) && WorkspaceFor(view, path) < |view|
    requires var w := view[WorkspaceFor(view, path)];
      var rel := RelPath(w.root, path) + [name];
      IsWhiteouted(w, rel) && (UpsertBelow(w, rel) || IsNestedRoot(view, path + [name]))
    ensures Orders(view, path, overlayOrder, treeOrder)
    ensures !(name in Listed(view, path, overlayOrder, treeOrder) <==> Resolves(view, path + [name]))
  {
    hide TreeNames, HiddenNames, RootNames, Resolves, IsNestedRoot, TreeAtOrBelow;
    var w, parent := view[WorkspaceFor(view, path)], RelPath(view[WorkspaceFor(view, path)].root, path);
    var rel := parent + [name];
    var others := SomeOrder(w.overlay.Keys - {rel});
    treeOrder := SomeOrder(w.tree);
    ChildResolves(view, path, name);
    var roots := RootNames(view, path);
    ChildAt(parent, name, rel);
    assert w.overlay.Keys == (w.overlay.Keys - {rel}) + {rel};
    if IsNestedRoot(view, path + [name]) {
      overlayOrder := others + [rel];
      assert overlayOrder[..|others|] == others;
      assert name !in OverlayNames(roots, w, parent, overlayOrder);
    } else {
      overlayOrder := [rel] + others;
      OverlayNamesConcat(roots, w, parent, [rel], others);
      OnceListedStaysListed(OverlayNames(roots, w, parent, [rel]), w, parent, others, name);
    }
    ListingOfSet(treeOrder, w.tree);
    ListingOfSet(overlayOrder, w.overlay.Keys);
    HiddenMeans(w, parent, overlayOrder, name);
    TreeMeans(w, parent, HiddenNames(w, parent, overlayOrder), treeOrder, name);
  }

  /** The exact condition: a directory lists a name precisely when the child resolves, for every
      order in which the maps are walked, if and only if the child is not whiteouted while an upsert
      lies strictly below it or another workspace is rooted at it. */
  lemma ListingAgreesWithResolution(view: View, path: Rel, name: string)
    requires DeepestFirst(view)
    ensures (forall o, t :: Orders(view, path, o, t) ==>
               (name in Listed(view, path, o, t) <==> Resolves(view, path + [name])))
       <==> (WorkspaceFor(view, path) < |view| ==>
              var w := view[WorkspaceFor(view, path)];
              var rel := RelPath(w.root, path) + [name];
              !(IsWhiteouted(w, rel) && (UpsertBelow(w, rel) || IsNestedRoot(view, path + [name]))))
  {
    var i := WorkspaceFor(view, path);
    if i < |view| && IsWhiteouted(view[i], RelPath(view[i].root, path) + [name])
       && (UpsertBelow(view[i], RelPath(view[i].root, path) + [name]) || IsNestedRoot(view, path + [name])) {
      var o, t := DisagreesInSomeOrder(view, path, name);
    } else {
      forall o, t | Orders(view, path, o, t)
        ensures name in Listed(view, path, o, t) <==> Resolves(view, path + [name])
      {
        ListedMeans(view, path, name, o, t);
      }
    }
  }
}
