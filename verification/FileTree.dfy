/** A file tree: what lies where, and what it means for a location to lie below another. */
module FileTree {
  import opened Basics

  /** A location: the names from the root of the tree. */
  type Loc = seq<string>
  type Mode = bv12

  /** `Other` is a socket, a device or a pipe. */
  datatype Node = Dir(mode: Mode) | File(mode: Mode, data: Bytes) | Link(target: string) | Other

  type Tree = map<Loc, Node>

  function Parent(p: Loc): Loc { if p == [] then [] else p[..|p| - 1] }

  /** `p` is `q` or lies below it. */
  predicate Below(p: Loc, q: Loc) { q <= p }

  predicate StrictlyBelow(p: Loc, q: Loc) { q < p }

  lemma BelowCases(p: Loc, q: Loc)
    ensures Below(p, q) <==> StrictlyBelow(p, q) || p == q
  {
    assert Below(p, q) && |p| == |q| ==> p == q;
  }

  lemma BelowParent(p: Loc, q: Loc)
    requires p != []
    ensures Below(p, q) <==> Below(Parent(p), q) || q == p
    ensures StrictlyBelow(p, q) <==> Below(Parent(p), q)
  {
    BelowCases(p, q);
  }

  lemma BelowTransitive(p: Loc, q: Loc, a: Loc)
    ensures Below(p, q) && Below(q, a) ==> Below(p, a)
  {}

  lemma PrefixesCompare(q: Loc, a: Loc, b: Loc)
    requires Below(q, a) && Below(q, b)
    ensures Below(a, b) || Below(b, a)
  {}

  /** The next location on the way from `q` down to `p`. */
  function Toward(p: Loc, q: Loc): Loc
    requires StrictlyBelow(p, q)
  {
    p[..|q| + 1]
  }

  lemma TowardBelow(p: Loc, q: Loc)
    requires StrictlyBelow(p, q)
    ensures StrictlyBelow(Toward(p, q), q) && Parent(Toward(p, q)) == q
    ensures Toward(p, q) == p || StrictlyBelow(p, Toward(p, q))
  {
    if |p| == |q| + 1 {
      assert Toward(p, q) == p;
    }
  }

  /** Every node hangs below a directory. Nothing is said about the root itself: it may be missing,
      and it may be something else than a directory. */
  ghost predicate WellFormed(t: Tree) {
    forall p :: p in t && p != [] ==> Parent(p) in t && t[Parent(p)].Dir?
  }

  lemma {:induction false} AncestorsAreDirs(t: Tree, p: Loc, q: Loc)
    requires WellFormed(t) && p in t && StrictlyBelow(p, q)
    ensures q in t && t[q].Dir?
    decreases |p|
  {
    var up := Parent(p);
    if q == up {
      assert t[up].Dir?;
    } else {
      assert q <= up;
      AncestorsAreDirs(t, up, q);
    }
  }

  lemma NothingBelowMissing(t: Tree, p: Loc, q: Loc)
    requires WellFormed(t) && p !in t && Below(q, p)
    ensures q !in t
  {
    BelowCases(q, p);
    if q in t { AncestorsAreDirs(t, q, p); }
  }
}
