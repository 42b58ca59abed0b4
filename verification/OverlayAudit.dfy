/** The audit of symbolic links after an unpack (`pack.go`): resolving a link through the live
    file system, and removing the links that escape the overlay and are attributable to the run. */
module OverlayAudit {
  import opened Basics
  import opened FileTree
  import opened GoSort
  import opened PathStrings

  // ---------- a file system ----------

  /** The whole file system, from its root: locations are absolute here. */
  ghost predicate IsFileSystem(fs: Tree) { WellFormed(fs) && [] in fs && fs[[]].Dir? }

  /** Neither `p` nor any location above it is a symbolic link. */
  ghost predicate NoLink(fs: Tree, p: Loc) {
    forall k :: 0 <= k <= |p| && p[..k] in fs ==> !fs[p[..k]].Link?
  }

  /** `lstat` of `p`; no location above `p` is a link, so the lookup is literal. */
  function Lstat(fs: Tree, p: Loc): Option<Node>
    requires p != [] ==> NoLink(fs, Parent(p))
  {
    if p in fs then Some(fs[p]) else None
  }

  lemma NoLinkParent(fs: Tree, p: Loc)
    requires NoLink(fs, p)
    ensures NoLink(fs, Parent(p))
  {
    var q := Parent(p);
    forall k | 0 <= k <= |q| && q[..k] in fs ensures !fs[q[..k]].Link? {
      assert q[..k] == p[..k];
    }
  }

  lemma NoLinkChild(fs: Tree, p: Loc, name: string)
    requires NoLink(fs, p) && (p + [name] in fs ==> !fs[p + [name]].Link?)
    ensures NoLink(fs, p + [name])
  {
    var q := p + [name];
    forall k | 0 <= k <= |q| && q[..k] in fs ensures !fs[q[..k]].Link? {
      if k <= |p| { assert q[..k] == p[..k]; } else { assert q[..k] == q; }
    }
  }

  /** In a well-formed file system nothing above an existing node is a link. */
  lemma {:induction false} AboveIsDirectory(fs: Tree, p: Loc)
    requires IsFileSystem(fs) && p in fs
    ensures NoLink(fs, Parent(p))
    decreases |p|
  {
    if p == [] {
    } else {
      var q := Parent(p);
      AboveIsDirectory(fs, q);
      forall k | 0 <= k <= |q| && q[..k] in fs ensures !fs[q[..k]].Link? {
        if k < |q| { assert q[..k] == Parent(q)[..k]; } else { assert q[..k] == q; }
      }
    }
  }

  // ---------- resolving a link ----------

  const MAX_HOPS := 32

  datatype Resolution = Resolved(path: Loc, tainted: bool) | TooManyHops

  predicate IsAbs(target: string) { StartsWithSlash(target) }

  /** Where the components of a link's target are looked up. */
  function Restart(current: Loc, target: string): Loc { if IsAbs(target) then [] else current }

  /** The loop of the resolver as a function. A component that does not exist is kept, and dot-dot
      is applied to whatever has been resolved so far. */
  ghost function Live(fs: Tree, changed: set<Loc>, current: Loc, pending: seq<string>, hops: nat,
                      tainted: bool): Resolution
    requires NoLink(fs, current) && hops <= MAX_HOPS
    decreases MAX_HOPS - hops, |pending|
  {
    if pending == [] then Resolved(current, tainted) else
      var part, rest := pending[0], pending[1..];
      if part == "" || part == "." then Live(fs, changed, current, rest, hops, tainted)
      else if part == ".." then
        NoLinkParent(fs, current);
        Live(fs, changed, Parent(current), rest, hops, tainted)
      else
        var next := current + [part];
        assert Parent(next) == current;
        var info := Lstat(fs, next);
        var tainted' := tainted || (info.Some? && next in changed);
        if info.Some? && info.value.Link? then
          if hops + 1 > MAX_HOPS then TooManyHops
          else
            RestartNoLink(fs, current, info.value.target);
            Live(fs, changed, Restart(current, info.value.target), Split(info.value.target) + rest, hops + 1, tainted')
        else
          NoLinkChild(fs, current, part);
          Live(fs, changed, next, rest, hops, tainted')
  }

  lemma RestartNoLink(fs: Tree, current: Loc, target: string)
    requires NoLink(fs, current)
    ensures NoLink(fs, Restart(current, target))
  {
    if IsAbs(target) && [] in fs {
      assert current[..0] == [];
    }
  }

  /** The resolver terminates on every file system, cycles of links included: each round either
      shortens what is pending or spends one of the remaining hops. */
  method ResolveOverlayTargetLive(fs: Tree, linkPath: Loc, changed: set<Loc>) returns (r: Resolution)
    requires linkPath in fs && fs[linkPath].Link? && NoLink(fs, Parent(linkPath))
    ensures r == Live(fs, changed, Parent(linkPath), Split(fs[linkPath].target), 0, false)
  {
    var current := Parent(linkPath);
    var pending := Split(fs[linkPath].target);
    var hops := 0;
    var tainted := false;
    while |pending| > 0
      invariant NoLink(fs, current) && 0 <= hops <= MAX_HOPS
      invariant Live(fs, changed, Parent(linkPath), Split(fs[linkPath].target), 0, false)
             == Live(fs, changed, current, pending, hops, tainted)
      decreases MAX_HOPS - hops, |pending|
    {
      var part := pending[0];
      pending := pending[1..];
      if part == "" || part == "." { continue; }
      if part == ".." {
        NoLinkParent(fs, current);
        current := Parent(current);
        continue;
      }
      var next := current + [part];
      assert Parent(next) == current;
      var info := Lstat(fs, next);
      if info.Some? && next in changed {
        tainted := true;
      }
      if info.Some? && info.value.Link? {
        hops := hops + 1;
        if hops > MAX_HOPS { return TooManyHops; }
        RestartNoLink(fs, current, info.value.target);
        if IsAbs(info.value.target) {
          current := [];
        }
        pending := Split(info.value.target) + pending;
        continue;
      }
      NoLinkChild(fs, current, part);
      current := next;
    }
    return Resolved(current, tainted);
  }

  /** Each name links to the next one, and the last is no link. */
  ghost predicate LinkChain(fs: Tree, dir: Loc, names: seq<string>) {
    && names != [] && (forall i :: 0 <= i < |names| ==> SlashFree(names[i]) && names[i] !in {"", ".", ".."})
    && (forall i :: 0 <= i < |names| - 1 ==> dir + [names[i]] in fs && fs[dir + [names[i]]] == Link(names[i + 1]))
    && (dir + [names[|names| - 1]] in fs ==> !fs[dir + [names[|names| - 1]]].Link?)
  }

  /** Up to 32 links are followed, and not one more. */
  lemma {:induction false} ChainResolvesIff(fs: Tree, changed: set<Loc>, dir: Loc, names: seq<string>, hops: nat,
                                            tainted: bool)
    requires NoLink(fs, dir) && hops <= 32 && LinkChain(fs, dir, names)
    ensures var r := Live(fs, changed, dir, [names[0]], hops, tainted);
      if hops + |names| - 1 <= 32 then r.Resolved? && r.path == dir + [names[|names| - 1]] else r == TooManyHops
    decreases |names|
  {
    var name := names[0];
    assert [name][1..] == [] && Parent(dir + [name]) == dir;
    if |names| == 1 {
      NoLinkChild(fs, dir, name);
    } else {
      SplitSlashFree(names[1]);
      assert [names[1]] + [] == [names[1]] && !IsAbs(names[1]);
      if hops < 32 {
        ChainResolvesIff(fs, changed, dir, names[1..], hops + 1,
                         tainted || (dir + [name] in fs && dir + [name] in changed));
      }
    }
  }

  // ---------- the standard's pathname resolution ----------

  datatype Posix = Found(path: Loc, visited: set<Loc>) | NoEntry | NotDirectory | Loop

  /** Pathname resolution as in section 4.13 of the Base Definitions volume of IEEE Std 1003.1-2017:
      every prefix must be a directory, dot-dot names the parent of the directory reached, a link's
      contents replace the link, and at most `hops` links are followed. `visited` collects the
      existing entries that were looked up. */
  function Resolve(fs: Tree, current: Loc, comps: seq<string>, hops: nat): Posix
    decreases hops, |comps|
  {
    if comps == [] then Found(current, {})
    else if current !in fs then NoEntry
    else if !fs[current].Dir? then NotDirectory
    else
      var part, rest := comps[0], comps[1..];
      if part == "" || part == "." then Resolve(fs, current, rest, hops)
      else if part == ".." then Resolve(fs, Parent(current), rest, hops)
      else
        var next := current + [part];
        if next !in fs then NoEntry
        else
          match fs[next]
          case Link(target) =>
            if target == "" then NoEntry
            else if hops == 0 then Loop
            else Seen(next, Resolve(fs, Restart(current, target), Split(target) + rest, hops - 1))
          case _ => Seen(next, Resolve(fs, next, rest, hops))
  }

  function Seen(p: Loc, r: Posix): Posix {
    if r.Found? then r.(visited := r.visited + {p}) else r
  }

  /** Whenever the standard's resolution succeeds within the hop bound, the resolver returns the same
      location, and it reports a dependence on changed paths exactly when the resolution looked one up. */
  lemma {:induction false} LiveAgreesWithPosix(fs: Tree, changed: set<Loc>, current: Loc, comps: seq<string>,
                                               hops: nat, tainted: bool)
    requires NoLink(fs, current) && hops <= MAX_HOPS
    requires Resolve(fs, current, comps, MAX_HOPS - hops).Found?
    ensures var found := Resolve(fs, current, comps, MAX_HOPS - hops);
      Live(fs, changed, current, comps, hops, tainted)
        == Resolved(found.path, tainted || exists v :: v in found.visited && v in changed)
    decreases MAX_HOPS - hops, |comps|
  {
    if comps == [] {
    } else {
      var part, rest := comps[0], comps[1..];
      if part == "" || part == "." {
        LiveAgreesWithPosix(fs, changed, current, rest, hops, tainted);
      } else if part == ".." {
        NoLinkParent(fs, current);
        LiveAgreesWithPosix(fs, changed, Parent(current), rest, hops, tainted);
      } else {
        var next := current + [part];
        var tainted' := tainted || next in changed;
        if fs[next].Link? {
          RestartNoLink(fs, current, fs[next].target);
          LiveAgreesWithPosix(fs, changed, Restart(current, fs[next].target), Split(fs[next].target) + rest, hops + 1,
                              tainted');
        } else {
          NoLinkChild(fs, current, part);
          LiveAgreesWithPosix(fs, changed, next, rest, hops, tainted');
        }
      }
    }
  }

  /** The resolver of a link: what it returns for a relative target that resolves. */
  lemma ResolverAgreesWithPosix(fs: Tree, changed: set<Loc>, linkPath: Loc)
    requires linkPath in fs && fs[linkPath].Link? && NoLink(fs, Parent(linkPath)) && !IsAbs(fs[linkPath].target)
    ensures var target := fs[linkPath].target;
      var found := Resolve(fs, Restart(Parent(linkPath), target), Split(target), MAX_HOPS);
      found.Found? ==>
        Live(fs, changed, Parent(linkPath), Split(target), 0, false)
          == Resolved(found.path, exists v :: v in found.visited && v in changed)
  {
    var target := fs[linkPath].target;
    if Resolve(fs, Parent(linkPath), Split(target), MAX_HOPS).Found? {
      LiveAgreesWithPosix(fs, changed, Parent(linkPath), Split(target), 0, false);
    }
  }

  /** For an absolute target the resolver starts in the link's own directory instead of the root:
      for `/x` it returns the sibling `x` of the link, whatever is at the root. So the agreement
      needs a relative target; the audit rejects absolute ones beforehand. */
  lemma AbsoluteTargetIsMisplaced(fs: Tree, changed: set<Loc>, dir: Loc, x: string)
    requires NoLink(fs, dir) && dir + [x] !in fs && SlashFree(x) && x !in {"", ".", ".."}
    requires [] in fs && fs[[]].Dir? && [x] in fs && fs[[x]].File?
    ensures Resolve(fs, Restart(dir, "/" + x), Split("/" + x), MAX_HOPS) == Found([x], {[x]})
    ensures Live(fs, changed, dir, Split("/" + x), 0, false) == Resolved(dir + [x], false)
  {
    SplitSlashFree(x);
    assert ("/" + x)[1..] == x;
    var comps := Split("/" + x);
    assert comps[0] == "" && comps[1..] == [x] && [x][1..] == [];
    assert [] + [x] == [x];
    NoLinkChild(fs, dir, x);
    assert Live(fs, changed, dir + [x], [], 0, false) == Resolved(dir + [x], false);
    assert Live(fs, changed, dir, [x], 0, false) == Resolved(dir + [x], false);
    assert Resolve(fs, [x], [], MAX_HOPS) == Found([x], {});
    assert Resolve(fs, [], [x], MAX_HOPS) == Found([x], {[x]});
  }

  // ---------- lexical validation ----------

  /** Following the components without looking at the file system; dot-dot at the root stays. */
  function Lexical(current: Loc, comps: seq<string>): Loc
    decreases |comps|
  {
    if comps == [] then current
    else if comps[0] == "" || comps[0] == "." then Lexical(current, comps[1..])
    else if comps[0] == ".." then Lexical(Parent(current), comps[1..])
    else Lexical(current + [comps[0]], comps[1..])
  }

  predicate Within(root: Loc, p: Loc) { root <= p }

  /** `validatePackSymlinkTarget` for a link at `linkPath` below the overlay root. */
  predicate TargetAllowed(root: Loc, linkPath: Loc, target: string) {
    && target != "" && '\0' !in target && '\\' !in target
    && !IsAbs(target)
    && Within(root, Lexical(Parent(linkPath), Split(target)))
  }

  /** Where pathname resolution meets no link, the lexical answer is the location it reaches. */
  lemma {:induction false} LexicalAgreesWithPosix(fs: Tree, current: Loc, comps: seq<string>)
    requires Resolve(fs, current, comps, 0).Found?
    ensures Resolve(fs, current, comps, 0).path == Lexical(current, comps)
    decreases |comps|
  {
    if comps == [] {
    } else {
      var part, rest := comps[0], comps[1..];
      LexicalAgreesWithPosix(fs, if part == "" || part == "." then current
                                 else if part == ".." then Parent(current) else current + [part], rest);
    }
  }

  /** Cleaning a path is following its components in the same way. */
  lemma {:induction false} LexicalIsReduce(before: seq<string>, comps: seq<string>)
    ensures Lexical(Reduce(before), comps) == Reduce(before + comps)
    decreases |comps|
  {
    if comps == [] {
      assert before + comps == before;
    } else {
      var next := before + [comps[0]];
      ReduceAppend(before, comps[0]);
      LexicalIsReduce(next, comps[1..]);
      assert before + comps == next + comps[1..];
      assert Parent(Reduce(before)) == if Reduce(before) == [] then [] else Reduce(before)[..|Reduce(before)| - 1];
    }
  }

  /** So a cleaned path names what the path itself names, where no link is met on the way. */
  lemma CleanKeepsMeaning(fs: Tree, path: string)
    requires StartsWithSlash(path) && Resolve(fs, [], Split(path), 0).Found?
    ensures Clean(path) == Rooted(Resolve(fs, [], Split(path), 0).path)
  {
    LexicalAgreesWithPosix(fs, [], Split(path));
    LexicalIsReduce([], Split(path));
    assert [] + Split(path) == Split(path);
  }

  /** So a target that resolves without meeting a link is allowed exactly when it is not empty, has
      neither a zero character nor a backslash, is relative, and leads to the root or below it. */
  lemma AllowedMeansResolvesInside(fs: Tree, root: Loc, linkPath: Loc, target: string)
    requires Resolve(fs, Parent(linkPath), Split(target), 0).Found?
    ensures TargetAllowed(root, linkPath, target) <==>
      && target != "" && '\0' !in target && '\\' !in target && target[0] != '/'
      && root <= Resolve(fs, Parent(linkPath), Split(target), 0).path
  {
    LexicalAgreesWithPosix(fs, Parent(linkPath), Split(target));
  }

  // ---------- the audit ----------

  /** What a scan keeps of a node: its kind and the stored target of a link. Everything that is neither
      a directory nor a link counts as a file. */
  datatype Record = DirRecord | FileRecord | LinkRecord(target: string)

  type Snapshot = map<Loc, Record>

  function RecordOf(n: Node): Record {
    match n
    case Dir(_) => DirRecord
    case Link(target) => LinkRecord(target)
    case _ => FileRecord
  }

  /** A scan records every node of the overlay that lies below readable directories only. */
  function Scan(fs: Tree, root: Loc, unreadable: set<Loc>): Snapshot {
    map p | p in fs && root <= p && (forall k :: |root| <= k < |p| ==> p[..k] !in unreadable) :: RecordOf(fs[p])
  }

  /** The scan met a directory it could not read. */
  predicate ScanIncomplete(fs: Tree, root: Loc, unreadable: set<Loc>) {
    exists d :: d in unreadable && d in Scan(fs, root, unreadable) && fs[d].Dir?
  }

  /** A scan records exactly the nodes of the overlay below which no unreadable directory lies on the way:
      directories, links with their stored target, and all the rest as files. It is complete exactly when
      no directory of the overlay is unreadable, so a complete scan records the whole overlay. */
  lemma ScanExactly(fs: Tree, root: Loc, unreadable: set<Loc>, p: Loc)
    requires IsFileSystem(fs)
    ensures var after := Scan(fs, root, unreadable);
      && (p in after <==> p in fs && root <= p && forall d :: d in unreadable && root <= d ==> !(d < p))
      && (p in after ==> after[p] == if fs[p].Dir? then DirRecord else if fs[p].Link? then LinkRecord(fs[p].target)
                                     else FileRecord)
    ensures ScanIncomplete(fs, root, unreadable) <==>
      exists d :: d in unreadable && d in fs && root <= d && fs[d].Dir?
  {
    hide WellFormed, ScanIncomplete;
    RecordedMeans(fs, root, unreadable, p);
    if d :| d in unreadable && d in fs && root <= d && fs[d].Dir? { TopmostUnreadable(fs, root, unreadable, d); }
    RecordedAreThere(fs, root, unreadable);
  }

  lemma RecordedAreThere(fs: Tree, root: Loc, unreadable: set<Loc>)
    ensures ScanIncomplete(fs, root, unreadable) ==>
      exists d :: d in unreadable && d in fs && root <= d && fs[d].Dir?
  {}

  lemma RecordedMeans(fs: Tree, root: Loc, unreadable: set<Loc>, p: Loc)
    ensures p in Scan(fs, root, unreadable) <==>
      p in fs && root <= p && forall d :: d in unreadable && root <= d ==> !(d < p)
  {
    if root <= p {
      forall d | d in unreadable && root <= d < p ensures d == p[..|d|] {}
      forall k | |root| <= k < |p| ensures root <= p[..k] < p { assert root == p[..|root|] == p[..k][..|root|]; }
    }
  }

  /** An unreadable directory, or one above it, is met by the scan. */
  lemma {:induction false} TopmostUnreadable(fs: Tree, root: Loc, unreadable: set<Loc>, d: Loc)
    requires WellFormed(fs) && d in unreadable && d in fs && root <= d && fs[d].Dir?
    ensures ScanIncomplete(fs, root, unreadable)
    decreases |d|
  {
    RecordedMeans(fs, root, unreadable, d);
    if d !in Scan(fs, root, unreadable) {
      var above :| above in unreadable && root <= above && above < d;
      assert StrictlyBelow(d, above);
      AncestorsAreDirs(fs, d, above);
      TopmostUnreadable(fs, root, unreadable, above);
    }
  }

  /** A path is changed when it is new, gone, or recorded differently. */
  predicate IsChanged(before: Snapshot, after: Snapshot, p: Loc) {
    (p in before || p in after) && !(p in before && p in after && before[p] == after[p])
  }

  ghost function ChangedSet(before: Snapshot, after: Snapshot): set<Loc> {
    set p | p in before.Keys + after.Keys && IsChanged(before, after, p)
  }

  /** Paths recorded before that are gone or recorded differently now. */
  method GoneOrDifferent(before: Snapshot, after: Snapshot) returns (changed: set<Loc>)
    ensures forall p :: p in changed <==> p in before && IsChanged(before, after, p)
  {
    changed := {};
    var keys := Elements(before.Keys);
    ListingOfSet(keys, before.Keys);
    for i := 0 to |keys|
      invariant forall p :: p in changed <==> p in keys[..i] && IsChanged(before, after, p)
    {
      PrefixStep(keys, i);
      var p := keys[i];
      if p in after && after[p] == before[p] { continue; }
      changed := changed + {p};
    }
    assert keys[..|keys|] == keys;
  }

  /** Paths that were not recorded before. */
  method NewPaths(before: Snapshot, after: Snapshot) returns (changed: set<Loc>)
    ensures forall p :: p in changed <==> p in after && p !in before
  {
    changed := {};
    var keys := Elements(after.Keys);
    ListingOfSet(keys, after.Keys);
    for i := 0 to |keys|
      invariant forall p :: p in changed <==> p in keys[..i] && p !in before
    {
      PrefixStep(keys, i);
      if keys[i] in before { continue; }
      changed := changed + {keys[i]};
    }
    assert keys[..|keys|] == keys;
  }

  method ChangedOverlayPaths(before: Snapshot, after: Snapshot) returns (changed: set<Loc>)
    ensures changed == ChangedSet(before, after)
  {
    var gone := GoneOrDifferent(before, after);
    var added := NewPaths(before, after);
    changed := gone + added;
  }

  /** The link escapes: its target is not allowed, cannot be resolved, or resolves outside. */
  ghost predicate Escapes(fs: Tree, changed: set<Loc>, root: Loc, p: Loc)
    requires p in fs && fs[p].Link? && NoLink(fs, Parent(p))
  {
    !TargetAllowed(root, p, fs[p].target) ||
    var r := Live(fs, changed, Parent(p), Split(fs[p].target), 0, false);
    r == TooManyHops || !Within(root, r.path)
  }

  /** The run is responsible: the link's own path changed, or its resolution met a changed path. */
  ghost predicate Attributable(fs: Tree, changed: set<Loc>, root: Loc, p: Loc)
    requires p in fs && fs[p].Link? && NoLink(fs, Parent(p))
  {
    p in changed ||
    (TargetAllowed(root, p, fs[p].target) &&
     var r := Live(fs, changed, Parent(p), Split(fs[p].target), 0, false);
     r.Resolved? && r.tainted)
  }

  ghost predicate Unsafe(fs: Tree, changed: set<Loc>, root: Loc, p: Loc)
    requires IsFileSystem(fs)
  {
    p in fs && fs[p].Link? &&
    (AboveIsDirectory(fs, p);
     Escapes(fs, changed, root, p) && Attributable(fs, changed, root, p))
  }

  /** The links the audit must remove, judged on the file system as it finds it. */
  ghost function UnsafeLinks(fs: Tree, before: Snapshot, root: Loc, unreadable: set<Loc>): set<Loc>
    requires IsFileSystem(fs)
  {
    var after := Scan(fs, root, unreadable);
    set p | p in after && Unsafe(fs, ChangedSet(before, after), root, p)
  }

  // ---------- attribution ----------

  /** Every location the resolver looks up before it ends or gives up, existing or not. */
  ghost function LookedUp(fs: Tree, current: Loc, pending: seq<string>, hops: nat): set<Loc>
    requires NoLink(fs, current) && hops <= MAX_HOPS
    decreases MAX_HOPS - hops, |pending|
  {
    if pending == [] then {} else
      var part, rest := pending[0], pending[1..];
      if part == "" || part == "." then LookedUp(fs, current, rest, hops)
      else if part == ".." then
        NoLinkParent(fs, current);
        LookedUp(fs, Parent(current), rest, hops)
      else
        var next := current + [part];
        {next} +
        if next in fs && fs[next].Link? then
          if hops + 1 > MAX_HOPS then {}
          else
            RestartNoLink(fs, current, fs[next].target);
            LookedUp(fs, Restart(current, fs[next].target), Split(fs[next].target) + rest, hops + 1)
        else
          NoLinkChild(fs, current, part);
          LookedUp(fs, next, rest, hops)
  }

  /** A finished resolution is tainted exactly when it looked up a changed path that exists. */
  lemma {:induction false} TaintMeans(fs: Tree, changed: set<Loc>, current: Loc, pending: seq<string>, hops: nat,
                                      tainted: bool)
    requires NoLink(fs, current) && hops <= MAX_HOPS
    ensures var r := Live(fs, changed, current, pending, hops, tainted);
      r.Resolved? ==> (r.tainted <==>
                       tainted || exists v :: v in LookedUp(fs, current, pending, hops) && v in changed && v in fs)
    decreases MAX_HOPS - hops, |pending|
  {
    if pending == [] {
    } else {
      var part, rest := pending[0], pending[1..];
      if part == "" || part == "." {
        TaintMeans(fs, changed, current, rest, hops, tainted);
      } else if part == ".." {
        NoLinkParent(fs, current);
        TaintMeans(fs, changed, Parent(current), rest, hops, tainted);
      } else {
        var next := current + [part];
        var tainted' := tainted || (next in fs && next in changed);
        if next in fs && fs[next].Link? {
          if hops + 1 <= MAX_HOPS {
            RestartNoLink(fs, current, fs[next].target);
            TaintMeans(fs, changed, Restart(current, fs[next].target), Split(fs[next].target) + rest, hops + 1,
                       tainted');
          }
        } else {
          NoLinkChild(fs, current, part);
          TaintMeans(fs, changed, next, rest, hops, tainted');
        }
      }
    }
  }

  /** Attribution as the source describes it: the link's own path changed, or its resolution passes
      through a path that was installed, changed or removed. */
  ghost predicate DependsOnChange(fs: Tree, changed: set<Loc>, root: Loc, p: Loc)
    requires p in fs && fs[p].Link? && NoLink(fs, Parent(p))
  {
    p in changed ||
    (TargetAllowed(root, p, fs[p].target)
     && exists v :: v in LookedUp(fs, Parent(p), Split(fs[p].target), 0) && v in changed)
  }

  /** The audit attributes a link exactly when the description does, except for an unchanged link
      whose resolution gives up after too many hops, or meets changed paths only where nothing is
      left: such a link is never attributed. */
  lemma AttributionExact(fs: Tree, changed: set<Loc>, root: Loc, p: Loc)
    requires p in fs && fs[p].Link? && NoLink(fs, Parent(p))
    ensures Attributable(fs, changed, root, p) <==>
      && DependsOnChange(fs, changed, root, p)
      && (p !in changed ==>
            && Live(fs, changed, Parent(p), Split(fs[p].target), 0, false) != TooManyHops
            && exists v :: v in LookedUp(fs, Parent(p), Split(fs[p].target), 0) && v in changed && v in fs)
  {
    TaintMeans(fs, changed, Parent(p), Split(fs[p].target), 0, false);
  }

  /** A link to itself uses up the hops. */
  lemma {:induction false} SelfLinkLoops(fs: Tree, changed: set<Loc>, dir: Loc, name: string, hops: nat, tainted: bool)
    requires NoLink(fs, dir) && hops <= MAX_HOPS && SlashFree(name) && name !in {"", ".", ".."}
    requires dir + [name] in fs && fs[dir + [name]] == Link(name)
    ensures Live(fs, changed, dir, [name], hops, tainted) == TooManyHops
    decreases MAX_HOPS - hops
  {
    SplitSlashFree(name);
    assert [name][1..] == [] && [name] + [] == [name];
    assert !IsAbs(name);
    if hops == MAX_HOPS {
    } else {
      SelfLinkLoops(fs, changed, dir, name, hops + 1, tainted || dir + [name] in changed);
    }
  }

  /** So an unchanged link to a newly installed link that points to itself stays, although it cannot
      be resolved and its resolution looks the new link up. */
  lemma LinkToNewCycleStays(fs: Tree, changed: set<Loc>, root: Loc, dir: Loc, a: string, b: string)
    requires IsFileSystem(fs) && NoLink(fs, dir) && SlashFree(b) && b !in {"", ".", ".."}
    requires dir + [a] in fs && fs[dir + [a]] == Link(b) && dir + [b] in fs && fs[dir + [b]] == Link(b)
    requires dir + [a] !in changed && dir + [b] in changed && TargetAllowed(root, dir + [a], b)
    ensures Parent(dir + [a]) == dir && Escapes(fs, changed, root, dir + [a]) &&
      DependsOnChange(fs, changed, root, dir + [a])
    ensures !Unsafe(fs, changed, root, dir + [a])
  {
    SplitSlashFree(b);
    SelfLinkLoops(fs, changed, dir, b, 0, false);
    assert [b][1..] == [];
    assert dir + [b] in LookedUp(fs, dir, [b], 0);
  }

  datatype Verdict = Passed | OverlayIsLink | RemoveFailed | Incomplete | Violations

  class Overlay {
    var fs: Tree

    constructor (fs: Tree)
      ensures this.fs == fs
    {
      this.fs := fs;
    }

    /** Judges one recorded link. */
    method IsUnsafe(root: Loc, changed: set<Loc>, p: Loc) returns (unsafe: bool)
      requires IsFileSystem(fs) && p in fs && fs[p].Link?
      ensures unsafe <==> Unsafe(fs, changed, root, p)
    {
      AboveIsDirectory(fs, p);
      var attributable := p in changed;
      var escape := !TargetAllowed(root, p, fs[p].target);
      var tainted := false;
      if !escape {
        var r := ResolveOverlayTargetLive(fs, p, changed);
        tainted := r.Resolved? && r.tainted;
        escape := r.TooManyHops? || !Within(root, r.path);
      }
      return escape && (attributable || tainted);
    }

    /** The audit removes exactly the unsafe links it is able to remove, whatever the order in which
        the snapshot is walked, and touches nothing else; it is satisfied only if the scan was
        complete and there was no unsafe link. */
    method Audit(root: Loc, before: Snapshot, unreadable: set<Loc>, undeletable: set<Loc>) returns (verdict: Verdict)
      requires IsFileSystem(fs)
      modifies this
      ensures root !in old(fs) || !old(fs)[root].Dir? ==> fs == old(fs)
      ensures root in old(fs) && old(fs)[root].Dir? ==>
        var unsafe := UnsafeLinks(old(fs), before, root, unreadable);
        && fs == old(fs) - (unsafe - undeletable)
        && (verdict == Passed <==> unsafe == {} && !ScanIncomplete(old(fs), root, unreadable))
      ensures IsFileSystem(fs)
    {
      if root !in fs { return Passed; }
      if fs[root].Link? { return OverlayIsLink; }
      if !fs[root].Dir? { return Passed; }
      hide IsFileSystem, WellFormed, Unsafe, ChangedSet, ScanIncomplete;
      ghost var all := fs;
      var after := Scan(fs, root, unreadable);
      var incomplete := ScanIncomplete(fs, root, unreadable);
      var changed := ChangedOverlayPaths(before, after);
      var targets := UnsafeAmong(root, after, changed);
      assert (set p | p in targets) == UnsafeLinks(all, before, root, unreadable);
      var failed := RemoveAll(targets, undeletable);
      if failed { return RemoveFailed; }
      if incomplete { return Incomplete; }
      if |targets| > 0 {
        assert targets[0] in UnsafeLinks(all, before, root, unreadable);
        return Violations;
      }
      return Passed;
    }

    /** Decide first, on the file system as it is. */
    method UnsafeAmong(root: Loc, after: Snapshot, changed: set<Loc>) returns (targets: seq<Loc>)
      requires IsFileSystem(fs) && forall p :: p in after ==> p in fs && after[p] == RecordOf(fs[p])
      ensures forall p :: p in targets <==> p in after && Unsafe(fs, changed, root, p)
    {
      targets := [];
      var keys := Elements(after.Keys);
      ListingOfSet(keys, after.Keys);
      for i := 0 to |keys|
        invariant forall p :: p in targets <==> p in keys[..i] && Unsafe(fs, changed, root, p)
      {
        PrefixStep(keys, i);
        var p := keys[i];
        if !after[p].LinkRecord? { continue; }
        var unsafe := IsUnsafe(root, changed, p);
        if unsafe {
          targets := targets + [p];
        }
      }
      assert keys[..|keys|] == keys;
    }

    /** Then remove. */
    method RemoveAll(targets: seq<Loc>, undeletable: set<Loc>) returns (failed: bool)
      requires IsFileSystem(fs) && forall p :: p in targets ==> p in fs && fs[p].Link?
      modifies this
      ensures fs == old(fs) - ((set p | p in targets) - undeletable) && IsFileSystem(fs)
      ensures failed ==> targets != []
    {
      failed := false;
      for i := 0 to |targets|
        invariant fs == old(fs) - ((set p | p in targets[..i]) - undeletable)
        invariant failed ==> targets != []
      {
        assert targets[..i + 1] == targets[..i] + [targets[i]];
        if targets[i] in undeletable {
          failed := true;
        } else {
          fs := fs - {targets[i]};
        }
      }
      assert targets[..|targets|] == targets;
    }
  }
}
