/** Re-slicing the upstream pages of a cluster list into result pages of another size, with the
    position carried between calls in an opaque token (`internal/db`). */
module Pagination {
  import opened Basics

  const DEFAULT_PAGE_SIZE := 10
  const MAX_PAGE_SIZE := 1000
  const UPSTREAM_PAGE_SIZE := 100
  const MAX_TOKEN_LENGTH := 16 * 1024
  const SCHEMA_VERSION := 1

  datatype Error =
    | InvalidPageSize | InvalidPageToken | ContextMismatch | StalePageToken | PaginationCycle | UpstreamFailed

  datatype Cluster = Cluster(id: string, rest: string)

  /** `next` is empty on the last page. */
  datatype Page = Page(clusters: seq<Cluster>, next: string)

  /** The upstream list as one call sees it; a token without a page is an upstream error. */
  type Upstream = map<string, Page>

  /** A hash, assumed free of collisions, is the text that was fed to it. The empty fingerprint is
      distinct from the hash of the empty text. */
  datatype Fingerprint = NoFingerprint | Digest(text: string)

  /** What a listing is for: profile, cluster type, region, filter and order. */
  datatype Context = Context(profile: string, clusterType: string, region: string, filter: string, orderBy: string)

  datatype Cursor = Cursor(schema: int, context: Context, upstreamSize: int, token: string, offset: int,
                           fingerprint: Fingerprint)

  /** A token as the user passes it: absent, undecodable, or the encoding of a cursor with the
      length of the text and of the decoded bytes. */
  datatype PageToken = Blank | Malformed | Encoded(cursor: Cursor, textLength: nat, dataLength: nat)

  /** The lengths the JSON and Base64 encodings of a cursor have. */
  type Lengths = Cursor -> (nat, nat)

  function Encode(lengths: Lengths, c: Cursor): PageToken {
    Encoded(c, lengths(c).0, lengths(c).1)
  }

  function ResultPageSize(value: int): Result<nat, Error> {
    if value == 0 then Ok(DEFAULT_PAGE_SIZE)
    else if value < 0 || value > MAX_PAGE_SIZE then Err(InvalidPageSize)
    else Ok(value)
  }

  function NewCursor(context: Context): Cursor {
    Cursor(SCHEMA_VERSION, context, UPSTREAM_PAGE_SIZE, "", 0, NoFingerprint)
  }

  function Decode(raw: PageToken, expected: Cursor): Result<Cursor, Error> {
    match raw
    case Blank => Ok(expected)
    case Malformed => Err(InvalidPageToken)
    case Encoded(c, textLength, dataLength) =>
      if textLength > MAX_TOKEN_LENGTH || dataLength > MAX_TOKEN_LENGTH then Err(InvalidPageToken)
      else if c.schema != SCHEMA_VERSION || c.upstreamSize != UPSTREAM_PAGE_SIZE then Err(InvalidPageToken)
      else if c.offset < 0 then Err(InvalidPageToken)
      else if c.context != expected.context then Err(ContextMismatch)
      else if c.offset == 0 && c.fingerprint != NoFingerprint then Err(InvalidPageToken)
      else if c.offset > 0 && c.fingerprint == NoFingerprint then Err(InvalidPageToken)
      else Ok(c)
  }

  /** A token is accepted exactly when its text and its bytes are within 16384, it has schema 1 and
      upstream pages of 100, belongs to this listing, and has a fingerprint just if its position is inside
      a page; it is then taken as it is. Only a token that differs in nothing else than the listing is
      reported as one of another listing. No token starts at the beginning. */
  lemma TokensAccepted(c: Cursor, textLength: nat, dataLength: nat, context: Context)
    ensures var r := Decode(Encoded(c, textLength, dataLength), NewCursor(context));
      var short := textLength <= 16384 && dataLength <= 16384;
      var sound := short && c.schema == 1 && c.upstreamSize == 100 && c.offset >= 0;
      && (r.Ok? <==> sound && c.context == context && (c.offset == 0 <==> c.fingerprint == NoFingerprint))
      && (r.Ok? ==> r.value == c)
      && (r.Err? ==> r.error == if sound && c.context != context then ContextMismatch else InvalidPageToken)
    ensures Decode(Malformed, NewCursor(context)) == Err(InvalidPageToken)
    ensures Decode(Blank, NewCursor(context)) == Ok(Cursor(1, context, 100, "", 0, NoFingerprint))
  {}

  // ---------- fingerprints ----------

  /** The identifiers of a page, each followed by a zero byte. */
  function JoinedIds(clusters: seq<Cluster>): string {
    if clusters == [] then "" else JoinedIds(clusters[..|clusters| - 1]) + clusters[|clusters| - 1].id + "\0"
  }

  method PageFingerprint(clusters: seq<Cluster>) returns (f: Fingerprint)
    ensures f == Digest(JoinedIds(clusters))
  {
    var fed := "";
    for i := 0 to |clusters|
      invariant fed == JoinedIds(clusters[..i])
    {
      assert clusters[..i + 1][..i] == clusters[..i];
      fed := fed + clusters[i].id;
      fed := fed + "\0";
    }
    assert clusters[..|clusters|] == clusters;
    return Digest(fed);
  }

  function Ids(clusters: seq<Cluster>): seq<string> {
    seq(|clusters|, i requires 0 <= i < |clusters| => clusters[i].id)
  }

  ghost predicate NoZeroInIds(clusters: seq<Cluster>) {
    forall i :: 0 <= i < |clusters| ==> '\0' !in clusters[i].id
  }

  lemma LastZero(a: string, x: string, b: string, y: string)
    requires a + x + "\0" == b + y + "\0" && '\0' !in x && '\0' !in y
    requires a == "" || a[|a| - 1] == '\0'
    requires b == "" || b[|b| - 1] == '\0'
    ensures a == b && x == y
  {
    ZeroEndsPrefix(a, x, b, y);
    ZeroEndsPrefix(b, y, a, x);
    var s := a + x + "\0";
    assert a == s[..|a|] && b == s[..|b|];
    assert x == s[|a|..|s| - 1] && y == s[|b|..|s| - 1];
  }

  lemma ZeroEndsPrefix(a: string, x: string, b: string, y: string)
    requires a + x + "\0" == b + y + "\0" && '\0' !in x
    requires b == "" || b[|b| - 1] == '\0'
    ensures |b| <= |a|
  {
    var s := a + x + "\0";
    assert s == b + y + "\0";
    assert forall k :: |a| <= k < |s| - 1 ==> s[k] == x[k - |a|] && s[k] != '\0';
    assert b != "" ==> s[|b| - 1] == '\0';
  }

  /** Two pages have the same fingerprint exactly when they list the same identifiers in the same
      order, provided no identifier contains a zero byte. */
  lemma {:induction false} FingerprintIdentifiesIds(a: seq<Cluster>, b: seq<Cluster>)
    requires NoZeroInIds(a) && NoZeroInIds(b)
    ensures JoinedIds(a) == JoinedIds(b) <==> Ids(a) == Ids(b)
    decreases |a|
  {
    if a != [] && b != [] {
      var a', x, b', y := a[..|a| - 1], a[|a| - 1], b[..|b| - 1], b[|b| - 1];
      FingerprintIdentifiesIds(a', b');
      assert Ids(a) == Ids(a') + [x.id] && Ids(b) == Ids(b') + [y.id];
      if JoinedIds(a) == JoinedIds(b) {
        LastZero(JoinedIds(a'), x.id, JoinedIds(b'), y.id);
      }
      if Ids(a) == Ids(b) {
        assert Ids(a)[..|a| - 1] == Ids(a') && Ids(b)[..|b| - 1] == Ids(b');
        assert Ids(a)[|a| - 1] == x.id && Ids(b)[|b| - 1] == y.id;
      }
    }
  }

  lemma JoinedLast(a: seq<Cluster>, x: Cluster)
    ensures JoinedIds(a + [x]) == JoinedIds(a) + x.id + "\0"
  {
    assert (a + [x])[..|a|] == a;
  }

  lemma {:induction false} JoinedConcat(a: seq<Cluster>, b: seq<Cluster>)
    ensures JoinedIds(a + b) == JoinedIds(a) + JoinedIds(b)
    decreases |b|
  {
    hide JoinedIds;
    if b == [] {
      JoinedEnd(b);
      assert a + b == a;
    } else {
      var b', y := b[..|b| - 1], b[|b| - 1];
      JoinedConcat(a, b');
      JoinedLast(a + b', y);
      JoinedLast(b', y);
      assert a + b == (a + b') + [y] && b == b' + [y];
    }
  }

  lemma JoinedOne(x: Cluster)
    ensures JoinedIds([x]) == x.id + "\0"
  {
    assert [x][..0] == [];
  }

  lemma JoinedEnd(a: seq<Cluster>)
    ensures a == [] ==> JoinedIds(a) == ""
    ensures a != [] ==> JoinedIds(a) != "" && JoinedIds(a)[|JoinedIds(a)| - 1] == '\0'
  {}

  /** With a zero byte inside an identifier two different pages can share a fingerprint. */
  lemma ZeroByteConfusesFingerprints()
    ensures var a, b := [Cluster("a\0b", "")], [Cluster("a", ""), Cluster("b", "")];
      JoinedIds(a) == JoinedIds(b) && Ids(a) != Ids(b)
  {
    CutIdentifier([], Cluster("a\0b", ""), [], 1);
  }

  /** An identifier with a zero byte can be cut there without changing what is digested. */
  lemma CutIdentifier(before: seq<Cluster>, x: Cluster, after: seq<Cluster>, at: nat)
    requires at < |x.id| && x.id[at] == '\0'
    ensures var a := before + [x] + after;
      var b := before + [Cluster(x.id[..at], ""), Cluster(x.id[at + 1..], "")] + after;
      JoinedIds(a) == JoinedIds(b) && Ids(a) != Ids(b)
  {
    var y, z := Cluster(x.id[..at], ""), Cluster(x.id[at + 1..], "");
    assert [y, z] == [y] + [z];
    JoinedConcat([y], [z]);
    JoinedOne(x);
    JoinedOne(y);
    JoinedOne(z);
    assert x.id + "\0" == y.id + "\0" + (z.id + "\0");
    JoinedConcat(before, [x]);
    JoinedConcat(before + [x], after);
    JoinedConcat(before, [y, z]);
    JoinedConcat(before + [y, z], after);
    assert |Ids(before + [x] + after)| != |Ids(before + [y, z] + after)|;
  }

  lemma OneIdOnly(a: seq<Cluster>, b: seq<Cluster>)
    requires NoZeroInIds(a) && |a| <= 1 && JoinedIds(a) == JoinedIds(b)
    ensures Ids(a) == Ids(b)
  {
    JoinedEnd(a);
    JoinedEnd(b);
    if a != [] {
      JoinedOne(a[0]);
      assert a == [a[0]];
      var init, last := b[..|b| - 1], b[|b| - 1];
      ZeroOnlyAtEnd(a[0].id, JoinedIds(init), last.id);
      JoinedEnd(init);
      assert last.id == JoinedIds(b)[..|JoinedIds(b)| - 1] == a[0].id;
      assert b == [last];
    }
  }

  lemma ZeroOnlyAtEnd(x: string, front: string, y: string)
    requires '\0' !in x && x + "\0" == front + y + "\0"
    ensures front != "" ==> front[|front| - 1] != '\0'
  {
    var s := x + "\0";
    assert s == front + y + "\0";
    assert forall k :: 0 <= k < |front| ==> s[k] == front[k] && s[k] == x[k];
  }

  /** Two neighbouring identifiers can be joined without changing what is digested. */
  lemma JoinIdentifiers(a: seq<Cluster>) returns (b: seq<Cluster>)
    requires |a| >= 2
    ensures JoinedIds(a) == JoinedIds(b) && Ids(a) != Ids(b)
  {
    var x := Cluster(a[0].id + "\0" + a[1].id, "");
    b := [] + [x] + a[2..];
    CutIdentifier([], x, a[2..], |a[0].id|);
    assert x.id[..|a[0].id|] == a[0].id && x.id[|a[0].id| + 1..] == a[1].id;
    SameIdsSameText(a, [] + [Cluster(a[0].id, ""), Cluster(a[1].id, "")] + a[2..]);
    assert |Ids(a)| != |Ids(b)|;
  }

  lemma CutPage(a: seq<Cluster>) returns (b: seq<Cluster>)
    requires !NoZeroInIds(a)
    ensures JoinedIds(a) == JoinedIds(b) && Ids(a) != Ids(b)
  {
    hide JoinedIds, Ids;
    var i :| 0 <= i < |a| && '\0' in a[i].id;
    var at :| 0 <= at < |a[i].id| && a[i].id[at] == '\0';
    CutIdentifier(a[..i], a[i], a[i + 1..], at);
    assert a == a[..i] + [a[i]] + a[i + 1..];
    b := a[..i] + [Cluster(a[i].id[..at], ""), Cluster(a[i].id[at + 1..], "")] + a[i + 1..];
  }

  /** The pages that have the same fingerprint as this one list the same identifiers. */
  ghost predicate IsRecognized(a: seq<Cluster>) {
    forall b :: JoinedIds(a) == JoinedIds(b) ==> Ids(a) == Ids(b)
  }

  /** A page is recognized by its fingerprint among all pages exactly when it lists at most one
      identifier and that has no zero byte: it takes the premise that no page has zero bytes to make
      fingerprints reliable. */
  lemma FingerprintIsUniqueIff(a: seq<Cluster>)
    ensures IsRecognized(a) <==> NoZeroInIds(a) && |a| <= 1
  {
    hide JoinedIds, NoZeroInIds, Ids;
    if !NoZeroInIds(a) {
      var b := CutPage(a);
    } else if |a| >= 2 {
      var b := JoinIdentifiers(a);
    } else {
      forall b | JoinedIds(a) == JoinedIds(b) ensures Ids(a) == Ids(b) { OneIdOnly(a, b); }
    }
  }

  lemma {:induction false} SameIdsSameText(a: seq<Cluster>, b: seq<Cluster>)
    requires |a| == |b| && forall i :: 0 <= i < |a| ==> a[i].id == b[i].id
    ensures JoinedIds(a) == JoinedIds(b) && Ids(a) == Ids(b)
  {
    if a == [] {
    } else {
      SameIdsSameText(a[..|a| - 1], b[..|b| - 1]);
    }
  }

  // ---------- the upstream list ----------

  /** Following `next` ends: the rank falls along the chain, except that a page may name its own
      token, which the program detects. */
  ghost predicate Finite(up: Upstream, rank: string -> nat) {
    forall t :: t in up && up[t].next != "" && up[t].next != t ==> rank(up[t].next) < rank(t)
  }

  /** Only this much is needed for every call to end: no chain of empty pages goes round. */
  ghost predicate Productive(up: Upstream, rank: string -> nat) {
    forall t :: t in up && up[t].next != "" && up[t].next != t && up[t].clusters == [] ==> rank(up[t].next) < rank(t)
  }

  /** Everything from the page of `t` to the end of the list. */
  ghost function RestFrom(up: Upstream, rank: string -> nat, t: string): seq<Cluster>
    requires Finite(up, rank)
    decreases rank(t)
  {
    if t !in up then []
    else if up[t].next == "" || up[t].next == t then up[t].clusters
    else up[t].clusters + RestFrom(up, rank, up[t].next)
  }

  /** The chain from `t` is complete: no upstream error and no repeated token. */
  ghost predicate Complete(up: Upstream, rank: string -> nat, t: string)
    requires Finite(up, rank)
    decreases rank(t)
  {
    t in up && up[t].next != t && (up[t].next != "" ==> Complete(up, rank, up[t].next))
  }

  /** What is still to be listed at a cursor. */
  ghost function Remaining(up: Upstream, rank: string -> nat, c: Cursor): seq<Cluster>
    requires Finite(up, rank)
  {
    var rest := RestFrom(up, rank, c.token);
    if 0 <= c.offset <= |rest| then rest[c.offset..] else []
  }

  // ---------- one call ----------

  datatype Listed = Listed(clusters: seq<Cluster>, next: PageToken)

  /** The loop of `ListClusters` as a function: from cursor `c`, with `got` already collected. */
  ghost function ListFrom(up: Upstream, rank: string -> nat, lengths: Lengths, want: nat, c: Cursor,
                          got: seq<Cluster>): Result<Listed, Error>
    requires Productive(up, rank) && c.offset >= 0
    decreases want - |got|, c.offset, rank(c.token)
  {
    if |got| >= want then Ok(Listed(got, Encode(lengths, c)))
    else if c.token !in up then Err(UpstreamFailed)
    else
      var page := up[c.token];
      var fingerprint := Digest(JoinedIds(page.clusters));
      if c.offset > 0 && fingerprint != c.fingerprint then Err(StalePageToken)
      else if c.offset > |page.clusters| then Err(StalePageToken)
      else
        var available := page.clusters[c.offset..];
        var room := want - |got|;
        if |available| > room then
          Ok(Listed(got + available[..room],
                    Encode(lengths, c.(offset := c.offset + room, fingerprint := fingerprint))))
        else if page.next == "" then Ok(Listed(got + available, Blank))
        else if page.next == c.token then Err(PaginationCycle)
        else ListFrom(up, rank, lengths, want, c.(token := page.next, offset := 0, fingerprint := NoFingerprint),
                      got + available)
  }

  ghost function ListSpec(up: Upstream, rank: string -> nat, lengths: Lengths, context: Context, pageSize: int,
                          raw: PageToken): Result<Listed, Error>
    requires Productive(up, rank)
  {
    var want := ResultPageSize(pageSize);
    if want.Err? then Err(want.error) else
      var cursor := Decode(raw, NewCursor(context));
      if cursor.Err? then Err(cursor.error) else ListFrom(up, rank, lengths, want.value, cursor.value, [])
  }

  method ListClusters(up: Upstream, ghost rank: string -> nat, lengths: Lengths, context: Context, pageSize: int,
                      raw: PageToken)
    returns (result: Result<Listed, Error>)
    requires Productive(up, rank)
    ensures result == ListSpec(up, rank, lengths, context, pageSize, raw)
  {
    hide JoinedIds;
    var want := ResultPageSize(pageSize);
    if want.Err? { return Err(want.error); }
    var decoded := Decode(raw, NewCursor(context));
    if decoded.Err? { return Err(decoded.error); }
    var cursor := decoded.value;
    var clusters: seq<Cluster> := [];
    while |clusters| < want.value
      invariant cursor.offset >= 0
      invariant ListSpec(up, rank, lengths, context, pageSize, raw) ==
        ListFrom(up, rank, lengths, want.value, cursor, clusters)
      decreases want.value - |clusters|, cursor.offset, rank(cursor.token)
    {
      var tokenUsed := cursor.token;
      if tokenUsed !in up { return Err(UpstreamFailed); }
      var page := up[tokenUsed];
      var fingerprint := PageFingerprint(page.clusters);
      if cursor.offset > 0 && fingerprint != cursor.fingerprint { return Err(StalePageToken); }
      if cursor.offset > |page.clusters| { return Err(StalePageToken); }
      var remaining := want.value - |clusters|;
      var available := page.clusters[cursor.offset..];
      if |available| > remaining {
        clusters := clusters + available[..remaining];
        cursor := cursor.(token := tokenUsed, offset := cursor.offset + remaining, fingerprint := fingerprint);
        return Ok(Listed(clusters, Encode(lengths, cursor)));
      }
      clusters := clusters + available;
      if page.next == "" { return Ok(Listed(clusters, Blank)); }
      if page.next == tokenUsed { return Err(PaginationCycle); }
      cursor := cursor.(token := page.next, offset := 0, fingerprint := NoFingerprint);
    }
    return Ok(Listed(clusters, Encode(lengths, cursor)));
  }

  // ---------- when calls end ----------

  /** The loop of `ListClusters` for a number of rounds; no result if it is still running then. */
  ghost function ListRounds(up: Upstream, lengths: Lengths, want: nat, c: Cursor, got: seq<Cluster>, rounds: nat)
    : Option<Result<Listed, Error>>
    requires c.offset >= 0
    decreases rounds
  {
    if |got| >= want then Some(Ok(Listed(got, Encode(lengths, c))))
    else if rounds == 0 then None
    else if c.token !in up then Some(Err(UpstreamFailed))
    else
      var page := up[c.token];
      var fingerprint := Digest(JoinedIds(page.clusters));
      if c.offset > 0 && fingerprint != c.fingerprint then Some(Err(StalePageToken))
      else if c.offset > |page.clusters| then Some(Err(StalePageToken))
      else
        var available := page.clusters[c.offset..];
        var room := want - |got|;
        if |available| > room then
          Some(Ok(Listed(got + available[..room],
                         Encode(lengths, c.(offset := c.offset + room, fingerprint := fingerprint)))))
        else if page.next == "" then Some(Ok(Listed(got + available, Blank)))
        else if page.next == c.token then Some(Err(PaginationCycle))
        else
          var c' := c.(token := page.next, offset := 0, fingerprint := NoFingerprint);
          ListRounds(up, lengths, want, c', got + available, rounds - 1)
  }

  /** Where calls are known to end, the loop ends with the result of the specification. */
  lemma {:induction false} RoundsReach(up: Upstream, rank: string -> nat, lengths: Lengths, want: nat, c: Cursor,
                                       got: seq<Cluster>) returns (rounds: nat)
    requires Productive(up, rank) && c.offset >= 0
    ensures ListRounds(up, lengths, want, c, got, rounds) == Some(ListFrom(up, rank, lengths, want, c, got))
    decreases want - |got|, c.offset, rank(c.token)
  {
    hide JoinedIds;
    rounds := 1;
    if |got| < want && c.token in up {
      var page := up[c.token];
      if (c.offset == 0 || Digest(JoinedIds(page.clusters)) == c.fingerprint) && c.offset <= |page.clusters|
         && |page.clusters[c.offset..]| <= want - |got| && page.next != "" && page.next != c.token {
        var c' := c.(token := page.next, offset := 0, fingerprint := NoFingerprint);
        var more := RoundsReach(up, rank, lengths, want, c', got + page.clusters[c.offset..]);
        rounds := more + 1;
      }
    }
  }

  /** The first `n` pages from `t` on are empty, and each names another one. */
  ghost predicate EmptyFor(up: Upstream, t: string, n: nat)
    decreases n
  {
    n == 0 || (t in up && up[t].clusters == [] && up[t].next != "" && up[t].next != t &&
               EmptyFor(up, up[t].next, n - 1))
  }

  lemma {:induction false} EmptyPagesKeepRunning(up: Upstream, lengths: Lengths, want: nat, c: Cursor, n: nat)
    requires EmptyFor(up, c.token, n) && c.offset == 0 && want > 0
    ensures ListRounds(up, lengths, want, c, [], n).None?
    decreases n
  {
    if n == 0 {
    } else {
      var page := up[c.token];
      assert page.clusters[0..] == [] && [] + page.clusters[0..] == [];
      EmptyPagesKeepRunning(up, lengths, want, c.(token := page.next, fingerprint := NoFingerprint), n - 1);
    }
  }

  /** The chain of empty pages from `t` comes to an end. */
  ghost predicate ChainEnds(up: Upstream, t: string) { exists n: nat :: !EmptyFor(up, t, n) }

  ghost predicate EmptyChainsEnd(up: Upstream) { forall t :: ChainEnds(up, t) }

  lemma {:induction false} LeastEnd(up: Upstream, t: string, n: nat) returns (least: nat)
    requires !EmptyFor(up, t, n)
    ensures !EmptyFor(up, t, least) && (least == 0 || EmptyFor(up, t, least - 1))
    decreases n
  {
    if n == 0 || EmptyFor(up, t, n - 1) {
      least := n;
    } else {
      least := LeastEnd(up, t, n - 1);
    }
  }

  lemma ChainEndExists(up: Upstream, t: string)
    requires ChainEnds(up, t)
    ensures exists n: nat :: IsChainEnd(up, t, n)
  {
    var n: nat :| !EmptyFor(up, t, n);
    var least := LeastEnd(up, t, n);
    assert IsChainEnd(up, t, least);
  }

  ghost predicate IsChainEnd(up: Upstream, t: string, n: nat) {
    !EmptyFor(up, t, n) && (n == 0 || EmptyFor(up, t, n - 1))
  }

  /** The length of the chain of empty pages from `t`. */
  ghost function ChainEnd(up: Upstream, t: string): (n: nat)
    ensures ChainEnds(up, t) ==> IsChainEnd(up, t, n)
  {
    if ChainEnds(up, t) then
      ChainEndExists(up, t);
      var n: nat :| IsChainEnd(up, t, n);
      n
    else 0
  }

  lemma ChainEndIsRank(up: Upstream)
    requires EmptyChainsEnd(up)
    ensures exists rank :: Productive(up, rank)
  {
    var rank: string -> nat := t => ChainEnd(up, t);
    forall t | t in up && up[t].next != "" && up[t].next != t && up[t].clusters == []
      ensures rank(up[t].next) < rank(t)
    {
      assert ChainEnds(up, t) && ChainEnds(up, up[t].next);
      var n, m := ChainEnd(up, t), ChainEnd(up, up[t].next);
      assert EmptyFor(up, t, 0);
      assert !EmptyFor(up, up[t].next, n - 1);
      if m >= n { EmptyForLess(up, up[t].next, n - 1, m - 1); }
    }
    assert Productive(up, rank);
  }

  /** The loop ends from this cursor. */
  ghost predicate CallEnds(up: Upstream, lengths: Lengths, want: nat, c: Cursor) {
    c.offset >= 0 ==> exists n: nat :: ListRounds(up, lengths, want, c, [], n).Some?
  }

  /** What `ListClusters` asks of the upstream list is just what it takes: every call, from whatever
      cursor, ends if and only if every chain of empty pages does. */
  lemma EveryCallEndsIff(up: Upstream, lengths: Lengths)
    ensures (forall want: nat, c: Cursor :: CallEnds(up, lengths, want, c)) <==> exists rank :: Productive(up, rank)
    ensures (exists rank :: Productive(up, rank)) <==> EmptyChainsEnd(up)
  {
    hide ListRounds, EmptyFor, Productive;
    if rank :| Productive(up, rank) {
      forall want: nat, c: Cursor ensures CallEnds(up, lengths, want, c) {
        if c.offset >= 0 { var n := RoundsReach(up, rank, lengths, want, c, []); }
      }
      forall t ensures ChainEnds(up, t) { ChainIsBounded(up, rank, t); }
    }
    if EmptyChainsEnd(up) {
      ChainEndIsRank(up);
    } else {
      var t :| !ChainEnds(up, t);
      var c := Cursor(SCHEMA_VERSION, Context("", "", "", "", ""), UPSTREAM_PAGE_SIZE, t, 0, NoFingerprint);
      forall n: nat ensures ListRounds(up, lengths, 1, c, [], n).None? { EmptyPagesKeepRunning(up, lengths, 1, c, n); }
      assert !CallEnds(up, lengths, 1, c);
    }
  }

  lemma {:induction false} ChainIsBounded(up: Upstream, rank: string -> nat, t: string)
    requires Productive(up, rank)
    ensures !EmptyFor(up, t, rank(t) + 1)
    decreases rank(t)
  {
    if t in up && up[t].clusters == [] && up[t].next != "" && up[t].next != t {
      ChainIsBounded(up, rank, up[t].next);
      if EmptyFor(up, up[t].next, rank(t)) { EmptyForLess(up, up[t].next, rank(up[t].next) + 1, rank(t)); }
    }
  }

  lemma {:induction false} EmptyForLess(up: Upstream, t: string, m: nat, n: nat)
    requires m <= n && EmptyFor(up, t, n)
    ensures EmptyFor(up, t, m)
    decreases m
  {
    if m == 0 {
    } else {
      EmptyForLess(up, up[t].next, m - 1, n - 1);
    }
  }

  // ---------- cursors ----------

  /** The cursors the program emits: a position strictly inside the page it was saved for, with
      that page's fingerprint, or the start of a page without one. */
  ghost predicate WellFormed(up: Upstream, context: Context, c: Cursor) {
    && c.schema == SCHEMA_VERSION && c.context == context && c.upstreamSize == UPSTREAM_PAGE_SIZE
    && (c.offset == 0 <==> c.fingerprint == NoFingerprint)
    && (c.offset != 0 ==>
          && c.token in up && 0 < c.offset < |up[c.token].clusters|
          && c.fingerprint == Digest(JoinedIds(up[c.token].clusters)))
  }

  /** An emitted cursor is well formed and decodes to itself in the same context, exactly when its
      encoding is within the length limit. */
  lemma EmittedCursorDecodes(up: Upstream, lengths: Lengths, context: Context, c: Cursor)
    requires WellFormed(up, context, c)
    ensures Decode(Encode(lengths, c), NewCursor(context)) == Ok(c)
       <==> lengths(c).0 <= MAX_TOKEN_LENGTH && lengths(c).1 <= MAX_TOKEN_LENGTH
    ensures lengths(c).0 <= MAX_TOKEN_LENGTH && lengths(c).1 <= MAX_TOKEN_LENGTH ==>
      forall other: Context :: other != context ==> Decode(Encode(lengths, c), NewCursor(other)) == Err(ContextMismatch)
  {}

  /** A position as a decoded token may have it, whoever made the token. */
  ghost predicate Acceptable(context: Context, c: Cursor) {
    c.schema == SCHEMA_VERSION && c.context == context && c.upstreamSize == UPSTREAM_PAGE_SIZE && c.offset >= 0
  }

  /** Over any upstream list, complete or not, and from any acceptable position: if the loop returns a
      token then its cursor is well formed, strictly inside its page or at the start of one. */
  lemma {:induction false} LoopEmitsWellFormed(up: Upstream, rank: string -> nat, lengths: Lengths, want: nat,
                                               context: Context, c: Cursor, got: seq<Cluster>)
    requires Productive(up, rank) && Acceptable(context, c)
    requires |got| >= want ==> c.offset == 0 && c.fingerprint == NoFingerprint
    ensures var r := ListFrom(up, rank, lengths, want, c, got);
      r.Ok? && r.value.next.Encoded? ==>
        WellFormed(up, context, r.value.next.cursor) && r.value.next == Encode(lengths, r.value.next.cursor)
    decreases want - |got|, c.offset, rank(c.token)
  {
    hide JoinedIds;
    if |got| >= want || c.token !in up {
    } else {
      var page := up[c.token];
      if c.offset <= |page.clusters| && (c.offset == 0 || Digest(JoinedIds(page.clusters)) == c.fingerprint)
         && |page.clusters[c.offset..]| <= want - |got| && page.next != "" && page.next != c.token {
        var c' := c.(token := page.next, offset := 0, fingerprint := NoFingerprint);
        LoopEmitsWellFormed(up, rank, lengths, want, context, c', got + page.clusters[c.offset..]);
      }
    }
  }

  /** Every token a call emits holds a well-formed cursor, whatever token it was fed and whatever the
      upstream list looked like. */
  lemma EmittedCursorIsWellFormed(up: Upstream, rank: string -> nat, lengths: Lengths, context: Context, pageSize: int,
                                  raw: PageToken)
    requires Productive(up, rank)
    ensures var r := ListSpec(up, rank, lengths, context, pageSize, raw);
      r.Ok? && r.value.next.Encoded? ==>
        WellFormed(up, context, r.value.next.cursor) && r.value.next == Encode(lengths, r.value.next.cursor)
  {
    var want, cursor := ResultPageSize(pageSize), Decode(raw, NewCursor(context));
    if want.Ok? && cursor.Ok? {
      LoopEmitsWellFormed(up, rank, lengths, want.value, context, cursor.value, []);
    }
  }

  /** If the identifiers of the page a cursor was saved in have changed, the next call refuses. */
  lemma ChangedPageIsRefused(up: Upstream, later: Upstream, rank: string -> nat, lengths: Lengths, context: Context,
                             c: Cursor, pageSize: int)
    requires WellFormed(up, context, c) && c.offset > 0 && Productive(later, rank) && c.token in later
    requires lengths(c).0 <= MAX_TOKEN_LENGTH && lengths(c).1 <= MAX_TOKEN_LENGTH && ResultPageSize(pageSize).Ok?
    requires NoZeroInIds(up[c.token].clusters) && NoZeroInIds(later[c.token].clusters)
    ensures Ids(later[c.token].clusters) != Ids(up[c.token].clusters)
       <==> ListSpec(later, rank, lengths, context, pageSize, Encode(lengths, c)) == Err(StalePageToken)
  {
    FingerprintIdentifiesIds(later[c.token].clusters, up[c.token].clusters);
    EmittedCursorDecodes(up, lengths, context, c);
    if Ids(later[c.token].clusters) == Ids(up[c.token].clusters) {
      assert |later[c.token].clusters| == |Ids(later[c.token].clusters)| == |up[c.token].clusters|;
      var want := ResultPageSize(pageSize).value;
      var page := later[c.token];
      if page.next != "" && page.next != c.token {
        FreshPageIsNotStale(later, rank, lengths, want,
                            c.(token := page.next, offset := 0, fingerprint := NoFingerprint),
                            [] + page.clusters[c.offset..]);
      }
    }
  }

  lemma {:induction false} FreshPageIsNotStale(up: Upstream, rank: string -> nat, lengths: Lengths, want: nat,
                                               c: Cursor, got: seq<Cluster>)
    requires Productive(up, rank) && c.offset == 0
    ensures ListFrom(up, rank, lengths, want, c, got) != Err(StalePageToken)
    decreases want - |got|, rank(c.token)
  {
    if |got| < want && c.token in up {
      var page := up[c.token];
      assert page.clusters[0..] == page.clusters;
      if page.next != "" && page.next != c.token {
        FreshPageIsNotStale(up, rank, lengths, want, c.(token := page.next, offset := 0, fingerprint := NoFingerprint),
                            got + page.clusters);
      }
    }
  }

  // ---------- conservation ----------

  lemma RemainingSplits(up: Upstream, rank: string -> nat, c: Cursor)
    requires Finite(up, rank) && Complete(up, rank, c.token) && 0 <= c.offset <= |up[c.token].clusters|
    ensures var page := up[c.token];
      Remaining(up, rank, c) ==
        page.clusters[c.offset..] + (if page.next == "" then [] else RestFrom(up, rank, page.next))
  {
    var page := up[c.token];
    var tail := if page.next == "" then [] else RestFrom(up, rank, page.next);
    assert RestFrom(up, rank, c.token) == page.clusters + tail;
    assert (page.clusters + tail)[c.offset..] == page.clusters[c.offset..] + tail;
  }

  /** `r` delivers exactly the next clusters: what was collected, then what the new token still has
      to deliver, is `due`. A call that returns a token returns exactly `want` clusters. */
  ghost predicate Conserves(up: Upstream, rank: string -> nat, lengths: Lengths, want: nat, context: Context,
                            r: Result<Listed, Error>, due: seq<Cluster>)
    requires Finite(up, rank)
  {
    r.Ok? &&
    match r.value.next
    case Blank => r.value.clusters == due && |r.value.clusters| <= want
    case Malformed => false
    case Encoded(c, _, _) =>
      && r.value.next == Encode(lengths, c)
      && WellFormed(up, context, c) && Complete(up, rank, c.token)
      && |r.value.clusters| == want
      && r.value.clusters + Remaining(up, rank, c) == due
  }

  /** A call over a complete upstream list succeeds and conserves what is due. */
  lemma {:induction false} CallConserves(up: Upstream, rank: string -> nat, lengths: Lengths, want: nat,
                                         context: Context, c: Cursor, got: seq<Cluster>)
    requires Finite(up, rank) && Complete(up, rank, c.token) && WellFormed(up, context, c) && |got| <= want
    ensures Conserves(up, rank, lengths, want, context, ListFrom(up, rank, lengths, want, c, got),
                      got + Remaining(up, rank, c))
    decreases rank(c.token)
  {
    hide Remaining, JoinedIds, RestFrom;
    if |got| < want {
      var page := up[c.token];
      var available := page.clusters[c.offset..];
      var tail := if page.next == "" then [] else RestFrom(up, rank, page.next);
      RemainingSplits(up, rank, c);
      Regroup(got, available, tail);
      if |available| > want - |got| {
        CutInsidePage(up, rank, lengths, want, context, c, got);
      } else if page.next != "" {
        var c' := c.(token := page.next, offset := 0, fingerprint := NoFingerprint);
        StartRemaining(up, rank, c');
        CallConserves(up, rank, lengths, want, context, c', got + available);
      } else {
        assert available + [] == available;
      }
    }
  }

  lemma Regroup<T>(a: seq<T>, b: seq<T>, c: seq<T>)
    ensures a + (b + c) == (a + b) + c
  {}

  /** The call ends inside a page: the new position is strictly inside it, after what was taken. */
  lemma CutInsidePage(up: Upstream, rank: string -> nat, lengths: Lengths, want: nat, context: Context, c: Cursor,
                      got: seq<Cluster>)
    requires Finite(up, rank) && Complete(up, rank, c.token) && WellFormed(up, context, c) && |got| < want
    requires |up[c.token].clusters[c.offset..]| > want - |got|
    ensures Conserves(up, rank, lengths, want, context, ListFrom(up, rank, lengths, want, c, got),
                      got + Remaining(up, rank, c))
  {
    hide Remaining, RestFrom, JoinedIds;
    var page := up[c.token];
    var available := page.clusters[c.offset..];
    var room := want - |got|;
    var tail := if page.next == "" then [] else RestFrom(up, rank, page.next);
    var c' := c.(offset := c.offset + room, fingerprint := Digest(JoinedIds(page.clusters)));
    RemainingSplits(up, rank, c);
    RemainingSplits(up, rank, c');
    assert page.clusters[c'.offset..] == available[room..];
    assert available == available[..room] + available[room..];
    Regroup(available[..room], available[room..], tail);
    Regroup(got, available[..room], available[room..] + tail);
  }

  lemma StartRemaining(up: Upstream, rank: string -> nat, c: Cursor)
    requires Finite(up, rank) && c.offset == 0
    ensures Remaining(up, rank, c) == RestFrom(up, rank, c.token)
  {
    var rest := RestFrom(up, rank, c.token);
    assert rest[0..] == rest;
  }

  // ---------- whole runs of calls ----------

  /** One call of a run: the page size asked for, the token fed in, and what came back. */
  datatype Call = Call(pageSize: int, fed: PageToken, listed: Listed)

  /** A run of successful calls over an unchanged upstream list: the first starts without a token,
      each later call is fed the token of the one before it. */
  ghost predicate IsRun(up: Upstream, rank: string -> nat, lengths: Lengths, context: Context, calls: seq<Call>)
    requires Finite(up, rank)
  {
    calls == [] || (
      var init, last := calls[..|calls| - 1], calls[|calls| - 1];
      && IsRun(up, rank, lengths, context, init)
      && last.fed == NextToken(init)
      && (init != [] ==> last.fed.Encoded?)
      && ListSpec(up, rank, lengths, context, last.pageSize, last.fed) == Ok(last.listed))
  }

  function NextToken(calls: seq<Call>): PageToken {
    if calls == [] then Blank else calls[|calls| - 1].listed.next
  }

  function Delivered(calls: seq<Call>): seq<Cluster> {
    if calls == [] then [] else Delivered(calls[..|calls| - 1]) + calls[|calls| - 1].listed.clusters
  }

  /** What a run still has to deliver. */
  ghost function Outstanding(up: Upstream, rank: string -> nat, calls: seq<Call>): seq<Cluster>
    requires Finite(up, rank)
  {
    if calls == [] then RestFrom(up, rank, "")
    else match NextToken(calls)
         case Encoded(c, _, _) => Remaining(up, rank, c)
         case _ => []
  }

  /** The cursor the next call of a run starts from. */
  function NextCursor(context: Context, calls: seq<Call>): Cursor {
    match NextToken(calls)
    case Encoded(c, _, _) => c
    case _ => NewCursor(context)
  }

  /** Every call that returned a token returned exactly the number of clusters asked for, and the
      last token is one the next call accepts if it is not too long. */
  ghost predicate FullPages(up: Upstream, rank: string -> nat, lengths: Lengths, context: Context, calls: seq<Call>)
    requires Finite(up, rank)
  {
    && (NextToken(calls).Encoded? ==>
          && NextToken(calls) == Encode(lengths, NextCursor(context, calls))
          && WellFormed(up, context, NextCursor(context, calls))
          && Complete(up, rank, NextCursor(context, calls).token))
    && forall i :: 0 <= i < |calls| && calls[i].listed.next.Encoded? ==>
         |calls[i].listed.clusters| == if calls[i].pageSize == 0 then 10 else calls[i].pageSize
  }

  /** At every point of a run, whatever the page sizes, what has been delivered followed by what is
      outstanding is the whole upstream list: no gap, no duplicate, no reordering. So a run that
      ends without a token has delivered exactly the concatenation of the upstream pages. */
  lemma {:induction false} RunDeliversTheList(up: Upstream, rank: string -> nat, lengths: Lengths, context: Context,
                                              calls: seq<Call>)
    requires Finite(up, rank) && Complete(up, rank, "") && IsRun(up, rank, lengths, context, calls)
    ensures Delivered(calls) + Outstanding(up, rank, calls) == RestFrom(up, rank, "")
    ensures FullPages(up, rank, lengths, context, calls)
    ensures calls != [] && NextToken(calls) == Blank ==> Delivered(calls) == RestFrom(up, rank, "")
    decreases |calls|
  {
    hide RestFrom, Remaining, WellFormed, Complete, ListFrom;
    if calls == [] {
    } else {
      var init, last := calls[..|calls| - 1], calls[|calls| - 1];
      RunDeliversTheList(up, rank, lengths, context, init);
      RunStep(up, rank, lengths, context, init, last);
      Regroup(Delivered(init), last.listed.clusters, Outstanding(up, rank, calls));
      FullPagesGrow(up, rank, lengths, context, init, last);
      assert calls == init + [last];
    }
  }

  lemma FullPagesGrow(up: Upstream, rank: string -> nat, lengths: Lengths, context: Context, init: seq<Call>,
                      last: Call)
    requires Finite(up, rank) && FullPages(up, rank, lengths, context, init) && ResultPageSize(last.pageSize).Ok?
    requires exists due ::
      Conserves(up, rank, lengths, ResultPageSize(last.pageSize).value, context, Ok(last.listed), due)
    ensures FullPages(up, rank, lengths, context, init + [last])
  {
    var calls := init + [last];
    forall i | 0 <= i < |calls| && calls[i].listed.next.Encoded?
      ensures |calls[i].listed.clusters| == if calls[i].pageSize == 0 then 10 else calls[i].pageSize
    {
      if i < |init| { assert calls[i] == init[i]; }
    }
  }

  lemma RunStep(up: Upstream, rank: string -> nat, lengths: Lengths, context: Context, init: seq<Call>, last: Call)
    requires Finite(up, rank) && Complete(up, rank, "")
    requires FullPages(up, rank, lengths, context, init)
    requires last.fed == NextToken(init) && (init != [] ==> last.fed.Encoded?)
    requires ListSpec(up, rank, lengths, context, last.pageSize, last.fed) == Ok(last.listed)
    ensures Conserves(up, rank, lengths, ResultPageSize(last.pageSize).value, context, Ok(last.listed),
                      Outstanding(up, rank, init))
  {
    var c := NextCursor(context, init);
    var want := ResultPageSize(last.pageSize).value;
    assert Decode(last.fed, NewCursor(context)) == Ok(c);
    CallConserves(up, rank, lengths, want, context, c, []);
    assert [] + Remaining(up, rank, c) == Remaining(up, rank, c);
    if init == [] { StartRemaining(up, rank, c); }
  }

  /** In an unchanged complete list a call without a token, or with an emitted token within the length
      limit, succeeds for every page size from 0 to 1000. It makes progress unless the list has ended:
      another token means that the page has exactly as many clusters as asked for, 10 when the size is 0.
      Every other size is refused. */
  lemma RunsDoNotStall(up: Upstream, rank: string -> nat, lengths: Lengths, context: Context, c: Cursor, pageSize: int,
                       fed: PageToken)
    requires Finite(up, rank) && Complete(up, rank, c.token) && WellFormed(up, context, c)
    requires if fed.Blank? then c == NewCursor(context) else fed == Encode(lengths, c)
    requires lengths(c).0 <= 16384 && lengths(c).1 <= 16384
    ensures var r := ListSpec(up, rank, lengths, context, pageSize, fed);
      if 0 <= pageSize <= 1000 then
        r.Ok? && (r.value.next.Encoded? ==> |r.value.clusters| == if pageSize == 0 then 10 else pageSize)
      else r == Err(InvalidPageSize)
  {
    if 0 <= pageSize <= 1000 {
      CallConserves(up, rank, lengths, if pageSize == 0 then 10 else pageSize, context, c, []);
    }
  }
}
