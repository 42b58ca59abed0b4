/** Slash-separated path strings: the lexical cleaning of the Go `path` package for rooted paths,
    and the conversions between remote and archive paths (`pack.go`, `data.go`). */
module PathStrings {
  import opened Basics

  // ---------- splitting and joining ----------

  /** `strings.Split(s, "/")`. */
  function Split(s: string): (r: seq<string>)
    ensures |r| >= 1
  {
    if s == "" then [""]
    else if s[0] == '/' then [""] + Split(s[1..])
    else
      var r := Split(s[1..]);
      [[s[0]] + r[0]] + r[1..]
  }

  ghost predicate SlashFree(s: string) { '/' !in s }

  lemma SplitPieces(s: string)
    ensures forall i :: 0 <= i < |Split(s)| ==> SlashFree(Split(s)[i])
  {
    if s == "" {
    } else {
      SplitPieces(s[1..]);
    }
  }

  lemma SplitCharacters(s: string, i: nat, c: char)
    requires i < |Split(s)| && c in Split(s)[i]
    ensures c in s
  {
    if s != "" {
      assert s == [s[0]] + s[1..];
      if s[0] == '/' {
        SplitCharacters(s[1..], i - 1, c);
      } else if i > 0 || c in Split(s[1..])[0] {
        SplitCharacters(s[1..], i, c);
      }
    }
  }

  lemma {:induction false} SplitConcat(a: string, b: string)
    ensures Split(a + "/" + b) == Split(a) + Split(b)
  {
    var s := a + "/" + b;
    if a == "" {
      assert s[1..] == b;
    } else {
      assert s[1..] == a[1..] + "/" + b;
      SplitConcat(a[1..], b);
    }
  }

  lemma {:induction false} SplitSlashFree(x: string)
    requires SlashFree(x)
    ensures Split(x) == [x]
  {
    if x == "" {
    } else {
      SplitSlashFree(x[1..]);
      assert [x[0]] + x[1..] == x;
    }
  }

  /** `/a/b/c`, empty for no components. */
  function Cat(cs: seq<string>): string {
    if cs == [] then "" else Cat(cs[..|cs| - 1]) + "/" + cs[|cs| - 1]
  }

  function Rooted(cs: seq<string>): string { if cs == [] then "/" else Cat(cs) }

  lemma CatAppend(cs: seq<string>, c: string)
    ensures Cat(cs + [c]) == Cat(cs) + "/" + c
  {
    assert (cs + [c])[..|cs|] == cs;
  }

  lemma {:induction false} CatConcat(a: seq<string>, b: seq<string>)
    ensures Cat(a + b) == Cat(a) + Cat(b)
    decreases |b|
  {
    if b == [] {
      assert a + b == a;
    } else {
      var b', c := b[..|b| - 1], b[|b| - 1];
      CatConcat(a, b');
      assert a + b == (a + b') + [c];
      CatAppend(a + b', c);
    }
  }

  lemma {:induction false} SplitCat(cs: seq<string>)
    requires forall i :: 0 <= i < |cs| ==> SlashFree(cs[i])
    ensures Split(Cat(cs)) == [""] + cs
  {
    if cs == [] {
    } else {
      var init, last := cs[..|cs| - 1], cs[|cs| - 1];
      SplitCat(init);
      SplitConcat(Cat(init), last);
      SplitSlashFree(last);
      assert cs == init + [last];
    }
  }

  /** Joining the pieces gives the string back. */
  lemma {:induction false} CatSplit(s: string)
    ensures Cat(Split(s)) == "/" + s
  {
    if s == "" {
      assert Cat([""]) == Cat([""][..0]) + "/" + "" && [""][..0] == [];
    } else {
      var rest := Split(s[1..]);
      CatSplit(s[1..]);
      assert s == [s[0]] + s[1..];
      if s[0] == '/' {
        CatConcat([""], rest);
        OnePiece("");
      } else {
        assert rest == [rest[0]] + rest[1..];
        CatConcat([rest[0]], rest[1..]);
        CatConcat([[s[0]] + rest[0]], rest[1..]);
        OnePiece(rest[0]);
        OnePiece([s[0]] + rest[0]);
        assert "/" + rest[0] + Cat(rest[1..]) == "/" + s[1..];
        assert (rest[0] + Cat(rest[1..])) == ("/" + rest[0] + Cat(rest[1..]))[1..] == s[1..];
      }
    }
  }

  lemma OnePiece(x: string)
    ensures Cat([x]) == "/" + x
  {
    assert [x][..0] == [];
  }

  // ---------- cleaning ----------

  ghost predicate Normal(cs: seq<string>) {
    forall i :: 0 <= i < |cs| ==> SlashFree(cs[i]) && cs[i] != "" && cs[i] != "." && cs[i] != ".."
  }

  /** Drops empty and dot components and lets dot-dot remove what precedes it; at the root dot-dot
      stays at the root. */
  function Reduce(cs: seq<string>): seq<string> {
    if cs == [] then [] else
      var before, c := Reduce(cs[..|cs| - 1]), cs[|cs| - 1];
      if c == "" || c == "." then before
      else if c == ".." then (if before == [] then [] else before[..|before| - 1])
      else before + [c]
  }

  lemma ReduceAppend(cs: seq<string>, c: string)
    ensures Reduce(cs + [c]) ==
      if c == "" || c == "." then Reduce(cs)
      else if c == ".." then (if Reduce(cs) == [] then [] else Reduce(cs)[..|Reduce(cs)| - 1])
      else Reduce(cs) + [c]
  {
    assert (cs + [c])[..|cs|] == cs;
  }

  lemma {:induction false} ReduceIsNormal(cs: seq<string>)
    requires forall i :: 0 <= i < |cs| ==> SlashFree(cs[i])
    ensures Normal(Reduce(cs))
  {
    if cs == [] {
    } else {
      var init, last := cs[..|cs| - 1], cs[|cs| - 1];
      assert forall i :: 0 <= i < |init| ==> init[i] == cs[i];
      ReduceIsNormal(init);
      assert SlashFree(last);
    }
  }

  lemma {:induction false} ReduceNormalTail(a: seq<string>, b: seq<string>)
    requires Normal(b)
    ensures Reduce(a + b) == Reduce(a) + b
    decreases |b|
  {
    hide Reduce;
    if b == [] {
      assert a + b == a && Reduce(a) + b == Reduce(a);
    } else {
      var b', c := b[..|b| - 1], b[|b| - 1];
      assert b == b' + [c];
      ReduceNormalTail(a, b');
      assert a + b == (a + b') + [c];
      ReduceAppend(a + b', c);
      assert c != "" && c != "." && c != "..";
      assert Reduce(a) + b == Reduce(a) + b' + [c];
    }
  }

  /** `path.Clean` of a path that starts with a slash. */
  function Clean(s: string): string { Rooted(Reduce(Split(s))) }

  lemma CleanRooted(cs: seq<string>)
    requires Normal(cs)
    ensures Reduce(Split(Rooted(cs))) == cs && Clean(Rooted(cs)) == Rooted(cs)
    ensures Reduce(Split(Rooted(cs) + "/")) == cs
    ensures |Rooted(cs)| > 0 && Rooted(cs)[0] == '/'
    ensures Rooted(cs)[|Rooted(cs)| - 1] == '/' <==> cs == []
  {
    if cs == [] {
      assert Split("/") == ["", ""];
      assert ["", ""][..1] == [""] && [""][..0] == [];
      assert Reduce([""]) == [];
      SplitConcat("/", "");
      assert "/" + "/" + "" == "/" + "/";
      assert Split("/") + Split("") == ["", ""] + [""];
      ReduceAppend(["", ""], "");
    } else {
      SplitCat(cs);
      ReduceNormalTail([""], cs);
      assert Reduce([""]) == [] by { assert [""][..0] == []; }
      SplitConcat(Cat(cs), "");
      assert Cat(cs) + "/" + "" == Cat(cs) + "/";
      ReduceAppend([""] + cs, "");
      CatStarts(cs);
    }
  }

  lemma CatStarts(cs: seq<string>)
    requires cs != []
    ensures |Cat(cs)| > 0 && Cat(cs)[0] == '/'
    ensures Normal(cs) ==> Cat(cs)[|Cat(cs)| - 1] != '/'
  {
    if |cs| == 1 {
    } else {
      CatStarts(cs[..|cs| - 1]);
    }
  }

  lemma CleanCharacters(s: string, c: char)
    requires c in Clean(s) && c != '/'
    ensures c in s
  {
    var cs := Reduce(Split(s));
    CatCharacters(cs, c);
    var i :| 0 <= i < |cs| && c in cs[i];
    ReduceCharacters(Split(s), cs[i]);
    var k :| 0 <= k < |Split(s)| && Split(s)[k] == cs[i];
    SplitCharacters(s, k, c);
  }

  lemma ReduceCharacters(cs: seq<string>, x: string)
    requires x in Reduce(cs)
    ensures x in cs
  {
    var before, c := Reduce(cs[..|cs| - 1]), cs[|cs| - 1];
    if x in before { ReduceCharacters(cs[..|cs| - 1], x); }
  }

  lemma CatCharacters(cs: seq<string>, c: char)
    requires c in Cat(cs) && c != '/'
    ensures exists i :: 0 <= i < |cs| && c in cs[i]
  {
    if c !in cs[|cs| - 1] {
      CatCharacters(cs[..|cs| - 1], c);
      var i :| 0 <= i < |cs| - 1 && c in cs[..|cs| - 1][i];
      assert cs[i] == cs[..|cs| - 1][i];
    }
  }

  // ---------- the program's path functions ----------

  predicate IsSpace(c: char) {
    c in {'\t', '\n', '\U{0B}', '\U{0C}', '\r', ' ', '\U{85}', '\U{A0}', '\U{1680}', '\U{2028}', '\U{2029}',
          '\U{202F}', '\U{205F}', '\U{3000}'}
    || '\U{2000}' <= c <= '\U{200A}'
  }

  /** White space by code point. */
  lemma SpaceExactly(c: char)
    ensures IsSpace(c) <==>
      var n := c as int;
      || 9 <= n <= 13 || n == 32 || n == 0x85 || n == 0xA0 || n == 0x1680 || 0x2000 <= n <= 0x200A
      || n == 0x2028 || n == 0x2029 || n == 0x202F || n == 0x205F || n == 0x3000
  {}

  function TrimLeft(s: string): string {
    if s != "" && IsSpace(s[0]) then TrimLeft(s[1..]) else s
  }

  function TrimRight(s: string): string {
    if s != "" && IsSpace(s[|s| - 1]) then TrimRight(s[..|s| - 1]) else s
  }

  function TrimSpace(s: string): string { TrimRight(TrimLeft(s)) }

  predicate IsControl(c: char) { c < ' ' || c == '\U{7F}' }

  predicate ControlFree(s: string) { forall i :: 0 <= i < |s| ==> !IsControl(s[i]) }

  predicate StartsWithSlash(s: string) { s != "" && s[0] == '/' }

  predicate EndsWithSlash(s: string) { s != "" && s[|s| - 1] == '/' }

  function WithSlash(s: string): string { if StartsWithSlash(s) then s else "/" + s }

  function NormalizeRemotePath(value: string): Option<string> {
    if value == "" then None
    else if !ControlFree(value) then None
    else
      var rooted := WithSlash(value);
      var cleaned := Clean(rooted);
      Some(if EndsWithSlash(rooted) && cleaned != "/" then cleaned + "/" else cleaned)
  }

  function DefaultRemotePath(value: string): string { if TrimSpace(value) == "" then "/" else value }

  function CanonicalArchivePath(raw: string): Option<string> {
    var value := TrimSpace(raw);
    if value == "" || value == "." then Some("/")
    else if '\0' in value || '\\' in value then None
    else Some(Clean(WithSlash(value)))
  }

  function RemoteRoot(root: string): string {
    var r := NormalizeRemotePath(DefaultRemotePath(root));
    if r.None? then "/" else r.value
  }

  function ToRemotePath(root: string, localPath: string): string {
    var remoteRoot := RemoteRoot(root);
    var canonical := CanonicalArchivePath(localPath);
    var local := if canonical.None? then "/" else canonical.value;
    if local == "/" then remoteRoot
    else Clean(remoteRoot + "/" + (if StartsWithSlash(local) then local[1..] else local))
  }

  function TrimSlashSuffix(s: string): string { if EndsWithSlash(s) then s[..|s| - 1] else s }

  function RemoteToLocalPath(root: string, remotePath: string): Option<string> {
    var remoteRoot := NormalizeRemotePath(DefaultRemotePath(root));
    if remoteRoot.None? then None else
      var remote := NormalizeRemotePath(remotePath);
      if remote.None? then None
      else if remoteRoot.value == "/" then remote
      else
        var trimmed := TrimSlashSuffix(remoteRoot.value);
        if remote.value == trimmed then Some("/")
        else if |trimmed| < |remote.value| && remote.value[..|trimmed| + 1] == trimmed + "/" then
          Some("/" + remote.value[|trimmed| + 1..])
        else None
  }

  /** Trimming takes the white space off both ends and nothing else. */
  lemma TrimmedMeans(s: string) returns (front: nat, back: nat)
    ensures front + |TrimSpace(s)| + back == |s| && TrimSpace(s) == s[front..|s| - back]
    ensures forall i :: 0 <= i < front || |s| - back <= i < |s| ==> IsSpace(s[i])
    ensures TrimSpace(s) != "" ==> !IsSpace(s[front]) && !IsSpace(s[|s| - back - 1])
  {
    front := LeftTrimmed(s);
    back := RightTrimmed(s[front..]);
  }

  lemma LeftTrimmed(s: string) returns (n: nat)
    ensures n <= |s| && TrimLeft(s) == s[n..] && forall i :: 0 <= i < n ==> IsSpace(s[i])
    ensures n < |s| ==> !IsSpace(s[n])
  {
    if s != "" && IsSpace(s[0]) {
      n := LeftTrimmed(s[1..]);
      n := n + 1;
    } else {
      n := 0;
    }
  }

  lemma RightTrimmed(s: string) returns (n: nat)
    ensures n <= |s| && TrimRight(s) == s[..|s| - n] && forall i :: |s| - n <= i < |s| ==> IsSpace(s[i])
    ensures n < |s| ==> !IsSpace(s[|s| - n - 1])
  {
    if s != "" && IsSpace(s[|s| - 1]) {
      n := RightTrimmed(s[..|s| - 1]);
      n := n + 1;
    } else {
      n := 0;
    }
  }

  // ---------- normal forms ----------

  /** A normalized remote path is `/a/b` or `/a/b/`: its components are clean and only a trailing
      slash may be added. */
  lemma NormalizedForm(value: string)
    requires NormalizeRemotePath(value).Some?
    ensures var r, cs := NormalizeRemotePath(value).value, Reduce(Split(WithSlash(value)));
      && Normal(cs) && ControlFree(r)
      && (r == Rooted(cs) || (cs != [] && r == Rooted(cs) + "/"))
  {
    var rooted := WithSlash(value);
    SplitPieces(rooted);
    ReduceIsNormal(Split(rooted));
    var r := NormalizeRemotePath(value).value;
    forall i | 0 <= i < |r| ensures !IsControl(r[i]) {
      if r[i] != '/' {
        assert r[i] in Clean(rooted);
        CleanCharacters(rooted, r[i]);
        assert r[i] in value;
      }
    }
  }

  /** What normalizing gives: nothing for an empty path or one with a character below 0x20 or the
      character 0x7F, else the clean components with a slash in front of each, and one after them if the
      path ended with one. */
  lemma NormalizedExactly(value: string)
    ensures var cs := Reduce(Split("/" + value));
      NormalizeRemotePath(value) ==
      if value == "" || (exists i :: 0 <= i < |value| && (value[i] < '\U{20}' || value[i] == '\U{7F}')) then None
      else if cs == [] then Some("/")
      else Some(Cat(cs) + if value[|value| - 1] == '/' then "/" else "")
  {
    SlashedTwice(value);
    NormalizedCases(value, Reduce(Split(WithSlash(value))));
  }

  lemma NormalizedCases(value: string, cs: seq<string>)
    requires cs == Reduce(Split(WithSlash(value)))
    ensures NormalizeRemotePath(value) ==
      if value == "" || (exists i :: 0 <= i < |value| && (value[i] < '\U{20}' || value[i] == '\U{7F}')) then None
      else if cs == [] then Some("/")
      else Some(Cat(cs) + if value[|value| - 1] == '/' then "/" else "")
  {
    hide Cat, Split, Reduce, Normal;
    SplitPieces(WithSlash(value));
    ReduceIsNormal(Split(WithSlash(value)));
    CleanRooted(cs);
    assert value != "" ==> (EndsWithSlash(WithSlash(value)) <==> value[|value| - 1] == '/');
    assert Cat(cs) + "" == Cat(cs);
    assert !ControlFree(value) <==> exists i :: 0 <= i < |value| && (value[i] < '\U{20}' || value[i] == '\U{7F}');
  }

  /** A second slash in front makes no difference. */
  lemma SlashedTwice(value: string)
    ensures Reduce(Split(WithSlash(value))) == Reduce(Split("/" + value))
  {
    hide Reduce;
    SplitConcat("", value);
    assert "" + "/" + value == "/" + value;
    LeadingEmpty(Split(value));
  }

  /** Normalizing is idempotent, trailing slash included. */
  lemma NormalizeIdempotent(value: string)
    requires NormalizeRemotePath(value).Some?
    ensures NormalizeRemotePath(NormalizeRemotePath(value).value) == NormalizeRemotePath(value)
  {
    NormalizedForm(value);
    var cs := Reduce(Split(WithSlash(value)));
    CleanRooted(cs);
  }

  lemma NormalizeRooted(cs: seq<string>)
    requires Normal(cs) && ControlFree(Rooted(cs))
    ensures NormalizeRemotePath(Rooted(cs)) == Some(Rooted(cs))
  {
    CleanRooted(cs);
  }

  /** What an archive path becomes: the root for nothing or a dot, an error for a zero character or a
      backslash, else the clean components with a slash in front of each. */
  lemma CanonicalExactly(raw: string)
    ensures var value := TrimSpace(raw);
      var cs := Reduce(Split("/" + value));
      CanonicalArchivePath(raw) ==
      if exists i :: 0 <= i < |value| && (value[i] == '\0' || value[i] == '\\') then None
      else Some(if cs == [] then "/" else Cat(cs))
  {
    hide Cat;
    var value := TrimSpace(raw);
    SlashedTwice(value);
    CleanRooted([]);
    assert "/" + "" == "/";
    if value == "." {
      assert Split("/.") == [""] + Split(".") == ["", "."];
      assert ["", "."] == [""] + ["."];
      ReduceAppend([""], ".");
      assert [""][..0] == [];
    }
  }

  /** An empty first component makes no difference. */
  lemma {:induction false} LeadingEmpty(cs: seq<string>)
    ensures Reduce([""] + cs) == Reduce(cs)
    decreases |cs|
  {
    if cs == [] {
      assert [""] + cs == [""] && [""][..0] == [];
    } else {
      var init, last := cs[..|cs| - 1], cs[|cs| - 1];
      LeadingEmpty(init);
      assert cs == init + [last] && [""] + cs == ([""] + init) + [last];
      ReduceAppend([""] + init, last);
      ReduceAppend(init, last);
    }
  }

  /** A canonical archive path is the rooted form of clean components: no dot segment survives. */
  lemma CanonicalForm(p: string)
    requires CanonicalArchivePath(p) == Some(p)
    ensures var cs := Reduce(Split(p)); Normal(cs) && p == Rooted(cs)
  {
    var value := WithSlash(TrimSpace(p));
    if p == "/" {
      CleanRooted([]);
    } else {
      SplitPieces(value);
      ReduceIsNormal(Split(value));
      CleanRooted(Reduce(Split(value)));
    }
  }

  /** Archive paths survive the trip to the remote side and back, for every remote root: with or
      without a trailing slash, blank or "/". Only a root with control characters has no remote
      side, and then there is no way back. */
  lemma RemotePathRoundTrip(root: string, p: string)
    requires CanonicalArchivePath(p) == Some(p) && ControlFree(p)
    ensures RemoteToLocalPath(root, ToRemotePath(root, p)) ==
      if ControlFree(DefaultRemotePath(root)) then Some(p) else None
  {
    hide NormalizeRemotePath, CanonicalArchivePath, TrimSpace, Split, Reduce;
    var base := DefaultRemotePath(root);
    if ControlFree(base) {
      DefaultIsNormalizable(root);
      if p == "/" {
        RootRoundTrip(root);
      } else {
        BelowRootRoundTrip(root, p);
      }
    } else {
      ControlIsRefused(base);
    }
  }

  lemma DefaultIsNormalizable(root: string)
    requires ControlFree(DefaultRemotePath(root))
    ensures NormalizeRemotePath(DefaultRemotePath(root)) == Some(RemoteRoot(root))
  {
    assert TrimSpace("") == "";
  }

  lemma ControlIsRefused(base: string)
    requires !ControlFree(base)
    ensures NormalizeRemotePath(base).None?
  {}

  lemma RootRoundTrip(root: string)
    requires CanonicalArchivePath("/") == Some("/") &&
      NormalizeRemotePath(DefaultRemotePath(root)) == Some(RemoteRoot(root))
    ensures RemoteToLocalPath(root, ToRemotePath(root, "/")) == Some("/")
  {
    hide NormalizeRemotePath, CanonicalArchivePath, TrimSpace, Split, Reduce, Cat;
    var base := DefaultRemotePath(root);
    NormalizedForm(base);
    NormalizeIdempotent(base);
    var r, rs := RemoteRoot(root), Reduce(Split(WithSlash(base)));
    CleanRooted(rs);
    assert ToRemotePath(root, "/") == r;
    if r != Rooted(rs) {
      assert TrimSlashSuffix(r) == Rooted(rs);
      assert r[..|Rooted(rs)| + 1] == Rooted(rs) + "/" && r[|Rooted(rs)| + 1..] == "";
      assert "/" + "" == "/";
    }
  }

  lemma BelowRootRoundTrip(root: string, p: string)
    requires CanonicalArchivePath(p) == Some(p) && ControlFree(p) && p != "/"
    requires NormalizeRemotePath(DefaultRemotePath(root)) == Some(RemoteRoot(root))
    ensures RemoteToLocalPath(root, ToRemotePath(root, p)) == Some(p)
  {
    hide NormalizeRemotePath, CanonicalArchivePath, TrimSpace, Split, Reduce, Cat;
    CanonicalForm(p);
    var base := DefaultRemotePath(root);
    NormalizedForm(base);
    var r, rs, cs := RemoteRoot(root), Reduce(Split(WithSlash(base))), Reduce(Split(p));
    CleanRooted(rs);
    JoinedPath(r, rs, cs);
    JoinedControlFree(rs, cs, r, p);
    NormalizeRooted(rs + cs);
    CatConcat(rs, cs);
    CatStarts(cs);
    var remote := ToRemotePath(root, p);
    assert remote == Rooted(rs + cs) == Cat(rs) + Cat(cs);
    if rs == [] {
      assert rs + cs == cs;
    } else {
      var trimmed := TrimSlashSuffix(r);
      assert trimmed == Rooted(rs) == Cat(rs);
      assert remote[..|trimmed| + 1] == trimmed + "/";
      assert "/" + remote[|trimmed| + 1..] == Cat(cs);
    }
  }

  lemma JoinedPath(r: string, rs: seq<string>, cs: seq<string>)
    requires Normal(rs) && Normal(cs) && cs != [] && (r == Rooted(rs) || (rs != [] && r == Rooted(rs) + "/"))
    ensures StartsWithSlash(Rooted(cs)) && Clean(r + "/" + Rooted(cs)[1..]) == Rooted(rs + cs)
  {
    CleanRooted(rs);
    CleanRooted(cs);
    SplitCat(cs);
    var tail := Cat(cs)[1..];
    assert Cat(cs) == "" + "/" + tail;
    SplitConcat("", tail);
    assert Split(tail) == cs by { assert ([""] + Split(tail))[1..] == ([""] + cs)[1..]; }
    SplitConcat(r, tail);
    ReduceNormalTail(Split(r), cs);
  }

  lemma JoinedControlFree(rs: seq<string>, cs: seq<string>, r: string, p: string)
    requires cs != [] && p == Rooted(cs) && ControlFree(p) && ControlFree(r)
    requires r == Rooted(rs) || (rs != [] && r == Rooted(rs) + "/")
    ensures ControlFree(Rooted(rs + cs))
  {
    CatConcat(rs, cs);
    assert Rooted(rs + cs) == Cat(rs) + Cat(cs);
    if rs != [] {
      assert forall i :: 0 <= i < |Cat(rs)| ==> Cat(rs)[i] == r[i];
    }
  }
}
