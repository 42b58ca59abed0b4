/** Values shared by the FUSE modules. */
module Basics {
  newtype byte = x: int | 0 <= x < 256
  type Bytes = seq<byte>
  type Path = string

  datatype Option<+T> = None | Some(value: T)
  datatype Result<+T, +E> = Ok(value: T) | Err(error: E)

  predicate HasPrefix(s: string, prefix: string) {
    |prefix| <= |s| && s[..|prefix|] == prefix
  }

  predicate HasSuffix(s: string, suffix: string) {
    |suffix| <= |s| && s[|s| - |suffix|..] == suffix
  }

  function TreePrefix(name: string): string {
    if HasSuffix(name, "/") then name else name + "/"
  }

  /** `p` is `root` itself or a path below it. */
  predicate Under(p: Path, root: Path) {
    p == root || HasPrefix(p, TreePrefix(root))
  }

  function Zeros(n: nat): (z: Bytes)
    ensures |z| == n && forall i :: 0 <= i < n ==> z[i] == 0
  {
    seq(n, _ => 0)
  }

  ghost function Any<T(!new)>(s: set<T>): (x: T)
    requires s != {}
    ensures x in s
  {
    var x :| x in s;
    x
  }

  /** The sum of `f` over a set. */
  ghost function Sum<T(!new)>(f: T -> nat, s: set<T>): nat {
    if s == {} then 0 else f(Any(s)) + Sum(f, s - {Any(s)})
  }

  lemma SumNothing<T(!new)>(f: T -> nat)
    ensures Sum(f, {}) == 0
  {}

  lemma {:induction false} SumRemove<T(!new)>(f: T -> nat, s: set<T>, x: T)
    requires x in s
    ensures Sum(f, s) == f(x) + Sum(f, s - {x})
    decreases s
  {
    var y := Any(s);
    if x == y {
    } else {
      SumRemove(f, s - {y}, x);
      SumRemove(f, s - {x}, y);
      assert s - {x} - {y} == s - {y} - {x};
    }
  }
}
