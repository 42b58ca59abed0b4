/** The object version a FUSE handle remembers (`fuse_version.go`). A zero revision and an
    empty resource identifier both mean "not reported". */
module Versions {
  datatype Version = Version(revision: int, resourceId: string) {
    predicate Known() { revision > 0 || resourceId != "" }

    predicate Matches(required: Version) {
      if !required.Known() then true
      else if required.resourceId != "" && resourceId != required.resourceId then false
      else if required.revision > 0 && revision != required.revision then false
      else true
    }

    predicate ConflictsWith(expected: Version) {
      if expected.resourceId != "" && resourceId != "" && resourceId != expected.resourceId then true
      else if expected.revision > 0 && revision > 0 && revision != expected.revision then true
      else false
    }

    function WithRevision(r: int): Version {
      if r > 0 then this.(revision := r) else this
    }
  }

  const UNKNOWN := Version(0, "")

  /** A version meets a requirement exactly when they do not conflict and it reports whatever is required.
      Two versions conflict exactly when both report an identifier, or both a revision, and these differ;
      so the conflict is symmetric, and nothing conflicts with itself or with what is unknown. */
  lemma VersionsCompare(v: Version, required: Version)
    ensures v.Matches(required) <==>
      && !v.ConflictsWith(required)
      && (required.revision > 0 ==> v.revision > 0) && (required.resourceId != "" ==> v.resourceId != "")
    ensures v.ConflictsWith(required) <==>
      || (v.revision > 0 && required.revision > 0 && v.revision != required.revision)
      || (v.resourceId != "" && required.resourceId != "" && v.resourceId != required.resourceId)
    ensures v.ConflictsWith(required) <==> required.ConflictsWith(v)
    ensures !v.ConflictsWith(v) && !v.ConflictsWith(UNKNOWN) && v.Matches(UNKNOWN)
    ensures v.Known() <==> !UNKNOWN.Matches(v)
  {}

  /** A reply that reports a revision changes just that; one without a revision changes nothing. */
  lemma RevisionIsTakenOver(v: Version, r: int)
    ensures v.WithRevision(r).resourceId == v.resourceId
    ensures v.WithRevision(r).revision == if r <= 0 then v.revision else r
  {}

  /** When both sides report a positive revision, the absence of a conflict pins the revision. */
  lemma NoConflictPinsRevision(current: Version, base: Version)
    requires current.revision > 0 && base.revision > 0
    ensures !current.ConflictsWith(base) ==> current.revision == base.revision
  {}
}
