/** The version records exchanged with the versions panel (src/interfaces/version.ts). */
module Versions {
  import opened Wrappers

  /** Who saved a version. */
  datatype Author = Author(id: string, name: string, email: string, avatar: Option<string>)

  /**
   * One saved version of a process definition. The free-form `variables`
   * and `activities` payloads are not part of this model.
   */
  datatype Version = Version(
    id: string,
    tag: string,
    description: string,
    createdBy: Author,
    createdAt: string,
    processId: string,
    xml: string,
    isCurrent: Option<bool>)

  /** The four kinds of element-level change. */
  datatype ChangeType = Added | Changed | Moved | Removed

  /** The string literal that stands for each kind in a `VersionChange`. */
  function ChangeTypeName(k: ChangeType): string {
    match k
    case Added => "added"
    case Changed => "changed"
    case Moved => "moved"
    case Removed => "removed"
  }

  /**
   * One change of a comparison. `changeType` is kept as the raw string the
   * record carries at run time; a well-typed record holds one of the four names.
   */
  datatype VersionChange = VersionChange(
    id: string,
    elementId: string,
    elementName: string,
    changeType: string,
    details: Option<string>)

  /** `s` is one of the four literals of the `changeType` union. */
  predicate IsChangeTypeName(s: string) {
    exists k: ChangeType :: ChangeTypeName(k) == s
  }

  /** The record respects its declared type. */
  predicate WellTyped(c: VersionChange) {
    IsChangeTypeName(c.changeType)
  }

  /** Distinct kinds are written with distinct literals. */
  lemma ChangeTypeNameInjective(j: ChangeType, k: ChangeType)
    ensures ChangeTypeName(j) == ChangeTypeName(k) ==> j == k
  {
  }
}
