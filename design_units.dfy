/**
 * The `design_type` enumeration and the `design_unit` record of
 * src/extension.ts:10-18.
 */
module DesignUnits {

  datatype Option<+T> = None | Some(value: T)

  datatype DesignType = Entity | Architecture | Package | PackageBody | Configuration

  /**
   * One catalogue entry: its kind (the source's `type`, a reserved word here),
   * the file it was found in, the 0-based line of its leading keyword, its
   * lower-cased name and, for architectures and configurations, the name of
   * the entity they belong to.
   */
  datatype DesignUnit = DesignUnit(kind: DesignType, file: string, line: nat, identifier: string, entity: Option<string>)

  /** The two kinds whose records name a target entity. */
  predicate HasTarget(kind: DesignType) {
    kind == Architecture || kind == Configuration
  }
}
