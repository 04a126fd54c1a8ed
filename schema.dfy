/**
 * The column record both tools work on: one row of MySQL's `describe <table>`
 * (and one object of a schema snapshot file), with the raw strings MySQL
 * reports, and the "last column that plays a role" rule both tools use to
 * pick the primary-key and timestamp columns.
 */
module Schema {
  import opened Strings

  /**
   * `field`, `type`, `null` ("YES"/"NO"), `key` ("PRI", "UNI", "MUL" or ""),
   * `default` ("" when there is none) and `extra`, as `describe` reports them.
   */
  datatype Column = Column(
    field: string,
    colType: string,
    nullSpec: string,
    key: string,
    defaultValue: string,
    extra: string)

  /** The roles the backup tool infers from column metadata. */
  datatype Role = PrimaryKey | UpdateTime | CreateTime

  /** Whether column `c` qualifies for `role` under the backup tool's heuristics. */
  predicate HasRole(c: Column, role: Role)
  {
    match role
    case PrimaryKey => c.key == "PRI"
    case UpdateTime => c.colType == "timestamp" && Contains(c.extra, "CURRENT_TIMESTAMP")
    case CreateTime => c.colType == "timestamp" && c.defaultValue == "CURRENT_TIMESTAMP"
  }

  /**
   * The name of the last column of `cols` that qualifies for `role`, or "" when
   * none does: what a front-to-back scan that overwrites its answer on every
   * match ends with.
   */
  function LastWithRole(cols: seq<Column>, role: Role): string
  {
    if |cols| == 0 then ""
    else if HasRole(cols[|cols| - 1], role) then cols[|cols| - 1].field
    else LastWithRole(cols[..|cols| - 1], role)
  }

  /** Extending the scanned prefix by one column: that column wins if it qualifies. */
  lemma LastWithRoleStep(cols: seq<Column>, i: int, role: Role)
    requires 0 <= i < |cols|
    ensures LastWithRole(cols[..i + 1], role) ==
            if HasRole(cols[i], role) then cols[i].field else LastWithRole(cols[..i], role)
  {
    assert cols[..i + 1][..i] == cols[..i];
  }

  /**
   * LastWithRole is "" when no column qualifies, and otherwise the name of the
   * qualifying column that no later column supersedes.
   */
  lemma {:induction false} LastWithRoleSpec(cols: seq<Column>, role: Role)
    ensures (forall i :: 0 <= i < |cols| ==> !HasRole(cols[i], role)) ==> LastWithRole(cols, role) == ""
    ensures forall i :: 0 <= i < |cols| && HasRole(cols[i], role) &&
                        (forall j :: i < j < |cols| ==> !HasRole(cols[j], role))
                        ==> LastWithRole(cols, role) == cols[i].field
  {
    if |cols| > 0 {
      var init := cols[..|cols| - 1];
      LastWithRoleSpec(init, role);
      assert forall i :: 0 <= i < |init| ==> init[i] == cols[i];
    }
  }
}
