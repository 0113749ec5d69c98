/** `RoleBaseInfo`, the role as `selectBaseById` and `selectBaseByUserId` hand it to the service. */
module RoleDto {
  import opened Wrappers
  import opened Strs
  import opened Mappers

  datatype RoleBaseInfo = RoleBaseInfo(
    id: int, name: string, authorities: seq<string>, parentId: Option<int>,
    parentName: Option<string>, fullPath: string, remark: Option<string>)

  /**
   * The MyBatis constructor: the columns are copied, and the stored comma list becomes
   * its non-empty trimmed pieces.
   */
  function FromRow(r: RoleRow): (info: RoleBaseInfo)
    ensures info.id == r.id && info.name == r.name && info.parentId == r.parentId
    ensures info.parentName == r.parentName && info.fullPath == r.fullPath && info.remark == r.remark
    ensures forall i :: 0 <= i < |info.authorities| ==>
      info.authorities[i] != [] && ',' !in info.authorities[i] && IsTrimmed(info.authorities[i])
    ensures info.authorities == SplitCommaList(r.authorities)
    ensures r.authorities.None? ==> info.authorities == []
  {
    RoleBaseInfo(r.id, r.name, SplitCommaList(r.authorities), r.parentId, r.parentName, r.fullPath, r.remark)
  }

  /** An empty stored string gives an empty list. */
  lemma EmptyStoredList(r: RoleRow)
    requires r.authorities == Some("")
    ensures FromRow(r).authorities == []
  {
    assert Split("", ',') == [""];
    assert TrimDropEmpty([""]) == [];
  }

  /** A list stored as its comma join comes back as the same list, in the same order. */
  lemma StoredListRoundTrip(r: RoleRow, parts: seq<string>)
    requires forall i :: 0 <= i < |parts| ==> parts[i] != [] && ',' !in parts[i] && IsTrimmed(parts[i])
    requires r.authorities == Some(Join(",", parts))
    ensures FromRow(r).authorities == parts
  {
    SplitTrimJoin(parts, ',');
  }
}
