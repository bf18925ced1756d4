/** Entity metadata as the mapping layer describes it; only the primary keys matter here. */
module Descriptors {
  import opened LinqExpressions
  import opened DbExpressions

  /** One mapped member: its name, its declared type and the column that stores it. */
  datatype MappingMemberDescriptor = MappingMemberDescriptor(memberName: string, memberType: ClrType, column: DbColumn)

  /** An entity type and its primary-key members in declaration order. */
  datatype TypeDescriptor = TypeDescriptor(entityType: ClrType, primaryKeys: seq<MappingMemberDescriptor>)
  {
    predicate HasPrimaryKey()
    {
      |primaryKeys| > 0
    }
  }
}
