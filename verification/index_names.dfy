/** How the engine reads an index name. A model's `searchableAs()` names an
    OpenSearch application and a table as `app.table`; the engine splits it at
    the first dot. A name without a dot serves as both. */
module IndexNames {
  import opened PhpStrings

  /** `getAppName`: the application part of `searchableAs`. */
  function AppName(searchableAs: string): (app: string)
    ensures '.' !in app
    ensures '.' in searchableAs ==> app + "." + TableName(searchableAs) == searchableAs
    ensures '.' !in searchableAs ==> app == searchableAs
  {
    Before(searchableAs, '.')
  }

  /** `getTableName`: the table part of `searchableAs`. */
  function TableName(searchableAs: string): (table: string)
    ensures '.' !in searchableAs ==> table == searchableAs
    ensures '.' in searchableAs ==> |table| < |searchableAs|
  {
    After(searchableAs, '.')
  }

  /** The split is the only one possible: joining any dot-free application name
      and any table name with a dot gives a name that splits back into them. */
  lemma SplitJoinRoundTrip(app: string, table: string)
    requires '.' !in app
    ensures AppName(app + "." + table) == app
    ensures TableName(app + "." + table) == table
  {
    assert app + "." + table == app + ['.'] + table;
    SplitIsUnique(app, '.', table);
  }
}
