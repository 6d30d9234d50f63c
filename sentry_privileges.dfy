/**
  The authorizable-scope rules of Kudu's Sentry privilege fetcher
  (src/kudu/master/sentry_privileges_fetcher.h): which name fields an
  authorizable of a given scope carries, the checks of the
  AuthorizablePrivileges constructor, and the field conditions under which a
  privilege Sentry returns is well formed for the authorizable Kudu asked about.
*/
module SentryPrivileges {
  import opened Wrappers
  import opened SentryAction

  /** The authorizable scopes, from the top of the hierarchy down. */
  datatype Scope = Server | Database | Table | Column

  function Rank(s: Scope): nat
  {
    match s
    case Server => 0
    case Database => 1
    case Table => 2
    case Column => 3
  }

  /** An authorizable as Sentry describes it: one name per scope, "" when unset. */
  datatype Authorizable = Authorizable(server: string, db: string, table: string, column: string)

  /** The name field of the given scope. */
  function Field(a: Authorizable, f: Scope): string
  {
    match f
    case Server => a.server
    case Database => a.db
    case Table => a.table
    case Column => a.column
  }

  /** ExpectedNonEmptyFields: the fields of equal or higher scope. */
  function ExpectedNonEmptyFields(s: Scope): (r: set<Scope>)
    ensures forall f :: f in r <==> Rank(f) <= Rank(s)
  {
    set f: Scope | f in {Server, Database, Table, Column} && Rank(f) <= Rank(s)
  }

  /** ExpectedEmptyFields: the fields of lower scope. */
  function ExpectedEmptyFields(s: Scope): (r: set<Scope>)
    ensures forall f :: f in r <==> Rank(f) > Rank(s)
  {
    set f: Scope | f in {Server, Database, Table, Column} && Rank(f) > Rank(s)
  }

  /**
    Every field is expected either set or empty, never both; and a lower scope
    expects every field a higher one does.
  */
  lemma ExpectedFieldsPartition(s: Scope, t: Scope)
    ensures ExpectedNonEmptyFields(s) !! ExpectedEmptyFields(s)
    ensures ExpectedNonEmptyFields(s) + ExpectedEmptyFields(s) == {Server, Database, Table, Column}
    ensures Rank(s) <= Rank(t) ==> ExpectedNonEmptyFields(s) <= ExpectedNonEmptyFields(t)
    ensures Server in ExpectedNonEmptyFields(s) && (Column in ExpectedNonEmptyFields(s) <==> s == Column)
  {
    forall f: Scope
      ensures f in ExpectedNonEmptyFields(s) + ExpectedEmptyFields(s)
    {
      match f
      case Server =>
      case Database =>
      case Table =>
      case Column =>
    }
    assert Rank(s) <= 3 by { match s case Server => case Database => case Table => case Column => }
    assert Rank(s) == 3 <==> s == Column by { match s case Server => case Database => case Table => case Column => }
  }

  /** The name checks of the constructor: a switch on scope that falls through from COLUMN to DATABASE. */
  predicate ScopeNamesSet(scope: Scope, db: string, table: string, column: string)
  {
    match scope
    case Column => column != "" && table != "" && db != ""
    case Table => table != "" && db != ""
    case Database => db != ""
    case Server => true
  }

  /**
    The fall-through is the expected-fields rule: the constructor demands a name
    for exactly the expected non-empty fields below the server.
  */
  lemma ScopeNamesSetMeans(scope: Scope, db: string, table: string, column: string)
    ensures ScopeNamesSet(scope, db, table, column) <==>
              forall f :: f in ExpectedNonEmptyFields(scope) && f != Server ==>
                Field(Authorizable("", db, table, column), f) != ""
  {
    var a := Authorizable("", db, table, column);
    if !ScopeNamesSet(scope, db, table, column) {
      if db == "" {
        assert Database in ExpectedNonEmptyFields(scope) && Field(a, Database) == "";
      } else if table == "" {
        assert Table in ExpectedNonEmptyFields(scope) && Field(a, Table) == "";
      } else {
        assert Column in ExpectedNonEmptyFields(scope) && Field(a, Column) == "";
      }
    }
  }

  /** AuthorizablePrivileges: the privileges granted on one authorizable. */
  datatype AuthorizablePrivileges = AuthorizablePrivileges(
    allWithGrant: bool,
    scope: Scope,
    allowedActions: set<Action>,
    dbName: string,
    tableName: string,
    columnName: string)

  /** The constructor: no grant option, no actions yet; the names the scope needs must be set. */
  function NewAuthorizablePrivileges(scope: Scope, db: string, table: string, column: string): (p: AuthorizablePrivileges)
    requires ScopeNamesSet(scope, db, table, column)
    ensures !p.allWithGrant && p.allowedActions == {}
    ensures p.scope == scope && p.dbName == db && p.tableName == table && p.columnName == column
    ensures Rank(scope) >= Rank(Database) ==> p.dbName != ""
    ensures Rank(scope) >= Rank(Table) ==> p.tableName != ""
    ensures Rank(scope) >= Rank(Column) ==> p.columnName != ""
  {
    AuthorizablePrivileges(false, scope, {}, db, table, column)
  }

  /** A privilege in a Sentry response: its scope (None when not a Kudu scope), action name and authorizable. */
  datatype Privilege = Privilege(scope: Option<Scope>, action: string, authorizable: Authorizable)

  /**
    SentryPrivilegeIsWellFormed: the privilege has a Kudu action and a Kudu
    scope, sets exactly the fields of its scope and above, and every field set
    in both the privilege and the requested authorizable is the same in both,
    so the privilege names an ancestor or a descendant of the request. Returns
    the scope and the parsed action when it is well formed.
  */
  function SentryPrivilegeIsWellFormed(privilege: Privilege, requested: Authorizable): (r: Option<(Scope, Action)>)
    ensures r.Some? ==> privilege.scope == Some(r.value.0) && FromString(privilege.action) == Ok(r.value.1)
  {
    match privilege.scope
    case None => None
    case Some(s) =>
      var a := privilege.authorizable;
      if FromString(privilege.action).Err? then None
      else if exists f :: f in ExpectedNonEmptyFields(s) && Field(a, f) == "" then None
      else if exists f :: f in ExpectedEmptyFields(s) && Field(a, f) != "" then None
      else if exists f :: Field(a, f) != "" && Field(requested, f) != "" && Field(a, f) != Field(requested, f) then None
      else Some((s, FromString(privilege.action).value))
  }

  /**
    A well-formed privilege names an ancestor or a descendant of the requested
    authorizable: every field of its scope and above is set, and equals the
    request's field wherever the request sets it; every lower field is empty.
  */
  lemma WellFormedPrivilegeMatches(privilege: Privilege, requested: Authorizable, f: Scope)
    requires SentryPrivilegeIsWellFormed(privilege, requested).Some?
    ensures var s := SentryPrivilegeIsWellFormed(privilege, requested).value.0;
            (Rank(f) <= Rank(s) ==>
               Field(privilege.authorizable, f) != "" &&
               (Field(requested, f) != "" ==> Field(privilege.authorizable, f) == Field(requested, f))) &&
            (Rank(f) > Rank(s) ==> Field(privilege.authorizable, f) == "")
  {
    var s := privilege.scope.value;
    assert f in ExpectedNonEmptyFields(s) || f in ExpectedEmptyFields(s);
  }

  /** Conversely, a privilege with a Kudu scope and action that meets the field rule is well formed. */
  lemma WellFormedWhenFieldsAgree(privilege: Privilege, requested: Authorizable, s: Scope, a: Action)
    requires privilege.scope == Some(s) && FromString(privilege.action) == Ok(a)
    requires forall f :: Rank(f) <= Rank(s) ==>
               Field(privilege.authorizable, f) != "" &&
               (Field(requested, f) != "" ==> Field(privilege.authorizable, f) == Field(requested, f))
    requires forall f :: Rank(f) > Rank(s) ==> Field(privilege.authorizable, f) == ""
    ensures SentryPrivilegeIsWellFormed(privilege, requested) == Some((s, a))
  {
  }

  /**
    A table privilege is well formed for a request on its database: the
    privilege names a descendant of the requested authorizable.
  */
  lemma DescendantWellFormed()
    ensures SentryPrivilegeIsWellFormed(
              Privilege(Some(Table), "ALL", Authorizable("s", "d", "t", "")),
              Authorizable("s", "d", "", "")) == Some((Table, All))
  {
    FromStringAccepts("ALL", All);
    WellFormedWhenFieldsAgree(
      Privilege(Some(Table), "ALL", Authorizable("s", "d", "t", "")),
      Authorizable("s", "d", "", ""), Table, All);
  }
}
