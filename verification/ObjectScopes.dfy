/** Object scopes, the filter that narrows one by another, and what a scope shows of the
    audit log. */
module ObjectScopes {
  import opened Wrappers

  type Id = string

  datatype ScopeType = Global | Hivepaas | User | ProjectEnv | Project | App

  datatype Scope = Scope(
    scopeType: ScopeType, appID: Id, projectID: Id, projectEnvID: Id, userID: Id,
    noInherited: bool, projectEnvIDs: seq<Id>)

  function FilteredBy(s: Scope, filter: Option<Scope>): Option<Scope> {
    if filter.None? then Some(s)
    else
      var f := filter.value;
      match s.scopeType
      case Global => Some(f)
      case Hivepaas => Some(f)
      case Project =>
        if f.projectID != s.projectID then None
        else if f.scopeType == Project then Some(s)
        else if |s.projectEnvIDs| > 0 && f.projectEnvID !in s.projectEnvIDs then None
        else Some(f)
      case ProjectEnv =>
        if f.scopeType == Project && f.projectID == s.projectID then Some(s)
        else if f.projectEnvID != s.projectEnvID then None
        else if f.scopeType == App then Some(f)
        else Some(s)
      case App =>
        if (f.scopeType == App && f.appID == s.appID)
          || (f.scopeType == ProjectEnv && f.projectEnvID == s.projectEnvID)
          || (f.scopeType == Project && f.projectID == s.projectID)
        then Some(s)
        else None
      case User => None
  }

  // ---------------------------------------------------------------- The tables

  datatype AppRow = AppRow(projectID: Id, projectEnvID: Id, parentID: Id)

  /** The projects, the envs with the project each is in, the apps, and the users. */
  datatype World = World(projects: set<Id>, envs: map<Id, Id>, apps: map<Id, AppRow>, users: set<Id>)
  {
    predicate Valid() {
      && (forall e :: e in envs ==> envs[e] in projects)
      && (forall a :: a in apps ==>
            apps[a].projectEnvID in envs && apps[a].projectID == envs[apps[a].projectEnvID])
      && (forall a :: a in apps && apps[a].parentID in apps ==>
            apps[a].projectEnvID == apps[apps[a].parentID].projectEnvID)
      && projects !! envs.Keys && projects + envs.Keys !! apps.Keys
      && users !! projects + envs.Keys + apps.Keys
      && "" !in projects + envs.Keys + apps.Keys + users
    }
  }

  /** The ids a scope carries agree with the tables: they are of their kind where they are
      in them at all, and those of the objects it is in are right. */
  predicate Placed(w: World, s: Scope) {
    match s.scopeType
    case App => s.appID in w.apps && s.projectEnvID == w.apps[s.appID].projectEnvID
                && s.projectID == w.apps[s.appID].projectID
    case ProjectEnv => s.projectEnvID != "" && s.appID == ""
                       && s.projectEnvID !in w.projects + w.apps.Keys + w.users
                       && (s.projectEnvID in w.envs ==> s.projectID == w.envs[s.projectEnvID])
    case Project => s.projectID != "" && s.projectEnvID == "" && s.appID == ""
                    && s.projectID !in w.envs.Keys + w.apps.Keys + w.users
    case User => s.userID in w.users
    case Global => true
    case Hivepaas => true
  }

  /** An audit row: the scope type it was written in, and its object. */
  datatype Row = Row(scope: ScopeType, objectID: Id)

  predicate Recorded(w: World, row: Row) {
    row.objectID == "" || row.objectID in w.projects + w.envs.Keys + w.apps.Keys + w.users
  }

  // ---------------------------------------------------------------- What a scope shows

  predicate InProjectEnvs(env: Id, envIDs: seq<Id>) {
    |envIDs| > 0 ==> env in envIDs
  }

  /** The rows the audit log's filter for a scope keeps. With children, an app's are those
      of its child apps too, as the audit log reads it. */
  predicate Shows(w: World, s: Scope, children: bool, row: Row) {
    match s.scopeType
    case App =>
      || row.objectID == s.appID
      || (children && !s.noInherited && row.objectID in w.apps && w.apps[row.objectID].parentID == s.appID)
    case ProjectEnv =>
      || row.objectID == s.projectEnvID
      || (!s.noInherited && row.objectID in w.apps && w.apps[row.objectID].projectEnvID == s.projectEnvID)
    case Project =>
      || row.objectID == s.projectID
      || (!s.noInherited && row.objectID in w.envs && w.envs[row.objectID] == s.projectID
          && InProjectEnvs(row.objectID, s.projectEnvIDs))
      || (!s.noInherited && row.objectID in w.apps && w.apps[row.objectID].projectID == s.projectID
          && InProjectEnvs(w.apps[row.objectID].projectEnvID, s.projectEnvIDs))
    case User => row.objectID == s.userID
    case Global => s.noInherited ==> row.scope == Global || row.scope == Hivepaas
    case Hivepaas => row.scope == Hivepaas
  }

  predicate ShowsAny(w: World, s: Option<Scope>, children: bool, row: Row) {
    s.Some? && Shows(w, s.value, children, row)
  }

  function AppScope(w: World, app: Id): Scope
    requires app in w.apps
  {
    Scope(App, app, w.apps[app].projectID, w.apps[app].projectEnvID, "", false, [])
  }

  function EnvScope(w: World, env: Id): Scope
    requires env in w.envs
  {
    Scope(ProjectEnv, "", w.envs[env], env, "", false, [])
  }

  /** Read without child apps, an env shows its own rows and what each of its apps shows; ... */
  lemma EnvShowsItsApps(w: World, s: Scope, row: Row)
    requires s.scopeType == ProjectEnv
    ensures Shows(w, s, false, row)
       <==> || row.objectID == s.projectEnvID
            || (!s.noInherited && exists app :: app in w.apps && w.apps[app].projectEnvID == s.projectEnvID
                                                && Shows(w, AppScope(w, app), false, row))
  {
    if row.objectID in w.apps {
      assert Shows(w, AppScope(w, row.objectID), false, row);
    }
  }

  /** ... a project shows its own and what each of its envs shows - of each it is kept to, if
      it is kept to some; ... */
  lemma ProjectShowsItsEnvs(w: World, s: Scope, row: Row)
    requires w.Valid() && s.scopeType == Project
    ensures Shows(w, s, false, row)
       <==> || row.objectID == s.projectID
            || (!s.noInherited && exists env :: env in w.envs && w.envs[env] == s.projectID
                                                && (s.projectEnvIDs == [] || env in s.projectEnvIDs)
                                                && Shows(w, EnvScope(w, env), false, row))
  {
    if row.objectID in w.apps {
      var env := w.apps[row.objectID].projectEnvID;
      assert Shows(w, EnvScope(w, env), false, row);
    }
    if row.objectID in w.envs {
      assert Shows(w, EnvScope(w, row.objectID), false, row);
    }
  }

  /** ... with child apps an app shows its own and those of each app below it; ... */
  lemma AppShowsItsChildren(w: World, s: Scope, row: Row)
    requires s.scopeType == App
    ensures Shows(w, s, false, row) <==> row.objectID == s.appID
    ensures Shows(w, s, true, row)
       <==> || Shows(w, s, false, row)
            || (!s.noInherited && exists app :: app in w.apps && w.apps[app].parentID == s.appID
                                                && Shows(w, AppScope(w, app), false, row))
  {
    if row.objectID in w.apps {
      assert Shows(w, AppScope(w, row.objectID), false, row);
    }
  }

  /** ... and everything is shown by the global scope, which kept to its own rows shows those
      written in it or in the Hivepaas one, and that one its own. */
  lemma GlobalShowsAll(w: World, s: Scope, hivepaas: Scope, children: bool, row: Row)
    requires s.scopeType == Global && hivepaas.scopeType == Hivepaas
    ensures Shows(w, s, children, row) || s.noInherited
    ensures s.noInherited ==>
              (Shows(w, s, children, row) <==> Shows(w, hivepaas, children, row) || row.scope == Global)
    ensures Shows(w, hivepaas, children, row) <==> row.scope == Hivepaas
  {
  }

  // ---------------------------------------------------------------- Filtering is intersecting

  function WithFlag(s: Scope, own: bool): Scope {
    s.(noInherited := own)
  }

  /** The scope a list is of: the filtered one, kept to its own object's rows when the list's
      scope is, or when the list is asked to be. What flag the filter has is nothing to it. */
  function Listed(s: Scope, f: Scope, scopeOnly: bool): Option<Scope> {
    match FilteredBy(s, Some(f))
    case None => None
    case Some(target) => Some(WithFlag(target, s.noInherited || scopeOnly))
  }

  predicate OwnOnly(s: Scope, scopeOnly: bool) {
    s.noInherited || scopeOnly
  }

  /** A row of a scope's own object. */
  predicate IsOwnRow(s: Scope, row: Row) {
    row.objectID == NamedID(s)
  }

  /** What a list is to show: the rows the scope and the filter, inherited ones included, both
      show; and of those, if it is kept to own rows, those of the filtered scope's object. */
  predicate Wanted(w: World, s: Scope, f: Scope, scopeOnly: bool, children: bool, row: Row) {
    && Shows(w, WithFlag(s, false), children, row) && Shows(w, WithFlag(f, false), children, row)
    && (OwnOnly(s, scopeOnly) ==> FilteredBy(s, Some(f)).Some? && IsOwnRow(FilteredBy(s, Some(f)).value, row))
  }

  /** The list shows what is wanted. */
  ghost predicate Meets(w: World, s: Scope, f: Scope, scopeOnly: bool, children: bool) {
    forall row :: Recorded(w, row) ==>
      (ShowsAny(w, Listed(s, f, scopeOnly), children, row) <==> Wanted(w, s, f, scopeOnly, children, row))
  }

  /** The list shows nothing that is not. */
  ghost predicate Narrows(w: World, s: Scope, f: Scope, scopeOnly: bool, children: bool) {
    forall row :: Recorded(w, row) && ShowsAny(w, Listed(s, f, scopeOnly), children, row) ==>
      Wanted(w, s, f, scopeOnly, children, row)
  }

  /** A filter to a project, an env or an app. */
  predicate IsFilter(f: Scope) {
    f.scopeType == Project || f.scopeType == ProjectEnv || f.scopeType == App
  }

  /** What the one scope is of lies in what the other is of. */
  predicate LiesIn(inner: Scope, outer: Scope) {
    match outer.scopeType
    case Global => true
    case Hivepaas => true
    case Project => IsFilter(inner) && inner.projectID == outer.projectID
    case ProjectEnv => inner.scopeType in {ProjectEnv, App} && inner.projectEnvID == outer.projectEnvID
    case App => inner.scopeType == App && inner.appID == outer.appID
    case User => false
  }

  /** Without a filter a scope stays. With one it is whichever of the two lies in the other,
      the scope itself if both do; and none if neither does, or the filter lies in an env that
      the scope, a project kept to some, leaves out. */
  lemma FilteredIsTheInner(w: World, s: Scope, f: Scope)
    requires Placed(w, s) && Placed(w, f) && IsFilter(f)
    ensures FilteredBy(s, None) == Some(s)
    ensures LiesIn(s, f) ==> FilteredBy(s, Some(f)) == Some(s)
    ensures !LiesIn(s, f) && !LiesIn(f, s) ==> FilteredBy(s, Some(f)) == None
    ensures !LiesIn(s, f) && LiesIn(f, s) ==>
              FilteredBy(s, Some(f)) == if s.scopeType != Project || s.projectEnvIDs == []
                                           || f.projectEnvID in s.projectEnvIDs then Some(f) else None
  {
  }

  /** The envs whose rows a project, env or app scope reaches. */
  predicate ReachesEnv(w: World, s: Scope, env: Id) {
    env in w.envs &&
    match s.scopeType
    case Project => w.envs[env] == s.projectID && InProjectEnvs(env, s.projectEnvIDs)
    case ProjectEnv => env == s.projectEnvID
    case App => env == s.projectEnvID
    case _ => false
  }

  /** The filter is itself kept to some envs of the scope's project, and not to all those
      the scope reaches. */
  ghost predicate LeavesOut(w: World, s: Scope, f: Scope) {
    && f.scopeType == Project && |f.projectEnvIDs| > 0 && f.projectID == s.projectID
    && exists env :: ReachesEnv(w, s, env) && env !in f.projectEnvIDs
  }

  /** The project or env, if any, that the filter names is in the tables. */
  predicate Exists(w: World, f: Scope) {
    match f.scopeType
    case Project => f.projectID in w.projects
    case ProjectEnv => f.projectEnvID in w.envs
    case App => f.appID in w.apps
    case _ => true
  }

  function NamedID(f: Scope): Id {
    match f.scopeType
    case Project => f.projectID
    case ProjectEnv => f.projectEnvID
    case _ => f.appID
  }

  /** The filter leaves out an env that the list would show a row of. */
  ghost predicate WidensByEnv(w: World, s: Scope, f: Scope, scopeOnly: bool) {
    LeavesOut(w, s, f) && !(OwnOnly(s, scopeOnly) && s.scopeType == Project)
  }

  lemma LeftOutRow(w: World, s: Scope, f: Scope, scopeOnly: bool, children: bool) returns (row: Row)
    requires w.Valid() && Placed(w, s) && Placed(w, f) && IsFilter(f) && WidensByEnv(w, s, f, scopeOnly)
    ensures Recorded(w, row) && ShowsAny(w, Listed(s, f, scopeOnly), children, row)
    ensures !Shows(w, WithFlag(f, false), children, row)
  {
    var env :| ReachesEnv(w, s, env) && env !in f.projectEnvIDs;
    row := Row(s.scopeType, if s.scopeType == App then s.appID else env);
  }

  /** Read without child apps, a list of a filtered scope shows the intersection - exactly
      when the scope is not the Hivepaas one and the filter leaves out no env of the scope's
      that is listed. The unrestricted filters the lists are given leave out none. */
  lemma FilteredIsIntersectionIff(w: World, s: Scope, f: Scope, scopeOnly: bool)
    requires w.Valid() && Placed(w, s) && Placed(w, f) && IsFilter(f) && Exists(w, f)
    ensures Meets(w, s, f, scopeOnly, false) <==> s.scopeType != Hivepaas && !WidensByEnv(w, s, f, scopeOnly)
  {
    if WidensByEnv(w, s, f, scopeOnly) {
      var row := LeftOutRow(w, s, f, scopeOnly, false);
    } else if s.scopeType == Hivepaas {
      var row := Row(f.scopeType, NamedID(f));
      assert Recorded(w, row) && ShowsAny(w, Listed(s, f, scopeOnly), false, row);
    } else {
      forall row | Recorded(w, row)
        ensures ShowsAny(w, Listed(s, f, scopeOnly), false, row) <==> Wanted(w, s, f, scopeOnly, false, row)
      {
        ListedRow(w, s, f, scopeOnly, false, row);
      }
    }
  }

  /** One of two app scopes is of a child of the other's app. */
  predicate ParentAndChild(w: World, s: Scope, f: Scope) {
    && s.scopeType == App && f.scopeType == App && s.appID != f.appID
    && ((s.appID in w.apps && w.apps[s.appID].parentID == f.appID)
        || (f.appID in w.apps && w.apps[f.appID].parentID == s.appID))
  }

  /** The list shows the row only if it is wanted, and if it is wanted, unless that takes an
      app and a child of it. */
  predicate IsListedRight(w: World, s: Scope, f: Scope, scopeOnly: bool, children: bool, row: Row) {
    && (ShowsAny(w, Listed(s, f, scopeOnly), children, row) ==> Wanted(w, s, f, scopeOnly, children, row))
    && (Exists(w, f) && (children && !OwnOnly(s, scopeOnly) ==> !ParentAndChild(w, s, f)) ==>
          (Wanted(w, s, f, scopeOnly, children, row) ==> ShowsAny(w, Listed(s, f, scopeOnly), children, row)))
  }

  /** Kept to own rows, a project, an env or an app shows those. */
  lemma OwnRowsShown(w: World, s: Scope, children: bool, row: Row)
    requires IsFilter(s)
    ensures Shows(w, WithFlag(s, true), children, row) <==> IsOwnRow(s, row)
  {
  }

  /** The filtered scope's own row is one both show. */
  lemma OwnRowOfBoth(w: World, s: Scope, f: Scope, children: bool, row: Row)
    requires w.Valid() && Placed(w, s) && Placed(w, f) && IsFilter(f) && Recorded(w, row)
    requires s.scopeType != Hivepaas && !WidensByEnv(w, s, f, true)
    requires FilteredBy(s, Some(f)).Some? && IsOwnRow(FilteredBy(s, Some(f)).value, row)
    ensures IsFilter(FilteredBy(s, Some(f)).value)
    ensures Shows(w, WithFlag(s, false), children, row) && Shows(w, WithFlag(f, false), children, row)
  {
    if !LeavesOut(w, s, f) {
      NotLeftOut(w, s, f, row);
    }
  }

  lemma OwnListed(w: World, s: Scope, f: Scope, scopeOnly: bool, children: bool, row: Row)
    requires w.Valid() && Placed(w, s) && Placed(w, f) && IsFilter(f) && Recorded(w, row)
    requires s.scopeType != Hivepaas && OwnOnly(s, scopeOnly) && !WidensByEnv(w, s, f, scopeOnly)
    ensures IsListedRight(w, s, f, scopeOnly, children, row)
  {
    if FilteredBy(s, Some(f)).Some? {
      var target := FilteredBy(s, Some(f)).value;
      FilteredIsFilter(s, f);
      OwnRowsShown(w, target, children, row);
      if IsOwnRow(target, row) {
        OwnRowOfBoth(w, s, f, children, row);
      }
    }
  }

  lemma FilteredIsFilter(s: Scope, f: Scope)
    requires IsFilter(f) && FilteredBy(s, Some(f)).Some?
    ensures IsFilter(FilteredBy(s, Some(f)).value)
  {
  }

  lemma ListedOfProject(w: World, s: Scope, f: Scope, scopeOnly: bool, children: bool, row: Row)
    requires w.Valid() && Placed(w, s) && Placed(w, f) && IsFilter(f) && Recorded(w, row)
    requires s.scopeType == Project && !OwnOnly(s, scopeOnly) && !WidensByEnv(w, s, f, scopeOnly)
    ensures IsListedRight(w, s, f, scopeOnly, children, row)
  {
    NotLeftOut(w, s, f, row);
  }

  lemma ListedOfProjectEnv(w: World, s: Scope, f: Scope, scopeOnly: bool, children: bool, row: Row)
    requires w.Valid() && Placed(w, s) && Placed(w, f) && IsFilter(f) && Recorded(w, row)
    requires s.scopeType == ProjectEnv && !OwnOnly(s, scopeOnly) && !WidensByEnv(w, s, f, scopeOnly)
    ensures IsListedRight(w, s, f, scopeOnly, children, row)
  {
    NotLeftOut(w, s, f, row);
  }

  lemma ListedOfApp(w: World, s: Scope, f: Scope, scopeOnly: bool, children: bool, row: Row)
    requires w.Valid() && Placed(w, s) && Placed(w, f) && IsFilter(f) && Recorded(w, row)
    requires s.scopeType == App && !OwnOnly(s, scopeOnly) && !WidensByEnv(w, s, f, scopeOnly)
    ensures IsListedRight(w, s, f, scopeOnly, children, row)
  {
    NotLeftOut(w, s, f, row);
  }

  lemma ListedOfOther(w: World, s: Scope, f: Scope, scopeOnly: bool, children: bool, row: Row)
    requires w.Valid() && Placed(w, s) && Placed(w, f) && IsFilter(f) && Recorded(w, row)
    requires s.scopeType == Global || s.scopeType == User
    requires !OwnOnly(s, scopeOnly) && !WidensByEnv(w, s, f, scopeOnly)
    ensures IsListedRight(w, s, f, scopeOnly, children, row)
  {
    NotLeftOut(w, s, f, row);
  }

  lemma ListedRow(w: World, s: Scope, f: Scope, scopeOnly: bool, children: bool, row: Row)
    requires w.Valid() && Placed(w, s) && Placed(w, f) && IsFilter(f) && Recorded(w, row)
    requires s.scopeType != Hivepaas && !WidensByEnv(w, s, f, scopeOnly)
    ensures IsListedRight(w, s, f, scopeOnly, children, row)
  {
    if OwnOnly(s, scopeOnly) {
      OwnListed(w, s, f, scopeOnly, children, row);
    } else {
      match s.scopeType
      case Project => ListedOfProject(w, s, f, scopeOnly, children, row);
      case ProjectEnv => ListedOfProjectEnv(w, s, f, scopeOnly, children, row);
      case App => ListedOfApp(w, s, f, scopeOnly, children, row);
      case _ => ListedOfOther(w, s, f, scopeOnly, children, row);
    }
  }

  /** Read as the audit log reads it, with child apps, filtering still never widens ... */
  lemma FilteredNarrows(w: World, s: Scope, f: Scope, scopeOnly: bool)
    requires w.Valid() && Placed(w, s) && Placed(w, f) && IsFilter(f)
    requires s.scopeType != Hivepaas && !WidensByEnv(w, s, f, scopeOnly)
    ensures Narrows(w, s, f, scopeOnly, true)
  {
    forall row | Recorded(w, row) && ShowsAny(w, Listed(s, f, scopeOnly), true, row)
      ensures Wanted(w, s, f, scopeOnly, true, row)
    {
      ListedRow(w, s, f, scopeOnly, true, row);
    }
  }

  /** ... and gives all that is wanted except between an app and a child of it, which no
      filtered scope stands for. */
  lemma FilteredIsIntersectionWithChildrenIff(w: World, s: Scope, f: Scope, scopeOnly: bool)
    requires w.Valid() && Placed(w, s) && Placed(w, f) && IsFilter(f) && Exists(w, f)
    ensures Meets(w, s, f, scopeOnly, true)
       <==> && s.scopeType != Hivepaas && !WidensByEnv(w, s, f, scopeOnly)
            && (ParentAndChild(w, s, f) ==> OwnOnly(s, scopeOnly))
  {
    if WidensByEnv(w, s, f, scopeOnly) {
      var row := LeftOutRow(w, s, f, scopeOnly, true);
    } else if s.scopeType == Hivepaas {
      var row := Row(f.scopeType, NamedID(f));
      assert Recorded(w, row) && ShowsAny(w, Listed(s, f, scopeOnly), true, row);
    } else if ParentAndChild(w, s, f) && !OwnOnly(s, scopeOnly) {
      var row := Row(App, if w.apps[s.appID].parentID == f.appID then s.appID else f.appID);
      assert Recorded(w, row) && Wanted(w, s, f, scopeOnly, true, row);
    } else {
      forall row | Recorded(w, row)
        ensures ShowsAny(w, Listed(s, f, scopeOnly), true, row) <==> Wanted(w, s, f, scopeOnly, true, row)
      {
        ListedRow(w, s, f, scopeOnly, true, row);
      }
    }
  }

  /** A scope kept to its own rows is not narrowed by a filter to an object in it: the list is
      then of that object's own rows, which the scope does not show. It shows no more than the
      scope exactly when it stays with the scope's own object. */
  lemma OwnRowsStayIff(w: World, s: Scope, f: Scope, scopeOnly: bool, children: bool)
    requires w.Valid() && Placed(w, s) && Placed(w, f) && IsFilter(f) && Exists(w, f) && s.noInherited
    ensures (forall row :: Recorded(w, row) && ShowsAny(w, Listed(s, f, scopeOnly), children, row) ==>
               Shows(w, s, children, row))
       <==> FilteredBy(s, Some(f)).None? || FilteredBy(s, Some(f)).value.scopeType == s.scopeType
  {
    if FilteredBy(s, Some(f)).Some? {
      var target := FilteredBy(s, Some(f)).value;
      var row := Row(target.scopeType, NamedID(target));
      if target.scopeType != s.scopeType {
        assert Recorded(w, row) && ShowsAny(w, Listed(s, f, scopeOnly), children, row);
      }
    }
  }

  /** What of a scope's env and app rows a filter that leaves out none shows. */
  lemma NotLeftOut(w: World, s: Scope, f: Scope, row: Row)
    requires !LeavesOut(w, s, f)
    ensures f.scopeType == Project && f.projectID == s.projectID ==>
              && (row.objectID in w.envs && ReachesEnv(w, s, row.objectID) ==>
                    InProjectEnvs(row.objectID, f.projectEnvIDs))
              && (row.objectID in w.apps && ReachesEnv(w, s, w.apps[row.objectID].projectEnvID) ==>
                    InProjectEnvs(w.apps[row.objectID].projectEnvID, f.projectEnvIDs))
  {
  }
}
