/** Data migration: bringing a setting's row from the shape of an older version to the
    current one. */
module Migrations {
  import opened Wrappers
  import opened Json
  import opened NulStripping
  import opened StoredData

  // ---------------------------------------------------------------- What every Migrate does

  datatype Versioned<D> = Versioned(version: int, updateVer: int, data: D)

  datatype Verdict = Unchanged | Changed | TooNew | Unreadable

  function Migrated<D>(current: int, upgrade: (int, D) -> D, v: Versioned<D>): (Versioned<D>, Verdict) {
    if v.version == current then (v, Unchanged)
    else if v.version > current then (v, TooNew)
    else (Versioned(current, v.updateVer + 1, upgrade(v.version, v.data)), Changed)
  }

  /** Migrating never lowers a version, counts an update exactly on a change, and changes
      nothing the second time. */
  lemma MigratedOnce<D>(current: int, upgrade: (int, D) -> D, v: Versioned<D>)
    ensures var (after, verdict) := Migrated(current, upgrade, v);
            && after.version >= v.version
            && (verdict == Changed <==> after.updateVer == v.updateVer + 1)
            && (verdict != Changed <==> after == v)
            && (verdict == Changed ==> Migrated(current, upgrade, after) == (after, Unchanged))
  {
  }

  // ---------------------------------------------------------------- Looking into stored text

  function Lookup(ms: seq<Member>, key: string): Option<Value> {
    if ms == [] then None
    else if ms[0].key == key then Some(ms[0].value)
    else Lookup(ms[1..], key)
  }

  /** A document has a field at a path: an object's keys, one level each. */
  predicate HasPath(doc: Option<Value>, path: seq<string>)
    decreases |path|
  {
    path == [] ||
    (&& doc.Some? && doc.value.Obj?
     && Lookup(doc.value.members, path[0]).Some?
     && HasPath(Lookup(doc.value.members, path[0]), path[1..]))
  }

  method StoredHas(text: string, path: seq<string>) returns (has: bool)
    ensures has <==> HasPath(Decode(text), path)
  {
    var raw := Decode(text);
    var i := 0;
    while i < |path|
      invariant 0 <= i <= |path|
      invariant HasPath(Decode(text), path) <==> HasPath(raw, path[i..])
    {
      if raw.None? || !raw.value.Obj? {
        return false;
      }
      var next := Lookup(raw.value.members, path[i]);
      if next.None? {
        return false;
      }
      assert path[i..][1..] == path[i + 1..];
      raw := next;
      i := i + 1;
    }
    return true;
  }

  // ---------------------------------------------------------------- Deployment settings

  const DEPLOYMENT_VERSION := 3

  datatype RepoSource = RepoSource(repoURL: string, autoDeploy: bool)

  datatype Deployment = Deployment(repoSource: Option<RepoSource>, activeMethod: string)

  const AUTO_DEPLOY_PATH := ["repoSource", "autoDeploy"]

  function ToDoc(d: Deployment): Value {
    Obj([Member("repoSource",
                match d.repoSource
                case None => Null
                case Some(r) => RepoDoc(r)),
         Member("activeMethod", Str(d.activeMethod))])
  }

  /** A string field: what it holds, empty when it is left out or null. */
  function StringField(ms: seq<Member>, key: string): Option<string> {
    match Lookup(ms, key)
    case None => Some("")
    case Some(Null) => Some("")
    case Some(Str(s)) => Some(s)
    case _ => None
  }

  function BoolField(ms: seq<Member>, key: string): Option<bool> {
    match Lookup(ms, key)
    case None => Some(false)
    case Some(Null) => Some(false)
    case Some(Bool(b)) => Some(b)
    case _ => None
  }

  function RepoFromDoc(v: Value): Option<RepoSource> {
    if !v.Obj? then None
    else
      match (StringField(v.members, "repoURL"), BoolField(v.members, "autoDeploy"))
      case (Some(url), Some(auto)) => Some(RepoSource(url, auto))
      case _ => None
  }

  function FromDoc(v: Value): Option<Deployment> {
    if !v.Obj? then None
    else
      match (Lookup(v.members, "repoSource"), StringField(v.members, "activeMethod"))
      case (_, None) => None
      case (None, Some(m)) => Some(Deployment(None, m))
      case (Some(Null), Some(m)) => Some(Deployment(None, m))
      case (Some(repo), Some(m)) =>
        match RepoFromDoc(repo)
        case None => None
        case Some(r) => Some(Deployment(Some(r), m))
  }

  predicate LeftOut(ms: seq<Member>, key: string) {
    Lookup(ms, key) == None || Lookup(ms, key) == Some(Null)
  }

  /** What a document leaves out, or holds null for, reads as empty or off ... */
  lemma LeftOutReadsAsZero(ms: seq<Member>, repo: seq<Member>)
    ensures LeftOut(ms, "repoSource") && LeftOut(ms, "activeMethod") ==> FromDoc(Obj(ms)) == Some(Deployment(None, ""))
    ensures LeftOut(repo, "repoURL") && LeftOut(repo, "autoDeploy") ==>
              RepoFromDoc(Obj(repo)) == Some(RepoSource("", false))
    ensures Lookup(ms, "repoSource") == Some(Obj(repo)) && FromDoc(Obj(ms)).Some? ==>
              var d := FromDoc(Obj(ms)).value;
              && d.repoSource.Some?
              && (LeftOut(repo, "autoDeploy") ==> !d.repoSource.value.autoDeploy)
              && (LeftOut(repo, "repoURL") ==> d.repoSource.value.repoURL == "")
              && (LeftOut(ms, "activeMethod") ==> d.activeMethod == "")
  {
  }

  /** ... and what it holds of another kind fails to. */
  lemma OtherKindsFail(ms: seq<Member>, repo: seq<Member>, v: Value)
    ensures Lookup(ms, "activeMethod") == Some(v) && v != Null && !v.Str? ==> FromDoc(Obj(ms)) == None
    ensures Lookup(ms, "repoSource") == Some(v) && v != Null && !v.Obj? ==> FromDoc(Obj(ms)) == None
    ensures Lookup(repo, "repoURL") == Some(v) && v != Null && !v.Str? ==> RepoFromDoc(Obj(repo)) == None
    ensures Lookup(repo, "autoDeploy") == Some(v) && v != Null && !v.Bool? ==> RepoFromDoc(Obj(repo)) == None
  {
  }

  /** Two fields, looked up by their keys. */
  lemma LookupOfTwo(a: Member, b: Member)
    requires a.key != b.key
    ensures Lookup([a, b], a.key) == Some(a.value) && Lookup([a, b], b.key) == Some(b.value)
    ensures DistinctKeys([a, b])
  {
    assert [a, b][1..] == [b];
    assert Lookup([b], b.key) == Some(b.value);
  }

  lemma NoNulInTwo(a: Member, b: Member)
    requires NUL !in a.key && NUL !in b.key && !HasNul(a.value) && !HasNul(b.value)
    ensures !HasNul(Obj([a, b]))
  {
  }

  function RepoDoc(r: RepoSource): Value {
    Obj([Member("repoURL", Str(r.repoURL)), Member("autoDeploy", Bool(r.autoDeploy))])
  }

  lemma RepoRoundTrip(r: RepoSource)
    ensures RepoFromDoc(RepoDoc(r)) == Some(r) && WellFormed(RepoDoc(r))
  {
    LookupOfTwo(Member("repoURL", Str(r.repoURL)), Member("autoDeploy", Bool(r.autoDeploy)));
  }

  lemma DocRoundTrip(d: Deployment)
    ensures FromDoc(ToDoc(d)) == Some(d) && WellFormed(ToDoc(d))
  {
    var ms := ToDoc(d).members;
    LookupOfTwo(ms[0], ms[1]);
    assert ms == [ms[0], ms[1]];
    if d.repoSource.Some? {
      RepoRoundTrip(d.repoSource.value);
    }
  }

  /** A document some deployment settings marshal as. */
  predicate IsDeployment(v: Value) {
    FromDoc(v).Some? && v == ToDoc(FromDoc(v).value)
  }

  /** The deployment settings' type reads and writes as above; a value of it, half read or
      not, is some settings. */
  ghost predicate ReadsDeployments(types: Types, kind: Kind) {
    && (forall v :: types.read(kind, v) ==
          match FromDoc(v)
          case None => None
          case Some(d) => Some(ToDoc(d)))
    && types.zero(kind) == ToDoc(Deployment(None, ""))
    && (forall text :: IsDeployment(types.partial(kind, text)))
  }

  /** An app built from a repository before the choice existed deploys on a push; one whose
      row has the choice keeps it. */
  function UpgradedDeployment(text: string, version: int, d: Deployment): Deployment {
    if version < 3 && d.repoSource.Some? && !HasPath(Decode(text), AUTO_DEPLOY_PATH)
    then d.(repoSource := Some(d.repoSource.value.(autoDeploy := true)))
    else d
  }

  function DeploymentIn(r: Row): Option<Deployment> {
    match Decode(r.data)
    case None => None
    case Some(v) => FromDoc(v)
  }

  lemma {:induction false} LookupNoNul(ms: seq<Member>, key: string)
    requires !HasNul(Obj(ms))
    ensures Lookup(ms, key).Some? ==> !HasNul(Lookup(ms, key).value)
  {
    if ms != [] && ms[0].key != key {
      forall i | 0 <= i < |ms[1..]|
        ensures NUL !in ms[1..][i].key && !HasNul(ms[1..][i].value)
      {
        assert ms[1..][i] == ms[i + 1];
      }
      LookupNoNul(ms[1..], key);
    }
  }

  predicate NulFree(d: Deployment) {
    NUL !in d.activeMethod && (d.repoSource.Some? ==> NUL !in d.repoSource.value.repoURL)
  }

  /** Settings read from a JSONB column's text hold no NUL. */
  lemma DocWithoutNul(v: Value, d: Deployment)
    requires !HasNul(v) && FromDoc(v) == Some(d)
    ensures NulFree(d)
  {
    LookupNoNul(v.members, "repoSource");
    LookupNoNul(v.members, "activeMethod");
    if d.repoSource.Some? {
      LookupNoNul(Lookup(v.members, "repoSource").value.members, "repoURL");
    }
  }

  lemma CleanDoc(d: Deployment)
    requires NulFree(d)
    ensures !HasNul(ToDoc(d))
  {
    if d.repoSource.Some? {
      var r := d.repoSource.value;
      NoNulInTwo(Member("repoURL", Str(r.repoURL)), Member("autoDeploy", Bool(r.autoDeploy)));
    }
    var ms := ToDoc(d).members;
    NoNulInTwo(ms[0], ms[1]);
    assert ms == [ms[0], ms[1]];
  }

  /** What is stored for settings without a NUL is read back as them. */
  lemma StoredDeployment(d: Deployment)
    requires NulFree(d)
    ensures Stored(ToDoc(d)).1 && !HasNul(ToDoc(d)) && WellFormed(ToDoc(d))
    ensures Decode(Stored(ToDoc(d)).0) == Some(ToDoc(d)) && FromDoc(ToDoc(d)) == Some(d)
  {
    CleanDoc(d);
    DocRoundTrip(d);
    RoundTrip(ToDoc(d));
  }

  /** How the settings in a row's text are upgraded, from each version. */
  function Upgrade(text: string): (int, Deployment) -> Deployment {
    (version, d) => UpgradedDeployment(text, version, d)
  }

  lemma DeploymentRounds(types: Types, kind: Kind, d: Deployment)
    requires ReadsDeployments(types, kind)
    ensures Round(types, Typed(kind, ToDoc(d))) && IsDeployment(ToDoc(d))
  {
    DocRoundTrip(d);
  }

  /** Whatever a row parses as is some settings. */
  lemma ParsedIsDeployment(types: Types, row: Row)
    requires ReadsDeployments(types, row.kind)
    requires row.parsed.Some? ==> IsDeployment(row.parsed.value)
    ensures var parse := Parsed(types, row, None).1;
            parse.Success? ==> IsDeployment(parse.value)
  {
    var parse := Parsed(types, row, None).1;
    if row.parsed.None? && row.data != "" && parse.Success? {
      var doc := Decode(row.data).value;
      DeploymentRounds(types, row.kind, FromDoc(doc).value);
    }
  }

  /** What is stored of settings, and reads back as them when they hold no NUL. */
  lemma StoredIn(row: Row, d: Deployment)
    requires row.data == Stored(ToDoc(d)).0 && NulFree(d)
    ensures DeploymentIn(row) == Some(d)
  {
    StoredDeployment(d);
  }

  /** As the text of a JSONB column does. */
  predicate HoldsNoNul(text: string) {
    Decode(text).Some? ==> !HasNul(Decode(text).value)
  }

  /** Whatever a row in agreement with such a text parses as holds no NUL, upgraded or not. */
  lemma ParsedIsNulFree(types: Types, row: Row)
    requires ReadsDeployments(types, row.kind) && RowAgrees(types, row) && HoldsNoNul(row.data)
    requires Parsed(types, row, None).1.Success?
    ensures var v := Parsed(types, row, None).1.value;
            && IsDeployment(v)
            && NulFree(UpgradedDeployment(row.data, row.version, FromDoc(v).value))
  {
    if row.data == "" {
      DocRoundTrip(Deployment(None, ""));
    } else {
      var doc := Decode(row.data).value;
      DocRoundTrip(FromDoc(doc).value);
      DocWithoutNul(doc, FromDoc(doc).value);
    }
  }

  /** Migrates whatever parsing gives: the text read now, a value kept from before, or the
      type's own where there is no text. */
  method MigrateDeployment(types: Types, setting: Setting) returns (r: Verdict)
    requires ReadsDeployments(types, setting.kind)
    requires setting.parsedData.Some? ==> IsDeployment(setting.parsedData.value)
    modifies setting
    ensures var (row, parse) := Parsed(types, old(setting.ToRow()), None);
            if parse.Failure? then r == Unreadable && setting.ToRow() == row
            else
              && IsDeployment(parse.value)
              && var d := FromDoc(parse.value).value;
              && var (after, verdict) := Migrated(DEPLOYMENT_VERSION, Upgrade(row.data),
                                                  Versioned(row.version, row.updateVer, d));
              && r == verdict
              && (r != Changed ==> setting.ToRow() == row)
              && (r == Changed ==>
                    && setting.version == after.version && setting.updateVer == after.updateVer
                    && setting.data == Stored(ToDoc(after.data)).0
                    && (NulFree(after.data) || old(RowAgrees(types, setting.ToRow()) && HoldsNoNul(setting.data)) ==>
                          DeploymentIn(setting.ToRow()) == Some(after.data)))
  {
    ghost var was := setting.ToRow();
    if RowAgrees(types, was) && HoldsNoNul(was.data) && Parsed(types, was, None).1.Success? {
      ParsedIsNulFree(types, was);
    }
    ParsedIsDeployment(types, setting.ToRow());
    var parsed := setting.ParseAs(types, None);
    if parsed.Failure? {
      return Unreadable;
    }
    r := MigrateParsed(types, setting, FromDoc(parsed.value).value);
  }

  /** Migrates the settings parsed, if the row is of an older version. */
  method MigrateParsed(types: Types, setting: Setting, d: Deployment) returns (r: Verdict)
    requires ReadsDeployments(types, setting.kind)
    modifies setting
    ensures var row := old(setting.ToRow());
            var (after, verdict) := Migrated(DEPLOYMENT_VERSION, Upgrade(row.data),
                                             Versioned(row.version, row.updateVer, d));
            && r == verdict
            && (r != Changed ==> setting.ToRow() == row)
            && (r == Changed ==>
                  && setting.version == after.version && setting.updateVer == after.updateVer
                  && setting.data == Stored(ToDoc(after.data)).0
                  && (NulFree(after.data) ==> DeploymentIn(setting.ToRow()) == Some(after.data)))
  {
    if setting.version == DEPLOYMENT_VERSION {
      return Unchanged;
    }
    if setting.version > DEPLOYMENT_VERSION {
      return TooNew;
    }
    var upgraded := UpgradeStored(setting.data, setting.version, d);
    StoreMigrated(types, setting, upgraded);
    return Changed;
  }

  /** Turns deploying on a push on for an older row that does not say. */
  method UpgradeStored(text: string, version: int, d: Deployment) returns (upgraded: Deployment)
    ensures upgraded == UpgradedDeployment(text, version, d)
  {
    var has := StoredHas(text, AUTO_DEPLOY_PATH);
    if version < 3 && d.repoSource.Some? && !has {
      return d.(repoSource := Some(d.repoSource.value.(autoDeploy := true)));
    }
    return d;
  }

  method StoreMigrated(types: Types, setting: Setting, d: Deployment)
    requires ReadsDeployments(types, setting.kind)
    modifies setting
    ensures setting.version == DEPLOYMENT_VERSION && setting.updateVer == old(setting.updateVer) + 1
    ensures setting.data == Stored(ToDoc(d)).0
    ensures NulFree(d) ==> DeploymentIn(setting.ToRow()) == Some(d)
  {
    DeploymentRounds(types, setting.kind, d);
    setting.version := DEPLOYMENT_VERSION;
    setting.updateVer := setting.updateVer + 1;
    var ok := setting.SetData(types, Typed(setting.kind, ToDoc(d)));
    if NulFree(d) {
      StoredIn(setting.ToRow(), d);
    }
  }

  /** Whatever version it is at, a row that says whether to deploy on a push says the same
      after migrating, and one that does not deploys exactly when it was older. */
  lemma AutoDeployChoiceIsKept(text: string, version: int, d: Deployment)
    requires Decode(text).Some? && FromDoc(Decode(text).value) == Some(d) && d.repoSource.Some?
    ensures var d' := UpgradedDeployment(text, version, d);
            && d'.activeMethod == d.activeMethod
            && d'.repoSource.Some? && d'.repoSource.value.repoURL == d.repoSource.value.repoURL
            && (HasPath(Decode(text), AUTO_DEPLOY_PATH) ==>
                  d'.repoSource.value.autoDeploy == d.repoSource.value.autoDeploy)
            && (!HasPath(Decode(text), AUTO_DEPLOY_PATH) ==> (d'.repoSource.value.autoDeploy <==> version < 3))
    ensures var verdict := Migrated(DEPLOYMENT_VERSION, Upgrade(text), Versioned(version, 0, d)).1;
            (verdict == Changed <==> version < 3) && (verdict == TooNew <==> version > 3)
  {
    var repo := Lookup(Decode(text).value.members, "repoSource").value;
    assert AUTO_DEPLOY_PATH[1..] == ["autoDeploy"] && ["autoDeploy"][1..] == [];
    assert HasPath(Some(repo), ["autoDeploy"]) <==> Lookup(repo.members, "autoDeploy").Some?;
  }

  // ---------------------------------------------------------------- Managed databases

  const MANAGED_VERSION := 2

  /** What a restore point, or a restore's target, holds of where it is. */
  datatype Place = Place(position: string, legacyLSN: string)

  datatype Database = Database(points: seq<Place>, restore: Option<Place>)

  datatype Managed = Managed(database: Option<Database>, legacyPostgres: Option<Database>)

  function MovedPlace(p: Place): Place {
    Place(if p.position == "" then p.legacyLSN else p.position, "")
  }

  function MovedPlaces(ps: seq<Place>): (r: seq<Place>)
    ensures |r| == |ps| && forall i :: 0 <= i < |ps| ==> r[i] == MovedPlace(ps[i])
  {
    if ps == [] then [] else [MovedPlace(ps[0])] + MovedPlaces(ps[1..])
  }

  function MovedDatabase(d: Database): Database {
    Database(MovedPlaces(d.points), if d.restore.Some? then Some(MovedPlace(d.restore.value)) else None)
  }

  function Moved(m: Managed): Managed {
    var d := if m.database.None? then m.legacyPostgres else m.database;
    Managed(if d.Some? then Some(MovedDatabase(d.value)) else None, None)
  }

  function OldNamesOfPlaces(ps: seq<Place>): (r: seq<Place>)
    ensures |r| == |ps| && forall i :: 0 <= i < |ps| ==> r[i] == Place("", ps[i].position)
  {
    if ps == [] then [] else [Place("", ps[0].position)] + OldNamesOfPlaces(ps[1..])
  }

  /** The same state under the names version 1 kept it by. */
  function OldNames(m: Managed): Managed {
    match m.database
    case None => Managed(None, None)
    case Some(d) =>
      Managed(None, Some(Database(OldNamesOfPlaces(d.points),
                                  if d.restore.Some? then Some(Place("", d.restore.value.position)) else None)))
  }

  predicate NewNamesOnly(m: Managed) {
    && m.legacyPostgres.None?
    && (m.database.Some? ==>
          && (forall p :: p in m.database.value.points ==> p.legacyLSN == "")
          && (m.database.value.restore.Some? ==> m.database.value.restore.value.legacyLSN == ""))
  }

  /** A row under the old names reads as the same row under the new; moving leaves new names
      alone, and nothing for a second move. */
  lemma OldAndNewNamesReadAlike(m: Managed)
    ensures NewNamesOnly(Moved(m)) && Moved(Moved(m)) == Moved(m)
    ensures NewNamesOnly(m) ==> Moved(m) == m && Moved(OldNames(m)) == m
  {
    if NewNamesOnly(m) && m.database.Some? {
      var ps := m.database.value.points;
      forall i | 0 <= i < |ps|
        ensures MovedPlace(ps[i]) == ps[i]
      {
        assert ps[i] in ps;
      }
      assert MovedPlaces(ps) == ps;
      assert MovedPlaces(OldNamesOfPlaces(ps)) == ps;
    }
    if Moved(m).database.Some? {
      var ps := Moved(m).database.value.points;
      assert MovedPlaces(ps) == ps;
    }
  }

  class PlaceObject {
    var position: string
    var legacyLSN: string

    function Value(): Place
      reads this
    {
      Place(position, legacyLSN)
    }

    method Move()
      modifies this
      ensures Value() == MovedPlace(old(Value()))
    {
      if position == "" {
        position := legacyLSN;
      }
      legacyLSN := "";
    }
  }

  /** Moves each of the places, in place; one listed twice moves once. */
  method MoveAll(places: seq<PlaceObject>)
    modifies set p | p in places
    ensures forall p :: p in places ==> p.Value() == MovedPlace(old(p.Value()))
  {
    var i := 0;
    while i < |places|
      invariant 0 <= i <= |places|
      invariant forall p :: p in places ==> p.Value() == old(p.Value()) || p.Value() == MovedPlace(old(p.Value()))
      invariant forall p :: p in places[..i] ==> p.Value() == MovedPlace(old(p.Value()))
    {
      places[i].Move();
      i := i + 1;
    }
    assert places[..i] == places;
  }

  function ValuesOf(places: seq<PlaceObject>): (vs: seq<Place>)
    reads set p | p in places
    ensures |vs| == |places| && forall i :: 0 <= i < |vs| ==> vs[i] == places[i].Value()
  {
    if places == [] then []
    else
      assert forall p :: p in places[1..] ==> p in places;
      [places[0].Value()] + ValuesOf(places[1..])
  }

  class DatabaseObject {
    const restorePoints: seq<PlaceObject>
    const restore: seq<PlaceObject>

    ghost function Places(): set<PlaceObject> {
      set p | p in restorePoints + restore
    }

    function Value(): Database
      reads Places()
    {
      Database(ValuesOf(restorePoints), if restore == [] then None else Some(restore[0].Value()))
    }

    method Move()
      modifies Places()
      ensures Value() == MovedDatabase(old(Value()))
      ensures forall p :: p in Places() ==> p.Value() == MovedPlace(old(p.Value()))
    {
      MoveAll(restorePoints + restore);
      assert ValuesOf(restorePoints) == MovedPlaces(old(ValuesOf(restorePoints))) by {
        forall i | 0 <= i < |restorePoints|
          ensures restorePoints[i].Value() == MovedPlace(old(restorePoints[i].Value()))
        {
          assert restorePoints[i] in restorePoints + restore;
        }
      }
    }
  }

  class AppManagedSettings {
    var database: DatabaseObject?
    var legacyPostgres: DatabaseObject?

    ghost function Places(): set<PlaceObject>
      reads this
    {
      (if database == null then {} else database.Places())
      + (if legacyPostgres == null then {} else legacyPostgres.Places())
    }

    function Value(): Managed
      reads this, Places()
    {
      Managed(if database == null then None else Some(database.Value()),
              if legacyPostgres == null then None else Some(legacyPostgres.Value()))
    }

    /** Moves what is kept under the old names, in place; a place met twice moves once. */
    method MoveLegacyFields()
      modifies this, Places()
      ensures Value() == Moved(old(Value()))
      ensures database == if old(database) == null then old(legacyPostgres) else old(database)
      ensures legacyPostgres == null
      ensures database != null ==> forall p :: p in database.Places() ==> p.Value() == MovedPlace(old(p.Value()))
    {
      if database == null {
        database := legacyPostgres;
      }
      legacyPostgres := null;
      if database == null {
        return;
      }
      database.Move();
    }
  }

  function UpgradedManaged(version: int, m: Managed): Managed {
    if version < 2 then Moved(m) else m
  }

  /** A managed setting: its row, with the text as it decodes, and its parsed data. */
  class ManagedSetting {
    var row: Versioned<Managed>
    const data: AppManagedSettings

    constructor (row: Versioned<Managed>, data: AppManagedSettings)
      ensures this.row == row && this.data == data
    {
      this.row, this.data := row, data;
    }

    method Migrate() returns (r: Verdict)
      modifies this, data, data.Places()
      ensures var (after, verdict) := Migrated(MANAGED_VERSION, UpgradedManaged, old(row.(data := data.Value())));
              r == verdict && row == (if r == Changed then after else old(row)) && data.Value() == after.data
    {
      if row.version == MANAGED_VERSION {
        return Unchanged;
      }
      if row.version > MANAGED_VERSION {
        return TooNew;
      }
      if row.version < 2 {
        data.MoveLegacyFields();
      }
      row := Versioned(MANAGED_VERSION, row.updateVer + 1, data.Value());
      return Changed;
    }

    /** Stores the engine's state at the current version. */
    method SetAppManagedData()
      modifies this`row
      ensures row == old(row).(version := MANAGED_VERSION, data := old(data.Value()))
    {
      row := row.(version := MANAGED_VERSION, data := data.Value());
    }
  }

  /** Parsed, a row reads under the new names whatever version wrote it. Migrated or stored
      again from what was parsed, it holds the new names alone and reads as it did. */
  lemma ManagedRowsReadAlike(raw: Managed, version: int)
    ensures var parsed := Moved(raw);
            var (after, verdict) := Migrated(MANAGED_VERSION, UpgradedManaged, Versioned(version, 0, parsed));
            && after.data == parsed
            && NewNamesOnly(after.data)
            && Moved(after.data) == Moved(raw)
            && (verdict == Changed <==> version < 2) && (verdict == TooNew <==> version > 2)
  {
    OldAndNewNamesReadAlike(raw);
  }

  // ---------------------------------------------------------------- The proxy depth

  const SERVICE_VERSION := 2
  const PROXY_HOPS_VERSION := 2
  const LEGACY_PROXY_HOPS := 2

  datatype Proxy = Proxy(provider: string, hops: int)

  class ServiceSettings {
    var proxy: Proxy
    var version: int
    var updateVer: int

    method Migrate() returns (r: Verdict)
      modifies this
      ensures (Versioned(version, updateVer, proxy), r)
           == Migrated(SERVICE_VERSION, UpgradedProxy, Versioned(old(version), old(updateVer), old(proxy)))
    {
      if version == SERVICE_VERSION {
        return Unchanged;
      }
      if version > SERVICE_VERSION {
        return TooNew;
      }
      if version < PROXY_HOPS_VERSION {
        if proxy.provider != "" && proxy.hops <= 0 {
          proxy := proxy.(hops := LEGACY_PROXY_HOPS);
        }
      }
      version := SERVICE_VERSION;
      updateVer := updateVer + 1;
      return Changed;
    }
  }

  function UpgradedProxy(version: int, p: Proxy): Proxy {
    if version < PROXY_HOPS_VERSION && p.provider != "" && p.hops <= 0 then p.(hops := LEGACY_PROXY_HOPS) else p
  }

  /** The old depth is carried forward for an install behind a proxy alone: with none in
      front nothing is made to read a header the caller writes. */
  lemma DepthOnlyBehindAProxy(version: int, p: Proxy)
    ensures UpgradedProxy(version, p).provider == p.provider
    ensures p.provider == "" ==> UpgradedProxy(version, p) == p
    ensures version < 2 && p.provider != "" ==> UpgradedProxy(version, p).hops == if p.hops > 0 then p.hops else 2
    ensures version >= 2 ==> UpgradedProxy(version, p) == p
    ensures var verdict := Migrated(SERVICE_VERSION, UpgradedProxy, Versioned(version, 0, p)).1;
            (verdict == Changed <==> version < 2) && (verdict == TooNew <==> version > 2)
  {
  }
}
