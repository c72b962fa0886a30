/** Loading what settings refer to: round by round, until no setting loaded refers to
    anything that was not asked for. */
module RefClosure {
  import opened Wrappers
  import opened RefLoads

  predicate MentionedBy(rows: Rows, x: ID) {
    exists k :: k in rows && Mentions(rows[k].refs, x)
  }

  // ---------------------------------------------------------------- Identifiers asked for

  class RefObjectIDs {
    var settingIDs: seq<string>
    var appIDs: seq<string>
    var projectIDs: seq<string>
    var projectEnvIDs: seq<string>
    var userIDs: seq<string>

    constructor ()
      ensures Value() == NO_REFS
    {
      settingIDs, appIDs, projectIDs, projectEnvIDs, userIDs := [], [], [], [], [];
    }

    function Value(): Refs
      reads this
    {
      Refs(settingIDs, appIDs, projectIDs, projectEnvIDs, userIDs)
    }

    predicate HasData()
      reads this
      ensures HasData() <==> exists x :: Mentions(Value(), x)
    {
      var has := |settingIDs| > 0 || |appIDs| > 0 || |projectIDs| > 0 || |projectEnvIDs| > 0 || |userIDs| > 0;
      SomeMentionIff(Value());
      has
    }

    method AddRefIDs(refs: Refs)
      modifies this
      ensures Value() == old(Value()).Plus(refs)
    {
      settingIDs := settingIDs + refs.settings;
      appIDs := appIDs + refs.apps;
      projectIDs := projectIDs + refs.projects;
      projectEnvIDs := projectEnvIDs + refs.projectEnvs;
      userIDs := userIDs + refs.users;
    }

    /** What the settings loaded refer to and was never asked for. */
    method GetRecursiveRefObjectIDs(objects: RefObjects) returns (res: RefObjectIDs)
      ensures fresh(res)
      ensures forall x :: Mentions(res.Value(), x) <==> MentionedBy(objects.settings, x) && !Mentions(Value(), x)
    {
      var all := new RefObjectIDs();
      var keys := objects.settings.Keys;
      while keys != {}
        invariant keys <= objects.settings.Keys && fresh(all)
        invariant forall x :: Mentions(all.Value(), x)
                         <==> exists k :: k in objects.settings && k !in keys && Mentions(objects.settings[k].refs, x)
        decreases keys
      {
        var k :| k in keys;
        forall x ensures Mentions(all.Value().Plus(objects.settings[k].refs), x)
                    <==> Mentions(all.Value(), x) || Mentions(objects.settings[k].refs, x)
        {
          PlusMentions(all.Value(), objects.settings[k].refs, x);
        }
        all.AddRefIDs(objects.settings[k].refs);
        keys := keys - {k};
      }
      res := Unasked(all);
    }

    /** What of the identifiers collected was not asked for. */
    method Unasked(all: RefObjectIDs) returns (res: RefObjectIDs)
      ensures fresh(res)
      ensures forall x :: Mentions(res.Value(), x) <==> Mentions(all.Value(), x) && !Mentions(Value(), x)
    {
      res := new RefObjectIDs();
      res.settingIDs := Without(all.settingIDs, settingIDs);
      res.appIDs := Without(all.appIDs, appIDs);
      res.projectIDs := Without(all.projectIDs, projectIDs);
      res.projectEnvIDs := Without(all.projectEnvIDs, projectEnvIDs);
      res.userIDs := Without(all.userIDs, userIDs);
    }
  }

  lemma PlusMentions(a: Refs, b: Refs, x: ID)
    ensures Mentions(a.Plus(b), x) <==> Mentions(a, x) || Mentions(b, x)
  {
  }

  lemma SomeMentionIff(refs: Refs)
    ensures |refs.settings| > 0 || |refs.apps| > 0 || |refs.projects| > 0 || |refs.projectEnvs| > 0 || |refs.users| > 0
       <==> exists x :: Mentions(refs, x)
  {
    if |refs.settings| > 0 { assert Mentions(refs, ID(SettingRef, refs.settings[0])); }
    if |refs.apps| > 0 { assert Mentions(refs, ID(AppRef, refs.apps[0])); }
    if |refs.projects| > 0 { assert Mentions(refs, ID(ProjectRef, refs.projects[0])); }
    if |refs.projectEnvs| > 0 { assert Mentions(refs, ID(ProjectEnvRef, refs.projectEnvs[0])); }
    if |refs.users| > 0 { assert Mentions(refs, ID(UserRef, refs.users[0])); }
  }

  method Without(ids: seq<string>, asked: seq<string>) returns (r: seq<string>)
    ensures forall id :: id in r <==> id in ids && id !in asked
  {
    r := [];
    for i := 0 to |ids|
      invariant forall id :: id in r <==> id in ids[..i] && id !in asked
    {
      assert ids[..i + 1] == ids[..i] + [ids[i]];
      if ids[i] !in asked {
        r := r + [ids[i]];
      }
    }
    assert ids[..|ids|] == ids;
  }

  // ---------------------------------------------------------------- All rounds

  ghost function IDsOf(refs: Refs): iset<ID> {
    iset x | Mentions(refs, x)
  }

  ghost function MentionedIn(rows: Rows): iset<ID> {
    iset x | MentionedBy(rows, x)
  }

  /** The setting an identifier is of: one held before, or one the database has. */
  predicate HasRow(before: Rows, db: Database, x: ID) {
    x.kind == SettingRef && (x.id in before || x.id in db.settings)
  }

  function RowOf(before: Rows, db: Database, x: ID): Row
    requires HasRow(before, db, x)
  {
    if x.id in before then before[x.id] else db.settings[x.id]
  }

  /** Holds what is asked for at first, what the settings held at first refer to, and with
      a setting what it refers to. */
  ghost predicate Closed(c: iset<ID>, seeds: Refs, before: Rows, db: Database) {
    && (forall x :: Mentions(seeds, x) || MentionedBy(before, x) ==> x in c)
    && (forall x, y :: x in c && HasRow(before, db, x) && Mentions(RowOf(before, db, x).refs, y) ==> y in c)
  }

  /** Within every such closure. */
  ghost predicate Within(refs: Refs, seeds: Refs, before: Rows, db: Database) {
    forall c: iset<ID>, x :: Closed(c, seeds, before, db) && Mentions(refs, x) ==> x in c
  }

  /** The settings held are those held before, and those found of the ones asked for. */
  ghost predicate Holds(settings: Rows, before: Rows, db: Database, asked: iset<ID>) {
    && (forall k :: k in settings <==> k in before || (k in db.settings && ID(SettingRef, k) in asked))
    && (forall k :: k in settings ==> settings[k] == if k in before then before[k] else db.settings[k])
  }

  lemma HoldsRows(settings: Rows, before: Rows, db: Database, asked: iset<ID>)
    requires Holds(settings, before, db, asked)
    ensures settings == HeldRows(before, db, asked)
  {
  }

  ghost function HeldRows(before: Rows, db: Database, asked: iset<ID>): Rows {
    map k | k in before.Keys + db.settings.Keys && (k in before || ID(SettingRef, k) in asked) ::
      if k in before then before[k] else db.settings[k]
  }

  // ---------------------------------------------------------------- What passes, in its turn

  /** What is held once something was asked for. */
  ghost function HeldOf(before: Objects, db: Database, mode: Mode, asked: iset<ID>): (now: Objects)
    requires db.Valid()
    ensures HoldsObjects(now, before, db, mode, asked)
  {
    forall x | AlongOf(db, mode, before, asked, x) ensures x in db.objects {
      var y :| LoadedOf(db, mode, before, asked, y) && Brings(db.objects[y], x);
      BroughtIsThere(db, y, x);
    }
    map x | x in before.Keys + db.objects.Keys
            && (x in before || LoadedOf(db, mode, before, asked, x) || AlongOf(db, mode, before, asked, x)) ::
      if LoadedOf(db, mode, before, asked, x) then db.objects[x]
      else if x in before then before[x]
      else Bare(db.objects[x])
  }

  lemma HeldOnce(a: Objects, b: Objects, before: Objects, db: Database, mode: Mode, asked: iset<ID>)
    requires HoldsObjects(a, before, db, mode, asked) && HoldsObjects(b, before, db, mode, asked)
    ensures a == b
  {
    forall x | x in a && x in b ensures a[x] == b[x] {
      assert HoldsAs(a[x], before, db, mode, asked, x) && HoldsAs(b[x], before, db, mode, asked, x);
    }
  }

  predicate SettingPasses(db: Database, mode: Mode, before: Rows, x: ID) {
    mode.existence ==> x.id in before || (x.id in db.settings && !db.settings[x.id].deleted)
  }

  /** Whether an object asked for passes, as things were before anything was loaded. */
  predicate PassesAtFirst(db: Database, mode: Mode, before: Rows, objects: Objects, x: ID) {
    if x.kind == SettingRef then SettingPasses(db, mode, before, x) else Passes(db, mode, objects, x)
  }

  /** Of a round, what is loaded before projects and environments are looked at. */
  ghost function EarlyOf(refs: iset<ID>): iset<ID> {
    iset x | x in refs && (x.kind == UserRef || x.kind == AppRef)
  }

  /** Whether an object passes in its round, after the rounds done: what came along with an
      earlier one is held by then. */
  ghost predicate PassesInTurn(db: Database, mode: Mode, before: Rows, objects: Objects, done: iset<ID>, refs: iset<ID>,
                               x: ID)
    requires db.Valid()
  {
    if x.kind == ProjectRef || x.kind == ProjectEnvRef
    then Passes(db, mode, HeldOf(objects, db, mode, done + EarlyOf(refs)), x)
    else PassesAtFirst(db, mode, before, objects, x)
  }

  ghost predicate AllPass(db: Database, mode: Mode, before: Rows, objects: Objects, done: iset<ID>, refs: iset<ID>)
    requires db.Valid()
  {
    forall x :: x in refs ==> PassesInTurn(db, mode, before, objects, done, refs, x)
  }

  /** Users and apps come along with nothing: they pass as they would at first. */
  lemma PassesAsAtFirst(db: Database, mode: Mode, objects: Objects, now: Objects, done: iset<ID>, x: ID)
    requires db.Valid() && HoldsObjects(now, objects, db, mode, done) && x !in done
    requires x.kind == UserRef || x.kind == AppRef
    ensures Passes(db, mode, now, x) <==> Passes(db, mode, objects, x)
  {
    if AlongOf(db, mode, objects, done, x) {
      var y :| LoadedOf(db, mode, objects, done, y) && Brings(db.objects[y], x);
      BroughtIsThere(db, y, x);
    }
    if x in now {
      assert HoldsAs(now[x], objects, db, mode, done, x);
    }
  }

  /** Projects bring no environment: one passes after them as it would before. */
  lemma PassesAfterProjects(db: Database, mode: Mode, was: Objects, now: Objects, ids: seq<string>, x: ID)
    requires db.Valid() && HoldsObjects(now, was, db, mode, OfKind(ProjectRef, ids)) && x.kind == ProjectEnvRef
    ensures Passes(db, mode, now, x) <==> Passes(db, mode, was, x)
  {
    if AlongOf(db, mode, was, OfKind(ProjectRef, ids), x) {
      var y :| LoadedOf(db, mode, was, OfKind(ProjectRef, ids), y) && Brings(db.objects[y], x);
      ProjectsBringNone(db, y, x);
    }
    if x in now {
      assert HoldsAs(now[x], was, db, mode, OfKind(ProjectRef, ids), x);
    }
  }

  /** What is held of what is not asked for: what was, or that it came along. */
  lemma HeldUnasked(db: Database, mode: Mode, objects: Objects, asked: iset<ID>, x: ID)
    requires db.Valid() && x !in asked
    ensures var held := HeldOf(objects, db, mode, asked);
            && (x in objects ==> x in held && held[x] == objects[x])
            && (x !in objects ==> (x in held <==> AlongOf(db, mode, objects, asked, x)))
            && (x !in objects && x in held ==> x in db.objects && held[x] == Bare(db.objects[x]))
  {
    var held := HeldOf(objects, db, mode, asked);
    if x in held {
      assert HoldsAs(held[x], objects, db, mode, asked, x);
    }
  }

  /** A project passes in its turn if it came along by then, deleted or not active as it may
      be, and otherwise as it would at first ... */
  lemma ProjectInTurnIff(db: Database, mode: Mode, before: Rows, objects: Objects, done: iset<ID>, refs: iset<ID>,
                         x: ID)
    requires db.Valid() && x !in done && x.kind == ProjectRef
    ensures PassesInTurn(db, mode, before, objects, done, refs, x)
       <==> || AlongOf(db, mode, objects, done + EarlyOf(refs), x)
            || PassesAtFirst(db, mode, before, objects, x)
  {
    HeldUnasked(db, mode, objects, done + EarlyOf(refs), x);
  }

  /** ... and an environment as it would at first, unless what is missing is skipped and what
      is not active is not: one that came along and is not active then fails. */
  lemma EnvInTurnIff(db: Database, mode: Mode, before: Rows, objects: Objects, done: iset<ID>, refs: iset<ID>, x: ID)
    requires db.Valid() && x !in done && x.kind == ProjectEnvRef
    ensures PassesInTurn(db, mode, before, objects, done, refs, x)
       <==> && PassesAtFirst(db, mode, before, objects, x)
            && !(AlongOf(db, mode, objects, done + EarlyOf(refs), x) && x !in objects && mode == Mode(false, true)
                 && x in db.objects && !db.objects[x].active && !db.objects[x].deleted)
  {
    HeldUnasked(db, mode, objects, done + EarlyOf(refs), x);
  }

  // ---------------------------------------------------------------- One round

  ghost predicate AllPassIn(db: Database, mode: Mode, held: Objects, asked: iset<ID>) {
    forall x :: x in asked ==> Passes(db, mode, held, x)
  }

  /** What the round asks for of one kind passes. */
  ghost predicate KindPasses(db: Database, mode: Mode, before: Rows, objects: Objects, done: iset<ID>, refs: iset<ID>,
                             kind: Kind)
    requires db.Valid()
  {
    forall x :: x in refs && x.kind == kind ==> PassesInTurn(db, mode, before, objects, done, refs, x)
  }

  ghost predicate AllButSettingsPass(db: Database, mode: Mode, before: Rows, objects: Objects, done: iset<ID>,
                                     refs: iset<ID>)
    requires db.Valid()
  {
    && KindPasses(db, mode, before, objects, done, refs, UserRef)
    && KindPasses(db, mode, before, objects, done, refs, AppRef)
    && KindPasses(db, mode, before, objects, done, refs, ProjectRef)
    && KindPasses(db, mode, before, objects, done, refs, ProjectEnvRef)
  }

  lemma KindPassesIff(db: Database, mode: Mode, before: Rows, objects: Objects, done: iset<ID>, refs: Refs, kind: Kind)
    requires db.Valid() && kind != SettingRef
    ensures var held := if kind == UserRef || kind == AppRef then objects
                        else HeldOf(objects, db, mode, done + EarlyOf(IDsOf(refs)));
            KindPasses(db, mode, before, objects, done, IDsOf(refs), kind)
            <==> AllPassIn(db, mode, held, OfKind(kind, refs.Of(kind)))
  {
    forall x: ID
      ensures x in IDsOf(refs) && x.kind == kind <==> x in OfKind(kind, refs.Of(kind))
    {
    }
  }

  lemma EarlyAreUsersAndApps(refs: Refs)
    ensures EarlyOf(IDsOf(refs)) == OfKind(UserRef, refs.users) + OfKind(AppRef, refs.apps)
  {
  }

  lemma HoldsSame(now: Objects, was: Objects, db: Database, mode: Mode, a: iset<ID>, b: iset<ID>)
    requires HoldsObjects(now, was, db, mode, a)
    requires forall x: ID :: x.kind != SettingRef ==> (x in a <==> x in b)
    ensures HoldsObjects(now, was, db, mode, b)
  {
    forall x
      ensures LoadedOf(db, mode, was, a, x) <==> LoadedOf(db, mode, was, b, x)
      ensures AlongOf(db, mode, was, a, x) <==> AlongOf(db, mode, was, b, x)
    {
      SameAlong(was, db, mode, a, b, x);
      SameAlong(was, db, mode, b, a, x);
    }
    forall x | x in now ensures HoldsAs(now[x], was, db, mode, b, x) {
      assert HoldsAs(now[x], was, db, mode, a, x);
    }
  }

  lemma SameAlong(was: Objects, db: Database, mode: Mode, a: iset<ID>, b: iset<ID>, x: ID)
    requires forall x: ID :: x.kind != SettingRef ==> (x in a <==> x in b)
    ensures AlongOf(db, mode, was, a, x) ==> AlongOf(db, mode, was, b, x)
  {
    if AlongOf(db, mode, was, a, x) {
      var y :| LoadedOf(db, mode, was, a, y) && Brings(db.objects[y], x);
      assert LoadedOf(db, mode, was, b, y);
    }
  }

  /** Users and apps, whose passing is as at first. */
  method LoadEarly(db: Database, mode: Mode, objects: RefObjects, refs: RefObjectIDs, ghost first: Objects,
                   ghost done: iset<ID>) returns (r: Outcome)
    requires db.Valid() && HoldsObjects(objects.objects, first, db, mode, done)
    requires done !! OfKind(UserRef, refs.userIDs) && done !! OfKind(AppRef, refs.appIDs)
    modifies objects`objects
    ensures r == Loaded <==> && AllPassIn(db, mode, first, OfKind(UserRef, refs.userIDs))
                             && AllPassIn(db, mode, first, OfKind(AppRef, refs.appIDs))
    ensures r == Loaded ==> HoldsObjects(objects.objects, first, db, mode,
                                         done + (OfKind(UserRef, refs.userIDs) + OfKind(AppRef, refs.appIDs)))
    ensures r != Loaded ==> (r == Panicked <==> mode == Mode(false, false))
  {
    ghost var users, apps := OfKind(UserRef, refs.userIDs), OfKind(AppRef, refs.appIDs);
    ghost var held := objects.objects;
    AllPassAsAtFirst(db, mode, first, held, done, users);
    r := objects.LoadUsers(db, mode, refs.userIDs);
    if r != Loaded {
      return;
    }
    HoldsMore(first, held, objects.objects, db, mode, done, users);
    held := objects.objects;
    AllPassAsAtFirst(db, mode, first, held, done + users, apps);
    var ok := objects.LoadObjects(db, mode, AppRef, refs.appIDs);
    HoldsMore(first, held, objects.objects, db, mode, done + users, apps);
    assert done + users + apps == done + (users + apps);
    return if ok then Loaded else Failed;
  }

  lemma AllPassAsAtFirst(db: Database, mode: Mode, objects: Objects, now: Objects, done: iset<ID>, asked: iset<ID>)
    requires db.Valid() && HoldsObjects(now, objects, db, mode, done) && done !! asked
    requires forall x: ID :: x in asked ==> x.kind == UserRef || x.kind == AppRef
    ensures AllPassIn(db, mode, now, asked) <==> AllPassIn(db, mode, objects, asked)
  {
    forall x | x in asked ensures Passes(db, mode, now, x) <==> Passes(db, mode, objects, x) {
      PassesAsAtFirst(db, mode, objects, now, done, x);
    }
  }

  /** Projects and environments, given what came along by then. */
  method LoadLate(db: Database, mode: Mode, objects: RefObjects, refs: RefObjectIDs, ghost first: Objects,
                  ghost done: iset<ID>) returns (ok: bool)
    requires db.Valid() && HoldsObjects(objects.objects, first, db, mode, done)
    requires done !! OfKind(ProjectRef, refs.projectIDs) && done !! OfKind(ProjectEnvRef, refs.projectEnvIDs)
    modifies objects`objects
    ensures ok <==> && AllPassIn(db, mode, old(objects.objects), OfKind(ProjectRef, refs.projectIDs))
                    && AllPassIn(db, mode, old(objects.objects), OfKind(ProjectEnvRef, refs.projectEnvIDs))
    ensures ok ==> HoldsObjects(objects.objects, first, db, mode, done +
                                (OfKind(ProjectRef, refs.projectIDs) + OfKind(ProjectEnvRef, refs.projectEnvIDs)))
  {
    ghost var projects, envs := OfKind(ProjectRef, refs.projectIDs), OfKind(ProjectEnvRef, refs.projectEnvIDs);
    ghost var was := objects.objects;
    ok := objects.LoadObjects(db, mode, ProjectRef, refs.projectIDs);
    if !ok {
      return;
    }
    HoldsMore(first, was, objects.objects, db, mode, done, projects);
    ghost var held := objects.objects;
    forall x | x in envs ensures Passes(db, mode, held, x) <==> Passes(db, mode, was, x) {
      PassesAfterProjects(db, mode, was, held, refs.projectIDs, x);
    }
    ok := objects.LoadObjects(db, mode, ProjectEnvRef, refs.projectEnvIDs);
    HoldsMore(first, held, objects.objects, db, mode, done + projects, envs);
    assert done + projects + envs == done + (projects + envs);
  }

  /** The objects of the other kinds, kind by kind; the first that fails ends it. */
  method LoadOtherKinds(db: Database, mode: Mode, objects: RefObjects, refs: RefObjectIDs, ghost before: Rows,
                        ghost first: Objects, ghost done: iset<ID>) returns (r: Outcome)
    requires db.Valid() && done !! IDsOf(refs.Value()) && HoldsObjects(objects.objects, first, db, mode, done)
    modifies objects`objects
    ensures r == Loaded <==> AllButSettingsPass(db, mode, before, first, done, IDsOf(refs.Value()))
    ensures r == Loaded ==> HoldsObjects(objects.objects, first, db, mode, done + IDsOf(refs.Value()))
    ensures r != Loaded ==> (r == Panicked <==> mode == Mode(false, false))
  {
    ghost var ids := IDsOf(refs.Value());
    EarlyAreUsersAndApps(refs.Value());
    KindPassesIff(db, mode, before, first, done, refs.Value(), UserRef);
    KindPassesIff(db, mode, before, first, done, refs.Value(), AppRef);
    KindPassesIff(db, mode, before, first, done, refs.Value(), ProjectRef);
    KindPassesIff(db, mode, before, first, done, refs.Value(), ProjectEnvRef);
    r := LoadEarly(db, mode, objects, refs, first, done);
    if r != Loaded {
      return;
    }
    ghost var early := done + EarlyOf(ids);
    HeldOnce(objects.objects, HeldOf(first, db, mode, early), first, db, mode, early);
    var ok := LoadLate(db, mode, objects, refs, first, early);
    if ok {
      ghost var late := OfKind(ProjectRef, refs.projectIDs) + OfKind(ProjectEnvRef, refs.projectEnvIDs);
      HoldsSame(objects.objects, first, db, mode, early + late, done + ids);
    }
    return if ok then Loaded else Failed;
  }

  /** One round: the objects of each kind, and the settings last. */
  method LoadRound(db: Database, mode: Mode, objects: RefObjects, refs: RefObjectIDs, ghost before: Rows,
                   ghost first: Objects, ghost done: iset<ID>) returns (r: Outcome)
    requires db.Valid() && done !! IDsOf(refs.Value())
    requires Holds(objects.settings, before, db, done) && HoldsObjects(objects.objects, first, db, mode, done)
    modifies objects
    ensures r == Loaded <==> AllPass(db, mode, before, first, done, IDsOf(refs.Value()))
    ensures r == Loaded ==> Holds(objects.settings, before, db, done + IDsOf(refs.Value()))
    ensures r == Loaded ==> HoldsObjects(objects.objects, first, db, mode, done + IDsOf(refs.Value()))
    ensures r != Loaded ==> (r == Panicked <==> mode == Mode(false, false))
  {
    ghost var was := objects.settings;
    SettingsPassIff(db, mode, was, before, first, done, refs.Value());
    AllPassByKind(db, mode, before, first, done, IDsOf(refs.Value()));
    r := LoadOtherKinds(db, mode, objects, refs, before, first, done);
    if r != Loaded {
      return;
    }
    var ok := objects.LoadSettings(db, mode, refs.settingIDs);
    RoundHolds(was, objects.settings, before, db, done, refs.Value());
    return if ok then Loaded else Failed;
  }

  /** The settings a round asks for pass as at first. */
  lemma SettingsPassIff(db: Database, mode: Mode, settings: Rows, before: Rows, objects: Objects, done: iset<ID>,
                        refs: Refs)
    requires db.Valid() && done !! IDsOf(refs) && Holds(settings, before, db, done)
    ensures KindPasses(db, mode, before, objects, done, IDsOf(refs), SettingRef)
       <==> (mode.existence ==> forall k :: k in refs.settings && k !in settings ==>
               k in db.settings && !db.settings[k].deleted)
  {
    forall k | k in refs.settings
      ensures ID(SettingRef, k) in IDsOf(refs) && (k in settings <==> k in before)
    {
      assert Mentions(refs, ID(SettingRef, k));
    }
    forall x: ID | x in IDsOf(refs) && x.kind == SettingRef
      ensures x.id in refs.settings && x == ID(SettingRef, x.id)
    {
    }
  }

  lemma AllPassByKind(db: Database, mode: Mode, before: Rows, objects: Objects, done: iset<ID>, refs: iset<ID>)
    requires db.Valid()
    ensures AllPass(db, mode, before, objects, done, refs)
       <==> && AllButSettingsPass(db, mode, before, objects, done, refs)
            && KindPasses(db, mode, before, objects, done, refs, SettingRef)
  {
    forall x | x in refs && AllButSettingsPass(db, mode, before, objects, done, refs)
               && KindPasses(db, mode, before, objects, done, refs, SettingRef)
      ensures PassesInTurn(db, mode, before, objects, done, refs, x)
    {
      assert KindPasses(db, mode, before, objects, done, refs, x.kind);
    }
  }

  lemma IDsOfPlus(a: Refs, b: Refs)
    ensures IDsOf(a.Plus(b)) == IDsOf(a) + IDsOf(b)
  {
    forall x ensures x in IDsOf(a.Plus(b)) <==> x in IDsOf(a) + IDsOf(b) {
      PlusMentions(a, b, x);
    }
  }

  function SetOf(refs: Refs): (xs: set<ID>)
    ensures forall x :: x in xs <==> Mentions(refs, x)
  {
    (set k | k in refs.settings :: ID(SettingRef, k)) + (set k | k in refs.apps :: ID(AppRef, k))
    + (set k | k in refs.projects :: ID(ProjectRef, k)) + (set k | k in refs.projectEnvs :: ID(ProjectEnvRef, k))
    + (set k | k in refs.users :: ID(UserRef, k))
  }

  function SetMentionedIn(rows: Rows): (xs: set<ID>)
    ensures forall x :: x in xs <==> MentionedBy(rows, x)
  {
    assert forall k, x :: k in rows && Mentions(rows[k].refs, x) ==> x in SetOf(rows[k].refs);
    set k, x | k in rows && x in SetOf(rows[k].refs) :: x
  }

  /** What is still to be asked for can only be what some setting refers to. */
  ghost function LeftOf(requested: Refs, before: Rows, db: Database): set<ID> {
    SetMentionedIn(before) + SetMentionedIn(db.settings) - SetOf(requested)
  }

  ghost function Left(requested: Refs, before: Rows, db: Database): nat {
    |LeftOf(requested, before, db)|
  }

  lemma RoundHolds(was: Rows, now: Rows, before: Rows, db: Database, asked: iset<ID>, refs: Refs)
    requires Holds(was, before, db, asked)
    requires now == was + map k | k in refs.settings && k !in was && k in db.settings :: db.settings[k]
    ensures Holds(now, before, db, asked + IDsOf(refs))
  {
    forall k
      ensures k in now <==> k in before || (k in db.settings && ID(SettingRef, k) in asked + IDsOf(refs))
    {
      assert ID(SettingRef, k) in IDsOf(refs) <==> Mentions(refs, ID(SettingRef, k));
    }
  }

  lemma LessLeft(asked: Refs, more: Refs, settings: Rows, before: Rows, db: Database)
    requires Holds(settings, before, db, IDsOf(asked))
    requires forall x :: Mentions(more, x) ==> MentionedBy(settings, x) && !Mentions(asked, x)
    requires exists x :: Mentions(more, x)
    ensures Left(asked.Plus(more), before, db) < Left(asked, before, db)
  {
    var x :| Mentions(more, x);
    var k :| k in settings && Mentions(settings[k].refs, x);
    assert MentionedBy(before, x) || MentionedBy(db.settings, x);
    forall y ensures Mentions(asked, y) ==> Mentions(asked.Plus(more), y) {
      PlusMentions(asked, more, y);
    }
    PlusMentions(asked, more, x);
    FewerThan(LeftOf(asked.Plus(more), before, db), LeftOf(asked, before, db), x);
  }

  lemma FewerThan(a: set<ID>, b: set<ID>, x: ID)
    requires a <= b && x in b && x !in a
    ensures |a| < |b|
  {
    FewerOrSame(a, b - {x});
  }

  lemma {:induction false} FewerOrSame(a: set<ID>, b: set<ID>)
    requires a <= b
    ensures |a| <= |b|
  {
    if a != {} {
      var x :| x in a;
      FewerOrSame(a - {x}, b - {x});
    }
  }

  // ---------------------------------------------------------------- Round after round

  /** What the settings held by then refer to and was never asked for. */
  ghost function StillToAsk(before: Rows, db: Database, asked: iset<ID>): iset<ID> {
    MentionedIn(HeldRows(before, db, asked)) - asked
  }

  /** What round after round asks for: each what the one before left to be asked for. */
  ghost predicate AreRounds(before: Rows, db: Database, done: iset<ID>, rounds: seq<iset<ID>>)
    decreases |rounds|
  {
    |rounds| > 1 ==>
      && rounds[1] == StillToAsk(before, db, done + rounds[0])
      && AreRounds(before, db, done + rounds[0], rounds[1..])
  }

  /** Everything each round asks for passes, in its turn. */
  ghost predicate RoundsPass(db: Database, mode: Mode, before: Rows, objects: Objects, done: iset<ID>,
                             rounds: seq<iset<ID>>)
    requires db.Valid()
    decreases |rounds|
  {
    rounds == []
    || (AllPass(db, mode, before, objects, done, rounds[0])
        && RoundsPass(db, mode, before, objects, done + rounds[0], rounds[1..]))
  }

  ghost function AllOf(rounds: seq<iset<ID>>): iset<ID> {
    if rounds == [] then iset{} else rounds[0] + AllOf(rounds[1..])
  }

  /** The rounds are determined by what is asked for at first. */
  lemma {:induction false} RoundsAreDetermined(before: Rows, db: Database, done: iset<ID>, a: seq<iset<ID>>,
                                               b: seq<iset<ID>>)
    requires AreRounds(before, db, done, a) && AreRounds(before, db, done, b)
    requires 0 < |a| <= |b| && a[0] == b[0]
    ensures a <= b
    decreases |a|
  {
    if |a| > 1 {
      RoundsAreDetermined(before, db, done + a[0], a[1..], b[1..]);
    }
  }

  /** Nothing the settings held refer to is outside a closure that holds what was asked for. */
  lemma MoreStaysWithin(c: iset<ID>, seeds: Refs, before: Rows, db: Database, asked: iset<ID>)
    requires Closed(c, seeds, before, db) && forall x :: x in asked ==> x in c
    ensures forall x :: x in StillToAsk(before, db, asked) ==> x in c
  {
    var rows := HeldRows(before, db, asked);
    forall x | x in StillToAsk(before, db, asked) ensures x in c {
      assert MentionedBy(rows, x);
      var k :| k in rows && Mentions(rows[k].refs, x);
      if k in before {
        assert MentionedBy(before, x);
      } else {
        var y := ID(SettingRef, k);
        assert y in c && HasRow(before, db, y) && RowOf(before, db, y) == rows[k];
      }
    }
  }

  /** Round after round, nothing outside any closure of what is asked for at first is asked for. */
  lemma {:induction false} RoundsStayWithin(c: iset<ID>, seeds: Refs, before: Rows, db: Database, done: iset<ID>,
                                            rounds: seq<iset<ID>>)
    requires Closed(c, seeds, before, db) && AreRounds(before, db, done, rounds)
    requires forall x :: x in done || (rounds != [] && x in rounds[0]) ==> x in c
    ensures forall x :: x in AllOf(rounds) ==> x in c
    decreases |rounds|
  {
    if |rounds| == 1 {
      assert AllOf(rounds[1..]) == iset{};
    } else if |rounds| > 1 {
      MoreStaysWithin(c, seeds, before, db, done + rounds[0]);
      RoundsStayWithin(c, seeds, before, db, done + rounds[0], rounds[1..]);
    }
  }

  lemma AskedIsWithin(asked: Refs, seeds: Refs, before: Rows, db: Database, rounds: seq<iset<ID>>)
    requires AreRounds(before, db, iset{}, rounds) && rounds != [] && rounds[0] == IDsOf(seeds)
    requires IDsOf(asked) == AllOf(rounds)
    ensures Within(asked, seeds, before, db)
  {
    forall c: iset<ID>, x | Closed(c, seeds, before, db) && Mentions(asked, x)
      ensures x in c
    {
      RoundsStayWithin(c, seeds, before, db, iset{}, rounds);
      assert x in AllOf(rounds);
    }
  }

  /** Before a round: what it asks for, what was asked for with it, and what is held of what
      was asked for before. */
  ghost predicate AtRound(db: Database, mode: Mode, before: Rows, first: Objects, settings: Rows, objects: Objects,
                          done: iset<ID>, refs: Refs, requested: Refs)
  {
    && done !! IDsOf(refs) && IDsOf(requested) == done + IDsOf(refs)
    && Holds(settings, before, db, done) && HoldsObjects(objects, first, db, mode, done)
  }

  lemma NextAtRound(db: Database, mode: Mode, before: Rows, first: Objects, settings: Rows, objects: Objects,
                    requested: Refs, more: Refs)
    requires Holds(settings, before, db, IDsOf(requested)) && HoldsObjects(objects, first, db, mode, IDsOf(requested))
    requires forall x :: Mentions(more, x) <==> MentionedBy(settings, x) && !Mentions(requested, x)
    ensures IDsOf(more) == StillToAsk(before, db, IDsOf(requested))
    ensures AtRound(db, mode, before, first, settings, objects, IDsOf(requested), more, requested.Plus(more))
  {
    HoldsRows(settings, before, db, IDsOf(requested));
    MoreIsTheRest(settings, requested, more);
    IDsOfPlus(requested, more);
  }

  lemma MoreIsTheRest(settings: Rows, requested: Refs, more: Refs)
    requires forall x :: Mentions(more, x) <==> MentionedBy(settings, x) && !Mentions(requested, x)
    ensures IDsOf(more) == MentionedIn(settings) - IDsOf(requested)
    ensures (exists x :: Mentions(more, x)) || MentionedIn(settings) <= IDsOf(requested)
  {
  }

  /** Nothing is left to ask for, and what was asked for is held. */
  ghost predicate IsSettled(db: Database, mode: Mode, before: Rows, first: Objects, settings: Rows, objects: Objects,
                            asked: iset<ID>)
  {
    && Holds(settings, before, db, asked) && HoldsObjects(objects, first, db, mode, asked)
    && MentionedIn(settings) <= asked
  }

  /** The rounds that begin with one, as far as they went, and whether everything passed. */
  ghost predicate IsVerdict(db: Database, mode: Mode, before: Rows, objects: Objects, done: iset<ID>, now: iset<ID>,
                            rounds: seq<iset<ID>>, ok: bool)
    requires db.Valid()
  {
    && rounds != [] && rounds[0] == now && AreRounds(before, db, done, rounds)
    && (ok <==> RoundsPass(db, mode, before, objects, done, rounds))
  }

  /** Loads what is asked for, then what the loaded settings refer to that was never asked
      for, and so on. It ends, and then holds what was asked for, with nothing left to ask for;
      it is done just when everything each round asks for passes. */
  method LoadRefObjectsByIDsOnce(db: Database, mode: Mode, objects: RefObjects, refs: RefObjectIDs,
                                 requested: RefObjectIDs, ghost before: Rows, ghost first: Objects,
                                 ghost done: iset<ID>)
    returns (r: Outcome, ghost rounds: seq<iset<ID>>)
    requires refs != requested && db.Valid()
    requires AtRound(db, mode, before, first, objects.settings, objects.objects, done, refs.Value(),
                     requested.Value())
    modifies objects, requested
    ensures r != Loaded ==> (r == Panicked <==> mode == Mode(false, false))
    ensures old(refs.HasData()) ==>
              IsVerdict(db, mode, before, first, done, IDsOf(old(refs.Value())), rounds, r == Loaded)
    ensures IDsOf(requested.Value()) == done + AllOf(rounds)
    ensures old(refs.HasData()) && r == Loaded ==>
              IsSettled(db, mode, before, first, objects.settings, objects.objects, IDsOf(requested.Value()))
    ensures old(!refs.HasData()) ==>
              r == Loaded && requested.Value() == old(requested.Value()) && unchanged(objects)
    decreases Left(requested.Value(), before, db)
  {
    ghost var now, asked := IDsOf(refs.Value()), IDsOf(requested.Value());
    rounds := [now];
    OneRound(db, mode, before, first, done, now);
    if !refs.HasData() {
      return Loaded, rounds;
    }
    var more;
    r, more := LoadAndCollect(db, mode, objects, refs, requested, before, first, done);
    if r != Loaded || !more.HasData() {
      return;
    }
    requested.AddRefIDs(more.Value());
    ghost var next := IDsOf(more.Value());
    ghost var later;
    r, later := LoadRefObjectsByIDsOnce(db, mode, objects, more, requested, before, first, asked);
    OneMoreRound(db, mode, before, first, done, now, next, later, r == Loaded);
    rounds := [now] + later;
  }

  lemma OneRound(db: Database, mode: Mode, before: Rows, objects: Objects, done: iset<ID>, now: iset<ID>)
    requires db.Valid()
    ensures AllOf([now]) == now
    ensures IsVerdict(db, mode, before, objects, done, now, [now], AllPass(db, mode, before, objects, done, now))
  {
  }

  lemma OneMoreRound(db: Database, mode: Mode, before: Rows, objects: Objects, done: iset<ID>, now: iset<ID>,
                     more: iset<ID>, later: seq<iset<ID>>, ok: bool)
    requires db.Valid() && more == StillToAsk(before, db, done + now)
    requires AllPass(db, mode, before, objects, done, now)
    requires IsVerdict(db, mode, before, objects, done + now, more, later, ok)
    ensures done + AllOf([now] + later) == done + now + AllOf(later)
    ensures IsVerdict(db, mode, before, objects, done, now, [now] + later, ok)
  {
    assert ([now] + later)[1..] == later;
  }

  lemma AtFirstRound(db: Database, mode: Mode, seeds: Refs, before: Rows, first: Objects)
    ensures AtRound(db, mode, before, first, before, first, iset{}, seeds, seeds)
  {
  }

  /** A round, and what is to be asked for in the next. */
  method LoadAndCollect(db: Database, mode: Mode, objects: RefObjects, refs: RefObjectIDs, requested: RefObjectIDs,
                        ghost before: Rows, ghost first: Objects, ghost done: iset<ID>)
    returns (r: Outcome, more: RefObjectIDs)
    requires db.Valid()
    requires AtRound(db, mode, before, first, objects.settings, objects.objects, done, refs.Value(),
                     requested.Value())
    modifies objects
    ensures fresh(more) && (r != Loaded ==> (r == Panicked <==> mode == Mode(false, false)))
    ensures r == Loaded <==> AllPass(db, mode, before, first, done, IDsOf(refs.Value()))
    ensures r == Loaded && more.HasData() ==>
              && AtRound(db, mode, before, first, objects.settings, objects.objects,
                         IDsOf(requested.Value()), more.Value(), requested.Value().Plus(more.Value()))
              && IDsOf(more.Value()) == StillToAsk(before, db, IDsOf(requested.Value()))
              && Left(requested.Value().Plus(more.Value()), before, db) < Left(requested.Value(), before, db)
    ensures r == Loaded && !more.HasData() ==>
              IsSettled(db, mode, before, first, objects.settings, objects.objects, IDsOf(requested.Value()))
  {
    r := LoadRound(db, mode, objects, refs, before, first, done);
    if r == Loaded {
      more := requested.GetRecursiveRefObjectIDs(objects);
      MoreIsTheRest(objects.settings, requested.Value(), more.Value());
      if more.HasData() {
        NextAtRound(db, mode, before, first, objects.settings, objects.objects, requested.Value(), more.Value());
        LessLeft(requested.Value(), more.Value(), objects.settings, before, db);
      }
    } else {
      more := new RefObjectIDs();
    }
  }

  // ---------------------------------------------------------------- What passes, all in all

  /** What comes along with anything is neither deleted nor, where that is asked for, inactive. */
  ghost predicate ComesAlongWell(db: Database, mode: Mode, x: ID) {
    (exists y :: y in db.objects && Brings(db.objects[y], x)) ==>
      x in db.objects && !db.objects[x].deleted && (mode.active ==> db.objects[x].active)
  }

  lemma PassesInTurnAsAtFirst(db: Database, mode: Mode, before: Rows, objects: Objects, done: iset<ID>, refs: iset<ID>,
                              x: ID)
    requires db.Valid() && x !in done && ComesAlongWell(db, mode, x)
    ensures PassesInTurn(db, mode, before, objects, done, refs, x) <==> PassesAtFirst(db, mode, before, objects, x)
  {
    if x.kind == ProjectRef {
      ProjectInTurnIff(db, mode, before, objects, done, refs, x);
    } else if x.kind == ProjectEnvRef {
      EnvInTurnIff(db, mode, before, objects, done, refs, x);
    }
  }

  /** Where nothing asked for comes along deleted or, if that matters, inactive: a load is done
      just when everything asked for, in whatever round, is there as things were at first. */
  lemma {:induction false} RoundsPassIff(db: Database, mode: Mode, before: Rows, objects: Objects, done: iset<ID>,
                                         rounds: seq<iset<ID>>)
    requires db.Valid() && AreRounds(before, db, done, rounds) && (rounds != [] ==> done !! rounds[0])
    requires forall x :: x in AllOf(rounds) ==> ComesAlongWell(db, mode, x)
    ensures RoundsPass(db, mode, before, objects, done, rounds)
       <==> forall x :: x in AllOf(rounds) ==> PassesAtFirst(db, mode, before, objects, x)
    decreases |rounds|
  {
    if rounds != [] {
      forall x | x in rounds[0]
        ensures PassesInTurn(db, mode, before, objects, done, rounds[0], x)
           <==> PassesAtFirst(db, mode, before, objects, x)
      {
        PassesInTurnAsAtFirst(db, mode, before, objects, done, rounds[0], x);
      }
      RoundsPassIff(db, mode, before, objects, done + rounds[0], rounds[1..]);
    }
  }

  /** A load that skips what is missing, whatever its status, is done just when no user asked
      for is missing: that is the one thing it does not skip. */
  lemma {:induction false} SkippingFailsOnUsersIff(db: Database, before: Rows, objects: Objects, done: iset<ID>,
                                                   rounds: seq<iset<ID>>)
    requires db.Valid()
    ensures RoundsPass(db, Mode(false, false), before, objects, done, rounds)
       <==> forall x :: x in AllOf(rounds) && x.kind == UserRef ==> x in objects || x in db.objects
    decreases |rounds|
  {
    if rounds != [] {
      forall x | x in rounds[0]
        ensures PassesInTurn(db, Mode(false, false), before, objects, done, rounds[0], x)
           <==> (x.kind == UserRef ==> x in objects || x in db.objects)
      {
      }
      SkippingFailsOnUsersIff(db, before, objects, done + rounds[0], rounds[1..]);
    }
  }

  /** A project that is deleted passes a load that requires what is asked for to exist, when an
      app of it is asked for with it. */
  lemma DeletedProjectPasses(before: Rows, settings: Rows, app: string, project: string)
    ensures var p := Object(true, true, None, None);
            var db := Database(settings, map[
              ID(ProjectRef, project) := p,
              ID(AppRef, app) := Object(false, true, Some(Related(project, true, true)), None)]);
            var asked := iset{ID(AppRef, app), ID(ProjectRef, project)};
            && db.Valid()
            && AllPass(db, Mode(true, false), before, map[], iset{}, asked)
            && !PassesAtFirst(db, Mode(true, false), before, map[], ID(ProjectRef, project))
  {
    var a, p := ID(AppRef, app), ID(ProjectRef, project);
    var mode := Mode(true, false);
    var db := Database(settings, map[
      p := Object(true, true, None, None), a := Object(false, true, Some(Related(project, true, true)), None)]);
    var asked := iset{a, p};
    assert LoadedOf(db, mode, map[], iset{} + EarlyOf(asked), a) && Brings(db.objects[a], p);
    ProjectInTurnIff(db, mode, before, map[], iset{}, asked, p);
  }

  // ---------------------------------------------------------------- What a load promises

  lemma MoreAlong(was: Objects, db: Database, mode: Mode, a: iset<ID>, b: iset<ID>, x: ID)
    requires a <= b && AlongOf(db, mode, was, a, x)
    ensures AlongOf(db, mode, was, b, x)
  {
    var y :| LoadedOf(db, mode, was, a, y) && Brings(db.objects[y], x);
    assert LoadedOf(db, mode, was, b, y);
  }

  /** Everything asked for passed, in its round, as it would at first; or it is a project that
      came along. */
  lemma {:induction false} EachPassed(db: Database, mode: Mode, before: Rows, objects: Objects, done: iset<ID>,
                                      rounds: seq<iset<ID>>, x: ID)
    requires db.Valid() && AreRounds(before, db, done, rounds) && (rounds != [] ==> done !! rounds[0])
    requires RoundsPass(db, mode, before, objects, done, rounds) && x in AllOf(rounds)
    ensures || PassesAtFirst(db, mode, before, objects, x)
            || (x.kind == ProjectRef && AlongOf(db, mode, objects, done + AllOf(rounds), x))
    decreases |rounds|
  {
    if x in rounds[0] {
      assert PassesInTurn(db, mode, before, objects, done, rounds[0], x);
      if x.kind == ProjectRef {
        ProjectInTurnIff(db, mode, before, objects, done, rounds[0], x);
        if AlongOf(db, mode, objects, done + EarlyOf(rounds[0]), x) {
          MoreAlong(objects, db, mode, done + EarlyOf(rounds[0]), done + AllOf(rounds), x);
        }
      } else if x.kind == ProjectEnvRef {
        EnvInTurnIff(db, mode, before, objects, done, rounds[0], x);
      }
    } else {
      EachPassed(db, mode, before, objects, done + rounds[0], rounds[1..], x);
      assert done + rounds[0] + AllOf(rounds[1..]) == done + AllOf(rounds);
    }
  }

  /** An app with a project and an environment, and an environment with a project. */
  predicate HasAll(x: ID, o: Object) {
    match x.kind
    case AppRef => o.project.Some? && o.env.Some?
    case ProjectEnvRef => o.project.Some?
    case _ => true
  }

  /** It is active, and so is what it is part of. */
  predicate AllActive(x: ID, o: Object) {
    && o.active
    && (x.kind == AppRef ==> o.project.Some? && o.project.value.active && o.env.Some? && o.env.value.active)
    && (x.kind == ProjectEnvRef ==> o.project.Some? && o.project.value.active)
  }

  /** It came along with an app or environment asked for that is deleted. */
  ghost predicate CameWithDeleted(now: Objects, asked: iset<ID>, x: ID) {
    exists y :: y in asked && y in now && now[y].deleted && Brings(now[y], x)
  }

  /** What is asked for and was not held whole at first: where existence is required, is held,
      and not deleted; where activity is, is active with all it is part of, if it is held and
      not deleted. All but what came along: that may be deleted, if it is a project, and not
      active, if it came with what is deleted. */
  ghost predicate Delivers(mode: Mode, first: Objects, now: Objects, asked: iset<ID>) {
    forall x :: x in asked && x.kind != SettingRef && !(x in first && HasAll(x, first[x])) ==>
      && (mode.existence ==> x in now && (now[x].deleted ==> x.kind == ProjectRef && CameAlong(now, asked, x)))
      && (mode.active && x in now && !now[x].deleted ==>
            || AllActive(x, now[x])
            || (x.kind == ProjectRef && CameWithDeleted(now, asked, x))
            || (x.kind == ProjectEnvRef && !mode.existence && CameWithDeleted(now, asked, x)))
  }

  ghost predicate CameAlong(now: Objects, asked: iset<ID>, x: ID) {
    exists y :: y in asked && y in now && Brings(now[y], x)
  }

  /** And of the settings. */
  ghost predicate DeliversSettings(mode: Mode, before: Rows, now: Rows, asked: iset<ID>) {
    forall x :: x in asked && x.kind == SettingRef && mode.existence && x.id !in before ==>
      x.id in now && !now[x.id].deleted
  }

  /** What is loaded passes: what comes along with it is active, then, unless it is deleted. */
  lemma BroughtIsActive(db: Database, mode: Mode, before: Rows, first: Objects, now: Objects, asked: iset<ID>, y: ID,
                        x: ID)
    requires db.Valid() && mode.active && HoldsObjects(now, first, db, mode, asked)
    requires LoadedOf(db, mode, first, asked, y) && Brings(db.objects[y], x)
    requires PassesAtFirst(db, mode, before, first, y)
    ensures y in now && now[y] == db.objects[y] && x in db.objects
    ensures now[y].deleted || db.objects[x].active
  {
    BroughtIsThere(db, y, x);
    assert HoldsAs(now[y], first, db, mode, asked, y);
    assert db.Joined(y, db.objects[y]);
  }

  lemma OneDelivered(db: Database, mode: Mode, before: Rows, first: Objects, now: Objects, asked: iset<ID>, x: ID)
    requires db.Valid() && HoldsObjects(now, first, db, mode, asked) && x in asked && x.kind != SettingRef
    requires !(x in first && HasAll(x, first[x]))
    requires forall y :: y in asked ==> PassesAtFirst(db, mode, before, first, y)
                                        || (y.kind == ProjectRef && AlongOf(db, mode, first, asked, y))
    ensures mode.existence ==> x in now && (now[x].deleted ==> x.kind == ProjectRef && CameAlong(now, asked, x))
    ensures mode.active && x in now && !now[x].deleted ==>
              || AllActive(x, now[x])
              || (x.kind == ProjectRef && CameWithDeleted(now, asked, x))
              || (x.kind == ProjectEnvRef && !mode.existence && CameWithDeleted(now, asked, x))
  {
    if x in now {
      assert HoldsAs(now[x], first, db, mode, asked, x);
    }
    if AlongOf(db, mode, first, asked, x) {
      var y :| LoadedOf(db, mode, first, asked, y) && Brings(db.objects[y], x);
      BroughtIsThere(db, y, x);
      assert HoldsAs(now[y], first, db, mode, asked, y);
      assert CameAlong(now, asked, x);
      if mode.active {
        BroughtIsActive(db, mode, before, first, now, asked, y, x);
      }
    }
  }

  lemma LoadedDelivers(db: Database, mode: Mode, before: Rows, first: Objects, settings: Rows, now: Objects,
                       rounds: seq<iset<ID>>)
    requires db.Valid() && AreRounds(before, db, iset{}, rounds)
    requires RoundsPass(db, mode, before, first, iset{}, rounds)
    requires Holds(settings, before, db, AllOf(rounds)) && HoldsObjects(now, first, db, mode, AllOf(rounds))
    ensures Delivers(mode, first, now, AllOf(rounds)) && DeliversSettings(mode, before, settings, AllOf(rounds))
  {
    var asked := AllOf(rounds);
    assert iset{} + asked == asked;
    forall x | x in asked
      ensures PassesAtFirst(db, mode, before, first, x)
              || (x.kind == ProjectRef && AlongOf(db, mode, first, asked, x))
    {
      EachPassed(db, mode, before, first, iset{}, rounds, x);
    }
    forall x | x in asked && x.kind != SettingRef && !(x in first && HasAll(x, first[x]))
      ensures mode.existence ==> x in now && (now[x].deleted ==> x.kind == ProjectRef && CameAlong(now, asked, x))
      ensures mode.active && x in now && !now[x].deleted ==>
                || AllActive(x, now[x])
                || (x.kind == ProjectRef && CameWithDeleted(now, asked, x))
                || (x.kind == ProjectEnvRef && !mode.existence && CameWithDeleted(now, asked, x))
    {
      OneDelivered(db, mode, before, first, now, asked, x);
    }
    forall x | x in asked && x.kind == SettingRef && mode.existence && x.id !in before
      ensures x.id in settings && !settings[x.id].deleted
    {
      assert x == ID(SettingRef, x.id);
    }
  }

  /** Everything there is to find of it is there: not deleted, active, and all it is part of. */
  predicate InOrder(db: Database, x: ID) {
    if x.kind == SettingRef then x.id in db.settings && !db.settings[x.id].deleted
    else x in db.objects && !db.objects[x].deleted && AllActive(x, db.objects[x])
  }

  /** And a load fails on nothing else: where all that is asked for is in order, it is done. */
  lemma {:induction false} InOrderPasses(db: Database, mode: Mode, before: Rows, objects: Objects, done: iset<ID>,
                                         rounds: seq<iset<ID>>)
    requires db.Valid() && forall x :: x in AllOf(rounds) ==> InOrder(db, x)
    ensures RoundsPass(db, mode, before, objects, done, rounds)
    decreases |rounds|
  {
    if rounds != [] {
      forall x | x in rounds[0] ensures PassesInTurn(db, mode, before, objects, done, rounds[0], x) {
        assert InOrder(db, x);
      }
      InOrderPasses(db, mode, before, objects, done + rounds[0], rounds[1..]);
    }
  }

  /** The least closure of what is asked for: closed, and within every other. */
  ghost predicate IsLeastClosure(asked: Refs, seeds: Refs, before: Rows, db: Database) {
    && Closed(IDsOf(asked), seeds, before, db)
    && Within(asked, seeds, before, db)
  }

  lemma SettledIsClosed(asked: Refs, settings: Rows, seeds: Refs, before: Rows, db: Database)
    requires IDsOf(seeds) <= IDsOf(asked) && Holds(settings, before, db, IDsOf(asked))
    requires MentionedIn(settings) <= IDsOf(asked)
    ensures Closed(IDsOf(asked), seeds, before, db)
  {
    forall x | Mentions(seeds, x) || MentionedBy(before, x)
      ensures Mentions(asked, x)
    {
      if Mentions(seeds, x) {
        assert x in IDsOf(seeds);
      } else {
        var k :| k in before && Mentions(before[k].refs, x);
        assert MentionedBy(settings, x) && x in MentionedIn(settings);
      }
    }
    forall x, y | Mentions(asked, x) && HasRow(before, db, x) && Mentions(RowOf(before, db, x).refs, y)
      ensures Mentions(asked, y)
    {
      assert x == ID(SettingRef, x.id) && x in IDsOf(asked);
      assert settings[x.id] == RowOf(before, db, x);
      assert MentionedBy(settings, y) && y in MentionedIn(settings);
    }
  }

  /** Loads what is asked for and all it refers to, however indirectly: if anything is asked
      for at all, what is asked for in the end is the least closure of that, and what is held
      are the settings held before and those of the closure that are found, and the objects of
      the other kinds likewise, with what came along. It is done just when everything each
      round asks for passes. */
  method LoadRefObjectsByIDs(db: Database, mode: Mode, objects: RefObjects, refs: RefObjectIDs)
    returns (r: Outcome, ghost asked: Refs, ghost rounds: seq<iset<ID>>)
    requires db.Valid()
    modifies objects
    ensures Within(asked, refs.Value(), old(objects.settings), db)
    ensures r != Loaded ==> (r == Panicked <==> mode == Mode(false, false))
    ensures refs.HasData() ==>
              IsVerdict(db, mode, old(objects.settings), old(objects.objects), iset{}, IDsOf(refs.Value()), rounds,
                        r == Loaded)
    ensures r == Loaded && refs.HasData() ==>
              && IDsOf(asked) == AllOf(rounds)
              && IsLeastClosure(asked, refs.Value(), old(objects.settings), db)
              && Holds(objects.settings, old(objects.settings), db, IDsOf(asked))
              && HoldsObjects(objects.objects, old(objects.objects), db, mode, IDsOf(asked))
              && Delivers(mode, old(objects.objects), objects.objects, IDsOf(asked))
              && DeliversSettings(mode, old(objects.settings), objects.settings, IDsOf(asked))
    ensures !refs.HasData() ==> r == Loaded && asked == NO_REFS && unchanged(objects)
  {
    var requested := new RefObjectIDs();
    requested.AddRefIDs(refs.Value());
    ghost var seeds, before, first := refs.Value(), objects.settings, objects.objects;
    assert requested.Value() == seeds;
    AtFirstRound(db, mode, seeds, before, first);
    r, rounds := LoadRefObjectsByIDsOnce(db, mode, objects, refs, requested, before, first, iset{});
    asked := requested.Value();
    if refs.HasData() {
      AskedIsWithin(asked, seeds, before, db, rounds);
    }
    if r == Loaded && refs.HasData() {
      SettledIsClosed(asked, objects.settings, seeds, before, db);
      assert iset{} + AllOf(rounds) == AllOf(rounds) == IDsOf(asked);
      LoadedDelivers(db, mode, before, first, objects.settings, objects.objects, rounds);
    }
  }
}
