/** Loading objects that settings refer to, kind by kind: what is held afterwards, and what
    of the objects asked for a load fails on. */
module RefLoads {
  import opened Wrappers

  datatype Kind = SettingRef | AppRef | ProjectRef | ProjectEnvRef | UserRef

  datatype ID = ID(kind: Kind, id: string)

  /** The references of a setting, or of several. */
  datatype Refs = Refs(settings: seq<string>, apps: seq<string>, projects: seq<string>,
                       projectEnvs: seq<string>, users: seq<string>)
  {
    function Of(kind: Kind): seq<string> {
      match kind
      case SettingRef => settings
      case AppRef => apps
      case ProjectRef => projects
      case ProjectEnvRef => projectEnvs
      case UserRef => users
    }

    function Plus(other: Refs): Refs {
      Refs(settings + other.settings, apps + other.apps, projects + other.projects,
           projectEnvs + other.projectEnvs, users + other.users)
    }
  }

  const NO_REFS := Refs([], [], [], [], [])

  predicate Mentions(refs: Refs, x: ID) {
    x.id in refs.Of(x.kind)
  }

  /** A setting as the database keeps it: what it refers to, and whether it is deleted. */
  datatype Row = Row(refs: Refs, deleted: bool)

  type Rows = map<string, Row>

  /** The project or environment loaded as part of an object. */
  datatype Related = Related(id: string, deleted: bool, active: bool)

  /** An object of another kind: an app with its project and environment, an environment with
      its project, a project, or a user, who is active while available. */
  datatype Object = Object(deleted: bool, active: bool, project: Option<Related>, env: Option<Related>)

  type Objects = map<ID, Object>

  predicate IsOf(r: Related, o: Object) {
    r.deleted == o.deleted && r.active == o.active
  }

  /** What the queries find: the settings in scope, only the active ones where that is asked
      for; and the objects, each with what it is joined with. */
  datatype Database = Database(settings: Rows, objects: Objects)
  {
    ghost predicate Valid() {
      forall x :: x in objects ==> Joined(x, objects[x])
    }

    predicate Joined(x: ID, o: Object) {
      && (x.kind != AppRef && x.kind != ProjectEnvRef ==> o.project == None)
      && (x.kind != AppRef ==> o.env == None)
      && (o.project.Some? ==>
            var p := ID(ProjectRef, o.project.value.id);
            p in objects && IsOf(o.project.value, objects[p]))
      && (o.env.Some? ==>
            var e := ID(ProjectEnvRef, o.env.value.id);
            e in objects && IsOf(o.env.value, objects[e]))
    }
  }

  /** An object as it comes along with another. */
  function Bare(o: Object): Object {
    Object(o.deleted, o.active, None, None)
  }

  /** Which objects come along with one. */
  predicate Brings(o: Object, x: ID) {
    || (o.project.Some? && x == ID(ProjectRef, o.project.value.id))
    || (o.env.Some? && x == ID(ProjectEnvRef, o.env.value.id))
  }

  /** Whether what is missing or deleted fails a load, and whether what is not active does. */
  datatype Mode = Mode(existence: bool, active: bool)

  /** How a load ends; a user that is missing, where neither is required, ends it in a panic. */
  datatype Outcome = Loaded | Failed | Panicked

  predicate Whole(kind: Kind, o: Object) {
    match kind
    case AppRef => o.project.Some? && o.env.Some?
    case ProjectEnvRef => o.project.Some?
    case _ => true
  }

  /** Held with all that belongs to it, so that it is not loaded again. */
  predicate Held(held: Objects, x: ID) {
    x in held && Whole(x.kind, held[x])
  }

  predicate Found(db: Database, mode: Mode, x: ID) {
    x in db.objects && (mode.active && x.kind != UserRef ==> db.objects[x].active)
  }

  /** What is held of an object once it was looked for. */
  function LookedFor(db: Database, mode: Mode, held: Objects, x: ID): Option<Object> {
    if Found(db, mode, x) then Some(db.objects[x])
    else if x in held then Some(held[x])
    else None
  }

  predicate IsActive(kind: Kind, o: Object) {
    && o.active
    && (kind == AppRef || kind == ProjectEnvRef ==> o.project.Some? && o.project.value.active)
    && (kind == AppRef ==> o.env.Some? && o.env.value.active)
  }

  /** Whether a load does not fail on an object asked for, given what is held before it. */
  predicate Passes(db: Database, mode: Mode, held: Objects, x: ID) {
    if x.kind == UserRef then
      || x in held
      || (x in db.objects
          && (mode.existence || mode.active ==> !db.objects[x].deleted)
          && (mode.active ==> db.objects[x].active))
    else
      || Held(held, x)
      || match LookedFor(db, mode, held, x)
         case None => !mode.existence
         case Some(o) => if o.deleted then !mode.existence else mode.active ==> IsActive(x.kind, o)
  }

  function WithoutObject(db: Database, x: ID): Database {
    db.(objects := db.objects - {x})
  }

  /** Where activity is required an object that is not active is as if it were not there. A
      user is, all the same, and fails the load. */
  lemma InactiveIsAsMissing(db: Database, mode: Mode, held: Objects, x: ID)
    requires mode.active && x in db.objects && !db.objects[x].active
    ensures x.kind != UserRef ==>
              && LookedFor(db, mode, held, x) == LookedFor(WithoutObject(db, x), mode, held, x)
              && (Passes(db, mode, held, x) <==> Passes(WithoutObject(db, x), mode, held, x))
    ensures x.kind == UserRef ==>
              LookedFor(db, mode, held, x) == Some(db.objects[x]) && (Passes(db, mode, held, x) <==> x in held)
  {
  }

  /** Where it is not, an object's own activity is nothing to a load. */
  lemma ActivityUnasked(db: Database, mode: Mode, held: Objects, x: ID, active: bool)
    requires !mode.active && x in db.objects
    ensures var other := db.(objects := db.objects[x := db.objects[x].(active := active)]);
            && (Passes(db, mode, held, x) <==> Passes(other, mode, held, x))
            && LookedFor(other, mode, held, x) == Some(other.objects[x])
  {
  }

  /** What is held with all that belongs to it passes and is not loaded, and what is missing or
      deleted passes where existence is not required. What is there otherwise passes, when
      activity is required, if it and the project and environment it is in are active. */
  lemma WhatPasses(db: Database, mode: Mode, held: Objects, x: ID)
    requires db.Valid() && x.kind != UserRef && x.kind != SettingRef
    requires x in db.objects && x.kind == ProjectEnvRef ==> db.objects[x].project.Some?
    requires x in db.objects && x.kind == AppRef ==> db.objects[x].project.Some? && db.objects[x].env.Some?
    ensures x in held && (x.kind == ProjectEnvRef ==> held[x].project.Some?)
            && (x.kind == AppRef ==> held[x].project.Some? && held[x].env.Some?) ==>
              Passes(db, mode, held, x) && forall asked :: !LoadedOf(db, mode, held, asked, x)
    ensures x !in held && (x !in db.objects || db.objects[x].deleted) ==>
              (Passes(db, mode, held, x) <==> !mode.existence)
    ensures x !in held && x in db.objects && !db.objects[x].deleted && db.objects[x].active ==>
              var o := db.objects[x];
              (Passes(db, mode, held, x)
               <==> (mode.active ==> && (o.project.Some? ==> o.project.value.active)
                                     && (o.env.Some? ==> o.env.value.active)))
  {
    if x in db.objects {
      assert db.Joined(x, db.objects[x]);
    }
  }

  // ---------------------------------------------------------------- What is held afterwards

  /** Of what is asked for, what is loaded. */
  ghost predicate LoadedOf(db: Database, mode: Mode, held: Objects, asked: iset<ID>, x: ID) {
    x in asked && x.kind != SettingRef && !Held(held, x) && Found(db, mode, x)
  }

  /** What comes along with it. */
  ghost predicate AlongOf(db: Database, mode: Mode, held: Objects, asked: iset<ID>, x: ID) {
    exists y :: LoadedOf(db, mode, held, asked, y) && Brings(db.objects[y], x)
  }

  /** Held are the objects held before, those loaded, and those that came along. */
  ghost predicate HoldsObjects(now: Objects, was: Objects, db: Database, mode: Mode, asked: iset<ID>) {
    && (forall x {:trigger x in now} :: x in now <==>
          x in was || LoadedOf(db, mode, was, asked, x) || AlongOf(db, mode, was, asked, x))
    && (forall x :: x in now ==> HoldsAs(now[x], was, db, mode, asked, x))
  }

  ghost predicate HoldsAs(o: Object, was: Objects, db: Database, mode: Mode, asked: iset<ID>, x: ID) {
    if LoadedOf(db, mode, was, asked, x) then o == db.objects[x]
    else if x in was then o == was[x]
    else x in db.objects && o == Bare(db.objects[x])
  }

  /** What comes along is a project or an environment, and in the database. */
  lemma BroughtIsThere(db: Database, y: ID, x: ID)
    requires db.Valid() && y in db.objects && Brings(db.objects[y], x)
    ensures x in db.objects && (x.kind == ProjectRef || (x.kind == ProjectEnvRef && y.kind == AppRef))
    ensures y.kind == AppRef || y.kind == ProjectEnvRef
    ensures x.kind == ProjectRef ==> Bare(db.objects[x]) == db.objects[x]
  {
    assert db.Joined(y, db.objects[y]) && db.Joined(x, db.objects[x]);
  }

  /** What is looked for later is loaded as if it were looked for at first - unless it is a
      project that came along by then, of which nothing more is known. */
  lemma LoadedLater(was: Objects, now: Objects, db: Database, mode: Mode, a: iset<ID>, b: iset<ID>, x: ID)
    requires db.Valid() && HoldsObjects(now, was, db, mode, a) && a !! b && x in b
    ensures LoadedOf(db, mode, now, b, x) ==> LoadedOf(db, mode, was, a + b, x)
    ensures LoadedOf(db, mode, was, a + b, x) && !LoadedOf(db, mode, now, b, x) ==>
              x.kind == ProjectRef && x in now && now[x] == db.objects[x]
  {
    if x in now {
      assert HoldsAs(now[x], was, db, mode, a, x);
      if x !in was {
        var y :| LoadedOf(db, mode, was, a, y) && Brings(db.objects[y], x);
        BroughtIsThere(db, y, x);
      }
    }
  }

  lemma ProjectsBringNone(db: Database, y: ID, x: ID)
    requires db.Valid() && y in db.objects && y.kind == ProjectRef
    ensures !Brings(db.objects[y], x)
  {
    assert db.Joined(y, db.objects[y]);
  }

  lemma AlongLater(was: Objects, now: Objects, db: Database, mode: Mode, a: iset<ID>, b: iset<ID>, x: ID)
    requires db.Valid() && HoldsObjects(now, was, db, mode, a) && a !! b
    ensures AlongOf(db, mode, was, a + b, x) <==> AlongOf(db, mode, was, a, x) || AlongOf(db, mode, now, b, x)
  {
    if AlongOf(db, mode, was, a, x) {
      var y :| LoadedOf(db, mode, was, a, y) && Brings(db.objects[y], x);
      assert LoadedOf(db, mode, was, a + b, y);
    }
    if AlongOf(db, mode, now, b, x) {
      var y :| LoadedOf(db, mode, now, b, y) && Brings(db.objects[y], x);
      LoadedLater(was, now, db, mode, a, b, y);
    }
    if AlongOf(db, mode, was, a + b, x) {
      var y :| LoadedOf(db, mode, was, a + b, y) && Brings(db.objects[y], x);
      if y in a {
        assert LoadedOf(db, mode, was, a, y);
      } else {
        LoadedLater(was, now, db, mode, a, b, y);
        if !LoadedOf(db, mode, now, b, y) {
          ProjectsBringNone(db, y, x);
        }
      }
    }
  }

  /** Two loads, of different things, are one of both. */
  lemma HoldsMore(was: Objects, now: Objects, after: Objects, db: Database, mode: Mode, a: iset<ID>, b: iset<ID>)
    requires db.Valid() && a !! b
    requires HoldsObjects(now, was, db, mode, a) && HoldsObjects(after, now, db, mode, b)
    ensures HoldsObjects(after, was, db, mode, a + b)
  {
    forall x
      ensures x in after <==>
                x in was || LoadedOf(db, mode, was, a + b, x) || AlongOf(db, mode, was, a + b, x)
      ensures x in after ==> HoldsAs(after[x], was, db, mode, a + b, x)
    {
      AlongLater(was, now, db, mode, a, b, x);
      if x in b {
        LoadedLater(was, now, db, mode, a, b, x);
      }
      if x in after {
        assert HoldsAs(after[x], now, db, mode, b, x);
        if x in now {
          assert HoldsAs(now[x], was, db, mode, a, x);
        }
      }
    }
  }

  // ---------------------------------------------------------------- Storing what was found

  predicate AlongSome(db: Database, found: seq<ID>, x: ID)
    requires forall y :: y in found ==> y in db.objects
  {
    exists i :: 0 <= i < |found| && Brings(db.objects[found[i]], x)
  }

  /** The first found are stored, and what comes along with them where there was none. */
  ghost predicate IsStored(now: Objects, was: Objects, db: Database, found: seq<ID>)
    requires forall y :: y in found ==> y in db.objects
  {
    && (forall x :: x in now <==> x in was || x in found || AlongSome(db, found, x))
    && (forall x :: x in now ==> StoredAs(now[x], was, db, found, x))
  }

  ghost predicate StoredAs(o: Object, was: Objects, db: Database, found: seq<ID>, x: ID) {
    if x in found then x in db.objects && o == db.objects[x]
    else if x in was then o == was[x]
    else x in db.objects && o == Bare(db.objects[x])
  }

  function WithRelated(objects: Objects, kind: Kind, r: Option<Related>): Objects {
    if r.None? || ID(kind, r.value.id) in objects then objects
    else objects[ID(kind, r.value.id) := Object(r.value.deleted, r.value.active, None, None)]
  }

  function WithStored(objects: Objects, x: ID, o: Object): Objects {
    WithRelated(WithRelated(objects[x := o], ProjectRef, o.project), ProjectEnvRef, o.env)
  }

  lemma OneStored(db: Database, objects: Objects, y: ID, x: ID)
    requires db.Valid() && y in db.objects
    ensures var after := WithStored(objects, y, db.objects[y]);
            && (x in after <==> x in objects || x == y || Brings(db.objects[y], x))
            && (x in after ==> after[x] == if x == y then db.objects[y] else if x in objects then objects[x]
                                           else if x in db.objects then Bare(db.objects[x]) else after[x])
  {
    assert db.Joined(y, db.objects[y]);
  }

  lemma OneMoreStored(db: Database, was: Objects, now: Objects, found: seq<ID>, i: nat, kind: Kind)
    requires db.Valid() && i < |found| && forall y :: y in found ==> y in db.objects && y.kind == kind
    requires IsStored(now, was, db, found[..i])
    ensures IsStored(WithStored(now, found[i], db.objects[found[i]]), was, db, found[..i + 1])
  {
    var y := found[i];
    var after := WithStored(now, y, db.objects[y]);
    var more := found[..i + 1];
    assert more == found[..i] + [y];
    forall x
      ensures x in after <==> x in was || x in more || AlongSome(db, more, x)
      ensures x in after ==> StoredAs(after[x], was, db, more, x)
    {
      OneStored(db, now, y, x);
      assert AlongSome(db, more, x) <==> AlongSome(db, found[..i], x) || Brings(db.objects[y], x) by {
        AlongOneMore(db, found, i, x);
      }
      if Brings(db.objects[y], x) {
        BroughtIsThere(db, y, x);
      }
      if x in now {
        assert StoredAs(now[x], was, db, found[..i], x);
      }
    }
  }

  lemma AlongOneMore(db: Database, found: seq<ID>, i: nat, x: ID)
    requires i < |found| && forall y :: y in found ==> y in db.objects
    ensures AlongSome(db, found[..i + 1], x) <==> AlongSome(db, found[..i], x) || Brings(db.objects[found[i]], x)
  {
    var before, more := found[..i], found[..i + 1];
    assert more == before + [found[i]];
    if AlongSome(db, before, x) {
      var j :| 0 <= j < i && Brings(db.objects[before[j]], x);
      assert more[j] == before[j];
    }
    if Brings(db.objects[found[i]], x) {
      assert more[i] == found[i];
    }
  }

  // ---------------------------------------------------------------- The loads

  ghost function OfKind(kind: Kind, ids: seq<string>): iset<ID> {
    iset x: ID | x.kind == kind && x.id in ids
  }

  class RefObjects {
    var settings: Rows
    var objects: Objects

    constructor (settings: Rows, objects: Objects)
      ensures this.settings == settings && this.objects == objects
    {
      this.settings, this.objects := settings, objects;
    }

    /** Of the identifiers, those not held as a whole. */
    method Wanted(kind: Kind, ids: seq<string>) returns (wanted: seq<ID>)
      ensures forall x :: x in wanted <==> x in OfKind(kind, ids) && !Held(objects, x)
    {
      wanted := [];
      for i := 0 to |ids|
        invariant forall x :: x in wanted <==> x in OfKind(kind, ids[..i]) && !Held(objects, x)
      {
        assert ids[..i + 1] == ids[..i] + [ids[i]];
        if !Held(objects, ID(kind, ids[i])) {
          wanted := wanted + [ID(kind, ids[i])];
        }
      }
      assert ids[..|ids|] == ids;
    }

    /** Stores what was found, and what came along with it. */
    method Store(db: Database, found: seq<ID>, ghost kind: Kind)
      requires db.Valid() && forall y :: y in found ==> y in db.objects && y.kind == kind
      modifies this`objects
      ensures IsStored(objects, old(objects), db, found)
    {
      for i := 0 to |found|
        invariant IsStored(objects, old(objects), db, found[..i])
      {
        OneMoreStored(db, old(objects), objects, found, i, kind);
        objects := WithStored(objects, found[i], db.objects[found[i]]);
      }
      assert found[..|found|] == found;
    }

    /** Loads users. One that is missing fails a load that requires existence or activity, and
        ends any other in a panic: its id is read though it is nil. */
    method LoadUsers(db: Database, mode: Mode, ids: seq<string>) returns (r: Outcome)
      requires db.Valid()
      modifies this`objects
      ensures r == Loaded <==> forall x :: x in OfKind(UserRef, ids) ==> Passes(db, mode, old(objects), x)
      ensures r == Loaded ==> HoldsObjects(objects, old(objects), db, mode, OfKind(UserRef, ids))
      ensures r != Loaded ==> (r == Panicked <==> mode == Mode(false, false))
    {
      var wanted := Wanted(UserRef, ids);
      for i := 0 to |wanted|
        invariant objects == old(objects)
        invariant forall j :: 0 <= j < i ==> wanted[j] in db.objects && Passes(db, mode, objects, wanted[j])
      {
        var x := wanted[i];
        assert x in wanted;
        if mode.existence && (x !in db.objects || db.objects[x].deleted) {
          return Failed;
        }
        if mode.active && (x !in db.objects || db.objects[x].deleted || !db.objects[x].active) {
          return Failed;
        }
        if x !in db.objects {
          return Panicked;
        }
      }
      Store(db, wanted, UserRef);
      StoredIsHeld(db, mode, old(objects), objects, wanted, UserRef, ids);
      return Loaded;
    }

    /** Loads apps, projects or environments. */
    method LoadObjects(db: Database, mode: Mode, kind: Kind, ids: seq<string>) returns (ok: bool)
      requires db.Valid() && (kind == AppRef || kind == ProjectRef || kind == ProjectEnvRef)
      modifies this`objects
      ensures ok <==> forall x :: x in OfKind(kind, ids) ==> Passes(db, mode, old(objects), x)
      ensures HoldsObjects(objects, old(objects), db, mode, OfKind(kind, ids))
    {
      ghost var was := objects;
      var wanted := Wanted(kind, ids);
      var found := Find(db, mode, wanted);
      Store(db, found, kind);
      ghost var now := objects;
      StoredIsHeld(db, mode, was, now, found, kind, ids);
      HeldPass(db, mode, was, OfKind(kind, ids));
      for i := 0 to |wanted|
        invariant objects == now
        invariant forall j :: 0 <= j < i ==> Passes(db, mode, was, wanted[j])
      {
        var x := wanted[i];
        assert x in wanted;
        HeldAsLookedFor(db, mode, was, objects, kind, ids, x);
        if x !in objects || objects[x].deleted {
          if mode.existence {
            return false;
          }
          continue;
        }
        if mode.active && !IsActive(kind, objects[x]) {
          return false;
        }
      }
      return true;
    }

    /** Loads the settings not held yet that are found; where existence is required, one not
        found or deleted fails. */
    method LoadSettings(db: Database, mode: Mode, ids: seq<string>) returns (ok: bool)
      modifies this`settings
      ensures settings == old(settings) + map k | k in ids && k !in old(settings) && k in db.settings :: db.settings[k]
      ensures ok <==> (mode.existence ==>
                forall k :: k in ids && k !in old(settings) ==> k in db.settings && !db.settings[k].deleted)
    {
      ghost var before := settings;
      var found: Rows := map k | k in ids && k !in settings && k in db.settings :: db.settings[k];
      var wanted: seq<string> := [];
      for i := 0 to |ids|
        invariant forall k :: k in wanted <==> k in ids[..i] && k !in before
      {
        assert ids[..i + 1] == ids[..i] + [ids[i]];
        if ids[i] !in settings {
          wanted := wanted + [ids[i]];
        }
      }
      assert ids[..|ids|] == ids;
      settings := settings + found;
      for i := 0 to |wanted|
        invariant mode.existence ==> forall j :: 0 <= j < i ==> wanted[j] in found && !found[wanted[j]].deleted
      {
        if wanted[i] !in settings || settings[wanted[i]].deleted {
          if mode.existence {
            return false;
          }
        }
      }
      return true;
    }
  }

  /** What is held whole passes: only what was wanted may not. */
  lemma HeldPass(db: Database, mode: Mode, held: Objects, asked: iset<ID>)
    ensures (forall x :: x in asked ==> Passes(db, mode, held, x))
       <==> forall x :: x in asked && !Held(held, x) ==> Passes(db, mode, held, x)
  {
  }

  /** The query: those of the identifiers that are found. */
  method Find(db: Database, mode: Mode, wanted: seq<ID>) returns (found: seq<ID>)
    ensures forall x :: x in found <==> x in wanted && Found(db, mode, x)
  {
    found := [];
    for i := 0 to |wanted|
      invariant forall x :: x in found <==> x in wanted[..i] && Found(db, mode, x)
    {
      assert wanted[..i + 1] == wanted[..i] + [wanted[i]];
      if Found(db, mode, wanted[i]) {
        found := found + [wanted[i]];
      }
    }
    assert wanted[..|wanted|] == wanted;
  }

  lemma StoredIsHeld(db: Database, mode: Mode, was: Objects, now: Objects, found: seq<ID>, kind: Kind, ids: seq<string>)
    requires db.Valid() && kind != SettingRef
    requires forall x :: x in found <==> LoadedOf(db, mode, was, OfKind(kind, ids), x)
    requires forall y :: y in found ==> y in db.objects
    requires IsStored(now, was, db, found)
    ensures HoldsObjects(now, was, db, mode, OfKind(kind, ids))
  {
    var asked := OfKind(kind, ids);
    forall x
      ensures AlongSome(db, found, x) <==> AlongOf(db, mode, was, asked, x)
    {
      if AlongSome(db, found, x) {
        var i :| 0 <= i < |found| && Brings(db.objects[found[i]], x);
        assert LoadedOf(db, mode, was, asked, found[i]);
      }
      if AlongOf(db, mode, was, asked, x) {
        var y :| LoadedOf(db, mode, was, asked, y) && Brings(db.objects[y], x);
        var i :| 0 <= i < |found| && found[i] == y;
        assert Brings(db.objects[found[i]], x);
      }
    }
    forall x | x in now
      ensures HoldsAs(now[x], was, db, mode, asked, x)
    {
      assert StoredAs(now[x], was, db, found, x);
    }
  }

  /** What is held of an object that was wanted is what it was looked for as: nothing of its
      own kind comes along. */
  lemma HeldAsLookedFor(db: Database, mode: Mode, was: Objects, now: Objects, kind: Kind, ids: seq<string>, x: ID)
    requires db.Valid() && (kind == AppRef || kind == ProjectRef || kind == ProjectEnvRef)
    requires HoldsObjects(now, was, db, mode, OfKind(kind, ids))
    requires x in OfKind(kind, ids) && !Held(was, x)
    ensures LookedFor(db, mode, was, x) == if x in now then Some(now[x]) else None
  {
    if AlongOf(db, mode, was, OfKind(kind, ids), x) {
      var y :| LoadedOf(db, mode, was, OfKind(kind, ids), y) && Brings(db.objects[y], x);
      BroughtIsThere(db, y, x);
    }
    if x in now {
      assert HoldsAs(now[x], was, db, mode, OfKind(kind, ids), x);
    }
  }
}
