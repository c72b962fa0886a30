/** The settings HivePaaS writes for itself: a file replaced as a whole, laid over the
    configuration last, and written before what it says is published. */
module ManagedConfig {
  import opened Wrappers
  import opened FileStores

  const SETTINGS_NAME := "hivepaas.toml"
  /** 0600. */
  const MAX_PERM: bv9 := 0x180

  datatype Error = TooPermissive | Malformed | IOFailed | Unavailable | Unsound

  type Result<+T> = Wrappers.Result<T, Error>

  // ---------------------------------------------------------------- Settings and configuration

  /** The managed file's settings; what it leaves out is None, a secret it leaves out empty. */
  datatype Managed = Managed(
    secret: string, returnSecretsViaAPI: Option<bool>, alwaysReturnSecretTypes: Option<seq<string>>,
    allowPrivilegedApps: Option<bool>, refreshDisabled: Option<bool>)

  const NOTHING_MANAGED := Managed("", None, None, None, None)

  datatype Security = Security(
    returnSecretsViaAPI: bool, alwaysReturnSecretTypes: seq<string>, allowPrivilegedApps: bool)

  /** The loaded configuration, as far as the managed file reaches it; other is the rest. */
  datatype Config = Config(secret: string, security: Security, refreshDisabled: bool, other: string)

  function Or<T>(o: Option<T>, otherwise: T): T {
    if o.Some? then o.value else otherwise
  }

  /** The managed settings laid over a loaded configuration. */
  function Over(m: Managed, c: Config): Config {
    Config(
      if m.secret != "" then m.secret else c.secret,
      Security(Or(m.returnSecretsViaAPI, c.security.returnSecretsViaAPI),
               Or(m.alwaysReturnSecretTypes, c.security.alwaysReturnSecretTypes),
               Or(m.allowPrivilegedApps, c.security.allowPrivilegedApps)),
      Or(m.refreshDisabled, c.refreshDisabled),
      c.other)
  }

  /** What the file leaves out is what base file and environment give ... */
  lemma NothingManagedIsTheBase(c: Config)
    ensures Over(NOTHING_MANAGED, c) == c
  {
  }

  /** ... and what it has, off or empty as it may be, is what it says, and touches no other
      setting. */
  lemma WhatIsManagedWins(m: Managed, c: Config, on: bool, secret: string, types: seq<string>)
    requires secret != ""
    ensures Over(m.(secret := secret), c) == Over(m, c).(secret := secret)
    ensures Over(m.(returnSecretsViaAPI := Some(on)), c)
         == Over(m, c).(security := Over(m, c).security.(returnSecretsViaAPI := on))
    ensures Over(m.(alwaysReturnSecretTypes := Some(types)), c)
         == Over(m, c).(security := Over(m, c).security.(alwaysReturnSecretTypes := types))
    ensures Over(m.(allowPrivilegedApps := Some(on)), c)
         == Over(m, c).(security := Over(m, c).security.(allowPrivilegedApps := on))
    ensures Over(m.(refreshDisabled := Some(on)), c) == Over(m, c).(refreshDisabled := on)
  {
  }

  /** The TOML codec. */
  datatype Codec = Codec(encode: Managed -> string, decode: string -> Option<Managed>)

  ghost predicate RoundTrips(codec: Codec) {
    forall m :: codec.decode(codec.encode(m)) == Some(m)
  }

  function Load(codec: Codec, file: Option<File>): Result<Managed> {
    match file
    case None => Success(NOTHING_MANAGED)
    case Some(f) =>
      if f.mode & !MAX_PERM != 0 then Failure(TooPermissive)
      else
        match codec.decode(f.content)
        case None => Failure(Malformed)
        case Some(m) => Success(m)
  }

  /** A file is read only when nobody but its owner may use it, and that not to run it; one
      that is not there says nothing. */
  lemma OnlyOwnersFilesLoad(codec: Codec, f: File)
    ensures Load(codec, None) == Success(NOTHING_MANAGED)
    ensures Load(codec, Some(f)).Success? <==> f.mode & 0x07F == 0 && codec.decode(f.content).Some?
    ensures Load(codec, Some(f)).Success? ==> Some(Load(codec, Some(f)).value) == codec.decode(f.content)
    ensures f.mode & 0x07F != 0 ==> Load(codec, Some(f)) == Failure(TooPermissive)
  {
    assert !MAX_PERM == 0x07F;
  }

  function FileOf(codec: Codec, m: Managed): File {
    File(codec.encode(m), MAX_PERM)
  }

  lemma WrittenLoads(codec: Codec, m: Managed)
    requires RoundTrips(codec)
    ensures Load(codec, Some(FileOf(codec, m))) == Success(m)
  {
    assert MAX_PERM & !MAX_PERM == 0;
  }

  // ---------------------------------------------------------------- The directory

  /** Which of the system calls of one save fail, and how much a failing write wrote. */
  datatype Faults = Faults(
    create: bool, chmod: bool, write: bool, written: nat, sync: bool, close: bool, rename: bool,
    syncDir: bool, remove: bool)

  /** How a save ends: done; renamed into place, but with the rename not known to be on disk;
      or with the file not written at all. */
  datatype Outcome = Done | Unsynced | Unwritten

  function OutcomeOf(f: Faults): Outcome {
    if f.create || f.chmod || f.write || f.sync || f.close || f.rename then Unwritten
    else if f.syncDir then Unsynced
    else Done
  }

  /** What a save that ends so leaves a crash to leave, of what it might have left before. */
  ghost function After(f: Faults, file: Option<File>, may: iset<Option<File>>): iset<Option<File>> {
    match OutcomeOf(f)
    case Done => iset{file}
    case Unsynced => may + iset{file}
    case Unwritten => may
  }

  /** What the settings file may be after a crash. */
  ghost function MayBe(s: State): iset<Option<File>> {
    iset after | MayHold(s, SETTINGS_NAME, after)
  }

  /** The directory of the app's volume. */
  class AppDirectory {
    var state: State
    /** Every state it was in, between any two system calls. */
    ghost var past: seq<State>

    function Visible(): Option<File>
      reads this
    {
      state.Visible(SETTINGS_NAME)
    }

    /** Since then, a crash could at no moment leave anything but these. */
    ghost predicate HeldOnly(since: nat, files: iset<Option<File>>)
      reads this
    {
      forall i :: since <= i < |past| ==> LeavesOneOf(past[i], SETTINGS_NAME, files)
    }

    constructor (initial: State)
      ensures state == initial && past == []
    {
      state, past := initial, [];
    }

    /** One system call. */
    method Call(next: State)
      modifies this
      ensures state == next && past == old(past) + [old(state)]
    {
      past := past + [state];
      state := next;
    }

    method Crash(after: State)
      requires Reboots(state, after)
      modifies this
      ensures state == after && past == old(past) + [old(state)]
      ensures Visible() in MayBe(old(state)) && LeavesOneOf(state, SETTINGS_NAME, iset{Visible()})
    {
      RebootKeeps(state, after, SETTINGS_NAME, MayBe(state));
      Call(after);
    }

    /** Replaces the settings file. Whichever calls fail, and at whichever moment of the save
        a crash comes, the file is then what it might have been before the save or the whole
        of the new text; after a success only the new. The temporary file does not stay,
        unless removing it fails. */
    method SaveManagedSettings(text: string, temp: string, inode: nat, faults: Faults) returns (ok: bool)
      requires state.Valid()
      requires temp != SETTINGS_NAME && temp !in state.names && inode !in state.inodes
      modifies this
      ensures state.Valid() && old(past) <= past
      ensures HeldOnly(|old(past)|, MayBe(old(state)) + iset{Some(File(text, MAX_PERM))})
      ensures ok <==> OutcomeOf(faults) == Done
      ensures LeavesOneOf(state, SETTINGS_NAME, After(faults, Some(File(text, MAX_PERM)), MayBe(old(state))))
      ensures Visible() == if OutcomeOf(faults) == Unwritten then old(Visible()) else Some(File(text, MAX_PERM))
      ensures ok || !faults.remove ==> state.names.Keys - {SETTINGS_NAME} == old(state).names.Keys - {SETTINGS_NAME}
    {
      if faults.create {
        return false;
      }
      ghost var may := MayBe(state);
      CreatedKeeps(state, temp, inode, MAX_PERM, SETTINGS_NAME, may);
      NameIsGone(state, temp, inode, MAX_PERM, SETTINGS_NAME);
      Call(Created(state, temp, inode, MAX_PERM));
      ok := WriteAndInstall(text, temp, inode, faults, may);
      if !ok && !faults.remove {
        RemoveTemp(temp, After(faults, Some(File(text, MAX_PERM)), may));
      }
    }

    method RemoveTemp(temp: string, ghost files: iset<Option<File>>)
      requires state.Valid() && LeavesOneOf(state, SETTINGS_NAME, files) && temp != SETTINGS_NAME
      modifies this
      ensures state.Valid() && LeavesOneOf(state, SETTINGS_NAME, files) && Visible() == old(Visible())
      ensures past == old(past) + [old(state)] && state.names == old(state).names - {temp}
    {
      RemovedKeeps(state, temp, SETTINGS_NAME, files);
      Call(Removed(state, temp));
    }

    method WriteAndInstall(text: string, temp: string, inode: nat, faults: Faults, ghost may: iset<Option<File>>)
      returns (ok: bool)
      requires state.Valid() && LeavesOneOf(state, SETTINGS_NAME, may)
      requires inode in state.inodes && Private(state, inode, SETTINGS_NAME)
      requires temp != SETTINGS_NAME && temp in state.names && state.names[temp] == inode
      requires state.inodes[inode].file.content == "" && !faults.create
      modifies this
      ensures state.Valid() && old(past) <= past && HeldOnly(|old(past)|, may + iset{Some(File(text, MAX_PERM))})
      ensures ok <==> OutcomeOf(faults) == Done
      ensures LeavesOneOf(state, SETTINGS_NAME, After(faults, Some(File(text, MAX_PERM)), may))
      ensures Visible() == if OutcomeOf(faults) == Unwritten then old(Visible()) else Some(File(text, MAX_PERM))
      ensures state.names == if OutcomeOf(faults) == Unwritten then old(state).names
                             else Renamed(old(state), temp, SETTINGS_NAME).names
    {
      ok := WriteTemp(text, inode, faults, may);
      if ok {
        ok := Install(temp, File(text, MAX_PERM), faults, may);
      }
    }

    /** Renames the temporary file into place, and syncs the directory. */
    method Install(temp: string, file: File, faults: Faults, ghost may: iset<Option<File>>) returns (ok: bool)
      requires state.Valid() && LeavesOneOf(state, SETTINGS_NAME, may)
      requires temp != SETTINGS_NAME && temp in state.names
      requires state.names[temp] in state.inodes && state.inodes[state.names[temp]] == Inode(file, true)
      modifies this
      ensures state.Valid() && old(past) <= past && HeldOnly(|old(past)|, may + iset{Some(file)})
      ensures ok <==> !(faults.rename || faults.syncDir)
      ensures faults.rename ==> state == old(state)
      ensures !faults.rename ==>
                && Visible() == Some(file) && state.names == Renamed(old(state), temp, SETTINGS_NAME).names
                && LeavesOneOf(state, SETTINGS_NAME, if ok then iset{Some(file)} else may + iset{Some(file)})
    {
      if faults.rename {
        return false;
      }
      RenamedKeeps(state, temp, SETTINGS_NAME, may);
      Call(Renamed(state, temp, SETTINGS_NAME));
      if faults.syncDir {
        return false;
      }
      DirSyncedSettles(state, SETTINGS_NAME);
      Call(DirSynced(state));
      return true;
    }

    /** Restricts, writes, syncs and closes the temporary file. */
    method WriteTemp(text: string, inode: nat, faults: Faults, ghost may: iset<Option<File>>) returns (ok: bool)
      requires state.Valid() && LeavesOneOf(state, SETTINGS_NAME, may)
      requires inode in state.inodes && Private(state, inode, SETTINGS_NAME)
      requires state.inodes[inode].file.content == ""
      modifies this
      ensures state.Valid() && old(past) <= past && HeldOnly(|old(past)|, may)
      ensures LeavesOneOf(state, SETTINGS_NAME, may)
      ensures Visible() == old(Visible()) && state.names == old(state).names
      ensures ok <==> !(faults.chmod || faults.write || faults.sync || faults.close)
      ensures ok ==> inode in state.inodes && state.inodes[inode] == Inode(File(text, MAX_PERM), true)
    {
      if faults.chmod {
        return false;
      }
      ChangedKeeps(state, inode, File("", MAX_PERM), SETTINGS_NAME, may);
      Call(Changed(state, inode, File("", MAX_PERM)));
      var content := if faults.write && faults.written <= |text| then text[..faults.written] else text;
      ChangedKeeps(state, inode, File(content, MAX_PERM), SETTINGS_NAME, may);
      Call(Changed(state, inode, File(content, MAX_PERM)));
      if faults.write || faults.sync {
        return false;
      }
      SyncedKeeps(state, inode, SETTINGS_NAME, may);
      Call(Synced(state, inode));
      return !faults.close;
    }
  }

  // ---------------------------------------------------------------- Changes

  datatype Change = SaveSecret(secret: string) | SaveSecurity(security: Security)

  /** What a change does to the managed settings; the license flag is carried over. */
  function Modified(m: Managed, change: Change): Managed {
    match change
    case SaveSecret(secret) => m.(secret := secret)
    case SaveSecurity(s) =>
      m.(returnSecretsViaAPI := Some(s.returnSecretsViaAPI),
         alwaysReturnSecretTypes := Some(s.alwaysReturnSecretTypes),
         allowPrivilegedApps := Some(s.allowPrivilegedApps))
  }

  /** What is published for a change. */
  function Published(c: Config, change: Change): Config {
    match change
    case SaveSecret(secret) => c.(secret := secret)
    case SaveSecurity(s) => c.(security := s)
  }

  function AllModified(m: Managed, changes: seq<Change>): Managed
    decreases |changes|
  {
    if changes == [] then m
    else Modified(AllModified(m, changes[..|changes| - 1]), changes[|changes| - 1])
  }

  function AllPublished(c: Config, changes: seq<Change>): Config
    decreases |changes|
  {
    if changes == [] then c
    else Published(AllPublished(c, changes[..|changes| - 1]), changes[|changes| - 1])
  }

  lemma {:induction false} ModifiedAppend(m: Managed, a: seq<Change>, b: seq<Change>)
    ensures AllModified(m, a + b) == AllModified(AllModified(m, a), b)
  {
    if b == [] {
      assert a + b == a;
    } else {
      assert (a + b)[..|a + b| - 1] == a + b[..|b| - 1];
      ModifiedAppend(m, a, b[..|b| - 1]);
    }
  }

  // ---------------------------------------------------------------- The installation

  /** An installation from outside: the managed settings known to be on disk, the changes
      written over them since that a crash may take back, latest first, and the configuration
      in force, if the process has loaded one. */
  datatype System = System(settled: Managed, pending: seq<Change>, current: Option<Config>)
  {
    function OnFile(): Managed {
      AllModified(settled, pending)
    }

    predicate Accepts(change: Change) {
      current.Some? && (change.SaveSecret? ==> change.secret != "")
    }
  }

  /** A save, and how it ends; a crash, and how many of the pending changes it leaves; a load
      that succeeds, and what base file and environment give. */
  datatype Event = Save(change: Change, outcome: Outcome) | Crash(kept: nat) | Reload(base: Config)

  function Next(sys: System, e: Event): System {
    match e
    case Save(c, outcome) =>
      if !sys.Accepts(c) then sys
      else
        (match outcome
         case Done => System(Modified(sys.OnFile(), c), [], Some(Published(sys.current.value, c)))
         case Unsynced => sys.(pending := sys.pending + [c])
         case Unwritten => sys)
    case Crash(kept) =>
      System(if kept <= |sys.pending| then AllModified(sys.settled, sys.pending[..kept]) else sys.OnFile(), [], None)
    case Reload(base) => sys.(current := Some(Over(sys.OnFile(), base)))
  }

  /** What one save needs of the file system: a name and an inode not in use, and its faults. */
  datatype Attempt = Attempt(temp: string, inode: nat, faults: Faults)

  ghost predicate Possible(dir: AppDirectory, a: Attempt)
    reads dir
  {
    a.temp != SETTINGS_NAME && a.temp !in dir.state.names && a.inode !in dir.state.inodes
  }

  /** The files that say what the system has on disk, with some of what is pending. */
  ghost function Candidates(codec: Codec, sys: System): iset<Option<File>> {
    iset f: Option<File> |
      exists k :: 0 <= k <= |sys.pending| && Load(codec, f) == Success(AllModified(sys.settled, sys.pending[..k]))
  }

  lemma CandidatesOfPending(codec: Codec, sys: System, c: Change)
    requires RoundTrips(codec)
    ensures var more := sys.(pending := sys.pending + [c]);
            && Candidates(codec, sys) <= Candidates(codec, more)
            && more.OnFile() == Modified(sys.OnFile(), c)
            && Some(FileOf(codec, more.OnFile())) in Candidates(codec, more)
  {
    var more := sys.(pending := sys.pending + [c]);
    assert more.pending[..|sys.pending|] == sys.pending;
    forall f | f in Candidates(codec, sys)
      ensures f in Candidates(codec, more)
    {
      var k :| 0 <= k <= |sys.pending| && Load(codec, f) == Success(AllModified(sys.settled, sys.pending[..k]));
      assert more.pending[..k] == sys.pending[..k];
    }
    WrittenLoads(codec, more.OnFile());
    assert more.pending[..|more.pending|] == more.pending;
  }

  lemma CandidatesOfSettled(codec: Codec, sys: System, f: Option<File>)
    requires sys.pending == [] && Load(codec, f) == Success(sys.settled)
    ensures f in Candidates(codec, sys)
  {
    assert sys.pending[..0] == [];
  }

  class Installation {
    const dir: AppDirectory
    const codec: Codec
    /** The configuration in force, replaced as a whole; none before the first load. */
    var current: Option<Config>

    constructor (dir: AppDirectory, codec: Codec)
      ensures this.dir == dir && this.codec == codec && current == None
    {
      this.dir, this.codec, this.current := dir, codec, None;
    }

    function Saved(): Result<Managed>
      reads dir
    {
      Load(codec, dir.Visible())
    }

    ghost predicate Represents(sys: System)
      reads this, dir
    {
      && current == sys.current
      && dir.state.Valid()
      && Saved() == Success(sys.OnFile())
      && LeavesOneOf(dir.state, SETTINGS_NAME, Candidates(codec, sys))
    }

    /** Reads, modifies, writes. What cannot be read is not written over. At whichever moment
        a crash comes the file is what it might have been before, or the whole of the modified
        settings. */
    method UpdateManagedSettings(change: Change, a: Attempt) returns (r: Result<()>)
      requires dir.state.Valid() && RoundTrips(codec) && Possible(dir, a)
      modifies dir
      ensures dir.state.Valid() && old(dir.past) <= dir.past
      ensures old(Saved()).Failure? ==>
                r == Failure(old(Saved()).error) && dir.state == old(dir.state) && dir.past == old(dir.past)
      ensures old(Saved()).Success? ==>
                var file := Some(FileOf(codec, Modified(old(Saved()).value, change)));
                && dir.HeldOnly(|old(dir.past)|, MayBe(old(dir.state)) + iset{file})
                && (r.Success? <==> OutcomeOf(a.faults) == Done)
                && LeavesOneOf(dir.state, SETTINGS_NAME, After(a.faults, file, MayBe(old(dir.state))))
                && dir.Visible() == if OutcomeOf(a.faults) == Unwritten then old(dir.Visible()) else file
    {
      var loaded := Load(codec, dir.Visible());
      if loaded.Failure? {
        return Failure(loaded.error);
      }
      var m := Modified(loaded.value, change);
      var ok := dir.SaveManagedSettings(codec.encode(m), a.temp, a.inode, a.faults);
      return if ok then Success(()) else Failure(IOFailed);
    }

    /** Persists a change, then publishes it on a copy of the configuration in force. */
    method SaveChange(change: Change, a: Attempt, ghost sys: System) returns (r: Result<()>)
      requires dir.state.Valid() && RoundTrips(codec) && Possible(dir, a)
      requires current.Some? && (change.SaveSecret? ==> change.secret != "")
      modifies this, dir
      ensures dir.state.Valid() && old(dir.past) <= dir.past
      ensures dir.HeldOnly(|old(dir.past)|, MayBe(old(dir.state)) + (if old(Saved()).Success?
                then iset{Some(FileOf(codec, Modified(old(Saved()).value, change)))} else iset{}))
      ensures r.Success? <==> old(Saved()).Success? && OutcomeOf(a.faults) == Done
      ensures current == if r.Success? then Some(Published(old(current).value, change)) else old(current)
      ensures old(Represents(sys)) ==> Represents(Next(sys, Save(change, OutcomeOf(a.faults))))
    {
      r := UpdateManagedSettings(change, a);
      if r.Success? {
        current := Some(match change
                        case SaveSecret(secret) => current.value.(secret := secret)
                        case SaveSecurity(security) => current.value.(security := security));
      }
      if old(Represents(sys)) {
        CandidatesOfPending(codec, sys, change);
        var settled := System(Modified(sys.OnFile(), change), [], current);
        WrittenLoads(codec, settled.settled);
        CandidatesOfSettled(codec, settled, Some(FileOf(codec, settled.settled)));
      }
    }

    method SaveAppSecret(newSecret: string, a: Attempt, ghost sys: System) returns (r: Result<()>)
      requires dir.state.Valid() && RoundTrips(codec) && Possible(dir, a)
      modifies this, dir
      ensures dir.state.Valid() && old(dir.past) <= dir.past
      ensures old(current).None? || newSecret == "" ==>
                r == Failure(Unavailable) && dir.state == old(dir.state) && dir.past == old(dir.past)
      ensures dir.HeldOnly(|old(dir.past)|, MayBe(old(dir.state)) + (if old(Saved()).Success?
                then iset{Some(FileOf(codec, Modified(old(Saved()).value, SaveSecret(newSecret))))} else iset{}))
      ensures r.Success? ==> old(current).Some? && current == Some(Published(old(current).value, SaveSecret(newSecret)))
      ensures r.Failure? ==> current == old(current)
      ensures old(Represents(sys)) ==> Represents(Next(sys, Save(SaveSecret(newSecret), OutcomeOf(a.faults))))
    {
      if current.None? || newSecret == "" {
        return Failure(Unavailable);
      }
      r := SaveChange(SaveSecret(newSecret), a, sys);
    }

    method SaveSecuritySettings(security: Option<Security>, a: Attempt, ghost sys: System) returns (r: Result<()>)
      requires dir.state.Valid() && RoundTrips(codec) && Possible(dir, a)
      modifies this, dir
      ensures dir.state.Valid() && old(dir.past) <= dir.past
      ensures old(current).None? || security.None? ==>
                r == Failure(Unavailable) && dir.state == old(dir.state) && dir.past == old(dir.past)
      ensures security.Some? ==>
                dir.HeldOnly(|old(dir.past)|, MayBe(old(dir.state)) + (if old(Saved()).Success?
                  then iset{Some(FileOf(codec, Modified(old(Saved()).value, SaveSecurity(security.value))))}
                  else iset{}))
      ensures r.Success? ==>
                && old(current).Some? && security.Some?
                && current == Some(Published(old(current).value, SaveSecurity(security.value)))
      ensures r.Failure? ==> current == old(current)
      ensures old(Represents(sys)) && security.Some? ==>
                Represents(Next(sys, Save(SaveSecurity(security.value), OutcomeOf(a.faults))))
    {
      if current.None? || security.None? {
        return Failure(Unavailable);
      }
      r := SaveChange(SaveSecurity(security.value), a, sys);
    }

    /** Loads what the base file and the environment give, if they do, lays the managed file
        over, and publishes what passes the other checks a load makes. */
    method Reload(base: Option<Config>, sound: Config -> bool, ghost sys: System) returns (r: Result<()>)
      modifies this
      ensures r.Success? <==> base.Some? && Saved().Success? && sound(Over(Saved().value, base.value))
      ensures current == if r.Success? then Some(Over(Saved().value, base.value)) else old(current)
      ensures old(Represents(sys)) ==> Represents(if r.Success? then Next(sys, Event.Reload(base.value)) else sys)
    {
      if base.None? {
        return Failure(IOFailed);
      }
      var loaded := Load(codec, dir.Visible());
      if loaded.Failure? {
        return Failure(loaded.error);
      }
      var config := Over(loaded.value, base.value);
      if !sound(config) {
        return Failure(Unsound);
      }
      current := Some(config);
      return Success(());
    }

    /** The machine goes down, and comes up with no configuration loaded. */
    method Crash(after: State, ghost sys: System) returns (ghost kept: nat)
      requires dir.state.Valid() && Reboots(dir.state, after)
      modifies this, dir
      ensures dir.Visible() in MayBe(old(dir.state)) && current == None
      ensures old(Represents(sys)) ==> kept <= |sys.pending| && Represents(Next(sys, Event.Crash(kept)))
    {
      kept := 0;
      dir.Crash(after);
      current := None;
      if old(Represents(sys)) {
        assert dir.Visible() in Candidates(codec, sys);
        kept :| 0 <= kept <= |sys.pending|
             && Load(codec, dir.Visible()) == Success(AllModified(sys.settled, sys.pending[..kept]));
        CandidatesOfSettled(codec, Next(sys, Event.Crash(kept)), dir.Visible());
      }
    }
  }

  /** A crash within a save leaves what one does that comes after it ended unsynced. */
  lemma CrashWithinASave(codec: Codec, sys: System, change: Change, after: Option<File>)
    requires RoundTrips(codec) && sys.Accepts(change)
    requires after in Candidates(codec, sys) + iset{Some(FileOf(codec, Modified(sys.OnFile(), change)))}
    ensures after in Candidates(codec, Next(sys, Save(change, Unsynced)))
  {
    CandidatesOfPending(codec, sys, change);
  }

  // ---------------------------------------------------------------- Whole runs

  function Run(sys: System, events: seq<Event>): System
    decreases |events|
  {
    if events == [] then sys else Next(Run(sys, events[..|events| - 1]), events[|events| - 1])
  }

  function LastSecret(changes: seq<Change>): Option<string>
    decreases |changes|
  {
    if changes == [] then None
    else if changes[|changes| - 1].SaveSecret? then Some(changes[|changes| - 1].secret)
    else LastSecret(changes[..|changes| - 1])
  }

  function LastSecurity(changes: seq<Change>): Option<Security>
    decreases |changes|
  {
    if changes == [] then None
    else if changes[|changes| - 1].SaveSecurity? then Some(changes[|changes| - 1].security)
    else LastSecurity(changes[..|changes| - 1])
  }

  /** No save is of an empty secret: such a one is refused. */
  predicate Accepted(changes: seq<Change>) {
    forall c :: c in changes && c.SaveSecret? ==> c.secret != ""
  }

  lemma {:induction false} PublishedLast(c: Config, changes: seq<Change>)
    ensures AllPublished(c, changes) ==
              c.(secret := Or(LastSecret(changes), c.secret), security := Or(LastSecurity(changes), c.security))
  {
    if changes != [] {
      PublishedLast(c, changes[..|changes| - 1]);
    }
  }

  /** Saving and overlaying commute: laid over a base, saved changes are published changes. */
  lemma {:induction false} OverModified(m: Managed, base: Config, changes: seq<Change>)
    requires Accepted(changes)
    ensures Over(AllModified(m, changes), base) == AllPublished(Over(m, base), changes)
    ensures AllModified(m, changes).refreshDisabled == m.refreshDisabled
  {
    if changes != [] {
      var n := |changes| - 1;
      assert changes[n] in changes;
      assert forall c :: c in changes[..n] ==> c in changes;
      OverModified(m, base, changes[..n]);
    }
  }

  /** Of a run of saves, the changes that reached the file, and of them those published. */
  function Written(saves: seq<Event>): seq<Change>
    decreases |saves|
  {
    if saves == [] then []
    else
      var before, last := Written(saves[..|saves| - 1]), saves[|saves| - 1];
      if Writes(last) then before + [last.change] else before
  }

  predicate Writes(e: Event) {
    e.Save? && e.outcome != Unwritten && (e.change.SaveSecret? ==> e.change.secret != "")
  }

  function Completed(saves: seq<Event>): seq<Change>
    decreases |saves|
  {
    if saves == [] then []
    else
      var before, last := Completed(saves[..|saves| - 1]), saves[|saves| - 1];
      if Writes(last) && last.outcome == Done then before + [last.change] else before
  }

  lemma {:induction false} SavesOnly(sys: System, saves: seq<Event>)
    requires sys.current.Some? && forall e :: e in saves ==> e.Save?
    ensures Run(sys, saves).OnFile() == AllModified(sys.OnFile(), Written(saves))
    ensures Run(sys, saves).current == Some(AllPublished(sys.current.value, Completed(saves)))
    ensures Accepted(Written(saves)) && Accepted(Completed(saves))
    decreases |saves|
  {
    if saves != [] {
      var n := |saves| - 1;
      assert saves[n] in saves;
      assert forall e :: e in saves[..n] ==> e in saves;
      SavesOnly(sys, saves[..n]);
      OneSaveWritten(Run(sys, saves[..n]), saves[n], sys.OnFile(), Written(saves[..n]));
      OneSavePublished(Run(sys, saves[..n]), saves[n], sys.current.value, Completed(saves[..n]));
    }
  }

  lemma OneSaveWritten(sys: System, e: Event, m: Managed, written: seq<Change>)
    requires e.Save? && sys.current.Some? && sys.OnFile() == AllModified(m, written) && Accepted(written)
    ensures Writes(e) ==>
              Next(sys, e).OnFile() == AllModified(m, written + [e.change]) && Accepted(written + [e.change])
    ensures !Writes(e) ==> Next(sys, e) == sys
  {
    if Writes(e) {
      OneMore(m, written, e.change);
      OneMore(sys.settled, sys.pending, e.change);
      assert Accepted([e.change]);
    }
  }

  lemma OneSavePublished(sys: System, e: Event, c: Config, completed: seq<Change>)
    requires e.Save? && sys.current == Some(AllPublished(c, completed)) && Accepted(completed)
    ensures Writes(e) && e.outcome == Done ==>
              && Next(sys, e).current == Some(AllPublished(c, completed + [e.change]))
              && Accepted(completed + [e.change])
    ensures !(Writes(e) && e.outcome == Done) ==> Next(sys, e).current == sys.current
  {
    if Writes(e) && e.outcome == Done {
      var all := completed + [e.change];
      assert all[..|all| - 1] == completed;
      assert forall x :: x in all <==> x in completed || x == e.change;
    }
  }

  lemma OneMore(m: Managed, changes: seq<Change>, change: Change)
    ensures AllModified(m, changes + [change]) == Modified(AllModified(m, changes), change)
    ensures Accepted(changes + [change]) <==> Accepted(changes) && Accepted([change])
  {
    var all := changes + [change];
    assert all[..|all| - 1] == changes;
    assert forall x :: x in all <==> x in changes || x == change;
    assert change in [change];
  }

  /** After a load, and whatever saves since, a reload from the same base gives what is
      published exactly when the last of each kind that reached the file was published, or
      says what is published anyway. One that failed as the directory was synced did reach
      the file, and was not published. */
  lemma ReloadGivesWhatWasPublishedIff(sys: System, base: Config, saves: seq<Event>)
    requires forall e :: e in saves ==> e.Save?
    ensures var loaded := Next(sys, Reload(base));
            var end := Run(loaded, saves);
            var c := loaded.current.value;
            && end.current.Some?
            && (Next(end, Reload(base)).current == end.current
                <==> && Or(LastSecret(Written(saves)), c.secret) == Or(LastSecret(Completed(saves)), c.secret)
                     && Or(LastSecurity(Written(saves)), c.security) == Or(LastSecurity(Completed(saves)), c.security))
  {
    var loaded := Next(sys, Reload(base));
    var c := loaded.current.value;
    SavesOnly(loaded, saves);
    OverModified(loaded.OnFile(), base, Written(saves));
    PublishedLast(c, Written(saves));
    PublishedLast(c, Completed(saves));
  }

  /** So where no save failed as the directory was synced, it does. */
  lemma {:induction false} WithoutUnsyncedAllIsPublished(saves: seq<Event>)
    requires forall e :: e in saves ==> e.Save? && e.outcome != Unsynced
    ensures Written(saves) == Completed(saves)
  {
    if saves != [] {
      assert saves[|saves| - 1] in saves;
      assert forall e :: e in saves[..|saves| - 1] ==> e in saves;
      WithoutUnsyncedAllIsPublished(saves[..|saves| - 1]);
    }
  }

  /** And one failing so, of another secret, is enough for it not to. */
  lemma UnsyncedSecretIsNotPublished(sys: System, base: Config, secret: string)
    requires secret != "" && secret != Over(sys.OnFile(), base).secret
    ensures var loaded := Next(sys, Reload(base));
            var end := Next(loaded, Save(SaveSecret(secret), Unsynced));
            end.current == loaded.current && Next(end, Reload(base)).current.value.secret == secret
  {
    var loaded := Next(sys, Reload(base));
    assert (loaded.pending + [SaveSecret(secret)])[..|loaded.pending|] == loaded.pending;
  }

  /** The changes a run leaves on disk, and those a crash may still take back. */
  datatype Log = Log(settled: seq<Change>, pending: seq<Change>, up: bool)

  function NextLog(log: Log, e: Event): Log {
    match e
    case Save(c, outcome) =>
      if !log.up || !Writes(e) then log
      else if outcome == Done then log.(settled := log.settled + log.pending + [c], pending := [])
      else log.(pending := log.pending + [c])
    case Crash(kept) =>
      Log(log.settled + if kept <= |log.pending| then log.pending[..kept] else log.pending, [], false)
    case Reload(_) => log.(up := true)
  }

  function LogOf(log: Log, events: seq<Event>): Log
    decreases |events|
  {
    if events == [] then log else NextLog(LogOf(log, events[..|events| - 1]), events[|events| - 1])
  }

  /** The changes a run leaves in the file. */
  function Kept(up: bool, events: seq<Event>): seq<Change> {
    var log := LogOf(Log([], [], up), events);
    log.settled + log.pending
  }

  /** A log tells of a run that began with m on disk. */
  predicate Tells(log: Log, m: Managed, sys: System) {
    && sys.settled == AllModified(m, log.settled) && sys.pending == log.pending
    && log.up == sys.current.Some?
    && Accepted(log.settled) && Accepted(log.pending)
  }

  lemma AcceptedBoth(a: seq<Change>, b: seq<Change>)
    requires Accepted(a) && Accepted(b)
    ensures Accepted(a + b)
  {
  }

  lemma AcceptedPart(a: seq<Change>, n: nat)
    requires Accepted(a) && n <= |a|
    ensures Accepted(a[..n])
  {
  }

  lemma SaveTells(log: Log, m: Managed, sys: System, c: Change, outcome: Outcome)
    requires Tells(log, m, sys)
    ensures Tells(NextLog(log, Save(c, outcome)), m, Next(sys, Save(c, outcome)))
  {
    if log.up && Writes(Save(c, outcome)) {
      var all := log.settled + log.pending;
      ModifiedAppend(m, log.settled, log.pending);
      OneMore(m, all, c);
      AcceptedBoth(log.settled, log.pending);
      assert Accepted([c]);
      AcceptedBoth(log.pending, [c]);
    }
  }

  lemma CrashTells(log: Log, m: Managed, sys: System, kept: nat)
    requires Tells(log, m, sys)
    ensures Tells(NextLog(log, Crash(kept)), m, Next(sys, Crash(kept)))
  {
    var rest := if kept <= |log.pending| then log.pending[..kept] else log.pending;
    AcceptedPart(log.pending, |rest|);
    ModifiedAppend(m, log.settled, rest);
    AcceptedBoth(log.settled, rest);
  }

  lemma NextTells(log: Log, m: Managed, sys: System, e: Event)
    requires Tells(log, m, sys)
    ensures Tells(NextLog(log, e), m, Next(sys, e))
  {
    match e
    case Save(c, outcome) => SaveTells(log, m, sys, c, outcome);
    case Crash(kept) => CrashTells(log, m, sys, kept);
    case Reload(_) =>
  }

  lemma {:induction false} RunIsLogged(log: Log, m: Managed, sys: System, events: seq<Event>)
    requires Tells(log, m, sys)
    ensures Tells(LogOf(log, events), m, Run(sys, events))
    decreases |events|
  {
    if events != [] {
      RunIsLogged(log, m, sys, events[..|events| - 1]);
      NextTells(LogOf(log, events[..|events| - 1]), m, Run(sys, events[..|events| - 1]), events[|events| - 1]);
    }
  }

  /** Over any run of saves however they end, crashes and reloads, a reload from whatever base
      gives the last security kept, what is off or empty in it included, the last secret kept,
      and the license flag of the file as it was written by hand. */
  lemma ReloadGivesTheLastKept(sys: System, base: Config, events: seq<Event>)
    requires sys.pending == []
    ensures var kept := Kept(sys.current.Some?, events);
            var c := Next(Run(sys, events), Reload(base)).current.value;
            var before := Over(sys.settled, base);
            && c.security == Or(LastSecurity(kept), before.security)
            && c.secret == Or(LastSecret(kept), before.secret)
            && c.refreshDisabled == before.refreshDisabled
            && c.other == base.other
            && Run(sys, events).OnFile().refreshDisabled == sys.settled.refreshDisabled
            && (sys.settled.refreshDisabled == None ==> c.refreshDisabled == base.refreshDisabled)
            && (sys.settled.refreshDisabled != None ==> Some(c.refreshDisabled) == sys.settled.refreshDisabled)
            && (sys.settled == NOTHING_MANAGED ==> before == base)
  {
    var log := Log([], [], sys.current.Some?);
    RunIsLogged(log, sys.settled, sys, events);
    var end := LogOf(log, events);
    ModifiedAppend(sys.settled, end.settled, end.pending);
    OverModified(sys.settled, base, end.settled + end.pending);
    PublishedLast(Over(sys.settled, base), end.settled + end.pending);
  }

  /** What is settled stays, whatever comes after: a save that returned success is not taken
      back by any crash. */
  lemma {:induction false} SettledStays(log: Log, events: seq<Event>)
    ensures log.settled <= LogOf(log, events).settled
    decreases |events|
  {
    if events != [] {
      SettledStays(log, events[..|events| - 1]);
    }
  }

  lemma {:induction false} LogAppend(log: Log, a: seq<Event>, b: seq<Event>)
    ensures LogOf(log, a + b) == LogOf(LogOf(log, a), b)
    decreases |b|
  {
    if b == [] {
      assert a + b == a;
    } else {
      assert (a + b)[..|a + b| - 1] == a + b[..|b| - 1];
      LogAppend(log, a, b[..|b| - 1]);
    }
  }

  lemma DoneIsKept(up: bool, before: seq<Event>, change: Change, after: seq<Event>)
    requires LogOf(Log([], [], up), before).up && Writes(Save(change, Done))
    ensures Kept(up, before) + [change] <= Kept(up, before + [Save(change, Done)] + after)
  {
    var log := Log([], [], up);
    var done := before + [Save(change, Done)];
    assert done[..|done| - 1] == before;
    LogAppend(log, done, after);
    SettledStays(LogOf(log, done), after);
    assert LogOf(log, done).settled == Kept(up, before) + [change];
  }

  // ---------------------------------------------------------------- Comparing security settings

  function ToSet(s: seq<string>): set<string> {
    set x | x in s
  }

  predicate Unique(s: seq<string>) {
    forall i, j :: 0 <= i < j < |s| ==> s[i] != s[j]
  }

  lemma {:induction false} UniqueSize(s: seq<string>)
    requires Unique(s)
    ensures |ToSet(s)| == |s|
  {
    if s != [] {
      var t := s[..|s| - 1];
      UniqueSize(t);
      assert ToSet(s) == ToSet(t) + {s[|s| - 1]};
      assert s[|s| - 1] !in t;
    }
  }

  lemma SubsetOfSameSize(a: set<string>, b: set<string>)
    requires a <= b && |a| == |b|
    ensures a == b
  {
    assert b == a + (b - a);
    assert |b| == |a| + |b - a|;
  }

  lemma ToSetAppend(s: seq<string>, x: string)
    ensures ToSet(s + [x]) == ToSet(s) + {x}
  {
    assert forall y :: y in s + [x] <==> y in s || y == x;
  }

  /** The members of a list, each once. */
  method Deduplicate(s: seq<string>) returns (r: seq<string>)
    ensures Unique(r) && ToSet(r) == ToSet(s)
  {
    r := [];
    for i := 0 to |s|
      invariant Unique(r) && ToSet(r) == ToSet(s[..i])
    {
      assert s[..i + 1] == s[..i] + [s[i]];
      ToSetAppend(s[..i], s[i]);
      ToSetAppend(r, s[i]);
      if s[i] !in r {
        r := r + [s[i]];
      } else {
        assert s[i] in ToSet(r);
      }
    }
    assert s[..|s|] == s;
  }

  /** The same flags, and the same exemptions in lists of one length. */
  predicate SaysSame(a: Security, b: Security) {
    && a.returnSecretsViaAPI == b.returnSecretsViaAPI
    && a.allowPrivilegedApps == b.allowPrivilegedApps
    && ToSet(a.alwaysReturnSecretTypes) == ToSet(b.alwaysReturnSecretTypes)
    && |a.alwaysReturnSecretTypes| == |b.alwaysReturnSecretTypes|
  }

  /** Whether two sets of security settings say the same. */
  method Equal(a: Security, b: Security) returns (r: bool)
    ensures r <==> SaysSame(a, b)
  {
    if a.returnSecretsViaAPI != b.returnSecretsViaAPI || a.allowPrivilegedApps != b.allowPrivilegedApps {
      return false;
    }
    if |a.alwaysReturnSecretTypes| != |b.alwaysReturnSecretTypes| {
      return false;
    }
    var mine := Deduplicate(a.alwaysReturnSecretTypes);
    var theirs := Deduplicate(b.alwaysReturnSecretTypes);
    UniqueSize(mine);
    UniqueSize(theirs);
    if |mine| != |theirs| {
      return false;
    }
    for i := 0 to |mine|
      invariant forall j :: 0 <= j < i ==> mine[j] in theirs
    {
      if mine[i] !in theirs {
        assert mine[i] in ToSet(mine) && mine[i] !in ToSet(theirs);
        return false;
      }
    }
    assert ToSet(mine) <= ToSet(theirs);
    SubsetOfSameSize(ToSet(mine), ToSet(theirs));
    return true;
  }

  /** Whether a kind of secret may be returned. */
  predicate AllowsSecretType(s: Security, secretType: string) {
    s.returnSecretsViaAPI || (secretType != "" && secretType in s.alwaysReturnSecretTypes)
  }

  /** With the flag every kind may be returned, and without it just the kinds exempted; an
      unnamed one, as every stored setting is, then never. */
  lemma AllowedKinds(s: Security, secretType: string)
    ensures s.returnSecretsViaAPI ==> AllowsSecretType(s, secretType)
    ensures !s.returnSecretsViaAPI ==> !AllowsSecretType(s, "")
    ensures !s.returnSecretsViaAPI && secretType != "" ==>
              (AllowsSecretType(s, secretType) <==> secretType in ToSet(s.alwaysReturnSecretTypes))
  {
  }

  /** Whether two sets of security settings answer every question alike. */
  ghost predicate AllowAlike(a: Security, b: Security) {
    forall t :: AllowsSecretType(a, t) <==> AllowsSecretType(b, t)
  }

  /** What settings allow is their exemptions as a set, the unnamed kind apart. */
  lemma AllowAlikeIff(a: Security, b: Security)
    ensures AllowAlike(a, b) <==>
              if a.returnSecretsViaAPI || b.returnSecretsViaAPI then a.returnSecretsViaAPI && b.returnSecretsViaAPI
              else ToSet(a.alwaysReturnSecretTypes) - {""} == ToSet(b.alwaysReturnSecretTypes) - {""}
  {
    assert AllowsSecretType(a, "") == a.returnSecretsViaAPI && AllowsSecretType(b, "") == b.returnSecretsViaAPI;
    if AllowAlike(a, b) && !a.returnSecretsViaAPI {
      forall t
        ensures t in ToSet(a.alwaysReturnSecretTypes) - {""} <==> t in ToSet(b.alwaysReturnSecretTypes) - {""}
      {
        assert AllowsSecretType(a, t) <==> AllowsSecretType(b, t);
      }
    }
    if !a.returnSecretsViaAPI && !b.returnSecretsViaAPI
      && ToSet(a.alwaysReturnSecretTypes) - {""} == ToSet(b.alwaysReturnSecretTypes) - {""} {
      forall t
        ensures AllowsSecretType(a, t) <==> AllowsSecretType(b, t)
      {
        assert t in ToSet(a.alwaysReturnSecretTypes) - {""} <==> t in ToSet(b.alwaysReturnSecretTypes) - {""};
      }
    }
  }

  /** Settings that compare equal allow alike ... */
  lemma EqualAllowsAlike(a: Security, b: Security)
    requires SaysSame(a, b)
    ensures AllowAlike(a, b) && a.allowPrivilegedApps == b.allowPrivilegedApps
  {
    AllowAlikeIff(a, b);
  }

  /** ... and those that do not may, too: an exemption listed twice is a difference. */
  lemma RepeatedExemptionDiffers(secretType: string)
    ensures var a := Security(false, [secretType, secretType], false);
            var b := Security(false, [secretType], false);
            AllowAlike(a, b) && !SaysSame(a, b)
  {
    var a := Security(false, [secretType, secretType], false);
    var b := Security(false, [secretType], false);
    assert ToSet(a.alwaysReturnSecretTypes) == ToSet(b.alwaysReturnSecretTypes);
    AllowAlikeIff(a, b);
  }
}
