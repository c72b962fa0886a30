/** The directory the managed settings file is in: what a running system sees of it, and
    what a crash may leave of it. */
module FileStores {
  import opened Wrappers

  /** A file's bytes and permissions. */
  datatype File = File(content: string, mode: bv9)

  /** A file as the system has it, and whether that is what is on disk. */
  datatype Inode = Inode(file: File, synced: bool)

  type Directory = map<string, nat>

  /** The files, the directory as the running system sees it, and every directory since the
      last one known to be on disk: a crash may bring back an entry of any of them. */
  datatype State = State(inodes: map<nat, Inode>, names: Directory, history: seq<Directory>)
  {
    ghost predicate Valid() {
      && history != [] && history[|history| - 1] == names
      && (forall i, name :: 0 <= i < |history| && name in history[i] ==> history[i][name] in inodes)
    }

    /** What a running process reads at a name. */
    function Visible(name: string): Option<File> {
      if name in names && names[name] in inodes then Some(inodes[names[name]].file) else None
    }
  }

  /** After a crash the name may hold this: the file of an entry of any directory not yet
      replaced on disk, as written if it was synced, and anything at all if not. */
  ghost predicate MayHold(s: State, name: string, after: Option<File>) {
    exists i :: 0 <= i < |s.history| && Brings(s, s.history[i], name, after)
  }

  ghost predicate Brings(s: State, d: Directory, name: string, after: Option<File>) {
    if name !in d then after == None
    else
      && after.Some? && d[name] in s.inodes
      && (s.inodes[d[name]].synced ==> after.value == s.inodes[d[name]].file)
  }

  /** Whatever a crash leaves at the name is one of these. */
  ghost predicate LeavesOneOf(s: State, name: string, files: iset<Option<File>>) {
    forall after :: MayHold(s, name, after) ==> after in files
  }

  // ---------------------------------------------------------------- The system calls

  function Created(s: State, name: string, inode: nat, mode: bv9): State {
    var names := s.names[name := inode];
    State(s.inodes[inode := Inode(File("", mode), false)], names, s.history + [names])
  }

  function Changed(s: State, inode: nat, file: File): State {
    s.(inodes := s.inodes[inode := Inode(file, false)])
  }

  function Synced(s: State, inode: nat): State
    requires inode in s.inodes
  {
    s.(inodes := s.inodes[inode := s.inodes[inode].(synced := true)])
  }

  function Renamed(s: State, from: string, target: string): State
    requires from in s.names
  {
    var names := (s.names - {from})[target := s.names[from]];
    State(s.inodes, names, s.history + [names])
  }

  function Removed(s: State, name: string): State {
    if name !in s.names then s else State(s.inodes, s.names - {name}, s.history + [s.names - {name}])
  }

  function DirSynced(s: State): State {
    s.(history := [s.names])
  }

  /** The system that comes up after a crash. */
  ghost predicate Reboots(s: State, s': State) {
    && s'.Valid() && s'.history == [s'.names]
    && (forall i :: i in s'.inodes ==> s'.inodes[i].synced)
    && (forall name :: MayHold(s, name, s'.Visible(name)))
  }

  /** A file is of no other name's entry, in the directory or in what may be brought back. */
  ghost predicate Private(s: State, inode: nat, name: string) {
    forall i :: 0 <= i < |s.history| && name in s.history[i] ==> s.history[i][name] != inode
  }

  lemma CreatedKeeps(s: State, temp: string, inode: nat, mode: bv9, name: string, files: iset<Option<File>>)
    requires s.Valid() && LeavesOneOf(s, name, files) && temp != name && inode !in s.inodes
    ensures var s' := Created(s, temp, inode, mode);
            s'.Valid() && LeavesOneOf(s', name, files) && Private(s', inode, name)
            && s'.Visible(name) == s.Visible(name)
  {
    var s' := Created(s, temp, inode, mode);
    forall after | MayHold(s', name, after)
      ensures after in files
    {
      var i :| 0 <= i < |s'.history| && Brings(s', s'.history[i], name, after);
      var d := if i < |s.history| then s.history[i] else s.names;
      assert Brings(s, d, name, after) by {
        assert d == s.history[if i < |s.history| then i else |s.history| - 1];
      }
      assert MayHold(s, name, after);
    }
    assert s.history[|s.history| - 1] == s.names;
  }

  lemma ChangedKeeps(s: State, inode: nat, file: File, name: string, files: iset<Option<File>>)
    requires s.Valid() && LeavesOneOf(s, name, files) && Private(s, inode, name)
    ensures var s' := Changed(s, inode, file);
            s'.Valid() && LeavesOneOf(s', name, files) && Private(s', inode, name)
            && s'.Visible(name) == s.Visible(name)
  {
    var s' := Changed(s, inode, file);
    assert s.history[|s.history| - 1] == s.names;
    forall after | MayHold(s', name, after)
      ensures after in files
    {
      var i :| 0 <= i < |s'.history| && Brings(s', s'.history[i], name, after);
      assert Brings(s, s.history[i], name, after);
      assert MayHold(s, name, after);
    }
  }

  lemma SyncedKeeps(s: State, inode: nat, name: string, files: iset<Option<File>>)
    requires s.Valid() && LeavesOneOf(s, name, files) && inode in s.inodes
    ensures var s' := Synced(s, inode);
            s'.Valid() && LeavesOneOf(s', name, files)
            && (Private(s, inode, name) ==> Private(s', inode, name))
            && s'.Visible(name) == s.Visible(name)
  {
    var s' := Synced(s, inode);
    forall after | MayHold(s', name, after)
      ensures after in files
    {
      var i :| 0 <= i < |s'.history| && Brings(s', s'.history[i], name, after);
      assert Brings(s, s.history[i], name, after);
      assert MayHold(s, name, after);
    }
  }

  /** Renaming over a name a file that is on disk: the old one or the new. */
  lemma RenamedKeeps(s: State, from: string, name: string, files: iset<Option<File>>)
    requires s.Valid() && LeavesOneOf(s, name, files)
    requires from in s.names && from != name && s.names[from] in s.inodes && s.inodes[s.names[from]].synced
    ensures var s' := Renamed(s, from, name);
            && s'.Valid()
            && s'.Visible(name) == Some(s.inodes[s.names[from]].file)
            && LeavesOneOf(s', name, files + iset{s'.Visible(name)})
            && (name in s'.names && s'.inodes[s'.names[name]].synced)
  {
    var s' := Renamed(s, from, name);
    forall after | MayHold(s', name, after)
      ensures after in files + iset{s'.Visible(name)}
    {
      var i :| 0 <= i < |s'.history| && Brings(s', s'.history[i], name, after);
      if i < |s.history| {
        assert Brings(s, s.history[i], name, after);
        assert MayHold(s, name, after);
      }
    }
    forall i, n | 0 <= i < |s'.history| && n in s'.history[i]
      ensures s'.history[i][n] in s'.inodes
    {
      if i < |s.history| {
        assert n in s.history[i];
      } else {
        assert s.history[|s.history| - 1] == s.names;
      }
    }
  }

  /** A file not synced may be anything after a crash, even where one was before: written or
      not, it must not be renamed into place like that. */
  lemma UnsyncedMayBeAnything(s: State, temp: string, inode: nat, mode: bv9, file: File, name: string, after: File)
    requires temp != name
    ensures var s' := Created(s, temp, inode, mode);
            && MayHold(Renamed(s', temp, name), name, Some(after))
            && MayHold(Renamed(Changed(s', inode, file), temp, name), name, Some(after))
  {
    var s' := Created(s, temp, inode, mode);
    var written := Changed(s', inode, file);
    var i := |s.history| + 1;
    assert Brings(Renamed(s', temp, name), Renamed(s', temp, name).history[i], name, Some(after));
    assert Brings(Renamed(written, temp, name), Renamed(written, temp, name).history[i], name, Some(after));
  }

  /** Until the directory is synced a crash may undo a rename. */
  lemma RenameMayBeUndone(s: State, from: string, name: string, before: Option<File>)
    requires from in s.names && MayHold(s, name, before)
    ensures MayHold(Renamed(s, from, name), name, before)
  {
    var i :| 0 <= i < |s.history| && Brings(s, s.history[i], name, before);
    assert Brings(Renamed(s, from, name), Renamed(s, from, name).history[i], name, before);
  }

  lemma RemovedKeeps(s: State, temp: string, name: string, files: iset<Option<File>>)
    requires s.Valid() && LeavesOneOf(s, name, files) && temp != name
    ensures var s' := Removed(s, temp);
            s'.Valid() && LeavesOneOf(s', name, files) && s'.Visible(name) == s.Visible(name)
  {
    var s' := Removed(s, temp);
    assert s.history[|s.history| - 1] == s.names;
    forall after | MayHold(s', name, after)
      ensures after in files
    {
      var i :| 0 <= i < |s'.history| && Brings(s', s'.history[i], name, after);
      var j := if i < |s.history| then i else |s.history| - 1;
      assert Brings(s, s.history[j], name, after);
      assert MayHold(s, name, after);
    }
  }

  /** Renamed or removed, a file created leaves no name of its own. */
  lemma NameIsGone(s: State, temp: string, inode: nat, mode: bv9, name: string)
    requires temp != name && temp !in s.names
    ensures var s' := Created(s, temp, inode, mode);
            && s'.names - {temp} == s.names
            && (Renamed(s', temp, name).names - {temp}).Keys - {name} == s.names.Keys - {name}
            && Renamed(s', temp, name).names - {temp} == Renamed(s', temp, name).names
  {
  }

  /** Once the directory is synced over a synced file, nothing else can be brought back. */
  lemma DirSyncedSettles(s: State, name: string)
    requires s.Valid() && name in s.names && s.inodes[s.names[name]].synced
    ensures var s' := DirSynced(s);
            && s'.Valid()
            && s'.Visible(name) == s.Visible(name)
            && LeavesOneOf(s', name, iset{s.Visible(name)})
  {
    assert s.history[|s.history| - 1] == s.names;
  }

  /** A crash brings back no more than it may, and nothing later can. */
  lemma RebootKeeps(s: State, s': State, name: string, files: iset<Option<File>>)
    requires LeavesOneOf(s, name, files) && Reboots(s, s')
    ensures s'.Visible(name) in files && LeavesOneOf(s', name, iset{s'.Visible(name)})
  {
    assert MayHold(s, name, s'.Visible(name));
    forall after | MayHold(s', name, after)
      ensures after == s'.Visible(name)
    {
      assert Brings(s', s'.history[0], name, after);
    }
  }
}
