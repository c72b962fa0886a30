/** The walks over a setting's parsed data: they rewrite, in place, the encrypted fields and
    strings it holds. */
module SettingWalks {
  import opened SettingTrees
  import opened EncryptedFields
  import opened RefMaps
  import RefLoads

  class StringCell {
    var text: string

    constructor (text: string)
      ensures this.text == text
    {
      this.text := text;
    }
  }

  /** A tree of values whose encrypted fields and strings are storage. */
  type Stored = Tree<EncryptedField, StringCell>
  type StoredSlot = Slot<EncryptedField, StringCell>

  // ---------------------------------------------------------------- Storage, and what it holds

  ghost function Fields(v: Stored): set<EncryptedField>
    decreases v
  {
    match v
    case Node(_, slots) => FieldsOfSlots(slots)
    case Secret(f) => {f}
    case _ => {}
  }

  ghost function FieldsOfSlots(slots: seq<StoredSlot>): (fs: set<EncryptedField>)
    ensures forall i :: 0 <= i < |slots| ==> FieldsOfSlot(slots[i]) <= fs
    decreases slots
  {
    if slots == [] then {} else FieldsOfSlots(slots[..|slots| - 1]) + FieldsOfSlot(slots[|slots| - 1])
  }

  ghost function FieldsOfSlot(slot: StoredSlot): set<EncryptedField>
    decreases slot
  {
    Fields(slot.value)
  }

  ghost function Strings(v: Stored): set<StringCell>
    decreases v
  {
    match v
    case Node(_, slots) => StringsOfSlots(slots)
    case Text(c) => {c}
    case _ => {}
  }

  ghost function StringsOfSlots(slots: seq<StoredSlot>): (cs: set<StringCell>)
    ensures forall i :: 0 <= i < |slots| ==> StringsOfSlot(slots[i]) <= cs
    decreases slots
  {
    if slots == [] then {} else StringsOfSlots(slots[..|slots| - 1]) + StringsOfSlot(slots[|slots| - 1])
  }

  ghost function StringsOfSlot(slot: StoredSlot): set<StringCell>
    decreases slot
  {
    Strings(slot.value)
  }

  /** No field or string is reached in two ways. */
  ghost predicate NoAlias(v: Stored)
    decreases v
  {
    v.Node? ==> NoAliasInSlots(v.slots)
  }

  ghost predicate NoAliasInSlots(slots: seq<StoredSlot>)
    decreases slots
  {
    && (forall i :: 0 <= i < |slots| ==> NoAliasInSlot(slots[i]))
    && (forall i, j :: 0 <= i < |slots| && 0 <= j < |slots| && i != j ==>
          FieldsOfSlot(slots[i]) !! FieldsOfSlot(slots[j]) && StringsOfSlot(slots[i]) !! StringsOfSlot(slots[j]))
  }

  ghost predicate NoAliasInSlot(slot: StoredSlot)
    decreases slot
  {
    NoAlias(slot.value)
  }

  function Reading(v: Stored): Data
    reads Fields(v), Strings(v)
    decreases v
  {
    match v
    case Nil => Nil
    case Node(kind, slots) => Node(kind, ReadingSlots(slots))
    case Secret(f) => Secret(f.Value())
    case Text(c) => Text(c.text)
    case Opaque(what) => Opaque(what)
  }

  function ReadingSlots(slots: seq<StoredSlot>): (r: seq<DataSlot>)
    reads FieldsOfSlots(slots), StringsOfSlots(slots)
    ensures |r| == |slots| && forall i :: 0 <= i < |slots| ==> r[i] == ReadingSlot(slots[i])
    decreases slots
  {
    if slots == [] then []
    else ReadingSlots(slots[..|slots| - 1]) + [ReadingSlot(slots[|slots| - 1])]
  }

  function ReadingSlot(slot: StoredSlot): (r: DataSlot)
    reads FieldsOfSlot(slot), StringsOfSlot(slot)
    ensures r.tag == slot.tag
    decreases slot
  {
    Slot(slot.tag, Reading(slot.value))
  }

  // ---------------------------------------------------------------- Counting

  /** The secrets a walk counts, those it finds empty or those it does not. */
  function Tally(v: Data, empty: bool): nat
    decreases v
  {
    match v
    case Node(kind, slots) => if Pruned(kind, true) then 0 else TallyUpTo(slots, |slots|, empty)
    case Secret(s) => if s.IsEmpty() == empty then 1 else 0
    case _ => 0
  }

  function TallyUpTo(slots: seq<DataSlot>, n: nat, empty: bool): nat
    requires n <= |slots|
    decreases slots, n
  {
    if n == 0 then 0 else TallyUpTo(slots, n - 1, empty) + TallyOfSlot(slots[n - 1], empty)
  }

  function TallyOfSlot(slot: DataSlot, empty: bool): nat
    decreases slot
  {
    if Skipped(slot.tag) then 0 else Tally(slot.value, empty)
  }

  lemma {:induction false} TallyCounts(v: Data)
    ensures Tally(v, true) == CountEmpty(v) && Tally(v, false) == CountHeld(v)
    decreases v
  {
    match v
    case Node(kind, slots) =>
      if !Pruned(kind, true) {
        TallyUpToCounts(slots, |slots|);
        assert slots[..|slots|] == slots;
      }
    case Secret(s) => assert EmptyCount([s][..0]) == 0;
    case _ =>
  }

  lemma {:induction false} TallyUpToCounts(slots: seq<DataSlot>, n: nat)
    requires n <= |slots|
    ensures var ss := SecretsOfSlots(slots[..n], true);
            TallyUpTo(slots, n, true) == EmptyCount(ss) && TallyUpTo(slots, n, false) == |ss| - EmptyCount(ss)
    decreases slots, n
  {
    if n > 0 {
      TallyUpToCounts(slots, n - 1);
      TallyOfSlotCounts(slots[n - 1]);
      assert slots[..n][..n - 1] == slots[..n - 1];
      EmptyCountAppend(SecretsOfSlots(slots[..n - 1], true), SecretsOfSlot(slots[n - 1], true));
    }
  }

  lemma {:induction false} TallyOfSlotCounts(slot: DataSlot)
    ensures var ss := SecretsOfSlot(slot, true);
            TallyOfSlot(slot, true) == EmptyCount(ss) && TallyOfSlot(slot, false) == |ss| - EmptyCount(ss)
    decreases slot
  {
    if !Skipped(slot.tag) {
      TallyCounts(slot.value);
    }
  }

  /** How many encrypted fields a walk finds nothing in. */
  method CountEmptySecretsIn(v: Stored, ghost all: set<object>) returns (count: nat)
    requires Fields(v) + Strings(v) <= all
    ensures count == Tally(Reading(v), true)
    decreases v
  {
    match v
    case Secret(f) =>
      return if f.encrypted == "" && f.decrypted == "" then 1 else 0;
    case Node(kind, slots) =>
      if kind.Map? && !TypeHoldsSecret(kind.elem) {
        return 0;
      }
      count := CountEmptySecretsInSlots(slots, all);
    case _ => return 0;
  }

  method CountEmptySecretsInSlots(slots: seq<StoredSlot>, ghost all: set<object>) returns (count: nat)
    requires FieldsOfSlots(slots) + StringsOfSlots(slots) <= all
    ensures count == TallyUpTo(ReadingSlots(slots), |slots|, true)
    decreases slots, 1
  {
    count := 0;
    ghost var data := ReadingSlots(slots);
    var i := 0;
    while i < |slots|
      invariant 0 <= i <= |slots|
      invariant ReadingSlots(slots) == data
      invariant count == TallyUpTo(data, i, true)
    {
      var n := CountEmptySecretsInSlot(slots[i], all);
      count := count + n;
      i := i + 1;
    }
  }

  method CountEmptySecretsInSlot(slot: StoredSlot, ghost all: set<object>) returns (count: nat)
    requires FieldsOfSlot(slot) + StringsOfSlot(slot) <= all
    ensures count == TallyOfSlot(ReadingSlot(slot), true)
    decreases slot, 0
  {
    if Skipped(slot.tag) {
      return 0;
    }
    count := CountEmptySecretsIn(slot.value, all);
  }

  // ---------------------------------------------------------------- Omitting

  /** Clears every encrypted field reached, and says how many there were to clear. */
  method OmitSecretsIn(v: Stored, ghost all: set<object>) returns (count: nat)
    requires NoAlias(v) && Fields(v) + Strings(v) <= all
    modifies Fields(v)
    ensures Reading(v) == Omitted(old(Reading(v)))
    ensures count == Tally(old(Reading(v)), false)
    decreases v
  {
    match v
    case Secret(f) =>
      if f.encrypted == "" && f.decrypted == "" {
        return 0;
      }
      f.Clear();
      return 1;
    case Node(kind, slots) =>
      if kind.Map? && !TypeHoldsSecret(kind.elem) {
        return 0;
      }
      count := OmitSecretsInSlots(slots, all);
    case _ => return 0;
  }

  /** The first slots omitted, the others as they were, and the count so far. */
  ghost predicate IsOmittedUpTo(data: seq<DataSlot>, i: nat, now: seq<DataSlot>, count: int) {
    && i <= |data| == |now| && count == TallyUpTo(data, i, false)
    && (forall j :: 0 <= j < i ==> now[j] == WithSecretsSlot(data[j], OMIT, true))
    && (forall j :: i <= j < |data| ==> now[j] == data[j])
  }

  lemma OneMoreOmitted(data: seq<DataSlot>, i: nat, now: seq<DataSlot>, count: int)
    requires IsOmittedUpTo(data, i, now, count) && i < |data|
    ensures IsOmittedUpTo(data, i + 1, now[i := WithSecretsSlot(data[i], OMIT, true)],
                          count + TallyOfSlot(data[i], false))
  {
  }

  lemma AllOmitted(data: seq<DataSlot>, now: seq<DataSlot>, count: int)
    requires IsOmittedUpTo(data, |data|, now, count)
    ensures now == WithSecretsSlots(data, OMIT, true) && count == TallyUpTo(data, |data|, false)
  {
  }

  method OmitSecretsInSlots(slots: seq<StoredSlot>, ghost all: set<object>) returns (count: nat)
    requires NoAliasInSlots(slots) && FieldsOfSlots(slots) + StringsOfSlots(slots) <= all
    modifies FieldsOfSlots(slots)
    ensures ReadingSlots(slots) == WithSecretsSlots(old(ReadingSlots(slots)), OMIT, true)
    ensures count == TallyUpTo(old(ReadingSlots(slots)), |slots|, false)
    decreases slots, 1
  {
    count := 0;
    ghost var data := ReadingSlots(slots);
    ghost var now := data;
    var i := 0;
    while i < |slots|
      invariant 0 <= i <= |slots| && now == ReadingSlots(slots)
      invariant IsOmittedUpTo(data, i, now, count)
    {
      assert now[i] == data[i];
      var n := OmitSecretsInSlot(slots, i, all);
      OneMoreOmitted(data, i, now, count);
      now := ReadingSlots(slots);
      count := count + n;
      i := i + 1;
    }
    AllOmitted(data, now, count);
  }

  method OmitSecretsInSlot(slots: seq<StoredSlot>, i: nat, ghost all: set<object>) returns (count: nat)
    requires i < |slots| && NoAliasInSlots(slots) && FieldsOfSlots(slots) + StringsOfSlots(slots) <= all
    modifies FieldsOfSlots(slots)
    ensures ReadingSlots(slots)
         == old(ReadingSlots(slots))[i := WithSecretsSlot(old(ReadingSlots(slots)[i]), OMIT, true)]
    ensures count == TallyOfSlot(old(ReadingSlots(slots)[i]), false)
    decreases slots, 0
  {
    var slot := slots[i];
    if Skipped(slot.tag) {
      return 0;
    }
    assert slot.value < slot;
    assert FieldsOfSlot(slot) <= FieldsOfSlots(slots);
    count := OmitSecretsIn(slot.value, all);
  }

  // ---------------------------------------------------------------- Keeping

  lemma {:induction false} SameIndex(slots: seq<StoredSlot>, data: seq<DataSlot>, tag: Tag)
    requires |slots| == |data| && forall i :: 0 <= i < |slots| ==> slots[i].tag == data[i].tag
    ensures IndexOf(slots, tag) == IndexOf(data, tag)
  {
    if slots != [] && slots[0].tag != tag {
      SameIndex(slots[1..], data[1..], tag);
    }
  }

  lemma SameCounterpart(kind: Kind, slots: seq<StoredSlot>, data: seq<DataSlot>, i: nat,
                        src: seq<StoredSlot>, from: seq<DataSlot>)
    requires i < |slots| && |slots| == |data| && slots[i].tag == data[i].tag
    requires |src| == |from| && forall j :: 0 <= j < |src| ==> src[j].tag == from[j].tag
    ensures Counterpart(kind, slots, i, src) == Counterpart(kind, data, i, from)
  {
    SameIndex(src, from, slots[i].tag);
  }

  /** Fills dst's empty encrypted fields with what src holds where they are. */
  method KeepSecretsIn(dst: Stored, src: Stored, ghost all: set<object>)
    requires NoAlias(dst) && Fields(dst) + Strings(dst) + Fields(src) + Strings(src) <= all
    requires Fields(dst) !! Fields(src)
    modifies Fields(dst)
    ensures Reading(dst) == Kept(old(Reading(dst)), old(Reading(src)), true)
    ensures Reading(src) == old(Reading(src))
    decreases dst
  {
    match dst
    case Secret(d) =>
      if src.Secret? {
        var s := src.secret;
        if d.encrypted == "" && d.decrypted == "" && !(s.encrypted == "" && s.decrypted == "") {
          d.Take(s.Value());
        }
      }
    case Node(kind, slots) =>
      if src.Node? && src.kind == kind && !(kind.Map? && !TypeHoldsSecret(kind.elem)) {
        KeepSecretsInSlots(kind, slots, src.slots, all);
      }
    case _ =>
  }

  /** The first slots given what they are to keep, the others as they were. */
  ghost predicate IsKeptUpTo(kind: Kind, data: seq<DataSlot>, from: seq<DataSlot>, i: nat, now: seq<DataSlot>) {
    && i <= |data| == |now|
    && (forall j :: 0 <= j < i ==> now[j] == KeptAt(kind, data, j, from, true))
    && (forall j :: i <= j < |data| ==> now[j] == data[j])
  }

  lemma OneMoreKept(kind: Kind, data: seq<DataSlot>, from: seq<DataSlot>, i: nat, now: seq<DataSlot>)
    requires IsKeptUpTo(kind, data, from, i, now) && i < |data|
    ensures IsKeptUpTo(kind, data, from, i + 1, now[i := KeptAt(kind, data, i, from, true)])
  {
  }

  lemma AllKept(kind: Kind, data: seq<DataSlot>, from: seq<DataSlot>, now: seq<DataSlot>)
    requires IsKeptUpTo(kind, data, from, |data|, now)
    ensures now == KeptSlots(kind, data, |data|, from, true)
  {
  }

  method KeepSecretsInSlots(kind: Kind, slots: seq<StoredSlot>, src: seq<StoredSlot>, ghost all: set<object>)
    requires NoAliasInSlots(slots)
    requires FieldsOfSlots(slots) + StringsOfSlots(slots) + FieldsOfSlots(src) + StringsOfSlots(src) <= all
    requires FieldsOfSlots(slots) !! FieldsOfSlots(src)
    modifies FieldsOfSlots(slots)
    ensures ReadingSlots(slots) == KeptSlots(kind, old(ReadingSlots(slots)), |slots|, old(ReadingSlots(src)), true)
    ensures ReadingSlots(src) == old(ReadingSlots(src))
    decreases slots, 1
  {
    ghost var data, from := ReadingSlots(slots), ReadingSlots(src);
    ghost var now := data;
    var i := 0;
    while i < |slots|
      invariant 0 <= i <= |slots| && now == ReadingSlots(slots) && ReadingSlots(src) == from
      invariant IsKeptUpTo(kind, data, from, i, now)
    {
      assert now[i] == data[i];
      var j := Counterpart(kind, slots, i, src);
      SameCounterpart(kind, slots, data, i, src, from);
      KeepSecretsInSlot(slots, i, j, src, all);
      OneMoreKept(kind, data, from, i, now);
      now := ReadingSlots(slots);
      i := i + 1;
    }
    AllKept(kind, data, from, now);
  }

  method KeepSecretsInSlot(slots: seq<StoredSlot>, i: nat, j: nat, src: seq<StoredSlot>, ghost all: set<object>)
    requires i < |slots| && NoAliasInSlots(slots)
    requires FieldsOfSlots(slots) + StringsOfSlots(slots) + FieldsOfSlots(src) + StringsOfSlots(src) <= all
    requires FieldsOfSlots(slots) !! FieldsOfSlots(src)
    modifies FieldsOfSlots(slots)
    ensures ReadingSlots(slots) == old(ReadingSlots(slots))
              [i := KeptSlot(old(ReadingSlots(slots)[i]), j, old(ReadingSlots(src)), true)]
    ensures ReadingSlots(src) == old(ReadingSlots(src))
    decreases slots, 0
  {
    var slot := slots[i];
    if Skipped(slot.tag) || j >= |src| {
      return;
    }
    assert slot.value < slot;
    assert FieldsOfSlot(slot) <= FieldsOfSlots(slots);
    assert FieldsOfSlot(src[j]) <= FieldsOfSlots(src);
    assert ReadingSlots(src)[j] == ReadingSlot(src[j]);
    KeepSecretsIn(slot.value, src[j].value, all);
  }

  // ---------------------------------------------------------------- Rewriting references

  /** Replaces every string reached that can be set and is a key of the mapping. */
  method RemapStringValues(v: Stored, m: Mapping, fixed: bool, ghost all: set<object>)
    requires NoAlias(v) && Fields(v) + Strings(v) <= all
    modifies Strings(v)
    ensures Reading(v) == Remapped(old(Reading(v)), m, fixed)
    decreases v
  {
    match v
    case Text(c) =>
      if fixed {
        return;
      }
      if c.text in m {
        c.text := m[c.text];
      }
    case Node(kind, slots) => RemapStringsInSlots(slots, m, FixedIn(kind, fixed), all);
    case _ =>
  }

  /** The first slots rewritten, the others as they were. */
  ghost predicate IsRemappedUpTo(data: seq<DataSlot>, i: nat, now: seq<DataSlot>, m: Mapping, fixed: bool) {
    && i <= |data| == |now|
    && (forall j :: 0 <= j < i ==> now[j] == RemappedSlot(data[j], m, fixed))
    && (forall j :: i <= j < |data| ==> now[j] == data[j])
  }

  lemma OneMoreRemapped(data: seq<DataSlot>, i: nat, now: seq<DataSlot>, m: Mapping, fixed: bool)
    requires IsRemappedUpTo(data, i, now, m, fixed) && i < |data|
    ensures IsRemappedUpTo(data, i + 1, now[i := RemappedSlot(now[i], m, fixed)], m, fixed)
  {
  }

  lemma AllRemapped(data: seq<DataSlot>, now: seq<DataSlot>, m: Mapping, fixed: bool)
    requires IsRemappedUpTo(data, |data|, now, m, fixed)
    ensures now == RemappedSlots(data, m, fixed)
  {
  }

  method RemapStringsInSlots(slots: seq<StoredSlot>, m: Mapping, fixed: bool, ghost all: set<object>)
    requires NoAliasInSlots(slots) && FieldsOfSlots(slots) + StringsOfSlots(slots) <= all
    modifies StringsOfSlots(slots)
    ensures ReadingSlots(slots) == RemappedSlots(old(ReadingSlots(slots)), m, fixed)
    decreases slots, 1
  {
    ghost var data := ReadingSlots(slots);
    ghost var now := data;
    var i := 0;
    while i < |slots|
      invariant 0 <= i <= |slots| && now == ReadingSlots(slots)
      invariant IsRemappedUpTo(data, i, now, m, fixed)
    {
      RemapStringsInSlot(slots, i, m, fixed, all);
      OneMoreRemapped(data, i, now, m, fixed);
      now := ReadingSlots(slots);
      i := i + 1;
    }
    AllRemapped(data, now, m, fixed);
  }

  method RemapStringsInSlot(slots: seq<StoredSlot>, i: nat, m: Mapping, fixed: bool, ghost all: set<object>)
    requires i < |slots| && NoAliasInSlots(slots) && FieldsOfSlots(slots) + StringsOfSlots(slots) <= all
    modifies StringsOfSlots(slots)
    ensures ReadingSlots(slots)
         == old(ReadingSlots(slots))[i := RemappedSlot(old(ReadingSlots(slots)[i]), m, fixed)]
    decreases slots, 0
  {
    var slot := slots[i];
    if Skipped(slot.tag) {
      return;
    }
    assert slot.value < slot;
    assert StringsOfSlot(slot) <= StringsOfSlots(slots);
    assert FieldsOfSlot(slot) <= FieldsOfSlots(slots);
    RemapStringValues(slot.value, m, fixed, all);
  }

  /** The identifiers are those reported, of all five kinds. */
  ghost predicate ListsIDs(ids: seq<string>, refs: RefLoads.Refs) {
    forall id :: id in ids <==> ReportsID(refs, id)
  }

  /** The identifiers a setting's type reports as references. */
  method CollectRefIDs(v: Stored, report: Report) returns (ids: seq<string>)
    ensures ListsIDs(ids, report(Reading(v)))
  {
    var refs := report(Reading(v));
    return refs.settings + refs.apps + refs.projects + refs.projectEnvs + refs.users;
  }

  /** What one of the identifiers is wanted to be. */
  ghost predicate IsWantedOf(ids: seq<string>, m: Mapping, w: string) {
    exists id :: id in ids && Wanted(m, id) == w
  }

  lemma WantedOneMore(ids: seq<string>, id: string, m: Mapping, w: string)
    ensures IsWantedOf(ids + [id], m, w) <==> IsWantedOf(ids, m, w) || w == Wanted(m, id)
  {
    assert forall x :: x in ids + [id] <==> x in ids || x == id;
  }

  /** What the identifiers are wanted to be. */
  method WantedIDs(ids: seq<string>, m: Mapping) returns (want: set<string>)
    ensures forall w :: w in want <==> IsWantedOf(ids, m, w)
  {
    want := {};
    for i := 0 to |ids|
      invariant forall w :: w in want <==> IsWantedOf(ids[..i], m, w)
    {
      assert ids[..i + 1] == ids[..i] + [ids[i]];
      forall w ensures IsWantedOf(ids[..i + 1], m, w) <==> w in want || w == Wanted(m, ids[i]) {
        WantedOneMore(ids[..i], ids[i], m, w);
      }
      want := want + {if ids[i] in m && m[ids[i]] != "" then m[ids[i]] else ids[i]};
    }
    assert ids[..|ids|] == ids;
  }

  method AllIn(ids: seq<string>, want: set<string>) returns (ok: bool)
    ensures ok <==> forall id :: id in ids ==> id in want
  {
    for i := 0 to |ids|
      invariant forall id :: id in ids[..i] ==> id in want
    {
      if ids[i] !in want {
        return false;
      }
    }
    return true;
  }

  lemma CheckedByIDs(before: RefLoads.Refs, after: RefLoads.Refs, m: Mapping, was: seq<string>, want: set<string>,
                     now: seq<string>)
    requires ListsIDs(was, before) && ListsIDs(now, after)
    requires forall w :: w in want <==> IsWantedOf(was, m, w)
    ensures (forall id :: id in now ==> id in want) <==> Checks(before, after, m)
  {
    forall w ensures w in want <==> WantedAmong(before, m, w) {
      if WantedAmong(before, m, w) {
        var id :| ReportsID(before, id) && Wanted(m, id) == w;
        assert id in was;
      }
    }
  }

  /** The walk, and then the identifiers reported against those wanted. */
  method RemapAndCheck(v: Stored, report: Report, m: Mapping, ghost before: RefLoads.Refs, ghost was: seq<string>,
                       want: set<string>, ghost all: set<object>) returns (ok: bool)
    requires NoAlias(v) && Fields(v) + Strings(v) <= all
    requires ListsIDs(was, before) && forall w :: w in want <==> IsWantedOf(was, m, w)
    modifies Strings(v)
    ensures Reading(v) == Remapped(old(Reading(v)), m, true)
    ensures ok <==> Checks(before, report(Reading(v)), m)
  {
    RemapStringValues(v, m, true, all);
    ghost var after := Reading(v);
    var now := CollectRefIDs(v, report);
    ok := AllIn(now, want);
    assert Reading(v) == after;
    CheckedByIDs(before, report(after), m, was, want, now);
  }

  /** Rewrites every reference a setting holds, then asks for its references again: it
      succeeds just when each is the wanted form of one there was. */
  method RemapRefs(v: Stored, report: Report, m: Mapping, ghost all: set<object>) returns (ok: bool)
    requires NoAlias(v) && Fields(v) + Strings(v) <= all
    modifies Strings(v)
    ensures Reading(v) == Remapped(old(Reading(v)), m, true)
    ensures ok <==> v.Nil? || Checks(report(old(Reading(v))), report(Reading(v)), m)
  {
    ghost var data := Reading(v);
    if v.Nil? || m == map[] {
      NothingToRemap(data, report, m);
      return true;
    }
    var was := CollectRefIDs(v, report);
    var want := WantedIDs(was, m);
    assert Reading(v) == data;
    ok := RemapAndCheck(v, report, m, report(data), was, want, all);
  }
}
