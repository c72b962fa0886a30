/** Rewriting the references a setting holds: what the walk makes of a tree's strings, when
    a rewriting can be taken back, and when the check after it catches a missed reference. */
module RefMaps {
  import opened Wrappers
  import RefLoads
  import opened SettingTrees
  import opened SettingPlaces

  type Mapping = map<string, string>

  function Target(m: Mapping, x: string): string {
    if x in m then m[x] else x
  }

  // ---------------------------------------------------------------- The walk over strings

  /** Whether what a container holds cannot be set, given whether the container can: an
      interface holds a value that cannot, and a struct's fields are as the struct is. What a
      pointer or a slice holds can be, and a map's entry is put back. */
  function FixedIn(kind: Kind, fixed: bool): bool {
    kind.Interface? || (kind.Struct? && fixed)
  }

  /** The strings a walk sets: not those of unexported fields, none of a secret, and none
      that cannot be set. */
  function TextsOf(v: Data, fixed: bool): seq<string>
    decreases v
  {
    match v
    case Node(kind, slots) => TextsOfSlots(slots, FixedIn(kind, fixed))
    case Text(x) => if fixed then [] else [x]
    case _ => []
  }

  function TextsOfSlots(slots: seq<DataSlot>, fixed: bool): seq<string>
    decreases slots
  {
    if slots == [] then []
    else TextsOfSlots(slots[..|slots| - 1], fixed) + TextsOfSlot(slots[|slots| - 1], fixed)
  }

  function TextsOfSlot(slot: DataSlot, fixed: bool): seq<string>
    decreases slot
  {
    if Skipped(slot.tag) then [] else TextsOf(slot.value, fixed)
  }

  function Remapped(v: Data, m: Mapping, fixed: bool): Data
    decreases v
  {
    match v
    case Node(kind, slots) => Node(kind, RemappedSlots(slots, m, FixedIn(kind, fixed)))
    case Text(x) => if fixed then v else Text(Target(m, x))
    case _ => v
  }

  function RemappedSlots(slots: seq<DataSlot>, m: Mapping, fixed: bool): (r: seq<DataSlot>)
    ensures |r| == |slots|
    ensures forall i :: 0 <= i < |slots| ==> r[i] == RemappedSlot(slots[i], m, fixed)
    decreases slots
  {
    if slots == [] then []
    else RemappedSlots(slots[..|slots| - 1], m, fixed) + [RemappedSlot(slots[|slots| - 1], m, fixed)]
  }

  function RemappedSlot(slot: DataSlot, m: Mapping, fixed: bool): DataSlot
    decreases slot
  {
    if Skipped(slot.tag) then slot else Slot(slot.tag, Remapped(slot.value, m, fixed))
  }

  lemma {:induction false} RemappedByNothing(v: Data, m: Mapping, fixed: bool)
    requires m == map[]
    ensures Remapped(v, m, fixed) == v
    decreases v
  {
    if v.Node? {
      forall i | 0 <= i < |v.slots|
        ensures RemappedSlot(v.slots[i], m, FixedIn(v.kind, fixed)) == v.slots[i]
      {
        SlotRemappedByNothing(v.slots[i], m, FixedIn(v.kind, fixed));
      }
    }
  }

  lemma {:induction false} SlotRemappedByNothing(slot: DataSlot, m: Mapping, fixed: bool)
    requires m == map[]
    ensures RemappedSlot(slot, m, fixed) == slot
    decreases slot
  {
    RemappedByNothing(slot.value, m, fixed);
  }

  /** Rewriting leaves every secret as it is, reached or not, pruned or not. */
  lemma {:induction false} RemappingLeavesSecrets(v: Data, m: Mapping, fixed: bool, prune: bool)
    ensures SecretsOf(Remapped(v, m, fixed), prune) == SecretsOf(v, prune)
    decreases v
  {
    if v.Node? {
      RemappingSlotsLeavesSecrets(v.slots, m, FixedIn(v.kind, fixed), prune);
    }
  }

  lemma {:induction false} RemappingSlotsLeavesSecrets(slots: seq<DataSlot>, m: Mapping, fixed: bool, prune: bool)
    ensures SecretsOfSlots(RemappedSlots(slots, m, fixed), prune) == SecretsOfSlots(slots, prune)
    decreases slots
  {
    if slots != [] {
      var n := |slots| - 1;
      RemappingSlotsLeavesSecrets(slots[..n], m, fixed, prune);
      RemappingSlotLeavesSecrets(slots[n], m, fixed, prune);
      assert RemappedSlots(slots, m, fixed)[..n] == RemappedSlots(slots[..n], m, fixed);
    }
  }

  lemma {:induction false} RemappingSlotLeavesSecrets(slot: DataSlot, m: Mapping, fixed: bool, prune: bool)
    ensures SecretsOfSlot(RemappedSlot(slot, m, fixed), prune) == SecretsOfSlot(slot, prune)
    decreases slot
  {
    if !Skipped(slot.tag) {
      RemappingLeavesSecrets(slot.value, m, fixed, prune);
    }
  }

  // ---------------------------------------------------------------- There and back

  /** Two rewritings leave a tree as it was exactly when they do each string that is set. */
  lemma {:induction false} BackIff(v: Data, m: Mapping, back: Mapping, fixed: bool)
    ensures Remapped(Remapped(v, m, fixed), back, fixed) == v
       <==> AllBack(TextsOf(v, fixed), m, back)
    decreases v
  {
    if v.Node? {
      var inside := FixedIn(v.kind, fixed);
      forall i | 0 <= i < |v.slots|
        ensures RemappedSlot(RemappedSlot(v.slots[i], m, inside), back, inside) == v.slots[i]
           <==> AllBack(TextsOfSlot(v.slots[i], inside), m, back)
      {
        BackInSlotIff(v.slots[i], m, back, inside);
      }
      AllBackInSlots(v.slots, m, back, inside);
      SameSlotsIff(RemappedSlots(RemappedSlots(v.slots, m, inside), back, inside), v.slots);
    } else if v.Text? && !fixed {
      assert v.text in TextsOf(v, fixed);
    }
  }

  /** Two rewritings give back the strings given. */
  ghost predicate AllBack(xs: seq<string>, m: Mapping, back: Mapping) {
    forall x :: x in xs ==> Target(back, Target(m, x)) == x
  }

  lemma AllBackAppend(a: seq<string>, b: seq<string>, m: Mapping, back: Mapping)
    ensures AllBack(a + b, m, back) <==> AllBack(a, m, back) && AllBack(b, m, back)
  {
    assert forall x :: x in a + b <==> x in a || x in b;
  }

  lemma SameSlotsIff(a: seq<DataSlot>, b: seq<DataSlot>)
    requires |a| == |b|
    ensures a == b <==> forall i :: 0 <= i < |a| ==> a[i] == b[i]
  {
  }

  /** Two rewritings give back the strings set in each slot. */
  ghost predicate EachBack(slots: seq<DataSlot>, m: Mapping, back: Mapping, fixed: bool) {
    forall i :: 0 <= i < |slots| ==> AllBack(TextsOfSlot(slots[i], fixed), m, back)
  }

  lemma OneMoreBack(slots: seq<DataSlot>, m: Mapping, back: Mapping, fixed: bool)
    requires slots != []
    ensures var n := |slots| - 1;
            EachBack(slots, m, back, fixed)
            <==> EachBack(slots[..n], m, back, fixed) && AllBack(TextsOfSlot(slots[n], fixed), m, back)
  {
    var n := |slots| - 1;
    assert forall i :: 0 <= i < n ==> slots[..n][i] == slots[i];
  }

  lemma {:induction false} AllBackInSlots(slots: seq<DataSlot>, m: Mapping, back: Mapping, fixed: bool)
    ensures AllBack(TextsOfSlots(slots, fixed), m, back) <==> EachBack(slots, m, back, fixed)
  {
    if slots != [] {
      var n := |slots| - 1;
      AllBackInSlots(slots[..n], m, back, fixed);
      AllBackAppend(TextsOfSlots(slots[..n], fixed), TextsOfSlot(slots[n], fixed), m, back);
      OneMoreBack(slots, m, back, fixed);
    }
  }

  lemma {:induction false} BackInSlotIff(slot: DataSlot, m: Mapping, back: Mapping, fixed: bool)
    ensures RemappedSlot(RemappedSlot(slot, m, fixed), back, fixed) == slot
       <==> AllBack(TextsOfSlot(slot, fixed), m, back)
    decreases slot
  {
    if !Skipped(slot.tag) {
      BackIff(slot.value, m, back, fixed);
    }
  }

  predicate Injective(m: Mapping) {
    forall x, y :: x in m && y in m && m[x] == m[y] ==> x == y
  }

  predicate Inverse(back: Mapping, m: Mapping) {
    && (forall x :: x in m ==> m[x] in back && back[m[x]] == x)
    && (forall y :: y in back ==> back[y] in m && m[back[y]] == y)
  }

  /** Rewriting by a mapping and then by its inverse gives back the tree exactly when no
      string set that is not a key of the mapping is a target of it. */
  lemma InverseTakesBackIff(v: Data, m: Mapping, back: Mapping, fixed: bool)
    requires Injective(m) && Inverse(back, m)
    ensures Remapped(Remapped(v, m, fixed), back, fixed) == v
       <==> forall x :: x in TextsOf(v, fixed) && x in m.Values ==> x in m
  {
    BackIff(v, m, back, fixed);
    forall x
      ensures Target(back, Target(m, x)) == x <==> (x in m.Values ==> x in m)
    {
      if x !in m && x in m.Values {
        var k :| k in m && m[k] == x;
        assert back[x] == k;
      }
    }
  }

  // ---------------------------------------------------------------- The check

  /** A reference a setting reports: the identifier, and whether the walk reaches where it
      is held. An empty one is not reported. */
  datatype Ref = Ref(id: string, reached: bool)

  function AfterWalk(r: Ref, m: Mapping): Ref {
    if r.reached then r.(id := Target(m, r.id)) else r
  }

  /** The string held at a place, and none where there is no string. */
  function TextAt(v: Data, p: Place): string
    decreases v
  {
    match v
    case Text(x) => if p == [] then x else ""
    case Node(_, slots) => if p != [] && p[0] < |slots| then TextAtSlot(slots[p[0]], p[1..]) else ""
    case _ => ""
  }

  function TextAtSlot(slot: DataSlot, p: Place): string
    decreases slot
  {
    TextAt(slot.value, p)
  }

  /** Whether a walk over strings comes by the place, and can set what is there. */
  predicate Reaches(v: Data, p: Place, fixed: bool)
    decreases v
  {
    match v
    case Text(_) => p == [] && !fixed
    case Node(kind, slots) => p != [] && p[0] < |slots| && ReachesInSlot(slots[p[0]], p[1..], FixedIn(kind, fixed))
    case _ => false
  }

  predicate ReachesInSlot(slot: DataSlot, p: Place, fixed: bool)
    decreases slot
  {
    !Skipped(slot.tag) && Reaches(slot.value, p, fixed)
  }

  /** What is at a place cannot be set: on the path to it, the last container that is no struct
      is an interface, or there is none and what is handed over cannot be set. */
  predicate Unsettable(v: Data, p: Place, fixed: bool)
    decreases |p|
  {
    if p == [] || !v.Node? || p[0] >= |v.slots| then fixed
    else
      match v.kind
      case Interface => Unsettable(v.slots[p[0]].value, p[1..], true)
      case Struct(_) => Unsettable(v.slots[p[0]].value, p[1..], fixed)
      case _ => Unsettable(v.slots[p[0]].value, p[1..], false)
  }

  /** Place by place: a string is rewritten by the mapping unless it is in an unexported field
      or cannot be set. */
  lemma {:induction false} TextAfterWalk(v: Data, m: Mapping, p: Place, fixed: bool, x: string)
    requires At(v, p) == Some(Text(x))
    ensures At(Remapped(v, m, fixed), p)
         == Some(Text(if !Hidden(v, p) && !Unsettable(v, p, fixed) && x in m then m[x] else x))
    decreases |p|
  {
    if p != [] && v.slots[p[0]].tag != Field(false) {
      TextAfterWalk(v.slots[p[0]].value, m, p[1..], FixedIn(v.kind, fixed), x);
    }
  }

  lemma {:induction false} ReachesIff(v: Data, p: Place, fixed: bool)
    ensures Reaches(v, p, fixed) <==>
              At(v, p).Some? && At(v, p).value.Text? && !Hidden(v, p) && !Unsettable(v, p, fixed)
    ensures TextAt(v, p) == if At(v, p).Some? && At(v, p).value.Text? then At(v, p).value.text else ""
    decreases |p|
  {
    if p != [] && v.Node? && p[0] < |v.slots| {
      ReachesIff(v.slots[p[0]].value, p[1..], FixedIn(v.kind, fixed));
    }
  }

  /** The references held at certain places of a setting. What it is handed over as cannot
      be set; what it points to can. */
  function RefsAt(v: Data, refs: seq<Place>): (rs: seq<Ref>)
    ensures |rs| == |refs|
    ensures forall i :: 0 <= i < |refs| ==> rs[i] == RefAt(v, refs[i], true)
  {
    seq(|refs|, i requires 0 <= i < |refs| => RefAt(v, refs[i], true))
  }

  function RefAt(v: Data, p: Place, fixed: bool): Ref {
    Ref(TextAt(v, p), Reaches(v, p, fixed))
  }

  lemma {:induction false} PlaceAfterWalk(v: Data, p: Place, m: Mapping, fixed: bool)
    ensures RefAt(Remapped(v, m, fixed), p, fixed) == AfterWalk(RefAt(v, p, fixed), m)
    decreases v
  {
    if v.Node? && p != [] && p[0] < |v.slots| {
      var slot, q := v.slots[p[0]], p[1..];
      assert TextAt(Remapped(v, m, fixed), p) == TextAtSlot(RemappedSlot(slot, m, FixedIn(v.kind, fixed)), q);
      PlaceInSlotAfterWalk(slot, q, m, FixedIn(v.kind, fixed));
    }
  }

  lemma {:induction false} PlaceInSlotAfterWalk(slot: DataSlot, p: Place, m: Mapping, fixed: bool)
    ensures var after := RemappedSlot(slot, m, fixed);
            Ref(TextAtSlot(after, p), ReachesInSlot(after, p, fixed))
            == AfterWalk(Ref(TextAtSlot(slot, p), ReachesInSlot(slot, p, fixed)), m)
    decreases slot
  {
    if !Skipped(slot.tag) {
      PlaceAfterWalk(slot.value, p, m, fixed);
    }
  }

  /** The walk rewrites the references it reaches, and no other. */
  lemma RefsAfterWalk(v: Data, refs: seq<Place>, m: Mapping)
    ensures forall i :: 0 <= i < |refs| ==> RefsAt(Remapped(v, m, true), refs)[i] == AfterWalk(RefsAt(v, refs)[i], m)
  {
    forall i | 0 <= i < |refs|
      ensures RefsAt(Remapped(v, m, true), refs)[i] == AfterWalk(RefsAt(v, refs)[i], m)
    {
      PlaceAfterWalk(v, refs[i], m, true);
    }
  }

  /** What a reference is wanted to be: its target, and itself when that is empty. */
  function Wanted(m: Mapping, id: string): string {
    if id in m && m[id] != "" then m[id] else id
  }

  predicate Reported(refs: seq<Ref>, id: string) {
    id != "" && exists i :: 0 <= i < |refs| && refs[i].id == id
  }

  predicate IsWanted(refs: seq<Ref>, m: Mapping, id: string) {
    exists i :: 0 <= i < |refs| && refs[i].id != "" && Wanted(m, refs[i].id) == id
  }

  /** The check: every reference reported afterwards is one wanted. */
  predicate Passes(refs: seq<Ref>, m: Mapping) {
    forall i :: 0 <= i < |refs| && AfterWalk(refs[i], m).id != "" ==> IsWanted(refs, m, AfterWalk(refs[i], m).id)
  }

  /** What a setting's type reports as its references, of five kinds; each type has its own. */
  type Report = Data -> RefLoads.Refs

  predicate ReportsID(refs: RefLoads.Refs, id: string) {
    id in refs.settings || id in refs.apps || id in refs.projects || id in refs.projectEnvs || id in refs.users
  }

  ghost predicate WantedAmong(before: RefLoads.Refs, m: Mapping, w: string) {
    exists id :: ReportsID(before, id) && Wanted(m, id) == w
  }

  /** The check as it is made: every identifier reported afterwards is one wanted. */
  ghost predicate Checks(before: RefLoads.Refs, after: RefLoads.Refs, m: Mapping) {
    forall id :: ReportsID(after, id) ==> WantedAmong(before, m, id)
  }

  /** With nothing to rewrite, or to rewrite by, all is as it was, and passes. */
  lemma NothingToRemap(v: Data, report: Report, m: Mapping)
    requires v.Nil? || m == map[]
    ensures Remapped(v, m, true) == v
    ensures m == map[] ==> Checks(report(v), report(v), m)
  {
    if m == map[] {
      RemappedByNothing(v, m, true);
      forall id | ReportsID(report(v), id) ensures WantedAmong(report(v), m, id) {
        assert Wanted(m, id) == id;
      }
    }
  }

  /** The references reported are those held, each at its place. */
  ghost predicate ReportsRefs(reported: RefLoads.Refs, refs: seq<Ref>) {
    forall id :: ReportsID(reported, id) <==> Reported(refs, id)
  }

  /** Comparing the identifiers reported before and after is comparing the references. */
  lemma ChecksIff(before: RefLoads.Refs, after: RefLoads.Refs, refs: seq<Ref>, now: seq<Ref>, m: Mapping)
    requires |now| == |refs| && forall i :: 0 <= i < |refs| ==> now[i] == AfterWalk(refs[i], m)
    requires ReportsRefs(before, refs) && ReportsRefs(after, now)
    ensures Checks(before, after, m) <==> Passes(refs, m)
  {
    forall w ensures WantedAmong(before, m, w) <==> IsWanted(refs, m, w) {
      WantedIsWanted(before, refs, m, w);
    }
    if Checks(before, after, m) {
      forall i | 0 <= i < |refs| && AfterWalk(refs[i], m).id != ""
        ensures IsWanted(refs, m, AfterWalk(refs[i], m).id)
      {
        assert now[i].id == AfterWalk(refs[i], m).id && Reported(now, now[i].id);
      }
    }
  }

  lemma WantedIsWanted(before: RefLoads.Refs, refs: seq<Ref>, m: Mapping, w: string)
    requires ReportsRefs(before, refs)
    ensures WantedAmong(before, m, w) <==> IsWanted(refs, m, w)
  {
    if WantedAmong(before, m, w) {
      var id :| ReportsID(before, id) && Wanted(m, id) == w;
      assert Reported(refs, id);
    }
    if IsWanted(refs, m, w) {
      var i :| 0 <= i < |refs| && refs[i].id != "" && Wanted(m, refs[i].id) == w;
      assert Reported(refs, refs[i].id);
    }
  }

  /** Of a type that reports the strings at some places: the check passes just when every
      reference afterwards is one wanted. */
  lemma RefsCheckedIff(v: Data, report: Report, refs: seq<Place>, m: Mapping)
    requires ReportsRefs(report(v), RefsAt(v, refs))
    requires ReportsRefs(report(Remapped(v, m, true)), RefsAt(Remapped(v, m, true), refs))
    ensures Checks(report(v), report(Remapped(v, m, true)), m) <==> Passes(RefsAt(v, refs), m)
  {
    RefsAfterWalk(v, refs, m);
    ChecksIff(report(v), report(Remapped(v, m, true)), RefsAt(v, refs), RefsAt(Remapped(v, m, true), refs), m);
  }

  /** The walk missed none that had to be rewritten. */
  predicate Complete(refs: seq<Ref>, m: Mapping) {
    forall i :: 0 <= i < |refs| && !refs[i].reached ==> Wanted(m, refs[i].id) == refs[i].id
  }

  /** References held where the walk reaches pass, and are afterwards what they were mapped
      to. */
  lemma ReachedRefsPass(refs: seq<Ref>, m: Mapping)
    requires forall i :: 0 <= i < |refs| ==> refs[i].reached
    requires "" !in m && forall x :: x in m ==> m[x] != ""
    ensures Passes(refs, m)
    ensures forall i :: 0 <= i < |refs| && refs[i].id != "" ==> AfterWalk(refs[i], m).id == Wanted(m, refs[i].id)
  {
    CompletePasses(refs, m);
  }

  lemma CompletePasses(refs: seq<Ref>, m: Mapping)
    requires "" !in m && Complete(refs, m)
    ensures Passes(refs, m)
  {
    forall i | 0 <= i < |refs| && AfterWalk(refs[i], m).id != ""
      ensures IsWanted(refs, m, AfterWalk(refs[i], m).id)
    {
      assert refs[i].id != "" && Wanted(m, refs[i].id) == AfterWalk(refs[i], m).id;
    }
  }

  /** A key of the mapping is the target of another, and has another target of its own. */
  predicate Chained(m: Mapping) {
    exists x, y :: x in m && y in m && x != y && m[x] == y && m[y] != y && m[y] != ""
  }

  /** The check passes just what is complete, whatever the references are and wherever they
      are held, exactly when no identifier is mapped to one that is mapped on. Where one
      is - two swapped, say - a reference the walk missed can go by unseen. */
  lemma CheckCatchesEveryMissIff(m: Mapping)
    requires "" !in m
    ensures (forall refs :: Passes(refs, m) <==> Complete(refs, m)) <==> !Chained(m)
  {
    if Chained(m) {
      var x, y :| x in m && y in m && x != y && m[x] == y && m[y] != y && m[y] != "";
      var refs := [Ref(y, false), Ref(x, true)];
      assert Wanted(m, refs[1].id) == y;
      assert IsWanted(refs, m, y);
      assert !refs[0].reached && Wanted(m, refs[0].id) != refs[0].id;
      assert Passes(refs, m) && !Complete(refs, m);
    } else {
      forall refs
        ensures Passes(refs, m) <==> Complete(refs, m)
      {
        if Complete(refs, m) {
          CompletePasses(refs, m);
        }
        if Passes(refs, m) {
          PassingIsComplete(refs, m);
        }
      }
    }
  }

  lemma PassingIsComplete(refs: seq<Ref>, m: Mapping)
    requires "" !in m && !Chained(m) && Passes(refs, m)
    ensures Complete(refs, m)
  {
    forall i | 0 <= i < |refs| && !refs[i].reached
      ensures Wanted(m, refs[i].id) == refs[i].id
    {
      var y := refs[i].id;
      if y != "" {
        assert AfterWalk(refs[i], m).id == y;
        var j :| 0 <= j < |refs| && refs[j].id != "" && Wanted(m, refs[j].id) == y;
      }
    }
  }
}
