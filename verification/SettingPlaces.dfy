/** What the walks over a setting do, place by place: a place is a path of slots, and a walk
    comes by it just when the path goes through no unexported field. */
module SettingPlaces {
  import opened Wrappers
  import opened SettingTrees

  /** A place in a setting: which slot to go into, container by container. */
  type Place = seq<nat>

  function At(v: Data, p: Place): Option<Data>
    decreases |p|
  {
    if p == [] then Some(v)
    else if v.Node? && p[0] < |v.slots| then At(v.slots[p[0]].value, p[1..])
    else None
  }

  predicate SecretAt(v: Data, p: Place, s: Sec) {
    At(v, p) == Some(Secret(s))
  }

  /** The path to a place goes through an unexported field. */
  predicate Hidden(v: Data, p: Place)
    decreases |p|
  {
    p != [] && v.Node? && p[0] < |v.slots|
    && (v.slots[p[0]].tag == Field(false) || Hidden(v.slots[p[0]].value, p[1..]))
  }

  // ---------------------------------------------------------------- Secrets changed

  /** A walk that changes secrets changes what is at each place it comes by, and nothing else. */
  lemma {:induction false} WalkAt(v: Data, f: Sec -> Sec, p: Place)
    ensures At(v, p).Some? <==> At(WithSecrets(v, f, false), p).Some?
    ensures At(v, p).Some? ==>
              At(WithSecrets(v, f, false), p).value
              == if Hidden(v, p) then At(v, p).value else WithSecrets(At(v, p).value, f, false)
    decreases |p|
  {
    if p != [] && v.Node? && p[0] < |v.slots| && v.slots[p[0]].tag != Field(false) {
      WalkAt(v.slots[p[0]].value, f, p[1..]);
    }
  }

  lemma SecretAfterWalk(v: Data, f: Sec -> Sec, p: Place, s: Sec)
    requires SecretAt(v, p, s)
    ensures SecretAt(WithSecrets(v, f, false), p, if Hidden(v, p) then s else f(s))
  {
    WalkAt(v, f, p);
  }

  /** Omitting empties every secret but those in unexported fields, which stay. */
  lemma OmittedAt(v: Data, p: Place, s: Sec)
    requires Typed(v) && SecretAt(v, p, s)
    ensures SecretAt(Omitted(v), p, if Hidden(v, p) then s else Sec("", ""))
  {
    PruningIsSound(v, OMIT);
    SecretAfterWalk(v, OMIT, p, s);
  }

  // ---------------------------------------------------------------- Secrets reached, and counted

  /** The places of secrets a walk comes by, in its order. */
  function PlacesOf(v: Data): seq<Place>
    decreases v
  {
    match v
    case Node(_, slots) => PlacesOfSlots(slots)
    case Secret(_) => [[]]
    case _ => []
  }

  function PlacesOfSlots(slots: seq<DataSlot>): seq<Place>
    decreases slots
  {
    if slots == [] then []
    else
      var n := |slots| - 1;
      PlacesOfSlots(slots[..n]) + Within(n, PlacesOfSlot(slots[n]))
  }

  function PlacesOfSlot(slot: DataSlot): seq<Place>
    decreases slot
  {
    if Skipped(slot.tag) then [] else PlacesOf(slot.value)
  }

  function Within(n: nat, ps: seq<Place>): (r: seq<Place>)
    ensures |r| == |ps| && forall i :: 0 <= i < |ps| ==> r[i] == [n] + ps[i]
  {
    seq(|ps|, i requires 0 <= i < |ps| => [n] + ps[i])
  }

  /** The places hold the secrets reached, one each. */
  ghost predicate Hold(v: Data, ps: seq<Place>, ss: seq<Sec>) {
    |ps| == |ss| && forall i :: 0 <= i < |ps| ==> SecretAt(v, ps[i], ss[i]) && !Hidden(v, ps[i])
  }

  ghost predicate Distinct(ps: seq<Place>) {
    forall i, j :: 0 <= i < j < |ps| ==> ps[i] != ps[j]
  }

  lemma {:induction false} PlacesHold(v: Data)
    ensures Hold(v, PlacesOf(v), SecretsOf(v, false)) && Distinct(PlacesOf(v))
    decreases v
  {
    if v.Node? {
      PlacesInSlotsHold(v.kind, v.slots, |v.slots|);
      assert v.slots[..|v.slots|] == v.slots;
    }
  }

  ghost predicate HoldUpTo(kind: Kind, slots: seq<DataSlot>, n: nat)
    requires n <= |slots|
  {
    && Hold(Node(kind, slots), PlacesOfSlots(slots[..n]), SecretsOfSlots(slots[..n], false))
    && Distinct(PlacesOfSlots(slots[..n]))
    && forall i :: 0 <= i < |PlacesOfSlots(slots[..n])| ==>
         PlacesOfSlots(slots[..n])[i] != [] && PlacesOfSlots(slots[..n])[i][0] < n
  }

  lemma {:induction false} PlacesInSlotsHold(kind: Kind, slots: seq<DataSlot>, n: nat)
    requires n <= |slots|
    ensures HoldUpTo(kind, slots, n)
    decreases slots, n
  {
    if n > 0 {
      PlacesInSlotsHold(kind, slots, n - 1);
      PlacesInSlotHold(slots[n - 1]);
      OneMoreHolds(kind, slots, n);
    }
  }

  lemma {:induction false} PlacesInSlotHold(slot: DataSlot)
    ensures !Skipped(slot.tag) ==> Hold(slot.value, PlacesOf(slot.value), SecretsOf(slot.value, false))
    ensures !Skipped(slot.tag) ==> Distinct(PlacesOf(slot.value))
    decreases slot
  {
    PlacesHold(slot.value);
  }

  lemma OneMoreHolds(kind: Kind, slots: seq<DataSlot>, n: nat)
    requires 0 < n <= |slots| && HoldUpTo(kind, slots, n - 1)
    requires var slot := slots[n - 1];
             !Skipped(slot.tag) ==>
               && Hold(slot.value, PlacesOf(slot.value), SecretsOf(slot.value, false))
               && Distinct(PlacesOf(slot.value))
    ensures HoldUpTo(kind, slots, n)
  {
    var slot := slots[n - 1];
    var before, more := PlacesOfSlots(slots[..n - 1]), Within(n - 1, PlacesOfSlot(slot));
    assert slots[..n][..n - 1] == slots[..n - 1];
    assert PlacesOfSlots(slots[..n]) == before + more;
    assert SecretsOfSlots(slots[..n], false) == SecretsOfSlots(slots[..n - 1], false) + SecretsOfSlot(slot, false);
    forall i | 0 <= i < |more|
      ensures more[i] != [] && more[i][0] == n - 1 && more[i][1..] == PlacesOfSlot(slot)[i]
    {
    }
  }

  /** And every place of a secret outside unexported fields is one of them. */
  lemma {:induction false} PlacesAreAll(v: Data, p: Place, s: Sec)
    requires SecretAt(v, p, s) && !Hidden(v, p)
    ensures p in PlacesOf(v)
    decreases |p|
  {
    if p != [] {
      PlacesAreAll(v.slots[p[0]].value, p[1..], s);
      assert [p[0]] + p[1..] == p;
      InSlots(v.slots, p[0], p[1..]);
    }
  }

  lemma {:induction false} InSlots(slots: seq<DataSlot>, k: nat, q: Place)
    requires k < |slots| && q in PlacesOfSlot(slots[k])
    ensures [k] + q in PlacesOfSlots(slots)
    decreases |slots|
  {
    var n := |slots| - 1;
    if k < n {
      InSlots(slots[..n], k, q);
    } else {
      var i :| 0 <= i < |PlacesOfSlot(slots[n])| && PlacesOfSlot(slots[n])[i] == q;
      assert Within(n, PlacesOfSlot(slots[n]))[i] == [k] + q;
    }
  }

  /** What a walk reaches: the secrets outside unexported fields, each from its own place. */
  lemma SecretsAreThoseAtPlaces(v: Data)
    requires Typed(v)
    ensures Hold(v, PlacesOf(v), SecretsOf(v, true)) && Distinct(PlacesOf(v))
    ensures forall p, s :: SecretAt(v, p, s) && !Hidden(v, p) ==> p in PlacesOf(v)
  {
    PruningIsSound(v, OMIT);
    PlacesHold(v);
    forall p, s | SecretAt(v, p, s) && !Hidden(v, p) ensures p in PlacesOf(v) {
      PlacesAreAll(v, p, s);
    }
  }

  /** Whether there is a secret at a place a walk comes by, and it holds nothing, or something. */
  ghost predicate Counted(v: Data, p: Place, empty: bool) {
    !Hidden(v, p) && exists s :: SecretAt(v, p, s) && (empty <==> s == Sec("", ""))
  }

  /** Of places, those whose secret holds nothing, or something. */
  function Chosen(ps: seq<Place>, ss: seq<Sec>, empty: bool): set<Place>
    requires |ps| == |ss|
  {
    if ps == [] then {}
    else
      var n := |ps| - 1;
      Chosen(ps[..n], ss[..n], empty) + if ss[n].IsEmpty() == empty then {ps[n]} else {}
  }

  lemma {:induction false} ChosenIff(ps: seq<Place>, ss: seq<Sec>, empty: bool, p: Place)
    requires |ps| == |ss|
    ensures p in Chosen(ps, ss, empty) <==> exists i :: 0 <= i < |ps| && ps[i] == p && ss[i].IsEmpty() == empty
  {
    if ps != [] {
      var n := |ps| - 1;
      ChosenIff(ps[..n], ss[..n], empty, p);
      if i :| 0 <= i < |ps[..n]| && ps[..n][i] == p && ss[..n][i].IsEmpty() == empty {
        assert ps[i] == p && ss[i].IsEmpty() == empty;
      }
      if i :| 0 <= i < |ps| && ps[i] == p && ss[i].IsEmpty() == empty && i < n {
        assert ps[..n][i] == p && ss[..n][i].IsEmpty() == empty;
      }
    }
  }

  lemma DistinctInit(ps: seq<Place>)
    requires Distinct(ps) && ps != []
    ensures Distinct(ps[..|ps| - 1]) && forall i :: 0 <= i < |ps| - 1 ==> ps[i] != ps[|ps| - 1]
  {
  }

  lemma LastIsNew(ps: seq<Place>, ss: seq<Sec>, empty: bool)
    requires |ps| == |ss| > 0 && Distinct(ps)
    ensures ps[|ps| - 1] !in Chosen(ps[..|ps| - 1], ss[..|ps| - 1], empty)
  {
    var n := |ps| - 1;
    DistinctInit(ps);
    ChosenIff(ps[..n], ss[..n], empty, ps[n]);
  }

  lemma {:induction false} ChosenCounts(ps: seq<Place>, ss: seq<Sec>, empty: bool)
    requires |ps| == |ss| && Distinct(ps)
    ensures |Chosen(ps, ss, empty)| == if empty then EmptyCount(ss) else |ss| - EmptyCount(ss)
  {
    if ps != [] {
      DistinctInit(ps);
      ChosenCounts(ps[..|ps| - 1], ss[..|ss| - 1], empty);
      LastIsNew(ps, ss, empty);
    }
  }

  lemma ChosenIsCounted(v: Data, ps: seq<Place>, ss: seq<Sec>, empty: bool, p: Place)
    requires Hold(v, ps, ss) && forall q, s :: SecretAt(v, q, s) && !Hidden(v, q) ==> q in ps
    ensures p in Chosen(ps, ss, empty) <==> Counted(v, p, empty)
  {
    ChosenIff(ps, ss, empty, p);
    if Counted(v, p, empty) {
      var s :| SecretAt(v, p, s) && (empty <==> s == Sec("", ""));
      var i :| 0 <= i < |ps| && ps[i] == p;
      assert SecretAt(v, ps[i], ss[i]);
    }
    if i :| 0 <= i < |ps| && ps[i] == p && ss[i].IsEmpty() == empty {
      assert SecretAt(v, ps[i], ss[i]);
    }
  }

  /** The counts are the numbers of those places. */
  lemma CountsArePlaces(v: Data, empty: bool, places: set<Place>)
    requires Typed(v) && forall p :: p in places <==> Counted(v, p, empty)
    ensures |places| == if empty then CountEmpty(v) else CountHeld(v)
  {
    var ps, ss := PlacesOf(v), SecretsOf(v, true);
    SecretsAreThoseAtPlaces(v);
    ChosenCounts(ps, ss, empty);
    forall p ensures p in places <==> p in Chosen(ps, ss, empty) {
      ChosenIsCounted(v, ps, ss, empty, p);
    }
    assert places == Chosen(ps, ss, empty);
  }

  // ---------------------------------------------------------------- Secrets kept

  /** A place of one setting and the place of another that goes with it: in maps the entry of
      the same key, wherever it stands, and elsewhere the slot that stands there. */
  predicate GoesWith(dst: Data, src: Data, p: Place, q: Place)
    decreases |p|
  {
    if p == [] then q == []
    else
      && q != [] && dst.Node? && src.Node? && dst.kind == src.kind
      && p[0] < |dst.slots| && q[0] < |src.slots|
      && (if dst.kind.Map? then src.slots[q[0]].tag == dst.slots[p[0]].tag else q[0] == p[0])
      && GoesWith(dst.slots[p[0]].value, src.slots[q[0]].value, p[1..], q[1..])
  }

  lemma {:induction false} FilledFrom(dst: Data, src: Data, p: Place, q: Place, d: Sec, s: Sec)
    requires DistinctKeys(src) && SecretAt(dst, p, d) && !Hidden(dst, p)
    requires GoesWith(dst, src, p, q) && SecretAt(src, q, s)
    ensures SecretAt(Kept(dst, src, false), p, if d == Sec("", "") && s != Sec("", "") then s else d)
    decreases |p|
  {
    if p != [] {
      assert Counterpart(dst.kind, dst.slots, p[0], src.slots) == q[0];
      assert DistinctKeysInSlot(src.slots[q[0]]);
      assert Kept(dst, src, false).slots[p[0]] == KeptSlot(dst.slots[p[0]], q[0], src.slots, false);
      FilledFrom(dst.slots[p[0]].value, src.slots[q[0]].value, p[1..], q[1..], d, s);
    }
  }

  ghost predicate HasCounterpart(dst: Data, src: Data, p: Place) {
    exists q, s :: GoesWith(dst, src, p, q) && SecretAt(src, q, s)
  }

  lemma {:induction false} NotFilled(dst: Data, src: Data, p: Place, d: Sec)
    requires SecretAt(dst, p, d) && (Hidden(dst, p) || !HasCounterpart(dst, src, p))
    ensures SecretAt(Kept(dst, src, false), p, d)
    decreases |p|
  {
    if p == [] {
      if src.Secret? {
        assert GoesWith(dst, src, p, []) && SecretAt(src, [], src.secret);
      }
    } else if src.Node? && src.kind == dst.kind {
      var j := Counterpart(dst.kind, dst.slots, p[0], src.slots);
      var slot := dst.slots[p[0]];
      assert Kept(dst, src, false).slots[p[0]] == KeptSlot(slot, j, src.slots, false);
      if slot.tag != Field(false) && j < |src.slots| {
        if HasCounterpart(slot.value, src.slots[j].value, p[1..]) {
          var q, s :| GoesWith(slot.value, src.slots[j].value, p[1..], q) && SecretAt(src.slots[j].value, q, s);
          assert ([j] + q)[1..] == q;
          assert GoesWith(dst, src, p, [j] + q) && SecretAt(src, [j] + q, s);
        }
        NotFilled(slot.value, src.slots[j].value, p[1..], d);
      }
    }
  }

  /** Keeping fills a secret that holds nothing from the place of the other setting that goes
      with its own, if a secret is there that holds something; every other one stays. */
  lemma KeptSecretAt(dst: Data, src: Data, p: Place, d: Sec)
    requires Typed(dst) && DistinctKeys(src) && SecretAt(dst, p, d)
    ensures Hidden(dst, p) || !HasCounterpart(dst, src, p) ==> SecretAt(Kept(dst, src, true), p, d)
    ensures forall q, s :: !Hidden(dst, p) && GoesWith(dst, src, p, q) && SecretAt(src, q, s) ==>
              SecretAt(Kept(dst, src, true), p, if d == Sec("", "") && s != Sec("", "") then s else d)
  {
    PruningKeepIsSound(dst, src);
    if Hidden(dst, p) || !HasCounterpart(dst, src, p) {
      NotFilled(dst, src, p, d);
    }
    forall q, s | !Hidden(dst, p) && GoesWith(dst, src, p, q) && SecretAt(src, q, s)
      ensures SecretAt(Kept(dst, src, true), p, if d == Sec("", "") && s != Sec("", "") then s else d)
    {
      FilledFrom(dst, src, p, q, d, s);
    }
  }
}
