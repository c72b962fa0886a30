/** Re-encrypting a setting: the walk that drops every ciphertext kept, the marshaling that
    seals the secrets again, and what the two leave of the setting. */
module Reencryption {
  import opened Wrappers
  import opened SettingTrees
  import opened SettingPlaces
  import opened EncryptedFields
  import opened SettingWalks

  type Result<+T> = EncryptedFields.Result<T>

  // ---------------------------------------------------------------- Secrets in copies

  /** Whether what a container holds is a copy, given whether the container is one. The
      entries of a map are got at as copies; what is behind a pointer is shared. */
  function CopiesIn(kind: Kind, copied: bool): bool {
    kind.Map? || (kind.Struct? && copied)
  }

  /** For each secret a walk reaches, whether it is in a copy: by value in a map's entry. */
  function CopiesOf(v: Data, prune: bool, copied: bool): seq<bool>
    decreases v
  {
    match v
    case Node(kind, slots) =>
      if Pruned(kind, prune) then [] else CopiesOfSlots(slots, prune, CopiesIn(kind, copied))
    case Secret(_) => [copied]
    case _ => []
  }

  function CopiesOfSlots(slots: seq<DataSlot>, prune: bool, copied: bool): seq<bool>
    decreases slots
  {
    if slots == [] then []
    else CopiesOfSlots(slots[..|slots| - 1], prune, copied) + CopiesOfSlot(slots[|slots| - 1], prune, copied)
  }

  function CopiesOfSlot(slot: DataSlot, prune: bool, copied: bool): seq<bool>
    decreases slot
  {
    if Skipped(slot.tag) then [] else CopiesOf(slot.value, prune, copied)
  }

  lemma {:induction false} CopiesAsSecrets(v: Data, prune: bool, copied: bool)
    ensures |CopiesOf(v, prune, copied)| == |SecretsOf(v, prune)|
    decreases v
  {
    if v.Node? && !Pruned(v.kind, prune) {
      CopiesAsSecretsInSlots(v.slots, prune, CopiesIn(v.kind, copied));
    }
  }

  lemma {:induction false} CopiesAsSecretsInSlots(slots: seq<DataSlot>, prune: bool, copied: bool)
    ensures |CopiesOfSlots(slots, prune, copied)| == |SecretsOfSlots(slots, prune)|
    decreases slots
  {
    if slots != [] {
      CopiesAsSecretsInSlots(slots[..|slots| - 1], prune, copied);
      CopiesAsSecretsInSlot(slots[|slots| - 1], prune, copied);
    }
  }

  lemma {:induction false} CopiesAsSecretsInSlot(slot: DataSlot, prune: bool, copied: bool)
    ensures |CopiesOfSlot(slot, prune, copied)| == |SecretsOfSlot(slot, prune)|
    decreases slot
  {
    if !Skipped(slot.tag) {
      CopiesAsSecrets(slot.value, prune, copied);
    }
  }

  /** Pruning is sound here, too. */
  lemma {:induction false} PruningCopiesIsSound(v: Data, copied: bool)
    requires Typed(v)
    ensures CopiesOf(v, true, copied) == CopiesOf(v, false, copied)
    decreases v
  {
    if v.Node? {
      if Pruned(v.kind, true) {
        PruningIsSound(v, OMIT);
        CopiesAsSecrets(v, false, copied);
      } else {
        forall i | 0 <= i < |v.slots|
          ensures CopiesOfSlot(v.slots[i], true, CopiesIn(v.kind, copied))
               == CopiesOfSlot(v.slots[i], false, CopiesIn(v.kind, copied))
        {
          PruningCopiesInSlotIsSound(v.slots[i], CopiesIn(v.kind, copied));
        }
        SameCopiesInSlots(v.slots, CopiesIn(v.kind, copied));
      }
    }
  }

  lemma {:induction false} PruningCopiesInSlotIsSound(slot: DataSlot, copied: bool)
    requires TypedSlot(slot)
    ensures CopiesOfSlot(slot, true, copied) == CopiesOfSlot(slot, false, copied)
    decreases slot
  {
    PruningCopiesIsSound(slot.value, copied);
  }

  lemma {:induction false} SameCopiesInSlots(slots: seq<DataSlot>, copied: bool)
    requires forall i :: 0 <= i < |slots| ==>
               CopiesOfSlot(slots[i], true, copied) == CopiesOfSlot(slots[i], false, copied)
    ensures CopiesOfSlots(slots, true, copied) == CopiesOfSlots(slots, false, copied)
  {
    if slots != [] {
      SameCopiesInSlots(slots[..|slots| - 1], copied);
    }
  }

  // ---------------------------------------------------------------- Secrets one by one

  /** What becomes of a secret, given whether it is in a copy. */
  type Change = (bool, Sec, Sec) -> bool

  /** Data that differs in the secrets a walk reaches alone, each from its own by a relation. */
  ghost predicate Related(v: Data, w: Data, rel: Change, prune: bool, copied: bool)
    decreases v
  {
    match v
    case Node(kind, slots) =>
      if Pruned(kind, prune) then w == v
      else w.Node? && w.kind == kind && RelatedSlots(slots, w.slots, rel, prune, CopiesIn(kind, copied))
    case Secret(s) => w.Secret? && rel(copied, s, w.secret)
    case _ => w == v
  }

  ghost predicate RelatedSlots(slots: seq<DataSlot>, others: seq<DataSlot>, rel: Change, prune: bool, copied: bool)
    decreases slots
  {
    && |slots| == |others|
    && forall i :: 0 <= i < |slots| ==> RelatedSlot(slots[i], others[i], rel, prune, copied)
  }

  ghost predicate RelatedSlot(slot: DataSlot, other: DataSlot, rel: Change, prune: bool, copied: bool)
    decreases slot
  {
    if Skipped(slot.tag) then other == slot
    else other.tag == slot.tag && Related(slot.value, other.value, rel, prune, copied)
  }

  ghost predicate Pairwise(cs: seq<bool>, ss: seq<Sec>, ts: seq<Sec>, rel: Change) {
    |cs| == |ss| == |ts| && forall i :: 0 <= i < |ss| ==> rel(cs[i], ss[i], ts[i])
  }

  lemma PairwiseAppend(cs: seq<bool>, ss: seq<Sec>, ts: seq<Sec>,
                       cs': seq<bool>, ss': seq<Sec>, ts': seq<Sec>, rel: Change)
    requires Pairwise(cs, ss, ts, rel) && Pairwise(cs', ss', ts', rel)
    ensures Pairwise(cs + cs', ss + ss', ts + ts', rel)
  {
  }

  /** Related data is the same but for its secrets, and they are related in order. */
  lemma {:induction false} RelatedDiffersInSecrets(v: Data, w: Data, rel: Change, prune: bool, copied: bool)
    requires Related(v, w, rel, prune, copied)
    ensures WithSecrets(w, OMIT, prune) == WithSecrets(v, OMIT, prune)
    ensures Pairwise(CopiesOf(v, prune, copied), SecretsOf(v, prune), SecretsOf(w, prune), rel)
    ensures CopiesOf(w, prune, copied) == CopiesOf(v, prune, copied)
    decreases v
  {
    if v.Node? && !Pruned(v.kind, prune) {
      RelatedSlotsDifferInSecrets(v.slots, w.slots, rel, prune, CopiesIn(v.kind, copied));
    }
  }

  lemma {:induction false} RelatedSlotsDifferInSecrets(slots: seq<DataSlot>, others: seq<DataSlot>,
                                                       rel: Change, prune: bool, copied: bool)
    requires RelatedSlots(slots, others, rel, prune, copied)
    ensures WithSecretsSlots(others, OMIT, prune) == WithSecretsSlots(slots, OMIT, prune)
    ensures Pairwise(CopiesOfSlots(slots, prune, copied), SecretsOfSlots(slots, prune),
                     SecretsOfSlots(others, prune), rel)
    ensures CopiesOfSlots(others, prune, copied) == CopiesOfSlots(slots, prune, copied)
    decreases slots
  {
    if slots != [] {
      var n := |slots| - 1;
      RelatedSlotsDifferInSecrets(slots[..n], others[..n], rel, prune, copied);
      RelatedSlotDiffersInSecrets(slots[n], others[n], rel, prune, copied);
      PairwiseAppend(CopiesOfSlots(slots[..n], prune, copied), SecretsOfSlots(slots[..n], prune),
                     SecretsOfSlots(others[..n], prune),
                     CopiesOfSlot(slots[n], prune, copied), SecretsOfSlot(slots[n], prune),
                     SecretsOfSlot(others[n], prune), rel);
    }
  }

  lemma {:induction false} RelatedSlotDiffersInSecrets(slot: DataSlot, other: DataSlot,
                                                       rel: Change, prune: bool, copied: bool)
    requires RelatedSlot(slot, other, rel, prune, copied)
    ensures WithSecretsSlot(other, OMIT, prune) == WithSecretsSlot(slot, OMIT, prune)
    ensures Pairwise(CopiesOfSlot(slot, prune, copied), SecretsOfSlot(slot, prune), SecretsOfSlot(other, prune), rel)
    ensures CopiesOfSlot(other, prune, copied) == CopiesOfSlot(slot, prune, copied)
    decreases slot
  {
    if !Skipped(slot.tag) {
      RelatedDiffersInSecrets(slot.value, other.value, rel, prune, copied);
    }
  }

  /** What is at a place is a copy: on the path to it, the last container that is no struct is
      a map. */
  predicate CopiedAt(v: Data, p: Place, copied: bool)
    decreases |p|
  {
    if p == [] || !v.Node? || p[0] >= |v.slots| then copied
    else
      match v.kind
      case Map(_) => CopiedAt(v.slots[p[0]].value, p[1..], true)
      case Struct(_) => CopiedAt(v.slots[p[0]].value, p[1..], copied)
      case _ => CopiedAt(v.slots[p[0]].value, p[1..], false)
  }

  /** Place by place: a secret outside unexported fields is related to the one then there, and
      every other stays. */
  lemma {:induction false} RelatedAt(v: Data, w: Data, rel: Change, copied: bool, p: Place, s: Sec)
    requires Related(v, w, rel, false, copied) && SecretAt(v, p, s)
    ensures Hidden(w, p) == Hidden(v, p) && CopiedAt(w, p, copied) == CopiedAt(v, p, copied)
    ensures Hidden(v, p) ==> SecretAt(w, p, s)
    ensures !Hidden(v, p) ==>
              At(w, p).Some? && At(w, p).value.Secret? && rel(CopiedAt(v, p, copied), s, At(w, p).value.secret)
    decreases |p|
  {
    if p != [] {
      assert RelatedSlot(v.slots[p[0]], w.slots[p[0]], rel, false, CopiesIn(v.kind, copied));
      if v.slots[p[0]].tag != Field(false) {
        RelatedAt(v.slots[p[0]].value, w.slots[p[0]].value, rel, CopiesIn(v.kind, copied), p[1..], s);
      }
    }
  }

  /** A relation that is a function is the walk with that function. */
  lemma {:induction false} RelatedByFunction(v: Data, w: Data, rel: Change, f: Sec -> Sec, prune: bool, copied: bool)
    requires Related(v, w, rel, prune, copied) && forall c, s, t :: rel(c, s, t) ==> t == f(s)
    ensures w == WithSecrets(v, f, prune)
    decreases v
  {
    if v.Node? && !Pruned(v.kind, prune) {
      forall i | 0 <= i < |v.slots|
        ensures w.slots[i] == WithSecretsSlot(v.slots[i], f, prune)
      {
        SlotRelatedByFunction(v.slots[i], w.slots[i], rel, f, prune, CopiesIn(v.kind, copied));
      }
    }
  }

  lemma {:induction false} SlotRelatedByFunction(slot: DataSlot, other: DataSlot, rel: Change,
                                                 f: Sec -> Sec, prune: bool, copied: bool)
    requires RelatedSlot(slot, other, rel, prune, copied) && forall c, s, t :: rel(c, s, t) ==> t == f(s)
    ensures other == WithSecretsSlot(slot, f, prune)
    decreases slot
  {
    if !Skipped(slot.tag) {
      RelatedByFunction(slot.value, other.value, rel, f, prune, copied);
    }
  }

  /** And the walk with a function relates by it. */
  lemma {:induction false} FunctionRelates(v: Data, rel: Change, f: Sec -> Sec, prune: bool, copied: bool)
    requires forall c, s :: rel(c, s, f(s))
    ensures Related(v, WithSecrets(v, f, prune), rel, prune, copied)
    decreases v
  {
    if v.Node? && !Pruned(v.kind, prune) {
      forall i | 0 <= i < |v.slots|
        ensures RelatedSlot(v.slots[i], WithSecretsSlot(v.slots[i], f, prune), rel, prune, CopiesIn(v.kind, copied))
      {
        FunctionRelatesSlot(v.slots[i], rel, f, prune, CopiesIn(v.kind, copied));
      }
    }
  }

  lemma {:induction false} FunctionRelatesSlot(slot: DataSlot, rel: Change, f: Sec -> Sec, prune: bool, copied: bool)
    requires forall c, s :: rel(c, s, f(s))
    ensures RelatedSlot(slot, WithSecretsSlot(slot, f, prune), rel, prune, copied)
    decreases slot
  {
    if !Skipped(slot.tag) {
      FunctionRelates(slot.value, rel, f, prune, copied);
    }
  }

  /** What is asked of a secret, given whether it is in a copy. */
  type Demand = (bool, Sec) -> bool

  /** What holds of every secret a walk reaches. */
  ghost predicate Every(v: Data, p: Demand, prune: bool, copied: bool)
    decreases v
  {
    match v
    case Node(kind, slots) => Pruned(kind, prune) || EverySlot(slots, |slots|, p, prune, CopiesIn(kind, copied))
    case Secret(s) => p(copied, s)
    case _ => true
  }

  /** What holds of every secret reached in the first slots. */
  ghost predicate EverySlot(slots: seq<DataSlot>, n: nat, p: Demand, prune: bool, copied: bool)
    requires n <= |slots|
    decreases slots, 0
  {
    forall i :: 0 <= i < n ==> EveryIn(slots[i], p, prune, copied)
  }

  ghost predicate EveryIn(slot: DataSlot, p: Demand, prune: bool, copied: bool)
    decreases slot
  {
    Skipped(slot.tag) || Every(slot.value, p, prune, copied)
  }

  ghost predicate AllMeet(cs: seq<bool>, ss: seq<Sec>, p: Demand) {
    |cs| == |ss| && forall i :: 0 <= i < |ss| ==> p(cs[i], ss[i])
  }

  lemma AllMeetAppend(cs: seq<bool>, ss: seq<Sec>, cs': seq<bool>, ss': seq<Sec>, p: Demand)
    requires |cs| == |ss| && |cs'| == |ss'|
    ensures AllMeet(cs + cs', ss + ss', p) <==> AllMeet(cs, ss, p) && AllMeet(cs', ss', p)
  {
    assert forall i :: 0 <= i < |ss| ==> (ss + ss')[i] == ss[i] && (cs + cs')[i] == cs[i];
    assert forall i :: 0 <= i < |ss'| ==> (ss + ss')[|ss| + i] == ss'[i] && (cs + cs')[|ss| + i] == cs'[i];
  }

  lemma {:induction false} EveryIff(v: Data, p: Demand, prune: bool, copied: bool)
    ensures Every(v, p, prune, copied) <==> AllMeet(CopiesOf(v, prune, copied), SecretsOf(v, prune), p)
    decreases v
  {
    if v.Node? && !Pruned(v.kind, prune) {
      EverySlotIff(v.slots, |v.slots|, p, prune, CopiesIn(v.kind, copied));
      assert v.slots[..|v.slots|] == v.slots;
    } else if v.Secret? {
      assert CopiesOf(v, prune, copied)[0] == copied && SecretsOf(v, prune)[0] == v.secret;
    }
  }

  lemma {:induction false} EverySlotIff(slots: seq<DataSlot>, n: nat, p: Demand, prune: bool, copied: bool)
    requires n <= |slots|
    ensures EverySlot(slots, n, p, prune, copied)
       <==> AllMeet(CopiesOfSlots(slots[..n], prune, copied), SecretsOfSlots(slots[..n], prune), p)
    decreases slots, n
  {
    if n > 0 {
      EverySlotIff(slots, n - 1, p, prune, copied);
      EveryInIff(slots[n - 1], p, prune, copied);
      assert slots[..n][..n - 1] == slots[..n - 1];
      CopiesAsSecretsInSlots(slots[..n - 1], prune, copied);
      CopiesAsSecretsInSlot(slots[n - 1], prune, copied);
      AllMeetAppend(CopiesOfSlots(slots[..n - 1], prune, copied), SecretsOfSlots(slots[..n - 1], prune),
                    CopiesOfSlot(slots[n - 1], prune, copied), SecretsOfSlot(slots[n - 1], prune), p);
      assert EverySlot(slots, n, p, prune, copied)
        <==> EverySlot(slots, n - 1, p, prune, copied) && EveryIn(slots[n - 1], p, prune, copied);
    }
  }

  lemma {:induction false} EveryInIff(slot: DataSlot, p: Demand, prune: bool, copied: bool)
    ensures EveryIn(slot, p, prune, copied)
       <==> AllMeet(CopiesOfSlot(slot, prune, copied), SecretsOfSlot(slot, prune), p)
    decreases slot
  {
    if !Skipped(slot.tag) {
      EveryIff(slot.value, p, prune, copied);
    }
  }

  // ---------------------------------------------------------------- The walk

  function Reencrypting(key: Option<Key>): Sec -> Sec {
    s => Reencrypted(key, s)
  }

  function Rewritten(key: Option<Key>): Change {
    (c, s, t) => t == Reencrypted(key, s)
  }

  /** A secret's plaintext can be had. */
  function Opening(key: Option<Key>): Demand {
    (c, s) => Plain(key, s).Success?
  }

  /** Re-encrypts every encrypted field reached, and says how many held something; it stops
      at the first that cannot be decrypted. */
  method ReencryptValue(v: Stored, key: Option<Key>, ghost copied: bool, ghost all: set<object>)
    returns (r: Result<nat>)
    requires NoAlias(v) && Fields(v) + Strings(v) <= all
    modifies Fields(v)
    ensures r.Success? <==> Every(old(Reading(v)), Opening(key), true, copied)
    ensures r.Success? ==> Related(old(Reading(v)), Reading(v), Rewritten(key), true, copied)
    ensures r.Success? ==> r.value == Tally(old(Reading(v)), false)
    decreases v
  {
    match v
    case Secret(f) =>
      if f.encrypted == "" && f.decrypted == "" {
        assert Reencrypted(key, f.Value()) == f.Value();
        return Success(0);
      }
      var done := f.Reencrypt(key);
      return if done.Failure? then Failure(done.error) else Success(1);
    case Node(kind, slots) =>
      if kind.Map? && !TypeHoldsSecret(kind.elem) {
        return Success(0);
      }
      r := ReencryptSlots(slots, key, CopiesIn(kind, copied), all);
    case _ => return Success(0);
  }

  /** The first slots re-encrypted, the others as they were, and the count so far. */
  ghost predicate IsRewrittenUpTo(key: Option<Key>, copied: bool, data: seq<DataSlot>, i: nat,
                                  now: seq<DataSlot>, count: int)
  {
    && i <= |data| == |now| && count == TallyUpTo(data, i, false)
    && EverySlot(data, i, Opening(key), true, copied)
    && (forall j :: 0 <= j < i ==> RelatedSlot(data[j], now[j], Rewritten(key), true, copied))
    && (forall j :: i <= j < |data| ==> now[j] == data[j])
  }

  lemma OneMoreRewritten(key: Option<Key>, copied: bool, data: seq<DataSlot>, i: nat, now: seq<DataSlot>, count: int,
                         d: DataSlot)
    requires IsRewrittenUpTo(key, copied, data, i, now, count) && i < |data|
    requires EveryIn(data[i], Opening(key), true, copied) && RelatedSlot(data[i], d, Rewritten(key), true, copied)
    ensures IsRewrittenUpTo(key, copied, data, i + 1, now[i := d], count + TallyOfSlot(data[i], false))
  {
  }

  lemma AllRewritten(key: Option<Key>, copied: bool, data: seq<DataSlot>, now: seq<DataSlot>, count: int)
    requires IsRewrittenUpTo(key, copied, data, |data|, now, count)
    ensures EverySlot(data, |data|, Opening(key), true, copied)
    ensures RelatedSlots(data, now, Rewritten(key), true, copied) && count == TallyUpTo(data, |data|, false)
  {
  }

  method ReencryptSlots(slots: seq<StoredSlot>, key: Option<Key>, ghost copied: bool, ghost all: set<object>)
    returns (r: Result<nat>)
    requires NoAliasInSlots(slots) && FieldsOfSlots(slots) + StringsOfSlots(slots) <= all
    modifies FieldsOfSlots(slots)
    ensures r.Success? <==> EverySlot(old(ReadingSlots(slots)), |slots|, Opening(key), true, copied)
    ensures r.Success? ==> RelatedSlots(old(ReadingSlots(slots)), ReadingSlots(slots), Rewritten(key), true, copied)
    ensures r.Success? ==> r.value == TallyUpTo(old(ReadingSlots(slots)), |slots|, false)
    decreases slots, 1
  {
    var count := 0;
    ghost var data := ReadingSlots(slots);
    ghost var now := data;
    var i := 0;
    while i < |slots|
      invariant 0 <= i <= |slots| && now == ReadingSlots(slots)
      invariant IsRewrittenUpTo(key, copied, data, i, now, count)
    {
      assert now[i] == data[i];
      var n := ReencryptSlot(slots, i, key, copied, all);
      if n.Failure? {
        return n;
      }
      OneMoreRewritten(key, copied, data, i, now, count, ReadingSlots(slots)[i]);
      now := ReadingSlots(slots);
      count := count + n.value;
      i := i + 1;
    }
    AllRewritten(key, copied, data, now, count);
    return Success(count);
  }

  method ReencryptSlot(slots: seq<StoredSlot>, i: nat, key: Option<Key>, ghost copied: bool,
                       ghost all: set<object>)
    returns (r: Result<nat>)
    requires i < |slots| && NoAliasInSlots(slots) && FieldsOfSlots(slots) + StringsOfSlots(slots) <= all
    modifies FieldsOfSlots(slots)
    ensures r.Success? <==> EveryIn(old(ReadingSlots(slots)[i]), Opening(key), true, copied)
    ensures r.Success? ==>
              RelatedSlot(old(ReadingSlots(slots)[i]), ReadingSlots(slots)[i], Rewritten(key), true, copied)
    ensures ReadingSlots(slots) == old(ReadingSlots(slots))[i := ReadingSlots(slots)[i]]
    ensures r.Success? ==> r.value == TallyOfSlot(old(ReadingSlots(slots)[i]), false)
    decreases slots, 0
  {
    var slot := slots[i];
    if Skipped(slot.tag) {
      return Success(0);
    }
    assert slot.value < slot;
    assert FieldsOfSlot(slot) <= FieldsOfSlots(slots);
    r := ReencryptValue(slot.value, key, copied, all);
  }

  // ---------------------------------------------------------------- Marshaling

  /** A secret sealed: its ciphertext beside it, made with a nonce drawn if there was none. */
  ghost predicate IsSealed(key: Option<Key>, s: Sec, t: Sec) {
    exists n: nat :: Cipher(key, s, n) == Success(t.encrypted) && t.decrypted == s.decrypted
  }

  /** The encoder cannot ask one in a copy, whose marshaling takes its address. */
  ghost predicate IsMarshaled(key: Option<Key>, c: bool, s: Sec, t: Sec) {
    if c then t == s else IsSealed(key, s, t)
  }

  ghost function Sealed(key: Option<Key>): Change {
    (c, s, t) => IsMarshaled(key, c, s, t)
  }

  function Sealing(key: Option<Key>): Demand {
    (c, s) => c || Cipher(key, s, 0).Success?
  }

  /** Asks every encrypted field marshaled for its ciphertext, in turn; it stops at the first
      that has none to give. */
  method SealValue(v: Stored, copied: bool, key: Option<Key>, nonce: nat, ghost all: set<object>)
    returns (r: Result<nat>)
    requires NoAlias(v) && Fields(v) + Strings(v) <= all
    requires key.Some? ==> Lawful(key.value)
    modifies Fields(v)
    ensures r.Success? <==> Every(old(Reading(v)), Sealing(key), false, copied)
    ensures r.Success? ==> Related(old(Reading(v)), Reading(v), Sealed(key), false, copied)
    decreases v
  {
    match v
    case Secret(f) =>
      if copied {
        return Success(nonce);
      }
      var c := f.GetEncrypted(key, nonce);
      return if c.Failure? then Failure(c.error) else Success(nonce + 1);
    case Node(kind, slots) => r := SealSlots(slots, CopiesIn(kind, copied), key, nonce, all);
    case _ => return Success(nonce);
  }

  method SealSlots(slots: seq<StoredSlot>, copied: bool, key: Option<Key>, nonce: nat, ghost all: set<object>)
    returns (r: Result<nat>)
    requires NoAliasInSlots(slots) && FieldsOfSlots(slots) + StringsOfSlots(slots) <= all
    requires key.Some? ==> Lawful(key.value)
    modifies FieldsOfSlots(slots)
    ensures r.Success? <==> EverySlot(old(ReadingSlots(slots)), |slots|, Sealing(key), false, copied)
    ensures r.Success? ==> RelatedSlots(old(ReadingSlots(slots)), ReadingSlots(slots), Sealed(key), false, copied)
    decreases slots, 1
  {
    ghost var data := ReadingSlots(slots);
    ghost var now := data;
    var next := nonce;
    var i := 0;
    while i < |slots|
      invariant 0 <= i <= |slots|
      invariant now == ReadingSlots(slots)
      invariant forall j :: 0 <= j < i ==> RelatedSlot(data[j], now[j], Sealed(key), false, copied)
      invariant forall j :: i <= j < |slots| ==> now[j] == data[j]
      invariant EverySlot(data, i, Sealing(key), false, copied)
    {
      var n := SealSlot(slots, i, copied, key, next, all);
      now := ReadingSlots(slots);
      if n.Failure? {
        return n;
      }
      next := n.value;
      i := i + 1;
    }
    return Success(next);
  }

  method SealSlot(slots: seq<StoredSlot>, i: nat, copied: bool, key: Option<Key>, nonce: nat,
                  ghost all: set<object>)
    returns (r: Result<nat>)
    requires i < |slots| && NoAliasInSlots(slots) && FieldsOfSlots(slots) + StringsOfSlots(slots) <= all
    requires key.Some? ==> Lawful(key.value)
    modifies FieldsOfSlots(slots)
    ensures r.Success? <==> EveryIn(old(ReadingSlots(slots)[i]), Sealing(key), false, copied)
    ensures r.Success? ==> RelatedSlot(old(ReadingSlots(slots)[i]), ReadingSlots(slots)[i], Sealed(key), false, copied)
    ensures ReadingSlots(slots) == old(ReadingSlots(slots))[i := ReadingSlots(slots)[i]]
    decreases slots, 0
  {
    var slot := slots[i];
    if Skipped(slot.tag) {
      return Success(nonce);
    }
    assert slot.value < slot;
    assert FieldsOfSlot(slot) <= FieldsOfSlots(slots);
    r := SealValue(slot.value, copied, key, nonce, all);
  }

  // ---------------------------------------------------------------- Re-encrypting a setting

  /** A struct with no field the encoder may show. The field that reads it takes what is no
      JSON string as the text it is. */
  const NOTHING_SHOWN := "{}"

  /** What the text written of data reads back as. A field in a copy is written as a struct
      without fields, whatever it holds. */
  function ReadBack(v: Data, copied: bool): Data
    decreases v
  {
    match v
    case Node(kind, slots) => Node(kind, ReadBackSlots(slots, CopiesIn(kind, copied)))
    case Secret(s) => Secret(SetTo(if copied then NOTHING_SHOWN else s.encrypted))
    case _ => v
  }

  function ReadBackSlots(slots: seq<DataSlot>, copied: bool): (r: seq<DataSlot>)
    ensures |r| == |slots|
    ensures forall i :: 0 <= i < |slots| ==> r[i] == ReadBackSlot(slots[i], copied)
    decreases slots
  {
    if slots == [] then []
    else ReadBackSlots(slots[..|slots| - 1], copied) + [ReadBackSlot(slots[|slots| - 1], copied)]
  }

  function ReadBackSlot(slot: DataSlot, copied: bool): DataSlot
    decreases slot
  {
    if Skipped(slot.tag) then slot else Slot(slot.tag, ReadBack(slot.value, copied))
  }

  const RESTORED: Change := (c, s: Sec, t) => t == SetTo(if c then NOTHING_SHOWN else s.encrypted)

  lemma {:induction false} ReadBackIsRelated(v: Data, copied: bool)
    ensures Related(v, ReadBack(v, copied), RESTORED, false, copied)
    decreases v
  {
    if v.Node? {
      forall i | 0 <= i < |v.slots|
        ensures RelatedSlot(v.slots[i], ReadBackSlot(v.slots[i], CopiesIn(v.kind, copied)), RESTORED, false,
                            CopiesIn(v.kind, copied))
      {
        ReadBackSlotIsRelated(v.slots[i], CopiesIn(v.kind, copied));
      }
    }
  }

  lemma {:induction false} ReadBackSlotIsRelated(slot: DataSlot, copied: bool)
    ensures RelatedSlot(slot, ReadBackSlot(slot, copied), RESTORED, false, copied)
    decreases slot
  {
    if !Skipped(slot.tag) {
      ReadBackIsRelated(slot.value, copied);
    }
  }

  lemma {:induction false} NoneHeld(ss: seq<Sec>)
    ensures EmptyCount(ss) <= |ss|
    ensures EmptyCount(ss) == |ss| ==> forall s :: s in ss ==> s.IsEmpty()
  {
    if ss != [] {
      NoneHeld(ss[..|ss| - 1]);
    }
  }

  /** Where no secret is held there is nothing to re-encrypt. */
  lemma NothingToReencrypt(v: Data, key: Option<Key>)
    requires Tally(v, false) == 0
    ensures WithSecrets(v, Reencrypting(key), true) == v
  {
    TallyCounts(v);
    NoneHeld(SecretsOf(v, true));
    SameOnReached(v, Reencrypting(key), s => s, true);
    WalkOfNothing(v, s => s, true);
  }

  /** Whether data cannot be re-encrypted: a secret that cannot be decrypted, or, where there
      is any to write, one that cannot be sealed. */
  ghost predicate IsRefused(key: Option<Key>, data: Data) {
    Every(data, Opening(key), true, false) ==>
      && CountHeld(data) > 0
      && !Every(WithSecrets(data, Reencrypting(key), true), Sealing(key), false, false)
  }

  /** What is re-encrypted, sealed. */
  ghost predicate IsReencrypted(key: Option<Key>, data: Data, now: Data) {
    Related(WithSecrets(data, Reencrypting(key), true), now, Sealed(key), false, false)
  }

  /** The walk and its count, the data as it then is. */
  method ReencryptAll(v: Stored, key: Option<Key>, ghost all: set<object>) returns (r: Result<nat>)
    requires NoAlias(v) && Fields(v) + Strings(v) <= all
    modifies Fields(v)
    ensures r.Success? <==> Every(old(Reading(v)), Opening(key), true, false)
    ensures r.Success? ==> Reading(v) == WithSecrets(old(Reading(v)), Reencrypting(key), true)
    ensures r.Success? ==> r.value == CountHeld(old(Reading(v)))
    ensures r == Success(0) ==> Reading(v) == old(Reading(v))
  {
    ghost var data := Reading(v);
    TallyCounts(data);
    r := ReencryptValue(v, key, false, all);
    if r.Success? {
      RelatedByFunction(data, Reading(v), Rewritten(key), Reencrypting(key), true, false);
      if r.value == 0 {
        NothingToReencrypt(data, key);
      }
    }
  }

  /** The walk, and the marshaling after it: what the text then written reads back as, or
      nothing when no secret is held. */
  method ReencryptAndMarshal(v: Stored, key: Option<Key>, nonce: nat, ghost all: set<object>)
    returns (r: Result<Option<Data>>)
    requires NoAlias(v) && Fields(v) + Strings(v) <= all
    requires key.Some? ==> Lawful(key.value)
    modifies Fields(v)
    ensures r.Failure? <==> IsRefused(key, old(Reading(v)))
    ensures r.Success? ==> (r.value.Some? <==> CountHeld(old(Reading(v))) > 0)
    ensures r.Success? && r.value.Some? ==>
              IsReencrypted(key, old(Reading(v)), Reading(v)) && r.value.value == ReadBack(Reading(v), false)
    ensures r == Success(None) ==> Reading(v) == old(Reading(v))
  {
    var count := ReencryptAll(v, key, all);
    if count.Failure? {
      return Failure(count.error);
    }
    if count.value == 0 {
      return Success(None);
    }
    var done := SealValue(v, false, key, nonce, all);
    return if done.Failure? then Failure(done.error) else Success(Some(ReadBack(Reading(v), false)));
  }

  /** A setting: its stored text as it parses, if there is any, and its parsed data. */
  class ParsedSetting {
    var text: Option<Data>
    const parsed: Stored

    constructor (text: Option<Data>, parsed: Stored)
      ensures this.text == text && this.parsed == parsed
    {
      this.text, this.parsed := text, parsed;
    }

    /** Re-encrypts every secret the setting holds, and says whether anything changed. */
    method ReencryptData(key: Option<Key>, nonce: nat, ghost all: set<object>) returns (r: Result<bool>)
      requires NoAlias(parsed) && Fields(parsed) + Strings(parsed) <= all
      requires key.Some? ==> Lawful(key.value)
      modifies this`text, Fields(parsed)
      ensures r.Failure? <==> old(text).Some? && IsRefused(key, old(Reading(parsed)))
      ensures r.Success? ==> (r.value <==> old(text).Some? && CountHeld(old(Reading(parsed))) > 0)
      ensures r == Success(true) ==>
                && IsReencrypted(key, old(Reading(parsed)), Reading(parsed))
                && text == Some(ReadBack(Reading(parsed), false))
      ensures r == Success(false) ==> Reading(parsed) == old(Reading(parsed))
      ensures r != Success(true) ==> text == old(text)
    {
      if text.None? {
        return Success(false);
      }
      var done := ReencryptAndMarshal(parsed, key, nonce, all);
      if done.Failure? {
        return Failure(done.error);
      }
      if done.value.None? {
        return Success(false);
      }
      ghost var now := Reading(parsed);
      text := done.value;
      assert Reading(parsed) == now;
      return Success(true);
    }
  }

  /** A secret stored anew: its plaintext as it was, under no ciphertext it had. */
  ghost predicate IsRenewed(key: Key, s: Sec, t: Sec) {
    && Plain(Some(key), s).Success?
    && Plain(Some(key), t) == Plain(Some(key), s)
    && var p := Plain(Some(key), s).value;
       if p == "" then t == NO_SECRET else exists n: nat :: t == Sec(key.seal(p, n), "")
  }

  ghost function Renewed(key: Key): Change {
    (c, s, t) => IsRenewed(key, s, t)
  }

  /** Every secret can be had, and is not taken for ciphertext. */
  ghost predicate Sound(key: Key, ss: seq<Sec>) {
    forall s :: s in ss ==> Plain(Some(key), s).Success? && !IsEncryptedValue(Plain(Some(key), s).value)
  }

  /** A secret re-encrypted, sealed, written and read back is renewed unless it is in a copy;
      one in a copy is lost, even if there was none. */
  lemma SealingRenewsIff(key: Key, c: bool, s: Sec, t: Sec)
    requires Lawful(key) && Plain(Some(key), s).Success? && !IsEncryptedValue(Plain(Some(key), s).value)
    requires IsMarshaled(Some(key), c, Reencrypted(Some(key), s), t)
    ensures IsRenewed(key, s, SetTo(if c then NOTHING_SHOWN else t.encrypted)) <==> !c
  {
    var p := Plain(Some(key), s).value;
    if !c {
      var n: nat :| Cipher(Some(key), Reencrypted(Some(key), s), n) == Success(t.encrypted);
      if p != "" {
        assert Reencrypted(Some(key), s) == Sec("", p);
        assert SetTo(t.encrypted) == Sec(key.seal(p, n), "");
      }
    }
  }

  lemma SealingRenewsEachIff(key: Key, cs: seq<bool>, ss: seq<Sec>, ws: seq<Sec>, ts: seq<Sec>, ds: seq<Sec>)
    requires Lawful(key) && Sound(key, ss)
    requires Pairwise(cs, ss, ws, Rewritten(Some(key)))
    requires Pairwise(cs, ws, ts, Sealed(Some(key)))
    requires Pairwise(cs, ts, ds, RESTORED)
    ensures Pairwise(cs, ss, ds, Renewed(key)) <==> forall i :: 0 <= i < |cs| ==> !cs[i]
  {
    forall i | 0 <= i < |ss|
      ensures IsRenewed(key, ss[i], ds[i]) <==> !cs[i]
    {
      assert ss[i] in ss;
      assert Rewritten(Some(key))(cs[i], ss[i], ws[i]) && RESTORED(cs[i], ts[i], ds[i]);
      SealingRenewsIff(key, cs[i], ss[i], ts[i]);
    }
  }

  /** What re-encrypting a setting stores: every value that is no secret as it was, hashes
      among them; and every secret's plaintext as it was, sealed anew, or nothing where it held
      nothing - exactly when no encrypted field is held by value in a map's entry, where the
      encoder cannot ask it for its ciphertext. */
  lemma ReencryptedDataKeepsSecretsIff(key: Key, v: Data, u: Data)
    requires Lawful(key) && Typed(v) && Sound(key, SecretsOf(v, true))
    requires IsReencrypted(Some(key), v, u)
    ensures WithSecrets(ReadBack(u, false), OMIT, false) == WithSecrets(v, OMIT, false)
    ensures var cs := CopiesOf(v, false, false);
            Pairwise(cs, SecretsOf(v, false), SecretsOf(ReadBack(u, false), false), Renewed(key))
            <==> forall i :: 0 <= i < |cs| ==> !cs[i]
  {
    var f := Reencrypting(Some(key));
    var w := WithSecrets(v, f, true);
    PruningIsSound(v, f);
    FunctionRelates(v, Rewritten(Some(key)), f, false, false);
    RelatedDiffersInSecrets(v, w, Rewritten(Some(key)), false, false);
    RelatedDiffersInSecrets(w, u, Sealed(Some(key)), false, false);
    ReadBackIsRelated(u, false);
    RelatedDiffersInSecrets(u, ReadBack(u, false), RESTORED, false, false);
    SealingRenewsEachIff(key, CopiesOf(v, false, false), SecretsOf(v, false), SecretsOf(w, false),
                         SecretsOf(u, false), SecretsOf(ReadBack(u, false), false));
  }

  /** Place by place: the walk leaves of a secret its plaintext with no ciphertext, of one that
      holds nothing that, and of one in an unexported field what it was. */
  lemma ReencryptedAt(key: Key, v: Data, w: Data, p: Place, s: Sec)
    requires Typed(v) && SecretAt(v, p, s) && Related(v, w, Rewritten(Some(key)), true, false)
    requires Plain(Some(key), s).Success? && !IsEncryptedValue(Plain(Some(key), s).value)
    ensures SecretAt(w, p, if Hidden(v, p) then s else Sec("", Plain(Some(key), s).value))
  {
    var f := Reencrypting(Some(key));
    RelatedByFunction(v, w, Rewritten(Some(key)), f, true, false);
    PruningIsSound(v, f);
    SecretAfterWalk(v, f, p, s);
  }

  /** What is read back of a secret: the ciphertext written of it, or of one in a copy an empty
      object. */
  lemma ReadBackAt(v: Data, p: Place, s: Sec)
    requires SecretAt(v, p, s)
    ensures SecretAt(ReadBack(v, false), p,
                     if Hidden(v, p) then s else if CopiedAt(v, p, false) then Sec("", "{}") else SetTo(s.encrypted))
  {
    ReadBackIsRelated(v, false);
    RelatedAt(v, ReadBack(v, false), RESTORED, false, p, s);
    if !Hidden(v, p) {
      var t := At(ReadBack(v, false), p).value.secret;
      assert RESTORED(CopiedAt(v, p, false), s, t);
      assert t == SetTo(if CopiedAt(v, p, false) then NOTHING_SHOWN else s.encrypted);
      assert SetTo("{}") == Sec("", "{}");
    }
  }

  /** What marshaling leaves of a secret re-encrypted. */
  lemma SealedAt(key: Key, v: Data, u: Data, p: Place, s: Sec) returns (t: Sec)
    requires Typed(v) && SecretAt(v, p, s) && IsReencrypted(Some(key), v, u)
    ensures SecretAt(u, p, t) && Hidden(u, p) == Hidden(v, p) && CopiedAt(u, p, false) == CopiedAt(v, p, false)
    ensures if Hidden(v, p) then t == s
            else IsMarshaled(Some(key), CopiedAt(v, p, false), Reencrypted(Some(key), s), t)
  {
    var f := Reencrypting(Some(key));
    var w := WithSecrets(v, f, true);
    PruningIsSound(v, f);
    FunctionRelates(v, Rewritten(Some(key)), f, false, false);
    RelatedAt(v, w, Rewritten(Some(key)), false, p, s);
    RelatedAt(w, u, Sealed(Some(key)), false, p, At(w, p).value.secret);
    t := At(u, p).value.secret;
  }

  /** And of what is then stored: the plaintext sealed anew, or nothing where there was none;
      but for a field in a copy, of which an empty object is, and for unexported ones. */
  lemma StoredAt(key: Key, v: Data, u: Data, p: Place, s: Sec)
    requires Lawful(key) && Typed(v) && SecretAt(v, p, s) && IsReencrypted(Some(key), v, u)
    requires Plain(Some(key), s).Success? && !IsEncryptedValue(Plain(Some(key), s).value)
    ensures var plain, stored := Plain(Some(key), s).value, ReadBack(u, false);
            if Hidden(v, p) then SecretAt(stored, p, s)
            else if CopiedAt(v, p, false) then SecretAt(stored, p, Sec("", "{}"))
            else if plain == "" then SecretAt(stored, p, Sec("", ""))
            else exists n: nat :: SecretAt(stored, p, Sec(key.seal(plain, n), ""))
  {
    var t := SealedAt(key, v, u, p, s);
    ReadBackAt(u, p, t);
    if !Hidden(v, p) && !CopiedAt(v, p, false) {
      SealingRenewsIff(key, false, s, t);
      var plain := Plain(Some(key), s).value;
      if plain != "" {
        var n: nat :| SetTo(t.encrypted) == Sec(key.seal(plain, n), "");
        assert SecretAt(ReadBack(u, false), p, Sec(key.seal(plain, n), ""));
      }
    }
  }

  /** A map from one key to an encrypted field, held by value. */
  function OneEntry(key: string, s: Sec): Data {
    Node(Map(TSecret), [Slot(Entry(key), Secret(s))])
  }

  lemma OneSlotHolds(slots: seq<DataSlot>, prune: bool, copied: bool)
    requires |slots| == 1
    ensures SecretsOfSlots(slots, prune) == SecretsOfSlot(slots[0], prune)
    ensures CopiesOfSlots(slots, prune, copied) == CopiesOfSlot(slots[0], prune, copied)
  {
    assert slots[..0] == [];
  }

  lemma OneEntryHolds(key: string, s: Sec)
    ensures SecretsOf(OneEntry(key, s), false) == [s] && CopiesOf(OneEntry(key, s), false, false) == [true]
  {
    OneSlotHolds(OneEntry(key, s).slots, false, true);
  }

  /** A secret held by value in a map's entry is not in the text, whatever it is. */
  lemma SecretInAnEntryIsLost(key: string, s: Sec)
    ensures Typed(OneEntry(key, s)) && CopiesOf(OneEntry(key, s), false, false) == [true]
    ensures SecretsOf(OneEntry(key, s), false) == [s]
    ensures SecretsOf(ReadBack(OneEntry(key, s), false), false) == [SetTo(NOTHING_SHOWN)]
  {
    OneEntryHolds(key, s);
    OneEntryHolds(key, SetTo(NOTHING_SHOWN));
    var slot: DataSlot := Slot(Entry(key), Secret(s));
    var slots := [slot];
    assert OneEntry(key, s).slots == slots && CopiesIn(Map(TSecret), false);
    assert ReadBackSlots(slots, true) == [ReadBackSlot(slot, true)];
    assert ReadBackSlot(slot, true) == Slot(Entry(key), Secret(SetTo(NOTHING_SHOWN)));
    assert ReadBack(OneEntry(key, s), false) == OneEntry(key, SetTo(NOTHING_SHOWN));
  }

  /** Whether a plaintext survives being set as a field's value. */
  predicate Survives(key: Option<Key>, p: string) {
    !IsEncryptedValue(p) || (key.Some? && key.value.open(p) == Some(p))
  }

  function SamePlain(key: Option<Key>): Change {
    (c, s, t) => Plain(key, t) == Plain(key, s)
  }

  /** In memory, re-encrypting keeps every plaintext exactly when none is taken for
      ciphertext. */
  lemma ReencryptingKeepsAllIff(key: Option<Key>, v: Data)
    requires forall s :: s in SecretsOf(v, true) ==> Plain(key, s).Success?
    ensures Pairwise(CopiesOf(v, true, false), SecretsOf(v, true),
                     SecretsOf(WithSecrets(v, Reencrypting(key), true), true), SamePlain(key))
       <==> forall s :: s in SecretsOf(v, true) ==> Survives(key, Plain(key, s).value)
  {
    ReachedAreChanged(v, Reencrypting(key), true);
    CopiesAsSecrets(v, true, false);
    var ss := SecretsOf(v, true);
    forall i | 0 <= i < |ss|
      ensures Plain(key, Reencrypted(key, ss[i])) == Plain(key, ss[i]) <==> Survives(key, Plain(key, ss[i]).value)
    {
      ReencryptingKeepsPlainIff(key, ss[i]);
    }
  }
}
