/** Exporting a setting in the clear: the walk that maps each ciphertext a setting stores to
    its plaintext. */
module SecretExports {
  import opened Wrappers
  import opened SettingTrees
  import opened EncryptedFields
  import opened SettingWalks
  import opened Reencryption

  type Result<+T> = EncryptedFields.Result<T>

  type Plaintexts = map<string, string>

  // ---------------------------------------------------------------- What a walk records

  function Recorded(v: Data, out: Plaintexts): Plaintexts
    decreases v
  {
    match v
    case Node(kind, slots) => if Pruned(kind, true) then out else RecordedSlots(slots, out)
    case Secret(s) => RecordedSecret(s, out)
    case _ => out
  }

  function RecordedSlots(slots: seq<DataSlot>, out: Plaintexts): Plaintexts
    decreases slots
  {
    if slots == [] then out
    else RecordedSlot(slots[|slots| - 1], RecordedSlots(slots[..|slots| - 1], out))
  }

  function RecordedSlot(slot: DataSlot, out: Plaintexts): Plaintexts
    decreases slot
  {
    if Skipped(slot.tag) then out else Recorded(slot.value, out)
  }

  function RecordedSecret(s: Sec, out: Plaintexts): Plaintexts {
    if s.encrypted == "" then out else out[s.encrypted := s.decrypted]
  }

  function RecordedAll(ss: seq<Sec>, out: Plaintexts): Plaintexts {
    if ss == [] then out else RecordedSecret(ss[|ss| - 1], RecordedAll(ss[..|ss| - 1], out))
  }

  lemma {:induction false} RecordedAllAppend(a: seq<Sec>, b: seq<Sec>, out: Plaintexts)
    ensures RecordedAll(a + b, out) == RecordedAll(b, RecordedAll(a, out))
  {
    if b == [] {
      assert a + b == a;
    } else {
      assert (a + b)[..|a + b| - 1] == a + b[..|b| - 1];
      RecordedAllAppend(a, b[..|b| - 1], out);
    }
  }

  /** A walk records the secrets it reaches, in order. */
  lemma {:induction false} RecordedIsOfReached(v: Data, out: Plaintexts)
    ensures Recorded(v, out) == RecordedAll(SecretsOf(v, true), out)
    decreases v
  {
    match v
    case Node(kind, slots) =>
      if !Pruned(kind, true) {
        RecordedSlotsIsOfReached(slots, out);
      }
    case Secret(s) => assert RecordedAll([s][..0], out) == out;
    case _ =>
  }

  lemma {:induction false} RecordedSlotsIsOfReached(slots: seq<DataSlot>, out: Plaintexts)
    ensures RecordedSlots(slots, out) == RecordedAll(SecretsOfSlots(slots, true), out)
    decreases slots
  {
    if slots != [] {
      var n := |slots| - 1;
      RecordedSlotsIsOfReached(slots[..n], out);
      RecordedSlotIsOfReached(slots[n], RecordedSlots(slots[..n], out));
      RecordedAllAppend(SecretsOfSlots(slots[..n], true), SecretsOfSlot(slots[n], true), out);
    }
  }

  lemma {:induction false} RecordedSlotIsOfReached(slot: DataSlot, out: Plaintexts)
    ensures RecordedSlot(slot, out) == RecordedAll(SecretsOfSlot(slot, true), out)
    decreases slot
  {
    if !Skipped(slot.tag) {
      RecordedIsOfReached(slot.value, out);
    }
  }

  // ---------------------------------------------------------------- The walk

  /** A secret asked for both its ciphertext and its plaintext. */
  ghost predicate IsShown(key: Option<Key>, s: Sec, t: Sec) {
    if s.IsEmpty() then t == s
    else
      exists n: nat ::
        && Cipher(key, s, n) == Success(t.encrypted)
        && Plain(key, Sec(t.encrypted, s.decrypted)) == Success(t.decrypted)
  }

  ghost function Shown(key: Option<Key>): Change {
    (c, s, t) => IsShown(key, s, t)
  }

  function Showing(key: Option<Key>): Demand {
    (c, s: Sec) => s.IsEmpty() || (Cipher(key, s, 0).Success? && Plain(key, s).Success?)
  }

  /** The plaintexts recorded so far, and the nonce next drawn. */
  datatype Found = Found(out: Plaintexts, next: nat)

  method CollectOneSecret(f: EncryptedField, copied: bool, key: Option<Key>, nonce: nat, out: Plaintexts)
    returns (r: Result<Found>, ghost seen: Sec)
    requires key.Some? ==> Lawful(key.value)
    modifies f
    ensures r.Success? <==> Showing(key)(copied, old(f.Value()))
    ensures r.Success? ==> IsShown(key, old(f.Value()), seen)
    ensures r.Success? ==> r.value.out == RecordedSecret(seen, out)
    ensures r.Success? && !copied ==> f.Value() == seen
    ensures copied ==> f.Value() == old(f.Value())
  {
    var field := f;
    seen := f.Value();
    if copied {
      field := new EncryptedField("");
      field.Take(f.Value());
    }
    if field.encrypted == "" && field.decrypted == "" {
      r := Success(Found(out, nonce));
      return;
    }
    var ciphertext := field.GetEncrypted(key, nonce);
    if ciphertext.Failure? {
      r := Failure(ciphertext.error);
      return;
    }
    var plaintext := field.GetPlain(key);
    if plaintext.Failure? {
      r := Failure(plaintext.error);
      return;
    }
    seen := field.Value();
    var found := if ciphertext.value != "" then out[ciphertext.value := plaintext.value] else out;
    r := Success(Found(found, nonce + 1));
  }

  /** Maps the ciphertext of every encrypted field reached to its plaintext; seen is the
      data as the walk sees it, copies of map entries among it. */
  method CollectSecretPlaintexts(v: Stored, copied: bool, key: Option<Key>, nonce: nat, out: Plaintexts,
                                 ghost all: set<object>)
    returns (r: Result<Found>, ghost seen: Data)
    requires NoAlias(v) && Fields(v) + Strings(v) <= all
    requires key.Some? ==> Lawful(key.value)
    modifies Fields(v)
    ensures r.Success? <==> Every(old(Reading(v)), Showing(key), true, copied)
    ensures r.Success? ==> Related(old(Reading(v)), seen, Shown(key), true, copied)
    ensures r.Success? ==> r.value.out == Recorded(seen, out)
    ensures r.Success? ==> Reading(v) == Left(old(Reading(v)), seen, copied)
    decreases v
  {
    seen := Reading(v);
    match v
    case Secret(f) =>
      ghost var s;
      r, s := CollectOneSecret(f, copied, key, nonce, out);
      seen := Secret(s);
    case Node(kind, slots) =>
      if kind.Map? && !TypeHoldsSecret(kind.elem) {
        r := Success(Found(out, nonce));
        return;
      }
      ghost var ds;
      r, ds := CollectInSlots(slots, CopiesIn(kind, copied), key, nonce, out, all);
      seen := Node(kind, ds);
    case _ => r := Success(Found(out, nonce));
  }

  /** A slot, as the walk sees it and as the walk leaves it. */
  ghost predicate IsCollected(key: Option<Key>, copied: bool, slot: DataSlot, seen: DataSlot, now: DataSlot) {
    RelatedSlot(slot, seen, Shown(key), true, copied) && now == LeftSlot(slot, seen, copied)
  }

  /** The first slots, as the walk sees them and leaves them, and what it records of them. */
  ghost predicate IsCollectedUpTo(key: Option<Key>, copied: bool, data: seq<DataSlot>, out: Plaintexts,
                                  i: nat, seen: seq<DataSlot>, now: seq<DataSlot>, found: Plaintexts)
  {
    && i <= |data| == |now| && |seen| == i
    && (forall j :: 0 <= j < i ==> IsCollected(key, copied, data[j], seen[j], now[j]))
    && (forall j :: i <= j < |data| ==> now[j] == data[j])
    && found == RecordedSlots(seen, out)
  }

  lemma OneMoreCollected(key: Option<Key>, copied: bool, data: seq<DataSlot>, out: Plaintexts, i: nat,
                         seen: seq<DataSlot>, now: seq<DataSlot>, found: Plaintexts,
                         s: DataSlot, d: DataSlot, found': Plaintexts)
    requires IsCollectedUpTo(key, copied, data, out, i, seen, now, found) && i < |data|
    requires IsCollected(key, copied, data[i], s, d) && found' == RecordedSlot(s, found)
    ensures IsCollectedUpTo(key, copied, data, out, i + 1, seen + [s], now[i := d], found')
  {
    assert (seen + [s])[..i] == seen;
  }

  lemma AllCollected(key: Option<Key>, copied: bool, data: seq<DataSlot>, out: Plaintexts,
                     seen: seq<DataSlot>, now: seq<DataSlot>, found: Plaintexts)
    requires IsCollectedUpTo(key, copied, data, out, |data|, seen, now, found)
    ensures RelatedSlots(data, seen, Shown(key), true, copied)
    ensures now == LeftSlots(data, seen, copied) && found == RecordedSlots(seen, out)
  {
  }

  method CollectInSlots(slots: seq<StoredSlot>, copied: bool, key: Option<Key>, nonce: nat, out: Plaintexts,
                        ghost all: set<object>)
    returns (r: Result<Found>, ghost seen: seq<DataSlot>)
    requires NoAliasInSlots(slots) && FieldsOfSlots(slots) + StringsOfSlots(slots) <= all
    requires key.Some? ==> Lawful(key.value)
    modifies FieldsOfSlots(slots)
    ensures r.Success? <==> EverySlot(old(ReadingSlots(slots)), |slots|, Showing(key), true, copied)
    ensures r.Success? ==> RelatedSlots(old(ReadingSlots(slots)), seen, Shown(key), true, copied)
    ensures r.Success? ==> r.value.out == RecordedSlots(seen, out)
    ensures r.Success? ==> ReadingSlots(slots) == LeftSlots(old(ReadingSlots(slots)), seen, copied)
    decreases slots, 1
  {
    ghost var data := ReadingSlots(slots);
    ghost var now := data;
    seen := [];
    var found := Found(out, nonce);
    var i := 0;
    while i < |slots|
      invariant 0 <= i <= |slots|
      invariant now == ReadingSlots(slots)
      invariant IsCollectedUpTo(key, copied, data, out, i, seen, now, found.out)
      invariant EverySlot(data, i, Showing(key), true, copied)
    {
      ghost var was := now;
      assert now[i] == data[i];
      ghost var s;
      var n;
      n, s := CollectInSlot(slots, i, copied, key, found.next, found.out, all);
      now := ReadingSlots(slots);
      if n.Failure? {
        r := n;
        return;
      }
      OneMoreCollected(key, copied, data, out, i, seen, was, found.out, s, now[i], n.value.out);
      found := n.value;
      seen := seen + [s];
      i := i + 1;
    }
    AllCollected(key, copied, data, out, seen, now, found.out);
    r := Success(found);
  }

  method CollectInSlot(slots: seq<StoredSlot>, i: nat, copied: bool, key: Option<Key>, nonce: nat, out: Plaintexts,
                       ghost all: set<object>)
    returns (r: Result<Found>, ghost seen: DataSlot)
    requires i < |slots| && NoAliasInSlots(slots) && FieldsOfSlots(slots) + StringsOfSlots(slots) <= all
    requires key.Some? ==> Lawful(key.value)
    modifies FieldsOfSlots(slots)
    ensures r.Success? <==> EveryIn(old(ReadingSlots(slots)[i]), Showing(key), true, copied)
    ensures r.Success? ==> IsCollected(key, copied, old(ReadingSlots(slots)[i]), seen, ReadingSlots(slots)[i])
    ensures r.Success? ==> r.value.out == RecordedSlot(seen, out)
    ensures ReadingSlots(slots) == old(ReadingSlots(slots))[i := ReadingSlots(slots)[i]]
    decreases slots, 0
  {
    var slot := slots[i];
    seen := ReadingSlot(slot);
    if Skipped(slot.tag) {
      r := Success(Found(out, nonce));
      return;
    }
    assert slot.value < slot;
    assert FieldsOfSlot(slot) <= FieldsOfSlots(slots);
    ghost var d;
    r, d := CollectSecretPlaintexts(slot.value, copied, key, nonce, out, all);
    seen := Slot(slot.tag, d);
  }

  // ---------------------------------------------------------------- What a walk leaves

  /** What the walk leaves of data it saw as x: what was copied as it was, the rest as seen. */
  function Left(v: Data, x: Data, copied: bool): Data
    decreases v
  {
    match v
    case Node(kind, slots) =>
      if Pruned(kind, true) || !x.Node? then v else Node(kind, LeftSlots(slots, x.slots, CopiesIn(kind, copied)))
    case Secret(_) => if copied then v else x
    case _ => v
  }

  function LeftSlots(slots: seq<DataSlot>, xs: seq<DataSlot>, copied: bool): (r: seq<DataSlot>)
    ensures |r| == |slots|
    ensures forall i :: 0 <= i < |slots| && i < |xs| ==> r[i] == LeftSlot(slots[i], xs[i], copied)
    decreases slots
  {
    if slots == [] then []
    else
      var n := |slots| - 1;
      LeftSlots(slots[..n], xs, copied) + [if n < |xs| then LeftSlot(slots[n], xs[n], copied) else slots[n]]
  }

  function LeftSlot(slot: DataSlot, x: DataSlot, copied: bool): DataSlot
    decreases slot
  {
    if Skipped(slot.tag) then slot else Slot(slot.tag, Left(slot.value, x.value, copied))
  }

  /** Secrets taken from those before where copied, and from those seen elsewhere. */
  ghost predicate Mixed(cs: seq<bool>, ss: seq<Sec>, xs: seq<Sec>, ws: seq<Sec>) {
    && |cs| == |ss| == |xs| == |ws|
    && forall i :: 0 <= i < |cs| ==> ws[i] == if cs[i] then ss[i] else xs[i]
  }

  lemma MixedAppend(cs: seq<bool>, ss: seq<Sec>, xs: seq<Sec>, ws: seq<Sec>,
                    cs': seq<bool>, ss': seq<Sec>, xs': seq<Sec>, ws': seq<Sec>)
    requires Mixed(cs, ss, xs, ws) && Mixed(cs', ss', xs', ws')
    ensures Mixed(cs + cs', ss + ss', xs + xs', ws + ws')
  {
  }

  lemma {:induction false} LeftIsMixed(v: Data, x: Data, rel: Change, copied: bool)
    requires Related(v, x, rel, true, copied)
    ensures Mixed(CopiesOf(v, true, copied), SecretsOf(v, true), SecretsOf(x, true),
                  SecretsOf(Left(v, x, copied), true))
    ensures CopiesOf(Left(v, x, copied), true, copied) == CopiesOf(v, true, copied)
    decreases v
  {
    if v.Node? && !Pruned(v.kind, true) {
      LeftSlotsIsMixed(v.slots, x.slots, rel, CopiesIn(v.kind, copied));
    }
  }

  lemma {:induction false} LeftSlotsIsMixed(slots: seq<DataSlot>, xs: seq<DataSlot>,
                                            rel: Change, copied: bool)
    requires RelatedSlots(slots, xs, rel, true, copied)
    ensures MixedInSlots(slots, xs, LeftSlots(slots, xs, copied), copied)
    decreases slots
  {
    if slots != [] {
      var n := |slots| - 1;
      LeftSlotsIsMixed(slots[..n], xs[..n], rel, copied);
      LeftSlotIsMixed(slots[n], xs[n], rel, copied);
      var left := LeftSlots(slots, xs, copied);
      assert left[..n] == LeftSlots(slots[..n], xs[..n], copied);
      OneMoreMixed(slots, xs, left, copied);
    }
  }

  /** Of slots, those left of them are a mix, and copies where they were. */
  ghost predicate MixedInSlots(slots: seq<DataSlot>, xs: seq<DataSlot>, left: seq<DataSlot>, copied: bool) {
    && Mixed(CopiesOfSlots(slots, true, copied), SecretsOfSlots(slots, true), SecretsOfSlots(xs, true),
             SecretsOfSlots(left, true))
    && CopiesOfSlots(left, true, copied) == CopiesOfSlots(slots, true, copied)
  }

  lemma OneMoreMixed(slots: seq<DataSlot>, xs: seq<DataSlot>, left: seq<DataSlot>, copied: bool)
    requires |slots| == |xs| == |left| > 0
    requires var n := |slots| - 1; MixedInSlots(slots[..n], xs[..n], left[..n], copied)
    requires var n := |slots| - 1;
             && Mixed(CopiesOfSlot(slots[n], true, copied), SecretsOfSlot(slots[n], true), SecretsOfSlot(xs[n], true),
                      SecretsOfSlot(left[n], true))
             && CopiesOfSlot(left[n], true, copied) == CopiesOfSlot(slots[n], true, copied)
    ensures MixedInSlots(slots, xs, left, copied)
  {
    var n := |slots| - 1;
    MixedAppend(CopiesOfSlots(slots[..n], true, copied), SecretsOfSlots(slots[..n], true),
                SecretsOfSlots(xs[..n], true), SecretsOfSlots(left[..n], true),
                CopiesOfSlot(slots[n], true, copied), SecretsOfSlot(slots[n], true), SecretsOfSlot(xs[n], true),
                SecretsOfSlot(left[n], true));
  }

  lemma {:induction false} LeftSlotIsMixed(slot: DataSlot, x: DataSlot, rel: Change, copied: bool)
    requires RelatedSlot(slot, x, rel, true, copied)
    ensures Mixed(CopiesOfSlot(slot, true, copied), SecretsOfSlot(slot, true), SecretsOfSlot(x, true),
                  SecretsOfSlot(LeftSlot(slot, x, copied), true))
    ensures CopiesOfSlot(LeftSlot(slot, x, copied), true, copied) == CopiesOfSlot(slot, true, copied)
    decreases slot
  {
    if !Skipped(slot.tag) {
      LeftIsMixed(slot.value, x.value, rel, copied);
    }
  }

  // ---------------------------------------------------------------- What an export shows

  /** Whether a map says of each secret its plaintext, by the ciphertext written of it. */
  ghost predicate ShowsEach(key: Key, out: Plaintexts, ss: seq<Sec>, ds: seq<Sec>) {
    && |ss| == |ds|
    && forall i :: 0 <= i < |ss| && !ss[i].IsEmpty() ==>
         ds[i].encrypted in out && Plain(Some(key), ss[i]) == Success(out[ds[i].encrypted])
  }

  /** An export marshals the data the walk leaves, and puts plaintexts in the ciphertexts'
      places. The map shows every secret the data held, by the ciphertext written of it,
      exactly when none is held by value in a map's entry, where the encoder writes none. */
  lemma ExportShowsEverySecretIff(key: Key, v: Data, x: Data, u: Data)
    requires Lawful(key) && Typed(v) && Related(v, x, Shown(Some(key)), true, false)
    requires forall s :: s in SecretsOf(v, true) ==> Coherent(Some(key), s)
    requires Typed(Left(v, x, false)) && Related(Left(v, x, false), u, Sealed(Some(key)), false, false)
    ensures |CopiesOf(v, true, false)| == |SecretsOf(v, true)|
    ensures ShowsEach(key, Recorded(x, map[]), SecretsOf(v, true), SecretsOf(ReadBack(u, false), false))
       <==> forall i :: 0 <= i < |SecretsOf(v, true)| && CopiesOf(v, true, false)[i] ==> SecretsOf(v, true)[i].IsEmpty()
  {
    var w := Left(v, x, false);
    RelatedDiffersInSecrets(v, x, Shown(Some(key)), true, false);
    RecordedIsOfReached(x, map[]);
    LeftIsMixed(v, x, Shown(Some(key)), false);
    PruningIsSound(w, OMIT);
    PruningCopiesIsSound(w, false);
    RelatedDiffersInSecrets(w, u, Sealed(Some(key)), false, false);
    ReadBackIsRelated(u, false);
    RelatedDiffersInSecrets(u, ReadBack(u, false), RESTORED, false, false);
    WrittenAreShownIff(key, CopiesOf(v, true, false), SecretsOf(v, true), SecretsOf(x, true), SecretsOf(w, true),
                       SecretsOf(u, false), SecretsOf(ReadBack(u, false), false));
  }

  lemma WrittenAreShownIff(key: Key, cs: seq<bool>, ss: seq<Sec>, xs: seq<Sec>, ws: seq<Sec>, us: seq<Sec>,
                           ds: seq<Sec>)
    requires Lawful(key) && Pairwise(cs, ss, xs, Shown(Some(key))) && Mixed(cs, ss, xs, ws)
    requires Pairwise(cs, ws, us, Sealed(Some(key))) && Pairwise(cs, us, ds, RESTORED)
    requires forall i :: 0 <= i < |ss| ==> Coherent(Some(key), ss[i])
    ensures ShowsEach(key, RecordedAll(xs, map[]), ss, ds)
       <==> forall i :: 0 <= i < |ss| && cs[i] ==> ss[i].IsEmpty()
  {
    var out := RecordedAll(xs, map[]);
    ShownAreRecorded(key, cs, ss, xs);
    EmptyIsNoKey(xs);
    forall i | 0 <= i < |ss| && !ss[i].IsEmpty()
      ensures ds[i].encrypted in out && Plain(Some(key), ss[i]) == Success(out[ds[i].encrypted]) <==> !cs[i]
    {
      assert Shown(Some(key))(cs[i], ss[i], xs[i]);
      assert RESTORED(cs[i], us[i], ds[i]) && Sealed(Some(key))(cs[i], ws[i], us[i]);
      OneWrittenIsShownIff(key, out, cs[i], ss[i], xs[i], ws[i], us[i], ds[i]);
    }
  }

  lemma OneWrittenIsShownIff(key: Key, out: Plaintexts, c: bool, s: Sec, x: Sec, w: Sec, u: Sec, d: Sec)
    requires Lawful(key) && Coherent(Some(key), s) && !s.IsEmpty() && IsShown(Some(key), s, x)
    requires w == (if c then s else x) && IsMarshaled(Some(key), c, w, u)
    requires d == SetTo(if c then NOTHING_SHOWN else u.encrypted)
    requires "" !in out && x.encrypted in out && Plain(Some(key), s) == Success(out[x.encrypted])
    ensures d.encrypted in out && Plain(Some(key), s) == Success(out[d.encrypted]) <==> !c
  {
    ShownOpens(key, s, x);
    if !c {
      SealedAlready(key, w, u);
    }
  }

  lemma SealedAlready(key: Key, s: Sec, t: Sec)
    requires IsSealed(Some(key), s, t) && s.encrypted != "" && IsEncryptedValue(s.encrypted)
    ensures t == s && SetTo(t.encrypted).encrypted == s.encrypted
  {
    var n: nat :| Cipher(Some(key), s, n) == Success(t.encrypted) && t.decrypted == s.decrypted;
  }

  lemma {:induction false} EmptyIsNoKey(xs: seq<Sec>)
    ensures "" !in RecordedAll(xs, map[])
  {
    if xs != [] {
      EmptyIsNoKey(xs[..|xs| - 1]);
    }
  }

  /** A ciphertext says its plaintext, so that no two secrets ask for different ones: the map
      holds each secret's ... */
  lemma {:induction false} ShownAreRecorded(key: Key, cs: seq<bool>, ss: seq<Sec>, xs: seq<Sec>)
    requires Lawful(key) && Pairwise(cs, ss, xs, Shown(Some(key)))
    requires forall i :: 0 <= i < |ss| ==> Coherent(Some(key), ss[i])
    ensures var out := RecordedAll(xs, map[]);
            && (forall i :: 0 <= i < |ss| && !ss[i].IsEmpty() ==>
                  xs[i].encrypted in out && Plain(Some(key), ss[i]) == Success(out[xs[i].encrypted]))
            && (forall c :: c in out ==> key.open(c) == Some(out[c]))
  {
    if ss != [] {
      var n := |ss| - 1;
      ShownAreRecorded(key, cs[..n], ss[..n], xs[..n]);
      assert Shown(Some(key))(cs[n], ss[n], xs[n]);
      ShownOpens(key, ss[n], xs[n]);
      var was, out := RecordedAll(xs[..n], map[]), RecordedAll(xs, map[]);
      forall i | 0 <= i < |ss| && !ss[i].IsEmpty()
        ensures xs[i].encrypted in out && Plain(Some(key), ss[i]) == Success(out[xs[i].encrypted])
      {
        if i < n {
          assert ss[..n][i] == ss[i] && xs[..n][i] == xs[i];
          assert key.open(xs[i].encrypted) == Some(was[xs[i].encrypted]);
        }
      }
    }
  }

  /** ... and nothing else. */
  lemma {:induction false} RecordedAreShown(xs: seq<Sec>, c: string)
    requires c in RecordedAll(xs, map[])
    ensures exists x :: x in xs && x.encrypted == c && c != ""
  {
    var n := |xs| - 1;
    if c in RecordedAll(xs[..n], map[]) {
      RecordedAreShown(xs[..n], c);
    } else {
      assert xs[n] in xs && xs[n].encrypted == c;
    }
  }

  lemma ShownOpens(key: Key, s: Sec, t: Sec)
    requires Lawful(key) && Coherent(Some(key), s) && IsShown(Some(key), s, t)
    ensures s.IsEmpty() ==> t.encrypted == ""
    ensures !s.IsEmpty() ==> t.encrypted != "" && Plain(Some(key), s) == Success(t.decrypted)
                             && key.open(t.encrypted) == Some(t.decrypted) && IsEncryptedValue(t.encrypted)
  {
    if !s.IsEmpty() {
      var n: nat :| Cipher(Some(key), s, n) == Success(t.encrypted)
                 && Plain(Some(key), Sec(t.encrypted, s.decrypted)) == Success(t.decrypted);
    }
  }
}
