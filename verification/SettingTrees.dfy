/** A setting's parsed data as a tree of values, and what the walks over it come to: which
    secrets they reach, what they leave alone, and why they may skip what cannot hold one. */
module SettingTrees {

  // ---------------------------------------------------------------- Trees and types

  datatype Type =
    | TPointer(elem: Type)
    | TInterface
    | TStruct(name: string, fields: seq<TField>)
    | TSlice(elem: Type)
    | TMap(elem: Type)
    | TSecret
    | TText
    | TOpaque

  datatype TField = TField(exported: bool, typ: Type)

  /** What kind of container a value is; a struct is of a named type, a map of an element type. */
  datatype Kind = Pointer | Interface | Struct(name: string) | Slice | Map(elem: Type)

  /** What a value is in its container as: a struct's field, a map's entry, or what a pointer,
      an interface or a slice holds. */
  datatype Tag = Field(exported: bool) | Entry(key: string) | Elem

  datatype Slot<S, L> = Slot(tag: Tag, value: Tree<S, L>)

  /** A value; what a secret and a string are is left to S and L. Nil is a nil pointer,
      interface or map. Opaque is a value no walk looks into: a number, a flag, a hash. */
  datatype Tree<S, L> =
    | Nil
    | Node(kind: Kind, slots: seq<Slot<S, L>>)
    | Secret(secret: S)
    | Text(text: L)
    | Opaque(what: nat)

  predicate HasType<S, L>(v: Tree<S, L>, t: Type)
    decreases v, 1
  {
    match t
    case TPointer(elem) => v.Nil? || (v.Node? && v.kind == Pointer && |v.slots| == 1 && AllOfType(v.slots, Elem, elem))
    case TInterface => v.Nil? || (v.Node? && v.kind == Interface && |v.slots| == 1)
    case TStruct(name, fields) =>
      v.Node? && v.kind == Struct(name) && |v.slots| == |fields| &&
      forall i :: 0 <= i < |fields| ==>
        v.slots[i].tag == Field(fields[i].exported) && SlotHasType(v.slots[i], fields[i].typ)
    case TSlice(elem) => v.Node? && v.kind == Slice && AllOfType(v.slots, Elem, elem)
    case TMap(elem) => v.Nil? || (v.Node? && v.kind == Map(elem) && AllEntriesOfType(v.slots, elem))
    case TSecret => v.Secret?
    case TText => v.Text?
    case TOpaque => v.Opaque?
  }

  predicate SlotHasType<S, L>(slot: Slot<S, L>, t: Type)
    decreases slot, 0
  {
    HasType(slot.value, t)
  }

  predicate AllOfType<S, L>(slots: seq<Slot<S, L>>, tag: Tag, t: Type)
    decreases slots, 0
  {
    forall i :: 0 <= i < |slots| ==> slots[i].tag == tag && SlotHasType(slots[i], t)
  }

  predicate AllEntriesOfType<S, L>(slots: seq<Slot<S, L>>, t: Type)
    decreases slots, 0
  {
    forall i :: 0 <= i < |slots| ==> slots[i].tag.Entry? && SlotHasType(slots[i], t)
  }

  /** Pointers, interfaces and maps may be nil, and each container is of its type with values
      of the inner one in it, a struct's fields exported or not. */
  lemma ContainersOfValues(v: Data, w: Data, t: Type, name: string, key: string, exported: bool)
    requires HasType(v, t)
    ensures HasType<Sec, string>(Nil, TPointer(t)) && HasType<Sec, string>(Nil, TInterface)
    ensures HasType<Sec, string>(Nil, TMap(t)) && !HasType<Sec, string>(Nil, TSlice(t))
    ensures HasType(Node(Pointer, [Slot(Elem, v)]), TPointer(t))
    ensures HasType(Node(Interface, [Slot(Elem, w)]), TInterface)
    ensures HasType(Node(Slice, [Slot(Elem, v), Slot(Elem, v)]), TSlice(t))
    ensures HasType(Node(Map(t), [Slot(Entry(key), v)]), TMap(t))
    ensures HasType(Node(Struct(name), [Slot(Field(exported), v)]), TStruct(name, [TField(exported, t)]))
  {
    var field := Slot(Field(exported), v);
    assert SlotHasType(field, t) && SlotHasType(Slot(Elem, v), t) && SlotHasType(Slot(Entry(key), v), t);
  }

  /** Whether a type can hold a secret. */
  predicate TypeHoldsSecret(t: Type) {
    match t
    case TPointer(elem) => TypeHoldsSecret(elem)
    case TSlice(elem) => TypeHoldsSecret(elem)
    case TMap(elem) => TypeHoldsSecret(elem)
    case TInterface => true
    case TSecret => true
    case TStruct(_, fields) => exists i :: 0 <= i < |fields| && fields[i].exported && TypeHoldsSecret(fields[i].typ)
    case _ => false
  }

  /** A walk passes an unexported field over, and when pruning a map that holds no secret. */
  predicate Skipped(tag: Tag) {
    tag == Field(false)
  }

  predicate Pruned(kind: Kind, prune: bool) {
    prune && kind.Map? && !TypeHoldsSecret(kind.elem)
  }

  // ---------------------------------------------------------------- Secrets

  /** An encrypted field: its ciphertext and its plaintext, either or both kept. */
  datatype Sec = Sec(encrypted: string, decrypted: string)
  {
    predicate IsEmpty() {
      encrypted == "" && decrypted == ""
    }
  }

  const NO_SECRET := Sec("", "")

  type Data = Tree<Sec, string>
  type DataSlot = Slot<Sec, string>

  // ---------------------------------------------------------------- What a walk reaches

  /** The secrets a walk reaches, in its order. */
  function SecretsOf(v: Data, prune: bool): seq<Sec>
    decreases v
  {
    match v
    case Node(kind, slots) => if Pruned(kind, prune) then [] else SecretsOfSlots(slots, prune)
    case Secret(s) => [s]
    case _ => []
  }

  function SecretsOfSlots(slots: seq<DataSlot>, prune: bool): seq<Sec>
    decreases slots
  {
    if slots == [] then []
    else
      var n := |slots| - 1;
      SecretsOfSlots(slots[..n], prune) + SecretsOfSlot(slots[n], prune)
  }

  function SecretsOfSlot(slot: DataSlot, prune: bool): seq<Sec>
    decreases slot
  {
    if Skipped(slot.tag) then [] else SecretsOf(slot.value, prune)
  }

  /** A walk that puts f of each secret it reaches in the secret's place. */
  function WithSecrets(v: Data, f: Sec -> Sec, prune: bool): Data
    decreases v
  {
    match v
    case Node(kind, slots) => if Pruned(kind, prune) then v else Node(kind, WithSecretsSlots(slots, f, prune))
    case Secret(s) => Secret(f(s))
    case _ => v
  }

  function WithSecretsSlots(slots: seq<DataSlot>, f: Sec -> Sec, prune: bool): (r: seq<DataSlot>)
    ensures |r| == |slots|
    ensures forall i :: 0 <= i < |slots| ==> r[i] == WithSecretsSlot(slots[i], f, prune)
    decreases slots
  {
    if slots == [] then []
    else
      var n := |slots| - 1;
      WithSecretsSlots(slots[..n], f, prune) + [WithSecretsSlot(slots[n], f, prune)]
  }

  function WithSecretsSlot(slot: DataSlot, f: Sec -> Sec, prune: bool): DataSlot
    decreases slot
  {
    if Skipped(slot.tag) then slot else Slot(slot.tag, WithSecrets(slot.value, f, prune))
  }

  function Each(f: Sec -> Sec, ss: seq<Sec>): (r: seq<Sec>)
    ensures |r| == |ss| && forall i :: 0 <= i < |ss| ==> r[i] == f(ss[i])
  {
    seq(|ss|, i requires 0 <= i < |ss| => f(ss[i]))
  }

  lemma EachAppend(f: Sec -> Sec, a: seq<Sec>, b: seq<Sec>)
    ensures Each(f, a + b) == Each(f, a) + Each(f, b)
  {
  }

  /** The walk changes the secrets it reaches, each by f. */
  lemma {:induction false} ReachedAreChanged(v: Data, f: Sec -> Sec, prune: bool)
    ensures SecretsOf(WithSecrets(v, f, prune), prune) == Each(f, SecretsOf(v, prune))
    decreases v
  {
    match v
    case Node(kind, slots) =>
      if Pruned(kind, prune) {
        assert Each(f, []) == [];
      } else {
        ReachedInSlotsAreChanged(slots, f, prune);
      }
    case Secret(s) => assert Each(f, [s]) == [f(s)];
    case _ => assert Each(f, []) == [];
  }

  lemma {:induction false} ReachedInSlotsAreChanged(slots: seq<DataSlot>, f: Sec -> Sec, prune: bool)
    ensures SecretsOfSlots(WithSecretsSlots(slots, f, prune), prune) == Each(f, SecretsOfSlots(slots, prune))
    decreases slots
  {
    if slots == [] {
      assert Each(f, []) == [];
    } else {
      var n := |slots| - 1;
      ReachedInSlotsAreChanged(slots[..n], f, prune);
      ReachedInSlotAreChanged(slots[n], f, prune);
      assert WithSecretsSlots(slots, f, prune)[..n] == WithSecretsSlots(slots[..n], f, prune);
      EachAppend(f, SecretsOfSlots(slots[..n], prune), SecretsOfSlot(slots[n], prune));
    }
  }

  lemma {:induction false} ReachedInSlotAreChanged(slot: DataSlot, f: Sec -> Sec, prune: bool)
    ensures SecretsOfSlot(WithSecretsSlot(slot, f, prune), prune) == Each(f, SecretsOfSlot(slot, prune))
    decreases slot
  {
    if Skipped(slot.tag) {
      assert Each(f, []) == [];
    } else {
      ReachedAreChanged(slot.value, f, prune);
    }
  }

  // ---------------------------------------------------------------- Walks one after the other

  /** A second walk changes what the first left. */
  lemma {:induction false} WalksCompose(v: Data, f: Sec -> Sec, g: Sec -> Sec, h: Sec -> Sec, prune: bool)
    requires forall s :: h(s) == g(f(s))
    ensures WithSecrets(WithSecrets(v, f, prune), g, prune) == WithSecrets(v, h, prune)
    decreases v
  {
    if v.Node? && !Pruned(v.kind, prune) {
      forall i | 0 <= i < |v.slots|
        ensures WithSecretsSlot(WithSecretsSlot(v.slots[i], f, prune), g, prune)
             == WithSecretsSlot(v.slots[i], h, prune)
      {
        WalksComposeInSlot(v.slots[i], f, g, h, prune);
      }
    }
  }

  lemma {:induction false} WalksComposeInSlot(slot: DataSlot, f: Sec -> Sec, g: Sec -> Sec, h: Sec -> Sec, prune: bool)
    requires forall s :: h(s) == g(f(s))
    ensures WithSecretsSlot(WithSecretsSlot(slot, f, prune), g, prune) == WithSecretsSlot(slot, h, prune)
    decreases slot
  {
    if !Skipped(slot.tag) {
      WalksCompose(slot.value, f, g, h, prune);
    }
  }

  /** What two walks' functions agree on, the walks do. */
  lemma {:induction false} SameOnReached(v: Data, f: Sec -> Sec, g: Sec -> Sec, prune: bool)
    requires forall s :: s in SecretsOf(v, prune) ==> f(s) == g(s)
    ensures WithSecrets(v, f, prune) == WithSecrets(v, g, prune)
    decreases v
  {
    if v.Secret? {
      assert v.secret in SecretsOf(v, prune);
    } else if v.Node? && !Pruned(v.kind, prune) {
      SameOnReachedInSlots(v.slots, f, g, prune);
    }
  }

  lemma {:induction false} SameOnReachedInSlots(slots: seq<DataSlot>, f: Sec -> Sec, g: Sec -> Sec, prune: bool)
    requires forall s :: s in SecretsOfSlots(slots, prune) ==> f(s) == g(s)
    ensures WithSecretsSlots(slots, f, prune) == WithSecretsSlots(slots, g, prune)
    decreases slots
  {
    if slots != [] {
      var n := |slots| - 1;
      SameOnReachedInSlots(slots[..n], f, g, prune);
      SameOnReachedInSlot(slots[n], f, g, prune);
    }
  }

  lemma {:induction false} SameOnReachedInSlot(slot: DataSlot, f: Sec -> Sec, g: Sec -> Sec, prune: bool)
    requires forall s :: s in SecretsOfSlot(slot, prune) ==> f(s) == g(s)
    ensures WithSecretsSlot(slot, f, prune) == WithSecretsSlot(slot, g, prune)
    decreases slot
  {
    if !Skipped(slot.tag) {
      SameOnReached(slot.value, f, g, prune);
    }
  }

  lemma {:induction false} WalkOfNothing(v: Data, f: Sec -> Sec, prune: bool)
    requires forall s :: f(s) == s
    ensures WithSecrets(v, f, prune) == v
    decreases v
  {
    if v.Node? && !Pruned(v.kind, prune) {
      forall i | 0 <= i < |v.slots|
        ensures WithSecretsSlot(v.slots[i], f, prune) == v.slots[i]
      {
        WalkOfNothingInSlot(v.slots[i], f, prune);
      }
    }
  }

  lemma {:induction false} WalkOfNothingInSlot(slot: DataSlot, f: Sec -> Sec, prune: bool)
    requires forall s :: f(s) == s
    ensures WithSecretsSlot(slot, f, prune) == slot
    decreases slot
  {
    if !Skipped(slot.tag) {
      WalkOfNothing(slot.value, f, prune);
    }
  }

  // ---------------------------------------------------------------- Pruning

  /** A value of a type that cannot hold a secret reaches none, pruned or not. */
  lemma {:induction false} TypesWithoutSecretsReachNone(v: Data, t: Type)
    requires HasType(v, t) && !TypeHoldsSecret(t)
    ensures SecretsOf(v, false) == []
    decreases v, 1
  {
    if v.Node? {
      forall i | 0 <= i < |v.slots|
        ensures SecretsOfSlot(v.slots[i], false) == []
      {
        if !Skipped(v.slots[i].tag) {
          var u := if t.TStruct? then t.fields[i].typ else t.elem;
          assert SlotHasType(v.slots[i], u);
          SlotsWithoutSecretsReachNone(v.slots[i], u);
        }
      }
      NoneInSlots(v.slots, false);
    }
  }

  lemma {:induction false} SlotsWithoutSecretsReachNone(slot: DataSlot, t: Type)
    requires SlotHasType(slot, t) && !TypeHoldsSecret(t)
    ensures SecretsOfSlot(slot, false) == []
    decreases slot, 0
  {
    TypesWithoutSecretsReachNone(slot.value, t);
  }

  lemma {:induction false} NoneInSlots(slots: seq<DataSlot>, prune: bool)
    requires forall i :: 0 <= i < |slots| ==> SecretsOfSlot(slots[i], prune) == []
    ensures SecretsOfSlots(slots, prune) == []
  {
    if slots != [] {
      NoneInSlots(slots[..|slots| - 1], prune);
    }
  }

  /** The zero value of a type. */
  ghost function Zero(t: Type): (v: Data)
    ensures HasType(v, t)
    decreases t, 1, 0
  {
    match t
    case TStruct(name, fields) => Node(Struct(name), ZeroFields(t, fields))
    case TSlice(_) => Node(Slice, [])
    case TSecret => Secret(NO_SECRET)
    case TText => Text("")
    case TOpaque => Opaque(0)
    case _ => Nil
  }

  ghost function ZeroFields(t: Type, fields: seq<TField>): (slots: seq<DataSlot>)
    requires forall i :: 0 <= i < |fields| ==> fields[i].typ < t
    ensures |slots| == |fields|
    ensures forall i :: 0 <= i < |fields| ==>
              slots[i].tag == Field(fields[i].exported) && SlotHasType(slots[i], fields[i].typ)
    decreases t, 0, |fields|
  {
    if fields == [] then []
    else
      var n := |fields| - 1;
      ZeroFields(t, fields[..n]) + [Slot(Field(fields[n].exported), Zero(fields[n].typ))]
  }

  /** A value of the type with a secret in it that a walk reaches. */
  lemma {:induction false} ValueWithSecret(t: Type) returns (v: Data)
    requires TypeHoldsSecret(t)
    ensures HasType(v, t) && SecretsOf(v, false) != []
  {
    match t
    case TPointer(elem) =>
      v := ValueWithSecret(elem);
      v := Node(Pointer, [Slot(Elem, v)]);
      ReachedInSlot(v, 0);
    case TSlice(elem) =>
      v := ValueWithSecret(elem);
      v := Node(Slice, [Slot(Elem, v)]);
      ReachedInSlot(v, 0);
    case TMap(elem) =>
      v := ValueWithSecret(elem);
      v := Node(Map(elem), [Slot(Entry(""), v)]);
      ReachedInSlot(v, 0);
    case TInterface =>
      v := Node(Interface, [Slot(Elem, Secret(NO_SECRET))]);
      ReachedInSlot(v, 0);
    case TSecret =>
      v := Secret(NO_SECRET);
    case TStruct(name, fields) =>
      var i :| 0 <= i < |fields| && fields[i].exported && TypeHoldsSecret(fields[i].typ);
      v := ValueWithSecret(fields[i].typ);
      v := Node(Struct(name), ZeroFields(t, fields)[i := Slot(Field(true), v)]);
      ReachedInSlot(v, i);
  }

  lemma ReachedInSlot(v: Data, i: nat)
    requires v.Node? && i < |v.slots| && v.slots[i].tag != Field(false) && SecretsOf(v.slots[i].value, false) != []
    ensures SecretsOf(v, false) != []
  {
    if SecretsOfSlots(v.slots, false) == [] {
      SlotOfNone(v.slots, i, false);
      assert false;
    }
  }

  /** What is pruned is just what can hold no secret: a type is said to hold one exactly when
      some value of it has one that a walk reaches. */
  lemma TypeHoldsSecretIff(t: Type)
    ensures TypeHoldsSecret(t) <==> exists v :: HasType(v, t) && SecretsOf(v, false) != []
  {
    if TypeHoldsSecret(t) {
      var v := ValueWithSecret(t);
    } else if v :| HasType(v, t) && SecretsOf(v, false) != [] {
      TypesWithoutSecretsReachNone(v, t);
      assert false;
    }
  }

  /** Every value a walk meets is of its type: what a map's entries are is the map's own
      element type, wherever the map is. */
  predicate Typed(v: Data)
    decreases v
  {
    v.Node? ==>
      && (v.kind.Map? ==> AllEntriesOfType(v.slots, v.kind.elem))
      && forall i :: 0 <= i < |v.slots| ==> TypedSlot(v.slots[i])
  }

  predicate TypedSlot(slot: DataSlot)
    decreases slot
  {
    Typed(slot.value)
  }

  /** Pruning is sound: the pruned walk reaches the secrets the full walk reaches, and
      leaves what the full walk leaves, whatever it does to them. */
  lemma {:induction false} PruningIsSound(v: Data, f: Sec -> Sec)
    requires Typed(v)
    ensures SecretsOf(v, true) == SecretsOf(v, false)
    ensures WithSecrets(v, f, true) == WithSecrets(v, f, false)
    decreases v
  {
    if v.Node? {
      if Pruned(v.kind, true) {
        forall i | 0 <= i < |v.slots|
          ensures SecretsOfSlot(v.slots[i], false) == []
        {
          SlotsWithoutSecretsReachNone(v.slots[i], v.kind.elem);
        }
        NoneInSlots(v.slots, false);
        SameOnReached(v, f, s => s, false);
        WalkOfNothing(v, s => s, false);
      } else {
        forall i | 0 <= i < |v.slots|
          ensures SecretsOfSlot(v.slots[i], true) == SecretsOfSlot(v.slots[i], false)
          ensures WithSecretsSlot(v.slots[i], f, true) == WithSecretsSlot(v.slots[i], f, false)
        {
          PruningSlotIsSound(v.slots[i], f);
        }
        SameInSlots(v.slots);
      }
    }
  }

  lemma {:induction false} PruningSlotIsSound(slot: DataSlot, f: Sec -> Sec)
    requires TypedSlot(slot)
    ensures SecretsOfSlot(slot, true) == SecretsOfSlot(slot, false)
    ensures WithSecretsSlot(slot, f, true) == WithSecretsSlot(slot, f, false)
    decreases slot
  {
    PruningIsSound(slot.value, f);
  }

  lemma {:induction false} SameInSlots(slots: seq<DataSlot>)
    requires forall i :: 0 <= i < |slots| ==> SecretsOfSlot(slots[i], true) == SecretsOfSlot(slots[i], false)
    ensures SecretsOfSlots(slots, true) == SecretsOfSlots(slots, false)
  {
    if slots != [] {
      SameInSlots(slots[..|slots| - 1]);
    }
  }

  // ---------------------------------------------------------------- Counting and omitting

  function EmptyCount(ss: seq<Sec>): nat {
    if ss == [] then 0 else EmptyCount(ss[..|ss| - 1]) + if ss[|ss| - 1].IsEmpty() then 1 else 0
  }

  lemma {:induction false} EmptyCountAppend(a: seq<Sec>, b: seq<Sec>)
    ensures EmptyCount(a + b) == EmptyCount(a) + EmptyCount(b)
  {
    if b == [] {
      assert a + b == a;
    } else {
      assert (a + b)[..|a + b| - 1] == a + b[..|b| - 1];
      EmptyCountAppend(a, b[..|b| - 1]);
    }
  }

  /** The secrets a walk finds nothing in, and those it finds something in. */
  function CountEmpty(v: Data): nat {
    EmptyCount(SecretsOf(v, true))
  }

  function CountHeld(v: Data): int {
    |SecretsOf(v, true)| - EmptyCount(SecretsOf(v, true))
  }

  const OMIT: Sec -> Sec := _ => NO_SECRET

  function Omitted(v: Data): Data {
    WithSecrets(v, OMIT, true)
  }

  lemma {:induction false} AllEmpty(ss: seq<Sec>)
    requires forall i :: 0 <= i < |ss| ==> ss[i].IsEmpty()
    ensures EmptyCount(ss) == |ss|
  {
    if ss != [] {
      AllEmpty(ss[..|ss| - 1]);
    }
  }

  /** Omitting conserves secrets: the empty ones afterwards are those before and those
      omitted. Nothing is left to omit, and omitting again leaves the same. */
  lemma OmittingConserves(v: Data)
    ensures CountEmpty(Omitted(v)) == CountEmpty(v) + CountHeld(v)
    ensures CountHeld(Omitted(v)) == 0
    ensures Omitted(Omitted(v)) == Omitted(v)
  {
    ReachedAreChanged(v, OMIT, true);
    AllEmpty(SecretsOf(Omitted(v), true));
    WalksCompose(v, OMIT, OMIT, OMIT, true);
  }

  // ---------------------------------------------------------------- Keeping secrets

  /** The entry of a key: where it is in a map, or the map's size. */
  function IndexOf<S, L>(slots: seq<Slot<S, L>>, tag: Tag): (i: nat)
    ensures i <= |slots|
    ensures i < |slots| ==> slots[i].tag == tag
    ensures forall j :: 0 <= j < i ==> slots[j].tag != tag
  {
    if slots == [] || slots[0].tag == tag then 0 else 1 + IndexOf(slots[1..], tag)
  }

  /** What is kept for a slot of a container: the other container's slot that goes with it. */
  function Counterpart<S, L>(kind: Kind, slots: seq<Slot<S, L>>, i: nat, src: seq<Slot<S, L>>): (j: nat)
    requires i < |slots|
  {
    if kind.Map? then IndexOf(src, slots[i].tag) else i
  }

  function KeptSecret(d: Sec, s: Sec): Sec {
    if d.IsEmpty() && !s.IsEmpty() then s else d
  }

  /** dst with every secret it holds nothing in taken from src. */
  function Kept(dst: Data, src: Data, prune: bool): Data
    decreases dst
  {
    match dst
    case Node(kind, slots) =>
      if src.Node? && src.kind == kind && !Pruned(kind, prune)
      then Node(kind, KeptSlots(kind, slots, |slots|, src.slots, prune)) else dst
    case Secret(d) => if src.Secret? then Secret(KeptSecret(d, src.secret)) else dst
    case _ => dst
  }

  function KeptSlots(kind: Kind, slots: seq<DataSlot>, n: nat, src: seq<DataSlot>, prune: bool): (r: seq<DataSlot>)
    requires n <= |slots|
    ensures |r| == n
    ensures forall i :: 0 <= i < n ==> r[i] == KeptAt(kind, slots, i, src, prune)
    decreases slots, n
  {
    if n == 0 then [] else KeptSlots(kind, slots, n - 1, src, prune) + [KeptAt(kind, slots, n - 1, src, prune)]
  }

  function KeptAt(kind: Kind, slots: seq<DataSlot>, i: nat, src: seq<DataSlot>, prune: bool): DataSlot
    requires i < |slots|
    decreases slots, i
  {
    KeptSlot(slots[i], Counterpart(kind, slots, i, src), src, prune)
  }

  function KeptSlot(slot: DataSlot, j: nat, src: seq<DataSlot>, prune: bool): DataSlot
    decreases slot
  {
    if Skipped(slot.tag) || j >= |src| then slot else Slot(slot.tag, Kept(slot.value, src[j].value, prune))
  }

  /** Where no secret is reached there is none to keep. */
  lemma {:induction false} NothingToKeep(dst: Data, src: Data)
    requires SecretsOf(dst, false) == []
    ensures Kept(dst, src, false) == dst
    decreases dst
  {
    if dst.Node? && src.Node? && src.kind == dst.kind {
      forall i | 0 <= i < |dst.slots|
        ensures KeptSlot(dst.slots[i], Counterpart(dst.kind, dst.slots, i, src.slots), src.slots, false) == dst.slots[i]
      {
        SlotOfNone(dst.slots, i, false);
        NothingToKeepInSlot(dst.slots[i], Counterpart(dst.kind, dst.slots, i, src.slots), src.slots);
      }
    }
  }

  lemma {:induction false} NothingToKeepInSlot(slot: DataSlot, j: nat, src: seq<DataSlot>)
    requires SecretsOfSlot(slot, false) == []
    ensures KeptSlot(slot, j, src, false) == slot
    decreases slot
  {
    if !Skipped(slot.tag) && j < |src| {
      NothingToKeep(slot.value, src[j].value);
    }
  }

  lemma {:induction false} SlotOfNone(slots: seq<DataSlot>, i: nat, prune: bool)
    requires SecretsOfSlots(slots, prune) == [] && i < |slots|
    ensures SecretsOfSlot(slots[i], prune) == []
  {
    var n := |slots| - 1;
    assert |SecretsOfSlots(slots[..n], prune)| + |SecretsOfSlot(slots[n], prune)| == 0;
    if i < n {
      SlotOfNone(slots[..n], i, prune);
    }
  }

  /** Pruning is sound for keeping, too. */
  lemma {:induction false} PruningKeepIsSound(dst: Data, src: Data)
    requires Typed(dst)
    ensures Kept(dst, src, true) == Kept(dst, src, false)
    decreases dst
  {
    if dst.Node? && src.Node? && src.kind == dst.kind {
      if Pruned(dst.kind, true) {
        PruningIsSound(dst, OMIT);
        NothingToKeep(dst, src);
      } else {
        forall i | 0 <= i < |dst.slots|
          ensures var j := Counterpart(dst.kind, dst.slots, i, src.slots);
                  KeptSlot(dst.slots[i], j, src.slots, true) == KeptSlot(dst.slots[i], j, src.slots, false)
        {
          PruningKeepSlotIsSound(dst.slots[i], Counterpart(dst.kind, dst.slots, i, src.slots), src.slots);
        }
      }
    }
  }

  lemma {:induction false} PruningKeepSlotIsSound(slot: DataSlot, j: nat, src: seq<DataSlot>)
    requires TypedSlot(slot)
    ensures KeptSlot(slot, j, src, true) == KeptSlot(slot, j, src, false)
    decreases slot
  {
    if !Skipped(slot.tag) && j < |src| {
      PruningKeepIsSound(slot.value, src[j].value);
    }
  }

  /** No map has a key twice. */
  predicate DistinctKeys(v: Data)
    decreases v
  {
    v.Node? ==>
      && (v.kind.Map? ==> forall i, j :: 0 <= i < j < |v.slots| ==> v.slots[i].tag != v.slots[j].tag)
      && forall i :: 0 <= i < |v.slots| ==> DistinctKeysInSlot(v.slots[i])
  }

  predicate DistinctKeysInSlot(slot: DataSlot)
    decreases slot
  {
    DistinctKeys(slot.value)
  }

  lemma TwoEntriesDistinctIff(elem: Type, x: DataSlot, y: DataSlot)
    requires x.tag.Entry? && y.tag.Entry?
    ensures DistinctKeys(Node(Map(elem), [x, y]))
       <==> x.tag.key != y.tag.key && DistinctKeys(x.value) && DistinctKeys(y.value)
  {
    var v := Node(Map(elem), [x, y]);
    assert v.slots[0] == x && v.slots[1] == y;
    assert DistinctKeysInSlot(x) == DistinctKeys(x.value) && DistinctKeysInSlot(y) == DistinctKeys(y.value);
  }

  /** Keeping undoes omitting: given back what it was, a setting is what it was. */
  lemma {:induction false} KeepingRestoresOmitted(v: Data)
    requires DistinctKeys(v)
    ensures Kept(Omitted(v), v, true) == v
    decreases v
  {
    if v.Node? && !Pruned(v.kind, true) {
      var o := Omitted(v).slots;
      forall i | 0 <= i < |v.slots|
        ensures KeptSlot(o[i], Counterpart(v.kind, o, i, v.slots), v.slots, true) == v.slots[i]
      {
        assert Counterpart(v.kind, o, i, v.slots) == i;
        KeepingRestoresSlot(v.slots[i]);
      }
    }
  }

  lemma {:induction false} KeepingRestoresSlot(slot: DataSlot)
    requires DistinctKeysInSlot(slot)
    ensures WithSecretsSlot(slot, OMIT, true).tag == slot.tag
    ensures !Skipped(slot.tag) ==> Kept(WithSecretsSlot(slot, OMIT, true).value, slot.value, true) == slot.value
    decreases slot
  {
    KeepingRestoresOmitted(slot.value);
  }

  /** Secrets before and after: each kept, or taken where there was none. */
  ghost predicate OnlyFilled(before: seq<Sec>, after: seq<Sec>) {
    && |before| == |after|
    && forall i :: 0 <= i < |before| ==> after[i] == before[i] || (before[i].IsEmpty() && !after[i].IsEmpty())
  }

  lemma OnlyFilledAppend(a: seq<Sec>, b: seq<Sec>, a': seq<Sec>, b': seq<Sec>)
    requires OnlyFilled(a, a') && OnlyFilled(b, b')
    ensures OnlyFilled(a + b, a' + b')
  {
  }

  ghost predicate SlotOnlyFilled(before: DataSlot, after: DataSlot) {
    && WithSecretsSlot(after, OMIT, true) == WithSecretsSlot(before, OMIT, true)
    && OnlyFilled(SecretsOfSlot(before, true), SecretsOfSlot(after, true))
  }

  lemma {:induction false} SlotsOnlyFilled(before: seq<DataSlot>, after: seq<DataSlot>)
    requires |before| == |after| && forall i :: 0 <= i < |before| ==> SlotOnlyFilled(before[i], after[i])
    ensures OnlyFilled(SecretsOfSlots(before, true), SecretsOfSlots(after, true))
  {
    if before != [] {
      var n := |before| - 1;
      SlotsOnlyFilled(before[..n], after[..n]);
      OnlyFilledAppend(SecretsOfSlots(before[..n], true), SecretsOfSlot(before[n], true),
                       SecretsOfSlots(after[..n], true), SecretsOfSlot(after[n], true));
    }
  }

  /** Keeping never overwrites a secret that is held, and changes nothing but secrets. */
  lemma {:induction false} KeepingOnlyFills(dst: Data, src: Data)
    ensures Omitted(Kept(dst, src, true)) == Omitted(dst)
    ensures OnlyFilled(SecretsOf(dst, true), SecretsOf(Kept(dst, src, true), true))
    decreases dst
  {
    if dst.Node? && src.Node? && src.kind == dst.kind && !Pruned(dst.kind, true) {
      var kept := KeptSlots(dst.kind, dst.slots, |dst.slots|, src.slots, true);
      forall i | 0 <= i < |dst.slots|
        ensures SlotOnlyFilled(dst.slots[i], kept[i])
      {
        KeepingSlotOnlyFills(dst.slots[i], Counterpart(dst.kind, dst.slots, i, src.slots), src.slots);
      }
      SlotsOnlyFilled(dst.slots, kept);
      assert WithSecretsSlots(kept, OMIT, true) == WithSecretsSlots(dst.slots, OMIT, true);
    }
  }

  lemma {:induction false} KeepingSlotOnlyFills(slot: DataSlot, j: nat, src: seq<DataSlot>)
    ensures SlotOnlyFilled(slot, KeptSlot(slot, j, src, true))
    decreases slot
  {
    if !Skipped(slot.tag) && j < |src| {
      KeepingOnlyFills(slot.value, src[j].value);
    }
  }
}
