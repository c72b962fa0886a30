/** JSON for a JSONB column: the NUL characters Postgres refuses are dropped, and whether
    any was is told. */
module NulStripping {
  import opened Json

  const NUL := 0 as char
  const NUL_ESCAPE := "\\u0000"

  predicate Contains(text: string, part: string) {
    exists i :: 0 <= i <= |text| && part <= text[i..]
  }

  predicate HasNul(v: Value) {
    match v
    case Str(s) => NUL in s
    case Arr(elems) => exists i :: 0 <= i < |elems| && HasNul(elems[i])
    case Obj(ms) => exists i :: 0 <= i < |ms| && (NUL in ms[i].key || HasNul(ms[i].value))
    case _ => false
  }

  // ---------------------------------------------------------------- The byte test misses none

  lemma ContainsWithin(a: string, b: string, c: string, part: string)
    requires Contains(b, part)
    ensures Contains(a + b + c, part)
  {
    var i :| 0 <= i <= |b| && part <= b[i..];
    assert (a + b + c)[|a| + i..] == b[i..] + c;
  }

  lemma {:induction false} EscapeShowsNul(s: string)
    requires NUL in s
    ensures Contains(Escape(s), NUL_ESCAPE)
  {
    if s[0] == NUL {
      assert HexDigit(0) == '0';
      assert EscapeChar(NUL) == UnicodeEscape(NUL) == NUL_ESCAPE;
      assert NUL_ESCAPE <= Escape(s)[0..];
    } else {
      EscapeShowsNul(s[1..]);
      ContainsWithin(EscapeChar(s[0]), Escape(s[1..]), "", NUL_ESCAPE);
      assert EscapeChar(s[0]) + Escape(s[1..]) + "" == Escape(s);
    }
  }

  lemma QuoteShowsNul(s: string)
    requires NUL in s
    ensures Contains(Quote(s), NUL_ESCAPE)
  {
    EscapeShowsNul(s);
    ContainsWithin("\"", Escape(s), "\"", NUL_ESCAPE);
  }

  lemma ShowsIn(a: string, b: string, c: string)
    ensures Contains(b, NUL_ESCAPE) ==> Contains(a + (b + c), NUL_ESCAPE)
  {
    if Contains(b, NUL_ESCAPE) {
      ContainsWithin(a, b, c, NUL_ESCAPE);
      assert a + b + c == a + (b + c);
    }
  }

  lemma ShowsLast(a: string, b: string)
    ensures Contains(b, NUL_ESCAPE) ==> Contains(a + b, NUL_ESCAPE)
  {
    ShowsIn(a, b, "");
    assert b + "" == b;
  }

  /** A NUL anywhere in a value, key or string, shows in its text. */
  lemma {:induction false} TextShowsNul(v: Value)
    requires HasNul(v)
    ensures Contains(Encode(v), NUL_ESCAPE)
    decreases v, 0
  {
    match v
    case Str(s) => QuoteShowsNul(s);
    case Arr(elems) =>
      ElemsShowNul(elems);
      ShowsLast("[", EncodeElems(elems));
    case Obj(ms) =>
      MembersShowNul(ms);
      ShowsLast("{", EncodeMembers(ms));
    case _ =>
  }

  lemma {:induction false} ElemsShowNul(es: seq<Value>)
    requires exists i :: 0 <= i < |es| && HasNul(es[i])
    ensures Contains(EncodeElems(es), NUL_ESCAPE)
    decreases es, 1
  {
    var first, tail := Encode(es[0]), ElemsTail(es);
    if HasNul(es[0]) {
      TextShowsNul(es[0]);
      ShowsIn("", first, tail);
      assert "" + (first + tail) == first + tail;
    } else {
      var i :| 0 <= i < |es| && HasNul(es[i]);
      assert HasNul(es[1..][i - 1]);
      ElemsShowNul(es[1..]);
      ShowsLast(",", EncodeElems(es[1..]));
      ShowsLast(first, tail);
    }
  }

  lemma {:induction false} MembersShowNul(ms: seq<Member>)
    requires exists i :: 0 <= i < |ms| && (NUL in ms[i].key || HasNul(ms[i].value))
    ensures Contains(EncodeMembers(ms), NUL_ESCAPE)
    decreases ms, 1
  {
    var key, value, tail := Quote(ms[0].key), Encode(ms[0].value), MembersTail(ms);
    ShowsIn("", key, ":" + (value + tail));
    assert "" + (key + (":" + (value + tail))) == key + (":" + (value + tail));
    ShowsIn(":", value, tail);
    ShowsLast(key, ":" + (value + tail));
    ShowsLast(value, tail);
    ShowsLast(":", value + tail);
    if NUL in ms[0].key {
      QuoteShowsNul(ms[0].key);
    } else if HasNul(ms[0].value) {
      TextShowsNul(ms[0].value);
    } else {
      var i :| 0 <= i < |ms| && (NUL in ms[i].key || HasNul(ms[i].value));
      assert ms[1..][i - 1] == ms[i];
      MembersShowNul(ms[1..]);
      ShowsLast(",", EncodeMembers(ms[1..]));
    }
  }

  /** The test also sees what is no NUL: the text of a backslash before u0000. */
  lemma TestSeesEscapedBackslash()
    ensures !HasNul(Str(NUL_ESCAPE)) && Contains(Encode(Str(NUL_ESCAPE)), NUL_ESCAPE)
  {
    assert NUL_ESCAPE == ['\\'] + "u0000";
    PlainHasNoNul("u0000");
    SeenAfterBackslash("u0000");
  }

  lemma PlainHasNoNul(plain: string)
    requires forall c :: c in plain ==> EscapeChar(c) == [c]
    ensures NUL !in ['\\'] + plain
  {
    assert EscapeChar(NUL)[0] == '\\';
  }

  lemma SeenAfterBackslash(plain: string)
    requires forall c :: c in plain ==> EscapeChar(c) == [c]
    ensures Contains(Encode(Str(['\\'] + plain)), ['\\'] + plain)
  {
    EscapeCons('\\', plain);
    EscapePlain(plain);
    SeenWithin("\"", EscapeChar('\\'), plain, "\"");
  }

  lemma EscapeCons(c: char, t: string)
    ensures Escape([c] + t) == EscapeChar(c) + Escape(t)
  {
    assert ([c] + t)[1..] == t;
  }

  lemma SeenWithin(a: string, twice: string, plain: string, c: string)
    requires |twice| == 2 && twice[1] == '\\'
    ensures Contains(a + (twice + plain) + c, ['\\'] + plain)
  {
    assert ['\\'] + plain <= (a + (twice + plain) + c)[|a| + 1..];
  }

  lemma {:induction false} EscapePlain(s: string)
    requires forall c :: c in s ==> EscapeChar(c) == [c]
    ensures Escape(s) == s
  {
    if s != "" {
      assert s[0] in s;
      assert forall c :: c in s[1..] ==> c in s;
      EscapePlain(s[1..]);
    }
  }

  // ---------------------------------------------------------------- Stripping

  function StripString(s: string): (r: string)
    ensures NUL !in r
    ensures NUL !in s ==> r == s
    ensures NUL in s ==> |r| < |s|
    ensures |r| <= |s|
  {
    if s == "" then "" else (if s[0] == NUL then "" else [s[0]]) + StripString(s[1..])
  }

  /** A value with the NULs of its strings and keys dropped. Of the members whose keys then
      are the same, the one visited last is left. */
  function Strip(v: Value): Value {
    match v
    case Str(s) => Str(StripString(s))
    case Arr(elems) => Arr(StripElems(elems))
    case Obj(ms) => Obj(PutAll([], StripMembers(ms)))
    case _ => v
  }

  function StripElems(es: seq<Value>): (r: seq<Value>)
    ensures |r| == |es|
    ensures forall i :: 0 <= i < |es| ==> r[i] == Strip(es[i])
  {
    if es == [] then [] else [Strip(es[0])] + StripElems(es[1..])
  }

  function StripMembers(ms: seq<Member>): (r: seq<Member>)
    ensures |r| == |ms|
    ensures forall i :: 0 <= i < |ms| ==> r[i] == StripMember(ms[i])
  {
    if ms == [] then [] else [StripMember(ms[0])] + StripMembers(ms[1..])
  }

  function StripMember(m: Member): Member {
    Member(StripString(m.key), Strip(m.value))
  }

  lemma {:induction false} PutKeeps(ms: seq<Member>, m: Member)
    ensures m in Put(ms, m)
    ensures forall x :: x in Put(ms, m) ==> x in ms || x == m
  {
    if ms != [] && ms[0].key != m.key {
      PutKeeps(ms[1..], m);
    }
  }

  /** Putting members one by one leaves distinct keys, every key, and no member made up. */
  lemma {:induction false} PutAllKeeps(before: seq<Member>, ms: seq<Member>)
    requires DistinctKeys(before)
    ensures DistinctKeys(PutAll(before, ms))
    ensures forall k :: (HasKey(PutAll(before, ms), k) <==> HasKey(before, k) || HasKey(ms, k))
    ensures forall x :: x in PutAll(before, ms) ==> x in before || x in ms
    decreases ms
  {
    if ms != [] {
      PutKeeps(before, ms[0]);
      PutStaysDistinct(before, ms[0]);
      forall k ensures HasKey(Put(before, ms[0]), k) <==> HasKey(before, k) || k == ms[0].key {
        PutHasKey(before, ms[0], k);
      }
      PutAllKeeps(Put(before, ms[0]), ms[1..]);
      HasKeySplits(ms);
    }
  }

  ghost predicate IsClean(v: Value) {
    && !HasNul(Strip(v))
    && (WellFormed(v) ==> WellFormed(Strip(v)))
    && (WellFormed(v) && !HasNul(v) ==> Strip(v) == v)
  }

  lemma StrippedListIsClean(elems: seq<Value>)
    requires forall i :: 0 <= i < |elems| ==> IsClean(elems[i])
    ensures IsClean(Arr(elems))
  {
    if WellFormed(Arr(elems)) && !HasNul(Arr(elems)) {
      assert StripElems(elems) == elems;
    }
  }

  lemma StrippedObjectIsClean(ms: seq<Member>)
    requires forall i :: 0 <= i < |ms| ==> IsClean(ms[i].value)
    ensures IsClean(Obj(ms))
  {
    var stripped := StripMembers(ms);
    var out := PutAll([], stripped);
    PutAllKeeps([], stripped);
    forall i | 0 <= i < |out|
      ensures !HasNul(out[i].value) && NUL !in out[i].key
      ensures WellFormed(Obj(ms)) ==> WellFormed(out[i].value)
    {
      assert out[i] in stripped;
    }
    if WellFormed(Obj(ms)) && !HasNul(Obj(ms)) {
      CleanObjectStays(ms);
    }
  }

  lemma CleanObjectStays(ms: seq<Member>)
    requires WellFormed(Obj(ms)) && !HasNul(Obj(ms))
    requires forall i :: 0 <= i < |ms| ==> IsClean(ms[i].value)
    ensures Strip(Obj(ms)) == Obj(ms)
  {
    PutDistinct(ms);
    assert StripMembers(ms) == ms;
  }

  lemma PutDistinct(ms: seq<Member>)
    requires DistinctKeys(ms)
    ensures PutAll([], ms) == ms
  {
    assert [] + ms == ms;
    PutAllDistinct([], ms);
  }

  /** What is stripped holds no NUL, is well formed when it was before, and is as it was
      when there was none. */
  lemma {:induction false} StripIsClean(v: Value)
    ensures !HasNul(Strip(v))
    ensures WellFormed(v) ==> WellFormed(Strip(v))
    ensures WellFormed(v) && !HasNul(v) ==> Strip(v) == v
  {
    match v
    case Arr(elems) =>
      forall i | 0 <= i < |elems|
        ensures IsClean(elems[i])
      {
        StripIsClean(elems[i]);
      }
      StrippedListIsClean(elems);
    case Obj(ms) =>
      forall i | 0 <= i < |ms|
        ensures IsClean(ms[i].value)
      {
        StripIsClean(ms[i].value);
      }
      StrippedObjectIsClean(ms);
    case _ =>
  }

  /** Stripping a string drops its NULs and nothing else. */
  lemma {:induction false} StripStringAppend(a: string, b: string)
    ensures StripString(a + b) == StripString(a) + StripString(b)
  {
    if a == "" {
      assert a + b == b;
    } else {
      assert (a + b)[0] == a[0] && (a + b)[1..] == a[1..] + b;
      StripStringAppend(a[1..], b);
      var first := if a[0] == NUL then "" else [a[0]];
      assert first + (StripString(a[1..]) + StripString(b)) == (first + StripString(a[1..])) + StripString(b);
    }
  }

  lemma StripOfOne(c: char)
    ensures StripString([c]) == if c == NUL then [] else [c]
  {
    assert [c][1..] == [];
  }

  /** One string is another without its NULs: read side by side, each character of the first
      is a NUL or the next of the second, and both come to their ends together. */
  ghost predicate IsWithoutNul(s: string, t: string) {
    if s == "" then t == ""
    else if s[0] == NUL then IsWithoutNul(s[1..], t)
    else t != "" && t[0] == s[0] && IsWithoutNul(s[1..], t[1..])
  }

  lemma {:induction false} StripStringIff(s: string, t: string)
    ensures IsWithoutNul(s, t) <==> t == StripString(s)
  {
    if s != "" {
      if s[0] == NUL {
        StripStringIff(s[1..], t);
      } else if t != "" {
        StripStringIff(s[1..], t[1..]);
        assert t == [t[0]] + t[1..];
      }
    }
  }

  /** One value is another without the NULs of its strings and keys: in lists element by
      element; in objects each member is one that was there, and each that was there is, or
      one after it with the same key is. */
  ghost predicate SaysWithoutNul(v: Value, w: Value)
    decreases v
  {
    match v
    case Str(s) => w.Str? && IsWithoutNul(s, w.s)
    case Arr(elems) =>
      && w.Arr? && |w.elems| == |elems|
      && forall i :: 0 <= i < |elems| ==> SaysWithoutNul(elems[i], w.elems[i])
    case Obj(ms) =>
      && w.Obj? && DistinctKeys(w.members)
      && (forall m :: m in w.members ==> ComesFrom(ms, m))
      && (forall i :: 0 <= i < |ms| ==> Remains(ms[i].key, w.members))
    case _ => w == v
  }

  ghost predicate ComesFrom(ms: seq<Member>, m: Member)
    decreases ms
  {
    exists i :: 0 <= i < |ms| && IsLastOf(ms, i, m.key) && SaysWithoutNul(ms[i].value, m.value)
  }

  ghost predicate Remains(key: string, ms: seq<Member>) {
    exists i :: 0 <= i < |ms| && IsWithoutNul(key, ms[i].key)
  }

  /** The last member whose key is this one without its NULs. */
  ghost predicate IsLastOf(ms: seq<Member>, i: nat, key: string)
    requires i < |ms|
  {
    IsWithoutNul(ms[i].key, key) && forall j :: i < j < |ms| ==> !IsWithoutNul(ms[j].key, key)
  }

  /** Of members put one by one, the last of a key is left. */
  lemma {:induction false} LastIsLeft(before: seq<Member>, ms: seq<Member>, m: Member)
    requires DistinctKeys(before) && m in PutAll(before, ms)
    ensures || (exists i :: 0 <= i < |ms| && ms[i] == m && forall j :: i < j < |ms| ==> ms[j].key != m.key)
            || (m in before && forall j :: 0 <= j < |ms| ==> ms[j].key != m.key)
    decreases ms
  {
    if ms != [] {
      var rest, put := ms[1..], Put(before, ms[0]);
      PutKeeps(before, ms[0]);
      PutStaysDistinct(before, ms[0]);
      LastIsLeft(put, rest, m);
      if i :| 0 <= i < |rest| && rest[i] == m && forall j :: i < j < |rest| ==> rest[j].key != m.key {
        assert ms[i + 1] == m;
        forall j | i + 1 < j < |ms| ensures ms[j].key != m.key {
          assert rest[j - 1] == ms[j];
        }
      } else {
        forall j | 1 <= j < |ms| ensures ms[j].key != m.key {
          assert rest[j - 1] == ms[j];
        }
        if m.key == ms[0].key {
          OneOfAKey(put, m, ms[0]);
        }
      }
    }
  }

  lemma OneOfAKey(ms: seq<Member>, a: Member, b: Member)
    requires DistinctKeys(ms) && a in ms && b in ms && a.key == b.key
    ensures a == b
  {
    var i :| 0 <= i < |ms| && ms[i] == a;
    var j :| 0 <= j < |ms| && ms[j] == b;
    assert i == j;
  }

  lemma StrippedMemberWas(ms: seq<Member>, m: Member)
    requires m in PutAll([], StripMembers(ms))
    requires forall i :: 0 <= i < |ms| ==> SaysWithoutNul(ms[i].value, Strip(ms[i].value))
    ensures ComesFrom(ms, m)
  {
    var stripped := StripMembers(ms);
    LastIsLeft([], stripped, m);
    var i :| 0 <= i < |stripped| && stripped[i] == m && forall j :: i < j < |stripped| ==> stripped[j].key != m.key;
    LastStripped(ms, i, m);
    assert SaysWithoutNul(ms[i].value, m.value);
  }

  lemma LastStripped(ms: seq<Member>, i: nat, m: Member)
    requires i < |ms| && m == StripMember(ms[i])
    requires forall j :: i < j < |ms| ==> StripMembers(ms)[j].key != m.key
    ensures IsLastOf(ms, i, m.key)
  {
    StripStringIff(ms[i].key, m.key);
    forall j | i < j < |ms| ensures !IsWithoutNul(ms[j].key, m.key) {
      StripStringIff(ms[j].key, m.key);
      assert StripMembers(ms)[j] == StripMember(ms[j]);
    }
  }

  lemma KeyRemains(ms: seq<Member>, i: nat)
    requires i < |ms|
    ensures Remains(ms[i].key, PutAll([], StripMembers(ms)))
  {
    var out := PutAll([], StripMembers(ms));
    EachKeySurvivesOnce(ms);
    assert HasKey(out, StripString(ms[i].key));
    var j :| 0 <= j < |out| && out[j].key == StripString(ms[i].key);
    StripStringIff(ms[i].key, out[j].key);
  }

  lemma StrippedObjectSays(ms: seq<Member>)
    requires forall i :: 0 <= i < |ms| ==> SaysWithoutNul(ms[i].value, Strip(ms[i].value))
    ensures SaysWithoutNul(Obj(ms), Strip(Obj(ms)))
  {
    var out := PutAll([], StripMembers(ms));
    PutAllKeeps([], StripMembers(ms));
    forall m | m in out ensures ComesFrom(ms, m) {
      StrippedMemberWas(ms, m);
    }
    forall i | 0 <= i < |ms| ensures Remains(ms[i].key, out) {
      KeyRemains(ms, i);
    }
  }

  lemma {:induction false} StripSays(v: Value)
    ensures SaysWithoutNul(v, Strip(v))
  {
    match v
    case Str(s) => StripStringIff(s, StripString(s));
    case Arr(elems) =>
      forall i | 0 <= i < |elems| ensures SaysWithoutNul(elems[i], StripElems(elems)[i]) {
        StripSays(elems[i]);
      }
    case Obj(ms) =>
      forall i | 0 <= i < |ms| ensures SaysWithoutNul(ms[i].value, Strip(ms[i].value)) {
        StripSays(ms[i].value);
      }
      StrippedObjectSays(ms);
    case _ =>
  }

  /** What is stored of a value decodes to it without its NULs. */
  lemma StoredSays(v: Value)
    requires WellFormed(v)
    ensures Decode(Stored(v).0).Some? && SaysWithoutNul(v, Decode(Stored(v).0).value)
  {
    StoredDecodes(v);
    StripSays(v);
  }

  /** Stripping twice is stripping once. */
  lemma StripIsIdempotent(v: Value)
    requires WellFormed(v)
    ensures Strip(Strip(v)) == Strip(v)
  {
    StripIsClean(v);
    StripIsClean(Strip(v));
  }

  /** A stripped object's member is one of the object's, stripped. */
  ghost predicate Survives(ms: seq<Member>, m: Member) {
    exists i :: 0 <= i < |ms| && m.key == StripString(ms[i].key) && m.value == Strip(ms[i].value)
  }

  /** Of an object, each key stays as stripped, and stays once ... */
  lemma EachKeySurvivesOnce(ms: seq<Member>)
    ensures DistinctKeys(Strip(Obj(ms)).members)
    ensures forall i :: 0 <= i < |ms| ==> HasKey(Strip(Obj(ms)).members, StripString(ms[i].key))
  {
    var stripped := StripMembers(ms);
    PutAllKeeps([], stripped);
    forall i | 0 <= i < |ms|
      ensures HasKey(Strip(Obj(ms)).members, StripString(ms[i].key))
    {
      assert HasKey(stripped, stripped[i].key);
    }
  }

  /** ... with the value of a member it was. */
  lemma NoMemberIsMadeUp(ms: seq<Member>, m: Member)
    requires m in Strip(Obj(ms)).members
    ensures Survives(ms, m)
  {
    var stripped := StripMembers(ms);
    PutAllKeeps([], stripped);
    var i :| 0 <= i < |stripped| && stripped[i] == m;
    assert m.key == StripString(ms[i].key);
  }

  // ---------------------------------------------------------------- The code

  /** A decoded value stripped in place, and whether there was anything to strip. */
  method WithoutNUL(v: Value) returns (r: Value, changed: bool)
    ensures r == Strip(v)
    ensures changed <==> HasNul(v)
    decreases v
  {
    match v
    case Str(s) =>
      if NUL !in s {
        return v, false;
      }
      return Str(StripString(s)), true;
    case Arr(elems) =>
      var x, c := ElemsWithoutNUL(elems);
      return Arr(x), c;
    case Obj(ms) =>
      var out, c := MembersWithoutNUL(ms);
      return Obj(out), c;
    case _ => return v, false;
  }

  method ElemsWithoutNUL(elems: seq<Value>) returns (x: seq<Value>, changed: bool)
    ensures x == StripElems(elems)
    ensures changed <==> exists j :: 0 <= j < |elems| && HasNul(elems[j])
    decreases elems
  {
    x := elems;
    changed := false;
    var i := 0;
    while i < |x|
      invariant 0 <= i <= |x| == |elems|
      invariant forall j :: 0 <= j < i ==> x[j] == Strip(elems[j])
      invariant forall j :: i <= j < |x| ==> x[j] == elems[j]
      invariant changed <==> exists j :: 0 <= j < i && HasNul(elems[j])
    {
      var e, c := WithoutNUL(x[i]);
      x := x[i := e];
      changed := changed || c;
      i := i + 1;
    }
  }

  /** Of the first members, what is put and whether there was a NUL in any. */
  ghost predicate IsStrippedUpTo(ms: seq<Member>, i: nat, out: seq<Member>, changed: bool)
    requires i <= |ms|
  {
    && PutAll(out, StripMembers(ms)[i..]) == PutAll([], StripMembers(ms))
    && (changed <==> HasNul(Obj(ms[..i])))
  }

  lemma OneMoreStripped(ms: seq<Member>, i: nat, out: seq<Member>, changed: bool)
    requires i < |ms| && IsStrippedUpTo(ms, i, out, changed)
    ensures IsStrippedUpTo(ms, i + 1, Put(out, Member(StripString(ms[i].key), Strip(ms[i].value))),
                           changed || HasNul(ms[i].value) || NUL in ms[i].key)
  {
    var rest := StripMembers(ms)[i..];
    assert rest[0] == Member(StripString(ms[i].key), Strip(ms[i].value));
    assert rest[1..] == StripMembers(ms)[i + 1..];
    NulInOneMore(ms, i);
  }

  lemma NulInOneMore(ms: seq<Member>, i: nat)
    requires i < |ms|
    ensures HasNul(Obj(ms[..i + 1])) <==> HasNul(Obj(ms[..i])) || HasNul(ms[i].value) || NUL in ms[i].key
  {
    var before, after := ms[..i], ms[..i + 1];
    assert after == before + [ms[i]];
    if HasNul(Obj(before)) {
      var j :| 0 <= j < i && (NUL in before[j].key || HasNul(before[j].value));
      assert after[j] == before[j];
    }
    if HasNul(ms[i].value) || NUL in ms[i].key {
      assert after[i] == ms[i];
    }
  }

  method MembersWithoutNUL(ms: seq<Member>) returns (out: seq<Member>, changed: bool)
    ensures out == PutAll([], StripMembers(ms))
    ensures changed <==> HasNul(Obj(ms))
    decreases ms
  {
    out, changed := [], false;
    var i := 0;
    assert StripMembers(ms)[i..] == StripMembers(ms);
    while i < |ms|
      invariant 0 <= i <= |ms| && IsStrippedUpTo(ms, i, out, changed)
    {
      var key := StripString(ms[i].key);
      var value, cv := WithoutNUL(ms[i].value);
      OneMoreStripped(ms, i, out, changed);
      out := Put(out, Member(key, value));
      changed := changed || cv || key != ms[i].key;
      i := i + 1;
    }
    assert ms[..i] == ms;
  }

  /** What is stored for a value: the text, and whether the value is what it decodes to. */
  function Stored(v: Value): (string, bool) {
    if HasNul(v) then (Encode(Strip(v)), false) else (Encode(v), true)
  }

  method MarshalJSONB(v: Value) returns (text: string, clean: bool)
    requires WellFormed(v)
    ensures (text, clean) == Stored(v)
  {
    text := Encode(v);
    if !Contains(text, NUL_ESCAPE) {
      if HasNul(v) {
        TextShowsNul(v);
      }
      return text, true;
    }
    RoundTrip(v);
    var decoded := Decode(text).value;
    var stripped, changed := WithoutNUL(decoded);
    if !changed {
      return text, true;
    }
    return Encode(stripped), false;
  }

  /** The stored text decodes to a value without a NUL in any string or key: to the value
      given when it is called clean, and otherwise to that value stripped, which is another. */
  lemma StoredDecodes(v: Value)
    requires WellFormed(v)
    ensures var (text, clean) := Stored(v);
            && Decode(text).Some?
            && !HasNul(Decode(text).value)
            && Decode(text).value == Strip(v)
            && (clean <==> Decode(text).value == v)
  {
    StripIsClean(v);
    RoundTrip(v);
    RoundTrip(Strip(v));
  }
}
