/** An encrypted field: a secret as ciphertext, as plaintext, or as both, with the one kept
    beside the other as a cache. */
module EncryptedFields {
  import opened Wrappers
  import opened SettingTrees

  datatype Error = ArgumentInvalid | KeyMissing | OpenFailed

  type Result<+T> = Wrappers.Result<T, Error>

  const ENCRYPTION_SALT_PREFIX := "hpsalt:"
  const ENCRYPTION_KEY_PREFIX := "hpenc:"

  predicate IsEncryptedValue(value: string) {
    ENCRYPTION_SALT_PREFIX <= value || ENCRYPTION_KEY_PREFIX <= value
  }

  function TrimBoth(s: string, c: char): string
    decreases |s|
  {
    if s != "" && s[0] == c then TrimBoth(s[1..], c)
    else if s != "" && s[|s| - 1] == c then TrimBoth(s[..|s| - 1], c)
    else s
  }

  /** The placeholder of a secret: up to 16 characters, stars with spaces around. */
  predicate IsMasked(value: string) {
    0 < |value| <= 16 && TrimBoth(TrimBoth(value, ' '), '*') == ""
  }

  /** Trimming takes the characters trimmed from both ends, and those alone. */
  lemma {:induction false} TrimmedFrom(s: string, c: char) returns (i: nat, j: nat)
    ensures i <= j <= |s| && TrimBoth(s, c) == s[i..j]
    ensures forall k :: 0 <= k < i || j <= k < |s| ==> s[k] == c
    ensures i < j ==> s[i] != c && s[j - 1] != c
    decreases |s|
  {
    i, j := 0, |s|;
    if s != "" && s[0] == c {
      i, j := TrimmedFrom(s[1..], c);
      assert forall k :: 1 <= k < |s| ==> s[k] == s[1..][k - 1];
      assert s[1..][i..j] == s[i + 1..j + 1];
      i, j := i + 1, j + 1;
    } else if s != "" && s[|s| - 1] == c {
      i, j := TrimmedFrom(s[..|s| - 1], c);
      assert s[..|s| - 1][i..j] == s[i..j];
    }
  }

  /** Stars from i up to j, and spaces around. */
  predicate StarsWithin(value: string, i: int, j: int) {
    && 0 <= i <= j <= |value|
    && forall k :: 0 <= k < |value| ==> value[k] == if i <= k < j then '*' else ' '
  }

  /** The placeholder is up to 16 characters of stars with spaces around; spaces alone are
      taken for it, too, and the text of no secret is. */
  lemma IsMaskedIff(value: string)
    ensures IsMasked(value) <==> 1 <= |value| <= 16 && exists i, j :: StarsWithin(value, i, j)
  {
    var i, j := TrimmedFrom(value, ' ');
    var stars := value[i..j];
    var k, l := TrimmedFrom(stars, '*');
    if TrimBoth(stars, '*') == "" {
      assert forall m :: i <= m < j ==> value[m] == stars[m - i];
      assert StarsWithin(value, i, j);
    }
    forall x, y | StarsWithin(value, x, y)
      ensures k == l
    {
      assert i < j ==> x <= i && j <= y;
      assert forall m :: 0 <= m < |stars| ==> stars[m] == '*';
    }
  }

  /** The data key: opening a ciphertext, and sealing a plaintext with the nonce drawn. */
  datatype Key = Key(open: string -> Option<string>, seal: (string, nat) -> string)

  ghost predicate Lawful(key: Key) {
    forall p, n :: key.open(key.seal(p, n)) == Some(p) && ENCRYPTION_KEY_PREFIX <= key.seal(p, n)
  }

  // ---------------------------------------------------------------- What a field does to its value

  function SetTo(value: string): Sec {
    if IsEncryptedValue(value) then Sec(value, "") else Sec("", value)
  }

  predicate HasPrefix(value: string, prefix: string, rest: string) {
    value == prefix + rest
  }

  /** A value is ciphertext exactly when it begins with one of the two markers. */
  lemma SetToIff(value: string)
    ensures SetTo(value) == Sec(value, "") || SetTo(value) == Sec("", value)
    ensures SetTo(value).encrypted != "" <==>
              exists rest :: HasPrefix(value, "hpsalt:", rest) || HasPrefix(value, "hpenc:", rest)
  {
    if "hpsalt:" <= value {
      assert HasPrefix(value, "hpsalt:", value[7..]);
    } else if "hpenc:" <= value {
      assert HasPrefix(value, "hpenc:", value[6..]);
    }
  }

  /** The plaintext of a field. */
  function Plain(key: Option<Key>, s: Sec): Result<string> {
    if s.decrypted != "" then Success(s.decrypted)
    else if s.encrypted == "" then Success("")
    else if key.None? then Failure(KeyMissing)
    else
      match key.value.open(s.encrypted)
      case Some(p) => Success(p)
      case None => Failure(OpenFailed)
  }

  /** The ciphertext of a field, sealing its plaintext when there is none. */
  function Cipher(key: Option<Key>, s: Sec, nonce: nat): Result<string> {
    if s.encrypted != "" then Success(s.encrypted)
    else if s.decrypted == "" then Success("")
    else if IsMasked(s.decrypted) then Failure(ArgumentInvalid)
    else if key.None? then Failure(KeyMissing)
    else Success(key.value.seal(s.decrypted, nonce))
  }

  /** Ciphertext is ciphertext, and what is kept beside it is what it opens to. */
  ghost predicate Coherent(key: Option<Key>, s: Sec) {
    && (s.encrypted != "" ==> IsEncryptedValue(s.encrypted))
    && (s.encrypted != "" && s.decrypted != "" ==> key.Some? && key.value.open(s.encrypted) == Some(s.decrypted))
  }

  class EncryptedField {
    var encrypted: string
    var decrypted: string

    function Value(): Sec
      reads this
    {
      Sec(encrypted, decrypted)
    }

    constructor (value: string)
      ensures Value() == SetTo(value)
    {
      if IsEncryptedValue(value) {
        encrypted, decrypted := value, "";
      } else {
        encrypted, decrypted := "", value;
      }
    }

    method Set(value: string)
      modifies this
      ensures Value() == SetTo(value)
    {
      if IsEncryptedValue(value) {
        encrypted := value;
        decrypted := "";
      } else {
        decrypted := value;
        encrypted := "";
      }
    }

    /** Clears the field. */
    method Clear()
      modifies this
      ensures Value() == NO_SECRET
    {
      encrypted, decrypted := "", "";
    }

    /** Takes another field's value. */
    method Take(s: Sec)
      modifies this
      ensures Value() == s
    {
      encrypted, decrypted := s.encrypted, s.decrypted;
    }

    method GetPlain(key: Option<Key>) returns (r: Result<string>)
      modifies this
      ensures r == Plain(key, old(Value()))
      ensures encrypted == old(encrypted)
      ensures decrypted == if r.Success? then r.value else old(decrypted)
      ensures Coherent(key, old(Value())) ==> Coherent(key, Value())
    {
      if decrypted != "" {
        return Success(decrypted);
      }
      if encrypted == "" {
        return Success("");
      }
      if key.None? {
        return Failure(KeyMissing);
      }
      match key.value.open(encrypted)
      case None => return Failure(OpenFailed);
      case Some(p) =>
        decrypted := p;
        return Success(p);
    }

    method GetEncrypted(key: Option<Key>, nonce: nat) returns (r: Result<string>)
      requires key.Some? ==> Lawful(key.value)
      modifies this
      ensures r == Cipher(key, old(Value()), nonce)
      ensures decrypted == old(decrypted)
      ensures encrypted == if r.Success? then r.value else old(encrypted)
      ensures Coherent(key, old(Value())) ==> Coherent(key, Value()) && Plain(key, Value()) == Plain(key, old(Value()))
    {
      if encrypted != "" {
        return Success(encrypted);
      }
      if decrypted == "" {
        return Success("");
      }
      if IsMasked(decrypted) {
        return Failure(ArgumentInvalid);
      }
      if key.None? {
        return Failure(KeyMissing);
      }
      encrypted := key.value.seal(decrypted, nonce);
      return Success(encrypted);
    }

    /** Drops the ciphertext kept, so that the next marshaling seals the value again. */
    method Reencrypt(key: Option<Key>) returns (r: Result<()>)
      modifies this
      ensures r.Failure? <==> Plain(key, old(Value())).Failure?
      ensures r.Success? ==> Value() == Reencrypted(key, old(Value()))
      ensures r.Failure? ==> Value() == old(Value())
    {
      if encrypted == "" && decrypted == "" {
        return Success(());
      }
      var plain := GetPlain(key);
      if plain.Failure? {
        return Failure(plain.error);
      }
      Set(plain.value);
      return Success(());
    }
  }

  /** What re-encrypting leaves of a field whose plaintext can be had. */
  function Reencrypted(key: Option<Key>, s: Sec): Sec {
    if s.IsEmpty() || Plain(key, s).Failure? then s else SetTo(Plain(key, s).value)
  }

  /** Re-encrypting keeps a secret exactly when its plaintext is not taken for ciphertext, or
      is ciphertext of itself; and then no ciphertext is left that it had. */
  lemma ReencryptingKeepsPlainIff(key: Option<Key>, s: Sec)
    requires Plain(key, s).Success?
    ensures var p := Plain(key, s).value;
            Plain(key, Reencrypted(key, s)) == Success(p)
            <==> !IsEncryptedValue(p) || (key.Some? && key.value.open(p) == Some(p))
    ensures !IsEncryptedValue(Plain(key, s).value) ==>
              Reencrypted(key, s).encrypted == "" && Coherent(key, Reencrypted(key, s))
  {
  }

  /** A field marshaled and read back has the plaintext it had: as long as it is not the
      placeholder, which is refused, and the key is there. */
  lemma MarshaledReadsBack(key: Option<Key>, s: Sec, nonce: nat)
    requires key.Some? && Lawful(key.value) && Coherent(key, s)
    ensures Cipher(key, s, nonce).Failure? <==> s.encrypted == "" && IsMasked(s.decrypted)
    ensures Cipher(key, s, nonce).Success? ==> Plain(key, SetTo(Cipher(key, s, nonce).value)) == Plain(key, s)
    ensures Cipher(key, s, nonce).Success? && s.decrypted != "" ==> SetTo(Cipher(key, s, nonce).value).decrypted == ""
  {
  }
}
