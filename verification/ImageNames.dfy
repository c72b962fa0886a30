/** Image repository names and tags: joining keys, cutting them to length, and making the
    joined name legal. A string is its bytes. */
module ImageNames {
  import opened Wrappers

  const REPO_SEGMENT_MAX_LEN := 50
  const ENV_SEGMENT_MAX_LEN := 20
  const TRUNCATED_SUFFIX_LEN := 6
  const COMMIT_HASH_LEN := 7

  datatype Error = Missing | ValueInvalid

  type Result<+T> = Wrappers.Result<T, Error>

  predicate Separator(c: char) {
    c == '-' || c == '_' || c == '.'
  }

  predicate Doubles(a: char, b: char) {
    a == b && (a == '-' || a == '_')
  }

  predicate HasDouble(s: string) {
    |s| >= 2 && (Doubles(s[0], s[1]) || HasDouble(s[1..]))
  }

  // ---------------------------------------------------------------- One pass, and the fixed point

  /** One left-to-right pass of a replacer of each doubled separator by a single one. */
  function ReplacePass(s: string): (r: string)
    ensures |r| <= |s|
    ensures HasDouble(s) ==> |r| < |s|
  {
    if s == "" then ""
    else if |s| >= 2 && Doubles(s[0], s[1]) then [s[0]] + ReplacePass(s[2..])
    else [s[0]] + ReplacePass(s[1..])
  }

  /** Each run of '-' and each run of '_' made one. */
  function Collapse(s: string): (r: string)
    ensures |r| <= |s|
    ensures s != "" ==> r != "" && r[0] == s[0]
    ensures !HasDouble(r)
  {
    if |s| < 2 then s
    else if Doubles(s[0], s[1]) then Collapse(s[1..])
    else
      var rest := Collapse(s[1..]);
      assert ([s[0]] + rest)[1..] == rest;
      [s[0]] + rest
  }

  function TrimLeft(s: string): (r: string)
    ensures |r| <= |s|
    ensures r != "" ==> !Separator(r[0])
  {
    if s != "" && Separator(s[0]) then TrimLeft(s[1..]) else s
  }

  function TrimRight(s: string): (r: string)
    ensures r <= s
    ensures r != "" ==> !Separator(r[|r| - 1])
  {
    if s != "" && Separator(s[|s| - 1]) then TrimRight(s[..|s| - 1]) else s
  }

  function Trim(s: string): string {
    TrimRight(TrimLeft(s))
  }

  /** What normalizing comes to: collapse once, then trim. */
  function Normalized(s: string): string {
    Trim(Collapse(s))
  }

  lemma {:induction false} CollapseIgnoresPass(x: char, t: string)
    ensures Collapse([x] + ReplacePass(t)) == Collapse([x] + t)
    decreases |t|
  {
    if t != "" {
      var y := t[0];
      var u := if |t| >= 2 && Doubles(t[0], t[1]) then t[2..] else t[1..];
      CollapseIgnoresPass(y, u);
      assert ReplacePass(t) == [y] + ReplacePass(u);
      assert ([x] + ([y] + ReplacePass(u)))[1..] == [y] + ReplacePass(u);
      assert ([x] + t)[1..] == t;
      assert Collapse(t) == Collapse([y] + u) by {
        if |t| >= 2 && Doubles(t[0], t[1]) {
          assert t[1..] == [y] + u;
        } else {
          assert t == [y] + u;
        }
      }
    }
  }

  lemma PassKeepsCollapse(s: string)
    ensures Collapse(ReplacePass(s)) == Collapse(s)
  {
    if s != "" {
      var u := if |s| >= 2 && Doubles(s[0], s[1]) then s[2..] else s[1..];
      CollapseIgnoresPass(s[0], u);
      if |s| >= 2 && Doubles(s[0], s[1]) {
        assert s[1..] == [s[0]] + u;
      } else {
        assert s == [s[0]] + u;
      }
    }
  }

  lemma {:induction false} CollapseWithoutDouble(s: string)
    requires !HasDouble(s)
    ensures Collapse(s) == s
  {
    if |s| >= 2 {
      CollapseWithoutDouble(s[1..]);
    }
  }

  /** Repeats the pass until nothing is doubled, then trims: the same as collapsing once. */
  method NormalizeImagePart(value: string) returns (r: string)
    ensures r == Normalized(value)
  {
    var v := value;
    while HasDouble(v)
      invariant Collapse(v) == Collapse(value)
      decreases |v|
    {
      PassKeepsCollapse(v);
      v := ReplacePass(v);
    }
    CollapseWithoutDouble(v);
    return Trim(v);
  }

  // ---------------------------------------------------------------- What normalizing gives

  lemma {:induction false} DoublesOfSlice(s: string, i: nat, j: nat)
    requires i <= j <= |s| && !HasDouble(s)
    ensures !HasDouble(s[i..j])
    decreases |s|, j - i
  {
    if i > 0 {
      if j > i + 1 {
        DoublesOfSlice(s[1..], i - 1, j - 1);
        assert s[1..][i - 1..j - 1] == s[i..j];
      }
    } else if j >= 2 {
      DoublesOfSlice(s[1..], 0, j - 1);
      assert s[..j][1..] == s[1..][..j - 1];
    }
  }

  lemma {:induction false} TrimLeftIsSuffix(s: string)
    ensures TrimLeft(s) == s[|s| - |TrimLeft(s)|..]
  {
    if s != "" && Separator(s[0]) {
      TrimLeftIsSuffix(s[1..]);
    }
  }

  predicate Says(s: string, i: nat, part: string) {
    i + |part| <= |s| && s[i..i + |part|] == part
  }

  lemma {:induction false} NoDoubleAt(s: string, i: nat)
    requires !HasDouble(s) && i + 1 < |s|
    ensures !Says(s, i, "--") && !Says(s, i, "__")
  {
    if i > 0 {
      NoDoubleAt(s[1..], i - 1);
      assert s[1..][i - 1..i + 1] == s[i..i + 2];
    } else {
      assert s[0] == s[..2][0] && s[1] == s[..2][1];
    }
  }

  /** A normalized part has no doubled hyphen or underscore, and no separator at either end. */
  lemma NormalizedIsClean(s: string)
    ensures !HasDouble(Normalized(s))
    ensures forall i :: !Says(Normalized(s), i, "--") && !Says(Normalized(s), i, "__")
    ensures Normalized(s) != "" ==>
              !Separator(Normalized(s)[0]) && !Separator(Normalized(s)[|Normalized(s)| - 1])
    ensures |Normalized(s)| <= |s|
  {
    var c := Collapse(s);
    var l := TrimLeft(c);
    TrimLeftIsSuffix(c);
    DoublesOfSlice(c, |c| - |l|, |c|);
    assert c[|c| - |l|..|c|] == l;
    DoublesOfSlice(l, 0, |Normalized(s)|);
    assert l[0..|Normalized(s)|] == Normalized(s);
    forall i: nat
      ensures !Says(Normalized(s), i, "--") && !Says(Normalized(s), i, "__")
    {
      if i + 1 < |Normalized(s)| {
        NoDoubleAt(Normalized(s), i);
      }
    }
  }

  /** Normalizing again changes nothing. */
  lemma NormalizedIsIdempotent(s: string)
    ensures Normalized(Normalized(s)) == Normalized(s)
  {
    NormalizedIsClean(s);
    CollapseWithoutDouble(Normalized(s));
  }

  /** What is left of a string without its separators. */
  function Letters(s: string): string {
    if s == "" then "" else (if Separator(s[0]) then "" else [s[0]]) + Letters(s[1..])
  }

  lemma {:induction false} LettersAppend(s: string, c: char)
    ensures Letters(s + [c]) == Letters(s) + (if Separator(c) then "" else [c])
  {
    if s != "" {
      assert (s + [c])[1..] == s[1..] + [c];
      LettersAppend(s[1..], c);
    }
  }

  lemma {:induction false} LettersOfCollapse(s: string)
    ensures Letters(Collapse(s)) == Letters(s)
  {
    if |s| >= 2 {
      LettersOfCollapse(s[1..]);
      assert !Doubles(s[0], s[1]) ==> Collapse(s)[1..] == Collapse(s[1..]);
    }
  }

  lemma {:induction false} LettersOfTrimRight(s: string)
    ensures Letters(TrimRight(s)) == Letters(s)
  {
    if s != "" && Separator(s[|s| - 1]) {
      assert s == s[..|s| - 1] + [s[|s| - 1]];
      LettersAppend(s[..|s| - 1], s[|s| - 1]);
      LettersOfTrimRight(s[..|s| - 1]);
    }
  }

  lemma {:induction false} LettersOfTrimLeft(s: string)
    ensures Letters(TrimLeft(s)) == Letters(s)
  {
    if s != "" && Separator(s[0]) {
      LettersOfTrimLeft(s[1..]);
    }
  }

  /** Normalizing drops separators alone: every other character stays, in its place. */
  lemma NormalizedKeepsLetters(s: string)
    ensures Letters(Normalized(s)) == Letters(s)
  {
    LettersOfTrimRight(TrimLeft(Collapse(s)));
    LettersOfTrimLeft(Collapse(s));
    LettersOfCollapse(s);
  }

  // ---------------------------------------------------------------- What normalizing does not repair

  /** Two separators side by side, as the grammar of a name does not allow. */
  predicate Adjacent(s: string) {
    |s| >= 2 && ((Separator(s[0]) && Separator(s[1])) || Adjacent(s[1..]))
  }

  /** Two separators side by side that are not one doubled. */
  predicate Clash(s: string) {
    |s| >= 2 && ((Separator(s[0]) && Separator(s[1]) && !Doubles(s[0], s[1])) || Clash(s[1..]))
  }

  lemma {:induction false} CollapseLeavesClashes(s: string)
    ensures Adjacent(Collapse(s)) <==> Clash(s)
  {
    if |s| >= 2 {
      CollapseLeavesClashes(s[1..]);
      assert !Doubles(s[0], s[1]) ==> Collapse(s)[1..] == Collapse(s[1..]);
    }
  }

  lemma {:induction false} CollapseAppend(s: string, c: char)
    ensures Collapse(s + [c])
         == if s != "" && Doubles(s[|s| - 1], c) then Collapse(s) else Collapse(s) + [c]
  {
    if |s| == 1 {
      assert (s + [c])[1..] == [c];
    } else if |s| >= 2 {
      assert (s + [c])[1..] == s[1..] + [c];
      CollapseAppend(s[1..], c);
    }
  }

  lemma {:induction false} TrimLeftOfCollapse(s: string)
    ensures TrimLeft(Collapse(s)) == Collapse(TrimLeft(s))
  {
    if s != "" && Separator(s[0]) {
      TrimLeftOfCollapse(s[1..]);
      if |s| >= 2 && !Doubles(s[0], s[1]) {
        assert Collapse(s)[1..] == Collapse(s[1..]);
      }
    }
  }

  lemma LastOfCollapse(s: string)
    requires s != ""
    ensures Collapse(s)[|Collapse(s)| - 1] == s[|s| - 1]
    decreases |s|
  {
    var t, c := s[..|s| - 1], s[|s| - 1];
    assert s == t + [c];
    CollapseAppend(t, c);
    if t != "" {
      LastOfCollapse(t);
    }
  }

  lemma {:induction false} TrimRightOfCollapse(s: string)
    ensures TrimRight(Collapse(s)) == Collapse(TrimRight(s))
  {
    if s != "" {
      var t, c := s[..|s| - 1], s[|s| - 1];
      assert s == t + [c];
      CollapseAppend(t, c);
      if t != "" {
        LastOfCollapse(t);
      }
      if Separator(c) {
        TrimRightOfCollapse(t);
        if !(t != "" && Doubles(t[|t| - 1], c)) {
          assert Collapse(s)[..|Collapse(s)| - 1] == Collapse(t);
        }
      }
    }
  }

  /** A normalized part is left with separators side by side exactly when the given one,
      between its first and last letters, has two that differ, or two dots. */
  lemma NotRepairedIff(s: string)
    ensures Adjacent(Normalized(s)) <==> Clash(Trim(s))
  {
    TrimLeftOfCollapse(s);
    TrimRightOfCollapse(TrimLeft(s));
    CollapseLeavesClashes(Trim(s));
  }

  lemma MixedSeparatorsStay()
    ensures Normalized("a-_b") == "a-_b" && Adjacent("a-_b")
    ensures Normalized("a..b") == "a..b" && Adjacent("a..b")
  {
    var dots := "a..b";
    assert dots[1..] == "..b" && dots[1..][1..] == ".b";
    CollapseWithoutDouble(dots);
    assert Separator(dots[1..][0]) && Separator(dots[1..][1]);
    assert TrimLeft(dots) == dots && TrimRight(dots) == dots;
    var s := "a-_b";
    assert s[1..] == "-_b" && s[1..][1..] == "_b";
    CollapseWithoutDouble(s);
    assert Separator(s[1..][0]) && Separator(s[1..][1]);
    assert TrimLeft(s) == s && TrimRight(s) == s;
  }

  // ---------------------------------------------------------------- Names and tags

  /** What an app's image is named by; the digest is of its global key. */
  datatype App = App(projectKey: Option<string>, envKey: Option<string>, key: string, digest: string)

  predicate HexDigits(s: string) {
    forall c :: c in s ==> '0' <= c <= '9' || 'a' <= c <= 'f'
  }

  lemma AllHexDigits()
    ensures HexDigits("0123456789abcdef")
  {
  }

  predicate Digested(app: App) {
    |app.digest| == TRUNCATED_SUFFIX_LEN && HexDigits(app.digest)
  }

  function Cut(value: string, limit: nat): (r: (string, bool))
    ensures |r.0| <= limit && r.0 <= value
    ensures r.1 <==> r.0 != value
  {
    if |value| <= limit then (value, false) else (value[..limit], true)
  }

  function JoinedKeys(app: App): string
    requires app.projectKey.Some?
  {
    Cut(app.projectKey.value, REPO_SEGMENT_MAX_LEN).0 + "-" + Cut(app.key, REPO_SEGMENT_MAX_LEN).0
  }

  method ImageRepoName(app: App) returns (r: Result<string>)
    requires Digested(app)
    ensures r == RepoName(app)
  {
    if app.projectKey.None? || app.projectKey.value == "" {
      return Failure(Missing);
    }
    var (project, projectCut) := Cut(app.projectKey.value, REPO_SEGMENT_MAX_LEN);
    var (appPart, appCut) := Cut(app.key, REPO_SEGMENT_MAX_LEN);
    var name := NormalizeImagePart(project + "-" + appPart);
    if projectCut || appCut {
      name := name + "-" + app.digest;
    }
    return Success(name);
  }

  function RepoName(app: App): Result<string> {
    if app.projectKey.None? || app.projectKey.value == "" then Failure(Missing)
    else
      var name := Normalized(JoinedKeys(app));
      if |app.projectKey.value| > REPO_SEGMENT_MAX_LEN || |app.key| > REPO_SEGMENT_MAX_LEN
      then Success(name + "-" + app.digest)
      else Success(name)
  }

  function ImageTagPrefixOf(envKey: string): string {
    Normalized(Cut(envKey, ENV_SEGMENT_MAX_LEN).0)
  }

  function ImageTag(app: App, commitHash: string): Result<string> {
    if |commitHash| < COMMIT_HASH_LEN then Failure(ValueInvalid)
    else if app.envKey.None? || app.envKey.value == "" then Failure(Missing)
    else Success(ImageTagPrefixOf(app.envKey.value) + "-" + commitHash[..COMMIT_HASH_LEN])
  }

  lemma {:induction false} JoinWithoutDouble(a: string, b: string)
    requires !HasDouble(a) && !HasDouble(b)
    requires a == "" || b == "" || !Doubles(a[|a| - 1], b[0])
    ensures !HasDouble(a + b)
  {
    if |a| >= 2 {
      assert (a + b)[1..] == a[1..] + b;
      JoinWithoutDouble(a[1..], b);
    } else if |a| == 1 {
      assert (a + b)[1..] == b;
    } else {
      assert a + b == b;
    }
  }

  lemma {:induction false} HexHasNoDouble(s: string)
    requires HexDigits(s)
    ensures !HasDouble(s)
  {
    if |s| >= 2 {
      assert s[0] in s;
      assert forall c :: c in s[1..] ==> c in s;
      HexHasNoDouble(s[1..]);
    }
  }

  lemma HexEnds(d: string)
    requires d != "" && HexDigits(d)
    ensures !Separator(d[0]) && !Separator(d[|d| - 1])
  {
    assert d[0] in d && d[|d| - 1] in d;
  }

  lemma PartsJoin(n: string, d: string)
    requires !HasDouble(n) && (n != "" ==> !Separator(n[|n| - 1]))
    requires !HasDouble(d) && d != "" && !Separator(d[0])
    ensures !HasDouble(n + "-" + d)
  {
    var dashed := n + "-";
    JoinWithoutDouble(n, "-");
    assert dashed[|n|] == '-' != d[0];
    JoinWithoutDouble(dashed, d);
  }

  lemma DigestJoins(n: string, d: string)
    requires !HasDouble(n) && (n != "" ==> !Separator(n[|n| - 1]))
    requires d != "" && HexDigits(d)
    ensures !HasDouble(n + "-" + d) && !Separator((n + "-" + d)[|n| + |d|])
  {
    HexEnds(d);
    HexHasNoDouble(d);
    PartsJoin(n, d);
    LastOfJoin(n, d);
  }

  lemma LastOfJoin(n: string, d: string)
    requires d != ""
    ensures (n + "-" + d)[|n| + |d|] == d[|d| - 1]
  {
  }

  /** A repository name is at most 108 bytes, doubles no separator, ends with none, and
      begins with none when the keys, as cut, hold something other than separators. */
  lemma RepoNameIsWithinLimits(app: App)
    requires Digested(app) && RepoName(app).Success?
    ensures var name := RepoName(app).value;
            && |name| <= 108
            && !HasDouble(name)
            && (name != "" ==> !Separator(name[|name| - 1]))
            && (Letters(JoinedKeys(app)) != "" ==> name != "" && !Separator(name[0]))
  {
    NormalizedIsClean(JoinedKeys(app));
    NormalizedKeepsLetters(JoinedKeys(app));
    assert |JoinedKeys(app)| <= 101;
    DigestJoins(Normalized(JoinedKeys(app)), app.digest);
  }

  /** A commit's tag is at most 28 bytes; a hexadecimal commit's doubles no separator, and
      has none at its ends when the environment key, as cut, holds anything else. */
  lemma ImageTagIsWithinLimits(app: App, commitHash: string)
    requires ImageTag(app, commitHash).Success?
    ensures |ImageTag(app, commitHash).value| <= 28
    ensures HexDigits(commitHash) ==>
              var tag := ImageTag(app, commitHash).value;
              && !HasDouble(tag)
              && !Separator(tag[|tag| - 1])
              && (Letters(Cut(app.envKey.value, ENV_SEGMENT_MAX_LEN).0) != "" ==> !Separator(tag[0]))
  {
    var env := Cut(app.envKey.value, ENV_SEGMENT_MAX_LEN).0;
    NormalizedIsClean(env);
    NormalizedKeepsLetters(env);
    if HexDigits(commitHash) {
      assert forall c :: c in commitHash[..COMMIT_HASH_LEN] ==> c in commitHash;
      DigestJoins(Normalized(env), commitHash[..COMMIT_HASH_LEN]);
    }
  }

  /** A tag is had exactly of a commit of seven characters and a loaded environment; it ends
      with a hyphen and the first seven, and what it says before is the environment's key, as
      cut: all of its letters, and the key itself if that is clean and short. */
  lemma TagSaysEnvAndCommit(app: App, commitHash: string)
    ensures |commitHash| < 7 ==> ImageTag(app, commitHash) == Failure(ValueInvalid)
    ensures |commitHash| >= 7 && app.envKey in {None, Some("")} ==> ImageTag(app, commitHash) == Failure(Missing)
    ensures |commitHash| >= 7 && app.envKey !in {None, Some("")} ==>
              && ImageTag(app, commitHash).Success?
              && var tag, env := ImageTag(app, commitHash).value, app.envKey.value;
              && |tag| >= 8 && tag[|tag| - 8..] == "-" + commitHash[..7]
              && Letters(tag[..|tag| - 8]) == Letters(if |env| <= 20 then env else env[..20])
              && (Slugged(env) && |env| <= 20 ==> tag[..|tag| - 8] == env)
  {
    if |commitHash| >= 7 && app.envKey !in {None, Some("")} {
      PartsOfTag(ImageTagPrefixOf(app.envKey.value), commitHash[..7]);
      PrefixSaysEnv(app.envKey.value);
    }
  }

  lemma PartsOfTag(prefix: string, commit: string)
    ensures var tag := prefix + "-" + commit;
            && tag[|tag| - |commit| - 1..] == "-" + commit
            && tag[..|tag| - |commit| - 1] == prefix
  {
  }

  lemma PrefixSaysEnv(env: string)
    ensures Letters(ImageTagPrefixOf(env)) == Letters(if |env| <= 20 then env else env[..20])
    ensures Slugged(env) && |env| <= 20 ==> ImageTagPrefixOf(env) == env
  {
    NormalizedKeepsLetters(Cut(env, ENV_SEGMENT_MAX_LEN).0);
    if Slugged(env) {
      CleanStays(env);
    }
  }

  /** Two environments' builds share a tag exactly when their keys, as cut, normalize alike and
      the commits begin alike. */
  lemma SharedTagIff(a: App, b: App, x: string, y: string)
    requires ImageTag(a, x).Success? && ImageTag(b, y).Success?
    ensures ImageTag(a, x) == ImageTag(b, y) <==>
              ImageTagPrefixOf(a.envKey.value) == ImageTagPrefixOf(b.envKey.value) && x[..7] == y[..7]
  {
    SuffixesMatch(ImageTagPrefixOf(a.envKey.value), x[..7], ImageTagPrefixOf(b.envKey.value), y[..7]);
  }

  // ---------------------------------------------------------------- Who shares a name

  predicate IsCut(app: App)
    requires app.projectKey.Some?
  {
    |app.projectKey.value| > REPO_SEGMENT_MAX_LEN || |app.key| > REPO_SEGMENT_MAX_LEN
  }

  lemma SuffixesMatch(a: string, b: string, c: string, d: string)
    requires |b| == |d|
    ensures a + "-" + b == c + "-" + d <==> a == c && b == d
  {
    if a + "-" + b == c + "-" + d {
      var s, t := a + "-" + b, c + "-" + d;
      assert |a| == |c|;
      assert a == s[..|a|] && c == t[..|a|];
      assert b == s[|a| + 1..] && d == t[|a| + 1..];
    }
  }

  /** Two apps share a repository name exactly when their keys, as cut, normalize alike - and
      when both were cut, their digests are the same, too; when one was, the other's keys say
      the digest. */
  lemma SharedRepoNameIff(a: App, b: App)
    requires Digested(a) && Digested(b) && RepoName(a).Success? && RepoName(b).Success?
    ensures var m, n := Normalized(JoinedKeys(a)), Normalized(JoinedKeys(b));
            RepoName(a) == RepoName(b) <==>
              if IsCut(a) && IsCut(b) then m == n && a.digest == b.digest
              else if IsCut(a) then n == m + "-" + a.digest
              else if IsCut(b) then m == n + "-" + b.digest
              else m == n
  {
    SuffixesMatch(Normalized(JoinedKeys(a)), a.digest, Normalized(JoinedKeys(b)), b.digest);
  }

  /** A key as it is made: no separator doubled, and none at either end. */
  predicate Slugged(key: string) {
    key != "" && !HasDouble(key) && !Separator(key[0]) && !Separator(key[|key| - 1])
  }

  lemma JoinedSlugHasNoDouble(p: string, k: string)
    requires Slugged(p) && Slugged(k)
    ensures !HasDouble(p + "-" + k)
  {
    var dashed := p + "-";
    JoinWithoutDouble(p, "-");
    assert dashed[|p|] == '-' != k[0];
    JoinWithoutDouble(dashed, k);
  }

  lemma CleanStays(s: string)
    requires Slugged(s)
    ensures Normalized(s) == s
  {
    CollapseWithoutDouble(s);
  }

  lemma JoinedSlugsStay(p: string, k: string)
    requires Slugged(p) && Slugged(k)
    ensures Normalized(p + "-" + k) == p + "-" + k
  {
    JoinedSlugHasNoDouble(p, k);
    var s := p + "-" + k;
    assert s[0] == p[0] && s[|s| - 1] == k[|k| - 1];
    CleanStays(s);
  }

  /** Part of the one's project key is at the front of the other's app key. */
  predicate Shifted(p: string, k: string, q: string, l: string, x: string) {
    p == q + "-" + x && l == x + "-" + k
  }

  lemma LongerIsShifted(p: string, k: string, q: string, l: string)
    requires p + "-" + k == q + "-" + l && |q| < |p|
    ensures Shifted(p, k, q, l, p[|q| + 1..])
  {
    var s, t := p + "-" + k, q + "-" + l;
    assert s[|q|] == t[|q|] == '-';
    assert s[..|p|] == p && t[..|q|] == q;
    assert p[..|q|] == s[..|q|] == q && p[|q|] == s[|q|];
    assert p == p[..|q|] + [p[|q|]] + p[|q| + 1..];
    assert l == t[|q| + 1..];
    assert s[|q| + 1..] == p[|q| + 1..] + "-" + k;
  }

  lemma ShiftedJoinsAlike(p: string, k: string, q: string, l: string, x: string)
    requires Shifted(p, k, q, l, x)
    ensures p + "-" + k == q + "-" + l
  {
    assert q + "-" + x + "-" + k == q + "-" + (x + "-" + k);
  }

  lemma SameLength(p: string, k: string, q: string, l: string)
    requires p + "-" + k == q + "-" + l && |p| == |q|
    ensures p == q && k == l
  {
    assert |k| == |l|;
    SuffixesMatch(p, k, q, l);
  }

  /** Keys join alike exactly when they are the same, or part of the one project key is at the
      front of the other app key. */
  ghost predicate JoinAlike(p: string, k: string, q: string, l: string) {
    (p == q && k == l) || (exists x :: Shifted(p, k, q, l, x)) || (exists x :: Shifted(q, l, p, k, x))
  }

  lemma JoinAlikeIff(p: string, k: string, q: string, l: string)
    ensures p + "-" + k == q + "-" + l <==> JoinAlike(p, k, q, l)
  {
    if p + "-" + k == q + "-" + l {
      if |q| < |p| {
        LongerIsShifted(p, k, q, l);
      } else if |p| < |q| {
        LongerIsShifted(q, l, p, k);
      } else {
        SameLength(p, k, q, l);
      }
    }
    if x :| Shifted(p, k, q, l, x) {
      ShiftedJoinsAlike(p, k, q, l, x);
    }
    if x :| Shifted(q, l, p, k, x) {
      ShiftedJoinsAlike(q, l, p, k, x);
    }
  }

  /** Of slugged keys that are not cut: two apps share a name exactly when they have the same
      keys, or part of the one's project key is at the front of the other's app key. */
  lemma SluggedShareIff(a: App, b: App)
    requires RepoName(a).Success? && RepoName(b).Success? && !IsCut(a) && !IsCut(b)
    requires Slugged(a.projectKey.value) && Slugged(a.key) && Slugged(b.projectKey.value) && Slugged(b.key)
    ensures RepoName(a) == RepoName(b) <==> JoinAlike(a.projectKey.value, a.key, b.projectKey.value, b.key)
  {
    JoinedSlugsStay(a.projectKey.value, a.key);
    JoinedSlugsStay(b.projectKey.value, b.key);
    JoinAlikeIff(a.projectKey.value, a.key, b.projectKey.value, b.key);
  }

  /** A project's key as it is made now has no hyphen: such keys, not cut, name one app. */
  lemma MadeKeysShareIff(a: App, b: App)
    requires RepoName(a).Success? && RepoName(b).Success? && !IsCut(a) && !IsCut(b)
    requires Slugged(a.projectKey.value) && Slugged(a.key) && Slugged(b.projectKey.value) && Slugged(b.key)
    requires '-' !in a.projectKey.value && '-' !in b.projectKey.value
    ensures RepoName(a) == RepoName(b) <==> a.projectKey == b.projectKey && a.key == b.key
  {
    SluggedShareIff(a, b);
    var p, q := a.projectKey.value, b.projectKey.value;
    if x :| Shifted(p, a.key, q, b.key, x) {
      ShiftedHasHyphen(p, a.key, q, b.key, x);
    }
    if x :| Shifted(q, b.key, p, a.key, x) {
      ShiftedHasHyphen(q, b.key, p, a.key, x);
    }
  }

  lemma ShiftedHasHyphen(p: string, k: string, q: string, l: string, x: string)
    requires Shifted(p, k, q, l, x)
    ensures '-' in p
  {
    assert p[|q|] == '-';
  }

  /** An older project key may have one: the app c of the project a-b, and b-c of a. */
  lemma TwoAppsShareAName(env: Option<string>, d: string, e: string)
    ensures RepoName(App(Some("a-b"), env, "c", d)) == RepoName(App(Some("a"), env, "b-c", e))
  {
    assert "a-b" + "-" + "c" == "a" + "-" + "b-c";
  }

  /** The environments of an app share its repository exactly when no key is cut, or their
      digests, which are of their environments too, happen to be the same. */
  lemma EnvironmentsShareIff(a: App, b: App)
    requires Digested(a) && Digested(b) && RepoName(a).Success? && RepoName(b).Success?
    requires a.projectKey == b.projectKey && a.key == b.key
    ensures RepoName(a) == RepoName(b) <==> !IsCut(a) || a.digest == b.digest
  {
    SharedRepoNameIff(a, b);
  }
}
