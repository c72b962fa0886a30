/** Error trees: what HTTP status, message id and gRPC code an error carries, and the
    wrapping that adds to one without losing them. */
module Errors {
  import opened Wrappers

  // ---------------------------------------------------------------- Base errors

  /** The base errors, told apart by identity; an error made since has a later one. */
  const ERR_INTERNAL := 0
  const ERR_BAD_REQUEST := 1
  const ERR_UNAUTHORIZED := 2
  const ERR_FORBIDDEN := 3
  const ERR_NOT_FOUND := 4
  const ERR_CONFLICT := 5
  const ERR_PRECONDITION_FAILED := 6
  const ERR_PRECONDITION_REQUIRED := 7
  const ERR_SERVICE_UNAVAILABLE := 8
  const ERR_NOT_IMPLEMENTED := 9
  const ERR_UPGRADE_REQUIRED := 10

  const ERROR_STATUS: map<nat, int> := map[
    ERR_INTERNAL := 500, ERR_BAD_REQUEST := 400, ERR_UNAUTHORIZED := 401, ERR_FORBIDDEN := 403,
    ERR_NOT_FOUND := 404, ERR_CONFLICT := 409, ERR_PRECONDITION_FAILED := 412,
    ERR_PRECONDITION_REQUIRED := 428, ERR_SERVICE_UNAVAILABLE := 503,
    ERR_NOT_IMPLEMENTED := 501, ERR_UPGRADE_REQUIRED := 426]

  const GRPC_UNKNOWN := 2
  const GRPC_INTERNAL := 13

  const GRPC_STATUS: map<nat, int> := map[
    ERR_INTERNAL := GRPC_UNKNOWN, ERR_BAD_REQUEST := 3, ERR_UNAUTHORIZED := 16, ERR_FORBIDDEN := 7,
    ERR_NOT_FOUND := 5, ERR_CONFLICT := 6, ERR_PRECONDITION_FAILED := 9,
    ERR_PRECONDITION_REQUIRED := 9, ERR_SERVICE_UNAVAILABLE := 14, ERR_NOT_IMPLEMENTED := 12]

  // ---------------------------------------------------------------- What an error says

  /** An error as its readers see it: the tree of what it wraps. */
  datatype Chain =
    | CLeaf(id: nat, text: string)
    | CJoin(errs: seq<Chain>)
    | CContext(text: string, inner: Chain)
    | CStack(inner: Chain)
    | CGrpc(text: string)
    | CHp(inner: Chain)

  function Text(c: Chain): string {
    match c
    case CLeaf(_, text) => text
    case CJoin(errs) => JoinedText(errs)
    case CContext(text, _) => text
    case CStack(inner) => Text(inner)
    case CGrpc(text) => text
    case CHp(inner) => Text(inner)
  }

  function JoinedText(cs: seq<Chain>): string {
    if |cs| == 0 then ""
    else if |cs| == 1 then Text(cs[0])
    else Text(cs[0]) + "\n" + JoinedText(cs[1..])
  }

  predicate IsCodeChar(ch: char) {
    ch == '_' || '0' <= ch <= '9' || 'A' <= ch <= 'Z'
  }

  predicate IsMessageID(s: string) {
    "ERR_" <= s && forall ch :: ch in s ==> IsCodeChar(ch)
  }

  /** The base error whose status an error answers with. */
  function Base(c: Chain): Option<nat> {
    match c
    case CLeaf(id, _) => if id in ERROR_STATUS then Some(id) else None
    case CJoin(errs) => FirstBase(errs)
    case CContext(_, inner) => Base(inner)
    case CStack(inner) => Base(inner)
    case CGrpc(_) => None
    case CHp(inner) => Base(inner)
  }

  function FirstBase(cs: seq<Chain>): Option<nat> {
    if cs == [] then None
    else if Base(cs[0]).Some? then Base(cs[0])
    else FirstBase(cs[1..])
  }

  /** A code is ERR_ and then capitals, digits and underscores alone. */
  lemma CodesGrowByCodeChars(s: string, ch: char)
    ensures IsMessageID("ERR_")
    ensures IsMessageID(s) ==> |s| >= 4 && s[..4] == "ERR_"
    ensures |s| >= 4 ==>
              (IsMessageID(s + [ch]) <==>
               IsMessageID(s) && (48 <= ch as int <= 57 || 65 <= ch as int <= 90 || ch as int == 95))
  {
    var more := s + [ch];
    assert forall x :: x in more <==> x in s || x == ch;
    if |s| >= 4 {
      assert more[..4] == s[..4];
      assert "ERR_" <= s <==> s[..4] == "ERR_";
      assert "ERR_" <= more <==> more[..4] == "ERR_";
      assert ch in more && (IsCodeChar(ch) <==> 48 <= ch as int <= 57 || 65 <= ch as int <= 90 || ch as int == 95);
      assert (forall x :: x in more ==> IsCodeChar(x)) <==> (forall x :: x in s ==> IsCodeChar(x)) && IsCodeChar(ch);
    }
  }

  lemma LastMessageUpTo(cs: seq<Chain>, i: nat)
    requires i < |cs|
    ensures LastMessageID(cs[..i + 1]) == if MessageID(cs[i]) != "" then MessageID(cs[i]) else LastMessageID(cs[..i])
  {
    assert cs[..i + 1][..i] == cs[..i];
  }

  lemma FirstBaseFrom(cs: seq<Chain>, i: nat)
    requires i < |cs|
    ensures FirstBase(cs[i..]) == if Base(cs[i]).Some? then Base(cs[i]) else FirstBase(cs[i + 1..])
  {
    assert cs[i..][1..] == cs[i + 1..];
  }

  function Status(c: Chain): int {
    match Base(c)
    case Some(id) => if id in ERROR_STATUS then ERROR_STATUS[id] else 500
    case None => 500
  }

  /** What HTTP status each base answers with; any other error is the server's fault. */
  lemma StatusesOfBases(c: Chain)
    ensures Status(c) == match Base(c)
                         case None => 500
                         case Some(id) =>
                           if id == ERR_BAD_REQUEST then 400
                           else if id == ERR_UNAUTHORIZED then 401
                           else if id == ERR_FORBIDDEN then 403
                           else if id == ERR_NOT_FOUND then 404
                           else if id == ERR_CONFLICT then 409
                           else if id == ERR_PRECONDITION_FAILED then 412
                           else if id == ERR_UPGRADE_REQUIRED then 426
                           else if id == ERR_PRECONDITION_REQUIRED then 428
                           else if id == ERR_NOT_IMPLEMENTED then 501
                           else if id == ERR_SERVICE_UNAVAILABLE then 503
                           else 500
    ensures c.CLeaf? ==> Base(c) == if c.id <= 10 then Some(c.id) else None
  {
  }

  /** The message id, which is the error's code. */
  function MessageID(c: Chain): string {
    if IsMessageID(Text(c)) then Text(c)
    else
      match c
      case CLeaf(_, _) => ""
      case CJoin(errs) => LastMessageID(errs)
      case CContext(_, inner) => MessageID(inner)
      case CStack(inner) => MessageID(inner)
      case CGrpc(_) => ""
      case CHp(inner) => MessageID(inner)
  }

  function LastMessageID(cs: seq<Chain>): string {
    if cs == [] then ""
    else if MessageID(cs[|cs| - 1]) != "" then MessageID(cs[|cs| - 1])
    else LastMessageID(cs[..|cs| - 1])
  }

  /** The outermost application error in an error, depth first. */
  function FirstHp(c: Chain): Option<Chain> {
    match c
    case CLeaf(_, _) => None
    case CJoin(errs) => FirstHpOf(errs)
    case CContext(_, inner) => FirstHp(inner)
    case CStack(inner) => FirstHp(inner)
    case CGrpc(_) => None
    case CHp(_) => Some(c)
  }

  function FirstHpOf(cs: seq<Chain>): Option<Chain> {
    if cs == [] then None
    else if FirstHp(cs[0]).Some? then FirstHp(cs[0])
    else FirstHpOf(cs[1..])
  }

  predicate HoldsGrpc(c: Chain) {
    match c
    case CLeaf(_, _) => false
    case CJoin(errs) => exists i :: 0 <= i < |errs| && HoldsGrpc(errs[i])
    case CContext(_, inner) => HoldsGrpc(inner)
    case CStack(inner) => HoldsGrpc(inner)
    case CGrpc(_) => true
    case CHp(inner) => HoldsGrpc(inner)
  }

  // ---------------------------------------------------------------- Building errors

  function NewErr(base: Chain, id: nat, code: string): Chain {
    CJoin([base, CLeaf(id, code)])
  }

  /** What wrapping makes of an error. */
  function Wrapped(c: Chain): Chain {
    if c.CHp? then c
    else if FirstHp(c).Some? || c.CStack? then CHp(c)
    else CHp(CStack(c))
  }

  /** Wrapping keeps the status and the code of any error. */
  lemma WrappedKeepsBaseAndCode(c: Chain)
    ensures Base(Wrapped(c)) == Base(c) && Status(Wrapped(c)) == Status(c)
    ensures MessageID(Wrapped(c)) == MessageID(c)
    ensures Wrapped(Wrapped(c)) == Wrapped(c)
  {
    assert Text(CStack(c)) == Text(c) && MessageID(CStack(c)) == MessageID(c);
    assert Text(CHp(c)) == Text(c) && MessageID(CHp(c)) == MessageID(c);
    assert Base(CStack(c)) == Base(c);
  }

  datatype Op =
    | Coded(id: nat, code: string)
    | InContext(text: string)
    | Wrap

  function Apply(op: Op, c: Chain): Chain {
    match op
    case Coded(id, code) => NewErr(c, id, code)
    case InContext(text) => CContext(text, c)
    case Wrap => Wrapped(c)
  }

  function ApplyAll(ops: seq<Op>, root: Chain): Chain {
    if ops == [] then root else Apply(ops[|ops| - 1], ApplyAll(ops[..|ops| - 1], root))
  }

  /** The last code given, or the root's. */
  function LastCode(ops: seq<Op>, root: Chain): string {
    if ops == [] then MessageID(root)
    else
      match ops[|ops| - 1]
      case Coded(_, code) => if IsMessageID(code) then code else LastCode(ops[..|ops| - 1], root)
      case InContext(text) => if IsMessageID(text) then text else LastCode(ops[..|ops| - 1], root)
      case Wrap => LastCode(ops[..|ops| - 1], root)
  }

  lemma NewErrKeepsBaseAndNames(base: Chain, id: nat, code: string)
    requires id !in ERROR_STATUS
    ensures Base(NewErr(base, id, code)) == Base(base)
    ensures MessageID(NewErr(base, id, code)) == if IsMessageID(code) then code else MessageID(base)
  {
    var leaf := CLeaf(id, code);
    var pair := [base, leaf];
    assert JoinedText(pair) == Text(base) + "\n" + code by {
      assert pair[1..] == [leaf];
      assert JoinedText([leaf]) == Text(leaf);
    }
    assert MessageID(leaf) == if IsMessageID(code) then code else "";
    assert '\n' in JoinedText(pair) by {
      assert JoinedText(pair)[|Text(base)|] == '\n';
    }
    assert !IsCodeChar('\n');
    assert pair[1..] == [leaf] && [leaf][1..] == [];
    assert pair[..1] == [base] && [base][..0] == [];
    assert FirstBase([leaf]) == None;
    assert LastMessageID([base]) == MessageID(base);
  }

  /** However often an error is coded, put in context and wrapped, it keeps the status of
      the base it began with and answers with the code it was given last. */
  lemma {:induction false} BuiltErrorsKeepStatusAndCode(ops: seq<Op>, root: Chain)
    requires forall op :: op in ops && op.Coded? ==> op.id !in ERROR_STATUS
    ensures Status(ApplyAll(ops, root)) == Status(root) && Base(ApplyAll(ops, root)) == Base(root)
    ensures MessageID(ApplyAll(ops, root)) == LastCode(ops, root)
  {
    if ops != [] {
      var before := ops[..|ops| - 1];
      assert forall op :: op in before ==> op in ops;
      BuiltErrorsKeepStatusAndCode(before, root);
      var c := ApplyAll(before, root);
      match ops[|ops| - 1]
      case Coded(id, code) =>
        assert ops[|ops| - 1] in ops;
        NewErrKeepsBaseAndNames(c, id, code);
      case InContext(_) =>
      case Wrap => WrappedKeepsBaseAndCode(c);
    }
  }

  // ---------------------------------------------------------------- gRPC

  datatype GrpcAnswer = AsIs | StatusCode(code: int)

  function ToGRPCError(c: Chain): GrpcAnswer {
    if HoldsGrpc(c) then AsIs
    else
      match FirstHp(c)
      case None => StatusCode(GRPC_INTERNAL)
      case Some(hp) =>
        match Base(hp)
        case Some(id) => StatusCode(if id in GRPC_STATUS then GRPC_STATUS[id] else GRPC_UNKNOWN)
        case None => StatusCode(GRPC_UNKNOWN)
  }

  /** No error that is not gRPC's own ends a call as if it had succeeded. */
  lemma NeverOK(c: Chain)
    ensures !HoldsGrpc(c) <==> ToGRPCError(c).StatusCode?
    ensures ToGRPCError(c) != StatusCode(0)
  {
  }

  /** What code a wrapped error ends a call with. */
  lemma CodesOfBases(c: Chain)
    requires !HoldsGrpc(c)
    ensures ToGRPCError(Wrapped(c)) ==
              StatusCode(match Base(c)
                         case None => 2
                         case Some(id) =>
                           if id == ERR_BAD_REQUEST then 3
                           else if id == ERR_NOT_FOUND then 5
                           else if id == ERR_CONFLICT then 6
                           else if id == ERR_FORBIDDEN then 7
                           else if id == ERR_PRECONDITION_FAILED || id == ERR_PRECONDITION_REQUIRED then 9
                           else if id == ERR_NOT_IMPLEMENTED then 12
                           else if id == ERR_SERVICE_UNAVAILABLE then 14
                           else if id == ERR_UNAUTHORIZED then 16
                           else 2)
    ensures FirstHp(c).None? ==> ToGRPCError(c) == StatusCode(13)
  {
    WrappedKeepsBaseAndCode(c);
    assert HoldsGrpc(CStack(c)) == HoldsGrpc(c);
    assert FirstHp(Wrapped(c)) == Some(Wrapped(c));
    assert !HoldsGrpc(Wrapped(c));
  }

  /** An error is gRPC's own, and passes as it is, when it is or wraps one made by gRPC. */
  lemma PassesAsIs(text: string, id: nat, inner: Chain, errs: seq<Chain>)
    ensures ToGRPCError(CGrpc(text)) == AsIs && ToGRPCError(CLeaf(id, text)) != AsIs
    ensures forall c :: c in {CContext(text, inner), CStack(inner), CHp(inner), Wrapped(inner)} ==>
              (ToGRPCError(c) == AsIs <==> ToGRPCError(inner) == AsIs)
    ensures ToGRPCError(CJoin(errs)) == AsIs <==> exists e :: e in errs && ToGRPCError(e) == AsIs
  {
    NeverOK(inner);
    NeverOK(CJoin(errs));
    assert HoldsGrpc(CHp(CStack(inner))) <==> HoldsGrpc(CStack(inner));
    forall c | c in {CContext(text, inner), CStack(inner), CHp(inner), Wrapped(inner)}
      ensures HoldsGrpc(c) <==> HoldsGrpc(inner)
      ensures ToGRPCError(c) == AsIs <==> HoldsGrpc(c)
    {
      NeverOK(c);
    }
    forall e | e in errs
      ensures ToGRPCError(e) == AsIs ==> HoldsGrpc(CJoin(errs))
    {
      NeverOK(e);
      var i :| 0 <= i < |errs| && errs[i] == e;
    }
    if i :| 0 <= i < |errs| && HoldsGrpc(errs[i]) {
      NeverOK(errs[i]);
      assert errs[i] in errs;
    }
  }

  // ---------------------------------------------------------------- Errors on the heap

  datatype Error =
    | Leaf(id: nat, text: string)
    | Join(errs: seq<Error>)
    | Context(text: string, inner: Error)
    | Stack(inner: Error)
    | Grpc(text: string)
    | Hp(hp: HpError)

  class Params {
    var m: map<string, string>

    constructor (m: map<string, string>)
      ensures this.m == m
    {
      this.m := m;
    }
  }

  datatype DisplayLevel = Unset | High | Medium | Low

  class HpError {
    var err: Error
    var cause: Option<Error>
    var params: Params
    var tParams: Params
    var exposedParams: seq<string>
    var extraDetail: string
    var msgLog: string
    var displayLevel: DisplayLevel
    var fallbackToErrorMsg: bool

    /** One made for an error that holds none. */
    constructor (err: Error, params: Params, tParams: Params)
      ensures this.err == err && cause == None && this.params == params && this.tParams == tParams
      ensures exposedParams == [] && extraDetail == "" && msgLog == "" && displayLevel == Unset && fallbackToErrorMsg
    {
      this.err, this.cause, this.params, this.tParams := err, None, params, tParams;
      exposedParams, extraDetail, msgLog, displayLevel, fallbackToErrorMsg := [], "", "", Unset, true;
    }

    /** A copy of another, over an error that holds it. */
    constructor Copy(e: HpError, err: Error, params: Params, tParams: Params)
      ensures this.err == err && this.params == params && this.tParams == tParams && SaysTheSame(e)
    {
      this.err, this.cause, this.params, this.tParams := err, e.cause, params, tParams;
      exposedParams, extraDetail, msgLog := e.exposedParams, e.extraDetail, e.msgLog;
      displayLevel, fallbackToErrorMsg := e.displayLevel, e.fallbackToErrorMsg;
    }

    /** What of two is the same when one is a copy of the other, their parameters apart. */
    predicate SaysTheSame(e: HpError)
      reads this, e
    {
      && cause == e.cause && exposedParams == e.exposedParams && extraDetail == e.extraDetail && msgLog == e.msgLog
      && displayLevel == e.displayLevel && fallbackToErrorMsg == e.fallbackToErrorMsg
    }

    method WithCause(cause: Error)
      modifies this`cause
      ensures this.cause == Some(cause)
    {
      this.cause := Some(cause);
    }

    method WithParam(k: string, v: string)
      modifies params
      ensures params.m == old(params.m)[k := v]
    {
      params.m := params.m[k := v];
    }

    method WithParams(m: map<string, string>)
      modifies params
      ensures params.m == old(params.m) + m
    {
      params.m := params.m + m;
    }

    method WithTransParam(k: string, v: string)
      modifies tParams
      ensures tParams.m == old(tParams.m)[k := v]
    {
      tParams.m := tParams.m[k := v];
    }

    method ExposeParams(keys: seq<string>)
      modifies this`exposedParams
      ensures exposedParams == old(exposedParams) + keys
    {
      exposedParams := exposedParams + keys;
    }

    method WithExtraDetail(text: string)
      modifies this`extraDetail
      ensures extraDetail == if old(extraDetail) == "" then text else old(extraDetail) + "\n" + text
    {
      extraDetail := if extraDetail == "" then text else extraDetail + "\n" + text;
    }

    method WithMsgLog(text: string)
      modifies this`msgLog
      ensures msgLog == if old(msgLog) == "" then text else old(msgLog) + "\n" + text
    {
      msgLog := if msgLog == "" then text else msgLog + "\n" + text;
    }
  }

  /** err is a finite tree: it reaches application errors in S alone, and none of them
      through itself. */
  ghost predicate Within(err: Error, S: set<HpError>)
    reads S`err
    decreases |S|, err
  {
    match err
    case Leaf(_, _) => true
    case Join(errs) => forall e :: e in errs ==> Within(e, S)
    case Context(_, inner) => Within(inner, S)
    case Stack(inner) => Within(inner, S)
    case Grpc(_) => true
    case Hp(e) => e in S && Within(e.err, S - {e})
  }

  /** What a finite tree reads as. */
  ghost function Reading(err: Error, S: set<HpError>): Chain
    requires Within(err, S)
    reads S`err
    decreases |S|, err, 0
  {
    match err
    case Leaf(id, text) => CLeaf(id, text)
    case Join(errs) => CJoin(Readings(errs, S))
    case Context(text, inner) => CContext(text, Reading(inner, S))
    case Stack(inner) => CStack(Reading(inner, S))
    case Grpc(text) => CGrpc(text)
    case Hp(e) => CHp(Reading(e.err, S - {e}))
  }

  ghost function Readings(errs: seq<Error>, S: set<HpError>): (cs: seq<Chain>)
    requires forall e :: e in errs ==> Within(e, S)
    ensures |cs| == |errs|
    ensures forall i :: 0 <= i < |errs| ==> cs[i] == Reading(errs[i], S)
    reads S`err
    decreases |S|, errs, 1
  {
    if errs == [] then [] else [Reading(errs[0], S)] + Readings(errs[1..], S)
  }

  /** Whether a tree holds an application error, not looking into any. */
  predicate Holds(err: Error, hp: HpError) {
    match err
    case Leaf(_, _) => false
    case Join(errs) => exists i :: 0 <= i < |errs| && Holds(errs[i], hp)
    case Context(_, inner) => Holds(inner, hp)
    case Stack(inner) => Holds(inner, hp)
    case Grpc(_) => false
    case Hp(e) => e == hp
  }

  lemma {:induction false} HeldAreWithin(err: Error, hp: HpError, S: set<HpError>)
    requires Within(err, S) && Holds(err, hp)
    ensures hp in S
  {
    match err
    case Join(errs) =>
      var i :| 0 <= i < |errs| && Holds(errs[i], hp);
      HeldAreWithin(errs[i], hp, S);
    case Context(_, inner) => HeldAreWithin(inner, hp, S);
    case Stack(inner) => HeldAreWithin(inner, hp, S);
    case _ =>
  }

  /** Why wrapping copies: an application error given an outer error that holds it is no
      finite tree, and no walk over it would end. */
  lemma HoldingItselfIsNoTree(hp: HpError, S: set<HpError>)
    requires Holds(hp.err, hp)
    ensures !Within(Hp(hp), S)
  {
    if Within(Hp(hp), S) {
      HeldAreWithin(hp.err, hp, S - {hp});
    }
  }

  // ---------------------------------------------------------------- The walks

  method GetBaseError(err: Error, ghost S: set<HpError>) returns (base: Option<nat>)
    requires Within(err, S)
    ensures base == Base(Reading(err, S))
    decreases |S|, err
  {
    match err
    case Leaf(id, _) => return if id in ERROR_STATUS then Some(id) else None;
    case Context(_, inner) => base := GetBaseError(inner, S);
    case Stack(inner) => base := GetBaseError(inner, S);
    case Grpc(_) => return None;
    case Hp(e) => base := GetBaseError(e.err, S - {e});
    case Join(errs) => base := GetFirstBaseError(errs, S);
  }

  method GetFirstBaseError(errs: seq<Error>, ghost S: set<HpError>) returns (base: Option<nat>)
    requires forall e :: e in errs ==> Within(e, S)
    ensures base == FirstBase(Readings(errs, S))
    decreases |S|, errs
  {
    ghost var cs := Readings(errs, S);
    var i := 0;
    assert cs[0..] == cs;
    while i < |errs|
      invariant 0 <= i <= |errs| && FirstBase(cs) == FirstBase(cs[i..])
    {
      base := GetBaseError(errs[i], S);
      assert Reading(errs[i], S) == cs[i];
      FirstBaseFrom(cs, i);
      if base.Some? {
        return base;
      }
      i := i + 1;
    }
    return None;
  }

  /** The text of an error. */
  function ErrorText(err: Error, ghost S: set<HpError>): (text: string)
    requires Within(err, S)
    reads S`err
    ensures text == Text(Reading(err, S))
    decreases |S|, err, 0
  {
    match err
    case Leaf(_, text) => text
    case Join(errs) => JoinErrorText(errs, S)
    case Context(text, _) => text
    case Stack(inner) => ErrorText(inner, S)
    case Grpc(text) => text
    case Hp(e) => ErrorText(e.err, S - {e})
  }

  function JoinErrorText(errs: seq<Error>, ghost S: set<HpError>): (text: string)
    requires forall e :: e in errs ==> Within(e, S)
    reads S`err
    ensures text == JoinedText(Readings(errs, S))
    decreases |S|, errs, 1
  {
    if |errs| == 0 then ""
    else if |errs| == 1 then ErrorText(errs[0], S)
    else
      assert Readings(errs, S)[1..] == Readings(errs[1..], S);
      ErrorText(errs[0], S) + "\n" + JoinErrorText(errs[1..], S)
  }

  method GetMessageID(err: Error, ghost S: set<HpError>) returns (id: string)
    requires Within(err, S)
    ensures id == MessageID(Reading(err, S))
    decreases |S|, err
  {
    var text := ErrorText(err, S);
    if IsMessageID(text) {
      return text;
    }
    match err
    case Leaf(_, _) => return "";
    case Context(_, inner) => id := GetMessageID(inner, S);
    case Stack(inner) => id := GetMessageID(inner, S);
    case Grpc(_) => return "";
    case Hp(e) => id := GetMessageID(e.err, S - {e});
    case Join(errs) => id := GetLastMessageID(errs, S);
  }

  method GetLastMessageID(errs: seq<Error>, ghost S: set<HpError>) returns (id: string)
    requires forall e :: e in errs ==> Within(e, S)
    ensures id == LastMessageID(Readings(errs, S))
    decreases |S|, errs
  {
    ghost var cs := Readings(errs, S);
    var i := |errs|;
    assert cs[..i] == cs;
    while i > 0
      invariant 0 <= i <= |errs| && LastMessageID(cs) == LastMessageID(cs[..i])
    {
      i := i - 1;
      id := GetMessageID(errs[i], S);
      assert Reading(errs[i], S) == cs[i];
      LastMessageUpTo(cs, i);
      if id != "" {
        return id;
      }
    }
    return "";
  }

  /** The outermost application error, depth first. */
  function AsHpError(err: Error): Option<HpError> {
    match err
    case Leaf(_, _) => None
    case Join(errs) => AsHpErrorOf(errs)
    case Context(_, inner) => AsHpError(inner)
    case Stack(inner) => AsHpError(inner)
    case Grpc(_) => None
    case Hp(e) => Some(e)
  }

  function AsHpErrorOf(errs: seq<Error>): Option<HpError> {
    if errs == [] then None
    else if AsHpError(errs[0]).Some? then AsHpError(errs[0])
    else AsHpErrorOf(errs[1..])
  }

  /** What is found is held, so that an application error found in one, and given that one as
      its outer error, is no finite tree any more. */
  lemma {:induction false} FoundIsHeld(err: Error)
    ensures AsHpError(err).Some? ==> Holds(err, AsHpError(err).value)
  {
    match err
    case Join(errs) => FoundIsHeldIn(errs);
    case Context(_, inner) => FoundIsHeld(inner);
    case Stack(inner) => FoundIsHeld(inner);
    case _ =>
  }

  lemma {:induction false} FoundIsHeldIn(errs: seq<Error>)
    ensures AsHpErrorOf(errs).Some? ==> exists i :: 0 <= i < |errs| && Holds(errs[i], AsHpErrorOf(errs).value)
  {
    if errs != [] {
      FoundIsHeld(errs[0]);
      FoundIsHeldIn(errs[1..]);
      if i :| 0 <= i < |errs[1..]| && AsHpErrorOf(errs[1..]).Some?
              && Holds(errs[1..][i], AsHpErrorOf(errs[1..]).value) {
        assert errs[i + 1] == errs[1..][i];
      }
    }
  }

  lemma {:induction false} AsHpErrorReads(err: Error, S: set<HpError>)
    requires Within(err, S)
    ensures AsHpError(err).Some? <==> FirstHp(Reading(err, S)).Some?
    ensures AsHpError(err).Some? ==> AsHpError(err).value in S
    decreases err
  {
    match err
    case Leaf(_, _) =>
    case Join(errs) =>
      AsHpErrorOfReads(errs, S);
    case Context(_, inner) => AsHpErrorReads(inner, S);
    case Stack(inner) => AsHpErrorReads(inner, S);
    case Grpc(_) =>
    case Hp(_) =>
  }

  lemma {:induction false} AsHpErrorOfReads(errs: seq<Error>, S: set<HpError>)
    requires forall e :: e in errs ==> Within(e, S)
    ensures AsHpErrorOf(errs).Some? <==> FirstHpOf(Readings(errs, S)).Some?
    ensures AsHpErrorOf(errs).Some? ==> AsHpErrorOf(errs).value in S
    decreases errs
  {
    if errs != [] {
      AsHpErrorReads(errs[0], S);
      AsHpErrorOfReads(errs[1..], S);
      assert Readings(errs, S)[1..] == Readings(errs[1..], S);
    }
  }

  /** Wraps an error. What comes back is the error itself when it is an application error
      already, and otherwise a new one: over the whole of err, with what the application
      error inside it held copied. No object there was is changed. */
  method WrapError(err: Error, ghost S: set<HpError>) returns (w: HpError)
    requires Within(err, S)
    ensures Within(Hp(w), S + {w})
    ensures Reading(Hp(w), S + {w}) == Wrapped(old(Reading(err, S)))
    ensures err.Hp? ==> w == err.hp
    ensures !err.Hp? ==> fresh(w) && fresh(w.params) && fresh(w.tParams) && w.params != w.tParams
    ensures !err.Hp? && AsHpError(err).Some? ==>
              var e := AsHpError(err).value;
              && w.err == err && w.SaysTheSame(e)
              && w.params.m == e.params.m && w.tParams.m == e.tParams.m
    ensures AsHpError(err).None? ==>
              && w.params.m == map[] && w.tParams.m == map[] && w.cause == None && w.exposedParams == []
              && w.extraDetail == "" && w.msgLog == "" && w.displayLevel == Unset && w.fallbackToErrorMsg
  {
    AsHpErrorReads(err, S);
    var found := AsHpError(err);
    if found.None? {
      var params := new Params(map[]);
      var tParams := new Params(map[]);
      var inner := if err.Stack? then err else Stack(err);
      w := new HpError(inner, params, tParams);
      assert (S + {w}) - {w} == S;
      return;
    }
    var e := found.value;
    if err == Hp(e) {
      assert S + {e} == S;
      return e;
    }
    var params := new Params(e.params.m);
    var tParams := new Params(e.tParams.m);
    w := new HpError.Copy(e, err, params, tParams);
    assert (S + {w}) - {w} == S;
  }

  /** Wrapping and then setting a parameter: what an error was given before stays its own,
      unless it was the application error itself. */
  method WrapWithParam(err: Error, k: string, v: string, ghost S: set<HpError>) returns (w: HpError)
    requires Within(err, S)
    modifies if err.Hp? then {err.hp.params} else {}
    ensures Within(Hp(w), S + {w})
    ensures Reading(Hp(w), S + {w}) == Wrapped(old(Reading(err, S)))
    ensures k in w.params.m && w.params.m[k] == v
    ensures !err.Hp? ==> forall hp :: hp in S ==> hp.params.m == old(hp.params.m)
    ensures !err.Hp? && AsHpError(err).Some? ==> w.params.m == old(AsHpError(err).value.params.m)[k := v]
  {
    AsHpErrorReads(err, S);
    w := WrapError(err, S);
    w.WithParam(k, v);
  }
}
