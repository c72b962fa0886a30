/** Stored JSON text and the parsed value kept beside it: a task's arguments and output, a
    setting's data, and the snapshot a setting is put back from. */
module StoredData {
  import opened Wrappers
  import opened Json
  import opened NulStripping

  /** A Go type that is stored. */
  type Kind(==) = nat

  /** A typed value: its type, and the JSON it marshals as. */
  datatype Typed = Typed(kind: Kind, doc: Value)

  /** How the types read JSON: what a document is as a value of a type, if it can be read
      as one; the value before anything is read into it; and what a failed reading leaves. */
  datatype Types = Types(
    read: (Kind, Value) -> Option<Value>,
    zero: Kind -> Value,
    partial: (Kind, string) -> Value)

  /** A typed value marshals as something it reads back from unchanged. */
  ghost predicate Round(types: Types, v: Typed) {
    WellFormed(v.doc) && types.read(v.kind, v.doc) == Some(v.doc)
  }

  ghost predicate Lawful(types: Types) {
    forall k, d :: types.read(k, d).Some? ==> Round(types, Typed(k, types.read(k, d).value))
  }

  function Unmarshal(types: Types, kind: Kind, text: string): Option<Value> {
    match Decode(text)
    case None => None
    case Some(d) => types.read(kind, d)
  }

  lemma UnmarshalUndoesMarshal(types: Types, v: Typed)
    requires Round(types, v)
    ensures Unmarshal(types, v.kind, Encode(v.doc)) == Some(v.doc)
  {
    RoundTrip(v.doc);
  }

  // ---------------------------------------------------------------- Tasks

  datatype Answer = Read(doc: Value) | Nothing | Mismatch | Malformed

  /** Text with the parsed value kept beside it. */
  datatype Column = Column(text: string, parsed: Option<Typed>)

  /** What is kept is what the text says. */
  ghost predicate Agrees(types: Types, c: Column) {
    c.parsed.Some? ==> c.text != "" && Unmarshal(types, c.parsed.value.kind, c.text) == Some(c.parsed.value.doc)
  }

  /** What the text says, read as a type. */
  function Says(types: Types, kind: Kind, text: string): Answer {
    if text == "" then Nothing
    else
      match Unmarshal(types, kind, text)
      case Some(d) => Read(d)
      case None => Malformed
  }

  /** Documents read one by one as values of a type. */
  function ReadAll(types: Types, kind: Kind, docs: seq<Value>): Option<seq<Value>> {
    if docs == [] then Some([])
    else
      match (ReadAll(types, kind, docs[..|docs| - 1]), types.read(kind, docs[|docs| - 1]))
      case (Some(before), Some(d)) => Some(before + [d])
      case _ => None
  }

  lemma {:induction false} ReadAllAgain(types: Types, kind: Kind, docs: seq<Value>)
    requires Lawful(types) && ReadAll(types, kind, docs).Some?
    ensures var read := ReadAll(types, kind, docs).value;
            ReadAll(types, kind, read) == Some(read) && forall d :: d in read ==> WellFormed(d)
  {
    if docs != [] {
      ReadAllAgain(types, kind, docs[..|docs| - 1]);
      var read := ReadAll(types, kind, docs).value;
      assert read[..|read| - 1] == ReadAll(types, kind, docs[..|docs| - 1]).value;
    }
  }

  /** The runs recorded in a task's text, if it can be read. */
  function RunsIn(types: Types, kind: Kind, text: string): Option<seq<Value>> {
    if text == "" then Some([])
    else
      match Decode(text)
      case Some(Arr(docs)) => ReadAll(types, kind, docs)
      case Some(Null) => Some([])
      case _ => None
  }

  /** A text that is empty or null holds no runs yet; one of another kind than a list cannot be
      read. */
  lemma NoRunsYet(types: Types, kind: Kind, text: string)
    ensures RunsIn(types, kind, "") == Some([])
    ensures text != "" && Decode(text) == Some(Null) ==> RunsIn(types, kind, text) == Some([])
    ensures text != "" && (Decode(text) == None || !(Decode(text).value.Arr? || Decode(text).value.Null?)) ==>
              RunsIn(types, kind, text) == None
  {
  }

  /** Runs written are the runs read back. */
  lemma WrittenRunsReadBack(types: Types, kind: Kind, text: string, run: Value)
    requires Lawful(types) && Round(types, Typed(kind, run)) && RunsIn(types, kind, text).Some?
    ensures var runs := RunsIn(types, kind, text).value + [run];
            && WellFormed(Arr(runs))
            && RunsIn(types, kind, Encode(Arr(runs))) == Some(runs)
  {
    var before := RunsIn(types, kind, text).value;
    var runs := before + [run];
    assert ReadAll(types, kind, before) == Some(before) && forall d :: d in before ==> WellFormed(d) by {
      if text != "" && Decode(text).value.Arr? {
        ReadAllAgain(types, kind, Decode(text).value.elems);
      }
    }
    forall i | 0 <= i < |runs|
      ensures WellFormed(runs[i])
    {
      assert i < |before| ==> runs[i] in before;
    }
    assert runs[..|runs| - 1] == before;
    RoundTrip(Arr(runs));
    assert Encode(Arr(runs))[0] == '[';
  }

  class Task {
    var args: string
    var parsedArgs: Option<Typed>
    var output: string
    var parsedOutput: Option<Typed>
    var runs: string

    constructor (args: string, output: string, runs: string)
      ensures Args() == Column(args, None) && Output() == Column(output, None) && this.runs == runs
    {
      this.args, this.parsedArgs, this.output, this.parsedOutput, this.runs := args, None, output, None, runs;
    }

    /** Records a run after those recorded. Text that cannot be read is left as it is. The
        runs are written as they are, a NUL in one too: their column is of text that is not
        looked into, unlike those of arguments and output. */
    method AddRun(types: Types, run: Typed) returns (ok: bool)
      requires Lawful(types) && Round(types, run)
      modifies this`runs
      ensures ok <==> RunsIn(types, run.kind, old(runs)).Some?
      ensures ok ==> RunsIn(types, run.kind, runs) == Some(RunsIn(types, run.kind, old(runs)).value + [run.doc])
      ensures ok && HasNul(run.doc) ==> Contains(runs, NUL_ESCAPE)
      ensures !ok ==> runs == old(runs)
    {
      var before := RunsIn(types, run.kind, runs);
      if before.None? {
        return false;
      }
      WrittenRunsReadBack(types, run.kind, runs, run.doc);
      var after := before.value + [run.doc];
      if HasNul(run.doc) {
        assert after[|before.value|] == run.doc;
        TextShowsNul(Arr(after));
      }
      runs := Encode(Arr(after));
      return true;
    }

    function Args(): Column
      reads this`args, this`parsedArgs
    {
      Column(args, parsedArgs)
    }

    function Output(): Column
      reads this`output, this`parsedOutput
    {
      Column(output, parsedOutput)
    }

    method SetArgs(types: Types, v: Typed)
      requires Round(types, v)
      modifies this`args, this`parsedArgs
      ensures Agrees(types, Args())
      ensures args == Stored(v.doc).0 && Decode(args) == Some(Strip(v.doc))
      ensures parsedArgs == if HasNul(v.doc) then None else Some(v)
    {
      var b, clean := MarshalJSONB(v.doc);
      args := b;
      parsedArgs := None;
      if clean {
        parsedArgs := Some(v);
      }
      StoredDecodes(v.doc);
    }

    /** Whatever was set, read or failed to read before: what the text says, unless it is
        kept as a value of another type. */
    method ArgsAs(types: Types, kind: Kind) returns (r: Answer)
      requires Agrees(types, Args())
      modifies this`parsedArgs
      ensures Agrees(types, Args())
      ensures old(parsedArgs).Some? && old(parsedArgs).value.kind != kind ==>
                r == Mismatch && parsedArgs == old(parsedArgs)
      ensures old(parsedArgs).None? || old(parsedArgs).value.kind == kind ==>
                && r == Says(types, kind, args)
                && parsedArgs == if r.Read? then Some(Typed(kind, r.doc)) else None
    {
      if parsedArgs.Some? {
        return if parsedArgs.value.kind == kind then Read(parsedArgs.value.doc) else Mismatch;
      }
      if args == "" {
        return Nothing;
      }
      match Unmarshal(types, kind, args)
      case None => return Malformed;
      case Some(d) =>
        parsedArgs := Some(Typed(kind, d));
        return Read(d);
    }

    method SetOutput(types: Types, v: Typed)
      requires Round(types, v)
      modifies this`output, this`parsedOutput
      ensures Agrees(types, Output())
      ensures output == Stored(v.doc).0 && Decode(output) == Some(Strip(v.doc))
      ensures parsedOutput == if HasNul(v.doc) then None else Some(v)
    {
      var b, clean := MarshalJSONB(v.doc);
      output := b;
      parsedOutput := None;
      if clean {
        parsedOutput := Some(v);
      }
      StoredDecodes(v.doc);
    }

    method OutputAs(types: Types, kind: Kind) returns (r: Answer)
      requires Agrees(types, Output())
      modifies this`parsedOutput
      ensures Agrees(types, Output())
      ensures old(parsedOutput).Some? && old(parsedOutput).value.kind != kind ==>
                r == Mismatch && parsedOutput == old(parsedOutput)
      ensures old(parsedOutput).None? || old(parsedOutput).value.kind == kind ==>
                && r == Says(types, kind, output)
                && parsedOutput == if r.Read? then Some(Typed(kind, r.doc)) else None
    {
      if parsedOutput.Some? {
        return if parsedOutput.value.kind == kind then Read(parsedOutput.value.doc) else Mismatch;
      }
      if output == "" {
        return Nothing;
      }
      match Unmarshal(types, kind, output)
      case None => return Malformed;
      case Some(d) =>
        parsedOutput := Some(Typed(kind, d));
        return Read(d);
    }
  }

  // ---------------------------------------------------------------- Runs of sets and reads

  datatype Event = Set(v: Typed) | As(kind: Kind)

  function StepColumn(types: Types, c: Column, e: Event): (Column, Answer) {
    match e
    case Set(v) => (Column(Stored(v.doc).0, if HasNul(v.doc) then None else Some(v)), Nothing)
    case As(kind) =>
      if c.parsed.Some? then
        (c, if c.parsed.value.kind == kind then Read(c.parsed.value.doc) else Mismatch)
      else
        var r := Says(types, kind, c.text);
        (c.(parsed := if r.Read? then Some(Typed(kind, r.doc)) else None), r)
  }

  function Answers(types: Types, c: Column, events: seq<Event>): seq<Answer>
    decreases |events|
  {
    if events == [] then []
    else
      var (c', r) := StepColumn(types, c, events[0]);
      [r] + Answers(types, c', events[1..])
  }

  /** The same run with nothing kept: each read decodes the text. */
  function Uncached(types: Types, text: string, events: seq<Event>): seq<Answer>
    decreases |events|
  {
    if events == [] then []
    else
      match events[0]
      case Set(v) => [Nothing] + Uncached(types, Stored(v.doc).0, events[1..])
      case As(kind) => [Says(types, kind, text)] + Uncached(types, text, events[1..])
  }

  /** The column as an event of a run finds it. */
  function Before(types: Types, c: Column, events: seq<Event>, i: nat): Column
    requires i <= |events|
    decreases i
  {
    if i == 0 then c else Before(types, StepColumn(types, c, events[0]).0, events[1..], i - 1)
  }

  /** Another type is asked for than the one kept. */
  predicate AsksOtherType(c: Column, e: Event) {
    e.As? && c.parsed.Some? && c.parsed.value.kind != e.kind
  }

  /** The text after an event. */
  function TextAfter(text: string, e: Event): string {
    if e.Set? then Stored(e.v.doc).0 else text
  }

  /** What an event answers with nothing kept. */
  function SaysTo(types: Types, text: string, e: Event): Answer {
    if e.Set? then Nothing else Says(types, e.kind, text)
  }

  ghost predicate SetsRound(types: Types, e: Event) {
    e.Set? ==> Round(types, e.v)
  }

  lemma StepSaysTheText(types: Types, c: Column, e: Event)
    requires Agrees(types, c) && SetsRound(types, e)
    ensures Agrees(types, StepColumn(types, c, e).0)
    ensures StepColumn(types, c, e).0.text == TextAfter(c.text, e)
    ensures StepColumn(types, c, e).1 == if AsksOtherType(c, e) then Mismatch else SaysTo(types, c.text, e)
  {
    if e.Set? {
      UnmarshalUndoesMarshal(types, e.v);
      if !HasNul(e.v.doc) {
        StoredDecodes(e.v.doc);
      }
    }
  }

  lemma AnswersOneByOne(types: Types, c: Column, text: string, events: seq<Event>)
    requires events != []
    ensures Answers(types, c, events) ==
            [StepColumn(types, c, events[0]).1] + Answers(types, StepColumn(types, c, events[0]).0, events[1..])
    ensures Uncached(types, text, events) ==
            [SaysTo(types, text, events[0])] + Uncached(types, TextAfter(text, events[0]), events[1..])
  {
  }

  lemma {:induction false} OneAnswerEach(types: Types, c: Column, text: string, events: seq<Event>)
    ensures |Answers(types, c, events)| == |Uncached(types, text, events)| == |events|
    decreases |events|
  {
    if events != [] {
      AnswersOneByOne(types, c, text, events);
      OneAnswerEach(types, StepColumn(types, c, events[0]).0, TextAfter(text, events[0]), events[1..]);
    }
  }

  /** Over any sequence of sets, reads and failed reads, each read gives what decoding the
      text would - a mismatch exactly when another type is asked for than the one kept. */
  lemma {:induction false} ReadsSayTheText(types: Types, c: Column, events: seq<Event>, i: nat)
    requires Agrees(types, c) && forall e :: e in events ==> SetsRound(types, e)
    requires i < |events|
    ensures |Answers(types, c, events)| == |Uncached(types, c.text, events)| == |events|
    ensures Answers(types, c, events)[i] ==
              if AsksOtherType(Before(types, c, events, i), events[i]) then Mismatch
              else Uncached(types, c.text, events)[i]
    ensures Uncached(types, c.text, events)[i] != Mismatch
    decreases i
  {
    OneAnswerEach(types, c, c.text, events);
    AnswersOneByOne(types, c, c.text, events);
    StepSaysTheText(types, c, events[0]);
    if i > 0 {
      var after := StepColumn(types, c, events[0]).0;
      ReadsSayTheText(types, after, events[1..], i - 1);
      assert Before(types, c, events, i) == Before(types, after, events[1..], i - 1);
    }
  }

  /** And where every value and every read is of one type, each read does. */
  lemma {:induction false} ReadsOfOneTypeSayTheText(types: Types, c: Column, events: seq<Event>, kind: Kind)
    requires Agrees(types, c) && (c.parsed.Some? ==> c.parsed.value.kind == kind)
    requires forall e :: e in events ==> SetsRound(types, e) && kind == if e.Set? then e.v.kind else e.kind
    ensures Answers(types, c, events) == Uncached(types, c.text, events)
    decreases |events|
  {
    if events != [] {
      AnswersOneByOne(types, c, c.text, events);
      assert events[0] in events;
      StepSaysTheText(types, c, events[0]);
      ReadsOfOneTypeSayTheText(types, StepColumn(types, c, events[0]).0, events[1..], kind);
    }
  }

  // ---------------------------------------------------------------- Settings

  /** Why a parse gives nothing: the value kept is of another type than asked for, the text
      cannot be read, or there is no value kept and the type's own is not of the type asked
      for, which the code asserts. */
  datatype ParseError = WrongType | BadData | Panics

  type Result<+T> = Wrappers.Result<T, ParseError>

  datatype Row = Row(kind: Kind, data: string, size: nat, parsed: Option<Value>, version: int, updateVer: int)

  datatype Snapshot = Snapshot(data: string, version: int)

  /** A row's value, read from its text. */
  function Fresh(types: Types, r: Row): Result<Value> {
    if r.data == "" then Success(types.zero(r.kind))
    else
      match Unmarshal(types, r.kind, r.data)
      case Some(d) => Success(d)
      case None => Failure(BadData)
  }

  /** Whether a row's value is of the type asked for; any is, when none is asked for. */
  predicate IsAsked(asked: Option<Kind>, kind: Kind) {
    asked.Some? ==> asked.value == kind
  }

  /** What parsing gives, and leaves the row as. */
  function Parsed(types: Types, r: Row, asked: Option<Kind>): (Row, Result<Value>) {
    if r.parsed.Some? then (r, if IsAsked(asked, r.kind) then Success(r.parsed.value) else Failure(WrongType))
    else if !IsAsked(asked, r.kind) then (r, Failure(Panics))
    else
      var read := Fresh(types, r);
      (r.(parsed := Some(if read.Success? then read.value else types.partial(r.kind, r.data))), read)
  }

  ghost predicate RowAgrees(types: Types, r: Row) {
    r.parsed.Some? ==> Fresh(types, r) == Success(r.parsed.value)
  }

  class Setting {
    const kind: Kind
    var data: string
    var size: nat
    var parsedData: Option<Value>
    var version: int
    var updateVer: int

    function ToRow(): Row
      reads this
    {
      Row(kind, data, size, parsedData, version, updateVer)
    }

    constructor (row: Row)
      ensures ToRow() == row
    {
      kind, data, size, parsedData, version, updateVer :=
        row.kind, row.data, row.size, row.parsed, row.version, row.updateVer;
    }

    method SetData(types: Types, v: Typed) returns (ok: bool)
      requires Round(types, v)
      modifies this
      ensures ok <==> v.kind == kind
      ensures !ok ==> ToRow() == old(ToRow())
      ensures ok ==> ToRow() == old(ToRow()).(
                data := Stored(v.doc).0, size := |Stored(v.doc).0|,
                parsed := if HasNul(v.doc) then None else Some(v.doc))
      ensures ok ==> RowAgrees(types, ToRow())
    {
      if v.kind != kind {
        return false;
      }
      var b, clean := MarshalJSONB(v.doc);
      data := b;
      size := |data|;
      parsedData := None;
      if clean {
        parsedData := Some(v.doc);
      }
      StoredDecodes(v.doc);
      return true;
    }

    method ParseAs(types: Types, asked: Option<Kind>) returns (r: Result<Value>)
      modifies this`parsedData
      ensures (ToRow(), r) == Parsed(types, old(ToRow()), asked)
    {
      var isAsked := asked.None? || asked.value == kind;
      if parsedData.Some? {
        return if isAsked then Success(parsedData.value) else Failure(WrongType);
      }
      if !isAsked {
        return Failure(Panics);
      }
      parsedData := Some(types.zero(kind));
      if data != "" {
        match Unmarshal(types, kind, data)
        case Some(d) =>
          parsedData := Some(d);
        case None =>
          parsedData := Some(types.partial(kind, data));
          return Failure(BadData);
      }
      return Success(parsedData.value);
    }

    method ResetParsedData()
      modifies this`parsedData
      ensures ToRow() == old(ToRow()).(parsed := None)
    {
      parsedData := None;
    }

    method RestoreFrom(snapshot: Snapshot)
      modifies this
      ensures ToRow() == Restored(snapshot, old(ToRow()))
    {
      data := snapshot.data;
      version := snapshot.version;
      parsedData := None;
    }
  }

  function SnapshotOf(r: Row): Snapshot {
    Snapshot(r.data, r.version)
  }

  function Restored(snapshot: Snapshot, r: Row): Row {
    r.(data := snapshot.data, version := snapshot.version, parsed := None)
  }

  /** Put back from a snapshot, a setting parses as the one it was taken of did, whatever
      was set, parsed or failed to parse in between. */
  lemma RestoredParsesAsBefore(types: Types, before: Row, after: Row, asked: Option<Kind>)
    requires RowAgrees(types, before) && before.kind == after.kind && IsAsked(asked, before.kind)
    ensures Parsed(types, Restored(SnapshotOf(before), after), asked).1 == Parsed(types, before, asked).1
    ensures Restored(SnapshotOf(before), after).version == before.version
    ensures RowAgrees(types, Restored(SnapshotOf(before), after))
  {
  }

  /** Putting back leaves the size column: it is right afterwards exactly when the text put
      back is as long as the text it says. */
  lemma RestoredSizeIff(snapshot: Snapshot, r: Row)
    ensures Restored(snapshot, r).size == |Restored(snapshot, r).data| <==> r.size == |snapshot.data|
  {
  }

  /** A parse keeps a setting in agreement with its text, and its answer the same when
      asked again, exactly when the text can be read: a failed parse leaves what it had
      filled in, and the next gives that out as the setting's data. */
  lemma ParseIsStableIff(types: Types, r: Row, asked: Option<Kind>)
    requires r.parsed.None? && IsAsked(asked, r.kind)
    ensures var (r', first) := Parsed(types, r, asked);
            var (_, second) := Parsed(types, r', asked);
            && (RowAgrees(types, r') <==> r.data == "" || Unmarshal(types, r.kind, r.data).Some?)
            && (first == second <==> r.data == "" || Unmarshal(types, r.kind, r.data).Some?)
  {
  }
}
