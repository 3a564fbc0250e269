/**
 Messages: the command-id checks of the generator, and the typed facade that maps the
 payload of a DATA frame back to the message it answers.
 */
module TypedDispatch {
  import BitStrings
  import opened Bytes
  import opened Schema
  import opened LeafCodec
  import opened Codec
  import opened MessageCodec
  import CrossLanguage
  import Framing
  import HostParser
  import LayoutPass

  datatype Frame = Read | Write

  datatype Message = Message(
    name: string, command: Option<int>, explicitFrame: Option<Frame>, periodMs: Option<int>,
    request: Option<string>, response: Option<string>)

  /** Request names that stand for themselves; every other names a struct. */
  predicate IsScalarRequest(request: string) {
    request in ["bool", "none", "raw", "bytes"]
  }

  /** `_has_request_payload`. */
  predicate HasRequestPayload(m: Message) {
    m.request.Some? && m.request.value != "none"
  }

  /** The three dictionaries that `validate_schema` keeps of command ids it has seen. */
  datatype Registry = ReadIds | WriteIds | DataIds

  /** `_command_frame`. */
  function CommandFrame(m: Message): Option<Frame> {
    if m.command.None? then None
    else if m.explicitFrame.Some? then m.explicitFrame
    else if m.periodMs.Some? then Some(Read)
    else if m.response.Some? && !HasRequestPayload(m) then Some(Read)
    else Some(Write)
  }

  predicate Registered(m: Message, r: Registry) {
    m.command.Some? && match r
      case ReadIds => CommandFrame(m) == Some(Read)
      case WriteIds => CommandFrame(m) == Some(Write)
      case DataIds => m.response.Some?
  }

  /** Two messages of one registry never share a command id. */
  predicate UniqueIds(messages: seq<Message>, r: Registry) {
    forall i, j | 0 <= i < j < |messages| && Registered(messages[i], r) && Registered(messages[j], r) ::
      messages[i].command != messages[j].command
  }

  /** Which messages share an id space, in their own fields. */
  lemma RegistriesAreExact(m: Message)
    ensures Registered(m, DataIds) <==> m.command.Some? && m.response.Some?
    ensures Registered(m, ReadIds) <==>
            m.command.Some? &&
            (|| m.explicitFrame == Some(Read)
             || (m.explicitFrame.None? &&
                 (m.periodMs.Some? || (m.response.Some? && (m.request.None? || m.request == Some("none"))))))
    ensures Registered(m, WriteIds) <==>
            m.command.Some? &&
            (|| m.explicitFrame == Some(Write)
             || (m.explicitFrame.None? && m.periodMs.None? &&
                 (m.response.None? || (m.request.Some? && m.request != Some("none")))))
  {
  }

  predicate FieldsAccepted(m: Message, structs: set<string>) {
    && (m.command.None? ==> m.response.Some? && m.periodMs.None?)
    && (m.periodMs.Some? ==> m.periodMs.value > 0)
    && (m.request.Some? && !IsScalarRequest(m.request.value) ==> m.request.value in structs)
    && (m.response.Some? ==> m.response.value in structs)
  }

  /** The reasons for which a message is rejected by itself: there are no others. */
  lemma FieldsAreRejectedExactly(m: Message, structs: set<string>)
    ensures !FieldsAccepted(m, structs) <==>
            || (m.command.None? && m.response.None?)
            || (m.command.None? && m.periodMs.Some?)
            || (m.periodMs.Some? && m.periodMs.value <= 0)
            || (m.request.Some? && m.request.value !in ["bool", "none", "raw", "bytes"] && m.request.value !in structs)
            || (m.response.Some? && m.response.value !in structs)
  {
  }

  predicate Accepted(messages: seq<Message>, structs: set<string>) {
    && (forall i | 0 <= i < |messages| :: FieldsAccepted(messages[i], structs))
    && UniqueIds(messages, ReadIds) && UniqueIds(messages, WriteIds) && UniqueIds(messages, DataIds)
  }

  /** A schema is rejected for a message by itself, or for two messages of one registry with one id: nothing else. */
  lemma RejectedExactly(messages: seq<Message>, structs: set<string>)
    ensures !Accepted(messages, structs) <==>
            || (exists i :: 0 <= i < |messages| && !FieldsAccepted(messages[i], structs))
            || (exists r, i, j :: 0 <= i < j < |messages| && SharesId(messages[i], messages[j], r))
  {
    hide Registered, FieldsAccepted, UniqueIds, SharesId;
    UniqueExactly(messages, ReadIds);
    UniqueExactly(messages, WriteIds);
    UniqueExactly(messages, DataIds);
    if r, i, j :| 0 <= i < j < |messages| && SharesId(messages[i], messages[j], r) {
      assert r == ReadIds || r == WriteIds || r == DataIds;
      assert !Accepted(messages, structs);
    }
  }

  lemma UniqueExactly(messages: seq<Message>, r: Registry)
    ensures UniqueIds(messages, r) <==>
            forall i, j | 0 <= i < j < |messages| :: !SharesId(messages[i], messages[j], r)
  {
    hide Registered;
    if UniqueIds(messages, r) {
    } else {
      var i, j :| 0 <= i < j < |messages| && Registered(messages[i], r) && Registered(messages[j], r)
        && messages[i].command == messages[j].command;
      assert SharesId(messages[i], messages[j], r);
    }
  }

  predicate SharesId(m: Message, n: Message, r: Registry) {
    Registered(m, r) && Registered(n, r) && m.command == n.command
  }

  datatype Problem = Fields(name: string) | Duplicate(r: Registry, name: string, holder: string)

  /** The id a registered message has. */
  function IdOf(m: Message, r: Registry): int
    requires Registered(m, r)
  {
    m.command.value
  }

  /** The ids a registry has seen. */
  function Ids(messages: seq<Message>, r: Registry): set<int> {
    set i | 0 <= i < |messages| && Registered(messages[i], r) :: IdOf(messages[i], r)
  }

  lemma IdsSnoc(messages: seq<Message>, m: Message, r: Registry)
    ensures Ids(messages + [m], r) == Ids(messages, r) + if Registered(m, r) then {IdOf(m, r)} else {}
  {
    hide Registered, IdOf;
    var longer := messages + [m];
    assert longer[|messages|] == m && forall i | 0 <= i < |messages| :: longer[i] == messages[i];
    forall c | c in Ids(messages, r)
      ensures c in Ids(longer, r)
    {
      var i :| 0 <= i < |messages| && Registered(messages[i], r) && IdOf(messages[i], r) == c;
      assert Registered(longer[i], r) && IdOf(longer[i], r) == c;
    }
    assert Registered(m, r) ==> Registered(longer[|messages|], r) && IdOf(longer[|messages|], r) in Ids(longer, r);
  }

  lemma UniqueSnoc(messages: seq<Message>, m: Message, r: Registry)
    ensures UniqueIds(messages + [m], r) <==>
            UniqueIds(messages, r) && (Registered(m, r) ==> IdOf(m, r) !in Ids(messages, r))
  {
    var longer := messages + [m];
    assert longer[|messages|] == m && forall i | 0 <= i < |messages| :: longer[i] == messages[i];
    if UniqueIds(longer, r) {
      assert forall i, j | 0 <= i < j < |messages| && Registered(messages[i], r) && Registered(messages[j], r) ::
          Registered(longer[i], r) && Registered(longer[j], r);
      if Registered(m, r) {
        forall i | 0 <= i < |messages| && Registered(messages[i], r)
          ensures IdOf(messages[i], r) != IdOf(m, r)
        {
          assert Registered(longer[i], r) && Registered(longer[|messages|], r);
        }
      }
    } else {
      var i, j :| 0 <= i < j < |longer| && Registered(longer[i], r) && Registered(longer[j], r)
        && longer[i].command == longer[j].command;
      if j < |messages| {
        assert Registered(messages[i], r) && Registered(messages[j], r);
      } else {
        assert Registered(messages[i], r) && IdOf(messages[i], r) in Ids(messages, r);
      }
    }
  }

  /** One registry's part of the checks on a message. */
  method CheckId(seen: map<int, string>, m: Message, r: Registry, ghost before: seq<Message>)
    returns (after: map<int, string>, problems: seq<Problem>)
    requires seen.Keys == Ids(before, r)
    ensures after.Keys == Ids(before + [m], r)
    ensures UniqueIds(before + [m], r) <==> UniqueIds(before, r) && problems == []
  {
    hide UniqueIds, Ids;
    IdsSnoc(before, m, r);
    UniqueSnoc(before, m, r);
    after, problems := seen, [];
    if Registered(m, r) {
      if m.command.value in seen {
        problems := [Duplicate(r, m.name, seen[m.command.value])];
      } else {
        after := seen[m.command.value := m.name];
      }
    }
  }

  /** The message part of `validate_schema`: no problem is reported exactly when the schema is acceptable. */
  method ValidateMessages(messages: seq<Message>, structs: set<string>) returns (problems: seq<Problem>)
    ensures problems == [] <==> Accepted(messages, structs)
    ensures problems == [] ==>
              forall i, j | 0 <= i < j < |messages| && messages[i].command.Some? &&
                            messages[i].response.Some? && messages[j].response.Some? ::
                messages[i].command != messages[j].command
  {
    hide UniqueIds, FieldsAccepted, Ids, Registered;
    problems := [];
    NoMessages(structs);
    var readIds: map<int, string>, writeIds: map<int, string>, dataIds: map<int, string> := map[], map[], map[];
    for i := 0 to |messages|
      invariant readIds.Keys == Ids(messages[..i], ReadIds)
      invariant writeIds.Keys == Ids(messages[..i], WriteIds)
      invariant dataIds.Keys == Ids(messages[..i], DataIds)
      invariant problems == [] <==> Accepted(messages[..i], structs)
    {
      var m := messages[i];
      ghost var before := messages[..i];
      assert messages[..i + 1] == before + [m];
      var inRead, inWrite, inData;
      readIds, inRead := CheckId(readIds, m, ReadIds, before);
      writeIds, inWrite := CheckId(writeIds, m, WriteIds, before);
      dataIds, inData := CheckId(dataIds, m, DataIds, before);
      var inFields := if FieldsAccepted(m, structs) then [] else [Fields(m.name)];
      problems := problems + inFields + inRead + inWrite + inData;
      AcceptedSnoc(before, m, structs);
    }
    assert messages[..|messages|] == messages;
    if problems == [] {
      DataIdsAreUnique(messages);
    }
  }

  lemma DataIdsAreUnique(messages: seq<Message>)
    requires UniqueIds(messages, DataIds)
    ensures forall i, j | 0 <= i < j < |messages| && messages[i].command.Some? &&
                          messages[i].response.Some? && messages[j].response.Some? ::
              messages[i].command != messages[j].command
  {
    hide Registered;
    forall i | 0 <= i < |messages|
      ensures Registered(messages[i], DataIds) <==> messages[i].command.Some? && messages[i].response.Some?
    {
      RegistriesAreExact(messages[i]);
    }
  }

  lemma NoMessages(structs: set<string>)
    ensures Accepted([], structs) && Ids([], ReadIds) == Ids([], WriteIds) == Ids([], DataIds) == {}
  {
  }

  lemma AcceptedSnoc(messages: seq<Message>, m: Message, structs: set<string>)
    ensures (forall i | 0 <= i < |messages + [m]| :: FieldsAccepted((messages + [m])[i], structs)) <==>
            (forall i | 0 <= i < |messages| :: FieldsAccepted(messages[i], structs)) && FieldsAccepted(m, structs)
  {
    hide FieldsAccepted;
    var longer := messages + [m];
    assert longer[|messages|] == m && forall i | 0 <= i < |messages| :: longer[i] == messages[i];
  }

  // ---- Dispatch ----

  datatype Inbound = Known(name: string, value: Value) | Unknown(command: byte, payload: seq<byte>)

  /** Every DATA-producing message has a well-formed response type. */
  predicate TypesKnown(messages: seq<Message>, types: map<string, Type>) {
    forall i | 0 <= i < |messages| && messages[i].response.Some? ::
      messages[i].response.value in types && WellFormed(types[messages[i].response.value])
  }

  /** `decode` of a generated Rust type. */
  function DecodePayload(ty: Type, payload: seq<byte>): Option<Value>
    requires WellFormed(ty)
  {
    if |payload| < WireSize(ty) then None
    else Some(Decode(Rust, false, ty, BitStrings.Window(payload, 0, TotalBits(ty))))
  }

  /** `Inbound::decode_data`: the first arm whose id matches. */
  function DecodeData(messages: seq<Message>, types: map<string, Type>, command: byte, payload: seq<byte>): Inbound
    requires TypesKnown(messages, types)
  {
    if messages == [] then Unknown(command, payload)
    else
      var m := messages[0];
      if Registered(m, DataIds) && m.command.value == command as int then
        match DecodePayload(types[m.response.value], payload)
        case Some(v) => Known(m.name, v)
        case None => Unknown(command, payload)
      else DecodeData(messages[1..], types, command, payload)
  }

  /** The arm that is taken: the first message of that id, if there is one. */
  lemma {:induction false} FirstArm(messages: seq<Message>, types: map<string, Type>, i: nat, command: byte,
                                    payload: seq<byte>)
    requires TypesKnown(messages, types) && i < |messages|
    requires messages[i].response.Some? && messages[i].command == Some(command as int)
    requires forall j | 0 <= j < i && messages[j].response.Some? :: messages[j].command != Some(command as int)
    ensures DecodeData(messages, types, command, payload) ==
            match DecodePayload(types[messages[i].response.value], payload)
            case Some(v) => Known(messages[i].name, v)
            case None => Unknown(command, payload)
    decreases i
  {
    hide DecodePayload, WellFormed;
    if i > 0 {
      FirstArm(messages[1..], types, i - 1, command, payload);
    }
  }

  /**
   In an accepted schema the DATA payload of every message is
   decoded as that message, with the value that was encoded.
   */
  lemma DispatchFindsMessage(messages: seq<Message>, structs: set<string>, types: map<string, Type>, i: nat,
                             command: byte, v: Value, payload: seq<byte>, tail: seq<byte>)
    requires Accepted(messages, structs) && TypesKnown(messages, types)
    requires i < |messages| && messages[i].response.Some? && messages[i].command == Some(command as int)
    requires var ty := types[messages[i].response.value];
             Conforms(Rust, ty, v) && Fits(Rust, false, ty, v) && Image(Rust, ty, v, payload)
    ensures DecodeData(messages, types, command, payload + tail) == Known(messages[i].name, v)
  {
    hide WellFormed, Conforms, Fits, Image, Decode, TotalBits, WireSize;
    var ty := types[messages[i].response.value];
    ImageReadsBack(Rust, false, ty, v, payload, tail);
    ImageLength(Rust, ty, v, payload);
    assert DecodePayload(ty, payload + tail) == Some(v);
    FirstArm(messages, types, i, command, payload + tail);
  }

  lemma ImageLength(target: Target, ty: Type, v: Value, bytes: seq<byte>)
    requires Conforms(target, ty, v) && Image(target, ty, v, bytes)
    ensures |bytes| == WireSize(ty)
  {
  }

  /** The value, as Rust holds it, is one that the Rust decoder keeps. */
  ghost predicate KeptByRust(ty: Type, v: Value)
    requires Conforms(C, ty, v)
  {
    WellFormed(ty) && Conforms(Rust, ty, CrossLanguage.ToRust(ty, v)) ==>
      Fits(Rust, false, ty, CrossLanguage.ToRust(ty, v))
  }

  /**
   From device to host: what the C code encodes for a message,
   the Rust facade returns as that message, with the same value.
   */
  lemma DeviceDataReachesItsMessage(messages: seq<Message>, structs: set<string>, types: map<string, Type>, i: nat,
                                    command: byte, v: Value, payload: seq<byte>, tail: seq<byte>)
    requires Accepted(messages, structs) && TypesKnown(messages, types)
    requires i < |messages| && messages[i].response.Some? && messages[i].command == Some(command as int)
    requires var ty := types[messages[i].response.value];
             && Conforms(C, ty, v) && Image(C, ty, v, payload)
             && KeptByRust(ty, v)
    ensures DecodeData(messages, types, command, payload + tail) ==
            Known(messages[i].name, CrossLanguage.ToRust(types[messages[i].response.value], v))
  {
    hide WellFormed, Conforms, Fits, Image, Decode, TotalBits, CrossLanguage.ToRust, UniqueIds;
    var ty := types[messages[i].response.value];
    CrossLanguage.SameImage(ty, v, payload);
    DispatchFindsMessage(messages, structs, types, i, command, CrossLanguage.ToRust(ty, v), payload, tail);
  }

  /**
   The same through the frame layer: the device's DATA frame leaves the
   host's parser as a payload that the facade turns into the value sent.
   */
  lemma TypedDataOverTheWire(p: HostParser.State, source: byte, messages: seq<Message>, structs: set<string>,
                             types: map<string, Type>, i: nat, command: byte, v: Value, payload: seq<byte>)
    requires HostParser.Valid(p) && p.mode.Sync? && (!p.addressing ==> source == 0)
    requires Accepted(messages, structs) && TypesKnown(messages, types)
    requires i < |messages| && messages[i].response.Some? && messages[i].command == Some(command as int)
    requires var ty := types[messages[i].response.value];
             && WireSize(ty) <= Framing.MAX_PAYLOAD_SIZE
             && Conforms(C, ty, v) && Image(C, ty, v, payload)
             && KeptByRust(ty, v)
    ensures var frame := Framing.Encode(Framing.ToHost(p.addressing), Framing.Wire(source, 2, command, payload));
            HostParser.Output(p, frame) == [HostParser.Data(command, payload)]
    ensures DecodeData(messages, types, command, payload) ==
            Known(messages[i].name, CrossLanguage.ToRust(types[messages[i].response.value], v))
  {
    hide WellFormed, Conforms, Fits, Image, Decode, TotalBits, WireSize, CrossLanguage.ToRust, UniqueIds;
    hide HostParser.Output, HostParser.After;
    hide Framing.Encode, DecodeData;
    ImageLength(C, types[messages[i].response.value], v, payload);
    HostParser.FrameRun(p, Framing.Wire(source, 2, command, payload), []);
    DeviceDataReachesItsMessage(messages, structs, types, i, command, v, payload, []);
    assert payload + [] == payload;
  }

  /** The response types of a schema, as the layout pass leaves them. */
  ghost function ResponseTypes(t: LayoutPass.Types, order: seq<string>): map<string, Type>
    requires LayoutPass.GoodOrder(t, order)
  {
    map n | n in t.structs :: LayoutPass.Resolve(t, order, n)
  }

  lemma ResponseTypesKnown(t: LayoutPass.Types, order: seq<string>, messages: seq<Message>)
    requires LayoutPass.GoodOrder(t, order) && LayoutPass.LeavesWellFormed(t) && Accepted(messages, t.structs.Keys)
    ensures TypesKnown(messages, ResponseTypes(t, order))
  {
    hide LayoutPass.GoodOrder, LayoutPass.Resolve, LayoutPass.LeavesWellFormed, UniqueIds, WellFormed;
    forall i | 0 <= i < |messages| && messages[i].response.Some?
      ensures messages[i].response.value in t.structs
      ensures WellFormed(LayoutPass.Resolve(t, order, messages[i].response.value))
    {
      assert FieldsAccepted(messages[i], t.structs.Keys);
      LayoutPass.ResolvedIsWellFormed(t, order, messages[i].response.value);
    }
  }

  /**
   A schema that the layout pass and the validation accept: for every DATA-producing
   message, the bytes that the C code encodes in the size the pass computed reach
   the host's parser as that payload, and are decoded as that message's value.
   */
  lemma AcceptedSchemaDispatches(t: LayoutPass.Types, order: seq<string>, layouts: map<string, LayoutPass.Layout>,
                                 messages: seq<Message>, i: nat, command: byte, v: Value, payload: seq<byte>,
                                 p: HostParser.State, source: byte)
    requires LayoutPass.GoodOrder(t, order) && LayoutPass.LeavesWellFormed(t)
    requires forall n | t.Has(n) :: n in layouts && LayoutPass.LayoutOf(t, order, n, layouts[n])
    requires Accepted(messages, t.structs.Keys)
    requires i < |messages| && messages[i].response.Some? && messages[i].command == Some(command as int)
    requires var name := messages[i].response.value;
             && t.Has(name)
             && layouts[name].wireSize <= Framing.MAX_PAYLOAD_SIZE
             && Conforms(C, LayoutPass.Resolve(t, order, name), v)
             && Image(C, LayoutPass.Resolve(t, order, name), v, payload)
             && KeptByRust(LayoutPass.Resolve(t, order, name), v)
    requires HostParser.Valid(p) && p.mode.Sync? && (!p.addressing ==> source == 0)
    ensures TypesKnown(messages, ResponseTypes(t, order))
    ensures var name := messages[i].response.value;
            var frame := Framing.Encode(Framing.ToHost(p.addressing), Framing.Wire(source, 2, command, payload));
            && |payload| == layouts[name].wireSize
            && HostParser.Output(p, frame) == [HostParser.Data(command, payload)]
            && DecodeData(messages, ResponseTypes(t, order), command, payload)
               == Known(messages[i].name, CrossLanguage.ToRust(LayoutPass.Resolve(t, order, name), v))
  {
    hide LayoutPass.GoodOrder, LayoutPass.Resolve, LayoutPass.LeavesWellFormed, LayoutPass.FieldLayoutsOf;
    hide LayoutPass.ValidTypes;
    hide UniqueIds, WellFormed, Conforms, Fits, Image, TotalBits, WireSize, CrossLanguage.ToRust, DecodeData;
    hide TypesKnown;
    hide HostParser.Output, HostParser.Valid, Framing.Encode;
    hide KeptByRust;
    ResponseTypesKnown(t, order, messages);
    var name := messages[i].response.value;
    var ty := LayoutPass.Resolve(t, order, name);
    assert FieldsAccepted(messages[i], t.structs.Keys);
    assert ResponseTypes(t, order)[name] == ty;
    ImageLength(C, ty, v, payload);
    TypedDataOverTheWire(p, source, messages, t.structs.Keys, ResponseTypes(t, order), i, command, v, payload);
  }

  /**
   A payload is handed back undecoded exactly when no message
   has the id, or the first one that has it needs more bytes.
   */
  lemma {:induction false} UnknownExactly(messages: seq<Message>, types: map<string, Type>, command: byte,
                                          payload: seq<byte>)
    requires TypesKnown(messages, types)
    ensures DecodeData(messages, types, command, payload).Unknown? <==>
            forall i | 0 <= i < |messages| && IsFirst(messages, i, command) ::
              |payload| < WireSize(types[messages[i].response.value])
    ensures DecodeData(messages, types, command, payload).Unknown? ==>
              DecodeData(messages, types, command, payload) == Unknown(command, payload)
  {
    hide WellFormed, Decode, WireSize;
    if i :| 0 <= i < |messages| && IsFirst(messages, i, command) {
      FirstArm(messages, types, i, command, payload);
      assert forall j | 0 <= j < |messages| && IsFirst(messages, j, command) :: j == i;
    } else {
      NoArm(messages, types, command, payload);
    }
  }

  predicate IsFirst(messages: seq<Message>, i: nat, command: byte)
    requires i < |messages|
  {
    && messages[i].response.Some? && messages[i].command == Some(command as int)
    && forall j | 0 <= j < i && messages[j].response.Some? :: messages[j].command != Some(command as int)
  }

  lemma ShiftFirst(messages: seq<Message>, i: nat, command: byte)
    requires messages != [] && i < |messages[1..]| && !IsFirst(messages, 0, command)
    ensures IsFirst(messages[1..], i, command) == IsFirst(messages, i + 1, command)
  {
    hide Registered;
    assert forall j | 0 < j < |messages| :: messages[j] == messages[1..][j - 1];
    assert forall j | 0 <= j < |messages[1..]| :: messages[1..][j] == messages[j + 1];
  }

  lemma {:induction false} NoArm(messages: seq<Message>, types: map<string, Type>, command: byte, payload: seq<byte>)
    requires TypesKnown(messages, types)
    requires forall i | 0 <= i < |messages| :: !IsFirst(messages, i, command)
    ensures DecodeData(messages, types, command, payload) == Unknown(command, payload)
  {
    hide WellFormed, DecodePayload;
    if messages != [] {
      assert !IsFirst(messages, 0, command);
      forall i | 0 <= i < |messages[1..]|
        ensures !IsFirst(messages[1..], i, command)
      {
        ShiftFirst(messages, i, command);
      }
      NoArm(messages[1..], types, command, payload);
    }
  }

  /** Without the uniqueness check a later message of the same id is never found. */
  lemma LaterDuplicateIsShadowed(messages: seq<Message>, types: map<string, Type>, i: nat, j: nat, command: byte,
                                 payload: seq<byte>)
    requires TypesKnown(messages, types) && i < j < |messages| && messages[i].name != messages[j].name
    requires IsFirst(messages, i, command)
    requires messages[j].response.Some? && messages[j].command == Some(command as int)
    ensures DecodeData(messages, types, command, payload).Known? ==>
              DecodeData(messages, types, command, payload).name != messages[j].name
  {
    hide WellFormed, DecodePayload;
    FirstArm(messages, types, i, command, payload);
  }
}
