/** Messages as text: class number, uid and argument between colons. */
module Msgs {
  import opened Bytes
  import opened Decimals
  import opened Encodings

  datatype MsgClass =
    | ExecCommandRequest | ExecCommandReply | ExitRequest | FatalPythonErrorReply
    | ServerIdRequest | ServerIdReply | SendCommandRequest | Ack

  const ALL_CLASSES: seq<MsgClass> :=
    [ExecCommandRequest, ExecCommandReply, ExitRequest, FatalPythonErrorReply,
     ServerIdRequest, ServerIdReply, SendCommandRequest, Ack]

  /** NOARG, bytes, str, None, or another object, of which only its repr() matters. */
  datatype Arg = NoArg | Raw(bytes: seq<Byte>) | Str(text: Text) | NoneArg | Object(repr: Text)

  datatype Msg = Msg(cls: MsgClass, uid: int, arg: Arg)

  const COLON: Byte := 58
  const TAG_STR: Byte := 115
  const TAG_BYTES: Byte := 98

  // ---------- the numbering of the classes ----------

  datatype Registry = Registry(classes: map<nat, MsgClass>, ids: map<MsgClass, nat>)

  /** Every known class is found again under its own number. */
  ghost predicate Consistent(reg: Registry) {
    forall c :: c in reg.ids ==> reg.ids[c] in reg.classes && reg.classes[reg.ids[c]] == c
  }

  class MsgMap {
    var msgclses: map<nat, MsgClass>
    var msgids: map<MsgClass, nat>
    var count: nat

    ghost predicate Valid()
      reads this
    {
      Consistent(Reg()) && (forall i: nat :: i in msgclses <==> i < count)
    }

    ghost function Reg(): Registry
      reads this
    {
      Registry(msgclses, msgids)
    }

    constructor ()
      ensures Valid() && msgids == map[]
    {
      msgclses, msgids, count := map[], map[], 0;
    }

    /** A class that is added twice answers to its later number, and is found under both. */
    method AddMsgcls(c: MsgClass)
      requires Valid()
      modifies this
      ensures Valid() && count == old(count) + 1
      ensures msgids == old(msgids)[c := old(count)] && msgclses == old(msgclses)[old(count) := c]
    {
      var msgid := count;
      count := count + 1;
      msgclses := msgclses[msgid := c];
      msgids := msgids[c := msgid];
    }

    /** set_msgclses, on a new map. */
    method AddAll(cs: seq<MsgClass>)
      requires Valid()
      modifies this
      ensures Valid() && msgids.Keys == old(msgids).Keys + set c | c in cs
    {
      for i := 0 to |cs|
        invariant Valid() && msgids.Keys == old(msgids).Keys + set c | c in cs[..i]
      {
        AddMsgcls(cs[i]);
        assert cs[..i + 1] == cs[..i] + [cs[i]];
      }
      assert cs[..|cs|] == cs;
    }
  }

  /** set_msgclses: every class of the protocol gets a number. */
  method SetMsgclses() returns (m: MsgMap)
    ensures fresh(m) && m.Valid() && forall c :: c in m.msgids
  {
    m := new MsgMap();
    m.AddAll(ALL_CLASSES);
    forall c
      ensures c in m.msgids
    {
      ClassListed(c);
    }
  }

  lemma ClassListed(c: MsgClass)
    ensures c in ALL_CLASSES
  {
    var i := match c
      case ExecCommandRequest => 0 case ExecCommandReply => 1 case ExitRequest => 2 case FatalPythonErrorReply => 3
      case ServerIdRequest => 4 case ServerIdReply => 5 case SendCommandRequest => 6 case Ack => 7;
    assert ALL_CLASSES[i] == c;
  }

  // ---------- printing and parsing ----------

  function TextArg(t: Text): seq<Byte> { Encode64([TAG_STR] + EncodeText(t)) }

  function BytesArg(b: seq<Byte>): seq<Byte> { Encode64([TAG_BYTES] + b) }

  /** None stands for the TypeError of concatenating bytes with something else. */
  function SerializeArg(m: Msg, noArgRepr: Text): Option<seq<Byte>> {
    match m.arg
    case Raw(b) => Some(BytesArg(b))
    case Str(t) => Some(TextArg(t))
    case NoArg => Some(if m.cls == ExecCommandReply then TextArg(noArgRepr) else [])
    case NoneArg => if m.cls == ExecCommandReply then Some(BytesArg([])) else None
    case Object(r) => if m.cls == ExecCommandReply then Some(TextArg(r)) else None
  }

  function Serialize(reg: Registry, m: Msg, noArgRepr: Text): Option<seq<Byte>>
    requires m.cls in reg.ids
  {
    match SerializeArg(m, noArgRepr)
    case None => None
    case Some(a) => Some(Decimals.Str(reg.ids[m.cls]) + [COLON] + Decimals.Str(m.uid) + [COLON] + a)
  }

  /** The parse of a message: the message, the exception that a FatalPythonErrorReply
      becomes, or another exception. */
  datatype Parse = Parsed(m: Msg) | Fatal(arg: Arg) | Malformed

  function IndexOf(s: seq<Byte>, c: Byte): (i: nat)
    ensures i <= |s| && (i < |s| ==> s[i] == c) && forall j :: 0 <= j < i ==> s[j] != c
  {
    if s == [] || s[0] == c then 0 else 1 + IndexOf(s[1..], c)
  }

  function DeserializeArg(a: seq<Byte>): Option<Arg> {
    if a == [] then Some(NoArg)
    else
      match Decode64(a)
      case None => None
      case Some(d) =>
        if d == [] then None
        else if d[0] == TAG_STR then
          (match DecodeText(d[1..]) case None => None case Some(t) => Some(Str(t)))
        else Some(Raw(d[1..]))
  }

  function Deserialize(reg: Registry, s: seq<Byte>): Parse {
    var i := IndexOf(s, COLON);
    if i == |s| then Malformed
    else
      var rest := s[i + 1..];
      var j := IndexOf(rest, COLON);
      if j == |rest| then Malformed
      else
        match (ParseInt(s[..i]), ParseInt(rest[..j]), DeserializeArg(rest[j + 1..]))
        case (Some(id), Some(uid), Some(arg)) =>
          if id < 0 || id !in reg.classes then Malformed
          else if reg.classes[id] == FatalPythonErrorReply then Fatal(arg)
          else Parsed(Msg(reg.classes[id], uid, arg))
        case _ => Malformed
  }

  /** The argument as the other end sees it. */
  function Received(m: Msg, noArgRepr: Text): Arg {
    match m.arg
    case NoArg => if m.cls == ExecCommandReply then Str(noArgRepr) else NoArg
    case NoneArg => Raw([])
    case Object(r) => Str(r)
    case _ => m.arg
  }

  lemma FirstColon(a: seq<Byte>, b: seq<Byte>)
    requires forall i :: 0 <= i < |a| ==> a[i] != COLON
    ensures IndexOf(a + [COLON] + b, COLON) == |a|
    ensures (a + [COLON] + b)[..|a|] == a && (a + [COLON] + b)[|a| + 1..] == b
  {
    var s := a + [COLON] + b;
    assert s[|a|] == COLON;
    assert forall i :: 0 <= i < |a| ==> s[i] == a[i];
  }

  lemma NoColonInNumber(i: int)
    ensures forall k :: 0 <= k < |Decimals.Str(i)| ==> Decimals.Str(i)[k] != COLON
  {
    hide Digits;
    var d := Digits(if i < 0 then -i else i);
    DigitsParse(if i < 0 then -i else i);
    assert forall k :: 0 <= k < |d| ==> IsDigit(d[k]);
  }

  lemma TagDropped(tag: Byte, b: seq<Byte>)
    ensures ([tag] + b)[1..] == b && ([tag] + b)[0] == tag
  {
  }

  lemma ArgRoundTrip(m: Msg, noArgRepr: Text)
    requires SerializeArg(m, noArgRepr).Some?
    ensures DeserializeArg(SerializeArg(m, noArgRepr).value) == Some(Received(m, noArgRepr))
  {
    hide Encode64, Decode64, EncodeText, DecodeText;
    forall t: Text
      ensures DeserializeArg(TextArg(t)) == Some(Str(t))
    {
      Base64RoundTrip([TAG_STR] + EncodeText(t));
      TextRoundTrip(t);
      TagDropped(TAG_STR, EncodeText(t));
    }
    forall b: seq<Byte>
      ensures DeserializeArg(BytesArg(b)) == Some(Raw(b))
    {
      Base64RoundTrip([TAG_BYTES] + b);
      TagDropped(TAG_BYTES, b);
    }
  }

  /** Whatever can be serialized is parsed into the same class and uid, and into the argument as Received() says. */
  lemma RoundTrip(reg: Registry, m: Msg, noArgRepr: Text)
    requires Consistent(reg) && m.cls in reg.ids && Serialize(reg, m, noArgRepr).Some?
    ensures Deserialize(reg, Serialize(reg, m, noArgRepr).value) ==
            if m.cls == FatalPythonErrorReply then Fatal(Received(m, noArgRepr))
            else Parsed(m.(arg := Received(m, noArgRepr)))
  {
    hide SerializeArg, DeserializeArg, Decimals.Str, ParseInt;
    var id, uid := Decimals.Str(reg.ids[m.cls]), Decimals.Str(m.uid);
    var a := SerializeArg(m, noArgRepr).value;
    ArgRoundTrip(m, noArgRepr);
    StrParses(reg.ids[m.cls]);
    StrParses(m.uid);
    NoColonInNumber(reg.ids[m.cls]);
    NoColonInNumber(m.uid);
    assert id + [COLON] + uid + [COLON] + a == id + [COLON] + (uid + [COLON] + a);
    FirstColon(id, uid + [COLON] + a);
    FirstColon(uid, a);
  }

  /** The message comes back unchanged exactly when its argument is bytes, text, or nothing at
      all in another message than an ExecCommandReply; and a fatal error is raised, not returned. */
  lemma RestoredExactlyWhen(reg: Registry, m: Msg, noArgRepr: Text)
    requires Consistent(reg) && m.cls in reg.ids && Serialize(reg, m, noArgRepr).Some?
    ensures Deserialize(reg, Serialize(reg, m, noArgRepr).value) == Parsed(m) <==>
            m.cls != FatalPythonErrorReply &&
            (m.arg.Raw? || m.arg.Str? || (m.arg.NoArg? && m.cls != ExecCommandReply))
  {
    hide Deserialize, Serialize;
    RoundTrip(reg, m, noArgRepr);
  }

  /** None and other objects go through as the result of a command only: None as no bytes, an object as its text. */
  lemma SerializesExactlyWhen(reg: Registry, m: Msg, noArgRepr: Text)
    requires Consistent(reg) && m.cls in reg.ids
    ensures Serialize(reg, m, noArgRepr).Some? <==>
            m.arg.Raw? || m.arg.Str? || m.arg.NoArg? || m.cls == ExecCommandReply
    ensures m.cls == ExecCommandReply ==>
              Deserialize(reg, Serialize(reg, m, noArgRepr).value) ==
              Parsed(Msg(ExecCommandReply, m.uid,
                         match m.arg
                         case NoArg => Str(noArgRepr)
                         case NoneArg => Raw([])
                         case Object(r) => Str(r)
                         case a => a))
  {
    hide Deserialize;
    if Serialize(reg, m, noArgRepr).Some? {
      RoundTrip(reg, m, noArgRepr);
    }
  }

  /** An acknowledgement of uid 5, its class being 7, is 7:5: and a request for the command ls, of class 0, 0:1:c2xz. */
  lemma OnTheWire(reg: Registry, r: Text)
    requires Ack in reg.ids && reg.ids[Ack] == 7 && ExecCommandRequest in reg.ids && reg.ids[ExecCommandRequest] == 0
    ensures Serialize(reg, Msg(Ack, 5, NoArg), r) == Some([55, 58, 53, 58])
    ensures Serialize(reg, Msg(ExecCommandRequest, 1, Str([108, 115])), r) == Some([48, 58, 49, 58, 99, 50, 120, 122])
  {
    hide Encode64, EncodeText;
    Shown(7);
    Shown(5);
    Shown(0);
    Shown(1);
    EncodedText();
    assert [55] + [COLON] + [53] + [COLON] + [] == [55, 58, 53, 58];
    assert [48] + [COLON] + [49] + [COLON] + [99, 50, 120, 122] == [48, 58, 49, 58, 99, 50, 120, 122];
    assert Serialize(reg, Msg(Ack, 5, NoArg), r) == Some([55] + [COLON] + [53] + [COLON] + []);
    assert TextArg([108, 115]) == [99, 50, 120, 122];
    assert Serialize(reg, Msg(ExecCommandRequest, 1, Str([108, 115])), r) ==
           Some([48] + [COLON] + [49] + [COLON] + [99, 50, 120, 122]);
  }

  lemma Shown(d: nat)
    requires d < 10
    ensures Decimals.Str(d) == [48 + d]
  {
  }

  lemma EncodedText()
    ensures Encode64([TAG_STR] + EncodeText([108, 115])) == [99, 50, 120, 122]
  {
    var t: Text := [108, 115];
    assert t[1..] == [115] && [115][1..] == [];
    assert EncodeText(t) == [108] + ([115] + []);
    var s: seq<Byte> := [115, 108, 115];
    assert [TAG_STR] + EncodeText(t) == s;
    assert s[3..] == [];
    assert Encode64(s) == [99, 50, 120, 122] + Encode64(s[3..]);
  }
}
