/**
 * The message envelope of src/core/protocol.py: the closed set of message
 * types, the four-field `Message` record and its codec, JSON text
 * (`to_json`/`from_json`) carried as UTF-8 bytes (`to_bytes`/`from_bytes`).
 *
 * The record does not check its field types, so `from_json` accepts any JSON
 * value for `sender_name`, `sender_ip` and `payload`: those fields are `Json`
 * here. A missing `payload` is Python's `None`, the JSON `null`.
 */
module Protocol {
  import opened Wrappers
  import opened Json
  import Utf8

  const UdpPort := 5000
  const TcpPort := 5001
  const BufferSize := 4096
  /** DISCOVERY_INTERVAL (2.0 seconds), in milliseconds. */
  const DiscoveryIntervalMs := 2000

  datatype MessageType = Discovery | Text | FileOffer | FileAccept | FileReject | FileData | FileEnd

  const AllTypes: seq<MessageType> := [Discovery, Text, FileOffer, FileAccept, FileReject, FileData, FileEnd]

  /** The enum member's string value, which is its member name. */
  function TypeValue(t: MessageType): string {
    match t
    case Discovery => "DISCOVERY"
    case Text => "TEXT"
    case FileOffer => "FILE_OFFER"
    case FileAccept => "FILE_ACCEPT"
    case FileReject => "FILE_REJECT"
    case FileData => "FILE_DATA"
    case FileEnd => "FILE_END"
  }

  /** `MessageType(s)`: the member whose value is `s`, or the ValueError. */
  function TypeOf(s: string): (r: Option<MessageType>)
    ensures r.Some? ==> TypeValue(r.value) == s
    ensures r.None? ==> forall t :: TypeValue(t) != s
  {
    if s == "DISCOVERY" then Some(Discovery)
    else if s == "TEXT" then Some(Text)
    else if s == "FILE_OFFER" then Some(FileOffer)
    else if s == "FILE_ACCEPT" then Some(FileAccept)
    else if s == "FILE_REJECT" then Some(FileReject)
    else if s == "FILE_DATA" then Some(FileData)
    else if s == "FILE_END" then Some(FileEnd)
    else None
  }

  /** The enum has exactly seven members, with seven distinct values. */
  lemma SevenTypes()
    ensures |AllTypes| == 7
    ensures forall t :: t in AllTypes
    ensures forall i, j :: 0 <= i < j < |AllTypes| ==> TypeValue(AllTypes[i]) != TypeValue(AllTypes[j])
  {
    forall t ensures t in AllTypes {
      match t
      case Discovery => assert AllTypes[0] == t;
      case Text => assert AllTypes[1] == t;
      case FileOffer => assert AllTypes[2] == t;
      case FileAccept => assert AllTypes[3] == t;
      case FileReject => assert AllTypes[4] == t;
      case FileData => assert AllTypes[5] == t;
      case FileEnd => assert AllTypes[6] == t;
    }
  }

  lemma TypeOfValue(t: MessageType, s: string)
    ensures TypeOf(s) == Some(t) <==> TypeValue(t) == s
  {
  }

  datatype Message = Message(msgType: MessageType, senderName: Json, senderIp: Json, payload: Json)

  /** The values in the message are ones a Python program can hold (no object repeats a key). */
  predicate WellFormedMessage(m: Message) {
    WellFormed(m.senderName) && WellFormed(m.senderIp) && WellFormed(m.payload)
  }

  const EnvelopeKeys: set<string> := {"type", "sender_name", "sender_ip", "payload"}

  /** `asdict(self)` with the type replaced by its string value. */
  function ToValue(m: Message): Json {
    Obj([Member("type", Str(TypeValue(m.msgType))),
         Member("sender_name", m.senderName),
         Member("sender_ip", m.senderIp),
         Member("payload", m.payload)])
  }

  /** `to_json`: an object text, ASCII only since `json.dumps` escapes the rest. */
  function ToJson(m: Message): (r: string)
    ensures r != [] && r[0] == '{'
    ensures Ascii(r)
  {
    SerializeAscii(ToValue(m));
    Serialize(ToValue(m))
  }

  /** `to_bytes`: octets that decode as UTF-8 to the `to_json` text, one octet per character. */
  function ToBytes(m: Message): (r: seq<Utf8.byte>)
    ensures Utf8.Decode(r) == Some(ToJson(m))
    ensures |r| == |ToJson(m)|
  {
    Utf8.DecodeEncode(ToJson(m));
    Utf8.EncodeAscii(ToJson(m));
    Utf8.Encode(ToJson(m))
  }

  datatype DecodeError =
    | InvalidUtf8
    | InvalidJson
    | NotAnObject
    | MissingType
    | UnknownType
    | UnexpectedField(key: string)
    | MissingField(key: string)

  /** The first key that is not one of the record's four fields. */
  function UnexpectedKey(fields: seq<Member>): (r: Option<string>)
    ensures r.None? <==> forall i :: 0 <= i < |fields| ==> fields[i].key in EnvelopeKeys
    ensures r.Some? ==> r.value !in EnvelopeKeys && HasKey(fields, r.value)
  {
    if fields == [] then None
    else if fields[0].key !in EnvelopeKeys then Some(fields[0].key)
    else
      var r := UnexpectedKey(fields[1..]);
      assert forall i :: 0 <= i < |fields[1..]| ==> fields[1..][i] == fields[i + 1];
      assert r.Some? ==> fields[1..][0].key == fields[1].key;
      assert r.Some? ==> HasKey(fields, r.value) by {
        if r.Some? {
          var i :| 0 <= i < |fields[1..]| && fields[1..][i].key == r.value;
          assert fields[i + 1].key == r.value;
        }
      }
      r
  }

  /** The decoded dict holds a recognised type value, both sender fields and no other key. */
  predicate Acceptable(fields: seq<Member>) {
    && Lookup(fields, "type").Some?
    && Lookup(fields, "type").value.Str?
    && TypeOf(Lookup(fields, "type").value.s).Some?
    && (forall i :: 0 <= i < |fields| ==> fields[i].key in EnvelopeKeys)
    && HasKey(fields, "sender_name")
    && HasKey(fields, "sender_ip")
  }

  /**
   * `data['type'] = MessageType(data['type'])` then `Message(**data)`: the
   * type key is read first (KeyError when absent, ValueError when not a
   * member value), then the keyword call rejects unknown keys before it
   * reports a missing one; `payload` defaults to `None`.
   */
  function FromValue(v: Json): (r: Result<Message, DecodeError>)
    ensures r.Ok? <==> v.Obj? && Acceptable(v.fields)
    ensures r.Ok? ==>
      && Lookup(v.fields, "type") == Some(Str(TypeValue(r.value.msgType)))
      && Lookup(v.fields, "sender_name") == Some(r.value.senderName)
      && Lookup(v.fields, "sender_ip") == Some(r.value.senderIp)
      && r.value.payload == (if HasKey(v.fields, "payload") then Lookup(v.fields, "payload").value else Null)
    ensures v.Obj? && Lookup(v.fields, "type").None? ==> r == Err(MissingType)
  {
    if !v.Obj? then Err(NotAnObject)
    else
      match Lookup(v.fields, "type")
      case None => Err(MissingType)
      case Some(t) =>
        if !t.Str? || TypeOf(t.s).None? then Err(UnknownType)
        else
          match UnexpectedKey(v.fields)
          case Some(k) => Err(UnexpectedField(k))
          case None =>
            match (Lookup(v.fields, "sender_name"), Lookup(v.fields, "sender_ip"))
            case (None, _) => Err(MissingField("sender_name"))
            case (_, None) => Err(MissingField("sender_ip"))
            case (Some(name), Some(ip)) =>
              var payload := match Lookup(v.fields, "payload") case Some(p) => p case None => Null;
              Ok(Message(TypeOf(t.s).value, name, ip, payload))
  }

  /** The value found under a key of a well-formed object is well formed. */
  lemma LookupWellFormed(fields: seq<Member>, k: string)
    ensures (forall i :: 0 <= i < |fields| ==> WellFormed(fields[i].value)) && Lookup(fields, k).Some? ==>
      WellFormed(Lookup(fields, k).value)
  {
    if Lookup(fields, k).Some? {
      var i :| 0 <= i < |fields| && fields[i] == Member(k, Lookup(fields, k).value);
    }
  }

  /** A message taken from a well-formed object holds well-formed values. */
  lemma FromValueWellFormed(v: Json)
    requires WellFormed(v)
    ensures FromValue(v).Ok? ==> WellFormedMessage(FromValue(v).value)
  {
    if v.Obj? {
      LookupWellFormed(v.fields, "sender_name");
      LookupWellFormed(v.fields, "sender_ip");
      LookupWellFormed(v.fields, "payload");
    }
  }

  /** `from_json`: text that `json.loads` rejects fails as `InvalidJson`; a parsed value is checked by `FromValue`. */
  function FromJson(text: string): (r: Result<Message, DecodeError>)
    ensures Parse(text).None? ==> r == Err(InvalidJson)
  {
    match Parse(text)
    case None => Err(InvalidJson)
    case Some(v) => FromValue(v)
  }

  /** `from_bytes`: octets the strict UTF-8 decoder rejects fail as `InvalidUtf8`; decoded text goes to `FromJson`. */
  function FromBytes(bs: seq<Utf8.byte>): (r: Result<Message, DecodeError>)
    ensures Utf8.Decode(bs).None? ==> r == Err(InvalidUtf8)
  {
    match Utf8.Decode(bs)
    case None => Err(InvalidUtf8)
    case Some(text) => FromJson(text)
  }

  /** Every message `from_bytes` returns holds well-formed values, so it can be encoded and sent again. */
  lemma FromBytesWellFormed(bs: seq<Utf8.byte>)
    ensures FromBytes(bs).Ok? ==> WellFormedMessage(FromBytes(bs).value)
  {
    match Utf8.Decode(bs)
    case None =>
    case Some(text) =>
      ParseWellFormed(text);
      match Parse(text)
      case None =>
      case Some(v) => FromValueWellFormed(v);
  }

  /** The encoder writes the four keys in declaration order, the type as its string value. */
  lemma ToJsonShape(m: Message)
    requires WellFormedMessage(m)
    ensures Parse(ToJson(m)) == Some(Obj([Member("type", Str(TypeValue(m.msgType))),
                                          Member("sender_name", m.senderName),
                                          Member("sender_ip", m.senderIp),
                                          Member("payload", m.payload)]))
  {
    var fields := ToValue(m).fields;
    assert WellFormed(ToValue(m)) by {
      assert forall i :: 0 <= i < |fields| ==> WellFormed(fields[i].value);
    }
    ParseSerialize(ToValue(m));
  }

  /** Each of the four keys finds its own member in the encoder's object, and no key is unexpected. */
  lemma EnvelopeLookups(m: Message)
    ensures var fields := ToValue(m).fields;
      && Lookup(fields, "type") == Some(Str(TypeValue(m.msgType)))
      && Lookup(fields, "sender_name") == Some(m.senderName)
      && Lookup(fields, "sender_ip") == Some(m.senderIp)
      && Lookup(fields, "payload") == Some(m.payload)
      && UnexpectedKey(fields) == None
  {
    var fields := ToValue(m).fields;
    assert fields[1..][1..] == fields[2..] && fields[2..][1..] == fields[3..];
    assert Lookup(fields[3..], "payload") == Some(m.payload);
    assert Lookup(fields[2..], "sender_ip") == Some(m.senderIp);
    assert Lookup(fields[2..], "payload") == Some(m.payload);
    assert Lookup(fields[1..], "payload") == Some(m.payload);
    EnvelopeKeysOnly(m);
  }

  lemma EnvelopeKeysOnly(m: Message)
    ensures UnexpectedKey(ToValue(m).fields) == None
  {
    var fields := ToValue(m).fields;
    assert forall i :: 0 <= i < |fields| ==> fields[i].key in EnvelopeKeys;
  }

  /** The object the encoder writes reads back as the message it came from. */
  lemma FromValueOfShape(m: Message)
    ensures FromValue(Obj([Member("type", Str(TypeValue(m.msgType))),
                           Member("sender_name", m.senderName),
                           Member("sender_ip", m.senderIp),
                           Member("payload", m.payload)])) == Ok(m)
  {
    EnvelopeLookups(m);
    TypeOfValue(m.msgType, TypeValue(m.msgType));
  }

  lemma FromJsonToJson(m: Message)
    requires WellFormedMessage(m)
    ensures FromJson(ToJson(m)) == Ok(m)
  {
    ToJsonShape(m);
    FromValueOfShape(m);
  }

  /** `from_bytes(to_bytes(m)) == m`. */
  lemma FromBytesToBytes(m: Message)
    requires WellFormedMessage(m)
    ensures FromBytes(ToBytes(m)) == Ok(m)
  {
    Utf8.DecodeEncode(ToJson(m));
    FromJsonToJson(m);
  }

  /** `to_bytes` is the UTF-8 encoding of `to_json` and nothing else: its bytes decode to that text and no other bytes do. */
  lemma ToBytesIsUtf8(m: Message, bs: seq<Utf8.byte>)
    ensures Utf8.Decode(ToBytes(m)) == Some(ToJson(m))
    ensures Utf8.Decode(bs) == Some(ToJson(m)) ==> bs == ToBytes(m)
  {
    Utf8.DecodeIffEncode(ToBytes(m), ToJson(m));
    Utf8.DecodeIffEncode(bs, ToJson(m));
  }

  /**
   * `json.dumps` escapes every non-ASCII character, so the bytes of
   * `to_bytes` are the characters of `to_json` one for one, all below 0x80.
   */
  lemma ToBytesAscii(m: Message)
    ensures |ToBytes(m)| == |ToJson(m)|
    ensures forall i :: 0 <= i < |ToJson(m)| ==> ToBytes(m)[i] == ToJson(m)[i] as int < 0x80
  {
    SerializeAscii(ToValue(m));
    Utf8.EncodeAscii(ToJson(m));
  }

  /**
   * What `from_bytes` accepts: UTF-8 text of a JSON object whose type value
   * names a member, that has both sender fields and no key outside the four.
   */
  lemma FromBytesAccepts(bs: seq<Utf8.byte>)
    ensures FromBytes(bs).Ok? <==>
      && Utf8.Decode(bs).Some?
      && Parse(Utf8.Decode(bs).value).Some?
      && Parse(Utf8.Decode(bs).value).value.Obj?
      && Acceptable(Parse(Utf8.Decode(bs).value).value.fields)
    ensures Utf8.Decode(bs).None? ==> FromBytes(bs) == Err(InvalidUtf8)
  {
  }
}
