/** Messages, method calls and response envelopes of the standard codecs. */
module MethodCodec {
  import opened Bytes
  import opened ByteStreams
  import opened StandardCodec
  import opened CodecRoundTrip
  import opened CodecEnd
  import opened CodecWeight

  datatype MethodCall = MethodCall(name: seq<byte>, arguments: Option<Value>)

  /** What a response envelope makes the codec do: answer the result object, give up on the flag,
      or let the bad_variant_access of std::get escape. */
  datatype Response =
    | Success(value: Value)
    | Error(code: seq<byte>, message: seq<byte>, details: Value)
    | Unhandled
    | BadVariantAccess

  function OrNull(v: Option<Value>): Value {
    if v.Some? then v.value else Null
  }

  function MessageValue(message: seq<byte>): Value {
    if message == [] then Null else Str(message)
  }

  /** Values written one after the other from offset pos. */
  function MethodCallBytes(call: MethodCall): seq<byte> {
    EncodeItems([Str(call.name), OrNull(call.arguments)], 0)
  }

  function SuccessBytes(result: Option<Value>): seq<byte> {
    [0] + Encode(OrNull(result), 1)
  }

  function ErrorBytes(code: seq<byte>, message: seq<byte>, details: Option<Value>): seq<byte> {
    [1] + EncodeItems([Str(code), MessageValue(message), OrNull(details)], 1)
  }

  function MethodCallIn(buf: seq<byte>): Option<MethodCall> {
    var name := Decode(buf, 0);
    if !name.value.Str? then None
    else Some(MethodCall(name.value.chars, Some(Decode(buf, name.next).value)))
  }

  function ResponseIn(buf: seq<byte>): Response {
    var flag := ByteAt(buf, 0);
    if flag.value == 0 then Success(Decode(buf, flag.next).value)
    else if flag.value == 1 then
      var code := Decode(buf, flag.next);
      var message := Decode(buf, code.next);
      var details := Decode(buf, message.next);
      if !code.value.Str? || !(message.value.Null? || message.value.Str?) then BadVariantAccess
      else Error(code.value.chars, if message.value.Null? then [] else message.value.chars, details.value)
    else Unhandled
  }

  class StandardMethodCodec {
    const serializer: StandardCodecSerializer

    constructor (serializer: StandardCodecSerializer)
    {
      this.serializer := serializer;
    }

    method EncodeMessage(message: Value) returns (encoded: seq<byte>)
      ensures encoded == Encode(message, 0)
    {
      var stream := new ByteBufferStreamWriter();
      serializer.WriteValue(message, stream);
      encoded := stream.bytes;
    }

    method DecodeMessage(message: Option<seq<byte>>) returns (v: Value)
      ensures v == if message.Some? then Decode(message.value, 0).value else Null
    {
      if message.None? {
        return Null;
      }
      var stream := new ByteBufferStreamReader(message.value);
      v := serializer.ReadValue(stream);
    }

    method EncodeMethodCall(call: MethodCall) returns (encoded: seq<byte>)
      ensures encoded == MethodCallBytes(call)
    {
      hide Encode;
      var stream := new ByteBufferStreamWriter();
      serializer.WriteValue(Str(call.name), stream);
      if call.arguments.Some? {
        serializer.WriteValue(call.arguments.value, stream);
      } else {
        serializer.WriteValue(Null, stream);
      }
      encoded := stream.bytes;
      TwoItems(Str(call.name), OrNull(call.arguments), 0);
    }

    method DecodeMethodCall(message: seq<byte>) returns (call: Option<MethodCall>)
      ensures call == MethodCallIn(message)
    {
      hide Decode;
      var stream := new ByteBufferStreamReader(message);
      var name := serializer.ReadValue(stream);
      if !name.Str? {
        return None;
      }
      var arguments := serializer.ReadValue(stream);
      call := Some(MethodCall(name.chars, Some(arguments)));
    }

    method EncodeSuccessEnvelope(result: Option<Value>) returns (encoded: seq<byte>)
      ensures encoded == SuccessBytes(result)
    {
      var stream := new ByteBufferStreamWriter();
      stream.WriteByte(0);
      if result.Some? {
        serializer.WriteValue(result.value, stream);
      } else {
        serializer.WriteValue(Null, stream);
      }
      encoded := stream.bytes;
    }

    method EncodeErrorEnvelope(code: seq<byte>, message: seq<byte>, details: Option<Value>) returns (encoded: seq<byte>)
      ensures encoded == ErrorBytes(code, message, details)
    {
      hide Encode;
      var stream := new ByteBufferStreamWriter();
      stream.WriteByte(1);
      serializer.WriteValue(Str(code), stream);
      if message == [] {
        serializer.WriteValue(Null, stream);
      } else {
        serializer.WriteValue(Str(message), stream);
      }
      if details.Some? {
        serializer.WriteValue(details.value, stream);
      } else {
        serializer.WriteValue(Null, stream);
      }
      encoded := stream.bytes;
      ThreeItems(Str(code), MessageValue(message), OrNull(details), 1);
    }

    method DecodeAndProcessResponseEnvelope(response: seq<byte>) returns (r: Response)
      ensures r == ResponseIn(response)
    {
      hide Decode;
      var stream := new ByteBufferStreamReader(response);
      var flag := stream.ReadByte();
      match flag {
        case 0 =>
          var value := serializer.ReadValue(stream);
          return Success(value);
        case 1 =>
          var code := serializer.ReadValue(stream);
          var message := serializer.ReadValue(stream);
          var details := serializer.ReadValue(stream);
          if !message.Null? && !message.Str? {
            return BadVariantAccess;
          }
          var text := if message.Null? then [] else message.chars;
          if !code.Str? {
            return BadVariantAccess;
          }
          return Error(code.chars, text, details);
        case _ => return Unhandled;
      }
    }
  }

  lemma TwoItems(a: Value, b: Value, pos: nat)
    ensures EncodeItems([a, b], pos) == Encode(a, pos) + Encode(b, pos + |Encode(a, pos)|)
  {
    hide Encode;
    assert [a, b][1..] == [b] && [b][1..] == [];
    assert EncodeItems([b], pos + |Encode(a, pos)|) == Encode(b, pos + |Encode(a, pos)|) + [];
  }

  lemma ThreeItems(a: Value, b: Value, c: Value, pos: nat)
    ensures var bAt := pos + |Encode(a, pos)|;
            var cAt := bAt + |Encode(b, bAt)|;
            EncodeItems([a, b, c], pos) == Encode(a, pos) + Encode(b, bAt) + Encode(c, cAt)
  {
    hide Encode;
    var bAt := pos + |Encode(a, pos)|;
    assert [a, b, c][1..] == [b, c];
    TwoItems(b, c, bAt);
    Assoc(Encode(a, pos), Encode(b, bAt), Encode(c, bAt + |Encode(b, bAt)|));
  }

  lemma TwoDecoded(buf: seq<byte>, pos: nat)
    ensures var a := Decode(buf, pos);
            DecodeItems(buf, pos, 2).value == [a.value, Decode(buf, a.next).value]
  {
    hide Decode;
    OneItem(buf, Decode(buf, pos).next);
  }

  lemma ThreeDecoded(buf: seq<byte>, pos: nat)
    ensures var a := Decode(buf, pos);
            var b := Decode(buf, a.next);
            DecodeItems(buf, pos, 3).value == [a.value, b.value, Decode(buf, b.next).value]
  {
    hide Decode;
    TwoDecoded(buf, Decode(buf, pos).next);
  }

  /** A message comes back exactly if it is good as the last value. */
  lemma MessageRoundTrip(message: Value)
    ensures LastGood(message, 0) ==> Decode(Encode(message, 0), 0).value == message
    ensures ShortMaps(message) && Decode(Encode(message, 0), 0).value == message ==> LastGood(message, 0)
  {
    hide Encode, Decode, LastGood, ShortMaps;
    LastExactly([], message);
    assert [] + Encode(message, 0) == Encode(message, 0);
  }

  lemma TextGood(text: seq<byte>, pos: nat)
    ensures Good(Str(text), pos) <==> |text| < SIZE_LIMIT
    ensures LastGood(Str(text), pos) <==> |text| < SIZE_LIMIT
  {
  }

  /** A text and what is written behind it are good as last values exactly if the text has a size below 2^32 and the
      rest is good as last values. */
  lemma TextThen(text: seq<byte>, rest: seq<Value>, pos: nat)
    ensures LastGoodItems([Str(text)] + rest, pos) <==>
              |text| < SIZE_LIMIT && LastGoodItems(rest, pos + |Encode(Str(text), pos)|)
  {
    hide Encode, LastGoodItems, Good, LastGood;
    TextGood(text, pos);
    if |text| < SIZE_LIMIT {
      GoodThen(Str(text), rest, pos);
    } else {
      FirstGood([Str(text)] + rest, pos);
    }
  }

  lemma FirstGood(items: seq<Value>, pos: nat)
    requires items != []
    ensures LastGoodItems(items, pos) ==> LastGood(items[0], pos)
  {
    GoodLast(items[0], pos);
  }

  /** A decoded method call is the encoded one, with an absent argument read as null. */
  lemma MethodCallRoundTrip(call: MethodCall)
    ensures var back := MethodCallIn(MethodCallBytes(call)) == Some(call.(arguments := Some(OrNull(call.arguments))));
            var good := |call.name| < SIZE_LIMIT && LastGood(OrNull(call.arguments), |Encode(Str(call.name), 0)|);
            (good ==> back) && (ShortMaps(OrNull(call.arguments)) && back ==> good)
  {
    hide Encode, Decode, LastGood, LastGoodItems, EncodeItems, DecodeItems;
    var arguments := OrNull(call.arguments);
    var items := [Str(call.name), arguments];
    var buf := MethodCallBytes(call);
    LastItemsExactly([], items);
    assert [] + buf == buf;
    assert items == [Str(call.name)] + [arguments];
    TextThen(call.name, [arguments], 0);
    Single(arguments, |Encode(Str(call.name), 0)|);
    TwoDecoded(buf, 0);
    ShortTwo(Str(call.name), arguments);
  }

  lemma ShortTwo(a: Value, b: Value)
    ensures ShortItems([a, b]) <==> ShortMaps(a) && ShortMaps(b)
  {
    hide ShortMaps;
    assert [a, b][1..] == [b];
    Single(b, 0);
  }

  /** Absent and null results coincide. */
  lemma SuccessRoundTrip(result: Option<Value>)
    ensures var back := ResponseIn(SuccessBytes(result)) == Success(OrNull(result));
            && (LastGood(OrNull(result), 1) ==> back)
            && (ShortMaps(OrNull(result)) && back ==> LastGood(OrNull(result), 1))
  {
    hide Encode, Decode, LastGood, ShortMaps;
    LastExactly([0], OrNull(result));
    assert SuccessBytes(result)[0] == 0;
  }

  /** Which parts of an error come back: the texts with sizes below 2^32, and the details if they are good as the last
      value. */
  ghost predicate ErrorGood(code: seq<byte>, message: seq<byte>, details: Value) {
    var messageAt := 1 + |Encode(Str(code), 1)|;
    && |code| < SIZE_LIMIT && |message| < SIZE_LIMIT
    && LastGood(details, messageAt + |Encode(MessageValue(message), messageAt)|)
  }

  lemma ErrorItems(code: seq<byte>, message: seq<byte>, details: Value)
    ensures LastGoodItems([Str(code), MessageValue(message), details], 1) <==> ErrorGood(code, message, details)
    ensures ShortItems([Str(code), MessageValue(message), details]) <==> ShortMaps(details)
  {
    hide Encode, LastGood, LastGoodItems;
    var middle := MessageValue(message);
    var messageAt := 1 + |Encode(Str(code), 1)|;
    assert [Str(code), middle, details] == [Str(code)] + [middle, details] && [middle, details] == [middle] + [details];
    assert [Str(code), middle, details][1..] == [middle, details];
    TextThen(code, [middle, details], 1);
    ShortTwo(middle, details);
    Single(details, messageAt + |Encode(middle, messageAt)|);
    if message == [] {
      GoodThen(Null, [details], messageAt);
    } else {
      TextThen(message, [details], messageAt);
    }
  }

  /** The message is read exactly where it was written, so an empty one is read as null. */
  lemma EmptyMessageRead(buf: seq<byte>, code: seq<byte>, details: Value)
    requires At(buf, 1, EncodeItems([Str(code), Null, details], 1)) && Decode(buf, 1).value == Str(code)
    ensures Decode(buf, Decode(buf, 1).next).value == Null
  {
    hide At, Encode, Decode;
    ReadFits(buf, 1);
    TextGood(code, 1);
    var next := 1 + |Encode(Str(code), 1)|;
    var rest := EncodeItems([Null, details], next);
    assert [Str(code), Null, details][1..] == [Null, details];
    AtSplit(buf, 1, Encode(Str(code), 1), rest);
    RoundTrip(buf, 1, Str(code));
    AtSplit(buf, next, Encode(Null, next), EncodeItems([Null, details][1..], next + |Encode(Null, next)|));
    RoundTrip(buf, next, Null);
  }

  /** The parts come back exactly if the three values do. */
  lemma ErrorTexts(code: seq<byte>, message: seq<byte>, details: Option<Value>)
    ensures var buf := ErrorBytes(code, message, details);
            var items := [Str(code), MessageValue(message), OrNull(details)];
            ResponseIn(buf) == Error(code, message, OrNull(details)) <==> DecodeItems(buf, 1, 3).value == items
  {
    hide Encode, Decode, EncodeItems, DecodeItems;
    var items := [Str(code), MessageValue(message), OrNull(details)];
    var buf := ErrorBytes(code, message, details);
    ThreeDecoded(buf, 1);
    var a := Decode(buf, 1);
    var b := Decode(buf, a.next);
    assert buf[0] == 1;
    if a.value == Str(code) && message == [] {
      assert At(buf, 1, EncodeItems(items, 1)) by { assert buf[1..] == EncodeItems(items, 1); }
      EmptyMessageRead(buf, code, OrNull(details));
    }
  }

  /** An empty message and a null one coincide, and so do absent and null details. */
  lemma ErrorRoundTrip(code: seq<byte>, message: seq<byte>, details: Option<Value>)
    ensures var back := ResponseIn(ErrorBytes(code, message, details)) == Error(code, message, OrNull(details));
            && (ErrorGood(code, message, OrNull(details)) ==> back)
            && (ShortMaps(OrNull(details)) && back ==> ErrorGood(code, message, OrNull(details)))
  {
    hide Encode, Decode, LastGood, LastGoodItems, EncodeItems, DecodeItems, ErrorGood, ShortMaps, ShortItems;
    var items := [Str(code), MessageValue(message), OrNull(details)];
    var buf := ErrorBytes(code, message, details);
    LastItemsExactly([1], items);
    assert buf[0] == 1 && buf == [1] + EncodeItems(items, 1);
    ErrorItems(code, message, OrNull(details));
    ErrorTexts(code, message, details);
  }

  /** A result need not be good to come back: an empty list of wide elements is not good right behind the flag byte,
      but only nulls follow it. */
  lemma TrailingEmptyList(kind: Kind)
    ensures var empty := Vector(kind, []);
            && ResponseIn(SuccessBytes(Some(empty))) == Success(empty)
            && ResponseIn(SuccessBytes(Some(List([Null, empty, Null])))) == Success(List([Null, empty, Null]))
            && (kind.Width() > 1 ==> !Good(empty, 1) && !Good(List([Null, empty, Null]), 1))
  {
    hide Decode;
    var empty := Vector(kind, []);
    var items := [Null, empty, Null];
    SuccessRoundTrip(Some(empty));
    SuccessRoundTrip(Some(List(items)));
    assert items[1..] == [empty, Null] && [empty, Null][1..] == [Null] && |Encode(Null, 3)| == 1;
    assert LastGoodItems([empty, Null], 4) && [Null] + [empty, Null] == items;
    GoodThen(Null, [empty, Null], 3);
    assert LastGood(List(items), 1);
    assert kind.Width() > 1 ==> !GoodItems([empty, Null], 4);
  }

  /** Whatever was put in it, an envelope is never taken for one of the other kind. */
  lemma EnvelopesNeverConfused(result: Option<Value>, code: seq<byte>, message: seq<byte>, details: Option<Value>)
    ensures ResponseIn(SuccessBytes(result)).Success?
    ensures ResponseIn(ErrorBytes(code, message, details)).Error?
         || ResponseIn(ErrorBytes(code, message, details)).BadVariantAccess?
  {
    assert SuccessBytes(result)[0] == 0;
    assert ErrorBytes(code, message, details)[0] == 1;
  }
}
