/**
 Reassembly of inbound MQTT messages, `tls_mqtt_client.c`, and the light control behind it.

 lwIP announces a message with its topic and total length, then delivers the payload in
 fragments.  The two callbacks share one buffer per topic; a message that was cut off leaves
 its bytes there until the next message on that topic.
 */
module MqttInbound {
  import opened Bytes

  const TOPICS := 2
  const WATER := 0
  const LIGHT := 1
  const BUFFER := 128

  const WATER_TOPIC := "PicoWClient1/control/water"
  const LIGHT_TOPIC := "PicoWClient1/control/light"
  const TOPIC_NAMES := [WATER_TOPIC, LIGHT_TOPIC]

  datatype Status = Ok | Undefined | ExceededLength | OtherError

  /** What one topic has received: the text in its buffer and the bytes still to come. */
  datatype Session = Session(text: seq<byte>, dataIn: nat)

  /** A run of the command handler: the topic number and the data it was passed. */
  datatype Call = Call(topic: nat, data: seq<byte>)

  datatype State = State(err: Status, current: nat, water: Session, light: Session, calls: seq<Call>)

  function SessionOf(s: State, topic: nat): Session
  {
    if topic == WATER then s.water else s.light
  }

  function WithSession(s: State, topic: nat, x: Session): State
  {
    if topic == WATER then State(s.err, s.current, x, s.light, s.calls)
    else State(s.err, s.current, s.water, x, s.calls)
  }

  function TopicNumber(name: string): (n: nat)
    ensures n <= TOPICS
  {
    if name == WATER_TOPIC then WATER else if name == LIGHT_TOPIC then LIGHT else TOPICS
  }

  /** The state after the announcement of a message. */
  function AfterPublish(s: State, name: string, total: nat): State
  {
    var n := TopicNumber(name);
    if n == TOPICS then State(Undefined, TOPICS, s.water, s.light, s.calls)
    else if total > BUFFER - 1 then
      WithSession(State(ExceededLength, n, s.water, s.light, s.calls), n, Session([], 0))
    else
      WithSession(State(Ok, n, s.water, s.light, s.calls), n, Session([], total))
  }

  /** lwIP announces a message before it delivers, and never more than the announced length. */
  predicate Deliverable(s: State, data: seq<byte>)
  {
    s.err == Ok ==>
      && s.current < TOPICS
      && (SessionOf(s, s.current).dataIn > 0 ==> |data| <= SessionOf(s, s.current).dataIn)
  }

  /** The state after one fragment. */
  function AfterData(s: State, data: seq<byte>, last: bool): State
    requires Deliverable(s, data)
  {
    if s.err != Ok || SessionOf(s, s.current).dataIn == 0 then s else
      var x := SessionOf(s, s.current);
      var text, rest := x.text + data, x.dataIn - |data|;
      if rest > 0 then WithSession(s, s.current, Session(text, rest))
      else
        var calls := if last then s.calls + [Call(s.current, text)] else s.calls;
        WithSession(State(s.err, s.current, s.water, s.light, calls), s.current, Session([], 0))
  }

  // ----- the callbacks -----

  class TopicState {
    const buffer: array<byte>
    var length: nat
    var dataIn: nat

    ghost predicate Valid()
      reads this
    {
      buffer.Length == BUFFER && length + dataIn < BUFFER
    }

    ghost function View(): Session
      requires Valid()
      reads this, buffer
    {
      Session(buffer[..length], dataIn)
    }

    constructor ()
      ensures Valid() && View() == Session([], 0) && fresh(buffer)
    {
      buffer := new byte[BUFFER](_ => 0);
      length, dataIn := 0, 0;
    }

    method Restart(total: nat)
      requires Valid() && total < BUFFER
      modifies this
      ensures Valid() && View() == Session([], total)
    {
      length := 0;
      dataIn := total;
    }

    /** The copy of a fragment behind the text received so far, and the terminator behind it. */
    method Append(data: seq<byte>)
      requires Valid() && |data| <= dataIn
      modifies this, buffer
      ensures Valid() && View() == Session(old(View()).text + data, old(dataIn) - |data|)
    {
      dataIn := dataIn - |data|;
      forall i | 0 <= i < |data| {
        buffer[length + i] := data[i];
      }
      length := length + |data|;
      buffer[length] := 0;
    }

    method Clear()
      requires Valid() && dataIn == 0
      modifies this, buffer
      ensures Valid() && View() == Session([], 0)
    {
      length := 0;
      buffer[0] := 0;
    }
  }

  class Client {
    const water: TopicState
    const light: TopicState
    var errState: Status
    var topicIncomData: nat
    var calls: seq<Call>

    ghost predicate Valid()
      reads this, water, light
    {
      water != light && water.buffer != light.buffer && water.Valid() && light.Valid()
    }

    ghost function View(): State
      requires Valid()
      reads this, water, light, water.buffer, light.buffer
    {
      State(errState, topicIncomData, water.View(), light.View(), calls)
    }

    constructor ()
      ensures Valid() && View() == State(Ok, TOPICS, Session([], 0), Session([], 0), [])
    {
      water := new TopicState();
      light := new TopicState();
      errState, topicIncomData, calls := Ok, TOPICS, [];
    }

    /** The lookup of the announced topic among the subscribed ones. */
    method FindTopic(topic: string) returns (n: nat)
      ensures n == TopicNumber(topic)
      ensures if topic == "PicoWClient1/control/water" then n == 0
              else if topic == "PicoWClient1/control/light" then n == 1
              else n == 2
    {
      n := TOPICS;
      for i := 0 to TOPICS
        invariant n == TOPICS
        invariant forall k :: 0 <= k < i ==> TOPIC_NAMES[k] != topic
      {
        if TOPIC_NAMES[i] == topic {
          return i;
        }
      }
      assert TOPIC_NAMES[WATER] != topic && TOPIC_NAMES[LIGHT] != topic;
    }

    /** `tls_mqtt_incoming_publish_cb`. */
    method IncomingPublish(topic: string, totLen: nat)
      requires Valid()
      modifies this, water, light
      ensures Valid() && View() == AfterPublish(old(View()), topic, totLen)
    {
      topicIncomData := FindTopic(topic);
      if topicIncomData == TOPICS {
        errState := Undefined;
        return;
      }
      var session := if topicIncomData == WATER then water else light;
      if totLen > BUFFER - 1 {
        session.Restart(0);
        errState := ExceededLength;
      } else {
        session.Restart(totLen);
        errState := Ok;
      }
    }

    /** `tls_mqtt_incoming_data_cb`; the handler call is recorded in `calls`. */
    method IncomingData(data: seq<byte>, last: bool)
      requires Valid() && Deliverable(View(), data)
      modifies this, water, light, water.buffer, light.buffer
      ensures Valid() && View() == AfterData(old(View()), data, last)
    {
      if errState != Ok {
        return;
      }
      var session := if topicIncomData == WATER then water else light;
      if session.dataIn > 0 {
        session.Append(data);
        if session.dataIn == 0 {
          if last {
            calls := calls + [Call(topicIncomData, session.buffer[..session.length])];
          }
          session.Clear();
        }
      }
    }
  }

  // ----- whole messages -----

  /** A message as it arrives: the announcement and the fragments that came before it was cut off. */
  datatype Message = Message(topic: string, total: nat, fragments: seq<seq<byte>>, complete: bool)

  /** lwIP's promise: the fragments add up to the announced length, which a cut-off message may miss. */
  predicate WellFormed(m: Message)
  {
    && |Concat(m.fragments)| <= m.total
    && (m.complete ==> m.fragments != [] && |Concat(m.fragments)| == m.total)
  }

  ghost predicate DeliverableAll(s: State, fragments: seq<seq<byte>>)
  {
    s.err == Ok ==>
      && s.current < TOPICS
      && (SessionOf(s, s.current).dataIn > 0 ==> |Concat(fragments)| <= SessionOf(s, s.current).dataIn)
  }

  /** The fragments go in one by one; only the final one of a complete message carries the LAST flag. */
  function Deliver(s: State, fragments: seq<seq<byte>>, complete: bool): State
    requires DeliverableAll(s, fragments)
    decreases |fragments|
  {
    if fragments == [] then s else
      Deliver(AfterData(s, fragments[0], complete && |fragments| == 1), fragments[1..], complete)
  }

  /** Everything one message does to the client. */
  function Receive(s: State, m: Message): State
    requires WellFormed(m)
  {
    Deliver(AfterPublish(s, m.topic, m.total), m.fragments, m.complete)
  }

  /** The final fragment carries data, so that the LAST flag and the last byte arrive together. */
  predicate FinalFragmentFilled(fragments: seq<seq<byte>>)
  {
    fragments != [] && fragments[|fragments| - 1] != []
  }

  lemma {:induction false} FilledTail(fragments: seq<seq<byte>>)
    requires fragments != []
    ensures |fragments| == 1 ==> Concat(fragments) == fragments[0]
    ensures |fragments| > 1 ==> (FinalFragmentFilled(fragments) <==> FinalFragmentFilled(fragments[1..]))
    ensures FinalFragmentFilled(fragments) ==> Concat(fragments) != []
    decreases |fragments|
  {
    if |fragments| == 1 {
      assert Concat(fragments[1..]) == [];
    } else {
      FilledTail(fragments[1..]);
    }
  }

  lemma {:induction false} DeliverCalls(s: State, fragments: seq<seq<byte>>, complete: bool)
    requires DeliverableAll(s, fragments)
    ensures Deliver(s, fragments, complete).calls == s.calls +
      (if s.err == Ok && complete && FinalFragmentFilled(fragments)
          && 0 < |Concat(fragments)| == SessionOf(s, s.current).dataIn
       then [Call(s.current, SessionOf(s, s.current).text + Concat(fragments))] else [])
    decreases |fragments|
  {
    if fragments == [] {
    } else {
      var head, tail := fragments[0], fragments[1..];
      var last := complete && |fragments| == 1;
      var u := AfterData(s, head, last);
      assert Concat(fragments) == head + Concat(tail);
      DeliverCalls(u, tail, complete);
      if s.err == Ok {
        var text := SessionOf(s, s.current).text;
        assert text + (head + Concat(tail)) == (text + head) + Concat(tail);
        FilledTail(fragments);
        if tail != [] {
          FilledTail(tail);
        }
      }
      assert u.calls + [] == u.calls;
    }
  }

  lemma {:induction false} DeliverKeepsStatus(s: State, fragments: seq<seq<byte>>, complete: bool)
    requires DeliverableAll(s, fragments)
    ensures Deliver(s, fragments, complete).err == s.err
    decreases |fragments|
  {
    if fragments == [] {
    } else {
      assert Concat(fragments) == fragments[0] + Concat(fragments[1..]);
      DeliverKeepsStatus(AfterData(s, fragments[0], complete && |fragments| == 1), fragments[1..], complete);
    }
  }

  /** The status a message leaves behind: an unknown topic, more than 127 bytes, or success. */
  lemma StatusAfterMessage(s: State, m: Message)
    requires WellFormed(m)
    ensures Receive(s, m).err ==
      if m.topic != "PicoWClient1/control/water" && m.topic != "PicoWClient1/control/light" then Undefined
      else if m.total > 127 then ExceededLength else Ok
  {
    DeliverKeepsStatus(AfterPublish(s, m.topic, m.total), m.fragments, m.complete);
  }

  // ----- whole runs -----

  function ReceiveAll(s: State, messages: seq<Message>): State
    requires forall i :: 0 <= i < |messages| ==> WellFormed(messages[i])
    decreases |messages|
  {
    if messages == [] then s else ReceiveAll(Receive(s, messages[0]), messages[1..])
  }

  /** The messages the handler is to see: whole, not empty, at most 127 bytes, on a known topic. */
  predicate Handled(m: Message)
  {
    && m.complete && FinalFragmentFilled(m.fragments) && 1 <= m.total <= 127
    && (m.topic == "PicoWClient1/control/water" || m.topic == "PicoWClient1/control/light")
  }

  /** The call of the handler for a message: topic number 0 for the pump, 1 for the light. */
  function CallsFor(m: Message): seq<Call>
  {
    if !Handled(m) then []
    else if m.topic == "PicoWClient1/control/water" then [Call(0, Concat(m.fragments))]
    else [Call(1, Concat(m.fragments))]
  }

  function ExpectedCalls(messages: seq<Message>): seq<Call>
  {
    if messages == [] then [] else CallsFor(messages[0]) + ExpectedCalls(messages[1..])
  }

  /** One message leads to exactly the calls for it. */
  lemma ReceiveCalls(s: State, m: Message)
    requires WellFormed(m)
    ensures Receive(s, m).calls == s.calls + CallsFor(m)
  {
    DeliverCalls(AfterPublish(s, m.topic, m.total), m.fragments, m.complete);
    assert [] + Concat(m.fragments) == Concat(m.fragments);
  }

  lemma OnlyFirstCounts(x: seq<byte>)
    ensures Concat([x, []]) == x
  {
    var rest: seq<seq<byte>> := [[]];
    assert [x, []][1..] == rest && rest[1..] == [];
    assert Concat(rest) == [] + Concat([]) == [];
  }

  /** A complete message whose last fragment is empty reaches no handler. */
  lemma EmptyFinalFragmentIsLost(s: State)
    ensures var m := Message(LIGHT_TOPIC, 1, [[65], []], true);
            && WellFormed(m)
            && Receive(s, m).calls == s.calls
  {
    var m := Message(LIGHT_TOPIC, 1, [[65], []], true);
    OnlyFirstCounts([65]);
    ReceiveCalls(s, m);
  }

  /**
   For every sequence of messages, whole or cut off, and every fragmentation, the handler runs
   exactly once for each handled message, in order, with exactly its bytes.
   */
  lemma {:induction false} HandlerRunsOncePerMessage(s: State, messages: seq<Message>)
    requires forall i :: 0 <= i < |messages| ==> WellFormed(messages[i])
    ensures ReceiveAll(s, messages).calls == s.calls + ExpectedCalls(messages)
    decreases |messages|
  {
    if messages == [] {
      assert s.calls + [] == s.calls;
    } else {
      var m, rest := messages[0], messages[1..];
      ReceiveCalls(s, m);
      HandlerRunsOncePerMessage(Receive(s, m), rest);
      var calls := CallsFor(m);
      assert (s.calls + calls) + ExpectedCalls(rest) == s.calls + (calls + ExpectedCalls(rest));
    }
  }

  // ----- the light behind the handler -----

  /** The light's topic text and its pin. */
  datatype Light = Light(text: string, pin: bool)

  /** `set_light`: any text but "OFF" switches the light off. */
  function SetLight(l: Light): Light
  {
    if l.text == "OFF" then Light("ON", true) else Light("OFF", false)
  }

  /** `server_command_handler`, as far as the light is concerned, for a sequence of calls. */
  function LightAfter(l: Light, calls: seq<Call>): Light
    decreases |calls|
  {
    if calls == [] then l else
      LightAfter(if calls[0].topic == LIGHT then SetLight(l) else l, calls[1..])
  }

  function LightMessages(messages: seq<Message>): nat
  {
    if messages == [] then 0 else
      (if Handled(messages[0]) && messages[0].topic == LIGHT_TOPIC then 1 else 0) + LightMessages(messages[1..])
  }

  function Switched(on: bool): Light { if on then Light("ON", true) else Light("OFF", false) }

  lemma {:induction false} LightFollowsCalls(on: bool, messages: seq<Message>)
    ensures LightAfter(Switched(on), ExpectedCalls(messages)) == Switched(on != (LightMessages(messages) % 2 == 1))
    decreases |messages|
  {
    if messages == [] {
    } else {
      var m, rest := messages[0], messages[1..];
      if Handled(m) {
        var call := Call(if m.topic == LIGHT_TOPIC then 1 else 0, Concat(m.fragments));
        assert ExpectedCalls(messages) == [call] + ExpectedCalls(rest);
        assert ExpectedCalls(messages)[1..] == ExpectedCalls(rest);
        assert SetLight(Switched(on)) == Switched(!on);
        LightFollowsCalls(if m.topic == LIGHT_TOPIC then !on else on, rest);
      } else {
        assert ExpectedCalls(messages) == ExpectedCalls(rest);
        LightFollowsCalls(on, rest);
      }
    }
  }

  /** After any run the lamp is lit exactly when the number of handled light messages is odd. */
  lemma LightIsParity(s: State, messages: seq<Message>)
    requires s.calls == []
    requires forall i :: 0 <= i < |messages| ==> WellFormed(messages[i])
    ensures var l := LightAfter(Light("OFF", false), ReceiveAll(s, messages).calls);
            && (l.pin <==> LightMessages(messages) % 2 == 1)
            && l.text == (if l.pin then "ON" else "OFF")
  {
    HandlerRunsOncePerMessage(s, messages);
    assert ReceiveAll(s, messages).calls == ExpectedCalls(messages);
    LightFollowsCalls(false, messages);
  }
}
