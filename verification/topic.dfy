/**
 * The topic filter a client subscribes to: a name and the QoS level it
 * requests (section 3.8.3 of MQTT v3.1.1). The object is validated once, when
 * it is constructed, and never changes afterwards.
 */
module SubscribeTopic {
  import opened Results
  import opened Wire

  datatype TopicError = InvalidArgument | InvalidQoSLevel

  /** The QoS level requested when the caller names none. */
  const DefaultQoSLevel: int := 0

  /** The state of the object; before its setters run it holds an empty name and QoS 0. */
  datatype TopicState = TopicState(topicName: Bytes, qosLevel: int)

  const Unset := TopicState([], 0)

  /** The QoS levels a subscription may request. */
  predicate ValidQoSLevel(qos: int) {
    0 <= qos <= 2
  }

  /** What every constructed topic satisfies. No bound is put on the name's length. */
  predicate Valid(t: TopicState) {
    t.topicName != [] && ValidQoSLevel(t.qosLevel)
  }

  /** A successfully constructed topic. */
  type Topic = t: TopicState | Valid(t) witness TopicState([0x23], 0)

  /** Stores the name; an empty name is refused and leaves nothing changed. */
  function SetTopicName(t: TopicState, name: Bytes): (r: Result<TopicState, TopicError>)
    ensures r.Failure? <==> name == []
    ensures r.Failure? ==> r.error == InvalidArgument
    ensures r.Success? ==> r.value.topicName == name && r.value.qosLevel == t.qosLevel
  {
    if name == [] then Failure(InvalidArgument) else Success(t.(topicName := name))
  }

  /** Stores the QoS level; one outside 0..2 is refused and leaves nothing changed. */
  function SetQoSLevel(t: TopicState, qos: int): (r: Result<TopicState, TopicError>)
    ensures r.Failure? <==> qos > 2 || qos < 0
    ensures r.Failure? ==> r.error == InvalidQoSLevel
    ensures r.Success? ==> r.value.qosLevel == qos && r.value.topicName == t.topicName
  {
    if qos > 2 || qos < 0 then Failure(InvalidQoSLevel) else Success(t.(qosLevel := qos))
  }

  /**
   * The constructor: the name is set first, then the QoS level, so a topic
   * with both an empty name and a bad level is refused for its name.
   */
  function NewTopic(name: Bytes, qos: int): (r: Result<Topic, TopicError>)
    ensures r.Success? <==> name != [] && ValidQoSLevel(qos)
    ensures name == [] ==> r == Failure(InvalidArgument)
    ensures name != [] && !ValidQoSLevel(qos) ==> r == Failure(InvalidQoSLevel)
    ensures r.Success? ==> GetTopicName(r.value) == name && GetTopicQoSLevel(r.value) == qos
  {
    var named :- SetTopicName(Unset, name);
    var leveled :- SetQoSLevel(named, qos);
    Success(leveled)
  }

  /** The constructor called without a QoS level. */
  function NewTopicWithDefaultQoS(name: Bytes): (r: Result<Topic, TopicError>)
    ensures r.Success? <==> name != []
    ensures r.Failure? ==> r.error == InvalidArgument
    ensures r.Success? ==> GetTopicName(r.value) == name && GetTopicQoSLevel(r.value) == 0
  {
    NewTopic(name, DefaultQoSLevel)
  }

  function GetTopicName(t: Topic): (r: Bytes)
    ensures r != []
  {
    t.topicName
  }

  function GetTopicQoSLevel(t: Topic): (r: int)
    ensures ValidQoSLevel(r)
  {
    t.qosLevel
  }

  /** Every topic is exactly the one its own getters would construct again. */
  lemma ReconstructFromGetters(t: Topic)
    ensures NewTopic(GetTopicName(t), GetTopicQoSLevel(t)) == Success(t)
  {
  }

  /** Two topics built from different inputs are different topics. */
  lemma NewTopicInjective(name1: Bytes, qos1: int, name2: Bytes, qos2: int)
    requires NewTopic(name1, qos1).Success? && NewTopic(name2, qos2).Success?
    requires NewTopic(name1, qos1) == NewTopic(name2, qos2)
    ensures name1 == name2 && qos1 == qos2
  {
  }

  /** Names of any length are accepted, even ones too long for a two-byte length prefix. */
  lemma AcceptsLongNames(name: Bytes, qos: int)
    requires |name| > 0xFFFF && ValidQoSLevel(qos)
    ensures NewTopic(name, qos).Success?
  {
  }
}
