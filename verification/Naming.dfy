/** ROS 2 name mangling on strings: the topic prefixes of the ROS 2 design
    article "Topic and Service name mapping to DDS", section "ROS Specific
    Namespace Prefix", the classifier that reads them back, and the choice of
    prefix and suffix per endpoint type. */
module Naming {
  import opened Common

  /** A C string's characters, without the terminator. */
  type CString = s: string | '\0' !in s witness ""

  datatype EndpointType = Unknown | Subscription | Publisher | Client | Service

  const TOPIC_PREFIX_DEFAULT: CString := "rt/"
  const TOPIC_PREFIX_REQUEST: CString := "rq/"
  const TOPIC_PREFIX_RESPONSE: CString := "rr/"
  const TYPE_NAMESPACE: CString := "dds_"
  const TYPE_SUFFIX_DEFAULT: CString := "_"
  const TYPE_SUFFIX_REQUEST: CString := "_Request_"
  const TYPE_SUFFIX_RESPONSE: CString := "_Response_"

  function DetectEndpointType(topic: string, writer: bool): EndpointType {
    if TOPIC_PREFIX_DEFAULT <= topic then
      if writer then Publisher else Subscription
    else if TOPIC_PREFIX_RESPONSE <= topic then
      if writer then Service else Client
    else if TOPIC_PREFIX_REQUEST <= topic then
      if writer then Client else Service
    else Unknown
  }

  function OppositeRole(kind: EndpointType): EndpointType
  {
    match kind
    case Client => Service
    case Service => Client
    case _ => kind
  }

  /** The topic prefix and type suffix used for one DDS entity. */
  datatype Mangling = Mangling(prefix: CString, suffix: CString)

  const DEFAULT_MANGLING := Mangling(TOPIC_PREFIX_DEFAULT, TYPE_SUFFIX_DEFAULT)
  const REQUEST_MANGLING := Mangling(TOPIC_PREFIX_REQUEST, TYPE_SUFFIX_REQUEST)
  const RESPONSE_MANGLING := Mangling(TOPIC_PREFIX_RESPONSE, TYPE_SUFFIX_RESPONSE)

  function WriterMangling(kind: EndpointType): Option<Mangling> {
    match kind
    case Subscription => Some(DEFAULT_MANGLING)
    case Publisher => Some(DEFAULT_MANGLING)
    case Client => Some(REQUEST_MANGLING)
    case Service => Some(RESPONSE_MANGLING)
    case Unknown => None
  }

  function ReaderMangling(kind: EndpointType): Option<Mangling> {
    match kind
    case Subscription => Some(DEFAULT_MANGLING)
    case Publisher => Some(DEFAULT_MANGLING)
    case Client => Some(RESPONSE_MANGLING)
    case Service => Some(REQUEST_MANGLING)
    case Unknown => None
  }

  /** The endpoint types that own a DDS entity of the given direction. */
  predicate HasEntity(kind: EndpointType, writer: bool) {
    kind == Client || kind == Service || kind == (if writer then Publisher else Subscription)
  }

  function ManglingOf(kind: EndpointType, writer: bool): Option<Mangling> {
    if writer then WriterMangling(kind) else ReaderMangling(kind)
  }

  /** The names of the design article: the topic prefix and the type suffix of
      an endpoint of the given type, for its writer or for its reader. */
  function DesignedNames(kind: EndpointType, writer: bool): (string, string)
    requires kind != Unknown
  {
    if kind == Subscription || kind == Publisher then ("rt/", "_")
    else if (kind == Client) == writer then ("rq/", "_Request_")
    else ("rr/", "_Response_")
  }

  /** Every type but the unknown one is mangled as designed: a client writes
      requests and reads replies, a service the other way round. */
  lemma ManglingIsDesigned(kind: EndpointType, writer: bool)
    ensures ManglingOf(kind, writer).None? <==> kind == Unknown
    ensures kind != Unknown ==>
      var m := ManglingOf(kind, writer).value; (m.prefix, m.suffix) == DesignedNames(kind, writer)
  {}

  /** What the classifier reads from a topic, one type at a time. */
  lemma ClassifierMeaning(topic: string, writer: bool)
    ensures DetectEndpointType(topic, writer) == Publisher <==> writer && "rt/" <= topic
    ensures DetectEndpointType(topic, writer) == Subscription <==> !writer && "rt/" <= topic
    ensures DetectEndpointType(topic, writer) == Client <==> (if writer then "rq/" else "rr/") <= topic
    ensures DetectEndpointType(topic, writer) == Service <==> (if writer then "rr/" else "rq/") <= topic
  {
    if |topic| >= 3 {
      assert "rt/"[1] == 't' && "rq/"[1] == 'q' && "rr/"[1] == 'r';
    }
  }

  /** The classifier inverts the mangling: a topic is classified as a given
      type exactly when it is that type's prefix followed by some name. */
  lemma ClassifierInvertsMangling(topic: string, kind: EndpointType, writer: bool)
    requires kind != Unknown
    ensures DetectEndpointType(topic, writer) == kind
       <==> (HasEntity(kind, writer)
         && exists name :: topic == ManglingOf(kind, writer).value.prefix + name)
  {
    var prefix := ManglingOf(kind, writer).value.prefix;
    if prefix <= topic {
      assert topic == prefix + topic[|prefix|..];
    }
    forall name | topic == prefix + name
      ensures topic[..3] == prefix
    {}
    if |topic| >= 3 {
      PrefixTest(topic, TOPIC_PREFIX_DEFAULT);
      PrefixTest(topic, TOPIC_PREFIX_REQUEST);
      PrefixTest(topic, TOPIC_PREFIX_RESPONSE);
      assert TOPIC_PREFIX_DEFAULT[1] != TOPIC_PREFIX_REQUEST[1];
      assert TOPIC_PREFIX_DEFAULT[1] != TOPIC_PREFIX_RESPONSE[1];
      assert TOPIC_PREFIX_REQUEST[1] != TOPIC_PREFIX_RESPONSE[1];
    }
  }

  lemma PrefixTest(topic: string, prefix: string)
    requires |topic| >= |prefix|
    ensures prefix <= topic <==> topic[..|prefix|] == prefix
  {}

  /** Topics generated for an endpoint are classified as that endpoint's type,
      from the direction of each entity the endpoint owns. */
  lemma GeneratedTopicsAreRecognised(name: string, kind: EndpointType, writer: bool)
    requires HasEntity(kind, writer)
    ensures DetectEndpointType(ManglingOf(kind, writer).value.prefix + name, writer) == kind
  {
    ClassifierInvertsMangling(ManglingOf(kind, writer).value.prefix + name, kind, writer);
  }

  /** A reader and a writer on one topic always have opposite service roles,
      and a client's two topics are its service's two topics swapped. */
  lemma RequestReplyDuality(topic: string)
    requires DetectEndpointType(topic, true) in {Client, Service}
    ensures DetectEndpointType(topic, false) == OppositeRole(DetectEndpointType(topic, true))
    ensures DetectEndpointType(topic, false) != DetectEndpointType(topic, true)
    ensures WriterMangling(Client) == ReaderMangling(Service)
    ensures WriterMangling(Service) == ReaderMangling(Client)
  {}

  predicate IsTopicPrefix(p: string) {
    p in {TOPIC_PREFIX_DEFAULT, TOPIC_PREFIX_REQUEST, TOPIC_PREFIX_RESPONSE}
  }

  /** Distinct pairs of prefix class and ROS name give distinct topics. */
  lemma ManglingInjective(p1: string, n1: string, p2: string, n2: string)
    requires IsTopicPrefix(p1) && IsTopicPrefix(p2)
    requires p1 + n1 == p2 + n2
    ensures p1 == p2 && n1 == n2
  {
    assert p1 == (p1 + n1)[..3] && p2 == (p2 + n2)[..3];
    assert n1 == (p1 + n1)[3..] && n2 == (p2 + n2)[3..];
  }

  /** The ROS topic name behind a service's two DDS topics. */
  function ServiceTopic(node: string, service: string): string {
    node + "/" + service
  }

  /** Topics computed for a service pass the checks of a service registration
      (reader on the request topic, writer on the reply topic), and with the
      two entities exchanged those of a client registration. */
  lemma ServiceTopicsPassRegistrationChecks(node: string, service: string)
    ensures var req := TOPIC_PREFIX_REQUEST + ServiceTopic(node, service);
            var rep := TOPIC_PREFIX_RESPONSE + ServiceTopic(node, service);
      && DetectEndpointType(req, false) == DetectEndpointType(rep, true) == Service
      && DetectEndpointType(rep, false) == DetectEndpointType(req, true) == Client
      && req != rep
  {
    var name := ServiceTopic(node, service);
    GeneratedTopicsAreRecognised(name, Service, false);
    GeneratedTopicsAreRecognised(name, Service, true);
    GeneratedTopicsAreRecognised(name, Client, false);
    GeneratedTopicsAreRecognised(name, Client, true);
  }
}
