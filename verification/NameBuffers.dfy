/** Name mangling as the C code does it, in character buffers of the caller with
    in/out lengths, and the C++ callers that query the sizes with NULL buffers,
    allocate, and call again. */
module NameBuffers {
  import opened Common
  import opened Naming

  const SEPARATOR: CString := "::"

  // ---- What is computed ----

  /** Size of the DDS topic name with its terminator. */
  function TopicSize(topic: string, m: Mangling): nat {
    |m.prefix| + |topic| + 1
  }

  /** Size reported for the DDS type name with its terminator. */
  function TypeSize(ty: string, m: Mangling): nat {
    |ty| + |TYPE_NAMESPACE| + |m.suffix| + 2 + 1
  }

  /** The character a C pointer at offset i reads, terminator included. */
  function CharAt(s: CString, i: nat): char
    requires i <= |s|
  {
    if i < |s| then s[i] else '\0'
  }

  /** A type name P::N with no colon in N, and the length of P. */
  ghost predicate Qualified(ty: string, p: string, n: string) {
    ty == p + SEPARATOR + n && ':' !in n
  }

  /** The last offset that the backward scan stops at. */
  function LastColon(ty: CString, i: nat): (j: nat)
    requires i <= |ty|
    ensures j <= i
    ensures j == 0 || CharAt(ty, j) == ':'
    ensures forall k :: j < k <= i ==> CharAt(ty, k) != ':'
  {
    if CharAt(ty, i) == ':' || i == 0 then i else LastColon(ty, i - 1)
  }

  /** How many characters precede the last "::", if the name is valid. */
  function Stem(ty: CString): Option<nat> {
    var j := LastColon(ty, |ty|);
    if CharAt(ty, j) != ':' || j == 0 || ty[j - 1] != ':' then None else Some(j - 1)
  }

  /** The bytes written for a type name with the given stem. */
  function TypeBytes(ty: CString, stem: nat, m: Mangling): CString
    requires stem <= |ty|
  {
    ty[..stem] + TYPE_NAMESPACE + SEPARATOR + m.suffix
  }

  /** The DDS type name that the reported size belongs to. */
  function IntendedType(p: string, n: string, m: Mangling): string {
    p + "::dds_::" + n + m.suffix
  }

  /** The scan rejects exactly the names that are not P::N. */
  lemma StemMeaning(ty: CString)
    ensures Stem(ty).Some? <==> exists p, n :: Qualified(ty, p, n)
    ensures Stem(ty).Some? ==>
      Stem(ty).value + 2 <= |ty| && Qualified(ty, ty[..Stem(ty).value], ty[Stem(ty).value + 2..])
    ensures forall p, n :: Qualified(ty, p, n) ==> Stem(ty) == Some(|p|)
  {
    var j := LastColon(ty, |ty|);
    if Stem(ty).Some? {
      assert forall k :: j < k < |ty| ==> ty[k] == CharAt(ty, k);
      assert ty == ty[..j - 1] + SEPARATOR + ty[j + 1..];
      assert Qualified(ty, ty[..j - 1], ty[j + 1..]);
    }
    forall p, n | Qualified(ty, p, n)
      ensures Stem(ty) == Some(|p|)
    {
      assert CharAt(ty, |p| + 1) == ':' && ty[|p|] == ':';
      forall k | |p| + 1 < k <= |ty|
        ensures CharAt(ty, k) != ':'
      {
        assert k < |ty| ==> ty[k] == n[k - |p| - 2];
      }
    }
  }

  /** The reported size is that of P::dds_::N<suffix>, terminator included,
      while |N| + 3 bytes fewer are written. */
  lemma TypeSizeMeaning(ty: CString, p: string, n: string, m: Mangling)
    requires Qualified(ty, p, n)
    ensures TypeSize(ty, m) == |IntendedType(p, n, m)| + 1
    ensures Stem(ty) == Some(|p|) && TypeBytes(ty, |p|, m) == p + TYPE_NAMESPACE + SEPARATOR + m.suffix
    ensures |TypeBytes(ty, |p|, m)| + |n| + 3 == TypeSize(ty, m)
  {
    StemMeaning(ty);
    assert ty[..|p|] == p;
  }

  /** A C string read from a buffer: the characters before the first NUL, or
      the whole buffer if it has none. */
  function ReadCString(bytes: seq<char>): string {
    if bytes == [] || bytes[0] == '\0' then [] else [bytes[0]] + ReadCString(bytes[1..])
  }

  lemma {:induction false} ReadCStringPrefix(bytes: seq<char>, s: CString)
    requires s <= bytes
    ensures s <= ReadCString(bytes)
    ensures |bytes| > |s| && bytes[|s|] == '\0' ==> ReadCString(bytes) == s
  {
    if s != [] {
      ReadCStringPrefix(bytes[1..], s[1..]);
    }
  }

  /** What follows the stem in a type buffer tells it from every intended name. */
  lemma StemThenNamespace(p: string, n: string, m: Mangling, s: string, intended: Mangling)
    requires p + "dds_::" + m.suffix <= s
    ensures s != IntendedType(p, n, intended)
  {
    assert s[|p|] == (p + "dds_::" + m.suffix)[|p|] == 'd';
    assert IntendedType(p, n, intended)[|p|] == ':';
  }

  /** Whatever the buffer held before, the type name that a caller reads is
      never the one whose size was reported. */
  lemma TypeNameIsNeverTheIntendedOne(ty: CString, p: string, n: string, m: Mangling, bytes: seq<char>)
    requires Qualified(ty, p, n) && TypeBytes(ty, |p|, m) <= bytes
    ensures ReadCString(bytes) != IntendedType(p, n, m)
  {
    TypeSizeMeaning(ty, p, n, m);
    ReadCStringPrefix(bytes, TypeBytes(ty, |p|, m));
    assert ReadCString(bytes)[|p|] == TypeBytes(ty, |p|, m)[|p|] == 'd';
    assert IntendedType(p, n, m)[|p|] == ':';
  }

  // ---- make_dds_topic_and_type_names ----

  /** Return code and final values of the two in/out lengths. */
  function Outcome(topic: string, ty: CString, m: Mangling,
                   fillTopic: bool, topicCap: nat, fillType: bool, typeCap: nat)
    : (ReturnCode, nat, nat)
  {
    if fillTopic && topicCap < TopicSize(topic, m) then (OutOfResources, topicCap, typeCap)
    else if fillType && typeCap < TypeSize(ty, m) then (OutOfResources, TopicSize(topic, m), typeCap)
    else if fillType && Stem(ty).None? then (BadParameter, TopicSize(topic, m), typeCap)
    else (Ok, TopicSize(topic, m), TypeSize(ty, m))
  }

  /** A buffer that is given must hold what it is given for with its terminator,
      and the type must be P::N if it is to be written; the first that fails
      decides. The lengths reported are those needed, as far as it got. */
  lemma OutcomeMeaning(topic: string, ty: CString, m: Mangling,
                       fillTopic: bool, topicCap: nat, fillType: bool, typeCap: nat)
    ensures var (rc, topicLen, typeLen) := Outcome(topic, ty, m, fillTopic, topicCap, fillType, typeCap);
      var topicFits, typeFits := topicCap > |m.prefix| + |topic|, typeCap > |ty| + |m.suffix| + 6;
      && (rc == OutOfResources <==> (fillTopic && !topicFits) || (fillType && !typeFits))
      && (rc == BadParameter <==> rc != OutOfResources && fillType && !exists p, n :: Qualified(ty, p, n))
      && (rc == Ok <==> rc != OutOfResources && rc != BadParameter)
      && topicLen == (if fillTopic && !topicFits then topicCap else |m.prefix| + |topic| + 1)
      && typeLen == (if rc == Ok then |ty| + |m.suffix| + 7 else typeCap)
  {
    StemMeaning(ty);
  }

  /** The names that a call leaves for these two literals: a topic of prefix and
      name, a type of stem, namespace and suffix, and the sizes of the topic and
      of the type name that should have been written. */
  ghost predicate Named(topicLen: nat, typeLen: nat, topic: string, ty: CString, names: (string, string),
                        topicBuf: array?<char>, typeBuf: array?<char>)
    reads topicBuf, typeBuf
  {
    && topicLen == |names.0| + |topic| + 1
    && (topicBuf != null ==> names.0 + topic + "\0" <= topicBuf[..])
    && NamedType(typeLen, ty, names.1, typeBuf)
  }

  ghost predicate NamedType(typeLen: nat, ty: CString, suffix: string, typeBuf: array?<char>)
    reads typeBuf
  {
    && (forall p, n :: Qualified(ty, p, n) ==> typeLen == |p + "::dds_::" + n + suffix| + 1)
    && (typeBuf != null ==> exists p, n :: Qualified(ty, p, n) && p + "dds_::" + suffix <= typeBuf[..])
  }

  lemma TypeIsNamed(ty: CString, m: Mangling, buf: array?<char>, before: seq<char>)
    requires buf != null ==> Stem(ty).Some? && |before| == buf.Length >= |TypeBytes(ty, Stem(ty).value, m)|
    requires buf != null ==> buf[..] == TypeAfter(before, ty, m)
    ensures NamedType(TypeSize(ty, m), ty, m.suffix, buf)
  {
    StemMeaning(ty);
    if buf != null {
      var p, n := ty[..Stem(ty).value], ty[Stem(ty).value + 2..];
      assert Qualified(ty, p, n);
      assert TypeBytes(ty, |p|, m) == p + "dds_::" + m.suffix;
    }
  }

  /** Writes s over what a buffer held from its start. */
  function Overwrite(before: seq<char>, s: seq<char>): seq<char> {
    if |before| < |s| then before else s + before[|s|..]
  }

  /** The bytes that the type part writes fit the buffer, where the stated
      capacity lets it write at all. */
  ghost predicate TypeFits(buf: array?<char>, cap: nat, ty: CString, m: Mangling) {
    buf != null && cap >= TypeSize(ty, m) && Stem(ty).Some? ==>
      |TYPE_NAMESPACE| + 2 + |m.suffix| + Stem(ty).value <= buf.Length
  }

  /** The capacity test keeps every type write inside a buffer whose capacity is
      stated honestly, however short it is, and for any type name; for P::N a
      capacity that is overstated by up to |N| + 3 bytes is still safe. */
  lemma HonestCapacityFits(buf: array?<char>, cap: nat, ty: CString, m: Mangling)
    requires buf != null ==>
      cap <= buf.Length || (exists p, n :: Qualified(ty, p, n) && cap <= buf.Length + |n| + 3)
    ensures TypeFits(buf, cap, ty, m)
  {
    StemMeaning(ty);
    forall p, n | Qualified(ty, p, n)
      ensures |TYPE_NAMESPACE| + 2 + |m.suffix| + Stem(ty).value + |n| + 3 == TypeSize(ty, m)
    {
      TypeSizeMeaning(ty, p, n, m);
    }
  }

  ghost function Bytes(buf: array?<char>): seq<char>
    reads buf
  {
    if buf == null then [] else buf[..]
  }

  /** The topic buffer after a call that found it large enough. */
  function TopicAfter(before: seq<char>, topic: string, m: Mangling): seq<char> {
    Overwrite(before, m.prefix + topic + "\0")
  }

  /** The type buffer after a call that succeeded. */
  function TypeAfter(before: seq<char>, ty: CString, m: Mangling): seq<char> {
    match Stem(ty)
    case None => before
    case Some(stem) => assert stem <= |ty|; Overwrite(before, TypeBytes(ty, stem, m))
  }

  /** memcpy to an offset; the buffer starts with `head`. */
  method Memcpy(to: array<char>, ghost head: seq<char>, at: nat, s: seq<char>)
    requires at + |s| <= to.Length && to[..at] == head
    modifies to
    ensures to[..at + |s|] == head + s
    ensures forall i :: at + |s| <= i < to.Length ==> to[i] == old(to[i])
  {
    forall i | 0 <= i < |s| {
      to[at + i] := s[i];
    }
    assert to[..at] == head && to[at..at + |s|] == s;
  }

  method WriteTopic(buf: array<char>, topic: CString, m: Mangling)
    requires TopicSize(topic, m) <= buf.Length
    modifies buf
    ensures buf[..] == Overwrite(old(buf[..]), m.prefix + topic + "\0")
  {
    Memcpy(buf, [], 0, m.prefix);
    Memcpy(buf, m.prefix, |m.prefix|, topic + "\0");
    assert m.prefix + (topic + "\0") == m.prefix + topic + "\0";
    JoinBuffer(buf, old(buf[..]), m.prefix + topic + "\0");
  }

  method WriteType(buf: array<char>, ty: CString, stem: nat, m: Mangling)
    requires stem <= |ty| && |TypeBytes(ty, stem, m)| <= buf.Length
    modifies buf
    ensures buf[..] == Overwrite(old(buf[..]), TypeBytes(ty, stem, m))
  {
    var head := ty[..stem];
    Memcpy(buf, [], 0, head);
    Memcpy(buf, head, stem, TYPE_NAMESPACE);
    Memcpy(buf, head + TYPE_NAMESPACE, stem + |TYPE_NAMESPACE|, SEPARATOR);
    Memcpy(buf, head + TYPE_NAMESPACE + SEPARATOR, stem + |TYPE_NAMESPACE| + 2, m.suffix);
    JoinBuffer(buf, old(buf[..]), TypeBytes(ty, stem, m));
  }

  lemma JoinBuffer(buf: array<char>, before: seq<char>, s: seq<char>)
    requires |s| <= buf.Length == |before|
    requires buf[..|s|] == s && forall i :: |s| <= i < buf.Length ==> buf[i] == before[i]
    ensures buf[..] == Overwrite(before, s)
  {
    assert buf[..] == buf[..|s|] + buf[|s|..];
  }

  /** The backward scan for the last "::". */
  method FindStem(ty: CString) returns (stem: Option<nat>)
    ensures stem == Stem(ty)
  {
    var i := |ty|;
    while CharAt(ty, i) != ':' && i > 0
      invariant 0 <= i <= |ty| && LastColon(ty, |ty|) == LastColon(ty, i)
      decreases i
    {
      i := i - 1;
    }
    if CharAt(ty, i) != ':' || i == 0 || ty[i - 1] != ':' {
      return None;
    }
    return Some(i - 1);
  }

  /** The effect of one call: return code, lengths and both buffers. */
  ghost predicate Made(rc: ReturnCode, topicLen: nat, typeLen: nat, topic: CString, ty: CString, m: Mangling,
                       topicBuf: array?<char>, topicCap: nat, topicBefore: seq<char>,
                       typeBuf: array?<char>, typeCap: nat, typeBefore: seq<char>)
    reads topicBuf, typeBuf
  {
    && (rc, topicLen, typeLen) == Outcome(topic, ty, m, topicBuf != null, topicCap, typeBuf != null, typeCap)
    && Bytes(topicBuf) == (if topicCap < TopicSize(topic, m) then topicBefore else TopicAfter(topicBefore, topic, m))
    && Bytes(typeBuf) == (if rc == Ok then TypeAfter(typeBefore, ty, m) else typeBefore)
  }

  method MakeDdsTopicAndTypeNames(topic: CString, ty: CString, topicBuf: array?<char>, topicCap: nat,
                                  typeBuf: array?<char>, typeCap: nat, m: Mangling)
    returns (rc: ReturnCode, topicLen: nat, typeLen: nat)
    requires topicBuf != null ==> topicCap <= topicBuf.Length && topicBuf != typeBuf
    requires TypeFits(typeBuf, typeCap, ty, m)
    modifies topicBuf, typeBuf
    ensures Made(rc, topicLen, typeLen, topic, ty, m, topicBuf, topicCap, old(Bytes(topicBuf)),
                 typeBuf, typeCap, old(Bytes(typeBuf)))
    ensures rc == Ok ==> Named(topicLen, typeLen, topic, ty, (m.prefix, m.suffix), topicBuf, typeBuf)
  {
    topicLen, typeLen := topicCap, typeCap;
    if topicBuf != null {
      if topicCap < TopicSize(topic, m) {
        rc := OutOfResources;
        return;
      }
      WriteTopic(topicBuf, topic, m);
    }
    topicLen := TopicSize(topic, m);
    if typeBuf != null {
      if typeCap < TypeSize(ty, m) {
        rc := OutOfResources;
        return;
      }
      var stem := FindStem(ty);
      if stem.None? {
        rc := BadParameter;
        return;
      }
      WriteType(typeBuf, ty, stem.value, m);
    }
    typeLen := TypeSize(ty, m);
    rc := Ok;
    TypeIsNamed(ty, m, typeBuf, old(Bytes(typeBuf)));
  }

  // ---- compute_dds_writer_topic_names and compute_dds_reader_topic_names ----

  predicate Missing(s: Option<CString>) {
    s.None? || s.value == []
  }

  /** The writer side checks its two names; compute_publisher_topic_names and
      compute_subscription_topic_names are this function with their type. */
  method ComputeDdsWriterTopicNames(topic: Option<CString>, ty: Option<CString>, kind: EndpointType,
                                    topicBuf: array?<char>, topicCap: nat, typeBuf: array?<char>, typeCap: nat)
    returns (rc: ReturnCode, topicLen: nat, typeLen: nat)
    requires topicBuf != null ==> topicCap <= topicBuf.Length && topicBuf != typeBuf
    requires ty.Some? && WriterMangling(kind).Some? ==> TypeFits(typeBuf, typeCap, ty.value, WriterMangling(kind).value)
    modifies topicBuf, typeBuf
    ensures topic.None? || topic.value == "" || ty.None? || ty.value == "" ==>
      (rc, topicLen, typeLen) == (BadParameter, topicCap, typeCap)
    ensures !Missing(topic) && !Missing(ty) && kind == Unknown ==> (rc, topicLen, typeLen) == (Error, topicCap, typeCap)
    ensures if Missing(topic) || Missing(ty) || kind == Unknown
            then Bytes(topicBuf) == old(Bytes(topicBuf)) && Bytes(typeBuf) == old(Bytes(typeBuf))
            else Made(rc, topicLen, typeLen, topic.value, ty.value, WriterMangling(kind).value,
                      topicBuf, topicCap, old(Bytes(topicBuf)), typeBuf, typeCap, old(Bytes(typeBuf)))
    ensures rc == Ok ==> !Missing(topic) && !Missing(ty) && kind != Unknown
    ensures rc == Ok ==> Named(topicLen, typeLen, topic.value, ty.value, DesignedNames(kind, true), topicBuf, typeBuf)
  {
    topicLen, typeLen := topicCap, typeCap;
    if Missing(topic) || Missing(ty) {
      rc := BadParameter;
      return;
    }
    var m := WriterMangling(kind);
    if m.None? {
      rc := Error;
      return;
    }
    rc, topicLen, typeLen :=
      MakeDdsTopicAndTypeNames(topic.value, ty.value, topicBuf, topicCap, typeBuf, typeCap, m.value);
  }

  /** The reader side has its checks commented out and takes any two names. */
  method ComputeDdsReaderTopicNames(topic: CString, ty: CString, kind: EndpointType,
                                    topicBuf: array?<char>, topicCap: nat, typeBuf: array?<char>, typeCap: nat)
    returns (rc: ReturnCode, topicLen: nat, typeLen: nat)
    requires topicBuf != null ==> topicCap <= topicBuf.Length && topicBuf != typeBuf
    requires ReaderMangling(kind).Some? ==> TypeFits(typeBuf, typeCap, ty, ReaderMangling(kind).value)
    modifies topicBuf, typeBuf
    ensures if kind == Unknown
            then (rc, topicLen, typeLen) == (Error, topicCap, typeCap)
              && Bytes(topicBuf) == old(Bytes(topicBuf)) && Bytes(typeBuf) == old(Bytes(typeBuf))
            else Made(rc, topicLen, typeLen, topic, ty, ReaderMangling(kind).value,
                      topicBuf, topicCap, old(Bytes(topicBuf)), typeBuf, typeCap, old(Bytes(typeBuf)))
    ensures rc == Ok ==> kind != Unknown
    ensures rc == Ok ==> Named(topicLen, typeLen, topic, ty, DesignedNames(kind, false), topicBuf, typeBuf)
  {
    topicLen, typeLen := topicCap, typeCap;
    var m := ReaderMangling(kind);
    if m.None? {
      rc := Error;
      return;
    }
    rc, topicLen, typeLen := MakeDdsTopicAndTypeNames(topic, ty, topicBuf, topicCap, typeBuf, typeCap, m.value);
  }

  // ---- The C++ callers ----

  lemma TopicIsRead(bytes: seq<char>, topic: CString, m: Mangling, before: seq<char>)
    requires |before| >= TopicSize(topic, m) && bytes == TopicAfter(before, topic, m)
    ensures ReadCString(bytes) == m.prefix + topic
  {
    var s: CString := m.prefix + topic;
    assert bytes[|s|] == '\0';
    ReadCStringPrefix(bytes, s);
  }

  /** compute_publisher_topic_names and compute_subscription_topic_names of the
      C++ API: query the sizes, allocate, fill, and read the two strings back.
      Returns false where the source throws. The sizes from the query always
      pass the checks of the second call, which can only fail on the type. */
  method CppComputeTopicNames(kind: EndpointType, topic: CString, ty: CString)
    returns (ok: bool, ddsTopic: string, ddsType: string)
    requires kind == Publisher || kind == Subscription
    ensures ok <==> topic != [] && exists p, n :: Qualified(ty, p, n)
    ensures ok ==> ddsTopic == "rt/" + topic
    ensures ok ==> forall p, n :: Qualified(ty, p, n) ==>
      p + "dds_::_" <= ddsType && ddsType != p + "::dds_::" + n + "_"
  {
    hide Named, ReadCString, Stem;
    StemMeaning(ty);
    ok, ddsTopic, ddsType := false, "", "";
    var rc, topicLen, typeLen := ComputeDdsWriterTopicNames(Some(topic), Some(ty), kind, null, 0, null, 0);
    if rc != Ok {
      return;
    }
    var topicBuf := new char[topicLen];
    var typeBuf := new char[typeLen];
    ghost var topicBefore := topicBuf[..];
    rc, topicLen, typeLen :=
      ComputeDdsWriterTopicNames(Some(topic), Some(ty), kind, topicBuf, topicLen, typeBuf, typeLen);
    if rc != Ok {
      return;
    }
    ok, ddsTopic, ddsType := true, ReadCString(topicBuf[..]), ReadCString(typeBuf[..]);
    TopicIsRead(topicBuf[..], topic, DEFAULT_MANGLING, topicBefore);
    TypeIsRead(typeBuf[..], ty, DEFAULT_MANGLING);
  }

  /** What is read back from a type buffer. */
  lemma TypeIsRead(bytes: seq<char>, ty: CString, m: Mangling)
    requires Stem(ty).Some? && TypeBytes(ty, Stem(ty).value, m) <= bytes
    ensures forall p, n :: Qualified(ty, p, n) ==>
      p + "dds_::" + m.suffix <= ReadCString(bytes) && ReadCString(bytes) != p + "::dds_::" + n + m.suffix
  {
    forall p, n | Qualified(ty, p, n)
      ensures p + "dds_::" + m.suffix <= ReadCString(bytes)
      ensures ReadCString(bytes) != p + "::dds_::" + n + m.suffix
    {
      assert p + TYPE_NAMESPACE + SEPARATOR + m.suffix == p + "dds_::" + m.suffix;
      TypeSizeMeaning(ty, p, n, m);
      ReadCStringPrefix(bytes, TypeBytes(ty, |p|, m));
      TypeNameIsNeverTheIntendedOne(ty, p, n, m, bytes);
    }
  }

  // ---- Services ----

  /** The type buffers after both halves of a service call: the C++ caller
      passes one buffer twice. */
  function TypesAfter(before: seq<char>, ty: CString): seq<char> {
    TypeAfter(TypeAfter(before, ty, REQUEST_MANGLING), ty, RESPONSE_MANGLING)
  }

  method ConcatServiceTopic(node: CString, service: CString) returns (topic: CString)
    ensures topic == ServiceTopic(node, service)
  {
    var buf := new char[|node| + 1 + |service| + 1];
    Memcpy(buf, [], 0, node);
    Memcpy(buf, node, |node|, "/");
    Memcpy(buf, node + "/", |node| + 1, service + "\0");
    ghost var name: CString := node + "/" + service;
    assert node + "/" + (service + "\0") == name + "\0";
    assert buf[..] == buf[..|name| + 1];
    assert name <= buf[..] && buf[|name|] == '\0';
    ReadCStringPrefix(buf[..], name);
    topic := ReadCString(buf[..]);
  }

  /** RTIROS2_Graph_compute_service_topic_names: reader names for the request,
      then writer names for the reply. */
  method ComputeServiceTopicNames(node: CString, service: CString, ty: CString,
                                  reqTopicBuf: array?<char>, reqTopicCap: nat,
                                  reqTypeBuf: array?<char>, reqTypeCap: nat,
                                  repTopicBuf: array?<char>, repTopicCap: nat,
                                  repTypeBuf: array?<char>, repTypeCap: nat)
    returns (rc: ReturnCode, reqTopicLen: nat, reqTypeLen: nat, repTopicLen: nat, repTypeLen: nat)
    requires reqTopicBuf != null ==>
      reqTopicCap <= reqTopicBuf.Length && reqTopicBuf !in {reqTypeBuf, repTopicBuf, repTypeBuf}
    requires repTopicBuf != null ==> repTopicCap <= repTopicBuf.Length && repTopicBuf !in {reqTypeBuf, repTypeBuf}
    requires TypeFits(reqTypeBuf, reqTypeCap, ty, REQUEST_MANGLING)
    requires TypeFits(repTypeBuf, repTypeCap, ty, RESPONSE_MANGLING)
    modifies reqTopicBuf, reqTypeBuf, repTopicBuf, repTypeBuf
    ensures var topic := ServiceTopic(node, service);
      var (rc1, a, b) :=
        Outcome(topic, ty, REQUEST_MANGLING, reqTopicBuf != null, reqTopicCap, reqTypeBuf != null, reqTypeCap);
      var (rc2, c, d) :=
        Outcome(topic, ty, RESPONSE_MANGLING, repTopicBuf != null, repTopicCap, repTypeBuf != null, repTypeCap);
      && (reqTopicLen, reqTypeLen) == (a, b)
      && (rc == Ok <==> rc1 == Ok && rc2 == Ok && ty != []) && (rc != Ok ==> rc == Error)
      && (rc == Ok ==> (repTopicLen, repTypeLen) == (c, d))
    ensures rc == Ok ==>
      Bytes(reqTopicBuf) == TopicAfter(old(Bytes(reqTopicBuf)), ServiceTopic(node, service), REQUEST_MANGLING)
    ensures rc == Ok ==>
      Bytes(repTopicBuf) == TopicAfter(old(Bytes(repTopicBuf)), ServiceTopic(node, service), RESPONSE_MANGLING)
    ensures reqTopicCap < TopicSize(ServiceTopic(node, service), REQUEST_MANGLING) ==>
      Bytes(reqTopicBuf) == old(Bytes(reqTopicBuf))
    ensures Outcome(ServiceTopic(node, service), ty, REQUEST_MANGLING,
                    reqTopicBuf != null, reqTopicCap, reqTypeBuf != null, reqTypeCap).0 != Ok ==>
      && Bytes(reqTypeBuf) == old(Bytes(reqTypeBuf)) && Bytes(repTypeBuf) == old(Bytes(repTypeBuf))
      && Bytes(repTopicBuf) == old(Bytes(repTopicBuf))
    ensures rc == Ok && reqTypeBuf != repTypeBuf ==>
      && Bytes(reqTypeBuf) == TypeAfter(old(Bytes(reqTypeBuf)), ty, REQUEST_MANGLING)
      && Bytes(repTypeBuf) == TypeAfter(old(Bytes(repTypeBuf)), ty, RESPONSE_MANGLING)
    ensures rc == Ok && reqTypeBuf == repTypeBuf ==> Bytes(reqTypeBuf) == TypesAfter(old(Bytes(reqTypeBuf)), ty)
    ensures rc == Ok ==>
      && Named(reqTopicLen, reqTypeLen, node + "/" + service, ty, ("rq/", "_Request_"),
               reqTopicBuf, if reqTypeBuf != repTypeBuf then reqTypeBuf else null)
      && Named(repTopicLen, repTypeLen, node + "/" + service, ty, ("rr/", "_Response_"), repTopicBuf, repTypeBuf)
  {
    hide Named, Outcome;
    repTopicLen, repTypeLen := repTopicCap, repTypeCap;
    var topic := ConcatServiceTopic(node, service);
    rc, reqTopicLen, reqTypeLen :=
      ComputeDdsReaderTopicNames(topic, ty, Service, reqTopicBuf, reqTopicCap, reqTypeBuf, reqTypeCap);
    if rc != Ok {
      rc := Error;
      return;
    }
    NamedWithoutType(reqTopicLen, reqTypeLen, topic, ty, DesignedNames(Service, false), reqTopicBuf, reqTypeBuf);
    rc, repTopicLen, repTypeLen :=
      ComputeDdsWriterTopicNames(Some(topic), Some(ty), Service, repTopicBuf, repTopicCap, repTypeBuf, repTypeCap);
    if rc != Ok {
      rc := Error;
    }
  }

  lemma NamedWithoutType(topicLen: nat, typeLen: nat, topic: string, ty: CString, names: (string, string),
                         topicBuf: array?<char>, typeBuf: array?<char>)
    requires Named(topicLen, typeLen, topic, ty, names, topicBuf, typeBuf)
    ensures Named(topicLen, typeLen, topic, ty, names, topicBuf, null)
  {}

  /** The second call of compute_service_topic_names of the C++ API and what it
      reads back, with the four buffers as allocated. The reply's type buffer is
      never passed: the request's buffer is passed in its place, with a stated
      capacity one byte above its real one. The bytes written stay inside it all
      the same, the request type is overwritten by the reply type, and the
      reply's buffer stays as it was. */
  method FillServiceNames(node: CString, service: CString, ty: CString,
                          reqTopicBuf: array<char>, reqTypeBuf: array<char>,
                          repTopicBuf: array<char>, repTypeBuf: array<char>)
    returns (ok: bool, reqTopic: string, reqType: string, repTopic: string, repType: string)
    requires reqTopicBuf !in {reqTypeBuf, repTopicBuf, repTypeBuf} && repTopicBuf !in {reqTypeBuf, repTypeBuf}
    requires repTypeBuf != reqTypeBuf
    requires reqTopicBuf.Length == TopicSize(ServiceTopic(node, service), REQUEST_MANGLING)
    requires repTopicBuf.Length == TopicSize(ServiceTopic(node, service), RESPONSE_MANGLING)
    requires reqTypeBuf.Length == TypeSize(ty, REQUEST_MANGLING) && repTypeBuf.Length == TypeSize(ty, RESPONSE_MANGLING)
    modifies reqTopicBuf, reqTypeBuf, repTopicBuf
    ensures repTypeBuf[..] == old(repTypeBuf[..]) && (ok ==> repType == ReadCString(old(repTypeBuf[..])))
    ensures ok <==> exists p, n :: Qualified(ty, p, n)
    ensures ok ==> reqTopic == "rq/" + (node + "/" + service) && repTopic == "rr/" + (node + "/" + service)
    ensures ok ==> forall p, n :: Qualified(ty, p, n) ==>
      p + "dds_::_Response_" <= reqType && reqType != p + "::dds_::" + n + "_Request_"
  {
    hide Named, ReadCString;
    StemMeaning(ty);
    ok, reqTopic, reqType, repTopic, repType := false, "", "", "", "";
    ghost var req, rep := reqTopicBuf[..], repTopicBuf[..];
    var rc, reqTopicLen, reqTypeLen, repTopicLen, repTypeLen :=
      ComputeServiceTopicNames(node, service, ty, reqTopicBuf, reqTopicBuf.Length, reqTypeBuf, reqTypeBuf.Length,
                               repTopicBuf, repTopicBuf.Length, reqTypeBuf, repTypeBuf.Length);
    if rc != Ok {
      return;
    }
    ok := true;
    reqTopic, reqType := ReadCString(reqTopicBuf[..]), ReadCString(reqTypeBuf[..]);
    repTopic, repType := ReadCString(repTopicBuf[..]), ReadCString(repTypeBuf[..]);
    TopicIsRead(reqTopicBuf[..], ServiceTopic(node, service), REQUEST_MANGLING, req);
    TopicIsRead(repTopicBuf[..], ServiceTopic(node, service), RESPONSE_MANGLING, rep);
    RequestTypeIsRead(reqTypeBuf[..], ty);
  }

  /** What is read back as the request type after the reply type overwrote it. */
  lemma RequestTypeIsRead(bytes: seq<char>, ty: CString)
    requires Stem(ty).Some? && TypeBytes(ty, Stem(ty).value, RESPONSE_MANGLING) <= bytes
    ensures forall p, n :: Qualified(ty, p, n) ==>
      p + "dds_::_Response_" <= ReadCString(bytes) && ReadCString(bytes) != p + "::dds_::" + n + "_Request_"
  {
    TypeIsRead(bytes, ty, RESPONSE_MANGLING);
    forall p, n | Qualified(ty, p, n)
      ensures ReadCString(bytes) != p + "::dds_::" + n + "_Request_"
    {
      StemThenNamespace(p, n, RESPONSE_MANGLING, ReadCString(bytes), REQUEST_MANGLING);
    }
  }

  /** compute_service_topic_names of the C++ API. The two topics are exact and
      pass a service's registration checks. The reply type is what its buffer
      held when it was allocated, so that nothing can be said of it. */
  method CppComputeServiceTopicNames(node: CString, service: CString, ty: CString)
    returns (ok: bool, reqTopic: string, reqType: string, repTopic: string, repType: string)
    ensures ok <==> exists p, n :: Qualified(ty, p, n)
    ensures ok ==> reqTopic == "rq/" + (node + "/" + service) && repTopic == "rr/" + (node + "/" + service)
    ensures ok ==> DetectEndpointType(reqTopic, false) == DetectEndpointType(repTopic, true) == Service
    ensures ok ==> forall p, n :: Qualified(ty, p, n) ==>
      p + "dds_::_Response_" <= reqType && reqType != p + "::dds_::" + n + "_Request_"
  {
    StemMeaning(ty);
    ok, reqTopic, reqType, repTopic, repType := false, "", "", "", "";
    var rc, reqTopicLen, reqTypeLen, repTopicLen, repTypeLen :=
      ComputeServiceTopicNames(node, service, ty, null, 0, null, 0, null, 0, null, 0);
    if rc != Ok {
      return;
    }
    var reqTopicBuf := new char[reqTopicLen];
    var reqTypeBuf := new char[reqTypeLen];
    var repTopicBuf := new char[repTopicLen];
    var repTypeBuf := new char[repTypeLen];
    ok, reqTopic, reqType, repTopic, repType :=
      FillServiceNames(node, service, ty, reqTopicBuf, reqTypeBuf, repTopicBuf, repTypeBuf);
    ServiceTopicsPassRegistrationChecks(node, service);
  }
}
