/**
 * The `Log` record of elblog.go and the positional field table behind the
 * switch in `Parse`: which conversion each token position gets and which
 * field it is written to.
 */
module ElbLog {
  import opened Wrappers
  import opened ByteStrings
  import opened Strconv

  /**
   * A time.Time: the moment, in nanoseconds since Go's zero time (January 1,
   * year 1, UTC), and the offset from UTC in seconds of the zone the text
   * named (0 for `Z`), which Format prints back.  The zero Time is
   * Instant(0, 0).
   */
  datatype Instant = Instant(nanos: int, zoneOffset: int)

  /** A time.Duration: a signed count of nanoseconds. */
  type Duration = int

  /** A *net.TCPAddr, with the host kept as the raw text of the token. */
  datatype Endpoint = Endpoint(host: Bytes, port: int)

  /** One access-log entry (elblog.go:15-45); a nil address is None. */
  datatype Log = Log(
    logType: Bytes,
    time: Instant,
    name: Bytes,
    from: Option<Endpoint>,
    to: Option<Endpoint>,
    requestProcessingTime: Duration,
    backendProcessingTime: Duration,
    responseProcessingTime: Duration,
    elbStatusCode: int,
    backendStatusCode: Bytes,
    receivedBytes: int,
    sentBytes: int,
    request: Bytes,
    userAgent: Bytes,
    sslCipher: Bytes,
    sslProtocol: Bytes,
    targetGroupArn: Bytes,
    traceId: Bytes,
    domainName: Bytes,
    chosenCertArn: Bytes,
    matchedRulePriority: Bytes,
    requestCreationTime: Bytes,
    actionsExecuted: Bytes,
    redirectUrl: Bytes,
    errorReason: Bytes,
    targetPortList: Bytes,
    targetStatusCodeList: Bytes,
    classification: Bytes,
    classificationReason: Bytes,
    otherFields: Bytes)

  /** The zero value `Log{}` that Parse starts from. */
  const ZERO_LOG: Log := Log([], Instant(0, 0), [], None, None, 0, 0, 0, 0, [], 0, 0, [], [], [], [],
                             [], [], [], [], [], [], [], [], [], [], [], [], [], [])

  /**
   * The library conversions Parse calls and this model does not define:
   * time.Parse with the RFC3339Nano layout (RFC 3339 section 5.6), and
   * strconv.ParseFloat of a seconds value followed by the scaling to
   * nanoseconds.  None is the library's error.
   */
  datatype Conversions = Conversions(
    parseTime: Bytes -> Option<Instant>,
    parseSeconds: Bytes -> Option<Duration>)

  /** Token positions 0..28 are typed fields; position 29 is the OtherFields tail. */
  const TYPED_FIELDS: nat := 29

  datatype Kind = TextKind | TimeKind | EndpointKind | DurationKind | IntKind

  /** The type of the field at each typed position, as the switch of Parse assigns them. */
  function KindAt(i: nat): Kind
  {
    if i == 1 then TimeKind
    else if i == 3 || i == 4 then EndpointKind
    else if 5 <= i <= 7 then DurationKind
    else if i == 8 || i == 10 || i == 11 then IntKind
    else TextKind
  }

  /** The value of one typed field. */
  datatype Value =
    | Text(text: Bytes)
    | At(instant: Instant)
    | Addr(endpoint: Option<Endpoint>)
    | Elapsed(nanos: Duration)
    | Number(number: int)

  function KindOf(v: Value): Kind
  {
    match v
    case Text(_) => TextKind
    case At(_) => TimeKind
    case Addr(_) => EndpointKind
    case Elapsed(_) => DurationKind
    case Number(_) => IntKind
  }

  /** The zero value of a field of kind `k`. */
  function ZeroOf(k: Kind): (v: Value)
    ensures KindOf(v) == k
  {
    match k
    case TextKind => Text([])
    case TimeKind => At(Instant(0, 0))
    case EndpointKind => Addr(None)
    case DurationKind => Elapsed(0)
    case IntKind => Number(0)
  }

  /** Every field of the zero log holds the zero value of its kind. */
  lemma ZeroSlots(j: nat)
    requires j < TYPED_FIELDS
    ensures Slots(ZERO_LOG)[j] == ZeroOf(KindAt(j))
  {
  }

  predicate Fits(i: nat, v: Value)
  {
    KindAt(i) == KindOf(v)
  }

  /** A table of values for the typed positions, each of the kind its position expects. */
  predicate WellKinded(s: seq<Value>)
  {
    |s| == TYPED_FIELDS && forall i :: 0 <= i < TYPED_FIELDS ==> Fits(i, s[i])
  }

  /** The typed fields of a log in token order. */
  function Slots(log: Log): (s: seq<Value>)
    ensures WellKinded(s)
  {
    var s := HeadSlots(log) + MiddleSlots(log) + TailSlots(log);
    assert forall i :: 0 <= i < 10 ==> s[i] == HeadSlots(log)[i];
    assert forall i :: 10 <= i < 20 ==> s[i] == MiddleSlots(log)[i - 10];
    assert forall i :: 20 <= i < TYPED_FIELDS ==> s[i] == TailSlots(log)[i - 20];
    s
  }

  /** Fields 0..9: the type up to the target status code. */
  function HeadSlots(log: Log): (s: seq<Value>)
    ensures |s| == 10 && forall i :: 0 <= i < 10 ==> Fits(i, s[i])
  {
    [Text(log.logType), At(log.time), Text(log.name), Addr(log.from), Addr(log.to),
     Elapsed(log.requestProcessingTime), Elapsed(log.backendProcessingTime),
     Elapsed(log.responseProcessingTime), Number(log.elbStatusCode), Text(log.backendStatusCode)]
  }

  /** Fields 10..19: the byte counts up to the chosen certificate. */
  function MiddleSlots(log: Log): (s: seq<Value>)
    ensures |s| == 10 && forall i :: 0 <= i < 10 ==> Fits(10 + i, s[i])
  {
    [Number(log.receivedBytes), Number(log.sentBytes), Text(log.request), Text(log.userAgent),
     Text(log.sslCipher), Text(log.sslProtocol), Text(log.targetGroupArn), Text(log.traceId),
     Text(log.domainName), Text(log.chosenCertArn)]
  }

  /** Fields 20..28: the rule priority up to the classification reason. */
  function TailSlots(log: Log): (s: seq<Value>)
    ensures |s| == 9 && forall i :: 0 <= i < 9 ==> Fits(20 + i, s[i])
  {
    [Text(log.matchedRulePriority),
     Text(log.requestCreationTime), Text(log.actionsExecuted), Text(log.redirectUrl),
     Text(log.errorReason), Text(log.targetPortList), Text(log.targetStatusCodeList),
     Text(log.classification), Text(log.classificationReason)]
  }

  function TextOf(v: Value): Bytes
  {
    if v.Text? then v.text else []
  }

  function InstantOf(v: Value): Instant
  {
    if v.At? then v.instant else Instant(0, 0)
  }

  function EndpointOf(v: Value): Option<Endpoint>
  {
    if v.Addr? then v.endpoint else None
  }

  function NanosOf(v: Value): Duration
  {
    if v.Elapsed? then v.nanos else 0
  }

  function NumberOf(v: Value): int
  {
    if v.Number? then v.number else 0
  }

  /**
   * The log whose typed fields are `s` and whose OtherFields is
   * `otherFields`; a value of the wrong kind, or a missing one, reads as the
   * field's zero value.
   */
  function FromSlots(s: seq<Value>, otherFields: Bytes): (log: Log)
    ensures log.otherFields == otherFields
  {
    if |s| != TYPED_FIELDS then ZERO_LOG.(otherFields := otherFields)
    else
      Log(TextOf(s[0]), InstantOf(s[1]), TextOf(s[2]), EndpointOf(s[3]), EndpointOf(s[4]),
          NanosOf(s[5]), NanosOf(s[6]), NanosOf(s[7]), NumberOf(s[8]), TextOf(s[9]),
          NumberOf(s[10]), NumberOf(s[11]), TextOf(s[12]), TextOf(s[13]), TextOf(s[14]),
          TextOf(s[15]), TextOf(s[16]), TextOf(s[17]), TextOf(s[18]), TextOf(s[19]),
          TextOf(s[20]), TextOf(s[21]), TextOf(s[22]), TextOf(s[23]), TextOf(s[24]),
          TextOf(s[25]), TextOf(s[26]), TextOf(s[27]), TextOf(s[28]), otherFields)
  }

  lemma HeadOfFromSlots(s: seq<Value>, otherFields: Bytes)
    requires WellKinded(s)
    ensures HeadSlots(FromSlots(s, otherFields)) == s[..10]
  {
    assert forall j :: 0 <= j < 10 ==> Fits(j, s[j]);
  }

  lemma MiddleOfFromSlots(s: seq<Value>, otherFields: Bytes)
    requires WellKinded(s)
    ensures MiddleSlots(FromSlots(s, otherFields)) == s[10..20]
  {
    assert forall j :: 10 <= j < 20 ==> Fits(j, s[j]);
  }

  lemma TailOfFromSlots(s: seq<Value>, otherFields: Bytes)
    requires WellKinded(s)
    ensures TailSlots(FromSlots(s, otherFields)) == s[20..]
  {
    assert forall j :: 20 <= j < TYPED_FIELDS ==> Fits(j, s[j]);
  }

  /** Reading a well-kinded table into a log and back gives the table. */
  lemma SlotsOfFromSlots(s: seq<Value>, otherFields: Bytes)
    requires WellKinded(s)
    ensures Slots(FromSlots(s, otherFields)) == s
  {
    HeadOfFromSlots(s, otherFields);
    MiddleOfFromSlots(s, otherFields);
    TailOfFromSlots(s, otherFields);
    assert s == s[..10] + s[10..20] + s[20..];
  }

  /** A log is determined by its typed fields and its OtherFields. */
  lemma FromSlotsOfSlots(log: Log, otherFields: Bytes)
    ensures FromSlots(Slots(log), otherFields) == log.(otherFields := otherFields)
  {
  }

  /**
   * The assignment half of the switch in Parse (elblog.go:69-155): write the
   * converted value of token `i` into field `i`.  Exactly that slot changes.
   */
  function Store(log: Log, i: nat, v: Value): (r: Log)
    requires i < TYPED_FIELDS && Fits(i, v)
    ensures Slots(r) == Slots(log)[i := v]
    ensures r.otherFields == log.otherFields
  {
    SlotsOfFromSlots(Slots(log)[i := v], log.otherFields);
    FromSlots(Slots(log)[i := v], log.otherFields)
  }

  /** Go's string(tok): a nil token reads as the empty string. */
  function TokenText(tok: Option<Bytes>): Bytes
  {
    match tok
    case None => []
    case Some(t) => t
  }

  /**
   * The endpoint conversion of positions 3 and 4 (elblog.go:77-103): the
   * token is split on every ':'.  One part is a host with port 0; two parts
   * are a host and a base-10 32-bit port (a bad port is an error, None);
   * three or more parts leave the address nil without an error.
   */
  function ParseEndpoint(t: Bytes): (r: Option<Option<Endpoint>>)
    ensures r.Some? && r.value.Some? ==> ':' !in r.value.value.host && InInt32(r.value.value.port)
  {
    var parts := Split(t, ':');
    SplitParts(t, ':');
    if |parts| == 1 then Some(Some(Endpoint(parts[0], 0)))
    else if |parts| == 2 then
      match ParseInt32(parts[1])
      case None => None
      case Some(port) => Some(Some(Endpoint(parts[0], port)))
    else Some(None)
  }

  /**
   * The conversion half of the switch in Parse (elblog.go:69-155) for typed
   * position `i`; None is a conversion error.  Integer fields and ports only
   * ever hold values of the signed 32-bit range.
   */
  function Convert(conv: Conversions, i: nat, tok: Option<Bytes>): (r: Option<Value>)
    requires i < TYPED_FIELDS
    ensures r.Some? ==> Fits(i, r.value)
    ensures r.Some? && r.value.Number? ==> InInt32(r.value.number)
    ensures r.Some? && r.value.Addr? && r.value.endpoint.Some? ==> InInt32(r.value.endpoint.value.port)
    ensures KindAt(i) == TextKind ==> r == Some(Text(TokenText(tok)))
  {
    var t := TokenText(tok);
    match KindAt(i)
    case TextKind => Some(Text(t))
    case TimeKind =>
      (match conv.parseTime(t) case None => None case Some(x) => Some(At(x)))
    case EndpointKind =>
      (match ParseEndpoint(t) case None => None case Some(e) => Some(Addr(e)))
    case DurationKind =>
      (match conv.parseSeconds(t) case None => None case Some(d) => Some(Elapsed(d)))
    case IntKind =>
      (match ParseInt32(t) case None => None case Some(n) => Some(Number(n)))
  }

  // ---------------------------------------------------------------------
  // Endpoint tokens
  // ---------------------------------------------------------------------

  /** `host:port` with a port text that parses to `n` gives that host and port `n`. */
  lemma EndpointWithPort(host: Bytes, port: Bytes, n: int)
    requires ':' !in host && ':' !in port && ParseInt32(port) == Some(n)
    ensures ParseEndpoint(host + [':'] + port) == Some(Some(Endpoint(host, n)))
  {
    SplitPrefix(host, port, ':');
    SplitWithout(port, ':');
  }

  /** A bare host gives that host with port 0. */
  lemma EndpointWithoutPort(host: Bytes)
    requires ':' !in host
    ensures ParseEndpoint(host) == Some(Some(Endpoint(host, 0)))
  {
    SplitWithout(host, ':');
  }

  /** A port that is not a base-10 32-bit integer is a conversion error. */
  lemma EndpointBadPort(host: Bytes, port: Bytes)
    requires ':' !in host && ':' !in port && ParseInt32(port).None?
    ensures ParseEndpoint(host + [':'] + port) == None
  {
    SplitPrefix(host, port, ':');
    SplitWithout(port, ':');
  }

  /** Two or more ':' (an IPv6 literal, say) leave the address nil, without an error. */
  lemma EndpointManyColons(t: Bytes)
    requires Count(t, ':') >= 2
    ensures ParseEndpoint(t) == Some(None)
  {
    SplitParts(t, ':');
  }
}
