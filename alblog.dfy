/**
 * The ALBLogSchema record of schemas/alblog.go, a row of the Parquet table,
 * and ELBLogToALBLogSchema, which builds one from a parsed Log.
 */
module AlbSchema {
  import opened Wrappers
  import opened ByteStrings
  import opened Strconv
  import opened ElbLog
  import opened ElbScan
  import opened ElbParse

  /**
   * The library calls the conversion makes and this model does not define:
   * Time.Format with the RFC3339 layout, IP.String() of the address
   * net.ParseIP makes of a host, and Duration.Seconds() (a float64, stood
   * in for by the real the library's result denotes).
   */
  datatype Formatters = Formatters(
    formatTime: Instant -> Bytes,
    ipString: Bytes -> Bytes,
    seconds: Duration -> real)

  /** One row of the schema (schemas/alblog.go:13-44); int32 and int64 columns are ints. */
  datatype AlbLog = AlbLog(
    logType: Bytes,
    time: Bytes,
    elb: Bytes,
    clientIp: Bytes,
    clientPort: int,
    targetIp: Bytes,
    targetPort: int,
    requestProcessingTime: real,
    targetProcessingTime: real,
    responseProcessingTime: real,
    elbStatusCode: Bytes,
    targetStatusCode: Bytes,
    receivedBytes: int,
    sentBytes: int,
    requestVerb: Bytes,
    requestUrl: Bytes,
    requestProto: Bytes,
    userAgent: Bytes,
    sslCipher: Bytes,
    sslProtocol: Bytes,
    targetGroupArn: Bytes,
    traceId: Bytes,
    domainName: Bytes,
    chosenCertArn: Bytes,
    matchedRulePriority: Bytes,
    requestCreationTime: Bytes,
    actionsExecuted: Bytes,
    redirectUrl: Bytes,
    errorReason: Bytes,
    otherFields: Bytes)

  /**
   * What the conversion demands of its argument: both addresses are set
   * (it dereferences them) and the request has at least three
   * space-separated parts (it indexes the third).
   */
  predicate Convertible(log: Log)
  {
    log.from.Some? && log.to.Some? && Count(log.request, SPACE) >= 2
  }

  /**
   * ELBLogToALBLogSchema.  The three request parts are the first three
   * pieces of the request cut at single spaces; they hold no space.  The
   * port columns are the endpoint ports narrowed to int32: in the 32-bit
   * range and equal to the port modulo 2^32.
   */
  function ToAlbLog(fmt: Formatters, log: Log): (r: AlbLog)
    requires Convertible(log)
    ensures SPACE !in r.requestVerb && SPACE !in r.requestUrl && SPACE !in r.requestProto
    ensures InInt32(r.clientPort) && (r.clientPort - log.from.value.port) % 0x1_0000_0000 == 0
    ensures InInt32(r.targetPort) && (r.targetPort - log.to.value.port) % 0x1_0000_0000 == 0
  {
    var parts := Split(log.request, SPACE);
    SplitParts(log.request, SPACE);
    AlbLog(
      log.logType,
      fmt.formatTime(log.time),
      log.name,
      fmt.ipString(log.from.value.host),
      ToInt32(log.from.value.port),
      fmt.ipString(log.to.value.host),
      ToInt32(log.to.value.port),
      fmt.seconds(log.requestProcessingTime),
      fmt.seconds(log.backendProcessingTime),
      fmt.seconds(log.responseProcessingTime),
      Itoa(log.elbStatusCode),
      log.backendStatusCode,
      log.receivedBytes,
      log.sentBytes,
      parts[0],
      parts[1],
      parts[2],
      log.userAgent,
      log.sslCipher,
      log.sslProtocol,
      log.targetGroupArn,
      log.traceId,
      log.domainName,
      log.chosenCertArn,
      log.matchedRulePriority,
      log.requestCreationTime,
      log.actionsExecuted,
      log.redirectUrl,
      log.errorReason,
      log.otherFields)
  }

  /** `a + [sep] + b + [sep] + c` with the separators written out. */
  function Triple(a: Bytes, b: Bytes, c: Bytes): Bytes
  {
    a + [SPACE] + b + [SPACE] + c
  }

  /** Joining at least two parts puts the first in front of the join of the rest. */
  lemma JoinCons(parts: seq<Bytes>)
    requires |parts| >= 2
    ensures Join(parts, SPACE) == parts[0] + ([SPACE] + Join(parts[1..], SPACE))
  {
  }

  /** Regrouping `a`, `b` and `c` with separators and a tail. */
  lemma TripleThen(a: Bytes, b: Bytes, c: Bytes, tail: Bytes)
    ensures a + ([SPACE] + (b + ([SPACE] + (c + tail)))) == Triple(a, b, c) + tail
  {
  }

  /** The join of the parts after the first two: the third part, then the tail. */
  lemma JoinAfterTwo(parts: seq<Bytes>)
    requires |parts| >= 3
    ensures Join(parts[2..], SPACE) == parts[2] + (if |parts| == 3 then [] else [SPACE] + Join(parts[3..], SPACE))
  {
    var t2 := parts[2..];
    if |parts| > 3 {
      JoinCons(t2);
      assert t2[1..] == parts[3..];
    }
  }

  /** Joining three or more parts: the first three, then the join of the others. */
  lemma JoinThree(parts: seq<Bytes>)
    requires |parts| >= 3
    ensures |parts| == 3 ==> Join(parts, SPACE) == Triple(parts[0], parts[1], parts[2])
    ensures |parts| > 3 ==>
      Join(parts, SPACE) == Triple(parts[0], parts[1], parts[2]) + ([SPACE] + Join(parts[3..], SPACE))
  {
    var t1 := parts[1..];
    var tail := if |parts| == 3 then [] else [SPACE] + Join(parts[3..], SPACE);
    assert Join(t1, SPACE) == parts[1] + ([SPACE] + (parts[2] + tail)) by {
      JoinCons(t1);
      assert t1[1..] == parts[2..];
      JoinAfterTwo(parts);
    }
    JoinCons(parts);
    TripleThen(parts[0], parts[1], parts[2], tail);
  }

  /** Joining parts puts the first three, space-separated, in front, and nothing else when there are three. */
  lemma JoinFront(parts: seq<Bytes>)
    requires |parts| >= 3
    ensures Triple(parts[0], parts[1], parts[2]) <= Join(parts, SPACE)
    ensures |parts| == 3 <==> Triple(parts[0], parts[1], parts[2]) == Join(parts, SPACE)
  {
    JoinThree(parts);
    if |parts| > 3 {
      var t := Triple(parts[0], parts[1], parts[2]);
      var rest := [SPACE] + Join(parts[3..], SPACE);
      assert t <= t + rest;
      assert |t| < |t + rest|;
    }
  }

  /**
   * The request is its verb, URL and protocol separated by single spaces,
   * followed by a third space and whatever came after it when there is one;
   * nothing follows exactly when the request holds two spaces.
   */
  lemma RequestParts(fmt: Formatters, log: Log)
    requires Convertible(log)
    ensures var r := ToAlbLog(fmt, log);
      var t := Triple(r.requestVerb, r.requestUrl, r.requestProto);
      && t <= log.request
      && (t == log.request <==> Count(log.request, SPACE) == 2)
      && (|t| < |log.request| ==> log.request[|t|] == SPACE)
  {
    var parts := Split(log.request, SPACE);
    SplitParts(log.request, SPACE);
    JoinSplit(log.request, SPACE);
    JoinFront(parts);
    JoinThree(parts);
  }

  /** A request made of three space-free parts gives exactly those parts back. */
  lemma RequestOfParts(fmt: Formatters, log: Log, verb: Bytes, url: Bytes, proto: Bytes)
    requires log.from.Some? && log.to.Some?
    requires SPACE !in verb && SPACE !in url && SPACE !in proto
    requires log.request == Triple(verb, url, proto)
    ensures Convertible(log)
    ensures var r := ToAlbLog(fmt, log);
      r.requestVerb == verb && r.requestUrl == url && r.requestProto == proto
  {
    var parts := [verb, url, proto];
    JoinFront(parts);
    SplitJoin(parts, SPACE);
    SplitParts(log.request, SPACE);
  }

  /**
   * The status code column is the decimal text of the code: parsing it with
   * the same 32-bit parser Parse uses gives the code back.
   */
  lemma StatusCodeText(fmt: Formatters, log: Log)
    requires Convertible(log) && InInt32(log.elbStatusCode)
    ensures ParseInt32(ToAlbLog(fmt, log).elbStatusCode) == Some(log.elbStatusCode)
  {
    ParseItoa(log.elbStatusCode);
  }

  /** The text of typed token `k`, or empty past the last token. */
  function TokenAt(toks: seq<Option<Bytes>>, k: nat): Bytes
  {
    if k < |toks| then TokenText(toks[k]) else []
  }

  /**
   * In a slot table that the typed tokens convert into, and that holds the
   * zero value past the last token, a text slot holds its token's text.
   */
  lemma TextSlot(conv: Conversions, toks: seq<Option<Bytes>>, s: seq<Value>, k: nat)
    requires |toks| <= TYPED_FIELDS && |s| == TYPED_FIELDS
    requires forall j :: 0 <= j < |toks| ==> Convert(conv, j, toks[j]) == Some(s[j])
    requires forall j :: |toks| <= j < TYPED_FIELDS ==> s[j] == ZeroOf(KindAt(j))
    requires k < TYPED_FIELDS && KindAt(k) == TextKind
    ensures TextOf(s[k]) == TokenAt(toks, k)
  {
    if k < |toks| {
      assert Convert(conv, k, toks[k]) == Some(s[k]);
    } else {
      assert s[k] == ZeroOf(KindAt(k));
    }
  }

  /**
   * The text fields of a log filled from a slot table as above are their
   * tokens' texts: here the entry's type, load balancer name and backend
   * status code, the user agent, TLS and target group fields and the trace
   * id ...
   */
  lemma FilledClientTexts(conv: Conversions, toks: seq<Option<Bytes>>, s: seq<Value>, log: Log)
    requires |toks| <= TYPED_FIELDS && |s| == TYPED_FIELDS && log == FromSlots(s, log.otherFields)
    requires forall j :: 0 <= j < |toks| ==> Convert(conv, j, toks[j]) == Some(s[j])
    requires forall j :: |toks| <= j < TYPED_FIELDS ==> s[j] == ZeroOf(KindAt(j))
    ensures log.logType == TokenAt(toks, 0) && log.name == TokenAt(toks, 2)
    ensures log.backendStatusCode == TokenAt(toks, 9)
    ensures log.userAgent == TokenAt(toks, 13) && log.sslCipher == TokenAt(toks, 14)
    ensures log.sslProtocol == TokenAt(toks, 15) && log.targetGroupArn == TokenAt(toks, 16)
    ensures log.traceId == TokenAt(toks, 17)
  {
    TextSlot(conv, toks, s, 0);
    TextSlot(conv, toks, s, 2);
    TextSlot(conv, toks, s, 9);
    TextSlot(conv, toks, s, 13);
    TextSlot(conv, toks, s, 14);
    TextSlot(conv, toks, s, 15);
    TextSlot(conv, toks, s, 16);
    TextSlot(conv, toks, s, 17);
  }

  /** ... and the domain, certificate, rule, redirect and error fields. */
  lemma FilledRuleTexts(conv: Conversions, toks: seq<Option<Bytes>>, s: seq<Value>, log: Log)
    requires |toks| <= TYPED_FIELDS && |s| == TYPED_FIELDS && log == FromSlots(s, log.otherFields)
    requires forall j :: 0 <= j < |toks| ==> Convert(conv, j, toks[j]) == Some(s[j])
    requires forall j :: |toks| <= j < TYPED_FIELDS ==> s[j] == ZeroOf(KindAt(j))
    ensures log.domainName == TokenAt(toks, 18) && log.chosenCertArn == TokenAt(toks, 19)
    ensures log.matchedRulePriority == TokenAt(toks, 20) && log.requestCreationTime == TokenAt(toks, 21)
    ensures log.actionsExecuted == TokenAt(toks, 22) && log.redirectUrl == TokenAt(toks, 23)
    ensures log.errorReason == TokenAt(toks, 24)
  {
    TextSlot(conv, toks, s, 18);
    TextSlot(conv, toks, s, 19);
    TextSlot(conv, toks, s, 20);
    TextSlot(conv, toks, s, 21);
    TextSlot(conv, toks, s, 22);
    TextSlot(conv, toks, s, 23);
    TextSlot(conv, toks, s, 24);
  }

  /**
   * A log filled from a slot table as above, with both addresses set, has
   * 32-bit ports: the endpoint conversion accepts no others, and the zero
   * value has no address.
   */
  lemma FilledPorts(conv: Conversions, toks: seq<Option<Bytes>>, s: seq<Value>, log: Log)
    requires |toks| <= TYPED_FIELDS && |s| == TYPED_FIELDS && log == FromSlots(s, log.otherFields)
    requires forall j :: 0 <= j < |toks| ==> Convert(conv, j, toks[j]) == Some(s[j])
    requires forall j :: |toks| <= j < TYPED_FIELDS ==> s[j] == ZeroOf(KindAt(j))
    requires log.from.Some? && log.to.Some?
    ensures InInt32(log.from.value.port) && InInt32(log.to.value.port)
  {
    assert 4 < |toks|;
    assert Convert(conv, 3, toks[3]) == Some(s[3]);
    assert Convert(conv, 4, toks[4]) == Some(s[4]);
  }

  /** A log filled from a slot table as above has a 32-bit ELB status code. */
  lemma FilledStatus(conv: Conversions, toks: seq<Option<Bytes>>, s: seq<Value>, log: Log)
    requires |toks| <= TYPED_FIELDS && |s| == TYPED_FIELDS && log == FromSlots(s, log.otherFields)
    requires forall j :: 0 <= j < |toks| ==> Convert(conv, j, toks[j]) == Some(s[j])
    requires forall j :: |toks| <= j < TYPED_FIELDS ==> s[j] == ZeroOf(KindAt(j))
    ensures InInt32(log.elbStatusCode)
  {
    if 8 < |toks| {
      assert Convert(conv, 8, toks[8]) == Some(s[8]);
    } else {
      assert s[8] == ZeroOf(KindAt(8));
    }
  }

  /**
   * A row made from a parsed line: the copied columns are the line's tokens
   * at their positions, the status code reads back as the parsed code, and
   * the ports pass through unchanged, since Parse only accepts 32-bit ports.
   */
  lemma SchemaOfParsedLine(conv: Conversions, fmt: Formatters, line: Bytes, log: Log)
    requires ParseSpec(conv, line) == Success(log) && Convertible(log)
    ensures var r := ToAlbLog(fmt, log);
      var sp := Spans(line);
      var toks := TypedTokens(sp, 0);
      && r.logType == TokenAt(toks, 0)
      && r.elb == TokenAt(toks, 2)
      && r.targetStatusCode == TokenAt(toks, 9)
      && r.userAgent == TokenAt(toks, 13)
      && r.sslCipher == TokenAt(toks, 14)
      && r.sslProtocol == TokenAt(toks, 15)
      && r.targetGroupArn == TokenAt(toks, 16)
      && r.traceId == TokenAt(toks, 17)
      && r.domainName == TokenAt(toks, 18)
      && r.chosenCertArn == TokenAt(toks, 19)
      && r.matchedRulePriority == TokenAt(toks, 20)
      && r.requestCreationTime == TokenAt(toks, 21)
      && r.actionsExecuted == TokenAt(toks, 22)
      && r.redirectUrl == TokenAt(toks, 23)
      && r.errorReason == TokenAt(toks, 24)
      && r.otherFields == (if |sp| == NUM_TOKENS then sp[NUM_TOKENS - 1] else [])
      && r.clientPort == log.from.value.port
      && r.targetPort == log.to.value.port
      && ParseInt32(r.elbStatusCode) == Some(log.elbStatusCode)
  {
    var toks := TypedTokens(Spans(line), 0);
    var s := Slots(log);
    ParseSuccess(conv, line, log);
    forall j | |toks| <= j < TYPED_FIELDS
      ensures s[j] == ZeroOf(KindAt(j))
    {
      ZeroSlots(j);
    }
    FromSlotsOfSlots(log, log.otherFields);
    FilledClientTexts(conv, toks, s, log);
    FilledRuleTexts(conv, toks, s, log);
    FilledPorts(conv, toks, s, log);
    FilledStatus(conv, toks, s, log);
    StatusCodeText(fmt, log);
  }
}
