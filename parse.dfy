/**
 * `Parse` of elblog.go: the positional dispatcher that drives the tokenizer
 * across one line, converts token i into field i, and keeps everything from
 * the thirtieth token on, verbatim, as OtherFields.
 *
 * The reference definition `ParseSpec` is stated in two phases: `Spans`
 * lists the suffixes of the line that the tokenizer is handed, one per
 * position, and `Dispatch` converts the typed tokens of those spans into a
 * table of field values (`Apply`, stopping at the first failure) and keeps
 * the span at position 29 as OtherFields.  `ParseLine` is the source's loop
 * as a recursive function, `ParseLineIsSpec` equates the two, and the method
 * `Parse` is the loop itself, proved to compute `ParseLine`.
 */
module ElbParse {
  import opened Wrappers
  import opened ByteStrings
  import opened Strconv
  import opened ElbScan
  import opened ElbLog

  /** At most this many tokens are scanned from one line (elblog.go:47). */
  const NUM_TOKENS: nat := 30

  /** "invalid field %q at index %d": the offending token and its position. */
  datatype ParseError = ParseError(token: Bytes, index: nat)

  /**
   * The spans handed to the tokenizer from position `i` on, starting with
   * `data`.  The next span is what is left after the token's advance; there
   * is none once that is nothing, or after position 29, where the whole span
   * is taken as OtherFields.
   */
  function SpansFrom(data: Bytes, i: nat): (sp: seq<Bytes>)
    requires |data| > 0 && i < NUM_TOKENS
    ensures 1 <= |sp| <= NUM_TOKENS - i
    ensures sp[0] == data
    decreases NUM_TOKENS - i
  {
    var adv := NextToken(data).advance;
    if i + 1 < NUM_TOKENS && adv < |data| then [data] + SpansFrom(data[adv..], i + 1) else [data]
  }

  /** The spans of a whole line: none for the empty line. */
  function Spans(line: Bytes): (sp: seq<Bytes>)
    ensures |sp| <= NUM_TOKENS
  {
    if |line| == 0 then [] else SpansFrom(line, 0)
  }

  /** The tokens of the typed positions: one per span, except the OtherFields span at 29. */
  function TypedTokens(sp: seq<Bytes>, i: nat): (toks: seq<Option<Bytes>>)
    requires i <= TYPED_FIELDS
    ensures |toks| == if i + |sp| <= TYPED_FIELDS then |sp| else TYPED_FIELDS - i
  {
    var n := if i + |sp| <= TYPED_FIELDS then |sp| else TYPED_FIELDS - i;
    seq(n, k requires 0 <= k < n => NextToken(sp[k]).token)
  }

  /**
   * Convert the tokens of positions i, i+1, ... in turn and write each into
   * its slot of the table `slots`; the first conversion that fails is the
   * error.
   */
  function Apply(conv: Conversions, toks: seq<Option<Bytes>>, i: nat, slots: seq<Value>): (r: Result<seq<Value>, ParseError>)
    requires i + |toks| <= TYPED_FIELDS && |slots| == TYPED_FIELDS
    ensures r.Success? ==> |r.value| == TYPED_FIELDS
    decreases |toks|
  {
    if |toks| == 0 then Success(slots)
    else
      match Convert(conv, i, toks[0])
      case None => Failure(ParseError(TokenText(toks[0]), i))
      case Some(v) => Apply(conv, toks[1..], i + 1, slots[i := v])
  }

  /**
   * The second phase from position `i` on: convert the typed tokens of the
   * spans `sp` into `slots`, and keep the span at position 29, if the spans
   * reach it, as OtherFields.
   */
  function Dispatch(conv: Conversions, sp: seq<Bytes>, i: nat, slots: seq<Value>): Result<Log, ParseError>
    requires i <= TYPED_FIELDS && |slots| == TYPED_FIELDS
  {
    Complete(conv, TypedTokens(sp, i), i, slots, if i + |sp| == NUM_TOKENS then sp[|sp| - 1] else [])
  }

  /** Convert `toks` from position `i` on into `slots`, then read the table into a log with OtherFields `other`. */
  function Complete(conv: Conversions, toks: seq<Option<Bytes>>, i: nat, slots: seq<Value>, other: Bytes): Result<Log, ParseError>
    requires i + |toks| <= TYPED_FIELDS && |slots| == TYPED_FIELDS
  {
    match Apply(conv, toks, i, slots)
    case Failure(e) => Failure(e)
    case Success(filled) => Success(FromSlots(filled, other))
  }

  /**
   * Reference definition of Parse in two phases: first cut the line into
   * its spans, then dispatch them into the fields of the zero record.
   */
  function ParseSpec(conv: Conversions, line: Bytes): Result<Log, ParseError>
  {
    Dispatch(conv, Spans(line), 0, Slots(ZERO_LOG))
  }

  /**
   * The loop of Parse as a recursive function: scan the span `data` at
   * position `i`, write its converted token into `slots`, and go on with
   * what is left.
   */
  function ParseFrom(conv: Conversions, data: Bytes, i: nat, slots: seq<Value>): Result<Log, ParseError>
    requires |data| > 0 && i < NUM_TOKENS && |slots| == TYPED_FIELDS
    decreases NUM_TOKENS - i
  {
    var scanned := NextToken(data);
    if i == NUM_TOKENS - 1 then Success(FromSlots(slots, data))
    else
      match Convert(conv, i, scanned.token)
      case None => Failure(ParseError(TokenText(scanned.token), i))
      case Some(v) =>
        if scanned.advance < |data| then ParseFrom(conv, data[scanned.advance..], i + 1, slots[i := v])
        else Success(FromSlots(slots[i := v], []))
  }

  /** What Parse returns for a line: the empty line gives the zero record. */
  function ParseLine(conv: Conversions, line: Bytes): Result<Log, ParseError>
  {
    if |line| == 0 then Success(ZERO_LOG) else ParseFrom(conv, line, 0, Slots(ZERO_LOG))
  }

  /**
   * The spans `sp`, from position `i` on, each lead to the next: every span
   * is non-empty, there is a next one exactly when the token's advance
   * leaves something before position 29, and it is what is left.
   */
  predicate Chained(sp: seq<Bytes>, i: nat)
  {
    forall k :: 0 <= k < |sp| ==> ChainLink(sp, i, k)
  }

  predicate ChainLink(sp: seq<Bytes>, i: nat, k: nat)
    requires k < |sp|
  {
    var adv := NextToken(sp[k]).advance;
    && |sp[k]| > 0
    && (k + 1 < |sp| <==> i + k + 1 < NUM_TOKENS && adv < |sp[k]|)
    && (k + 1 < |sp| ==> sp[k + 1] == sp[k][adv..])
  }

  /** A span put before a chain that starts with what its token leaves is a chain. */
  lemma ChainCons(data: Bytes, rest: seq<Bytes>, i: nat)
    requires |data| > 0 && Chained(rest, i + 1)
    requires |rest| > 0 <==> i + 1 < NUM_TOKENS && NextToken(data).advance < |data|
    requires |rest| > 0 ==> rest[0] == data[NextToken(data).advance..]
    ensures Chained([data] + rest, i)
  {
    var sp := [data] + rest;
    forall k | 0 <= k < |sp|
      ensures ChainLink(sp, i, k)
    {
      if k > 0 {
        assert ChainLink(rest, i + 1, k - 1);
        assert sp[k] == rest[k - 1];
        assert k + 1 < |sp| ==> sp[k + 1] == rest[k];
      }
    }
  }

  /** The spans of any position form a chain. */
  lemma {:induction false} SpansFromChained(data: Bytes, i: nat)
    requires |data| > 0 && i < NUM_TOKENS
    ensures Chained(SpansFrom(data, i), i)
    decreases NUM_TOKENS - i
  {
    var adv := NextToken(data).advance;
    if i + 1 < NUM_TOKENS && adv < |data| {
      SpansFromChained(data[adv..], i + 1);
      ChainCons(data, SpansFrom(data[adv..], i + 1), i);
    } else {
      ChainCons(data, [], i);
    }
  }

  /** How one span leads to the next. */
  lemma SpansFromStep(data: Bytes, i: nat, k: nat)
    requires |data| > 0 && i < NUM_TOKENS && k < |SpansFrom(data, i)|
    ensures var sp := SpansFrom(data, i);
      var adv := NextToken(sp[k]).advance;
      && |sp[k]| > 0
      && (k + 1 < |sp| <==> i + k + 1 < NUM_TOKENS && adv < |sp[k]|)
      && (k + 1 < |sp| ==> sp[k + 1] == sp[k][adv..])
  {
    SpansFromChained(data, i);
    assert ChainLink(SpansFrom(data, i), i, k);
  }

  /**
   * The spans of a line: the first is the line itself, each next one is
   * what the previous token's advance leaves, and the list stops exactly
   * when nothing is left or position 29 is reached.
   */
  lemma SpansStep(line: Bytes, k: nat)
    requires k < |Spans(line)|
    ensures var sp := Spans(line);
      var adv := NextToken(sp[k]).advance;
      && sp[0] == line && |sp[k]| > 0
      && (k + 1 < |sp| <==> k + 1 < NUM_TOKENS && adv < |sp[k]|)
      && (k + 1 < |sp| ==> sp[k + 1] == sp[k][adv..])
  {
    SpansFromStep(line, 0, k);
  }

  /** Dispatching a span and then the rest is converting its token, then dispatching the rest. */
  lemma DispatchStep(conv: Conversions, data: Bytes, rest: seq<Bytes>, i: nat, slots: seq<Value>)
    requires i < TYPED_FIELDS && |slots| == TYPED_FIELDS
    ensures Dispatch(conv, [data] + rest, i, slots) ==
      match Convert(conv, i, NextToken(data).token)
      case None => Failure(ParseError(TokenText(NextToken(data).token), i))
      case Some(v) => Dispatch(conv, rest, i + 1, slots[i := v])
  {
    var toks := TypedTokens([data] + rest, i);
    assert toks[0] == NextToken(data).token;
    assert toks[1..] == TypedTokens(rest, i + 1);
  }

  /** At position 29 both definitions take the whole span as OtherFields. */
  lemma ParseFromLast(conv: Conversions, data: Bytes, slots: seq<Value>)
    requires |data| > 0 && |slots| == TYPED_FIELDS
    ensures ParseFrom(conv, data, NUM_TOKENS - 1, slots) == Dispatch(conv, SpansFrom(data, NUM_TOKENS - 1), NUM_TOKENS - 1, slots)
  {
    assert SpansFrom(data, NUM_TOKENS - 1) == [data];
    assert TypedTokens([data], NUM_TOKENS - 1) == [];
  }

  /** Scanning and converting token by token is the two-phase definition, from any position. */
  lemma {:induction false} ParseFromDispatch(conv: Conversions, data: Bytes, i: nat, slots: seq<Value>)
    requires |data| > 0 && i < NUM_TOKENS && |slots| == TYPED_FIELDS
    ensures ParseFrom(conv, data, i, slots) == Dispatch(conv, SpansFrom(data, i), i, slots)
    decreases NUM_TOKENS - i
  {
    if i == NUM_TOKENS - 1 {
      ParseFromLast(conv, data, slots);
    } else {
      var scanned := NextToken(data);
      var rest := if scanned.advance < |data| then SpansFrom(data[scanned.advance..], i + 1) else [];
      assert SpansFrom(data, i) == [data] + rest;
      DispatchStep(conv, data, rest, i, slots);
      match Convert(conv, i, scanned.token)
      case None =>
      case Some(v) =>
        if scanned.advance < |data| {
          ParseFromDispatch(conv, data[scanned.advance..], i + 1, slots[i := v]);
        } else {
          assert Dispatch(conv, [], i + 1, slots[i := v]) == Success(FromSlots(slots[i := v], []));
        }
    }
  }

  /** Parse's loop computes the two-phase definition. */
  lemma ParseLineIsSpec(conv: Conversions, line: Bytes)
    ensures ParseLine(conv, line) == ParseSpec(conv, line)
  {
    if |line| > 0 {
      ParseFromDispatch(conv, line, 0, Slots(ZERO_LOG));
    } else {
      FromSlotsOfSlots(ZERO_LOG, []);
    }
  }

  /** In a chain every span is a suffix of the first, each shorter than the one before. */
  lemma {:induction false} ChainSuffixes(sp: seq<Bytes>, i: nat, k: nat)
    requires Chained(sp, i) && k < |sp|
    ensures |sp[k]| <= |sp[0]| && sp[k] == sp[0][|sp[0]| - |sp[k]|..]
    ensures k > 0 ==> |sp[k]| < |sp[k - 1]|
  {
    if k > 0 {
      assert ChainLink(sp, i, k - 1);
      ChainSuffixes(sp, i, k - 1);
    }
  }

  /**
   * Every span is a suffix of the line, each strictly shorter than the one
   * before; so OtherFields is the line's own tail, verbatim.
   */
  lemma SpansAreSuffixes(line: Bytes, k: nat)
    requires k < |Spans(line)|
    ensures var sp := Spans(line);
      && |sp[k]| <= |line| && sp[k] == line[|line| - |sp[k]|..]
      && (k > 0 ==> |sp[k]| < |sp[k - 1]|)
  {
    assert |line| > 0;
    var sp := SpansFrom(line, 0);
    SpansFromChained(line, 0);
    ChainSuffixes(sp, 0, k);
  }

  /** A word the tokenizer returns as it is: non-empty, with no space and no quote. */
  predicate IsPlainWord(w: Bytes)
  {
    |w| > 0 && SPACE !in w && QUOTE !in w
  }

  /** The first of words joined by single spaces is scanned as it is, with the space after it. */
  lemma JoinedHead(words: seq<Bytes>)
    requires |words| >= 1 && IsPlainWord(words[0])
    ensures |words| == 1 ==> NextToken(Join(words, SPACE)) == Scanned(|words[0]|, Some(words[0]))
    ensures |words| > 1 ==>
      && NextToken(Join(words, SPACE)) == Scanned(|words[0]| + 1, Some(words[0]))
      && Join(words, SPACE)[|words[0]| + 1..] == Join(words[1..], SPACE)
  {
    var line := Join(words, SPACE);
    var w := words[0];
    if |words| == 1 {
      assert [] + w + [] == line;
      PlainWord([], w, []);
    } else {
      var rest := Join(words[1..], SPACE);
      assert line == [] + w + ([SPACE] + rest) by {
        assert line == w + [SPACE] + rest;
      }
      assert line[|w| + 1..] == rest by {
        assert line == w + [SPACE] + rest;
      }
      PlainWord([], w, [SPACE] + rest);
    }
  }

  /** Words joined by single spaces are not empty when the first word is not. */
  lemma JoinedNonEmpty(words: seq<Bytes>)
    requires |words| >= 1
    ensures |Join(words, SPACE)| >= |words[0]|
  {
  }

  /** How the spans of joined words start: the whole line, then the line from the second word. */
  lemma JoinedWordsStep(words: seq<Bytes>, i: nat)
    requires 1 <= |words| && i + |words| <= NUM_TOKENS && |words[0]| > 0
    requires i < TYPED_FIELDS ==> IsPlainWord(words[0])
    requires |words| > 1 ==> |words[1]| > 0
    ensures |words| == 1 ==> SpansFrom(Join(words, SPACE), i) == [Join(words, SPACE)]
    ensures |words| > 1 ==>
      && |Join(words[1..], SPACE)| > 0
      && SpansFrom(Join(words, SPACE), i) == [Join(words, SPACE)] + SpansFrom(Join(words[1..], SPACE), i + 1)
  {
    var line := Join(words, SPACE);
    if |words| > 1 {
      JoinedNonEmpty(words[1..]);
      JoinedHead(words);
    } else if i < TYPED_FIELDS {
      JoinedHead(words);
    }
  }

  /**
   * Words joined by single spaces are cut into one span per word, from
   * position `i` on: span k is the line from word k on.  The word at
   * position 29 need not be plain, since it is never scanned.
   */
  lemma {:induction false} JoinedWordsSpans(words: seq<Bytes>, i: nat, k: nat)
    requires k < |words| && i + |words| <= NUM_TOKENS
    requires forall j :: 0 <= j < |words| ==> |words[j]| > 0
    requires forall j :: 0 <= j < |words| && i + j < TYPED_FIELDS ==> IsPlainWord(words[j])
    ensures var sp := SpansFrom(Join(words, SPACE), i);
      |sp| == |words| && sp[k] == Join(words[k..], SPACE)
    decreases |words|
  {
    JoinedWordsStep(words, i);
    if |words| > 1 {
      JoinedWordsSpans(words[1..], i + 1, if k > 0 then k - 1 else 0);
      if k > 0 {
        assert words[1..][k - 1..] == words[k..];
      }
    } else {
      assert words[0..] == words;
    }
  }

  /** A line of words joined by single spaces: the typed tokens are the first 29 words. */
  lemma JoinedWordsTokens(words: seq<Bytes>)
    requires 1 <= |words| <= NUM_TOKENS
    requires forall k :: 0 <= k < |words| ==> |words[k]| > 0
    requires forall k :: 0 <= k < |words| && k < TYPED_FIELDS ==> IsPlainWord(words[k])
    ensures var toks := TypedTokens(Spans(Join(words, SPACE)), 0);
      && |toks| == (if |words| < NUM_TOKENS then |words| else TYPED_FIELDS)
      && (forall k :: 0 <= k < |toks| ==> toks[k] == Some(words[k]))
  {
    var line := Join(words, SPACE);
    assert |line| > 0 by {
      JoinedNonEmpty(words);
    }
    JoinedWordsSpans(words, 0, 0);
    var sp := Spans(line);
    var toks := TypedTokens(sp, 0);
    forall k | 0 <= k < |toks|
      ensures toks[k] == Some(words[k])
    {
      assert sp[k] == Join(words[k..], SPACE) by {
        JoinedWordsSpans(words, 0, k);
      }
      assert words[k..][0] == words[k];
      JoinedHead(words[k..]);
    }
  }

  /** ... and a thirtieth word becomes OtherFields. */
  lemma JoinedWordsOtherFields(conv: Conversions, words: seq<Bytes>)
    requires 1 <= |words| <= NUM_TOKENS
    requires forall k :: 0 <= k < |words| ==> |words[k]| > 0
    requires forall k :: 0 <= k < |words| && k < TYPED_FIELDS ==> IsPlainWord(words[k])
    ensures var r := ParseSpec(conv, Join(words, SPACE));
      r.Success? ==> r.value.otherFields == (if |words| == NUM_TOKENS then words[TYPED_FIELDS] else [])
  {
    var line := Join(words, SPACE);
    assert |line| > 0 by {
      JoinedNonEmpty(words);
    }
    var sp := Spans(line);
    assert |sp| == |words| by {
      JoinedWordsSpans(words, 0, 0);
    }
    if |words| == NUM_TOKENS {
      assert sp[TYPED_FIELDS] == words[TYPED_FIELDS] by {
        JoinedWordsSpans(words, 0, TYPED_FIELDS);
        assert words[TYPED_FIELDS..] == [words[TYPED_FIELDS]];
      }
    }
    var r := ParseSpec(conv, line);
    if r.Success? {
      ParseSuccess(conv, line, r.value);
    }
  }

  /**
   * Trailing spaces: one after the last word is consumed with it, but two
   * leave a span of one space, whose scan hands the next field a nil token.
   */
  lemma TrailingSpaces(w: Bytes)
    requires IsPlainWord(w)
    ensures TypedTokens(Spans(w + [SPACE]), 0) == [Some(w)]
    ensures TypedTokens(Spans(w + [SPACE, SPACE]), 0) == [Some(w), None]
  {
    PlainWord([], w, [SPACE]);
    assert [] + w + [SPACE] == w + [SPACE];
    var two := w + [SPACE, SPACE];
    PlainWord([], w, [SPACE, SPACE]);
    assert [] + w + [SPACE, SPACE] == two;
    assert two[|w| + 1..] == [SPACE];
    SkipSpacesOver([SPACE], 0, 1);
    assert NextToken([SPACE]) == Scanned(1, None);
    assert SpansFrom(two, 0) == [two] + SpansFrom([SPACE], 1);
    assert SpansFrom([SPACE], 1) == [[SPACE]];
  }

  /**
   * A successful run of the conversions writes, at each position it covers,
   * the value its token converts to, and changes nothing else; the table
   * keeps every value of the kind its position expects.
   */
  lemma {:induction false} ApplySuccess(conv: Conversions, toks: seq<Option<Bytes>>, i: nat, slots: seq<Value>, r: seq<Value>)
    requires i + |toks| <= TYPED_FIELDS && |slots| == TYPED_FIELDS
    requires Apply(conv, toks, i, slots) == Success(r)
    ensures forall k :: 0 <= k < |toks| ==> Convert(conv, i + k, toks[k]) == Some(r[i + k])
    ensures forall j :: 0 <= j < TYPED_FIELDS && !(i <= j < i + |toks|) ==> r[j] == slots[j]
    ensures WellKinded(slots) ==> WellKinded(r)
    decreases |toks|
  {
    if |toks| > 0 {
      var v := Convert(conv, i, toks[0]).value;
      ApplySuccess(conv, toks[1..], i + 1, slots[i := v], r);
      forall k | 0 <= k < |toks|
        ensures Convert(conv, i + k, toks[k]) == Some(r[i + k])
      {
        if k > 0 {
          assert toks[k] == toks[1..][k - 1];
        }
      }
    }
  }

  /**
   * A failed run names the first position whose token does not convert, and
   * the text of that token; every earlier token converts.
   */
  lemma {:induction false} ApplyFailure(conv: Conversions, toks: seq<Option<Bytes>>, i: nat, slots: seq<Value>, e: ParseError)
    requires i + |toks| <= TYPED_FIELDS && |slots| == TYPED_FIELDS
    requires Apply(conv, toks, i, slots) == Failure(e)
    ensures i <= e.index < i + |toks|
    ensures Convert(conv, e.index, toks[e.index - i]).None?
    ensures e.token == TokenText(toks[e.index - i])
    ensures forall k :: 0 <= k < e.index - i ==> Convert(conv, i + k, toks[k]).Some?
    decreases |toks|
  {
    match Convert(conv, i, toks[0])
    case None =>
    case Some(v) =>
      ApplyFailure(conv, toks[1..], i + 1, slots[i := v], e);
      forall k | 0 <= k < e.index - i
        ensures Convert(conv, i + k, toks[k]).Some?
      {
        if k > 0 {
          assert toks[k] == toks[1..][k - 1];
        }
      }
  }

  /** The conversions fail exactly when some token does not convert. */
  lemma ApplyFailsIff(conv: Conversions, toks: seq<Option<Bytes>>, i: nat, slots: seq<Value>)
    requires i + |toks| <= TYPED_FIELDS && |slots| == TYPED_FIELDS
    ensures Apply(conv, toks, i, slots).Failure? <==>
      exists k :: 0 <= k < |toks| && Convert(conv, i + k, toks[k]).None?
  {
    match Apply(conv, toks, i, slots)
    case Failure(e) =>
      ApplyFailure(conv, toks, i, slots, e);
      var k := e.index - i;
      assert 0 <= k < |toks| && Convert(conv, i + k, toks[k]).None?;
    case Success(r) =>
      ApplySuccess(conv, toks, i, slots, r);
  }

  /**
   * A completed run of conversions from position 0 reads its table into the
   * log: the log's fields are that table, and OtherFields is `other`.
   */
  lemma CompleteTable(conv: Conversions, toks: seq<Option<Bytes>>, slots: seq<Value>, other: Bytes, log: Log)
    requires |toks| <= TYPED_FIELDS && WellKinded(slots)
    requires Complete(conv, toks, 0, slots, other) == Success(log)
    ensures Apply(conv, toks, 0, slots).Success?
    ensures Slots(log) == Apply(conv, toks, 0, slots).value
    ensures log.otherFields == other
  {
    var filled := Apply(conv, toks, 0, slots).value;
    ApplySuccess(conv, toks, 0, slots, filled);
    SlotsOfFromSlots(filled, other);
  }

  /** A completed run of conversions from position 0 converts every token into its field. */
  lemma CompleteConverts(conv: Conversions, toks: seq<Option<Bytes>>, slots: seq<Value>, other: Bytes, log: Log)
    requires |toks| <= TYPED_FIELDS && WellKinded(slots)
    requires Complete(conv, toks, 0, slots, other) == Success(log)
    ensures forall k :: 0 <= k < |toks| ==> Convert(conv, k, toks[k]) == Some(Slots(log)[k])
  {
    CompleteTable(conv, toks, slots, other, log);
    ApplySuccess(conv, toks, 0, slots, Slots(log));
  }

  /** A completed run of conversions from position 0 leaves the fields after its tokens as they were. */
  lemma CompleteKeeps(conv: Conversions, toks: seq<Option<Bytes>>, slots: seq<Value>, other: Bytes, log: Log)
    requires |toks| <= TYPED_FIELDS && WellKinded(slots)
    requires Complete(conv, toks, 0, slots, other) == Success(log)
    ensures forall j :: |toks| <= j < TYPED_FIELDS ==> Slots(log)[j] == slots[j]
  {
    CompleteTable(conv, toks, slots, other, log);
    ApplySuccess(conv, toks, 0, slots, Slots(log));
  }

  /**
   * A completed run of conversions from position 0: every token is
   * converted into its field, the other fields keep their value from
   * `slots`, and OtherFields is `other`.
   */
  lemma CompleteSuccess(conv: Conversions, toks: seq<Option<Bytes>>, slots: seq<Value>, other: Bytes, log: Log)
    requires |toks| <= TYPED_FIELDS && WellKinded(slots)
    requires Complete(conv, toks, 0, slots, other) == Success(log)
    ensures forall k :: 0 <= k < |toks| ==> Convert(conv, k, toks[k]) == Some(Slots(log)[k])
    ensures forall j :: |toks| <= j < TYPED_FIELDS ==> Slots(log)[j] == slots[j]
    ensures log.otherFields == other
  {
    CompleteTable(conv, toks, slots, other, log);
    CompleteConverts(conv, toks, slots, other, log);
    CompleteKeeps(conv, toks, slots, other, log);
  }

  /**
   * Parse dispatches token i to field i: on success every typed token is
   * converted into its field, the fields beyond the last token keep their
   * zero value, and OtherFields is the thirtieth span or empty.
   */
  lemma ParseSuccess(conv: Conversions, line: Bytes, log: Log)
    requires ParseSpec(conv, line) == Success(log)
    ensures var sp := Spans(line);
      var toks := TypedTokens(sp, 0);
      && (forall k :: 0 <= k < |toks| ==> Convert(conv, k, toks[k]) == Some(Slots(log)[k]))
      && (forall j :: |toks| <= j < TYPED_FIELDS ==> Slots(log)[j] == Slots(ZERO_LOG)[j])
      && log.otherFields == (if |sp| == NUM_TOKENS then sp[NUM_TOKENS - 1] else [])
  {
    var sp := Spans(line);
    CompleteSuccess(conv, TypedTokens(sp, 0), Slots(ZERO_LOG), if |sp| == NUM_TOKENS then sp[|sp| - 1] else [], log);
  }

  /** A failed run of conversions from position 0 names the first token that does not convert. */
  lemma CompleteFailure(conv: Conversions, toks: seq<Option<Bytes>>, slots: seq<Value>, other: Bytes, e: ParseError)
    requires |toks| <= TYPED_FIELDS && |slots| == TYPED_FIELDS
    requires Complete(conv, toks, 0, slots, other) == Failure(e)
    ensures e.index < |toks|
    ensures Convert(conv, e.index, toks[e.index]).None?
    ensures e.token == TokenText(toks[e.index])
    ensures forall k :: 0 <= k < e.index ==> Convert(conv, k, toks[k]).Some?
  {
    ApplyFailure(conv, toks, 0, slots, e);
  }

  /**
   * A line Parse rejects: the error names the first typed token that does
   * not convert, and its text; every earlier token converts.
   */
  lemma ParseFailure(conv: Conversions, line: Bytes, e: ParseError)
    requires ParseSpec(conv, line) == Failure(e)
    ensures var toks := TypedTokens(Spans(line), 0);
      && e.index < |toks|
      && Convert(conv, e.index, toks[e.index]).None?
      && e.token == TokenText(toks[e.index])
      && (forall k :: 0 <= k < e.index ==> Convert(conv, k, toks[k]).Some?)
  {
    var sp := Spans(line);
    CompleteFailure(conv, TypedTokens(sp, 0), Slots(ZERO_LOG), if |sp| == NUM_TOKENS then sp[|sp| - 1] else [], e);
  }

  /** Parse fails exactly when one of the typed tokens does not convert. */
  lemma ParseFailsIff(conv: Conversions, line: Bytes)
    ensures var toks := TypedTokens(Spans(line), 0);
      ParseSpec(conv, line).Failure? <==> exists k :: 0 <= k < |toks| && Convert(conv, k, toks[k]).None?
  {
    var toks := TypedTokens(Spans(line), 0);
    ApplyFailsIff(conv, toks, 0, Slots(ZERO_LOG));
  }

  /**
   * Parse: scan up to 30 tokens, store token i in field i, and at position
   * 29 take the whole remaining span as OtherFields.  The scan error the
   * source checks for is never produced (scan always returns a nil error),
   * so that branch is not modelled.
   */
  method Parse(conv: Conversions, b: Bytes) returns (r: Result<Log, ParseError>)
    ensures r == ParseLine(conv, b)
  {
    var adv: nat, i: nat := 0, 0;
    var data := b[adv..];
    var log := ZERO_LOG;
    while i < NUM_TOKENS && adv < |data|
      invariant i <= NUM_TOKENS && adv <= |data|
      invariant i == NUM_TOKENS ==> adv == |data|
      invariant i < NUM_TOKENS ==> log.otherFields == []
      invariant ParseLine(conv, b) ==
        if i < NUM_TOKENS && adv < |data| then ParseFrom(conv, data[adv..], i, Slots(log)) else Success(log)
      decreases NUM_TOKENS - i
    {
      data := data[adv..];
      var scanned := Scan(data);
      adv := scanned.advance;
      var tok := scanned.token;
      if i == NUM_TOKENS - 1 {
        FromSlotsOfSlots(log, data);
        log := log.(otherFields := data);
        adv := |data|;
      } else {
        var v := Convert(conv, i, tok);
        if v.None? {
          return Failure(ParseError(TokenText(tok), i));
        }
        log := Store(log, i, v.value);
      }
      i := i + 1;
    }
    return Success(log);
  }
}
