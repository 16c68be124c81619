/**
 * The quote-aware word tokenizer `scan` of elblog.go.  One call takes a span
 * of a log line, skips the spaces in front, and reads one word that ends at
 * the first space outside double quotes.
 *
 * `NextToken` is the reference definition, written over positions of the
 * span as a three-state machine (between words, in a word, in a quoted run);
 * `Scan` is the source's index loop, proved to compute it.
 */
module ElbScan {
  import opened Wrappers
  import opened ByteStrings

  const SPACE: char := ' '
  const QUOTE: char := '"'

  /** What one call of scan returns: the bytes consumed and the token (None is Go's nil). */
  datatype Scanned = Scanned(advance: nat, token: Option<Bytes>)

  /** The first position at or after `i` that does not hold a space (or |data|). */
  function SkipSpaces(data: Bytes, i: nat): (k: nat)
    requires i <= |data|
    ensures i <= k <= |data|
    decreases |data| - i
  {
    if i < |data| && data[i] == SPACE then SkipSpaces(data, i + 1) else i
  }

  /**
   * The position where the word running from `i` ends: the first space met
   * while outside quotes, or |data|.  `open` says whether a quoted run is
   * open at `i`; every '"' toggles it.
   */
  function WordEnd(data: Bytes, i: nat, open: bool): (k: nat)
    requires i <= |data|
    ensures i <= k <= |data|
    decreases |data| - i
  {
    if i == |data| || (data[i] == SPACE && !open) then i
    else WordEnd(data, i + 1, if data[i] == QUOTE then !open else open)
  }

  /** Number of double quotes in data[start..end]. */
  function Quotes(data: Bytes, start: nat, end: nat): (n: nat)
    requires start <= end <= |data|
    ensures n <= end - start
    decreases end - start
  {
    if start == end then 0 else Quotes(data, start, end - 1) + (if data[end - 1] == QUOTE then 1 else 0)
  }

  /** The word data[start..end] has quotes, and they are balanced. */
  predicate Balanced(data: Bytes, start: nat, end: nat)
    requires start <= end <= |data|
  {
    Quotes(data, start, end) > 0 && Quotes(data, start, end) % 2 == 0
  }

  /**
   * The token made of the word data[start..end]: without its first and last
   * byte when its quotes are balanced (whatever those two bytes are), else
   * the word itself.
   */
  function WordToken(data: Bytes, start: nat, end: nat): (t: Bytes)
    requires start <= end <= |data|
  {
    if Balanced(data, start, end) then data[start + 1..end - 1] else data[start..end]
  }

  /**
   * Reference definition of one tokenizer step (elblog.go:172-209).  It never
   * reads past the span, consumes at least one byte of a non-empty span, and
   * yields no token exactly when the span is all spaces, which it then
   * consumes entirely.
   */
  function NextToken(data: Bytes): (r: Scanned)
    ensures r.advance <= |data|
    ensures |data| > 0 ==> r.advance > 0
    ensures r.token.None? ==> r.advance == |data|
  {
    var start := SkipSpaces(data, 0);
    var end := WordEnd(data, start, false);
    if start == |data| then Scanned(start, None)
    else if end < |data| then Scanned(end + 1, Some(WordToken(data, start, end)))
    else Scanned(|data|, Some(WordToken(data, start, |data|)))
  }

  /**
   * scan: skip spaces, then walk to the first space outside quotes.  Byte
   * stepping stands for the source's rune stepping: ' ' and '"' are ASCII and
   * never part of a multi-byte UTF-8 sequence, and an invalid sequence is
   * stepped over one byte at a time.
   */
  method Scan(data: Bytes) returns (r: Scanned)
    ensures r == NextToken(data)
  {
    var start := 0;
    var open := false;
    var trim := false;
    while start < |data|
      invariant start <= |data|
      invariant SkipSpaces(data, 0) == SkipSpaces(data, start)
    {
      if data[start] != SPACE {
        break;
      }
      start := start + 1;
    }
    ghost var end := WordEnd(data, start, false);
    var i := start;
    while i < |data|
      invariant start <= i <= |data|
      invariant open == (Quotes(data, start, i) % 2 == 1)
      invariant trim == (Quotes(data, start, i) > 0)
      invariant end == WordEnd(data, i, open)
    {
      QuotesStep(data, start, i);
      if data[i] == QUOTE {
        trim := true;
        open := !open;
      }
      if data[i] == SPACE && !open {
        if trim {
          return Scanned(i + 1, Some(data[start + 1..i - 1]));
        }
        return Scanned(i + 1, Some(data[start..i]));
      }
      i := i + 1;
    }
    if |data| > start {
      if trim && !open {
        return Scanned(|data|, Some(data[start + 1..|data| - 1]));
      }
      assert data[start..|data|] == data[start..];
      return Scanned(|data|, Some(data[start..]));
    }
    return Scanned(start, None);
  }

  // ---------------------------------------------------------------------
  // Properties of the reference definition
  // ---------------------------------------------------------------------

  /** Counting one byte further adds one exactly when that byte is a quote. */
  lemma QuotesStep(data: Bytes, start: nat, i: nat)
    requires start <= i < |data|
    ensures Quotes(data, start, i + 1) == Quotes(data, start, i) + (if data[i] == QUOTE then 1 else 0)
    ensures Quotes(data, start, i + 1) % 2 == (if data[i] == QUOTE then 1 - Quotes(data, start, i) % 2 else Quotes(data, start, i) % 2)
  {
  }

  /** Spaces in front of a non-space byte are skipped up to that byte. */
  lemma {:induction false} SkipSpacesOver(data: Bytes, i: nat, k: nat)
    requires i <= k <= |data|
    requires forall j :: i <= j < k ==> data[j] == SPACE
    requires k == |data| || data[k] != SPACE
    ensures SkipSpaces(data, i) == k
    decreases k - i
  {
    if i < k {
      SkipSpacesOver(data, i + 1, k);
    }
  }

  /** Quotes count as the number of quote positions of the word. */
  lemma {:induction false} QuotesNone(data: Bytes, start: nat, end: nat)
    requires start <= end <= |data|
    requires forall j :: start <= j < end ==> data[j] != QUOTE
    ensures Quotes(data, start, end) == 0
    decreases end - start
  {
    if start < end {
      QuotesNone(data, start, end - 1);
    }
  }

  /** SkipSpaces stops at the first byte that is not a space. */
  lemma {:induction false} SkipSpacesStops(data: Bytes, i: nat)
    requires i <= |data|
    ensures var k := SkipSpaces(data, i);
      && (forall j :: i <= j < k ==> data[j] == SPACE)
      && (k == |data| || data[k] != SPACE)
    decreases |data| - i
  {
    if i < |data| && data[i] == SPACE {
      SkipSpacesStops(data, i + 1);
    }
  }

  /** scan yields no token exactly when the data holds nothing but spaces. */
  lemma NoTokenIffOnlySpaces(data: Bytes)
    ensures NextToken(data).token.None? <==> forall k :: 0 <= k < |data| ==> data[k] == SPACE
  {
    SkipSpacesStops(data, 0);
  }

  /**
   * The word ends at the first space met with an even number of quotes
   * behind it: the state machine of WordEnd agrees with counting quotes.
   */
  lemma {:induction false} WordEndCounts(data: Bytes, start: nat, i: nat, open: bool)
    requires start <= i <= |data|
    requires open == (Quotes(data, start, i) % 2 == 1)
    requires forall j :: start <= j < i ==> !(data[j] == SPACE && Quotes(data, start, j) % 2 == 0)
    ensures var end := WordEnd(data, i, open);
      && (end < |data| ==> data[end] == SPACE && Quotes(data, start, end) % 2 == 0)
      && (forall j :: start <= j < end ==> !(data[j] == SPACE && Quotes(data, start, j) % 2 == 0))
    decreases |data| - i
  {
    if i < |data| && !(data[i] == SPACE && !open) {
      WordEndCounts(data, start, i + 1, if data[i] == QUOTE then !open else open);
    }
  }

  /**
   * The word starting after the leading spaces ends at the first space
   * outside quotes: the quotes in front of that space are balanced, and no
   * earlier space has balanced quotes in front of it.
   */
  lemma WordEndIsFirstUnquotedSpace(data: Bytes)
    ensures var start := SkipSpaces(data, 0);
      var end := WordEnd(data, start, false);
      && (end < |data| ==> data[end] == SPACE && Quotes(data, start, end) % 2 == 0)
      && (forall j :: start <= j < end ==> !(data[j] == SPACE && Quotes(data, start, j) % 2 == 0))
  {
    WordEndCounts(data, SkipSpaces(data, 0), SkipSpaces(data, 0), false);
  }

  /** A word with neither spaces nor quotes runs to its end. */
  lemma {:induction false} WordEndPlain(data: Bytes, i: nat, k: nat)
    requires i <= k <= |data|
    requires forall j :: i <= j < k ==> data[j] != SPACE && data[j] != QUOTE
    ensures WordEnd(data, i, false) == WordEnd(data, k, false)
    decreases k - i
  {
    if i < k {
      WordEndPlain(data, i + 1, k);
    }
  }

  /** Inside an open quoted run, bytes other than '"' never end the word. */
  lemma {:induction false} WordEndQuoted(data: Bytes, i: nat, k: nat)
    requires i <= k <= |data|
    requires forall j :: i <= j < k ==> data[j] != QUOTE
    ensures WordEnd(data, i, true) == WordEnd(data, k, true)
    decreases k - i
  {
    if i < k {
      WordEndQuoted(data, i + 1, k);
    }
  }

  /** A space-free, quote-free word after some spaces is the token, untouched. */
  lemma PlainWord(pre: Bytes, w: Bytes, tail: Bytes)
    requires forall k :: 0 <= k < |pre| ==> pre[k] == SPACE
    requires |w| > 0 && SPACE !in w && QUOTE !in w
    requires tail == [] || tail[0] == SPACE
    ensures var data := pre + w + tail;
      NextToken(data) == Scanned(if tail == [] then |data| else |pre| + |w| + 1, Some(w))
  {
    var data := pre + w + tail;
    var start, end := |pre|, |pre| + |w|;
    assert data[start] == w[0];
    SkipSpacesOver(data, 0, start);
    WordEndPlain(data, start, end);
    QuotesNone(data, start, end);
    assert data[start..end] == w;
  }

  /**
   * A quoted run without inner quotes is one token equal to the inner text,
   * spaces included; the space after the closing quote is consumed but not
   * part of the token.
   */
  lemma QuotedWord(pre: Bytes, inner: Bytes, tail: Bytes)
    requires forall k :: 0 <= k < |pre| ==> pre[k] == SPACE
    requires QUOTE !in inner
    requires tail == [] || tail[0] == SPACE
    ensures var data := pre + [QUOTE] + inner + [QUOTE] + tail;
      NextToken(data) == Scanned(if tail == [] then |data| else |pre| + |inner| + 3, Some(inner))
  {
    var data := pre + [QUOTE] + inner + [QUOTE] + tail;
    var start, close := |pre|, |pre| + 1 + |inner|;
    assert data[start] == QUOTE;
    SkipSpacesOver(data, 0, start);
    WordEndQuoted(data, start + 1, close);
    assert WordEnd(data, close, true) == close + 1;
    QuotesNone(data, start + 1, close);
    assert Quotes(data, start, close + 1) == 2 by {
      QuotesFront(data, start, close);
    }
    assert data[start + 1..close] == inner;
  }

  /** Counting quotes of a word that starts with one. */
  lemma {:induction false} QuotesFront(data: Bytes, start: nat, end: nat)
    requires start < end <= |data| && data[start] == QUOTE
    ensures Quotes(data, start, end) == 1 + Quotes(data, start + 1, end)
    decreases end - start
  {
    if end > start + 1 {
      QuotesFront(data, start, end - 1);
    }
  }

  /**
   * A quote that is never closed makes the rest of the span one token,
   * untrimmed: spaces after the opening quote do not end it.
   */
  lemma UnclosedQuote(pre: Bytes, w: Bytes, v: Bytes)
    requires forall k :: 0 <= k < |pre| ==> pre[k] == SPACE
    requires SPACE !in w && QUOTE !in w && QUOTE !in v
    ensures var data := pre + w + [QUOTE] + v;
      NextToken(data) == Scanned(|data|, Some(w + [QUOTE] + v))
  {
    var data := pre + w + [QUOTE] + v;
    var start, q := |pre|, |pre| + |w|;
    assert data[start] == if |w| > 0 then w[0] else QUOTE;
    SkipSpacesOver(data, 0, start);
    WordEndPlain(data, start, q);
    WordEndQuoted(data, q + 1, |data|);
    QuotesNone(data, start, q);
    QuotesNone(data, q + 1, |data|);
    assert Quotes(data, q, |data|) == 1 by {
      QuotesFront(data, q, |data|);
    }
    QuotesSplit(data, start, q, |data|);
    assert data[start..|data|] == w + [QUOTE] + v;
  }

  /** Quote counts add up over adjacent ranges. */
  lemma {:induction false} QuotesSplit(data: Bytes, start: nat, mid: nat, end: nat)
    requires start <= mid <= end <= |data|
    ensures Quotes(data, start, end) == Quotes(data, start, mid) + Quotes(data, mid, end)
    decreases end - mid
  {
    if mid < end {
      QuotesSplit(data, start, mid, end - 1);
    }
  }

  /**
   * Balanced quotes drop the first and last byte of the word even when those
   * are not quotes: `a"b c"` yields `"b c`.
   */
  lemma TrimsOuterBytes()
    ensures NextToken(['a', QUOTE, 'b', SPACE, 'c', QUOTE]) == Scanned(6, Some([QUOTE, 'b', SPACE, 'c']))
  {
    var data := ['a', QUOTE, 'b', SPACE, 'c', QUOTE];
    SkipSpacesOver(data, 0, 0);
    assert WordEnd(data, 6, false) == 6;
    assert WordEnd(data, 5, true) == 6;
    assert WordEnd(data, 4, true) == 6;
    assert WordEnd(data, 3, true) == 6;
    assert WordEnd(data, 2, true) == 6;
    assert WordEnd(data, 1, false) == 6;
    assert Quotes(data, 0, 1) == 0;
    assert Quotes(data, 0, 2) == 1;
    assert Quotes(data, 0, 3) == 1;
    assert Quotes(data, 0, 4) == 1;
    assert Quotes(data, 0, 5) == 1;
    assert data[1..5] == [QUOTE, 'b', SPACE, 'c'];
  }
}
