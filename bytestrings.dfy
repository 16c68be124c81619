/**
 * Byte strings and splitting on a one-byte separator, as Go's `bytes.Split`
 * and `strings.Split` do it.  A byte of the log line is one `char`; the model
 * only ever compares bytes against the ASCII characters ' ', '"', ':', '+',
 * '-', '\n', '\r' and the digits, so no other byte value is interpreted.
 */
module ByteStrings {

  type Bytes = seq<char>

  /** Number of occurrences of `c` in `s`. */
  function Count(s: Bytes, c: char): (n: nat)
    ensures n <= |s|
  {
    if |s| == 0 then 0 else (if s[0] == c then 1 else 0) + Count(s[1..], c)
  }

  /**
   * `Split(s, sep)` cuts `s` around every occurrence of `sep`.  Like Go's
   * Split with a non-empty separator it always yields at least one part, and
   * the empty string yields one empty part.
   */
  function Split(s: Bytes, sep: char): (parts: seq<Bytes>)
    ensures |parts| >= 1
  {
    if |s| == 0 then [[]]
    else
      var rest := Split(s[1..], sep);
      if s[0] == sep then [[]] + rest else [[s[0]] + rest[0]] + rest[1..]
  }

  /** Glues parts back together with `sep` between neighbours. */
  function Join(parts: seq<Bytes>, sep: char): Bytes
    requires |parts| >= 1
  {
    if |parts| == 1 then parts[0] else parts[0] + [sep] + Join(parts[1..], sep)
  }

  /** True when no part contains the separator. */
  predicate SeparatorFree(parts: seq<Bytes>, sep: char)
  {
    forall k :: 0 <= k < |parts| ==> sep !in parts[k]
  }

  /** Splitting then joining gives the input back. */
  lemma {:induction false} JoinSplit(s: Bytes, sep: char)
    ensures Join(Split(s, sep), sep) == s
  {
    if |s| > 0 {
      var rest := Split(s[1..], sep);
      JoinSplit(s[1..], sep);
      if s[0] != sep {
        if |rest| > 1 {
          assert rest == [rest[0]] + rest[1..];
          assert Join(rest, sep) == rest[0] + [sep] + Join(rest[1..], sep);
        }
      }
    }
  }

  /** No part of a split contains the separator, and there is one part more than separators. */
  lemma {:induction false} SplitParts(s: Bytes, sep: char)
    ensures SeparatorFree(Split(s, sep), sep)
    ensures |Split(s, sep)| == Count(s, sep) + 1
  {
    if |s| > 0 {
      SplitParts(s[1..], sep);
    }
  }

  /** Joining separator-free parts and splitting again gives the parts back. */
  lemma {:induction false} SplitJoin(parts: seq<Bytes>, sep: char)
    requires |parts| >= 1 && SeparatorFree(parts, sep)
    ensures Split(Join(parts, sep), sep) == parts
  {
    if |parts| == 1 {
      SplitWithout(parts[0], sep);
    } else {
      SplitJoin(parts[1..], sep);
      SplitPrefix(parts[0], Join(parts[1..], sep), sep);
      assert [parts[0]] + parts[1..] == parts;
    }
  }

  /** A string without the separator splits into itself alone. */
  lemma {:induction false} SplitWithout(s: Bytes, sep: char)
    requires sep !in s
    ensures Split(s, sep) == [s]
  {
    if |s| > 0 {
      SplitWithout(s[1..], sep);
      assert [s[0]] + s[1..] == s;
    }
  }

  /** Splitting `w + [sep] + t`, where `w` has no separator, puts `w` first. */
  lemma {:induction false} SplitPrefix(w: Bytes, t: Bytes, sep: char)
    requires sep !in w
    ensures Split(w + [sep] + t, sep) == [w] + Split(t, sep)
  {
    if |w| == 0 {
      assert w + [sep] + t == [sep] + t;
      assert ([sep] + t)[1..] == t;
    } else {
      var s := w + [sep] + t;
      assert s[1..] == w[1..] + [sep] + t;
      SplitPrefix(w[1..], t, sep);
      assert [w[0]] + w[1..] == w;
    }
  }
}
