/**
 * The string helpers of the library: turning an optional error into its
 * message, and stripping line-break characters out of a string.
 *
 * A Go string is a sequence of runes here (`seq<char>`, one Unicode code
 * point per element); a Go `error` is an `Error` value whose `message` is
 * what its `Error()` method returns and whose `identity` stands for the
 * object itself, so that two distinct errors may carry the same message.
 */
module Functions {

  import opened Wrappers

  datatype Error = Error(identity: nat, message: string)

  /** The message of `err`, or the empty string when there is no error. */
  function TryError(err: Option<Error>): (msg: string)
    ensures err.Some? ==> msg == err.value.message
    ensures err.None? ==> msg == ""
  {
    if err.Some? then err.value.message else ""
  }

  /** An empty message is all that tells "no error" and "an error with an empty message" apart. */
  lemma TryErrorEmpty(err: Option<Error>)
    ensures TryError(err) == "" <==> (err.None? || err.value.message == "")
  {
  }

  /** Two errors with the same message are indistinguishable through TryError. */
  lemma TryErrorByMessage(e1: Error, e2: Error)
    ensures TryError(Some(e1)) == TryError(Some(e2)) <==> e1.message == e2.message
  {
  }

  /**
   * The seven code points that FilterNewLines drops: line feed, vertical tab,
   * form feed, carriage return, next line, line separator and paragraph separator.
   */
  predicate IsLineBreak(c: char)
  {
    c == '\n' || c == '\U{000B}' || c == '\U{000C}' || c == '\r' ||
    c == '\U{0085}' || c == '\U{2028}' || c == '\U{2029}'
  }

  predicate NoLineBreaks(s: string)
  {
    forall i :: 0 <= i < |s| ==> !IsLineBreak(s[i])
  }

  /**
   * `s` with every line-break character removed, applying the per-rune
   * mapping that the Go code passes to `strings.Map`, one character at a time.
   */
  function FilterNewLines(s: string): (r: string)
    ensures NoLineBreaks(r)
    ensures |r| <= |s|
    ensures forall i :: 0 <= i < |r| ==> r[i] in s
  {
    if s == [] then []
    else if IsLineBreak(s[0]) then FilterNewLines(s[1..])
    else [s[0]] + FilterNewLines(s[1..])
  }

  /** `r` can be obtained from `s` by deleting characters, keeping the order of the rest. */
  ghost predicate IsSubsequence(r: string, s: string)
    decreases |s|
  {
    if r == [] then true
    else if s == [] then false
    else (r[0] == s[0] && IsSubsequence(r[1..], s[1..])) || IsSubsequence(r, s[1..])
  }

  /** The filter only deletes: what is kept appears in its original order. */
  lemma {:induction false} FilterIsSubsequence(s: string)
    ensures IsSubsequence(FilterNewLines(s), s)
  {
    if s != [] {
      FilterIsSubsequence(s[1..]);
      var rest := FilterNewLines(s[1..]);
      if !IsLineBreak(s[0]) {
        assert FilterNewLines(s) == [s[0]] + rest;
        assert ([s[0]] + rest)[1..] == rest;
      } else if rest != [] {
        assert IsSubsequence(rest, s[1..]);
      }
    }
  }

  /**
   * Every character that is not a line break is kept as often as it occurs in
   * the input, and no line break survives.
   */
  lemma {:induction false} FilterCounts(s: string, c: char)
    ensures multiset(FilterNewLines(s))[c] == if IsLineBreak(c) then 0 else multiset(s)[c]
  {
    if s != [] {
      FilterCounts(s[1..], c);
      assert s == [s[0]] + s[1..];
      assert multiset(s) == multiset([s[0]]) + multiset(s[1..]);
      if !IsLineBreak(s[0]) {
        assert multiset(FilterNewLines(s)) == multiset([s[0]]) + multiset(FilterNewLines(s[1..]));
      }
    }
  }

  /** A character is in the output exactly when it is in the input and is not a line break. */
  lemma FilterMembership(s: string, c: char)
    ensures c in FilterNewLines(s) <==> c in s && !IsLineBreak(c)
  {
    FilterCounts(s, c);
    assert c in FilterNewLines(s) <==> multiset(FilterNewLines(s))[c] > 0;
    assert c in s <==> multiset(s)[c] > 0;
  }

  /** A string without line breaks is left as it is. */
  lemma {:induction false} FilterKeepsClean(s: string)
    requires NoLineBreaks(s)
    ensures FilterNewLines(s) == s
  {
    if s != [] {
      assert !IsLineBreak(s[0]);
      FilterKeepsClean(s[1..]);
      assert [s[0]] + s[1..] == s;
    }
  }

  /** Filtering twice is filtering once. */
  lemma FilterIdempotent(s: string)
    ensures FilterNewLines(FilterNewLines(s)) == FilterNewLines(s)
  {
    FilterKeepsClean(FilterNewLines(s));
  }

  /** The output is as long as the input exactly when the input has no line break. */
  lemma {:induction false} FilterLengthIff(s: string)
    ensures |FilterNewLines(s)| == |s| <==> NoLineBreaks(s)
  {
    if s == [] {
    } else {
      FilterLengthIff(s[1..]);
      if NoLineBreaks(s) {
        FilterKeepsClean(s);
      } else if !IsLineBreak(s[0]) {
        assert !NoLineBreaks(s[1..]) by {
          var i :| 0 <= i < |s| && IsLineBreak(s[i]);
          assert s[1..][i - 1] == s[i];
        }
      }
    }
  }

  /** The mapping is applied character by character, so it distributes over concatenation. */
  lemma {:induction false} FilterConcat(a: string, b: string)
    ensures FilterNewLines(a + b) == FilterNewLines(a) + FilterNewLines(b)
  {
    if a == [] {
      assert a + b == b;
    } else {
      assert (a + b)[0] == a[0];
      assert (a + b)[1..] == a[1..] + b;
      FilterConcat(a[1..], b);
    }
  }

}
