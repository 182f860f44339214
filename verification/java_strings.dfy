/**
 * The Java string operations the step wrapper relies on: `String.startsWith`,
 * `String.trim` (through commons-lang `StringUtils.trimToNull`) and
 * `String.split` with a single-newline separator.
 */
module JavaStrings {
  import opened Optional

  /** `String.trim` strips every character whose code is at most that of the space character. */
  predicate IsBlank(c: char) {
    c <= ' '
  }

  predicate AllBlank(s: string) {
    forall i :: 0 <= i < |s| ==> IsBlank(s[i])
  }

  /** Neither end of `s` is a blank character: what a trimmed, non-empty string looks like. */
  predicate IsTrimmed(s: string) {
    s == [] || (!IsBlank(s[0]) && !IsBlank(s[|s| - 1]))
  }

  // ---------------------------------------------------------------- startsWith

  /** `s.startsWith(prefix)`, compared character by character. */
  function StartsWith(s: string, prefix: string): (b: bool)
    ensures b <==> |prefix| <= |s| && s[..|prefix|] == prefix
  {
    if prefix == [] then true
    else if s == [] || s[0] != prefix[0] then
      assert s != [] && |prefix| <= |s| ==> s[..|prefix|][0] != prefix[0];
      false
    else
      var b := StartsWith(s[1..], prefix[1..]);
      assert |prefix| <= |s| ==> s[..|prefix|] == [s[0]] + s[1..][..|prefix| - 1];
      b
  }

  // ---------------------------------------------------------------- trim

  /** The number of blank characters at the front of `s` (the first loop of `String.trim`). */
  function LeadingBlanks(s: string): (n: nat)
    ensures n <= |s|
    ensures AllBlank(s[..n])
    ensures n < |s| ==> !IsBlank(s[n])
  {
    if s == [] || !IsBlank(s[0]) then 0
    else
      var n := 1 + LeadingBlanks(s[1..]);
      assert forall i :: 1 <= i < n ==> s[..n][i] == s[1..][..n - 1][i - 1];
      n
  }

  /** The number of blank characters at the back of `s` (the second loop of `String.trim`). */
  function TrailingBlanks(s: string): (n: nat)
    ensures n <= |s|
    ensures AllBlank(s[|s| - n..])
    ensures n < |s| ==> !IsBlank(s[|s| - n - 1])
  {
    if s == [] || !IsBlank(s[|s| - 1]) then 0
    else
      var n := 1 + TrailingBlanks(s[..|s| - 1]);
      assert s[|s| - n..] == s[..|s| - 1][|s| - n..] + [s[|s| - 1]];
      n
  }

  /**
   * `s.trim()`: `s` without its leading and trailing blank characters. The
   * source scans the back only as far as the first non-blank character; scanning
   * the whole string gives the same end whenever some character is non-blank.
   */
  function Trim(s: string): (r: string)
    ensures LeadingBlanks(s) + |r| <= |s|
    ensures IsTrimmed(r)
    ensures r == [] <==> AllBlank(s)
    ensures s == s[..LeadingBlanks(s)] + r + s[LeadingBlanks(s) + |r|..]
    ensures AllBlank(s[LeadingBlanks(s) + |r|..])
  {
    var st := LeadingBlanks(s);
    if st == |s| then
      assert s[..st] == s;
      []
    else
      var end := |s| - TrailingBlanks(s);
      assert st < end;
      assert !AllBlank(s) by { assert !IsBlank(s[st]); }
      assert s == s[..st] + s[st..end] + s[end..];
      s[st..end]
  }

  /** `StringUtils.trimToNull(s)`: the trimmed text, or null when `s` is null or trims to nothing. */
  function TrimToNull(s: Option<string>): (r: Option<string>)
    ensures r == None <==> s == None || AllBlank(s.value)
    ensures r.Some? ==> r.value != [] && IsTrimmed(r.value) && r.value == Trim(s.value)
  {
    match s
    case None => None
    case Some(v) =>
      var t := Trim(v);
      if t == [] then None else Some(t)
  }

  /**
   * Trimming is characterised by what it removes: whenever `s` is some blank
   * text, then `mid`, then more blank text, and `mid` has no blank at either
   * end, `Trim(s)` is exactly `mid`.
   */
  lemma TrimUnique(pre: string, mid: string, post: string)
    requires AllBlank(pre) && AllBlank(post) && IsTrimmed(mid)
    ensures Trim(pre + mid + post) == mid
  {
    var s := pre + mid + post;
    var r := Trim(s);
    if mid == [] {
      assert AllBlank(s) by {
        forall i | 0 <= i < |s| ensures IsBlank(s[i]) {
          if i < |pre| { assert s[i] == pre[i]; } else { assert s[i] == post[i - |pre|]; }
        }
      }
    } else {
      assert s[|pre|] == mid[0];
      var lead := LeadingBlanks(s);
      assert lead == |pre|;
      var end := |pre| + |mid|;
      assert s[end - 1] == mid[|mid| - 1];
      var j := lead + |r|;
      assert j == end;
      assert r == s[lead..j];
      assert s[|pre|..|pre| + |mid|] == mid;
    }
  }

  /** Trimming an already-trimmed string changes nothing. */
  lemma TrimIdempotent(s: string)
    ensures Trim(Trim(s)) == Trim(s)
  {
    TrimUnique([], Trim(s), []);
    assert [] + Trim(s) + [] == Trim(s);
  }

  // ---------------------------------------------------------------- split

  /** How many newline characters `s` holds. */
  function NewlineCount(s: string): (n: nat)
    ensures n <= |s|
    ensures n == 0 <==> '\n' !in s
  {
    if s == [] then 0
    else (if s[0] == '\n' then 1 else 0) + NewlineCount(s[1..])
  }

  /** The pieces of `s` between newlines, in order, empty pieces included. */
  function Segments(s: string): (r: seq<string>)
    ensures |r| >= 1
    ensures forall k :: 0 <= k < |r| ==> '\n' !in r[k]
  {
    if s == [] then [[]]
    else
      var rest := Segments(s[1..]);
      if s[0] == '\n' then [[]] + rest
      else [[s[0]] + rest[0]] + rest[1..]
  }

  /** The pieces written back one after another with a newline between each two. */
  function JoinWithNewlines(parts: seq<string>): string
  {
    if parts == [] then []
    else if |parts| == 1 then parts[0]
    else parts[0] + "\n" + JoinWithNewlines(parts[1..])
  }

  /** Splitting into pieces loses nothing: joining them again gives back `s`. */
  lemma {:induction false} JoinSegments(s: string)
    ensures JoinWithNewlines(Segments(s)) == s
  {
    if s != [] {
      var rest := Segments(s[1..]);
      JoinSegments(s[1..]);
      if s[0] == '\n' {
        assert [s[0]] + s[1..] == s;
      } else {
        var first := [s[0]] + rest[0];
        if |rest| == 1 {
          assert [s[0]] + s[1..] == s;
        } else {
          assert JoinWithNewlines(rest) == rest[0] + "\n" + JoinWithNewlines(rest[1..]);
          assert ([first] + rest[1..])[1..] == rest[1..];
          assert [s[0]] + s[1..] == s;
        }
      }
    }
  }

  /** There is one more piece than there are newlines. */
  lemma {:induction false} SegmentsCount(s: string)
    ensures |Segments(s)| == NewlineCount(s) + 1
  {
    if s != [] {
      SegmentsCount(s[1..]);
    }
  }

  /** A string that does not end in a newline has a non-empty last piece. */
  lemma {:induction false} LastSegmentNonEmpty(s: string)
    requires s != [] && s[|s| - 1] != '\n'
    ensures Segments(s)[|Segments(s)| - 1] != []
  {
    if |s| > 1 {
      assert s[1..][|s[1..]| - 1] == s[|s| - 1];
      LastSegmentNonEmpty(s[1..]);
    }
  }

  /** `xs` without its run of trailing empty strings. */
  function DropTrailingEmpty(xs: seq<string>): (r: seq<string>)
    ensures |r| <= |xs| && r == xs[..|r|]
    ensures r == [] || r[|r| - 1] != []
    ensures forall k :: |r| <= k < |xs| ==> xs[k] == []
  {
    if xs != [] && xs[|xs| - 1] == [] then DropTrailingEmpty(xs[..|xs| - 1]) else xs
  }

  /**
   * `s.split("\n")`: with no newline in `s` the whole of `s` is the only piece;
   * otherwise the pieces between newlines, less any empty ones at the end.
   */
  function Split(s: string): (r: seq<string>)
    ensures '\n' !in s ==> r == [s]
    ensures |r| <= |Segments(s)| && r == Segments(s)[..|r|]
    ensures forall k :: |r| <= k < |Segments(s)| ==> Segments(s)[k] == []
    ensures '\n' in s ==> r == [] || r[|r| - 1] != []
  {
    if '\n' !in s then
      SegmentsCount(s);
      JoinSegments(s);
      [s]
    else DropTrailingEmpty(Segments(s))
  }

  /**
   * On text with no blank character at its end, splitting drops nothing: the
   * number of pieces is the number of newlines plus one.
   */
  lemma SplitTrimmedCount(s: string)
    requires s != [] && IsTrimmed(s)
    ensures |Split(s)| == NewlineCount(s) + 1
    ensures Split(s) == Segments(s)
  {
    SegmentsCount(s);
    LastSegmentNonEmpty(s);
  }
}
