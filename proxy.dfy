/**
 * The rewriting proxy between chat clients and the upstream chat server. Each line read in one
 * direction is forwarded with every word that looks like a payment address replaced by
 * `TONY_BOGUS`. The address matcher itself is outside the model: `rewrite_message` receives the
 * leftmost non-overlapping match spans of the message as `(start, end)` pairs.
 */
module Proxy {
  import opened Bytes
  import opened Stream
  import opened LineFramer

  const TONY_BOGUS: Bytes := Lit("7YWHMfk9JZe0LM0g1ZauHuiSxhI")

  /** A match `[start, end)` of the address pattern inside a message. */
  datatype Span = Span(start: nat, end: nat)

  /** The spans a matcher may report for `message`: non-empty and inside it. */
  predicate ValidSpans(message: Bytes, matches: seq<Span>)
  {
    forall i :: 0 <= i < |matches| ==> matches[i].start < matches[i].end <= |message|
  }

  /** A span counts only with a space or the message's edge on either side of it. */
  predicate Accepted(message: Bytes, m: Span)
    requires m.start <= m.end <= |message|
  {
    (m.start == 0 || message[m.start - 1] == SPACE) &&
    (m.end == |message| || message[m.end] == SPACE)
  }

  // ---------------------------------------------------------------------------------------------
  // String replacement
  // ---------------------------------------------------------------------------------------------

  /** `pat` occurs in `s` starting at `i`. */
  predicate OccursAt(s: Bytes, pat: Bytes, i: nat)
  {
    i + |pat| <= |s| && s[i..i + |pat|] == pat
  }

  /**
   * `str::replace`: scanning left to right, each occurrence of `pat` is replaced by `rep` and the
   * scan resumes after it, so occurrences never overlap.
   */
  function ReplaceAll(s: Bytes, pat: Bytes, rep: Bytes): Bytes
    requires |pat| > 0
    decreases |s|
  {
    if |s| < |pat| then s
    else if s[..|pat|] == pat then rep + ReplaceAll(s[|pat|..], pat, rep)
    else [s[0]] + ReplaceAll(s[1..], pat, rep)
  }

  /** Without an occurrence of the pattern, replacing changes nothing. */
  lemma {:induction false} ReplaceWithoutOccurrence(s: Bytes, pat: Bytes, rep: Bytes)
    requires |pat| > 0
    requires forall i :: 0 <= i <= |s| ==> !OccursAt(s, pat, i)
    ensures ReplaceAll(s, pat, rep) == s
    decreases |s|
  {
    if |s| >= |pat| {
      assert !OccursAt(s, pat, 0);
      assert s[..|pat|] != pat;
      forall i | 0 <= i <= |s[1..]|
        ensures !OccursAt(s[1..], pat, i)
      {
        assert !OccursAt(s, pat, i + 1);
        if i + |pat| <= |s[1..]| {
          assert s[1..][i..i + |pat|] == s[i + 1..i + 1 + |pat|];
        }
      }
      ReplaceWithoutOccurrence(s[1..], pat, rep);
      assert s == [s[0]] + s[1..];
    }
  }

  /** The pattern itself is replaced whole. */
  lemma ReplacePattern(pat: Bytes, rep: Bytes)
    requires |pat| > 0
    ensures ReplaceAll(pat, pat, rep) == rep
  {
    assert pat[..|pat|] == pat;
    assert pat[|pat|..] == [];
    assert rep + [] == rep;
  }

  /**
   * A byte the pattern does not contain separates the replacement: the text before it and the
   * text after it are rewritten independently.
   */
  lemma {:induction false} ReplaceSplits(a: Bytes, c: byte, b: Bytes, pat: Bytes, rep: Bytes)
    requires |pat| > 0 && c !in pat
    ensures ReplaceAll(a + [c] + b, pat, rep) == ReplaceAll(a, pat, rep) + [c] + ReplaceAll(b, pat, rep)
    decreases |a|
  {
    if |a| == 0 {
      SplitAtFront(c, b, pat, rep);
    } else if |a| < |pat| || a[..|pat|] != pat {
      ReplaceSplits(a[1..], c, b, pat, rep);
      SplitSkip(a, c, b, pat, rep);
    } else {
      ReplaceSplits(a[|pat|..], c, b, pat, rep);
      SplitMatch(a, c, b, pat, rep);
    }
  }

  lemma SplitAtFront(c: byte, b: Bytes, pat: Bytes, rep: Bytes)
    requires |pat| > 0 && c !in pat
    ensures ReplaceAll([] + [c] + b, pat, rep) == ReplaceAll([], pat, rep) + [c] + ReplaceAll(b, pat, rep)
  {
    var s := [] + [c] + b;
    NoOccurrenceOver([], c, b, pat);
    assert s[1..] == b;
  }

  /** No occurrence of the pattern starts at the front of `a`: its first byte is kept. */
  lemma SplitSkip(a: Bytes, c: byte, b: Bytes, pat: Bytes, rep: Bytes)
    requires |pat| > 0 && c !in pat && |a| > 0 && (|a| < |pat| || a[..|pat|] != pat)
    requires ReplaceAll(a[1..] + [c] + b, pat, rep) ==
      ReplaceAll(a[1..], pat, rep) + [c] + ReplaceAll(b, pat, rep)
    ensures ReplaceAll(a + [c] + b, pat, rep) == ReplaceAll(a, pat, rep) + [c] + ReplaceAll(b, pat, rep)
  {
    var s := a + [c] + b;
    StillNoFrontOccurrence(a, c, b, pat);
    KeepsFront(s, pat, rep);
    KeepsFront(a, pat, rep);
    calc {
      ReplaceAll(s, pat, rep);
      [a[0]] + ReplaceAll(a[1..] + [c] + b, pat, rep);
      [a[0]] + (ReplaceAll(a[1..], pat, rep) + [c] + ReplaceAll(b, pat, rep));
      ([a[0]] + ReplaceAll(a[1..], pat, rep)) + [c] + ReplaceAll(b, pat, rep);
    }
  }

  /** Appending after `a` cannot create an occurrence at its front when `c` is not in the pattern. */
  lemma StillNoFrontOccurrence(a: Bytes, c: byte, b: Bytes, pat: Bytes)
    requires c !in pat && |a| > 0 && (|a| < |pat| || a[..|pat|] != pat)
    ensures |a + [c] + b| < |pat| || (a + [c] + b)[..|pat|] != pat
    ensures (a + [c] + b)[0] == a[0] && (a + [c] + b)[1..] == a[1..] + [c] + b
  {
    var s := a + [c] + b;
    if |a| < |pat| {
      NoOccurrenceOver(a, c, b, pat);
    } else {
      assert s[..|pat|] == a[..|pat|];
    }
    assert s[1..] == a[1..] + [c] + b;
  }

  /** Where the pattern does not start at the front, the first byte is copied unchanged. */
  lemma KeepsFront(s: Bytes, pat: Bytes, rep: Bytes)
    requires |pat| > 0 && |s| > 0 && (|s| < |pat| || s[..|pat|] != pat)
    ensures ReplaceAll(s, pat, rep) == [s[0]] + ReplaceAll(s[1..], pat, rep)
  {
    if |s| < |pat| {
      ShortUnchanged(s[1..], pat, rep);
      assert s == [s[0]] + s[1..];
    }
  }

  /** An occurrence of the pattern at the front of `a` is replaced, and the scan resumes after it. */
  lemma SplitMatch(a: Bytes, c: byte, b: Bytes, pat: Bytes, rep: Bytes)
    requires |pat| > 0 && |pat| <= |a| && a[..|pat|] == pat
    requires ReplaceAll(a[|pat|..] + [c] + b, pat, rep) ==
      ReplaceAll(a[|pat|..], pat, rep) + [c] + ReplaceAll(b, pat, rep)
    ensures ReplaceAll(a + [c] + b, pat, rep) == ReplaceAll(a, pat, rep) + [c] + ReplaceAll(b, pat, rep)
  {
    var s := a + [c] + b;
    assert s[..|pat|] == pat;
    assert s[|pat|..] == a[|pat|..] + [c] + b;
  }

  /** An occurrence starting in a part shorter than the pattern would cover the separator. */
  lemma NoOccurrenceOver(a: Bytes, c: byte, b: Bytes, pat: Bytes)
    requires |a| < |pat| && c !in pat
    ensures |a + [c] + b| >= |pat| ==> (a + [c] + b)[..|pat|] != pat
  {
    var s := a + [c] + b;
    if |s| >= |pat| {
      assert s[..|pat|][|a|] == c;
    }
  }

  lemma ShortUnchanged(s: Bytes, pat: Bytes, rep: Bytes)
    requires |pat| > 0 && |s| < |pat|
    ensures ReplaceAll(s, pat, rep) == s
  {
  }

  // ---------------------------------------------------------------------------------------------
  // rewrite_message
  // ---------------------------------------------------------------------------------------------

  /**
   * `result` after the loop over `matches`: each accepted span's text, taken from the original
   * message, is replaced everywhere in the text rewritten so far.
   */
  function Rewritten(message: Bytes, result: Bytes, matches: seq<Span>): Bytes
    requires ValidSpans(message, matches)
    decreases |matches|
  {
    if matches == [] then result
    else
      var m := matches[0];
      var next := if Accepted(message, m) then ReplaceAll(result, message[m.start..m.end], TONY_BOGUS)
                  else result;
      Rewritten(message, next, matches[1..])
  }

  /** What `rewrite_message` returns: the rewritten text, then the newline `readline` removed. */
  function Rewrite(message: Bytes, matches: seq<Span>): (r: Bytes)
    requires ValidSpans(message, matches)
    ensures |r| > 0 && r[|r| - 1] == NL
  {
    Rewritten(message, message, matches) + [NL]
  }

  /** `rewrite_message`. */
  method RewriteMessage(message: Bytes, matches: seq<Span>) returns (result: Bytes)
    requires ValidSpans(message, matches)
    ensures result == Rewrite(message, matches)
  {
    result := message;
    var k := 0;
    while k < |matches|
      invariant 0 <= k <= |matches|
      invariant Rewritten(message, result, matches[k..]) == Rewritten(message, message, matches)
    {
      var s := matches[k].start;
      var e := matches[k].end;
      assert matches[k..][1..] == matches[k + 1..];
      if 0 < s && message[s - 1] != SPACE {
        k := k + 1;
        continue;
      }
      if e < |message| && message[e] != SPACE {
        k := k + 1;
        continue;
      }
      var strReMatch := message[s..e];
      result := ReplaceAll(result, strReMatch, TONY_BOGUS);
      k := k + 1;
    }
    result := result + [NL];
  }

  /** A message none of whose spans is accepted is forwarded unchanged, with its newline back. */
  lemma {:induction false} NoAcceptedSpanUnchanged(message: Bytes, result: Bytes, matches: seq<Span>)
    requires ValidSpans(message, matches)
    requires forall i :: 0 <= i < |matches| ==> !Accepted(message, matches[i])
    ensures Rewritten(message, result, matches) == result
    decreases |matches|
  {
    if matches != [] {
      NoAcceptedSpanUnchanged(message, result, matches[1..]);
    }
  }

  lemma NoAcceptedRewrite(message: Bytes, matches: seq<Span>)
    requires ValidSpans(message, matches)
    requires forall i :: 0 <= i < |matches| ==> !Accepted(message, matches[i])
    ensures Rewrite(message, matches) == message + [NL]
  {
    NoAcceptedSpanUnchanged(message, message, matches);
  }

  /**
   * A word standing between spaces, matched once and found nowhere else: it alone is replaced by
   * `TONY_BOGUS`, and everything around it is forwarded as it was.
   */
  lemma RewriteWord(before: Bytes, word: Bytes, after: Bytes)
    requires |word| > 0 && SPACE !in word
    requires forall i :: 0 <= i <= |before| ==> !OccursAt(before, word, i)
    requires forall i :: 0 <= i <= |after| ==> !OccursAt(after, word, i)
    ensures var message := before + [SPACE] + word + [SPACE] + after;
      var m := Span(|before| + 1, |before| + 1 + |word|);
      ValidSpans(message, [m]) &&
      Rewrite(message, [m]) == before + [SPACE] + TONY_BOGUS + [SPACE] + after + [NL]
  {
    var message := before + [SPACE] + word + [SPACE] + after;
    var m := Span(|before| + 1, |before| + 1 + |word|);
    assert message[m.start..m.end] == word;
    assert Accepted(message, m);
    ReplaceIsolatedWord(before, word, after);
    assert Rewritten(message, message, [m]) == Rewritten(message, ReplaceAll(message, word, TONY_BOGUS), []);
  }

  /** Replacing a word found only between the two spaces around it changes just that word. */
  lemma ReplaceIsolatedWord(before: Bytes, word: Bytes, after: Bytes)
    requires |word| > 0 && SPACE !in word
    requires forall i :: 0 <= i <= |before| ==> !OccursAt(before, word, i)
    requires forall i :: 0 <= i <= |after| ==> !OccursAt(after, word, i)
    ensures ReplaceAll(before + [SPACE] + word + [SPACE] + after, word, TONY_BOGUS)
         == before + [SPACE] + TONY_BOGUS + [SPACE] + after
  {
    var lead := before + [SPACE];
    AppendAssoc(lead, word, [SPACE]);
    AppendAssoc(lead, word + [SPACE], after);
    ReplaceSplits(before, SPACE, word + [SPACE] + after, word, TONY_BOGUS);
    ReplaceSplits(word, SPACE, after, word, TONY_BOGUS);
    ReplacePattern(word, TONY_BOGUS);
    ReplaceWithoutOccurrence(before, word, TONY_BOGUS);
    ReplaceWithoutOccurrence(after, word, TONY_BOGUS);
    AppendAssoc(lead, TONY_BOGUS + [SPACE], after);
    AppendAssoc(lead, TONY_BOGUS, [SPACE]);
  }

  /**
   * An accepted span's text is replaced at every occurrence, not only where it was matched: a
   * second copy of the word elsewhere in the message is rewritten too.
   */
  lemma RewriteEveryCopy(word: Bytes)
    requires |word| > 0 && SPACE !in word
    ensures var message := word + [SPACE] + word;
      ValidSpans(message, [Span(0, |word|)]) &&
      Rewrite(message, [Span(0, |word|)]) == TONY_BOGUS + [SPACE] + TONY_BOGUS + [NL]
  {
    var message := word + [SPACE] + word;
    var m := Span(0, |word|);
    assert message[m.start..m.end] == word;
    assert Accepted(message, m);
    ReplaceSplits(word, SPACE, word, word, TONY_BOGUS);
    ReplacePattern(word, TONY_BOGUS);
    assert Rewritten(message, message, [m]) == Rewritten(message, ReplaceAll(message, word, TONY_BOGUS), []);
  }

  /** A span glued to a non-space byte on its left is not accepted. */
  lemma GluedSpanRejected(before: Bytes, word: Bytes)
    requires |before| > 0 && before[|before| - 1] != SPACE && |word| > 0
    ensures var message := before + word;
      ValidSpans(message, [Span(|before|, |message|)]) &&
      Rewrite(message, [Span(|before|, |message|)]) == message + [NL]
  {
    var message := before + word;
    assert message[|before| - 1] == before[|before| - 1];
    NoAcceptedRewrite(message, [Span(|before|, |message|)]);
  }

  // ---------------------------------------------------------------------------------------------
  // One direction of the proxy
  // ---------------------------------------------------------------------------------------------

  /** The matcher's spans for every message. */
  ghost predicate ValidMatcher(find: Bytes -> seq<Span>)
  {
    forall m: Bytes :: ValidSpans(m, find(m))
  }

  /** Everything forwarded for the lines `lines`, in order. */
  function Forwarded(lines: seq<Bytes>, find: Bytes -> seq<Span>): Bytes
    requires forall i :: 0 <= i < |lines| ==> ValidSpans(lines[i], find(lines[i]))
    decreases |lines|
  {
    if lines == [] then []
    else Rewrite(lines[0], find(lines[0])) + Forwarded(lines[1..], find)
  }

  lemma {:induction false} ForwardedAppend(lines: seq<Bytes>, line: Bytes, find: Bytes -> seq<Span>)
    requires forall i :: 0 <= i < |lines| ==> ValidSpans(lines[i], find(lines[i]))
    requires ValidSpans(line, find(line))
    ensures Forwarded(lines + [line], find) == Forwarded(lines, find) + Rewrite(line, find(line))
    decreases |lines|
  {
    if lines == [] {
      assert [] + [line] == [line];
    } else {
      assert (lines + [line])[1..] == lines[1..] + [line];
      ForwardedAppend(lines[1..], line, find);
    }
  }

  /**
   * The loop of `proxy_and_rewrite` for one direction, without the shared `alive` flag: read a
   * line, forward it rewritten, until `readline` fails. What reaches the other side is every
   * line the source sent before its first framing error, each rewritten.
   */
  method ProxyDirection(input: seq<Read>, find: Bytes -> seq<Span>) returns (sent: Bytes)
    requires ValidMatcher(find)
    ensures sent == Forwarded(Lines(input), find)
  {
    var rest := input;
    sent := [];
    ghost var done: seq<Bytes> := [];
    while true
      invariant done + Lines(rest) == Lines(input)
      invariant sent == Forwarded(done, find)
      decreases Size(rest)
    {
      var line, next := ReadLine(rest);
      if line.Err? {
        LinesStep(rest);
        assert done + [] == done;
        return;
      }
      var message := line.value;
      assert ValidSpans(message, find(message));
      var newMessage := RewriteMessage(message, find(message));
      ForwardedAppend(done, message, find);
      sent := sent + newMessage;
      LinesAdvance(done, rest);
      done := done + [message];
      rest := next;
    }
  }
}
