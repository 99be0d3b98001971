/** The message helpers of src/services/Messages.service.ts: placeholder
    substitution in language strings (`parseLangMessage`), the participants
    text of the event card (`generateEventEmbed`), the level tables, option
    normalisation (`parseOptions`), the option handling of `generateEmbed`
    and the language lookup of `getLangFromMessage`.

    The JavaScript string operations the source relies on are written out:
    `indexOf`, `split(sep)[0]`, `replace(literal, value)` and the leftmost
    match of the pattern /\$\$(\S*)\$\$/. */
module Messages {
  import opened Wrappers

  // ---------------------------------------------------------------------------
  // Text search and replacement
  // ---------------------------------------------------------------------------

  /** `pat` occurs in `s` starting at index `k`. */
  predicate OccursAt(s: string, pat: string, k: nat)
  {
    k + |pat| <= |s| && s[k..k + |pat|] == pat
  }

  /** `s.indexOf(pat, from)`: the first index at or after `from` where `pat`
      occurs, or -1 (that no earlier index qualifies is IndexOfTextFirst). */
  function IndexOfText(s: string, pat: string, from: nat): (r: int)
    ensures r == -1 || (from <= r && r + |pat| <= |s|)
    decreases |s| - from
  {
    if from + |pat| > |s| then -1
    else if OccursAt(s, pat, from) then from
    else IndexOfText(s, pat, from + 1)
  }

  /** What `indexOf` finds is an occurrence, at or after `from`. */
  lemma {:induction false} IndexOfTextFound(s: string, pat: string, from: nat)
    requires IndexOfText(s, pat, from) != -1
    ensures from <= IndexOfText(s, pat, from) && OccursAt(s, pat, IndexOfText(s, pat, from))
    decreases |s| - from
  {
    if from + |pat| <= |s| && !OccursAt(s, pat, from) {
      IndexOfTextFound(s, pat, from + 1);
    }
  }

  /** `indexOf` finds an occurrence whenever there is one, and none later
      than any occurrence. */
  lemma {:induction false} IndexOfTextFirst(s: string, pat: string, from: nat, k: nat)
    requires from <= k && OccursAt(s, pat, k)
    ensures 0 <= IndexOfText(s, pat, from) <= k
    decreases |s| - from
  {
    if from + |pat| <= |s| && !OccursAt(s, pat, from) {
      IndexOfTextFirst(s, pat, from + 1, k);
    }
  }

  /** No `$` in the text. */
  predicate NoDollar(s: string)
  {
    '$' !in s
  }

  /** `s.replace(pat, value)` with a string pattern: only the first occurrence
      of `pat` is replaced. JavaScript reads `$` in the replacement as a
      pattern, so the value is required to hold none. */
  function ReplaceFirst(s: string, pat: string, value: string): string
    requires NoDollar(value)
  {
    var i := IndexOfText(s, pat, 0);
    if i == -1 then s else s[..i] + value + s[i + |pat|..]
  }

  /** `t.split(sep)[0]`: the text before the first `sep`, or all of `t`. */
  function SplitHead(t: string, sep: string): string
  {
    var i := IndexOfText(t, sep, 0);
    if i == -1 then t else t[..i]
  }

  // ---------------------------------------------------------------------------
  // The placeholder pattern /\$\$(\S*)\$\$/
  // ---------------------------------------------------------------------------

  /** JavaScript's `\s`: the white-space and line-terminator characters. */
  predicate IsSpace(c: char)
  {
    c == '\t' || c == '\n' || c == '\U{B}' || c == '\U{C}' || c == '\r' || c == ' '
    || c == '\U{A0}' || c == '\U{1680}' || ('\U{2000}' <= c <= '\U{200A}')
    || c == '\U{2028}' || c == '\U{2029}' || c == '\U{202F}' || c == '\U{205F}'
    || c == '\U{3000}' || c == '\U{FEFF}'
  }

  predicate NoSpace(t: string)
  {
    forall i :: 0 <= i < |t| ==> !IsSpace(t[i])
  }

  /** A `$$` marker starts at index `k`. */
  predicate MarkerAt(s: string, k: int)
  {
    0 <= k && k + 1 < |s| && s[k] == '$' && s[k + 1] == '$'
  }

  lemma MarkerIsOccurrence(s: string, k: nat)
    ensures MarkerAt(s, k) <==> OccursAt(s, "$$", k)
  {
    if k + 2 <= |s| {
      assert s[k..k + 2][0] == s[k] && s[k..k + 2][1] == s[k + 1];
    }
  }

  /** The first `$$` at or after `from`, or -1. */
  function NextMarker(s: string, from: nat): (r: int)
    ensures r == -1 || (from <= r && r + 1 < |s|)
    decreases |s| - from
  {
    if from + 1 >= |s| then -1
    else if MarkerAt(s, from) then from
    else NextMarker(s, from + 1)
  }

  /** What the search finds is a marker, at or after `from`. */
  lemma {:induction false} NextMarkerFound(s: string, from: nat)
    requires NextMarker(s, from) != -1
    ensures from <= NextMarker(s, from) && MarkerAt(s, NextMarker(s, from))
    decreases |s| - from
  {
    if from + 1 < |s| && !MarkerAt(s, from) {
      NextMarkerFound(s, from + 1);
    }
  }

  lemma {:induction false} NextMarkerFirst(s: string, from: nat, k: nat)
    requires from <= k && MarkerAt(s, k)
    ensures 0 <= NextMarker(s, from) <= k
    decreases |s| - from
  {
    if from + 1 < |s| && !MarkerAt(s, from) {
      NextMarkerFirst(s, from + 1, k);
    }
  }

  /** `s.indexOf('$$', from)` finds the next marker. */
  lemma NextMarkerIsIndexOf(s: string, from: nat)
    ensures IndexOfText(s, "$$", from) == NextMarker(s, from)
  {
    var r := IndexOfText(s, "$$", from);
    var m := NextMarker(s, from);
    if r != -1 {
      IndexOfTextFound(s, "$$", from);
      MarkerIsOccurrence(s, r);
      NextMarkerFirst(s, from, r);
    }
    if m != -1 {
      NextMarkerFound(s, from);
      MarkerIsOccurrence(s, m);
      IndexOfTextFirst(s, "$$", from, m);
    }
  }

  /** Searching a suffix finds the same marker, shifted. */
  lemma NextMarkerShift(s: string, d: nat, from: nat)
    requires d <= |s|
    ensures NextMarker(s[d..], from) == if NextMarker(s, d + from) == -1 then -1 else NextMarker(s, d + from) - d
  {
    var r := NextMarker(s, d + from);
    var t := NextMarker(s[d..], from);
    if t != -1 {
      NextMarkerFound(s[d..], from);
      assert MarkerAt(s, d + t);
      NextMarkerFirst(s, d + from, d + t);
    }
    if r != -1 {
      NextMarkerFound(s, d + from);
      assert MarkerAt(s[d..], r - d);
      NextMarkerFirst(s[d..], from, r - d);
    }
  }

  /** What the regular expression means at index `p`: a `$$`, then a run of
      non-white-space characters, then a `$$` (the greedy `\S*` backtracks to
      any closing `$$`). */
  ghost predicate RegexMatchAt(s: string, p: nat)
  {
    MarkerAt(s, p) &&
    exists q: nat :: p + 2 <= q && MarkerAt(s, q) && NoSpace(s[p + 2..q])
  }

  /** The same test, decided by looking at the NEXT `$$` only. */
  predicate MatchAt(s: string, p: nat)
  {
    MarkerAt(s, p) &&
    var k := NextMarker(s, p + 2);
    k != -1 && NoSpace(s[p + 2..k])
  }

  /** Looking at the next `$$` decides the regular expression exactly:
      a non-white-space run up to a later `$$` is one up to the next. */
  lemma MatchAtIsRegexMatch(s: string, p: nat)
    ensures MatchAt(s, p) <==> RegexMatchAt(s, p)
  {
    if MarkerAt(s, p) {
      var k := NextMarker(s, p + 2);
      if k != -1 {
        NextMarkerFound(s, p + 2);
      }
      if RegexMatchAt(s, p) {
        var q: nat :| p + 2 <= q && MarkerAt(s, q) && NoSpace(s[p + 2..q]);
        NextMarkerFirst(s, p + 2, q);
        var t, u := s[p + 2..k], s[p + 2..q];
        forall i | 0 <= i < |t| ensures !IsSpace(t[i]) {
          assert t[i] == u[i];
        }
      }
    }
  }

  /** The index of `s.match(/\$\$(\S*)\$\$/)` searched from `from`: a
      placeholder, or -1 (that it is the leftmost is FirstMatchFirst). */
  function FirstMatch(s: string, from: nat): (r: int)
    ensures r == -1 || (from <= r && r + 2 <= NextMarker(s, r + 2))
    decreases |s| - from
  {
    if from >= |s| then -1
    else if MatchAt(s, from) then from
    else FirstMatch(s, from + 1)
  }

  /** What the search finds is a match, at or after `from`. */
  lemma {:induction false} FirstMatchFound(s: string, from: nat)
    requires FirstMatch(s, from) != -1
    ensures from <= FirstMatch(s, from) && MatchAt(s, FirstMatch(s, from))
    decreases |s| - from
  {
    if from < |s| && !MatchAt(s, from) {
      FirstMatchFound(s, from + 1);
    }
  }

  lemma {:induction false} FirstMatchFirst(s: string, from: nat, p: nat)
    requires from <= p && MatchAt(s, p)
    ensures 0 <= FirstMatch(s, from) <= p
    decreases |s| - from
  {
    if from < |s| && !MatchAt(s, from) {
      FirstMatchFirst(s, from + 1, p);
    }
  }

  /** A match in the text behind position `d` is a match in the suffix. */
  lemma MatchInSuffix(s: string, d: nat, r: nat)
    requires d <= r <= |s| && MatchAt(s, r)
    ensures MatchAt(s[d..], r - d)
  {
    NextMarkerShift(s, d, r - d + 2);
    var k := NextMarker(s, r + 2);
    NextMarkerFound(s, r + 2);
    SliceOfSuffix(s, d, r - d + 2, k - d, r + 2, k);
  }

  /** A match in the suffix from `d` is a match in the text, shifted. */
  lemma MatchFromSuffix(s: string, d: nat, p: nat)
    requires d <= |s| && MatchAt(s[d..], p)
    ensures MatchAt(s, d + p)
  {
    NextMarkerShift(s, d, p + 2);
    var k := NextMarker(s[d..], p + 2);
    NextMarkerFound(s[d..], p + 2);
    SliceOfSuffix(s, d, p + 2, k, d + p + 2, d + k);
  }

  // ---------------------------------------------------------------------------
  // parseLangMessage
  // ---------------------------------------------------------------------------

  /** `args[key]` as it lands in the text: a missing key reads `undefined`. */
  function Value(args: map<string, string>, key: string): string
  {
    if key in args then args[key] else "undefined"
  }

  predicate ValuesNoDollar(args: map<string, string>)
  {
    forall key | key in args :: NoDollar(args[key])
  }

  /** The number of `$` in the text. */
  function DollarCount(s: string): nat
  {
    multiset(s)['$']
  }

  /** The key read by `result.slice(index + 2).split('$$')[0]` is the text
      between the opening `$$` and the next `$$`. */
  lemma KeyBeforeMarker(s: string, p: nat)
    requires MatchAt(s, p)
    ensures SplitHead(s[p + 2..], "$$") == s[p + 2..NextMarker(s, p + 2)]
  {
    NextMarkerIsIndexOf(s[p + 2..], 0);
    NextMarkerShift(s, p + 2, 0);
  }

  /** An occurrence of the literal `$$key$$`, for a key without white
      space, is a place where the pattern matches. */
  lemma LiteralIsMatch(s: string, j: nat, key: string)
    requires NoSpace(key) && OccursAt(s, "$$" + key + "$$", j)
    ensures MatchAt(s, j)
  {
    var lit := "$$" + key + "$$";
    var q := j + 2 + |key|;
    var w := s[j..j + |lit|];
    assert s[j] == w[0] == '$' && s[j + 1] == w[1] == '$';
    assert s[q] == w[q - j] == '$' && s[q + 1] == w[q - j + 1] == '$';
    assert s[j + 2..q] == key by {
      forall i | 0 <= i < |key| ensures s[j + 2 + i] == key[i] {
        assert s[j + 2 + i] == w[2 + i] == lit[2 + i];
      }
    }
    assert j + 2 <= q && MarkerAt(s, q) && NoSpace(s[j + 2..q]);
    assert RegexMatchAt(s, j);
    MatchAtIsRegexMatch(s, j);
  }

  /** The literal `$$key$$` handed to `replace` first occurs exactly at the
      leftmost placeholder: an earlier occurrence would itself be a match. */
  lemma LiteralAtFirstMatch(s: string, p: nat, k: nat)
    requires p == FirstMatch(s, 0) && k == NextMarker(s, p + 2) && p + 2 <= k
    ensures IndexOfText(s, "$$" + s[p + 2..k] + "$$", 0) == p
  {
    Located(s, p);
    var key := s[p + 2..k];
    PlaceholderText(s, p, k);
    IndexOfTextFirst(s, "$$" + key + "$$", 0, p);
    var j := IndexOfText(s, "$$" + key + "$$", 0);
    IndexOfTextFound(s, "$$" + key + "$$", 0);
    assert NoSpace(key) by { FirstMatchFound(s, 0); }
    LiteralIsMatch(s, j, key);
    FirstMatchFirst(s, 0, j);
  }

  /** One turn of the loop: the leftmost placeholder `$$key$$` becomes
      `args[key]`; the text before and after it is untouched. */
  function Step(s: string, args: map<string, string>): string
    requires FirstMatch(s, 0) >= 0
  {
    FirstMatchFound(s, 0);
    ReplacedAt(s, FirstMatch(s, 0), args)
  }

  /** The placeholder that opens at `p` replaced by its value. */
  function ReplacedAt(s: string, p: nat, args: map<string, string>): string
    requires MatchAt(s, p)
  {
    var k := NextMarker(s, p + 2);
    Splice(s, p, k, Value(args, s[p + 2..k]))
  }

  /** The text with the placeholder spanning `p` to `k + 2` replaced by `v`. */
  function Splice(s: string, p: nat, k: nat, v: string): string
    requires p + 2 <= k && k + 2 <= |s|
  {
    s[..p] + v + s[k + 2..]
  }

  /** `s.replace(pat, value)` when `pat` is first found at `i`. */
  lemma ReplaceAt(s: string, pat: string, value: string, i: nat)
    requires NoDollar(value) && IndexOfText(s, pat, 0) == i
    ensures ReplaceFirst(s, pat, value) == s[..i] + value + s[i + |pat|..]
  {
  }

  /** `s.replace(pat, value)` leaves a text without `pat` as it is, and
      otherwise replaces `pat` where it first occurs, keeping the text before
      and after. */
  lemma {:induction false} ReplaceFirstAtFirstOccurrence(s: string, pat: string, value: string, i: nat)
    requires NoDollar(value)
    ensures (forall k: nat :: !OccursAt(s, pat, k)) ==> ReplaceFirst(s, pat, value) == s
    ensures OccursAt(s, pat, i) && (forall j: nat | j < i :: !OccursAt(s, pat, j)) ==>
              ReplaceFirst(s, pat, value) == s[..i] + value + s[i + |pat|..]
  {
    if IndexOfText(s, pat, 0) != -1 {
      IndexOfTextFound(s, pat, 0);
    }
    if OccursAt(s, pat, i) && (forall j: nat | j < i :: !OccursAt(s, pat, j)) {
      assert IndexOfText(s, pat, 0) == i by {
        IndexOfTextFirst(s, pat, 0, i);
        IndexOfTextFound(s, pat, 0);
      }
      ReplaceAt(s, pat, value, i);
    }
  }

  /** The text between two markers, markers included, is the literal
      placeholder of what lies between them. */
  lemma PlaceholderText(s: string, p: nat, k: nat)
    requires MarkerAt(s, p) && MarkerAt(s, k) && p + 2 <= k
    ensures OccursAt(s, "$$" + s[p + 2..k] + "$$", p)
  {
    var lit := "$$" + s[p + 2..k] + "$$";
    assert |lit| == k + 2 - p;
    forall i | 0 <= i < |lit| ensures s[p..k + 2][i] == lit[i] {
      if 2 <= i < |lit| - 2 {
        assert lit[i] == s[p + 2..k][i - 2];
      }
    }
  }

  /** The loop body of parseLangMessage (find the match, read the key up to
      the next `$$`, replace the first `$$key$$`) performs exactly one Step. */
  lemma ReplaceIsStep(s: string, args: map<string, string>, p: int, key: string)
    requires ValuesNoDollar(args) && p == FirstMatch(s, 0) && p >= 0
    requires key == SplitHead(s[p + 2..], "$$")
    ensures ReplaceFirst(s, "$$" + key + "$$", Value(args, key)) == Step(s, args)
  {
    var k := NextMarker(s, p + 2);
    FirstMatchFound(s, 0);
    Located(s, p);
    KeyBeforeMarker(s, p);
    LiteralAtFirstMatch(s, p, k);
    ReplaceIsSplice(s, p, k, key, Value(args, key));
    StepAt(s, args, p, k, key);
  }

  /** Replacing the literal placeholder where it is first found is the
      splice over that placeholder. */
  lemma ReplaceIsSplice(s: string, p: nat, k: nat, key: string, v: string)
    requires p + 2 <= k && k + 2 <= |s| && key == s[p + 2..k] && NoDollar(v)
    requires IndexOfText(s, "$$" + key + "$$", 0) == p
    ensures ReplaceFirst(s, "$$" + key + "$$", v) == Splice(s, p, k, v)
  {
    ReplaceAt(s, "$$" + key + "$$", v, p);
    assert p + |"$$" + key + "$$"| == k + 2;
  }

  /** Splicing a `$`-free value over a placeholder removes its four `$`. */
  lemma DollarCountSplice(s: string, p: nat, k: nat, v: string)
    requires p + 2 <= k && k + 2 <= |s| && MarkerAt(s, p) && MarkerAt(s, k) && NoDollar(v)
    ensures DollarCount(Splice(s, p, k, v)) + 4 <= DollarCount(s)
  {
    var a, m, b := s[..p], s[p..k + 2], s[k + 2..];
    assert s == a + m + b;
    assert Splice(s, p, k, v) == a + v + b;
    assert multiset(s) == multiset(a) + multiset(m) + multiset(b);
    assert multiset(Splice(s, p, k, v)) == multiset(a) + multiset(v) + multiset(b);
    assert multiset(m)['$'] >= 4 by {
      assert m == [s[p], s[p + 1]] + s[p + 2..k] + [s[k], s[k + 1]];
    }
    assert multiset(v)['$'] == 0;
  }

  /** Each turn removes the four `$` of the placeholder and adds none. */
  lemma StepRemovesDollars(s: string, args: map<string, string>)
    requires ValuesNoDollar(args) && FirstMatch(s, 0) >= 0
    ensures DollarCount(Step(s, args)) + 4 <= DollarCount(s)
  {
    var p := FirstMatch(s, 0);
    Located(s, p);
    var k := NextMarker(s, p + 2);
    var v := Value(args, s[p + 2..k]);
    assert Step(s, args) == Splice(s, p, k, v);
    DollarCountSplice(s, p, k, v);
  }

  /** The leftmost placeholder: its two markers, inside the text. */
  lemma Located(s: string, p: nat)
    requires FirstMatch(s, 0) == p
    ensures MarkerAt(s, p) && MarkerAt(s, NextMarker(s, p + 2))
    ensures p + 2 <= NextMarker(s, p + 2) && NextMarker(s, p + 2) + 2 <= |s|
  {
    FirstMatchFound(s, 0);
    NextMarkerFound(s, p + 2);
  }

  /** The text `parseLangMessage(message, args)` returns: placeholders are
      replaced leftmost first until none is left. */
  function Substituted(s: string, args: map<string, string>): string
    requires ValuesNoDollar(args)
    decreases DollarCount(s)
  {
    if FirstMatch(s, 0) == -1 then s
    else
      StepRemovesDollars(s, args);
      Substituted(Step(s, args), args)
  }

  lemma SubstitutedUnfold(s: string, args: map<string, string>)
    requires ValuesNoDollar(args) && FirstMatch(s, 0) >= 0
    ensures Substituted(s, args) == Substituted(Step(s, args), args)
  {
  }

  /** The pattern no longer matches the substituted text. */
  lemma {:induction false} SubstitutedIsFinal(s: string, args: map<string, string>)
    requires ValuesNoDollar(args)
    ensures FirstMatch(Substituted(s, args), 0) == -1
    decreases DollarCount(s)
  {
    if FirstMatch(s, 0) != -1 {
      StepRemovesDollars(s, args);
      SubstitutedIsFinal(Step(s, args), args);
    }
  }

  /** The substituted text holds no placeholder anywhere. */
  lemma SubstitutedHasNoPlaceholder(s: string, args: map<string, string>, p: nat)
    requires ValuesNoDollar(args)
    ensures !RegexMatchAt(Substituted(s, args), p)
  {
    var r := Substituted(s, args);
    SubstitutedIsFinal(s, args);
    MatchAtIsRegexMatch(r, p);
    if MatchAt(r, p) {
      FirstMatchFirst(r, 0, p);
    }
  }

  /** A text comes back unchanged exactly when it holds no placeholder. */
  lemma SubstitutedUnchangedIff(s: string, args: map<string, string>)
    requires ValuesNoDollar(args)
    ensures Substituted(s, args) == s <==> FirstMatch(s, 0) == -1
  {
    SubstitutedIsFinal(s, args);
  }

  /** One turn of the loop of parseLangMessage: read the key after the
      opening `$$` up to the next `$$`, then replace the first `$$key$$`. */
  method ReplaceLeftmost(result: string, index: int, args: map<string, string>) returns (next: string)
    requires ValuesNoDollar(args) && index == FirstMatch(result, 0) && index != -1
    ensures next == Step(result, args)
  {
    var key := SplitHead(result[index + 2..], "$$");
    ReplaceIsStep(result, args, index, key);
    next := ReplaceFirst(result, "$$" + key + "$$", Value(args, key));
  }

  /** parseLangMessage, lines 140-149: a while loop that rewrites `result`
      until the pattern no longer matches. */
  method ParseLangMessage(message: string, args: map<string, string>) returns (result: string)
    requires ValuesNoDollar(args)
    ensures result == Substituted(message, args)
    ensures FirstMatch(result, 0) == -1
  {
    result := message;
    var index := FirstMatch(result, 0);
    while index != -1
      invariant index == FirstMatch(result, 0)
      invariant Substituted(result, args) == Substituted(message, args)
      decreases DollarCount(result)
    {
      StepRemovesDollars(result, args);
      SubstitutedUnfold(result, args);
      result := ReplaceLeftmost(result, index, args);
      index := FirstMatch(result, 0);
    }
  }

  /** A placeholder never starts inside a `$`-free prefix: the first match
      of the text is the first match after the prefix, shifted. */
  lemma FirstMatchAfterPrefix(s: string, d: nat)
    requires d <= |s| && NoDollar(s[..d])
    ensures FirstMatch(s, 0) == if FirstMatch(s[d..], 0) == -1 then -1 else d + FirstMatch(s[d..], 0)
  {
    FirstMatchNotInPrefix(s, d);
    if FirstMatch(s[d..], 0) != -1 {
      SuffixMatchFound(s, d);
    }
    if FirstMatch(s, 0) != -1 {
      MatchFoundInSuffix(s, d);
    }
  }

  /** No match starts on a `$`-free prefix. */
  lemma FirstMatchNotInPrefix(s: string, d: nat)
    requires d <= |s| && NoDollar(s[..d])
    ensures FirstMatch(s, 0) == -1 || FirstMatch(s, 0) >= d
  {
    if FirstMatch(s, 0) != -1 {
      FirstMatchFound(s, 0);
    }
    assert forall i | 0 <= i < d :: s[i] == s[..d][i];
  }

  /** A match after the prefix is seen from the start, no later. */
  lemma SuffixMatchFound(s: string, d: nat)
    requires d <= |s| && FirstMatch(s[d..], 0) != -1
    ensures 0 <= FirstMatch(s, 0) <= d + FirstMatch(s[d..], 0)
  {
    var m := FirstMatch(s[d..], 0);
    FirstMatchFound(s[d..], 0);
    MatchFromSuffix(s, d, m);
    FirstMatchFirst(s, 0, d + m);
  }

  /** A match behind the prefix is seen from the prefix's end, no later. */
  lemma MatchFoundInSuffix(s: string, d: nat)
    requires d <= |s| && FirstMatch(s, 0) >= d
    ensures 0 <= FirstMatch(s[d..], 0) <= FirstMatch(s, 0) - d
  {
    var r: nat := FirstMatch(s, 0);
    assert MatchAt(s[d..], r - d) by {
      FirstMatchFound(s, 0);
      MatchInSuffix(s, d, r);
    }
    FirstMatchFirst(s[d..], 0, r - d);
  }

  /** A splice behind position `d` leaves the first `d` characters alone. */
  lemma SplicePrefix(s: string, d: nat, m: nat, k: nat, v: string)
    requires d + k + 2 <= |s| && m + 2 <= k
    ensures Splice(s, d + m, d + k, v) == s[..d] + Splice(s[d..], m, k, v)
  {
    assert s[..d + m] == s[..d] + s[d..][..m];
    assert s[d + k + 2..] == s[d..][k + 2..];
  }

  lemma StepAt(s: string, args: map<string, string>, p: nat, k: nat, key: string)
    requires FirstMatch(s, 0) == p && NextMarker(s, p + 2) == k && p + 2 <= k && key == s[p + 2..k]
    ensures Step(s, args) == Splice(s, p, k, Value(args, key))
  {
  }

  /** A marker found in a suffix is found in the whole text, shifted. */
  lemma NextMarkerShiftFound(s: string, d: nat, from: nat, at: nat)
    requires d <= |s| && at == d + from && NextMarker(s[d..], from) >= 0
    ensures NextMarker(s, at) == d + NextMarker(s[d..], from)
  {
    NextMarkerShift(s, d, from);
  }

  /** Slicing a suffix is slicing the text, shifted. */
  lemma SliceOfSuffix(s: string, d: nat, i: nat, j: nat, a: nat, b: nat)
    requires d + j <= |s| && i <= j && a == d + i && b == d + j
    ensures s[d..][i..j] == s[a..b]
  {
    assert forall n | 0 <= n < j - i :: s[d..][i..j][n] == s[a + n];
  }

  /** When the first placeholder lies behind position `d`, the step leaves
      the first `d` characters alone. */
  lemma StepAfterPrefix(s: string, d: nat, args: map<string, string>)
    requires d <= |s| && FirstMatch(s[d..], 0) >= 0 && FirstMatch(s, 0) == d + FirstMatch(s[d..], 0)
    ensures Step(s, args) == s[..d] + Step(s[d..], args)
  {
    var m: nat := FirstMatch(s[d..], 0);
    FirstMatchFound(s[d..], 0);
    FirstMatchFound(s, 0);
    ReplacedAtShift(s, d, m, args);
  }

  /** Replacing a placeholder behind position `d` leaves the first `d`
      characters alone. */
  lemma ReplacedAtShift(s: string, d: nat, m: nat, args: map<string, string>)
    requires d <= |s| && MatchAt(s[d..], m) && MatchAt(s, d + m)
    ensures ReplacedAt(s, d + m, args) == s[..d] + ReplacedAt(s[d..], m, args)
  {
    var y := s[d..];
    var k := NextMarker(y, m + 2);
    NextMarkerShiftFound(s, d, m + 2, d + m + 2);
    SliceOfSuffix(s, d, m + 2, k, d + m + 2, d + k);
    SplicePrefix(s, d, m, k, Value(args, y[m + 2..k]));
  }

  lemma {:induction false} SubstitutedAfterPrefix(s: string, d: nat, args: map<string, string>)
    requires d <= |s| && NoDollar(s[..d]) && ValuesNoDollar(args)
    ensures Substituted(s, args) == s[..d] + Substituted(s[d..], args)
    decreases DollarCount(s[d..])
  {
    FirstMatchAfterPrefix(s, d);
    var y := s[d..];
    if FirstMatch(y, 0) != -1 {
      var t := Step(s, args);
      StepAfterPrefix(s, d, args);
      ConcatParts(s[..d], Step(y, args));
      StepRemovesDollars(y, args);
      SubstitutedAfterPrefix(t, d, args);
      SubstitutedUnfold(s, args);
      SubstitutedUnfold(y, args);
    } else {
      NothingToSubstitute(s, d, args);
    }
  }

  /** The two halves of a concatenation. */
  lemma ConcatParts(a: string, b: string)
    ensures (a + b)[..|a|] == a && (a + b)[|a|..] == b
  {
  }

  lemma NothingToSubstitute(s: string, d: nat, args: map<string, string>)
    requires d <= |s| && ValuesNoDollar(args) && FirstMatch(s, 0) == -1 && FirstMatch(s[d..], 0) == -1
    ensures Substituted(s, args) == s[..d] + Substituted(s[d..], args)
  {
    assert s == s[..d] + s[d..];
  }

  /** Text without `$` in front of the rest is carried through unchanged,
      and the rest is substituted as if it stood alone. */
  lemma SubstitutedAfterNoDollar(x: string, y: string, args: map<string, string>)
    requires NoDollar(x) && ValuesNoDollar(args)
    ensures Substituted(x + y, args) == x + Substituted(y, args)
  {
    assert (x + y)[..|x|] == x && (x + y)[|x|..] == y;
    SubstitutedAfterPrefix(x + y, |x|, args);
  }

  /** The placeholder for `key` as language strings write it. */
  function Placeholder(key: string): string
  {
    "$$" + key + "$$"
  }

  /** Where the pattern finds a placeholder that opens the text. */
  lemma LeadingPlaceholderFound(s: string, key: string, rest: string)
    requires NoDollar(key) && NoSpace(key) && s == Placeholder(key) + rest
    ensures FirstMatch(s, 0) == 0 && NextMarker(s, 2) == 2 + |key|
    ensures s[2..2 + |key|] == key && s[4 + |key|..] == rest
  {
    assert MarkerAt(s, 0) && MarkerAt(s, 2 + |key|);
    NextMarkerFirst(s, 2, 2 + |key|);
    NextMarkerFound(s, 2);
    assert forall i | 2 <= i < 2 + |key| :: s[i] == key[i - 2];
    assert s[2..2 + |key|] == key;
    assert MatchAt(s, 0);
    FirstMatchFirst(s, 0, 0);
    assert s[4 + |key|..] == rest;
  }

  lemma SubstitutedOpening(s: string, key: string, rest: string, args: map<string, string>)
    requires ValuesNoDollar(args) && NoDollar(Value(args, key))
    requires FirstMatch(s, 0) == 0 && NextMarker(s, 2) == 2 + |key|
    requires s[2..2 + |key|] == key && s[4 + |key|..] == rest
    ensures Substituted(s, args) == Value(args, key) + Substituted(rest, args)
  {
    OpeningStep(s, key, rest, args);
    SubstitutedUnfold(s, args);
    SubstitutedAfterNoDollar(Value(args, key), rest, args);
  }

  /** The step on a text that opens with a placeholder. */
  lemma OpeningStep(s: string, key: string, rest: string, args: map<string, string>)
    requires FirstMatch(s, 0) == 0 && NextMarker(s, 2) == 2 + |key|
    requires s[2..2 + |key|] == key && s[4 + |key|..] == rest
    ensures Step(s, args) == Value(args, key) + rest
  {
    StepAt(s, args, 0, 2 + |key|, key);
    assert Splice(s, 0, 2 + |key|, Value(args, key)) == Value(args, key) + rest;
  }

  /** A text that opens with the placeholder `$$key$$` gets `args[key]` in
      its place and the rest substituted on its own. */
  lemma LeadingPlaceholder(key: string, rest: string, args: map<string, string>)
    requires NoDollar(key) && NoSpace(key) && ValuesNoDollar(args)
    ensures Substituted(Placeholder(key) + rest, args) == Value(args, key) + Substituted(rest, args)
  {
    LeadingPlaceholderFound(Placeholder(key) + rest, key, rest);
    SubstitutedOpening(Placeholder(key) + rest, key, rest, args);
  }

  // ---------------------------------------------------------------------------
  // The event card text
  // ---------------------------------------------------------------------------

  /** The language strings the event card is built from
      (`embed.event.description` and `embed.event.noPeople`). */
  datatype EventTexts = EventTexts(template: string, noPeople: string)

  /** The English strings, src/i18n/enEN.i18n.ts lines 41-42. */
  const EnglishEventTemplate: string :=
    Placeholder("description") + (" \n\n **Day**: " + (Placeholder("day") + (" \n **Time**: "
    + (Placeholder("time") + (" \n\n **Participants**:" + Placeholder("participants"))))))
  const EnglishEventTexts: EventTexts := EventTexts(EnglishEventTemplate, "\n- No participant")

  /** The English event text around its four values. */
  function EnglishEventText(description: string, day: string, time: string, participants: string): string
  {
    description + (" \n\n **Day**: " + (day + (" \n **Time**: " + (time + (" \n\n **Participants**:" + participants)))))
  }

  lemma LastPlaceholder(key: string, args: map<string, string>)
    requires NoDollar(key) && NoSpace(key) && ValuesNoDollar(args)
    ensures Substituted(Placeholder(key), args) == Value(args, key)
  {
    LeadingPlaceholder(key, "", args);
    assert Placeholder(key) + "" == Placeholder(key);
    assert Value(args, key) + "" == Value(args, key);
  }

  /** A template of four placeholders separated by `$`-free text is filled
      in place, each placeholder by its value. */
  lemma FourPlaceholdersFilled(k1: string, s1: string, k2: string, s2: string, k3: string, s3: string,
                               k4: string, args: map<string, string>)
    requires NoDollar(k1) && NoSpace(k1) && NoDollar(k2) && NoSpace(k2)
    requires NoDollar(k3) && NoSpace(k3) && NoDollar(k4) && NoSpace(k4)
    requires NoDollar(s1) && NoDollar(s2) && NoDollar(s3) && ValuesNoDollar(args)
    ensures Substituted(Placeholder(k1) + (s1 + (Placeholder(k2) + (s2 + (Placeholder(k3) + (s3 + Placeholder(k4)))))), args)
         == Value(args, k1) + (s1 + (Value(args, k2) + (s2 + (Value(args, k3) + (s3 + Value(args, k4))))))
  {
    var r3 := s3 + Placeholder(k4);
    var r2 := s2 + (Placeholder(k3) + r3);
    var r1 := s1 + (Placeholder(k2) + r2);
    LastPlaceholder(k4, args);
    SubstitutedAfterNoDollar(s3, Placeholder(k4), args);
    LeadingPlaceholder(k3, r3, args);
    SubstitutedAfterNoDollar(s2, Placeholder(k3) + r3, args);
    LeadingPlaceholder(k2, r2, args);
    SubstitutedAfterNoDollar(s1, Placeholder(k2) + r2, args);
    LeadingPlaceholder(k1, r1, args);
  }

  /** The English event template, filled: each of its four placeholders
      becomes its value, in place. */
  lemma EnglishTemplateFilled(args: map<string, string>)
    requires ValuesNoDollar(args)
    ensures Substituted(EnglishEventTemplate, args)
         == EnglishEventText(Value(args, "description"), Value(args, "day"), Value(args, "time"),
                             Value(args, "participants"))
  {
    EnglishKeysFit();
    EnglishSeparatorsFit();
    FourPlaceholdersFilled("description", " \n\n **Day**: ", "day", " \n **Time**: ", "time",
                           " \n\n **Participants**:", "participants", args);
  }

  /** The four keys of the English template can be matched. */
  lemma EnglishKeysFit()
    ensures NoDollar("description") && NoSpace("description") && NoDollar("day") && NoSpace("day")
    ensures NoDollar("time") && NoSpace("time") && NoDollar("participants") && NoSpace("participants")
  {
  }

  /** The text between the placeholders of the English template. */
  lemma EnglishSeparatorsFit()
    ensures NoDollar(" \n\n **Day**: ") && NoDollar(" \n **Time**: ") && NoDollar(" \n\n **Participants**:")
  {
  }

  /** One participant line of the card. */
  function Mention(id: string): string
  {
    "\n - <@!" + id + ">"
  }

  /** The participant lines, in list order. */
  function Mentions(ids: seq<string>): string
  {
    if ids == [] then "" else Mentions(ids[..|ids| - 1]) + Mention(ids[|ids| - 1])
  }

  /** A `$` shows up in the participant lines exactly when some participant
      id holds one. */
  lemma {:induction false} MentionsNoDollar(ids: seq<string>)
    ensures NoDollar(Mentions(ids)) <==> forall i :: 0 <= i < |ids| ==> NoDollar(ids[i])
  {
    if ids != [] {
      var init, last := ids[..|ids| - 1], ids[|ids| - 1];
      MentionsNoDollar(init);
      var m := Mention(last);
      assert NoDollar(m) <==> NoDollar(last) by {
        assert m == "\n - <@!" + last + ">";
      }
      assert forall i :: 0 <= i < |ids| - 1 ==> ids[i] == init[i];
    }
  }

  /** The lines of a concatenated list are the concatenated lines. */
  lemma {:induction false} MentionsAppend(a: seq<string>, b: seq<string>)
    ensures Mentions(a + b) == Mentions(a) + Mentions(b)
    decreases |b|
  {
    if b == [] {
      assert a + b == a;
    } else {
      assert (a + b)[..|a + b| - 1] == a + b[..|b| - 1];
      MentionsAppend(a, b[..|b| - 1]);
    }
  }

  /** What the card shows under "Participants": it holds a `$` only if the
      no-participant line or some participant id does. */
  function ParticipantsShown(participants: seq<string>, noPeople: string): (r: string)
    ensures NoDollar(noPeople) && (forall i :: 0 <= i < |participants| ==> NoDollar(participants[i])) ==> NoDollar(r)
  {
    MentionsNoDollar(participants);
    if |participants| == 0 then noPeople else Mentions(participants)
  }

  /** The participants text of generateEventEmbed, lines 182-191: the
      language's no-participant line for an empty list, otherwise one mention
      line per participant, in order. */
  method ParticipantsText(participants: seq<string>, noPeople: string) returns (text: string)
    ensures text == ParticipantsShown(participants, noPeople)
  {
    if |participants| == 0 {
      text := noPeople;
    } else {
      var participantsText := "";
      for i := 0 to |participants|
        invariant participantsText == Mentions(participants[..i])
      {
        assert participants[..i + 1][..i] == participants[..i];
        participantsText := participantsText + Mention(participants[i]);
      }
      assert participants[..|participants|] == participants;
      text := participantsText;
    }
  }

  // ---------------------------------------------------------------------------
  // Level tables
  // ---------------------------------------------------------------------------

  /** getEmbedColorByLevel: red for errors, blue for information, green for
      success, amber for anything else. */
  function EmbedColorByLevel(level: string): (color: nat)
    ensures level == "error" ==> color == 16711680
    ensures level == "info" ==> color == 36295
    ensures level == "success" ==> color == 1744384
    ensures level != "error" && level != "info" && level != "success" ==> color == 12619008
    ensures color < 0x100_0000
  {
    if level == "error" then 16711680
    else if level == "info" then 36295
    else if level == "success" then 1744384
    else 12619008
  }

  const ErrorThumbnail := "https://api.svalinn.fr/uploads/error_acfe8a5a01.png"
  const InfoThumbnail := "https://api.svalinn.fr/uploads/info_c2aa23440d.png"
  const SuccessThumbnail := "https://api.svalinn.fr/uploads/success_86555f3264.png"
  const WarningThumbnail := "https://api.svalinn.fr/uploads/warning_1c37e7b470.png"

  /** getEmbedThumbnailByLevel: one picture per level, the warning picture for
      anything else. */
  function EmbedThumbnailByLevel(level: string): (url: string)
    ensures level == "error" ==> url == ErrorThumbnail
    ensures level == "info" ==> url == InfoThumbnail
    ensures level == "success" ==> url == SuccessThumbnail
    ensures level != "error" && level != "info" && level != "success" ==> url == WarningThumbnail
  {
    if level == "error" then ErrorThumbnail
    else if level == "info" then InfoThumbnail
    else if level == "success" then SuccessThumbnail
    else WarningThumbnail
  }

  // ---------------------------------------------------------------------------
  // Embed options and generateEmbed
  // ---------------------------------------------------------------------------

  /** The optional settings of an embed: a picture URL, a level whose
      thumbnail to show, and placeholder values for the description. An
      absent field is JavaScript's `undefined`. */
  datatype EmbedOptions = EmbedOptions(
    image: Option<string>,
    thumbnail: Option<string>,
    langMessageArgs: Option<map<string, string>>)

  /** JavaScript truthiness of an optional string: present and non-empty. */
  predicate Truthy(o: Option<string>)
  {
    o.Some? && o.value != ""
  }

  /** Every string option that is set is non-empty. */
  predicate Normalised(o: EmbedOptions)
  {
    (o.image.Some? ==> Truthy(o.image)) && (o.thumbnail.Some? ==> Truthy(o.thumbnail))
  }

  /** parseOptions: copies each option only when it is truthy; no options at
      all give all three fields undefined. */
  function ParseOptions(options: Option<EmbedOptions>): (r: EmbedOptions)
    ensures Normalised(r)
    ensures options.None? ==> r == EmbedOptions(None, None, None)
    ensures options.Some? && Truthy(options.value.image) ==> r.image == options.value.image
    ensures options.Some? && Truthy(options.value.thumbnail) ==> r.thumbnail == options.value.thumbnail
    ensures options.Some? && !Truthy(options.value.image) ==> r.image.None?
    ensures options.Some? && !Truthy(options.value.thumbnail) ==> r.thumbnail.None?
    ensures r.langMessageArgs == if options.Some? then options.value.langMessageArgs else None
  {
    match options
    case None => EmbedOptions(None, None, None)
    case Some(o) =>
      EmbedOptions(
        if Truthy(o.image) then o.image else None,
        if Truthy(o.thumbnail) then o.thumbnail else None,
        o.langMessageArgs)
  }

  /** Normalising options that are already normal changes nothing, so
      parseOptions is idempotent. */
  lemma ParseOptionsIdempotent(options: Option<EmbedOptions>)
    ensures ParseOptions(Some(ParseOptions(options))) == ParseOptions(options)
  {
  }

  datatype EmbedText = EmbedText(title: string, description: string)

  /** The parts of the embed this model follows (footer and author need the
      chat client's user objects and are not modelled). */
  datatype Embed = Embed(
    title: string,
    description: string,
    color: nat,
    thumbnail: Option<string>,
    image: Option<string>)

  predicate ArgsAllowed(options: Option<EmbedOptions>)
  {
    options.Some? && options.value.langMessageArgs.Some? ==> ValuesNoDollar(options.value.langMessageArgs.value)
  }

  /** generateEmbed, lines 75-113: the description is substituted only when
      placeholder values are given; a thumbnail and a picture are attached
      only when their options are truthy. */
  method GenerateEmbed(content: EmbedText, level: string, options: Option<EmbedOptions>) returns (embed: Embed)
    requires ArgsAllowed(options)
    ensures embed.title == content.title
    ensures ParseOptions(options).langMessageArgs.None? ==> embed.description == content.description
    ensures ParseOptions(options).langMessageArgs.Some? ==>
              embed.description == Substituted(content.description, ParseOptions(options).langMessageArgs.value)
    ensures embed.color == EmbedColorByLevel(level)
    ensures embed.thumbnail.Some? <==> options.Some? && Truthy(options.value.thumbnail)
    ensures embed.thumbnail.Some? ==> embed.thumbnail.value == EmbedThumbnailByLevel(options.value.thumbnail.value)
    ensures embed.image.Some? <==> options.Some? && Truthy(options.value.image)
    ensures embed.image.Some? ==> embed.image == options.value.image
  {
    var finalOptions := ParseOptions(options);
    var desc := content.description;
    if finalOptions.langMessageArgs.Some? {
      desc := ParseLangMessage(desc, finalOptions.langMessageArgs.value);
    }
    var thumbnail := None;
    if finalOptions.thumbnail.Some? {
      thumbnail := Some(EmbedThumbnailByLevel(finalOptions.thumbnail.value));
    }
    embed := Embed(content.title, desc, EmbedColorByLevel(level), thumbnail, finalOptions.image);
  }

  /** The placeholder values of the event card. */
  function EventArgs(description: string, day: string, time: string, participantsText: string): map<string, string>
  {
    map["description" := description, "time" := time, "day" := day, "participants" := participantsText]
  }

  /** generateEventEmbed, lines 164-201: an information-level card whose
      description is the language's event template filled with the event's
      description, day, time and participants text. With the English
      strings the text is spelled out in full. */
  method GenerateEventEmbed(texts: EventTexts, title: string, description: string, day: string,
                            time: string, participants: seq<string>, image: Option<string>)
    returns (embed: Embed)
    requires NoDollar(description) && NoDollar(day) && NoDollar(time) && NoDollar(texts.noPeople)
    requires forall i :: 0 <= i < |participants| ==> NoDollar(participants[i])
    ensures embed.title == title
    ensures embed.color == 36295 && embed.thumbnail == Some(InfoThumbnail)
    ensures embed.image == if Truthy(image) then image else None
    ensures embed.description
         == Substituted(texts.template, EventArgs(description, day, time, ParticipantsShown(participants, texts.noPeople)))
    ensures texts == EnglishEventTexts ==>
              embed.description
              == EnglishEventText(description, day, time, ParticipantsShown(participants, "\n- No participant"))
  {
    var people := ParticipantsText(participants, texts.noPeople);
    var args := EventArgs(description, day, time, people);
    assert ValuesNoDollar(args);
    embed := GenerateEmbed(EmbedText(title, texts.template), "info", Some(EmbedOptions(image, Some("info"), Some(args))));
    if texts == EnglishEventTexts {
      EnglishTemplateFilled(args);
    }
  }

  // ---------------------------------------------------------------------------
  // getLangFromMessage
  // ---------------------------------------------------------------------------

  /** A guild configuration as `getLangFromMessage` reads it. */
  datatype GuildConfig = GuildConfig(guildId: string, channelId: string, i18n: string)

  predicate Serves(config: GuildConfig, guildId: string, channelId: string)
  {
    config.guildId == guildId && config.channelId == channelId
  }

  /** getLangFromMessage, lines 120-132: the language of the LAST
      configuration whose guild and channel both match the message, or null
      when none matches. */
  method GetLangFromMessage(configs: seq<GuildConfig>, guildId: string, channelId: string)
    returns (lang: Option<string>)
    ensures lang.None? <==> forall i :: 0 <= i < |configs| ==> !Serves(configs[i], guildId, channelId)
    ensures lang.Some? ==>
              exists i :: 0 <= i < |configs| && Serves(configs[i], guildId, channelId)
                          && configs[i].i18n == lang.value
                          && forall j :: i < j < |configs| ==> !Serves(configs[j], guildId, channelId)
  {
    lang := None;
    ghost var at := 0;
    for i := 0 to |configs|
      invariant lang.None? <==> forall k :: 0 <= k < i ==> !Serves(configs[k], guildId, channelId)
      invariant lang.Some? ==>
                  0 <= at < i && Serves(configs[at], guildId, channelId) && configs[at].i18n == lang.value
                  && forall j :: at < j < i ==> !Serves(configs[j], guildId, channelId)
    {
      if Serves(configs[i], guildId, channelId) {
        lang := Some(configs[i].i18n);
        at := i;
      }
    }
  }
}
