/** Glob matching: a greedy matcher with one backtrack point, and a table over path segments. */
module Glob {
  import opened Wrappers

  // ----- What a pattern means -----

  /** The text that one character of a pattern may stand for. */
  predicate Fits(c: char, part: string) {
    if c == '*' then true else if c == '?' then |part| == 1 else part == [c]
  }

  ghost function Flatten(parts: seq<string>): string {
    if parts == [] then "" else parts[0] + Flatten(parts[1..])
  }

  ghost predicate Assigns(pattern: string, parts: seq<string>) {
    |parts| == |pattern| && forall i :: 0 <= i < |pattern| ==> Fits(pattern[i], parts[i])
  }

  /** Some assignment of text to the characters of the pattern makes up the string. */
  ghost predicate Matches(pattern: string, s: string) {
    exists parts :: Assigns(pattern, parts) && Flatten(parts) == s
  }

  /** The pattern from i on matches the string from j on. */
  ghost predicate MatchesFrom(pattern: string, i: nat, s: string, j: nat)
    decreases |pattern| - i
  {
    if i >= |pattern| then j == |s|
    else if pattern[i] == '*' then
      var next := i + 1;
      exists k: nat :: j <= k <= |s| && MatchesFrom(pattern, next, s, k)
    else j < |s| && Fits(pattern[i], [s[j]]) && MatchesFrom(pattern, i + 1, s, j + 1)
  }

  lemma {:induction false} AssignmentFrom(pattern: string, i: nat, s: string, j: nat) returns (parts: seq<string>)
    requires i <= |pattern| && j <= |s| && MatchesFrom(pattern, i, s, j)
    ensures Assigns(pattern[i..], parts) && Flatten(parts) == s[j..]
    decreases |pattern| - i
  {
    if i == |pattern| {
      parts := [];
    } else {
      var k: nat;
      if pattern[i] == '*' {
        var next := i + 1;
        k :| j <= k <= |s| && MatchesFrom(pattern, next, s, k);
      } else {
        k := j + 1;
      }
      var rest := AssignmentFrom(pattern, i + 1, s, k);
      parts := [s[j..k]] + rest;
      assert parts[1..] == rest && s[j..] == s[j..k] + s[k..];
    }
  }

  lemma {:induction false} FromAssignment(pattern: string, i: nat, s: string, j: nat, parts: seq<string>)
    requires i <= |pattern| && j <= |s| && Assigns(pattern[i..], parts) && Flatten(parts) == s[j..]
    ensures MatchesFrom(pattern, i, s, j)
    decreases |pattern| - i
  {
    if i < |pattern| {
      var k := j + |parts[0]|;
      assert Flatten(parts) == parts[0] + Flatten(parts[1..]);
      assert s[j..k] == parts[0] && s[k..] == Flatten(parts[1..]);
      assert Fits(pattern[i..][0], parts[0]);
      FromAssignment(pattern, i + 1, s, k, parts[1..]);
    }
  }

  lemma MatchesIsFromStart(pattern: string, s: string)
    ensures Matches(pattern, s) <==> MatchesFrom(pattern, 0, s, 0)
  {
    assert pattern[0..] == pattern && s[0..] == s;
    if MatchesFrom(pattern, 0, s, 0) {
      var parts := AssignmentFrom(pattern, 0, s, 0);
    }
    if parts :| Assigns(pattern, parts) && Flatten(parts) == s {
      FromAssignment(pattern, 0, s, 0, parts);
    }
  }

  predicate SpansAny(segment: string) {
    segment == "**"
  }

  // ----- The greedy matcher -----

  /** A star already passed, and where the text after it is being tried. */
  datatype Retry = Retry(star: nat, saved: nat)

  ghost predicate InRange(pattern: string, s: string, pi: nat, si: nat, retry: Option<Retry>) {
    pi <= |pattern| && si <= |s| && (retry.Some? ==> retry.value.star < pi && retry.value.saved <= si)
  }

  predicate AllStars(pattern: string) {
    forall c :: c in pattern ==> c == '*'
  }

  /** What the matcher answers from a given point: a star is tried only when the characters differ. */
  function Greedy(pattern: string, s: string, pi: nat, si: nat, retry: Option<Retry>): bool
    requires InRange(pattern, s, pi, si, retry)
    decreases if retry.Some? then |pattern| - retry.value.star else |pattern| + 1,
              if retry.Some? then |s| - retry.value.saved else 0, |s| - si
  {
    if si == |s| then AllStars(pattern[pi..])
    else if pi < |pattern| && (pattern[pi] == s[si] || pattern[pi] == '?')
      then Greedy(pattern, s, pi + 1, si + 1, retry)
    else if pi < |pattern| && pattern[pi] == '*' then Greedy(pattern, s, pi + 1, si, Some(Retry(pi, si)))
    else if retry.Some? then
      var next := Retry(retry.value.star, retry.value.saved + 1);
      Greedy(pattern, s, next.star + 1, next.saved, Some(next))
    else false
  }

  predicate Accepts(pattern: string, s: string) {
    Greedy(pattern, s, 0, 0, None)
  }

  method WildcardMatch(pattern: string, s: string) returns (matched: bool)
    ensures matched == Accepts(pattern, s)
  {
    var pi, si: nat := 0, 0;
    var star: int := -1;
    var saved: nat := 0;
    while si < |s|
      invariant -1 <= star < |pattern|
      invariant InRange(pattern, s, pi, si, RetryOf(star, saved))
      invariant Greedy(pattern, s, pi, si, RetryOf(star, saved)) == Accepts(pattern, s)
      decreases |pattern| - star, if star >= 0 then |s| - saved else 0, |s| - si
    {
      if pi < |pattern| && (pattern[pi] == s[si] || pattern[pi] == '?') {
        pi, si := pi + 1, si + 1;
      } else if pi < |pattern| && pattern[pi] == '*' {
        star, saved, pi := pi, si, pi + 1;
      } else if star != -1 {
        pi, si := star + 1, saved + 1;
        saved := si;
      } else {
        return false;
      }
    }
    ghost var left := pi;
    while pi < |pattern| && pattern[pi] == '*'
      invariant left <= pi <= |pattern|
      invariant AllStars(pattern[left..pi])
    {
      assert pattern[left..pi + 1] == pattern[left..pi] + [pattern[pi]];
      pi := pi + 1;
    }
    assert pattern[left..] == pattern[left..pi] + pattern[pi..];
    assert pi < |pattern| ==> pattern[pi] in pattern[left..];
    matched := pi == |pattern|;
  }

  function RetryOf(star: int, saved: nat): Option<Retry> {
    if star < 0 then None else Some(Retry(star, saved))
  }

  lemma AllStarsFirst(pattern: string)
    requires pattern != ""
    ensures AllStars(pattern) <==> pattern[0] == '*' && AllStars(pattern[1..])
  {
    assert pattern == [pattern[0]] + pattern[1..] && pattern[0] in pattern;
    assert AllStars(pattern) ==> forall c :: c in pattern[1..] ==> c in pattern;
  }

  lemma {:induction false} StarsMatchNothing(pattern: string, i: nat, s: string)
    requires i <= |pattern|
    ensures MatchesFrom(pattern, i, s, |s|) <==> AllStars(pattern[i..])
    decreases |pattern| - i
  {
    if i < |pattern| {
      assert pattern[i..][1..] == pattern[i + 1..];
      StarsMatchNothing(pattern, i + 1, s);
      AllStarsFirst(pattern[i..]);
      var next := i + 1;
      assert pattern[i] == '*' ==> (MatchesFrom(pattern, i, s, |s|) <==> MatchesFrom(pattern, next, s, |s|));
    }
  }

  ghost predicate MatchesLater(pattern: string, i: nat, s: string, j: nat) {
    exists k: nat :: j <= k <= |s| && MatchesFrom(pattern, i, s, k)
  }

  lemma StarMatchesLater(pattern: string, i: nat, s: string, j: nat)
    requires i < |pattern| && pattern[i] == '*'
    ensures MatchesFrom(pattern, i, s, j) <==> MatchesLater(pattern, i + 1, s, j)
  {
    var next := i + 1;
    assert MatchesLater(pattern, next, s, j) <==> exists k: nat :: j <= k <= |s| && MatchesFrom(pattern, next, s, k);
  }

  lemma NowIsLater(pattern: string, i: nat, s: string, j: nat, k: nat)
    requires j <= k <= |s| && MatchesFrom(pattern, i, s, k)
    ensures MatchesLater(pattern, i, s, j)
  {
  }

  /** Whatever the matcher accepts does match, even if the string itself has stars in it. */
  lemma {:induction false} GreedyIsSound(pattern: string, s: string, pi: nat, si: nat, retry: Option<Retry>)
    requires InRange(pattern, s, pi, si, retry) && Greedy(pattern, s, pi, si, retry)
    ensures MatchesFrom(pattern, pi, s, si)
      || (retry.Some? && MatchesLater(pattern, retry.value.star + 1, s, retry.value.saved))
    decreases if retry.Some? then |pattern| - retry.value.star else |pattern| + 1,
              if retry.Some? then |s| - retry.value.saved else 0, |s| - si
  {
    if si == |s| {
      StarsMatchNothing(pattern, pi, s);
    } else if pi < |pattern| && (pattern[pi] == s[si] || pattern[pi] == '?') {
      GreedyIsSound(pattern, s, pi + 1, si + 1, retry);
      if MatchesFrom(pattern, pi + 1, s, si + 1) && pattern[pi] == '*' {
        NowIsLater(pattern, pi + 1, s, si, si + 1);
        StarMatchesLater(pattern, pi, s, si);
      }
    } else if pi < |pattern| && pattern[pi] == '*' {
      GreedyIsSound(pattern, s, pi + 1, si, Some(Retry(pi, si)));
      if MatchesFrom(pattern, pi + 1, s, si) {
        NowIsLater(pattern, pi + 1, s, si, si);
      }
      StarMatchesLater(pattern, pi, s, si);
    } else if retry.Some? {
      var next := Retry(retry.value.star, retry.value.saved + 1);
      GreedyIsSound(pattern, s, next.star + 1, next.saved, Some(next));
      if MatchesFrom(pattern, next.star + 1, s, next.saved) {
        NowIsLater(pattern, next.star + 1, s, retry.value.saved, next.saved);
      } else {
        var k: nat :| next.saved <= k <= |s| && MatchesFrom(pattern, next.star + 1, s, k);
        NowIsLater(pattern, next.star + 1, s, retry.value.saved, k);
      }
    }
  }

  /** A stretch of pattern without stars matches exactly as many characters as it has. */
  lemma {:induction false} FixedStretch(pattern: string, i: nat, s: string, j: nat, length: nat)
    requires i + length <= |pattern| && MatchesFrom(pattern, i, s, j)
    requires forall k :: i <= k < i + length ==> pattern[k] != '*'
    ensures MatchesFrom(pattern, i + length, s, j + length)
    decreases length
  {
    if length > 0 {
      FixedStretch(pattern, i + 1, s, j + 1, length - 1);
    }
  }

  lemma {:induction false} MatchEndsInString(pattern: string, i: nat, s: string, j: nat)
    requires MatchesFrom(pattern, i, s, j)
    ensures j <= |s|
  {
  }

  /** What the matcher knows on its way: the whole matches if the rest does here, or the text after the star later. */
  ghost predicate OnTheWay(pattern: string, s: string, pi: nat, si: nat, retry: Option<Retry>)
    requires InRange(pattern, s, pi, si, retry)
  {
    match retry
    case None => MatchesFrom(pattern, 0, s, 0) <==> MatchesFrom(pattern, pi, s, si)
    case Some(Retry(star, saved)) =>
      && (MatchesFrom(pattern, 0, s, 0) <==> MatchesLater(pattern, star + 1, s, saved))
      && pi - (star + 1) == si - saved && (forall k :: star < k < pi ==> pattern[k] != '*')
      && (MatchesFrom(pattern, star + 1, s, saved) <==> MatchesFrom(pattern, pi, s, si))
  }

  /** If the string has no star in it, the matcher decides exactly whether it matches. */
  lemma {:induction false} GreedyIsExact(pattern: string, s: string, pi: nat, si: nat, retry: Option<Retry>)
    requires InRange(pattern, s, pi, si, retry) && '*' !in s && OnTheWay(pattern, s, pi, si, retry)
    ensures Greedy(pattern, s, pi, si, retry) <==> MatchesFrom(pattern, 0, s, 0)
    decreases if retry.Some? then |pattern| - retry.value.star else |pattern| + 1,
              if retry.Some? then |s| - retry.value.saved else 0, |s| - si
  {
    if si == |s| {
      AtEndOfString(pattern, s, pi, retry);
    } else if pi < |pattern| && (pattern[pi] == s[si] || pattern[pi] == '?') {
      assert s[si] in s;
      GreedyIsExact(pattern, s, pi + 1, si + 1, retry);
    } else if pi < |pattern| && pattern[pi] == '*' {
      NewStar(pattern, s, pi, si, retry);
      GreedyIsExact(pattern, s, pi + 1, si, Some(Retry(pi, si)));
    } else if retry.Some? {
      var next := Retry(retry.value.star, retry.value.saved + 1);
      TryLater(pattern, s, pi, si, retry.value);
      GreedyIsExact(pattern, s, next.star + 1, next.saved, Some(next));
    }
  }

  lemma AtEndOfString(pattern: string, s: string, pi: nat, retry: Option<Retry>)
    requires InRange(pattern, s, pi, |s|, retry) && OnTheWay(pattern, s, pi, |s|, retry)
    ensures MatchesFrom(pattern, 0, s, 0) <==> AllStars(pattern[pi..])
  {
    StarsMatchNothing(pattern, pi, s);
    if retry.Some? && MatchesLater(pattern, retry.value.star + 1, s, retry.value.saved) {
      var star, saved := retry.value.star, retry.value.saved;
      var k: nat :| saved <= k <= |s| && MatchesFrom(pattern, star + 1, s, k);
      FixedStretch(pattern, star + 1, s, k, pi - (star + 1));
      MatchEndsInString(pattern, pi, s, k + pi - (star + 1));
      assert k == saved;
    }
  }

  lemma NewStar(pattern: string, s: string, pi: nat, si: nat, retry: Option<Retry>)
    requires InRange(pattern, s, pi, si, retry) && OnTheWay(pattern, s, pi, si, retry)
    requires pi < |pattern| && pattern[pi] == '*'
    ensures OnTheWay(pattern, s, pi + 1, si, Some(Retry(pi, si)))
  {
    StarMatchesLater(pattern, pi, s, si);
    if retry.Some? && MatchesLater(pattern, retry.value.star + 1, s, retry.value.saved) {
      var star, saved := retry.value.star, retry.value.saved;
      var k: nat :| saved <= k <= |s| && MatchesFrom(pattern, star + 1, s, k);
      var length := pi - (star + 1);
      FixedStretch(pattern, star + 1, s, k, length);
      StarMatchesLater(pattern, pi, s, k + length);
      var later: nat :| k + length <= later <= |s| && MatchesFrom(pattern, pi + 1, s, later);
      NowIsLater(pattern, pi + 1, s, si, later);
    }
    if retry.Some? && MatchesFrom(pattern, pi, s, si) {
      NowIsLater(pattern, retry.value.star + 1, s, retry.value.saved, retry.value.saved);
    }
  }

  lemma TryLater(pattern: string, s: string, pi: nat, si: nat, retry: Retry)
    requires InRange(pattern, s, pi, si, Some(retry)) && OnTheWay(pattern, s, pi, si, Some(retry))
    requires si < |s| && !MatchesFrom(pattern, pi, s, si)
    ensures OnTheWay(pattern, s, retry.star + 1, retry.saved + 1, Some(Retry(retry.star, retry.saved + 1)))
  {
    var star, saved := retry.star, retry.saved;
    if MatchesLater(pattern, star + 1, s, saved) {
      var k: nat :| saved <= k <= |s| && MatchesFrom(pattern, star + 1, s, k);
      assert k >= saved + 1;
    }
  }

  /** The matcher is right about every pattern exactly for the strings without a star. */
  lemma ExactIffNoStar(s: string)
    ensures (forall pattern :: Accepts(pattern, s) <==> Matches(pattern, s)) <==> '*' !in s
  {
    if '*' !in s {
      forall pattern ensures Accepts(pattern, s) <==> Matches(pattern, s) {
        GreedyIsExact(pattern, s, 0, 0, None);
        MatchesIsFromStart(pattern, s);
      }
    } else {
      var pattern := StarMisleads(s);
    }
  }

  function Questions(n: nat): string {
    seq(n, _ => '?')
  }

  /** Taking the star of the string for a character leaves one question mark too many. */
  lemma StarMisleads(s: string) returns (pattern: string)
    requires '*' in s
    ensures Matches(pattern, s) && !Accepts(pattern, s) && pattern != "*" && !SpansAny(pattern)
  {
    var at :| 0 <= at < |s| && s[at] == '*';
    pattern := s[..at] + "*" + Questions(|s| - at);
    QuestionsMatch(pattern, at + 1, s, at);
    var next := at + 1;
    assert MatchesFrom(pattern, next, s, at);
    assert MatchesFrom(pattern, at, s, at);
    SameStartMatches(pattern, 0, s, at);
    MatchesIsFromStart(pattern, s);
    GreedyWalks(pattern, s, 0);
    assert pattern[|s|] == '?';
  }

  lemma {:induction false} QuestionsMatch(pattern: string, i: nat, s: string, j: nat)
    requires i <= |pattern| && j <= |s| && |pattern| - i == |s| - j
    requires forall k :: i <= k < |pattern| ==> pattern[k] == '?'
    ensures MatchesFrom(pattern, i, s, j)
    decreases |pattern| - i
  {
    if i < |pattern| {
      QuestionsMatch(pattern, i + 1, s, j + 1);
    }
  }

  lemma {:induction false} SameStartMatches(pattern: string, i: nat, s: string, at: nat)
    requires i <= at <= |s| && at <= |pattern| && pattern[..at] == s[..at] && MatchesFrom(pattern, at, s, at)
    ensures MatchesFrom(pattern, i, s, i)
    decreases at - i
  {
    if i < at {
      SameStartMatches(pattern, i + 1, s, at);
      assert pattern[i] == pattern[..at][i] == s[..at][i] == s[i];
      var next := i + 1;
      assert MatchesFrom(pattern, next, s, i + 1);
    }
  }

  lemma {:induction false} GreedyWalks(pattern: string, s: string, i: nat)
    requires i <= |s| && |pattern| == |s| + 1 && pattern[|s|] == '?'
    requires forall k :: 0 <= k < |s| ==> pattern[k] == s[k] || pattern[k] == '?'
    ensures !Greedy(pattern, s, i, i, None)
    decreases |s| - i
  {
    if i < |s| {
      GreedyWalks(pattern, s, i + 1);
    } else {
      assert pattern[i] in pattern[i..];
    }
  }

  // ----- Paths -----

  function SegmentAccepts(pattern: string, segment: string): bool {
    pattern == "*" || Accepts(pattern, segment)
  }

  method MatchSeg(pattern: string, segment: string) returns (matched: bool)
    ensures matched == SegmentAccepts(pattern, segment)
  {
    if pattern == "*" {
      return true;
    }
    matched := WildcardMatch(pattern, segment);
  }

  lemma SegmentIsExact(pattern: string, segment: string)
    ensures SegmentAccepts(pattern, segment) ==> Matches(pattern, segment)
    ensures '*' !in segment ==> (SegmentAccepts(pattern, segment) <==> Matches(pattern, segment))
  {
    MatchesIsFromStart(pattern, segment);
    if pattern == "*" {
      assert Assigns(pattern, [segment]) && Flatten([segment]) == segment by {
        assert [segment][1..] == [] && segment + "" == segment;
      }
    } else if '*' !in segment {
      GreedyIsExact(pattern, segment, 0, 0, None);
    } else if Accepts(pattern, segment) {
      GreedyIsSound(pattern, segment, 0, 0, None);
    }
  }

  /** `**` spans any number of segments; every other segment of the pattern matches one. */
  ghost predicate Spans(pattern: seq<string>, i: nat, path: seq<string>, j: nat, exact: bool)
    decreases |pattern| - i
  {
    if i >= |pattern| then j == |path|
    else if SpansAny(pattern[i]) then
      var next := i + 1;
      exists k: nat :: j <= k <= |path| && Spans(pattern, next, path, k, exact)
    else
      j < |path| && (if exact then Matches(pattern[i], path[j]) else SegmentAccepts(pattern[i], path[j]))
      && Spans(pattern, i + 1, path, j + 1, exact)
  }

  lemma StarStarStep(pattern: seq<string>, i: nat, path: seq<string>, j: nat, exact: bool)
    requires i < |pattern| && SpansAny(pattern[i]) && j <= |path|
    ensures Spans(pattern, i, path, j, exact)
      <==> Spans(pattern, i + 1, path, j, exact) || (j < |path| && Spans(pattern, i, path, j + 1, exact))
  {
    if Spans(pattern, i, path, j, exact) {
      StarStarAbsorbs(pattern, i, path, j, exact);
    }
    var next := i + 1;
    assert Spans(pattern, i + 1, path, j, exact) ==> Spans(pattern, next, path, j, exact);
  }

  lemma StarStarAbsorbs(pattern: seq<string>, i: nat, path: seq<string>, j: nat, exact: bool)
    requires i < |pattern| && SpansAny(pattern[i]) && j <= |path| && Spans(pattern, i, path, j, exact)
    ensures Spans(pattern, i + 1, path, j, exact) || (j < |path| && Spans(pattern, i, path, j + 1, exact))
  {
    var next := i + 1;
    var k: nat :| j <= k <= |path| && Spans(pattern, next, path, k, exact);
    assert k == j || j + 1 <= k;
  }

  ghost function Concat(blocks: seq<seq<string>>): seq<string> {
    if blocks == [] then [] else blocks[0] + Concat(blocks[1..])
  }

  /** The segments of a path that one segment of a pattern may stand for: any, or one that matches. */
  ghost predicate FitsBlock(pattern: string, block: seq<string>, exact: bool) {
    if pattern == "**" then true
    else |block| == 1 && if exact then Matches(pattern, block[0]) else SegmentAccepts(pattern, block[0])
  }

  ghost predicate AssignsBlocks(pattern: seq<string>, blocks: seq<seq<string>>, exact: bool) {
    |blocks| == |pattern| && forall i :: 0 <= i < |pattern| ==> FitsBlock(pattern[i], blocks[i], exact)
  }

  lemma {:induction false} BlocksFrom(pattern: seq<string>, i: nat, path: seq<string>, j: nat, exact: bool)
    returns (blocks: seq<seq<string>>)
    requires i <= |pattern| && j <= |path| && Spans(pattern, i, path, j, exact)
    ensures AssignsBlocks(pattern[i..], blocks, exact) && Concat(blocks) == path[j..]
    decreases |pattern| - i
  {
    hide Matches, SegmentAccepts;
    if i == |pattern| {
      blocks := [];
    } else {
      var k: nat := j + 1;
      if SpansAny(pattern[i]) {
        var next := i + 1;
        k :| j <= k <= |path| && Spans(pattern, next, path, k, exact);
      }
      var rest := BlocksFrom(pattern, i + 1, path, k, exact);
      blocks := [path[j..k]] + rest;
      assert blocks[1..] == rest && path[j..] == path[j..k] + path[k..];
      assert FitsBlock(pattern[i], path[j..k], exact);
    }
  }

  lemma {:induction false} FromBlocks(pattern: seq<string>, i: nat, path: seq<string>, j: nat,
      blocks: seq<seq<string>>, exact: bool)
    requires i <= |pattern| && j <= |path|
    requires AssignsBlocks(pattern[i..], blocks, exact) && Concat(blocks) == path[j..]
    ensures Spans(pattern, i, path, j, exact)
    decreases |pattern| - i
  {
    hide Matches, SegmentAccepts;
    if i < |pattern| {
      var k := j + |blocks[0]|;
      assert FitsBlock(pattern[i..][0], blocks[0], exact);
      assert path[j..] == blocks[0] + Concat(blocks[1..]);
      assert path[j..][|blocks[0]|..] == path[k..];
      forall a | 0 <= a < |pattern[i + 1..]| ensures FitsBlock(pattern[i + 1..][a], blocks[1..][a], exact) {
        assert pattern[i + 1..][a] == pattern[i..][a + 1];
      }
      FromBlocks(pattern, i + 1, path, k, blocks[1..], exact);
      if !SpansAny(pattern[i]) {
        assert path[j] == path[j..][0] == blocks[0][0];
      }
    }
  }

  /** A pattern spans a path if its segments can be assigned to the segments of the path in order. */
  lemma SpansIsAssignment(pattern: seq<string>, path: seq<string>, exact: bool)
    ensures Spans(pattern, 0, path, 0, exact) <==>
      exists blocks :: AssignsBlocks(pattern, blocks, exact) && Concat(blocks) == path
  {
    hide Spans, AssignsBlocks;
    assert pattern[0..] == pattern && path[0..] == path;
    if Spans(pattern, 0, path, 0, exact) {
      var blocks := BlocksFrom(pattern, 0, path, 0, exact);
    }
    if blocks :| AssignsBlocks(pattern, blocks, exact) && Concat(blocks) == path {
      FromBlocks(pattern, 0, path, 0, blocks, exact);
    }
  }

  method MatchSegments(pattern: seq<string>, path: seq<string>) returns (matched: bool)
    ensures matched <==> Spans(pattern, 0, path, 0, false)
  {
    var n, m := |pattern|, |path|;
    var table := new bool[n + 1, m + 1]((_, _) => false);
    table[n, m] := true;
    var i := n;
    while i > 0
      invariant 0 <= i <= n
      invariant forall a, j :: i <= a <= n && 0 <= j <= m ==> (table[a, j] <==> Spans(pattern, a, path, j, false))
    {
      i := i - 1;
      FillRow(pattern, path, i, table);
    }
    matched := table[0, 0];
  }

  method FillRow(pattern: seq<string>, path: seq<string>, i: nat, table: array2<bool>)
    requires i < |pattern| && table.Length0 == |pattern| + 1 && table.Length1 == |path| + 1
    requires forall a, j :: i < a <= |pattern| && 0 <= j <= |path| ==>
      (table[a, j] <==> Spans(pattern, a, path, j, false))
    modifies table
    ensures forall a, j :: i <= a <= |pattern| && 0 <= j <= |path| ==>
      (table[a, j] <==> Spans(pattern, a, path, j, false))
  {
    var j := |path| + 1;
    while j > 0
      invariant 0 <= j <= |path| + 1
      invariant forall a, k :: i < a <= |pattern| && 0 <= k <= |path| ==>
        (table[a, k] <==> Spans(pattern, a, path, k, false))
      invariant forall k :: j <= k <= |path| ==> (table[i, k] <==> Spans(pattern, i, path, k, false))
    {
      j := j - 1;
      if SpansAny(pattern[i]) {
        StarStarStep(pattern, i, path, j, false);
        table[i, j] := table[i + 1, j] || (j < |path| && table[i, j + 1]);
      } else {
        var fits := false;
        if j < |path| {
          fits := MatchSeg(pattern[i], path[j]);
        }
        table[i, j] := fits && table[i + 1, j + 1];
      }
    }
  }

  /** On paths without stars in their names, the table answers what the pattern means. */
  lemma {:induction false} PathIsExact(pattern: seq<string>, i: nat, path: seq<string>, j: nat)
    requires i <= |pattern| && j <= |path|
    requires forall segment :: segment in path ==> '*' !in segment
    ensures Spans(pattern, i, path, j, false) <==> Spans(pattern, i, path, j, true)
    decreases |pattern| - i
  {
    if i < |pattern| {
      if SpansAny(pattern[i]) {
        var next := i + 1;
        forall k: nat | k <= |path| ensures Spans(pattern, next, path, k, false) <==>
            Spans(pattern, next, path, k, true) {
          PathIsExact(pattern, next, path, k);
        }
      } else if j < |path| {
        assert path[j] in path;
        SegmentIsExact(pattern[i], path[j]);
        PathIsExact(pattern, i + 1, path, j + 1);
      }
    }
  }

  /** Whatever path the table accepts, the pattern means it. */
  lemma {:induction false} PathIsSound(pattern: seq<string>, i: nat, path: seq<string>, j: nat)
    requires i <= |pattern| && j <= |path| && Spans(pattern, i, path, j, false)
    ensures Spans(pattern, i, path, j, true)
    decreases |pattern| - i
  {
    if i < |pattern| {
      if SpansAny(pattern[i]) {
        var next := i + 1;
        var k: nat :| j <= k <= |path| && Spans(pattern, next, path, k, false);
        PathIsSound(pattern, next, path, k);
      } else {
        SegmentIsExact(pattern[i], path[j]);
        PathIsSound(pattern, i + 1, path, j + 1);
      }
    }
  }

  /** A pattern of as many segments as the path, none of them `**`, is matched segment by segment. */
  lemma {:induction false} Lockstep(pattern: seq<string>, i: nat, path: seq<string>, exact: bool)
    requires |pattern| == |path| && i <= |path| && forall k :: 0 <= k < |pattern| ==> !SpansAny(pattern[k])
    ensures Spans(pattern, i, path, i, exact) <==>
      forall k :: i <= k < |path| ==> if exact then Matches(pattern[k], path[k])
          else SegmentAccepts(pattern[k], path[k])
    decreases |path| - i
  {
    if i < |path| {
      Lockstep(pattern, i + 1, path, exact);
    }
  }

  /** Single stars match all other segments, so one segment with a star in it misleads the table. */
  lemma StarInPathMisleads(path: seq<string>, m: nat) returns (pattern: seq<string>)
    requires m < |path| && '*' in path[m]
    ensures Spans(pattern, 0, path, 0, true) && !Spans(pattern, 0, path, 0, false)
  {
    hide Matches, Accepts, Spans;
    var wrong := StarMisleads(path[m]);
    pattern := seq(|path|, i => if i == m then wrong else "*");
    Lockstep(pattern, 0, path, false);
    Lockstep(pattern, 0, path, true);
    forall k | 0 <= k < |path| ensures Matches(pattern[k], path[k]) {
      SegmentIsExact("*", path[k]);
    }
    assert pattern[m] == wrong && !SegmentAccepts(pattern[m], path[m]);
  }

  /** The table agrees with the meaning of every pattern exactly for the paths without a star. */
  lemma PathExactIffNoStar(path: seq<string>)
    ensures (forall pattern: seq<string> :: Spans(pattern, 0, path, 0, false) <==> Spans(pattern, 0, path, 0, true))
      <==> forall segment :: segment in path ==> '*' !in segment
  {
    hide Spans;
    if segment :| segment in path && '*' in segment {
      var m: nat :| m < |path| && path[m] == segment;
      var pattern := StarInPathMisleads(path, m);
    } else {
      forall pattern: seq<string> ensures Spans(pattern, 0, path, 0, false) <==> Spans(pattern, 0, path, 0, true) {
        PathIsExact(pattern, 0, path, 0);
      }
    }
  }

  function SplitSegments(s: string): (segments: seq<string>)
    ensures |segments| > 0
  {
    if s == "" then [""]
    else
      var rest := SplitSegments(s[1..]);
      if s[0] == '/' || s[0] == '\\' then [""] + rest else [[s[0]] + rest[0]] + rest[1..]
  }

  /** Matching a trimmed pattern against a path; the empty pattern matches nothing. */
  method MatchGlob(pattern: string, path: string) returns (matched: bool)
    ensures pattern == "" ==> !matched
    ensures matched ==> Spans(SplitSegments(pattern), 0, SplitSegments(path), 0, true)
    ensures pattern != "" && '*' !in path ==>
      (matched <==> Spans(SplitSegments(pattern), 0, SplitSegments(path), 0, true))
  {
    if pattern == "" {
      return false;
    }
    matched := MatchSegments(SplitSegments(pattern), SplitSegments(path));
    if matched {
      PathIsSound(SplitSegments(pattern), 0, SplitSegments(path), 0);
    }
    if '*' !in path {
      SegmentsHaveNoStar(path);
      PathIsExact(SplitSegments(pattern), 0, SplitSegments(path), 0);
    }
  }

  lemma {:induction false} SegmentsHaveNoStar(s: string)
    requires '*' !in s
    ensures forall segment :: segment in SplitSegments(s) ==> '*' !in segment
  {
    if s != "" {
      assert s[0] in s && forall c :: c in s[1..] ==> c in s;
      SegmentsHaveNoStar(s[1..]);
      var rest := SplitSegments(s[1..]);
      assert rest[0] in rest;
    }
  }

  predicate IsSeparator(c: char) {
    c == '/' || c == '\\'
  }

  /** The segments with a slash between each and the next. */
  function Slashed(segments: seq<string>): string {
    if segments == [] then "" else if |segments| == 1 then segments[0] else segments[0] + "/" + Slashed(segments[1..])
  }

  /** The string with every separator written as a slash. */
  function WithSlashes(s: string): string {
    seq(|s|, i requires 0 <= i < |s| => if IsSeparator(s[i]) then '/' else s[i])
  }

  /**
   Segments hold no separator, and put together with slashes they are the string up to the way separators are
   written.
   */
  lemma {:induction false} SegmentsRejoin(s: string)
    ensures Slashed(SplitSegments(s)) == WithSlashes(s)
    ensures forall segment, c :: segment in SplitSegments(s) && c in segment ==> !IsSeparator(c)
  {
    if s != "" {
      var rest := SplitSegments(s[1..]);
      SegmentsRejoin(s[1..]);
      assert WithSlashes(s) == [if IsSeparator(s[0]) then '/' else s[0]] + WithSlashes(s[1..]);
      if IsSeparator(s[0]) {
        assert ([""] + rest)[1..] == rest;
        assert Slashed([""] + rest) == "" + "/" + Slashed(rest);
      } else {
        FirstGrows(s[0], rest);
        assert rest[0] in rest;
      }
    }
  }

  lemma FirstGrows(c: char, segments: seq<string>)
    requires segments != []
    ensures Slashed([[c] + segments[0]] + segments[1..]) == [c] + Slashed(segments)
  {
    var more := [[c] + segments[0]] + segments[1..];
    assert more[1..] == segments[1..] && more[0] == [c] + segments[0];
    if |segments| > 1 {
      assert [c] + segments[0] + "/" + Slashed(segments[1..]) == [c] + (segments[0] + "/" + Slashed(segments[1..]));
    }
  }
}
