/** `tighten` from crosswalking/schools.py: every match of the pattern
    `((?:\b\w\b\s*){2,})(?=\s|$)` is replaced by itself with its U+0020
    spaces deleted, so that "a b c school" becomes "abc school".

    The word-character class `\w` is a parameter `w` (Python's is the Unicode
    alphanumerics and `_`); `\s` is Python's whitespace class, written out.

    The regex is described by its matches rather than by a backtracking
    engine. A match can start only at a single-character word (`\b\w\b`).
    From there the repetition climbs a chain c1 s1 c2 s2 ... ck sk, where each
    ci is a single-character word and each si is the whole whitespace run
    after it (a shorter run cannot continue: the next character would be
    whitespace, not `\w`). With k >= 2 the leftmost-greedy search then
    succeeds
      - at the end of sk when sk reaches the end of the string,
      - one character before the end of sk when sk is not empty (the
        lookahead `\s` sees sk's last character),
      - when sk is empty and a non-whitespace character follows, only by
        giving back the last word: the match ends one character before ck
        (this needs k - 1 >= 2), and otherwise there is no match here.

    The search works on the rest of the text, `t`, together with one bit of
    what came before it: whether the preceding character is a word
    character, which is all that `\b` looks back at. */
module Tighten {
  import opened Sql

  /** Python's `\s` for `str` patterns: the characters `str.isspace()`
      accepts, U+0009 to U+000D, U+001C to U+001F, U+0020, U+0085, U+00A0,
      U+1680, U+2000 to U+200A, U+2028, U+2029, U+202F, U+205F and U+3000. */
  predicate IsSpace(c: char)
  {
    || '\t' <= c <= '\r'
    || '\U{1C}' <= c <= ' '
    || c == '\U{85}' || c == '\U{A0}' || c == '\U{1680}'
    || '\U{2000}' <= c <= '\U{200A}'
    || c == '\U{2028}' || c == '\U{2029}' || c == '\U{202F}' || c == '\U{205F}' || c == '\U{3000}'
  }

  /** A word class that, like Python's `\w`, contains no whitespace. */
  ghost predicate WordClass(w: char -> bool)
  {
    forall c :: IsSpace(c) ==> !w(c)
  }

  /** `\b\w\b` at the start of t, where `before` says whether the character
      just before t is a word character. */
  predicate SingleStart(w: char -> bool, before: bool, t: string)
  {
    && |t| >= 1
    && !before
    && w(t[0])
    && (|t| == 1 || !w(t[1]))
  }

  /** The length of the whitespace run at the start of t. */
  function SpaceLen(t: string): (n: nat)
    ensures n <= |t|
    ensures n == |t| || !IsSpace(t[n])
    decreases |t|
  {
    if |t| > 0 && IsSpace(t[0]) then 1 + SpaceLen(t[1..]) else 0
  }

  /** Where, after the single-character word t[0], the next word of a chain
      starts: right after the whitespace run that follows t[0], if a
      single-character word stands there. */
  function NextSingle(w: char -> bool, t: string): (e: Option<nat>)
    requires |t| >= 1
    ensures e.Some? ==> 2 <= e.value < |t|
  {
    var n := SpaceLen(t[1..]);
    if n > 0 && SingleStart(w, w(t[n]), t[1 + n..]) then Some(1 + n) else None
  }

  /** A chain of single-character words: how many, and where the last is. */
  datatype Run = Run(words: nat, last: nat)

  /** The chain of single-character words, each separated from the next by
      a whitespace run, that starts with t[0]. */
  function Chain(w: char -> bool, t: string): (r: Run)
    requires |t| >= 1
    ensures r.words >= 1 && 2 * (r.words - 1) <= r.last < |t|
    ensures r.words == 1 <==> r.last == 0
    decreases |t|
  {
    match NextSingle(w, t)
    case Some(e) =>
      var c := Chain(w, t[e..]);
      Run(c.words + 1, e + c.last)
    case None => Run(1, 0)
  }

  /** The length of the match that the search tries at the start of t, if any. */
  function MatchLen(w: char -> bool, before: bool, t: string): (m: Option<nat>)
    ensures m.Some? ==> 2 <= m.value <= |t|
  {
    if !SingleStart(w, before, t) then None else MatchEnd(t, Chain(w, t))
  }

  /** Where a match starting at t[0] ends, given the chain c there: a chain
      of two or more words takes the whitespace after its last word when
      that whitespace reaches the end of the text, all of it but its last
      character when something follows, and otherwise, as the regular
      expression backtracks, drops its last word together with the
      whitespace before it. */
  function MatchEnd(t: string, c: Run): (m: Option<nat>)
    requires c.words >= 1 && 2 * (c.words - 1) <= c.last < |t|
    ensures m.Some? ==> 2 <= m.value <= |t|
  {
    var k, q := c.words, c.last;
    var e := q + 1 + SpaceLen(t[q + 1..]);
    if k < 2 then None
    else if e == |t| then Some(|t|)
    else if e > q + 1 then Some(e - 1)
    else if k >= 3 then Some(q - 1)
    else None
  }

  /** The replacement: the matched text with its ' ' characters deleted
      (`m.group(1).replace(" ", "")`). */
  function Squeeze(t: string): (r: string)
    ensures |r| <= |t|
  {
    if t == [] then [] else (if t[0] == ' ' then [] else [t[0]]) + Squeeze(t[1..])
  }

  /** `re.sub` over the rest t of the text: replace each match, and go on
      searching right after it. */
  function Scan(w: char -> bool, before: bool, t: string): string
    decreases |t|
  {
    if t == [] then []
    else match MatchLen(w, before, t)
      case Some(n) => Squeeze(t[..n]) + Scan(w, w(t[n - 1]), t[n..])
      case None => [t[0]] + Scan(w, w(t[0]), t[1..])
  }

  function Tighten(w: char -> bool, s: string): string
  {
    Scan(w, false, s)
  }

  /** One step of the search, given the match length at the start of t. */
  lemma ScanStep(w: char -> bool, before: bool, t: string, m: Option<nat>)
    requires |t| >= 1 && MatchLen(w, before, t) == m
    ensures m.Some? ==> Scan(w, before, t) == Squeeze(t[..m.value]) + Scan(w, w(t[m.value - 1]), t[m.value..])
    ensures m.None? ==> Scan(w, before, t) == [t[0]] + Scan(w, w(t[0]), t[1..])
  {
  }

  /** One step of the search where a match of length n starts at t[0]. */
  lemma ScanMatched(w: char -> bool, before: bool, t: string, n: nat)
    requires |t| >= 1 && MatchLen(w, before, t) == Some(n)
    ensures Scan(w, before, t) == Squeeze(t[..n]) + Scan(w, w(t[n - 1]), t[n..])
  {
  }

  // ---------------------------------------------------------------------
  // tighten only deletes ' ' characters

  /** r is s with some (possibly none) of its ' ' characters deleted. */
  predicate DropsOnlySpaces(s: string, r: string)
    decreases |s|
  {
    if s == [] then r == []
    else
      || (|r| > 0 && r[0] == s[0] && DropsOnlySpaces(s[1..], r[1..]))
      || (s[0] == ' ' && DropsOnlySpaces(s[1..], r))
  }

  lemma {:induction false} DropsOnlySpacesFacts(s: string, r: string)
    requires DropsOnlySpaces(s, r)
    ensures |r| <= |s|
    ensures Squeeze(r) == Squeeze(s)
    decreases |s|
  {
    if s != [] {
      if |r| > 0 && r[0] == s[0] && DropsOnlySpaces(s[1..], r[1..]) {
        DropsOnlySpacesFacts(s[1..], r[1..]);
      } else {
        DropsOnlySpacesFacts(s[1..], r);
      }
    }
  }

  lemma {:induction false} DropsSelf(s: string)
    ensures DropsOnlySpaces(s, s)
    decreases |s|
  {
    if s != [] {
      DropsSelf(s[1..]);
    }
  }

  lemma {:induction false} DropsConcat(a: string, ra: string, b: string, rb: string)
    requires DropsOnlySpaces(a, ra) && DropsOnlySpaces(b, rb)
    ensures DropsOnlySpaces(a + b, ra + rb)
    decreases |a|
  {
    if a == [] {
      assert a + b == b;
      assert ra + rb == rb;
    } else {
      assert (a + b)[1..] == a[1..] + b;
      if |ra| > 0 && ra[0] == a[0] && DropsOnlySpaces(a[1..], ra[1..]) {
        DropsConcat(a[1..], ra[1..], b, rb);
        assert (ra + rb)[1..] == ra[1..] + rb;
      } else {
        DropsConcat(a[1..], ra, b, rb);
      }
    }
  }

  lemma {:induction false} SqueezeDrops(t: string)
    ensures DropsOnlySpaces(t, Squeeze(t))
    decreases |t|
  {
    if t != [] {
      SqueezeDrops(t[1..]);
      if t[0] != ' ' {
        assert Squeeze(t)[1..] == Squeeze(t[1..]);
      } else {
        assert Squeeze(t) == Squeeze(t[1..]);
      }
    }
  }

  /** Dropping spaces from a prefix and from the rest drops spaces from
      the whole. */
  lemma DropsStep(t: string, n: nat, r: string, rb: string)
    requires 1 <= n <= |t|
    requires DropsOnlySpaces(t[n..], rb)
    requires r == Squeeze(t[..n]) + rb || (n == 1 && r == [t[0]] + rb)
    ensures DropsOnlySpaces(t, r)
  {
    if r == Squeeze(t[..n]) + rb {
      SqueezeDrops(t[..n]);
      DropsConcat(t[..n], Squeeze(t[..n]), t[n..], rb);
    } else {
      DropsSelf([t[0]]);
      DropsConcat([t[0]], [t[0]], t[n..], rb);
      assert [t[0]] == t[..n];
    }
    assert t[..n] + t[n..] == t;
  }

  lemma {:induction false} ScanDrops(w: char -> bool, before: bool, t: string)
    ensures DropsOnlySpaces(t, Scan(w, before, t))
    decreases |t|
  {
    if t != [] {
      var m := MatchLen(w, before, t);
      ScanStep(w, before, t, m);
      var n := if m.Some? then m.value else 1;
      var b := if m.Some? then w(t[n - 1]) else w(t[0]);
      ScanDrops(w, b, t[n..]);
      DropsStep(t, n, Scan(w, before, t), Scan(w, b, t[n..]));
    }
  }

  /** tighten deletes ' ' characters and nothing else: every other character
      of the input survives, in order, so the output is never longer. */
  lemma TightenDeletesOnlySpaces(w: char -> bool, s: string)
    ensures DropsOnlySpaces(s, Tighten(w, s))
    ensures |Tighten(w, s)| <= |s|
    ensures Squeeze(Tighten(w, s)) == Squeeze(s)
  {
    ScanDrops(w, false, s);
    DropsOnlySpacesFacts(s, Tighten(w, s));
  }

  // ---------------------------------------------------------------------
  // text without two adjacent single-character words is left alone

  /** `\b\w\b` at position i of s. */
  predicate SingleAt(w: char -> bool, s: string, i: nat)
  {
    && i < |s|
    && w(s[i])
    && (i == 0 || !w(s[i - 1]))
    && (i + 1 == |s| || !w(s[i + 1]))
  }

  /** Whether the character before position i of s is a word character. */
  function Before(w: char -> bool, s: string, i: nat): bool
    requires i <= |s|
  {
    i > 0 && w(s[i - 1])
  }

  lemma SingleStartAt(w: char -> bool, s: string, i: nat)
    requires i <= |s|
    ensures SingleStart(w, Before(w, s, i), s[i..]) == SingleAt(w, s, i)
  {
    if i < |s| {
      assert s[i..][0] == s[i];
      if i + 1 < |s| { assert s[i..][1] == s[i + 1]; }
    }
  }

  predicate AllSpace(t: string)
  {
    forall k :: 0 <= k < |t| ==> IsSpace(t[k])
  }

  lemma {:induction false} SpaceLenAllSpace(t: string)
    ensures AllSpace(t[..SpaceLen(t)])
    decreases |t|
  {
    if |t| > 0 && IsSpace(t[0]) {
      SpaceLenAllSpace(t[1..]);
      assert t[..SpaceLen(t)] == [t[0]] + t[1..][..SpaceLen(t[1..])];
    }
  }

  /** No single-character word is followed, across nothing but whitespace,
      by another single-character word. */
  ghost predicate NoAdjacentSingles(w: char -> bool, s: string)
  {
    forall i: nat, j: nat :: i + 1 < j < |s| && SingleAt(w, s, i) && SingleAt(w, s, j) ==>
      !AllSpace(s[i + 1..j])
  }

  /** Under `NoAdjacentSingles` every chain has one word, so no match starts at i. */
  lemma NoMatchWithoutRuns(w: char -> bool, s: string, i: nat)
    requires i < |s| && NoAdjacentSingles(w, s)
    ensures MatchLen(w, Before(w, s, i), s[i..]) == None
  {
    var t := s[i..];
    SingleStartAt(w, s, i);
    if SingleStart(w, Before(w, s, i), t) {
      match NextSingle(w, t)
      case None =>
      case Some(e) =>
        var n := SpaceLen(t[1..]);
        assert e == 1 + n;
        assert AllSpace(s[i + 1..i + e]) by {
          SpaceLenAllSpace(t[1..]);
          assert t[1..][..n] == s[i + 1..i + e];
        }
        assert SingleAt(w, s, i + e) by {
          assert t[e..] == s[i + e..];
          assert t[n] == s[i + e - 1];
          SingleStartAt(w, s, i + e);
        }
        assert false;
    }
  }

  lemma {:induction false} ScanKeeps(w: char -> bool, s: string, i: nat)
    requires i <= |s| && NoAdjacentSingles(w, s)
    ensures Scan(w, Before(w, s, i), s[i..]) == s[i..]
    decreases |s| - i
  {
    if i < |s| {
      var t := s[i..];
      NoMatchWithoutRuns(w, s, i);
      ScanStep(w, Before(w, s, i), t, None);
      ScanKeeps(w, s, i + 1);
      assert t[1..] == s[i + 1..];
      assert t == [t[0]] + t[1..];
    }
  }

  /** Words of two or more characters, and single-character words that
      stand alone, are left unchanged. */
  lemma TightenKeepsWithoutRuns(w: char -> bool, s: string)
    requires NoAdjacentSingles(w, s)
    ensures Tighten(w, s) == s
  {
    ScanKeeps(w, s, 0);
    assert s[0..] == s;
  }

  // ---------------------------------------------------------------------
  // a run of single-character words is merged

  /** The characters of cs separated by single spaces. */
  function Spaced(cs: string): (r: string)
    requires |cs| >= 1
    ensures |r| == 2 * |cs| - 1
    decreases |cs|
  {
    if |cs| == 1 then cs else [cs[0], ' '] + Spaced(cs[1..])
  }

  lemma {:induction false} SqueezeSpaced(cs: string)
    requires |cs| >= 1
    requires forall k :: 0 <= k < |cs| ==> cs[k] != ' '
    ensures Squeeze(Spaced(cs)) == cs
    decreases |cs|
  {
    if |cs| == 1 {
      assert Squeeze(cs) == [cs[0]] + Squeeze(cs[1..]);
    } else {
      SqueezeSpaced(cs[1..]);
      var t := Spaced(cs);
      assert t[1..] == [' '] + Spaced(cs[1..]);
      assert t[1..][1..] == Spaced(cs[1..]);
    }
  }

  /** What may follow a run of single-character words for it to be merged
      whole: the end of the text, or one whitespace character and then a
      non-whitespace character that does not start another single-character
      word. */
  predicate RunEnds(w: char -> bool, rest: string)
  {
    || rest == []
    || (|rest| >= 2 && IsSpace(rest[0]) && !IsSpace(rest[1]) && !SingleAt(w, rest, 1))
  }

  /** A whitespace run of exactly one character after t[0]. */
  lemma OneSpaceAfter(t: string)
    requires |t| >= 3 && IsSpace(t[1]) && !IsSpace(t[2])
    ensures SpaceLen(t[1..]) == 1
    ensures t[1 + 1..] == t[2..]
  {
    assert t[1..][1..] == t[2..];
    assert t[2..][0] == t[2];
  }

  /** No whitespace run after t[0]. */
  lemma NoSpaceAfter(t: string)
    requires |t| >= 1 && (|t| == 1 || !IsSpace(t[1]))
    ensures SpaceLen(t[1..]) == 0
  {
    if |t| > 1 {
      assert t[1..][0] == t[1];
    }
  }

  /** The shape of a spaced run with a tail: its first word, one space, and
      the spaced run of the remaining words. */
  lemma SpacedSplit(cs: string, rest: string)
    requires |cs| >= 2
    ensures var s := Spaced(cs) + rest;
      && |s| >= 3 && s[0] == cs[0] && s[1] == ' ' && s[2] == cs[1]
      && s[2..] == Spaced(cs[1..]) + rest
  {
    var s := Spaced(cs) + rest;
    var t := Spaced(cs[1..]) + rest;
    assert s == [cs[0], ' '] + t;
    if |cs| == 2 {
      assert Spaced(cs[1..]) == [cs[1]];
    } else {
      assert Spaced(cs[1..])[0] == cs[1..][0];
    }
  }

  /** The tail of a spaced run with a tail, and its last word. */
  lemma SpacedParts(cs: string, rest: string)
    requires |cs| >= 1
    ensures var s := Spaced(cs) + rest;
      && s[..|Spaced(cs)|] == Spaced(cs) && s[|Spaced(cs)|..] == rest
      && s[|Spaced(cs)| - 1] == cs[|cs| - 1]
    decreases |cs|
  {
    if |cs| > 1 {
      SpacedParts(cs[1..], rest);
      assert Spaced(cs) == [cs[0], ' '] + Spaced(cs[1..]);
    }
  }

  /** After a run, `RunEnds` leaves room for no further chain word. */
  lemma RunEndsSpace(w: char -> bool, rest: string)
    requires WordClass(w) && RunEnds(w, rest)
    ensures SpaceLen(rest) == if rest == [] then 0 else 1
    ensures rest != [] ==> !w(rest[0]) && !SingleStart(w, w(rest[0]), rest[1..])
  {
    if rest != [] {
      assert SpaceLen(rest[1..]) == 0 by { NoSpaceAfter(rest); }
      SingleStartAt(w, rest, 1);
    }
  }

  /** A single word followed as `RunEnds` says is a chain of one. */
  lemma ChainOfLast(w: char -> bool, c: char, rest: string)
    requires WordClass(w) && w(c) && RunEnds(w, rest)
    ensures SingleStart(w, false, [c] + rest)
    ensures Chain(w, [c] + rest) == Run(1, 0)
  {
    var s := [c] + rest;
    RunEndsSpace(w, rest);
    assert s[1..] == rest;
    if rest != [] {
      assert s[1 + 1..] == rest[1..];
    }
    assert NextSingle(w, s) == None;
  }

  /** The chain that starts at the first word of a spaced run covers every
      word of the run and stops at its last word. */
  lemma {:induction false} ChainOfRun(w: char -> bool, cs: string, rest: string)
    requires WordClass(w)
    requires |cs| >= 1 && forall k :: 0 <= k < |cs| ==> w(cs[k])
    requires RunEnds(w, rest)
    ensures IsRun(w, Spaced(cs) + rest, |cs|)
    decreases |cs|
  {
    if |cs| == 1 {
      assert Spaced(cs) + rest == [cs[0]] + rest;
      ChainOfLast(w, cs[0], rest);
    } else {
      var s := Spaced(cs) + rest;
      var t := Spaced(cs[1..]) + rest;
      SpacedSplit(cs, rest);
      assert IsSpace(' ') && !IsSpace(cs[1]);
      OneSpaceAfter(s);
      assert forall k :: 0 <= k < |cs[1..]| ==> w(cs[1..][k]);
      ChainOfRun(w, cs[1..], rest);
      assert NextSingle(w, s) == Some(2);
    }
  }

  /** t starts with a chain of k single-character words, each followed by
      one whitespace character but the last. */
  predicate IsRun(w: char -> bool, t: string, k: nat)
  {
    && k >= 1
    && SingleStart(w, false, t)
    && Chain(w, t) == Run(k, 2 * (k - 1))
  }

  /** A spaced run of single-character words followed as `RunEnds` says is a
      chain of as many words, and its last word ends the text or is followed
      by one whitespace character and then more text. */
  lemma RunFacts(w: char -> bool, cs: string, rest: string)
    requires WordClass(w)
    requires |cs| >= 1 && forall k :: 0 <= k < |cs| ==> w(cs[k])
    requires RunEnds(w, rest)
    ensures IsRun(w, Spaced(cs) + rest, |cs|) && LastWordEnds(Spaced(cs) + rest, 2 * (|cs| - 1))
  {
    ChainOfRun(w, cs, rest);
    RunTail(w, cs, rest);
  }

  /** A chain of two or more words whose last word ends the text, or is
      followed by exactly one whitespace character and then more text,
      is matched up to and including its last word. */
  lemma MatchOfChain(w: char -> bool, t: string, k: nat)
    requires k >= 2 && IsRun(w, t, k) && LastWordEnds(t, 2 * (k - 1))
    ensures MatchLen(w, false, t) == Some(2 * k - 1)
  {
    MatchEndOfRun(t, k);
  }

  /** The word at t[q] ends the text, or is followed by exactly one
      whitespace character and then more text. */
  predicate LastWordEnds(t: string, q: nat)
  {
    q + 1 == |t| || (q + 2 < |t| && SpaceLen(t[q + 1..]) == 1)
  }

  /** What follows the last word of a spaced run: the end of the text, or
      exactly one whitespace character and then more text. */
  lemma RunTail(w: char -> bool, cs: string, rest: string)
    requires WordClass(w) && |cs| >= 1 && RunEnds(w, rest)
    ensures LastWordEnds(Spaced(cs) + rest, 2 * (|cs| - 1))
  {
    var s := Spaced(cs) + rest;
    assert s[|Spaced(cs)|..] == rest by {
      SpacedParts(cs, rest);
    }
    RunEndsSpace(w, rest);
  }

  /** The same, stated on the chain's length and the position of its last word. */
  lemma MatchEndOfRun(t: string, k: nat)
    requires k >= 2 && 2 * k - 1 <= |t|
    requires LastWordEnds(t, 2 * (k - 1))
    ensures MatchEnd(t, Run(k, 2 * (k - 1))) == Some(2 * k - 1)
  {
  }

  /** After a character that is not a word character, what came before it
      no longer matters to the search. */
  lemma BeforeIrrelevant(w: char -> bool, t: string)
    requires t == [] || !w(t[0])
    ensures Scan(w, true, t) == Scan(w, false, t)
  {
    if t != [] {
      ScanStep(w, true, t, None);
      ScanStep(w, false, t, None);
    }
  }

  /** A maximal run of two or more single-character words separated by
      single spaces, at the start of the text and followed as `RunEnds`
      says, becomes one token; the rest is tightened on its own. */
  lemma MergesRunAtStart(w: char -> bool, cs: string, rest: string)
    requires WordClass(w)
    requires |cs| >= 2 && forall k :: 0 <= k < |cs| ==> w(cs[k])
    requires RunEnds(w, rest)
    ensures Scan(w, false, Spaced(cs) + rest) == cs + Tighten(w, rest)
  {
    RunFacts(w, cs, rest);
    SpacedParts(cs, rest);
    assert Squeeze(Spaced(cs)) == cs by {
      forall k | 0 <= k < |cs| ensures cs[k] != ' ' {
        assert IsSpace(' ');
      }
      SqueezeSpaced(cs);
    }
    assert rest != [] ==> !w(rest[0]) by { RunEndsSpace(w, rest); }
    MergeAt(w, Spaced(cs) + rest, |cs|, |Spaced(cs)|, cs, rest);
  }

  /** A chain of k >= 2 words at the start of t that the search matches
      whole is replaced by its squeezed text u, and the search goes on in
      the rest as if from the start of a text. */
  lemma MergeAt(w: char -> bool, t: string, k: nat, n: nat, u: string, rest: string)
    requires k >= 2 && n == 2 * k - 1 && IsRun(w, t, k) && LastWordEnds(t, 2 * (k - 1))
    requires n <= |t| && Squeeze(t[..n]) == u && t[n..] == rest && w(t[n - 1])
    requires rest == [] || !w(rest[0])
    ensures Scan(w, false, t) == u + Tighten(w, rest)
  {
    MatchOfChain(w, t, k);
    BeforeIrrelevant(w, rest);
    ScanMatched(w, false, t, n);
  }

  /** `SingleAt` looks one character to either side, so it survives cutting
      the text after the next character. */
  lemma SingleAtPrefix(w: char -> bool, s: string, m: nat, j: nat)
    requires j < m <= |s| && SingleAt(w, s, j)
    ensures SingleAt(w, s[..m], j)
  {
  }

  /** The first step of a chain that starts before the non-whitespace
      character s[k] ends no later than k, after nothing but whitespace. */
  lemma ChainStepBefore(w: char -> bool, s: string, k: nat, i: nat, e: nat)
    requires i < k < |s| && !IsSpace(s[k])
    requires |s[i..]| >= 1 && NextSingle(w, s[i..]) == Some(e)
    ensures i + 1 < i + e <= k
    ensures AllSpace(s[i + 1..i + e]) && SingleAt(w, s, i + e)
  {
    var t := s[i..];
    var n := SpaceLen(t[1..]);
    assert e == 1 + n;
    assert AllSpace(s[i + 1..i + e]) by {
      SpaceLenAllSpace(t[1..]);
      assert t[1..][..n] == s[i + 1..i + e];
    }
    assert t[e..] == s[i + e..];
    assert t[n] == s[i + e - 1];
    SingleStartAt(w, s, i + e);
  }

  /** `NoAdjacentSingles` of a prefix, at two positions of the whole text. */
  lemma NoAdjacentInPrefix(w: char -> bool, s: string, m: nat, i: nat, j: nat)
    requires m <= |s| && NoAdjacentSingles(w, s[..m])
    ensures i + 1 < j < m && SingleAt(w, s, i) && SingleAt(w, s, j) ==> !AllSpace(s[i + 1..j])
  {
    if i + 1 < j < m && SingleAt(w, s, i) && SingleAt(w, s, j) {
      SingleAtPrefix(w, s, m, i);
      SingleAtPrefix(w, s, m, j);
      assert s[..m][i + 1..j] == s[i + 1..j];
    }
  }

  /** Before position k no match can start when the text up to and including
      the non-whitespace character s[k] has no adjacent single-character
      words: a chain that starts earlier would reach a second word no later
      than k. */
  lemma NoMatchBefore(w: char -> bool, s: string, k: nat, i: nat)
    requires i < k < |s| && !IsSpace(s[k]) && NoAdjacentSingles(w, s[..k + 1])
    ensures MatchLen(w, Before(w, s, i), s[i..]) == None
  {
    NoNextBefore(w, s, k, i);
    SingleStartAt(w, s, i);
    MatchNeedsNext(w, Before(w, s, i), s[i..]);
  }

  /** The chain step that `NoMatchBefore` rules out. */
  lemma NoNextBefore(w: char -> bool, s: string, k: nat, i: nat)
    requires i < k < |s| && !IsSpace(s[k]) && NoAdjacentSingles(w, s[..k + 1])
    ensures SingleAt(w, s, i) ==> NextSingle(w, s[i..]) == None
  {
    if SingleAt(w, s, i) && NextSingle(w, s[i..]).Some? {
      var e := NextSingle(w, s[i..]).value;
      ChainStepBefore(w, s, k, i, e);
      NoAdjacentInPrefix(w, s, k + 1, i, i + e);
      assert false;
    }
  }

  /** The whitespace run after the first word of a chain is all whitespace. */
  lemma FirstGap(w: char -> bool, t: string)
    requires |t| >= 1 && NextSingle(w, t).Some?
    ensures AllSpace(t[1..NextSingle(w, t).value])
    ensures IsSpace(t[NextSingle(w, t).value - 1])
  {
    var e := NextSingle(w, t).value;
    var n := SpaceLen(t[1..]);
    SpaceLenAllSpace(t[1..]);
    assert t[1..][..n] == t[1..e];
    assert t[1..e][n - 1] == t[e - 1];
  }

  /** A chain of two or more words has whitespace just before its last word. */
  lemma {:induction false} ChainGap(w: char -> bool, t: string)
    requires |t| >= 1 && NextSingle(w, t).Some?
    ensures IsSpace(t[Chain(w, t).last - 1])
    decreases |t|
  {
    var e := NextSingle(w, t).value;
    var u := t[e..];
    var q := Chain(w, u).last;
    assert Chain(w, t).last == e + q;
    if NextSingle(w, u).Some? {
      ChainGap(w, u);
      assert u[q - 1] == t[e + q - 1];
    } else {
      assert q == 0;
      FirstGap(w, t);
    }
  }

  /** What a match at the start of t looks like (schools.py:43-46): it
      starts at a single-character word, a second one follows after
      whitespace within the match, and the match ends at the end of the text
      or right before a whitespace character (the lookahead `(?=\s|$)`). */
  lemma MatchLenShape(w: char -> bool, before: bool, t: string)
    requires MatchLen(w, before, t).Some?
    ensures SingleStart(w, before, t) && NextSingle(w, t).Some?
    ensures NextSingle(w, t).value < MatchLen(w, before, t).value
    ensures AllSpace(t[1..NextSingle(w, t).value])
    ensures MatchLen(w, before, t).value == |t| || IsSpace(t[MatchLen(w, before, t).value])
  {
    MatchNeedsNext(w, before, t);
    FirstGap(w, t);
    var q := Chain(w, t).last;
    var r := SpaceLen(t[q + 1..]);
    if 0 < r && q + 1 + r < |t| {
      SpaceLenAllSpace(t[q + 1..]);
      assert t[q + 1..][..r][r - 1] == t[q + r];
    } else if q + 1 + r < |t| {
      ChainGap(w, t);
    }
  }

  /** A match starts at a single-character word that has a successor. */
  lemma MatchNeedsNext(w: char -> bool, before: bool, t: string)
    ensures MatchLen(w, before, t).Some? ==> SingleStart(w, before, t) && NextSingle(w, t).Some?
  {
  }

  /** No match starts at position j of s. */
  predicate NoMatchAt(w: char -> bool, s: string, j: nat)
    requires j <= |s|
  {
    MatchLen(w, Before(w, s, j), s[j..]) == None
  }

  /** The search copies a prefix in which no match starts, one character
      at a time. */
  lemma {:induction false} ScanCopiesPrefix(w: char -> bool, s: string, k: nat, i: nat)
    requires i <= k <= |s|
    requires forall j :: i <= j < k ==> NoMatchAt(w, s, j)
    ensures Scan(w, Before(w, s, i), s[i..]) == s[i..k] + Scan(w, Before(w, s, k), s[k..])
    decreases k - i
  {
    if i < k {
      var t := s[i..];
      var x := Scan(w, Before(w, s, k), s[k..]);
      assert NoMatchAt(w, s, i);
      ScanStep(w, Before(w, s, i), t, None);
      assert t[0] == s[i] && t[1..] == s[i + 1..];
      assert w(t[0]) == Before(w, s, i + 1);
      var y := Scan(w, Before(w, s, i + 1), s[i + 1..]);
      assert Scan(w, Before(w, s, i), t) == [s[i]] + y;
      ScanCopiesPrefix(w, s, k, i + 1);
      assert y == s[i + 1..k] + x;
      assert s[i..k] == [s[i]] + s[i + 1..k];
      ConsAssoc(s[i], s[i + 1..k], x);
    }
  }

  lemma ConsAssoc<T>(a: T, b: seq<T>, c: seq<T>)
    ensures [a] + (b + c) == ([a] + b) + c
  {
  }

  /** How the search arrives at a later part t of the text: a prefix p
      that, together with t's first character, holds no adjacent
      single-character words is copied as it is. */
  lemma TightenArrives(w: char -> bool, p: string, t: string)
    requires t != [] && !IsSpace(t[0]) && NoAdjacentSingles(w, p + t[..1])
    ensures Tighten(w, p + t) == p + Scan(w, p != [] && w(p[|p| - 1]), t)
  {
    var s := p + t;
    var k := |p|;
    assert s[..k + 1] == p + t[..1];
    assert s[k] == t[0];
    forall j | 0 <= j < k ensures NoMatchAt(w, s, j) {
      NoMatchBefore(w, s, k, j);
    }
    ScanCopiesPrefix(w, s, k, 0);
    assert s[0..] == s && s[0..k] == p && s[k..] == t;
  }

  /** A run of two or more single-character words separated by single
      spaces becomes one token wherever it stands, as long as it starts a
      word (nothing or a non-word character before it), no single-character
      word runs into it from the left, and it is followed as `RunEnds`
      says: "university of u s a" becomes "university of usa". */
  lemma TightenMergesRun(w: char -> bool, p: string, cs: string, rest: string)
    requires WordClass(w)
    requires |cs| >= 2 && forall k :: 0 <= k < |cs| ==> w(cs[k])
    requires RunEnds(w, rest)
    requires p == [] || !w(p[|p| - 1])
    requires NoAdjacentSingles(w, p + cs[..1])
    ensures Tighten(w, p + Spaced(cs) + rest) == p + cs + Tighten(w, rest)
  {
    var t := Spaced(cs) + rest;
    assert t[0] == cs[0] && t[..1] == cs[..1] by { SpacedSplit(cs, rest); }
    assert !IsSpace(t[0]);
    TightenArrives(w, p, t);
    MergesRunAtStart(w, cs, rest);
    Assoc(p, Spaced(cs), rest);
    Assoc(p, cs, Tighten(w, rest));
  }

  lemma Assoc<T>(a: seq<T>, b: seq<T>, c: seq<T>)
    ensures a + b + c == a + (b + c)
  {
  }

  /** Two single-character words that run into a character which is neither
      whitespace nor a word character are not merged: the lookahead fails. */
  lemma TightenKeepsPairBeforePunctuation(w: char -> bool, a: char, b: char, c: char, rest: string)
    requires WordClass(w)
    requires w(a) && w(b) && !w(c) && !IsSpace(c)
    ensures Tighten(w, [a, ' ', b, c] + rest) == [a, ' ', b, c] + Tighten(w, rest)
  {
    var s := [a, ' ', b, c] + rest;
    assert IsSpace(' ') && !IsSpace(b);
    PairParts(a, b, c, rest);
    assert MatchLen(w, false, s) == None by {
      NoSpaceAfter(s[2..]);
      assert NextSingle(w, s[2..]) == None;
      OneSpaceAfter(s);
      assert Chain(w, s) == Run(2, 2);
      assert s[2 + 1..] == s[3..];
    }
    ScanStep(w, false, s, None);
    ScanStep(w, true, s[1..], None);
    ScanStep(w, false, s[2..], None);
    ScanStep(w, true, s[3..], None);
  }

  lemma PairParts(a: char, b: char, c: char, rest: string)
    ensures var s := [a, ' ', b, c] + rest;
      && s[0] == a && s[1] == ' ' && s[2] == b && s[3] == c
      && s[1..][0] == ' ' && s[2..][0] == b && s[2..][1] == c && s[3..][0] == c
      && s[1..][1..] == s[2..] && s[2..][1..] == s[3..] && s[3..][1..] == rest
  {
  }
}
