/**
 * The fragment of Python's `re.match(pattern, s, flags=re.IGNORECASE)` that
 * the service uses: a pattern is a sequence of atoms, each either a character
 * class repeated a fixed number of times (`[a-f0-9]{8}`, a literal `4` is
 * `[4]{1}`) or an optional literal character (`-?`). Classes are written in
 * lower case and a character matches after ASCII lower-casing.
 *
 * `Lang` is the reference meaning of a pattern (the set of strings it
 * matches in full, exploring both choices of every optional character);
 * `MatchAt` is a greedy matcher that never backtracks. `re.match` anchors at
 * the start only, so `Match` accepts a string when some prefix is in `Lang`.
 */
module Regex {
  import opened Wrappers

  datatype Atom =
    | Repeat(members: set<char>, count: nat)
    | Optional(c: char)

  /** The case folding of IGNORECASE for the characters these patterns name: ASCII upper case to lower case. */
  function Fold(c: char): char {
    if 'A' <= c <= 'Z' then (c as int + 32) as char else c
  }

  /** Every character of `s` is, after folding, in `members`. */
  predicate AllIn(s: string, members: set<char>) {
    forall k :: 0 <= k < |s| ==> Fold(s[k]) in members
  }

  /** `p` as a whole matches `pattern` (reference semantics, with backtracking over optional characters). */
  predicate Lang(pattern: seq<Atom>, p: string)
    decreases |pattern|
  {
    if pattern == [] then p == []
    else match pattern[0]
      case Repeat(m, n) => n <= |p| && AllIn(p[..n], m) && Lang(pattern[1..], p[n..])
      case Optional(c) =>
        Lang(pattern[1..], p) || (|p| > 0 && Fold(p[0]) == c && Lang(pattern[1..], p[1..]))
  }

  /**
   * Greedy matching of `pattern` against `s` from position `i`: an optional
   * character is taken whenever it is present. Returns the end of the match.
   */
  function MatchAt(pattern: seq<Atom>, s: string, i: nat): (r: Option<nat>)
    requires i <= |s|
    ensures r.Some? ==> i <= r.value <= |s| && Lang(pattern, s[i..r.value])
    decreases |pattern|
  {
    if pattern == [] then Some(i)
    else match pattern[0]
      case Repeat(m, n) =>
        if i + n <= |s| && AllIn(s[i..i + n], m) then
          var r := MatchAt(pattern[1..], s, i + n);
          if r.Some? then
            assert s[i..r.value][..n] == s[i..i + n] && s[i..r.value][n..] == s[i + n..r.value];
            r
          else None
        else None
      case Optional(c) =>
        if i < |s| && Fold(s[i]) == c then
          var r := MatchAt(pattern[1..], s, i + 1);
          if r.Some? then
            assert s[i..r.value][1..] == s[i + 1..r.value];
            r
          else None
        else MatchAt(pattern[1..], s, i)
  }

  /** `re.match(pattern, s, flags=re.IGNORECASE)` is not None. */
  predicate Match(pattern: seq<Atom>, s: string) {
    MatchAt(pattern, s, 0).Some?
  }

  /**
   * Greedy matching loses nothing when every optional character is followed
   * by a non-empty class that does not contain it: taking the character can
   * then never be the wrong choice.
   */
  predicate Deterministic(pattern: seq<Atom>) {
    forall k :: 0 <= k < |pattern| && pattern[k].Optional? ==>
      k + 1 < |pattern| && pattern[k + 1].Repeat? && pattern[k + 1].count > 0
      && pattern[k].c !in pattern[k + 1].members
  }

  lemma DeterministicTail(pattern: seq<Atom>)
    requires Deterministic(pattern) && pattern != []
    ensures Deterministic(pattern[1..])
  {
    assert forall k :: 0 <= k < |pattern| - 1 ==> pattern[1..][k] == pattern[k + 1];
  }

  /** For a deterministic pattern, the greedy matcher finds a match whenever the reference semantics has one. */
  lemma {:induction false} MatchAtComplete(pattern: seq<Atom>, s: string, i: nat, e: nat)
    requires Deterministic(pattern)
    requires i <= e <= |s| && Lang(pattern, s[i..e])
    ensures MatchAt(pattern, s, i).Some?
    decreases |pattern|
  {
    if pattern != [] {
      DeterministicTail(pattern);
      var rest := pattern[1..];
      var p := s[i..e];
      match pattern[0]
      case Repeat(m, n) =>
        assert p[..n] == s[i..i + n] && p[n..] == s[i + n..e];
        MatchAtComplete(rest, s, i + n, e);
      case Optional(c) =>
        assert rest[0] == pattern[1];
        if i < |s| && Fold(s[i]) == c {
          // `Lang(rest, p)` is impossible: the class after `c?` would have to
          // match `s[i]`, which folds to `c`
          if Lang(rest, p) {
            assert false;
          }
          assert p[1..] == s[i + 1..e];
          MatchAtComplete(rest, s, i + 1, e);
        } else {
          MatchAtComplete(rest, s, i, e);
        }
    }
  }

  /**
   * `re.match` on a deterministic pattern: it succeeds exactly when some
   * prefix of `s` is in the pattern's language; what follows is ignored.
   */
  lemma MatchIffPrefixInLang(pattern: seq<Atom>, s: string)
    requires Deterministic(pattern)
    ensures Match(pattern, s) <==> exists k :: 0 <= k <= |s| && Lang(pattern, s[..k])
  {
    if Match(pattern, s) {
      var e := MatchAt(pattern, s, 0).value;
      assert s[0..e] == s[..e];
    }
    if k :| 0 <= k <= |s| && Lang(pattern, s[..k]) {
      assert s[0..k] == s[..k];
      MatchAtComplete(pattern, s, 0, k);
    }
  }

  /** Case folding of a whole string. */
  function FoldAll(s: string): (r: string)
    ensures |r| == |s| && forall k :: 0 <= k < |s| ==> r[k] == Fold(s[k])
  {
    seq(|s|, k requires 0 <= k < |s| => Fold(s[k]))
  }

  lemma AllInIgnoresCase(s: string, i: nat, n: nat, members: set<char>)
    requires i + n <= |s|
    ensures AllIn(FoldAll(s)[i..i + n], members) == AllIn(s[i..i + n], members)
  {
    var fs, ss := FoldAll(s)[i..i + n], s[i..i + n];
    assert forall k :: 0 <= k < n ==> Fold(fs[k]) == Fold(ss[k]) by {
      assert forall k :: 0 <= k < n ==> fs[k] == FoldAll(s)[i + k];
      assert forall k :: 0 <= k < n ==> ss[k] == s[i + k];
    }
  }

  /** IGNORECASE: the greedy matcher gives the same answer on a string and on its lower-cased form. */
  lemma {:induction false} MatchAtIgnoresCase(pattern: seq<Atom>, s: string, i: nat)
    requires i <= |s|
    ensures MatchAt(pattern, FoldAll(s), i) == MatchAt(pattern, s, i)
    decreases |pattern|
  {
    var f := FoldAll(s);
    assert forall k :: 0 <= k < |s| ==> Fold(f[k]) == Fold(s[k]);
    if pattern != [] {
      match pattern[0]
      case Repeat(m, n) =>
        if i + n <= |s| {
          AllInIgnoresCase(s, i, n, m);
          MatchAtIgnoresCase(pattern[1..], s, i + n);
        }
      case Optional(c) =>
        MatchAtIgnoresCase(pattern[1..], s, i);
        if i < |s| {
          MatchAtIgnoresCase(pattern[1..], s, i + 1);
        }
    }
  }

  /** Whatever follows a prefix that matches does not change the answer of `re.match`. */
  lemma MatchIgnoresSuffix(pattern: seq<Atom>, s: string, t: string)
    requires Deterministic(pattern) && Match(pattern, s)
    ensures Match(pattern, s + t)
  {
    MatchIffPrefixInLang(pattern, s);
    MatchIffPrefixInLang(pattern, s + t);
    var k :| 0 <= k <= |s| && Lang(pattern, s[..k]);
    assert (s + t)[..k] == s[..k];
  }
}
