/**
 * The Python `str` operations the service uses on request parameters:
 * `strip()` with no argument, `split(sep)` with a one-character separator,
 * `sep.join(parts)` and `replace(c, "")` for a single character `c`.
 */
module PyStr {

  /** `c.isspace()`: the characters `strip()` with no argument removes. */
  predicate IsSpace(c: char) {
    ('\U{9}' <= c <= '\U{D}') || ('\U{1C}' <= c <= '\U{1F}') || c == ' '
    || c == '\U{85}' || c == '\U{A0}' || c == '\U{1680}'
    || ('\U{2000}' <= c <= '\U{200A}') || c == '\U{2028}' || c == '\U{2029}'
    || c == '\U{202F}' || c == '\U{205F}' || c == '\U{3000}'
  }

  predicate AllSpace(s: string) {
    forall i :: 0 <= i < |s| ==> IsSpace(s[i])
  }

  /** `s.lstrip()` */
  function StripLeft(s: string): string {
    if |s| > 0 && IsSpace(s[0]) then StripLeft(s[1..]) else s
  }

  /** `s.rstrip()` */
  function StripRight(s: string): string {
    if |s| > 0 && IsSpace(s[|s| - 1]) then StripRight(s[..|s| - 1]) else s
  }

  /** `s.strip()` */
  function Strip(s: string): string {
    StripRight(StripLeft(s))
  }

  /**
   * `lstrip()` keeps the longest suffix that does not start with whitespace:
   * what it drops is all whitespace, and it drops everything exactly when
   * everything is whitespace.
   */
  lemma {:induction false} StripLeftSpec(s: string)
    ensures var r := StripLeft(s);
            |r| <= |s| && r == s[|s| - |r|..] && AllSpace(s[..|s| - |r|])
            && (r == [] || !IsSpace(r[0]))
            && (r == [] <==> AllSpace(s))
  {
    if |s| > 0 && IsSpace(s[0]) {
      StripLeftSpec(s[1..]);
      var r := StripLeft(s[1..]);
      assert s[|s| - |r|..] == s[1..][|s| - 1 - |r|..];
      assert forall k :: 0 <= k < |s| - |r| && k > 0 ==> s[k] == s[1..][..|s| - 1 - |r|][k - 1];
      assert AllSpace(s) ==> AllSpace(s[1..]) by {
        if AllSpace(s) {
          assert forall k :: 0 <= k < |s| - 1 ==> s[1..][k] == s[k + 1];
        }
      }
    }
  }

  /**
   * `rstrip()` keeps the longest prefix that does not end with whitespace:
   * what it drops is all whitespace, and it drops everything exactly when
   * everything is whitespace.
   */
  lemma {:induction false} StripRightSpec(s: string)
    ensures var r := StripRight(s);
            |r| <= |s| && r == s[..|r|] && AllSpace(s[|r|..])
            && (r == [] || !IsSpace(r[|r| - 1]))
            && (r == [] <==> AllSpace(s))
    decreases |s|
  {
    if |s| > 0 && IsSpace(s[|s| - 1]) {
      var t := s[..|s| - 1];
      StripRightSpec(t);
      var r := StripRight(t);
      assert t[..|r|] == s[..|r|];
      assert forall k :: |r| <= k < |s| - 1 ==> s[k] == t[|r|..][k - |r|];
      assert AllSpace(s) ==> AllSpace(t) by {
        if AllSpace(s) {
          assert forall k :: 0 <= k < |t| ==> t[k] == s[k];
        }
      }
      assert AllSpace(t) ==> AllSpace(s);
    }
  }

  /**
   * `strip()` keeps a slice of `s` whose two ends are not whitespace and drops
   * only whitespace on either side; the result is empty exactly when `s` is
   * all whitespace.
   */
  lemma StripSpec(s: string)
    ensures var r := Strip(s);
            var i := |s| - |StripLeft(s)|;
            && 0 <= i && i + |r| <= |s| && r == s[i..i + |r|]
            && AllSpace(s[..i]) && AllSpace(s[i + |r|..])
            && (r == [] || (!IsSpace(r[0]) && !IsSpace(r[|r| - 1])))
            && (r == [] <==> AllSpace(s))
  {
    StripLeftSpec(s);
    var l := StripLeft(s);
    StripRightSpec(l);
    var r := StripRight(l);
    var i := |s| - |l|;
    assert s[i..i + |r|] == l[..|r|];
    assert s[i + |r|..] == l[|r|..];
  }

  /** `strip()` leaves a string without whitespace unchanged. */
  lemma StripWithoutSpace(s: string)
    requires forall k :: 0 <= k < |s| ==> !IsSpace(s[k])
    ensures Strip(s) == s
  {
    StripSpec(s);
    var r := Strip(s);
    var i := |s| - |StripLeft(s)|;
    if s != [] {
      assert !AllSpace(s) by { assert !IsSpace(s[0]); }
    }
  }

  /** Stripping twice is stripping once, and stripping adds no character. */
  lemma StripIdempotent(s: string)
    ensures Strip(Strip(s)) == Strip(s)
    ensures forall x :: x in Strip(s) ==> x in s
  {
    StripSpec(s);
    var r := Strip(s);
    StripSpec(r);
    if r != [] {
      // neither end of `r` is whitespace, so stripping it again removes nothing
      assert StripLeft(r) == r;
      assert StripRight(r) == r;
    }
    var i := |s| - |StripLeft(s)|;
    forall x | x in r ensures x in s {
      var j :| 0 <= j < |r| && r[j] == x;
      assert s[i + j] == x;
    }
  }

  /** Every part stripped. */
  function StripEach(parts: seq<string>): (r: seq<string>)
    ensures |r| == |parts|
    ensures forall i :: 0 <= i < |parts| ==> r[i] == Strip(parts[i])
  {
    seq(|parts|, i requires 0 <= i < |parts| => Strip(parts[i]))
  }

  /** `s.replace(c, "")` */
  function RemoveChar(s: string, c: char): string {
    if |s| == 0 then ""
    else if s[0] == c then RemoveChar(s[1..], c)
    else [s[0]] + RemoveChar(s[1..], c)
  }

  /** `replace(c, "")` keeps exactly the characters other than `c`, and changes nothing when `c` is absent. */
  lemma {:induction false} RemoveCharSpec(s: string, c: char)
    ensures forall x :: x in RemoveChar(s, c) <==> x in s && x != c
    ensures c !in s ==> RemoveChar(s, c) == s
  {
    if |s| > 0 {
      assert s == [s[0]] + s[1..];
      RemoveCharSpec(s[1..], c);
    }
  }

  /** `replace` works character by character, so it distributes over concatenation. */
  lemma {:induction false} RemoveCharAppend(x: string, y: string, c: char)
    ensures RemoveChar(x + y, c) == RemoveChar(x, c) + RemoveChar(y, c)
  {
    if |x| > 0 {
      assert (x + y)[0] == x[0] && (x + y)[1..] == x[1..] + y;
      RemoveCharAppend(x[1..], y, c);
    } else {
      assert x + y == y;
    }
  }

  /** `replace(c, "")` deletes exactly the occurrences of `c`: every other character keeps its count. */
  lemma {:induction false} RemoveCharMultiset(s: string, c: char)
    ensures multiset(RemoveChar(s, c)) == multiset(s)[c := 0]
  {
    if |s| > 0 {
      assert s == [s[0]] + s[1..];
      RemoveCharMultiset(s[1..], c);
    }
  }

  /** `s.split(sep)`: the runs of `s` between occurrences of `sep`, in order; never empty. */
  function Split(s: string, sep: char): (parts: seq<string>)
    ensures |parts| >= 1
  {
    if |s| == 0 then [""]
    else
      var rest := Split(s[1..], sep);
      if s[0] == sep then [""] + rest else [[s[0]] + rest[0]] + rest[1..]
  }

  /** No part of a split holds the separator. */
  lemma {:induction false} SplitPartsAreSeparatorFree(s: string, sep: char)
    ensures forall i :: 0 <= i < |Split(s, sep)| ==> sep !in Split(s, sep)[i]
  {
    if |s| > 0 {
      SplitPartsAreSeparatorFree(s[1..], sep);
      var rest := Split(s[1..], sep);
      if s[0] != sep {
        assert forall i :: 1 <= i < |rest| ==> Split(s, sep)[i] == rest[i];
      } else {
        assert forall i :: 1 <= i < |Split(s, sep)| ==> Split(s, sep)[i] == rest[i - 1];
      }
    }
  }

  /** There is one more part than there are separators. */
  lemma {:induction false} SplitCount(s: string, sep: char)
    ensures |Split(s, sep)| == multiset(s)[sep] + 1
  {
    if |s| > 0 {
      assert s == [s[0]] + s[1..];
      SplitCount(s[1..], sep);
    }
  }

  /** `sep.join(parts)` */
  function Join(parts: seq<string>, sep: char): string {
    if |parts| == 0 then ""
    else if |parts| == 1 then parts[0]
    else parts[0] + [sep] + Join(parts[1..], sep)
  }

  /** Joining the parts of a split with the same separator gives the original text back. */
  lemma {:induction false} JoinSplit(s: string, sep: char)
    ensures Join(Split(s, sep), sep) == s
  {
    if |s| > 0 {
      var rest := Split(s[1..], sep);
      JoinSplit(s[1..], sep);
      assert s == [s[0]] + s[1..];
      if s[0] != sep {
        if |rest| > 1 {
          assert Split(s, sep)[1..] == rest[1..];
          assert Join(rest, sep) == rest[0] + [sep] + Join(rest[1..], sep);
        }
      }
    }
  }

  /** Splitting `x + y` where `x` holds no separator glues `x` to the first part of `y`. */
  lemma {:induction false} SplitPrepend(x: string, y: string, sep: char)
    requires sep !in x
    ensures Split(x + y, sep) == [x + Split(y, sep)[0]] + Split(y, sep)[1..]
  {
    var p := Split(y, sep);
    if |x| > 0 {
      assert (x + y)[0] == x[0] && (x + y)[1..] == x[1..] + y;
      SplitPrepend(x[1..], y, sep);
      assert [x[0]] + (x[1..] + p[0]) == x + p[0];
    } else {
      assert x + y == y;
      assert x + p[0] == p[0];
      assert p == [p[0]] + p[1..];
    }
  }

  /** Splitting a join of separator-free parts gives the parts back. */
  lemma {:induction false} SplitJoin(parts: seq<string>, sep: char)
    requires |parts| >= 1
    requires forall i :: 0 <= i < |parts| ==> sep !in parts[i]
    ensures Split(Join(parts, sep), sep) == parts
  {
    if |parts| == 1 {
      SplitPrepend(parts[0], "", sep);
      assert parts[0] + "" == parts[0];
    } else {
      var tail := Join(parts[1..], sep);
      SplitJoin(parts[1..], sep);
      assert parts[0] + [sep] + tail == parts[0] + ([sep] + tail);
      SplitPrepend(parts[0], [sep] + tail, sep);
      assert ([sep] + tail)[1..] == tail;
      assert Split([sep] + tail, sep) == [""] + parts[1..];
      assert parts[0] + "" == parts[0];
      assert parts == [parts[0]] + parts[1..];
    }
  }

  /** `q` is `p` with `c` appended to its last part. */
  predicate LastPartExtended(p: seq<string>, q: seq<string>, c: char) {
    |p| >= 1 && |q| == |p| && q[|p| - 1] == p[|p| - 1] + [c]
    && forall i :: 0 <= i < |p| - 1 ==> q[i] == p[i]
  }

  lemma ExtendedAfterEmptyPart(P: seq<string>, Q: seq<string>, c: char)
    requires LastPartExtended(P, Q, c)
    ensures LastPartExtended([""] + P, [""] + Q, c)
  {
    var p, q := [""] + P, [""] + Q;
    forall i | 0 <= i < |p| - 1 ensures q[i] == p[i] {
      if i > 0 { assert p[i] == P[i - 1] && q[i] == Q[i - 1]; }
    }
    assert q[|p| - 1] == Q[|P| - 1] && p[|p| - 1] == P[|P| - 1];
  }

  lemma ExtendedWithFirstChar(x: char, P: seq<string>, Q: seq<string>, c: char)
    requires LastPartExtended(P, Q, c)
    ensures LastPartExtended([[x] + P[0]] + P[1..], [[x] + Q[0]] + Q[1..], c)
  {
    var p, q := [[x] + P[0]] + P[1..], [[x] + Q[0]] + Q[1..];
    if |P| == 1 {
      assert [x] + (P[0] + [c]) == ([x] + P[0]) + [c];
    } else {
      forall i | 0 <= i < |p| - 1 ensures q[i] == p[i] {
        if i > 0 {
          assert q[i] == Q[i] && p[i] == P[i];
        }
      }
      assert q[|p| - 1] == Q[|P| - 1] && p[|p| - 1] == P[|P| - 1];
    }
  }

  /** Splitting `s + [c]` for a character `c` other than the separator extends the last part by `c`. */
  lemma {:induction false} SplitAppend(s: string, c: char, sep: char)
    requires c != sep
    ensures LastPartExtended(Split(s, sep), Split(s + [c], sep), c)
  {
    if |s| == 0 {
      assert s + [c] == [c] + "";
      SplitCons(c, "", sep);
      assert "" + [c] == [c];
    } else {
      var x, u := s[0], s[1..];
      assert s == [x] + u && s + [c] == [x] + (u + [c]);
      SplitAppend(u, c, sep);
      SplitCons(x, u, sep);
      SplitCons(x, u + [c], sep);
      if x == sep {
        ExtendedAfterEmptyPart(Split(u, sep), Split(u + [c], sep), c);
      } else {
        ExtendedWithFirstChar(x, Split(u, sep), Split(u + [c], sep), c);
      }
    }
  }

  /** Two part lists with the same stripped parts. */
  predicate SameStripped(a: seq<string>, b: seq<string>) {
    |a| == |b| && forall i :: 0 <= i < |a| ==> Strip(a[i]) == Strip(b[i])
  }

  /** Leading whitespace before a split does not change the stripped parts. */
  lemma {:induction false} SplitStripLeft(u: string, sep: char)
    requires !IsSpace(sep)
    ensures SameStripped(Split(StripLeft(u), sep), Split(u, sep))
  {
    if |u| > 0 && IsSpace(u[0]) {
      var a := Split(StripLeft(u), sep);
      var P := Split(u[1..], sep);
      var b := Split(u, sep);
      assert StripLeft(u) == StripLeft(u[1..]);
      SplitStripLeft(u[1..], sep);
      assert SameStripped(a, P);
      assert b == [[u[0]] + P[0]] + P[1..];
      assert b[0] == [u[0]] + P[0];
      assert b[1..] == P[1..];
      StripSpaceCons(u[0], P[0]);
    }
  }

  /** Trailing whitespace after a split does not change the stripped parts. */
  lemma {:induction false} SplitStripRight(u: string, sep: char)
    requires !IsSpace(sep)
    ensures SameStripped(Split(StripRight(u), sep), Split(u, sep))
    decreases |u|
  {
    if |u| > 0 && IsSpace(u[|u| - 1]) {
      var v := u[..|u| - 1];
      assert u == v + [u[|u| - 1]];
      assert StripRight(u) == StripRight(v);
      SplitStripRight(v, sep);
      SplitAppend(v, u[|u| - 1], sep);
      var a := Split(StripRight(v), sep);
      var p := Split(v, sep);
      var q := Split(u, sep);
      forall i | 0 <= i < |a| ensures Strip(a[i]) == Strip(q[i]) {
        assert Strip(a[i]) == Strip(p[i]);
        if i == |p| - 1 {
          StripSpaceSnoc(p[i], u[|u| - 1]);
        }
      }
    }
  }

  /** Whitespace in front does not change `strip()`. */
  lemma StripSpaceCons(w: char, x: string)
    requires IsSpace(w)
    ensures Strip([w] + x) == Strip(x)
  {
    assert ([w] + x)[1..] == x;
  }

  /** A run of whitespace in front does not change `strip()`. */
  lemma {:induction false} StripSpacePrefix(w: string, x: string)
    requires AllSpace(w)
    ensures Strip(w + x) == Strip(x)
  {
    if |w| > 0 {
      assert w + x == [w[0]] + (w[1..] + x);
      StripSpaceCons(w[0], w[1..] + x);
      assert AllSpace(w[1..]) by {
        forall k | 0 <= k < |w| - 1 ensures IsSpace(w[1..][k]) {
          assert w[1..][k] == w[k + 1];
        }
      }
      StripSpacePrefix(w[1..], x);
    } else {
      assert w + x == x;
    }
  }

  /** A run of whitespace at the end does not change `strip()`. */
  lemma {:induction false} StripSpaceSuffix(x: string, v: string)
    requires AllSpace(v)
    ensures Strip(x + v) == Strip(x)
    decreases |v|
  {
    if |v| > 0 {
      var u, w := v[..|v| - 1], v[|v| - 1];
      assert x + v == (x + u) + [w];
      StripSpaceSnoc(x + u, w);
      assert AllSpace(u) by {
        forall k | 0 <= k < |u| ensures IsSpace(u[k]) {
          assert u[k] == v[k];
        }
      }
      StripSpaceSuffix(x, u);
    } else {
      assert x + v == x;
    }
  }

  /** `lstrip()` of `x + [w]`: keeps `w` unless everything before it is whitespace. */
  lemma {:induction false} StripLeftAppend(x: string, w: char)
    ensures StripLeft(x + [w]) == if AllSpace(x) then StripLeft([w]) else StripLeft(x) + [w]
  {
    if |x| > 0 {
      assert (x + [w])[0] == x[0] && (x + [w])[1..] == x[1..] + [w];
      StripLeftAppend(x[1..], w);
      if IsSpace(x[0]) {
        assert AllSpace(x) <==> AllSpace(x[1..]) by {
          if AllSpace(x[1..]) {
            forall k | 0 <= k < |x| ensures IsSpace(x[k]) {
              if k > 0 { assert x[k] == x[1..][k - 1]; }
            }
          }
          if AllSpace(x) {
            forall k | 0 <= k < |x| - 1 ensures IsSpace(x[1..][k]) {
              assert x[1..][k] == x[k + 1];
            }
          }
        }
      } else {
        assert !AllSpace(x);
      }
    } else {
      assert x + [w] == [w];
    }
  }

  /** Whitespace at the end does not change `strip()`. */
  lemma StripSpaceSnoc(x: string, w: char)
    requires IsSpace(w)
    ensures Strip(x + [w]) == Strip(x)
  {
    StripLeftAppend(x, w);
    if AllSpace(x) {
      StripLeftSpec(x);
      assert [w][1..] == [];
    } else {
      var l := StripLeft(x);
      assert (l + [w])[..|l|] == l;
    }
  }

  /**
   * Stripping before splitting is subsumed by stripping each part: for a
   * separator that is not whitespace, `[x.strip() for x in s.strip().split(sep)]`
   * equals `[x.strip() for x in s.split(sep)]`.
   */
  lemma StripBeforeSplit(s: string, sep: char)
    requires !IsSpace(sep)
    ensures StripEach(Split(Strip(s), sep)) == StripEach(Split(s, sep))
  {
    SplitStripRight(StripLeft(s), sep);
    SplitStripLeft(s, sep);
  }

  lemma SplitCons(x: char, t: string, sep: char)
    ensures Split([x] + t, sep) ==
            if x == sep then [""] + Split(t, sep) else [[x] + Split(t, sep)[0]] + Split(t, sep)[1..]
  {
    assert ([x] + t)[0] == x && ([x] + t)[1..] == t;
  }

  lemma RemoveCharCons(x: char, t: string, c: char)
    ensures RemoveChar([x] + t, c) == if x == c then RemoveChar(t, c) else [x] + RemoveChar(t, c)
  {
    assert ([x] + t)[0] == x && ([x] + t)[1..] == t;
  }

  /** Each part of `q` is the matching part of `p` with every `c` deleted. */
  predicate PartsWithout(p: seq<string>, q: seq<string>, c: char) {
    |q| == |p| && forall i :: 0 <= i < |p| ==> q[i] == RemoveChar(p[i], c)
  }

  lemma SplitRemoveCharDropped(x: char, u: string, c: char, sep: char)
    requires x == c && c != sep
    requires PartsWithout(Split(u, sep), Split(RemoveChar(u, c), sep), c)
    ensures PartsWithout(Split([x] + u, sep), Split(RemoveChar([x] + u, c), sep), c)
  {
    var P := Split(u, sep);
    var Q := Split(RemoveChar(u, c), sep);
    SplitCons(x, u, sep);
    RemoveCharCons(x, u, c);
    RemoveCharCons(x, P[0], c);
    var p := [[x] + P[0]] + P[1..];
    forall i | 0 <= i < |p| ensures Q[i] == RemoveChar(p[i], c) {
      if i > 0 { assert p[i] == P[i]; }
    }
  }

  lemma SplitRemoveCharSeparator(x: char, u: string, c: char, sep: char)
    requires x == sep && c != sep
    requires PartsWithout(Split(u, sep), Split(RemoveChar(u, c), sep), c)
    ensures PartsWithout(Split([x] + u, sep), Split(RemoveChar([x] + u, c), sep), c)
  {
    var P := Split(u, sep);
    var t := RemoveChar(u, c);
    var Q := Split(t, sep);
    SplitCons(x, u, sep);
    RemoveCharCons(x, u, c);
    SplitCons(x, t, sep);
    var p, q := [""] + P, [""] + Q;
    forall i | 0 <= i < |p| ensures q[i] == RemoveChar(p[i], c) {
      if i > 0 { assert p[i] == P[i - 1] && q[i] == Q[i - 1]; }
    }
  }

  lemma SplitRemoveCharKept(x: char, u: string, c: char, sep: char)
    requires x != sep && x != c && c != sep
    requires PartsWithout(Split(u, sep), Split(RemoveChar(u, c), sep), c)
    ensures PartsWithout(Split([x] + u, sep), Split(RemoveChar([x] + u, c), sep), c)
  {
    var P := Split(u, sep);
    var t := RemoveChar(u, c);
    var Q := Split(t, sep);
    SplitCons(x, u, sep);
    RemoveCharCons(x, u, c);
    SplitCons(x, t, sep);
    RemoveCharCons(x, P[0], c);
    var p, q := [[x] + P[0]] + P[1..], [[x] + Q[0]] + Q[1..];
    forall i | 0 <= i < |p| ensures q[i] == RemoveChar(p[i], c) {
      if i > 0 { assert p[i] == P[i] && q[i] == Q[i]; }
    }
  }

  /** Deleting a character other than the separator commutes with splitting: it acts on each part. */
  lemma {:induction false} SplitRemoveChar(s: string, c: char, sep: char)
    requires c != sep
    ensures PartsWithout(Split(s, sep), Split(RemoveChar(s, c), sep), c)
  {
    if |s| > 0 {
      var x, u := s[0], s[1..];
      assert s == [x] + u;
      SplitRemoveChar(u, c, sep);
      if x == c {
        SplitRemoveCharDropped(x, u, c, sep);
      } else if x == sep {
        SplitRemoveCharSeparator(x, u, c, sep);
      } else {
        SplitRemoveCharKept(x, u, c, sep);
      }
    }
  }
}
