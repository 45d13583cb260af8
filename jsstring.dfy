/**
  The JavaScript string built-ins that the email parser relies on:
  whitespace, ASCII case mapping, `charAt`, `slice`, `trim`, `split` on a
  one-character separator, `split` on runs of separators and `join`.
  Strings are sequences of characters.
 */
module JsString {

  /** The characters JavaScript's `trim` removes and the regular-expression
      class `\s` matches: the WhiteSpace and LineTerminator code points of
      ECMA-262 (sections 12.2 and 12.3). */
  predicate IsWs(c: char) {
    var n := c as int;
    n == 0x09 || n == 0x0A || n == 0x0B || n == 0x0C || n == 0x0D || n == 0x20 ||
    n == 0xA0 || n == 0x1680 || (0x2000 <= n <= 0x200A) || n == 0x2028 || n == 0x2029 ||
    n == 0x202F || n == 0x205F || n == 0x3000 || n == 0xFEFF
  }

  predicate IsAsciiLower(c: char) { 'a' <= c <= 'z' }

  predicate IsAsciiUpper(c: char) { 'A' <= c <= 'Z' }

  /** `toUpperCase` on one character, restricted to ASCII: a lower-case
      letter becomes an upper-case one (the one that lower-cases back to it,
      by `CaseInverse`), and every other character is kept. */
  function Upper(c: char): (r: char)
    ensures !IsAsciiLower(r)
    ensures IsAsciiLower(c) ==> IsAsciiUpper(r)
    ensures !IsAsciiLower(c) ==> r == c
  {
    if IsAsciiLower(c) then (c as int - 32) as char else c
  }

  /** `toLowerCase` on one character, restricted to ASCII: an upper-case
      letter becomes a lower-case one (the one that upper-cases back to it,
      by `CaseInverse`), and every other character is kept. */
  function Lower(c: char): (r: char)
    ensures !IsAsciiUpper(r)
    ensures IsAsciiUpper(c) ==> IsAsciiLower(r)
    ensures !IsAsciiUpper(c) ==> r == c
  {
    if IsAsciiUpper(c) then (c as int + 32) as char else c
  }

  /** The two case mappings undo each other on the letters they change. */
  lemma CaseInverse(c: char)
    ensures IsAsciiLower(c) ==> Lower(Upper(c)) == c
    ensures IsAsciiUpper(c) ==> Upper(Lower(c)) == c
  {
  }

  /** `d` is what one of the two case mappings makes of `c` */
  predicate CaseOf(d: char, c: char) {
    d == Upper(c) || d == Lower(c)
  }

  /** The case mappings only touch letters: whatever they produce that is not
      a letter was already there. */
  lemma CaseOfNonLetter(d: char, c: char)
    requires CaseOf(d, c) && !IsAsciiLower(d) && !IsAsciiUpper(d)
    ensures d == c
  {
  }

  /** `s.toUpperCase()`, character by character: no lower-case letter is
      left, every lower-case letter becomes the upper-case letter that
      lower-cases back to it, and every other character is kept. */
  function ToUpper(s: string): (r: string)
    ensures |r| == |s|
    ensures forall i :: 0 <= i < |r| ==> !IsAsciiLower(r[i])
    ensures forall i :: 0 <= i < |s| && IsAsciiLower(s[i]) ==> IsAsciiUpper(r[i]) && Lower(r[i]) == s[i]
    ensures forall i :: 0 <= i < |s| && !IsAsciiLower(s[i]) ==> r[i] == s[i]
  {
    seq(|s|, i requires 0 <= i < |s| => Upper(s[i]))
  }

  /** `s.toLowerCase()`, character by character: no upper-case letter is
      left, every upper-case letter becomes the lower-case letter that
      upper-cases back to it, and every other character is kept. */
  function ToLower(s: string): (r: string)
    ensures |r| == |s|
    ensures forall i :: 0 <= i < |r| ==> !IsAsciiUpper(r[i])
    ensures forall i :: 0 <= i < |s| && IsAsciiUpper(s[i]) ==> IsAsciiLower(r[i]) && Upper(r[i]) == s[i]
    ensures forall i :: 0 <= i < |s| && !IsAsciiUpper(s[i]) ==> r[i] == s[i]
  {
    seq(|s|, i requires 0 <= i < |s| => Lower(s[i]))
  }

  /** Upper-casing twice is upper-casing once. */
  lemma ToUpperIdempotent(s: string)
    ensures ToUpper(ToUpper(s)) == ToUpper(s)
  {
  }

  /** Lower-casing twice is lower-casing once. */
  lemma ToLowerIdempotent(s: string)
    ensures ToLower(ToLower(s)) == ToLower(s)
  {
  }

  /** Upper-casing forgets a prior lower-casing, and the other way round. */
  lemma CaseRoundTrip(s: string)
    ensures ToUpper(ToLower(s)) == ToUpper(s)
    ensures ToLower(ToUpper(s)) == ToLower(s)
  {
  }

  /** `s.charAt(pos)`: the one-character string at `pos`, or "" past the end */
  function CharAt(s: string, pos: nat): string {
    if pos < |s| then [s[pos]] else ""
  }

  /** `s.slice(start)` for a non-negative `start` */
  function Slice(s: string, start: nat): string {
    if start <= |s| then s[start..] else ""
  }

  /* ---------------------------------------------------------------- trim */

  /** `r` is the slice of `s` that starts at `i`, and only whitespace lies
      outside it. */
  predicate PaddedBy(s: string, i: int, r: string) {
    0 <= i <= |s| - |r| && r == s[i..i + |r|] &&
    (forall k :: 0 <= k < i ==> IsWs(s[k])) &&
    (forall k :: i + |r| <= k < |s| ==> IsWs(s[k]))
  }

  /** `s.trim()`: drops leading and trailing whitespace, so the result
      neither starts nor ends with whitespace (and, by `TrimSlice`, is a
      slice of the input with only whitespace outside it). */
  function Trim(s: string): (r: string)
    ensures |r| <= |s|
    ensures r == [] || (!IsWs(r[0]) && !IsWs(r[|r| - 1]))
    decreases |s|
  {
    if |s| > 0 && IsWs(s[0]) then Trim(s[1..])
    else if |s| > 0 && IsWs(s[|s| - 1]) then Trim(s[..|s| - 1])
    else s
  }

  /** Padding a slice with one more leading whitespace character */
  lemma PaddedByFront(s: string, i: int, r: string)
    requires |s| > 0 && IsWs(s[0]) && PaddedBy(s[1..], i, r)
    ensures PaddedBy(s, i + 1, r)
  {
    var t := s[1..];
    assert t[i..i + |r|] == s[i + 1..i + 1 + |r|];
    forall k | 0 <= k < i + 1 ensures IsWs(s[k]) {
      if k > 0 { assert s[k] == t[k - 1]; }
    }
    forall k | i + 1 + |r| <= k < |s| ensures IsWs(s[k]) {
      assert s[k] == t[k - 1];
    }
  }

  /** Padding a slice with one more trailing whitespace character */
  lemma PaddedByBack(s: string, i: int, r: string)
    requires |s| > 0 && IsWs(s[|s| - 1]) && PaddedBy(s[..|s| - 1], i, r)
    ensures PaddedBy(s, i, r)
  {
    var t := s[..|s| - 1];
    assert t[i..i + |r|] == s[i..i + |r|];
    forall k | 0 <= k < i ensures IsWs(s[k]) {
      assert s[k] == t[k];
    }
    forall k | i + |r| <= k < |s| ensures IsWs(s[k]) {
      if k < |s| - 1 { assert s[k] == t[k]; }
    }
  }

  /** `trim` cuts a slice out of its input and drops only whitespace. */
  lemma {:induction false} TrimSlice(s: string)
    ensures exists i :: PaddedBy(s, i, Trim(s))
    decreases |s|
  {
    var r := Trim(s);
    if |s| > 0 && IsWs(s[0]) {
      TrimSlice(s[1..]);
      var i :| PaddedBy(s[1..], i, r);
      PaddedByFront(s, i, r);
    } else if |s| > 0 && IsWs(s[|s| - 1]) {
      TrimSlice(s[..|s| - 1]);
      var i :| PaddedBy(s[..|s| - 1], i, r);
      PaddedByBack(s, i, r);
    } else {
      assert PaddedBy(s, 0, r);
    }
  }

  /** Every character `trim` keeps comes from its input. */
  lemma TrimChars(s: string, c: char)
    requires c in Trim(s)
    ensures c in s
  {
    var r := Trim(s);
    TrimSlice(s);
    var i :| PaddedBy(s, i, r);
    var k :| 0 <= k < |r| && r[k] == c;
    assert s[i + k] == c;
  }

  /** `trim` is the identity exactly on strings that neither start nor end
      with whitespace. */
  lemma TrimIdentity(s: string)
    ensures Trim(s) == s <==> (s == [] || (!IsWs(s[0]) && !IsWs(s[|s| - 1])))
  {

  }

  /** `trim` is idempotent. */
  lemma TrimIdempotent(s: string)
    ensures Trim(Trim(s)) == Trim(s)
  {
    TrimIdentity(Trim(s));
  }

  /** `trim` gives "" exactly when the input is all whitespace. */
  lemma TrimEmpty(s: string)
    ensures Trim(s) == [] <==> forall k :: 0 <= k < |s| ==> IsWs(s[k])
  {
    var r := Trim(s);
    TrimSlice(s);
    var i :| PaddedBy(s, i, r);
    if r != [] {
      assert s[i] == r[0];
    }
  }

  /* ---------------------------------------------------------------- split */

  /** `s.split(sep)` where the separator matches exactly one character of
      `seps` (a one-character string, or a one-character class such as
      `/[._-]/`): every occurrence splits and empty pieces are kept, so there
      is always at least one piece. The first piece is the longest prefix
      free of separators (`SplitFirst`), and no piece contains a separator
      (`SplitChars`). */
  function Split(s: string, seps: set<char>): (r: seq<string>)
    ensures |r| >= 1
    decreases |s|
  {
    if s == [] then [[]]
    else
      var rest := Split(s[1..], seps);
      if s[0] in seps then [[]] + rest
      else [[s[0]] + rest[0]] + rest[1..]
  }

  /** The first piece is the longest prefix free of separators. */
  lemma {:induction false} SplitFirst(s: string, seps: set<char>)
    ensures Split(s, seps)[0] <= s
    ensures |Split(s, seps)[0]| < |s| ==> s[|Split(s, seps)[0]|] in seps
    ensures forall k :: 0 <= k < |Split(s, seps)[0]| ==> s[k] !in seps
    decreases |s|
  {
    if s != [] && s[0] !in seps {
      SplitFirst(s[1..], seps);
    }
  }

  /** Every character of a piece is a character of the input. */
  lemma SplitChars(s: string, seps: set<char>, i: nat, c: char)
    requires i < |Split(s, seps)| && c in Split(s, seps)[i]
    ensures c in s && c !in seps
    decreases |s|
  {
    if s != [] {
      var rest := Split(s[1..], seps);
      if s[0] in seps {
        SplitChars(s[1..], seps, i - 1, c);
      } else if i == 0 {
        if c != s[0] {
          SplitChars(s[1..], seps, 0, c);
        }
      } else {
        SplitChars(s[1..], seps, i, c);
      }
    }
  }

  /** A string without separators is one piece. */
  lemma {:induction false} SplitNoSeparator(s: string, seps: set<char>)
    requires forall k :: 0 <= k < |s| ==> s[k] !in seps
    ensures Split(s, seps) == [s]
    decreases |s|
  {
    if s != [] {
      SplitNoSeparator(s[1..], seps);
      assert [s[0]] + s[1..] == s;
    }
  }

  /** Splitting at a separator character splits each side on its own. */
  lemma {:induction false} SplitConcat(a: string, c: char, b: string, seps: set<char>)
    requires c in seps
    ensures Split(a + [c] + b, seps) == Split(a, seps) + Split(b, seps)
    decreases |a|
  {
    if a == [] {
      assert a + [c] + b == [c] + b;
      assert ([c] + b)[1..] == b;
    } else {
      assert (a + [c] + b)[1..] == a[1..] + [c] + b;
      SplitConcat(a[1..], c, b, seps);
    }
  }

  /** Everything after the first separator is split on its own. */
  lemma {:induction false} SplitAfterFirst(s: string, seps: set<char>)
    ensures |Split(s, seps)[0]| < |s| ==>
      Split(s, seps) == [Split(s, seps)[0]] + Split(s[|Split(s, seps)[0]| + 1..], seps)
    decreases |s|
  {
    if s != [] && s[0] !in seps {
      var rest := Split(s[1..], seps);
      var n := |rest[0]|;
      SplitAfterFirst(s[1..], seps);
      if n < |s| - 1 {
        assert s[1..][n + 1..] == s[n + 2..];
      }
    }
  }

  /** `ts.join(sep)` */
  function Join(ts: seq<string>, sep: string): string {
    if |ts| == 0 then []
    else if |ts| == 1 then ts[0]
    else ts[0] + sep + Join(ts[1..], sep)
  }

  /** Every character of a join comes from one of the pieces or from the
      separator. */
  lemma {:induction false} JoinChars(ts: seq<string>, sep: string, c: char)
    requires c in Join(ts, sep)
    ensures c in sep || exists i :: 0 <= i < |ts| && c in ts[i]
    decreases |ts|
  {
    if |ts| > 1 {
      if c !in ts[0] && c !in sep {
        JoinChars(ts[1..], sep, c);
        var i :| 0 <= i < |ts[1..]| && c in ts[1..][i];
        assert c in ts[i + 1];
      }
    }
  }

  /** Splitting a join on its separator character gives back the pieces,
      provided there is at least one piece and none of them contains a
      separator. */
  lemma {:induction false} SplitJoin(ts: seq<string>, c: char, seps: set<char>)
    requires c in seps && |ts| >= 1
    requires forall i, k :: 0 <= i < |ts| && 0 <= k < |ts[i]| ==> ts[i][k] !in seps
    ensures Split(Join(ts, [c]), seps) == ts
    decreases |ts|
  {
    SplitNoSeparator(ts[0], seps);
    if |ts| > 1 {
      var rest := ts[1..];
      forall i, k | 0 <= i < |rest| && 0 <= k < |rest[i]| ensures rest[i][k] !in seps {
        assert rest[i] == ts[i + 1];
      }
      SplitJoin(rest, c, seps);
      assert Join(ts, [c]) == ts[0] + [c] + Join(rest, [c]);
      SplitConcat(ts[0], c, Join(rest, [c]), seps);
      assert [ts[0]] + rest == ts;
    }
  }

  /** Joining the pieces of a split on a single separator character gives
      back the string. */
  lemma {:induction false} JoinSplit(s: string, c: char)
    ensures Join(Split(s, {c}), [c]) == s
    decreases |s|
  {
    if s != [] {
      var rest := Split(s[1..], {c});
      JoinSplit(s[1..], c);
      if s[0] == c {
        assert s == [c] + s[1..];
      } else {
        var r := [[s[0]] + rest[0]] + rest[1..];
        if |rest| == 1 {
          assert Join(r, [c]) == [s[0]] + rest[0];
        } else {
          assert Join(rest, [c]) == rest[0] + [c] + Join(rest[1..], [c]);
          assert r[1..] == rest[1..];
          assert Join(r, [c]) == [s[0]] + rest[0] + [c] + Join(rest[1..], [c]);
        }
        assert s == [s[0]] + s[1..];
      }
    }
  }

  /* ------------------------------------------------------- split on runs */

  /** Drops the leading run of separator characters: the result is the
      suffix left after the longest all-separator prefix. */
  function DropSeparators(s: string, seps: set<char>): (r: string)
    ensures |r| <= |s| && r == s[|s| - |r|..]
    ensures forall k :: 0 <= k < |s| - |r| ==> s[k] in seps
    ensures r == [] || r[0] !in seps
    ensures |s| > 0 && s[0] in seps ==> |r| < |s|
    decreases |s|
  {
    if |s| > 0 && s[0] in seps then
      var r := DropSeparators(s[1..], seps);
      assert s[1..][|s| - 1 - |r|..] == s[|s| - |r|..];
      assert forall k :: 0 <= k < |s| - |r| ==> s[k] in seps by {
        forall k | 0 < k < |s| - |r| ensures s[k] in seps {
          assert s[k] == s[1..][k - 1];
        }
      }
      r
    else s
  }

  /** `s.split(/[...]+/)`: splits on every maximal run of separator
      characters, so pieces between two separators are never empty; a leading
      (trailing) run still leaves an empty first (last) piece. */
  function SplitOnRuns(s: string, seps: set<char>): (r: seq<string>)
    ensures |r| >= 1
    ensures forall i, k :: 0 <= i < |r| && 0 <= k < |r[i]| ==> r[i][k] !in seps
    decreases |s|
  {
    if s == [] then [[]]
    else if s[0] in seps then
      [[]] + SplitOnRuns(DropSeparators(s, seps), seps)
    else
      var rest := SplitOnRuns(s[1..], seps);
      [[s[0]] + rest[0]] + rest[1..]
  }

  /** Between two separator runs a run-split piece is never empty. */
  lemma {:induction false} SplitOnRunsInner(s: string, seps: set<char>)
    ensures forall i :: 0 < i < |SplitOnRuns(s, seps)| - 1 ==> SplitOnRuns(s, seps)[i] != []
    decreases |s|
  {
    if s != [] {
      if s[0] in seps {
        var d := DropSeparators(s, seps);
        SplitOnRunsInner(d, seps);
        if d != [] {
          assert SplitOnRuns(d, seps)[0] != [];
        }
      } else {
        var rest := SplitOnRuns(s[1..], seps);
        SplitOnRunsInner(s[1..], seps);
        var r := SplitOnRuns(s, seps);
        assert r == [[s[0]] + rest[0]] + rest[1..];
        assert |r| == |rest|;
        forall i | 0 < i < |r| - 1 ensures r[i] != [] {
          assert r[i] == rest[i];
        }
      }
    }
  }

  /** A run split starts with an empty piece exactly when the string is empty
      or starts with a separator, and ends with one exactly when the string
      ends with a separator: `"a,".split(/,+/)` is `["a", ""]`. */
  lemma {:induction false} SplitOnRunsEnds(s: string, seps: set<char>)
    ensures SplitOnRuns(s, seps)[0] == [] <==> s == [] || s[0] in seps
    ensures s != [] ==>
      (SplitOnRuns(s, seps)[|SplitOnRuns(s, seps)| - 1] == [] <==> s[|s| - 1] in seps)
    decreases |s|
  {
    if s != [] {
      var r := SplitOnRuns(s, seps);
      if s[0] in seps {
        var d := DropSeparators(s, seps);
        if d != [] {
          SplitOnRunsEnds(d, seps);
          assert d[|d| - 1] == s[|s| - 1];
        }
      } else {
        var t := s[1..];
        var rest := SplitOnRuns(t, seps);
        assert r == [[s[0]] + rest[0]] + rest[1..];
        if t != [] {
          SplitOnRunsEnds(t, seps);
          assert t[|t| - 1] == s[|s| - 1];
          if |rest| == 1 {
            assert t[0] !in seps;
          }
        }
      }
    }
  }

  /** `ps.filter(e => e)` on strings: keeps the non-empty ones, in order. */
  function NonEmpty(ps: seq<string>): (r: seq<string>)
    ensures |r| <= |ps|
    ensures forall t :: t in r ==> t != [] && t in ps
  {
    if ps == [] then []
    else if ps[0] != [] then [ps[0]] + NonEmpty(ps[1..])
    else NonEmpty(ps[1..])
  }

  lemma {:induction false} NonEmptyConcat(a: seq<string>, b: seq<string>)
    ensures NonEmpty(a + b) == NonEmpty(a) + NonEmpty(b)
  {
    if a != [] {
      assert (a + b)[1..] == a[1..] + b;
      NonEmptyConcat(a[1..], b);
    } else {
      assert a + b == b;
    }
  }

  /** A sequence of non-empty strings is kept whole. */
  lemma {:induction false} NonEmptyKeepsAll(ps: seq<string>)
    requires forall i :: 0 <= i < |ps| ==> ps[i] != []
    ensures NonEmpty(ps) == ps
  {
    if ps != [] {
      NonEmptyKeepsAll(ps[1..]);
    }
  }

  /** Dropping a leading separator run only removes empty pieces. */
  lemma {:induction false} NonEmptySplitDrop(t: string, seps: set<char>)
    ensures NonEmpty(Split(t, seps)) == NonEmpty(Split(DropSeparators(t, seps), seps))
    decreases |t|
  {
    if |t| > 0 && t[0] in seps {
      NonEmptySplitDrop(t[1..], seps);
      assert Split(t, seps) == [[]] + Split(t[1..], seps);
    }
  }

  lemma {:induction false} SplitOnRunsAgree(s: string, seps: set<char>)
    ensures SplitOnRuns(s, seps)[0] == Split(s, seps)[0]
    ensures NonEmpty(SplitOnRuns(s, seps)[1..]) == NonEmpty(Split(s, seps)[1..])
    decreases |s|
  {
    if s != [] {
      if s[0] in seps {
        var d := DropSeparators(s, seps);
        var r := SplitOnRuns(d, seps);
        var q := Split(d, seps);
        SplitOnRunsAgree(d, seps);
        assert SplitOnRuns(s, seps)[1..] == r;
        assert Split(s, seps)[1..] == Split(s[1..], seps);
        assert r == [r[0]] + r[1..];
        assert q == [q[0]] + q[1..];
        NonEmptyConcat([r[0]], r[1..]);
        NonEmptyConcat([q[0]], q[1..]);
        NonEmptySplitDrop(s[1..], seps);
        assert DropSeparators(s[1..], seps) == d;
      } else {
        SplitOnRunsAgree(s[1..], seps);
      }
    }
  }

  /** Once empty pieces are dropped, splitting on runs and splitting on
      every single separator give the same pieces. */
  lemma SplitOnRunsNonEmpty(s: string, seps: set<char>)
    ensures NonEmpty(SplitOnRuns(s, seps)) == NonEmpty(Split(s, seps))
  {
    SplitOnRunsAgree(s, seps);
    var r := SplitOnRuns(s, seps);
    var q := Split(s, seps);
    assert r == [r[0]] + r[1..];
    assert q == [q[0]] + q[1..];
    NonEmptyConcat([r[0]], r[1..]);
    NonEmptyConcat([q[0]], q[1..]);
  }

  /** A list whose inner pieces are all non-empty loses at most its first
      and its last piece to the filter. */
  lemma NonEmptyInnerCount(ps: seq<string>)
    requires |ps| >= 2
    requires forall i :: 0 < i < |ps| - 1 ==> ps[i] != []
    ensures |NonEmpty(ps)| ==
      |ps| - (if ps[0] == [] then 1 else 0) - (if ps[|ps| - 1] == [] then 1 else 0)
  {
    var mid := ps[1..|ps| - 1];
    assert ps == [ps[0]] + mid + [ps[|ps| - 1]];
    forall i | 0 <= i < |mid| ensures mid[i] != [] {
      assert mid[i] == ps[i + 1];
    }
    NonEmptyKeepsAll(mid);
    NonEmptyConcat([ps[0]] + mid, [ps[|ps| - 1]]);
    NonEmptyConcat([ps[0]], mid);
    assert [ps[0]][1..] == [];
    assert [ps[|ps| - 1]][1..] == [];
  }

  /** The number of pieces of a run split: one per non-empty piece of the
      single split, plus an empty first piece for an empty string or a
      leading separator and an empty last piece for a trailing separator.
      So `",".split(/,+/)` is `["", ""]`. */
  lemma SplitOnRunsCount(s: string, seps: set<char>)
    ensures |SplitOnRuns(s, seps)| ==
      |NonEmpty(Split(s, seps))| +
      (if s == [] || s[0] in seps then 1 else 0) +
      (if s != [] && s[|s| - 1] in seps then 1 else 0)
  {
    var r := SplitOnRuns(s, seps);
    SplitOnRunsNonEmpty(s, seps);
    SplitOnRunsEnds(s, seps);
    if s == [] {
      assert r == [[]];
    } else if |r| == 1 {
      assert s[0] !in seps;
      assert r[0] != [];
      assert [r[0]][1..] == [];
      assert NonEmpty(r) == [r[0]];
    } else {
      SplitOnRunsInner(s, seps);
      NonEmptyInnerCount(r);
    }
  }
}
