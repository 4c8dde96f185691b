/** The few string operations of Python that the reader and the formula
    printer use, on `seq<char>`: `str.replace(pat, "")`, `str.split(sep)`,
    `str.strip()`, slicing `s[n:]`, and `str(n)` for a natural number. */
module Text {

  // ---------------------------------------------------------------------------
  // Removing a pattern: `s.replace(pat, "")`

  /** Python's `s.replace(pat, "")`: one left-to-right scan that deletes every
      non-overlapping occurrence of `pat`; text that only becomes `pat` after a
      deletion is kept. */
  function RemoveAll(s: string, pat: string): (r: string)
    requires |pat| > 0
    ensures |r| <= |s|
    decreases |s|
  {
    if |s| < |pat| then s
    else if s[..|pat|] == pat then RemoveAll(s[|pat|..], pat)
    else [s[0]] + RemoveAll(s[1..], pat)
  }

  /** `pat` occurs in `s` starting at position `k`. */
  predicate OccursAt(s: string, pat: string, k: nat) {
    k + |pat| <= |s| && s[k..k + |pat|] == pat
  }

  /** `pat` does not occur in `s`. */
  ghost predicate Avoids(s: string, pat: string) {
    forall k: nat :: !OccursAt(s, pat, k)
  }

  /** A string without the first character of `pat` does not contain `pat`. */
  lemma MissingFirstChar(s: string, pat: string)
    requires |pat| > 0 && pat[0] !in s
    ensures Avoids(s, pat)
  {
    forall k: nat
      ensures !OccursAt(s, pat, k)
    {
      if k + |pat| <= |s| {
        assert s[k..k + |pat|][0] == s[k] && s[k] in s;
      }
    }
  }

  /** Removing a pattern that does not occur leaves the string as it is. */
  lemma {:induction false} RemoveAbsent(s: string, pat: string)
    requires |pat| > 0 && Avoids(s, pat)
    ensures RemoveAll(s, pat) == s
    decreases |s|
  {
    if |s| >= |pat| {
      assert !OccursAt(s, pat, 0);
      forall k: nat
        ensures !OccursAt(s[1..], pat, k)
      {
        assert !OccursAt(s, pat, k + 1);
        if k + |pat| <= |s[1..]| {
          assert s[1..][k..k + |pat|] == s[k + 1..k + 1 + |pat|];
        }
      }
      RemoveAbsent(s[1..], pat);
      assert s == [s[0]] + s[1..];
    }
  }

  /** A single character: the characters that are not `c`, in order. */
  function Without(s: string, c: char): (r: string)
    ensures forall k | 0 <= k < |r| :: r[k] != c
    ensures forall x | x != c :: multiset(r)[x] == multiset(s)[x]
  {
    if s == [] then []
    else
      assert s == [s[0]] + s[1..];
      (if s[0] == c then [] else [s[0]]) + Without(s[1..], c)
  }

  lemma {:induction false} RemoveCharIsWithout(s: string, c: char)
    ensures RemoveAll(s, [c]) == Without(s, c)
  {
    if s != [] {
      RemoveCharIsWithout(s[1..], c);
    }
  }

  // ---------------------------------------------------------------------------
  // `cleanLine` of tools/reader.py

  predicate Blank(c: char) {
    c == ' ' || c == ';' || c == '\n'
  }

  /** The characters of `s` that are not a space, ';' or a line break, in order. */
  function KeepNonBlank(s: string): (r: string)
    ensures forall k | 0 <= k < |r| :: !Blank(r[k])
  {
    if s == [] then [] else (if Blank(s[0]) then [] else [s[0]]) + KeepNonBlank(s[1..])
  }

  /** `cleanLine(line)`: `line.replace(" ", "").replace(";", "").replace("\n", "")`. */
  function CleanLine(s: string): (r: string) {
    RemoveAll(RemoveAll(RemoveAll(s, " "), ";"), "\n")
  }

  lemma WithoutCons(c0: char, w: string, c: char)
    ensures Without([c0] + w, c) == (if c0 == c then [] else [c0]) + Without(w, c)
  {
    assert ([c0] + w)[1..] == w;
  }

  lemma {:induction false} WithoutThreeIsKeep(s: string)
    ensures Without(Without(Without(s, ' '), ';'), '\n') == KeepNonBlank(s)
  {
    if s != [] {
      WithoutThreeIsKeep(s[1..]);
      var w1 := Without(s[1..], ' ');
      var w2 := Without(w1, ';');
      WithoutCons(s[0], s[1..], ' ');
      assert s == [s[0]] + s[1..];
      if s[0] != ' ' {
        WithoutCons(s[0], w1, ';');
        assert Without(Without(s, ' '), ';') == (if s[0] == ';' then [] else [s[0]]) + w2;
        if s[0] != ';' {
          WithoutCons(s[0], w2, '\n');
          assert Without(Without(Without(s, ' '), ';'), '\n') == (if s[0] == '\n' then [] else [s[0]]) + Without(w2, '\n');
        } else {
          assert Without(Without(s, ' '), ';') == w2;
          assert KeepNonBlank(s) == KeepNonBlank(s[1..]);
        }
      } else {
        assert Without(s, ' ') == w1;
        assert KeepNonBlank(s) == KeepNonBlank(s[1..]);
      }
    }
  }

  /** `cleanLine` deletes exactly the spaces, ';' and line breaks and keeps the
      other characters in order; cleaning twice is cleaning once. */
  lemma CleanLineKeepsTheRest(s: string)
    ensures CleanLine(s) == KeepNonBlank(s)
    ensures forall k | 0 <= k < |CleanLine(s)| :: !Blank(CleanLine(s)[k])
    ensures CleanLine(CleanLine(s)) == CleanLine(s)
  {
    RemoveCharIsWithout(s, ' ');
    RemoveCharIsWithout(Without(s, ' '), ';');
    RemoveCharIsWithout(Without(Without(s, ' '), ';'), '\n');
    WithoutThreeIsKeep(s);
    var r := CleanLine(s);
    RemoveCharIsWithout(r, ' ');
    RemoveCharIsWithout(Without(r, ' '), ';');
    RemoveCharIsWithout(Without(Without(r, ' '), ';'), '\n');
    WithoutThreeIsKeep(r);
    KeepNonBlankOfClean(r);
  }

  lemma {:induction false} KeepNonBlankOfClean(s: string)
    requires forall k | 0 <= k < |s| :: !Blank(s[k])
    ensures KeepNonBlank(s) == s
  {
    if s != [] {
      KeepNonBlankOfClean(s[1..]);
      assert s == [s[0]] + s[1..];
    }
  }

  // ---------------------------------------------------------------------------
  // `s.split(sep)` and its inverse

  /** Python's `s.split(sep)` for a non-empty separator: the pieces between
      the non-overlapping occurrences of `sep`, found left to right. There is
      always at least one piece; the empty string gives one empty piece. */
  function Split(s: string, sep: string): (r: seq<string>)
    requires |sep| > 0
    ensures |r| >= 1
    decreases |s|
  {
    if |s| < |sep| then [s]
    else if s[..|sep|] == sep then [[]] + Split(s[|sep|..], sep)
    else
      var rest := Split(s[1..], sep);
      [[s[0]] + rest[0]] + rest[1..]
  }

  /** `sep.join(pieces)`. */
  function Join(pieces: seq<string>, sep: string): string
    requires |pieces| >= 1
    decreases |pieces|
  {
    if |pieces| == 1 then pieces[0] else pieces[0] + sep + Join(pieces[1..], sep)
  }

  /** Prepending a character to the first piece prepends it to the join. */
  lemma JoinFirst(c: char, pieces: seq<string>, sep: string)
    requires |pieces| >= 1
    ensures Join([[c] + pieces[0]] + pieces[1..], sep) == [c] + Join(pieces, sep)
  {
    var r := [[c] + pieces[0]] + pieces[1..];
    if |pieces| > 1 {
      assert r[1..] == pieces[1..];
      assert ([c] + pieces[0]) + sep + Join(pieces[1..], sep) == [c] + (pieces[0] + sep + Join(pieces[1..], sep));
    }
  }

  /** Joining the pieces with the separator gives back the string. */
  lemma {:induction false} JoinSplit(s: string, sep: string)
    requires |sep| > 0
    ensures Join(Split(s, sep), sep) == s
    decreases |s|
  {
    if |s| < |sep| {
    } else if s[..|sep|] == sep {
      var tail := s[|sep|..];
      var rest := Split(tail, sep);
      JoinSplit(tail, sep);
      JoinEmptyFirst(rest, sep);
      assert s == sep + tail;
    } else {
      var rest := Split(s[1..], sep);
      JoinSplit(s[1..], sep);
      JoinFirst(s[0], rest, sep);
      assert s == [s[0]] + s[1..];
    }
  }

  /** An empty first piece leaves just the separator in front. */
  lemma JoinEmptyFirst(pieces: seq<string>, sep: string)
    requires |pieces| >= 1
    ensures Join([[]] + pieces, sep) == sep + Join(pieces, sep)
  {
    assert ([[]] + pieces)[1..] == pieces;
  }

  /** A string without the separator is one piece. */
  lemma {:induction false} SplitAbsent(s: string, sep: string)
    requires |sep| > 0 && Avoids(s, sep)
    ensures Split(s, sep) == [s]
    decreases |s|
  {
    if |s| >= |sep| {
      assert !OccursAt(s, sep, 0);
      forall k: nat
        ensures !OccursAt(s[1..], sep, k)
      {
        assert !OccursAt(s, sep, k + 1);
        if k + |sep| <= |s[1..]| {
          assert s[1..][k..k + |sep|] == s[k + 1..k + 1 + |sep|];
        }
      }
      SplitAbsent(s[1..], sep);
      assert s == [s[0]] + s[1..];
    }
  }

  /** No piece of a split contains the separator. */
  lemma {:induction false} SplitPiecesAvoid(s: string, sep: string)
    requires |sep| > 0
    ensures forall i | 0 <= i < |Split(s, sep)| :: Avoids(Split(s, sep)[i], sep)
    decreases |s|
  {
    if |s| < |sep| {
      assert Avoids(s, sep);
    } else if s[..|sep|] == sep {
      SplitPiecesAvoid(s[|sep|..], sep);
      var r := Split(s, sep);
      assert r == [[]] + Split(s[|sep|..], sep);
      forall i | 0 <= i < |r|
        ensures Avoids(r[i], sep)
      {
        if i > 0 {
          assert r[i] == Split(s[|sep|..], sep)[i - 1];
        }
      }
    } else {
      var rest := Split(s[1..], sep);
      SplitPiecesAvoid(s[1..], sep);
      JoinSplit(s[1..], sep);
      var p := [s[0]] + rest[0];
      // `p` is a prefix of `s`, so an occurrence at 0 would be one in `s`
      assert IsPrefix(rest[0], s[1..]) by { JoinPrefix(rest, sep); }
      forall k: nat
        ensures !OccursAt(p, sep, k)
      {
        if k == 0 {
          if |sep| <= |p| {
            assert p[..|sep|] == s[..|sep|];
          }
        } else {
          assert !OccursAt(rest[0], sep, k - 1);
          if k + |sep| <= |p| {
            assert p[k..k + |sep|] == rest[0][k - 1..k - 1 + |sep|];
          }
        }
      }
      var r := [p] + rest[1..];
      forall i | 0 <= i < |r|
        ensures Avoids(r[i], sep)
      {
        if i > 0 {
          assert r[i] == rest[i];
        }
      }
    }
  }

  predicate IsPrefix(a: string, b: string) {
    |a| <= |b| && b[..|a|] == a
  }

  lemma JoinPrefix(pieces: seq<string>, sep: string)
    requires |pieces| >= 1
    ensures IsPrefix(pieces[0], Join(pieces, sep))
  {
  }

  // ---------------------------------------------------------------------------
  // `s.strip()` and `s[n:]`

  /** The characters `str.strip()` removes: those for which `str.isspace()`
      holds, namely U+0009..U+000D, U+001C..U+001F, the space, U+0085, U+00A0,
      U+1680, U+2000..U+200A, U+2028, U+2029, U+202F, U+205F and U+3000. */
  predicate Whitespace(c: char) {
    || '\U{0009}' <= c <= '\U{000D}'
    || '\U{001C}' <= c <= '\U{0020}'
    || c == '\U{0085}' || c == '\U{00A0}' || c == '\U{1680}'
    || '\U{2000}' <= c <= '\U{200A}'
    || c == '\U{2028}' || c == '\U{2029}' || c == '\U{202F}' || c == '\U{205F}' || c == '\U{3000}'
  }

  /** How many whitespace characters `s` starts with. */
  function Leading(s: string): (n: nat)
    ensures n <= |s| && (n == |s| || !Whitespace(s[n]))
    ensures forall k | 0 <= k < n :: Whitespace(s[k])
  {
    if s != [] && Whitespace(s[0]) then
      var n := 1 + Leading(s[1..]);
      assert forall k | 1 <= k < n :: s[k] == s[1..][k - 1];
      n
    else 0
  }

  /** The length of `s` without the whitespace it ends with. */
  function Kept(s: string): (n: nat)
    ensures n <= |s| && (n == 0 || !Whitespace(s[n - 1]))
    ensures forall k | n <= k < |s| :: Whitespace(s[k])
  {
    if s != [] && Whitespace(s[|s| - 1]) then Kept(s[..|s| - 1]) else |s|
  }

  /** `s.strip()`: `s` without its leading and trailing whitespace. */
  function Strip(s: string): (r: string) {
    var l := s[Leading(s)..];
    l[..Kept(l)]
  }

  /** `r` is `s[i..j]`, and everything of `s` outside `i..j` is whitespace. */
  predicate PaddedBy(s: string, r: string, i: nat, j: nat) {
    && i <= j <= |s|
    && r == s[i..j]
    && (forall k | 0 <= k < i :: Whitespace(s[k]))
    && (forall k | j <= k < |s| :: Whitespace(s[k]))
  }

  /** The stripped string sits inside `s` between two runs of whitespace, and
      neither starts nor ends with whitespace. */
  lemma StripIsInfix(s: string)
    ensures exists i: nat, j: nat :: PaddedBy(s, Strip(s), i, j)
    ensures Strip(s) == [] || (!Whitespace(Strip(s)[0]) && !Whitespace(Strip(s)[|Strip(s)| - 1]))
  {
    var i := Leading(s);
    var l := s[i..];
    var j := i + Kept(l);
    forall k | j <= k < |s|
      ensures Whitespace(s[k])
    {
      assert s[k] == l[k - i];
    }
    assert PaddedBy(s, Strip(s), i, j);
  }

  /** Python's slice `s[n:]`: empty once `n` reaches the length. */
  function Drop(s: string, n: nat): (r: string)
    ensures |r| == if n <= |s| then |s| - n else 0
    ensures forall k | 0 <= k < |r| :: r[k] == s[n + k]
  {
    if n <= |s| then s[n..] else []
  }

  /** What the slice leaves is the rest after the first n characters: they
      rejoin to `s`, and past the end nothing is left. */
  lemma DropRejoins(s: string, n: nat)
    ensures n <= |s| ==> s[..n] + Drop(s, n) == s
    ensures n <= |s| ==> IsPrefix(s[..n], s) && |Drop(s, n)| + n == |s|
    ensures |s| <= n ==> Drop(s, n) == []
  {
  }

  // ---------------------------------------------------------------------------
  // `str(n)` for a natural number, and reading it back

  function Digit(d: nat): char
    requires d < 10
  {
    "0123456789"[d]
  }

  predicate IsDigit(c: char) {
    '0' <= c <= '9'
  }

  function DigitValue(c: char): nat
    requires IsDigit(c)
  {
    (c - '0') as nat
  }

  /** Python's `str(n)` for `n >= 0`: decimal digits, no leading zero. */
  function NatToString(n: nat): (r: string)
    ensures |r| >= 1 && forall k | 0 <= k < |r| :: IsDigit(r[k])
    ensures |r| > 1 ==> r[0] != '0'
  {
    if n < 10 then [Digit(n)] else NatToString(n / 10) + [Digit(n % 10)]
  }

  /** The value of a string of decimal digits. */
  function DigitsValue(s: string): nat
    requires forall k | 0 <= k < |s| :: IsDigit(s[k])
  {
    if s == [] then 0 else 10 * DigitsValue(s[..|s| - 1]) + DigitValue(s[|s| - 1])
  }

  /** Reading back the decimal rendering gives the number. */
  lemma {:induction false} NatToStringRoundTrip(n: nat)
    ensures DigitsValue(NatToString(n)) == n
  {
    var r := NatToString(n);
    if n < 10 {
      assert r[..0] == [];
    } else {
      NatToStringRoundTrip(n / 10);
      assert r[..|r| - 1] == NatToString(n / 10);
    }
  }
}
