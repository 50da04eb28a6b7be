/** Character classes, searches, decimal formatting and separator joins over
    `string` (a `seq<char>`), as the template generator uses them. */
module Text {

  /** Python 2's `\s` class (no UNICODE flag): space, tab, line feed,
      carriage return, form feed and vertical tab. */
  predicate IsSpace(c: char) {
    c == ' ' || c == '\t' || c == '\n' || c == '\r' || c == '\U{C}' || c == '\U{B}'
  }

  predicate IsDigit(c: char) {
    '0' <= c <= '9'
  }

  /** `w` is a prefix of `t`. */
  predicate StartsWith(t: string, w: string) {
    |w| <= |t| && t[..|w|] == w
  }

  /** `w` is a suffix of `t`. */
  predicate EndsWith(t: string, w: string) {
    |w| <= |t| && t[|t| - |w|..] == w
  }

  /** `w` occurs somewhere in `t` (Python's `w in t`). */
  predicate Occurs(t: string, w: string)
    decreases |t|
  {
    StartsWith(t, w) || (|t| > 0 && Occurs(t[1..], w))
  }

  /** An occurrence in a suffix of `t` is an occurrence in `t`. */
  lemma {:induction false} OccursInSuffix(t: string, k: nat, w: string)
    requires k <= |t|
    requires Occurs(t[k..], w)
    ensures Occurs(t, w)
    decreases k
  {
    if k > 0 {
      assert t[1..][k - 1..] == t[k..];
      OccursInSuffix(t[1..], k - 1, w);
    }
  }

  /** Prepending characters none of which can start `w` creates no occurrence of `w`. */
  lemma {:induction false} NoOccursPrepend(u: string, t: string, w: string)
    requires |w| > 0
    requires forall i :: 0 <= i < |u| ==> u[i] != w[0]
    requires !Occurs(t, w)
    ensures !Occurs(u + t, w)
    decreases |u|
  {
    if |u| > 0 {
      var s := u + t;
      assert s[0] == u[0];
      assert |w| <= |s| ==> s[..|w|][0] == s[0];
      assert !StartsWith(s, w);
      assert s[1..] == u[1..] + t;
      NoOccursPrepend(u[1..], t, w);
    } else {
      assert u + t == t;
    }
  }

  /** Where a nonempty pattern occurs. */
  lemma {:induction false} OccurrenceIndex(t: string, w: string) returns (p: nat)
    requires |w| > 0 && Occurs(t, w)
    ensures p + |w| <= |t| && t[p..p + |w|] == w
    ensures StartsWith(t[p..], w)
    decreases |t|
  {
    if StartsWith(t, w) {
      p := 0;
      assert t[0..] == t;
    } else {
      var q := OccurrenceIndex(t[1..], w);
      p := q + 1;
      assert t[1..][q..q + |w|] == t[p..p + |w|];
      assert t[1..][q..] == t[p..];
    }
  }

  /** A copy of `w` inside `t` is an occurrence. */
  lemma OccursWithin(t: string, p: nat, w: string)
    requires p + |w| <= |t| && t[p..p + |w|] == w
    ensures Occurs(t, w)
  {
    assert t[p..][..|w|] == t[p..p + |w|];
    assert Occurs(t[p..], w);
    OccursInSuffix(t, p, w);
  }

  /** An occurrence stays an occurrence when text is appended. */
  lemma {:induction false} OccursAppend(t: string, u: string, w: string)
    requires Occurs(t, w)
    ensures Occurs(t + u, w)
    decreases |t|
  {
    if StartsWith(t, w) {
      assert (t + u)[..|w|] == t[..|w|];
    } else {
      assert (t + u)[1..] == t[1..] + u;
      OccursAppend(t[1..], u, w);
    }
  }

  /** Where `w` does not occur, no window of `t` equals it. */
  lemma NoOccursAt(t: string, p: nat, w: string)
    requires !Occurs(t, w) && p + |w| <= |t|
    ensures t[p..p + |w|] != w
  {
    if t[p..p + |w|] == w {
      OccursWithin(t, p, w);
    }
  }

  /** Where no suffix starts with `w`, `w` does not occur. */
  lemma NoWindowNoOccurs(t: string, w: string)
    requires |w| > 0
    requires forall p: nat :: p + |w| <= |t| ==> !StartsWith(t[p..], w)
    ensures !Occurs(t, w)
  {
    if Occurs(t, w) {
      var p := OccurrenceIndex(t, w);
    }
  }

  /** Appending all of `w` but its last character, when that character
      occurs nowhere earlier in `w`, creates no occurrence of `w`. */
  lemma NoOccursTail(x: string, w: string)
    requires |w| > 0 && w[|w| - 1] !in w[..|w| - 1]
    requires !Occurs(x, w)
    ensures !Occurs(x + w[..|w| - 1], w)
  {
    var s := x + w[..|w| - 1];
    forall p: nat | p + |w| <= |s|
      ensures !StartsWith(s[p..], w)
    {
      assert s[p..][..|w|] == s[p..p + |w|];
      if p + |w| <= |x| {
        assert s[p..p + |w|] == x[p..p + |w|];
        NoOccursAt(x, p, w);
      } else {
        var q := p + |w| - 1;
        assert s[p..p + |w|][|w| - 1] == w[..|w| - 1][q - |x|];
      }
    }
    NoWindowNoOccurs(s, w);
  }

  /** No occurrence of `w` can overlap a copy of `u`, whatever surrounds it:
      `u`'s first character is not in `w` past its start, `w`'s first
      character is not in `u` past its start, and the two do not begin
      alike. */
  predicate Apart(u: string, w: string) {
    && |u| > 0 && |w| > 0
    && u[0] !in w[1..]
    && w[0] !in u[1..]
    && (u[0] != w[0] || (|u| > 1 && |w| > 1 && u[1] != w[1]))
  }

  /** Putting a copy of `u` between two texts without `w` creates no `w`. */
  lemma NoOccursAround(x: string, u: string, y: string, w: string)
    requires Apart(u, w) && !Occurs(x, w) && !Occurs(y, w)
    ensures !Occurs(x + u + y, w)
  {
    var s := x + u + y;
    var n := |x|;
    var m := n + |u|;
    forall p: nat | p + |w| <= |s|
      ensures !StartsWith(s[p..], w)
    {
      var win := s[p..p + |w|];
      assert s[p..][..|w|] == win;
      if p + |w| <= n {
        assert win == x[p..p + |w|];
        NoOccursAt(x, p, w);
      } else if p >= m {
        assert win == y[p - m..p - m + |w|];
        NoOccursAt(y, p - m, w);
      } else if p < n {
        assert win[n - p] == u[0];
        assert w[n - p] == w[1..][n - p - 1];
      } else if p > n {
        assert win[0] == u[p - n];
        assert u[p - n] == u[1..][p - n - 1];
      } else {
        assert win[0] == u[0];
        if |u| > 1 && |w| > 1 {
          assert win[1] == u[1];
        }
      }
    }
    NoWindowNoOccurs(s, w);
  }

  /** Joining texts without `w` by a separator apart from `w` creates no `w`. */
  lemma {:induction false} NoOccursJoin(parts: seq<string>, sep: string, w: string)
    requires Apart(sep, w)
    requires forall i :: 0 <= i < |parts| ==> !Occurs(parts[i], w)
    ensures !Occurs(Join(parts, sep), w)
    decreases |parts|
  {
    if |parts| == 0 {
      assert !StartsWith("", w);
    } else if |parts| >= 2 {
      NoOccursJoin(parts[1..], sep, w);
      NoOccursAround(parts[0], sep, Join(parts[1..], sep), w);
    }
  }

  lemma ConcatAssoc(a: string, b: string, c: string)
    ensures a + (b + c) == a + b + c
  {
  }

  /** The index of the first `c` at or after `i`, or `|s|` when there is none
      (the end of a line for `c == '\n'`). */
  function FirstFrom(s: string, i: nat, c: char): (m: nat)
    requires i <= |s|
    ensures i <= m <= |s|
    ensures forall k :: i <= k < m ==> s[k] != c
    ensures m < |s| ==> s[m] == c
    decreases |s| - i
  {
    if i == |s| || s[i] == c then i else FirstFrom(s, i + 1, c)
  }

  /** The end of the longest run starting at `i` of whitespace characters
      (`space`) or of non-whitespace characters (`!space`): what a greedy
      `\s+` or `\S+` consumes. */
  function RunEnd(s: string, i: nat, space: bool): (j: nat)
    requires i <= |s|
    ensures i <= j <= |s|
    ensures forall k :: i <= k < j ==> IsSpace(s[k]) == space
    ensures j < |s| ==> IsSpace(s[j]) != space
    decreases |s| - i
  {
    if i == |s| || IsSpace(s[i]) != space then i else RunEnd(s, i + 1, space)
  }

  // ---------------------------------------------------------------------
  // Decimal rendering of a natural number (Python's `"%s" % n`).

  function DigitChar(d: nat): char
    requires d < 10
  {
    (48 + d) as char
  }

  function DigitValue(c: char): nat {
    if IsDigit(c) then c as int - 48 else 0
  }

  /** The decimal digits of `n`, most significant first, without leading zeros. */
  function NatToString(n: nat): (s: string)
    ensures |s| >= 1
    ensures forall i :: 0 <= i < |s| ==> IsDigit(s[i])
    ensures s[0] == '0' <==> n == 0
    ensures n == 0 ==> s == "0"
    decreases n
  {
    if n < 10 then [DigitChar(n)] else NatToString(n / 10) + [DigitChar(n % 10)]
  }

  /** The value of a string of decimal digits (the inverse of `NatToString`). */
  function ParseNat(s: string): nat
    decreases |s|
  {
    if s == [] then 0 else ParseNat(s[..|s| - 1]) * 10 + DigitValue(s[|s| - 1])
  }

  /** Reading back a rendered number gives the number. */
  lemma {:induction false} ParseNatToString(n: nat)
    ensures ParseNat(NatToString(n)) == n
    decreases n
  {
    var s := NatToString(n);
    if n < 10 {
      assert s[..|s| - 1] == [];
    } else {
      ParseNatToString(n / 10);
      assert s[..|s| - 1] == NatToString(n / 10);
      assert DigitValue(s[|s| - 1]) == n % 10;
    }
  }

  // ---------------------------------------------------------------------
  // Separator joins (Python's `sep.join(parts)`) and their inverse.

  /** The parts separated by `sep` (Python's `sep.join(parts)`); the empty
      list joins to the empty string. */
  function Join(parts: seq<string>, sep: string): string
    decreases |parts|
  {
    if |parts| == 0 then ""
    else if |parts| == 1 then parts[0]
    else parts[0] + sep + Join(parts[1..], sep)
  }

  /** The pieces of `s` between occurrences of `sep` (Python's `s.split(sep)`). */
  function Split(s: string, sep: char): (parts: seq<string>)
    ensures |parts| >= 1
    ensures forall i :: 0 <= i < |parts| ==> sep !in parts[i]
    decreases |s|
  {
    if |s| == 0 then [""]
    else if s[0] == sep then [""] + Split(s[1..], sep)
    else
      var rest := Split(s[1..], sep);
      [[s[0]] + rest[0]] + rest[1..]
  }

  lemma {:induction false} SplitNoSep(a: string, sep: char)
    requires sep !in a
    ensures Split(a, sep) == [a]
    decreases |a|
  {
    if |a| > 0 {
      SplitNoSep(a[1..], sep);
      assert [a[0]] + a[1..] == a;
    }
  }

  lemma {:induction false} SplitAtSep(a: string, b: string, sep: char)
    requires sep !in a
    ensures Split(a + [sep] + b, sep) == [a] + Split(b, sep)
    decreases |a|
  {
    var s := a + [sep] + b;
    if |a| == 0 {
      assert s[1..] == b;
    } else {
      assert s[1..] == a[1..] + [sep] + b;
      SplitAtSep(a[1..], b, sep);
      assert [a[0]] + a[1..] == a;
    }
  }

  /** Splitting a join gives the parts back, provided there is at least one
      part and no part contains the separator. */
  lemma {:induction false} SplitJoin(parts: seq<string>, sep: char)
    requires |parts| >= 1
    requires forall i :: 0 <= i < |parts| ==> sep !in parts[i]
    ensures Split(Join(parts, [sep]), sep) == parts
    decreases |parts|
  {
    if |parts| == 1 {
      SplitNoSep(parts[0], sep);
    } else {
      SplitJoin(parts[1..], sep);
      SplitAtSep(parts[0], Join(parts[1..], [sep]), sep);
      assert [parts[0]] + parts[1..] == parts;
    }
  }

}
