/** The regular-expression substitutions and literal replacements that the
    extension sanitisers apply, written as explicit scanners with Python's
    `re` semantics: a pattern is tried at each position from the left, its
    greedy quantifiers backtrack from the longest choice, and `re.sub`
    replaces non-overlapping matches left to right (as `str.replace` does for
    a literal). */
module Rewrite {
  import opened Opt
  import opened Text

  /** The substitution rules of the sanitisers. */
  datatype Rule =
    | PipedLink    // `[[`, anything, `|`, a label, `]]` on one line: becomes the label
    | SimpleLink   // `[[`, a target, `]]` on one line: becomes the target
    | ExternalLink // `[`, non-blanks, blanks, a label without `]`, `]`: becomes the label
    | AndWord      // a whitespace character, `and`, a whitespace character: becomes ", "
    | Literal(pattern: string, replacement: string)

  predicate ValidRule(rule: Rule) {
    rule.Literal? ==> |rule.pattern| > 0
  }

  /** One match: the index just past it and the text that replaces it. */
  datatype Hit = Hit(end: nat, text: string)

  /** No character of `a` occurs in `b`. */
  predicate Disjoint(a: string, b: string) {
    forall i, j :: 0 <= i < |a| && 0 <= j < |b| ==> a[i] != b[j]
  }

  // ---------------------------------------------------------------------
  // `[url label]` links.

  /** The boundaries of a bracketed link starting at some `p`: the url is
      `s[p+1..urlEnd]`, the whitespace `s[urlEnd..labelStart]`, the label
      `s[labelStart..labelEnd]`, and `s[labelEnd]` is the closing bracket. */
  datatype LinkSpan = LinkSpan(urlEnd: nat, labelStart: nat, labelEnd: nat)

  /** `sp` is one way the pattern "`[`, one or more non-whitespace characters,
      one or more whitespace characters, one or more characters other than
      `]`, then `]`" matches `s` at `p`. */
  predicate LinkAt(s: string, p: nat, sp: LinkSpan) {
    && p + 1 < sp.urlEnd < sp.labelStart < sp.labelEnd < |s|
    && s[p] == '['
    && (forall k :: p + 1 <= k < sp.urlEnd ==> !IsSpace(s[k]))
    && (forall k :: sp.urlEnd <= k < sp.labelStart ==> IsSpace(s[k]))
    && (forall k :: sp.labelStart <= k < sp.labelEnd ==> s[k] != ']')
    && s[sp.labelEnd] == ']'
  }

  /** Among the ways to match, the one greedy backtracking settles on: the
      whitespace run is taken whole unless it has to give its last character
      to the label. */
  predicate Greedy(s: string, sp: LinkSpan)
    requires sp.labelStart < |s|
  {
    !IsSpace(s[sp.labelStart]) || sp.labelEnd == sp.labelStart + 1
  }

  /** The match of the bracketed-link pattern at `p`, if there is one. */
  function BracketLinkAt(s: string, p: nat): (m: Option<LinkSpan>)
    ensures m.Some? ==> LinkAt(s, p, m.value) && Greedy(s, m.value)
  {
    BracketScan(s, p)
  }

  /** The scan behind `BracketLinkAt`: the longest url, the longest blank
      run, then the label up to the first `]`, with the blank run giving back
      one character when the label would otherwise be empty. */
  function BracketScan(s: string, p: nat): Option<LinkSpan> {
    if p < |s| && s[p] == '[' then
      var j := RunEnd(s, p + 1, false);
      var k := RunEnd(s, j, true);
      if j == p + 1 || k == j then None
      else
        var m := FirstFrom(s, k, ']');
        if k < m < |s| then Some(LinkSpan(j, k, m))
        else if m == k < |s| && k - j >= 2 then Some(LinkSpan(j, k - 1, k))
        else None
    else None
  }

  /** Whenever the pattern can match at `p`, the scanner finds a match. */
  lemma BracketLinkComplete(s: string, p: nat, sp: LinkSpan)
    requires LinkAt(s, p, sp)
    ensures BracketLinkAt(s, p).Some?
  {
    assert IsSpace(s[sp.urlEnd]);
    RunEndIs(s, p + 1, false, sp.urlEnd);
    var k := RunEnd(s, sp.urlEnd, true);
    RunEndAtLeast(s, sp.urlEnd, true, sp.labelStart);
    RunEndAtMost(s, sp.urlEnd, true, sp.labelEnd);
    FirstFromAtLeast(s, k, ']', sp.labelEnd);
    FirstFromAtMost(s, k, ']', sp.labelEnd);
  }

  /** The greedy match is the scanner's answer, so it is unique. */
  lemma GreedyLinkScanned(s: string, p: nat, sp: LinkSpan)
    requires LinkAt(s, p, sp) && Greedy(s, sp)
    ensures BracketLinkAt(s, p) == Some(sp)
  {
    assert IsSpace(s[sp.urlEnd]);
    RunEndIs(s, p + 1, false, sp.urlEnd);
    if IsSpace(s[sp.labelStart]) {
      ScannedSpaceLabel(s, p, sp);
    } else {
      ScannedPlainLabel(s, p, sp);
    }
  }

  /** The scanner on a match whose label is one blank: the blank run is
      followed by `]`, so it gives its last character to the label. */
  lemma ScannedSpaceLabel(s: string, p: nat, sp: LinkSpan)
    requires LinkAt(s, p, sp) && Greedy(s, sp) && IsSpace(s[sp.labelStart])
    requires RunEnd(s, p + 1, false) == sp.urlEnd
    ensures BracketLinkAt(s, p) == Some(sp)
  {
    assert s[sp.labelStart + 1] == ']';
    RunEndIs(s, sp.urlEnd, true, sp.labelStart + 1);
    assert FirstFrom(s, sp.labelStart + 1, ']') == sp.labelStart + 1;
  }

  /** The scanner on a match whose label starts with a non-blank: the blank
      run ends where the label starts, and the label at the first `]`. */
  lemma ScannedPlainLabel(s: string, p: nat, sp: LinkSpan)
    requires LinkAt(s, p, sp) && !IsSpace(s[sp.labelStart])
    requires RunEnd(s, p + 1, false) == sp.urlEnd
    ensures BracketLinkAt(s, p) == Some(sp)
  {
    RunEndIs(s, sp.urlEnd, true, sp.labelStart);
    FirstFromIs(s, sp.labelStart, ']', sp.labelEnd);
  }

  /** Every way to match takes the url up to the first whitespace. */
  lemma LinkUrlForced(s: string, p: nat, sp: LinkSpan)
    requires LinkAt(s, p, sp)
    ensures sp.urlEnd == RunEnd(s, p + 1, false)
  {
    assert IsSpace(s[sp.urlEnd]);
    RunEndIs(s, p + 1, false, sp.urlEnd);
  }

  lemma GreedyLinkUnique(s: string, p: nat, a: LinkSpan, b: LinkSpan)
    requires LinkAt(s, p, a) && Greedy(s, a)
    requires LinkAt(s, p, b) && Greedy(s, b)
    ensures a == b
  {
    GreedyLinkScanned(s, p, a);
    GreedyLinkScanned(s, p, b);
  }

  // Where runs and searches end.

  lemma RunEndIs(s: string, i: nat, space: bool, j: nat)
    requires i <= j <= |s|
    requires forall k :: i <= k < j ==> IsSpace(s[k]) == space
    requires j < |s| ==> IsSpace(s[j]) != space
    ensures RunEnd(s, i, space) == j
  {
    RunEndAtLeast(s, i, space, j);
  }

  lemma {:induction false} RunEndAtLeast(s: string, i: nat, space: bool, j: nat)
    requires i <= j <= |s|
    requires forall k :: i <= k < j ==> IsSpace(s[k]) == space
    ensures RunEnd(s, i, space) >= j
    decreases j - i
  {
    if i < j {
      RunEndAtLeast(s, i + 1, space, j);
    }
  }

  lemma RunEndAtMost(s: string, i: nat, space: bool, j: nat)
    requires i <= j < |s| && IsSpace(s[j]) != space
    ensures RunEnd(s, i, space) <= j
  {
  }

  lemma FirstFromIs(s: string, i: nat, c: char, j: nat)
    requires i <= j < |s| && s[j] == c
    requires forall k :: i <= k < j ==> s[k] != c
    ensures FirstFrom(s, i, c) == j
  {
    FirstFromAtLeast(s, i, c, j);
  }

  lemma {:induction false} FirstFromAtLeast(s: string, i: nat, c: char, j: nat)
    requires i <= j <= |s|
    requires forall k :: i <= k < j ==> s[k] != c
    ensures FirstFrom(s, i, c) >= j
    decreases j - i
  {
    if i < j {
      FirstFromAtLeast(s, i + 1, c, j);
    }
  }

  lemma FirstFromAtMost(s: string, i: nat, c: char, j: nat)
    requires i <= j < |s| && s[j] == c
    ensures FirstFrom(s, i, c) <= j
  {
  }

  // ---------------------------------------------------------------------
  // `[[target|label]]` and `[[target]]` wiki links. In these patterns `.*`
  // never crosses a line feed, and the greedy `.*` reaches as far right as
  // the line allows.

  /** A `]]` starts at `b`. */
  predicate ClosesAt(s: string, b: nat) {
    b + 1 < |s| && s[b] == ']' && s[b + 1] == ']'
  }

  /** The last `]]` that lies inside `s[lo..hi]`. */
  function LastClose(s: string, lo: nat, hi: nat): (r: Option<nat>)
    requires lo <= hi <= |s|
    ensures r.Some? ==> lo <= r.value && r.value + 2 <= hi && ClosesAt(s, r.value)
    ensures r.Some? ==> forall b :: r.value < b && b + 2 <= hi ==> !ClosesAt(s, b)
    ensures r.None? ==> forall b :: lo <= b && b + 2 <= hi ==> !ClosesAt(s, b)
    decreases hi - lo
  {
    if hi < lo + 2 then None
    else if ClosesAt(s, hi - 2) then Some(hi - 2)
    else LastClose(s, lo, hi - 1)
  }

  /** The last `c` inside `s[lo..hi]`. */
  function LastBefore(s: string, lo: nat, hi: nat, c: char): (r: Option<nat>)
    requires lo <= hi <= |s|
    ensures r.Some? ==> lo <= r.value < hi && s[r.value] == c
    ensures r.Some? ==> forall k :: r.value < k < hi ==> s[k] != c
    ensures r.None? ==> forall k :: lo <= k < hi ==> s[k] != c
    decreases hi - lo
  {
    if hi == lo then None
    else if s[hi - 1] == c then Some(hi - 1)
    else LastBefore(s, lo, hi - 1, c)
  }

  /** `s[p..b+2]` lies on one line. */
  predicate OneLine(s: string, p: nat, b: nat)
    requires b + 2 <= |s|
  {
    forall k :: p <= k < b + 2 ==> s[k] != '\n'
  }

  /** One way the piped-link pattern matches at `p`: `[[`, anything, the pipe
      at `a`, the label `s[a+1..b]`, and `]]` at `b`, all on one line. */
  predicate PipedAt(s: string, p: nat, a: nat, b: nat) {
    && p + 2 <= a < b && b + 2 <= |s|
    && s[p] == '[' && s[p + 1] == '['
    && s[a] == '|' && ClosesAt(s, b)
    && OneLine(s, p, b)
  }

  /** One way the simple-link pattern matches at `p`: `[[`, the target
      `s[p+2..b]`, and `]]` at `b`, all on one line. */
  predicate SimpleAt(s: string, p: nat, b: nat) {
    && p + 2 <= b && b + 2 <= |s|
    && s[p] == '[' && s[p + 1] == '['
    && ClosesAt(s, b)
    && OneLine(s, p, b)
  }

  /** The piped-link match at `p`: the greedy choice takes the last `]]` on
      the line and the last pipe before it, so it dominates every other way
      to match. */
  function PipedLinkAt(s: string, p: nat): (m: Option<(nat, nat)>)
    ensures m.Some? ==> PipedAt(s, p, m.value.0, m.value.1)
    ensures m.Some? ==> forall a: nat, b: nat :: PipedAt(s, p, a, b) ==> a <= m.value.0 && b <= m.value.1
    ensures m.None? ==> forall a: nat, b: nat :: !PipedAt(s, p, a, b)
  {
    if p + 1 < |s| && s[p] == '[' && s[p + 1] == '[' then
      var e := FirstFrom(s, p + 2, '\n');
      match LastClose(s, p + 2, e)
      case None => None
      case Some(b) =>
        match LastBefore(s, p + 2, b, '|')
        case None => None
        case Some(a) => Some((a, b))
    else None
  }

  /** The simple-link match at `p`: the last `]]` on the line. */
  function SimpleLinkAt(s: string, p: nat): (m: Option<nat>)
    ensures m.Some? ==> SimpleAt(s, p, m.value)
    ensures m.Some? ==> forall b: nat :: SimpleAt(s, p, b) ==> b <= m.value
    ensures m.None? ==> forall b: nat :: !SimpleAt(s, p, b)
  {
    if p + 1 < |s| && s[p] == '[' && s[p + 1] == '[' then
      LastClose(s, p + 2, FirstFrom(s, p + 2, '\n'))
    else None
  }

  // ---------------------------------------------------------------------
  // Substitution.

  /** The match of `rule` at `p`, with its replacement text. */
  function MatchAt(rule: Rule, s: string, p: nat): (h: Option<Hit>)
    requires ValidRule(rule) && p < |s|
    ensures h.Some? ==> p < h.value.end <= |s|
  {
    if Local(rule) then LocalMatchAt(rule, s, p) else LinkMatchAt(rule, s, p)
  }

  /** The match of one of the three link rules at `p`. */
  function LinkMatchAt(rule: Rule, s: string, p: nat): (h: Option<Hit>)
    requires ValidRule(rule) && !Local(rule) && p < |s|
    ensures h.Some? ==> p < h.value.end <= |s|
  {
    match rule
    case PipedLink =>
      (match PipedLinkAt(s, p)
       case Some(ab) => Some(Hit(ab.1 + 2, s[ab.0 + 1..ab.1]))
       case None => None)
    case SimpleLink =>
      (match SimpleLinkAt(s, p)
       case Some(b) => Some(Hit(b + 2, s[p + 2..b]))
       case None => None)
    case ExternalLink =>
      (match BracketLinkAt(s, p)
       case Some(sp) => Some(Hit(sp.labelEnd + 1, s[sp.labelStart..sp.labelEnd]))
       case None => None)
  }

  /** The match of the ` and ` rule or of a literal at `p`. */
  function LocalMatchAt(rule: Rule, s: string, p: nat): (h: Option<Hit>)
    requires ValidRule(rule) && Local(rule) && p < |s|
    ensures h.Some? ==> p < h.value.end <= |s|
  {
    match rule
    case AndWord =>
      if p + 5 <= |s| && IsSpace(s[p]) && s[p + 1] == 'a' && s[p + 2] == 'n' && s[p + 3] == 'd'
         && IsSpace(s[p + 4])
      then Some(Hit(p + 5, ", "))
      else None
    case Literal(pat, rep) =>
      if StartsWith(s[p..], pat) then Some(Hit(p + |pat|, rep)) else None
  }

  /** `re.sub(rule, s)` from position `p` on. */
  function SubFrom(rule: Rule, s: string, p: nat): string
    requires ValidRule(rule) && p <= |s|
    decreases |s| - p
  {
    if p == |s| then ""
    else
      match MatchAt(rule, s, p)
      case Some(h) => h.text + SubFrom(rule, s, h.end)
      case None => [s[p]] + SubFrom(rule, s, p + 1)
  }

  function Sub(rule: Rule, s: string): string
    requires ValidRule(rule)
  {
    SubFrom(rule, s, 0)
  }

  /** `s.replace(pat, rep)`. */
  function ReplaceAll(s: string, pat: string, rep: string): string
    requires |pat| > 0
  {
    Sub(Literal(pat, rep), s)
  }

  /** `rule` matches nowhere in `s`. */
  predicate NoMatch(rule: Rule, s: string)
    requires ValidRule(rule)
  {
    forall p :: 0 <= p < |s| ==> MatchAt(rule, s, p).None?
  }

  // ---------------------------------------------------------------------
  // Properties of substitution.

  lemma {:induction false} SubFromIdentity(rule: Rule, s: string, p: nat)
    requires ValidRule(rule) && p <= |s|
    requires forall q :: p <= q < |s| ==> MatchAt(rule, s, q).None?
    ensures SubFrom(rule, s, p) == s[p..]
    decreases |s| - p
  {
    if p < |s| {
      SubFromIdentity(rule, s, p + 1);
      assert s[p..] == [s[p]] + s[p + 1..];
    }
  }

  /** Positions where the rule does not match are copied through. */
  lemma {:induction false} SubFromSkip(rule: Rule, s: string, p: nat, q: nat)
    requires ValidRule(rule) && p <= q <= |s|
    requires forall k :: p <= k < q ==> MatchAt(rule, s, k).None?
    ensures SubFrom(rule, s, p) == s[p..q] + SubFrom(rule, s, q)
    decreases q - p
  {
    if p < q {
      SubFromCopy(rule, s, p);
      SubFromSkip(rule, s, p + 1, q);
      SliceCons(s, p, q, SubFrom(rule, s, q));
    }
  }

  /** A slice followed by more text is its first character followed by
      the rest of the slice and that text. */
  lemma SliceCons(s: string, p: nat, q: nat, c: string)
    requires p < q <= |s|
    ensures s[p..q] + c == [s[p]] + (s[p + 1..q] + c)
  {
    assert s[p..q] == [s[p]] + s[p + 1..q];
    ConcatAssoc([s[p]], s[p + 1..q], c);
  }

  /** A position where the rule does not match is copied. */
  lemma SubFromCopy(rule: Rule, s: string, p: nat)
    requires ValidRule(rule) && p < |s| && MatchAt(rule, s, p).None?
    ensures SubFrom(rule, s, p) == [s[p]] + SubFrom(rule, s, p + 1)
  {
  }

  /** Where the rule matches nowhere, substitution leaves the text alone. */
  lemma SubIdentity(rule: Rule, s: string)
    requires ValidRule(rule) && NoMatch(rule, s)
    ensures Sub(rule, s) == s
  {
    SubFromIdentity(rule, s, 0);
  }

  /** The three link rules need a `[` to match. */
  lemma NoBracketNoLink(rule: Rule, s: string)
    requires rule == PipedLink || rule == SimpleLink || rule == ExternalLink
    requires '[' !in s
    ensures NoMatch(rule, s)
  {
    forall p | 0 <= p < |s|
      ensures MatchAt(rule, s, p).None?
    {
      assert s[p] in s;
    }
  }

  /** A literal rule matches nowhere exactly when its pattern does not occur. */
  lemma LiteralNoMatch(s: string, pat: string, rep: string)
    requires |pat| > 0
    ensures NoMatch(Literal(pat, rep), s) <==> !Occurs(s, pat)
  {
    if Occurs(s, pat) {
      var p := OccurrenceIndex(s, pat);
      assert MatchAt(Literal(pat, rep), s, p).Some?;
    } else {
      forall p | 0 <= p < |s|
        ensures MatchAt(Literal(pat, rep), s, p).None?
      {
        if StartsWith(s[p..], pat) {
          assert Occurs(s[p..], pat);
          OccursInSuffix(s, p, pat);
        }
      }
    }
  }

  /** Replacing a pattern that does not occur changes nothing. */
  lemma ReplaceAbsent(s: string, pat: string, rep: string)
    requires |pat| > 0
    ensures !Occurs(s, pat) ==> ReplaceAll(s, pat, rep) == s
  {
    LiteralNoMatch(s, pat, rep);
    if !Occurs(s, pat) {
      SubIdentity(Literal(pat, rep), s);
    }
  }

  /** A prefix of the output that avoids the first character of the
      replacement was copied unchanged from the input. */
  lemma {:induction false} ReplacedPrefix(s: string, pat: string, rep: string, p: nat, w: string)
    requires |pat| > 0 && |rep| > 0 && p <= |s|
    requires forall i :: 0 <= i < |w| ==> w[i] != rep[0]
    ensures StartsWith(SubFrom(Literal(pat, rep), s, p), w) ==> StartsWith(s[p..], w)
    decreases |w|
  {
    var rule := Literal(pat, rep);
    if |w| > 0 && p < |s| {
      var out := SubFrom(rule, s, p);
      if MatchAt(rule, s, p).None? {
        ReplacedPrefix(s, pat, rep, p + 1, w[1..]);
        assert out == [s[p]] + SubFrom(rule, s, p + 1);
        if StartsWith(out, w) {
          assert out[1..][..|w| - 1] == w[1..];
          assert s[p..][..|w|] == [s[p]] + s[p + 1..][..|w| - 1];
        }
      } else {
        assert out[0] == rep[0];
      }
    }
  }

  lemma {:induction false} ReplaceRemovesFrom(s: string, pat: string, rep: string, p: nat)
    requires |pat| > 0 && |rep| > 0 && p <= |s|
    requires Disjoint(rep, pat)
    ensures !Occurs(SubFrom(Literal(pat, rep), s, p), pat)
    decreases |s| - p
  {
    var rule := Literal(pat, rep);
    if p < |s| {
      var out := SubFrom(rule, s, p);
      match MatchAt(rule, s, p)
      case Some(h) =>
        ReplaceRemovesFrom(s, pat, rep, h.end);
        NoOccursPrepend(rep, SubFrom(rule, s, h.end), pat);
      case None =>
        ReplaceRemovesFrom(s, pat, rep, p + 1);
        ReplacedPrefix(s, pat, rep, p, pat);
        assert out[1..] == SubFrom(rule, s, p + 1);
    }
  }

  /** Replacing a pattern by text that shares no character with it leaves no
      occurrence of the pattern. */
  lemma ReplaceRemoves(s: string, pat: string, rep: string)
    requires |pat| > 0 && |rep| > 0 && Disjoint(rep, pat)
    ensures !Occurs(ReplaceAll(s, pat, rep), pat)
  {
    ReplaceRemovesFrom(s, pat, rep, 0);
  }

  lemma {:induction false} ReplaceKeepsAbsentFrom(s: string, pat: string, rep: string, w: string, p: nat)
    requires |pat| > 0 && |rep| > 0 && |w| > 0 && p <= |s|
    requires Disjoint(rep, w)
    requires !Occurs(s[p..], w)
    ensures !Occurs(SubFrom(Literal(pat, rep), s, p), w)
    decreases |s| - p
  {
    var rule := Literal(pat, rep);
    if p < |s| {
      var out := SubFrom(rule, s, p);
      match MatchAt(rule, s, p)
      case Some(h) =>
        if Occurs(s[h.end..], w) {
          assert s[p..][h.end - p..] == s[h.end..];
          OccursInSuffix(s[p..], h.end - p, w);
        }
        ReplaceKeepsAbsentFrom(s, pat, rep, w, h.end);
        NoOccursPrepend(rep, SubFrom(rule, s, h.end), w);
      case None =>
        assert s[p..][1..] == s[p + 1..];
        ReplaceKeepsAbsentFrom(s, pat, rep, w, p + 1);
        ReplacedPrefix(s, pat, rep, p, w);
        assert out[1..] == SubFrom(rule, s, p + 1);
    }
  }

  /** Replacing with nonempty text that shares no character with `w` creates
      no occurrence of `w`. */
  lemma ReplaceKeepsAbsent(s: string, pat: string, rep: string, w: string)
    requires |pat| > 0 && |rep| > 0 && |w| > 0
    requires Disjoint(rep, w) && !Occurs(s, w)
    ensures !Occurs(ReplaceAll(s, pat, rep), w)
  {
    assert s[0..] == s;
    ReplaceKeepsAbsentFrom(s, pat, rep, w, 0);
  }

  /** The rules whose match at a position looks only at a fixed stretch of
      text from that position: a literal and the and-word. */
  predicate Local(rule: Rule) {
    rule.AndWord? || rule.Literal?
  }

  /** `t` is `s` from position `k` on. */
  predicate SuffixFrom(s: string, k: nat, t: string) {
    k + |t| == |s| && forall i :: 0 <= i < |t| ==> t[i] == s[k + i]
  }

  /** Every rule matches at `k + p` in `s` as it matches at `p` in the
      suffix `t` from `k`, with the end moved by `k`: no pattern looks
      behind the position it is tried at. */
  lemma MatchAtShift(rule: Rule, s: string, t: string, k: nat, p: nat)
    requires ValidRule(rule) && SuffixFrom(s, k, t) && p < |t|
    ensures MatchAt(rule, s, k + p).Some? == MatchAt(rule, t, p).Some?
    ensures MatchAt(rule, t, p).Some? ==>
              MatchAt(rule, s, k + p) == Some(Hit(MatchAt(rule, t, p).value.end + k, MatchAt(rule, t, p).value.text))
  {
    if Local(rule) {
      LocalMatchAtShift(rule, s, t, k, p);
    } else {
      LinkMatchAtShift(rule, s, t, k, p);
    }
  }

  lemma LocalMatchAtShift(rule: Rule, s: string, t: string, k: nat, p: nat)
    requires ValidRule(rule) && Local(rule) && SuffixFrom(s, k, t) && p < |t|
    ensures LocalMatchAt(rule, s, k + p).Some? == LocalMatchAt(rule, t, p).Some?
    ensures LocalMatchAt(rule, t, p).Some? ==>
              LocalMatchAt(rule, s, k + p)
              == Some(Hit(LocalMatchAt(rule, t, p).value.end + k, LocalMatchAt(rule, t, p).value.text))
  {
    if rule.Literal? {
      assert s[k + p..] == t[p..];
    } else {
      assert s[k + p] == t[p];
      if p + 5 <= |t| {
        assert s[k + p + 1] == t[p + 1] && s[k + p + 2] == t[p + 2];
        assert s[k + p + 3] == t[p + 3] && s[k + p + 4] == t[p + 4];
      }
    }
  }

  /** The link rules match at `k + p` in `s` as at `p` in its suffix `t`. */
  lemma LinkMatchAtShift(rule: Rule, s: string, t: string, k: nat, p: nat)
    requires ValidRule(rule) && !Local(rule) && SuffixFrom(s, k, t) && p < |t|
    ensures LinkMatchAt(rule, s, k + p).Some? == LinkMatchAt(rule, t, p).Some?
    ensures LinkMatchAt(rule, t, p).Some? ==>
              LinkMatchAt(rule, s, k + p)
              == Some(Hit(LinkMatchAt(rule, t, p).value.end + k, LinkMatchAt(rule, t, p).value.text))
  {
    match rule
    case PipedLink => PipedMatchShift(s, t, k, p);
    case SimpleLink => SimpleMatchShift(s, t, k, p);
    case ExternalLink => BracketMatchShift(s, t, k, p);
  }

  lemma PipedMatchShift(s: string, t: string, k: nat, p: nat)
    requires SuffixFrom(s, k, t) && p < |t|
    ensures LinkMatchAt(PipedLink, s, k + p).Some? == LinkMatchAt(PipedLink, t, p).Some?
    ensures LinkMatchAt(PipedLink, t, p).Some? ==>
              LinkMatchAt(PipedLink, s, k + p)
              == Some(Hit(LinkMatchAt(PipedLink, t, p).value.end + k, LinkMatchAt(PipedLink, t, p).value.text))
  {
    PipedLinkShift(s, t, k, p);
    if PipedLinkAt(t, p).Some? {
      var ab := PipedLinkAt(t, p).value;
      SliceShift(s, t, k, ab.0 + 1, ab.1);
    }
  }

  lemma SimpleMatchShift(s: string, t: string, k: nat, p: nat)
    requires SuffixFrom(s, k, t) && p < |t|
    ensures LinkMatchAt(SimpleLink, s, k + p).Some? == LinkMatchAt(SimpleLink, t, p).Some?
    ensures LinkMatchAt(SimpleLink, t, p).Some? ==>
              LinkMatchAt(SimpleLink, s, k + p)
              == Some(Hit(LinkMatchAt(SimpleLink, t, p).value.end + k, LinkMatchAt(SimpleLink, t, p).value.text))
  {
    SimpleLinkShift(s, t, k, p);
    if SimpleLinkAt(t, p).Some? {
      SliceShift(s, t, k, p + 2, SimpleLinkAt(t, p).value);
    }
  }

  lemma BracketMatchShift(s: string, t: string, k: nat, p: nat)
    requires SuffixFrom(s, k, t) && p < |t|
    ensures LinkMatchAt(ExternalLink, s, k + p).Some? == LinkMatchAt(ExternalLink, t, p).Some?
    ensures LinkMatchAt(ExternalLink, t, p).Some? ==>
              LinkMatchAt(ExternalLink, s, k + p)
              == Some(Hit(LinkMatchAt(ExternalLink, t, p).value.end + k, LinkMatchAt(ExternalLink, t, p).value.text))
  {
    BracketLinkShift(s, t, k, p);
    if BracketLinkAt(t, p).Some? {
      var sp := BracketLinkAt(t, p).value;
      SliceShift(s, t, k, sp.labelStart, sp.labelEnd);
    }
  }

  lemma SliceShift(s: string, t: string, k: nat, i: nat, j: nat)
    requires SuffixFrom(s, k, t) && i <= j <= |t|
    ensures s[k + i..k + j] == t[i..j]
  {
    assert forall m :: 0 <= m < j - i ==> s[k + i..k + j][m] == s[k + i + m] == t[i + m] == t[i..j][m];
  }

  lemma PipedLinkShift(s: string, t: string, k: nat, p: nat)
    requires SuffixFrom(s, k, t) && p < |t|
    ensures PipedLinkAt(s, k + p).Some? == PipedLinkAt(t, p).Some?
    ensures PipedLinkAt(t, p).Some? ==>
              PipedLinkAt(s, k + p) == Some((PipedLinkAt(t, p).value.0 + k, PipedLinkAt(t, p).value.1 + k))
  {
    if p + 1 < |t| {
      assert s[k + p] == t[p] && s[k + p + 1] == t[p + 1];
      FirstFromShift(s, t, k, p + 2, '\n');
      var e := FirstFrom(t, p + 2, '\n');
      LastCloseShift(s, t, k, p + 2, e);
      if LastClose(t, p + 2, e).Some? {
        LastBeforeShift(s, t, k, p + 2, LastClose(t, p + 2, e).value, '|');
      }
    }
  }

  lemma SimpleLinkShift(s: string, t: string, k: nat, p: nat)
    requires SuffixFrom(s, k, t) && p < |t|
    ensures SimpleLinkAt(s, k + p).Some? == SimpleLinkAt(t, p).Some?
    ensures SimpleLinkAt(t, p).Some? ==> SimpleLinkAt(s, k + p) == Some(SimpleLinkAt(t, p).value + k)
  {
    if p + 1 < |t| {
      assert s[k + p] == t[p] && s[k + p + 1] == t[p + 1];
      FirstFromShift(s, t, k, p + 2, '\n');
      LastCloseShift(s, t, k, p + 2, FirstFrom(t, p + 2, '\n'));
    }
  }

  lemma BracketLinkShift(s: string, t: string, k: nat, p: nat)
    requires SuffixFrom(s, k, t) && p < |t|
    ensures BracketLinkAt(s, k + p).Some? == BracketLinkAt(t, p).Some?
    ensures BracketLinkAt(t, p).Some? ==>
              var sp := BracketLinkAt(t, p).value;
              BracketLinkAt(s, k + p) == Some(LinkSpan(sp.urlEnd + k, sp.labelStart + k, sp.labelEnd + k))
  {
    assert s[k + p] == t[p];
    if t[p] == '[' {
      var j := RunEnd(t, p + 1, false);
      var q := RunEnd(t, j, true);
      var m := FirstFrom(t, q, ']');
      RunEndShift(s, t, k, p + 1, false);
      RunEndShift(s, t, k, j, true);
      FirstFromShift(s, t, k, q, ']');
      BracketScanShift(s, t, k, p, j, q, m);
    }
  }

  /** The bracketed-link scanner at `k + p` in `s` and at `p` in `t`, once
      its three searches are known to agree up to the shift. */
  lemma BracketScanShift(s: string, t: string, k: nat, p: nat, j: nat, q: nat, m: nat)
    requires k + |t| == |s| && p < |t| && s[k + p] == '[' && t[p] == '['
    requires p + 1 <= j <= q <= m <= |t|
    requires RunEnd(t, p + 1, false) == j && RunEnd(s, k + p + 1, false) == j + k
    requires RunEnd(t, j, true) == q && RunEnd(s, k + j, true) == q + k
    requires FirstFrom(t, q, ']') == m && FirstFrom(s, k + q, ']') == m + k
    ensures BracketScan(s, k + p).Some? == BracketScan(t, p).Some?
    ensures BracketScan(t, p).Some? ==>
              var sp := BracketScan(t, p).value;
              BracketScan(s, k + p) == Some(LinkSpan(sp.urlEnd + k, sp.labelStart + k, sp.labelEnd + k))
  {
  }

  lemma FirstFromShift(s: string, t: string, k: nat, i: nat, c: char)
    requires SuffixFrom(s, k, t) && i <= |t|
    ensures FirstFrom(s, k + i, c) == FirstFrom(t, i, c) + k
  {
    var m := FirstFrom(t, i, c);
    forall j | k + i <= j < k + m
      ensures s[j] != c
    {
      assert s[j] == t[j - k];
    }
    if m < |t| {
      assert s[k + m] == t[m];
      FirstFromIs(s, k + i, c, k + m);
    } else {
      FirstFromAtLeast(s, k + i, c, k + m);
    }
  }

  lemma RunEndShift(s: string, t: string, k: nat, i: nat, space: bool)
    requires SuffixFrom(s, k, t) && i <= |t|
    ensures RunEnd(s, k + i, space) == RunEnd(t, i, space) + k
  {
    var m := RunEnd(t, i, space);
    forall j | k + i <= j < k + m
      ensures IsSpace(s[j]) == space
    {
      assert s[j] == t[j - k];
    }
    if m < |t| {
      assert s[k + m] == t[m];
    }
    RunEndIs(s, k + i, space, k + m);
  }

  lemma LastCloseShift(s: string, t: string, k: nat, lo: nat, hi: nat)
    requires SuffixFrom(s, k, t) && lo <= hi <= |t|
    ensures LastClose(s, k + lo, k + hi).Some? == LastClose(t, lo, hi).Some?
    ensures LastClose(t, lo, hi).Some? ==> LastClose(s, k + lo, k + hi) == Some(LastClose(t, lo, hi).value + k)
  {
    forall b: nat | b + 1 < |t|
      ensures ClosesAt(s, k + b) == ClosesAt(t, b)
    {
      assert s[k + b] == t[b] && s[k + b + 1] == t[b + 1];
    }
    var r, rt := LastClose(s, k + lo, k + hi), LastClose(t, lo, hi);
    if r.Some? {
      assert ClosesAt(t, r.value - k);
    }
    if rt.Some? {
      assert ClosesAt(s, rt.value + k);
    }
  }

  lemma LastBeforeShift(s: string, t: string, k: nat, lo: nat, hi: nat, c: char)
    requires SuffixFrom(s, k, t) && lo <= hi <= |t|
    ensures LastBefore(s, k + lo, k + hi, c).Some? == LastBefore(t, lo, hi, c).Some?
    ensures LastBefore(t, lo, hi, c).Some? ==>
              LastBefore(s, k + lo, k + hi, c) == Some(LastBefore(t, lo, hi, c).value + k)
  {
    var r, rt := LastBefore(s, k + lo, k + hi, c), LastBefore(t, lo, hi, c);
    if r.Some? {
      assert t[r.value - k] == s[r.value];
    }
    if rt.Some? {
      assert s[rt.value + k] == t[rt.value];
    }
  }

  /** Substitution from `k + p` is substitution on the suffix `s[k..]`
      from `p`. */
  lemma SubFromShift(rule: Rule, s: string, k: nat, p: nat)
    requires ValidRule(rule) && k + p <= |s|
    ensures SubFrom(rule, s, k + p) == SubFrom(rule, s[k..], p)
  {
    SubFromSuffixFrom(rule, s, s[k..], k, p);
  }

  lemma {:induction false} SubFromSuffixFrom(rule: Rule, s: string, t: string, k: nat, p: nat)
    requires ValidRule(rule) && SuffixFrom(s, k, t) && p <= |t|
    ensures SubFrom(rule, s, k + p) == SubFrom(rule, t, p)
    decreases |t| - p
  {
    if p < |t| {
      var x, q := SubFromShiftStep(rule, s, t, k, p);
      SubFromSuffixFrom(rule, s, t, k, q);
    }
  }

  /** Substitution from `k` on is substitution on the suffix from `k`: what
      came before `k` has no influence on the rest. */
  lemma SubFromSuffix(rule: Rule, s: string, k: nat)
    requires ValidRule(rule) && k <= |s|
    ensures SubFrom(rule, s, k) == Sub(rule, s[k..])
  {
    SubFromShift(rule, s, k, 0);
  }

  /** One step of substitution from `k + p` in `s` and from `p` in its
      suffix `t` emits the same text and resumes at corresponding positions. */
  lemma SubFromShiftStep(rule: Rule, s: string, t: string, k: nat, p: nat) returns (x: string, q: nat)
    requires ValidRule(rule) && SuffixFrom(s, k, t) && p < |t|
    ensures p < q <= |t|
    ensures SubFrom(rule, s, k + p) == x + SubFrom(rule, s, k + q)
    ensures SubFrom(rule, t, p) == x + SubFrom(rule, t, q)
  {
    var mt := MatchAt(rule, t, p);
    if mt.Some? {
      x, q := mt.value.text, mt.value.end;
      ShiftHitAt(rule, s, t, k, p, x, q);
    } else {
      x, q := [t[p]], p + 1;
      ShiftMissAt(rule, s, t, k, p);
    }
  }

  lemma ShiftHitAt(rule: Rule, s: string, t: string, k: nat, p: nat, x: string, q: nat)
    requires ValidRule(rule) && SuffixFrom(s, k, t) && p < |t|
    requires MatchAt(rule, t, p) == Some(Hit(q, x))
    ensures p < q <= |t|
    ensures SubFrom(rule, s, k + p) == x + SubFrom(rule, s, k + q)
    ensures SubFrom(rule, t, p) == x + SubFrom(rule, t, q)
  {
    MatchAtShift(rule, s, t, k, p);
    ShiftHit(rule, s, t, k, p, x, q);
  }

  lemma ShiftMissAt(rule: Rule, s: string, t: string, k: nat, p: nat)
    requires ValidRule(rule) && SuffixFrom(s, k, t) && p < |t|
    requires MatchAt(rule, t, p).None?
    ensures SubFrom(rule, s, k + p) == [t[p]] + SubFrom(rule, s, k + p + 1)
    ensures SubFrom(rule, t, p) == [t[p]] + SubFrom(rule, t, p + 1)
  {
    MatchAtShift(rule, s, t, k, p);
    assert t[p] == s[k + p];
    ShiftMiss(rule, s, t, k, p, [t[p]], p + 1);
  }

  /** A step where the rule matches at corresponding positions of `s` and
      `t`, with the same replacement text. */
  lemma ShiftHit(rule: Rule, s: string, t: string, k: nat, p: nat, x: string, q: nat)
    requires ValidRule(rule) && k + p < |s| && p < |t|
    requires MatchAt(rule, t, p) == Some(Hit(q, x))
    requires MatchAt(rule, s, k + p) == Some(Hit(k + q, x))
    ensures p < q && q <= |t| && k + q <= |s|
    ensures SubFrom(rule, s, k + p) == x + SubFrom(rule, s, k + q)
    ensures SubFrom(rule, t, p) == x + SubFrom(rule, t, q)
  {
    SubFromHit(rule, s, k + p, Hit(k + q, x));
    SubFromHit(rule, t, p, Hit(q, x));
  }

  /** A step where the rule matches at neither of two corresponding
      positions holding the same character. */
  lemma ShiftMiss(rule: Rule, s: string, t: string, k: nat, p: nat, x: string, q: nat)
    requires ValidRule(rule) && k + p < |s| && p < |t| && t[p] == s[k + p]
    requires MatchAt(rule, t, p).None? && MatchAt(rule, s, k + p).None?
    requires x == [s[k + p]] && q == p + 1 && k + q <= |s|
    ensures SubFrom(rule, s, k + p) == x + SubFrom(rule, s, k + q)
    ensures SubFrom(rule, t, p) == x + SubFrom(rule, t, q)
  {
    SubFromCopy(rule, t, p);
    SubFromCopy(rule, s, k + p);
  }

  /** One step of substitution where the rule matches. */
  lemma SubFromHit(rule: Rule, s: string, p: nat, h: Hit)
    requires ValidRule(rule) && p < |s| && MatchAt(rule, s, p) == Some(h)
    ensures h.end <= |s| && SubFrom(rule, s, p) == h.text + SubFrom(rule, s, h.end)
  {
  }

  /** `str.replace` at its first occurrence: text before it is copied, the
      occurrence becomes the replacement, and the rest is replaced in turn.
      No occurrence may start inside `a`, not even one running into `pat`. */
  lemma ReplaceAllAt(a: string, pat: string, rep: string, b: string)
    requires |pat| > 0 && !Occurs(a + pat[..|pat| - 1], pat)
    ensures ReplaceAll(a + pat + b, pat, rep) == a + rep + ReplaceAll(b, pat, rep)
  {
    var s := a + pat + b;
    NoLiteralBefore(a, pat, rep, b);
    assert s[..|a|] == a && s[|a|..|a| + |pat|] == pat && s[|a| + |pat|..] == b;
    FirstLiteral(s, |a|, pat, rep);
  }

  /** Substitution of a literal whose first occurrence starts at `n`. */
  lemma FirstLiteral(s: string, n: nat, pat: string, rep: string)
    requires |pat| > 0 && n + |pat| <= |s| && s[n..n + |pat|] == pat
    requires forall k :: 0 <= k < n ==> MatchAt(Literal(pat, rep), s, k).None?
    ensures ReplaceAll(s, pat, rep) == s[..n] + rep + ReplaceAll(s[n + |pat|..], pat, rep)
  {
    LiteralPrefix(s, n, pat, rep);
    SubFromSuffix(Literal(pat, rep), s, n + |pat|);
    FirstLiteralJoin(s, n, pat, rep);
  }

  /** The two facts behind `FirstLiteral`, put together in terms of
      `ReplaceAll`. */
  lemma FirstLiteralJoin(s: string, n: nat, pat: string, rep: string)
    requires |pat| > 0 && n + |pat| <= |s|
    requires SubFrom(Literal(pat, rep), s, 0)
             == s[..n] + (rep + SubFrom(Literal(pat, rep), s, n + |pat|))
    requires SubFrom(Literal(pat, rep), s, n + |pat|) == Sub(Literal(pat, rep), s[n + |pat|..])
    ensures ReplaceAll(s, pat, rep) == s[..n] + rep + ReplaceAll(s[n + |pat|..], pat, rep)
  {
    ConcatAssoc(s[..n], rep, SubFrom(Literal(pat, rep), s, n + |pat|));
  }

  /** Up to the end of the first occurrence, the text before it is copied
      and the occurrence becomes the replacement. */
  lemma LiteralPrefix(s: string, n: nat, pat: string, rep: string)
    requires |pat| > 0 && n + |pat| <= |s| && s[n..n + |pat|] == pat
    requires forall k :: 0 <= k < n ==> MatchAt(Literal(pat, rep), s, k).None?
    ensures SubFrom(Literal(pat, rep), s, 0)
            == s[..n] + (rep + SubFrom(Literal(pat, rep), s, n + |pat|))
  {
    SubFromSkip(Literal(pat, rep), s, 0, n);
    assert s[0..n] == s[..n];
    LiteralHit(s, n, pat, rep);
  }

  /** No occurrence of `pat` starts inside `a` when none occurs in `a` with
      all of `pat` but its last character after it. */
  lemma NoLiteralBefore(a: string, pat: string, rep: string, b: string)
    requires |pat| > 0 && !Occurs(a + pat[..|pat| - 1], pat)
    ensures forall k :: 0 <= k < |a| ==> MatchAt(Literal(pat, rep), a + pat + b, k).None?
  {
    var s := a + pat + b;
    var t := a + pat[..|pat| - 1];
    forall k | 0 <= k < |a|
      ensures !StartsWith(s[k..], pat)
    {
      if StartsWith(s[k..], pat) {
        assert s[k..][..|pat|] == t[k..k + |pat|];
        OccursWithin(t, k, pat);
      }
    }
  }

  /** At an occurrence of the pattern, its replacement is emitted and the
      scan resumes after it. */
  lemma LiteralHit(s: string, n: nat, pat: string, rep: string)
    requires |pat| > 0 && n + |pat| <= |s| && s[n..n + |pat|] == pat
    ensures SubFrom(Literal(pat, rep), s, n) == rep + SubFrom(Literal(pat, rep), s, n + |pat|)
  {
    assert s[n..][..|pat|] == pat;
    SubFromHit(Literal(pat, rep), s, n, Hit(n + |pat|, rep));
  }

  /** `str.replace` on text that is pieces joined by the pattern: each joint
      becomes the replacement, and nothing else changes. */
  lemma {:induction false} ReplaceAllJoin(parts: seq<string>, pat: string, rep: string)
    requires |pat| > 0
    requires forall i :: 0 <= i < |parts| ==> !Occurs(parts[i] + pat[..|pat| - 1], pat)
    ensures ReplaceAll(Join(parts, pat), pat, rep) == Join(parts, rep)
    decreases |parts|
  {
    if |parts| == 1 {
      if Occurs(parts[0], pat) {
        OccursAppend(parts[0], pat[..|pat| - 1], pat);
      }
      ReplaceAbsent(parts[0], pat, rep);
    } else if |parts| >= 2 {
      ReplaceAllJoin(parts[1..], pat, rep);
      ReplaceAllAt(parts[0], pat, rep, Join(parts[1..], pat));
    }
  }

  /** The ellipsis the author rules delete. */
  const Ellipsis := "..."

  /** Deleting every `...` leaves none behind: a dot the scan keeps is within
      the last two of its run of dots. */
  lemma {:induction false} EllipsisGoneFrom(s: string, p: nat)
    requires p <= |s|
    ensures !Occurs(SubFrom(Literal(Ellipsis, ""), s, p), Ellipsis)
    decreases |s| - p
  {
    var rule := Literal(Ellipsis, "");
    if p < |s| {
      var out := SubFrom(rule, s, p);
      match MatchAt(rule, s, p)
      case Some(h) =>
        EllipsisGoneFrom(s, h.end);
        assert out == SubFrom(rule, s, h.end);
      case None =>
        EllipsisGoneFrom(s, p + 1);
        var rest := SubFrom(rule, s, p + 1);
        assert out == [s[p]] + rest;
        assert out[1..] == rest;
        LeadingDots(s, p + 1);
        DotsJoin(s, p);
        ConsStartsWithDots(s[p], rest);
    }
  }

  /** Where the output of the deletion starts with a dot, so does the input. */
  lemma LeadingDot(s: string, q: nat)
    requires q <= |s|
    ensures StartsWith(SubFrom(Literal(Ellipsis, ""), s, q), ".") ==> q < |s| && s[q] == '.'
  {
    var rule := Literal(Ellipsis, "");
    if q < |s| {
      if MatchAt(rule, s, q).Some? {
        assert s[q..][..3] == Ellipsis;
        assert s[q] == s[q..][..3][0] == '.';
      } else {
        SubFromCopy(rule, s, q);
      }
    }
  }

  /** Where the output of the deletion starts with `..`, so does the input. */
  lemma LeadingDots(s: string, q: nat)
    requires q <= |s|
    ensures StartsWith(SubFrom(Literal(Ellipsis, ""), s, q), "..") ==> q + 2 <= |s| && s[q..q + 2] == ".."
  {
    var rule := Literal(Ellipsis, "");
    var out := SubFrom(rule, s, q);
    if q < |s| && StartsWith(out, "..") {
      if MatchAt(rule, s, q).Some? {
        assert s[q..][..3] == Ellipsis;
        assert s[q..q + 2] == s[q..][..3][..2];
      } else {
        var rest := SubFrom(rule, s, q + 1);
        assert out == [s[q]] + rest;
        assert rest[..1] == out[1..2] == ".";
        LeadingDot(s, q + 1);
      }
    }
  }

  lemma ConsStartsWithDots(c: char, rest: string)
    ensures StartsWith([c] + rest, Ellipsis) <==> c == '.' && StartsWith(rest, "..")
  {
    if |rest| >= 2 {
      var t := [c] + rest;
      assert t[..3] == [c] + rest[..2];
      assert Ellipsis == ['.'] + "..";
      if t[..3] == Ellipsis {
        assert t[..3][0] == c;
        assert t[..3][1..] == rest[..2];
      }
    }
  }

  lemma DotsJoin(s: string, p: nat)
    requires p < |s|
    ensures s[p] == '.' && p + 3 <= |s| && s[p + 1..p + 3] == ".." ==> StartsWith(s[p..], Ellipsis)
  {
    if p + 3 <= |s| {
      assert s[p..][..3] == [s[p]] + s[p + 1..p + 3];
    }
  }

  lemma EllipsisGone(s: string)
    ensures !Occurs(ReplaceAll(s, Ellipsis, ""), Ellipsis)
  {
    EllipsisGoneFrom(s, 0);
  }

}
