/** The per-field sanitisers of the template generator (the name, author,
    url and version rules) and the library routines they call. */
module Sanitize {
  import opened Opt
  import opened Text
  import opened Rewrite
  import opened Markup

  /** What the lenient semantic-version parse exposes: every component may
      be absent. */
  datatype Version = Version(
    major: Option<nat>,
    minor: Option<nat>,
    patch: Option<nat>,
    prerelease: Option<seq<string>>,
    build: Option<seq<string>>)

  /** Library routines the generator calls. Their code is not part of this
      model, so they are uninterpreted:
      - `unescape` decodes HTML character and entity references;
      - `filterIllegalChars` is the task base class's character filter;
      - `parseVersion` is the partial semantic-version parse, `None` where it
        raises. */
  datatype Library = Library(
    unescape: string -> string,
    filterIllegalChars: string -> string,
    parseVersion: string -> Option<Version>)

  // ---------------------------------------------------------------------
  // name

  const EmbeddedUrlLabel: string := "URL Embedded in name"

  /** The `[http… label]` link a name may be written as. The match is
      anchored at the start only, so text after its `]` is dropped. */
  function NameLink(s: string): (m: Option<LinkSpan>)
    ensures m.Some? ==> LinkAt(s, 0, m.value) && Greedy(s, m.value)
    ensures m.Some? ==> StartsWith(s, "[http") && m.value.urlEnd >= 6
  {
    if StartsWith(s, "[http") then
      match BracketLinkAt(s, 0)
      case Some(sp) => if sp.urlEnd >= 6 then Some(sp) else None
      case None => None
    else None
  }

  /** A name that can be read as `[`, `http` and at least one more
      non-blank, blanks, a label, `]` is always recognised as a link. */
  lemma NameLinkComplete(s: string, sp: LinkSpan)
    requires LinkAt(s, 0, sp) && StartsWith(s, "[http") && sp.urlEnd >= 6
    ensures NameLink(s).Some?
  {
    BracketLinkComplete(s, 0, sp);
    LinkUrlForced(s, 0, sp);
    LinkUrlForced(s, 0, BracketLinkAt(s, 0).value);
  }

  /** The url found embedded in a name, if any: the blank-free run that
      follows the name's opening `[` and starts with `http`. */
  function EmbeddedUrl(s: string): (u: Option<string>)
    ensures u.Some? ==> StartsWith(s, "[" + u.value)
    ensures u.Some? ==> StartsWith(u.value, "http") && |u.value| >= 5
    ensures u.Some? ==> forall i :: 0 <= i < |u.value| ==> !IsSpace(u.value[i])
  {
    match NameLink(s)
    case Some(sp) =>
      var u := s[1..sp.urlEnd];
      UrlOfLink(s, sp.urlEnd);
      Some(u)
    case None => None
  }

  /** The run after a leading `[http` starts with `http`. */
  lemma UrlOfLink(s: string, e: nat)
    requires StartsWith(s, "[http") && 5 < e <= |s|
    ensures StartsWith(s, "[" + s[1..e]) && StartsWith(s[1..e], "http")
  {
    var u := s[1..e];
    assert s[..|u| + 1] == [s[0]] + u;
    assert s[0] == "[http"[0];
    var h := "http";
    forall i | 0 <= i < 4
      ensures u[i] == h[i]
    {
      assert u[i] == s[i + 1] == "[http"[i + 1];
    }
  }

  /** The part of a name that is kept: the link's label, or the whole value. */
  function NameText(s: string): (t: string)
    ensures EmbeddedUrl(s).None? ==> t == s
    ensures EmbeddedUrl(s).Some? ==> |t| >= 1 && ']' !in t && |t| < |s|
  {
    match NameLink(s)
    case Some(sp) =>
      var t := s[sp.labelStart..sp.labelEnd];
      assert forall i :: 0 <= i < |t| ==> t[i] == s[sp.labelStart + i];
      t
    case None => s
  }

  /** A name written as `[url label]`, followed by anything, yields the url
      and the label, whatever run of whitespace separates the two. */
  lemma NameLinkOf(u: string, w: string, l: string, rest: string)
    requires StartsWith(u, "http") && |u| >= 5
    requires forall i :: 0 <= i < |u| ==> !IsSpace(u[i])
    requires |w| >= 1 && forall i :: 0 <= i < |w| ==> IsSpace(w[i])
    requires |l| >= 1 && !IsSpace(l[0]) && ']' !in l
    ensures EmbeddedUrl("[" + u + w + l + "]" + rest) == Some(u)
    ensures NameText("[" + u + w + l + "]" + rest) == l
  {
    var s := "[" + u + w + l + "]" + rest;
    var a := |u| + 1;
    var b := a + |w|;
    var c := b + |l|;
    var sp := LinkSpan(a, b, c);
    assert s[1..a] == u;
    assert s[a..b] == w;
    assert s[b..c] == l;
    assert s[c] == ']';
    forall k | 1 <= k < a
      ensures !IsSpace(s[k])
    {
      assert s[k] == u[k - 1];
    }
    forall k | a <= k < b
      ensures IsSpace(s[k])
    {
      assert s[k] == w[k - a];
    }
    forall k | b <= k < c
      ensures s[k] != ']'
    {
      assert s[k] == l[k - b];
    }
    assert s[..5] == "[" + u[..4];
    assert LinkAt(s, 0, sp);
    GreedyLinkScanned(s, 0, sp);
  }

  /** The common case of `NameLinkOf`: one space between url and label. */
  lemma NameLinkSpaced(u: string, l: string, rest: string)
    requires StartsWith(u, "http") && |u| >= 5
    requires forall i :: 0 <= i < |u| ==> !IsSpace(u[i])
    requires |l| >= 1 && !IsSpace(l[0]) && ']' !in l
    ensures EmbeddedUrl("[" + u + " " + l + "]" + rest) == Some(u)
    ensures NameText("[" + u + " " + l + "]" + rest) == l
  {
    NameLinkOf(u, " ", l, rest);
  }

  /** The three spellings of a non-breaking space the name rule knows: the
      named entity, the numeric one, and a numeric one missing its `#`. */
  const Nbsp := "&nbsp;"
  const NumericNbsp := "&#160;"
  const BareNbsp := "&160;"

  /** None of the three spellings of a non-breaking space occurs. */
  predicate NoSpaceEntity(s: string) {
    !Occurs(s, Nbsp) && !Occurs(s, NumericNbsp) && !Occurs(s, BareNbsp)
  }

  /** The three spellings of a non-breaking space become plain spaces,
      before any other entity is decoded. */
  function NormaliseSpaces(s: string): (r: string)
    ensures NoSpaceEntity(r)
    ensures NoSpaceEntity(s) ==> r == s
  {
    var a := ReplaceAll(s, Nbsp, " ");
    var b := ReplaceAll(a, NumericNbsp, " ");
    var c := ReplaceAll(b, BareNbsp, " ");
    ReplaceRemoves(s, Nbsp, " ");
    ReplaceRemoves(a, NumericNbsp, " ");
    ReplaceKeepsAbsent(a, NumericNbsp, " ", Nbsp);
    ReplaceRemoves(b, BareNbsp, " ");
    ReplaceKeepsAbsent(b, BareNbsp, " ", Nbsp);
    ReplaceKeepsAbsent(b, BareNbsp, " ", NumericNbsp);
    ReplaceAbsent(s, Nbsp, " ");
    ReplaceAbsent(a, NumericNbsp, " ");
    ReplaceAbsent(b, BareNbsp, " ");
    c
  }

  /** Facts about the three spellings: each ends in a `;` found nowhere
      earlier in it, and none can overlap another or a plain space. */
  lemma SpellingFacts()
    ensures Nbsp[|Nbsp| - 1] !in Nbsp[..|Nbsp| - 1]
    ensures NumericNbsp[|NumericNbsp| - 1] !in NumericNbsp[..|NumericNbsp| - 1]
    ensures BareNbsp[|BareNbsp| - 1] !in BareNbsp[..|BareNbsp| - 1]
    ensures Apart(NumericNbsp, Nbsp) && Apart(BareNbsp, Nbsp) && Apart(BareNbsp, NumericNbsp)
    ensures Apart(" ", Nbsp) && Apart(" ", NumericNbsp) && Apart(" ", BareNbsp)
  {
    assert Nbsp[..5] == "&nbsp" && NumericNbsp[..5] == "&#160" && BareNbsp[..4] == "&160";
    assert Nbsp[1..] == "nbsp;" && NumericNbsp[1..] == "#160;";
    assert BareNbsp[1..] == "160;";
  }

  /** One `str.replace` of `w` on pieces joined by `sep`: when `sep` is `w`
      each joint becomes `rep`; when `sep` cannot overlap `w` nothing
      changes. */
  lemma ReplaceJoinStep(parts: seq<string>, sep: string, w: string, rep: string)
    requires |w| > 0 && w[|w| - 1] !in w[..|w| - 1]
    requires forall i :: 0 <= i < |parts| ==> !Occurs(parts[i], w)
    requires sep == w || Apart(sep, w)
    ensures ReplaceAll(Join(parts, sep), w, rep) == Join(parts, if sep == w then rep else sep)
  {
    if sep == w {
      forall i | 0 <= i < |parts|
        ensures !Occurs(parts[i] + w[..|w| - 1], w)
      {
        NoOccursTail(parts[i], w);
      }
      ReplaceAllJoin(parts, w, rep);
    } else {
      NoOccursJoin(parts, sep, w);
      ReplaceAbsent(Join(parts, sep), w, rep);
    }
  }

  /** Every `&nbsp;`, every `&#160;` and every `&160;` becomes a space:
      pieces free of all three, joined by any one of them, come out joined
      by spaces. */
  lemma SpacesNormalised(parts: seq<string>, sp: string)
    requires sp == Nbsp || sp == NumericNbsp || sp == BareNbsp
    requires forall i :: 0 <= i < |parts| ==> NoSpaceEntity(parts[i])
    ensures NormaliseSpaces(Join(parts, sp)) == Join(parts, " ")
  {
    SpellingFacts();
    var sep1 := if sp == Nbsp then " " else sp;
    ReplaceJoinStep(parts, sp, Nbsp, " ");
    var sep2 := if sep1 == NumericNbsp then " " else sep1;
    ReplaceJoinStep(parts, sep1, NumericNbsp, " ");
    ReplaceJoinStep(parts, sep2, BareNbsp, " ");
  }

  /** The value written for a name: its kept part, filtered, with
      non-breaking spaces normalised, then unescaped. */
  function NameValue(lib: Library, s: string): string {
    lib.unescape(NormaliseSpaces(lib.filterIllegalChars(NameText(s))))
  }

  // ---------------------------------------------------------------------
  // author

  /** Wiki and external links reduced to their labels, in the order the
      substitutions run: piped links, simple links, external links. */
  function AuthorLinks(s: string): (r: string)
    ensures '[' !in s ==> r == s
  {
    var r := Sub(ExternalLink, Sub(SimpleLink, Sub(PipedLink, s)));
    assert '[' !in s ==> r == s by {
      if '[' !in s {
        NoBracketNoLink(PipedLink, s);
        SubIdentity(PipedLink, s);
        NoBracketNoLink(SimpleLink, s);
        SubIdentity(SimpleLink, s);
        NoBracketNoLink(ExternalLink, s);
        SubIdentity(ExternalLink, s);
      }
    }
    r
  }

  /** Each whitespace-`and`-whitespace becomes `, `, every `...` goes, and
      every `&nbsp;` becomes a space. */
  function AuthorMisc(s: string): (r: string)
    ensures !Occurs(r, Ellipsis) && !Occurs(r, Nbsp)
  {
    var a := Sub(AndWord, s);
    var b := ReplaceAll(a, Ellipsis, "");
    var c := ReplaceAll(b, Nbsp, " ");
    EllipsisGone(a);
    ReplaceRemoves(b, Nbsp, " ");
    ReplaceKeepsAbsent(b, Nbsp, " ", Ellipsis);
    c
  }

  /** The value written for an author: links stripped, then the misc rules,
      then unescaped. */
  function AuthorValue(lib: Library, s: string): string {
    lib.unescape(AuthorMisc(AuthorLinks(s)))
  }

  /** At the first `and` between two whitespace characters (any of
      ` \t\n\r\f\v`, on either side), the text before it is copied, the
      three words become `, `, and the rest is rewritten in turn. No match may
      start inside `x`, counting the blank and `and` that follow it. */
  lemma AndWordSpaced(x: string, c1: char, c2: char, y: string)
    requires IsSpace(c1) && IsSpace(c2) && NoMatch(AndWord, x + [c1] + "and")
    ensures Sub(AndWord, x + [c1] + "and" + [c2] + y) == x + ", " + Sub(AndWord, y)
  {
    var s := x + [c1] + "and" + [c2] + y;
    var n := |x|;
    AndWordJoinPrefix(x, c1, c2, y);
    SubFromSkip(AndWord, s, 0, n);
    assert s[0..n] == x;
    assert s[n] == c1 && s[n + 1] == 'a' && s[n + 2] == 'n' && s[n + 3] == 'd' && s[n + 4] == c2;
    assert MatchAt(AndWord, s, n) == Some(Hit(n + 5, ", "));
    assert SubFrom(AndWord, s, n) == ", " + SubFrom(AndWord, s, n + 5);
    SubFromSuffix(AndWord, s, n + 5);
    assert s[n + 5..] == y;
    ConcatAssoc(x, ", ", Sub(AndWord, y));
  }

  /** The common case of `AndWordSpaced`: a plain ` and `. */
  lemma AndWordStep(x: string, y: string)
    requires NoMatch(AndWord, x + " and")
    ensures Sub(AndWord, x + " and " + y) == x + ", " + Sub(AndWord, y)
  {
    assert x + " and" == x + [' '] + "and";
    assert x + " and " + y == x + [' '] + "and" + [' '] + y;
    AndWordSpaced(x, ' ', ' ', y);
  }

  /** A tab before `and` and a line feed after it are blanks as well. */
  lemma AndWordTabExample(s: string)
    requires s == "a\tand\nb"
    ensures Sub(AndWord, s) == "a, b"
  {
    var x, y := "a", "b";
    assert s == x + ['\t'] + "and" + ['\n'] + y;
    var w := x + ['\t'] + "and";
    forall p | 0 <= p < |w|
      ensures MatchAt(AndWord, w, p).None?
    {
    }
    AndWordSpaced(x, '\t', '\n', y);
    forall p | 0 <= p < |y|
      ensures MatchAt(AndWord, y, p).None?
    {
    }
    SubIdentity(AndWord, y);
  }

  /** Two parts joined by ` and ` become two parts joined by `, `, when
      neither part holds a whitespace-`and`-whitespace of its own (counting
      the ` and` that follows the first). */
  lemma AndWordJoin(x: string, y: string)
    requires NoMatch(AndWord, x + " and") && NoMatch(AndWord, y)
    ensures Sub(AndWord, x + " and " + y) == x + ", " + y
  {
    AndWordStep(x, y);
    SubIdentity(AndWord, y);
  }

  /** Any number of parts joined by ` and ` come out joined by `, `, when no
      part holds a whitespace-`and`-whitespace of its own. */
  lemma {:induction false} AndWordsJoined(parts: seq<string>)
    requires forall i :: 0 <= i < |parts| - 1 ==> NoMatch(AndWord, parts[i] + " and")
    requires |parts| > 0 ==> NoMatch(AndWord, parts[|parts| - 1])
    ensures Sub(AndWord, Join(parts, " and ")) == Join(parts, ", ")
    decreases |parts|
  {
    if |parts| == 1 {
      SubIdentity(AndWord, parts[0]);
    } else if |parts| >= 2 {
      var rest := parts[1..];
      assert rest[|rest| - 1] == parts[|parts| - 1];
      AndWordsJoined(rest);
      AndWordStep(parts[0], Join(rest, " and "));
    }
  }

  lemma AndWordJoinPrefix(x: string, c1: char, c2: char, y: string)
    requires NoMatch(AndWord, x + [c1] + "and")
    ensures forall k :: 0 <= k < |x| ==> MatchAt(AndWord, x + [c1] + "and" + [c2] + y, k).None?
  {
    var s := x + [c1] + "and" + [c2] + y;
    var t := x + [c1] + "and";
    assert s[..|t|] == t;
    forall k | 0 <= k < |x|
      ensures MatchAt(AndWord, s, k).None?
    {
      assert s[k..k + 5] == s[..|t|][k..k + 5];
      AndWordSame(s, k, t, k);
    }
  }

  /** A separator of at least four characters, none of them blank, cannot
      take part in a whitespace-`and`-whitespace. */
  lemma AndWordNoMatchAround(x: string, u: string, y: string)
    requires |u| >= 4 && forall i :: 0 <= i < |u| ==> !IsSpace(u[i])
    requires NoMatch(AndWord, x) && NoMatch(AndWord, y)
    ensures NoMatch(AndWord, x + u + y)
  {
    var s := x + u + y;
    var n := |x|;
    var m := n + |u|;
    forall p | 0 <= p < |s|
      ensures MatchAt(AndWord, s, p).None?
    {
      if p + 5 <= |s| {
        if p + 5 <= n {
          assert s[p..p + 5] == x[p..p + 5];
          AndWordSame(s, p, x, p);
        } else if p >= m {
          assert s[p..p + 5] == y[p - m..p - m + 5];
          AndWordSame(s, p, y, p - m);
        } else if p >= n {
          assert s[p] == u[p - n];
        } else {
          assert s[p + 4] == u[p + 4 - n];
        }
      }
    }
  }

  lemma {:induction false} AndWordNoMatchJoin(parts: seq<string>, sep: string)
    requires |sep| >= 4 && forall i :: 0 <= i < |sep| ==> !IsSpace(sep[i])
    requires forall i :: 0 <= i < |parts| ==> NoMatch(AndWord, parts[i])
    ensures NoMatch(AndWord, Join(parts, sep))
    decreases |parts|
  {
    if |parts| >= 2 {
      AndWordNoMatchJoin(parts[1..], sep);
      AndWordNoMatchAround(parts[0], sep, Join(parts[1..], sep));
    }
  }

  /** The and-word rule looks at five characters only. */
  lemma AndWordSame(s: string, ks: nat, t: string, kt: nat)
    requires ks < |s| && kt < |t|
    requires ks + 5 <= |s| <==> kt + 5 <= |t|
    requires ks + 5 <= |s| ==> s[ks..ks + 5] == t[kt..kt + 5]
    ensures MatchAt(AndWord, s, ks).None? <==> MatchAt(AndWord, t, kt).None?
  {
    if ks + 5 <= |s| {
      var w := s[ks..ks + 5];
      assert forall i :: 0 <= i < 5 ==> s[ks + i] == w[i] == t[kt + i];
      var a, b := s[ks + 1..ks + 4], t[kt + 1..kt + 4];
      assert forall i :: 0 <= i < 3 ==> a[i] == b[i];
      assert a == b;
    }
  }

  /** A plain two-author list `x and y` is written as `x, y`, unescaped. */
  lemma AuthorPair(lib: Library, x: string, y: string)
    requires '[' !in x && '[' !in y
    requires NoMatch(AndWord, x + " and") && NoMatch(AndWord, y)
    requires !Occurs(x + ", " + y, Ellipsis) && !Occurs(x + ", " + y, Nbsp)
    ensures AuthorValue(lib, x + " and " + y) == lib.unescape(x + ", " + y)
  {
    var s := x + " and " + y;
    assert '[' !in s by {
      assert forall i :: 0 <= i < |s| ==> s[i] in x || s[i] in " and " || s[i] in y;
    }
    AndWordJoin(x, y);
    ReplaceAbsent(x + ", " + y, Ellipsis, "");
    ReplaceAbsent(x + ", " + y, Nbsp, " ");
  }

  /** Authors listed with ` and ` come out listed with `, `, when no part
      holds an `and` between blanks, a `...` or a `&nbsp;`. */
  lemma AuthorMiscAnd(parts: seq<string>)
    requires forall i :: 0 <= i < |parts| - 1 ==> NoMatch(AndWord, parts[i] + " and")
    requires |parts| > 0 ==> NoMatch(AndWord, parts[|parts| - 1])
    requires forall i :: 0 <= i < |parts| ==> !Occurs(parts[i], Ellipsis) && !Occurs(parts[i], Nbsp)
    ensures AuthorMisc(Join(parts, " and ")) == Join(parts, ", ")
  {
    var j := Join(parts, ", ");
    SeparatorFacts();
    AndWordsJoined(parts);
    assert ReplaceAll(j, Ellipsis, "") == j by {
      NoOccursJoin(parts, ", ", Ellipsis);
      ReplaceAbsent(j, Ellipsis, "");
    }
    assert ReplaceAll(j, Nbsp, " ") == j by {
      NoOccursJoin(parts, ", ", Nbsp);
      ReplaceAbsent(j, Nbsp, " ");
    }
    AuthorMiscSteps(Join(parts, " and "));
  }

  /** Facts about the author separators: `, ` and `&nbsp;` cannot overlap
      `...` or `&nbsp;`, and `&nbsp;` holds no blank and ends in a `;` found
      nowhere earlier in it. */
  lemma SeparatorFacts()
    ensures Apart(", ", Ellipsis) && Apart(", ", Nbsp) && Apart(Nbsp, Ellipsis)
    ensures Nbsp[|Nbsp| - 1] !in Nbsp[..|Nbsp| - 1]
    ensures forall i :: 0 <= i < |Nbsp| ==> !IsSpace(Nbsp[i])
  {
    assert Ellipsis[1..] == ".." && Nbsp[1..] == "nbsp;" && ", "[1..] == " ";
    assert Nbsp[..5] == "&nbsp";
  }

  /** The author misc rules in the order they run. */
  lemma AuthorMiscSteps(s: string)
    ensures AuthorMisc(s) == ReplaceAll(ReplaceAll(Sub(AndWord, s), Ellipsis, ""), Nbsp, " ")
  {
  }

  /** Every `&nbsp;` in an author becomes a space: parts without an `and`
      between blanks, a `...` or a `&nbsp;`, joined by `&nbsp;`, come out
      joined by spaces. */
  lemma AuthorMiscNbsp(parts: seq<string>)
    requires forall i :: 0 <= i < |parts| ==> NoMatch(AndWord, parts[i])
    requires forall i :: 0 <= i < |parts| ==> !Occurs(parts[i], Ellipsis) && !Occurs(parts[i], Nbsp)
    ensures AuthorMisc(Join(parts, Nbsp)) == Join(parts, " ")
  {
    var j := Join(parts, Nbsp);
    SeparatorFacts();
    assert Sub(AndWord, j) == j by {
      AndWordNoMatchJoin(parts, Nbsp);
      SubIdentity(AndWord, j);
    }
    assert ReplaceAll(j, Ellipsis, "") == j by {
      NoOccursJoin(parts, Nbsp, Ellipsis);
      ReplaceAbsent(j, Ellipsis, "");
    }
    ReplaceJoinStep(parts, Nbsp, Nbsp, " ");
    AuthorMiscSteps(j);
  }

  /** An author without brackets, `and` between blanks, `...` or `&nbsp;` is
      only unescaped. */
  lemma PlainAuthor(lib: Library, s: string)
    requires '[' !in s && NoMatch(AndWord, s)
    requires !Occurs(s, Ellipsis) && !Occurs(s, Nbsp)
    ensures AuthorValue(lib, s) == lib.unescape(s)
  {
    PlainMisc(s);
  }

  /** Text without `and` between blanks, `...` or `&nbsp;` passes the misc
      rules unchanged. */
  lemma PlainMisc(s: string)
    requires NoMatch(AndWord, s) && !Occurs(s, Ellipsis) && !Occurs(s, Nbsp)
    ensures AuthorMisc(s) == s
  {
    SubIdentity(AndWord, s);
    ReplaceAbsent(s, Ellipsis, "");
    ReplaceAbsent(s, Nbsp, " ");
  }

  /** `[[target|label]]` on one line becomes its label. The target may itself
      hold links, `|` and `]]`: the greedy pattern swallows all of it. */
  lemma PipedAuthorLink(t: string, l: string)
    requires '\n' !in t && '\n' !in l && '|' !in l && '[' !in l
    ensures AuthorLinks("[[" + t + "|" + l + "]]") == l
  {
    var s := "[[" + t + "|" + l + "]]";
    var b := |s| - 2;
    var a := |t| + 2;
    assert s[a] == '|';
    assert s[a + 1..b] == l;
    forall k | a < k < b
      ensures s[k] != '|'
    {
      assert s[k] == l[k - a - 1];
    }
    forall k | 0 <= k < |s|
      ensures s[k] != '\n'
    {
      if 2 <= k < a {
        assert s[k] == t[k - 2];
      } else if a < k < b {
        assert s[k] == l[k - a - 1];
      }
    }
    FirstFromAtLeast(s, 2, '\n', |s|);
    assert PipedLinkAt(s, 0) == Some((a, b));
    SubFromIdentity(PipedLink, s, |s|);
    assert Sub(PipedLink, s) == l;
    NoBracketNoLink(SimpleLink, l);
    SubIdentity(SimpleLink, l);
    NoBracketNoLink(ExternalLink, l);
    SubIdentity(ExternalLink, l);
  }

  /** `[[target]]` on one line becomes its target. */
  lemma SimpleAuthorLink(t: string)
    requires '|' !in t && '\n' !in t && '[' !in t
    ensures AuthorLinks("[[" + t + "]]") == t
  {
    var s := "[[" + t + "]]";
    var b := |t| + 2;
    forall k | 0 <= k < |s|
      ensures s[k] != '|' && s[k] != '\n'
    {
      if 2 <= k < b {
        assert s[k] == t[k - 2];
      }
    }
    assert NoMatch(PipedLink, s);
    SubIdentity(PipedLink, s);
    assert OneLine(s, 0, b);
    assert SimpleAt(s, 0, b);
    assert SimpleLinkAt(s, 0) == Some(b);
    assert s[2..b] == t;
    assert MatchAt(SimpleLink, s, 0) == Some(Hit(|s|, t));
    assert Sub(SimpleLink, s) == t + SubFrom(SimpleLink, s, |s|);
    assert Sub(SimpleLink, Sub(PipedLink, s)) == t;
    NoBracketNoLink(ExternalLink, t);
    SubIdentity(ExternalLink, t);
  }

  /** `[url label]`, such as a link to a user page with the user's name
      as its label, becomes its label. */
  lemma ExternalAuthorLink(u: string, l: string)
    requires |u| >= 1 && forall i :: 0 <= i < |u| ==> !IsSpace(u[i])
    requires |l| >= 1 && !IsSpace(l[0]) && ']' !in l
    requires '[' !in u && '[' !in l
    ensures AuthorLinks("[" + u + " " + l + "]") == l
  {
    var s := "[" + u + " " + l + "]";
    var e := |u| + 2 + |l|;
    forall k | 0 < k < |s|
      ensures s[k] != '['
    {
      if 1 <= k < |u| + 1 {
        assert s[k] == u[k - 1];
      } else if |u| + 2 <= k < e {
        assert s[k] == l[k - |u| - 2];
      }
    }
    NoWikiLinks(s);
    var sp := LinkSpan(|u| + 1, |u| + 2, e);
    forall k | |u| + 2 <= k < e
      ensures s[k] != ']'
    {
      assert s[k] == l[k - |u| - 2];
    }
    forall k | 1 <= k < |u| + 1
      ensures !IsSpace(s[k])
    {
      assert s[k] == u[k - 1];
    }
    assert s[|u| + 1] == ' ' && s[|u| + 2] == l[0] && s[e] == ']';
    assert s[|u| + 2..e] == l;
    WholeExternalLink(s, sp);
  }

  /** A simple wiki link inside plain text keeps only its target: the text
      around it is copied, as long as nothing after the link could close a
      longer match. */
  lemma SimpleLinkInText(x: string, t: string, y: string)
    requires '[' !in x && '[' !in t && '[' !in y
    requires '|' !in x && '|' !in t && '|' !in y
    requires '\n' !in t && ']' !in y
    ensures AuthorLinks(x + "[[" + t + "]]" + y) == x + t + y
  {
    var s := x + "[[" + t + "]]" + y;
    var n, b := |x|, |x| + 2 + |t|;
    forall k | 0 <= k < |s|
      ensures s[k] != '|'
      ensures k < n || b + 2 <= k ==> s[k] != '['
      ensures n <= k < b + 2 ==> s[k] != '\n'
      ensures b + 2 <= k ==> s[k] != ']'
    {
      if k < n {
        assert s[k] == x[k];
      } else if n + 2 <= k < b {
        assert s[k] == t[k - n - 2];
      } else if b + 2 <= k {
        assert s[k] == y[k - b - 2];
      }
    }
    assert NoMatch(PipedLink, s);
    SubIdentity(PipedLink, s);
    assert SimpleAt(s, n, b);
    assert SimpleLinkAt(s, n) == Some(b);
    assert s[n + 2..b] == t && s[b + 2..] == y && s[..n] == x;
    LinkAfterPlain(SimpleLink, s, n, Hit(b + 2, t));
    NoBracketNoLink(SimpleLink, y);
    SubIdentity(SimpleLink, y);
    ConcatAssoc(x, t, y);
    assert Sub(SimpleLink, Sub(PipedLink, s)) == x + t + y;
    NoBracketNoLink(ExternalLink, x + t + y);
    SubIdentity(ExternalLink, x + t + y);
  }

  /** A piped link with no `|` after its pipe and no `]` after its close
      is the one the scan finds. */
  lemma PipedLinkLast(s: string, n: nat, a: nat, b: nat)
    requires PipedAt(s, n, a, b)
    requires forall k :: a < k < b ==> s[k] != '|'
    requires forall k :: b + 2 <= k < |s| ==> s[k] != ']'
    ensures PipedLinkAt(s, n) == Some((a, b))
  {
    var m := PipedLinkAt(s, n);
    assert m.Some?;
    var (a', b') := m.value;
    assert PipedAt(s, n, a', b');
    assert b' == b;
    assert s[a'] == '|';
  }

  /** A piped wiki link inside plain text keeps only its label. The target
      may hold anything but a line feed. */
  lemma PipedLinkInText(x: string, t: string, l: string, y: string)
    requires '[' !in x && '[' !in l && '[' !in y
    requires '|' !in l && '\n' !in t && '\n' !in l && ']' !in y
    ensures AuthorLinks(x + "[[" + t + "|" + l + "]]" + y) == x + l + y
  {
    var s := x + "[[" + t + "|" + l + "]]" + y;
    var n := |x|;
    var a := n + 2 + |t|;
    var b := a + 1 + |l|;
    PipedInTextScan(x, t, l, y);
    assert s[b + 2..] == y;
    assert s[..n] == x;
    LinkAfterPlain(PipedLink, s, n, Hit(b + 2, l));
    NoBracketNoLink(PipedLink, y);
    SubIdentity(PipedLink, y);
    ConcatAssoc(x, l, y);
    assert Sub(PipedLink, s) == x + l + y;
    LinkFreeText(x + l + y);
  }

  /** The scan of `PipedLinkInText`'s value: no `[` before the link, which
      is found with its pipe and close where they were written. */
  lemma PipedInTextScan(x: string, t: string, l: string, y: string)
    requires '[' !in x && '[' !in l && '[' !in y
    requires '|' !in l && '\n' !in t && '\n' !in l && ']' !in y
    ensures var s := x + "[[" + t + "|" + l + "]]" + y;
            && |x| < |s| && (forall k :: 0 <= k < |x| ==> s[k] != '[')
            && MatchAt(PipedLink, s, |x|)
               == Some(Hit(|x| + 2 + |t| + 1 + |l| + 2, l))
  {
    var s := x + "[[" + t + "|" + l + "]]" + y;
    var n := |x|;
    var a := n + 2 + |t|;
    var b := a + 1 + |l|;
    forall k | 0 <= k < |s|
      ensures k < n || b + 2 <= k ==> s[k] != '['
      ensures a < k < b ==> s[k] != '|'
      ensures n <= k < b + 2 ==> s[k] != '\n'
      ensures b + 2 <= k ==> s[k] != ']'
    {
      if k < n {
        assert s[k] == x[k];
      } else if n + 2 <= k < a {
        assert s[k] == t[k - n - 2];
      } else if a < k < b {
        assert s[k] == l[k - a - 1];
      } else if b + 2 <= k {
        assert s[k] == y[k - b - 2];
      }
    }
    assert PipedAt(s, n, a, b);
    PipedLinkLast(s, n, a, b);
    assert s[a + 1..b] == l;
  }

  /** Two simple wiki links on one line are read as one: the greedy target
      runs from the first `[[` to the last `]]`, so both links keep their
      inner brackets. */
  lemma SimpleLinksGreedy(a: string, m: string, b: string)
    requires '[' !in a && '[' !in m && '[' !in b
    requires '|' !in a && '|' !in m && '|' !in b
    requires '\n' !in a && '\n' !in m && '\n' !in b && ']' !in b
    ensures AuthorLinks("[[" + a + "]]" + m + "[[" + b + "]]") == a + "]]" + m + "[[" + b
  {
    var s := "[[" + a + "]]" + m + "[[" + b + "]]";
    var inner := a + "]]" + m + "[[" + b;
    var q := |a| + 2 + |m|;
    assert s == "[[" + inner + "]]";
    forall k | 0 <= k < |inner|
      ensures inner[k] != '|' && inner[k] != '\n'
      ensures inner[k] == '[' ==> q <= k
      ensures q <= k ==> inner[k] != ']'
    {
      if k < |a| {
        assert inner[k] == a[k];
      } else if |a| + 2 <= k < q {
        assert inner[k] == m[k - |a| - 2];
      } else if q + 2 <= k {
        assert inner[k] == b[k - q - 2];
      }
    }
    WholeSimpleLink(s, inner);
    NoClosingBracket(inner, q);
  }

  /** Text that is one whole `[[…]]` on one line, with no pipe, becomes
      what lies between the brackets, whatever brackets that holds. */
  lemma WholeSimpleLink(s: string, inner: string)
    requires s == "[[" + inner + "]]"
    requires forall k :: 0 <= k < |inner| ==> inner[k] != '|' && inner[k] != '\n'
    ensures Sub(SimpleLink, Sub(PipedLink, s)) == inner
  {
    forall k | 0 <= k < |s|
      ensures s[k] != '|' && s[k] != '\n'
    {
      if 2 <= k < |s| - 2 {
        assert s[k] == inner[k - 2];
      }
    }
    assert NoMatch(PipedLink, s);
    SubIdentity(PipedLink, s);
    FirstFromAtLeast(s, 2, '\n', |s|);
    assert SimpleLinkAt(s, 0) == Some(|s| - 2);
    assert s[2..|s| - 2] == inner;
    assert Sub(SimpleLink, s) == inner + SubFrom(SimpleLink, s, |s|);
  }

  /** The external-link rule needs a `]` after its `[`: text whose every
      `[` lies at or after `q`, with no `]` from `q` on, passes unchanged. */
  lemma NoClosingBracket(s: string, q: nat)
    requires forall k :: 0 <= k < |s| && s[k] == '[' ==> q <= k
    requires forall k :: q <= k < |s| ==> s[k] != ']'
    ensures Sub(ExternalLink, s) == s
  {
    forall p | 0 <= p < |s|
      ensures MatchAt(ExternalLink, s, p).None?
    {
      if s[p] == '[' {
        var j := RunEnd(s, p + 1, false);
        var k := RunEnd(s, j, true);
        FirstFromAtLeast(s, k, ']', |s|);
      }
    }
    SubIdentity(ExternalLink, s);
  }

  /** Text with no `[` passes the simple-link and external-link rules. */
  lemma LinkFreeText(s: string)
    requires '[' !in s
    ensures Sub(ExternalLink, Sub(SimpleLink, s)) == s
  {
    NoBracketNoLink(SimpleLink, s);
    SubIdentity(SimpleLink, s);
    NoBracketNoLink(ExternalLink, s);
    SubIdentity(ExternalLink, s);
  }

  /** The first link of a text starts at `n`: what comes before is copied,
      the link becomes its replacement, and the rest is rewritten on its
      own. */
  lemma LinkAfterPlain(rule: Rule, s: string, n: nat, h: Hit)
    requires rule == PipedLink || rule == SimpleLink || rule == ExternalLink
    requires n < |s| && forall k :: 0 <= k < n ==> s[k] != '['
    requires MatchAt(rule, s, n) == Some(h)
    ensures Sub(rule, s) == s[..n] + (h.text + Sub(rule, s[h.end..]))
  {
    forall k | 0 <= k < n
      ensures MatchAt(rule, s, k).None?
    {
      assert s[k] != '[';
    }
    SubFromSkip(rule, s, 0, n);
    assert s[0..n] == s[..n];
    SubFromHit(rule, s, n, h);
    SubFromSuffix(rule, s, h.end);
  }

  /** Text whose only `[` is its first character holds no wiki link, so
      the two wiki-link rules leave it alone. */
  lemma NoWikiLinks(s: string)
    requires forall k :: 0 < k < |s| ==> s[k] != '['
    ensures Sub(SimpleLink, Sub(PipedLink, s)) == s
  {
    forall p | 0 <= p < |s|
      ensures MatchAt(PipedLink, s, p).None? && MatchAt(SimpleLink, s, p).None?
    {
      if p == 0 && |s| > 1 {
        assert s[1] != '[';
      }
    }
    SubIdentity(PipedLink, s);
    SubIdentity(SimpleLink, s);
  }

  /** Text that is one whole external link, with a single blank between
      url and label, becomes the label. */
  lemma WholeExternalLink(s: string, sp: LinkSpan)
    requires LinkAt(s, 0, sp) && sp.labelStart == sp.urlEnd + 1 && sp.labelEnd + 1 == |s|
    requires !IsSpace(s[sp.labelStart])
    ensures Sub(ExternalLink, s) == s[sp.labelStart..sp.labelEnd]
  {
    GreedyLinkScanned(s, 0, sp);
    assert Sub(ExternalLink, s) == s[sp.labelStart..sp.labelEnd] + SubFrom(ExternalLink, s, |s|);
  }

  /** A simple link on its own keeps only its target. */
  lemma SimpleAuthorExample(s: string, t: string)
    requires t == "John Doe" && s == "[[" + t + "]]"
    ensures AuthorLinks(s) == "John Doe"
  {
    assert t == ['J', 'o', 'h', 'n', ' ', 'D', 'o', 'e'];
    SimpleAuthorLink(t);
  }

  /** A two-author list: as written, the first `[[` and
      the last `|…]]` enclose one greedy match, so only the last label
      survives. */
  lemma GreedyAuthorExample(lib: Library, s: string)
    requires s == "[[John Doe]] and [[Jane Roe|Jane R.]]"
    ensures AuthorValue(lib, s) == lib.unescape("Jane R.")
  {
    var t, l := "John Doe]] and [[Jane Roe", "Jane R.";
    GreedySplit(s, t, l);
    GreedyTarget(t);
    GreedyLabel(l);
    PipedAuthorLink(t, l);
    PlainMisc(l);
  }

  /** The two-author list read as one piped link. */
  lemma GreedySplit(s: string, t: string, l: string)
    requires s == "[[John Doe]] and [[Jane Roe|Jane R.]]"
    requires t == "John Doe]] and [[Jane Roe" && l == "Jane R."
    ensures s == "[[" + t + "|" + l + "]]"
  {
    var r := "[[" + t + "|" + l + "]]";
    assert |r| == |s|;
    forall i | 0 <= i < |s|
      ensures r[i] == s[i]
    {
    }
  }

  lemma GreedyTarget(t: string)
    requires t == "John Doe]] and [[Jane Roe"
    ensures '\n' !in t
  {
    assert t == ['J', 'o', 'h', 'n', ' ', 'D', 'o', 'e', ']', ']', ' ', 'a', 'n', 'd', ' ',
                 '[', '[', 'J', 'a', 'n', 'e', ' ', 'R', 'o', 'e'];
  }

  lemma GreedyLabel(l: string)
    requires l == "Jane R."
    ensures '\n' !in l && '|' !in l && '[' !in l
    ensures NoMatch(AndWord, l) && !Occurs(l, Ellipsis) && !Occurs(l, Nbsp)
  {
    assert l == ['J', 'a', 'n', 'e', ' ', 'R', '.'];
    forall p | 0 <= p < |l|
      ensures MatchAt(AndWord, l, p).None?
    {
      assert p + 5 <= |l| ==> !IsSpace(l[p]);
    }
    NoDotNoEllipsis(l);
    NoAmpNoNbsp(l);
  }

  lemma NoDotNoEllipsis(l: string)
    requires l == ['J', 'a', 'n', 'e', ' ', 'R', '.']
    ensures !Occurs(l, Ellipsis)
  {
    var x := ['J', 'a', 'n', 'e', ' ', 'R'];
    assert l == x + ['.'];
    assert Ellipsis[0] == '.';
    NoOccursPrepend(x, ['.'], Ellipsis);
  }

  lemma NoAmpNoNbsp(l: string)
    requires l == ['J', 'a', 'n', 'e', ' ', 'R', '.']
    ensures !Occurs(l, Nbsp)
  {
    assert Nbsp[0] == '&';
    assert l + [] == l;
    NoOccursPrepend(l, [], Nbsp);
  }

  // ---------------------------------------------------------------------
  // url

  /** A protocol-relative url gets `http:` in front. */
  function FixUrl(s: string): (r: string)
    ensures StartsWith(s, "//") ==> r == "http:" + s
    ensures !StartsWith(s, "//") ==> r == s
    ensures !StartsWith(r, "//")
  {
    if StartsWith(s, "//") then
      var r := "http:" + s;
      assert r[0] == 'h';
      r
    else s
  }

  lemma FixUrlIdempotent(s: string)
    ensures FixUrl(FixUrl(s)) == FixUrl(s)
  {
  }

  // ---------------------------------------------------------------------
  // version

  const VersionLabels: seq<string> :=
    ["Version major", "Version minor", "Version patch", "Version prerelease", "Version build"]

  function NatText(n: Option<nat>): Option<string> {
    match n
    case Some(x) => Some(NatToString(x))
    case None => None
  }

  /** Identifiers joined with `,`. */
  function IdsText(ids: Option<seq<string>>): Option<string> {
    match ids
    case Some(x) => Some(Join(x, ","))
    case None => None
  }

  /** The components of a version in output order, labelled and rendered. */
  function Components(v: Version): seq<(string, Option<string>)> {
    [ (VersionLabels[0], NatText(v.major)),
      (VersionLabels[1], NatText(v.minor)),
      (VersionLabels[2], NatText(v.patch)),
      (VersionLabels[3], IdsText(v.prerelease)),
      (VersionLabels[4], IdsText(v.build)) ]
  }

  /** One line for each component that is present, in order. */
  function Present(cs: seq<(string, Option<string>)>): seq<Piece>
    decreases |cs|
  {
    if cs == [] then []
    else
      (match cs[0].1
       case Some(x) => [Piece(cs[0].0, x, true)]
       case None => [])
      + Present(cs[1..])
  }

  /** The lines written for the version parse; none when it failed. */
  function VersionPieces(v: Option<Version>): seq<Piece> {
    match v
    case Some(x) => Present(Components(x))
    case None => []
  }

  function Labels(ps: seq<Piece>): seq<string> {
    seq(|ps|, i requires 0 <= i < |ps| => ps[i].param)
  }

  function Keys(cs: seq<(string, Option<string>)>): seq<string> {
    seq(|cs|, i requires 0 <= i < |cs| => cs[i].0)
  }

  /** `xs` is `ys` with some elements left out, order kept. */
  predicate IsSubsequence(xs: seq<string>, ys: seq<string>)
    decreases |ys|
  {
    xs == [] || (ys != [] && ((xs[0] == ys[0] && IsSubsequence(xs[1..], ys[1..])) || IsSubsequence(xs, ys[1..])))
  }

  /** The value of the first line with the given label. */
  function Lookup(ps: seq<Piece>, param: string): Option<string>
    decreases |ps|
  {
    if ps == [] then None
    else if ps[0].param == param then Some(ps[0].value)
    else Lookup(ps[1..], param)
  }

  predicate DistinctKeys(cs: seq<(string, Option<string>)>) {
    forall a, b :: 0 <= a < b < |cs| ==> cs[a].0 != cs[b].0
  }

  lemma PresentInOrder(cs: seq<(string, Option<string>)>)
    ensures IsSubsequence(Labels(Present(cs)), Keys(cs))
    ensures forall i :: 0 <= i < |Present(cs)| ==> Present(cs)[i].newline
  {
    PresentOrdered(cs);
    PresentLines(cs);
  }

  lemma {:induction false} PresentOrdered(cs: seq<(string, Option<string>)>)
    ensures IsSubsequence(Labels(Present(cs)), Keys(cs))
    decreases |cs|
  {
    if cs != [] {
      PresentOrdered(cs[1..]);
      var xs, ys := Labels(Present(cs)), Keys(cs);
      var rest := Labels(Present(cs[1..]));
      assert ys != [] && ys[0] == cs[0].0 && ys[1..] == Keys(cs[1..]);
      match cs[0].1
      case Some(x) =>
        assert Present(cs) == [Piece(cs[0].0, x, true)] + Present(cs[1..]);
        assert xs[0] == ys[0] && xs[1..] == rest;
      case None =>
        assert xs == rest;
    }
  }

  lemma {:induction false} PresentLines(cs: seq<(string, Option<string>)>)
    ensures forall i :: 0 <= i < |Present(cs)| ==> Present(cs)[i].newline
    decreases |cs|
  {
    if cs != [] {
      PresentLines(cs[1..]);
      var rest := Present(cs[1..]);
      match cs[0].1
      case Some(x) =>
        assert Present(cs) == [Piece(cs[0].0, x, true)] + rest;
      case None =>
        assert Present(cs) == rest;
    }
  }

  lemma {:induction false} PresentLookupAbsent(cs: seq<(string, Option<string>)>, param: string)
    requires forall i :: 0 <= i < |cs| ==> cs[i].0 != param
    ensures Lookup(Present(cs), param) == None
    decreases |cs|
  {
    if cs != [] {
      PresentLookupAbsent(cs[1..], param);
      var rest := Present(cs[1..]);
      match cs[0].1
      case Some(x) =>
        assert Present(cs) == [Piece(cs[0].0, x, true)] + rest;
        assert Present(cs)[1..] == rest;
      case None =>
        assert Present(cs) == rest;
    }
  }

  /** With distinct labels, each component's line carries exactly its
      rendered value, and is missing exactly when the component is. */
  lemma {:induction false} PresentLookup(cs: seq<(string, Option<string>)>, i: nat)
    requires i < |cs| && DistinctKeys(cs)
    ensures Lookup(Present(cs), cs[i].0) == cs[i].1
    decreases |cs|
  {
    var rest := Present(cs[1..]);
    if i == 0 {
      PresentLookupAbsent(cs[1..], cs[0].0);
    } else {
      PresentLookup(cs[1..], i - 1);
    }
    match cs[0].1
    case Some(x) =>
      assert Present(cs) == [Piece(cs[0].0, x, true)] + rest;
      assert Present(cs)[1..] == rest;
    case None =>
      assert Present(cs) == rest;
  }

  lemma ComponentsDistinct(v: Version)
    ensures DistinctKeys(Components(v))
    ensures Keys(Components(v)) == VersionLabels
  {
    assert VersionLabels[0][8] == 'm' && VersionLabels[1][8] == 'm';
    assert VersionLabels[0][9] == 'a' && VersionLabels[1][9] == 'i';
    assert VersionLabels[2][8] == 'p' && VersionLabels[3][8] == 'p' && VersionLabels[4][8] == 'b';
    assert |VersionLabels[3]| == 18 && |VersionLabels[2]| == 13;
  }

  /** The version lines: none when the parse failed; otherwise each ends in
      a line break and their labels keep the fixed order major, minor, patch,
      prerelease, build. */
  lemma VersionPiecesShape(v: Option<Version>)
    ensures v.None? ==> VersionPieces(v) == []
    ensures forall i :: 0 <= i < |VersionPieces(v)| ==> VersionPieces(v)[i].newline
    ensures IsSubsequence(Labels(VersionPieces(v)), VersionLabels)
  {
    match v
    case None =>
      assert Labels([]) == [];
    case Some(x) =>
      ComponentsDistinct(x);
      PresentInOrder(Components(x));
  }

  /** Each component's line is present exactly when the component is, and
      carries its decimal or `,`-joined text. */
  lemma VersionPiecesLookup(v: Version)
    ensures Lookup(VersionPieces(Some(v)), "Version major") == NatText(v.major)
    ensures Lookup(VersionPieces(Some(v)), "Version minor") == NatText(v.minor)
    ensures Lookup(VersionPieces(Some(v)), "Version patch") == NatText(v.patch)
    ensures Lookup(VersionPieces(Some(v)), "Version prerelease") == IdsText(v.prerelease)
    ensures Lookup(VersionPieces(Some(v)), "Version build") == IdsText(v.build)
  {
    var cs := Components(v);
    ComponentsDistinct(v);
    PresentLookup(cs, 0);
    PresentLookup(cs, 1);
    PresentLookup(cs, 2);
    PresentLookup(cs, 3);
    PresentLookup(cs, 4);
  }

  // Reading the version back from its lines.

  function ReadNat(t: Option<string>): Option<nat> {
    match t
    case Some(x) => Some(ParseNat(x))
    case None => None
  }

  function ReadIds(t: Option<string>): Option<seq<string>> {
    match t
    case Some(x) => Some(Split(x, ','))
    case None => None
  }

  function ReadVersion(ps: seq<Piece>): Version {
    Version(
      ReadNat(Lookup(ps, "Version major")),
      ReadNat(Lookup(ps, "Version minor")),
      ReadNat(Lookup(ps, "Version patch")),
      ReadIds(Lookup(ps, "Version prerelease")),
      ReadIds(Lookup(ps, "Version build")))
  }

  /** Identifier lists as the parser yields them: nonempty, no `,` inside. */
  predicate IdsOk(ids: Option<seq<string>>) {
    ids.Some? ==> |ids.value| >= 1 && forall i :: 0 <= i < |ids.value| ==> ',' !in ids.value[i]
  }

  lemma NatTextRoundTrip(n: Option<nat>)
    ensures ReadNat(NatText(n)) == n
  {
    if n.Some? {
      ParseNatToString(n.value);
    }
  }

  lemma IdsTextRoundTrip(ids: Option<seq<string>>)
    requires IdsOk(ids)
    ensures ReadIds(IdsText(ids)) == ids
  {
    if ids.Some? {
      SplitJoin(ids.value, ',');
    }
  }

  /** The version lines lose nothing: reading them back gives the parsed
      version. */
  lemma VersionRoundTrip(v: Version)
    requires IdsOk(v.prerelease) && IdsOk(v.build)
    ensures ReadVersion(VersionPieces(Some(v))) == v
  {
    VersionPiecesLookup(v);
    NatTextRoundTrip(v.major);
    NatTextRoundTrip(v.minor);
    NatTextRoundTrip(v.patch);
    IdsTextRoundTrip(v.prerelease);
    IdsTextRoundTrip(v.build);
  }

}
