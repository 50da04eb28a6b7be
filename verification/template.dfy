/** The extensions subpage generator: one `{{Extension in use}}` call per
    extension record that has a name, each field written as a `|label=value`
    line after its key's sanitiser has run. `Subpage` is the functional
    definition; `GenerateTemplate` follows the generator's own loops and is
    proved to produce the same text. */
module Template {
  import opened Opt
  import opened Text
  import opened Rewrite
  import opened Markup
  import opened Sanitize

  /** One key/value entry of an extension's description. */
  datatype Field = Field(key: string, value: string)

  /** An extension's description, in the order its entries are visited. */
  type Record = seq<Field>

  /** Keys that are never written to the subpage. */
  const IgnoredKeys: seq<string> := ["descriptionmsg"]

  /** Readable labels for the well-known keys. */
  const KeyNames: map<string, string> := map[
    "author" := "Extension author",
    "name" := "Extension name",
    "version" := "Extension version",
    "type" := "Extension type",
    "url" := "Extension URL"]

  /** The label a key is written under: its readable name, or the key itself. */
  function Label(key: string): (l: string)
    ensures key in KeyNames ==> l == KeyNames[key]
    ensures key !in KeyNames ==> l == key
    ensures l == "descriptionmsg" ==> key == "descriptionmsg"
  {
    if key in KeyNames then KeyNames[key] else key
  }

  /** The record has an entry with key `k` (Python's `k in extension`). */
  predicate HasKey(r: Record, k: string)
    decreases |r|
  {
    r != [] && (r[0].key == k || HasKey(r[1..], k))
  }

  lemma {:induction false} HasKeyMeans(r: Record, k: string)
    ensures HasKey(r, k) <==> exists i :: 0 <= i < |r| && r[i].key == k
    decreases |r|
  {
    if r != [] {
      HasKeyMeans(r[1..], k);
      if HasKey(r[1..], k) {
        var i :| 0 <= i < |r[1..]| && r[1..][i].key == k;
        assert r[i + 1].key == k;
      }
      if exists i :: 0 <= i < |r| && r[i].key == k {
        var i :| 0 <= i < |r| && r[i].key == k;
        if i > 0 {
          assert r[1..][i - 1].key == k;
        }
      }
    }
  }

  // ---------------------------------------------------------------------
  // One field

  /** The value written on a field's own line, after its key's sanitiser.
      A version is written as given; only the extra lines are parsed. */
  function FieldValue(lib: Library, f: Field): string {
    if f.key == "name" then NameValue(lib, f.value)
    else if f.key == "author" then AuthorValue(lib, f.value)
    else if f.key == "url" then FixUrl(f.value)
    else f.value
  }

  /** The field's own `|label=value` line. */
  function MainPiece(lib: Library, f: Field): Piece {
    Piece(Label(f.key), FieldValue(lib, f), true)
  }

  /** The lines written before the field's own line: the url embedded in a
      name, or the parsed version's components. */
  function ExtraPieces(lib: Library, f: Field): seq<Piece> {
    if f.key == "name" then
      match EmbeddedUrl(f.value)
      case Some(u) => [Piece(EmbeddedUrlLabel, u, false)]
      case None => []
    else if f.key == "version" then VersionPieces(lib.parseVersion(f.value))
    else []
  }

  /** Everything one field contributes. */
  function FieldPieces(lib: Library, f: Field): (ps: seq<Piece>)
    ensures f.key in IgnoredKeys <==> ps == []
    ensures ps != [] ==> ps[|ps| - 1] == MainPiece(lib, f)
    ensures forall i :: 0 <= i < |ps| && !ps[i].newline ==>
              f.key == "name" && ps[i].param == EmbeddedUrlLabel && EmbeddedUrl(f.value) == Some(ps[i].value)
    ensures f.key == "name" ==> |ps| == (if EmbeddedUrl(f.value).Some? then 2 else 1)
    ensures f.key == "name" && EmbeddedUrl(f.value).Some? ==>
              ps[0] == Piece(EmbeddedUrlLabel, EmbeddedUrl(f.value).value, false)
    ensures forall i :: 0 <= i < |ps| ==> ps[i].param != "descriptionmsg"
    ensures forall i :: 0 <= i < |ps| - 1 ==> ps[i].param != Label(f.key)
  {
    if f.key in IgnoredKeys then []
    else
      var xs := ExtraPieces(lib, f);
      ExtraPiecesShape(lib, f);
      var ps := xs + [MainPiece(lib, f)];
      assert forall i :: 0 <= i < |xs| ==> ps[i] == xs[i];
      ps
  }

  /** The extra lines are the embedded url (written exactly when the name
      holds one, and the only line without a line break) or version lines,
      and none is labelled with the ignored key. */
  lemma ExtraPiecesShape(lib: Library, f: Field)
    requires f.key !in IgnoredKeys
    ensures f.key != "name" && f.key != "version" ==> ExtraPieces(lib, f) == []
    ensures f.key == "name" ==> |ExtraPieces(lib, f)| <= 1
    ensures f.key == "name" ==> (ExtraPieces(lib, f) != [] <==> EmbeddedUrl(f.value).Some?)
    ensures f.key == "name" && EmbeddedUrl(f.value).Some? ==>
              ExtraPieces(lib, f) == [Piece(EmbeddedUrlLabel, EmbeddedUrl(f.value).value, false)]
    ensures f.key == "version" ==> IsSubsequence(Labels(ExtraPieces(lib, f)), VersionLabels)
    ensures forall i :: 0 <= i < |ExtraPieces(lib, f)| ==> ExtraPieces(lib, f)[i].param != "descriptionmsg"
    ensures forall i :: 0 <= i < |ExtraPieces(lib, f)| && !ExtraPieces(lib, f)[i].newline ==>
              f.key == "name" && ExtraPieces(lib, f)[i].param == EmbeddedUrlLabel
              && EmbeddedUrl(f.value) == Some(ExtraPieces(lib, f)[i].value)
    ensures forall i :: 0 <= i < |ExtraPieces(lib, f)| ==> ExtraPieces(lib, f)[i].param != Label(f.key)
  {
    var xs := ExtraPieces(lib, f);
    if f.key == "name" {
      assert EmbeddedUrlLabel[0] == 'U';
      assert Label(f.key) == "Extension name";
    } else if f.key == "version" {
      var v := lib.parseVersion(f.value);
      VersionPiecesShape(v);
      VersionLabelsNotIgnored(Labels(VersionPieces(v)));
      assert Label(f.key) == "Extension version";
      forall i | 0 <= i < |xs|
        ensures xs[i].param != "descriptionmsg" && xs[i].param != "Extension version"
      {
        assert Labels(xs)[i] == xs[i].param;
        SubsequenceMember(Labels(xs), VersionLabels, i);
        assert "Extension version"[1] == 'x';
      }
    }
  }

  /** No version label is the ignored key. */
  lemma {:induction false} VersionLabelsNotIgnored(xs: seq<string>)
    requires IsSubsequence(xs, VersionLabels)
    ensures forall i :: 0 <= i < |xs| ==> xs[i] != "descriptionmsg"
  {
    forall i | 0 <= i < |xs|
      ensures xs[i] != "descriptionmsg"
    {
      SubsequenceMember(xs, VersionLabels, i);
    }
  }

  lemma {:induction false} SubsequenceMember(xs: seq<string>, ys: seq<string>, i: nat)
    requires IsSubsequence(xs, ys) && i < |xs|
    ensures xs[i] in ys
    decreases |ys|
  {
    if xs[0] == ys[0] && IsSubsequence(xs[1..], ys[1..]) {
      if i > 0 {
        SubsequenceMember(xs[1..], ys[1..], i - 1);
      }
    } else {
      SubsequenceMember(xs, ys[1..], i);
    }
  }

  /** A field under a key without a sanitiser is written unchanged under its
      own (or readable) label, and nothing else is written for it. */
  lemma PlainField(lib: Library, f: Field)
    requires f.key !in IgnoredKeys
    requires f.key != "name" && f.key != "version" && f.key != "author" && f.key != "url"
    ensures FieldPieces(lib, f) == [Piece(Label(f.key), f.value, true)]
  {
  }

  /** A name written as `[url label]` (any run of whitespace between the
      two, anything after the `]`) yields a line carrying the url, with no
      line break after it, then the name line carrying only the filtered,
      space-normalised, unescaped label. */
  lemma NameFieldOf(lib: Library, u: string, w: string, l: string, rest: string)
    requires StartsWith(u, "http") && |u| >= 5
    requires forall i :: 0 <= i < |u| ==> !IsSpace(u[i])
    requires |w| >= 1 && forall i :: 0 <= i < |w| ==> IsSpace(w[i])
    requires |l| >= 1 && !IsSpace(l[0]) && ']' !in l
    ensures FieldPieces(lib, Field("name", "[" + u + w + l + "]" + rest))
         == [ Piece(EmbeddedUrlLabel, u, false),
              Piece("Extension name", lib.unescape(NormaliseSpaces(lib.filterIllegalChars(l))), true) ]
  {
    NameLinkOf(u, w, l, rest);
  }

  /** A tab, or several spaces, separate url and label as well as one space. */
  lemma NameFieldTabExample(lib: Library, s1: string, s2: string)
    requires s1 == "[http://x\tFoo]" && s2 == "[http://x  Foo]"
    ensures FieldPieces(lib, Field("name", s1)) == FieldPieces(lib, Field("name", s2))
         == [ Piece(EmbeddedUrlLabel, "http://x", false),
              Piece("Extension name", lib.unescape(NormaliseSpaces(lib.filterIllegalChars("Foo"))), true) ]
  {
    var u, l := "http://x", "Foo";
    assert IsSpace('\t') && IsSpace(' ');
    assert s1 == "[" + u + "\t" + l + "]" + "";
    assert s2 == "[" + u + "  " + l + "]" + "";
    NameFieldOf(lib, u, "\t", l, "");
    NameFieldOf(lib, u, "  ", l, "");
  }

  /** A name that does not start with `[http` is written as a single line. */
  lemma PlainNameField(lib: Library, s: string)
    requires !StartsWith(s, "[http")
    ensures FieldPieces(lib, Field("name", s))
         == [Piece("Extension name", lib.unescape(NormaliseSpaces(lib.filterIllegalChars(s))), true)]
  {
  }

  /** The value of the first line with the given label, across a join. */
  lemma {:induction false} LookupAppend(a: seq<Piece>, b: seq<Piece>, param: string)
    ensures Lookup(a + b, param) == if Lookup(a, param).Some? then Lookup(a, param) else Lookup(b, param)
    decreases |a|
  {
    if a != [] {
      assert (a + b)[1..] == a[1..] + b;
      LookupAppend(a[1..], b, param);
    } else {
      assert a + b == b;
    }
  }

  /** A version that parses is written raw on its own line, preceded by lines
      from which the parsed version can be read back; one that does not parse
      is written raw and alone. */
  lemma VersionField(lib: Library, raw: string)
    ensures lib.parseVersion(raw).None? ==>
              FieldPieces(lib, Field("version", raw)) == [Piece("Extension version", raw, true)]
    ensures lib.parseVersion(raw).Some? && IdsOk(lib.parseVersion(raw).value.prerelease)
              && IdsOk(lib.parseVersion(raw).value.build) ==>
              ReadVersion(FieldPieces(lib, Field("version", raw))) == lib.parseVersion(raw).value
    ensures Lookup(FieldPieces(lib, Field("version", raw)), "Extension version") == Some(raw)
  {
    var f := Field("version", raw);
    var v := lib.parseVersion(raw);
    var vs := VersionPieces(v);
    var m := [MainPiece(lib, f)];
    var ps := FieldPieces(lib, f);
    assert ps == vs + m;
    VersionPiecesShape(v);
    assert Lookup(ps, "Extension version") == Some(raw) by {
      VersionLabelsAbsent(vs);
      LookupAppend(vs, m, "Extension version");
    }
    if v.Some? && IdsOk(v.value.prerelease) && IdsOk(v.value.build) {
      VersionPiecesLookup(v.value);
      assert ReadVersion(ps) == ReadVersion(vs) by {
        LookupAppend(vs, m, "Version major");
        LookupAppend(vs, m, "Version minor");
        LookupAppend(vs, m, "Version patch");
        LookupAppend(vs, m, "Version prerelease");
        LookupAppend(vs, m, "Version build");
      }
      VersionRoundTrip(v.value);
    }
  }

  /** The version lines never carry the raw version's label. */
  lemma VersionLabelsAbsent(vs: seq<Piece>)
    requires IsSubsequence(Labels(vs), VersionLabels)
    ensures Lookup(vs, "Extension version") == None
  {
    forall i | 0 <= i < |vs|
      ensures vs[i].param != "Extension version"
    {
      assert Labels(vs)[i] == vs[i].param;
      SubsequenceMember(Labels(vs), VersionLabels, i);
      assert "Extension version"[1] == 'x';
    }
    LookupNone(vs, "Extension version");
  }

  lemma {:induction false} LookupNone(ps: seq<Piece>, param: string)
    requires forall i :: 0 <= i < |ps| ==> ps[i].param != param
    ensures Lookup(ps, param) == None
    decreases |ps|
  {
    if ps != [] {
      LookupNone(ps[1..], param);
    }
  }

  /** An author given as a single piped wiki link is written as its label,
      unescaped. */
  lemma AuthorFieldOfLink(lib: Library, t: string, l: string)
    requires '\n' !in t && '\n' !in l && '|' !in l && '[' !in l
    requires NoMatch(AndWord, l) && !Occurs(l, Ellipsis) && !Occurs(l, Nbsp)
    ensures FieldPieces(lib, Field("author", "[[" + t + "|" + l + "]]"))
         == [Piece("Extension author", lib.unescape(l), true)]
  {
    PipedAuthorLink(t, l);
    SubIdentity(AndWord, l);
    ReplaceAbsent(l, Ellipsis, "");
    ReplaceAbsent(l, Nbsp, " ");
  }

  /** A url field is written with a protocol-relative url made absolute. */
  lemma UrlField(lib: Library, s: string)
    ensures FieldPieces(lib, Field("url", s)) == [Piece("Extension URL", FixUrl(s), true)]
    ensures !StartsWith(FieldPieces(lib, Field("url", s))[0].value, "//")
  {
  }

  // ---------------------------------------------------------------------
  // One record

  /** Everything one record contributes inside its template call. */
  function RecordPieces(lib: Library, r: Record): (ps: seq<Piece>)
    ensures forall i :: 0 <= i < |ps| ==> ps[i].param != "descriptionmsg"
    decreases |r|
  {
    if r == [] then [] else FieldPieces(lib, r[0]) + RecordPieces(lib, r[1..])
  }

  lemma {:induction false} RecordPiecesAppend(lib: Library, a: Record, b: Record)
    ensures RecordPieces(lib, a + b) == RecordPieces(lib, a) + RecordPieces(lib, b)
    decreases |a|
  {
    if a == [] {
      assert a + b == b;
    } else {
      assert (a + b)[1..] == a[1..] + b;
      RecordPiecesAppend(lib, a[1..], b);
    }
  }

  /** Every field that is not ignored has its own line in the record's
      output. */
  lemma {:induction false} EveryFieldWritten(lib: Library, r: Record, i: nat)
    requires i < |r| && r[i].key !in IgnoredKeys
    ensures MainPiece(lib, r[i]) in RecordPieces(lib, r)
    decreases i
  {
    if i == 0 {
      var ps := FieldPieces(lib, r[0]);
      assert ps[|ps| - 1] == MainPiece(lib, r[0]);
      assert RecordPieces(lib, r)[|ps| - 1] == ps[|ps| - 1];
    } else {
      EveryFieldWritten(lib, r[1..], i - 1);
      assert RecordPieces(lib, r) == FieldPieces(lib, r[0]) + RecordPieces(lib, r[1..]);
    }
  }

  /** Inserting an ignored field anywhere in a record changes nothing. */
  lemma IgnoredFieldDropped(lib: Library, a: Record, f: Field, b: Record)
    requires f.key in IgnoredKeys
    ensures RecordPieces(lib, a + [f] + b) == RecordPieces(lib, a + b)
    ensures HasKey(a + [f] + b, "name") == HasKey(a + b, "name")
  {
    assert RecordPieces(lib, a + [f] + b) == RecordPieces(lib, a + b) by {
      RecordPiecesAppend(lib, a + [f], b);
      RecordPiecesAppend(lib, a, [f]);
      RecordPiecesAppend(lib, a, b);
      assert RecordPieces(lib, [f]) == FieldPieces(lib, f) + RecordPieces(lib, []);
      assert RecordPieces(lib, a) + [] == RecordPieces(lib, a);
    }
    assert HasKey(a + [f] + b, "name") == HasKey(a + b, "name") by {
      HasKeyAppend(a + [f], b, "name");
      HasKeyAppend(a, [f], "name");
      HasKeyAppend(a, b, "name");
      assert f.key != "name";
      assert [f][1..] == [];
    }
  }

  lemma {:induction false} HasKeyAppend(a: Record, b: Record, k: string)
    ensures HasKey(a + b, k) == (HasKey(a, k) || HasKey(b, k))
    decreases |a|
  {
    if a == [] {
      assert a + b == b;
    } else {
      assert (a + b)[1..] == a[1..] + b;
      HasKeyAppend(a[1..], b, k);
    }
  }

  // ---------------------------------------------------------------------
  // The whole subpage

  /** The records that get a template call: those with a `name` entry, in order. */
  function Named(rs: seq<Record>): (ns: seq<Record>)
    ensures forall r :: r in ns <==> r in rs && HasKey(r, "name")
    ensures |ns| <= |rs|
    decreases |rs|
  {
    if rs == [] then []
    else if HasKey(rs[0], "name") then [rs[0]] + Named(rs[1..])
    else
      assert forall r :: r in rs <==> r == rs[0] || r in rs[1..];
      Named(rs[1..])
  }

  /** Every position moved one place on. */
  function Shifted(idx: seq<nat>): (r: seq<nat>)
    ensures |r| == |idx|
    ensures forall k :: 0 <= k < |idx| ==> r[k] == idx[k] + 1
  {
    seq(|idx|, k requires 0 <= k < |idx| => idx[k] + 1)
  }

  /** Where the named records sit in the input: strictly increasing
      positions, holding exactly the records with a `name` entry, and
      `Named` lists the records at those positions in that order. So the
      named records are the input with every other record removed, order
      kept, and their number is the number of named positions. */
  function NamedIndices(rs: seq<Record>): (idx: seq<nat>)
    ensures |idx| == |Named(rs)|
    ensures forall k :: 0 <= k < |idx| ==> idx[k] < |rs| && Named(rs)[k] == rs[idx[k]]
    ensures forall k, l :: 0 <= k < l < |idx| ==> idx[k] < idx[l]
    ensures forall i :: 0 <= i < |rs| && HasKey(rs[i], "name") ==> i in idx
    decreases |rs|
  {
    if rs == [] then []
    else
      var rest := NamedIndices(rs[1..]);
      NamedIndicesStep(rs, rest);
      if HasKey(rs[0], "name") then [0] + Shifted(rest) else Shifted(rest)
  }

  /** `idx` lists, in increasing order, every position of `rs` whose record
      has a `name` entry, and `ns` holds the records at those positions. */
  ghost predicate IndexMap(rs: seq<Record>, ns: seq<Record>, idx: seq<nat>)
  {
    && |idx| == |ns|
    && (forall k :: 0 <= k < |idx| ==> idx[k] < |rs| && ns[k] == rs[idx[k]])
    && (forall k, l :: 0 <= k < l < |idx| ==> idx[k] < idx[l])
    && (forall i :: 0 <= i < |rs| && HasKey(rs[i], "name") ==> i in idx)
  }

  /** The inductive step of `NamedIndices`: the positions found in the tail,
      moved one place on, with position 0 in front when the head is named. */
  lemma NamedIndicesStep(rs: seq<Record>, rest: seq<nat>)
    requires rs != []
    requires IndexMap(rs[1..], Named(rs[1..]), rest)
    ensures HasKey(rs[0], "name") ==> IndexMap(rs, Named(rs), [0] + Shifted(rest))
    ensures !HasKey(rs[0], "name") ==> IndexMap(rs, Named(rs), Shifted(rest))
  {
    ShiftedTail(rs, rest);
    if HasKey(rs[0], "name") {
      assert Named(rs) == [rs[0]] + Named(rs[1..]);
      NamedHead(rs, Named(rs[1..]), Shifted(rest));
    } else {
      assert Named(rs) == Named(rs[1..]);
      UnnamedHead(rs, Named(rs[1..]), Shifted(rest));
    }
  }

  /** A named head goes in front at position 0. */
  lemma NamedHead(rs: seq<Record>, ns1: seq<Record>, sh: seq<nat>)
    requires rs != [] && HasKey(rs[0], "name")
    requires |sh| == |ns1|
    requires forall k :: 0 <= k < |sh| ==> 1 <= sh[k] < |rs| && ns1[k] == rs[sh[k]]
    requires forall k, l :: 0 <= k < l < |sh| ==> sh[k] < sh[l]
    requires forall i :: 1 <= i < |rs| && HasKey(rs[i], "name") ==> i in sh
    ensures IndexMap(rs, [rs[0]] + ns1, [0] + sh)
  {
    var idx := [0] + sh;
    var ns := [rs[0]] + ns1;
    forall k | 0 <= k < |idx|
      ensures idx[k] < |rs| && ns[k] == rs[idx[k]]
    {
      if k > 0 {
        assert idx[k] == sh[k - 1] && ns[k] == ns1[k - 1];
      }
    }
    forall k, l | 0 <= k < l < |idx|
      ensures idx[k] < idx[l]
    {
      if k > 0 {
        assert idx[k] == sh[k - 1] && idx[l] == sh[l - 1];
      } else {
        assert idx[l] == sh[l - 1];
      }
    }
    forall i | 0 <= i < |rs| && HasKey(rs[i], "name")
      ensures i in idx
    {
      if i > 0 {
        assert i in sh;
      }
    }
  }

  /** An unnamed head adds no position. */
  lemma UnnamedHead(rs: seq<Record>, ns1: seq<Record>, sh: seq<nat>)
    requires rs != [] && !HasKey(rs[0], "name")
    requires |sh| == |ns1|
    requires forall k :: 0 <= k < |sh| ==> 1 <= sh[k] < |rs| && ns1[k] == rs[sh[k]]
    requires forall k, l :: 0 <= k < l < |sh| ==> sh[k] < sh[l]
    requires forall i :: 1 <= i < |rs| && HasKey(rs[i], "name") ==> i in sh
    ensures IndexMap(rs, ns1, sh)
  {
    forall i | 0 <= i < |rs| && HasKey(rs[i], "name")
      ensures i in sh
    {
      assert i != 0;
    }
  }

  /** The positions found in the tail, moved one place on, are increasing
      positions of the whole list that hold the tail's named records and
      cover every named record after the head. */
  lemma ShiftedTail(rs: seq<Record>, rest: seq<nat>)
    requires rs != []
    requires IndexMap(rs[1..], Named(rs[1..]), rest)
    ensures var sh := Shifted(rest);
      && |sh| == |Named(rs[1..])|
      && (forall k :: 0 <= k < |sh| ==> 1 <= sh[k] < |rs| && Named(rs[1..])[k] == rs[sh[k]])
      && (forall k, l :: 0 <= k < l < |sh| ==> sh[k] < sh[l])
      && (forall i :: 1 <= i < |rs| && HasKey(rs[i], "name") ==> i in sh)
  {
    var sh := Shifted(rest);
    forall i | 1 <= i < |rs| && HasKey(rs[i], "name")
      ensures i in sh
    {
      assert rs[1..][i - 1] == rs[i];
      var k :| 0 <= k < |rest| && rest[k] == i - 1;
      assert sh[k] == i;
    }
    forall k | 0 <= k < |rest|
      ensures Named(rs[1..])[k] == rs[sh[k]]
    {
      assert rs[1..][rest[k]] == rs[rest[k] + 1];
    }
  }

  /** The parameter lists of the template calls, one per named record. */
  function Blocks(lib: Library, rs: seq<Record>): seq<seq<Piece>>
    decreases |rs|
  {
    if rs == [] then []
    else (if HasKey(rs[0], "name") then [RecordPieces(lib, rs[0])] else []) + Blocks(lib, rs[1..])
  }

  /** The parameter lists of the given records, in order. */
  function PiecesOf(lib: Library, ns: seq<Record>): seq<seq<Piece>>
    decreases |ns|
  {
    if ns == [] then [] else [RecordPieces(lib, ns[0])] + PiecesOf(lib, ns[1..])
  }

  /** The template calls are exactly the named records' parameter lists. */
  lemma {:induction false} BlocksNamed(lib: Library, rs: seq<Record>)
    ensures Blocks(lib, rs) == PiecesOf(lib, Named(rs))
    decreases |rs|
  {
    if rs != [] {
      BlocksNamed(lib, rs[1..]);
      if HasKey(rs[0], "name") {
        var ns := [rs[0]] + Named(rs[1..]);
        assert Named(rs) == ns;
        assert ns[0] == rs[0] && ns[1..] == Named(rs[1..]);
      }
    }
  }

  lemma {:induction false} PiecesOfIndex(lib: Library, ns: seq<Record>)
    ensures |PiecesOf(lib, ns)| == |ns|
    ensures forall i :: 0 <= i < |ns| ==> PiecesOf(lib, ns)[i] == RecordPieces(lib, ns[i])
    decreases |ns|
  {
    if ns != [] {
      PiecesOfIndex(lib, ns[1..]);
      var tail := PiecesOf(lib, ns[1..]);
      assert PiecesOf(lib, ns) == [RecordPieces(lib, ns[0])] + tail;
      forall i | 0 < i < |ns|
        ensures PiecesOf(lib, ns)[i] == RecordPieces(lib, ns[i])
      {
        assert PiecesOf(lib, ns)[i] == tail[i - 1];
        assert ns[1..][i - 1] == ns[i];
      }
    }
  }

  /** There is one template call per named record, holding that record's
      lines, in input order. */
  lemma BlocksShape(lib: Library, rs: seq<Record>)
    ensures |Blocks(lib, rs)| == |Named(rs)|
    ensures forall i :: 0 <= i < |Blocks(lib, rs)| ==> Blocks(lib, rs)[i] == RecordPieces(lib, Named(rs)[i])
  {
    BlocksNamed(lib, rs);
    PiecesOfIndex(lib, Named(rs));
  }

  lemma {:induction false} BlocksAppend(lib: Library, a: seq<Record>, b: seq<Record>)
    ensures Blocks(lib, a + b) == Blocks(lib, a) + Blocks(lib, b)
    decreases |a|
  {
    if a == [] {
      assert a + b == b;
    } else {
      var head := if HasKey(a[0], "name") then [RecordPieces(lib, a[0])] else [];
      assert (a + b)[0] == a[0];
      assert (a + b)[1..] == a[1..] + b;
      assert Blocks(lib, a + b) == head + Blocks(lib, a[1..] + b);
      assert Blocks(lib, a) == head + Blocks(lib, a[1..]);
      BlocksAppend(lib, a[1..], b);
      assert head + (Blocks(lib, a[1..]) + Blocks(lib, b)) == head + Blocks(lib, a[1..]) + Blocks(lib, b);
    }
  }

  /** The generated subpage. */
  function Subpage(lib: Library, rs: seq<Record>): (t: string)
    ensures StartsWith(t, Header) && EndsWith(t, Footer)
  {
    var t := RenderDocument(Blocks(lib, rs));
    assert t[..|Header|] == Header;
    assert t[|t| - |Footer|..] == Footer;
    t
  }

  /** Records without a name leave no trace: the subpage is the one written
      for the named records alone. */
  lemma SubpageOfNamed(lib: Library, rs: seq<Record>)
    ensures Subpage(lib, rs) == Subpage(lib, Named(rs))
  {
    NamedIdempotent(rs);
    BlocksShape(lib, rs);
    BlocksShape(lib, Named(rs));
    assert Blocks(lib, rs) == Blocks(lib, Named(rs));
  }

  lemma {:induction false} NamedIdempotent(rs: seq<Record>)
    ensures Named(Named(rs)) == Named(rs)
    decreases |rs|
  {
    if rs != [] {
      NamedIdempotent(rs[1..]);
      if HasKey(rs[0], "name") {
        assert ([rs[0]] + Named(rs[1..]))[1..] == Named(rs[1..]);
      }
    }
  }

  /** Appending a record without a name leaves the subpage unchanged. */
  lemma UnnamedRecordAddsNothing(lib: Library, rs: seq<Record>, r: Record)
    requires !HasKey(r, "name")
    ensures Subpage(lib, rs + [r]) == Subpage(lib, rs)
  {
    BlocksAppend(lib, rs, [r]);
    assert Blocks(lib, [r]) == [];
    assert Blocks(lib, rs) + [] == Blocks(lib, rs);
  }

  /** The subpage for a list of extensions followed by more extensions is
      the first list's template calls followed by the second's. */
  lemma SubpageAppend(lib: Library, a: seq<Record>, b: seq<Record>)
    ensures Subpage(lib, a + b)
         == Header + RenderBlocks(Blocks(lib, a)) + RenderBlocks(Blocks(lib, b)) + Footer
  {
    BlocksAppend(lib, a, b);
    RenderBlocksAppend(Blocks(lib, a), Blocks(lib, b));
    ConcatAssoc(Header, RenderBlocks(Blocks(lib, a)), RenderBlocks(Blocks(lib, b)));
  }

  // ---------------------------------------------------------------------
  // The generator's loops

  /** What the generator appends for one entry, computed step by step in the
      order the generator runs its sanitisers. */
  method WriteField(lib: Library, item: string, raw: string) returns (out: string)
    ensures out == RenderPieces(FieldPieces(lib, Field(item, raw)))
  {
    var f := Field(item, raw);
    if item in IgnoredKeys {
      return "";
    }
    var name := Label(item);
    var value := raw;
    var extra := "";
    if item == "name" {
      var link := NameLink(value);
      if link.Some? {
        var sp := link.value;
        extra := "|" + EmbeddedUrlLabel + "=" + value[1..sp.urlEnd];
        value := value[sp.labelStart..sp.labelEnd];
        NameExtra(lib, f, sp);
      }
      value := lib.filterIllegalChars(value);
      value := ReplaceAll(value, Nbsp, " ");
      value := ReplaceAll(value, NumericNbsp, " ");
      value := ReplaceAll(value, BareNbsp, " ");
      value := lib.unescape(value);
    }
    if item == "version" {
      extra := WriteVersion(lib.parseVersion(value));
    }
    if item == "author" {
      value := Sub(PipedLink, value);
      value := Sub(SimpleLink, value);
      value := Sub(ExternalLink, value);
      value := Sub(AndWord, value);
      value := ReplaceAll(value, Ellipsis, "");
      value := ReplaceAll(value, Nbsp, " ");
      value := lib.unescape(value);
    }
    if item == "url" {
      if StartsWith(value, "//") {
        value := "http:" + value;
      }
    }
    out := extra + "|" + name + "=" + value + "\n";
    RenderExtra(lib, f);
    assert value == FieldValue(lib, f);
    FieldLine(lib, f, extra, value);
  }

  /** The url line written for a name given as a link. */
  lemma NameExtra(lib: Library, f: Field, sp: LinkSpan)
    requires f.key == "name" && NameLink(f.value) == Some(sp)
    ensures "|" + EmbeddedUrlLabel + "=" + f.value[1..sp.urlEnd] == RenderPieces(ExtraPieces(lib, f))
  {
    var p := Piece(EmbeddedUrlLabel, f.value[1..sp.urlEnd], false);
    assert ExtraPieces(lib, f) == [p];
    assert RenderPieces([p]) == RenderPiece(p) + RenderPieces([]);
  }

  /** The extra lines followed by the entry's own line are the rendering of
      all its lines. */
  lemma FieldLine(lib: Library, f: Field, extra: string, value: string)
    requires f.key !in IgnoredKeys
    requires extra == RenderPieces(ExtraPieces(lib, f)) && value == FieldValue(lib, f)
    ensures extra + "|" + Label(f.key) + "=" + value + "\n" == RenderPieces(FieldPieces(lib, f))
  {
    var name := Label(f.key);
    assert extra + "|" + name + "=" + value + "\n" == extra + RenderPiece(MainPiece(lib, f)) by {
      ConcatAssoc(extra, "|" + name + "=" + value, "\n");
      ConcatAssoc(extra, "|" + name + "=", value);
      ConcatAssoc(extra, "|" + name, "=");
      ConcatAssoc(extra, "|", name);
    }
    RenderPiecesAppend(ExtraPieces(lib, f), [MainPiece(lib, f)]);
    assert RenderPieces([MainPiece(lib, f)]) == RenderPiece(MainPiece(lib, f)) + RenderPieces([]);
  }

  /** The extra lines of a field that is neither a name nor a version. */
  lemma RenderExtra(lib: Library, f: Field)
    ensures f.key != "name" && f.key != "version" ==> RenderPieces(ExtraPieces(lib, f)) == ""
  {
  }

  /** The lines the generator writes for a parsed version, one `if` per
      component. */
  method WriteVersion(v: Option<Version>) returns (lines: string)
    ensures lines == RenderPieces(VersionPieces(v))
  {
    lines := "";
    if v.None? {
      return;
    }
    var d := v.value;
    var cs := Components(d);
    if d.major.Some? {
      AppendLine(lines, VersionLabels[0], NatToString(d.major.value));
      lines := lines + "|" + VersionLabels[0] + "=" + NatToString(d.major.value) + "\n";
    }
    assert lines == ComponentLine(cs[0]);
    ghost var acc := lines;
    if d.minor.Some? {
      AppendLine(lines, VersionLabels[1], NatToString(d.minor.value));
      lines := lines + "|" + VersionLabels[1] + "=" + NatToString(d.minor.value) + "\n";
    }
    assert lines == acc + ComponentLine(cs[1]);
    acc := lines;
    if d.patch.Some? {
      AppendLine(lines, VersionLabels[2], NatToString(d.patch.value));
      lines := lines + "|" + VersionLabels[2] + "=" + NatToString(d.patch.value) + "\n";
    }
    assert lines == acc + ComponentLine(cs[2]);
    acc := lines;
    if d.prerelease.Some? {
      var prereleaseString := Join(d.prerelease.value, ",");
      AppendLine(lines, VersionLabels[3], prereleaseString);
      lines := lines + "|" + VersionLabels[3] + "=" + prereleaseString + "\n";
    }
    assert lines == acc + ComponentLine(cs[3]);
    acc := lines;
    if d.build.Some? {
      var buildString := Join(d.build.value, ",");
      AppendLine(lines, VersionLabels[4], buildString);
      lines := lines + "|" + VersionLabels[4] + "=" + buildString + "\n";
    }
    assert lines == acc + ComponentLine(cs[4]);
    RenderVersion(d);
  }

  /** Appending `|param=x` and a line break appends the rendered line. */
  lemma AppendLine(acc: string, param: string, x: string)
    ensures acc + "|" + param + "=" + x + "\n" == acc + RenderPiece(Piece(param, x, true))
  {
    ConcatAssoc(acc, "|" + param + "=" + x, "\n");
    ConcatAssoc(acc, "|" + param + "=", x);
    ConcatAssoc(acc, "|" + param, "=");
    ConcatAssoc(acc, "|", param);
  }

  /** The version lines rendered one component at a time: major, minor,
      patch, prerelease and build, each present exactly when its component
      is. */
  lemma RenderVersion(v: Version)
    ensures RenderPieces(VersionPieces(Some(v)))
         == ComponentLine((VersionLabels[0], NatText(v.major)))
            + ComponentLine((VersionLabels[1], NatText(v.minor)))
            + ComponentLine((VersionLabels[2], NatText(v.patch)))
            + ComponentLine((VersionLabels[3], IdsText(v.prerelease)))
            + ComponentLine((VersionLabels[4], IdsText(v.build)))
  {
    RenderPresentFive(Components(v));
  }

  lemma RenderPresentFive(cs: seq<(string, Option<string>)>)
    requires |cs| == 5
    ensures RenderPieces(Present(cs))
         == ComponentLine(cs[0]) + ComponentLine(cs[1]) + ComponentLine(cs[2])
            + ComponentLine(cs[3]) + ComponentLine(cs[4])
  {
    var r4 := RenderPieces(Present(cs[4..]));
    var r3 := RenderPieces(Present(cs[3..]));
    var r2 := RenderPieces(Present(cs[2..]));
    var r1 := RenderPieces(Present(cs[1..]));
    RenderPresentStep(cs[4..]);
    assert cs[4..][0] == cs[4] && cs[4..][1..] == [];
    assert r4 == ComponentLine(cs[4]);
    RenderPresentStep(cs[3..]);
    assert cs[3..][0] == cs[3] && cs[3..][1..] == cs[4..];
    assert r3 == ComponentLine(cs[3]) + r4;
    RenderPresentStep(cs[2..]);
    assert cs[2..][0] == cs[2] && cs[2..][1..] == cs[3..];
    assert r2 == ComponentLine(cs[2]) + r3;
    RenderPresentStep(cs[1..]);
    assert cs[1..][0] == cs[1] && cs[1..][1..] == cs[2..];
    assert r1 == ComponentLine(cs[1]) + r2;
    RenderPresentStep(cs);
    var c0, c1, c2, c3, c4 := ComponentLine(cs[0]), ComponentLine(cs[1]), ComponentLine(cs[2]),
                              ComponentLine(cs[3]), ComponentLine(cs[4]);
    ConcatAssoc(c0, c1, c2 + (c3 + c4));
    ConcatAssoc(c0 + c1, c2, c3 + c4);
    ConcatAssoc(c0 + c1 + c2, c3, c4);
  }

  /** The rendered line of a present component, or nothing. */
  function ComponentLine(c: (string, Option<string>)): string {
    match c.1
    case Some(x) => RenderPiece(Piece(c.0, x, true))
    case None => ""
  }

  lemma RenderPresentStep(cs: seq<(string, Option<string>)>)
    requires cs != []
    ensures RenderPieces(Present(cs)) == ComponentLine(cs[0]) + RenderPieces(Present(cs[1..]))
  {
    var rest := Present(cs[1..]);
    if cs[0].1.Some? {
      var p := Piece(cs[0].0, cs[0].1.value, true);
      assert Present(cs) == [p] + rest;
      RenderPiecesAppend([p], rest);
      assert RenderPieces([p]) == RenderPiece(p) + RenderPieces([]);
    } else {
      assert Present(cs) == rest;
    }
  }

  /** The generator as written: walk the extensions, open a template call for
      each one with a name, append each entry's lines, close the call, and
      wrap the whole in the subpage envelope. */
  method GenerateTemplate(lib: Library, extObj: seq<Record>) returns (templateBlock: string)
    ensures templateBlock == Subpage(lib, extObj)
  {
    templateBlock := Header;
    var e := 0;
    while e < |extObj|
      invariant 0 <= e <= |extObj|
      invariant templateBlock == Header + RenderBlocks(Blocks(lib, extObj[..e]))
    {
      ghost var before := templateBlock;
      templateBlock := AppendExtension(lib, templateBlock, extObj[e]);
      assert extObj[..e + 1] == extObj[..e] + [extObj[e]];
      BlocksAppend(lib, extObj[..e], [extObj[e]]);
      RenderBlocksAppend(Blocks(lib, extObj[..e]), Blocks(lib, [extObj[e]]));
      ConcatAssoc(Header, RenderBlocks(Blocks(lib, extObj[..e])), RenderBlocks(Blocks(lib, [extObj[e]])));
      e := e + 1;
    }
    assert extObj[..e] == extObj;
    templateBlock := templateBlock + Footer;
  }

  /** One pass of the generator's outer loop: a record with a name gets a
      template call holding each of its entries' lines; any other record
      adds nothing. */
  method AppendExtension(lib: Library, templateBlock: string, extension: Record) returns (t: string)
    ensures t == templateBlock + RenderBlocks(Blocks(lib, [extension]))
  {
    t := templateBlock;
    OneBlock(lib, extension);
    if HasKey(extension, "name") {
      t := t + BlockOpen;
      var j := 0;
      while j < |extension|
        invariant 0 <= j <= |extension|
        invariant t == templateBlock + BlockOpen + RenderPieces(RecordPieces(lib, extension[..j]))
      {
        var out := WriteField(lib, extension[j].key, extension[j].value);
        assert t + out == templateBlock + BlockOpen + RenderPieces(RecordPieces(lib, extension[..j + 1])) by {
          RecordStep(lib, extension, j);
          ConcatAssoc(templateBlock + BlockOpen, RenderPieces(RecordPieces(lib, extension[..j])), out);
        }
        t := t + out;
        j := j + 1;
      }
      t := t + BlockClose;
      assert t == templateBlock + RenderBlock(RecordPieces(lib, extension)) by {
        assert extension[..j] == extension;
        ConcatAssoc(templateBlock + BlockOpen, RenderPieces(RecordPieces(lib, extension)), BlockClose);
        ConcatAssoc(templateBlock, BlockOpen, RenderPieces(RecordPieces(lib, extension)));
        ConcatAssoc(templateBlock, BlockOpen + RenderPieces(RecordPieces(lib, extension)), BlockClose);
      }
    }
  }

  /** The rendered entries of a record grow by one entry's lines at a time. */
  lemma RecordStep(lib: Library, r: Record, j: nat)
    requires j < |r|
    ensures RenderPieces(RecordPieces(lib, r[..j + 1]))
         == RenderPieces(RecordPieces(lib, r[..j])) + RenderPieces(FieldPieces(lib, r[j]))
  {
    assert r[..j + 1] == r[..j] + [r[j]];
    RecordPiecesAppend(lib, r[..j], [r[j]]);
    assert RecordPieces(lib, [r[j]]) == FieldPieces(lib, r[j]) + RecordPieces(lib, []);
    assert FieldPieces(lib, r[j]) + [] == FieldPieces(lib, r[j]);
    RenderPiecesAppend(RecordPieces(lib, r[..j]), FieldPieces(lib, r[j]));
  }

  /** What a single record contributes to the subpage. */
  lemma OneBlock(lib: Library, r: Record)
    ensures HasKey(r, "name") ==> RenderBlocks(Blocks(lib, [r])) == RenderBlock(RecordPieces(lib, r))
    ensures !HasKey(r, "name") ==> RenderBlocks(Blocks(lib, [r])) == ""
  {
    assert [r][1..] == [];
    if HasKey(r, "name") {
      assert Blocks(lib, [r]) == [RecordPieces(lib, r)] + Blocks(lib, []);
      assert RenderBlocks([RecordPieces(lib, r)]) == RenderBlock(RecordPieces(lib, r)) + RenderBlocks([]);
    } else {
      assert Blocks(lib, [r]) == [] + Blocks(lib, []);
    }
  }

}
