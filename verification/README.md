# Extensions subpage generator

This project models `RecordExtensionsTask.generate_template`. The method
turns the list of extensions a MediaWiki site reports into the wikitext of
a WikiApiary "Extensions" subpage.

The output is built as follows:

- A fixed include-only envelope wraps the whole text.
- Each extension that has a `name` entry gets one `{{Extension in use ...}}`
  template call. Other extensions add nothing.
- Each entry of the extension is written as one `|label=value` line, except
  `descriptionmsg`, which is never written.
- Well-known keys get readable labels. Any other key is its own label.
- Four keys run a sanitiser before their line is written:
  - **name**: a name written as an external link `[http… label]` is split.
    The url goes on an extra `|URL Embedded in name=` parameter, which has no
    line break after it. Only the label is kept. Then the illegal-character
    filter runs, the three spellings of a non-breaking space become spaces,
    and the value is unescaped.
  - **author**: a single wiki link or external link is reduced to its label
    or target. Two wiki links on one line are not, as described below. Then
    each whitespace-`and`-whitespace becomes `, `, `...` is removed,
    `&nbsp;` becomes a space, and the value is unescaped.
  - **url**: a protocol-relative url (`//…`) gets `http:` in front.
  - **version**: the raw value is written as usual. Before it comes one line
    per component of the parsed version: major, minor, patch, prerelease and
    build, in that order and only when present. Identifier lists are joined
    with `,`. When the parse fails, no component lines are written.

The model is layered:

- `Text` holds character classes, searches, decimal rendering and `,` joins.
- `Rewrite` writes out the regular expressions and `str.replace` as explicit
  scanners with Python 2 `re` semantics.
  - `\s` is `[ \t\n\r\f\v]`, and `.` does not match a line feed.
  - Greedy quantifiers settle on the longest choice that still matches.
  - `re.sub` replaces non-overlapping matches from left to right.
- `Markup` is the wikitext layout: parameters, template calls and the
  envelope.
- `Sanitize` holds the per-key rules.
- `Template` holds the whole generator, in two forms:
  - `Subpage` is a functional definition: the rendering of one parameter
    list per named record.
  - `GenerateTemplate` follows the generator's own nested loops and string
    appends. It is proved to produce exactly `Subpage`.

Some routines are parameters of type `Sanitize.Library` and have no
contract:

- the HTML unescaper;
- the inherited illegal-character filter;
- the lenient semantic-version parse (`None` where it raises).

One might expect the author value `[[John Doe]] and [[Jane Roe|Jane R.]]`
to become `John Doe, Jane R.`. It does not. The piped-link pattern
`\[\[.*\|(.*)\]\]` is greedy, so one match runs from the first `[[` to the
last `|…]]`, and only `Jane R.` survives. This model follows the code, and
`Sanitize.GreedyAuthorExample` proves that outcome.

The simple-link pattern `\[\[(.*)\]\]` is greedy in the same way. Two
simple links on one line, such as `[[A]], [[B]]`, form one match from the
first `[[` to the last `]]`. The value becomes `A]], [[B`, so neither link is
reduced. `Sanitize.SimpleLinksGreedy` proves this for any two such links.

## Model

| member | source | states |
|---|---|---|
| Template.GenerateTemplate | apiary/tasks/website/extensions.py:62-156 | The generator's nested loops and appends produce exactly the functional subpage `Subpage` for every list of records. |
| Template.AppendExtension | apiary/tasks/website/extensions.py:80-152 | One pass of the outer loop appends the record's template call when the record has a `name` entry, and nothing otherwise. |
| Template.WriteField | apiary/tasks/website/extensions.py:84-150 | The text the inner loop appends for one entry, with the sanitisers run in source order, is the rendering of that entry's lines. |
| Template.WriteVersion | apiary/tasks/website/extensions.py:106-121 | The five guarded appends for a parsed version give the rendering of its component lines. A failed parse appends nothing. |
| Template.RenderVersion | apiary/tasks/website/extensions.py:110-121 | The text of the version lines is the `\|label=value` line of major, minor, patch, prerelease and build, in that order, each written only when its component is present. |
| Template.Subpage | apiary/tasks/website/extensions.py:78-154 | The subpage always starts with the `<noinclude>{{Extensions subpage}}</noinclude><includeonly>` header and ends with `</includeonly>`. |
| Template.BlocksShape | apiary/tasks/website/extensions.py:80-82 | There are exactly as many template calls as records with a `name` entry. The i-th call holds the lines of the i-th named record, in input order. |
| Template.Named | apiary/tasks/website/extensions.py:80-81 | A record is among the named records exactly when it is in the input and has a `name` entry. There are never more named records than records. |
| Template.NamedIndices | apiary/tasks/website/extensions.py:80-81 | The named records are the input records at strictly increasing positions, so they keep the input order. Every record with a `name` entry is one of them, so none is dropped or repeated. |
| Template.NamedIdempotent | apiary/tasks/website/extensions.py:81 | Selecting the named records twice is the same as selecting them once. |
| Template.BlocksNamed | apiary/tasks/website/extensions.py:80-82 | The template calls are exactly the line lists of the named records, one per named record. |
| Template.BlocksAppend | apiary/tasks/website/extensions.py:80-82 | The template calls for two lists of records, one after the other, are the first list's calls followed by the second list's. |
| Template.OneBlock | apiary/tasks/website/extensions.py:80-152 | One record contributes `{{Extension in use` and its lines and `}}` when it has a `name` entry, and nothing otherwise. |
| Template.RecordPiecesAppend | apiary/tasks/website/extensions.py:84-150 | A record's lines are its entries' lines in entry order: splitting a record splits its lines the same way. |
| Template.HasKeyMeans | apiary/tasks/website/extensions.py:81 | The `'name' in extension` test holds exactly when some entry's key is `name`. |
| Template.SubpageOfNamed | apiary/tasks/website/extensions.py:80-82 | Dropping every record without a name leaves the subpage unchanged. |
| Template.UnnamedRecordAddsNothing | apiary/tasks/website/extensions.py:81 | Appending a record without a name leaves the subpage unchanged. |
| Template.SubpageAppend | apiary/tasks/website/extensions.py:78-154 | The subpage for two lists of records, one after the other, is the header, the first list's calls, the second list's calls and the footer. |
| Template.FieldPieces | apiary/tasks/website/extensions.py:84-150 | An entry writes nothing exactly when its key is ignored. Otherwise its own `label=value` line comes last and is the only line under its label. A name writes two lines when it holds an embedded url, the first being that url without a line break, and one line otherwise. The only line without a line break is the url embedded in a name. No line is labelled `descriptionmsg`. |
| Template.ExtraPiecesShape | apiary/tasks/website/extensions.py:93-121 | Only `name` and `version` entries write lines before their own line. A name holding an embedded url writes exactly one, that url without a line break, and a name without one writes none. A version writes component lines whose labels follow the fixed order major, minor, patch, prerelease, build. None of them uses the entry's label or `descriptionmsg`. |
| Template.Label | apiary/tasks/website/extensions.py:70-76 | Only the key `descriptionmsg` can be labelled `descriptionmsg`: no readable label collides with the ignored key. |
| Template.RecordPieces | apiary/tasks/website/extensions.py:84-85 | No line of a record is labelled `descriptionmsg`. |
| Template.IgnoredFieldDropped | apiary/tasks/website/extensions.py:68 | Inserting a `descriptionmsg` entry anywhere in a record changes neither its lines nor whether it gets a template call. |
| Template.EveryFieldWritten | apiary/tasks/website/extensions.py:84-150 | Every entry that is not ignored has its own `label=value` line among its record's lines. |
| Template.PlainField | apiary/tasks/website/extensions.py:87-88 | An entry under a key without a sanitiser is written as exactly one line with its value unchanged. |
| Template.NameFieldOf | apiary/tasks/website/extensions.py:90-104 | A name `[url label]…`, with any run of whitespace (space, tab, line feed, carriage return, form feed, vertical tab) between url and label, writes the url without a line break, then the name line. The name line carries the filtered, space-normalised, unescaped label, and the text after `]` is lost. |
| Template.NameFieldTabExample | apiary/tasks/website/extensions.py:90-104 | `[http://x<tab>Foo]` and `[http://x  Foo]` are both written as the url line `http://x` and the name line for `Foo`. |
| Template.PlainNameField | apiary/tasks/website/extensions.py:90-104 | A name that does not start with `[http` writes one line: the whole value, filtered, space-normalised and unescaped. |
| Template.VersionField | apiary/tasks/website/extensions.py:106-123 | The raw version is always written under `Extension version`. A failed parse writes that line alone. A successful parse can be read back from the lines written when neither identifier list is empty or holds an identifier with a `,` (an empty list is written as an empty value, which reads back as one empty identifier). |
| Template.AuthorFieldOfLink | apiary/tasks/website/extensions.py:125-142 | An author given as one piped wiki link on one line is written as its label, unescaped, when the label holds no `\|` or `[`, no `and` word, no `...` and no `&nbsp;`. A label with an `and` word is not covered, since the misc rules then rewrite it as well. |
| Template.UrlField | apiary/tasks/website/extensions.py:144-148 | A url entry writes one line whose value never starts with `//`. |
| Sanitize.NameLink | apiary/tasks/website/extensions.py:93-94 | The link found in a name is a real match of the pattern at the start, and it is the greedy one. |
| Sanitize.NameLinkComplete | apiary/tasks/website/extensions.py:93 | Whenever the name link pattern can match at the start of the value, a link is found. |
| Sanitize.NameLinkOf | apiary/tasks/website/extensions.py:93-94 | For `[url label]` followed by anything, with any non-empty run of whitespace between url and label, the url and the label are what the two groups capture. |
| Sanitize.NameLinkSpaced | apiary/tasks/website/extensions.py:93-94 | The single-space case of `NameLinkOf`. |
| Sanitize.NormaliseSpaces | apiary/tasks/website/extensions.py:103 | None of `&nbsp;`, `&#160;` or `&160;` survives. A value that has none of them is unchanged. |
| Sanitize.SpacesNormalised | apiary/tasks/website/extensions.py:103 | Parts joined by any one of the three spellings become the same parts joined by a space, when no part holds a spelling. |
| Sanitize.EmbeddedUrl | apiary/tasks/website/extensions.py:93-94 | A url found in a name follows the opening `[`, starts with `http` and holds no whitespace. |
| Sanitize.NameText | apiary/tasks/website/extensions.py:93-94 | A name without an embedded link is kept whole. Otherwise the label kept is non-empty, holds no `]` and is shorter than the name. |
| Sanitize.AuthorMisc | apiary/tasks/website/extensions.py:138-140 | After the misc rules, neither `...` nor `&nbsp;` occurs in the author value. |
| Sanitize.AuthorMiscAnd | apiary/tasks/website/extensions.py:138-140 | Names joined by ` and ` are written joined by `, `, when no name holds an `and` word, `...` or `&nbsp;`. |
| Sanitize.AuthorMiscNbsp | apiary/tasks/website/extensions.py:138-140 | Parts joined by `&nbsp;` are written joined by a space, when no part holds an `and` word, `...` or `&nbsp;`. |
| Sanitize.PlainMisc | apiary/tasks/website/extensions.py:138-140 | A value with no `and` word, no `...` and no `&nbsp;` passes the misc rules unchanged. |
| Sanitize.AuthorLinks | apiary/tasks/website/extensions.py:131-136 | A value with no `[` passes the three link rules unchanged. |
| Sanitize.SimpleAuthorLink | apiary/tasks/website/extensions.py:131-133 | `[[target]]` on one line, with no pipe or further `[` in the target, becomes the target. |
| Sanitize.SimpleAuthorExample | apiary/tasks/website/extensions.py:133 | `[[John Doe]]` becomes `John Doe`. |
| Sanitize.SimpleLinkInText | apiary/tasks/website/extensions.py:131-136 | A `[[target]]` with plain text on both sides becomes `text target text`, when nothing holds another `[` or a `\|`, the target is on one line, and no `]` follows the link. |
| Sanitize.PipedLinkInText | apiary/tasks/website/extensions.py:131-136 | A `[[target\|label]]` with plain text on both sides becomes `text label text`, when the label holds no `\|`, the text and label hold no `[`, the link is on one line, and no `]` follows it. |
| Sanitize.LinkAfterPlain | apiary/tasks/website/extensions.py:131-136 | For each link rule, when the first link starts after text with no `[`, the text is copied, the link becomes its replacement, and the rest of the value is rewritten on its own. |
| Sanitize.SimpleLinksGreedy | apiary/tasks/website/extensions.py:131-136 | Two simple links `[[a]]m[[b]]` on one line become `a]]m[[b`, when no `[` or `\|` appears in a, m or b and no `]` in b: one greedy match spans both. |
| Sanitize.ExternalAuthorLink | apiary/tasks/website/extensions.py:131-136 | `[url label]` becomes the label, when the url is non-empty with no whitespace, the label is non-empty and does not start with whitespace, neither part holds `[`, and the label holds no `]`. |
| Sanitize.AndWordJoin | apiary/tasks/website/extensions.py:138 | Two parts joined by ` and ` become the same two parts joined by `, `, when neither part holds an `and` word of its own. |
| Sanitize.AndWordSpaced | apiary/tasks/website/extensions.py:138 | The first `and` between two whitespace characters becomes `, `, whichever of space, tab, line feed, carriage return, form feed or vertical tab stands on either side. The text before it is copied, and the rest of the value is rewritten on its own. |
| Sanitize.AndWordTabExample | apiary/tasks/website/extensions.py:138 | `a`, tab, `and`, line feed, `b` becomes `a, b`. |
| Sanitize.AndWordStep | apiary/tasks/website/extensions.py:138 | The plain-space case of `AndWordSpaced`: the first ` and ` becomes `, ` when no `and` word lies before it, and the rest of the value is rewritten on its own. |
| Sanitize.AndWordsJoined | apiary/tasks/website/extensions.py:138 | Any number of parts joined by ` and ` become the same parts joined by `, `, when no part holds an `and` word of its own. |
| Sanitize.AuthorPair | apiary/tasks/website/extensions.py:131-142 | A plain `x and y` author list is written as `x, y`, unescaped. |
| Sanitize.PlainAuthor | apiary/tasks/website/extensions.py:131-142 | An author with no links and nothing for the misc rules to change is only unescaped. |
| Sanitize.PipedAuthorLink | apiary/tasks/website/extensions.py:131-136 | `[[target\|label]]` on one line becomes its label when the label holds no `\|` and no `[`, even when the target holds further links, pipes and `]]`. |
| Sanitize.GreedyAuthorExample | apiary/tasks/website/extensions.py:131-142 | `[[John Doe]] and [[Jane Roe\|Jane R.]]` is written as the unescaped `Jane R.`: one greedy match swallows the first link. |
| Sanitize.FixUrl | apiary/tasks/website/extensions.py:147-148 | A protocol-relative url gains `http:` in front. Any other url is unchanged. The result never starts with `//`. |
| Sanitize.FixUrlIdempotent | apiary/tasks/website/extensions.py:147-148 | Fixing a url twice is the same as fixing it once. |
| Sanitize.VersionPiecesShape | apiary/tasks/website/extensions.py:110-121 | A failed parse gives no component lines. Otherwise every line ends in a line break, and the labels keep the fixed order major, minor, patch, prerelease, build. |
| Sanitize.VersionPiecesLookup | apiary/tasks/website/extensions.py:110-121 | Each component's line is present exactly when the component is. It carries the component's decimal text, or its identifiers joined with `,`. |
| Sanitize.PresentInOrder | apiary/tasks/website/extensions.py:110-121 | The component lines written keep the order of the components, and each ends in a line break. |
| Sanitize.VersionRoundTrip | apiary/tasks/website/extensions.py:110-121 | Reading the component lines back gives the parsed version, when no identifier list is empty or holds a `,`. |
| Rewrite.BracketLinkAt | apiary/tasks/website/extensions.py:136 | The external-link match found is a match of `\[\S+\s+([^\]]+)\]` and the one greedy backtracking selects. |
| Rewrite.BracketLinkComplete | apiary/tasks/website/extensions.py:136 | Whenever the external-link pattern can match at a position, the scanner finds a match there. |
| Rewrite.GreedyLinkUnique | apiary/tasks/website/extensions.py:136 | The greedy external-link match at a position is unique. |
| Rewrite.PipedLinkAt | apiary/tasks/website/extensions.py:131 | The piped-link match found is a match, and its pipe and closing `]]` lie at or beyond those of every other match. No match is reported only when none exists. |
| Rewrite.SimpleLinkAt | apiary/tasks/website/extensions.py:133 | The simple-link match found ends at the last possible `]]` on the line. No match is reported only when none exists. |
| Rewrite.ReplaceAllAt | apiary/tasks/website/extensions.py:103 | The first occurrence of the pattern is replaced by the replacement text. The text before it is copied, and the rest is rewritten on its own. |
| Rewrite.ReplaceAllJoin | apiary/tasks/website/extensions.py:103 | Parts joined by the pattern become the same parts joined by the replacement, when no part runs into an occurrence. |
| Rewrite.SubFromSuffix | apiary/tasks/website/extensions.py:103-140 | For every rule, the link rules included, rewriting from a position is rewriting the rest of the value on its own. |
| Rewrite.MatchAtShift | apiary/tasks/website/extensions.py:103-140 | Every rule matches at a position of a value exactly as it matches at the same place of the value's suffix, with the same replacement text. No pattern looks behind its starting point. |
| Rewrite.SubFromSkip | apiary/tasks/website/extensions.py:103-140 | Characters at which the rule does not match are copied to the output unchanged. |
| Rewrite.SubIdentity | apiary/tasks/website/extensions.py:131-140 | A substitution that finds no match leaves the value unchanged. |
| Rewrite.MatchAt | apiary/tasks/website/extensions.py:131-140 | A match found at a position is non-empty and ends inside the value. |
| Rewrite.ReplaceRemoves | apiary/tasks/website/extensions.py:103 | After a replacement whose text shares no character with the pattern, the pattern no longer occurs. |
| Rewrite.ReplaceAbsent | apiary/tasks/website/extensions.py:139-140 | Replacing a pattern that does not occur changes nothing. |
| Rewrite.EllipsisGone | apiary/tasks/website/extensions.py:139 | After every `...` is removed, no `...` remains, even where removal brings dots together. |
| Text.NoOccursJoin | apiary/tasks/website/extensions.py:139-140 | Parts that lack a word, joined by a separator that cannot form it with them, still lack it. |
| Markup.RenderPiecesAppend | apiary/tasks/website/extensions.py:150 | The text of a list of lines is the text of each line, appended in order. |
| Markup.RenderBlocksAppend | apiary/tasks/website/extensions.py:80-152 | The text of a list of template calls is the text of each call, appended in order. |
| Text.ParseNatToString | apiary/tasks/website/extensions.py:111 | The decimal text written for a component reads back as the number. |
| Text.SplitJoin | apiary/tasks/website/extensions.py:117 | Splitting a `,`-join of a non-empty list of identifiers without commas gives the identifiers back. |

## Left out

- `run` (apiary/tasks/website/extensions.py:16-59) is not modelled. It is network and wiki-edit plumbing: the HTTP request, JSON decoding, the page edit and error recording.
- The HTML unescaper, the illegal-character filter and the semantic-version parse are parameters with no contract. Their code is not part of this model.
- The debug log written when the version parse fails has no effect on the output, so it is left out.
- Python dict iteration order is arbitrary. A record here is an ordered sequence of entries, and the output follows that order.
- Entry values are strings here. The `%s` formatting of other JSON value types is not modelled.
- Template.WriteVersion: assumes only the parse can raise inside the `try`. A failure part-way through the component lines, which would keep the lines already appended, is not modelled.
- Sanitize.VersionRoundTrip: excludes empty identifier lists and identifiers holding `,`. An empty list is written as an empty value, which reads back as one empty identifier.
- Characters are Dafny `char`s. Python 2 byte strings versus unicode strings are not distinguished.
