/** The wikitext the generator writes: `|label=value` template parameters
    inside one `{{Extension in use ... }}` call per extension, all wrapped in
    the subpage's include-only envelope. */
module Markup {

  const Header: string := "<noinclude>{{Extensions subpage}}</noinclude><includeonly>"
  const Footer: string := "</includeonly>"
  const BlockOpen: string := "{{Extension in use\n"
  const BlockClose: string := "}}\n"

  /** One `|label=value` template parameter. `newline` is false only for the
      url found embedded in an extension name, which is written without a
      line break in front of the name's own parameter. */
  datatype Piece = Piece(param: string, value: string, newline: bool)

  function RenderPiece(p: Piece): string {
    "|" + p.param + "=" + p.value + (if p.newline then "\n" else "")
  }

  function RenderPieces(ps: seq<Piece>): string
    decreases |ps|
  {
    if ps == [] then "" else RenderPiece(ps[0]) + RenderPieces(ps[1..])
  }

  /** The template call written for one extension. */
  function RenderBlock(ps: seq<Piece>): string {
    BlockOpen + RenderPieces(ps) + BlockClose
  }

  function RenderBlocks(bs: seq<seq<Piece>>): string
    decreases |bs|
  {
    if bs == [] then "" else RenderBlock(bs[0]) + RenderBlocks(bs[1..])
  }

  /** The whole subpage: header, one template call per block, footer. */
  function RenderDocument(bs: seq<seq<Piece>>): string {
    Header + RenderBlocks(bs) + Footer
  }

  /** Rendering parameters is a concatenation homomorphism. */
  lemma {:induction false} RenderPiecesAppend(a: seq<Piece>, b: seq<Piece>)
    ensures RenderPieces(a + b) == RenderPieces(a) + RenderPieces(b)
    decreases |a|
  {
    if a == [] {
      assert a + b == b;
    } else {
      assert (a + b)[1..] == a[1..] + b;
      RenderPiecesAppend(a[1..], b);
    }
  }

  /** Rendering blocks is a concatenation homomorphism. */
  lemma {:induction false} RenderBlocksAppend(a: seq<seq<Piece>>, b: seq<seq<Piece>>)
    ensures RenderBlocks(a + b) == RenderBlocks(a) + RenderBlocks(b)
    decreases |a|
  {
    if a == [] {
      assert a + b == b;
    } else {
      assert (a + b)[1..] == a[1..] + b;
      RenderBlocksAppend(a[1..], b);
    }
  }

}
