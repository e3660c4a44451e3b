/**
 * Cell-config conversion of the cells upgrader (`convert_cell_config`):
 * every cell definition becomes a fixed, unique element whose nestable
 * elements are the cell's elements, appended as a YAML block to the elements
 * file.
 */
module CellConfig {
  import opened Text

  /** One record of the cells file: its `name` and its `elements` list,
      which a record may lack. */
  datatype CellDefinition = CellDefinition(name: string, elements: Option<seq<string>>)

  /** The element definition a cell is turned into. */
  datatype FixedElement = FixedElement(name: string, nestableElements: seq<string>)

  /** The definition for `cell`, named by the fixed-element name finder. */
  function FixedElementFor(cell: CellDefinition, finder: string -> string): FixedElement
    requires cell.elements.Some?
  {
    FixedElement(finder(cell.name), cell.elements.value)
  }

  /** Every record lists its elements. */
  predicate AllListed(cells: seq<CellDefinition>) {
    forall i :: 0 <= i < |cells| ==> cells[i].elements.Some?
  }

  /** The definitions for `cells`, one per record and in the same order. */
  function Definitions(cells: seq<CellDefinition>, finder: string -> string): (es: seq<FixedElement>)
    requires AllListed(cells)
    ensures |es| == |cells|
    ensures forall i :: 0 <= i < |cells| ==>
      es[i].name == finder(cells[i].name) && es[i].nestableElements == cells[i].elements.value
  {
    seq(|cells|, i requires 0 <= i < |cells| => FixedElementFor(cells[i], finder))
  }

  /** Position of the first record without an `elements` list, or the number
      of records. `cell['elements'].join(', ')` raises there, so the
      conversion ends before that record's block. */
  function FirstUnlisted(cells: seq<CellDefinition>): (k: nat)
    ensures k <= |cells|
    ensures AllListed(cells[..k])
    ensures k < |cells| ==> cells[k].elements.None?
  {
    if cells == [] || cells[0].elements.None? then 0
    else
      var k := 1 + FirstUnlisted(cells[1..]);
      assert forall i :: 1 <= i < k ==> cells[..k][i] == cells[1..][..k - 1][i - 1];
      k
  }

  const NameLine: string := "\n- name: "
  const FlagLines: string := "\n" + "  fixed: true\n  unique: true\n  nestable_elements: ["

  /** The heredoc after `strip_heredoc`: its common 12-column indentation is
      removed, leaving a blank line, the `- name:` line and three lines indented
      by two spaces. */
  function BlockText(e: FixedElement): string {
    NameLine + e.name + FlagLines + Join(e.nestableElements, ", ") + "]\n"
  }

  /** The blocks for `es`, one after the other. */
  function Blocks(es: seq<FixedElement>): string
    decreases |es|
  {
    if es == [] then "" else BlockText(es[0]) + Blocks(es[1..])
  }

  lemma {:induction false} BlocksSnoc(es: seq<FixedElement>, e: FixedElement)
    ensures Blocks(es + [e]) == Blocks(es) + BlockText(e)
    decreases |es|
  {
    if es == [] {
      assert es + [e] == [e];
      assert [e][1..] == [];
    } else {
      assert (es + [e])[0] == es[0];
      assert (es + [e])[1..] == es[1..] + [e];
      BlocksSnoc(es[1..], e);
    }
  }

  lemma DefinitionsSnoc(cells: seq<CellDefinition>, i: nat, finder: string -> string)
    requires i < |cells| && AllListed(cells[..i + 1])
    ensures AllListed(cells[..i]) && cells[i].elements.Some?
    ensures Definitions(cells[..i + 1], finder) == Definitions(cells[..i], finder) + [FixedElementFor(cells[i], finder)]
  {
    assert cells[..i + 1][..i] == cells[..i];
    assert cells[..i + 1][i] == cells[i];
  }

  lemma AppendStep(cells: seq<CellDefinition>, i: nat, finder: string -> string)
    requires i < |cells| && AllListed(cells[..i + 1])
    ensures AllListed(cells[..i]) && cells[i].elements.Some?
    ensures Blocks(Definitions(cells[..i + 1], finder)) == Blocks(Definitions(cells[..i], finder)) + BlockText(FixedElementFor(cells[i], finder))
  {
    DefinitionsSnoc(cells, i, finder);
    BlocksSnoc(Definitions(cells[..i], finder), FixedElementFor(cells[i], finder));
  }

  lemma AppendBlock(original: string, before: string, block: string, after: string)
    requires after == before + block
    ensures original + before + block == original + after
  {
  }

  /** The elements file, which the conversion appends to. */
  class ElementsFile {
    var content: string

    constructor (content: string)
      ensures this.content == content
    {
      this.content := content;
    }
  }

  /** `convert_cell_config`: one block per cell, appended in the order of the
      cells file; the previous content stays in front, untouched. A record
      without `elements` raises while its block is built: the blocks of the
      records before it are already appended, and `completed` is false. */
  method ConvertCellConfig(file: ElementsFile, cells: seq<CellDefinition>, finder: string -> string) returns (completed: bool)
    modifies file
    ensures completed <==> AllListed(cells)
    ensures file.content == old(file.content) + Blocks(Definitions(cells[..FirstUnlisted(cells)], finder))
  {
    var original := file.content;
    var content := original;
    var k := FirstUnlisted(cells);
    var i := 0;
    while i < k
      invariant 0 <= i <= k
      invariant content == original + Blocks(Definitions(cells[..i], finder))
      modifies {}
    {
      assert cells[..i + 1] == cells[..k][..i + 1];
      var block := BlockText(FixedElementFor(cells[i], finder));
      AppendStep(cells, i, finder);
      AppendBlock(original, Blocks(Definitions(cells[..i], finder)), block, Blocks(Definitions(cells[..i + 1], finder)));
      content := content + block;
      i := i + 1;
    }
    file.content := content;
    completed := k == |cells|;
    if completed {
      assert cells[..k] == cells;
    } else {
      assert !AllListed(cells) by {
        assert cells[k].elements.None?;
      }
    }
  }

  // ---- reading the blocks back ----

  /** Reads one block from the front of `s`, giving the definition and what follows. */
  function ParseBlock(s: string): (r: Option<(FixedElement, string)>)
    ensures r.Some? ==> |r.value.1| < |s|
  {
    if !StartsWith(s, NameLine) then None
    else
      var t := s[|NameLine|..];
      var k := Run(t, NotNewline);
      var u := t[k..];
      if !StartsWith(u, FlagLines) then None
      else
        var v := u[|FlagLines|..];
        var j := Run(v, NotNewline);
        if j == 0 || j == |v| || v[j - 1] != ']' then None
        else Some((FixedElement(t[..k], ParseItems(v[..j - 1])), v[j + 1..]))
  }

  /** Reads a sequence of blocks that makes up all of `s`. */
  function ParseBlocks(s: string): Option<seq<FixedElement>>
    decreases |s|
  {
    if s == [] then Some([])
    else match ParseBlock(s)
      case None => None
      case Some((e, rest)) =>
        match ParseBlocks(rest)
        case None => None
        case Some(es) => Some([e] + es)
  }

  lemma ParseBlocksStep(s: string, e: FixedElement, rest: string)
    requires ParseBlock(s) == Some((e, rest))
    ensures ParseBlocks(s) == if ParseBlocks(rest).Some? then Some([e] + ParseBlocks(rest).value) else None
  {
  }

  /** A definition whose block can be read back: one-line name, and
      non-empty one-line element names without commas. */
  predicate Writable(e: FixedElement) {
    && '\n' !in e.name
    && forall i :: 0 <= i < |e.nestableElements| ==>
         PlainItem(e.nestableElements[i]) && '\n' !in e.nestableElements[i]
  }

  lemma JoinNoNewline(xs: seq<string>)
    requires forall i :: 0 <= i < |xs| ==> '\n' !in xs[i]
    ensures '\n' !in Join(xs, ", ")
    decreases |xs|
  {
    if |xs| > 1 {
      JoinNoNewline(xs[1..]);
    }
  }

  /** The name line ends where the flag lines begin. */
  lemma NameRun(name: string, v: string)
    requires '\n' !in name
    ensures Run(name + (FlagLines + v), NotNewline) == |name|
  {
    assert (FlagLines + v)[0] == '\n';
    assert forall i :: 0 <= i < |name| ==> NotNewline(name[i]);
    RunConcat(name, FlagLines + v, NotNewline);
  }

  /** The item line ends at its closing bracket. */
  lemma ItemsRun(items: string, rest: string)
    requires '\n' !in items
    ensures Run((items + "]") + ("\n" + rest), NotNewline) == |items| + 1
  {
    assert forall i :: 0 <= i < |items + "]"| ==> NotNewline((items + "]")[i]);
    RunConcat(items + "]", "\n" + rest, NotNewline);
  }

  /** How a block followed by `rest` splits at the points the reader looks at. */
  lemma BlockTextParts(e: FixedElement, rest: string)
    ensures var items := Join(e.nestableElements, ", ");
      var v := (items + "]") + ("\n" + rest);
      var u := FlagLines + v;
      var t := e.name + u;
      && BlockText(e) + rest == NameLine + t
      && StartsWith(NameLine + t, NameLine) && (NameLine + t)[|NameLine|..] == t
      && t[|e.name|..] == u && t[..|e.name|] == e.name
      && StartsWith(u, FlagLines) && u[|FlagLines|..] == v
      && v[..|items|] == items && v[|items|] == ']' && v[|items| + 2..] == rest
  {
    var items := Join(e.nestableElements, ", ");
    var v := (items + "]") + ("\n" + rest);
    SplitAt(NameLine, e.name + (FlagLines + v));
    SplitAt(e.name, FlagLines + v);
    SplitAt(FlagLines, v);
    assert BlockText(e) + rest == NameLine + (e.name + (FlagLines + v));
  }

  /** One block reads back as its definition, leaving what follows it. */
  lemma ParseBlockText(e: FixedElement, rest: string)
    requires Writable(e)
    ensures ParseBlock(BlockText(e) + rest) == Some((e, rest))
  {
    var items := Join(e.nestableElements, ", ");
    JoinNoNewline(e.nestableElements);
    var v := (items + "]") + ("\n" + rest);
    BlockTextParts(e, rest);
    NameRun(e.name, v);
    ItemsRun(items, rest);
    JoinParseItems(e.nestableElements);
  }

  /** The blocks of a list of definitions read back as exactly that list. */
  lemma {:induction false} ParseBlocksRoundTrip(es: seq<FixedElement>)
    requires forall i :: 0 <= i < |es| ==> Writable(es[i])
    ensures ParseBlocks(Blocks(es)) == Some(es)
    decreases |es|
  {
    if es != [] {
      var s := Blocks(es);
      ParseBlockText(es[0], Blocks(es[1..]));
      ParseBlocksRoundTrip(es[1..]);
      ParseBlocksStep(s, es[0], Blocks(es[1..]));
      assert [es[0]] + es[1..] == es;
    }
  }

  /** Cell-config append: the appended text holds exactly one block per cell,
      in the order of the cells file, each naming the finder's name for the
      cell and listing the cell's elements as its nestable elements; with no
      cells nothing is appended. */
  lemma AppendedBlocksPerCell(cells: seq<CellDefinition>, finder: string -> string)
    requires AllListed(cells)
    requires forall i :: 0 <= i < |cells| ==> Writable(FixedElementFor(cells[i], finder))
    ensures ParseBlocks(Blocks(Definitions(cells, finder))).Some?
    ensures var es := ParseBlocks(Blocks(Definitions(cells, finder))).value;
      |es| == |cells| &&
      forall i :: 0 <= i < |cells| ==>
        es[i].name == finder(cells[i].name) && es[i].nestableElements == cells[i].elements.value
    ensures cells == [] ==> Blocks(Definitions(cells, finder)) == ""
  {
    ParseBlocksRoundTrip(Definitions(cells, finder));
  }
}
