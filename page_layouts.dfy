/**
 * Page-layout conversion of the cells upgrader
 * (`convert_page_layouts_config` and the text post-processing in
 * `write_config`): every layout that still lists `cells` gets those cells
 * appended to its `elements` and `autogenerate` lists, both de-duplicated,
 * and loses its `cells` key.
 */
module PageLayouts {
  import opened Text
  import opened Lists

  /** The three keys of a layout record that the conversion reads or writes.
      `None` is a key that is absent or holds nil; the record's other keys
      (`name`, `unique`, ...) are never touched and are not modelled. */
  datatype LayoutValue = LayoutValue(
    elements: Option<seq<string>>,
    autogenerate: Option<seq<string>>,
    cells: Option<seq<string>>)

  /** `value || []` */
  function OrEmpty(o: Option<seq<string>>): seq<string> {
    if o.Some? then o.value else []
  }

  /** `p['cells'].present?`: the key holds a non-empty list. */
  predicate HasCells(l: LayoutValue) {
    l.cells.Some? && l.cells.value != []
  }

  /** The record after conversion: specification of one step of the loop. */
  function Converted(l: LayoutValue): LayoutValue {
    if HasCells(l) then
      LayoutValue(
        Some(Uniq(OrEmpty(l.elements) + l.cells.value)),
        Some(Uniq(OrEmpty(l.autogenerate) + l.cells.value)),
        None)
    else l
  }

  /** One parsed layout record, a hash the conversion updates in place. */
  class PageLayout {
    var elements: Option<seq<string>>
    var autogenerate: Option<seq<string>>
    var cells: Option<seq<string>>

    function Value(): LayoutValue
      reads this
    {
      LayoutValue(elements, autogenerate, cells)
    }

    constructor (elements: Option<seq<string>>, autogenerate: Option<seq<string>>, cells: Option<seq<string>>)
      ensures Value() == LayoutValue(elements, autogenerate, cells)
    {
      this.elements := elements;
      this.autogenerate := autogenerate;
      this.cells := cells;
    }
  }

  /** `convert_page_layouts_config`: the records loaded from the layouts file
      are updated in place, in file order. The records are taken to be
      distinct hashes: a YAML alias that makes two records one hash is not
      modelled (the second visit would find `cells` already deleted and
      raise). For distinct records, selecting the layouts with cells first
      and then updating them is the same as checking each in turn. */
  method ConvertPageLayoutsConfig(layouts: seq<PageLayout>)
    requires forall i, j :: 0 <= i < j < |layouts| ==> layouts[i] != layouts[j]
    modifies set l | l in layouts
    ensures forall i :: 0 <= i < |layouts| ==> layouts[i].Value() == Converted(old(layouts[i].Value()))
  {
    var i := 0;
    while i < |layouts|
      invariant 0 <= i <= |layouts|
      invariant forall k :: 0 <= k < i ==> layouts[k].Value() == Converted(old(layouts[k].Value()))
      invariant forall k :: i <= k < |layouts| ==> layouts[k].Value() == old(layouts[k].Value())
    {
      var layout := layouts[i];
      if layout.cells.Some? && layout.cells.value != [] {
        var elements := OrEmpty(layout.elements);
        var autogenerateElements := OrEmpty(layout.autogenerate);
        var cellElements := layout.cells.value;
        layout.cells := None;
        layout.elements := Some(Uniq(elements + cellElements));
        layout.autogenerate := Some(Uniq(autogenerateElements + cellElements));
      }
      i := i + 1;
    }
  }

  /** A merged list is clean: no repeats, exactly the values of the old list
      and the cells, in first-seen order of `old + cells`. */
  ghost predicate CleanMerge(merged: seq<string>, before: seq<string>, cells: seq<string>) {
    && NoDuplicates(merged)
    && (forall x :: x in merged <==> x in before || x in cells)
    && (forall i, j :: 0 <= i < j < |merged| ==>
          merged[i] in before + cells && merged[j] in before + cells &&
          FirstIndex(before + cells, merged[i]) < FirstIndex(before + cells, merged[j]))
  }

  lemma UniqIsCleanMerge(before: seq<string>, cells: seq<string>)
    ensures CleanMerge(Uniq(before + cells), before, cells)
  {
    var all := before + cells;
    UniqNoDuplicates(all);
    forall x ensures x in Uniq(all) <==> x in before || x in cells {
      UniqSameElements(all, x);
    }
    forall i, j | 0 <= i < j < |Uniq(all)|
      ensures Uniq(all)[i] in all && Uniq(all)[j] in all
      ensures FirstIndex(all, Uniq(all)[i]) < FirstIndex(all, Uniq(all)[j])
    {
      UniqFirstSeenOrder(all, i, j);
    }
  }

  /** Merge rule: a layout with cells comes out with clean `elements` and
      `autogenerate` lists built from the old lists (missing counts as empty)
      and the cells, and without a `cells` key. */
  lemma ConvertedMergesCells(l: LayoutValue)
    requires HasCells(l)
    ensures Converted(l).cells.None?
    ensures Converted(l).elements.Some? && CleanMerge(Converted(l).elements.value, OrEmpty(l.elements), l.cells.value)
    ensures Converted(l).autogenerate.Some? && CleanMerge(Converted(l).autogenerate.value, OrEmpty(l.autogenerate), l.cells.value)
  {
    UniqIsCleanMerge(OrEmpty(l.elements), l.cells.value);
    UniqIsCleanMerge(OrEmpty(l.autogenerate), l.cells.value);
  }

  /** Entries already listed keep their places at the front of the merged list
      when the old list had no repeats. */
  lemma ConvertedKeepsExistingOrder(l: LayoutValue)
    requires HasCells(l)
    requires NoDuplicates(OrEmpty(l.elements)) && NoDuplicates(OrEmpty(l.autogenerate))
    ensures OrEmpty(l.elements) <= Converted(l).elements.value
    ensures OrEmpty(l.autogenerate) <= Converted(l).autogenerate.value
  {
    UniqOfDistinct(OrEmpty(l.elements));
    UniqPrefix(OrEmpty(l.elements), l.cells.value);
    UniqOfDistinct(OrEmpty(l.autogenerate));
    UniqPrefix(OrEmpty(l.autogenerate), l.cells.value);
  }

  /** Nothing else changes, and a converted layout is left as it is by a second
      run: a `cells` key that is absent or empty keeps the record unchanged. */
  lemma ConvertedIdempotent(l: LayoutValue)
    ensures !HasCells(l) ==> Converted(l) == l
    ensures Converted(Converted(l)) == Converted(l)
  {
  }

  /** `elements: [e1]`, `cells: [c1, c2]`, no `autogenerate`: the result lists
      `[e1, c1, c2]` and `[c1, c2]` and no `cells`. */
  lemma ConvertedExample(e1: string, c1: string, c2: string)
    requires e1 != c1 && e1 != c2 && c1 != c2
    ensures Converted(LayoutValue(Some([e1]), None, Some([c1, c2])))
         == LayoutValue(Some([e1, c1, c2]), Some([c1, c2]), None)
  {
    assert OrEmpty(Some([e1])) + [c1, c2] == [e1, c1, c2];
    assert OrEmpty(None) + [c1, c2] == [c1, c2];
    UniqOfDistinct([e1, c1, c2]);
    UniqOfDistinct([c1, c2]);
  }

  /** A cell that is already an element is listed once, at its first place. */
  lemma ConvertedSharedNameExample(a: string, b: string, c: string)
    requires a != b && a != c && b != c
    ensures Converted(LayoutValue(Some([a, b]), Some([b]), Some([b, c])))
         == LayoutValue(Some([a, b, c]), Some([b, c]), None)
  {
    SharedNameLists(a, b, c);
  }

  lemma SharedNameLists(a: string, b: string, c: string)
    requires a != b && a != c && b != c
    ensures Uniq([a, b] + [b, c]) == [a, b, c] && Uniq([b] + [b, c]) == [b, c]
  {
    UniqRepeatThenNew([a, b], b, c);
    UniqRepeatThenNew([b], b, c);
  }

  // ---- write_config ----

  /** `to_yaml.sub("---\n", "")`, with the document marker dropped ... */
  function DropDocumentMarker(yaml: string): string {
    ReplaceFirst(yaml, "---\n", "")
  }

  /** ... and `gsub("\n-", "\n\n-")`, a blank line before every top-level item. */
  function SeparateItems(t: string): string {
    ReplaceAll(t, "\n-", "\n\n-")
  }

  /** The text written to the page layouts file for the serializer's output `yaml`. */
  function PageLayoutsText(yaml: string): string {
    SeparateItems(DropDocumentMarker(yaml))
  }

  /** Every `-` that starts a line of the separated text has a blank line above it. */
  predicate BlankLineBeforeItems(r: string) {
    forall i :: 1 <= i < |r| && r[i - 1] == '\n' && r[i] == '-' ==> 2 <= i && r[i - 2] == '\n'
  }

  lemma SeparateItemsUnfold(t: string)
    requires t != []
    ensures StartsWith(t, "\n-") ==> SeparateItems(t) == "\n\n-" + SeparateItems(t[2..])
    ensures !StartsWith(t, "\n-") ==> SeparateItems(t) == [t[0]] + SeparateItems(t[1..])
  {
  }

  /** Separation keeps the first character. */
  lemma SeparateItemsHead(t: string)
    requires t != []
    ensures SeparateItems(t) != [] && SeparateItems(t)[0] == t[0]
  {
    SeparateItemsUnfold(t);
  }

  lemma {:induction false} SeparateItemsBlankLines(t: string)
    ensures BlankLineBeforeItems(SeparateItems(t))
    decreases |t|
  {
    if t != [] {
      SeparateItemsUnfold(t);
      var r := SeparateItems(t);
      if StartsWith(t, "\n-") {
        var rest := SeparateItems(t[2..]);
        SeparateItemsBlankLines(t[2..]);
        forall i | 1 <= i < |r| && r[i - 1] == '\n' && r[i] == '-' ensures 2 <= i && r[i - 2] == '\n' {
          if i >= 4 {
            assert r[i] == rest[i - 3] && r[i - 1] == rest[i - 4];
          }
        }
      } else {
        var rest := SeparateItems(t[1..]);
        SeparateItemsBlankLines(t[1..]);
        forall i | 1 <= i < |r| && r[i - 1] == '\n' && r[i] == '-' ensures 2 <= i && r[i - 2] == '\n' {
          if i == 1 {
            SeparateItemsHead(t[1..]);
            assert false;
          } else {
            assert r[i] == rest[i - 1] && r[i - 1] == rest[i - 2];
          }
        }
      }
    }
  }

  /** Removing the blank lines again, `gsub("\n-", "-")`. */
  function JoinItems(t: string): string {
    ReplaceAll(t, "\n-", "-")
  }

  lemma JoinItemsUnfold(t: string)
    requires t != []
    ensures StartsWith(t, "\n-") ==> JoinItems(t) == "-" + JoinItems(t[2..])
    ensures !StartsWith(t, "\n-") ==> JoinItems(t) == [t[0]] + JoinItems(t[1..])
  {
  }

  /** The separated text loses nothing: removing the inserted blank lines gives back the input. */
  lemma {:induction false} SeparateItemsInverse(t: string)
    ensures JoinItems(SeparateItems(t)) == t
    decreases |t|
  {
    if t != [] {
      SeparateItemsUnfold(t);
      if StartsWith(t, "\n-") {
        var x := SeparateItems(t[2..]);
        SeparateItemsInverse(t[2..]);
        var y := "\n-" + x;
        JoinItemsUnfold(y);
        assert StartsWith(y, "\n-") && y[2..] == x;
        var z := "\n\n-" + x;
        JoinItemsUnfold(z);
        assert z[..2] == "\n\n" && z[1..] == y;
        assert t == "\n-" + t[2..];
      } else {
        var x := SeparateItems(t[1..]);
        SeparateItemsInverse(t[1..]);
        var r := [t[0]] + x;
        JoinItemsUnfold(r);
        if StartsWith(r, "\n-") {
          SeparateItemsHead(t[1..]);
          assert false;
        }
        assert r[1..] == x;
      }
    }
  }

  /** Config output: when the serializer's text opens with the document marker,
      the written file is that text without the marker and with a blank line
      inserted before every top-level item, and putting the marker back and
      removing those blank lines restores the serializer's text exactly. */
  lemma PageLayoutsTextRoundTrip(yaml: string)
    requires StartsWith(yaml, "---\n")
    ensures PageLayoutsText(yaml) == SeparateItems(yaml[4..])
    ensures BlankLineBeforeItems(PageLayoutsText(yaml))
    ensures "---\n" + JoinItems(PageLayoutsText(yaml)) == yaml
  {
    assert yaml[0..] == yaml;
    ReplaceFirstAt(yaml, "---\n", "", 0);
    assert yaml[..0] + "" + yaml[4..] == yaml[4..];
    SeparateItemsBlankLines(yaml[4..]);
    SeparateItemsInverse(yaml[4..]);
  }

  /** Without a document marker only the blank lines are inserted. */
  lemma PageLayoutsTextWithoutMarker(yaml: string)
    requires !Contains(yaml, "---\n")
    ensures PageLayoutsText(yaml) == SeparateItems(yaml)
    ensures JoinItems(PageLayoutsText(yaml)) == yaml
  {
    ReplaceFirstAbsent(yaml, "---\n", "");
    SeparateItemsInverse(yaml);
  }
}
