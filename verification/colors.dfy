/**
  The colours a block can take. The palette is a constant list; exactly one
  entry is marked selected, and its name is `DEFAULT_COLOR`.
 */
module Colors {

  import opened Wrappers

  datatype BlockColor = BlockColor(id: int, name: string, selected: bool)

  const BLOCK_COLORS: seq<BlockColor> := [
    BlockColor(1, "green", true),
    BlockColor(2, "blue", false),
    BlockColor(3, "yellow", false),
    BlockColor(4, "red", false)
  ]

  const DEFAULT_COLOR: string := "green"

  /** Some entry of `p` is selected, and no two entries are. */
  ghost predicate ExactlyOneSelected(p: seq<BlockColor>)
  {
    && (exists i :: 0 <= i < |p| && p[i].selected)
    && forall i, j :: 0 <= i < |p| && 0 <= j < |p| && p[i].selected && p[j].selected ==> i == j
  }

  /** The positions of the selected entries. */
  function SelectedPositions(p: seq<BlockColor>): set<int>
  {
    set i | 0 <= i < |p| && p[i].selected
  }

  /** The name of the first selected entry, if any. */
  function SelectedName(p: seq<BlockColor>): (r: Option<string>)
    ensures r.Some? <==> exists i :: 0 <= i < |p| && p[i].selected
    ensures r.Some? ==> exists i :: 0 <= i < |p| && p[i].selected && p[i].name == r.value
  {
    if p == [] then None
    else if p[0].selected then Some(p[0].name)
    else SelectedName(p[1..])
  }

  /** The palette has one selected entry: the first one. */
  lemma OneSelectedColor()
    ensures ExactlyOneSelected(BLOCK_COLORS)
    ensures SelectedPositions(BLOCK_COLORS) == {0}
  {
    assert BLOCK_COLORS[0].selected;
  }

  /** The selected entry is the default colour. */
  lemma SelectedIsDefault()
    ensures SelectedName(BLOCK_COLORS) == Some(DEFAULT_COLOR)
    ensures forall i :: 0 <= i < |BLOCK_COLORS| && BLOCK_COLORS[i].selected ==> BLOCK_COLORS[i].name == DEFAULT_COLOR
  {
  }

  /** The ids number the entries 1 to 4 in order, so they are distinct and
      strictly increasing. */
  lemma IdsCountUp()
    ensures forall i :: 0 <= i < |BLOCK_COLORS| ==> BLOCK_COLORS[i].id == i + 1
    ensures forall i, j :: 0 <= i < j < |BLOCK_COLORS| ==> BLOCK_COLORS[i].id < BLOCK_COLORS[j].id
  {
  }

  /** No two entries share a name. */
  lemma NamesDistinct()
    ensures forall i, j :: 0 <= i < j < |BLOCK_COLORS| ==> BLOCK_COLORS[i].name != BLOCK_COLORS[j].name
  {
  }
}
