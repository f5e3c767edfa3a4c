/**
  What the item operations do to what is known of one key, against what the
  forest stores for it: the cached cell overlays the stored item.
*/
module ItemCells {
  import opened Wrappers
  import opened Keys
  import opened ItemPages
  import opened LogItems

  predicate IsDirty(c: Cell) {
    c.Present? && c.item.dirty
  }

  /** An item that exists for those who look. */
  predicate Live(c: Cell) {
    c.Present? && !c.item.deletion
  }

  /** The cell of a key that was read. */
  function CellOf(l: Option<LogItem>): Cell {
    if l.None? then Absent else Present(Item(l.value.val, l.value.vers, false, true, l.value.deletion))
  }

  /** Deletions only override older versions; a read page does not keep them. */
  function Undeleted(c: Cell): Cell {
    if c.Present? && c.item.deletion then Absent else c
  }

  /**
    The cell of a key when a read of trees ends that spoke for a range: it stays as
    it is if it is cached by then.  A range that reaches the first or the last key
    is lost when it is trimmed.
  */
  function FillCell(c: Cell, trees: seq<Tree>, lo: nat, hi: nat, k: nat): Cell {
    if c == Uncached && 0 < lo <= k <= hi < MAX_KEY then Undeleted(CellOf(Newest(trees, k))) else c
  }

  /** The item of a dirty cell as it is written to the log tree. */
  function Logged(item: Item): LogItem {
    LogItem(item.vers, item.deletion, item.val)
  }

  // ---- the operations

  function Created(c: Cell, val: Bytes, vers: nat, force: bool): Cell {
    Present(Item(val, vers, true, force || (c.Present? && c.item.persistent), false))
  }

  function Dirtied(c: Cell, vers: nat): Cell
    requires c.Present?
  {
    Present(c.item.(vers := vers, dirty := true))
  }

  function Updated(c: Cell, val: Bytes, vers: nat): Cell
    requires c.Present?
  {
    Present(c.item.(val := val, vers := vers, dirty := true))
  }

  /** Only items that the forest could have need a deletion in their place. */
  function Deleted(c: Cell, vers: nat, force: bool): Cell {
    if force || (c.Present? && c.item.persistent) then Present(Item([], vers, true, true, true)) else Absent
  }

  /** After the commit of a dirty cell. */
  function Done(c: Cell): Cell {
    if !IsDirty(c) then c
    else if c.item.deletion then Absent else Present(c.item.(dirty := false, persistent := true))
  }

  // ---- cells and stored items

  /** What a stored item means. */
  function Value(l: Option<LogItem>): Option<Bytes> {
    if l.None? || l.value.deletion then None else Some(l.value.val)
  }

  /** What one who looks at the cache, and reads where it knows nothing, finds. */
  function Shown(c: Cell, l: Option<LogItem>): Option<Bytes> {
    match c
    case Uncached => Value(l)
    case Absent => None
    case Present(item) => if item.deletion then None else Some(item.val)
  }

  /** The forest overlaid with the dirty items. */
  function Overlay(c: Cell, l: Option<LogItem>): Option<Bytes> {
    if IsDirty(c) then Value(Some(Logged(c.item))) else Value(l)
  }

  /** What the forest stores once the dirty items are written. */
  function Committed(c: Cell, l: Option<LogItem>): Option<LogItem> {
    if IsDirty(c) then Some(Logged(c.item)) else l
  }

  /** A clean cell says what is stored; a dirty one has no lower version, and is persistent if anything is stored. */
  predicate Coherent(c: Cell, l: Option<LogItem>) {
    match c
    case Uncached => true
    case Absent => Value(l).None?
    case Present(item) =>
      && (!item.dirty ==> !item.deletion && item.persistent && l == Some(Logged(item)))
      && (!item.persistent ==> Value(l).None? && !item.deletion)
      && (l.Some? ==> l.value.vers <= item.vers)
  }

  /** The same between the commit of the dirty items and their cleaning. */
  predicate Flushed(c: Cell, l: Option<LogItem>) {
    if IsDirty(c) then l == Some(Logged(c.item)) else Coherent(c, l)
  }

  /** A write version that is not below what is cached or stored. */
  predicate MayWrite(c: Cell, l: Option<LogItem>, vers: nat) {
    (l.Some? ==> l.value.vers <= vers) && (c.Present? ==> c.item.vers <= vers)
  }

  /** Looking in the cache is looking in the forest overlaid with the dirty items. */
  lemma ShownIsOverlay(c: Cell, l: Option<LogItem>)
    requires Coherent(c, l) || Flushed(c, l)
    ensures Shown(c, l) == Overlay(c, l)
  {
  }

  /** An item that was read says what is stored. */
  lemma ReadIsCoherent(l: Option<LogItem>)
    ensures Coherent(Undeleted(CellOf(l)), l) && Shown(Undeleted(CellOf(l)), l) == Value(l)
  {
  }

  lemma OperationsAreCoherent(c: Cell, l: Option<LogItem>, val: Bytes, vers: nat)
    requires Coherent(c, l) && c != Uncached && MayWrite(c, l, vers)
    ensures Coherent(Created(c, val, vers, false), l) && Shown(Created(c, val, vers, false), l) == Some(val)
    ensures Coherent(Deleted(c, vers, false), l) && Shown(Deleted(c, vers, false), l) == None
    ensures Live(c) ==> Coherent(Updated(c, val, vers), l) && Shown(Updated(c, val, vers), l) == Some(val)
    ensures Live(c) ==> Coherent(Dirtied(c, vers), l) && Shown(Dirtied(c, vers), l) == Shown(c, l)
  {
  }

  /** Writing and cleaning the dirty items moves them from the overlay to the forest. */
  lemma CommitKeepsOverlay(c: Cell, l: Option<LogItem>)
    ensures Overlay(c, Committed(c, l)) == Overlay(c, l) == Overlay(Done(c), Committed(c, l))
    ensures Coherent(c, l) ==> Flushed(c, Committed(c, l))
    ensures Flushed(c, l) ==> Coherent(Done(c), l) && Shown(Done(c), l) == Shown(c, l)
  {
  }
}
