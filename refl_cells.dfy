/** The cells an object's serialized tree covers, and what it means for a
    read to restore them. */
module ReflCells {
  import opened Common
  import opened ReflData
  import opened ReflLookup

  /** The cells `Serialize` reads for the object of `k` at `at`: those of
      its parent parts, then those of its live members. */
  ghost function ObjectFootprint(reg: Registry, k: nat, at: int, fuel: nat): set<int>
    requires k < |reg.descs|
    decreases fuel, 1
  {
    ParentsFootprint(reg, k, 0, at, fuel) + MemberCells(reg.descs[k].members, 0, at)
  }

  /** The cells of the parent parts of `k` from parent `i` on. */
  ghost function ParentsFootprint(reg: Registry, k: nat, i: nat, at: int, fuel: nat): set<int>
    requires k < |reg.descs| && i <= |reg.descs[k].parents|
    decreases fuel, 0, |reg.descs[k].parents| - i
  {
    if i == |reg.descs[k].parents| || fuel == 0 || ParentDesc(reg, k, i).None? then {}
    else
      ObjectFootprint(reg, ParentDesc(reg, k, i).value, at + reg.descs[k].parents[i].baseOffset, fuel - 1) +
      ParentsFootprint(reg, k, i + 1, at, fuel)
  }

  /** `ObjectFootprint` and `ParentsFootprint` under names that are not
      recursive, so that a proof passes them on as they are rather than
      unfolding them: the facts about them are `ObjectCellsSplit` and
      `ParentCellsSplit`. */
  ghost function ObjectCells(reg: Registry, k: nat, at: int, fuel: nat): set<int>
    requires k < |reg.descs|
  {
    ObjectFootprint(reg, k, at, fuel)
  }

  ghost function ParentCells(reg: Registry, k: nat, i: nat, at: int, fuel: nat): set<int>
    requires k < |reg.descs| && i <= |reg.descs[k].parents|
  {
    ParentsFootprint(reg, k, i, at, fuel)
  }

  ghost function MemberCells(ms: seq<Member>, j: nat, at: int): set<int>
    requires j <= |ms|
    decreases |ms| - j
  {
    if j == |ms| then {}
    else (if ms[j].deprecated then {} else {at + ms[j].offset}) + MemberCells(ms, j + 1, at)
  }

  /** `r` holds what `mem` holds on `cells` and what `cur` holds elsewhere. */
  ghost predicate Restored(r: Memory, cur: Memory, mem: Memory, cells: set<int>)
  {
    forall a {:trigger CellAt(r, a)} :: CellAt(r, a) == if a in cells then CellAt(mem, a) else CellAt(cur, a)
  }

  /** `cur` with the cells in `cells` set to what `mem` holds there: the
      storage a read that restores exactly `cells` leaves behind. */
  ghost function Overlay(cur: Memory, mem: Memory, cells: set<int>): Memory
  {
    map a | a in cur.Keys + cells :: if a in cells then CellAt(mem, a) else cur[a]
  }

  /** An overlay restores its cells and leaves every other cell alone. */
  lemma OverlayRestores(cur: Memory, mem: Memory, cells: set<int>)
    ensures Restored(Overlay(cur, mem, cells), cur, mem, cells)
  {
    forall a ensures CellAt(Overlay(cur, mem, cells), a) == if a in cells then CellAt(mem, a) else CellAt(cur, a) {
    }
  }

  /** Overlaying no cells changes nothing. */
  lemma OverlayNone(cur: Memory, mem: Memory)
    ensures Overlay(cur, mem, {}) == cur
  {
  }

  /** Writing cell `a` from `mem` and then overlaying `cells` overlays `a`
      and `cells`. */
  lemma OverlayCons(cur: Memory, mem: Memory, a: int, cells: set<int>)
    ensures Overlay(cur[a := CellAt(mem, a)], mem, cells) == Overlay(cur, mem, {a} + cells)
  {
  }

  /** Overlaying `first` and then `second` overlays both. */
  lemma OverlayAppend(cur: Memory, mem: Memory, first: set<int>, second: set<int>)
    ensures Overlay(Overlay(cur, mem, first), mem, second) == Overlay(cur, mem, first + second)
  {
  }

  /** The parent parts' cells `cells` from parent `i` on are parent
      `i`'s object cells at its `baseOffset`, `own`, and then those of the
      later parents, `later`. */
  lemma ParentCellsSplit(reg: Registry, k: nat, i: nat, pk: nat, at: int, pat: int, fuel: nat, cells: set<int>)
    returns (own: set<int>, later: set<int>)
    requires k < |reg.descs| && i < |reg.descs[k].parents| && fuel > 0 && ParentDesc(reg, k, i) == Some(pk)
    requires pat == at + reg.descs[k].parents[i].baseOffset
    requires cells == ParentCells(reg, k, i, at, fuel)
    ensures own == ObjectCells(reg, pk, pat, fuel - 1) && later == ParentCells(reg, k, i + 1, at, fuel)
    ensures cells == own + later
  {
    own, later := ObjectFootprint(reg, pk, pat, fuel - 1), ParentsFootprint(reg, k, i + 1, at, fuel);
  }

  /** An object's cells `cells` are those of its parent parts, `parts`, and
      then those of its own members, `own`. */
  lemma ObjectCellsSplit(reg: Registry, k: nat, at: int, fuel: nat, cells: set<int>)
    returns (parts: set<int>, own: set<int>)
    requires k < |reg.descs| && cells == ObjectCells(reg, k, at, fuel)
    ensures parts == ParentCells(reg, k, 0, at, fuel) && own == MemberCells(reg.descs[k].members, 0, at)
    ensures cells == parts + own
  {
    parts, own := ParentCells(reg, k, 0, at, fuel), MemberCells(reg.descs[k].members, 0, at);
  }
}
