/** A whole `.debug_line` section: `bw_dwarf_tab_parse` fills and sorts a table, `bw_dwarf_tab_lookup`
    searches it. */
module LineIndex {
  import opened Bytes
  import opened Cursors
  import opened LineTables
  import opened Forms
  import opened Units
  import opened Sorting

  /** Result of a section: how the walk over the units ended, the pool, and every row of every accepted
      unit, in order and without any limit on their number. */
  datatype Index = Index(status: Status, pool: Bytes, rows: seq<Row>)

  function ParseSection(s: Bytes, sections: Sections, pool: Bytes): (x: Index)
    requires |pool| <= STR_MAX
    ensures |x.pool| <= STR_MAX && pool <= x.pool
    decreases |s|
  {
    if s == [] then Index(Accepted, pool, []) else
    var u := ParseUnit(s, sections, pool);
    if u.status != Accepted then Index(u.status, u.pool, u.rows) else
    var x := ParseSection(u.rest, sections, u.pool);
    Index(x.status, x.pool, u.rows + x.rows)
  }

  function RowKey(r: Row): int {
    r.addr
  }

  /** One unit of the walk: `done` are the rows of the units before it. */
  lemma WalkStep(before: seq<Row>, done: seq<Row>, s: Bytes, sections: Sections, pool: Bytes)
    requires |pool| <= STR_MAX && s != []
    ensures var x, u := ParseSection(s, sections, pool), ParseUnit(s, sections, pool);
      && Capped(Capped(before + done) + u.rows) == Capped(before + (done + u.rows))
      && if u.status != Accepted then x.pool == u.pool && done + x.rows == done + u.rows else
         var y := ParseSection(u.rest, sections, u.pool);
         y.pool == x.pool && (done + u.rows) + y.rows == done + x.rows
  {
    hide ParseUnit, Capped;
    var u := ParseUnit(s, sections, pool);
    CappedAppend(before + done, u.rows);
    assert (before + done) + u.rows == before + (done + u.rows);
    if u.status == Accepted {
      var y := ParseSection(u.rest, sections, u.pool);
      assert done + (u.rows + y.rows) == (done + u.rows) + y.rows;
    }
  }

  /** The loop over the units. A unit that is refused ends it; the rows and names found so far stay. */
  method WalkUnits(c: Cursor, tab: LineTable, sections: Sections)
    requires c.Valid() && tab.Valid() && Closed(tab.Pool())
    modifies c`p, c`dwarf64, tab, tab.rows, tab.strs
    ensures tab.Valid() && Closed(tab.Pool())
    ensures var x := ParseSection(old(c.Rest()), sections, old(tab.Pool()));
      tab.Pool() == x.pool && tab.Rows() == Capped(old(tab.Rows()) + x.rows)
  {
    hide ParseUnit, ParseSection, Capped;
    ghost var before, x := tab.Rows(), ParseSection(c.Rest(), sections, tab.Pool());
    ghost var done: seq<Row> := [];
    CappedWhole(before);
    assert before + [] == before && [] + x.rows == x.rows;
    while c.p < |c.data|
      invariant c.Valid() && tab.Valid() && Closed(tab.Pool())
      invariant tab.Rows() == Capped(before + done)
      invariant var y := ParseSection(c.Rest(), sections, tab.Pool());
        y.pool == x.pool && done + y.rows == x.rows
      decreases |c.Rest()|
    {
      ghost var u := ParseUnit(c.Rest(), sections, tab.Pool());
      WalkStep(before, done, c.Rest(), sections, tab.Pool());
      var status := ParseUnitOf(c, tab, sections);
      done := done + u.rows;
      if status != Accepted {
        return;
      }
    }
    SectionEnd(sections, tab.Pool());
    assert c.Rest() == [] && done + [] == done;
  }

  lemma SectionEnd(sections: Sections, pool: Bytes)
    requires |pool| <= STR_MAX
    ensures ParseSection([], sections, pool) == Index(Accepted, pool, [])
  {
  }

  lemma CappedWhole(rows: seq<Row>)
    requires |rows| <= ROW_MAX
    ensures Capped(rows) == rows
  {
  }

  /** `bw_dwarf_tab_parse`. The table ends up holding, sorted by address, the rows it held and then those of
      the section, up to its capacity. */
  method Parse(tab: LineTable, line: Bytes, sections: Sections, order: Order<Row>) returns (ok: bool)
    requires tab.Valid() && Closed(tab.Pool()) && IsSort(order, RowKey)
    modifies tab, tab.rows, tab.strs
    ensures tab.Valid() && Closed(tab.Pool())
    ensures line == [] ==> !ok && tab.Rows() == old(tab.Rows()) && tab.Pool() == old(tab.Pool())
    ensures line != [] ==>
      var x := ParseSection(line, sections, old(tab.Pool()));
      && tab.Pool() == x.pool
      && tab.Rows() == order(Capped(old(tab.Rows()) + x.rows))
      && SortedPermutation(tab.Rows(), Capped(old(tab.Rows()) + x.rows), RowKey)
      && (ok <==> tab.Rows() != [])
  {
    hide ParseSection;
    if line == [] {
      return false;
    }
    var c := new Cursor(line);
    assert c.Rest() == line;
    WalkUnits(c, tab, sections);
    if tab.nrow == 0 {
      PermutationLength(order([]), []);
      return false;
    }
    ghost var rows := tab.Rows();
    Qsort(tab.rows, tab.nrow, order, RowKey);
    PermutationLength(order(rows), rows);
    return true;
  }

  /** `bw_dwarf_tab_lookup`, for a table as `Parse` leaves it. `fileOff` is where the returned file pointer
      points in the pool. */
  method Lookup(tab: LineTable, addr: u64) returns (found: bool, fileOff: u32, line: u32)
    requires tab.Valid() && Ascending(tab.Rows(), RowKey)
    ensures found <==> HasFloor(tab.Rows(), RowKey, addr)
    ensures found ==> exists row | row in tab.Rows() ::
      IsFloor(tab.Rows(), RowKey, addr, row) && fileOff == row.nameOff && line == row.line
  {
    fileOff, line := 0, 0;
    if tab.nrow == 0 {
      return false, 0, 0;
    }
    var best;
    found, best := FloorIndex(tab.rows, tab.nrow, RowKey, addr);
    if found {
      fileOff := tab.rows[best].nameOff;
      line := tab.rows[best].line;
    }
  }

  /** Reset, parse, look up: the answer is that of a linear scan over the rows the section emits (as many as
      the table holds), whatever order the sort gives equal addresses. */
  method ParseAndLookup(tab: LineTable, section: Bytes, sections: Sections, order: Order<Row>, addr: u64)
    returns (found: bool, fileOff: u32, line: u32)
    requires tab.Valid() && IsSort(order, RowKey)
    modifies tab, tab.rows, tab.strs
    ensures tab.Valid() && tab.Pool() == ParseSection(section, sections, []).pool
    ensures var emitted := Capped(ParseSection(section, sections, []).rows);
      && (found <==> HasFloor(emitted, RowKey, addr))
      && (found ==> exists row | row in emitted ::
            IsFloor(emitted, RowKey, addr, row) && fileOff == row.nameOff && line == row.line)
  {
    hide ParseSection, IsFloor, HasFloor;
    tab.Reset();
    SectionEnd(sections, []);
    ghost var x := ParseSection(section, sections, []);
    var ok := Parse(tab, section, sections, order);
    assert [] + x.rows == x.rows;
    found, fileOff, line := Lookup(tab, addr);
    ghost var emitted := Capped(x.rows);
    if found {
      ghost var row :| row in tab.Rows() && IsFloor(tab.Rows(), RowKey, addr, row)
                       && fileOff == row.nameOff && line == row.line;
      FloorOfPermutation(tab.Rows(), emitted, RowKey, addr, row);
      PermutationLength(tab.Rows(), emitted);
    } else {
      FloorOfPermutation(tab.Rows(), emitted, RowKey, addr, Row(0, 0, 0));
    }
  }
}
