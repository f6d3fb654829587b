/** The address database (src/geo/lookup.rs): loading, binary search, and the blocks of an ASN. */
module GeoLookup {
  import opened Bits
  import opened Cidr
  import opened Wrappers
  import opened CidrSplit
  import opened Text

  datatype Row = Row(start: u32, end: u32, asn: u32, country: string, asOrg: string) {
    ghost predicate Has(x: u32) {
      start <= x <= end
    }
  }

  datatype IpMetadata = IpMetadata(asn: u32, country: string, asOrg: string)

  // ----- loading

  /** Stable insertion sort by start address, for the library's `sort_by_key`. */
  function InsertByStart(row: Row, rows: seq<Row>): seq<Row> {
    if rows == [] || row.start <= rows[0].start then [row] + rows
    else [rows[0]] + InsertByStart(row, rows[1..])
  }

  function SortByStart(rows: seq<Row>): seq<Row> {
    if rows == [] then [] else InsertByStart(rows[0], SortByStart(rows[1..]))
  }

  /** The source's address and number parsers, as arbitrary functions. */
  datatype ColumnParsers = ColumnParsers(ip: string -> Option<u32>, asn: string -> Option<u32>)

  /** One line of the table: five columns or more between tabs. A character stands for a byte. */
  function ParseRow(p: ColumnParsers, line: string): Option<Row> {
    var trimmed := Trim(line);
    if trimmed == "" || trimmed[0] == '#' then None
    else
      var cols := Parts(trimmed, '\t');
      if |cols| < 5 then None
      else
        match (p.ip(cols[0]), p.ip(cols[1]), p.asn(cols[2]))
        case (Some(start), Some(end), Some(asn)) =>
          Some(Row(start, end, asn, if |cols[3]| >= 2 then cols[3][..2] else "??", cols[4]))
        case _ => None
  }

  /** A row says what the columns of its line say. */
  ghost predicate RowOf(p: ColumnParsers, line: string, row: Row) {
    exists cols: seq<string> ::
      && |cols| >= 5 && Glued(cols, '\t') == Trim(line) && (forall i :: 0 <= i < |cols| ==> '\t' !in cols[i])
      && p.ip(cols[0]) == Some(row.start) && p.ip(cols[1]) == Some(row.end) && p.asn(cols[2]) == Some(row.asn)
      && row.asOrg == cols[4]
      && (if |cols[3]| < 2 then row.country == "??"
          else |row.country| == 2 && row.country[0] == cols[3][0] && row.country[1] == cols[3][1])
  }

  lemma RowMeaning(p: ColumnParsers, line: string)
    ensures ParseRow(p, line).Some? ==> RowOf(p, line, ParseRow(p, line).value) && Trim(line)[0] != '#'
  {
    PartsMeaning(Trim(line), '\t');
    var cols := Parts(Trim(line), '\t');
  }

  /** Every line that can be read gives a row; a comment or blank line, one with fewer columns, or one whose
      addresses or number do not parse gives none. */
  lemma RowExistsIff(p: ColumnParsers, line: string, cols: seq<string>)
    requires cols != [] && Glued(cols, '\t') == Trim(line) && forall i :: 0 <= i < |cols| ==> '\t' !in cols[i]
    ensures ParseRow(p, line).Some?
       <==> Trim(line) != "" && Trim(line)[0] != '#' && |cols| >= 5
            && p.ip(cols[0]).Some? && p.ip(cols[1]).Some? && p.asn(cols[2]).Some?
  {
    PartsOfGlued(cols, '\t');
  }

  function ParsedRows(p: ColumnParsers, lines: seq<string>): seq<Row> {
    if lines == [] then []
    else
      ParsedRows(p, lines[..|lines| - 1])
      + (match ParseRow(p, lines[|lines| - 1]) case Some(row) => [row] case None => [])
  }

  /** Each line that reads contributes its row, in the order of the lines. */
  lemma {:induction false} ParsedRowsConcat(p: ColumnParsers, a: seq<string>, b: seq<string>)
    ensures ParsedRows(p, a + b) == ParsedRows(p, a) + ParsedRows(p, b)
    decreases |b|
  {
    if b == [] {
      assert a + b == a;
    } else {
      assert (a + b)[..|a + b| - 1] == a + b[..|b| - 1];
      ParsedRowsConcat(p, a, b[..|b| - 1]);
    }
  }

  /** `from_tsv_reader`, on lines that could be read. */
  method Load(p: ColumnParsers, lines: seq<string>) returns (rows: seq<Row>)
    ensures rows == SortByStart(ParsedRows(p, lines))
    ensures forall row :: row in rows <==> GivesRow(p, lines, row)
  {
    var entries := [];
    for i := 0 to |lines|
      invariant entries == ParsedRows(p, lines[..i])
    {
      assert lines[..i + 1][..i] == lines[..i];
      var row := ParseRow(p, lines[i]);
      if row.None? {
        continue;
      }
      entries := entries + [row.value];
    }
    assert lines[..|lines|] == lines;
    rows := SortByStart(entries);
    SortKeeps(entries);
    forall row ensures row in entries <==> GivesRow(p, lines, row) {
      ParsedRowsMembers(p, lines, row);
    }
  }

  ghost predicate GivesRow(p: ColumnParsers, lines: seq<string>, row: Row) {
    exists line :: line in lines && ParseRow(p, line) == Some(row)
  }

  lemma GivesRowSnoc(p: ColumnParsers, init: seq<string>, last: string, row: Row)
    ensures GivesRow(p, init + [last], row) <==> GivesRow(p, init, row) || ParseRow(p, last) == Some(row)
  {
    var lines := init + [last];
    assert last in lines;
    if line :| line in init && ParseRow(p, line) == Some(row) {
      assert line in lines;
    }
  }

  lemma LastRow(p: ColumnParsers, lines: seq<string>, row: Row)
    requires lines != []
    ensures row in ParsedRows(p, lines)
       <==> row in ParsedRows(p, lines[..|lines| - 1]) || ParseRow(p, lines[|lines| - 1]) == Some(row)
  {
  }

  lemma {:induction false} ParsedRowsMembers(p: ColumnParsers, lines: seq<string>, row: Row)
    ensures row in ParsedRows(p, lines) <==> GivesRow(p, lines, row)
  {
    if lines != [] {
      var init, last := lines[..|lines| - 1], lines[|lines| - 1];
      ParsedRowsMembers(p, init, row);
      LastRow(p, lines, row);
      GivesRowSnoc(p, init, last, row);
      assert lines == init + [last];
    }
  }

  lemma {:induction false} SortKeeps(rows: seq<Row>)
    ensures forall row :: row in SortByStart(rows) <==> row in rows
  {
    if rows != [] {
      SortKeeps(rows[1..]);
      InsertMembers(rows[0], SortByStart(rows[1..]));
      assert rows == [rows[0]] + rows[1..];
    }
  }

  lemma {:induction false} InsertMembers(row: Row, rows: seq<Row>)
    ensures forall r :: r in InsertByStart(row, rows) <==> r == row || r in rows
  {
    if rows != [] {
      InsertMembers(row, rows[1..]);
      assert rows == [rows[0]] + rows[1..];
    }
  }

  /** The rows of a range table: no empty range, no address in two ranges. */
  ghost predicate RangesDisjoint(rows: seq<Row>) {
    && (forall i :: 0 <= i < |rows| ==> rows[i].start <= rows[i].end)
    && (forall i, j :: 0 <= i < |rows| && 0 <= j < |rows| && i != j ==>
          rows[i].end < rows[j].start || rows[j].end < rows[i].start)
  }

  ghost predicate Ordered(rows: seq<Row>) {
    && (forall i :: 0 <= i < |rows| ==> rows[i].start <= rows[i].end)
    && (forall i, j :: 0 <= i < j < |rows| ==> rows[i].end < rows[j].start)
  }

  ghost predicate Apart(row: Row, rows: seq<Row>) {
    forall i :: 0 <= i < |rows| ==> rows[i].end < row.start || row.end < rows[i].start
  }

  lemma {:induction false} InsertAdds(row: Row, rows: seq<Row>)
    ensures multiset(InsertByStart(row, rows)) == multiset{row} + multiset(rows)
  {
    if rows != [] && row.start > rows[0].start {
      InsertAdds(row, rows[1..]);
      assert rows == [rows[0]] + rows[1..];
    }
  }

  lemma OrderedCons(first: Row, rest: seq<Row>)
    requires first.start <= first.end && Ordered(rest)
    requires forall r :: r in rest ==> first.end < r.start
    ensures Ordered([first] + rest)
  {
    forall i, j | 0 <= i < j < |[first] + rest| ensures ([first] + rest)[i].end < ([first] + rest)[j].start {
      assert ([first] + rest)[j] == rest[j - 1] && rest[j - 1] in rest;
    }
  }

  lemma {:induction false} InsertKeepsOrder(row: Row, rows: seq<Row>)
    requires row.start <= row.end && Ordered(rows) && Apart(row, rows)
    ensures Ordered(InsertByStart(row, rows))
  {
    if rows == [] || row.start <= rows[0].start {
      OrderedCons(row, rows);
    } else {
      var rest := InsertByStart(row, rows[1..]);
      InsertKeepsOrder(row, rows[1..]);
      InsertAdds(row, rows[1..]);
      forall r | r in rest ensures rows[0].end < r.start {
        assert r in multiset(rest);
      }
      OrderedCons(rows[0], rest);
    }
  }

  lemma ApartFromPermutation(row: Row, rows: seq<Row>, sorted: seq<Row>)
    requires Apart(row, rows) && multiset(sorted) == multiset(rows)
    ensures Apart(row, sorted)
  {
    forall i | 0 <= i < |sorted| ensures sorted[i].end < row.start || row.end < sorted[i].start {
      assert sorted[i] in multiset(rows);
    }
  }

  /** Sorting disjoint ranges by start orders them completely, losing and inventing none. */
  lemma {:induction false} SortOrders(rows: seq<Row>)
    requires RangesDisjoint(rows)
    ensures Ordered(SortByStart(rows)) && multiset(SortByStart(rows)) == multiset(rows)
  {
    if rows != [] {
      SortOrders(rows[1..]);
      assert rows == [rows[0]] + rows[1..];
      ApartFromPermutation(rows[0], rows[1..], SortByStart(rows[1..]));
      InsertKeepsOrder(rows[0], SortByStart(rows[1..]));
      InsertAdds(rows[0], SortByStart(rows[1..]));
    }
  }

  // ----- lookup

  /** Binary search between `lo` and `hi`, comparing a row with the target by its range. */
  function Search(rows: seq<Row>, target: u32, lo: nat, hi: nat): Option<nat>
    requires lo <= hi <= |rows|
    decreases hi - lo
  {
    if lo == hi then None
    else
      var mid := (lo + hi) / 2;
      if rows[mid].end < target then Search(rows, target, mid + 1, hi)
      else if rows[mid].start > target then Search(rows, target, lo, mid)
      else Some(mid)
  }

  function Lookup(rows: seq<Row>, ip: IpAddr): Option<IpMetadata> {
    match ip
    case V6(_) => None
    case V4(target) =>
      match Search(rows, target, 0, |rows|)
      case None => None
      case Some(i) =>
        if i < |rows| then Some(IpMetadata(rows[i].asn, rows[i].country, rows[i].asOrg)) else None
  }

  /** On ordered rows the search finds the one row that holds the target, if any does. */
  lemma {:induction false} SearchFinds(rows: seq<Row>, target: u32, lo: nat, hi: nat, i: nat)
    requires Ordered(rows) && lo <= i < hi <= |rows| && rows[i].Has(target)
    ensures Search(rows, target, lo, hi) == Some(i)
    decreases hi - lo
  {
    var mid := (lo + hi) / 2;
    if rows[mid].end < target {
      assert mid < i;
      SearchFinds(rows, target, mid + 1, hi, i);
    } else if rows[mid].start > target {
      assert i < mid;
      SearchFinds(rows, target, lo, mid, i);
    } else {
      assert i == mid;
    }
  }

  lemma {:induction false} SearchSound(rows: seq<Row>, target: u32, lo: nat, hi: nat)
    requires lo <= hi <= |rows|
    ensures var r := Search(rows, target, lo, hi); r.Some? ==> lo <= r.value < hi && rows[r.value].Has(target)
    decreases hi - lo
  {
    if lo < hi {
      var mid := (lo + hi) / 2;
      if rows[mid].end < target {
        SearchSound(rows, target, mid + 1, hi);
      } else if rows[mid].start > target {
        SearchSound(rows, target, lo, mid);
      }
    }
  }

  /** Some row for this ASN holds the address. */
  ghost predicate AsnHas(rows: seq<Row>, asn: u32, x: u32) {
    exists row :: row in rows && row.asn == asn && row.Has(x)
  }

  lemma LookupMeaning(rows: seq<Row>, x: u32, asn: u32)
    requires Ordered(rows)
    ensures AsnHas(rows, asn, x) <==> Lookup(rows, V4(x)).Some? && Lookup(rows, V4(x)).value.asn == asn
  {
    SearchSound(rows, x, 0, |rows|);
    if AsnHas(rows, asn, x) {
      var row :| row in rows && row.asn == asn && row.Has(x);
      var i :| 0 <= i < |rows| && rows[i] == row;
      SearchFinds(rows, x, 0, |rows|, i);
    }
  }

  /** What a lookup returns is all that the row of the address says; without a row, and for IPv6, nothing. */
  lemma LookupReturnsRow(rows: seq<Row>, x: u32)
    requires Ordered(rows)
    ensures forall i :: 0 <= i < |rows| && rows[i].Has(x)
                        ==> Lookup(rows, V4(x)) == Some(IpMetadata(rows[i].asn, rows[i].country, rows[i].asOrg))
    ensures (forall i :: 0 <= i < |rows| ==> !rows[i].Has(x)) ==> Lookup(rows, V4(x)) == None
    ensures forall a :: Lookup(rows, V6(a)) == None
  {
    SearchSound(rows, x, 0, |rows|);
    if i :| 0 <= i < |rows| && rows[i].Has(x) {
      SearchFinds(rows, x, 0, |rows|, i);
      forall j | 0 <= j < |rows| && rows[j].Has(x) ensures j == i {
      }
    }
  }

  // ----- the blocks of an ASN

  ghost function BlocksForAsn(rows: seq<Row>, asn: u32): seq<Block> {
    if rows == [] then []
    else
      var last := rows[|rows| - 1];
      BlocksForAsn(rows[..|rows| - 1], asn)
      + if last.asn == asn then Split(last.start as nat, last.end as nat) else []
  }

  method CidrsForAsn(rows: seq<Row>, asn: u32) returns (cidrs: seq<Block>)
    ensures cidrs == BlocksForAsn(rows, asn)
  {
    cidrs := [];
    for i := 0 to |rows|
      invariant cidrs == BlocksForAsn(rows[..i], asn)
    {
      assert rows[..i + 1][..i] == rows[..i];
      if rows[i].asn == asn {
        var blocks := RangeToCidrs(rows[i].start, rows[i].end);
        cidrs := cidrs + blocks;
      }
    }
    assert rows[..|rows|] == rows;
  }

  lemma {:induction false} BlocksForAsnCover(rows: seq<Row>, asn: u32, x: u32)
    ensures Covered(BlocksForAsn(rows, asn), x as nat) <==> AsnHas(rows, asn, x)
    ensures forall b :: b in BlocksForAsn(rows, asn) ==> b.Valid()
  {
    if rows != [] {
      var init, last := rows[..|rows| - 1], rows[|rows| - 1];
      BlocksForAsnCover(init, asn, x);
      SplitAscending(last.start as nat, last.end as nat);
      SplitCoversExactly(last.start as nat, last.end as nat, x as nat);
      var a, b := BlocksForAsn(init, asn), if last.asn == asn then Split(last.start as nat, last.end as nat) else [];
      assert Covered(a + b, x as nat) <==> Covered(a, x as nat) || Covered(b, x as nat) by {
        assert forall c :: c in a + b <==> c in a || c in b;
      }
      assert AsnHas(rows, asn, x) <==> AsnHas(init, asn, x) || (last.asn == asn && last.Has(x)) by {
        assert rows == init + [last];
        assert forall r :: r in rows <==> r in init || r == last;
      }
    }
  }

  /** Some block matches the address by its mask, as a consumer of the printed blocks would test it. */
  ghost predicate MaskMatches(blocks: seq<Block>, x: u32) {
    exists b :: b in blocks && ParseCidr(V4(b.base), b.prefix).Ok?
                && ParseCidr(V4(b.base), b.prefix).value.Contains(V4(x))
  }

  /** The three views agree: an IPv4 address passes the mask of some block of `cidrs_for_asn(a)`
      exactly when `lookup` maps it to `a`, for any table of disjoint ranges. */
  lemma ViewsAgree(table: seq<Row>, asn: u32, x: u32)
    requires RangesDisjoint(table)
    ensures var rows := SortByStart(table);
            MaskMatches(BlocksForAsn(rows, asn), x)
            <==> Lookup(rows, V4(x)).Some? && Lookup(rows, V4(x)).value.asn == asn
  {
    var rows := SortByStart(table);
    SortOrders(table);
    LookupMeaning(rows, x, asn);
    BlocksForAsnCover(rows, asn, x);
    forall b | b in BlocksForAsn(rows, asn)
      ensures ParseCidr(V4(b.base), b.prefix).Ok?
      ensures ParseCidr(V4(b.base), b.prefix).value.Contains(V4(x)) <==> b.Has(x as nat)
    {
      ContainsIsInterval(b, x);
    }
  }
}
