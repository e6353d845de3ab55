/**
 * The badger driver keeps everything in one flat space of string keys. This module shows that the space is six
 * independent tables and a version cell: `View` reads a flat map as a map over cells, and every write, delete and
 * prefix scan on the flat map is the same write, delete or table scan on the cells.
 */
module KeySpace {

  datatype Table = Nonce | AccountOf | Trial | BalanceOf | NodeRecord | PeersOf

  datatype Cell = Row(table: Table, id: string) | Version

  function Prefix(t: Table): string {
    match t
    case Nonce => "vip:nonce:"
    case AccountOf => "vip:account:"
    case Trial => "vip:trial:"
    case BalanceOf => "vip:balance:"
    case NodeRecord => "vip:node:"
    case PeersOf => "vip:peers:"
  }

  function Key(c: Cell): string {
    match c
    case Row(t, id) => Prefix(t) + id
    case Version => "vip:version"
  }

  /** No table's prefix is a prefix of another's, or of the version key. */
  lemma PrefixesDiffer(t: Table, u: Table, k: string)
    requires Prefix(t) <= k && Prefix(u) <= k
    ensures t == u && k != Key(Version)
  {
    assert Prefix(t)[4] == k[4] && Prefix(t)[6] == k[6];
    assert Prefix(u)[4] == k[4] && Prefix(u)[6] == k[6];
  }

  /** A key determines its cell, whatever characters the ID holds. */
  lemma KeyInjective(c: Cell, d: Cell)
    requires Key(c) == Key(d)
    ensures c == d
  {
    var k := Key(c);
    if c.Row? {
      PrefixesDiffer(c.table, c.table, k);
      assert k[|Prefix(c.table)|..] == c.id;
    }
    if d.Row? {
      PrefixesDiffer(d.table, d.table, k);
      assert k[|Prefix(d.table)|..] == d.id;
    }
    if c.Row? && d.Row? {
      PrefixesDiffer(c.table, d.table, k);
    }
  }

  const TABLES: set<Table> := {Nonce, AccountOf, Trial, BalanceOf, NodeRecord, PeersOf}

  /** All cells that are stored under `k`: at most one. */
  function CellsAt(k: string): set<Cell> {
    (set t | t in TABLES && Prefix(t) <= k :: Row(t, k[|Prefix(t)|..])) + if k == Key(Version) then {Version} else {}
  }

  lemma RowAt(t: Table, id: string, k: string)
    ensures Prefix(t) <= k && k[|Prefix(t)|..] == id <==> Prefix(t) + id == k
  {
  }

  lemma CellsAtIsInverse(c: Cell, k: string)
    ensures c in CellsAt(k) <==> Key(c) == k
  {
    if c.Row? {
      RowAt(c.table, c.id, k);
      assert c.table in TABLES;
    }
  }

  /** The flat map, read cell by cell. Keys of no cell are ignored. */
  function View<V>(flat: map<string, V>): map<Cell, V> {
    map c | c in (set k, d | k in flat && d in CellsAt(k) :: d) && Key(c) in flat :: flat[Key(c)]
  }

  lemma ViewAt<V>(flat: map<string, V>, c: Cell)
    ensures c in View(flat) <==> Key(c) in flat
    ensures c in View(flat) ==> View(flat)[c] == flat[Key(c)]
  {
    CellsAtIsInverse(c, Key(c));
  }

  /** `cells` is the flat map read cell by cell, said pointwise. */
  ghost predicate Backs<V>(flat: map<string, V>, cells: map<Cell, V>) {
    forall c :: (c in cells <==> Key(c) in flat) && (c in cells ==> cells[c] == flat[Key(c)])
  }

  lemma BacksIsView<V>(flat: map<string, V>, cells: map<Cell, V>)
    ensures Backs(flat, cells) <==> cells == View(flat)
  {
    forall c ensures c in View(flat) <==> Key(c) in flat
             ensures c in View(flat) ==> View(flat)[c] == flat[Key(c)] {
      ViewAt(flat, c);
    }
  }

  lemma PutBacked<V>(flat: map<string, V>, cells: map<Cell, V>, c: Cell, v: V)
    requires Backs(flat, cells)
    ensures Backs(flat[Key(c) := v], cells[c := v])
  {
    forall d | Key(d) == Key(c) ensures d == c {
      KeyInjective(d, c);
    }
  }

  /** Writing a key writes its cell and no other: no two tables, and not the version cell, ever interfere. */
  lemma PutCell<V>(flat: map<string, V>, c: Cell, v: V)
    ensures View(flat[Key(c) := v]) == View(flat)[c := v]
  {
    BacksIsView(flat, View(flat));
    PutBacked(flat, View(flat), c, v);
    BacksIsView(flat[Key(c) := v], View(flat)[c := v]);
  }

  function KeysOf(cells: set<Cell>): set<string> {
    set c | c in cells :: Key(c)
  }

  lemma KeysOfCells(cells: set<Cell>, d: Cell)
    ensures Key(d) in KeysOf(cells) <==> d in cells
  {
    forall c | c in cells && Key(c) == Key(d) ensures c == d {
      KeyInjective(c, d);
    }
  }

  lemma DropBacked<V>(flat: map<string, V>, cells: map<Cell, V>, gone: set<Cell>)
    requires Backs(flat, cells)
    ensures Backs(flat - KeysOf(gone), cells - gone)
  {
    forall d ensures Key(d) in KeysOf(gone) <==> d in gone {
      KeysOfCells(gone, d);
    }
  }

  /** Deleting keys deletes their cells and no other. */
  lemma DropCells<V>(flat: map<string, V>, gone: set<Cell>)
    ensures View(flat - KeysOf(gone)) == View(flat) - gone
  {
    BacksIsView(flat, View(flat));
    DropBacked(flat, View(flat), gone);
    BacksIsView(flat - KeysOf(gone), View(flat) - gone);
  }

  /** The IDs that hold a row in table `t`. */
  function Ids<V>(db: map<Cell, V>, t: Table): set<string> {
    set c | c in db && c.Row? && c.table == t :: c.id
  }

  /** The keys an iterator over the prefix of `t` visits. */
  function Scan<V>(flat: map<string, V>, t: Table): set<string> {
    set k | k in flat && Prefix(t) <= k
  }

  lemma ScannedKey<V>(flat: map<string, V>, t: Table, k: string)
    requires k in Scan(flat, t)
    ensures var c := Row(t, k[|Prefix(t)|..]); k == Key(c) && c in View(flat) && View(flat)[c] == flat[k]
  {
    ViewAt(flat, Row(t, k[|Prefix(t)|..]));
  }

  lemma ScannedID<V>(flat: map<string, V>, t: Table, id: string)
    requires Row(t, id) in View(flat)
    ensures Key(Row(t, id)) in Scan(flat, t) && Key(Row(t, id))[|Prefix(t)|..] == id
  {
    ViewAt(flat, Row(t, id));
  }

  /** A prefix scan that strips the prefix enumerates exactly the table's IDs, each once. */
  lemma ScanIsTable<V>(flat: map<string, V>, t: Table)
    ensures (set k | k in Scan(flat, t) :: k[|Prefix(t)|..]) == Ids(View(flat), t)
    ensures forall k :: k in Scan(flat, t) ==>
              k == Key(Row(t, k[|Prefix(t)|..])) && Row(t, k[|Prefix(t)|..]) in View(flat)
              && View(flat)[Row(t, k[|Prefix(t)|..])] == flat[k]
  {
    forall k | k in Scan(flat, t)
      ensures k == Key(Row(t, k[|Prefix(t)|..])) && Row(t, k[|Prefix(t)|..]) in View(flat)
              && View(flat)[Row(t, k[|Prefix(t)|..])] == flat[k] {
      ScannedKey(flat, t, k);
    }
    forall id | id in Ids(View(flat), t) ensures exists k :: k in Scan(flat, t) && k[|Prefix(t)|..] == id {
      ScannedID(flat, t, id);
    }
  }

  /** An iterator loop over the prefix of `t`: every ID with a row, with the value of that row. */
  method Collect<V>(flat: map<string, V>, t: Table) returns (rows: map<string, V>)
    ensures forall id :: id in rows <==> Key(Row(t, id)) in flat
    ensures forall id :: id in rows ==> rows[id] == flat[Key(Row(t, id))]
  {
    rows := map[];
    var rest := Scan(flat, t);
    ghost var visited: set<string> := {};
    while rest != {}
      invariant visited !! rest && visited + rest == Scan(flat, t)
      invariant forall id :: id in rows <==> Key(Row(t, id)) in visited
      invariant forall id :: id in rows ==> rows[id] == flat[Key(Row(t, id))]
      decreases |rest|
    {
      var key :| key in rest;
      var id := StripPrefix(t, key);
      rest, visited := rest - {key}, visited + {key};
      rows := rows[id := flat[key]];
    }
    forall id ensures Key(Row(t, id)) in Scan(flat, t) <==> Key(Row(t, id)) in flat {
      assert Prefix(t) <= Key(Row(t, id));
    }
  }

  /** The ID in a key of table `t`. */
  method StripPrefix(t: Table, key: string) returns (id: string)
    requires Prefix(t) <= key
    ensures Key(Row(t, id)) == key
    ensures forall other :: Key(Row(t, other)) == key ==> other == id
  {
    id := key[|Prefix(t)|..];
    assert key == Prefix(t) + id;
    forall other | Key(Row(t, other)) == key ensures other == id {
      KeyInjective(Row(t, other), Row(t, id));
    }
  }
}
