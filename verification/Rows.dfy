/** The rows the client shows and the backend records that complete them. */
module Rows {
  import opened Base
  import opened StableSort

  datatype Status = Locked | Unlocked | Withdrawn | Archived

  datatype Row = Row(
    vaultId: string,
    owner: Address,
    name: string,
    balance: int,
    unlock: int,
    created: int,
    status: Status)

  datatype ChainStatus = LiveOnChain | ArchivedOnChain | WithdrawnOnChain | UnknownOnChain

  /** A backend record. Balances are in stroops; timestamps are already read as seconds, 0 when unreadable. */
  datatype RemoteMeta = RemoteMeta(
    vaultId: string,
    name: Option<string>,
    balance: Option<int>,
    unlock: Option<int>,
    chainStatus: Option<ChainStatus>,
    createdAt: Option<int>,
    updatedAt: Option<int>)

  /** When the record was made, or else when it was last changed, or else 0. */
  function CreatedOf(m: RemoteMeta): int {
    if m.createdAt.Some? then m.createdAt.value else m.updatedAt.GetOr(0)
  }

  predicate IsSpace(c: char) {
    var n := c as int;
    9 <= n <= 13 || n == 32 || n == 0xA0 || n == 0x1680 || 0x2000 <= n <= 0x200A
    || n == 0x2028 || n == 0x2029 || n == 0x202F || n == 0x205F || n == 0x3000 || n == 0xFEFF
  }

  /** The white space and line terminators that JavaScript trims, written out. */
  lemma SpacesAre(c: char)
    ensures IsSpace(c) <==>
      c in "\t\n\U{000B}\U{000C}\r \U{00A0}\U{1680}\U{2000}\U{2001}\U{2002}\U{2003}\U{2004}\U{2005}\U{2006}"
           + "\U{2007}\U{2008}\U{2009}\U{200A}\U{2028}\U{2029}\U{202F}\U{205F}\U{3000}\U{FEFF}"
  {
  }

  /** The name is present and not blank. */
  predicate HasText(name: Option<string>) {
    name.Some? && exists i :: 0 <= i < |name.value| && !IsSpace(name.value[i])
  }

  /** A name counts when something of it is left after trimming. */
  lemma HasTextMeans(name: Option<string>)
    ensures HasText(name) <==> name.Some? && exists c :: c in name.value && !IsSpace(c)
  {
    if name.Some? && exists c :: c in name.value && !IsSpace(c) {
      var c :| c in name.value && !IsSpace(c);
      var i :| 0 <= i < |name.value| && name.value[i] == c;
    }
  }

  /** The records by id; the last record of an id wins. */
  function MetaById(metas: seq<RemoteMeta>): (r: map<string, RemoteMeta>)
    ensures forall id :: id in r ==> r[id] in metas && r[id].vaultId == id
    ensures forall m :: m in metas ==> m.vaultId in r
  {
    if metas == [] then map[]
    else
      var last := metas[|metas| - 1];
      MetaById(metas[..|metas| - 1])[last.vaultId := last]
  }

  function Lookup(m: map<string, RemoteMeta>, id: string): Option<RemoteMeta> {
    if id in m then Some(m[id]) else None
  }

  /** The order of the dashboard: newest first. */
  predicate NewerRow(a: Row, b: Row) {
    a.created > b.created
  }

  function Ids(rows: seq<Row>): (ids: set<string>)
    ensures forall r :: r in rows ==> r.vaultId in ids
  {
    set r | r in rows :: r.vaultId
  }

  /** No two rows show the same vault. */
  ghost predicate DistinctIds(rows: seq<Row>) {
    forall i, j :: 0 <= i < j < |rows| ==> rows[i].vaultId != rows[j].vaultId
  }

  lemma {:induction false} InsertKeepsDistinct(x: Row, rows: seq<Row>, before: (Row, Row) -> bool)
    requires DistinctIds(rows) && forall r :: r in rows ==> r.vaultId != x.vaultId
    ensures DistinctIds(Insert(x, rows, before))
  {
    if rows != [] {
      var rest, z := rows[..|rows| - 1], rows[|rows| - 1];
      InsertKeepsDistinct(x, rest, before);
      if before(x, z) {
        InsertedAre(x, rest, before);
        var inner := Insert(x, rest, before);
        forall i | 0 <= i < |inner|
          ensures inner[i].vaultId != z.vaultId
        {
          assert inner[i] in inner;
        }
      }
    }
  }

  /** Sorting moves rows around; it never shows one twice. */
  lemma {:induction false} SortKeepsDistinct(rows: seq<Row>, before: (Row, Row) -> bool)
    requires DistinctIds(rows)
    ensures DistinctIds(Sort(rows, before))
  {
    if rows != [] {
      var rest, z := rows[..|rows| - 1], rows[|rows| - 1];
      SortKeepsDistinct(rest, before);
      forall r | r in Sort(rest, before)
        ensures r.vaultId != z.vaultId
      {
        SameElements(rest, before);
        assert r in rest;
      }
      InsertKeepsDistinct(z, Sort(rest, before), before);
    }
  }

  lemma SameElements(rows: seq<Row>, before: (Row, Row) -> bool)
    ensures forall r :: r in Sort(rows, before) <==> r in rows
  {
    assert multiset(Sort(rows, before)) == multiset(rows);
    forall r
      ensures r in Sort(rows, before) <==> r in rows
    {
      assert r in Sort(rows, before) <==> r in multiset(Sort(rows, before));
      assert r in rows <==> r in multiset(rows);
    }
  }
}
