/** The `atividades` table of database.py taken as a value: the row type and
    the meaning of each SQL statement the store runs against it. The class in
    store.dfy holds one such table and applies these statements in place. */
module Table {

  datatype Option<T> = None | Some(value: T)

  /** One row of `atividades`. `inicio` and `fim` are whole seconds since a
      fixed epoch. The planner writes them as `YYYY-MM-DD HH:MM:SS` text,
      with `.ffffff` appended when the time has a fraction of a second; that
      text, which SQLite compares as text, orders as the times do, and so
      as these integers do up to the dropped fraction. */
  datatype Row = Row(
    id: int,
    nome: string,
    inicio: int,
    fim: int,
    nota: string,
    status: int,
    tags: string)

  /** The three columns `SELECT id, nome, inicio` yields. */
  datatype Pending = Pending(id: int, nome: string, inicio: int)

  function Project(r: Row): Pending {
    Pending(r.id, r.nome, r.inicio)
  }

  // ---------------------------------------------------------------------------
  // Identity: `id INTEGER PRIMARY KEY AUTOINCREMENT`, rows kept in rowid order

  /** Rowid order with unique keys. */
  ghost predicate IdsIncreasing(rows: seq<Row>) {
    forall i, j :: 0 <= i < j < |rows| ==> rows[i].id < rows[j].id
  }

  ghost predicate HasId(rows: seq<Row>, id: int) {
    exists i :: 0 <= i < |rows| && rows[i].id == id
  }

  /** Position of the first row whose key is `id`, if any. */
  function IndexOf(rows: seq<Row>, id: int): (k: Option<nat>)
    ensures k.Some? ==> k.value < |rows| && rows[k.value].id == id
    ensures k.None? <==> !HasId(rows, id)
  {
    if rows == [] then None
    else if rows[0].id == id then Some(0)
    else
      match IndexOf(rows[1..], id)
      case None =>
        assert forall i :: 1 <= i < |rows| ==> rows[i] == rows[1..][i - 1];
        None
      case Some(k) => Some(k + 1)
  }

  lemma IdentifiesOneRow(rows: seq<Row>, i: int, j: int)
    requires IdsIncreasing(rows)
    requires 0 <= i < |rows| && 0 <= j < |rows|
    ensures rows[i].id == rows[j].id ==> i == j
  {
  }

  // ---------------------------------------------------------------------------
  // `UPDATE atividades SET ... WHERE id=?`

  /** The three SET lists the store uses. */
  datatype Change =
    | Fields(nome: string, inicio: int, fim: int, tags: string)  // update
    | SetStatus(status: int)                                       // toggle
    | SetNote(nota: string)                                        // update_nota

  function Apply(r: Row, c: Change): Row {
    match c
    case Fields(nome, inicio, fim, tags) => r.(nome := nome, inicio := inicio, fim := fim, tags := tags)
    case SetStatus(status) => r.(status := status)
    case SetNote(nota) => r.(nota := nota)
  }

  /** Every row keyed `id` gets the change, every other row stays as it was,
      in the same place. */
  function UpdateWhere(rows: seq<Row>, id: int, c: Change): (r: seq<Row>)
    ensures |r| == |rows|
    ensures forall i :: 0 <= i < |rows| ==>
      r[i] == (if rows[i].id == id then Apply(rows[i], c) else rows[i])
  {
    if rows == [] then []
    else
      var rest := UpdateWhere(rows[1..], id, c);
      var head := if rows[0].id == id then Apply(rows[0], c) else rows[0];
      assert forall i :: 1 <= i < |rows| ==> rows[i] == rows[1..][i - 1];
      [head] + rest
  }

  /** An update keeps the keys, so the table stays in rowid order. */
  lemma UpdateKeepsOrder(rows: seq<Row>, id: int, c: Change)
    requires IdsIncreasing(rows)
    ensures IdsIncreasing(UpdateWhere(rows, id, c))
    ensures forall i :: 0 <= i < |rows| ==> UpdateWhere(rows, id, c)[i].id == rows[i].id
  {
  }

  // ---------------------------------------------------------------------------
  // `DELETE FROM atividades WHERE id=?`

  /** The table without the rows keyed `id`, the others in their order. */
  function WithoutId(rows: seq<Row>, id: int): (r: seq<Row>)
    ensures forall x :: x in r <==> x in rows && x.id != id
    ensures !HasId(rows, id) ==> r == rows
  {
    if rows == [] then []
    else
      var rest := WithoutId(rows[1..], id);
      assert forall i :: 1 <= i < |rows| ==> rows[i] == rows[1..][i - 1];
      assert forall x :: x in rows <==> x == rows[0] || x in rows[1..];
      if rows[0].id == id then rest else [rows[0]] + rest
  }

  /** Deleting keeps the remaining keys unique and in rowid order. */
  lemma {:induction false} WithoutIdKeepsOrder(rows: seq<Row>, id: int)
    requires IdsIncreasing(rows)
    ensures IdsIncreasing(WithoutId(rows, id))
  {
    if rows != [] {
      var tail := rows[1..];
      assert IdsIncreasing(tail) by {
        assert forall i :: 0 <= i < |tail| ==> tail[i] == rows[i + 1];
      }
      WithoutIdKeepsOrder(tail, id);
      var rest := WithoutId(tail, id);
      if rows[0].id != id {
        assert forall k :: 0 <= k < |rest| ==> rows[0].id < rest[k].id by {
          forall k | 0 <= k < |rest| ensures rows[0].id < rest[k].id {
            IdsAfterHead(rows, rest[k]);
          }
        }
        ConsIncreasing(rows[0], rest);
      }
    }
  }

  lemma IdsAfterHead(rows: seq<Row>, x: Row)
    requires IdsIncreasing(rows) && rows != [] && x in rows[1..]
    ensures rows[0].id < x.id
  {
    var j :| 0 <= j < |rows[1..]| && rows[1..][j] == x;
    assert rows[j + 1] == x;
  }

  lemma ConsIncreasing(x: Row, rest: seq<Row>)
    requires IdsIncreasing(rest)
    requires forall k :: 0 <= k < |rest| ==> x.id < rest[k].id
    ensures IdsIncreasing([x] + rest)
  {
    var r := [x] + rest;
    forall i, j | 0 <= i < j < |r| ensures r[i].id < r[j].id {
      assert r[j] == rest[j - 1];
      if i > 0 {
        assert r[i] == rest[i - 1];
      }
    }
  }

  // ---------------------------------------------------------------------------
  // `SELECT nota FROM atividades WHERE id=?`, first row or ""

  /** The note of the row keyed `id`, or "" when there is none. */
  function NoteOf(rows: seq<Row>, id: int): (t: string)
    ensures !HasId(rows, id) ==> t == ""
    ensures IdsIncreasing(rows) ==>
      forall i :: 0 <= i < |rows| && rows[i].id == id ==> t == rows[i].nota
  {
    match IndexOf(rows, id)
    case None => ""
    case Some(k) =>
      assert IdsIncreasing(rows) ==>
        forall i :: 0 <= i < |rows| && rows[i].id == id ==> i == k by {
        if IdsIncreasing(rows) {
          forall i | 0 <= i < |rows| && rows[i].id == id ensures i == k {
            IdentifiesOneRow(rows, i, k);
          }
        }
      }
      rows[k].nota
  }

  /** `update_nota(id, t)` then `nota(id)` reads back `t` when the row
      exists; on a missing id the table is unchanged and the note reads "". */
  lemma NoteReadsBack(rows: seq<Row>, id: int, t: string)
    requires IdsIncreasing(rows)
    ensures HasId(rows, id) ==> NoteOf(UpdateWhere(rows, id, SetNote(t)), id) == t
    ensures !HasId(rows, id) ==> UpdateWhere(rows, id, SetNote(t)) == rows && NoteOf(rows, id) == ""
  {
    var r := UpdateWhere(rows, id, SetNote(t));
    UpdateKeepsOrder(rows, id, SetNote(t));
    if HasId(rows, id) {
      var k :| 0 <= k < |rows| && rows[k].id == id;
      assert r[k].id == id && r[k].nota == t;
    }
  }

  // ---------------------------------------------------------------------------
  // `SELECT id, nome, inicio FROM atividades WHERE status=0`

  /** The pending rows projected to their three columns, in rowid order.
      The query has no ORDER BY; rowid order is the order this model fixes,
      and it is the order in which reminders are shown. */
  function PendingOf(rows: seq<Row>): (ps: seq<Pending>)
    ensures |ps| <= |rows|
  {
    if rows == [] then []
    else
      var rest := PendingOf(rows[1..]);
      if rows[0].status == 0 then [Project(rows[0])] + rest else rest
  }

  /** `pendentes` returns exactly the projections of the rows with status 0. */
  lemma {:induction false} PendingMembers(rows: seq<Row>)
    ensures forall p :: p in PendingOf(rows) <==>
      exists j :: 0 <= j < |rows| && rows[j].status == 0 && p == Project(rows[j])
  {
    if rows != [] {
      PendingMembers(rows[1..]);
      assert forall j :: 1 <= j < |rows| ==> rows[j] == rows[1..][j - 1];
      forall p | p in PendingOf(rows)
        ensures exists j :: 0 <= j < |rows| && rows[j].status == 0 && p == Project(rows[j])
      {
        if p !in PendingOf(rows[1..]) {
          assert rows[0].status == 0 && p == Project(rows[0]);
        } else {
          var j :| 0 <= j < |rows[1..]| && rows[1..][j].status == 0 && p == Project(rows[1..][j]);
          assert rows[j + 1] == rows[1..][j];
        }
      }
      forall p, j | 0 <= j < |rows| && rows[j].status == 0 && p == Project(rows[j])
        ensures p in PendingOf(rows)
      {
        if j > 0 {
          assert rows[1..][j - 1] == rows[j];
        }
      }
    }
  }

  /** After `SET status=s WHERE id=k` on an existing row, `k` is among the
      pending ids exactly when `s` is 0. */
  lemma PendingAfterToggle(rows: seq<Row>, id: int, status: int)
    requires IdsIncreasing(rows) && HasId(rows, id)
    ensures var after := UpdateWhere(rows, id, SetStatus(status));
            (exists p :: p in PendingOf(after) && p.id == id) <==> status == 0
  {
    var after := UpdateWhere(rows, id, SetStatus(status));
    var k :| 0 <= k < |rows| && rows[k].id == id;
    assert after[k].status == status && after[k].id == id;
    UpdateKeepsOrder(rows, id, SetStatus(status));
    PendingMembers(after);
    if status == 0 {
      assert Project(after[k]) in PendingOf(after);
    } else {
      forall p | p in PendingOf(after) ensures p.id != id {
        var j :| 0 <= j < |after| && after[j].status == 0 && p == Project(after[j]);
        IdentifiesOneRow(after, j, k);
      }
    }
  }

  // ---------------------------------------------------------------------------
  // `nome LIKE '%busca%'`: a substring test that folds ASCII case

  function FoldChar(c: char): char {
    if 'A' <= c <= 'Z' then (c as int - 'A' as int + 'a' as int) as char else c
  }

  function Fold(s: string): string {
    seq(|s|, i requires 0 <= i < |s| => FoldChar(s[i]))
  }

  /** `needle` occurs in `hay` as a contiguous part. */
  function Contains(hay: string, needle: string): (b: bool)
    decreases |hay|
  {
    needle <= hay || (hay != [] && Contains(hay[1..], needle))
  }

  /** Reference definition of the substring test. */
  ghost predicate OccursAt(hay: string, needle: string, i: int) {
    0 <= i && i + |needle| <= |hay| && hay[i..i + |needle|] == needle
  }

  lemma {:induction false} ContainsIffOccurs(hay: string, needle: string)
    ensures Contains(hay, needle) <==> exists i :: OccursAt(hay, needle, i)
    decreases |hay|
  {
    if needle <= hay {
      assert OccursAt(hay, needle, 0);
    } else if hay == [] {
    } else {
      ContainsIffOccurs(hay[1..], needle);
      if exists i :: OccursAt(hay[1..], needle, i) {
        var i :| OccursAt(hay[1..], needle, i);
        assert hay[i + 1..i + 1 + |needle|] == hay[1..][i..i + |needle|];
        assert OccursAt(hay, needle, i + 1);
      }
      if exists i :: OccursAt(hay, needle, i) {
        var i :| OccursAt(hay, needle, i);
        if i != 0 {
          assert hay[1..][i - 1..i - 1 + |needle|] == hay[i..i + |needle|];
          assert OccursAt(hay[1..], needle, i - 1);
        }
      }
    }
  }

  /** The pattern test of `LIKE '%busca%'`, with SQLite's ASCII case folding. */
  predicate Like(text: string, busca: string) {
    Contains(Fold(text), Fold(busca))
  }

  /** A row whose text holds the search string verbatim is always found. */
  lemma {:induction false} SubstringIsLike(text: string, busca: string)
    requires Contains(text, busca)
    ensures Like(text, busca)
  {
    ContainsIffOccurs(text, busca);
    var i :| OccursAt(text, busca, i);
    assert Fold(text)[i..i + |busca|] == Fold(busca);
    assert OccursAt(Fold(text), Fold(busca), i);
    ContainsIffOccurs(Fold(text), Fold(busca));
  }

  // ---------------------------------------------------------------------------
  // `WHERE 1=1 [AND status=?] [AND (nome LIKE ? OR tags LIKE ?)]`

  /** The WHERE clause `all` builds: the status test only when a status is
      given, the text test only when `busca` is not empty. */
  predicate Matches(r: Row, status: Option<int>, busca: string) {
    && (status.Some? ==> r.status == status.value)
    && (busca != [] ==> Like(r.nome, busca) || Like(r.tags, busca))
  }

  /** The rows satisfying the WHERE clause, in rowid order. */
  function Select(rows: seq<Row>, status: Option<int>, busca: string): (sel: seq<Row>)
    ensures |sel| <= |rows|
  {
    if rows == [] then []
    else
      var rest := Select(rows[1..], status, busca);
      if Matches(rows[0], status, busca) then [rows[0]] + rest else rest
  }

  /** A row is selected exactly when it is in the table and matches. */
  lemma {:induction false} SelectMembers(rows: seq<Row>, status: Option<int>, busca: string)
    ensures forall r :: r in Select(rows, status, busca) <==> r in rows && Matches(r, status, busca)
  {
    if rows != [] {
      SelectMembers(rows[1..], status, busca);
      assert forall r :: r in rows <==> r == rows[0] || r in rows[1..];
    }
  }

  /** With statuses 0 and 1 only, filtering by 0 and by 1 splits the
      unfiltered selection exactly. */
  lemma {:induction false} StatusPartition(rows: seq<Row>, busca: string)
    requires forall i :: 0 <= i < |rows| ==> rows[i].status == 0 || rows[i].status == 1
    ensures multiset(Select(rows, Some(0), busca)) + multiset(Select(rows, Some(1), busca))
         == multiset(Select(rows, None, busca))
  {
    if rows != [] {
      assert forall i :: 0 <= i < |rows[1..]| ==> rows[1..][i] == rows[i + 1];
      StatusPartition(rows[1..], busca);
    }
  }

  // ---------------------------------------------------------------------------
  // `ORDER BY inicio ASC`, ties in rowid order

  /** The listing order: by start time, then by key. */
  predicate Before(a: Row, b: Row) {
    a.inicio < b.inicio || (a.inicio == b.inicio && a.id <= b.id)
  }

  /** Each row comes `Before` the next one. */
  predicate Sorted(s: seq<Row>) {
    |s| <= 1 || (Before(s[0], s[1]) && Sorted(s[1..]))
  }

  /** In a sorted sequence every row comes `Before` every later one. */
  lemma {:induction false} SortedPairwise(s: seq<Row>)
    requires Sorted(s)
    ensures forall i, j :: 0 <= i < j < |s| ==> Before(s[i], s[j])
  {
    if |s| > 1 {
      SortedPairwise(s[1..]);
      forall i, j | 0 <= i < j < |s| ensures Before(s[i], s[j]) {
        if i > 0 {
          assert s[i] == s[1..][i - 1] && s[j] == s[1..][j - 1];
        } else if j > 1 {
          assert Before(s[1], s[j]) by {
            assert s[1] == s[1..][0] && s[j] == s[1..][j - 1];
          }
        }
      }
    }
  }

  /** Insertion of one row into a sorted sequence. */
  function Insert(x: Row, s: seq<Row>): (r: seq<Row>)
    requires Sorted(s)
    ensures Sorted(r)
    ensures multiset(r) == multiset(s) + multiset{x}
    ensures r[0] == x || (s != [] && r[0] == s[0])
  {
    if s == [] then [x]
    else if Before(x, s[0]) then [x] + s
    else
      assert s == [s[0]] + s[1..];
      [s[0]] + Insert(x, s[1..])
  }

  /** The rows in listing order: a sorted permutation of the input. */
  function Ordered(s: seq<Row>): (r: seq<Row>)
    ensures Sorted(r)
    ensures multiset(r) == multiset(s)
    ensures |r| == |s|
  {
    if s == [] then []
    else
      assert s == [s[0]] + s[1..];
      Insert(s[0], Ordered(s[1..]))
  }

  // ---------------------------------------------------------------------------
  // `LIMIT ? OFFSET ?`

  function Min(a: int, b: int): int {
    if a <= b then a else b
  }

  /** Skip `offset` rows, then keep at most `limit`. */
  function Window(s: seq<Row>, offset: nat, limit: nat): (page: seq<Row>)
    ensures |page| == if offset >= |s| then 0 else Min(limit, |s| - offset)
    ensures page == [] || page == s[offset..offset + |page|]
  {
    if offset >= |s| then [] else s[offset..offset + Min(limit, |s| - offset)]
  }

  // ---------------------------------------------------------------------------
  // The whole statement of `Database.all`

  /** The filtered table in listing order: what the SELECT yields before
      LIMIT and OFFSET cut a page out of it. */
  function Listing(rows: seq<Row>, status: Option<int>, busca: string): seq<Row> {
    Ordered(Select(rows, status, busca))
  }

  /** `SELECT * ... WHERE ... ORDER BY inicio ASC LIMIT limit OFFSET offset`. */
  function Query(rows: seq<Row>, limit: nat, offset: nat, status: Option<int>, busca: string): seq<Row> {
    Window(Listing(rows, status, busca), offset, limit)
  }

  /** A page holds at most `limit` rows of the table, every one matching the
      filter, in listing order and so with non-decreasing start times. */
  lemma QueryPage(rows: seq<Row>, limit: nat, offset: nat, status: Option<int>, busca: string)
    ensures var page := Query(rows, limit, offset, status, busca);
            && |page| <= limit
            && (forall i, j :: 0 <= i < j < |page| ==> Before(page[i], page[j]))
            && (forall i, j :: 0 <= i < j < |page| ==> page[i].inicio <= page[j].inicio)
            && (forall r :: r in page ==> r in rows && Matches(r, status, busca))
  {
    var sel := Select(rows, status, busca);
    var all := Listing(rows, status, busca);
    var page := Query(rows, limit, offset, status, busca);
    SelectMembers(rows, status, busca);
    SortedPairwise(all);
    forall i, j | 0 <= i < j < |page| ensures Before(page[i], page[j]) {
      assert page[i] == all[offset + i] && page[j] == all[offset + j];
    }
    forall r | r in page ensures r in sel {
      var i :| 0 <= i < |page| && page[i] == r;
      assert all[offset + i] in multiset(all);
    }
  }

  /** What scrolling reads from a listing `all`: the page `Window(all, offset,
      limit)` (which is `Query(rows, limit, offset, ...)` when `all` is
      `Listing(rows, ...)`), then the pages after it, each asked for at the
      previous offset plus the number of rows returned, until one comes back
      empty. */
  ghost function Paged(all: seq<Row>, limit: nat, offset: nat): seq<Row>
    requires limit > 0
    decreases |all| - offset
  {
    var page := Window(all, offset, limit);
    if page == [] then [] else page + Paged(all, limit, offset + |page|)
  }

  lemma {:induction false} PagedFrom(all: seq<Row>, limit: nat, offset: nat)
    requires limit > 0
    requires offset <= |all|
    ensures Paged(all, limit, offset) == all[offset..]
    decreases |all| - offset
  {
    var page := Window(all, offset, limit);
    if page != [] {
      var next := offset + |page|;
      assert page == all[offset..next];
      PagedFrom(all, limit, next);
      assert all[offset..] == page + all[next..];
    }
  }

  /** Pagination is complete and exact: reading `Query` pages from offset 0
      yields the whole filtered table in listing order, each matching row
      exactly as often as it is in the table. */
  lemma ScrollingCoversSelection(rows: seq<Row>, limit: nat, status: Option<int>, busca: string)
    requires limit > 0
    ensures Paged(Listing(rows, status, busca), limit, 0) == Listing(rows, status, busca)
    ensures multiset(Paged(Listing(rows, status, busca), limit, 0)) == multiset(Select(rows, status, busca))
  {
    PagedFrom(Listing(rows, status, busca), limit, 0);
  }
}
