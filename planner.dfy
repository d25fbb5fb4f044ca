/** The `Planner` window of main.py without its widgets: the filter it reads
    the table through, the list it shows and the `offset` cursor that pages
    that list in, and the set of ids it has already reminded the user of. */
module App {
  import opened Table
  import opened Store
  import opened Reminders

  /** PAGE_SIZE of main.py: rows asked for per `load`. */
  const PAGE_SIZE: nat := 30

  /** The status combo box: "Pendentes" filters on status 0, "Concluídas" on
      status 1, and anything else ("Todos") does not filter on status. */
  function StatusFilter(text: string): (st: Option<int>)
    ensures st == Some(0) <==> text == "Pendentes"
    ensures st == Some(1) <==> text == "Concluídas"
    ensures st == None <==> text != "Pendentes" && text != "Concluídas"
  {
    if text == "Pendentes" then Some(0)
    else if text == "Concluídas" then Some(1)
    else None
  }

  /** What the combo box choice means for the listing: "Pendentes" shows only
      open rows, "Concluídas" only completed ones, and any other choice every
      row that matches the search. */
  lemma FilterShows(rows: seq<Row>, text: string, busca: string)
    ensures forall r :: r in Listing(rows, StatusFilter(text), busca) <==>
      && r in rows
      && (busca != [] ==> Like(r.nome, busca) || Like(r.tags, busca))
      && (text == "Pendentes" ==> r.status == 0)
      && (text == "Concluídas" ==> r.status == 1)
  {
    var st := StatusFilter(text);
    SelectMembers(rows, st, busca);
    ListingMembers(rows, st, busca);
  }

  /** A listing holds the rows its selection holds. */
  lemma ListingMembers(rows: seq<Row>, status: Option<int>, busca: string)
    ensures forall r :: r in Listing(rows, status, busca) <==> r in Select(rows, status, busca)
  {
    var all := Listing(rows, status, busca);
    var sel := Select(rows, status, busca);
    assert multiset(all) == multiset(sel);
    forall r ensures r in all <==> r in sel {
      assert r in all <==> r in multiset(all);
      assert r in sel <==> r in multiset(sel);
    }
  }

  // ---------------------------------------------------------------------------
  // The list widget

  /** What one list entry shows (`ItemAtividade` and its `UserRole` data):
      every column but the note. */
  datatype Item = Item(id: int, nome: string, inicio: int, fim: int, status: int, tags: string)

  function ItemOf(r: Row): Item {
    Item(r.id, r.nome, r.inicio, r.fim, r.status, r.tags)
  }

  /** The entries a sequence of rows shows, in the same order. */
  function Display(rows: seq<Row>): (items: seq<Item>)
    ensures |items| == |rows|
  {
    if rows == [] then [] else [ItemOf(rows[0])] + Display(rows[1..])
  }

  lemma {:induction false} DisplayAt(rows: seq<Row>)
    ensures forall i :: 0 <= i < |rows| ==> Display(rows)[i] == ItemOf(rows[i])
  {
    if rows != [] {
      DisplayAt(rows[1..]);
      assert forall i :: 1 <= i < |rows| ==> rows[i] == rows[1..][i - 1];
    }
  }

  lemma {:induction false} DisplayAppend(a: seq<Row>, b: seq<Row>)
    ensures Display(a + b) == Display(a) + Display(b)
  {
    if a == [] {
      assert a + b == b;
    } else {
      assert (a + b)[1..] == a[1..] + b;
      DisplayAppend(a[1..], b);
    }
  }

  lemma DisplayCons(x: Row, s: seq<Row>)
    ensures Display([x] + s) == [ItemOf(x)] + Display(s)
  {
    assert ([x] + s)[1..] == s;
  }

  /** Two tables that show the same agree entry by entry, and so do their
      tails and prefixes. */
  lemma SameViewTail(a: seq<Row>, b: seq<Row>)
    requires a != [] && Display(a) == Display(b)
    ensures |b| == |a| && ItemOf(a[0]) == ItemOf(b[0])
    ensures Display(a[1..]) == Display(b[1..])
  {
    assert Display(a) == [ItemOf(a[0])] + Display(a[1..]);
    assert Display(b) == [ItemOf(b[0])] + Display(b[1..]);
    assert Display(a)[1..] == Display(a[1..]);
  }

  /** Two tables that show the same are selected alike. */
  lemma {:induction false} SelectSameView(a: seq<Row>, b: seq<Row>, status: Option<int>, busca: string)
    requires Display(a) == Display(b)
    ensures Display(Select(a, status, busca)) == Display(Select(b, status, busca))
  {
    if a != [] {
      SameViewTail(a, b);
      SelectSameView(a[1..], b[1..], status, busca);
      DisplayAppend([a[0]], Select(a[1..], status, busca));
      DisplayAppend([b[0]], Select(b[1..], status, busca));
    }
  }

  lemma {:induction false} InsertSameView(x: Row, s: seq<Row>, y: Row, t: seq<Row>)
    requires Sorted(s) && Sorted(t)
    requires ItemOf(x) == ItemOf(y) && Display(s) == Display(t)
    ensures Display(Insert(x, s)) == Display(Insert(y, t))
  {
    if s != [] {
      SameViewTail(s, t);
      if Before(x, s[0]) {
        InsertFrontSameView(x, s, y, t);
      } else {
        InsertSameView(x, s[1..], y, t[1..]);
        InsertLaterSameView(x, s, y, t);
      }
    }
  }

  lemma InsertFrontSameView(x: Row, s: seq<Row>, y: Row, t: seq<Row>)
    requires Sorted(s) && Sorted(t) && s != [] && t != []
    requires ItemOf(x) == ItemOf(y) && ItemOf(s[0]) == ItemOf(t[0]) && Display(s) == Display(t)
    requires Before(x, s[0])
    ensures Display(Insert(x, s)) == Display(Insert(y, t))
  {
    assert Before(y, t[0]);
    DisplayCons(x, s);
    DisplayCons(y, t);
  }

  lemma InsertLaterSameView(x: Row, s: seq<Row>, y: Row, t: seq<Row>)
    requires Sorted(s) && Sorted(t) && s != [] && t != []
    requires ItemOf(x) == ItemOf(y) && ItemOf(s[0]) == ItemOf(t[0])
    requires !Before(x, s[0])
    requires Display(Insert(x, s[1..])) == Display(Insert(y, t[1..]))
    ensures Display(Insert(x, s)) == Display(Insert(y, t))
  {
    assert !Before(y, t[0]);
    DisplayCons(s[0], Insert(x, s[1..]));
    DisplayCons(t[0], Insert(y, t[1..]));
  }

  lemma {:induction false} OrderedSameView(a: seq<Row>, b: seq<Row>)
    requires Display(a) == Display(b)
    ensures Display(Ordered(a)) == Display(Ordered(b))
  {
    if a != [] {
      SameViewTail(a, b);
      OrderedSameView(a[1..], b[1..]);
      InsertSameView(a[0], Ordered(a[1..]), b[0], Ordered(b[1..]));
    }
  }

  /** Saving a note does not change what the list shows: the note is not
      displayed, and the filter and the order never look at it. */
  lemma NoteInvisible(rows: seq<Row>, id: int, nota: string, status: Option<int>, busca: string)
    ensures Display(Listing(UpdateWhere(rows, id, SetNote(nota)), status, busca))
         == Display(Listing(rows, status, busca))
  {
    var renoted := UpdateWhere(rows, id, SetNote(nota));
    DisplayAt(renoted);
    DisplayAt(rows);
    assert Display(renoted) == Display(rows);
    SelectSameView(renoted, rows, status, busca);
    OrderedSameView(Select(renoted, status, busca), Select(rows, status, busca));
  }

  /** A list `lista` with cursor `offset` shows the first `offset` rows of
      the listing `all`, in order, and nothing else. */
  ghost predicate ShowsPrefix(lista: seq<Item>, offset: nat, all: seq<Row>) {
    && offset == |lista|
    && offset <= |all|
    && lista == Display(all[..offset])
  }

  /** Two listings that show the same have the same shown prefixes. */
  lemma SameViewShowsPrefix(lista: seq<Item>, offset: nat, a: seq<Row>, b: seq<Row>)
    requires ShowsPrefix(lista, offset, a) && Display(a) == Display(b)
    ensures ShowsPrefix(lista, offset, b)
  {
    assert a == a[..offset] + a[offset..] && b == b[..offset] + b[offset..];
    DisplayAppend(a[..offset], a[offset..]);
    DisplayAppend(b[..offset], b[offset..]);
    assert Display(a[..offset]) == Display(a)[..offset];
  }

  /** Every entry of a list that shows a prefix of the listing is the stored
      row with that key, shown column for column; no other row has the key. */
  lemma EntryIsRow(rows: seq<Row>, status: Option<int>, busca: string, lista: seq<Item>, offset: nat, k: int)
    requires IdsIncreasing(rows)
    requires ShowsPrefix(lista, offset, Listing(rows, status, busca))
    requires 0 <= k < |lista|
    ensures HasId(rows, lista[k].id)
    ensures forall i :: 0 <= i < |rows| && rows[i].id == lista[k].id ==> ItemOf(rows[i]) == lista[k]
  {
    var all := Listing(rows, status, busca);
    DisplayAt(all[..offset]);
    assert lista[k] == ItemOf(all[k]);
    SelectMembers(rows, status, busca);
    assert all[k] in multiset(all);
    assert all[k] in Select(rows, status, busca);
    var j :| 0 <= j < |rows| && rows[j] == all[k];
    forall i | 0 <= i < |rows| && rows[i].id == lista[k].id ensures ItemOf(rows[i]) == lista[k] {
      IdentifiesOneRow(rows, i, j);
    }
  }

  /** The menu's toggle is a flip: storing 0 when the entry showed a nonzero
      status and 1 otherwise turns an open row into a completed one and back. */
  lemma ToggleFlips(rows: seq<Row>, id: int, shown: int)
    requires forall i :: 0 <= i < |rows| && rows[i].id == id ==> rows[i].status == shown
    ensures var flipped := UpdateWhere(rows, id, SetStatus(if shown != 0 then 0 else 1));
            forall i :: 0 <= i < |flipped| && flipped[i].id == id ==>
              (flipped[i].status == 0 <==> rows[i].status != 0)
  {
  }

  /** `load` keeps the list a prefix of the listing: appending the page at
      `offset` and advancing by its length shows a longer prefix; the page is
      empty only at the end of the listing, and then the list shows all of
      it. */
  lemma NextPage(lista: seq<Item>, offset: nat, all: seq<Row>)
    requires ShowsPrefix(lista, offset, all)
    ensures var page := Window(all, offset, PAGE_SIZE);
            && ShowsPrefix(lista + Display(page), offset + |page|, all)
            && (page == [] <==> offset == |all|)
            && (page == [] ==> lista == Display(all))
  {
    var page := Window(all, offset, PAGE_SIZE);
    assert all[..offset + |page|] == all[..offset] + page;
    DisplayAppend(all[..offset], page);
    assert all[..|all|] == all;
  }

  /** The loop of `load` that builds one list entry per returned row, in
      order. */
  method Render(rows: seq<Row>) returns (items: seq<Item>)
    ensures items == Display(rows)
  {
    items := [];
    var i := 0;
    while i < |rows|
      invariant 0 <= i <= |rows|
      invariant items == Display(rows[..i])
    {
      DisplayAppend(rows[..i], [rows[i]]);
      DisplayCons(rows[i], []);
      assert rows[..i + 1] == rows[..i] + [rows[i]];
      items := items + [ItemOf(rows[i])];
      i := i + 1;
    }
    assert rows[..i] == rows;
  }

  // ---------------------------------------------------------------------------
  // Rows as sqlite3 hands them back

  /** A column value of a fetched row. */
  datatype Cell = Int(n: int) | Text(t: string)

  /** A row as `cursor.fetchall()` returns it when the connection sets no
      row factory: a tuple of the columns in table order. In that tuple
      `inicio` and `fim` are the stored timestamp text; here they are the
      model's seconds. Which it is does not matter to `Subscript`: a tuple
      subscripted by a string raises whatever its cells hold. */
  function AsTuple(r: Row): (t: seq<Cell>)
    ensures |t| == 7 && t[0] == Int(r.id) && t[1] == Text(r.nome)
  {
    [Int(r.id), Text(r.nome), Int(r.inicio), Int(r.fim), Text(r.nota), Int(r.status), Text(r.tags)]
  }

  /** A subscript: an integer position or a column name. */
  datatype Key = At(i: int) | Named(name: string)

  datatype Lookup = Found(cell: Cell) | IndexError | TypeError

  /** Subscripting a Python tuple: a position in range (negative ones count
      from the end) yields that cell, any other position raises IndexError,
      and a string raises TypeError. */
  function Subscript(t: seq<Cell>, k: Key): (r: Lookup)
    ensures r.TypeError? <==> k.Named?
    ensures r.IndexError? <==> k.At? && !(-|t| <= k.i < |t|)
    ensures k.At? && 0 <= k.i < |t| ==> r == Found(t[k.i])
    ensures k.At? && -|t| <= k.i < 0 ==> r == Found(t[|t| + k.i])
  {
    match k
    case Named(_) => TypeError
    case At(i) =>
      if 0 <= i < |t| then Found(t[i])
      else if -|t| <= i < 0 then Found(t[|t| + i])
      else IndexError
  }

  /** At start-up the combo box reads "Todos" and the search box is empty,
      so the first page `__init__` asks for is empty exactly when the table
      is: with tuple rows, `__init__`'s `reset` raises whenever the store
      already holds an activity. */
  lemma StartupPageNonEmpty(rows: seq<Row>)
    ensures Query(rows, PAGE_SIZE, 0, StatusFilter("Todos"), []) != [] <==> rows != []
  {
    var all := Listing(rows, None, []);
    SelectMembers(rows, None, []);
    ListingMembers(rows, None, []);
    if rows != [] {
      assert rows[0] in all;
    }
  }

  // ---------------------------------------------------------------------------
  // The window

  class Planner {
    const db: Database
    /** The status combo box text. */
    var statusText: string
    /** The search box text. */
    var busca: string
    /** The entries of the list widget, top to bottom. */
    var lista: seq<Item>
    /** How many listing rows have been loaded since the last reset. */
    var offset: nat
    /** Ids already reminded of. */
    var notificados: set<int>
    /** Whether "Nenhuma atividade encontrada." is visible. */
    var avisoVazio: bool

    /** The list shows the first `offset` rows of the listing the current
        filter selects, in order, and nothing else. */
    ghost predicate Valid()
      reads this, db
    {
      && db.Valid()
      && ShowsPrefix(lista, offset, Listing(db.rows, StatusFilter(statusText), busca))
    }

    /** `__init__` over an opened store: filter "Todos", empty search, no one
        reminded yet, and the first page loaded by `reset`. */
    constructor (store: Database)
      requires store.Valid()
      ensures Valid() && db == store
      ensures statusText == "Todos" && busca == [] && notificados == {}
      ensures lista == Display(Query(db.rows, PAGE_SIZE, 0, None, []))
      ensures offset == |lista| && avisoVazio == (lista == [])
    {
      db := store;
      statusText := "Todos";
      busca := [];
      lista := [];
      offset := 0;
      notificados := {};
      avisoVazio := false;
      new;
      Reset();
    }

    /** `reset`: empty the list, rewind the cursor and load the first page. */
    method Reset()
      requires db.Valid()
      modifies this
      ensures Valid()
      ensures statusText == old(statusText) && busca == old(busca) && notificados == old(notificados)
      ensures lista == Display(Query(db.rows, PAGE_SIZE, 0, StatusFilter(statusText), busca))
      ensures offset == |lista|
      ensures avisoVazio == (lista == [])
    {
      lista := [];
      offset := 0;
      Load();
    }

    /** `load`: ask for the page at `offset`, append its rows to the list in
        order and advance `offset` by the number of rows returned. The notice
        shows when the very first page is empty. Once a page comes back
        empty, the list holds the whole listing. */
    method Load()
      requires Valid()
      modifies this
      ensures Valid()
      ensures statusText == old(statusText) && busca == old(busca) && notificados == old(notificados)
      ensures var page := Query(db.rows, PAGE_SIZE, old(offset), StatusFilter(statusText), busca);
              && lista == old(lista) + Display(page)
              && offset == old(offset) + |page|
              && avisoVazio == (page == [] && old(offset) == 0)
              && (page == [] ==> lista == Display(Listing(db.rows, StatusFilter(statusText), busca)))
    {
      var st := StatusFilter(statusText);
      var rows := db.All(PAGE_SIZE, offset, st, busca);
      ghost var all := Listing(db.rows, st, busca);
      NextPage(lista, offset, all);
      avisoVazio := rows == [] && offset == 0;
      var items := Render(rows);
      lista := lista + items;
      offset := offset + |rows|;
    }

    /** `load` as main.py writes it. The connection sets no row factory, so
        each fetched row is a tuple, and the loop's first statement reads
        `r["nome"]`, which raises TypeError on the first row. The notice is
        set before the loop; on a non-empty page no entry is added and
        `offset` does not advance, so the same page is asked for again. */
    method LoadAsWritten() returns (raised: bool)
      requires Valid()
      modifies this
      ensures Valid()
      ensures statusText == old(statusText) && busca == old(busca) && notificados == old(notificados)
      ensures lista == old(lista) && offset == old(offset)
      ensures var page := Query(db.rows, PAGE_SIZE, old(offset), StatusFilter(statusText), busca);
              && (raised <==> page != [])
              && avisoVazio == (page == [] && old(offset) == 0)
    {
      var rows := db.All(PAGE_SIZE, offset, StatusFilter(statusText), busca);
      avisoVazio := rows == [] && offset == 0;
      raised := false;
      if rows != [] {
        match Subscript(AsTuple(rows[0]), Named("nome"))
        case TypeError =>
          raised := true;
          return;
      }
      offset := offset + |rows|;
    }

    /** `add`: with an empty name nothing happens; otherwise the store gains
        the new row and the list is reset. */
    method Add(nome: string, inicio: int, fim: int, tags: string)
      requires Valid()
      modifies this, db
      ensures Valid()
      ensures nome == [] ==>
        && db.rows == old(db.rows) && db.nextId == old(db.nextId)
        && lista == old(lista) && offset == old(offset) && avisoVazio == old(avisoVazio)
      ensures nome != [] ==>
        && db.rows == old(db.rows) + [Row(old(db.nextId), nome, inicio, fim, "", 0, tags)]
        && db.nextId == old(db.nextId) + 1
        && lista == Display(Query(db.rows, PAGE_SIZE, 0, StatusFilter(statusText), busca))
        && offset == |lista| && avisoVazio == (lista == [])
      ensures statusText == old(statusText) && busca == old(busca) && notificados == old(notificados)
    {
      if nome == [] {
        return;
      }
      db.Add(nome, inicio, fim, tags);
      Reset();
    }

    /** The context menu's "Concluir"/"Reabrir" on entry `k`: store status 0
        if the entry showed a nonzero status and 1 otherwise, then reset.
        A click where there is no entry does nothing. */
    method ToggleItem(k: int)
      requires Valid()
      modifies this, db
      ensures Valid() && db.nextId == old(db.nextId)
      ensures !(0 <= k < |old(lista)|) ==>
        && db.rows == old(db.rows) && lista == old(lista)
        && offset == old(offset) && avisoVazio == old(avisoVazio)
      ensures 0 <= k < |old(lista)| ==>
        var item := old(lista)[k];
        && db.rows == UpdateWhere(old(db.rows), item.id, SetStatus(if item.status != 0 then 0 else 1))
        && (forall i :: 0 <= i < |db.rows| && db.rows[i].id == item.id ==>
              (db.rows[i].status == 0 <==> old(db.rows)[i].status != 0))
        && lista == Display(Query(db.rows, PAGE_SIZE, 0, StatusFilter(statusText), busca))
        && offset == |lista| && avisoVazio == (lista == [])
      ensures statusText == old(statusText) && busca == old(busca) && notificados == old(notificados)
    {
      if !(0 <= k < |lista|) {
        return;
      }
      var item := lista[k];
      EntryIsRow(db.rows, StatusFilter(statusText), busca, lista, offset, k);
      ToggleFlips(db.rows, item.id, item.status);
      db.Toggle(item.id, if item.status != 0 then 0 else 1);
      Reset();
    }

    /** The context menu's "Excluir" on entry `k`: when the user confirms, the
        row is deleted and the list reset; otherwise nothing changes. */
    method DeleteItem(k: int, confirmed: bool)
      requires Valid()
      modifies this, db
      ensures Valid() && db.nextId == old(db.nextId)
      ensures !(0 <= k < |old(lista)| && confirmed) ==>
        && db.rows == old(db.rows) && lista == old(lista)
        && offset == old(offset) && avisoVazio == old(avisoVazio)
      ensures 0 <= k < |old(lista)| && confirmed ==>
        var id := old(lista)[k].id;
        && db.rows == WithoutId(old(db.rows), id)
        && !HasId(db.rows, id)
        && (forall item :: item in lista ==> item.id != id)
        && lista == Display(Query(db.rows, PAGE_SIZE, 0, StatusFilter(statusText), busca))
        && offset == |lista| && avisoVazio == (lista == [])
      ensures statusText == old(statusText) && busca == old(busca) && notificados == old(notificados)
    {
      if !(0 <= k < |lista| && confirmed) {
        return;
      }
      var id := lista[k].id;
      db.Delete(id);
      Reset();
      forall item | item in lista ensures item.id != id {
        var i :| 0 <= i < |lista| && lista[i] == item;
        var page := Query(db.rows, PAGE_SIZE, 0, StatusFilter(statusText), busca);
        QueryPage(db.rows, PAGE_SIZE, 0, StatusFilter(statusText), busca);
        DisplayAt(page);
        assert page[i] in page;
      }
    }

    /** The note dialog's "Salvar" for entry `k`: the row's note becomes
        `text`, reading it back gives `text`, and the list is left as it is. */
    method SaveNote(k: int, text: string)
      requires Valid()
      modifies db
      ensures Valid() && db.nextId == old(db.nextId)
      ensures !(0 <= k < |lista|) ==> db.rows == old(db.rows)
      ensures 0 <= k < |lista| ==>
        && db.rows == UpdateWhere(old(db.rows), lista[k].id, SetNote(text))
        && db.Nota(lista[k].id) == text
    {
      if !(0 <= k < |lista|) {
        return;
      }
      var id := lista[k].id;
      ghost var st := StatusFilter(statusText);
      ghost var rows := db.rows;
      EntryIsRow(rows, st, busca, lista, offset, k);
      db.UpdateNote(id, text);
      NoteInvisible(rows, id, text, st, busca);
      SameViewShowsPrefix(lista, offset, Listing(rows, st, busca), Listing(db.rows, st, busca));
    }

    /** A new choice in the status combo box resets the list under it. This
        is the slot `currentIndexChanged` runs, which Qt emits only when the
        choice actually changes; choosing the current text again runs
        nothing. */
    method ChooseStatus(text: string)
      requires db.Valid()
      modifies this
      ensures Valid() && statusText == text
      ensures busca == old(busca) && notificados == old(notificados)
      ensures lista == Display(Query(db.rows, PAGE_SIZE, 0, StatusFilter(text), busca))
      ensures offset == |lista| && avisoVazio == (lista == [])
    {
      statusText := text;
      Reset();
    }

    /** An edit of the search box resets the list under it. This is the slot
        `textChanged` runs, which Qt emits only when the text actually
        changes. */
    method Search(text: string)
      requires db.Valid()
      modifies this
      ensures Valid() && busca == text
      ensures statusText == old(statusText) && notificados == old(notificados)
      ensures lista == Display(Query(db.rows, PAGE_SIZE, 0, StatusFilter(statusText), text))
      ensures offset == |lista| && avisoVazio == (lista == [])
    {
      busca := text;
      Reset();
    }

    /** `notify` at time `now`: walk the pending rows, skip ids already
        reminded of, and remind of (and remember) each imminent one. Returns
        the reminders shown, in order. */
    method Notify(now: int) returns (fired: seq<Pending>)
      modifies this
      ensures fired == Scan(db.Pendentes(), old(notificados), now)
      ensures notificados == old(notificados) + Ids(fired)
      ensures lista == old(lista) && offset == old(offset) && avisoVazio == old(avisoVazio)
      ensures statusText == old(statusText) && busca == old(busca)
    {
      var ps := db.Pendentes();
      fired := [];
      var i := 0;
      while i < |ps|
        invariant 0 <= i <= |ps|
        invariant fired + Scan(ps[i..], notificados, now) == Scan(ps, old(notificados), now)
        invariant notificados == old(notificados) + Ids(fired)
        modifies this`notificados
      {
        var p := ps[i];
        ScanStep(ps, i, notificados, now, fired);
        if p.id !in notificados && Imminent(p.inicio, now) {
          IdsSnoc(fired, p);
          fired := fired + [p];
          notificados := notificados + {p.id};
        }
        i := i + 1;
      }
    }
  }
}
