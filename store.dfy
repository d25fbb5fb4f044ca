/** The `Database` class of database.py: one `atividades` table, changed in
    place by the store's statements. The connection, the schema statements,
    the commits and the backup copy are not part of this model. */
module Store {
  import opened Table

  class Database {
    /** The table's rows in rowid order. */
    var rows: seq<Row>
    /** One more than the largest id AUTOINCREMENT has handed out; ids are
        never reused, even after a delete. */
    var nextId: int

    ghost predicate Valid()
      reads this
    {
      && 1 <= nextId
      && IdsIncreasing(rows)
      && forall i :: 0 <= i < |rows| ==> 1 <= rows[i].id < nextId
    }

    /** A fresh, empty table. */
    constructor ()
      ensures Valid() && rows == [] && nextId == 1
    {
      rows := [];
      nextId := 1;
    }

    /** `INSERT INTO atividades VALUES (NULL, nome, inicio, fim, '', 0, tags)`:
        one new row at the end, keyed above every id handed out so far, with
        an empty note and status 0; the existing rows are untouched. */
    method Add(nome: string, inicio: int, fim: int, tags: string)
      requires Valid()
      modifies this
      ensures Valid()
      ensures rows == old(rows) + [Row(old(nextId), nome, inicio, fim, "", 0, tags)]
      ensures forall i :: 0 <= i < |old(rows)| ==> old(rows)[i].id < old(nextId)
      ensures nextId == old(nextId) + 1
    {
      rows := rows + [Row(nextId, nome, inicio, fim, "", 0, tags)];
      nextId := nextId + 1;
    }

    /** `UPDATE atividades SET nome=?, inicio=?, fim=?, tags=? WHERE id=?`:
        only those four columns of the row keyed `id` change; its note and
        status, and every other row, stay; a missing id changes nothing. */
    method Update(id: int, nome: string, inicio: int, fim: int, tags: string)
      requires Valid()
      modifies this
      ensures Valid() && nextId == old(nextId)
      ensures rows == UpdateWhere(old(rows), id, Fields(nome, inicio, fim, tags))
      ensures forall i :: 0 <= i < |rows| ==>
        && rows[i].id == old(rows)[i].id
        && rows[i].nota == old(rows)[i].nota
        && rows[i].status == old(rows)[i].status
      ensures !HasId(old(rows), id) ==> rows == old(rows)
    {
      UpdateKeepsOrder(rows, id, Fields(nome, inicio, fim, tags));
      rows := UpdateWhere(rows, id, Fields(nome, inicio, fim, tags));
    }

    /** `UPDATE atividades SET status=? WHERE id=?`. Afterwards the row is
        among the pending ones exactly when the new status is 0. */
    method Toggle(id: int, status: int)
      requires Valid()
      modifies this
      ensures Valid() && nextId == old(nextId)
      ensures rows == UpdateWhere(old(rows), id, SetStatus(status))
      ensures HasId(old(rows), id) ==>
        ((exists p :: p in PendingOf(rows) && p.id == id) <==> status == 0)
      ensures !HasId(old(rows), id) ==> rows == old(rows)
    {
      UpdateKeepsOrder(rows, id, SetStatus(status));
      if HasId(rows, id) {
        PendingAfterToggle(rows, id, status);
      }
      rows := UpdateWhere(rows, id, SetStatus(status));
    }

    /** `DELETE FROM atividades WHERE id=?`: the row keyed `id` is gone, the
        others keep their order, and its note now reads as "". */
    method Delete(id: int)
      requires Valid()
      modifies this
      ensures Valid() && nextId == old(nextId)
      ensures rows == WithoutId(old(rows), id)
      ensures !HasId(rows, id)
      ensures NoteOf(rows, id) == ""
    {
      WithoutIdKeepsOrder(rows, id);
      rows := WithoutId(rows, id);
      forall r | r in rows ensures 1 <= r.id < nextId {
        var i :| 0 <= i < |old(rows)| && old(rows)[i] == r;
      }
    }

    /** `UPDATE atividades SET nota=? WHERE id=?`, after which `Nota(id)`
        reads back exactly `nota` if the row exists, and "" otherwise. */
    method UpdateNote(id: int, nota: string)
      requires Valid()
      modifies this
      ensures Valid() && nextId == old(nextId)
      ensures rows == UpdateWhere(old(rows), id, SetNote(nota))
      ensures HasId(old(rows), id) ==> Nota(id) == nota
      ensures !HasId(old(rows), id) ==> rows == old(rows) && Nota(id) == ""
    {
      UpdateKeepsOrder(rows, id, SetNote(nota));
      NoteReadsBack(rows, id, nota);
      rows := UpdateWhere(rows, id, SetNote(nota));
    }

    /** `nota(id)`: the note of that row, or "" for a missing id. */
    function Nota(id: int): string
      reads this
    {
      NoteOf(rows, id)
    }

    /** `pendentes()`. */
    function Pendentes(): seq<Pending>
      reads this
    {
      PendingOf(rows)
    }

    /** `all(limit, offset, status, busca)`. */
    function All(limit: nat, offset: nat, status: Option<int>, busca: string): seq<Row>
      reads this
    {
      Query(rows, limit, offset, status, busca)
    }
  }
}
