/** The items table and the repository operations that read and change it:
    `getItem`, `createItem`, `updateItem` and `deleteItem`. The fresh id and
    the current time are parameters. */
module ItemRepository {
  import opened Wrappers
  import opened ItemSchema

  /** One `column = ?` assignment of the UPDATE statement's SET clause. */
  datatype Assignment =
    | SetTitle(title: string)
    | SetDescription(description: string)
    | SetStatus(status: Status)
    | SetUpdatedAt(updatedAt: string)

  /** What the engine does to a row for one assignment. */
  function Assign(row: Item, a: Assignment): Item {
    match a
    case SetTitle(t) => row.(title := t)
    case SetDescription(d) => row.(description := d)
    case SetStatus(s) => row.(status := s)
    case SetUpdatedAt(u) => row.(updatedAt := u)
  }

  /** The SET clause applied to a row, left to right. */
  function AssignAll(row: Item, assignments: seq<Assignment>): (r: Item)
    ensures r.id == row.id && r.createdAt == row.createdAt
    decreases |assignments|
  {
    if assignments == [] then row
    else AssignAll(Assign(row, assignments[0]), assignments[1..])
  }

  /** Appending an assignment to the SET clause applies it last. */
  lemma {:induction false} AssignAllAppend(row: Item, assignments: seq<Assignment>, a: Assignment)
    ensures AssignAll(row, assignments + [a]) == Assign(AssignAll(row, assignments), a)
    decreases |assignments|
  {
    if assignments != [] {
      assert (assignments + [a])[1..] == assignments[1..] + [a];
      AssignAllAppend(Assign(row, assignments[0]), assignments[1..], a);
    } else {
      assert ([] + [a])[1..] == [];
    }
  }

  /** `input` supplies at least one field. */
  predicate HasFields(input: UpdateInput) {
    input.title.Some? || input.description.Some? || input.status.Some?
  }

  /** The rows of the `items` table, keyed by their primary key `id`. */
  class ItemTable {
    var rows: map<string, Item>

    /** Every row is stored under its own id. */
    ghost predicate Valid()
      reads this
    {
      forall id :: id in rows ==> rows[id].id == id
    }

    constructor ()
      ensures Valid() && rows == map[]
    {
      rows := map[];
    }

    /** `getItem`: the row with this id, or nothing. */
    method Get(id: string) returns (r: Option<Item>)
      requires Valid()
      ensures r.Some? <==> id in rows
      ensures r.Some? ==> r.value == rows[id] && r.value.id == id
    {
      if id in rows {
        r := Some(rows[id]);
      } else {
        r := None;
      }
    }

    /** `createItem`: inserts one row under the fresh id, with `''` and
        `active` for an absent description and status and both timestamps
        set to `now`; returns the stored row and leaves every other row as it
        was. */
    method Create(input: CreateInput, freshId: string, now: string) returns (item: Item)
      requires Valid()
      requires freshId !in rows
      modifies this
      ensures Valid()
      ensures item.id == freshId && item.title == input.title
      ensures item.description == input.description.GetOr(DefaultDescription)
      ensures item.status == input.status.GetOr(DefaultStatus)
      ensures item.createdAt == now && item.updatedAt == now
      ensures rows == old(rows)[freshId := item]
      ensures |rows| == |old(rows)| + 1
    {
      var description := if input.description.Some? && input.description.value != "" then input.description.value else DefaultDescription;
      var status := if input.status.Some? then input.status.value else DefaultStatus;
      item := Item(freshId, input.title, description, status, now, now);
      rows := rows[freshId := item];
    }

    /** `updateItem`: nothing for an unknown id; the stored row, with no
        write, when no field is supplied; otherwise writes exactly the
        supplied fields and `updatedAt := now` into that one row, keeps its
        `id` and `createdAt`, and returns the row as re-read. */
    method Update(id: string, input: UpdateInput, now: string) returns (r: Option<Item>)
      requires Valid()
      modifies this
      ensures Valid()
      ensures id !in old(rows) ==> r == None && rows == old(rows)
      ensures id in old(rows) && !HasFields(input) ==> r == Some(old(rows)[id]) && rows == old(rows)
      ensures id in old(rows) && HasFields(input) ==>
                && r.Some?
                && rows == old(rows)[id := r.value]
                && r.value.id == id
                && r.value.createdAt == old(rows)[id].createdAt
                && r.value.title == input.title.GetOr(old(rows)[id].title)
                && r.value.description == input.description.GetOr(old(rows)[id].description)
                && r.value.status == input.status.GetOr(old(rows)[id].status)
                && r.value.updatedAt == now
    {
      var existing := Get(id);
      if existing.None? {
        return None;
      }
      ghost var row := existing.value;
      ghost var patched := row;
      var updates: seq<Assignment> := [];
      if input.title.Some? {
        AssignAllAppend(row, updates, SetTitle(input.title.value));
        updates := updates + [SetTitle(input.title.value)];
        patched := patched.(title := input.title.value);
      }
      if input.description.Some? {
        AssignAllAppend(row, updates, SetDescription(input.description.value));
        updates := updates + [SetDescription(input.description.value)];
        patched := patched.(description := input.description.value);
      }
      if input.status.Some? {
        AssignAllAppend(row, updates, SetStatus(input.status.value));
        updates := updates + [SetStatus(input.status.value)];
        patched := patched.(status := input.status.value);
      }
      if updates == [] {
        return existing;
      }
      AssignAllAppend(row, updates, SetUpdatedAt(now));
      updates := updates + [SetUpdatedAt(now)];
      patched := patched.(updatedAt := now);
      assert AssignAll(row, updates) == patched;
      rows := rows[id := AssignAll(rows[id], updates)];
      r := Get(id);
    }

    /** `deleteItem`: false and no change for an unknown id; otherwise true
        and exactly that row removed. */
    method Delete(id: string) returns (deleted: bool)
      requires Valid()
      modifies this
      ensures Valid()
      ensures deleted <==> id in old(rows)
      ensures rows == old(rows) - {id}
      ensures id !in rows
    {
      var existing := Get(id);
      if existing.None? {
        return false;
      }
      rows := rows - {id};
      deleted := true;
    }
  }

  /** The lifecycle a client sees: a created item reads back as created; an
      empty update returns it untouched; after a delete it is gone, and a
      second delete reports that nothing was there. */
  method Lifecycle(input: CreateInput, id: string, created: string, later: string)
    returns (read: Option<Item>, afterEmpty: Option<Item>, first: bool, second: bool, gone: Option<Item>)
    ensures read.Some? && read.value.id == id && read.value.title == input.title
    ensures read.value.createdAt == read.value.updatedAt == created
    ensures afterEmpty == read
    ensures first && !second && gone == None
  {
    var table := new ItemTable();
    var item := table.Create(input, id, created);
    read := table.Get(id);
    afterEmpty := table.Update(id, UpdateInput(None, None, None), later);
    first := table.Delete(id);
    second := table.Delete(id);
    gone := table.Get(id);
  }
}
