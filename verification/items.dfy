/** The item endpoints (`GET /items`, `POST /items`, `PUT /items/:id`,
    `DELETE /items/:id`, `POST /items/bulk`) as transitions of an abstract
    `items` table: each takes the table and the request's fields and gives
    the response and the new table. */
module Items {
  import opened Options
  import opened Strings
  import opened Seqs
  import opened Entities

  const TitleRequired: string := "title é obrigatório"
  const InvalidId: string := "id inválido"
  const ItemNotFound: string := "Item não encontrado"
  const RowsRequired: string := "rows deve ser um array com pelo menos 1 item"

  /** The table's rows in insertion order, and the next autoincrement id. */
  datatype ItemStore = ItemStore(items: seq<Item>, nextId: nat)

  const EmptyStore: ItemStore := ItemStore([], 1)

  /** The `title`, `status` and `owner` fields of a request body, absent or
      present. */
  datatype ItemInput = ItemInput(title: Option<string>, status: Option<string>, owner: Option<string>)

  /** `Number(req.params.id)`: not a number, an integer, or a number with a
      fractional part (which no row's id equals). */
  datatype IdParam = NaN | Integer(value: int) | Fraction

  predicate Ascending(items: seq<Item>)
  {
    forall i, j :: 0 <= i < j < |items| ==> items[i].id < items[j].id
  }

  predicate Descending(items: seq<Item>)
  {
    forall i, j :: 0 <= i < j < |items| ==> items[i].id > items[j].id
  }

  /** Ids are positive, below the counter, and increase along the table. */
  predicate Valid(s: ItemStore)
  {
    && s.nextId >= 1
    && (forall i :: 0 <= i < |s.items| ==> 1 <= s.items[i].id < s.nextId)
    && Ascending(s.items)
  }

  /** Every stored title is non-empty. */
  predicate TitlesPresent(s: ItemStore)
  {
    forall i :: 0 <= i < |s.items| ==> s.items[i].title != ""
  }

  /** `!id` is false: the id is a number other than 0. */
  predicate Truthy(id: IdParam)
  {
    match id
    case NaN => false
    case Integer(v) => v != 0
    case Fraction => true
  }

  predicate HasId(it: Item, id: IdParam)
  {
    id.Integer? && it.id == id.value
  }

  /** The first row at or after `from` whose id is `id`. */
  function FindFrom(items: seq<Item>, id: int, from: nat): (r: Option<nat>)
    requires from <= |items|
    ensures r.Some? ==> from <= r.value < |items| && items[r.value].id == id
    ensures r.Some? ==> forall j :: from <= j < r.value ==> items[j].id != id
    ensures r.None? ==> forall j :: from <= j < |items| ==> items[j].id != id
    decreases |items| - from
  {
    if from == |items| then None
    else if items[from].id == id then Some(from)
    else FindFrom(items, id, from + 1)
  }

  /** `SELECT * FROM items WHERE id = ?` through `get`: the first such row. */
  function Lookup(items: seq<Item>, id: IdParam): (r: Option<Item>)
    ensures r.Some? ==> r.value in items && HasId(r.value, id)
    ensures r.None? ==> forall j :: 0 <= j < |items| ==> !HasId(items[j], id)
  {
    if id.Integer? then
      match FindFrom(items, id.value, 0)
      case Some(i) => Some(items[i])
      case None => None
    else None
  }

  /** The title a create or bulk row ends up with: `String(title || "").trim()`. */
  function TitleOf(input: ItemInput): string
  {
    Trim(OrElse(input.title, ""))
  }

  /** A row that create or bulk accepts: its title trims to non-empty. */
  predicate Admissible(input: ItemInput)
  {
    TitleOf(input) != ""
  }

  /** The row inserted for a create or bulk input: trimmed fields, status
      "New" when absent or empty, owner "" when absent or empty, and both
      timestamps equal. */
  function NewItem(id: nat, input: ItemInput, now: string): (it: Item)
    ensures it.id == id && it.createdAt == now && it.updatedAt == now
    ensures it.title == TitleOf(input)
  {
    Item(id, TitleOf(input), Trim(OrElse(input.status, DefaultStatus)),
         Some(Trim(OrElse(input.owner, ""))), now, now)
  }

  /** The fields of a new row: the title trimmed; status "New" when absent or
      empty and trimmed otherwise (so a blank status becomes ""); owner ""
      when absent or empty and trimmed otherwise; no field keeps surrounding
      whitespace. */
  lemma NewItemFields(id: nat, input: ItemInput, now: string)
    ensures var it := NewItem(id, input, now);
      && it.title == TitleOf(input)
      && (input.status.None? || input.status.value == "" ==> it.status == DefaultStatus)
      && (input.status.Some? && input.status.value != "" ==> it.status == Trim(input.status.value))
      && (input.owner.None? || input.owner.value == "" ==> it.owner == Some(""))
      && (input.owner.Some? && input.owner.value != "" ==> it.owner == Some(Trim(input.owner.value)))
      && IsTrimmed(it.title) && IsTrimmed(it.status) && IsTrimmed(it.owner.value)
  {
  }

  /** One `INSERT`: the row is appended under the next autoincrement id. */
  function Insert(s: ItemStore, input: ItemInput, now: string): (s': ItemStore)
    ensures |s'.items| == |s.items| + 1 && s'.items[..|s.items|] == s.items
    ensures s'.items[|s.items|] == NewItem(s.nextId, input, now)
    ensures s'.nextId == s.nextId + 1
    ensures Valid(s) ==> Valid(s')
    ensures TitlesPresent(s) && Admissible(input) ==> TitlesPresent(s')
  {
    var it := NewItem(s.nextId, input, now);
    var items := s.items + [it];
    assert forall i :: 0 <= i < |s.items| ==> items[i] == s.items[i];
    assert items[|s.items|] == it;
    ItemStore(items, s.nextId + 1)
  }

  /** `POST /items`: 400 for a title that trims to empty, otherwise one row
      appended with a fresh id; the response is `{ok:true}`, not the row. */
  function Create(s: ItemStore, input: ItemInput, now: string): (out: (Response, ItemStore))
    ensures !Admissible(input) ==> out == (Reject(400, TitleRequired), s)
    ensures Admissible(input) ==> out.0 == Response(200, OkBody)
    ensures Admissible(input) ==>
              && |out.1.items| == |s.items| + 1
              && out.1.items[..|s.items|] == s.items
              && out.1.items[|s.items|] == NewItem(s.nextId, input, now)
              && out.1.nextId == s.nextId + 1
    ensures Valid(s) && Admissible(input) ==>
              forall j :: 0 <= j < |s.items| ==> s.items[j].id != out.1.items[|s.items|].id
    ensures Valid(s) ==> Valid(out.1)
    ensures TitlesPresent(s) ==> TitlesPresent(out.1)
  {
    if !Admissible(input) then (Reject(400, TitleRequired), s)
    else (Response(200, OkBody), Insert(s, input, now))
  }

  /** The search of `GET /items?q=`: SQL `LIKE '%q%'` on title, status or
      owner, read as substring containment. A null owner matches nothing,
      an empty term matches every row, and a term longer than every field
      matches none. */
  predicate Matches(it: Item, term: string): (b: bool)
    ensures term == "" ==> b
    ensures b ==> |term| <= |it.title| || |term| <= |it.status| || (it.owner.Some? && |term| <= |it.owner.value|)
  {
    || Contains(it.title, term)
    || Contains(it.status, term)
    || (it.owner.Some? && Contains(it.owner.value, term))
  }

  /** `GET /items`: every row, or the rows matching the trimmed query when it
      is not empty, newest id first. */
  function List(s: ItemStore, q: Option<string>): (r: Response)
    ensures r.status == 200 && r.body.ItemsBody?
    ensures var term := Trim(OrElse(q, ""));
      forall it :: it in r.body.items <==> it in s.items && (term == "" || Matches(it, term))
    ensures Trim(OrElse(q, "")) == "" ==> |r.body.items| == |s.items|
    ensures Ascending(s.items) ==> Descending(r.body.items)
  {
    var term := Trim(OrElse(q, ""));
    var rows := if term == "" then s.items else Filter(s.items, (it: Item) => Matches(it, term));
    FilterKeepsAscending(s.items, (it: Item) => Matches(it, term));
    ReverseOfAscending(rows);
    ReverseSameElements(rows);
    Response(200, ItemsBody(Reverse(rows)))
  }

  /** Filtering keeps the order of the rows it keeps. */
  lemma {:induction false} FilterKeepsAscending(items: seq<Item>, p: Item -> bool)
    ensures Ascending(items) ==> Ascending(Filter(items, p))
  {
    if |items| > 0 && Ascending(items) {
      FilterKeepsAscending(items[1..], p);
      var rest := Filter(items[1..], p);
      if p(items[0]) {
        forall j | 0 <= j < |rest| ensures items[0].id < rest[j].id {
          assert rest[j] in items[1..];
        }
      }
    }
  }

  lemma ReverseOfAscending(items: seq<Item>)
    ensures Ascending(items) ==> Descending(Reverse(items))
  {
    var r := Reverse(items);
    var n := |items|;
    if Ascending(items) {
      forall i, j | 0 <= i < j < n ensures r[i].id > r[j].id {
        assert r[i] == items[n - 1 - i] && r[j] == items[n - 1 - j];
      }
    }
  }

  /** The row an update writes: a field absent from the body keeps its old
      value (a null owner becomes ""), a present one is trimmed and replaces
      it, even when empty; id and creation time stay, `updated_at` is now. */
  function Merge(prev: Item, patch: ItemInput, now: string): (m: Item)
    ensures m.id == prev.id && m.createdAt == prev.createdAt && m.updatedAt == now
    ensures patch.title.None? ==> m.title == prev.title
    ensures patch.title.Some? ==> m.title == Trim(patch.title.value)
    ensures patch.status.None? ==> m.status == prev.status
    ensures patch.status.Some? ==> m.status == Trim(patch.status.value)
    ensures patch.owner.None? ==> m.owner == Some(OrElse(prev.owner, ""))
    ensures patch.owner.Some? ==> m.owner == Some(Trim(patch.owner.value))
  {
    Item(prev.id,
         if patch.title.Some? then Trim(patch.title.value) else prev.title,
         if patch.status.Some? then Trim(patch.status.value) else prev.status,
         Some(if patch.owner.Some? then Trim(patch.owner.value) else OrElse(prev.owner, "")),
         prev.createdAt,
         now)
  }

  /** `PUT /items/:id`: 400 for id 0 or not a number, 404 when no row has
      the id, 400 when the merged title is empty; otherwise the rows with
      that id become the merged row and nothing else changes. */
  function Update(s: ItemStore, id: IdParam, patch: ItemInput, now: string): (out: (Response, ItemStore))
    ensures !Truthy(id) ==> out == (Reject(400, InvalidId), s)
    ensures Truthy(id) && Lookup(s.items, id).None? ==> out == (Reject(404, ItemNotFound), s)
    ensures Truthy(id) && Lookup(s.items, id).Some? && Merge(Lookup(s.items, id).value, patch, now).title == "" ==>
              out == (Reject(400, TitleRequired), s)
    ensures out.0.status == 200 <==>
              Truthy(id) && Lookup(s.items, id).Some? && Merge(Lookup(s.items, id).value, patch, now).title != ""
    ensures out.0.status == 200 ==>
              && out.0.body == ItemBody(Merge(Lookup(s.items, id).value, patch, now))
              && out.1.nextId == s.nextId
              && |out.1.items| == |s.items|
              && (forall j :: 0 <= j < |s.items| && !HasId(s.items[j], id) ==> out.1.items[j] == s.items[j])
              && (forall j :: 0 <= j < |s.items| && HasId(s.items[j], id) ==> out.1.items[j] == out.0.body.item)
    ensures Valid(s) ==> Valid(out.1)
    ensures TitlesPresent(s) ==> TitlesPresent(out.1)
  {
    if !Truthy(id) then (Reject(400, InvalidId), s)
    else match Lookup(s.items, id)
      case None => (Reject(404, ItemNotFound), s)
      case Some(existing) =>
        var m := Merge(existing, patch, now);
        if m.title == "" then (Reject(400, TitleRequired), s)
        else
          var items := seq(|s.items|, j requires 0 <= j < |s.items| =>
                             if HasId(s.items[j], id) then m else s.items[j]);
          (Response(200, ItemBody(m)), ItemStore(items, s.nextId))
  }

  /** `DELETE /items/:id`: 400 for id 0 or not a number; otherwise the rows
      with that id are gone, every other row stays in place, and the answer
      is `{ok:true}` whether or not a row existed. */
  function Delete(s: ItemStore, id: IdParam): (out: (Response, ItemStore))
    ensures !Truthy(id) ==> out == (Reject(400, InvalidId), s)
    ensures Truthy(id) ==> out.0 == Response(200, OkBody) && out.1.nextId == s.nextId
    ensures forall it :: it in out.1.items <==> it in s.items && !(Truthy(id) && HasId(it, id))
    ensures IsSubsequence(out.1.items, s.items)
    ensures Valid(s) ==> Valid(out.1)
    ensures TitlesPresent(s) ==> TitlesPresent(out.1)
  {
    if !Truthy(id) then
      SubsequenceOfItself(s.items);
      (Reject(400, InvalidId), s)
    else
      var kept := Filter(s.items, (it: Item) => !HasId(it, id));
      FilterKeepsAscending(s.items, (it: Item) => !HasId(it, id));
      assert forall j :: 0 <= j < |kept| ==> kept[j] in s.items;
      (Response(200, OkBody), ItemStore(kept, s.nextId))
  }

  /** Deleting twice is deleting once: the second call changes nothing and
      answers the same. */
  lemma DeleteIdempotent(s: ItemStore, id: IdParam)
    ensures Delete(Delete(s, id).1, id) == Delete(s, id)
  {
    if Truthy(id) {
      var once := Delete(s, id).1;
      assert forall k :: 0 <= k < |once.items| ==> !HasId(once.items[k], id) by {
        assert forall k :: 0 <= k < |once.items| ==> once.items[k] in once.items;
      }
    }
  }

  /** The rows inserted for a batch: consecutive ids from `first`, one shared
      timestamp. */
  function NewItems(first: nat, inputs: seq<ItemInput>, now: string): (r: seq<Item>)
    ensures |r| == |inputs|
    decreases |inputs|
  {
    if |inputs| == 0 then [] else [NewItem(first, inputs[0], now)] + NewItems(first + 1, inputs[1..], now)
  }

  /** Row `j` of a batch gets id `first + j` and the fields of input `j`. */
  lemma {:induction false} NewItemsAt(first: nat, inputs: seq<ItemInput>, now: string, j: nat)
    requires j < |inputs|
    ensures NewItems(first, inputs, now)[j] == NewItem(first + j, inputs[j], now)
    decreases j
  {
    var all := NewItems(first, inputs, now);
    var tail := NewItems(first + 1, inputs[1..], now);
    assert all == [NewItem(first, inputs[0], now)] + tail;
    if j > 0 {
      assert all[j] == tail[j - 1];
      NewItemsAt(first + 1, inputs[1..], now, j - 1);
      assert inputs[1..][j - 1] == inputs[j] && first + 1 + (j - 1) == first + j;
    }
  }

  /** The loop of `POST /items/bulk`: each row whose title trims to empty is
      skipped, every other one inserted; the count is returned. */
  function InsertRows(s: ItemStore, rows: seq<ItemInput>, now: string): (out: (ItemStore, nat))
    ensures out.1 == |Filter(rows, Admissible)|
    ensures out.0.nextId == s.nextId + out.1
    ensures Valid(s) ==> Valid(out.0)
    ensures TitlesPresent(s) ==> TitlesPresent(out.0)
    decreases |rows|
  {
    if |rows| == 0 then (s, 0)
    else if Admissible(rows[0]) then
      var rest := InsertRows(Insert(s, rows[0], now), rows[1..], now);
      (rest.0, rest.1 + 1)
    else InsertRows(s, rows[1..], now)
  }

  /** An admissible first row is inserted before the rest are looked at. */
  lemma AdmissibleHeadUnfolds(s: ItemStore, rows: seq<ItemInput>, now: string)
    requires |rows| > 0 && Admissible(rows[0])
    ensures InsertRows(s, rows, now).0 == InsertRows(Insert(s, rows[0], now), rows[1..], now).0
    ensures Filter(rows, Admissible) == [rows[0]] + Filter(rows[1..], Admissible)
  {
  }

  lemma NewItemsCons(first: nat, x: ItemInput, tail: seq<ItemInput>, now: string)
    ensures NewItems(first, [x] + tail, now) == [NewItem(first, x, now)] + NewItems(first + 1, tail, now)
  {
    assert ([x] + tail)[1..] == tail;
  }

  /** What the rest of the batch appends follows the first row's insertion. */
  lemma AdmissibleHead(s: ItemStore, rows: seq<ItemInput>, now: string)
    requires |rows| > 0 && Admissible(rows[0])
    requires var s1 := Insert(s, rows[0], now);
      InsertRows(s1, rows[1..], now).0.items == s1.items + NewItems(s1.nextId, Filter(rows[1..], Admissible), now)
    ensures InsertRows(s, rows, now).0.items == s.items + NewItems(s.nextId, Filter(rows, Admissible), now)
  {
    var s1 := Insert(s, rows[0], now);
    var tail := Filter(rows[1..], Admissible);
    var x := NewItem(s.nextId, rows[0], now);
    var xs := NewItems(s.nextId + 1, tail, now);
    AdmissibleHeadUnfolds(s, rows, now);
    NewItemsCons(s.nextId, rows[0], tail, now);
    assert InsertRows(s, rows, now).0.items == s1.items + xs;
    assert s1.items == s.items + [x];
    AppendAssociates(s.items, [x], xs);
    assert [x] + xs == NewItems(s.nextId, Filter(rows, Admissible), now);
  }

  /** An inadmissible first row is skipped. */
  lemma InadmissibleHead(s: ItemStore, rows: seq<ItemInput>, now: string)
    requires |rows| > 0 && !Admissible(rows[0])
    ensures InsertRows(s, rows, now).0 == InsertRows(s, rows[1..], now).0
    ensures Filter(rows, Admissible) == Filter(rows[1..], Admissible)
  {
  }

  /** The batch appends exactly the admissible rows, in input order, after the
      existing ones. */
  lemma {:induction false} InsertRowsAppendsAdmissible(s: ItemStore, rows: seq<ItemInput>, now: string)
    ensures InsertRows(s, rows, now).0.items == s.items + NewItems(s.nextId, Filter(rows, Admissible), now)
    decreases |rows|
  {
    if |rows| == 0 {
      assert s.items + [] == s.items;
    } else if Admissible(rows[0]) {
      InsertRowsAppendsAdmissible(Insert(s, rows[0], now), rows[1..], now);
      AdmissibleHead(s, rows, now);
    } else {
      InadmissibleHead(s, rows, now);
      InsertRowsAppendsAdmissible(s, rows[1..], now);
    }
  }

  /** `POST /items/bulk`: 400 when `rows` is not an array or is empty;
      otherwise `{inserted}` counts the rows whose title trims to non-empty. */
  function Bulk(s: ItemStore, rows: Option<seq<ItemInput>>, now: string): (out: (Response, ItemStore))
    ensures rows.None? || |rows.value| == 0 ==> out == (Reject(400, RowsRequired), s)
    ensures rows.Some? && |rows.value| > 0 ==>
              && out.0 == Response(200, InsertedBody(|Filter(rows.value, Admissible)|))
              && out.1.nextId == s.nextId + |Filter(rows.value, Admissible)|
    ensures Valid(s) ==> Valid(out.1)
    ensures TitlesPresent(s) ==> TitlesPresent(out.1)
  {
    if rows.None? || |rows.value| == 0 then (Reject(400, RowsRequired), s)
    else
      var (s', inserted) := InsertRows(s, rows.value, now);
      (Response(200, InsertedBody(inserted)), s')
  }

  /** What a successful batch leaves in the table: the old rows, then one
      new row per admissible input, in order, with consecutive fresh ids and
      the batch's timestamp. */
  lemma BulkAppendsAdmissible(s: ItemStore, rows: seq<ItemInput>, now: string)
    requires |rows| > 0
    ensures Bulk(s, Some(rows), now).1.items == s.items + NewItems(s.nextId, Filter(rows, Admissible), now)
  {
    InsertRowsAppendsAdmissible(s, rows, now);
  }
}
