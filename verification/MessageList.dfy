/** Message lists, newest first, and the events that change them. */
module MessageList {
  type Id = string

  datatype Row = Row(id: Id, subject: string, isRead: bool, isStarred: bool, tags: seq<string>)

  datatype Event =
    | MessageNew(row: Row)
    | MessageDelete(id: Id)
    | MessageRead(id: Id, isRead: bool)
    | MessageStarred(id: Id, isStarred: bool)
    | MessageTags(id: Id, tags: seq<string>)
    | MessagesClear
  {
    /** Whether this changes a flag or the tags of a message that stays. */
    predicate Update? () { MessageRead? || MessageStarred? || MessageTags? }
  }

  /** Index of the first row with `id`, or -1. */
  function IndexOf(rows: seq<Row>, id: Id): (index: int)
    ensures -1 <= index < |rows|
    ensures 0 <= index ==> rows[index].id == id
    ensures forall i :: 0 <= i < (if index < 0 then |rows| else index) ==> rows[i].id != id
  {
    if rows == [] then -1
    else if rows[0].id == id then 0
    else
      var later := IndexOf(rows[1..], id);
      if later < 0 then -1 else later + 1
  }

  predicate Listed(rows: seq<Row>, id: Id) {
    0 <= IndexOf(rows, id)
  }

  /** `rows` without the first one with `id`. */
  function Without(rows: seq<Row>, id: Id): seq<Row> {
    var index := IndexOf(rows, id);
    if index < 0 then rows else rows[..index] + rows[index + 1..]
  }

  function ApplyTo(row: Row, update: Event): Row {
    match update
    case MessageRead(_, isRead) => row.(isRead := isRead)
    case MessageStarred(_, isStarred) => row.(isStarred := isStarred)
    case MessageTags(_, tags) => row.(tags := tags)
    case _ => row
  }

  /** `rows` with the first one `update` names changed by it. */
  function Updated(rows: seq<Row>, update: Event): seq<Row>
    requires update.Update?()
  {
    var index := IndexOf(rows, update.id);
    if index < 0 then rows else rows[index := ApplyTo(rows[index], update)]
  }

  /** Each event sets the one field it is about. */
  lemma EachEventSets(row: Row, id: Id, isRead: bool, isStarred: bool, tags: seq<string>)
    ensures ApplyTo(row, MessageRead(id, isRead)).isRead == isRead
    ensures ApplyTo(row, MessageStarred(id, isStarred)).isStarred == isStarred
    ensures ApplyTo(row, MessageTags(id, tags)).tags == tags
    ensures ApplyTo(row, MessageRead(id, isRead)).(isRead := row.isRead) == row
    ensures ApplyTo(row, MessageStarred(id, isStarred)).(isStarred := row.isStarred) == row
    ensures ApplyTo(row, MessageTags(id, tags)).(tags := row.tags) == row
  {
  }

  /** An update changes the rows it names, where no message is listed twice, and no other. */
  lemma OnlyNamed(rows: seq<Row>, update: Event, i: nat)
    requires update.Update?() && Distinct(rows) && i < |rows|
    ensures Updated(rows, update)[i] == if rows[i].id == update.id then ApplyTo(rows[i], update) else rows[i]
  {
    if rows[i].id == update.id {
      IndexOfAt(rows, i);
    }
  }

  predicate Distinct(rows: seq<Row>) {
    forall i, j :: 0 <= i < j < |rows| ==> rows[i].id != rows[j].id
  }

  predicate AllIn(rows: seq<Row>, ids: set<Id>) {
    forall i :: 0 <= i < |rows| ==> rows[i].id in ids
  }

  function Page(rows: seq<Row>, size: nat): seq<Row> {
    if |rows| <= size then rows else rows[..size]
  }

  /** A page holds the first rows, as many as there are up to its size. */
  lemma PageIsFull(rows: seq<Row>, size: nat)
    ensures var page := Page(rows, size); page <= rows && |page| <= size && (|page| == size || page == rows)
  {
  }

  lemma ListedIff(rows: seq<Row>, id: Id)
    ensures Listed(rows, id) <==> exists i :: 0 <= i < |rows| && rows[i].id == id
  {
  }

  /** In a list without duplicates every row is where `IndexOf` finds it. */
  lemma IndexOfAt(rows: seq<Row>, i: nat)
    requires Distinct(rows) && i < |rows|
    ensures IndexOf(rows, rows[i].id) == i
  {
  }

  lemma IndexOfPrefix(head: seq<Row>, rows: seq<Row>, id: Id)
    requires head <= rows
    ensures Listed(head, id) ==> IndexOf(rows, id) == IndexOf(head, id)
    ensures IndexOf(rows, id) < |head| ==> IndexOf(rows, id) == IndexOf(head, id)
  {
    assert forall i :: 0 <= i < |head| ==> head[i] == rows[i];
    var a, b := IndexOf(head, id), IndexOf(rows, id);
    if 0 <= a {
      assert rows[a].id == id;
    }
    if 0 <= b < |head| {
      assert head[b].id == id;
    }
  }

  lemma WithoutKeepsDistinct(rows: seq<Row>, id: Id)
    requires Distinct(rows)
    ensures Distinct(Without(rows, id)) && !Listed(Without(rows, id), id)
    ensures |Without(rows, id)| == |rows| - (if Listed(rows, id) then 1 else 0)
    ensures forall other :: other != id ==> (Listed(Without(rows, id), other) <==> Listed(rows, other))
  {
    var index := IndexOf(rows, id);
    if 0 <= index {
      var out := Without(rows, id);
      assert forall i :: 0 <= i < |out| ==> out[i] == rows[if i < index then i else i + 1];
      forall other | other != id
        ensures Listed(out, other) <==> Listed(rows, other)
      {
        var at := IndexOf(rows, other);
        if 0 <= at {
          assert out[if at < index then at else at - 1].id == other;
        }
      }
    }
  }

  lemma UpdatedKeepsIds(rows: seq<Row>, update: Event)
    requires update.Update?()
    ensures var out := Updated(rows, update);
            |out| == |rows| && forall i :: 0 <= i < |rows| ==> out[i].id == rows[i].id
  {
  }

  lemma SameIdsSameIndex(a: seq<Row>, b: seq<Row>, id: Id)
    requires |a| == |b| && forall i :: 0 <= i < |a| ==> a[i].id == b[i].id
    ensures IndexOf(a, id) == IndexOf(b, id)
  {
  }
}
