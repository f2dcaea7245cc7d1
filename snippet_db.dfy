/**
  The local snippet store: the `snippets` table of an SQLite database with an
  AUTOINCREMENT primary key and a trigger that refreshes `updated_at` on every
  UPDATE. The clock (`CURRENT_TIMESTAMP`) is the parameter `now`, in seconds.
 */
module SnippetDb {
  import opened Wrappers

  /** The column default of `language`, and the default argument of `add_snippet`. */
  const DefaultLanguage: string := "plaintext"

  /** A full row of the `snippets` table. */
  datatype Record = Record(id: int, title: string, language: string, content: string,
                           createdAt: int, updatedAt: int)

  /** A row of the listing: the columns `id, title, language, updated_at`. */
  datatype Summary = Summary(id: int, title: string, language: string, updatedAt: int)

  function SummaryOf(r: Record): Summary {
    Summary(r.id, r.title, r.language, r.updatedAt)
  }

  /**
    `out` is a listing of `rows`: every row exactly once, projected to its
    summary, ordered by `updatedAt` from the most recent down. Rows with equal
    `updatedAt` may come in any order.
   */
  ghost predicate IsListing(rows: map<int, Record>, out: seq<Summary>) {
    && |out| == |rows|
    && (forall i :: 0 <= i < |out| ==> out[i].id in rows && out[i] == SummaryOf(rows[out[i].id]))
    && (forall id :: id in rows ==> exists i :: 0 <= i < |out| && out[i].id == id)
    && (forall i, j :: 0 <= i < j < |out| ==> out[i].id != out[j].id)
    && (forall i, j :: 0 <= i < j < |out| ==> out[i].updatedAt >= out[j].updatedAt)
  }

  /** A set that is not empty has an element. */
  lemma Inhabited(s: set<int>)
    ensures s == {} || exists x :: x in s
  {
    if !exists x :: x in s {
      assert s == {};
    }
  }

  /** A key of `keys` whose row has the latest `updatedAt`. */
  method MostRecent(rows: map<int, Record>, keys: set<int>) returns (best: int)
    requires keys != {} && keys <= rows.Keys
    ensures best in keys
    ensures forall k :: k in keys ==> rows[k].updatedAt <= rows[best].updatedAt
  {
    Inhabited(keys);
    best :| best in keys;
    var todo := keys - {best};
    while todo != {}
      invariant todo <= keys && best in keys
      invariant forall k :: k in keys && k !in todo ==> rows[k].updatedAt <= rows[best].updatedAt
      decreases todo
    {
      Inhabited(todo);
      var k :| k in todo;
      if rows[k].updatedAt > rows[best].updatedAt {
        best := k;
      }
      todo := todo - {k};
    }
  }

  /** The `snippets` table and its AUTOINCREMENT counter. */
  class Store {
    var rows: map<int, Record>
    /** The largest id ever assigned (SQLite's `sqlite_sequence` entry). */
    var lastId: int
    /** Every id ever assigned, including those of deleted rows. */
    ghost var issued: set<int>

    ghost predicate Valid()
      reads this
    {
      && lastId >= 0
      && (forall i :: i in issued ==> 0 < i <= lastId)
      && (forall k :: k in rows ==> k in issued && rows[k].id == k)
    }

    /** `init_db` on a fresh database file: an empty table. */
    constructor ()
      ensures Valid()
      ensures rows == map[] && issued == {}
    {
      rows := map[];
      lastId := 0;
      issued := {};
    }

    /**
      `add_snippet`: inserts a row with both timestamps set to `now` and
      returns its id, which is larger than every id issued before, including
      the ids of deleted rows. `language` is None when the caller leaves the
      argument out. Nothing is validated.
     */
    method AddSnippet(title: string, content: string, language: Option<string>, now: int)
      returns (id: int)
      requires Valid()
      modifies this
      ensures Valid()
      ensures id !in old(issued) && forall i :: i in old(issued) ==> i < id
      ensures issued == old(issued) + {id}
      ensures var lang := if language.Some? then language.value else DefaultLanguage;
              rows == old(rows)[id := Record(id, title, lang, content, now, now)]
      ensures rows[id].createdAt == rows[id].updatedAt == now
    {
      var lang := if language.Some? then language.value else DefaultLanguage;
      lastId := lastId + 1;
      id := lastId;
      rows := rows[id := Record(id, title, lang, content, now, now)];
      issued := issued + {id};
    }

    /** `get_snippet_by_id`: the full row, or None when there is none. */
    function GetSnippetById(id: int): (r: Option<Record>)
      requires Valid()
      reads this
      ensures r.Some? <==> id in rows
      ensures r.Some? ==> r.value == rows[id] && r.value.id == id
    {
      if id in rows then Some(rows[id]) else None
    }

    /**
      `update_snippet`: overwrites title, content and language of the row
      with that id; the trigger then sets its `updatedAt` to `now`. Without
      such a row nothing changes and nothing is reported.
     */
    method UpdateSnippet(id: int, title: string, content: string, language: string, now: int)
      requires Valid()
      modifies this
      ensures Valid()
      ensures lastId == old(lastId) && issued == old(issued)
      ensures id !in old(rows) ==> rows == old(rows)
      ensures id in old(rows) ==>
                rows == old(rows)[id := old(rows)[id].(title := title, content := content,
                                                      language := language, updatedAt := now)]
      ensures id in old(rows) ==> rows[id].createdAt == old(rows)[id].createdAt && rows[id].updatedAt == now
    {
      if id in rows {
        rows := rows[id := rows[id].(title := title, content := content, language := language)];
        rows := rows[id := rows[id].(updatedAt := now)];
      }
    }

    /** `delete_snippet`: removes the row with that id, if there is one. */
    method DeleteSnippet(id: int)
      requires Valid()
      modifies this
      ensures Valid()
      ensures lastId == old(lastId) && issued == old(issued)
      ensures rows == old(rows) - {id}
      ensures GetSnippetById(id).None?
    {
      rows := rows - {id};
    }

    /**
      `get_all_snippets`: the rows as summaries, ordered by `updatedAt`
      descending, as the query `ORDER BY updated_at DESC` gives them.
     */
    method GetAllSnippets() returns (out: seq<Summary>)
      requires Valid()
      ensures IsListing(rows, out)
    {
      var remaining := rows.Keys;
      out := [];
      while remaining != {}
        invariant PartialListing(rows, out, remaining)
        decreases remaining
      {
        var best := MostRecent(rows, remaining);
        ListingStep(rows, out, remaining, best);
        out := out + [SummaryOf(rows[best])];
        remaining := remaining - {best};
      }
    }
  }

  /**
    The state of the listing loop: `out` lists the rows not in `remaining`,
    sorted, and no listed row is older than a remaining one.
   */
  ghost predicate PartialListing(rows: map<int, Record>, out: seq<Summary>, remaining: set<int>) {
    && remaining <= rows.Keys
    && |out| + |remaining| == |rows|
    && ListsRows(rows, out, remaining)
    && Covers(rows, out, remaining)
    && Sorted(out)
    && (forall i, k :: 0 <= i < |out| && k in remaining ==> out[i].updatedAt >= rows[k].updatedAt)
  }

  /** Each entry of `out` is the summary of a distinct row outside `remaining`. */
  ghost predicate ListsRows(rows: map<int, Record>, out: seq<Summary>, remaining: set<int>) {
    && (forall i :: 0 <= i < |out| ==>
          out[i].id in rows && out[i].id !in remaining && out[i] == SummaryOf(rows[out[i].id]))
    && (forall i, j :: 0 <= i < j < |out| ==> out[i].id != out[j].id)
  }

  /** Every row outside `remaining` has an entry in `out`. */
  ghost predicate Covers(rows: map<int, Record>, out: seq<Summary>, remaining: set<int>) {
    forall id :: id in rows ==> id in remaining || exists i :: 0 <= i < |out| && out[i].id == id
  }

  ghost predicate Sorted(out: seq<Summary>) {
    forall i, j :: 0 <= i < j < |out| ==> out[i].updatedAt >= out[j].updatedAt
  }

  /** Moving the most recent remaining row to the end of the listing keeps it partial. */
  lemma ListingStep(rows: map<int, Record>, out: seq<Summary>, remaining: set<int>, best: int)
    requires PartialListing(rows, out, remaining)
    requires best in remaining && rows[best].id == best
    requires forall k :: k in remaining ==> rows[k].updatedAt <= rows[best].updatedAt
    ensures PartialListing(rows, out + [SummaryOf(rows[best])], remaining - {best})
  {
    var out' := out + [SummaryOf(rows[best])];
    var remaining' := remaining - {best};
    ListsRowsStep(rows, out, remaining, best);
    CoversStep(rows, out, remaining, best);
    assert Sorted(out') by {
      assert forall i :: 0 <= i < |out| ==> out'[i] == out[i];
    }
    assert forall i, k :: 0 <= i < |out'| && k in remaining' ==> out'[i].updatedAt >= rows[k].updatedAt by {
      assert forall i :: 0 <= i < |out| ==> out'[i] == out[i];
    }
  }

  lemma ListsRowsStep(rows: map<int, Record>, out: seq<Summary>, remaining: set<int>, best: int)
    requires ListsRows(rows, out, remaining)
    requires best in remaining && best in rows && rows[best].id == best
    ensures ListsRows(rows, out + [SummaryOf(rows[best])], remaining - {best})
  {
    var out' := out + [SummaryOf(rows[best])];
    assert forall i :: 0 <= i < |out| ==> out'[i] == out[i];
  }

  lemma CoversStep(rows: map<int, Record>, out: seq<Summary>, remaining: set<int>, best: int)
    requires Covers(rows, out, remaining)
    requires best in rows && rows[best].id == best
    ensures Covers(rows, out + [SummaryOf(rows[best])], remaining - {best})
  {
    var out' := out + [SummaryOf(rows[best])];
    forall id | id in rows && id !in remaining - {best}
      ensures exists i :: 0 <= i < |out'| && out'[i].id == id
    {
      if id == best {
        assert out'[|out|].id == id;
      } else {
        var i :| 0 <= i < |out| && out[i].id == id;
        assert out'[i].id == id;
      }
    }
  }

  /**
    In every listing, a row touched strictly later than all the others comes
    first.
   */
  lemma LatestComesFirst(rows: map<int, Record>, out: seq<Summary>, id: int)
    requires IsListing(rows, out)
    requires id in rows
    requires forall k :: k in rows && k != id ==> rows[k].updatedAt < rows[id].updatedAt
    ensures out[0].id == id
  {
    var i :| 0 <= i < |out| && out[i].id == id;
  }
}
