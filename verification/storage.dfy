/** The article table of internal/storage/sqlite.go as a map keyed by the primary key. */
module Storage {
  import opened Results
  import opened Vectors

  datatype Article = Article(id: string, url: string, headline: string, summary: string, content: string,
                             vector: Vector, shardID: int, createdAt: int)

  type Rows = map<string, Article>

  /** Rows are stored under their own ids. */
  ghost predicate Keyed(rows: Rows) {
    forall id :: id in rows ==> rows[id].id == id
  }

  /** `list` holds every row once, in some order. */
  ghost predicate IsListing(rows: Rows, list: seq<Article>) {
    && (forall i :: 0 <= i < |list| ==> list[i].id in rows && rows[list[i].id] == list[i])
    && (forall i, j :: 0 <= i < j < |list| ==> list[i].id != list[j].id)
    && (forall id :: id in rows ==> exists i :: 0 <= i < |list| && list[i].id == id)
  }

  class Store {
    var rows: Rows

    constructor ()
      ensures rows == map[]
    {
      rows := map[];
    }

    /** Fails on a primary key that is taken. */
    method Insert(a: Article) returns (ok: bool)
      modifies this
      ensures ok <==> a.id !in old(rows)
      ensures rows == if ok then old(rows)[a.id := a] else old(rows)
    {
      if a.id in rows {
        return false;
      }
      rows := rows[a.id := a];
      return true;
    }

    method Get(id: string) returns (a: Option<Article>)
      ensures a == if id in rows then Some(rows[id]) else None
    {
      if id in rows {
        return Some(rows[id]);
      }
      return None;
    }

    /** Deleting a missing row does nothing. */
    method Delete(id: string)
      modifies this
      ensures rows == old(rows) - {id}
    {
      rows := rows - {id};
    }

    method GetAll() returns (list: seq<Article>)
      requires Keyed(rows)
      ensures IsListing(rows, list)
    {
      list := [];
      var rest := rows.Keys;
      while rest != {}
        invariant rest <= rows.Keys && IsListing(rows - rest, list)
        decreases |rest|
      {
        var id :| id in rest;
        ListOneRow(rows, rest, id, list);
        rest := rest - {id};
        list := list + [rows[id]];
      }
      assert rows - {} == rows;
    }
  }

  lemma ListOneRow(rows: Rows, rest: set<string>, id: string, list: seq<Article>)
    requires Keyed(rows) && id in rest && rest <= rows.Keys && IsListing(rows - rest, list)
    ensures IsListing(rows - (rest - {id}), list + [rows[id]])
  {
    var fewer, longer := rows - rest, list + [rows[id]];
    var more := fewer[id := rows[id]];
    assert rows - (rest - {id}) == more;
    assert longer[|list|].id == id;
    forall k | k in more
      ensures exists i :: 0 <= i < |longer| && longer[i].id == k
    {
      if k != id {
        assert k in fewer;
        var i :| 0 <= i < |list| && list[i].id == k;
        assert longer[i].id == k;
      }
    }
  }
}
