/** `postIds` of model/post.go: the rows fetched for a list of ids, indexed
    by id. */
module PostIndex {
  import opened Wrappers
  import opened Posts

  /** The ids of the rows `rows[..n]`. */
  function IdsOf(rows: seq<Post>, n: nat): set<int>
    requires n <= |rows|
  {
    set i | 0 <= i < n :: rows[i].id
  }

  /** `rows[j]` is the last of `rows[..n]` whose id is `id`. */
  predicate LastWithId(rows: seq<Post>, n: nat, j: nat, id: int)
    requires n <= |rows|
  {
    j < n && rows[j].id == id && forall l :: j < l < n ==> rows[l].id != id
  }

  /** `postIds`, given the rows its query returned: no map (`nil`) when
      there are none; otherwise a map whose keys are exactly the ids of the
      rows, each mapped to a row with that id (the last one, when ids
      repeat, since a later assignment overwrites an earlier one). */
  method PostIds(rows: seq<Post>) returns (m: Option<map<int, Post>>)
    ensures m.None? <==> rows == []
    ensures m.Some? ==> m.value.Keys == IdsOf(rows, |rows|)
    ensures m.Some? ==> forall id :: id in m.value ==> m.value[id].id == id
    ensures m.Some? ==> forall id :: id in m.value ==> exists j: nat :: LastWithId(rows, |rows|, j, id) && rows[j] == m.value[id]
  {
    if |rows| > 0 {
      var index: map<int, Post> := map[];
      for i := 0 to |rows|
        invariant index.Keys == IdsOf(rows, i)
        invariant forall id :: id in index ==> exists j: nat :: LastWithId(rows, i, j, id) && rows[j] == index[id]
      {
        ghost var before := index;
        index := index[rows[i].id := rows[i]];
        forall id | id in index
          ensures exists j: nat :: LastWithId(rows, i + 1, j, id) && rows[j] == index[id]
        {
          if id == rows[i].id {
            assert LastWithId(rows, i + 1, i, id);
          } else {
            var j: nat :| LastWithId(rows, i, j, id) && rows[j] == before[id];
            assert LastWithId(rows, i + 1, j, id);
          }
        }
        assert IdsOf(rows, i + 1) == IdsOf(rows, i) + {rows[i].id};
      }
      return Some(index);
    }
    return None;
  }
}
