/** The persistence capability behind the repository: a table of book rows
    keyed by id, written by upsert. */
module Store {
  import opened Wrappers
  import opened Models

  /** No two rows share an id (the id is the table's primary key). */
  predicate UniqueIds(rows: seq<BookEntity>) {
    forall i, j :: 0 <= i < j < |rows| ==> rows[i].id != rows[j].id
  }

  /** The first row with the given id, if any. */
  function Lookup(rows: seq<BookEntity>, id: Text): (found: Option<BookEntity>)
    ensures found.Some? ==> found.value in rows && found.value.id == id
    ensures found.None? ==> forall r <- rows :: r.id != id
  {
    if rows == [] then None
    else if rows[0].id == id then Some(rows[0])
    else Lookup(rows[1..], id)
  }

  /** The rows, in order, with every row of the given id removed. */
  function Without(rows: seq<BookEntity>, id: Text): (kept: seq<BookEntity>)
    ensures forall r <- kept :: r in rows && r.id != id
    ensures forall r <- rows :: r.id != id ==> r in kept
    ensures |kept| <= |rows|
  {
    if rows == [] then []
    else if rows[0].id == id then Without(rows[1..], id)
    else [rows[0]] + Without(rows[1..], id)
  }

  /** Insert-or-replace keyed by id: any row with the new row's id is
      dropped and the new row goes last. */
  function Upsert(rows: seq<BookEntity>, e: BookEntity): (after: seq<BookEntity>)
    ensures Lookup(after, e.id) == Some(e)
    ensures UniqueIds(rows) ==> UniqueIds(after)
  {
    var kept := Without(rows, e.id);
    LookupAppend(kept, e, e.id);
    if UniqueIds(rows) then
      WithoutKeepsUnique(rows, e.id);
      AppendNewKeepsUnique(kept, e);
      kept + [e]
    else
      kept + [e]
  }

  lemma {:induction false} WithoutKeepsUnique(rows: seq<BookEntity>, id: Text)
    requires UniqueIds(rows)
    ensures UniqueIds(Without(rows, id))
  {
    if rows != [] {
      WithoutKeepsUnique(rows[1..], id);
      var rest := Without(rows[1..], id);
      if rows[0].id != id {
        forall r | r in rest ensures r.id != rows[0].id {
          var k :| 0 <= k < |rows[1..]| && rows[1..][k] == r;
          assert rows[k + 1] == r;
        }
        var kept := [rows[0]] + rest;
        forall i, j | 0 <= i < j < |kept| ensures kept[i].id != kept[j].id {
          if i == 0 {
            assert kept[j] in rest;
          } else {
            assert kept[i] == rest[i - 1] && kept[j] == rest[j - 1];
          }
        }
      }
    }
  }

  lemma {:induction false} LookupWithout(rows: seq<BookEntity>, id: Text, k: Text)
    ensures Lookup(Without(rows, id), k) == if k == id then None else Lookup(rows, k)
  {
    if rows != [] {
      LookupWithout(rows[1..], id, k);
    }
  }

  lemma {:induction false} LookupAppend(rows: seq<BookEntity>, e: BookEntity, k: Text)
    ensures Lookup(rows + [e], k) ==
      if Lookup(rows, k).Some? then Lookup(rows, k)
      else if e.id == k then Some(e) else None
  {
    if rows != [] {
      assert (rows + [e])[1..] == rows[1..] + [e];
      LookupAppend(rows[1..], e, k);
    }
  }

  /** After an upsert, the new row is what its id finds, and every other id
      finds what it found before. */
  lemma UpsertLookup(rows: seq<BookEntity>, e: BookEntity, k: Text)
    ensures Lookup(Upsert(rows, e), k) == if k == e.id then Some(e) else Lookup(rows, k)
  {
    LookupAppend(Without(rows, e.id), e, k);
    LookupWithout(rows, e.id, k);
  }

  /** Appending a row whose id is not yet present keeps ids unique. */
  lemma AppendNewKeepsUnique(kept: seq<BookEntity>, e: BookEntity)
    requires UniqueIds(kept)
    requires forall r <- kept :: r.id != e.id
    ensures UniqueIds(kept + [e])
  {
    var after := kept + [e];
    forall i, j | 0 <= i < j < |after| ensures after[i].id != after[j].id {
      assert after[i] == kept[i];
      if j == |kept| {
        assert kept[i] in kept;
      } else {
        assert after[j] == kept[j];
      }
    }
  }

  /** Removing an id twice is removing it once. */
  lemma {:induction false} WithoutIdempotent(rows: seq<BookEntity>, id: Text)
    ensures Without(Without(rows, id), id) == Without(rows, id)
  {
    if rows != [] {
      WithoutIdempotent(rows[1..], id);
      if rows[0].id != id {
        assert ([rows[0]] + Without(rows[1..], id))[1..] == Without(rows[1..], id);
      }
    }
  }

  lemma {:induction false} WithoutAppend(rows: seq<BookEntity>, more: seq<BookEntity>, id: Text)
    ensures Without(rows + more, id) == Without(rows, id) + Without(more, id)
  {
    if rows == [] {
      assert rows + more == more;
    } else {
      assert (rows + more)[1..] == rows[1..] + more;
      WithoutAppend(rows[1..], more, id);
    }
  }

  /** Saving the same row twice leaves the table as saving it once:
      a repeated id overwrites, it never duplicates. */
  lemma UpsertIdempotent(rows: seq<BookEntity>, e: BookEntity)
    ensures Upsert(Upsert(rows, e), e) == Upsert(rows, e)
  {
    var kept := Without(rows, e.id);
    WithoutAppend(kept, [e], e.id);
    WithoutIdempotent(rows, e.id);
    assert Without([e], e.id) == [];
    assert kept + [] == kept;
  }

  lemma {:induction false} WithoutSize(rows: seq<BookEntity>, id: Text)
    requires UniqueIds(rows)
    ensures |Without(rows, id)| == if Lookup(rows, id).Some? then |rows| - 1 else |rows|
  {
    if rows != [] {
      assert UniqueIds(rows[1..]) by {
        forall i, j | 0 <= i < j < |rows[1..]| ensures rows[1..][i].id != rows[1..][j].id {
          assert rows[1..][i] == rows[i + 1] && rows[1..][j] == rows[j + 1];
        }
      }
      WithoutSize(rows[1..], id);
      if rows[0].id == id {
        assert Lookup(rows[1..], id).None? by {
          forall k | 0 <= k < |rows[1..]| ensures rows[1..][k].id != id {
            assert rows[1..][k] == rows[k + 1];
          }
        }
      }
    }
  }

  /** An upsert adds a row exactly when the id was not yet stored. */
  lemma UpsertSize(rows: seq<BookEntity>, e: BookEntity)
    requires UniqueIds(rows)
    ensures |Upsert(rows, e)| == if Lookup(rows, e.id).Some? then |rows| else |rows| + 1
  {
    WithoutSize(rows, e.id);
  }

  /** The book table, as the repository sees it: `InsertBook` writes by
      upsert, `rows` is the snapshot a query of all books reads, and
      `inserted` records each row passed to `InsertBook`, in call order. */
  class BookDao {
    var rows: seq<BookEntity>
    var inserted: seq<BookEntity>

    ghost predicate Valid()
      reads this
    {
      UniqueIds(rows)
    }

    constructor ()
      ensures Valid() && rows == [] && inserted == []
    {
      rows := [];
      inserted := [];
    }

    method InsertBook(e: BookEntity)
      requires Valid()
      modifies this
      ensures Valid()
      ensures rows == Upsert(old(rows), e)
      ensures inserted == old(inserted) + [e]
    {
      rows := Upsert(rows, e);
      inserted := inserted + [e];
    }
  }
}
