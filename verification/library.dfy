/** The in-memory book list the catalog page keeps, and the four ways a
    server reply reshapes it: prepend the created record, replace the
    records with the updated id, drop the records with the deleted id,
    and empty the list. The server is the source of truth; the page only
    mirrors its answers. */
module Library {
  import opened Seqs

  /** Identifier the server assigns to a record. */
  type Id = int

  datatype Book = Book(id: Id, title: string, author: string, year: int, genre: string)

  function Ids(s: seq<Book>): set<Id> {
    set b | b in s :: b.id
  }

  /** No two records of the list share an id. */
  ghost predicate UniqueIds(s: seq<Book>) {
    forall i, j :: 0 <= i < j < |s| ==> s[i].id != s[j].id
  }

  /** After a create: the server's record first, then the previous list. */
  function Prepend(s: seq<Book>, created: Book): (r: seq<Book>)
    ensures |r| == |s| + 1
    ensures r[0] == created && r[1..] == s
  {
    [created] + s
  }

  /** After an update: every record carrying `id` becomes the server's
      record, every other record keeps its place. */
  function ReplaceById(s: seq<Book>, id: Id, updated: Book): (r: seq<Book>)
    ensures |r| == |s|
    ensures forall i :: 0 <= i < |s| && s[i].id == id ==> r[i] == updated
    ensures forall i :: 0 <= i < |s| && s[i].id != id ==> r[i] == s[i]
  {
    seq(|s|, i requires 0 <= i < |s| => if s[i].id == id then updated else s[i])
  }

  /** After a delete: the records carrying `id` are gone, the others stay
      with their multiplicity and in their relative order. */
  function RemoveById(s: seq<Book>, id: Id): (r: seq<Book>)
    ensures id !in Ids(r)
    ensures forall b :: b in r <==> b in s && b.id != id
    ensures forall b :: multiset(r)[b] == if b.id == id then 0 else multiset(s)[b]
    ensures IsSubseq(r, s)
  {
    Keep(s, (b: Book) => b.id != id)
  }

  /** Deleting the record just created, when its id was new, gives back
      the list as it was before the create. */
  lemma RemoveUndoesPrepend(s: seq<Book>, created: Book)
    requires created.id !in Ids(s)
    ensures RemoveById(Prepend(s, created), created.id) == s
  {
    var p := (b: Book) => b.id != created.id;
    KeepAll(s, p);
    assert Prepend(s, created)[1..] == s;
  }

  /** A create whose id is new puts exactly one copy of the record in the
      list and keeps ids unique. */
  lemma PrependFresh(s: seq<Book>, created: Book)
    requires UniqueIds(s)
    requires created.id !in Ids(s)
    ensures multiset(Prepend(s, created))[created] == 1
    ensures UniqueIds(Prepend(s, created))
    ensures Ids(Prepend(s, created)) == Ids(s) + {created.id}
  {
  }

  /** An update whose reply keeps the id changes no id and keeps ids
      unique; if the id was present, the reply's record then occurs at
      exactly one position. */
  lemma ReplaceKeepsIds(s: seq<Book>, id: Id, updated: Book)
    requires UniqueIds(s)
    requires updated.id == id
    ensures Ids(ReplaceById(s, id, updated)) == Ids(s)
    ensures UniqueIds(ReplaceById(s, id, updated))
    ensures id in Ids(s) ==>
      exists i :: 0 <= i < |s| && ReplaceById(s, id, updated)[i] == updated &&
        forall j :: 0 <= j < |s| && j != i ==> ReplaceById(s, id, updated)[j] != updated
  {
    var r := ReplaceById(s, id, updated);
    assert forall i :: 0 <= i < |s| ==> r[i].id == s[i].id;
    if id in Ids(s) {
      var b :| b in s && b.id == id;
      var i :| 0 <= i < |s| && s[i] == b;
      assert r[i] == updated;
      forall j | 0 <= j < |s| && j != i ensures r[j] != updated {
        assert s[j].id != s[i].id;
      }
    }
  }

  /** Updating an id the list does not hold leaves the list as it is. */
  lemma ReplaceAbsentIsNoOp(s: seq<Book>, id: Id, updated: Book)
    requires id !in Ids(s)
    ensures ReplaceById(s, id, updated) == s
  {
  }

  /** Deleting after updating the same id, with a reply that keeps the id,
      is the same as deleting straight away. */
  lemma {:induction false} RemoveAfterReplace(s: seq<Book>, id: Id, updated: Book)
    requires updated.id == id
    ensures RemoveById(ReplaceById(s, id, updated), id) == RemoveById(s, id)
  {
    if s != [] {
      var r := ReplaceById(s, id, updated);
      var p := (b: Book) => b.id != id;
      assert r[1..] == ReplaceById(s[1..], id, updated);
      RemoveAfterReplace(s[1..], id, updated);
      assert Keep(r[1..], p) == Keep(s[1..], p);
      if s[0].id == id {
        assert Keep(r, p) == Keep(r[1..], p);
        assert Keep(s, p) == Keep(s[1..], p);
      } else {
        assert r[0] == s[0];
        assert Keep(r, p) == [s[0]] + Keep(r[1..], p);
        assert Keep(s, p) == [s[0]] + Keep(s[1..], p);
      }
    }
  }

  /** With unique ids, deleting an id the list holds drops exactly one
      record. */
  lemma {:induction false} RemoveDropsOne(s: seq<Book>, id: Id)
    requires UniqueIds(s)
    requires id in Ids(s)
    ensures |RemoveById(s, id)| == |s| - 1
  {
    var p := (b: Book) => b.id != id;
    assert s == [s[0]] + s[1..];
    assert UniqueIds(s[1..]) by {
      forall i, j | 0 <= i < j < |s[1..]| ensures s[1..][i].id != s[1..][j].id {
        assert s[1..][i] == s[i + 1] && s[1..][j] == s[j + 1];
      }
    }
    if s[0].id == id {
      assert id !in Ids(s[1..]) by {
        forall b | b in s[1..] ensures b.id != id {
          var k :| 0 <= k < |s[1..]| && s[1..][k] == b;
          assert s[k + 1] == b;
        }
      }
      KeepAll(s[1..], p);
      assert Keep(s, p) == Keep(s[1..], p);
    } else {
      assert id in Ids(s[1..]) by {
        var b :| b in s && b.id == id;
        assert b != s[0];
      }
      RemoveDropsOne(s[1..], id);
      assert Keep(s, p) == [s[0]] + Keep(s[1..], p);
    }
  }

  /** Deleting never breaks id uniqueness. */
  lemma {:induction false} RemoveKeepsUniqueIds(s: seq<Book>, id: Id)
    requires UniqueIds(s)
    ensures UniqueIds(RemoveById(s, id))
  {
    SubseqKeepsUniqueIds(RemoveById(s, id), s);
  }

  lemma {:induction false} SubseqKeepsUniqueIds(a: seq<Book>, b: seq<Book>)
    requires IsSubseq(a, b)
    requires UniqueIds(b)
    ensures UniqueIds(a)
    decreases |b|
  {
    if a != [] {
      assert b != [];
      assert UniqueIds(b[1..]) by {
        forall i, j | 0 <= i < j < |b[1..]| ensures b[1..][i].id != b[1..][j].id {
          assert b[1..][i] == b[i + 1] && b[1..][j] == b[j + 1];
        }
      }
      if a[0] == b[0] && IsSubseq(a[1..], b[1..]) {
        SubseqKeepsUniqueIds(a[1..], b[1..]);
        SubseqMembers(a[1..], b[1..]);
        forall i, j | 0 <= i < j < |a| ensures a[i].id != a[j].id {
          if i == 0 {
            assert a[j] == a[1..][j - 1];
            assert a[1..][j - 1] in a[1..];
            var k :| 0 <= k < |b[1..]| && b[1..][k] == a[j];
            assert b[k + 1] == a[j];
          } else {
            assert a[i] == a[1..][i - 1] && a[j] == a[1..][j - 1];
          }
        }
      } else {
        SubseqKeepsUniqueIds(a, b[1..]);
      }
    }
  }
}
