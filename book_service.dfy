/** The book catalogue (src/book/book.service.ts): create, look up, partially
    update and delete books by id, and list them filtered by a name keyword with
    offset pagination. */
module Books {
  import opened Common

  const NotFound: int := 404

  const BookNotFound: string := "Book Not Found"
  const BookCreate: string := "Book Create Successfully"
  const BookDeleted: string := "Book Deleted Successfully"
  const BookUpdated: string := "Book Udated Successfully"

  /** One row of the `books` table; the creation and update dates are not modelled. */
  datatype Book = Book(id: nat, name: string, description: string, price: real)

  /** `BookCreateDto`. */
  datatype BookPayload = BookPayload(name: string, description: string, price: real)

  /** `BookUpdateDto`: every field optional. */
  datatype BookPatch = BookPatch(name: Option<string>, description: Option<string>, price: Option<real>)

  /** The replies of `create`, `findOne`, `update` and `remove`: an object with
      some of `data`, `message` and `statusCode`. */
  datatype BookReply = BookReply(data: Option<Book>, message: Option<string>, statusCode: Option<int>)

  /** The reply of `findAll`. */
  datatype BookPage = BookPage(data: seq<Book>, total: nat, page: int, limit: nat)

  function NotFoundReply(): BookReply
  {
    BookReply(None, Some(BookNotFound), Some(NotFound))
  }

  /** The primary key: ids are unique, and as generated they grow with storage order. */
  predicate IdsIncreasing(rows: seq<Book>)
  {
    forall i, j :: 0 <= i < j < |rows| ==> rows[i].id < rows[j].id
  }

  /** Every id is generated, so positive, and below the next one to be generated. */
  predicate IdsBelow(rows: seq<Book>, nextId: nat)
  {
    forall i :: 0 <= i < |rows| ==> 1 <= rows[i].id < nextId
  }

  /** `findOne({ where: { id } })`. */
  function FindBook(rows: seq<Book>, id: int): (o: Option<Book>)
    ensures o.None? <==> forall i :: 0 <= i < |rows| ==> rows[i].id != id
    ensures o.Some? ==> o.value in rows && o.value.id == id
  {
    if rows == [] then None
    else if rows[0].id == id then Some(rows[0])
    else
      assert forall i :: 1 <= i < |rows| ==> rows[i] == rows[1..][i - 1];
      FindBook(rows[1..], id)
  }

  predicate EmptyPatch(p: BookPatch)
  {
    p.name.None? && p.description.None? && p.price.None?
  }

  /** `update(id, payload)` on one row: the payload's fields replace the row's. */
  function Patched(b: Book, p: BookPatch): (r: Book)
    ensures r.id == b.id
  {
    Book(b.id,
         if p.name.Some? then p.name.value else b.name,
         if p.description.Some? then p.description.value else b.description,
         if p.price.Some? then p.price.value else b.price)
  }

  /** A field the payload leaves out keeps its value, and patching twice is patching once. */
  lemma PatchKeepsOmittedFields(b: Book, p: BookPatch)
    ensures p.name.None? ==> Patched(b, p).name == b.name
    ensures p.description.None? ==> Patched(b, p).description == b.description
    ensures p.price.None? ==> Patched(b, p).price == b.price
    ensures EmptyPatch(p) ==> Patched(b, p) == b
    ensures Patched(Patched(b, p), p) == Patched(b, p)
  {
  }

  /** The table after `update(id, payload)`: the row with that id patched. */
  function ReplaceBook(rows: seq<Book>, id: int, p: BookPatch): (r: seq<Book>)
    ensures |r| == |rows|
    ensures forall i :: 0 <= i < |rows| ==> r[i].id == rows[i].id
  {
    if rows == [] then []
    else [if rows[0].id == id then Patched(rows[0], p) else rows[0]] + ReplaceBook(rows[1..], id, p)
  }

  /** The table after `delete({ id })`: every other row, in order. */
  function RemoveBook(rows: seq<Book>, id: int): (r: seq<Book>)
    ensures forall b :: b in r <==> b in rows && b.id != id
    ensures IdsIncreasing(rows) ==> IdsIncreasing(r)
  {
    if rows == [] then []
    else
      var rest := RemoveBook(rows[1..], id);
      assert forall b :: b in rows <==> b == rows[0] || b in rows[1..];
      assert IdsIncreasing(rows) ==> forall b :: b in rows[1..] ==> rows[0].id < b.id;
      if rows[0].id == id then rest else [rows[0]] + rest
  }

  /** An update keeps the primary key intact. */
  lemma ReplaceKeepsKeys(rows: seq<Book>, id: int, p: BookPatch, nextId: nat)
    requires IdsIncreasing(rows) && IdsBelow(rows, nextId)
    ensures IdsIncreasing(ReplaceBook(rows, id, p)) && IdsBelow(ReplaceBook(rows, id, p), nextId)
  {
    var r := ReplaceBook(rows, id, p);
    assert forall i :: 0 <= i < |rows| ==> r[i].id == rows[i].id;
  }

  /** An update whose payload sets no field leaves every row as it was. */
  lemma {:induction false} EmptyPatchChangesNothing(rows: seq<Book>, id: int, p: BookPatch)
    requires EmptyPatch(p)
    ensures ReplaceBook(rows, id, p) == rows
  {
    if rows != [] {
      EmptyPatchChangesNothing(rows[1..], id, p);
      PatchKeepsOmittedFields(rows[0], p);
      assert rows == [rows[0]] + rows[1..];
    }
  }

  /** After an update, the id finds the patched book and every other id finds what it did. */
  lemma {:induction false} FindAfterReplace(rows: seq<Book>, id: int, p: BookPatch, other: int)
    requires IdsIncreasing(rows)
    ensures FindBook(ReplaceBook(rows, id, p), id)
            == if FindBook(rows, id).Some? then Some(Patched(FindBook(rows, id).value, p)) else None
    ensures other != id ==> FindBook(ReplaceBook(rows, id, p), other) == FindBook(rows, other)
  {
    if rows != [] {
      assert IdsIncreasing(rows[1..]);
      FindAfterReplace(rows[1..], id, p, other);
      if rows[0].id == id {
        assert forall i :: 0 <= i < |rows[1..]| ==> rows[1..][i].id != id by {
          forall i | 0 <= i < |rows[1..]|
            ensures rows[1..][i].id != id
          {
            assert rows[0].id < rows[i + 1].id;
          }
        }
      }
    }
  }

  /** After a delete, the id finds nothing, every other id finds what it did, and
      the table is one row shorter exactly when the id was present. */
  lemma {:induction false} FindAfterRemove(rows: seq<Book>, id: int, other: int)
    requires IdsIncreasing(rows)
    ensures FindBook(RemoveBook(rows, id), id).None?
    ensures other != id ==> FindBook(RemoveBook(rows, id), other) == FindBook(rows, other)
    ensures |RemoveBook(rows, id)| == |rows| - if FindBook(rows, id).Some? then 1 else 0
  {
    if rows != [] {
      assert IdsIncreasing(rows[1..]);
      FindAfterRemove(rows[1..], id, other);
      if rows[0].id == id {
        forall i | 0 <= i < |rows[1..]|
          ensures rows[1..][i].id != id
        {
          assert rows[0].id < rows[i + 1].id;
        }
      }
    }
  }

  /** `name LIKE '%keyword%'`, read as plain substring containment. */
  predicate Contains(name: string, keyword: string)
  {
    exists i :: 0 <= i <= |name| && keyword <= name[i..]
  }

  /** The `where` clause of `findAll`: none when the keyword is absent or empty
      (both falsy), otherwise the containment test on the name. */
  predicate Matches(b: Book, keyword: Option<string>)
  {
    keyword.None? || keyword.value == [] || Contains(b.name, keyword.value)
  }

  /** The matching rows, in storage order. */
  function Matching(rows: seq<Book>, keyword: Option<string>): (s: seq<Book>)
    ensures |s| <= |rows|
    ensures forall b :: b in s <==> b in rows && Matches(b, keyword)
  {
    if rows == [] then []
    else
      assert forall b :: b in rows <==> b == rows[0] || b in rows[1..];
      (if Matches(rows[0], keyword) then [rows[0]] else []) + Matching(rows[1..], keyword)
  }

  /** Without a keyword every book matches, in storage order. */
  lemma {:induction false} NoKeywordMatchesAll(rows: seq<Book>, keyword: Option<string>)
    requires keyword.None? || keyword.value == []
    ensures Matching(rows, keyword) == rows
  {
    if rows != [] {
      NoKeywordMatchesAll(rows[1..], keyword);
      assert rows == [rows[0]] + rows[1..];
    }
  }

  /** `skip: (page - 1) * limit, take: limit`. A `take` or `skip` of 0 is falsy and
      the repository drops it, so a limit of 0 returns every match. */
  function Window(s: seq<Book>, skip: nat, take: nat): (w: seq<Book>)
    ensures take > 0 ==> |w| == Min(take, if skip <= |s| then |s| - skip else 0)
    ensures take == 0 ==> |w| == if skip <= |s| then |s| - skip else 0
    ensures forall i :: 0 <= i < |w| ==> skip + i < |s| && w[i] == s[skip + i]
  {
    var rest := if skip <= |s| then s[skip..] else [];
    if take == 0 || |rest| <= take then rest else rest[..take]
  }

  /** `findAll({ searchKeyword, page, limit })`: the page holds the matches from
      position (page - 1) * limit on, at most `limit` of them, and `total` counts
      every match. `page >= 1` is what the query DTO validates. */
  function FindAll(rows: seq<Book>, keyword: Option<string>, page: int, limit: nat): (r: BookPage)
    requires page >= 1
    ensures r.total == |Matching(rows, keyword)| && r.page == page && r.limit == limit
    ensures limit > 0 ==> |r.data| == Min(limit, if (page - 1) * limit <= r.total then r.total - (page - 1) * limit else 0)
    ensures limit == 0 ==> r.data == Matching(rows, keyword)
    ensures forall i :: 0 <= i < |r.data| ==>
              (page - 1) * limit + i < r.total && r.data[i] == Matching(rows, keyword)[(page - 1) * limit + i]
  {
    var matches := Matching(rows, keyword);
    var skip: nat := (page - 1) * limit;
    var data := Window(matches, skip, limit);
    if limit == 0 then
      assert skip == 0;
      assert data == matches;
      BookPage(data, |matches|, page, limit)
    else BookPage(data, |matches|, page, limit)
  }

  function Min(a: int, b: int): int
  {
    if a <= b then a else b
  }

  /** Pages tile the matches: with a positive limit, match number j is entry
      j % limit of page j / limit + 1. */
  lemma EveryMatchOnItsPage(rows: seq<Book>, keyword: Option<string>, limit: nat, j: nat)
    requires limit > 0 && j < |Matching(rows, keyword)|
    ensures var p := FindAll(rows, keyword, j / limit + 1, limit);
            j % limit < |p.data| && p.data[j % limit] == Matching(rows, keyword)[j]
  {
    var q, r := j / limit, j % limit;
    DivMod(j, limit);
    var page := q + 1;
    assert page - 1 == q;
    PageEntry(rows, keyword, page, limit, r);
  }

  lemma DivMod(j: nat, limit: nat)
    requires limit > 0
    ensures j == (j / limit) * limit + j % limit && 0 <= j % limit < limit && j / limit >= 0
  {
  }

  /** Entry r of a page is the match at the page's offset plus r, while that exists. */
  lemma PageEntry(rows: seq<Book>, keyword: Option<string>, page: int, limit: nat, r: nat)
    requires page >= 1 && r < limit
    requires (page - 1) * limit + r < |Matching(rows, keyword)|
    ensures r < |FindAll(rows, keyword, page, limit).data|
    ensures FindAll(rows, keyword, page, limit).data[r] == Matching(rows, keyword)[(page - 1) * limit + r]
  {
    var skip := (page - 1) * limit;
    var total := |Matching(rows, keyword)|;
    assert skip <= total;
    assert |FindAll(rows, keyword, page, limit).data| == Min(limit, total - skip);
  }

  /** The second page of ten skips the first ten books. */
  lemma SecondPageOfTen(rows: seq<Book>)
    requires |rows| >= 20
    ensures FindAll(rows, None, 2, 10).data == rows[10..20]
    ensures FindAll(rows, None, 2, 10).total == |rows|
  {
    NoKeywordMatchesAll(rows, None);
  }

  class BookService {
    var rows: seq<Book>
    var nextId: nat

    /** Ids are the table's generated primary key: positive, increasing in storage
        order and below the next one to be generated. */
    predicate Valid()
      reads this
    {
      nextId >= 1 && IdsIncreasing(rows) && IdsBelow(rows, nextId)
    }

    constructor ()
      ensures Valid() && rows == [] && nextId == 1
    {
      rows := [];
      nextId := 1;
    }

    /** `create(payload)`: saves the payload under a fresh id and returns the saved
        row with BOOK_CREATE. */
    method Create(payload: BookPayload) returns (reply: BookReply)
      requires Valid()
      modifies this
      ensures Valid()
      ensures var book := Book(old(nextId), payload.name, payload.description, payload.price);
              rows == old(rows) + [book] && reply == BookReply(Some(book), Some(BookCreate), None)
      ensures FindBook(old(rows), old(nextId)).None?
    {
      var bookCreated := Book(nextId, payload.name, payload.description, payload.price);
      rows := rows + [bookCreated];
      nextId := nextId + 1;
      return BookReply(Some(bookCreated), Some(BookCreate), None);
    }

    /** `findOne(id)`: the stored book with that id, or BOOK_NOT_FOUND with 404. */
    function FindOne(id: int): (r: BookReply)
      reads this
      ensures r.data.Some? <==> exists i :: 0 <= i < |rows| && rows[i].id == id
      ensures r.data.Some? ==> r.data.value in rows && r.data.value.id == id && r.message.None? && r.statusCode.None?
      ensures r.data.None? ==> r == NotFoundReply()
    {
      var bookFound := FindBook(rows, id);
      if bookFound.Some? then BookReply(bookFound, None, None) else NotFoundReply()
    }

    /** `update(id, payload)`: for a missing id, BOOK_NOT_FOUND and no change;
        otherwise the row is patched and re-read. A payload that sets nothing
        still runs an update, of the update date alone, so it succeeds and leaves
        the modelled fields as they were. */
    method Update(id: int, patch: BookPatch) returns (reply: BookReply)
      requires Valid()
      modifies this
      ensures Valid() && nextId == old(nextId)
      ensures FindBook(old(rows), id).None? ==> reply == NotFoundReply() && rows == old(rows)
      ensures FindBook(old(rows), id).Some? ==>
                rows == ReplaceBook(old(rows), id, patch) &&
                reply == BookReply(Some(Patched(FindBook(old(rows), id).value, patch)), Some(BookUpdated), None)
      ensures EmptyPatch(patch) ==> rows == old(rows)
    {
      var bookFound := FindBook(rows, id);
      if bookFound.None? {
        return NotFoundReply();
      }
      FindAfterReplace(rows, id, patch, id);
      if EmptyPatch(patch) {
        EmptyPatchChangesNothing(rows, id, patch);
      }
      ReplaceKeepsKeys(rows, id, patch, nextId);
      rows := ReplaceBook(rows, id, patch);
      var updateBook := FindBook(rows, id);
      return BookReply(updateBook, Some(BookUpdated), None);
    }

    /** `remove(id)`: deletes the row with that id and returns BOOK_DELETED, or
        BOOK_NOT_FOUND with 404 and no change. */
    method Remove(id: int) returns (reply: BookReply)
      requires Valid()
      modifies this
      ensures Valid() && nextId == old(nextId)
      ensures FindBook(old(rows), id).None? ==> reply == NotFoundReply() && rows == old(rows)
      ensures FindBook(old(rows), id).Some? ==>
                reply == BookReply(None, Some(BookDeleted), None) && rows == RemoveBook(old(rows), id)
    {
      var bookFound := FindBook(rows, id);
      if bookFound.Some? {
        rows := RemoveBook(rows, bookFound.value.id);
        return BookReply(None, Some(BookDeleted), None);
      }
      return NotFoundReply();
    }
  }
}
