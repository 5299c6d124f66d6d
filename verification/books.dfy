/**
 * The `/books` router: the book store (the shared handlers of RecordStore
 * with the book fields) and the issued-books listing, which joins the users
 * that hold a book with the books they hold.
 *
 * The listing writes the issuing user's details onto the canonical book
 * records of the store and collects those same records, so the list is read
 * back from the store once the loop is over: a book held by two users is
 * listed twice, both times with the details of the later user.
 */
module Books {
  import opened Records
  import opened RecordStore

  const BookSchema: Schema := Entity("Book", [Id, "title", "author", "year"])

  const IssuedBook := "issuedBook"

  const NoneIssuedMessage := "No books have been issued yet"

  /** The fields the listing writes onto a book. */
  const IssuanceKeys: set<string> := {"issuedBy", "issuedDate", "returnDate"}

  /** Every user of `us` holds a book (a truthy `issuedBook`). */
  predicate AllIssuing(us: seq<Record>) {
    forall j :: 0 <= j < |us| ==> Truthy(us[j], IssuedBook)
  }

  /** `users.filter(user => user.issuedBook)`, in user order. */
  function Issuing(users: seq<Record>): (r: seq<Record>)
    ensures AllIssuing(r)
    ensures |r| <= |users|
  {
    if |users| == 0 then []
    else
      var prev := Issuing(users[..|users| - 1]);
      var last := users[|users| - 1];
      assert users == users[..|users| - 1] + [last];
      if Truthy(last, IssuedBook) then prev + [last] else prev
  }

  /** Every book a user of `us` holds is in `bs` (the handler dereferences the lookup unguarded). */
  predicate Resolves(bs: seq<Record>, us: seq<Record>) {
    AllIssuing(us) && forall j :: 0 <= j < |us| ==> FindIndex(bs, us[j][IssuedBook]).Some?
  }

  /** The index of the book the user holds. */
  function Held(bs: seq<Record>, u: Record): (r: Option<nat>)
    requires Truthy(u, IssuedBook)
    ensures r.Some? ==> r.value < |bs| && HasId(bs[r.value], u[IssuedBook])
    ensures r.None? <==> forall j :: 0 <= j < |bs| ==> !HasId(bs[j], u[IssuedBook])
  {
    FindIndex(bs, u[IssuedBook])
  }

  /** `book.issuedBy = user.name; book.issuedDate = user.issuedDate; book.returnDate = user.returnDate` */
  function Stamp(book: Record, user: Record): (b: Record)
    ensures Lookup(b, "issuedBy") == Lookup(user, "name")
    ensures Lookup(b, "issuedDate") == Lookup(user, "issuedDate")
    ensures Lookup(b, "returnDate") == Lookup(user, "returnDate")
    ensures forall k :: k !in IssuanceKeys ==> Lookup(b, k) == Lookup(book, k)
  {
    Assign(Assign(Assign(book, "issuedBy", Lookup(user, "name")),
                  "issuedDate", Lookup(user, "issuedDate")),
           "returnDate", Lookup(user, "returnDate"))
  }

  /**
   * The books after the `forEach` has stamped, user after user, the book
   * each holds.  The lookup runs on the books as stamped so far; a user
   * whose book is missing leaves them alone here, where the handler
   * crashes (Resolves excludes it).
   */
  function IssueAll(bs: seq<Record>, us: seq<Record>): (r: seq<Record>)
    requires AllIssuing(us)
    ensures SameIds(r, bs)
  {
    if |us| == 0 then bs
    else
      var prev := IssueAll(bs, us[..|us| - 1]);
      var u := us[|us| - 1];
      match Held(prev, u)
      case None => prev
      case Some(k) =>
        var r := prev[k := Stamp(prev[k], u)];
        assert Lookup(r[k], Id) == Lookup(prev[k], Id);
        r
  }

  /** The issued-books list: for each user, in order, the (final) record of the book they hold. */
  function Issued(bs: seq<Record>, us: seq<Record>): (r: seq<Record>)
    requires Resolves(bs, us)
    ensures |r| == |us|
    ensures forall j | 0 <= j < |us| :: HasId(r[j], us[j][IssuedBook])
  {
    var after := IssueAll(bs, us);
    var r := seq(|us|, j requires 0 <= j < |us| => after[Held(bs, us[j]).value]);
    assert forall j | 0 <= j < |us| :: Lookup(r[j], Id) == Lookup(bs[Held(bs, us[j]).value], Id);
    r
  }

  /** The position in `us` of the last user holding book `k`. */
  function LastHolder(bs: seq<Record>, us: seq<Record>, k: nat): (m: Option<nat>)
    requires AllIssuing(us)
    ensures m.Some? ==> m.value < |us| && Held(bs, us[m.value]) == Some(k)
    ensures m.Some? ==> forall j :: m.value < j < |us| ==> Held(bs, us[j]) != Some(k)
    ensures m.None? <==> forall j :: 0 <= j < |us| ==> Held(bs, us[j]) != Some(k)
  {
    if |us| == 0 then None
    else if Held(bs, us[|us| - 1]) == Some(k) then Some(|us| - 1)
    else LastHolder(bs, us[..|us| - 1], k)
  }

  /** `GET /issued-books/for-users` — 404 when no user holds a book, else the list of the books they hold. */
  method IssuedBooks(books: Store, users: Store) returns (res: Response<seq<Record>>)
    requires forall i :: 0 <= i < |users.records| && Truthy(users.records[i], IssuedBook) ==>
      FindIndex(books.records, users.records[i][IssuedBook]).Some?
    modifies books
    ensures Resolves(old(books.records), Issuing(old(users.records)))
    ensures books.records == IssueAll(old(books.records), Issuing(old(users.records)))
    ensures |Issuing(old(users.records))| == 0 ==>
      res == Failure(404, NoneIssuedMessage) && books.records == old(books.records)
    ensures |Issuing(old(users.records))| > 0 ==>
      res == Response(200, true, None, Some(Issued(old(books.records), Issuing(old(users.records)))))
  {
    var issuing := Issuing(users.records);
    ghost var bs := books.records;
    IssuingResolves(bs, users.records);
    var held: seq<nat> := [];
    var i := 0;
    while i < |issuing|
      invariant 0 <= i <= |issuing|
      invariant books.records == IssueAll(bs, issuing[..i])
      invariant |held| == i
      invariant forall j :: 0 <= j < i ==> Some(held[j]) == Held(bs, issuing[j])
    {
      var user := issuing[i];
      IssueStep(bs, issuing, i);
      var k := FindIndex(books.records, user[IssuedBook]).value;
      books.records := books.records[k := Stamp(books.records[k], user)];
      HeldStep(bs, issuing, held, i, k);
      held := held + [k];
      i := i + 1;
    }
    assert issuing[..i] == issuing;
    if |held| == 0 {
      res := Failure(404, NoneIssuedMessage);
    } else {
      var after := books.records;
      IssuedFromHeld(bs, issuing, held);
      var list := seq(|held|, j requires 0 <= j < |held| => after[held[j]]);
      assert list == Issued(bs, issuing);
      res := Response(200, true, None, Some(list));
    }
  }

  /** Recording the position of user `i`'s book extends the positions found so far. */
  lemma HeldStep(bs: seq<Record>, us: seq<Record>, held: seq<nat>, i: nat, k: nat)
    requires AllIssuing(us) && i < |us| && |held| == i
    requires forall j :: 0 <= j < i ==> Some(held[j]) == Held(bs, us[j])
    requires Some(k) == Held(bs, us[i])
    ensures forall j :: 0 <= j < i + 1 ==> Some((held + [k])[j]) == Held(bs, us[j])
  {
  }

  /** Every user the filter keeps holds a book that the lookup finds. */
  lemma IssuingResolves(bs: seq<Record>, users: seq<Record>)
    requires forall i :: 0 <= i < |users| && Truthy(users[i], IssuedBook) ==> FindIndex(bs, users[i][IssuedBook]).Some?
    ensures Resolves(bs, Issuing(users))
  {
    var issuing := Issuing(users);
    IssuingMembers(users);
    forall j | 0 <= j < |issuing| ensures FindIndex(bs, issuing[j][IssuedBook]).Some? {
      assert issuing[j] in users;
    }
  }

  /** One turn of the loop: stamping user `i` extends IssueAll by that user, and finds the same book as on the original records. */
  lemma IssueStep(bs: seq<Record>, us: seq<Record>, i: nat)
    requires Resolves(bs, us) && i < |us|
    ensures |IssueAll(bs, us[..i])| == |bs|
    ensures FindIndex(IssueAll(bs, us[..i]), us[i][IssuedBook]) == Held(bs, us[i])
    ensures var prev := IssueAll(bs, us[..i]);
            var k := Held(bs, us[i]).value;
            IssueAll(bs, us[..i + 1]) == prev[k := Stamp(prev[k], us[i])]
  {
    assert us[..i + 1][..i] == us[..i];
    FindIndexSameIds(IssueAll(bs, us[..i]), bs, us[i][IssuedBook]);
  }

  /** The list read back from the stamped books at the positions the loop found is the issued-books list. */
  lemma IssuedFromHeld(bs: seq<Record>, us: seq<Record>, held: seq<nat>)
    requires Resolves(bs, us) && |held| == |us|
    requires forall j :: 0 <= j < |us| ==> Some(held[j]) == Held(bs, us[j])
    ensures forall j :: 0 <= j < |held| ==> held[j] < |IssueAll(bs, us)|
    ensures seq(|held|, j requires 0 <= j < |held| => IssueAll(bs, us)[held[j]]) == Issued(bs, us)
  {
  }

  // ---------------------------------------------------------------------------
  // Properties

  /** A created book is exactly `{id, title, author, year}` taken from the body; other body fields are dropped. */
  lemma CreatedBookShape(body: Record)
    requires Truthy(body, Id) && Truthy(body, "title") && Truthy(body, "author") && Truthy(body, "year")
    ensures AllPresent(body, BookSchema.fields)
    ensures Project(body, BookSchema.fields) ==
      map[Id := body[Id], "title" := body["title"], "author" := body["author"], "year" := body["year"]]
  {
    var fs := BookSchema.fields;
    assert forall f :: f in fs <==> f == Id || f == "title" || f == "author" || f == "year";
  }

  /** A later stamp overwrites an earlier one completely. */
  lemma StampOverwrites(book: Record, u1: Record, u2: Record)
    ensures Stamp(Stamp(book, u1), u2) == Stamp(book, u2)
  {
    var a, b := Stamp(Stamp(book, u1), u2), Stamp(book, u2);
    forall k ensures Lookup(a, k) == Lookup(b, k) {
      if k !in IssuanceKeys {
        assert Lookup(Stamp(book, u1), k) == Lookup(book, k);
      }
    }
    LookupExtensional(a, b);
  }

  /**
   * After the loop, each book is the original record stamped with the
   * details of the last user holding it, or the original record when no
   * user holds it.
   */
  lemma {:induction false} IssueAllAt(bs: seq<Record>, us: seq<Record>, k: nat)
    requires AllIssuing(us) && k < |bs|
    ensures |IssueAll(bs, us)| == |bs|
    ensures IssueAll(bs, us)[k] ==
      match LastHolder(bs, us, k)
      case None => bs[k]
      case Some(m) => Stamp(bs[k], us[m])
  {
    if |us| > 0 {
      var init := us[..|us| - 1];
      var u := us[|us| - 1];
      var prev := IssueAll(bs, init);
      IssueAllAt(bs, init, k);
      FindIndexSameIds(prev, bs, u[IssuedBook]);
      assert Held(prev, u) == Held(bs, u);
      if Held(bs, u) == Some(k) {
        match LastHolder(bs, init, k)
        case None =>
        case Some(m) =>
          assert init[m] == us[m];
          StampOverwrites(bs[k], us[m], u);
      } else {
        match LastHolder(bs, init, k)
        case None =>
        case Some(m) =>
          assert init[m] == us[m];
      }
    }
  }

  /** The books keep their number, order and ids; only the issuance fields of held books change. */
  lemma IssueAllChangesOnlyIssuance(bs: seq<Record>, us: seq<Record>)
    requires AllIssuing(us)
    ensures |IssueAll(bs, us)| == |bs|
    ensures forall k, key | 0 <= k < |bs| && key !in IssuanceKeys ::
      Lookup(IssueAll(bs, us)[k], key) == Lookup(bs[k], key)
    ensures forall k | 0 <= k < |bs| && (forall j :: 0 <= j < |us| ==> Held(bs, us[j]) != Some(k)) ::
      IssueAll(bs, us)[k] == bs[k]
  {
    forall k | 0 <= k < |bs| ensures IssueAll(bs, us)[k] == match LastHolder(bs, us, k)
      case None => bs[k]
      case Some(m) => Stamp(bs[k], us[m])
    {
      IssueAllAt(bs, us, k);
    }
  }

  /**
   * Entry `j` of the list is the book user `j` holds, carrying the name,
   * issue date and return date of the last user holding that book.
   */
  lemma IssuedEntry(bs: seq<Record>, us: seq<Record>, j: nat)
    requires Resolves(bs, us) && j < |us|
    ensures |Issued(bs, us)| == |us|
    ensures HasId(Issued(bs, us)[j], us[j][IssuedBook])
    ensures var m := LastHolder(bs, us, Held(bs, us[j]).value);
            && m.Some? && j <= m.value
            && Issued(bs, us)[j] == Stamp(bs[Held(bs, us[j]).value], us[m.value])
  {
    var k := Held(bs, us[j]).value;
    IssueAllAt(bs, us, k);
    var e := Issued(bs, us)[j];
    assert Lookup(e, Id) == Lookup(bs[k], Id);
  }

  /** When no two users hold the same book, each entry carries its own user's details. */
  lemma IssuedEntryOwnHolder(bs: seq<Record>, us: seq<Record>, j: nat)
    requires Resolves(bs, us) && j < |us|
    requires forall i :: 0 <= i < |us| && i != j ==> Held(bs, us[i]) != Held(bs, us[j])
    ensures |Issued(bs, us)| == |us|
    ensures Lookup(Issued(bs, us)[j], "issuedBy") == Lookup(us[j], "name")
    ensures Lookup(Issued(bs, us)[j], "issuedDate") == Lookup(us[j], "issuedDate")
    ensures Lookup(Issued(bs, us)[j], "returnDate") == Lookup(us[j], "returnDate")
  {
    IssuedEntry(bs, us, j);
  }

  /** Two users holding the same book give two identical entries: the same record, listed twice. */
  lemma IssuedSharedBook(bs: seq<Record>, us: seq<Record>, i: nat, j: nat)
    requires Resolves(bs, us) && i < |us| && j < |us|
    requires Held(bs, us[i]) == Held(bs, us[j])
    ensures |Issued(bs, us)| == |us|
    ensures Issued(bs, us)[i] == Issued(bs, us)[j]
  {
    IssueAllAt(bs, us, Held(bs, us[i]).value);
  }

  /** The filter of a single user keeps it exactly when it holds a book. */
  lemma IssuingOne(u: Record)
    ensures Issuing([u]) == if Truthy(u, IssuedBook) then [u] else []
  {
    assert [u][..0] == [];
  }

  /** Filtering a concatenation filters each part and keeps them in order. */
  lemma {:induction false} IssuingAppend(a: seq<Record>, b: seq<Record>)
    ensures Issuing(a + b) == Issuing(a) + Issuing(b)
  {
    if |b| == 0 {
      assert a + b == a;
    } else {
      var init := b[..|b| - 1];
      assert (a + b)[..|a + b| - 1] == a + init;
      assert (a + b)[|a + b| - 1] == b[|b| - 1];
      IssuingAppend(a, init);
    }
  }

  /** The filter keeps exactly the users holding a book. */
  lemma {:induction false} IssuingMembers(users: seq<Record>)
    ensures forall x :: x in Issuing(users) <==> x in users && Truthy(x, IssuedBook)
  {
    if |users| > 0 {
      var init := users[..|users| - 1];
      IssuingMembers(init);
      assert users == init + [users[|users| - 1]];
    }
  }

  /** The list is empty exactly when no user holds a book. */
  lemma {:induction false} NothingIssued(users: seq<Record>)
    ensures |Issuing(users)| == 0 <==> forall i :: 0 <= i < |users| ==> !Truthy(users[i], IssuedBook)
  {
    if |users| > 0 {
      var init := users[..|users| - 1];
      NothingIssued(init);
      if |Issuing(users)| == 0 {
        forall i | 0 <= i < |users| ensures !Truthy(users[i], IssuedBook) {
          if i < |users| - 1 { assert users[i] == init[i]; }
        }
      }
    }
  }
}
