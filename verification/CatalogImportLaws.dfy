/** Importing keeps every constraint, only adds, succeeds exactly when its codes allow it, and is
    idempotent exactly for details with a valid ISBN. */
module CatalogImportLaws {
  import opened Sql
  import opened Schema
  import opened Slugs
  import opened CatalogImport

  // ---------- Looking a code up ----------

  lemma {:induction false} ReleaseFound(releases: Table<Release>, key: Id)
    requires key in Keys(releases)
    ensures Get(releases, key).Some?
  {
    var r :| r in releases && r.id == key;
    var i :| 0 <= i < |releases| && releases[i] == r;
  }

  /** A code in the catalog is that of a book. */
  lemma CodeHasBook(c: Catalog, code: string)
    requires CatalogOk(c)
    ensures ByIsbn(c, code).Some? <==> FindIsbn(c.isbns, code).Some?
    ensures ByIsbn(c, code).Some? ==> ByIsbn(c, code).value in Keys(c.books)
  {
    var i := FindIsbn(c.isbns, code);
    if i.Some? {
      ReleaseFound(c.releases, i.value.data.releaseId);
    }
  }

  lemma {:induction false} ByCodesMeans(c: Catalog, codes: seq<Code>)
    requires CatalogOk(c)
    ensures ByCodes(c, codes).None? <==> CodesAbsent(c.isbns, codes)
    ensures ByCodes(c, codes).Some? ==> ByCodes(c, codes).value in Keys(c.books)
  {
    if codes != [] {
      CodeHasBook(c, codes[0].code);
      ByCodesMeans(c, codes[1..]);
      assert CodesAbsent(c.isbns, codes[1..]) && FindIsbn(c.isbns, codes[0].code).None? ==> CodesAbsent(c.isbns, codes);
    }
  }

  lemma {:induction false} ByCodesSame(c: Catalog, e: Catalog, codes: seq<Code>)
    requires c.books == e.books && c.releases == e.releases && c.isbns == e.isbns
    ensures ByCodes(c, codes) == ByCodes(e, codes)
  {
    if codes != [] {
      ByCodesSame(c, e, codes[1..]);
    }
  }

  predicate LeadsTo(i: Row<Isbn>, r: Row<Release>, code: string, book: Id) {
    i.data.codeNormalized == code && i.data.releaseId == r.id && r.data.bookId == book
  }

  /** A code leads to the book of the release it is a code of. */
  lemma ByIsbnMeans(c: Catalog, code: string, book: Id)
    requires CatalogOk(c)
    ensures ByIsbn(c, code) == Some(book) <==>
      exists i, r :: i in c.isbns && r in c.releases && LeadsTo(i, r, code, book)
  {
    CodeHasBook(c, code);
    if i, r :| i in c.isbns && r in c.releases && LeadsTo(i, r, code, book) {
      var k :| 0 <= k < |c.isbns| && c.isbns[k] == i;
      GetRow(c.releases, r);
    }
  }

  /** The first code that leads to a book decides. */
  lemma {:induction false} ByCodesIsFirst(c: Catalog, codes: seq<Code>, n: nat)
    requires n < |codes| && ByIsbn(c, codes[n].code).Some?
    requires forall i :: 0 <= i < n ==> ByIsbn(c, codes[i].code).None?
    ensures ByCodes(c, codes) == ByIsbn(c, codes[n].code)
  {
    if n > 0 {
      assert codes[1..][n - 1] == codes[n];
      ByCodesIsFirst(c, codes[1..], n - 1);
    }
  }

  /** The valid codes of a list are those of its parts, one for each code that is valid. */
  lemma {:induction false} CodesConcat(env: Env, xs: seq<ExternalIsbn>, ys: seq<ExternalIsbn>)
    ensures Codes(env, xs + ys) == Codes(env, xs) + Codes(env, ys)
    ensures forall x: ExternalIsbn :: env.normalize(x.code).Some? ==>
      Codes(env, [x]) == [Code(env.normalize(x.code).value, x)]
    ensures forall x: ExternalIsbn :: env.normalize(x.code).None? ==> Codes(env, [x]) == []
  {
    forall x: ExternalIsbn ensures [x][..0] == [] {}
    if ys == [] {
      assert xs + ys == xs;
    } else {
      CodesConcat(env, xs, ys[..|ys| - 1]);
      assert (xs + ys)[..|xs + ys| - 1] == xs + ys[..|ys| - 1];
    }
  }

  /** A book in the catalog with this title and exactly these contributors. */
  ghost predicate IsTitled(c: Catalog, d: Detail, credits: seq<Credit>, b: Row<Book>) {
    b in c.books && b.data.title == d.title && ContributorsOf(c.bookLinks, b.id) == Credited(credits)
  }

  /** A detail that names contributors is found by its title exactly when a book has that title and those
      contributors; one that names none never is. */
  lemma ByTitleIff(c: Catalog, d: Detail, credits: seq<Credit>)
    ensures ByTitle(c, d.title, credits).Some? <==> credits != [] && exists b: Row<Book> :: IsTitled(c, d, credits, b)
    ensures ByTitle(c, d.title, credits).Some? ==>
      exists b: Row<Book> :: IsTitled(c, d, credits, b) && b.id == ByTitle(c, d.title, credits).value
  {
    var found := ByTitle(c, d.title, credits);
    if found.Some? {
      var b :| b in c.books && b.data.title == d.title && b.id == found.value;
      assert IsTitled(c, d, credits, b);
    } else if credits != [] {
      forall b ensures !IsTitled(c, d, credits, b) {
        if b in c.books {
          var i :| 0 <= i < |c.books| && c.books[i] == b;
        }
      }
    }
  }

  // ---------- Each part keeps the constraints ----------

  lemma ResolvedKeeps(env: Env, c: Catalog, exts: seq<ExternalContributor>)
    requires CatalogOk(c) && ResolveAll(env, c.contributors, c.next, exts).Some?
    ensures var r := ResolveAll(env, c.contributors, c.next, exts).value;
      CatalogOk(WithContributors(c, r)) && CreditsIn(r.credits, Keys(r.contributors))
  {
    ResolveKeeps(env, c.contributors, c.next, exts);
    var r := ResolveAll(env, c.contributors, c.next, exts).value;
    LinksGrow(Keys(c.books), Keys(c.books), Keys(c.contributors), Keys(r.contributors), c.bookLinks);
    LinksGrow(Keys(c.releases), Keys(c.releases), Keys(c.contributors), Keys(r.contributors), c.releaseLinks);
  }

  lemma LinkedKeeps(c: Catalog, book: Id, credits: seq<Credit>)
    requires CatalogOk(c) && book in Keys(c.books) && CreditsIn(credits, Keys(c.contributors))
    ensures CatalogOk(Linked(c, book, credits))
  {
    LinkAllFacts(c.bookLinks, book, credits, Keys(c.books), Keys(c.contributors));
  }

  lemma TitledOrNewKeeps(c: Catalog, d: Detail, credits: seq<Credit>)
    requires CatalogOk(c) && TitledOrNew(c, d, credits).Some?
    ensures var o := TitledOrNew(c, d, credits).value;
      && CatalogOk(o.catalog) && o.book in Keys(o.catalog.books) && o.catalog.contributors == c.contributors
      && o.catalog.isbns == c.isbns && o.catalog.releases == c.releases && o.catalog.next >= c.next
      && c.books <= o.catalog.books && c.bookLinks == o.catalog.bookLinks && c.releaseLinks == o.catalog.releaseLinks
  {
    if ByTitle(c, d.title, credits).None? {
      var row := Row(c.next, Book(d.title, OrEmpty(d.description), d.publishedYear));
      KeysOfAppended(c.books, row);
      LinksGrow(Keys(c.books), Keys(c.books + [row]), Keys(c.contributors), Keys(c.contributors), c.bookLinks);
      GrownBooks(c.books, row, c.releases);
    }
  }

  lemma GrownBooks(books: Table<Book>, row: Row<Book>, releases: Table<Release>)
    requires ReleasesOk(Keys(books), releases) && Keys(books + [row]) == Keys(books) + {row.id}
    ensures ReleasesOk(Keys(books + [row]), releases)
  {
  }

  lemma GrownReleases(c: Catalog, row: Row<Release>)
    requires CatalogOk(c) && row.id == c.next && row.data.bookId in Keys(c.books)
    ensures CatalogOk(c.(releases := c.releases + [row], next := c.next + 1))
    ensures row.id in Keys(c.releases + [row])
  {
    KeysOfAppended(c.releases, row);
    LinksGrow(Keys(c.releases), Keys(c.releases + [row]), Keys(c.contributors), Keys(c.contributors), c.releaseLinks);
    assert forall x :: x in c.releases + [row] <==> x in c.releases || x == row;
  }

  lemma CreateReleaseKeeps(c: Catalog, book: Id, d: Detail, codes: seq<Code>, credits: seq<Credit>)
    requires CatalogOk(c) && book in Keys(c.books) && CreditsIn(credits, Keys(c.contributors))
    requires CreateRelease(c, book, d, codes, credits).Some?
    ensures CatalogOk(CreateRelease(c, book, d, codes, credits).value)
    ensures c.isbns <= CreateRelease(c, book, d, codes, credits).value.isbns
    ensures c.releaseLinks <= CreateRelease(c, book, d, codes, credits).value.releaseLinks
  {
    var row := Row(c.next, NewRelease(book, d));
    GrownReleases(c, row);
    var grown := c.(releases := c.releases + [row], next := c.next + 1);
    InsertKeeps(Keys(grown.releases), c.isbns, c.next + 1, c.next, codes);
    LinkAllFacts(c.releaseLinks, c.next, credits, Keys(grown.releases), Keys(c.contributors));
  }

  /** What an import leaves: every old row and link where it was. */
  ghost predicate Grown(c: Catalog, e: Catalog) {
    && c.books <= e.books && c.releases <= e.releases && c.isbns <= e.isbns && c.contributors <= e.contributors
    && c.bookLinks <= e.bookLinks && c.releaseLinks <= e.releaseLinks
  }

  lemma ImportResolvedKeeps(c: Catalog, d: Detail, codes: seq<Code>, credits: seq<Credit>)
    requires CatalogOk(c) && CreditsIn(credits, Keys(c.contributors)) && ImportResolved(c, d, codes, credits).Some?
    ensures var o := ImportResolved(c, d, codes, credits).value;
      CatalogOk(o.catalog) && Grown(c, o.catalog) && o.book in Keys(o.catalog.books)
      && o.catalog.contributors == c.contributors
  {
    var found := ByCodes(c, codes);
    ByCodesMeans(c, codes);
    if found.Some? {
      LinkedKeeps(c, found.value, credits);
      LinkAllFacts(c.bookLinks, found.value, credits, {}, {});
    } else {
      TitledOrNewKeeps(c, d, credits);
      var t := TitledOrNew(c, d, credits).value;
      LinkedKeeps(t.catalog, t.book, credits);
      LinkAllFacts(t.catalog.bookLinks, t.book, credits, {}, {});
      CreateReleaseKeeps(Linked(t.catalog, t.book, credits), t.book, d, codes, credits);
    }
  }

  /** An import that succeeds keeps every constraint, each normalised code in exactly one release among
      them, and changes no row or link that was there. */
  lemma ImportKeepsConstraints(env: Env, c: Catalog, d: Detail)
    requires CatalogOk(c) && Import(env, c, d).Some?
    ensures var o := Import(env, c, d).value;
      CatalogOk(o.catalog) && Grown(c, o.catalog) && o.book in Keys(o.catalog.books)
  {
    ResolvedKeeps(env, c, d.contributors);
    ResolveKeeps(env, c.contributors, c.next, d.contributors);
    var r := ResolveAll(env, c.contributors, c.next, d.contributors).value;
    ImportResolvedKeeps(WithContributors(c, r), d, Codes(env, d.isbns), r.credits);
  }

  /** A book that no code led to gets one new release: the detail's, with one row for each valid code and the
      detail's contributors in their roles. */
  lemma ReleaseIsAsDetailed(c: Catalog, book: Id, d: Detail, codes: seq<Code>, credits: seq<Credit>)
    requires CatalogOk(c) && CreateRelease(c, book, d, codes, credits).Some?
    ensures var e := CreateRelease(c, book, d, codes, credits).value;
      && e.releases == c.releases + [Row(c.next, Release(book, d.format,
        if d.publisher.Some? then d.publisher.value else "", d.publishedYear,
        if d.language.Some? then d.language.value else ""))]
      && |e.isbns| == |c.isbns| + |codes|
      && (forall i :: 0 <= i < |codes| ==>
        e.isbns[|c.isbns| + i].data == Isbn(c.next, codes[i].code, codes[i].isbn.code, codes[i].isbn.kind))
      && ContributorsOf(e.releaseLinks, c.next) == Credited(credits)
      && (forall l :: l in e.releaseLinks && l !in c.releaseLinks ==>
        l.owner == c.next && Credit(l.contributorId, l.role) in credits)
  {
    InsertedRows(c.isbns, c.next + 1, c.next, codes);
    LinkAllFacts(c.releaseLinks, c.next, credits, {}, {});
    LinksAreCredits(c.releaseLinks, c.next, credits);
    NewReleaseUnlinked(c);
  }

  lemma NewReleaseUnlinked(c: Catalog)
    requires CatalogOk(c)
    ensures ContributorsOf(c.releaseLinks, c.next) == {}
  {
    forall l | l in c.releaseLinks ensures l.owner != c.next {
      var r :| r in c.releases && r.id == l.owner;
      var i :| 0 <= i < |c.releases| && c.releases[i] == r;
    }
  }

  // ---------- Success ----------

  /** What a detail whose book the catalog does not know by ISBN must satisfy. */
  ghost predicate Importable(d: Detail, codes: seq<Code>) {
    && |d.title| <= 255
    && (d.publisher.Some? ==> |d.publisher.value| <= 255) && (d.language.Some? ==> |d.language.value| <= 35)
    && (forall x :: x in codes ==> |x.code| <= 20 && |x.isbn.code| <= 32)
    && DistinctCodes(codes)
  }

  /** A title in the catalog fits its column. */
  lemma TitleFitsIff(c: Catalog, d: Detail, credits: seq<Credit>)
    requires CatalogOk(c)
    ensures TitledOrNew(c, d, credits).Some? <==> |d.title| <= TEXT_LENGTH
  {
  }

  lemma CreateSucceedsIff(c: Catalog, book: Id, d: Detail, codes: seq<Code>, credits: seq<Credit>)
    requires CodesAbsent(c.isbns, codes)
    ensures CreateRelease(c, book, d, codes, credits).Some?
      <==> ReleaseFits(d) && CodesFit(codes) && DistinctCodes(codes)
  {
    InsertSucceedsIff(c.isbns, c.next + 1, c.next, codes);
  }

  lemma ResolvedSucceedsIff(c: Catalog, d: Detail, codes: seq<Code>, credits: seq<Credit>)
    requires CatalogOk(c)
    ensures ImportResolved(c, d, codes, credits).Some?
      <==> (CodesAbsent(c.isbns, codes) ==> Importable(d, codes))
  {
    ByCodesMeans(c, codes);
    TitleFitsIff(c, d, credits);
    if ByCodes(c, codes).None? && TitledOrNew(c, d, credits).Some? {
      TitledOrNewKeeps(c, d, credits);
      var t := TitledOrNew(c, d, credits).value;
      CreateSucceedsIff(Linked(t.catalog, t.book, credits), t.book, d, codes, credits);
    }
  }

  /** The import of a detail succeeds exactly when the names that have to be added fit their columns, with their
      slugs, and, if none of its codes is in the catalog, its columns fit and its valid codes normalise to pairwise
      distinct ones. */
  lemma ImportSucceedsIff(env: Env, c: Catalog, d: Detail)
    requires CatalogOk(c)
    ensures var codes := Codes(env, d.isbns);
      Import(env, c, d).Some? <==>
        NamesFit(env, c.contributors, d.contributors) && (CodesAbsent(c.isbns, codes) ==> Importable(d, codes))
  {
    var r, codes := ResolveAll(env, c.contributors, c.next, d.contributors), Codes(env, d.isbns);
    ResolvesAllIff(env, c.contributors, c.next, d.contributors);
    if r.Some? {
      ResolvedKeeps(env, c, d.contributors);
      ResolvedSucceedsIff(WithContributors(c, r.value), d, codes, r.value.credits);
    }
  }

  /** In particular a new book listed with two forms of one ISBN, an ISBN-10 and its ISBN-13, cannot be imported. */
  lemma TwoFormsOfOneCode(env: Env, c: Catalog, d: Detail, x: ExternalIsbn, y: ExternalIsbn)
    requires CatalogOk(c) && d.isbns == [x, y]
    requires env.normalize(x.code).Some? && env.normalize(x.code) == env.normalize(y.code)
    requires FindIsbn(c.isbns, env.normalize(x.code).value).None?
    ensures Import(env, c, d) == None
  {
    var code := env.normalize(x.code).value;
    assert d.isbns[..1] == [x] && d.isbns[..1][..0] == [];
    assert Codes(env, []) == [] && Codes(env, [x]) == [] + [Code(code, x)];
    assert Codes(env, d.isbns) == [Code(code, x), Code(code, y)];
    assert !DistinctCodes(Codes(env, d.isbns)) by {
      assert Codes(env, d.isbns)[0].code == Codes(env, d.isbns)[1].code;
    }
    ImportSucceedsIff(env, c, d);
  }

  // ---------- What is added ----------

  lemma {:induction false} LinksOfOthers(links: set<Link>, owner: Id, credits: seq<Credit>)
    ensures forall l: Link :: l.owner != owner ==> (l in LinkAll(links, owner, credits) <==> l in links)
  {
    if credits != [] {
      LinksOfOthers(links, owner, credits[..|credits| - 1]);
    }
  }

  lemma OldBook(c: Catalog, d: Detail, codes: seq<Code>, credits: seq<Credit>)
    requires CatalogOk(c) && ImportResolved(c, d, codes, credits).Some? && !CodesAbsent(c.isbns, codes)
    ensures var o := ImportResolved(c, d, codes, credits).value;
      o.catalog == c.(bookLinks := o.catalog.bookLinks) && ByCodes(c, codes) == Some(o.book)
  {
    ByCodesMeans(c, codes);
  }

  lemma NewBook(c: Catalog, d: Detail, codes: seq<Code>, credits: seq<Credit>)
    requires CatalogOk(c) && ImportResolved(c, d, codes, credits).Some? && CodesAbsent(c.isbns, codes)
    ensures var o := ImportResolved(c, d, codes, credits).value;
      && |o.catalog.releases| == |c.releases| + 1 && o.catalog.releases[|c.releases|].data.bookId == o.book
      && if credits != [] && exists b: Row<Book> :: IsTitled(c, d, credits, b)
         then o.catalog.books == c.books && exists b: Row<Book> :: IsTitled(c, d, credits, b) && b.id == o.book
         else o.book == c.next && o.catalog.books == c.books + [Row(c.next,
           Book(d.title, if d.description.Some? then d.description.value else "", d.publishedYear))]
  {
    ByCodesMeans(c, codes);
    ByTitleIff(c, d, credits);
  }

  lemma LinksOfBook(c: Catalog, d: Detail, codes: seq<Code>, credits: seq<Credit>)
    requires ImportResolved(c, d, codes, credits).Some?
    ensures var o := ImportResolved(c, d, codes, credits).value;
      && ContributorsOf(o.catalog.bookLinks, o.book) == ContributorsOf(c.bookLinks, o.book) + Credited(credits)
      && forall l: Link :: l.owner != o.book ==> (l in o.catalog.bookLinks <==> l in c.bookLinks)
  {
    var o := ImportResolved(c, d, codes, credits).value;
    LinkAllFacts(c.bookLinks, o.book, credits, {}, {});
    LinksOfOthers(c.bookLinks, o.book, credits);
  }

  /** A detail one of whose codes is in the catalog adds nothing but its contributors to that book. Any other adds
      one release, to the book of its title and contributors or else to a new book with its columns. */
  lemma ImportAdds(c: Catalog, d: Detail, codes: seq<Code>, credits: seq<Credit>)
    requires CatalogOk(c) && ImportResolved(c, d, codes, credits).Some?
    ensures var o := ImportResolved(c, d, codes, credits).value;
      && ContributorsOf(o.catalog.bookLinks, o.book) == ContributorsOf(c.bookLinks, o.book) + Credited(credits)
      && (forall l: Link :: l.owner != o.book ==> (l in o.catalog.bookLinks <==> l in c.bookLinks))
      && if !CodesAbsent(c.isbns, codes) then
           o.catalog == c.(bookLinks := o.catalog.bookLinks) && ByCodes(c, codes) == Some(o.book)
         else
           && |o.catalog.releases| == |c.releases| + 1 && o.catalog.releases[|c.releases|].data.bookId == o.book
           && if credits != [] && exists b: Row<Book> :: IsTitled(c, d, credits, b)
              then o.catalog.books == c.books && exists b: Row<Book> :: IsTitled(c, d, credits, b) && b.id == o.book
              else o.book == c.next && o.catalog.books == c.books + [Row(c.next,
                Book(d.title, if d.description.Some? then d.description.value else "", d.publishedYear))]
  {
    LinksOfBook(c, d, codes, credits);
    if CodesAbsent(c.isbns, codes) {
      NewBook(c, d, codes, credits);
    } else {
      OldBook(c, d, codes, credits);
    }
  }

  // ---------- Idempotence ----------

  lemma CreatedIsFound(c: Catalog, book: Id, d: Detail, codes: seq<Code>, credits: seq<Credit>, code: string)
    requires CatalogOk(c) && book in Keys(c.books) && CreateRelease(c, book, d, codes, credits).Some?
    requires FindIsbn(c.isbns, code).None? && Has(codes, code)
    ensures ByIsbn(CreateRelease(c, book, d, codes, credits).value, code) == Some(book)
  {
    InsertedCodes(c.isbns, c.next + 1, c.next, codes, code);
    GetAppended(c.releases, Row(c.next, NewRelease(book, d)), c.next);
    GetAbsent(c.releases, c.next);
  }

  /** After an import with a valid code, the detail's codes lead to the imported book. */
  lemma FoundAgain(c: Catalog, d: Detail, codes: seq<Code>, credits: seq<Credit>)
    requires CatalogOk(c) && CreditsIn(credits, Keys(c.contributors)) && codes != []
    requires ImportResolved(c, d, codes, credits).Some?
    ensures var o := ImportResolved(c, d, codes, credits).value; ByCodes(o.catalog, codes) == Some(o.book)
  {
    var o := ImportResolved(c, d, codes, credits).value;
    if ByCodes(c, codes).Some? {
      ByCodesSame(c, o.catalog, codes);
    } else {
      ByCodesMeans(c, codes);
      TitledOrNewKeeps(c, d, credits);
      var t := TitledOrNew(c, d, credits).value;
      LinkedKeeps(t.catalog, t.book, credits);
      assert FindIsbn(c.isbns, codes[0].code).None? && Has(codes, codes[0].code);
      CreatedIsFound(Linked(t.catalog, t.book, credits), t.book, d, codes, credits, codes[0].code);
    }
  }

  /** And its book is credited with the detail's contributors. */
  lemma CreditedAlready(c: Catalog, d: Detail, codes: seq<Code>, credits: seq<Credit>)
    requires ImportResolved(c, d, codes, credits).Some?
    ensures var o := ImportResolved(c, d, codes, credits).value; Linked(o.catalog, o.book, credits) == o.catalog
  {
    var o := ImportResolved(c, d, codes, credits).value;
    if ByCodes(c, codes).Some? {
      LinkedTwice(c.bookLinks, o.book, credits);
    } else {
      LinkedTwice(TitledOrNew(c, d, credits).value.catalog.bookLinks, o.book, credits);
    }
  }

  lemma WithoutCodesAddsRelease(c: Catalog, d: Detail, credits: seq<Credit>)
    requires ImportResolved(c, d, [], credits).Some?
    ensures |ImportResolved(c, d, [], credits).value.catalog.releases| == |c.releases| + 1
  {
  }

  /** A second import of a detail finds the same book and leaves the whole catalog as it is exactly when
      the detail has a valid ISBN; without one, each import adds a release. */
  lemma ImportIdempotentIff(env: Env, c: Catalog, d: Detail)
    requires CatalogOk(c) && Import(env, c, d).Some?
    ensures var o := Import(env, c, d).value;
      Import(env, o.catalog, d) == Some(o) <==> Codes(env, d.isbns) != []
  {
    var r, codes := ResolveAll(env, c.contributors, c.next, d.contributors).value, Codes(env, d.isbns);
    var e, o := WithContributors(c, r), Import(env, c, d).value;
    ResolvedKeeps(env, c, d.contributors);
    ImportResolvedKeeps(e, d, codes, r.credits);
    ResolvedAgain(env, c.contributors, c.next, d.contributors, o.catalog.contributors, o.catalog.next);
    assert WithContributors(o.catalog, Resolved(o.catalog.contributors, o.catalog.next, r.credits)) == o.catalog;
    if codes != [] {
      FoundAgain(e, d, codes, r.credits);
      CreditedAlready(e, d, codes, r.credits);
    } else if Import(env, o.catalog, d).Some? {
      WithoutCodesAddsRelease(o.catalog, d, r.credits);
    }
  }

  lemma EmptyIsOk()
    ensures CatalogOk(Catalog([], [], [], [], {}, {}, 0))
  {
  }

  /** A book without ISBNs, imported into an empty catalog and again: the second import adds a release. */
  lemma BookWithoutIsbnTwice(env: Env, title: string)
    requires |title| <= TEXT_LENGTH
    ensures var c, d := Catalog([], [], [], [], {}, {}, 0), Detail(title, None, [], [], 0, None, None, None);
      && Import(env, c, d).Some?
      && Import(env, Import(env, c, d).value.catalog, d) != Import(env, c, d)
  {
    var c, d := Catalog([], [], [], [], {}, {}, 0), Detail(title, None, [], [], 0, None, None, None);
    EmptyIsOk();
    ImportSucceedsIff(env, c, d);
    ImportIdempotentIff(env, c, d);
  }

  // ---------- The service ----------

  class ImportService {
    const env: Env
    var catalog: Catalog

    ghost predicate Valid()
      reads this
    {
      CatalogOk(catalog)
    }

    constructor (env: Env)
      ensures Valid() && this.env == env
    {
      this.env := env;
      catalog := Catalog([], [], [], [], {}, {}, 0);
    }

    method NormalizeIsbns(isbns: seq<ExternalIsbn>) returns (codes: seq<Code>)
      ensures codes == Codes(env, isbns)
    {
      codes := [];
      for i := 0 to |isbns|
        invariant codes == Codes(env, isbns[..i])
      {
        var code := env.normalize(isbns[i].code);
        assert isbns[..i + 1][..i] == isbns[..i];
        if code.Some? {
          codes := codes + [Code(code.value, isbns[i])];
        }
      }
      assert isbns[..|isbns|] == isbns;
    }

    /** _resolve_contributors; None when a contributor cannot be inserted. */
    method ResolveContributors(exts: seq<ExternalContributor>) returns (r: Option<seq<Credit>>)
      modifies this
      ensures var all := ResolveAll(env, old(catalog).contributors, old(catalog).next, exts);
        if all.None? then r.None?
        else r == Some(all.value.credits) && catalog == WithContributors(old(catalog), all.value)
    {
      ghost var before := catalog;
      var credits := [];
      for i := 0 to |exts|
        invariant ResolveAll(env, before.contributors, before.next, exts[..i])
          == Some(Resolved(catalog.contributors, catalog.next, credits))
        invariant catalog == before.(contributors := catalog.contributors, next := catalog.next)
      {
        var ext := exts[i];
        ResolveNext(env, before.contributors, before.next, exts, i);
        ghost var next := ResolveOne(env, Resolved(catalog.contributors, catalog.next, credits), ext);
        assert ResolveAll(env, before.contributors, before.next, exts[..i + 1]) == next;
        var sortName := env.sortName(ext.fullName);
        var found := ByName(catalog.contributors, ext.fullName, sortName);
        if found.Some? {
          credits := credits + [Credit(found.value.id, ext.role)];
        } else {
          var added := NewContributor(catalog.contributors, env.lower, ext.fullName, sortName);
          if added.None? {
            StaysUnresolved(env, before.contributors, before.next, exts, i + 1);
            return None;
          }
          var id := catalog.next;
          catalog := catalog.(contributors := catalog.contributors + [Row(id, added.value)], next := id + 1);
          credits := credits + [Credit(id, ext.role)];
        }
        assert next == Some(Resolved(catalog.contributors, catalog.next, credits));
      }
      assert exts[..|exts|] == exts;
      r := Some(credits);
    }

    method LinkBookContributors(book: Id, credits: seq<Credit>)
      modifies this
      ensures catalog == Linked(old(catalog), book, credits)
    {
      ghost var before := catalog;
      for i := 0 to |credits|
        invariant catalog == Linked(before, book, credits[..i])
      {
        assert credits[..i + 1][..i] == credits[..i];
        if credits[i].contributorId !in ContributorsOf(catalog.bookLinks, book) {
          catalog := catalog.(bookLinks := catalog.bookLinks + {Link(book, credits[i].contributorId, credits[i].role)});
        }
      }
      assert credits[..|credits|] == credits;
    }

    /** _create_release; false when an insert is refused. */
    method CreateReleaseOf(book: Id, d: Detail, codes: seq<Code>, credits: seq<Credit>) returns (ok: bool)
      modifies this
      ensures ok == CreateRelease(old(catalog), book, d, codes, credits).Some?
      ensures ok ==> Some(catalog) == CreateRelease(old(catalog), book, d, codes, credits)
    {
      ghost var before := catalog;
      var release := catalog.next;
      if !ReleaseFits(d) {
        return false;
      }
      catalog := catalog.(releases := catalog.releases + [Row(release, NewRelease(book, d))], next := release + 1);
      for i := 0 to |codes|
        invariant InsertCodes(before.isbns, before.next + 1, release, codes[..i])
          == Some(Coded(catalog.isbns, catalog.next))
        invariant catalog == before.(releases := before.releases + [Row(release, NewRelease(book, d))],
                                     isbns := catalog.isbns, next := catalog.next)
      {
        var x := codes[i];
        assert codes[..i + 1][..i] == codes[..i];
        if !CodeFits(x) || FindIsbn(catalog.isbns, x.code).Some? {
          StaysRefused(before.isbns, before.next + 1, release, codes, i + 1);
          return false;
        }
        catalog := catalog.(
          isbns := catalog.isbns + [Row(catalog.next, Isbn(release, x.code, x.isbn.code, x.isbn.kind))],
          next := catalog.next + 1);
      }
      assert codes[..|codes|] == codes;
      ghost var coded := catalog;
      for i := 0 to |credits|
        invariant catalog == coded.(releaseLinks := LinkAll(before.releaseLinks, release, credits[..i]))
      {
        assert credits[..i + 1][..i] == credits[..i];
        if credits[i].contributorId !in ContributorsOf(catalog.releaseLinks, release) {
          catalog := catalog.(
            releaseLinks := catalog.releaseLinks + {Link(release, credits[i].contributorId, credits[i].role)});
        }
      }
      assert credits[..|credits|] == credits;
      ok := true;
    }

    /** _resolve_book; the book, and whether an ISBN led to it. */
    method ResolveBook(d: Detail, codes: seq<Code>, credits: seq<Credit>) returns (book: Option<Id>, byIsbn: bool)
      modifies this
      ensures byIsbn == ByCodes(old(catalog), codes).Some?
      ensures byIsbn ==> book == ByCodes(old(catalog), codes) && catalog == old(catalog)
      ensures !byIsbn ==> book.Some? == TitledOrNew(old(catalog), d, credits).Some?
      ensures !byIsbn && book.Some? ==> Some(Outcome(catalog, book.value)) == TitledOrNew(old(catalog), d, credits)
    {
      for i := 0 to |codes|
        invariant catalog == old(catalog) && ByCodes(catalog, codes) == ByCodes(catalog, codes[i..])
      {
        book := ByIsbn(catalog, codes[i].code);
        assert codes[i..][1..] == codes[i + 1..];
        if book.Some? {
          return book, true;
        }
      }
      book := ByTitle(catalog, d.title, credits);
      if book.Some? {
        return book, false;
      }
      if |d.title| > TEXT_LENGTH {
        return None, false;
      }
      var id := catalog.next;
      catalog := catalog.(
        books := catalog.books + [Row(id, Book(d.title, OrEmpty(d.description), d.publishedYear))], next := id + 1);
      return Some(id), false;
    }

    /** import_book; a refused insert rolls everything back. */
    method ImportBook(d: Detail) returns (r: Option<Id>)
      requires Valid()
      modifies this
      ensures Valid()
      ensures r.Some? <==> Import(env, old(catalog), d).Some?
      ensures r.Some? ==> Import(env, old(catalog), d) == Some(Outcome(catalog, r.value))
      ensures r.None? ==> catalog == old(catalog)
    {
      var before := catalog;
      if Import(env, catalog, d).Some? {
        ImportKeepsConstraints(env, catalog, d);
      }
      var codes := NormalizeIsbns(d.isbns);
      var credits := ResolveContributors(d.contributors);
      if credits.None? {
        catalog := before;
        return None;
      }
      var book, byIsbn := ResolveBook(d, codes, credits.value);
      if book.None? {
        catalog := before;
        return None;
      }
      LinkBookContributors(book.value, credits.value);
      if !byIsbn {
        var ok := CreateReleaseOf(book.value, d, codes, credits.value);
        if !ok {
          catalog := before;
          return None;
        }
      }
      r := book;
    }
  }

  lemma {:induction false} StaysUnresolved(
    env: Env, t: Table<Contributor>, next: Id, exts: seq<ExternalContributor>, i: nat)
    requires i <= |exts| && ResolveAll(env, t, next, exts[..i]).None?
    ensures ResolveAll(env, t, next, exts).None?
    decreases |exts|
  {
    if i < |exts| {
      assert exts[..|exts| - 1][..i] == exts[..i];
      StaysUnresolved(env, t, next, exts[..|exts| - 1], i);
    } else {
      assert exts[..i] == exts;
    }
  }

  lemma {:induction false} StaysRefused(isbns: Table<Isbn>, next: Id, release: Id, codes: seq<Code>, i: nat)
    requires i <= |codes| && InsertCodes(isbns, next, release, codes[..i]).None?
    ensures InsertCodes(isbns, next, release, codes).None?
    decreases |codes|
  {
    if i < |codes| {
      assert codes[..|codes| - 1][..i] == codes[..i];
      StaysRefused(isbns, next, release, codes[..|codes| - 1], i);
    } else {
      assert codes[..i] == codes;
    }
  }
}
