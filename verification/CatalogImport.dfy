/** Importing a book from an external source: contributors, book, links, then a release with its ISBNs. */
module CatalogImport {
  import opened Sql
  import opened Schema
  import opened Slugs

  datatype ExternalContributor = ExternalContributor(fullName: string, role: Role)

  datatype ExternalIsbn = ExternalIsbn(code: string, kind: int)

  datatype Detail = Detail(
    title: string, description: Option<string>, contributors: seq<ExternalContributor>, isbns: seq<ExternalIsbn>,
    format: int, publisher: Option<string>, publishedYear: Option<int>, language: Option<string>)

  /** normalize_isbn (None for the codes it rejects), str.lower and _sort_name. */
  datatype Env = Env(normalize: string -> Option<string>, lower: string -> string, sortName: string -> string)

  datatype Catalog = Catalog(
    books: Table<Book>, releases: Table<Release>, isbns: Table<Isbn>, contributors: Table<Contributor>,
    bookLinks: set<Link>, releaseLinks: set<Link>, next: Id)

  // The lengths of the text columns.
  const PUBLISHER_LENGTH := TEXT_LENGTH
  const LANGUAGE_LENGTH := 35
  const CODE_LENGTH := 20
  const ORIGINAL_CODE_LENGTH := 32

  // ---------- _normalize_isbns ----------

  datatype Code = Code(code: string, isbn: ExternalIsbn)

  /** The valid codes in order; the others are skipped. */
  function Codes(env: Env, isbns: seq<ExternalIsbn>): seq<Code> {
    if isbns == [] then []
    else
      var last := isbns[|isbns| - 1];
      Codes(env, isbns[..|isbns| - 1])
      + if env.normalize(last.code).Some? then [Code(env.normalize(last.code).value, last)] else []
  }

  // ---------- _resolve_contributors ----------

  predicate IsNamed(c: Contributor, fullName: string, sortName: string) {
    c.fullName == fullName && c.sortName == sortName
  }

  /** get_by_name. */
  function ByName(t: Table<Contributor>, fullName: string, sortName: string): (r: Option<Row<Contributor>>)
    ensures r.Some? ==> r.value in t && IsNamed(r.value.data, fullName, sortName)
  {
    if t == [] then None
    else if IsNamed(t[0].data, fullName, sortName) then Some(t[0])
    else ByName(t[1..], fullName, sortName)
  }

  /** get_by_name finds a contributor whenever there is one of both names. */
  lemma {:induction false} ByNameIff(t: Table<Contributor>, fullName: string, sortName: string)
    ensures ByName(t, fullName, sortName).Some? <==>
      exists r :: r in t && r.data.fullName == fullName && r.data.sortName == sortName
  {
    if t != [] && !IsNamed(t[0].data, fullName, sortName) {
      ByNameIff(t[1..], fullName, sortName);
      assert forall r :: r in t <==> r == t[0] || r in t[1..];
    } else if t != [] {
      assert t[0] in t;
    }
  }

  datatype Credit = Credit(contributorId: Id, role: Role)

  datatype Resolved = Resolved(contributors: Table<Contributor>, next: Id, credits: seq<Credit>)

  function ResolveOne(env: Env, r: Resolved, ext: ExternalContributor): Option<Resolved> {
    var found := ByName(r.contributors, ext.fullName, env.sortName(ext.fullName));
    if found.Some? then Some(r.(credits := r.credits + [Credit(found.value.id, ext.role)]))
    else
      var added := NewContributor(r.contributors, env.lower, ext.fullName, env.sortName(ext.fullName));
      if added.None? then None
      else
        Some(Resolved(r.contributors + [Row(r.next, added.value)], r.next + 1, r.credits + [Credit(r.next, ext.role)]))
  }

  function ResolveAll(env: Env, t: Table<Contributor>, next: Id, exts: seq<ExternalContributor>): Option<Resolved> {
    if exts == [] then Some(Resolved(t, next, []))
    else
      var r := ResolveAll(env, t, next, exts[..|exts| - 1]);
      if r.None? then None else ResolveOne(env, r.value, exts[|exts| - 1])
  }

  lemma ResolveNext(env: Env, t: Table<Contributor>, next: Id, exts: seq<ExternalContributor>, i: nat)
    requires i < |exts|
    ensures var r := ResolveAll(env, t, next, exts[..i]);
      ResolveAll(env, t, next, exts[..i + 1]) == if r.None? then None else ResolveOne(env, r.value, exts[i])
  {
    assert exts[..i + 1][..i] == exts[..i];
  }

  // ---------- _resolve_book ----------

  function FindIsbn(isbns: Table<Isbn>, code: string): (r: Option<Row<Isbn>>)
    ensures r.Some? ==> r.value in isbns && r.value.data.codeNormalized == code
    ensures r.None? ==> forall i :: 0 <= i < |isbns| ==> isbns[i].data.codeNormalized != code
  {
    if isbns == [] then None
    else if isbns[0].data.codeNormalized == code then Some(isbns[0])
    else FindIsbn(isbns[1..], code)
  }

  /** get_by_isbn: the book of the release of the code. */
  function ByIsbn(c: Catalog, code: string): Option<Id> {
    var i := FindIsbn(c.isbns, code);
    if i.None? then None
    else
      var r := Get(c.releases, i.value.data.releaseId);
      if r.None? || r.value.data.bookId !in Keys(c.books) then None else Some(r.value.data.bookId)
  }

  /** The first code of the detail that the catalog has. */
  function ByCodes(c: Catalog, codes: seq<Code>): Option<Id> {
    if codes == [] then None
    else if ByIsbn(c, codes[0].code).Some? then ByIsbn(c, codes[0].code)
    else ByCodes(c, codes[1..])
  }

  function ContributorsOf(links: set<Link>, owner: Id): set<Id> {
    set l | l in links && l.owner == owner :: l.contributorId
  }

  function Credited(credits: seq<Credit>): set<Id> {
    set x | x in credits :: x.contributorId
  }

  function FirstTitled(books: Table<Book>, links: set<Link>, title: string, ids: set<Id>): (r: Option<Id>)
    ensures r.Some? ==> r.value in Keys(books) && ContributorsOf(links, r.value) == ids
    ensures r.Some? ==> exists b :: b in books && b.data.title == title && b.id == r.value
    ensures r.None? ==>
      forall i :: 0 <= i < |books| && books[i].data.title == title ==> ContributorsOf(links, books[i].id) != ids
  {
    if books == [] then None
    else if books[0].data.title == title && ContributorsOf(links, books[0].id) == ids then Some(books[0].id)
    else FirstTitled(books[1..], links, title, ids)
  }

  /** find_book_by_title_and_contributors. */
  function ByTitle(c: Catalog, title: string, credits: seq<Credit>): Option<Id> {
    if credits == [] then None else FirstTitled(c.books, c.bookLinks, title, Credited(credits))
  }

  // ---------- Links and release ----------

  /** A contributor already linked, in whatever role, is not linked again. */
  function LinkOne(links: set<Link>, owner: Id, x: Credit): set<Link> {
    if x.contributorId in ContributorsOf(links, owner) then links else links + {Link(owner, x.contributorId, x.role)}
  }

  function LinkAll(links: set<Link>, owner: Id, credits: seq<Credit>): set<Link> {
    if credits == [] then links
    else LinkOne(LinkAll(links, owner, credits[..|credits| - 1]), owner, credits[|credits| - 1])
  }

  function OrEmpty(s: Option<string>): string {
    if s.Some? then s.value else ""
  }

  function NewRelease(book: Id, d: Detail): Release {
    Release(book, d.format, OrEmpty(d.publisher), d.publishedYear, OrEmpty(d.language))
  }

  predicate ReleaseFits(d: Detail) {
    |OrEmpty(d.publisher)| <= PUBLISHER_LENGTH && |OrEmpty(d.language)| <= LANGUAGE_LENGTH
  }

  predicate CodeFits(x: Code) {
    |x.code| <= CODE_LENGTH && |x.isbn.code| <= ORIGINAL_CODE_LENGTH
  }

  datatype Coded = Coded(isbns: Table<Isbn>, next: Id)

  /** Inserts, the codes being unique; the first that is refused fails the import. */
  function InsertCodes(isbns: Table<Isbn>, next: Id, release: Id, codes: seq<Code>): Option<Coded> {
    if codes == [] then Some(Coded(isbns, next))
    else
      var r, x := InsertCodes(isbns, next, release, codes[..|codes| - 1]), codes[|codes| - 1];
      if r.None? || !CodeFits(x) || FindIsbn(r.value.isbns, x.code).Some? then None
      else
        var row := Row(r.value.next, Isbn(release, x.code, x.isbn.code, x.isbn.kind));
        Some(Coded(r.value.isbns + [row], r.value.next + 1))
  }

  /** _create_release. */
  function CreateRelease(c: Catalog, book: Id, d: Detail, codes: seq<Code>, credits: seq<Credit>): Option<Catalog> {
    if !ReleaseFits(d) then None
    else
      var coded := InsertCodes(c.isbns, c.next + 1, c.next, codes);
      if coded.None? then None
      else Some(c.(
        releases := c.releases + [Row(c.next, NewRelease(book, d))],
        isbns := coded.value.isbns,
        releaseLinks := LinkAll(c.releaseLinks, c.next, credits),
        next := coded.value.next))
  }

  // ---------- import_book ----------

  datatype Outcome = Outcome(catalog: Catalog, book: Id)

  /** The book found by title and contributors, or a new one. */
  function TitledOrNew(c: Catalog, d: Detail, credits: seq<Credit>): Option<Outcome> {
    var book := ByTitle(c, d.title, credits);
    if book.Some? then Some(Outcome(c, book.value))
    else if |d.title| > TEXT_LENGTH then None
    else Some(Outcome(
      c.(books := c.books + [Row(c.next, Book(d.title, OrEmpty(d.description), d.publishedYear))], next := c.next + 1),
      c.next))
  }

  function Linked(c: Catalog, book: Id, credits: seq<Credit>): Catalog {
    c.(bookLinks := LinkAll(c.bookLinks, book, credits))
  }

  function WithContributors(c: Catalog, r: Resolved): Catalog {
    c.(contributors := r.contributors, next := r.next)
  }

  /** The import of a detail whose contributors are resolved. */
  function ImportResolved(c: Catalog, d: Detail, codes: seq<Code>, credits: seq<Credit>): Option<Outcome> {
    var found := ByCodes(c, codes);
    if found.Some? then Some(Outcome(Linked(c, found.value, credits), found.value))
    else
      var book := TitledOrNew(c, d, credits);
      if book.None? then None
      else
        var linked := Linked(book.value.catalog, book.value.book, credits);
        var done := CreateRelease(linked, book.value.book, d, codes, credits);
        if done.None? then None else Some(Outcome(done.value, book.value.book))
  }

  function Import(env: Env, c: Catalog, d: Detail): Option<Outcome> {
    var r := ResolveAll(env, c.contributors, c.next, d.contributors);
    if r.None? then None
    else ImportResolved(WithContributors(c, r.value), d, Codes(env, d.isbns), r.value.credits)
  }

  // ---------- The constraints ----------

  ghost predicate CatalogOk(c: Catalog) {
    && KeysBelow(c.books, c.next) && KeysBelow(c.releases, c.next)
    && KeysBelow(c.isbns, c.next) && KeysBelow(c.contributors, c.next)
    && BooksOk(c.books)
    && ReleasesOk(Keys(c.books), c.releases)
    && IsbnsOk(Keys(c.releases), c.isbns)
    && ContributorsOk(c.contributors)
    && LinksOk(Keys(c.books), Keys(c.contributors), c.bookLinks)
    && LinksOk(Keys(c.releases), Keys(c.contributors), c.releaseLinks)
  }

  lemma LinksGrow(owners: set<Id>, owners': set<Id>, contributors: set<Id>, contributors': set<Id>, links: set<Link>)
    requires LinksOk(owners, contributors, links) && owners <= owners' && contributors <= contributors'
    ensures LinksOk(owners', contributors', links)
  {
  }

  // ---------- Resolving keeps the table, and finds the same again ----------

  ghost predicate CreditsIn(credits: seq<Credit>, contributors: set<Id>) {
    forall i :: 0 <= i < |credits| ==> credits[i].contributorId in contributors
  }

  lemma ResolveOneKeeps(env: Env, r: Resolved, ext: ExternalContributor)
    requires KeysBelow(r.contributors, r.next) && ContributorsOk(r.contributors)
    requires CreditsIn(r.credits, Keys(r.contributors)) && ResolveOne(env, r, ext).Some?
    ensures var q := ResolveOne(env, r, ext).value;
      && KeysBelow(q.contributors, q.next) && ContributorsOk(q.contributors)
      && CreditsIn(q.credits, Keys(q.contributors))
      && r.contributors <= q.contributors && r.next <= q.next && Keys(r.contributors) <= Keys(q.contributors)
  {
    var found := ByName(r.contributors, ext.fullName, env.sortName(ext.fullName));
    if found.None? {
      var added := NewContributor(r.contributors, env.lower, ext.fullName, env.sortName(ext.fullName));
      AddedStaysUnique(r.contributors, Row(r.next, added.value));
      KeysOfAppended(r.contributors, Row(r.next, added.value));
    }
  }

  lemma {:induction false} ResolveKeeps(env: Env, t: Table<Contributor>, next: Id, exts: seq<ExternalContributor>)
    requires KeysBelow(t, next) && ContributorsOk(t) && ResolveAll(env, t, next, exts).Some?
    ensures var q := ResolveAll(env, t, next, exts).value;
      && KeysBelow(q.contributors, q.next) && ContributorsOk(q.contributors)
      && CreditsIn(q.credits, Keys(q.contributors))
      && t <= q.contributors && next <= q.next && Keys(t) <= Keys(q.contributors)
  {
    if exts != [] {
      ResolveKeeps(env, t, next, exts[..|exts| - 1]);
      ResolveOneKeeps(env, ResolveAll(env, t, next, exts[..|exts| - 1]).value, exts[|exts| - 1]);
    }
  }

  lemma {:induction false} ByNameStable(
    t: Table<Contributor>, u: Table<Contributor>, fullName: string, sortName: string)
    requires t <= u && ByName(t, fullName, sortName).Some?
    ensures ByName(u, fullName, sortName) == ByName(t, fullName, sortName)
  {
    if !IsNamed(t[0].data, fullName, sortName) {
      ByNameStable(t[1..], u[1..], fullName, sortName);
    }
  }

  lemma {:induction false} ByNameAppended(
    t: Table<Contributor>, r: Row<Contributor>, fullName: string, sortName: string)
    requires ByName(t, fullName, sortName).None? && IsNamed(r.data, fullName, sortName)
    ensures ByName(t + [r], fullName, sortName) == Some(r)
  {
    if t != [] {
      assert (t + [r])[1..] == t[1..] + [r];
      ByNameAppended(t[1..], r, fullName, sortName);
    }
  }

  lemma LastCredit(env: Env, r: Resolved, ext: ExternalContributor)
    requires ResolveOne(env, r, ext).Some?
    ensures var q := ResolveOne(env, r, ext).value;
      var found := ByName(q.contributors, ext.fullName, env.sortName(ext.fullName));
      r.contributors <= q.contributors && found.Some? && q.credits == r.credits + [Credit(found.value.id, ext.role)]
  {
    if ByName(r.contributors, ext.fullName, env.sortName(ext.fullName)).None? {
      var added := NewContributor(r.contributors, env.lower, ext.fullName, env.sortName(ext.fullName)).value;
      ByNameAppended(r.contributors, Row(r.next, added), ext.fullName, env.sortName(ext.fullName));
    }
  }

  // ---------- When contributors can be added ----------

  predicate ListedBefore(exts: seq<ExternalContributor>, n: nat, name: string)
    requires n <= |exts|
  {
    exists j :: 0 <= j < n && exts[j].fullName == name
  }

  /** The name at index i has to be added: the table has no contributor of that name, and it is not listed before. */
  predicate IsNew(env: Env, t: Table<Contributor>, exts: seq<ExternalContributor>, i: nat)
    requires i < |exts|
  {
    ByName(t, exts[i].fullName, env.sortName(exts[i].fullName)).None? && !ListedBefore(exts, i, exts[i].fullName)
  }

  /** The slugs in use once the first n names are in the table. */
  function SlugsUpTo(env: Env, t: Table<Contributor>, exts: seq<ExternalContributor>, n: nat): set<string>
    requires n <= |exts|
  {
    if n == 0 then SlugsOf(t)
    else
      var slugs := SlugsUpTo(env, t, exts, n - 1);
      slugs + if IsNew(env, t, exts, n - 1) then {FreeSlug(slugs, Slugify(env.lower, exts[n - 1].fullName))} else {}
  }

  /** The columns of the name at index i are wide enough for it. */
  predicate NameFits(env: Env, t: Table<Contributor>, exts: seq<ExternalContributor>, i: nat)
    requires i < |exts|
  {
    IsNew(env, t, exts, i) ==>
      && |exts[i].fullName| <= MAX_LENGTH && |env.sortName(exts[i].fullName)| <= MAX_LENGTH
      && |FreeSlug(SlugsUpTo(env, t, exts, i), Slugify(env.lower, exts[i].fullName))| <= MAX_LENGTH
  }

  ghost predicate NamesFit(env: Env, t: Table<Contributor>, exts: seq<ExternalContributor>) {
    forall i :: 0 <= i < |exts| ==> NameFits(env, t, exts, i)
  }

  /** The table after resolving n names: its slugs, and the names in it. */
  ghost predicate ResolvedTo(
    env: Env, t: Table<Contributor>, exts: seq<ExternalContributor>, n: nat, u: Table<Contributor>)
    requires n <= |exts|
  {
    SlugsOf(u) == SlugsUpTo(env, t, exts, n) && forall name :: HasName(env, u, name) <==> NamedBy(env, t, exts, n, name)
  }

  predicate HasName(env: Env, t: Table<Contributor>, name: string) {
    ByName(t, name, env.sortName(name)).Some?
  }

  predicate NamedBy(env: Env, t: Table<Contributor>, exts: seq<ExternalContributor>, n: nat, name: string)
    requires n <= |exts|
  {
    HasName(env, t, name) || ListedBefore(exts, n, name)
  }

  lemma AppendedSlugs(t: Table<Contributor>, r: Row<Contributor>)
    ensures SlugsOf(t + [r]) == SlugsOf(t) + {r.data.slug}
  {
    assert forall x :: x in t + [r] <==> x in t || x == r;
    forall s ensures s in SlugsOf(t + [r]) <==> s in SlugsOf(t) || s == r.data.slug {
      if s in SlugsOf(t) {
        var x :| x in t && x.data.slug == s;
        assert x in t + [r];
      }
      if s == r.data.slug {
        assert r in t + [r];
      }
    }
  }

  lemma {:induction false} ByNameAfterAppend(
    t: Table<Contributor>, r: Row<Contributor>, fullName: string, sortName: string)
    ensures ByName(t + [r], fullName, sortName).Some?
      <==> ByName(t, fullName, sortName).Some? || IsNamed(r.data, fullName, sortName)
  {
    if t == [] {
      assert (t + [r])[0] == r && (t + [r])[1..] == [];
    } else {
      assert (t + [r])[1..] == t[1..] + [r];
      ByNameAfterAppend(t[1..], r, fullName, sortName);
    }
  }

  lemma ListedNext(exts: seq<ExternalContributor>, n: nat, name: string)
    requires n < |exts|
    ensures ListedBefore(exts, n + 1, name) <==> ListedBefore(exts, n, name) || exts[n].fullName == name
  {
  }

  lemma NameFoundNext(
    env: Env, t: Table<Contributor>, exts: seq<ExternalContributor>, n: nat, u: Table<Contributor>, x: string)
    requires n < |exts| && HasName(env, u, exts[n].fullName)
    requires HasName(env, u, x) <==> NamedBy(env, t, exts, n, x)
    ensures HasName(env, u, x) <==> NamedBy(env, t, exts, n + 1, x)
  {
    ListedNext(exts, n, x);
  }

  lemma NameAddedNext(
    env: Env, t: Table<Contributor>, exts: seq<ExternalContributor>, n: nat, u: Table<Contributor>,
    r: Row<Contributor>, x: string)
    requires n < |exts| && IsNamed(r.data, exts[n].fullName, env.sortName(exts[n].fullName))
    requires HasName(env, u, x) <==> NamedBy(env, t, exts, n, x)
    ensures HasName(env, u + [r], x) <==> NamedBy(env, t, exts, n + 1, x)
  {
    ListedNext(exts, n, x);
    ByNameAfterAppend(u, r, x, env.sortName(x));
  }

  /** One more name: it is found exactly when it is not new, and otherwise added exactly when it fits. */
  lemma ResolvesNextIff(env: Env, t: Table<Contributor>, exts: seq<ExternalContributor>, n: nat, r: Resolved)
    requires n < |exts| && ResolvedTo(env, t, exts, n, r.contributors)
    ensures ResolveOne(env, r, exts[n]).Some? <==> NameFits(env, t, exts, n)
    ensures ResolveOne(env, r, exts[n]).Some?
      ==> ResolvedTo(env, t, exts, n + 1, ResolveOne(env, r, exts[n]).value.contributors)
  {
    var name := exts[n].fullName;
    var found := ByName(r.contributors, name, env.sortName(name));
    assert HasName(env, r.contributors, name) <==> NamedBy(env, t, exts, n, name);
    var added := NewContributor(r.contributors, env.lower, name, env.sortName(name));
    if found.None? && added.Some? {
      AppendedSlugs(r.contributors, Row(r.next, added.value));
    }
    if ResolveOne(env, r, exts[n]).Some? {
      var u := ResolveOne(env, r, exts[n]).value.contributors;
      forall x ensures HasName(env, u, x) <==> NamedBy(env, t, exts, n + 1, x) {
        if found.Some? {
          NameFoundNext(env, t, exts, n, u, x);
        } else {
          NameAddedNext(env, t, exts, n, r.contributors, Row(r.next, added.value), x);
        }
      }
    }
  }

  ghost predicate NamesFitUpTo(env: Env, t: Table<Contributor>, exts: seq<ExternalContributor>, n: nat)
    requires n <= |exts|
  {
    forall i :: 0 <= i < n ==> NameFits(env, t, exts, i)
  }

  lemma FitsUpToNext(env: Env, t: Table<Contributor>, exts: seq<ExternalContributor>, n: nat)
    requires n < |exts|
    ensures NamesFitUpTo(env, t, exts, n + 1) <==> NamesFitUpTo(env, t, exts, n) && NameFits(env, t, exts, n)
  {
  }

  /** The contributors of a detail can be resolved exactly when each name that has to be added, and the slug it
      gets, fits its column. */
  lemma {:induction false} ResolvesIff(
    env: Env, t: Table<Contributor>, next: Id, exts: seq<ExternalContributor>, n: nat, r: Option<Resolved>)
    requires n <= |exts| && r == ResolveAll(env, t, next, exts[..n])
    ensures r.Some? <==> NamesFitUpTo(env, t, exts, n)
    ensures r.Some? ==> ResolvedTo(env, t, exts, n, r.value.contributors)
  {
    if n > 0 {
      var q := ResolveAll(env, t, next, exts[..n - 1]);
      ResolvesIff(env, t, next, exts, n - 1, q);
      ResolveNext(env, t, next, exts, n - 1);
      if q.Some? {
        ResolvesNextIff(env, t, exts, n - 1, q.value);
      }
      FitsUpToNext(env, t, exts, n - 1);
    }
  }

  lemma ResolvesAllIff(env: Env, t: Table<Contributor>, next: Id, exts: seq<ExternalContributor>)
    ensures ResolveAll(env, t, next, exts).Some? <==> NamesFit(env, t, exts)
  {
    assert exts[..|exts|] == exts;
    ResolvesIff(env, t, next, exts, |exts|, ResolveAll(env, t, next, exts));
  }

  /** A contributor of that name is credited in that role. */
  ghost predicate Credits(t: Table<Contributor>, x: Credit, ext: ExternalContributor, sortName: string) {
    x.role == ext.role && exists r :: r in t && r.id == x.contributorId && IsNamed(r.data, ext.fullName, sortName)
  }

  /** Each listed contributor has one credit, in order, to a contributor of that name. */
  ghost predicate AllCredited(env: Env, t: Table<Contributor>, credits: seq<Credit>, exts: seq<ExternalContributor>) {
    && |credits| == |exts|
    && forall i :: 0 <= i < |exts| ==> Credits(t, credits[i], exts[i], env.sortName(exts[i].fullName))
  }

  lemma CreditedNext(
    env: Env, t: Table<Contributor>, u: Table<Contributor>, credits: seq<Credit>, exts: seq<ExternalContributor>,
    x: Credit, ext: ExternalContributor)
    requires t <= u && AllCredited(env, t, credits, exts) && Credits(u, x, ext, env.sortName(ext.fullName))
    ensures AllCredited(env, u, credits + [x], exts + [ext])
  {
    forall i | 0 <= i < |exts| ensures Credits(u, credits[i], exts[i], env.sortName(exts[i].fullName)) {
      CreditsStay(t, u, credits[i], exts[i], env.sortName(exts[i].fullName));
    }
  }

  lemma LastCredited(env: Env, r: Resolved, ext: ExternalContributor)
    requires ResolveOne(env, r, ext).Some?
    ensures var q := ResolveOne(env, r, ext).value;
      && r.contributors <= q.contributors && |q.credits| == |r.credits| + 1
      && q.credits == r.credits + [q.credits[|r.credits|]]
      && Credits(q.contributors, q.credits[|r.credits|], ext, env.sortName(ext.fullName))
  {
    LastCredit(env, r, ext);
  }

  lemma OneMoreCredited(env: Env, r: Resolved, q: Resolved, front: seq<ExternalContributor>, last: ExternalContributor)
    requires ResolveOne(env, r, last) == Some(q) && AllCredited(env, r.contributors, r.credits, front)
    ensures AllCredited(env, q.contributors, q.credits, front + [last])
  {
    LastCredited(env, r, last);
    CreditedNext(env, r.contributors, q.contributors, r.credits, front, q.credits[|front|], last);
  }

  /** Resolving credits each listed contributor. */
  lemma {:induction false} ResolvedCredits(env: Env, t: Table<Contributor>, next: Id, exts: seq<ExternalContributor>)
    requires ResolveAll(env, t, next, exts).Some?
    ensures var q := ResolveAll(env, t, next, exts).value;
      AllCredited(env, q.contributors, q.credits, exts)
  {
    if exts != [] {
      var front, last := exts[..|exts| - 1], exts[|exts| - 1];
      var r, q := ResolveAll(env, t, next, front).value, ResolveAll(env, t, next, exts).value;
      ResolvedCredits(env, t, next, front);
      OneMoreCredited(env, r, q, front, last);
      assert exts == front + [last];
    }
  }

  lemma CreditsStay(t: Table<Contributor>, u: Table<Contributor>, x: Credit, ext: ExternalContributor, sortName: string)
    requires t <= u && Credits(t, x, ext, sortName)
    ensures Credits(u, x, ext, sortName)
  {
    assert forall r :: r in t ==> r in u;
  }

  /** Resolved once, the same names resolve to the same contributors in any later table, which stays as it is. */
  lemma {:induction false} ResolvedAgain(
    env: Env, t: Table<Contributor>, next: Id, exts: seq<ExternalContributor>, u: Table<Contributor>, later: Id)
    requires ResolveAll(env, t, next, exts).Some? && ResolveAll(env, t, next, exts).value.contributors <= u
    ensures ResolveAll(env, u, later, exts) == Some(Resolved(u, later, ResolveAll(env, t, next, exts).value.credits))
  {
    if exts != [] {
      var front, last := exts[..|exts| - 1], exts[|exts| - 1];
      var r := ResolveAll(env, t, next, front).value;
      LastCredit(env, r, last);
      ResolvedAgain(env, t, next, front, u, later);
      ByNameStable(ResolveOne(env, r, last).value.contributors, u, last.fullName, env.sortName(last.fullName));
    }
  }

  // ---------- Links ----------

  lemma LinkOneFacts(links: set<Link>, owner: Id, x: Credit, owners: set<Id>, contributors: set<Id>)
    ensures links <= LinkOne(links, owner, x)
    ensures ContributorsOf(LinkOne(links, owner, x), owner) == ContributorsOf(links, owner) + {x.contributorId}
    ensures LinksOk(owners, contributors, links) && owner in owners && x.contributorId in contributors
      ==> LinksOk(owners, contributors, LinkOne(links, owner, x))
  {
    var more := LinkOne(links, owner, x);
    var l := Link(owner, x.contributorId, x.role);
    forall id ensures id in ContributorsOf(more, owner) <==> id in ContributorsOf(links, owner) + {x.contributorId} {
      if id == x.contributorId && id !in ContributorsOf(links, owner) { assert l in more && l.contributorId == id; }
      if id in ContributorsOf(links, owner) {
        var k :| k in links && k.owner == owner && k.contributorId == id;
        assert k in more;
      }
    }
  }

  lemma CreditedSnoc(credits: seq<Credit>)
    requires credits != []
    ensures Credited(credits) == Credited(credits[..|credits| - 1]) + {credits[|credits| - 1].contributorId}
  {
    var front, last := credits[..|credits| - 1], credits[|credits| - 1];
    assert forall x :: x in credits <==> x in front || x == last;
    forall id ensures id in Credited(credits) <==> id in Credited(front) + {last.contributorId} {
      if id == last.contributorId { assert last in credits; }
      if id in Credited(front) {
        var x :| x in front && x.contributorId == id;
        assert x in credits;
      }
    }
  }

  /** After linking, the owner's contributors are those it had and those credited. */
  lemma {:induction false} LinkAllFacts(
    links: set<Link>, owner: Id, credits: seq<Credit>, owners: set<Id>, contributors: set<Id>)
    ensures links <= LinkAll(links, owner, credits)
    ensures ContributorsOf(LinkAll(links, owner, credits), owner) == ContributorsOf(links, owner) + Credited(credits)
    ensures LinksOk(owners, contributors, links) && owner in owners && CreditsIn(credits, contributors)
      ==> LinksOk(owners, contributors, LinkAll(links, owner, credits))
  {
    if credits != [] {
      var front, last := credits[..|credits| - 1], credits[|credits| - 1];
      LinkAllFacts(links, owner, front, owners, contributors);
      LinkOneFacts(LinkAll(links, owner, front), owner, last, owners, contributors);
      CreditedSnoc(credits);
    }
  }

  /** A new link is one of the credits, with its role. */
  lemma {:induction false} LinksAreCredits(links: set<Link>, owner: Id, credits: seq<Credit>)
    ensures forall l :: l in LinkAll(links, owner, credits) && l !in links ==>
      l.owner == owner && Credit(l.contributorId, l.role) in credits
  {
    if credits != [] {
      LinksAreCredits(links, owner, credits[..|credits| - 1]);
    }
  }

  /** Contributors linked already are not linked again. */
  lemma {:induction false} LinkedAlready(links: set<Link>, owner: Id, credits: seq<Credit>)
    requires Credited(credits) <= ContributorsOf(links, owner)
    ensures LinkAll(links, owner, credits) == links
  {
    if credits != [] {
      CreditedSnoc(credits);
      LinkedAlready(links, owner, credits[..|credits| - 1]);
    }
  }

  lemma LinkedTwice(links: set<Link>, owner: Id, credits: seq<Credit>)
    ensures LinkAll(LinkAll(links, owner, credits), owner, credits) == LinkAll(links, owner, credits)
  {
    LinkAllFacts(links, owner, credits, {}, {});
    LinkedAlready(LinkAll(links, owner, credits), owner, credits);
  }

  // ---------- Codes ----------

  ghost predicate DistinctCodes(codes: seq<Code>) {
    forall i, j :: 0 <= i < j < |codes| ==> codes[i].code != codes[j].code
  }

  ghost predicate CodesFit(codes: seq<Code>) {
    forall i :: 0 <= i < |codes| ==> CodeFits(codes[i])
  }

  ghost predicate CodesAbsent(isbns: Table<Isbn>, codes: seq<Code>) {
    forall i :: 0 <= i < |codes| ==> FindIsbn(isbns, codes[i].code).None?
  }

  lemma {:induction false} FindAppended(isbns: Table<Isbn>, r: Row<Isbn>, code: string)
    ensures FindIsbn(isbns + [r], code)
      == if FindIsbn(isbns, code).Some? then FindIsbn(isbns, code)
        else if r.data.codeNormalized == code then Some(r)
        else None
  {
    if isbns != [] {
      assert (isbns + [r])[1..] == isbns[1..] + [r];
      FindAppended(isbns[1..], r, code);
    }
  }

  lemma CodesFront(isbns: Table<Isbn>, codes: seq<Code>)
    requires codes != []
    ensures DistinctCodes(codes) ==> DistinctCodes(codes[..|codes| - 1])
    ensures CodesFit(codes) <==> CodesFit(codes[..|codes| - 1]) && CodeFits(codes[|codes| - 1])
    ensures CodesAbsent(isbns, codes) ==>
      CodesAbsent(isbns, codes[..|codes| - 1]) && FindIsbn(isbns, codes[|codes| - 1].code).None?
  {
    var front := codes[..|codes| - 1];
    assert forall i :: 0 <= i < |front| ==> front[i] == codes[i];
  }

  /** A code is in the table after the inserts when it was before or is one of theirs. */
  predicate Has(codes: seq<Code>, code: string) {
    exists i :: 0 <= i < |codes| && codes[i].code == code
  }

  lemma HasSnoc(codes: seq<Code>, code: string)
    requires codes != []
    ensures Has(codes, code) <==> Has(codes[..|codes| - 1], code) || codes[|codes| - 1].code == code
  {
    var front := codes[..|codes| - 1];
    if Has(front, code) {
      var i :| 0 <= i < |front| && front[i].code == code;
      assert codes[i].code == code;
    }
    if Has(codes, code) {
      var i :| 0 <= i < |codes| && codes[i].code == code;
      assert i < |front| ==> front[i].code == code;
    }
  }

  lemma {:induction false} InsertedCodes(isbns: Table<Isbn>, next: Id, release: Id, codes: seq<Code>, code: string)
    requires InsertCodes(isbns, next, release, codes).Some?
    ensures var r := FindIsbn(InsertCodes(isbns, next, release, codes).value.isbns, code);
      if FindIsbn(isbns, code).Some? then r == FindIsbn(isbns, code)
      else if Has(codes, code) then r.Some? && r.value.data.releaseId == release
      else r.None?
  {
    if codes != [] {
      var front, x := codes[..|codes| - 1], codes[|codes| - 1];
      InsertedCodes(isbns, next, release, front, code);
      var r := InsertCodes(isbns, next, release, front).value;
      FindAppended(r.isbns, Row(r.next, Isbn(release, x.code, x.isbn.code, x.isbn.kind)), code);
      HasSnoc(codes, code);
    }
  }

  /** None of the codes being in the catalog, they can all be inserted exactly when they fit their
      columns and are pairwise distinct. */
  lemma {:induction false} InsertSucceedsIff(isbns: Table<Isbn>, next: Id, release: Id, codes: seq<Code>)
    requires CodesAbsent(isbns, codes)
    ensures InsertCodes(isbns, next, release, codes).Some? <==> CodesFit(codes) && DistinctCodes(codes)
  {
    if codes != [] {
      var front, x := codes[..|codes| - 1], codes[|codes| - 1];
      CodesFront(isbns, codes);
      InsertSucceedsIff(isbns, next, release, front);
      if InsertCodes(isbns, next, release, front).Some? {
        InsertedCodes(isbns, next, release, front, x.code);
        DistinctSnoc(codes);
      }
    }
  }

  lemma DistinctSnoc(codes: seq<Code>)
    requires codes != []
    ensures DistinctCodes(codes)
      <==> DistinctCodes(codes[..|codes| - 1]) && !Has(codes[..|codes| - 1], codes[|codes| - 1].code)
  {
    var front, x := codes[..|codes| - 1], codes[|codes| - 1];
    if DistinctCodes(front) && !Has(front, x.code) {
      forall i, j | 0 <= i < j < |codes| ensures codes[i].code != codes[j].code {
        assert codes[i] == front[i];
      }
    }
    if Has(front, x.code) {
      var i :| 0 <= i < |front| && front[i].code == x.code;
      assert codes[i].code == codes[|codes| - 1].code;
    }
  }

  lemma {:induction false} InsertKeeps(releases: set<Id>, isbns: Table<Isbn>, next: Id, release: Id, codes: seq<Code>)
    requires KeysBelow(isbns, next) && IsbnsOk(releases, isbns) && release in releases
    requires InsertCodes(isbns, next, release, codes).Some?
    ensures var r := InsertCodes(isbns, next, release, codes).value;
      KeysBelow(r.isbns, r.next) && IsbnsOk(releases, r.isbns) && isbns <= r.isbns && next <= r.next
  {
    if codes != [] {
      var front, x := codes[..|codes| - 1], codes[|codes| - 1];
      InsertKeeps(releases, isbns, next, release, front);
      var r := InsertCodes(isbns, next, release, front).value;
      CodeAdded(releases, r.isbns, Row(r.next, Isbn(release, x.code, x.isbn.code, x.isbn.kind)));
    }
  }

  /** One row per code, in order, with the code as given and as normalised. */
  lemma {:induction false} InsertedRows(isbns: Table<Isbn>, next: Id, release: Id, codes: seq<Code>)
    requires InsertCodes(isbns, next, release, codes).Some?
    ensures var r := InsertCodes(isbns, next, release, codes).value.isbns;
      && isbns <= r && |r| == |isbns| + |codes|
      && forall i :: 0 <= i < |codes| ==>
        r[|isbns| + i].data == Isbn(release, codes[i].code, codes[i].isbn.code, codes[i].isbn.kind)
  {
    if codes != [] {
      InsertedRows(isbns, next, release, codes[..|codes| - 1]);
    }
  }

  lemma CodeAdded(releases: set<Id>, isbns: Table<Isbn>, r: Row<Isbn>)
    requires KeysBelow(isbns, r.id) && IsbnsOk(releases, isbns) && r.data.releaseId in releases
    requires FindIsbn(isbns, r.data.codeNormalized).None?
    ensures KeysBelow(isbns + [r], r.id + 1) && IsbnsOk(releases, isbns + [r])
  {
    assert forall x :: x in isbns + [r] <==> x in isbns || x == r;
    forall x | x in isbns ensures x.data.codeNormalized != r.data.codeNormalized {
      var i :| 0 <= i < |isbns| && isbns[i] == x;
    }
  }
}
