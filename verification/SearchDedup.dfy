/** Deduplication of search hits from several sources: by shared ISBN, else by fuzzy title and authors. */
module SearchDedup {
  datatype Hit = Hit(source: string, sourceId: string, title: string, isbns: seq<string>, authors: seq<string>)

  /** The test `ratio > 0.8` between a new text and one already seen; not assumed symmetric or transitive. */
  type Similarity = (string, string) -> bool

  /** ", ".join(authors). */
  function JoinAuthors(authors: seq<string>): string {
    if authors == [] then ""
    else if |authors| == 1 then authors[0]
    else authors[0] + ", " + JoinAuthors(authors[1..])
  }

  /** The names in order, each after the first behind a comma and a space. */
  lemma {:induction false} JoinAuthorsSnoc(authors: seq<string>, last: string)
    ensures JoinAuthors([]) == "" && JoinAuthors([last]) == last
    ensures authors != [] ==> JoinAuthors(authors + [last]) == JoinAuthors(authors) + ", " + last
  {
    if |authors| == 1 {
      assert (authors + [last])[1..] == [last];
    } else if authors != [] {
      JoinAuthorsSnoc(authors[1..], last);
      assert (authors + [last])[1..] == authors[1..] + [last];
      assert authors[0] + ", " + (JoinAuthors(authors[1..]) + ", " + last)
        == (authors[0] + ", " + JoinAuthors(authors[1..])) + ", " + last;
    }
  }

  predicate SharesIsbn(kept: Hit, hit: Hit) {
    exists i :: 0 <= i < |hit.isbns| && hit.isbns[i] in kept.isbns
  }

  predicate FuzzyMatch(similar: Similarity, hit: Hit, seen: (string, string)) {
    similar(hit.title, seen.0) && similar(JoinAuthors(hit.authors), seen.1)
  }

  predicate IsSimilar(similar: Similarity, kept: Hit, hit: Hit) {
    FuzzyMatch(similar, hit, (kept.title, JoinAuthors(kept.authors)))
  }

  /** A kept hit makes a later hit a duplicate. */
  predicate Covers(similar: Similarity, kept: Hit, hit: Hit) {
    SharesIsbn(kept, hit) || IsSimilar(similar, kept, hit)
  }

  predicate Covered(similar: Similarity, kept: seq<Hit>, hit: Hit) {
    exists i :: 0 <= i < |kept| && Covers(similar, kept[i], hit)
  }

  /** The greedy pass, continued from the hits kept so far. */
  function KeepFrom(similar: Similarity, kept: seq<Hit>, hits: seq<Hit>): seq<Hit>
    decreases |hits|
  {
    if hits == [] then kept
    else KeepFrom(similar, if Covered(similar, kept, hits[0]) then kept else kept + [hits[0]], hits[1..])
  }

  function Dedup(similar: Similarity, hits: seq<Hit>): seq<Hit> {
    KeepFrom(similar, [], hits)
  }

  // ---------- The loop ----------

  function IsbnsOf(hits: seq<Hit>): set<string> {
    set i, j | 0 <= i < |hits| && 0 <= j < |hits[i].isbns| :: hits[i].isbns[j]
  }

  function FuzzyOf(hits: seq<Hit>): seq<(string, string)> {
    seq(|hits|, i requires 0 <= i < |hits| => (hits[i].title, JoinAuthors(hits[i].authors)))
  }

  lemma {:induction false} KeepConcat(similar: Similarity, kept: seq<Hit>, a: seq<Hit>, b: seq<Hit>)
    ensures KeepFrom(similar, kept, a + b) == KeepFrom(similar, KeepFrom(similar, kept, a), b)
    decreases |a|
  {
    if a == [] {
      assert a + b == b;
    } else {
      assert (a + b)[1..] == a[1..] + b;
      KeepConcat(similar, if Covered(similar, kept, a[0]) then kept else kept + [a[0]], a[1..], b);
    }
  }

  lemma KeepNext(similar: Similarity, hits: seq<Hit>, n: nat)
    requires n < |hits|
    ensures var kept := Dedup(similar, hits[..n]);
      Dedup(similar, hits[..n + 1]) == if Covered(similar, kept, hits[n]) then kept else kept + [hits[n]]
  {
    assert hits[..n + 1] == hits[..n] + [hits[n]];
    KeepConcat(similar, [], hits[..n], [hits[n]]);
    assert [hits[n]][1..] == [];
  }

  method HasSeenIsbn(isbns: seq<string>, seen: set<string>) returns (found: bool)
    ensures found <==> exists i :: 0 <= i < |isbns| && isbns[i] in seen
  {
    for i := 0 to |isbns|
      invariant forall j :: 0 <= j < i ==> isbns[j] !in seen
    {
      if isbns[i] in seen {
        return true;
      }
    }
    found := false;
  }

  method HasSimilar(similar: Similarity, hit: Hit, seen: seq<(string, string)>) returns (found: bool)
    ensures found <==> exists i :: 0 <= i < |seen| && FuzzyMatch(similar, hit, seen[i])
  {
    for i := 0 to |seen|
      invariant forall j :: 0 <= j < i ==> !FuzzyMatch(similar, hit, seen[j])
    {
      if similar(hit.title, seen[i].0) && similar(JoinAuthors(hit.authors), seen[i].1) {
        return true;
      }
    }
    found := false;
  }

  lemma CoveredMeans(similar: Similarity, kept: seq<Hit>, hit: Hit)
    ensures Covered(similar, kept, hit) <==>
      || (exists i :: 0 <= i < |hit.isbns| && hit.isbns[i] in IsbnsOf(kept))
      || (exists i :: 0 <= i < |FuzzyOf(kept)| && FuzzyMatch(similar, hit, FuzzyOf(kept)[i]))
  {
    if i :| 0 <= i < |kept| && Covers(similar, kept[i], hit) {
      if SharesIsbn(kept[i], hit) {
        var j :| 0 <= j < |hit.isbns| && hit.isbns[j] in kept[i].isbns;
        assert hit.isbns[j] in IsbnsOf(kept);
      } else {
        assert FuzzyOf(kept)[i] == (kept[i].title, JoinAuthors(kept[i].authors));
      }
    }
    if i :| 0 <= i < |hit.isbns| && hit.isbns[i] in IsbnsOf(kept) {
      var k, j :| 0 <= k < |kept| && 0 <= j < |kept[k].isbns| && kept[k].isbns[j] == hit.isbns[i];
      assert SharesIsbn(kept[k], hit);
    }
    if i :| 0 <= i < |FuzzyOf(kept)| && FuzzyMatch(similar, hit, FuzzyOf(kept)[i]) {
      assert IsSimilar(similar, kept[i], hit);
    }
  }

  lemma IsbnsSnoc(hits: seq<Hit>, hit: Hit)
    ensures IsbnsOf(hits + [hit]) == IsbnsOf(hits) + (set x | x in hit.isbns)
  {
    var all := hits + [hit];
    forall x ensures x in IsbnsOf(all) <==> x in IsbnsOf(hits) || x in hit.isbns {
      if x in IsbnsOf(hits) {
        var i, j :| 0 <= i < |hits| && 0 <= j < |hits[i].isbns| && hits[i].isbns[j] == x;
        assert all[i].isbns[j] == x;
      }
      if x in hit.isbns {
        var j :| 0 <= j < |hit.isbns| && hit.isbns[j] == x;
        assert all[|hits|].isbns[j] == x;
      }
    }
  }

  /** _deduplicate_hits: the loop over two seen-sets computes the greedy pass. */
  method DeduplicateHits(similar: Similarity, hits: seq<Hit>) returns (unique: seq<Hit>)
    ensures unique == Dedup(similar, hits)
  {
    var seenIsbns: set<string> := {};
    var seenFuzzy: seq<(string, string)> := [];
    unique := [];
    for n := 0 to |hits|
      invariant unique == Dedup(similar, hits[..n])
      invariant seenIsbns == IsbnsOf(unique) && seenFuzzy == FuzzyOf(unique)
    {
      var hit := hits[n];
      KeepNext(similar, hits, n);
      CoveredMeans(similar, unique, hit);
      var duplicate := HasSeenIsbn(hit.isbns, seenIsbns);
      if !duplicate {
        duplicate := HasSimilar(similar, hit, seenFuzzy);
      }
      if !duplicate {
        IsbnsSnoc(unique, hit);
        assert FuzzyOf(unique + [hit]) == FuzzyOf(unique) + [(hit.title, JoinAuthors(hit.authors))];
        seenIsbns := seenIsbns + (set x | x in hit.isbns);
        seenFuzzy := seenFuzzy + [(hit.title, JoinAuthors(hit.authors))];
        unique := unique + [hit];
      }
    }
    assert hits[..|hits|] == hits;
  }

  // ---------- What is kept ----------

  /** No kept hit covers a later kept one. */
  ghost predicate Separate(similar: Similarity, hits: seq<Hit>) {
    forall i, j :: 0 <= i < j < |hits| ==> !Covers(similar, hits[i], hits[j])
  }

  lemma {:induction false} KeepSeparate(similar: Similarity, kept: seq<Hit>, hits: seq<Hit>)
    requires Separate(similar, kept)
    ensures Separate(similar, KeepFrom(similar, kept, hits))
    ensures kept <= KeepFrom(similar, kept, hits)
    decreases |hits|
  {
    if hits != [] {
      KeepSeparate(similar, if Covered(similar, kept, hits[0]) then kept else kept + [hits[0]], hits[1..]);
    }
  }

  /** Indices, in ascending order, at which the elements of a occur in b. */
  ghost predicate PicksFrom(a: seq<Hit>, b: seq<Hit>, at: seq<int>) {
    && |at| == |a|
    && (forall i :: 0 <= i < |at| ==> 0 <= at[i] < |b| && b[at[i]] == a[i])
    && (forall i, j :: 0 <= i < j < |at| ==> at[i] < at[j])
  }

  ghost predicate Subsequence(a: seq<Hit>, b: seq<Hit>) {
    exists at :: PicksFrom(a, b, at)
  }

  lemma PicksMore(a: seq<Hit>, b: seq<Hit>, h: Hit)
    requires Subsequence(a, b)
    ensures Subsequence(a, b + [h]) && Subsequence(a + [h], b + [h])
  {
    var at :| PicksFrom(a, b, at);
    assert PicksFrom(a, b + [h], at);
    assert PicksFrom(a + [h], b + [h], at + [|b|]);
  }

  lemma {:induction false} DedupSubsequence(similar: Similarity, hits: seq<Hit>, n: nat)
    requires n <= |hits|
    ensures Subsequence(Dedup(similar, hits[..n]), hits[..n])
  {
    if n == 0 {
      assert PicksFrom([], hits[..0], []);
    } else {
      DedupSubsequence(similar, hits, n - 1);
      KeepNext(similar, hits, n - 1);
      PicksMore(Dedup(similar, hits[..n - 1]), hits[..n - 1], hits[n - 1]);
      assert hits[..n] == hits[..n - 1] + [hits[n - 1]];
    }
  }

  /** Hit n is dropped exactly when a hit kept before it covers it, and later hits change nothing. */
  ghost predicate DecidedAt(similar: Similarity, hits: seq<Hit>, n: int)
    requires 0 <= n < |hits|
  {
    var before := Dedup(similar, hits[..n]);
    var after := Dedup(similar, hits[..n + 1]);
    after == (if Covered(similar, before, hits[n]) then before else before + [hits[n]]) && after <= Dedup(similar, hits)
  }

  /** The two list a common ISBN, or the later is similar in title and in its authors, joined by commas. */
  ghost predicate SameBook(similar: Similarity, kept: Hit, hit: Hit) {
    || (exists x :: x in kept.isbns && x in hit.isbns)
    || (similar(hit.title, kept.title) && similar(JoinAuthors(hit.authors), JoinAuthors(kept.authors)))
  }

  /** A hit is kept exactly when no hit kept before it shares an ISBN with it, or is similar to it both in title and
      in authors. */
  lemma KeptIff(similar: Similarity, hits: seq<Hit>, n: nat)
    requires n < |hits|
    ensures var kept, hit := Dedup(similar, hits[..n]), hits[n];
      Dedup(similar, hits[..n + 1])
      == if exists i :: 0 <= i < |kept| && SameBook(similar, kept[i], hit) then kept else kept + [hit]
  {
    KeepNext(similar, hits, n);
    var kept, hit := Dedup(similar, hits[..n]), hits[n];
    forall i | 0 <= i < |kept| ensures Covers(similar, kept[i], hit) <==> SameBook(similar, kept[i], hit) {
      SharedIsbn(kept[i], hit);
    }
  }

  lemma SharedIsbn(kept: Hit, hit: Hit)
    ensures SharesIsbn(kept, hit) <==> exists x :: x in kept.isbns && x in hit.isbns
  {
    if x :| x in kept.isbns && x in hit.isbns {
      var i :| 0 <= i < |hit.isbns| && hit.isbns[i] == x;
    }
  }

  /** The result keeps some hits in their order; no two kept hits share an ISBN and none is
      similar to an earlier kept one; every hit is decided by the hits kept before it. */
  lemma DedupCharacterised(similar: Similarity, hits: seq<Hit>)
    ensures Subsequence(Dedup(similar, hits), hits)
    ensures Separate(similar, Dedup(similar, hits))
    ensures forall n :: 0 <= n < |hits| ==> DecidedAt(similar, hits, n)
  {
    assert hits[..|hits|] == hits;
    DedupSubsequence(similar, hits, |hits|);
    KeepSeparate(similar, [], hits);
    forall n | 0 <= n < |hits| ensures DecidedAt(similar, hits, n) {
      DedupPrefix(similar, hits[..n + 1], hits[n + 1..]);
      KeepNext(similar, hits, n);
      assert hits == hits[..n + 1] + hits[n + 1..];
    }
  }

  /** More hits never change what was kept. */
  lemma DedupPrefix(similar: Similarity, xs: seq<Hit>, ys: seq<Hit>)
    ensures Dedup(similar, xs) <= Dedup(similar, xs + ys)
  {
    KeepSeparate(similar, [], xs);
    KeepConcat(similar, [], xs, ys);
    KeepSeparate(similar, Dedup(similar, xs), ys);
  }

  lemma {:induction false} SeparateIsKept(similar: Similarity, kept: seq<Hit>, hits: seq<Hit>)
    requires Separate(similar, kept + hits)
    ensures KeepFrom(similar, kept, hits) == kept + hits
    decreases |hits|
  {
    if hits != [] {
      var all := kept + hits;
      assert all[|kept|] == hits[0] && forall i :: 0 <= i < |kept| ==> all[i] == kept[i];
      assert !Covered(similar, kept, hits[0]);
      assert kept + [hits[0]] + hits[1..] == all;
      SeparateIsKept(similar, kept + [hits[0]], hits[1..]);
    } else {
      assert kept + hits == kept;
    }
  }

  /** Deduplicating again, with or without further hits, gives what one pass gives. */
  lemma DedupIdempotent(similar: Similarity, xs: seq<Hit>, ys: seq<Hit>)
    ensures Dedup(similar, Dedup(similar, xs)) == Dedup(similar, xs)
    ensures Dedup(similar, Dedup(similar, xs) + ys) == Dedup(similar, xs + ys)
  {
    var kept := Dedup(similar, xs);
    KeepSeparate(similar, [], xs);
    assert [] + kept == kept;
    SeparateIsKept(similar, [], kept);
    KeepConcat(similar, [], kept, ys);
    KeepConcat(similar, [], xs, ys);
  }
}
