/** Contributor slugs: the normaliser, the search for a free slug, and the uniqueness it keeps. */
module Slugs {
  import opened Sql
  import opened Schema

  // ---------- slugify ----------

  predicate IsWordChar(c: char) {
    'a' <= c <= 'z' || '0' <= c <= '9'
  }

  /** The longest prefix of word characters. */
  function WordPrefix(s: string): string {
    if s == "" || !IsWordChar(s[0]) then "" else [s[0]] + WordPrefix(s[1..])
  }

  /** What follows the longest prefix of other characters. */
  function SkipInvalid(s: string): (r: string)
    ensures |r| <= |s|
    ensures s != "" && !IsWordChar(s[0]) ==> |r| < |s|
    ensures r == "" || IsWordChar(r[0])
  {
    if s == "" || IsWordChar(s[0]) then s else SkipInvalid(s[1..])
  }

  /** re.sub("[^a-z0-9]+", "-", s): each maximal run of other characters becomes one hyphen. */
  function Hyphenate(s: string): string
    decreases |s|
  {
    if s == "" then ""
    else if IsWordChar(s[0]) then [s[0]] + Hyphenate(s[1..])
    else "-" + Hyphenate(SkipInvalid(s))
  }

  function StripLeft(s: string): string {
    if s != "" && s[0] == '-' then StripLeft(s[1..]) else s
  }

  function StripRight(s: string): string {
    if s != "" && s[|s| - 1] == '-' then StripRight(s[..|s| - 1]) else s
  }

  /** lower stands for Python's str.lower. */
  function Slugify(lower: string -> string, value: string): string {
    var slug := StripRight(StripLeft(Hyphenate(lower(value))));
    if slug == "" then "contributor" else slug
  }

  // ---------- What a slug is ----------

  predicate IsWord(w: string) {
    w != "" && forall i :: 0 <= i < |w| ==> IsWordChar(w[i])
  }

  /** The maximal words of a text, from left to right. */
  function Words(s: string): (r: seq<string>)
    decreases |s|
  {
    if s == "" then []
    else if IsWordChar(s[0]) then [WordPrefix(s)] + Words(AfterWord(s))
    else Words(s[1..])
  }

  function AfterWord(s: string): (r: string)
    requires s != "" && IsWordChar(s[0])
    ensures |r| < |s|
  {
    WordPrefixFits(s);
    s[|WordPrefix(s)|..]
  }

  lemma {:induction false} WordPrefixFits(s: string)
    ensures |WordPrefix(s)| <= |s| && WordPrefix(s) == s[..|WordPrefix(s)|]
    ensures |WordPrefix(s)| < |s| ==> !IsWordChar(s[|WordPrefix(s)|])
    ensures forall i :: 0 <= i < |WordPrefix(s)| ==> IsWordChar(WordPrefix(s)[i])
  {
    if s != "" && IsWordChar(s[0]) {
      WordPrefixFits(s[1..]);
    }
  }

  function Join(words: seq<string>): string {
    if words == [] then ""
    else if |words| == 1 then words[0]
    else words[0] + "-" + Join(words[1..])
  }

  ghost predicate AreWords(words: seq<string>, s: string) {
    words != [] && (forall i :: 0 <= i < |words| ==> IsWord(words[i])) && s == Join(words)
  }

  /** One or more words of lower-case letters and digits, joined by single hyphens. */
  ghost predicate IsSlug(s: string) {
    exists words :: AreWords(words, s)
  }

  lemma {:induction false} WordsAreWords(s: string)
    ensures forall i :: 0 <= i < |Words(s)| ==> IsWord(Words(s)[i])
    decreases |s|
  {
    if s != "" {
      if IsWordChar(s[0]) {
        WordPrefixFits(s);
        WordsAreWords(AfterWord(s));
      } else {
        WordsAreWords(s[1..]);
      }
    }
  }

  lemma {:induction false} SkipKeepsWords(s: string)
    ensures Words(SkipInvalid(s)) == Words(s)
  {
    if s != "" && !IsWordChar(s[0]) {
      SkipKeepsWords(s[1..]);
    }
  }

  lemma {:induction false} HyphenateWord(s: string)
    ensures |WordPrefix(s)| <= |s| && Hyphenate(s) == WordPrefix(s) + Hyphenate(s[|WordPrefix(s)|..])
  {
    if s != "" && IsWordChar(s[0]) {
      HyphenateWord(s[1..]);
      var word, rest := WordPrefix(s[1..]), s[|WordPrefix(s)|..];
      assert s[1..][|word|..] == rest;
      assert [s[0]] + (word + Hyphenate(rest)) == ([s[0]] + word) + Hyphenate(rest);
    }
  }

  lemma JoinCons(word: string, words: seq<string>)
    requires words != []
    ensures Join([word] + words) == word + "-" + Join(words)
  {
    assert ([word] + words)[1..] == words;
  }

  lemma WordThenHyphen(s: string)
    requires s != "" && IsWordChar(s[0]) && AfterWord(s) != ""
    ensures Hyphenate(s) == WordPrefix(s) + ("-" + Hyphenate(SkipInvalid(AfterWord(s))))
    ensures Words(s) == [WordPrefix(s)] + Words(SkipInvalid(AfterWord(s)))
  {
    WordPrefixFits(s);
    HyphenateWord(s);
    SkipKeepsWords(AfterWord(s));
  }

  predicate JoinedBy(s: string, words: seq<string>) {
    s == Join(words) || s == Join(words) + "-"
  }

  lemma JoinedByCons(word: string, s: string, words: seq<string>)
    requires JoinedBy(s, words) && words != []
    ensures JoinedBy(word + ("-" + s), [word] + words)
  {
    JoinCons(word, words);
    assert word + ("-" + Join(words)) == word + "-" + Join(words);
    assert word + ("-" + (Join(words) + "-")) == (word + "-" + Join(words)) + "-";
  }

  /** After the leading hyphen, if any, come the joined words and at most one more hyphen. */
  lemma {:induction false} HyphenateJoins(s: string)
    requires s == "" || IsWordChar(s[0])
    ensures JoinedBy(Hyphenate(s), Words(s))
    decreases |s|
  {
    if s != "" {
      if AfterWord(s) == "" {
        HyphenateWord(s);
        assert Words(s) == [WordPrefix(s)];
      } else {
        var next := SkipInvalid(AfterWord(s));
        WordThenHyphen(s);
        HyphenateJoins(next);
        if next != "" {
          JoinedByCons(WordPrefix(s), Hyphenate(next), Words(next));
        }
      }
    }
  }

  /** Joined words neither start nor end with a hyphen. */
  lemma {:induction false} JoinEnds(words: seq<string>)
    requires words != [] && forall i :: 0 <= i < |words| ==> IsWord(words[i])
    ensures var s := Join(words); s != "" && IsWordChar(s[0]) && IsWordChar(s[|s| - 1])
  {
    if |words| > 1 {
      JoinEnds(words[1..]);
    }
  }

  /** slugify keeps the words of the lower-cased name and joins them by single hyphens; a name
      without any becomes "contributor". */
  lemma SlugifyJoinsWords(lower: string -> string, value: string)
    ensures var words := Words(lower(value));
      Slugify(lower, value) == if words == [] then "contributor" else Join(words)
  {
    var s := lower(value);
    var body := SkipInvalid(s);
    SkipKeepsWords(s);
    HyphenateJoins(body);
    WordsAreWords(s);
    var joined := Join(Words(s));
    if Words(s) != [] {
      JoinEnds(Words(s));
      assert Hyphenate(s) == Hyphenate(body) || Hyphenate(s) == "-" + Hyphenate(body);
      StripJoined(joined);
    } else {
      assert body == "";
      assert Hyphenate(s) == "" || Hyphenate(s) == "-";
      assert StripLeft("-") == "";
    }
  }

  lemma StripJoined(s: string)
    requires s != "" && IsWordChar(s[0]) && IsWordChar(s[|s| - 1])
    ensures StripRight(StripLeft(s)) == s && StripRight(StripLeft(s + "-")) == s
    ensures StripRight(StripLeft("-" + s)) == s && StripRight(StripLeft("-" + s + "-")) == s
  {
    assert ("-" + s)[1..] == s && ("-" + s + "-")[1..] == s + "-";
    assert (s + "-")[..|s + "-"| - 1] == s;
  }

  lemma SlugifyIsSlug(lower: string -> string, value: string)
    ensures IsSlug(Slugify(lower, value))
  {
    SlugifyJoinsWords(lower, value);
    var words := Words(lower(value));
    WordsAreWords(lower(value));
    if words == [] {
      assert AreWords(["contributor"], "contributor");
    } else {
      assert AreWords(words, Slugify(lower, value));
    }
  }

  lemma {:induction false} WordsOfWord(w: string, rest: string)
    requires IsWord(w) && (rest == "" || !IsWordChar(rest[0]))
    ensures WordPrefix(w + rest) == w
  {
    if |w| == 1 {
      assert (w + rest)[1..] == rest;
    } else {
      WordsOfWord(w[1..], rest);
      assert (w + rest)[1..] == w[1..] + rest;
    }
  }

  /** Joining words and splitting again gives the words back. */
  lemma {:induction false} WordsOfJoin(words: seq<string>)
    requires forall i :: 0 <= i < |words| ==> IsWord(words[i])
    ensures Words(Join(words)) == words
  {
    if |words| == 1 {
      WordsOfWord(words[0], "");
      assert words[0] + "" == words[0];
    } else if |words| > 1 {
      var rest := "-" + Join(words[1..]);
      WordsOfWord(words[0], rest);
      WordsOfJoin(words[1..]);
      assert Join(words) == words[0] + rest;
      assert AfterWord(words[0] + rest) == rest;
      assert rest[1..] == Join(words[1..]);
    }
  }

  /** slugify is idempotent, for any lower-casing that leaves slugs as they are. */
  lemma SlugifyIdempotent(lower: string -> string, value: string)
    requires forall s :: IsSlug(s) ==> lower(s) == s
    ensures Slugify(lower, Slugify(lower, value)) == Slugify(lower, value)
  {
    var slug := Slugify(lower, value);
    SlugifyIsSlug(lower, value);
    var words :| AreWords(words, slug);
    WordsOfJoin(words);
    SlugifyJoinsWords(lower, slug);
  }

  /** The letters a to z and the digits of a text, in order. */
  function Kept(s: string): string {
    if s == "" then ""
    else (if 'a' <= s[0] <= 'z' || '0' <= s[0] <= '9' then [s[0]] else "") + Kept(s[1..])
  }

  function Concat(words: seq<string>): string {
    if words == [] then "" else words[0] + Concat(words[1..])
  }

  lemma {:induction false} KeptPrefix(s: string)
    ensures |WordPrefix(s)| <= |s| && Kept(s) == WordPrefix(s) + Kept(s[|WordPrefix(s)|..])
  {
    if s != "" && IsWordChar(s[0]) {
      KeptPrefix(s[1..]);
      var word := WordPrefix(s[1..]);
      assert s[1..][|word|..] == s[|WordPrefix(s)|..];
      assert [s[0]] + (word + Kept(s[1..][|word|..])) == ([s[0]] + word) + Kept(s[1..][|word|..]);
    }
  }

  lemma {:induction false} KeptIsWords(s: string)
    ensures Kept(s) == Concat(Words(s))
    decreases |s|
  {
    if s != "" {
      if IsWordChar(s[0]) {
        KeptPrefix(s);
        WordPrefixFits(s);
        KeptIsWords(AfterWord(s));
        assert Words(s)[1..] == Words(AfterWord(s));
      } else {
        KeptIsWords(s[1..]);
      }
    }
  }

  /** A slug has the letters and digits of the lower-cased name, in order, unless there are none. */
  lemma SlugKeepsLetters(lower: string -> string, value: string)
    ensures Kept(lower(value)) != "" ==> Kept(Slugify(lower, value)) == Kept(lower(value))
    ensures Kept(lower(value)) == "" ==> Slugify(lower, value) == "contributor"
  {
    var words := Words(lower(value));
    SlugifyJoinsWords(lower, value);
    KeptIsWords(lower(value));
    WordsAreWords(lower(value));
    if words != [] {
      assert words[0] != "";
      WordsOfJoin(words);
      KeptIsWords(Join(words));
    }
  }

  /** Letters and digits, and single hyphens between them. */
  ghost predicate Hyphenated(s: string) {
    && s != "" && s[0] != '-' && s[|s| - 1] != '-'
    && (forall i :: 0 <= i < |s| ==> 'a' <= s[i] <= 'z' || '0' <= s[i] <= '9' || s[i] == '-')
    && (forall i :: 0 < i < |s| ==> s[i - 1] != '-' || s[i] != '-')
  }

  lemma {:induction false} JoinIsHyphenated(words: seq<string>)
    requires words != [] && forall i :: 0 <= i < |words| ==> IsWord(words[i])
    ensures Hyphenated(Join(words))
  {
    if |words| > 1 {
      JoinIsHyphenated(words[1..]);
      var first, rest, s := words[0], Join(words[1..]), Join(words);
      assert IsWord(first) && s == first + "-" + rest;
      forall i | 0 <= i < |s|
        ensures 'a' <= s[i] <= 'z' || '0' <= s[i] <= '9' || s[i] == '-'
        ensures i > 0 ==> s[i - 1] != '-' || s[i] != '-'
      {
        assert i < |first| ==> s[i] == first[i];
        assert i > |first| ==> s[i] == rest[i - |first| - 1];
        assert i > |first| + 1 ==> s[i - 1] == rest[i - |first| - 2];
      }
    }
  }

  lemma SlugIsHyphenated(s: string)
    requires IsSlug(s)
    ensures Hyphenated(s)
  {
    var words :| AreWords(words, s);
    JoinIsHyphenated(words);
  }

  // ---------- Candidates ----------

  function Digit(n: nat): char
    requires n < 10
  {
    ('0' as int + n) as char
  }

  /** str(n). */
  function Decimal(n: nat): string {
    if n < 10 then [Digit(n)] else Decimal(n / 10) + [Digit(n % 10)]
  }

  /** int(s), for a string of digits. */
  function Parse(s: string): int {
    if s == "" then 0 else 10 * Parse(s[..|s| - 1]) + (s[|s| - 1] as int - '0' as int)
  }

  lemma {:induction false} ParseDecimal(n: nat)
    ensures Parse(Decimal(n)) == n
  {
    if n < 10 {
      assert [Digit(n)][..0] == "";
    } else {
      ParseDecimal(n / 10);
      assert Decimal(n)[..|Decimal(n)| - 1] == Decimal(n / 10);
    }
  }

  /** base, base-2, base-3, ... */
  function Candidate(base: string, k: nat): string {
    if k <= 1 then base else base + "-" + Decimal(k)
  }

  lemma {:induction false} DecimalDigits(n: nat)
    ensures Decimal(n) != "" && forall i :: 0 <= i < |Decimal(n)| ==> '0' <= Decimal(n)[i] <= '9'
    ensures n > 0 ==> Decimal(n)[0] != '0'
  {
    if n >= 10 {
      DecimalDigits(n / 10);
    }
  }

  lemma {:induction false} JoinSnoc(words: seq<string>, word: string)
    requires words != []
    ensures Join(words + [word]) == Join(words) + "-" + word
  {
    if |words| == 1 {
      assert (words + [word])[1..] == [word];
    } else {
      JoinSnoc(words[1..], word);
      assert (words + [word])[1..] == words[1..] + [word];
      assert words[0] + "-" + (Join(words[1..]) + "-" + word) == (words[0] + "-" + Join(words[1..])) + "-" + word;
    }
  }

  lemma WordAppended(words: seq<string>, s: string, word: string)
    requires AreWords(words, s) && IsWord(word)
    ensures IsSlug(s + "-" + word)
  {
    JoinSnoc(words, word);
    assert AreWords(words + [word], s + "-" + word);
  }

  /** A numbered slug is one as well. */
  lemma CandidateIsSlug(base: string, k: nat)
    requires IsSlug(base)
    ensures IsSlug(Candidate(base, k))
  {
    if k > 1 {
      var words :| AreWords(words, base);
      DecimalDigits(k);
      WordAppended(words, base, Decimal(k));
    }
  }

  /** After the first candidate they are the base, a hyphen and their number. */
  lemma CandidateIsNumbered(base: string, k: nat)
    requires k > 1
    ensures Candidate(base, 1) == base && |Candidate(base, k)| > |base| + 1
    ensures Candidate(base, k)[..|base|] == base && Candidate(base, k)[|base|] == '-'
    ensures Parse(Candidate(base, k)[|base| + 1..]) == k
  {
    var s, n := Candidate(base, k), Decimal(k);
    DecimalDigits(k);
    ParseDecimal(k);
    assert s == base + ("-" + n);
    assert s[|base| + 1..] == n;
  }

  lemma CandidatesDiffer(base: string, j: nat, k: nat)
    requires 1 <= j < k
    ensures Candidate(base, j) != Candidate(base, k)
  {
    if j > 1 {
      ParseDecimal(j);
      ParseDecimal(k);
      var n := |base| + 1;
      assert Candidate(base, j)[n..] == Decimal(j) && Candidate(base, k)[n..] == Decimal(k);
    } else {
      assert |Candidate(base, k)| > |base|;
    }
  }

  /** The first k candidates. */
  function Tried(base: string, k: nat): set<string> {
    if k == 0 then {} else Tried(base, k - 1) + {Candidate(base, k)}
  }

  lemma {:induction false} TriedLater(base: string, k: nat, n: nat)
    requires k < n
    ensures Candidate(base, n) !in Tried(base, k)
  {
    if k > 0 {
      TriedLater(base, k - 1, n);
      CandidatesDiffer(base, k, n);
    }
  }

  lemma {:induction false} TriedCount(base: string, k: nat)
    ensures |Tried(base, k)| == k
  {
    if k > 0 {
      TriedCount(base, k - 1);
      TriedLater(base, k - 1, k);
    }
  }

  lemma {:induction false} TriedIn(slugs: set<string>, base: string, k: nat)
    requires forall j :: 1 <= j <= k ==> Candidate(base, j) in slugs
    ensures Tried(base, k) <= slugs
  {
    if k > 0 {
      TriedIn(slugs, base, k - 1);
    }
  }

  /** Pigeonhole: distinct candidates that are all taken are no more than the slugs. */
  lemma TriedAtMost(slugs: set<string>, base: string, k: nat)
    requires forall j :: 1 <= j <= k ==> Candidate(base, j) in slugs
    ensures k <= |slugs|
  {
    TriedCount(base, k);
    TriedIn(slugs, base, k);
    SubsetSize(Tried(base, k), slugs);
  }

  /** k numbers the first candidate that is not taken. */
  ghost predicate FirstFree(slugs: set<string>, base: string, k: nat) {
    k >= 1 && Candidate(base, k) !in slugs && forall j :: 1 <= j < k ==> Candidate(base, j) in slugs
  }

  /** _unique_slug: the loop ends, at the first free candidate, within one more try than there are slugs. */
  method UniqueSlug(slugs: set<string>, base: string) returns (slug: string, ghost k: nat)
    ensures slug !in slugs
    ensures FirstFree(slugs, base, k) && slug == Candidate(base, k) && k <= |slugs| + 1
  {
    slug := base;
    var suffix := 2;
    while slug in slugs
      invariant suffix >= 2 && slug == Candidate(base, suffix - 1)
      invariant forall j :: 1 <= j < suffix - 1 ==> Candidate(base, j) in slugs
      decreases |slugs| + 2 - suffix
    {
      TriedAtMost(slugs, base, suffix - 1);
      slug := base + "-" + Decimal(suffix);
      suffix := suffix + 1;
    }
    k := suffix - 1;
    TriedAtMost(slugs, base, k - 1);
  }

  /** The same search as a function, from candidate k on. */
  function FreeFrom(slugs: set<string>, base: string, k: nat): (r: nat)
    requires k >= 1 && forall j :: 1 <= j < k ==> Candidate(base, j) in slugs
    ensures FirstFree(slugs, base, r)
    decreases |slugs| + 2 - k
  {
    TriedAtMost(slugs, base, k - 1);
    if Candidate(base, k) in slugs then FreeFrom(slugs, base, k + 1) else k
  }

  function FreeSlug(slugs: set<string>, base: string): string {
    Candidate(base, FreeFrom(slugs, base, 1))
  }

  lemma FirstFreeUnique(slugs: set<string>, base: string, j: nat, k: nat)
    requires FirstFree(slugs, base, j) && FirstFree(slugs, base, k)
    ensures j == k
  {
    assert j < k ==> Candidate(base, j) in slugs;
    assert k < j ==> Candidate(base, k) in slugs;
  }

  // ---------- Adding contributors ----------

  const MAX_LENGTH := 255  // of the three text columns

  function SlugsOf(t: Table<Contributor>): set<string> {
    set r | r in t :: r.data.slug
  }

  /** The row that add inserts, unless a column is too long for it. */
  function NewContributor(
    t: Table<Contributor>, lower: string -> string, fullName: string, sortName: string): Option<Contributor>
  {
    var slug := FreeSlug(SlugsOf(t), Slugify(lower, fullName));
    if |fullName| > MAX_LENGTH || |sortName| > MAX_LENGTH || |slug| > MAX_LENGTH then None
    else Some(Contributor(fullName, sortName, slug))
  }

  /** The new row has the first free slug of its name, and is refused exactly when a column is too long. */
  lemma NewContributorIs(
    t: Table<Contributor>, lower: string -> string, fullName: string, sortName: string, k: nat)
    requires FirstFree(SlugsOf(t), Slugify(lower, fullName), k)
    ensures var slug := Candidate(Slugify(lower, fullName), k);
      && IsSlug(slug)
      && NewContributor(t, lower, fullName, sortName)
           == if |fullName| <= 255 && |sortName| <= 255 && |slug| <= 255
              then Some(Contributor(fullName, sortName, slug)) else None
  {
    var base := Slugify(lower, fullName);
    FirstFreeUnique(SlugsOf(t), base, k, FreeFrom(SlugsOf(t), base, 1));
    SlugifyIsSlug(lower, fullName);
    CandidateIsSlug(base, k);
  }

  class ContributorRepository {
    var contributors: Table<Contributor>
    var nextId: Id
    const lower: string -> string

    constructor (lower: string -> string)
      ensures contributors == [] && this.lower == lower
    {
      contributors, nextId, this.lower := [], 0, lower;
    }

    ghost predicate Valid()
      reads this
    {
      KeysBelow(contributors, nextId) && ContributorsOk(contributors)
    }

    method Add(fullName: string, sortName: string) returns (r: Option<Id>)
      requires Valid()
      modifies this
      ensures Valid()
      ensures r.None? <==> NewContributor(old(contributors), lower, fullName, sortName).None?
      ensures r.None? ==> contributors == old(contributors) && nextId == old(nextId)
      ensures r.Some? ==> r.value == old(nextId) && nextId == old(nextId) + 1
      ensures r.Some? ==> |contributors| == |old(contributors)| + 1 && old(contributors) <= contributors
      ensures r.Some? ==>
        contributors[|old(contributors)|]
          == Row(r.value, NewContributor(old(contributors), lower, fullName, sortName).value)
    {
      ghost var k;
      var slug;
      slug, k := UniqueSlug(SlugsOf(contributors), Slugify(lower, fullName));
      FirstFreeUnique(SlugsOf(contributors), Slugify(lower, fullName), k,
        FreeFrom(SlugsOf(contributors), Slugify(lower, fullName), 1));
      if |fullName| > MAX_LENGTH || |sortName| > MAX_LENGTH || |slug| > MAX_LENGTH {
        return None;
      }
      var row := Row(nextId, Contributor(fullName, sortName, slug));
      AddedStaysUnique(contributors, row);
      r := Some(nextId);
      contributors := contributors + [row];
      nextId := nextId + 1;
    }
  }

  lemma AddedStaysUnique(t: Table<Contributor>, row: Row<Contributor>)
    requires KeysBelow(t, row.id) && ContributorsOk(t) && row.data.slug !in SlugsOf(t)
    ensures KeysBelow(t + [row], row.id + 1) && ContributorsOk(t + [row])
  {
    assert forall r :: r in t + [row] <==> r in t || r == row;
    assert forall r :: r in t ==> r.data.slug in SlugsOf(t);
  }

  /** A run of add over a list of names; a name that is refused leaves the table as it is. */
  function AddAll(
    t: Table<Contributor>, next: Id, lower: string -> string, names: seq<(string, string)>): Table<Contributor>
    decreases |names|
  {
    if names == [] then t
    else
      var row := NewContributor(t, lower, names[0].0, names[0].1);
      if row.None? then AddAll(t, next, lower, names[1..])
      else AddAll(t + [Row(next, row.value)], next + 1, lower, names[1..])
  }

  /** Slugs stay pairwise distinct over every run of add, and each is a slug followed, for a
      repeated name, by a hyphen and a number. */
  lemma {:induction false} SlugsStayDistinct(
    t: Table<Contributor>, next: Id, lower: string -> string, names: seq<(string, string)>)
    requires KeysBelow(t, next) && ContributorsOk(t)
    ensures ContributorsOk(AddAll(t, next, lower, names))
    ensures forall r :: r in AddAll(t, next, lower, names) && r !in t ==>
      exists k: nat :: k >= 1 && r.data.slug == Candidate(Slugify(lower, r.data.fullName), k)
    decreases |names|
  {
    if names != [] {
      var row := NewContributor(t, lower, names[0].0, names[0].1);
      if row.None? {
        SlugsStayDistinct(t, next, lower, names[1..]);
      } else {
        AddedStaysUnique(t, Row(next, row.value));
        SlugsStayDistinct(t + [Row(next, row.value)], next + 1, lower, names[1..]);
      }
    }
  }
}
