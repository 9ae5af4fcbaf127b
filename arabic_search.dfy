/** Arabic-aware search helpers: the character normaliser applied to search
    text and the expansion of a query into the spellings of a country listed in
    the static alias table. */
module ArabicSearch {
  import opened Common

  // ---------------------------------------------------------------------------
  // Characters the normaliser rewrites

  const AlefHamzaAbove: char := '\U{0623}'  // أ
  const AlefHamzaBelow: char := '\U{0625}'  // إ
  const AlefMadda: char := '\U{0622}'       // آ
  const Alef: char := '\U{0627}'            // ا
  const TehMarbuta: char := '\U{0629}'      // ة
  const Heh: char := '\U{0647}'             // ه
  const AlefMaksura: char := '\U{0649}'     // ى
  const Yeh: char := '\U{064A}'             // ي

  /** The tashkeel (harakat) marks U+064B..U+0652 that the normaliser deletes. */
  predicate IsTashkeel(c: char)
  {
    '\U{064B}' <= c <= '\U{0652}'
  }

  // ---------------------------------------------------------------------------
  // The four passes of `normalizeArabicForSearch`

  /** `s.replace(/[from]/g, to)`: every character of `from` becomes `to`. */
  function ReplaceAll(s: string, from: set<char>, to: char): (r: string)
    ensures |r| == |s|
  {
    if s == [] then [] else [if s[0] in from then to else s[0]] + ReplaceAll(s[1..], from, to)
  }

  /** `s.replace(/[ً-ْ]/g, '')`. */
  function RemoveTashkeel(s: string): (r: string)
    ensures |r| <= |s|
  {
    if s == [] then [] else (if IsTashkeel(s[0]) then [] else [s[0]]) + RemoveTashkeel(s[1..])
  }

  /** `normalizeArabicForSearch`: an empty text is returned as it is; otherwise
      alef forms become plain alef, teh marbuta becomes heh, alef maksura
      becomes yeh, and tashkeel is deleted, in that order. */
  function Normalize(text: string): (r: string)
  {
    if text == "" then text
    else
      RemoveTashkeel(
        ReplaceAll(
          ReplaceAll(
            ReplaceAll(text, {AlefHamzaAbove, AlefHamzaBelow, AlefMadda}, Alef),
            {TehMarbuta}, Heh),
          {AlefMaksura}, Yeh))
  }

  /** What a single character becomes under the normaliser. */
  function CharImage(c: char): (r: string)
    ensures |r| <= 1
  {
    if c in {AlefHamzaAbove, AlefHamzaBelow, AlefMadda} then [Alef]
    else if c == TehMarbuta then [Heh]
    else if c == AlefMaksura then [Yeh]
    else if IsTashkeel(c) then []
    else [c]
  }

  /** A character the normaliser never produces. */
  predicate Rewritten(c: char)
  {
    c in {AlefHamzaAbove, AlefHamzaBelow, AlefMadda, TehMarbuta, AlefMaksura} || IsTashkeel(c)
  }

  lemma {:induction false} ReplaceAllConcat(a: string, b: string, from: set<char>, to: char)
    ensures ReplaceAll(a + b, from, to) == ReplaceAll(a, from, to) + ReplaceAll(b, from, to)
  {
    if a != [] {
      assert (a + b)[0] == a[0] && (a + b)[1..] == a[1..] + b;
      ReplaceAllConcat(a[1..], b, from, to);
      var head := [if a[0] in from then to else a[0]];
      var x, y := ReplaceAll(a[1..], from, to), ReplaceAll(b, from, to);
      assert ReplaceAll(a + b, from, to) == head + (x + y);
      assert head + (x + y) == (head + x) + y;
    } else {
      assert a + b == b;
    }
  }

  lemma {:induction false} RemoveTashkeelConcat(a: string, b: string)
    ensures RemoveTashkeel(a + b) == RemoveTashkeel(a) + RemoveTashkeel(b)
  {
    if a != [] {
      assert (a + b)[0] == a[0] && (a + b)[1..] == a[1..] + b;
      RemoveTashkeelConcat(a[1..], b);
      var head := if IsTashkeel(a[0]) then [] else [a[0]];
      var x, y := RemoveTashkeel(a[1..]), RemoveTashkeel(b);
      assert RemoveTashkeel(a + b) == head + (x + y);
      assert head + (x + y) == (head + x) + y;
    } else {
      assert a + b == b;
    }
  }

  /** The passes applied to one character give that character's image. */
  lemma NormalizeChar(c: char)
    ensures Normalize([c]) == CharImage(c)
  {
    var alefs := {AlefHamzaAbove, AlefHamzaBelow, AlefMadda};
    assert ReplaceAll([c], alefs, Alef) == [if c in alefs then Alef else c];
    var c1 := if c in alefs then Alef else c;
    assert ReplaceAll([c1], {TehMarbuta}, Heh) == [if c1 == TehMarbuta then Heh else c1];
    var c2 := if c1 == TehMarbuta then Heh else c1;
    assert ReplaceAll([c2], {AlefMaksura}, Yeh) == [if c2 == AlefMaksura then Yeh else c2];
    var c3 := if c2 == AlefMaksura then Yeh else c2;
    assert RemoveTashkeel([c3]) == if IsTashkeel(c3) then [] else [c3];
  }

  /** The normaliser is a per-character rewrite: it distributes over concatenation. */
  lemma NormalizeConcat(a: string, b: string)
    ensures Normalize(a + b) == Normalize(a) + Normalize(b)
  {
    if a == [] {
      assert a + b == b;
    } else if b == [] {
      assert a + b == a;
    } else {
      var alefs := {AlefHamzaAbove, AlefHamzaBelow, AlefMadda};
      ReplaceAllConcat(a, b, alefs, Alef);
      var a1, b1 := ReplaceAll(a, alefs, Alef), ReplaceAll(b, alefs, Alef);
      ReplaceAllConcat(a1, b1, {TehMarbuta}, Heh);
      var a2, b2 := ReplaceAll(a1, {TehMarbuta}, Heh), ReplaceAll(b1, {TehMarbuta}, Heh);
      ReplaceAllConcat(a2, b2, {AlefMaksura}, Yeh);
      var a3, b3 := ReplaceAll(a2, {AlefMaksura}, Yeh), ReplaceAll(b2, {AlefMaksura}, Yeh);
      RemoveTashkeelConcat(a3, b3);
    }
  }

  /** Reference definition: the normaliser is the character images laid end to end. */
  function Images(s: string): string
  {
    if s == [] then [] else CharImage(s[0]) + Images(s[1..])
  }

  lemma {:induction false} NormalizeIsImages(s: string)
    ensures Normalize(s) == Images(s)
  {
    if s != [] {
      assert s == [s[0]] + s[1..];
      NormalizeConcat([s[0]], s[1..]);
      NormalizeChar(s[0]);
      NormalizeIsImages(s[1..]);
    }
  }

  /** The output never contains أ, إ, آ, ة, ى or a tashkeel mark. */
  lemma {:induction false} NormalizeRemovesVariants(s: string)
    ensures forall i :: 0 <= i < |Normalize(s)| ==> !Rewritten(Normalize(s)[i])
  {
    NormalizeIsImages(s);
    ImagesRemoveVariants(s);
  }

  lemma {:induction false} ImagesRemoveVariants(s: string)
    ensures forall i :: 0 <= i < |Images(s)| ==> !Rewritten(Images(s)[i])
  {
    if s != [] {
      ImagesRemoveVariants(s[1..]);
      var head := CharImage(s[0]);
      forall i | 0 <= i < |Images(s)| ensures !Rewritten(Images(s)[i]) {
        if i >= |head| {
          assert Images(s)[i] == Images(s[1..])[i - |head|];
        }
      }
    }
  }

  /** A character the normaliser does not rewrite is kept as it is. */
  lemma KeptCharacter(c: char)
    requires !Rewritten(c)
    ensures Normalize([c]) == [c]
  {
    NormalizeChar(c);
  }

  /** The output is never longer than the input. */
  lemma {:induction false} NormalizeShortens(s: string)
    ensures |Normalize(s)| <= |s|
  {
    NormalizeIsImages(s);
    ImagesShorten(s);
  }

  lemma {:induction false} ImagesShorten(s: string)
    ensures |Images(s)| <= |s|
  {
    if s != [] {
      ImagesShorten(s[1..]);
    }
  }

  /** A text without rewritable characters is a fixed point. */
  lemma {:induction false} ImagesFixed(s: string)
    requires forall i :: 0 <= i < |s| ==> !Rewritten(s[i])
    ensures Images(s) == s
  {
    if s != [] {
      ImagesFixed(s[1..]);
      assert [s[0]] + s[1..] == s;
    }
  }

  /** Normalising twice is the same as normalising once. */
  lemma NormalizeIdempotent(s: string)
    ensures Normalize(Normalize(s)) == Normalize(s)
  {
    NormalizeRemovesVariants(s);
    NormalizeIsImages(Normalize(s));
    ImagesFixed(Normalize(s));
  }

  /** "أمريكا" and "امريكا" normalise to the same text. */
  lemma AmericaSpellingsAgree()
    ensures Normalize("أمريكا") == Normalize("امريكا")
    ensures Normalize("امريكا") == "امريكا"
  {
    NormalizeIsImages("أمريكا");
    NormalizeIsImages("امريكا");
  }

  // ---------------------------------------------------------------------------
  // Alias expansion

  /** One entry of `COUNTRY_ALIASES`: a standard name and its alternative spellings. */
  datatype AliasEntry = AliasEntry(standard: string, aliases: seq<string>)

  /** `COUNTRY_ALIASES`, in declaration order. */
  const CountryAliases: seq<AliasEntry> := [
    AliasEntry("الولايات المتحدة", ["أمريكا", "أميركا", "امريكا", "اميركا"]),
    AliasEntry("المملكة المتحدة", ["بريطانيا"]),
    AliasEntry("United States", ["usa", "america", "amerka", "us"]),
    AliasEntry("United Kingdom", ["uk"])
  ]

  /** `normalizeArabicForSearch(x).toLowerCase()`. */
  function Fold(s: string): string
  {
    Lower(Normalize(s))
  }

  /** `aliases.map(a => normalizeArabicForSearch(a).toLowerCase())`. */
  function FoldAll(names: seq<string>): (r: seq<string>)
    ensures |r| == |names|
    ensures forall j :: 0 <= j < |names| ==> r[j] == Fold(names[j])
  {
    seq(|names|, j requires 0 <= j < |names| => Fold(names[j]))
  }

  /** `names.some(name => name.includes(normalized))`. */
  predicate SomeContains(names: seq<string>, normalized: string)
  {
    exists j :: 0 <= j < |names| && Contains(names[j], normalized)
  }

  /** The query occurs in one of the folded aliases or in the folded standard name. */
  predicate FoldedMatch(foldedAliases: seq<string>, foldedStandard: string, normalized: string)
  {
    SomeContains(foldedAliases, normalized) || Contains(foldedStandard, normalized)
  }

  /** The folded query occurs in a folded alias or in the folded standard name. */
  predicate EntryMatches(e: AliasEntry, normalized: string)
  {
    FoldedMatch(FoldAll(e.aliases), Fold(e.standard), normalized)
  }

  /** What a matching entry contributes: its standard name, then its aliases as written. */
  function Contribution(e: AliasEntry, normalized: string): seq<string>
  {
    if EntryMatches(e, normalized) then [e.standard] + e.aliases else []
  }

  /** `t` is one of the names a matching entry contributes. */
  predicate Names(e: AliasEntry, normalized: string, t: string)
  {
    EntryMatches(e, normalized) && (t == e.standard || t in e.aliases)
  }

  /** The contributions of the first `k` entries, in order. */
  function Expansion(entries: seq<AliasEntry>, normalized: string, k: nat): seq<string>
    requires k <= |entries|
  {
    if k == 0 then []
    else Expansion(entries, normalized, k - 1) + Contribution(entries[k - 1], normalized)
  }

  /** The `terms` array before duplicates are removed, for an alias table `entries`. */
  function Candidates(entries: seq<AliasEntry>, query: string): seq<string>
  {
    Pushed(entries, query, Fold(query))
  }

  /** The `terms` array for the query and its folded form `normalized`. */
  function Pushed(entries: seq<AliasEntry>, query: string, normalized: string): seq<string>
  {
    [query] + (if normalized != query then [normalized] else []) + Expansion(entries, normalized, |entries|)
  }

  /** `[...new Set(s)]`: the first occurrence of each element, in order. */
  function Dedup(s: seq<string>): seq<string>
  {
    if s == [] then []
    else
      var d := Dedup(s[..|s| - 1]);
      if s[|s| - 1] in d then d else d + [s[|s| - 1]]
  }

  /** One iteration of the `for … of Object.entries(COUNTRY_ALIASES)` loop:
      the names it pushes for `entry`. */
  method EntryTerms(entry: AliasEntry, normalized: string) returns (pushed: seq<string>)
    ensures pushed == Contribution(entry, normalized)
  {
    var normalizedAliases := FoldAll(entry.aliases);
    var normalizedStandard := Fold(entry.standard);
    pushed := [];
    if FoldedMatch(normalizedAliases, normalizedStandard, normalized) {
      pushed := pushed + [entry.standard];
      pushed := pushed + entry.aliases;
    }
  }

  /** `[...new Set(terms)]`, inserting the terms one by one. */
  method RemoveDuplicates(terms: seq<string>) returns (result: seq<string>)
    ensures result == Dedup(terms)
  {
    var seen: set<string> := {};
    result := [];
    for k := 0 to |terms|
      invariant result == Dedup(terms[..k])
      invariant forall t :: t in seen <==> t in result
    {
      assert terms[..k + 1][..k] == terms[..k];
      if terms[k] !in seen {
        seen := seen + {terms[k]};
        result := result + [terms[k]];
      }
    }
    assert terms[..|terms|] == terms;
  }

  /** The `for … of Object.entries(COUNTRY_ALIASES)` loop: the names pushed for
      the folded query `normalized`. */
  method ExpandEntries(entries: seq<AliasEntry>, normalized: string) returns (pushed: seq<string>)
    ensures pushed == Expansion(entries, normalized, |entries|)
  {
    pushed := [];
    for i := 0 to |entries|
      invariant pushed == Expansion(entries, normalized, i)
    {
      var names := EntryTerms(entries[i], normalized);
      pushed := pushed + names;
    }
  }

  /** `getSearchTermsWithAliases` against the alias table `entries`. */
  method SearchTerms(entries: seq<AliasEntry>, searchTerm: string) returns (result: seq<string>)
    ensures result == Dedup(Candidates(entries, searchTerm))
  {
    var normalized := Fold(searchTerm);
    var terms := [searchTerm];
    if normalized != searchTerm {
      terms := terms + [normalized];
    }
    ghost var front := [searchTerm] + (if normalized != searchTerm then [normalized] else []);
    assert terms == front;
    var pushed := ExpandEntries(entries, normalized);
    terms := terms + pushed;
    assert Pushed(entries, searchTerm, normalized) == front + pushed;
    result := RemoveDuplicates(terms);
  }

  /** `getSearchTermsWithAliases`: the query, its folded form, then the names
      of every `COUNTRY_ALIASES` entry the folded query occurs in, without repeats. */
  method GetSearchTermsWithAliases(searchTerm: string) returns (result: seq<string>)
    ensures result == Dedup(Candidates(CountryAliases, searchTerm))
  {
    result := SearchTerms(CountryAliases, searchTerm);
  }

  // ---------------------------------------------------------------------------
  // Properties of duplicate removal

  lemma {:induction false} DedupSameElements(s: seq<string>)
    ensures forall x :: x in Dedup(s) <==> x in s
  {
    if s != [] {
      DedupSameElements(s[..|s| - 1]);
      assert s == s[..|s| - 1] + [s[|s| - 1]];
    }
  }

  lemma {:induction false} DedupDistinct(s: seq<string>)
    ensures forall i, j :: 0 <= i < j < |Dedup(s)| ==> Dedup(s)[i] != Dedup(s)[j]
  {
    if s != [] {
      DedupDistinct(s[..|s| - 1]);
    }
  }

  lemma {:induction false} DedupKeepsHead(s: seq<string>)
    requires s != []
    ensures Dedup(s) != [] && Dedup(s)[0] == s[0]
  {
    if |s| > 1 {
      DedupKeepsHead(s[..|s| - 1]);
    }
  }

  /** Index of the first occurrence of `x` in `s`, or `|s|` when there is none. */
  function FirstIndex(s: seq<string>, x: string): (k: nat)
    ensures k <= |s|
    ensures k < |s| ==> s[k] == x
    ensures forall j :: 0 <= j < k ==> s[j] != x
  {
    if s == [] then 0 else if s[0] == x then 0 else 1 + FirstIndex(s[1..], x)
  }

  /** An element met before offset `n` has the same first index in the prefix. */
  lemma FirstIndexInPrefix(s: seq<string>, n: nat, x: string)
    requires n <= |s| && x in s[..n]
    ensures FirstIndex(s, x) == FirstIndex(s[..n], x) < n
  {
    var k := FirstIndex(s[..n], x);
    var m := FirstIndex(s, x);
    assert s[k] == x;
    assert m <= k;
    assert s[..n][m] == x;
  }

  /** Duplicate removal keeps the order of first occurrences. */
  lemma {:induction false} DedupKeepsOrder(s: seq<string>)
    ensures forall i, j :: 0 <= i < j < |Dedup(s)| ==>
      FirstIndex(s, Dedup(s)[i]) < FirstIndex(s, Dedup(s)[j])
  {
    if s != [] {
      var init := s[..|s| - 1];
      DedupKeepsOrder(init);
      DedupSameElements(init);
      var d := Dedup(init);
      forall i | 0 <= i < |d| ensures FirstIndex(s, d[i]) == FirstIndex(init, d[i]) < |init| {
        DedupSameElements(init);
        assert d[i] in d;
        FirstIndexInPrefix(s, |s| - 1, d[i]);
      }
      if s[|s| - 1] !in d {
        LastIsFirstOccurrence(s);
        AppendKeepsOrder(s, d, Dedup(s));
      }
    }
  }

  lemma AppendKeepsOrder(s: seq<string>, d: seq<string>, r: seq<string>)
    requires s != [] && r == d + [s[|s| - 1]]
    requires forall i :: 0 <= i < |d| ==> FirstIndex(s, d[i]) < |s| - 1
    requires forall i, j :: 0 <= i < j < |d| ==> FirstIndex(s, d[i]) < FirstIndex(s, d[j])
    requires FirstIndex(s, s[|s| - 1]) == |s| - 1
    ensures forall i, j :: 0 <= i < j < |r| ==> FirstIndex(s, r[i]) < FirstIndex(s, r[j])
  {
    forall i, j | 0 <= i < j < |r|
      ensures FirstIndex(s, r[i]) < FirstIndex(s, r[j])
    {
      assert r[i] == d[i];
    }
  }

  lemma LastIsFirstOccurrence(s: seq<string>)
    requires s != [] && s[|s| - 1] !in s[..|s| - 1]
    ensures FirstIndex(s, s[|s| - 1]) == |s| - 1
  {
    var k := FirstIndex(s, s[|s| - 1]);
  }

  // ---------------------------------------------------------------------------
  // Properties of the expansion

  /** Membership in the expansion: exactly the names of the matching entries. */
  lemma {:induction false} ExpansionMembers(entries: seq<AliasEntry>, normalized: string, k: nat, t: string)
    requires k <= |entries|
    ensures t in Expansion(entries, normalized, k) <==>
      exists i :: 0 <= i < k && Names(entries[i], normalized, t)
  {
    if k > 0 {
      ExpansionMembers(entries, normalized, k - 1, t);
      var e := entries[k - 1];
      ContributionMembers(e, normalized, t);
      var before := Expansion(entries, normalized, k - 1);
      assert Expansion(entries, normalized, k) == before + Contribution(e, normalized);
      if t in before {
        var i :| 0 <= i < k - 1 && Names(entries[i], normalized, t);
        assert 0 <= i < k && Names(entries[i], normalized, t);
      } else if t in Contribution(e, normalized) {
        assert 0 <= k - 1 < k && Names(entries[k - 1], normalized, t);
      }
      if exists i :: 0 <= i < k && Names(entries[i], normalized, t) {
        var i :| 0 <= i < k && Names(entries[i], normalized, t);
        if i < k - 1 {
          assert exists j :: 0 <= j < k - 1 && Names(entries[j], normalized, t);
        } else {
          assert t in Contribution(e, normalized);
        }
      }
    }
  }

  /** A contribution holds exactly the names of its entry, when that entry matches. */
  lemma ContributionMembers(e: AliasEntry, normalized: string, t: string)
    ensures t in Contribution(e, normalized) <==> Names(e, normalized, t)
  {
  }

  /** The query comes first in the result. */
  lemma QueryFirst(entries: seq<AliasEntry>, query: string)
    ensures Dedup(Candidates(entries, query)) != []
    ensures Dedup(Candidates(entries, query))[0] == query
  {
    DedupKeepsHead(Candidates(entries, query));
  }

  /** Every returned term is the query, its folded form, or a name of a
      matching entry as written in the table; and every such name is returned. */
  lemma TermsSoundAndComplete(entries: seq<AliasEntry>, query: string, t: string)
    ensures t in Dedup(Candidates(entries, query)) <==>
      t == query || t == Fold(query) ||
      exists i :: 0 <= i < |entries| && Names(entries[i], Fold(query), t)
  {
    var normalized := Fold(query);
    PushedMembers(entries, query, normalized, t);
    DedupSameElements(Pushed(entries, query, normalized));
  }

  lemma PushedMembers(entries: seq<AliasEntry>, query: string, normalized: string, t: string)
    ensures t in Pushed(entries, query, normalized) <==>
      t == query || t == normalized ||
      exists i :: 0 <= i < |entries| && Names(entries[i], normalized, t)
  {
    ExpansionMembers(entries, normalized, |entries|, t);
  }

  /** The result holds no term twice, and lists terms in the order they were first pushed. */
  lemma TermsDistinctAndOrdered(entries: seq<AliasEntry>, query: string)
    ensures forall i, j :: 0 <= i < j < |Dedup(Candidates(entries, query))| ==>
      Dedup(Candidates(entries, query))[i] != Dedup(Candidates(entries, query))[j]
    ensures forall i, j :: 0 <= i < j < |Dedup(Candidates(entries, query))| ==>
      FirstIndex(Candidates(entries, query), Dedup(Candidates(entries, query))[i])
        < FirstIndex(Candidates(entries, query), Dedup(Candidates(entries, query))[j])
  {
    var c := Candidates(entries, query);
    DedupDistinct(c);
    DedupKeepsOrder(c);
  }

  /** The empty query matches every entry, so every name of the table is returned. */
  lemma EmptyQueryMatchesAll(i: int, t: string)
    requires 0 <= i < |CountryAliases|
    requires t == CountryAliases[i].standard || t in CountryAliases[i].aliases
    ensures t in Dedup(Candidates(CountryAliases, ""))
  {
    assert Fold("") == "";
    ContainsEmpty(Fold(CountryAliases[i].standard));
    assert EntryMatches(CountryAliases[i], "");
    assert Names(CountryAliases[i], "", t);
    TermsSoundAndComplete(CountryAliases, "", t);
  }

  /** "أمريكا" expands to the standard name "الولايات المتحدة". */
  lemma AmericaExpandsToStandardName()
    ensures "الولايات المتحدة" in Dedup(Candidates(CountryAliases, "أمريكا"))
  {
    AmericaSpellingsAgree();
    var q := "أمريكا";
    var folded := "امريكا";
    assert Lower(folded) == folded;
    assert Fold(q) == folded;
    var e := CountryAliases[0];
    assert e.aliases[2] == "امريكا";
    NormalizeIsImages(e.aliases[2]);
    assert Lower(e.aliases[2]) == e.aliases[2];
    assert Fold(e.aliases[2]) == folded;
    assert folded <= Fold(e.aliases[2]);
    assert Contains(Fold(e.aliases[2]), folded);
    assert EntryMatches(e, folded);
    assert Names(e, folded, "الولايات المتحدة");
    TermsSoundAndComplete(CountryAliases, q, "الولايات المتحدة");
  }
}
