/** Concrete searches proved of the model: cities with the same name come
    out ordered by country; the Latin-1 accented names sort by code unit
    after the plain ones and fail a plain prefix; and at the upper key, a
    name that continues with U+FFFF and more (or, in the model, with a
    character above U+FFFF) is missed, while the name that is exactly the
    upper key is returned. */
module SearchScenarios {
  import opened Text
  import opened CitySearch

  // ---------------------------------------------------------------------------
  // Same name, different country: query "Par"
  // ---------------------------------------------------------------------------

  const Fr := City("FR", "Paris", 1)
  const Us := City("US", "Paris", 2)
  const Br := City("BR", "Parintins", 3)
  const Sr := City("SR", "Paramaribo", 4)

  lemma ParKeys()
    ensures NameKey(Fr) == "paris" && NameKey(Us) == "paris" && NameKey(Br) == "parintins" && NameKey(Sr) == "paramaribo"
    ensures CountryKey(Fr) == "fr" && CountryKey(Us) == "us" && CountryKey(Br) == "br" && CountryKey(Sr) == "sr"
  {
    assert LowerStr("Paris") == "paris";
    assert LowerStr("Parintins") == "parintins";
    assert LowerStr("Paramaribo") == "paramaribo";
    assert LowerStr("FR") == "fr" && LowerStr("US") == "us" && LowerStr("BR") == "br" && LowerStr("SR") == "sr";
  }

  lemma QueryPar(query: string)
    requires query == "Par"
    ensures Normalize(query) == "par"
  {
    TrimKeepsInner(query);
    assert LowerStr(query)[0] == Lower(query[0]);
  }

  /** Four cities in a row, each before the next, are sorted. */
  lemma Sorted4(p: City, q: City, r: City, s: City)
    requires Before(p, q) && Before(q, r) && Before(r, s)
    ensures Sorted([p, q, r, s])
  {
    BeforeTransitive(p, q, r);
    BeforeTransitive(q, r, s);
    BeforeTransitive(p, r, s);
  }

  lemma ParSorted()
    ensures Sorted([Sr, Br, Fr, Us])
  {
    ParKeys();
    assert Less("paramaribo", "parintins");
    assert Less("parintins", "paris");
    assert Less("fr", "us");
    Sorted4(Sr, Br, Fr, Us);
  }

  /** The contribution of one city to `Ties`. */
  function Tie(c: City, w: City): seq<City>
  {
    if SameKey(c, w) then [c] else []
  }

  lemma Ties4(p: City, q: City, r: City, s: City, w: City)
    ensures Ties([p, q, r, s], w) == Tie(p, w) + Tie(q, w) + Tie(r, w) + Tie(s, w)
  {
    var t := [p, q, r, s];
    assert t[3..][1..] == [];
    assert Ties(t[3..], w) == Tie(s, w);
    assert t[2..][1..] == t[3..];
    assert Ties(t[2..], w) == Tie(r, w) + Tie(s, w);
    assert t[1..][1..] == t[2..];
    assert Ties(t[1..], w) == Tie(q, w) + (Tie(r, w) + Tie(s, w));
    assert Ties(t, w) == Tie(p, w) + (Tie(q, w) + (Tie(r, w) + Tie(s, w)));
  }

  lemma ParTies(w: City)
    ensures Ties([Sr, Br, Fr, Us], w) == Ties([Fr, Us, Br, Sr], w)
  {
    ParKeys();
    Ties4(Sr, Br, Fr, Us, w);
    Ties4(Fr, Us, Br, Sr, w);
    assert !SameKey(Fr, Us) && !SameKey(Fr, Br) && !SameKey(Fr, Sr) && !SameKey(Us, Br) && !SameKey(Us, Sr) && !SameKey(Br, Sr);
  }

  lemma ParSortedPart(cities: seq<City>)
    requires cities == [Fr, Us, Br, Sr]
    ensures NewIndex(cities).sorted == [Sr, Br, Fr, Us]
  {
    var out := [Sr, Br, Fr, Us];
    ParSorted();
    forall w ensures Ties(out, w) == Ties(cities, w) { ParTies(w); }
    AllIsTheStableOrder(cities, out);
  }

  lemma ParMatches()
    ensures MatchesPrefix(Fr, "par") && MatchesPrefix(Us, "par") && MatchesPrefix(Br, "par") && MatchesPrefix(Sr, "par")
  {
    ParKeys();
    MatchesPrefixIffKeyPrefix(Fr, "par");
    MatchesPrefixIffKeyPrefix(Us, "par");
    MatchesPrefixIffKeyPrefix(Br, "par");
    MatchesPrefixIffKeyPrefix(Sr, "par");
    assert "paris"[..3] == "par" && "parintins"[..3] == "par" && "paramaribo"[..3] == "par";
  }

  /** When the index splits into a run of cities that match the query (none
      continuing with U+FFFF or above) followed by a run that does not, the search
      returns the first run. */
  lemma LeadingRunMatches(ix: SearchIndex, query: string, q: string, a: seq<City>, b: seq<City>)
    requires Valid(ix) && Normalize(query) == q && ix.sorted == a + b
    requires forall i :: 0 <= i < |a| ==> MatchesPrefix(a[i], q) && ContinuesBelowSentinel(NameKey(a[i]), q)
    requires forall i :: 0 <= i < |b| ==> !MatchesPrefix(b[i], q)
    ensures FindByPrefix(ix, query) == a
  {
    forall i | 0 <= i < |ix.keys| ensures ContinuesBelowSentinel(ix.keys[i], q) {
      MatchesPrefixIffKeyPrefix(ix.sorted[i], q);
      if i >= |a| { assert ix.sorted[i] == b[i - |a|]; }
    }
    FindByPrefixComplete(ix, query);
    MatchingAppend(a, b, q);
    MatchingAll(a, q);
    MatchingNone(b, q);
  }

  lemma ParCitiesMatch(s: seq<City>)
    requires s == [Sr, Br, Fr, Us]
    ensures forall i :: 0 <= i < |s| ==> MatchesPrefix(s[i], "par")
    ensures forall i :: 0 <= i < |s| ==> ContinuesBelowSentinel(NameKey(s[i]), "par")
  {
    ParKeys();
    ParMatches();
  }

  lemma ParMatchPart(ix: SearchIndex, query: string)
    requires Valid(ix) && ix.sorted == [Sr, Br, Fr, Us] && Normalize(query) == "par"
    ensures FindByPrefix(ix, query) == [Sr, Br, Fr, Us]
  {
    ParCitiesMatch(ix.sorted);
    assert ix.sorted == ix.sorted + [];
    LeadingRunMatches(ix, query, "par", ix.sorted, []);
  }

  /** The index of Paris (FR), Paris (US), Parintins, Paramaribo answers "Par"
      with Paramaribo, Parintins, Paris (FR), Paris (US). */
  lemma CountryTiebreak(cities: seq<City>, query: string)
    requires cities == [Fr, Us, Br, Sr] && query == "Par"
    ensures FindByPrefix(NewIndex(cities), query) == [Sr, Br, Fr, Us]
  {
    ParSortedPart(cities);
    QueryPar(query);
    ParMatchPart(NewIndex(cities), query);
  }

  // ---------------------------------------------------------------------------
  // A name that continues with U+FFFF or above lies above the upper key
  // ---------------------------------------------------------------------------

  const Odd := City("XX", "Par\U{FFFF}a", 5)

  lemma OddKey()
    ensures NameKey(Odd) == "par\U{FFFF}a"
    ensures !Less(NameKey(Odd), "par") && !LessEq(NameKey(Odd), "par\U{FFFF}")
    ensures MatchesPrefix(Odd, "par")
  {
    assert LowerStr("Par\U{FFFF}a") == "par\U{FFFF}a";
    MatchesPrefixIffKeyPrefix(Odd, "par");
    assert "par\U{FFFF}a"[..3] == "par";
  }

  lemma OddMatchPart(ix: SearchIndex, query: string)
    requires Valid(ix) && ix.sorted == [Odd] && Normalize(query) == "par"
    ensures FindByPrefix(ix, query) == []
    ensures Matching(ix.sorted, "par") == [Odd]
  {
    OddKey();
    assert ix.keys == [NameKey(Odd)];
    assert LeadingBelow(ix.keys, "par") == 0;
    assert LeadingAtMost(ix.keys, "par" + [Sentinel]) == 0;
    assert Matching([Odd], "par") == [Odd] + Matching([], "par");
  }

  /** The one-city index of "Par\U{FFFF}a" answers "Par" with nothing though
      the name starts with "par": the upper bound stops before it. */
  lemma SentinelContinuationMissed(cities: seq<City>, query: string)
    requires cities == [Odd] && query == "Par"
    ensures FindByPrefix(NewIndex(cities), query) == []
    ensures Matching(All(NewIndex(cities)), Normalize(query)) == [Odd]
  {
    assert NewIndex(cities).sorted == [Odd];
    QueryPar(query);
    OddMatchPart(NewIndex(cities), query);
  }

  /** A name that is exactly the upper key is still returned: `upperBound`
      counts keys at most the upper key. */
  const Edge := City("XX", "a\U{FFFF}", 7)

  lemma EdgeKey()
    ensures NameKey(Edge) == "a\U{FFFF}"
    ensures MatchesPrefix(Edge, "a") && ContinuesBelowSentinel(NameKey(Edge), "a")
  {
    assert LowerStr("a\U{FFFF}") == "a\U{FFFF}";
    MatchesPrefixIffKeyPrefix(Edge, "a");
    assert "a\U{FFFF}"[..1] == "a";
    assert "a\U{FFFF}" == "a" + [Sentinel];
  }

  lemma EdgeMatchPart(ix: SearchIndex, query: string)
    requires Valid(ix) && ix.sorted == [Edge] && Normalize(query) == "a"
    ensures FindByPrefix(ix, query) == [Edge]
  {
    EdgeKey();
    assert ix.sorted == ix.sorted + [];
    LeadingRunMatches(ix, query, "a", ix.sorted, []);
  }

  /** The one-city index of "a" U+FFFF answers "a" with that city. */
  lemma ExactUpperKeyReturned(cities: seq<City>, query: string)
    requires cities == [Edge] && query == "a"
    ensures FindByPrefix(NewIndex(cities), query) == [Edge]
  {
    assert NewIndex(cities).sorted == [Edge];
    QueryA(query);
    EdgeMatchPart(NewIndex(cities), query);
  }

  /** A name whose character after the query lies outside the Basic
      Multilingual Plane is above the upper key too in the model, where a
      character is a whole code point. */
  const Smiley := City("XX", "a\U{1F600}", 6)

  lemma SmileyKey()
    ensures NameKey(Smiley) == "a\U{1F600}"
    ensures !Less(NameKey(Smiley), "a") && !LessEq(NameKey(Smiley), "a\U{FFFF}")
    ensures MatchesPrefix(Smiley, "a")
  {
    assert LowerStr("a\U{1F600}") == "a\U{1F600}";
    MatchesPrefixIffKeyPrefix(Smiley, "a");
    assert "a\U{1F600}"[..1] == "a";
  }

  lemma SmileyMatchPart(ix: SearchIndex, query: string)
    requires Valid(ix) && ix.sorted == [Smiley] && Normalize(query) == "a"
    ensures FindByPrefix(ix, query) == []
    ensures Matching(ix.sorted, "a") == [Smiley]
  {
    SmileyKey();
    assert ix.keys == [NameKey(Smiley)];
    assert LeadingBelow(ix.keys, "a") == 0;
    assert LeadingAtMost(ix.keys, "a" + [Sentinel]) == 0;
    assert Matching([Smiley], "a") == [Smiley] + Matching([], "a");
  }

  /** The one-city index of "a" U+1F600 answers "a" with nothing in the model. */
  lemma SupplementaryContinuationMissed(cities: seq<City>, query: string)
    requires cities == [Smiley] && query == "a"
    ensures FindByPrefix(NewIndex(cities), query) == []
    ensures Matching(All(NewIndex(cities)), Normalize(query)) == [Smiley]
  {
    assert NewIndex(cities).sorted == [Smiley];
    QueryA(query);
    SmileyMatchPart(NewIndex(cities), query);
  }

  // ---------------------------------------------------------------------------
  // Accented names: query "a"
  // ---------------------------------------------------------------------------

  const AvilaEs := City("ES", "\U{C1}vila", 1)
  const AvilaIt := City("IT", "Avila", 2)
  const Aviken := City("SE", "\U{E4}viken", 3)
  const Avignon := City("FR", "Avignon", 4)

  lemma AccentKeys()
    ensures NameKey(AvilaEs) == "\U{E1}vila" && NameKey(AvilaIt) == "avila"
    ensures NameKey(Aviken) == "\U{E4}viken" && NameKey(Avignon) == "avignon"
  {
    assert LowerStr("\U{C1}vila") == "\U{E1}vila";
    assert LowerStr("Avila") == "avila";
    assert LowerStr("\U{E4}viken") == "\U{E4}viken";
    assert LowerStr("Avignon") == "avignon";
  }

  lemma AccentSorted()
    ensures Sorted([Avignon, AvilaIt, AvilaEs, Aviken])
  {
    AccentKeys();
    assert Less("avignon", "avila");
    assert Less("avila", "\U{E1}vila");
    assert Less("\U{E1}vila", "\U{E4}viken");
    Sorted4(Avignon, AvilaIt, AvilaEs, Aviken);
  }

  lemma AccentTies(w: City)
    ensures Ties([Avignon, AvilaIt, AvilaEs, Aviken], w) == Ties([AvilaEs, AvilaIt, Aviken, Avignon], w)
  {
    AccentKeys();
    Ties4(Avignon, AvilaIt, AvilaEs, Aviken, w);
    Ties4(AvilaEs, AvilaIt, Aviken, Avignon, w);
    assert !SameKey(AvilaEs, AvilaIt) && !SameKey(AvilaEs, Aviken) && !SameKey(AvilaEs, Avignon);
    assert !SameKey(AvilaIt, Aviken) && !SameKey(AvilaIt, Avignon) && !SameKey(Aviken, Avignon);
  }

  lemma AccentMatches()
    ensures MatchesPrefix(Avignon, "a") && MatchesPrefix(AvilaIt, "a")
    ensures !MatchesPrefix(AvilaEs, "a") && !MatchesPrefix(Aviken, "a")
  {
    AccentKeys();
    MatchesPrefixIffKeyPrefix(Avignon, "a");
    MatchesPrefixIffKeyPrefix(AvilaIt, "a");
    MatchesPrefixIffKeyPrefix(AvilaEs, "a");
    MatchesPrefixIffKeyPrefix(Aviken, "a");
    assert "avignon"[..1] == "a" && "avila"[..1] == "a";
    assert "\U{E1}vila"[..1] == "\U{E1}" && "\U{E4}viken"[..1] == "\U{E4}";
  }

  lemma QueryA(query: string)
    requires query == "a"
    ensures Normalize(query) == "a"
  {
    TrimKeepsInner(query);
    assert LowerStr(query)[0] == Lower(query[0]);
  }

  lemma AccentSortedPart(cities: seq<City>)
    requires cities == [AvilaEs, AvilaIt, Aviken, Avignon]
    ensures NewIndex(cities).sorted == [Avignon, AvilaIt, AvilaEs, Aviken]
  {
    var sorted := [Avignon, AvilaIt, AvilaEs, Aviken];
    AccentSorted();
    forall w ensures Ties(sorted, w) == Ties(cities, w) { AccentTies(w); }
    AllIsTheStableOrder(cities, sorted);
  }

  lemma AccentCitiesMatch(a: seq<City>, b: seq<City>)
    requires a == [Avignon, AvilaIt] && b == [AvilaEs, Aviken]
    ensures forall i :: 0 <= i < |a| ==> MatchesPrefix(a[i], "a") && ContinuesBelowSentinel(NameKey(a[i]), "a")
    ensures forall i :: 0 <= i < |b| ==> !MatchesPrefix(b[i], "a")
  {
    AccentKeys();
    AccentMatches();
  }

  lemma AccentMatchPart(ix: SearchIndex, query: string)
    requires Valid(ix) && ix.sorted == [Avignon, AvilaIt, AvilaEs, Aviken] && Normalize(query) == "a"
    ensures FindByPrefix(ix, query) == [Avignon, AvilaIt]
  {
    var a, b := [Avignon, AvilaIt], [AvilaEs, Aviken];
    AccentCitiesMatch(a, b);
    assert ix.sorted == a + b;
    LeadingRunMatches(ix, query, "a", a, b);
  }

  /** The index of Ávila, Avila, äviken, Avignon answers "a" with Avignon, Avila. */
  lemma AccentQuery(cities: seq<City>, query: string)
    requires cities == [AvilaEs, AvilaIt, Aviken, Avignon] && query == "a"
    ensures FindByPrefix(NewIndex(cities), query) == [Avignon, AvilaIt]
  {
    AccentSortedPart(cities);
    QueryA(query);
    AccentMatchPart(NewIndex(cities), query);
  }
}
