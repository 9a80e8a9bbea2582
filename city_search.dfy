/** The case-insensitive prefix search index over the city list: a list
    sorted by (lowercased name, lowercased country), the parallel list of
    lowercased names, two binary searches and the prefix query built on them. */
module CitySearch {
  import opened Text

  /** A city of the catalogue. Its coordinates play no part in searching. */
  datatype City = City(country: string, name: string, id: int)

  /** The first sort selector and the search key: the lowercased name. */
  function NameKey(c: City): string
  {
    LowerStr(c.name)
  }

  /** The second sort selector: the lowercased country. */
  function CountryKey(c: City): string
  {
    LowerStr(c.country)
  }

  // ---------------------------------------------------------------------------
  // The comparator compareBy({ lowercased name }, { lowercased country })
  // ---------------------------------------------------------------------------

  /** `a` may come before `b`: the comparator does not report `a > b`. */
  predicate Before(a: City, b: City)
  {
    Less(NameKey(a), NameKey(b))
    || (NameKey(a) == NameKey(b) && LessEq(CountryKey(a), CountryKey(b)))
  }

  /** The comparator reports a full tie. */
  predicate SameKey(a: City, b: City)
  {
    NameKey(a) == NameKey(b) && CountryKey(a) == CountryKey(b)
  }

  lemma BeforeTotal(a: City, b: City)
    ensures Before(a, b) || Before(b, a)
  {
    LessTotal(NameKey(a), NameKey(b));
    LessTotal(CountryKey(a), CountryKey(b));
  }

  lemma BeforeTransitive(a: City, b: City, c: City)
    requires Before(a, b) && Before(b, c)
    ensures Before(a, c)
  {
    if Less(NameKey(a), NameKey(b)) {
      LessLessEq(NameKey(a), NameKey(b), NameKey(c));
    } else if !Less(NameKey(b), NameKey(c)) {
      LessEqTransitive(CountryKey(a), CountryKey(b), CountryKey(c));
    }
  }

  lemma BeforeAntisymmetric(a: City, b: City)
    requires Before(a, b) && Before(b, a)
    ensures SameKey(a, b)
  {
    LessAsymmetric(NameKey(a), NameKey(b));
    LessIrreflexive(NameKey(a));
    LessAsymmetric(CountryKey(a), CountryKey(b));
    LessIrreflexive(CountryKey(a));
  }

  predicate Sorted(s: seq<City>)
  {
    forall i, j :: 0 <= i < j < |s| ==> Before(s[i], s[j])
  }

  /** The cities of `s` that tie with `w` under the comparator, in their order in `s`. */
  function Ties(s: seq<City>, w: City): seq<City>
  {
    if s == [] then [] else (if SameKey(s[0], w) then [s[0]] else []) + Ties(s[1..], w)
  }

  lemma {:induction false} TiesMembers(s: seq<City>, w: City)
    ensures forall e :: e in Ties(s, w) ==> e in s && SameKey(e, w)
    decreases |s|
  {
    if s != [] { TiesMembers(s[1..], w); }
  }

  lemma TiesCons(h: City, s: seq<City>, w: City)
    ensures Ties([h] + s, w) == (if SameKey(h, w) then [h] else []) + Ties(s, w)
  {
    assert ([h] + s)[1..] == s;
  }

  // ---------------------------------------------------------------------------
  // sortedWith: a stable sort under the comparator
  // ---------------------------------------------------------------------------

  /** Puts `x` in front of the first element it may precede, that is after
      every element strictly below it. */
  function Insert(x: City, t: seq<City>): (r: seq<City>)
    ensures multiset(r) == multiset(t) + multiset{x}
  {
    if t == [] || Before(x, t[0]) then [x] + t
    else
      assert t == [t[0]] + t[1..];
      [t[0]] + Insert(x, t[1..])
  }

  lemma SortedCons(h: City, r: seq<City>)
    requires Sorted(r)
    requires forall e :: e in r ==> Before(h, e)
    ensures Sorted([h] + r)
  {
    forall i, j | 0 <= i < j < |[h] + r| ensures Before(([h] + r)[i], ([h] + r)[j]) {
      if i > 0 {
        assert ([h] + r)[i] == r[i - 1] && ([h] + r)[j] == r[j - 1];
      } else {
        assert ([h] + r)[j] == r[j - 1];
        assert r[j - 1] in r;
      }
    }
  }

  lemma {:induction false} InsertSorted(x: City, t: seq<City>)
    requires Sorted(t)
    ensures Sorted(Insert(x, t))
    decreases |t|
  {
    if t == [] {
    } else if Before(x, t[0]) {
      forall e | e in t ensures Before(x, e) {
        var j :| 0 <= j < |t| && t[j] == e;
        if j > 0 { BeforeTransitive(x, t[0], t[j]); }
      }
      SortedCons(x, t);
    } else {
      BeforeTotal(x, t[0]);
      var tail := t[1..];
      InsertSorted(x, tail);
      var r := Insert(x, tail);
      forall e | e in r ensures Before(t[0], e) {
        assert e in multiset(r);
        if e != x {
          assert e in multiset(tail);
          var j :| 0 <= j < |tail| && tail[j] == e;
          assert t[j + 1] == e;
        }
      }
      SortedCons(t[0], r);
    }
  }

  /** Inserting `x` adds it at the head of its ties: nothing it skips ties with it. */
  lemma {:induction false} InsertTies(x: City, t: seq<City>, w: City)
    ensures Ties(Insert(x, t), w) == (if SameKey(x, w) then [x] else []) + Ties(t, w)
    decreases |t|
  {
    if t == [] || Before(x, t[0]) {
      TiesCons(x, t, w);
    } else {
      InsertTies(x, t[1..], w);
      TiesCons(t[0], Insert(x, t[1..]), w);
      assert t == [t[0]] + t[1..];
      TiesCons(t[0], t[1..], w);
    }
  }

  /** Kotlin's `sortedWith` on the comparator; the library sort is stable. */
  function StableSort(s: seq<City>): (r: seq<City>)
    ensures multiset(r) == multiset(s)
    ensures Sorted(r)
  {
    if s == [] then []
    else
      var t := StableSort(s[1..]);
      assert s == [s[0]] + s[1..];
      InsertSorted(s[0], t);
      Insert(s[0], t)
  }

  /** Stability: every class of tied cities keeps its input order. */
  lemma {:induction false} StableSortKeepsTies(s: seq<City>, w: City)
    ensures Ties(StableSort(s), w) == Ties(s, w)
    decreases |s|
  {
    if s != [] {
      StableSortKeepsTies(s[1..], w);
      InsertTies(s[0], StableSort(s[1..]), w);
    }
  }

  lemma TiesHead(s: seq<City>, w: City)
    requires s != [] && SameKey(s[0], w)
    ensures Ties(s, w) == [s[0]] + Ties(s[1..], w)
  {
  }

  /** In a sorted sequence the head may precede every city of a nonempty tie class. */
  lemma HeadPrecedesTies(s: seq<City>, w: City)
    requires Sorted(s) && s != [] && Ties(s, w) != []
    ensures Before(s[0], w)
  {
    var e := Ties(s, w)[0];
    TiesMembers(s, w);
    assert e in Ties(s, w);
    var i :| 0 <= i < |s| && s[i] == e;
    assert Before(s[0], s[i]);
  }

  lemma TiesOfTails(a: seq<City>, b: seq<City>)
    requires a != [] && b != [] && a[0] == b[0]
    requires forall w :: Ties(a, w) == Ties(b, w)
    ensures forall w :: Ties(a[1..], w) == Ties(b[1..], w)
  {
    forall w ensures Ties(a[1..], w) == Ties(b[1..], w) {
      var h := if SameKey(a[0], w) then [a[0]] else [];
      assert Ties(a, w) == h + Ties(a[1..], w);
      assert Ties(b, w) == h + Ties(b[1..], w);
      assert Ties(a[1..], w) == Ties(a, w)[|h|..];
      assert Ties(b[1..], w) == Ties(b, w)[|h|..];
    }
  }

  /** Two sorted sequences with the same ties start with the same city: each
      head may precede the other's, so both share one tie class, whose first
      member is the head of either. */
  lemma SameTiesSameHead(a: seq<City>, b: seq<City>)
    requires Sorted(a) && Sorted(b) && a != [] && b != []
    requires Ties(a, a[0]) == Ties(b, a[0]) && Ties(a, b[0]) == Ties(b, b[0])
    ensures a[0] == b[0]
  {
    var x, y := a[0], b[0];
    TiesHead(a, x);
    TiesHead(b, y);
    HeadPrecedesTies(b, x);
    HeadPrecedesTies(a, y);
    BeforeAntisymmetric(x, y);
    TiesHead(b, x);
    assert x == Ties(a, x)[0] == Ties(b, x)[0] == y;
  }

  lemma OwnTiesNonEmpty(s: seq<City>)
    requires s != []
    ensures Ties(s, s[0]) != []
  {
    TiesHead(s, s[0]);
  }

  /** A sequence that is sorted and keeps every class of ties in input order
      is unique, so any stable sort (the library's included) yields `StableSort`. */
  lemma {:induction false} SortedWithSameTiesUnique(a: seq<City>, b: seq<City>)
    requires Sorted(a) && Sorted(b)
    requires forall w :: Ties(a, w) == Ties(b, w)
    ensures a == b
    decreases |a|
  {
    if a != [] && b != [] {
      SameTiesSameHead(a, b);
      TiesOfTails(a, b);
      SortedWithSameTiesUnique(a[1..], b[1..]);
      assert a == [a[0]] + a[1..] && b == [b[0]] + b[1..];
    } else if a != [] {
      OwnTiesNonEmpty(a);
    } else if b != [] {
      OwnTiesNonEmpty(b);
    }
  }

  // ---------------------------------------------------------------------------
  // The index
  // ---------------------------------------------------------------------------

  /** `sorted` and the parallel list `keys` of lowercased names. */
  datatype SearchIndex = SearchIndex(sorted: seq<City>, keys: seq<string>)

  predicate Valid(ix: SearchIndex)
  {
    Sorted(ix.sorted)
    && |ix.keys| == |ix.sorted|
    && forall i :: 0 <= i < |ix.keys| ==> ix.keys[i] == NameKey(ix.sorted[i])
  }

  predicate KeysSorted(keys: seq<string>)
  {
    forall i, j :: 0 <= i < j < |keys| ==> LessEq(keys[i], keys[j])
  }

  lemma ValidKeysSorted(ix: SearchIndex)
    requires Valid(ix)
    ensures KeysSorted(ix.keys)
  {
  }

  /** The constructor: sort the cities, then take their lowercased names. */
  function NewIndex(cities: seq<City>): (ix: SearchIndex)
    ensures Valid(ix) && KeysSorted(ix.keys)
    ensures multiset(ix.sorted) == multiset(cities)
    ensures forall w :: Ties(ix.sorted, w) == Ties(cities, w)
  {
    var sorted := StableSort(cities);
    var keys := seq(|sorted|, i requires 0 <= i < |sorted| => NameKey(sorted[i]));
    forall w ensures Ties(sorted, w) == Ties(cities, w) {
      StableSortKeepsTies(cities, w);
    }
    SearchIndex(sorted, keys)
  }

  /** `all()`: the sorted list. */
  function All(ix: SearchIndex): seq<City>
  {
    ix.sorted
  }

  /** What `all()` returns is determined by the input alone: it is the one
      sorted arrangement of the cities that keeps tied cities in input order. */
  lemma AllIsTheStableOrder(cities: seq<City>, out: seq<City>)
    requires Sorted(out)
    requires forall w :: Ties(out, w) == Ties(cities, w)
    ensures All(NewIndex(cities)) == out
  {
    SortedWithSameTiesUnique(All(NewIndex(cities)), out);
  }

  // ---------------------------------------------------------------------------
  // The two bounds, as specifications and as binary searches
  // ---------------------------------------------------------------------------

  /** Length of the longest run at the front of `keys` of entries below `key`. */
  function LeadingBelow(keys: seq<string>, key: string): (n: nat)
    ensures n <= |keys|
    ensures forall j :: 0 <= j < n ==> Less(keys[j], key)
    ensures n < |keys| ==> !Less(keys[n], key)
  {
    if keys == [] || !Less(keys[0], key) then 0 else 1 + LeadingBelow(keys[1..], key)
  }

  /** Length of the longest run at the front of `keys` of entries at most `key`. */
  function LeadingAtMost(keys: seq<string>, key: string): (n: nat)
    ensures n <= |keys|
    ensures forall j :: 0 <= j < n ==> LessEq(keys[j], key)
    ensures n < |keys| ==> !LessEq(keys[n], key)
  {
    if keys == [] || !LessEq(keys[0], key) then 0 else 1 + LeadingAtMost(keys[1..], key)
  }

  /** On sorted keys the run is the whole of the part below `key`. */
  lemma BelowPartition(keys: seq<string>, key: string)
    requires KeysSorted(keys)
    ensures forall j :: LeadingBelow(keys, key) <= j < |keys| ==> !Less(keys[j], key)
  {
    var n := LeadingBelow(keys, key);
    forall j | n <= j < |keys| ensures !Less(keys[j], key) {
      if j > n { NotLessMonotone(keys[n], keys[j], key); }
    }
  }

  lemma AtMostPartition(keys: seq<string>, key: string)
    requires KeysSorted(keys)
    ensures forall j :: LeadingAtMost(keys, key) <= j < |keys| ==> !LessEq(keys[j], key)
  {
    var n := LeadingAtMost(keys, key);
    forall j | n <= j < |keys| ensures !LessEq(keys[j], key) {
      if j > n { NotLessEqMonotone(keys[n], keys[j], key); }
    }
  }

  /** The run below `a` never outlasts the run at most `b` when `a < b`. */
  lemma {:induction false} LeadingBoundsOrdered(keys: seq<string>, a: string, b: string)
    requires Less(a, b)
    ensures LeadingBelow(keys, a) <= LeadingAtMost(keys, b)
    decreases |keys|
  {
    if keys != [] && Less(keys[0], a) {
      LessTransitive(keys[0], a, b);
      LeadingBoundsOrdered(keys[1..], a, b);
    }
  }

  lemma NotLessMonotone(a: string, b: string, key: string)
    requires LessEq(a, b) && !Less(a, key)
    ensures !Less(b, key)
  {
    if Less(b, key) { LessEqLess(a, b, key); }
  }

  lemma NotLessEqMonotone(a: string, b: string, key: string)
    requires LessEq(a, b) && !LessEq(a, key)
    ensures !LessEq(b, key)
  {
    if LessEq(b, key) { LessEqTransitive(a, b, key); }
  }

  /** `lowerBound`: the first index whose key is not below `key`. */
  method LowerBound(list: seq<string>, key: string) returns (i: nat)
    requires KeysSorted(list)
    ensures i <= |list|
    ensures forall j :: 0 <= j < i ==> Less(list[j], key)
    ensures forall j :: i <= j < |list| ==> !Less(list[j], key)
    ensures i == LeadingBelow(list, key)
  {
    var left, rightInclusive := 0, |list|;
    while left < rightInclusive
      invariant 0 <= left <= rightInclusive <= |list|
      invariant forall j :: 0 <= j < left ==> Less(list[j], key)
      invariant forall j :: rightInclusive <= j < |list| ==> !Less(list[j], key)
      decreases rightInclusive - left
    {
      var midIndex := (left + rightInclusive) / 2;
      if Less(list[midIndex], key) {
        forall j | 0 <= j < midIndex ensures Less(list[j], key) {
          LessEqLess(list[j], list[midIndex], key);
        }
        left := midIndex + 1;
      } else {
        forall j | midIndex < j < |list| ensures !Less(list[j], key) {
          NotLessMonotone(list[midIndex], list[j], key);
        }
        rightInclusive := midIndex;
      }
    }
    i := left;
    var n := LeadingBelow(list, key);
    assert i < |list| ==> !Less(list[i], key);
    assert n < |list| ==> !Less(list[n], key);
  }

  /** `upperBound`: the first index whose key is above `key`. */
  method UpperBound(list: seq<string>, key: string) returns (i: nat)
    requires KeysSorted(list)
    ensures i <= |list|
    ensures forall j :: 0 <= j < i ==> LessEq(list[j], key)
    ensures forall j :: i <= j < |list| ==> !LessEq(list[j], key)
    ensures i == LeadingAtMost(list, key)
  {
    var left, rightInclusive := 0, |list|;
    while left < rightInclusive
      invariant 0 <= left <= rightInclusive <= |list|
      invariant forall j :: 0 <= j < left ==> LessEq(list[j], key)
      invariant forall j :: rightInclusive <= j < |list| ==> !LessEq(list[j], key)
      decreases rightInclusive - left
    {
      var midIndex := (left + rightInclusive) / 2;
      if LessEq(list[midIndex], key) {
        forall j | 0 <= j < midIndex ensures LessEq(list[j], key) {
          LessEqTransitive(list[j], list[midIndex], key);
        }
        left := midIndex + 1;
      } else {
        forall j | midIndex < j < |list| ensures !LessEq(list[j], key) {
          NotLessEqMonotone(list[midIndex], list[j], key);
        }
        rightInclusive := midIndex;
      }
    }
    i := left;
    var n := LeadingAtMost(list, key);
    assert i < |list| ==> !LessEq(list[i], key);
    assert n < |list| ==> !LessEq(list[n], key);
  }

  // ---------------------------------------------------------------------------
  // findByPrefix
  // ---------------------------------------------------------------------------

  function Min(a: int, b: int): int
  {
    if a <= b then a else b
  }

  /** The final filter: the name is at least as long as the query and its
      lowercased leading part equals the query. */
  predicate MatchesPrefix(c: City, q: string)
  {
    |c.name| >= |q| && LowerStr(c.name[..Min(|c.name|, |q|)]) == q
  }

  lemma MatchesPrefixIffKeyPrefix(c: City, q: string)
    ensures MatchesPrefix(c, q) <==> IsPrefix(q, NameKey(c))
  {
    if |c.name| >= |q| {
      LowerStrSlice(c.name, 0, |q|);
    }
  }

  /** `filter` with `MatchesPrefix`. */
  function Matching(s: seq<City>, q: string): (r: seq<City>)
    ensures |r| <= |s|
    decreases |s|
  {
    if s == [] then [] else (if MatchesPrefix(s[0], q) then [s[0]] else []) + Matching(s[1..], q)
  }

  lemma {:induction false} MatchingAppend(a: seq<City>, b: seq<City>, q: string)
    ensures Matching(a + b, q) == Matching(a, q) + Matching(b, q)
    decreases |a|
  {
    if a == [] {
      assert a + b == b;
    } else {
      var h := if MatchesPrefix(a[0], q) then [a[0]] else [];
      assert (a + b)[0] == a[0] && (a + b)[1..] == a[1..] + b;
      assert Matching(a + b, q) == h + Matching(a[1..] + b, q);
      MatchingAppend(a[1..], b, q);
      assert Matching(a, q) == h + Matching(a[1..], q);
    }
  }

  lemma {:induction false} MatchingNone(s: seq<City>, q: string)
    requires forall i :: 0 <= i < |s| ==> !MatchesPrefix(s[i], q)
    ensures Matching(s, q) == []
    decreases |s|
  {
    if s != [] { MatchingNone(s[1..], q); }
  }

  lemma {:induction false} MatchingAll(s: seq<City>, q: string)
    requires forall i :: 0 <= i < |s| ==> MatchesPrefix(s[i], q)
    ensures Matching(s, q) == s
    decreases |s|
  {
    if s != [] { MatchingAll(s[1..], q); }
  }

  lemma {:induction false} MatchingEmptyQuery(s: seq<City>)
    ensures Matching(s, []) == s
    decreases |s|
  {
    if s != [] {
      assert MatchesPrefix(s[0], []);
      MatchingEmptyQuery(s[1..]);
    }
  }

  /** `prefix.trim().lowercase(Locale.ROOT)`, then the empty check, the lower
      bound of the query, the emptiness check on it, the upper bound of the
      query followed by U+FFFF, and the filter of the slice in between. */
  function FindByPrefix(ix: SearchIndex, prefix: string): (r: seq<City>)
    requires Valid(ix)
    ensures |r| <= |ix.sorted|
    ensures Normalize(prefix) == [] ==> r == All(ix)
  {
    var cityPrefix := Normalize(prefix);
    if cityPrefix == [] then ix.sorted
    else
      var start := LeadingBelow(ix.keys, cityPrefix);
      if start >= |ix.keys| then []
      else
        var end := LeadingAtMost(ix.keys, cityPrefix + [Sentinel]);
        LessThanExtension(cityPrefix, Sentinel);
        LeadingBoundsOrdered(ix.keys, cityPrefix, cityPrefix + [Sentinel]);
        Matching(ix.sorted[start..end], cityPrefix)
  }

  /** `CitySearchIndex.findByPrefix` as the Kotlin code runs it, with the two
      binary searches. */
  method RunFindByPrefix(ix: SearchIndex, prefix: string) returns (r: seq<City>)
    requires Valid(ix)
    ensures r == FindByPrefix(ix, prefix)
  {
    var cityPrefix := Normalize(prefix);
    if cityPrefix == [] {
      return ix.sorted;
    }
    ValidKeysSorted(ix);
    var start := LowerBound(ix.keys, cityPrefix);
    if start >= |ix.keys| {
      return [];
    }
    var maxKey := cityPrefix + [Sentinel];
    var end := UpperBound(ix.keys, maxKey);
    LessThanExtension(cityPrefix, Sentinel);
    LeadingBoundsOrdered(ix.keys, cityPrefix, maxKey);
    r := Matching(ix.sorted[start..end], cityPrefix);
  }

  // ---------------------------------------------------------------------------
  // What findByPrefix returns
  // ---------------------------------------------------------------------------

  /** `r` is `s` with some elements left out, the rest in their order. */
  predicate Subsequence(r: seq<City>, s: seq<City>)
    decreases |s|
  {
    r == [] || (s != [] && ((r[0] == s[0] && Subsequence(r[1..], s[1..])) || Subsequence(r, s[1..])))
  }

  lemma {:induction false} MatchingSubsequence(s: seq<City>, q: string)
    ensures Subsequence(Matching(s, q), s)
    decreases |s|
  {
    if s != [] {
      MatchingSubsequence(s[1..], q);
      if MatchesPrefix(s[0], q) {
        assert ([s[0]] + Matching(s[1..], q))[1..] == Matching(s[1..], q);
      } else {
        assert Matching(s, q) == Matching(s[1..], q);
      }
    }
  }

  lemma {:induction false} MatchingMembers(s: seq<City>, q: string)
    ensures forall e :: e in Matching(s, q) ==> e in s && MatchesPrefix(e, q)
    decreases |s|
  {
    if s != [] { MatchingMembers(s[1..], q); }
  }

  lemma {:induction false} MatchingSorted(s: seq<City>, q: string)
    requires Sorted(s)
    ensures Sorted(Matching(s, q))
    decreases |s|
  {
    if s != [] {
      MatchingSorted(s[1..], q);
      if MatchesPrefix(s[0], q) {
        MatchingMembers(s[1..], q);
        forall e | e in Matching(s[1..], q) ensures Before(s[0], e) {
          var j :| 0 <= j < |s[1..]| && s[1..][j] == e;
          assert s[j + 1] == e;
        }
        SortedCons(s[0], Matching(s[1..], q));
      }
    }
  }

  lemma {:induction false} SubsequenceTake(r: seq<City>, s: seq<City>, k: nat)
    requires Subsequence(r, s) && k <= |r|
    ensures Subsequence(r[..k], s)
    decreases |s|
  {
    if k > 0 {
      if r[0] == s[0] && Subsequence(r[1..], s[1..]) {
        SubsequenceTake(r[1..], s[1..], k - 1);
        assert r[..k][1..] == r[1..][..k - 1];
      } else {
        SubsequenceTake(r, s[1..], k);
      }
    }
  }

  /** A key below the query cannot start with it. */
  lemma BelowQueryDoesNotMatch(c: City, q: string)
    requires Less(NameKey(c), q)
    ensures !MatchesPrefix(c, q)
  {
    MatchesPrefixIffKeyPrefix(c, q);
    LessIrreflexive(q);
    LessAsymmetric(NameKey(c), q);
    if IsPrefix(q, NameKey(c)) {
      PrefixNotAbove(q, NameKey(c));
    }
  }

  /** `key` does not continue past the query `q` with U+FFFF or above,
      unless it is exactly the upper key `q + U+FFFF`. */
  predicate ContinuesBelowSentinel(key: string, q: string)
  {
    !IsPrefix(q, key) || |key| == |q| || key[|q|] < Sentinel || key == q + [Sentinel]
  }

  /** A key above the upper key cannot start with the query, unless it
      continues with U+FFFF or above. */
  lemma AboveUpperKeyDoesNotMatch(c: City, q: string)
    requires !LessEq(NameKey(c), q + [Sentinel])
    requires ContinuesBelowSentinel(NameKey(c), q)
    ensures !MatchesPrefix(c, q)
  {
    MatchesPrefixIffKeyPrefix(c, q);
    if IsPrefix(q, NameKey(c)) {
      PrefixBelowUpperKey(q, NameKey(c));
    }
  }

  /** No city before the lower bound of a query matches it. */
  lemma NothingBelowMatches(ix: SearchIndex, q: string)
    requires Valid(ix)
    ensures Matching(ix.sorted[..LeadingBelow(ix.keys, q)], q) == []
  {
    var below := ix.sorted[..LeadingBelow(ix.keys, q)];
    forall i | 0 <= i < |below| ensures !MatchesPrefix(below[i], q) {
      BelowQueryDoesNotMatch(below[i], q);
    }
    MatchingNone(below, q);
  }

  lemma MatchingSplit(s: seq<City>, i: nat, j: nat, q: string)
    requires i <= j <= |s|
    ensures Matching(s, q) == Matching(s[..i], q) + Matching(s[i..j], q) + Matching(s[j..], q)
  {
    assert s == s[..i] + s[i..j] + s[j..];
    MatchingAppend(s[..i], s[i..j], q);
    MatchingAppend(s[..i] + s[i..j], s[j..], q);
  }

  lemma MatchingSplitBelow(s: seq<City>, i: nat, j: nat, q: string)
    requires i <= j <= |s| && Matching(s[..i], q) == []
    ensures Matching(s, q) == Matching(s[i..j], q) + Matching(s[j..], q)
  {
    MatchingSplit(s, i, j, q);
  }

  /** The list splits at the two bounds: nothing before the lower bound
      matches, so the whole answer is the window's answer followed by the
      answer past the upper bound. */
  lemma MatchingAtBounds(ix: SearchIndex, q: string)
    requires Valid(ix) && q != []
    ensures var start := LeadingBelow(ix.keys, q);
      start >= |ix.keys| ==> Matching(ix.sorted, q) == []
    ensures var start, end := LeadingBelow(ix.keys, q), LeadingAtMost(ix.keys, q + [Sentinel]);
      start < |ix.keys| ==>
        start <= end
        && Matching(ix.sorted, q) == Matching(ix.sorted[start..end], q) + Matching(ix.sorted[end..], q)
  {
    var start, end := LeadingBelow(ix.keys, q), LeadingAtMost(ix.keys, q + [Sentinel]);
    NothingBelowMatches(ix, q);
    if start >= |ix.keys| {
      assert ix.sorted[..start] == ix.sorted;
    } else {
      LessThanExtension(q, Sentinel);
      LeadingBoundsOrdered(ix.keys, q, q + [Sentinel]);
      MatchingSplitBelow(ix.sorted, start, end, q);
    }
  }

  /** Unconditionally, the result is the first part of the complete answer:
      every city in sorted order whose lowercased name starts with the query. */
  lemma FindByPrefixIsPrefixOfMatches(ix: SearchIndex, prefix: string)
    requires Valid(ix)
    ensures var r, m := FindByPrefix(ix, prefix), Matching(ix.sorted, Normalize(prefix));
      |r| <= |m| && m[..|r|] == r
  {
    var q := Normalize(prefix);
    if q == [] {
      MatchingEmptyQuery(ix.sorted);
    } else {
      MatchingAtBounds(ix, q);
    }
  }

  /** The result is exactly the complete answer when no lowercased name that
      starts with the query continues with U+FFFF or above. */
  lemma FindByPrefixComplete(ix: SearchIndex, prefix: string)
    requires Valid(ix)
    requires forall i :: 0 <= i < |ix.keys| ==> ContinuesBelowSentinel(ix.keys[i], Normalize(prefix))
    ensures FindByPrefix(ix, prefix) == Matching(ix.sorted, Normalize(prefix))
  {
    var q := Normalize(prefix);
    if q == [] {
      MatchingEmptyQuery(ix.sorted);
    } else {
      MatchingAtBounds(ix, q);
      var start, end := LeadingBelow(ix.keys, q), LeadingAtMost(ix.keys, q + [Sentinel]);
      if start < |ix.keys| {
        ValidKeysSorted(ix);
        AtMostPartition(ix.keys, q + [Sentinel]);
        var above := ix.sorted[end..];
        forall i | 0 <= i < |above| ensures !MatchesPrefix(above[i], q) {
          assert NameKey(above[i]) == ix.keys[end + i];
          AboveUpperKeyDoesNotMatch(above[i], q);
        }
        MatchingNone(above, q);
      }
    }
  }

  /** A query that is empty or all whitespace returns the whole sorted list. */
  lemma FindByPrefixBlank(ix: SearchIndex, prefix: string)
    requires Valid(ix)
    requires forall k :: 0 <= k < |prefix| ==> IsWhitespace(prefix[k])
    ensures FindByPrefix(ix, prefix) == All(ix)
  {
    TrimEmptyIffBlank(prefix);
  }

  /** With a non-blank query, a lower bound past the end yields an empty result. */
  lemma FindByPrefixPastEnd(ix: SearchIndex, prefix: string)
    requires Valid(ix)
    requires Normalize(prefix) != [] && LeadingBelow(ix.keys, Normalize(prefix)) >= |ix.keys|
    ensures FindByPrefix(ix, prefix) == []
    ensures Matching(ix.sorted, Normalize(prefix)) == []
  {
    MatchingAtBounds(ix, Normalize(prefix));
  }

  /** Matching ignores case: lowercasing the query first changes nothing. */
  lemma FindByPrefixIgnoresCase(ix: SearchIndex, prefix: string)
    requires Valid(ix)
    ensures FindByPrefix(ix, LowerStr(prefix)) == FindByPrefix(ix, prefix)
  {
    NormalizeIgnoresCase(prefix);
  }

  /** The result keeps the index order: it is a subsequence of `all()`, sorted,
      cities with the same name come out by country, and every city's
      lowercased name starts with the query. */
  lemma FindByPrefixOrdered(ix: SearchIndex, prefix: string)
    requires Valid(ix)
    ensures var r := FindByPrefix(ix, prefix);
      && Subsequence(r, All(ix))
      && Sorted(r)
      && (forall i, j :: 0 <= i < j < |r| && NameKey(r[i]) == NameKey(r[j])
            ==> LessEq(CountryKey(r[i]), CountryKey(r[j])))
      && (forall c :: c in r ==> IsPrefix(Normalize(prefix), NameKey(c)))
  {
    var q := Normalize(prefix);
    var r, m := FindByPrefix(ix, prefix), Matching(ix.sorted, q);
    FindByPrefixIsPrefixOfMatches(ix, prefix);
    MatchingSubsequence(ix.sorted, q);
    SubsequenceTake(m, ix.sorted, |r|);
    MatchingSorted(ix.sorted, q);
    MatchingMembers(ix.sorted, q);
    forall c | c in r ensures IsPrefix(q, NameKey(c)) {
      MatchesPrefixIffKeyPrefix(c, q);
    }
    SortedSameNameByCountry(r);
  }

  /** In a sorted list, cities with the same lowercased name are in country order. */
  lemma SortedSameNameByCountry(r: seq<City>)
    requires Sorted(r)
    ensures forall i, j :: 0 <= i < j < |r| && NameKey(r[i]) == NameKey(r[j]) ==>
              LessEq(CountryKey(r[i]), CountryKey(r[j]))
  {
    forall i, j | 0 <= i < j < |r| && NameKey(r[i]) == NameKey(r[j])
      ensures LessEq(CountryKey(r[i]), CountryKey(r[j]))
    {
      assert Before(r[i], r[j]);
      LessIrreflexive(NameKey(r[i]));
    }
  }
}
