/** The favourite-city store: one string-set preference holding the decimal
    ids of the favourite cities, read with an empty default and edited one
    id at a time by `toggle`. */
module Favorites {

  datatype Option<T> = None | Some(value: T)

  /** Kotlin's 64-bit `Long`, the type of a city id. */
  newtype Long = x: int | -0x8000_0000_0000_0000 <= x < 0x8000_0000_0000_0000

  // ---------------------------------------------------------------------------
  // Long.toString(): how an id is stored
  // ---------------------------------------------------------------------------

  function DigitChar(d: nat): (c: char)
    requires d < 10
    ensures '0' <= c <= '9'
  {
    ('0' as int + d) as char
  }

  /** The decimal digits of `n`, most significant first. */
  function Digits(n: nat): (s: string)
    ensures |s| >= 1
    ensures forall k :: 0 <= k < |s| ==> '0' <= s[k] <= '9'
    ensures (|s| == 1) == (n < 10)
    ensures |s| > 1 ==> s[0] != '0'
    decreases n
  {
    if n < 10 then [DigitChar(n)] else Digits(n / 10) + [DigitChar(n % 10)]
  }

  /** `Long.toString()`: a minus sign for negative ids, then the digits. */
  function LongToString(n: Long): (s: string)
    ensures |s| >= 1
    ensures (s[0] == '-') <==> n < 0
    ensures forall k :: 0 < k < |s| ==> '0' <= s[k] <= '9'
  {
    if n < 0 then "-" + Digits(-(n as int)) else Digits(n as int)
  }

  lemma {:induction false} DigitsInjective(a: nat, b: nat)
    requires Digits(a) == Digits(b)
    ensures a == b
    decreases a
  {
    if a >= 10 && b >= 10 {
      var da, db := Digits(a), Digits(b);
      assert da[..|da| - 1] == Digits(a / 10) && da[|da| - 1] == DigitChar(a % 10);
      assert db[..|db| - 1] == Digits(b / 10) && db[|db| - 1] == DigitChar(b % 10);
      DigitsInjective(a / 10, b / 10);
    }
  }

  /** Distinct ids are stored under distinct strings. */
  lemma LongToStringInjective(a: Long, b: Long)
    requires LongToString(a) == LongToString(b)
    ensures a == b
  {
    var sa, sb := LongToString(a), LongToString(b);
    assert (a < 0) == (sa[0] == '-');
    assert (b < 0) == (sb[0] == '-');
    if a < 0 && b < 0 {
      assert sa[1..] == Digits(-(a as int)) && sb[1..] == Digits(-(b as int));
      DigitsInjective(-(a as int), -(b as int));
    } else if a >= 0 && b >= 0 {
      DigitsInjective(a as int, b as int);
    }
  }

  // ---------------------------------------------------------------------------
  // The edit made by toggle
  // ---------------------------------------------------------------------------

  /** Add `key` when it is absent, remove it when it is present. */
  function Toggled(ids: set<string>, key: string): (r: set<string>)
    ensures key in r <==> key !in ids
    ensures forall k :: k != key ==> (k in r <==> k in ids)
  {
    if key in ids then ids - {key} else ids + {key}
  }

  /** The read default of the preference: a missing key reads as no favourites. */
  function StoredIds(stored: Option<set<string>>): set<string>
  {
    match stored
    case None => {}
    case Some(ids) => ids
  }

  class FavoritesStore {
    /** The preference under the key `fav_ids`; `None` until first written. */
    var favIds: Option<set<string>>

    /** A store whose preference file has never been written. */
    constructor ()
      ensures favIds == None
      ensures Favorites() == {}
    {
      favIds := None;
    }

    /** The value `favoritesFlow` emits for the current preferences. */
    function Favorites(): set<string>
      reads this
    {
      StoredIds(favIds)
    }

    /** `toggle(id)`: copy the stored set (a fresh empty one when the key is
        missing), add the id's string, remove it instead if `add` reports it
        present, and write the copy back. `added` is what `add` reported. */
    method Toggle(id: Long) returns (added: bool)
      modifies this
      ensures favIds == Some(Toggled(old(Favorites()), LongToString(id)))
      ensures added <==> LongToString(id) !in old(Favorites())
      ensures added <==> LongToString(id) in Favorites()
    {
      var ids := match favIds case None => {} case Some(stored) => stored;
      var key := LongToString(id);
      added := key !in ids;
      if added {
        ids := ids + {key};
      } else {
        ids := ids - {key};
      }
      favIds := Some(ids);
    }
  }

  // ---------------------------------------------------------------------------
  // Sequences of toggles
  // ---------------------------------------------------------------------------

  /** Toggling twice restores the set. */
  lemma ToggleTwiceRestores(ids: set<string>, key: string)
    ensures Toggled(Toggled(ids, key), key) == ids
  {
    var once := Toggled(ids, key);
    assert forall k :: k in Toggled(once, key) <==> k in ids;
  }

  /** Toggling each id of `xs` in turn. */
  function ToggleEach(ids: set<string>, xs: seq<Long>): set<string>
    decreases |xs|
  {
    if xs == [] then ids else ToggleEach(Toggled(ids, LongToString(xs[0])), xs[1..])
  }

  predicate Distinct(xs: seq<Long>)
  {
    forall i, j :: 0 <= i < j < |xs| ==> xs[i] != xs[j]
  }

  function IdStrings(xs: seq<Long>): set<string>
  {
    set x | x in xs :: LongToString(x)
  }

  lemma IdStringsCons(xs: seq<Long>)
    requires xs != []
    ensures IdStrings(xs) == {LongToString(xs[0])} + IdStrings(xs[1..])
  {
    assert xs == [xs[0]] + xs[1..];
  }

  /** After toggling the first of distinct fresh ids, the others are still fresh. */
  lemma StillFresh(ids: set<string>, xs: seq<Long>)
    requires xs != [] && Distinct(xs)
    requires forall x :: x in xs ==> LongToString(x) !in ids
    ensures Distinct(xs[1..])
    ensures forall x :: x in xs[1..] ==> LongToString(x) !in Toggled(ids, LongToString(xs[0]))
  {
    var key := LongToString(xs[0]);
    forall x | x in xs[1..] ensures LongToString(x) !in Toggled(ids, key) {
      var j :| 0 <= j < |xs[1..]| && xs[1..][j] == x;
      assert xs[j + 1] == x;
      if LongToString(x) == key {
        LongToStringInjective(x, xs[0]);
      }
    }
  }

  /** Toggling distinct ids none of which is stored adds exactly those ids. */
  lemma {:induction false} ToggleEachAddsFresh(ids: set<string>, xs: seq<Long>)
    requires Distinct(xs)
    requires forall x :: x in xs ==> LongToString(x) !in ids
    ensures ToggleEach(ids, xs) == ids + IdStrings(xs)
    decreases |xs|
  {
    if xs != [] {
      var key := LongToString(xs[0]);
      StillFresh(ids, xs);
      ToggleEachAddsFresh(Toggled(ids, key), xs[1..]);
      IdStringsCons(xs);
    }
  }

  /** From no favourites, toggling distinct ids yields exactly their set. */
  lemma ToggleEachFromEmpty(xs: seq<Long>)
    requires Distinct(xs)
    ensures ToggleEach({}, xs) == IdStrings(xs)
  {
    ToggleEachAddsFresh({}, xs);
  }

  /** Toggling one of them again removes that id and no other. */
  lemma ToggleOneAgainRemovesOnlyIt(xs: seq<Long>, i: nat)
    requires Distinct(xs) && i < |xs|
    ensures Toggled(ToggleEach({}, xs), LongToString(xs[i]))
      == set x | x in xs && x != xs[i] :: LongToString(x)
  {
    ToggleEachFromEmpty(xs);
    var key := LongToString(xs[i]);
    var rest := set x | x in xs && x != xs[i] :: LongToString(x);
    forall k ensures k in Toggled(IdStrings(xs), key) <==> k in rest {
      if k in rest {
        var x :| x in xs && x != xs[i] && LongToString(x) == k;
        if k == key { LongToStringInjective(x, xs[i]); }
      }
    }
  }
}
