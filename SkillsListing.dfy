/** What the skills list shows (src/routes/skills/index.tsx): the entries
    kept by the Highlighted filter, ordered by the chosen key and direction. */
module SkillsListing {
  import opened Wrappers
  import opened SkillsSearch

  /** The counters a skill carries; a skill may have no all-time install count. */
  datatype Stats = Stats(downloads: int, installsAllTime: Option<int>, stars: int)

  /** The fields of a skill document the list reads. Times are milliseconds. */
  datatype Skill = Skill(slug: string, displayName: string, batch: Option<string>,
                         stats: Stats, createdAt: int, updatedAt: int)

  /** A row of the list: the skill and its owner's handle, if known. */
  datatype Entry = Entry(skill: Skill, ownerHandle: Option<string>)

  predicate IsHighlighted(e: Entry) {
    e.skill.batch == Some("highlighted")
  }

  /** The Highlighted filter: every entry when it is off, and only the
      highlighted entries, in order, when it is on. */
  function FilterHighlighted(items: seq<Entry>, highlightedOnly: bool): (r: seq<Entry>)
    ensures |r| <= |items|
    ensures !highlightedOnly ==> r == items
    ensures forall e :: e in r <==> e in items && (highlightedOnly ==> IsHighlighted(e))
  {
    if items == [] then []
    else
      var rest := FilterHighlighted(items[1..], highlightedOnly);
      assert forall e :: e in items <==> e == items[0] || e in items[1..];
      (if !highlightedOnly || IsHighlighted(items[0]) then [items[0]] else []) + rest
  }

  /** The filter keeps the order of the entries. */
  lemma {:induction false} FilterAppend(a: seq<Entry>, b: seq<Entry>, highlightedOnly: bool)
    ensures FilterHighlighted(a + b, highlightedOnly)
         == FilterHighlighted(a, highlightedOnly) + FilterHighlighted(b, highlightedOnly)
  {
    if a == [] {
      assert a + b == b;
    } else {
      assert (a + b)[1..] == a[1..] + b;
      FilterAppend(a[1..], b, highlightedOnly);
    }
  }

  /** The number a non-name key compares: `createdAt` for `newest`, and a
      missing all-time install count read as 0. */
  function Key(sort: SortKey, e: Entry): (r: int)
    ensures sort == Downloads ==> r == e.skill.stats.downloads
    ensures sort == Installs ==> r == if e.skill.stats.installsAllTime.Some? then e.skill.stats.installsAllTime.value else 0
    ensures sort == Stars ==> r == e.skill.stats.stars
    ensures sort == Updated ==> r == e.skill.updatedAt
    ensures sort == Newest || sort == Name ==> r == e.skill.createdAt
  {
    match sort
    case Downloads => e.skill.stats.downloads
    case Installs => e.skill.stats.installsAllTime.GetOr(0)
    case Stars => e.skill.stats.stars
    case Updated => e.skill.updatedAt
    case _ => e.skill.createdAt
  }

  function Multiplier(dir: SortDir): int {
    if dir == Asc then 1 else -1
  }

  /** `a || b` on numbers: `a` unless it is zero. */
  function OrElse(a: int, b: int): int {
    if a != 0 then a else b
  }

  /** A comparison whose sign flips when its arguments are swapped, as
      `localeCompare` and numeric differences behave. */
  ghost predicate Antisymmetric<T(!new)>(cmp: (T, T) -> int) {
    forall a, b :: (cmp(a, b) < 0 <==> cmp(b, a) > 0) && (cmp(a, b) == 0 <==> cmp(b, a) == 0)
  }

  /** The comparator: the difference of the keys, or for names the locale
      order of display names and then of slugs, negated when descending. */
  function Compare(sort: SortKey, dir: SortDir, localeCompare: (string, string) -> int,
                   a: Entry, b: Entry): (r: int)
    ensures sort != Name && dir == Asc ==> (r <= 0 <==> Key(sort, a) <= Key(sort, b))
    ensures sort != Name && dir == Desc ==> (r <= 0 <==> Key(sort, a) >= Key(sort, b))
    ensures sort == Name && dir == Asc ==>
              r == OrElse(localeCompare(a.skill.displayName, b.skill.displayName),
                          localeCompare(a.skill.slug, b.skill.slug))
  {
    var m := Multiplier(dir);
    match sort
    case Name =>
      OrElse(localeCompare(a.skill.displayName, b.skill.displayName),
             localeCompare(a.skill.slug, b.skill.slug)) * m
    case _ => (Key(sort, a) - Key(sort, b)) * m
  }

  /** Descending order is ascending order negated, for every key. */
  lemma DescendingNegates(sort: SortKey, localeCompare: (string, string) -> int, a: Entry, b: Entry)
    ensures Compare(sort, Desc, localeCompare, a, b) == -Compare(sort, Asc, localeCompare, a, b)
  {
  }

  /** Whatever key and direction, the comparator is antisymmetric when the
      locale order is. */
  lemma CompareAntisymmetric(sort: SortKey, dir: SortDir, localeCompare: (string, string) -> int)
    requires Antisymmetric(localeCompare)
    ensures Antisymmetric((a: Entry, b: Entry) => Compare(sort, dir, localeCompare, a, b))
  {
    var cmp := (a: Entry, b: Entry) => Compare(sort, dir, localeCompare, a, b);
    forall a: Entry, b: Entry
      ensures (cmp(a, b) < 0 <==> cmp(b, a) > 0) && (cmp(a, b) == 0 <==> cmp(b, a) == 0)
    {
      if sort == Name {
        var n := localeCompare(a.skill.displayName, b.skill.displayName);
        var n' := localeCompare(b.skill.displayName, a.skill.displayName);
        var s := localeCompare(a.skill.slug, b.skill.slug);
        var s' := localeCompare(b.skill.slug, a.skill.slug);
        assert (n < 0 <==> n' > 0) && (n == 0 <==> n' == 0);
        assert (s < 0 <==> s' > 0) && (s == 0 <==> s' == 0);
      }
    }
  }

  /** Adjacent elements are in order. */
  ghost predicate Sorted<T>(cmp: (T, T) -> int, s: seq<T>) {
    forall i :: 0 <= i < |s| - 1 ==> cmp(s[i], s[i + 1]) <= 0
  }

  /** Puts `x` after every element that does not compare above it, so that
      equal elements keep their order. */
  function Insert<T>(cmp: (T, T) -> int, sorted: seq<T>, x: T): (r: seq<T>)
    ensures |r| == |sorted| + 1
    ensures r[|r| - 1] == x || (sorted != [] && r[|r| - 1] == sorted[|sorted| - 1])
    ensures multiset(r) == multiset(sorted) + multiset{x}
  {
    if sorted == [] then [x]
    else
      var n := |sorted| - 1;
      if cmp(sorted[n], x) <= 0 then sorted + [x]
      else
        assert sorted == sorted[..n] + [sorted[n]];
        Insert(cmp, sorted[..n], x) + [sorted[n]]
  }

  lemma {:induction false} InsertSorted<T(!new)>(cmp: (T, T) -> int, sorted: seq<T>, x: T)
    requires Antisymmetric(cmp)
    requires Sorted(cmp, sorted)
    ensures Sorted(cmp, Insert(cmp, sorted, x))
  {
    if sorted != [] {
      var n := |sorted| - 1;
      if cmp(sorted[n], x) > 0 {
        var prefix := sorted[..n];
        assert Sorted(cmp, prefix) by {
          forall i | 0 <= i < |prefix| - 1 ensures cmp(prefix[i], prefix[i + 1]) <= 0 {
            assert prefix[i] == sorted[i] && prefix[i + 1] == sorted[i + 1];
          }
        }
        InsertSorted(cmp, prefix, x);
        var r' := Insert(cmp, prefix, x);
        assert cmp(r'[|r'| - 1], sorted[n]) <= 0 by {
          if r'[|r'| - 1] == x {
            assert cmp(x, sorted[n]) < 0;
          } else {
            assert r'[|r'| - 1] == sorted[n - 1];
          }
        }
        assert Insert(cmp, sorted, x) == r' + [sorted[n]];
        SortedSnoc(cmp, r', sorted[n]);
      } else {
        assert Insert(cmp, sorted, x) == sorted + [x];
        SortedSnoc(cmp, sorted, x);
      }
    }
  }

  /** Appending an element no smaller than the last keeps a sequence in order. */
  lemma SortedSnoc<T>(cmp: (T, T) -> int, s: seq<T>, y: T)
    requires Sorted(cmp, s)
    requires s == [] || cmp(s[|s| - 1], y) <= 0
    ensures Sorted(cmp, s + [y])
  {
    var t := s + [y];
    forall i | 0 <= i < |t| - 1
      ensures cmp(t[i], t[i + 1]) <= 0
    {
      if i + 1 < |s| {
        assert t[i] == s[i] && t[i + 1] == s[i + 1];
      }
    }
  }

  /** `Array.prototype.sort` with a comparator, which is stable: an insertion
      sort that inserts each element in turn. */
  function SortBy<T>(cmp: (T, T) -> int, xs: seq<T>): (r: seq<T>)
    ensures |r| == |xs|
    ensures multiset(r) == multiset(xs)
  {
    if xs == [] then []
    else
      var n := |xs| - 1;
      assert xs == xs[..n] + [xs[n]];
      Insert(cmp, SortBy(cmp, xs[..n]), xs[n])
  }

  /** With an antisymmetric comparator the result is in order. */
  lemma {:induction false} SortBySorted<T(!new)>(cmp: (T, T) -> int, xs: seq<T>)
    requires Antisymmetric(cmp)
    ensures Sorted(cmp, SortBy(cmp, xs))
  {
    if xs != [] {
      var n := |xs| - 1;
      SortBySorted(cmp, xs[..n]);
      InsertSorted(cmp, SortBy(cmp, xs[..n]), xs[n]);
    }
  }

  /** The rows the list shows, in the order it shows them. */
  function Listed(items: seq<Entry>, highlightedOnly: bool, sort: SortKey, dir: SortDir,
                  localeCompare: (string, string) -> int): (r: seq<Entry>)
    ensures multiset(r) == multiset(FilterHighlighted(items, highlightedOnly))
  {
    SortBy((a: Entry, b: Entry) => Compare(sort, dir, localeCompare, a, b),
           FilterHighlighted(items, highlightedOnly))
  }

  /** The listed rows are the filtered rows, rearranged, and each is in order
      with the next under the comparator. */
  lemma ListedIsSortedPermutation(items: seq<Entry>, highlightedOnly: bool, sort: SortKey,
                                  dir: SortDir, localeCompare: (string, string) -> int)
    requires Antisymmetric(localeCompare)
    ensures var r := Listed(items, highlightedOnly, sort, dir, localeCompare);
            && multiset(r) == multiset(FilterHighlighted(items, highlightedOnly))
            && Sorted((a: Entry, b: Entry) => Compare(sort, dir, localeCompare, a, b), r)
  {
    CompareAntisymmetric(sort, dir, localeCompare);
    SortBySorted((a: Entry, b: Entry) => Compare(sort, dir, localeCompare, a, b),
                 FilterHighlighted(items, highlightedOnly));
  }

  /** For a numeric key the listed rows are ordered by that key: rising when
      ascending and falling when descending. */
  lemma ListedByKey(items: seq<Entry>, highlightedOnly: bool, sort: SortKey, dir: SortDir,
                    localeCompare: (string, string) -> int)
    requires sort != Name
    ensures var r := Listed(items, highlightedOnly, sort, dir, localeCompare);
            forall i, j :: 0 <= i < j < |r| ==>
              (dir == Asc ==> Key(sort, r[i]) <= Key(sort, r[j]))
              && (dir == Desc ==> Key(sort, r[i]) >= Key(sort, r[j]))
  {
    var cmp := (a: Entry, b: Entry) => Compare(sort, dir, localeCompare, a, b);
    NumericAntisymmetric(sort, dir, localeCompare);
    var r := Listed(items, highlightedOnly, sort, dir, localeCompare);
    SortBySorted(cmp, FilterHighlighted(items, highlightedOnly));
    forall i, j | 0 <= i < j < |r|
      ensures (dir == Asc ==> Key(sort, r[i]) <= Key(sort, r[j]))
              && (dir == Desc ==> Key(sort, r[i]) >= Key(sort, r[j]))
    {
      KeyChain(sort, dir, localeCompare, r, i, j);
    }
  }

  /** A numeric comparator is antisymmetric whatever the locale order. */
  lemma NumericAntisymmetric(sort: SortKey, dir: SortDir, localeCompare: (string, string) -> int)
    requires sort != Name
    ensures Antisymmetric((a: Entry, b: Entry) => Compare(sort, dir, localeCompare, a, b))
  {
    var cmp := (a: Entry, b: Entry) => Compare(sort, dir, localeCompare, a, b);
    forall a: Entry, b: Entry
      ensures (cmp(a, b) < 0 <==> cmp(b, a) > 0) && (cmp(a, b) == 0 <==> cmp(b, a) == 0)
    {
      assert cmp(a, b) == (Key(sort, a) - Key(sort, b)) * Multiplier(dir);
      assert cmp(b, a) == (Key(sort, b) - Key(sort, a)) * Multiplier(dir);
    }
  }

  /** Adjacent order on a numeric key extends to any two positions. */
  lemma {:induction false} KeyChain(sort: SortKey, dir: SortDir, localeCompare: (string, string) -> int,
                                    r: seq<Entry>, i: nat, j: nat)
    requires sort != Name
    requires Sorted((a: Entry, b: Entry) => Compare(sort, dir, localeCompare, a, b), r)
    requires i < j < |r|
    ensures dir == Asc ==> Key(sort, r[i]) <= Key(sort, r[j])
    ensures dir == Desc ==> Key(sort, r[i]) >= Key(sort, r[j])
    decreases j - i
  {
    assert Compare(sort, dir, localeCompare, r[i], r[i + 1]) <= 0;
    if i + 1 < j {
      KeyChain(sort, dir, localeCompare, r, i + 1, j);
    }
  }
}
