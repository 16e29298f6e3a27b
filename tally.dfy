/**
 * The corpus tally: `Counter(all_species)`, where `all_species` is every
 * row's species list concatenated in row order. A Counter is a dictionary
 * that remembers insertion order; it is modelled as the sequence of its
 * (species, count) entries in that order.
 */
module Tally {
  import opened Strings

  /** One item of the Counter: a species and how often it was added. */
  datatype Entry = Entry(species: string, count: nat)

  type Counter = seq<Entry>

  /** The keys of the Counter, in insertion order. */
  function Species(c: Counter): (r: seq<string>)
    ensures |r| == |c| && forall i :: 0 <= i < |c| ==> r[i] == c[i].species
  {
    if c == [] then [] else [c[0].species] + Species(c[1..])
  }

  /** Every key once, and only keys that were added at least once. */
  predicate WellFormed(c: Counter) {
    NoDuplicates(Species(c)) && forall i :: 0 <= i < |c| ==> c[i].count >= 1
  }

  /** `c[k]`: the count of `k`, 0 when `k` is not a key. */
  function Count(c: Counter, k: string): nat {
    if c == [] then 0 else if c[0].species == k then c[0].count else Count(c[1..], k)
  }

  /** The sum of all counts. */
  function Total(c: Counter): nat {
    if c == [] then 0 else c[0].count + Total(c[1..])
  }

  /** Counting one more occurrence of `x`: the existing entry goes up by one, or a new one is appended. */
  function Add(c: Counter, x: string): Counter {
    if c == [] then [Entry(x, 1)]
    else if c[0].species == x then [Entry(x, c[0].count + 1)] + c[1..]
    else [c[0]] + Add(c[1..], x)
  }

  lemma {:induction false} CountAbsent(c: Counter, k: string)
    requires k !in Species(c)
    ensures Count(c, k) == 0
  {
    if c != [] {
      assert Species(c) == [c[0].species] + Species(c[1..]);
      CountAbsent(c[1..], k);
    }
  }

  /** The tail of a well-formed Counter is well formed and does not hold its head's species. */
  lemma WellFormedTail(c: Counter)
    requires WellFormed(c) && c != []
    ensures WellFormed(c[1..]) && c[0].species !in Species(c[1..])
  {
    var s := Species(c);
    assert s == [c[0].species] + Species(c[1..]);
    forall i, j | 0 <= i < j < |c| - 1 ensures Species(c[1..])[i] != Species(c[1..])[j] {
      assert Species(c[1..])[i] == s[i + 1] && Species(c[1..])[j] == s[j + 1];
    }
  }

  lemma {:induction false} AddCount(c: Counter, x: string, k: string)
    ensures Count(Add(c, x), k) == Count(c, k) + (if k == x then 1 else 0)
  {
    if c != [] && c[0].species != x {
      AddCount(c[1..], x, k);
    }
  }

  lemma {:induction false} AddTotal(c: Counter, x: string)
    ensures Total(Add(c, x)) == Total(c) + 1
  {
    if c != [] && c[0].species != x {
      AddTotal(c[1..], x);
    }
  }

  lemma {:induction false} AddSpecies(c: Counter, x: string)
    ensures Species(Add(c, x)) == if x in Species(c) then Species(c) else Species(c) + [x]
  {
    if c != [] {
      assert Species(c) == [c[0].species] + Species(c[1..]);
      if c[0].species == x {
        assert Species(Add(c, x)) == [x] + Species(c[1..]);
      } else {
        AddSpecies(c[1..], x);
        assert Species(Add(c, x)) == [c[0].species] + Species(Add(c[1..], x));
      }
    }
  }

  lemma {:induction false} AddPositive(c: Counter, x: string)
    requires forall i :: 0 <= i < |c| ==> c[i].count >= 1
    ensures forall i :: 0 <= i < |Add(c, x)| ==> Add(c, x)[i].count >= 1
  {
    if c != [] && c[0].species != x {
      AddPositive(c[1..], x);
      assert Add(c, x) == [c[0]] + Add(c[1..], x);
    }
  }

  /**
   * Adding `x` keeps the Counter well formed, raises the count of `x` by one
   * and no other count, adds one to the total, and appends `x` to the keys
   * exactly when it was not a key yet.
   */
  lemma AddSpec(c: Counter, x: string)
    requires WellFormed(c)
    ensures WellFormed(Add(c, x))
    ensures forall k :: Count(Add(c, x), k) == Count(c, k) + (if k == x then 1 else 0)
    ensures Total(Add(c, x)) == Total(c) + 1
    ensures Species(Add(c, x)) == if x in Species(c) then Species(c) else Species(c) + [x]
  {
    forall k ensures Count(Add(c, x), k) == Count(c, k) + (if k == x then 1 else 0) {
      AddCount(c, x, k);
    }
    AddTotal(c, x);
    AddSpecies(c, x);
    AddPositive(c, x);
    var t := Species(Add(c, x));
    if x !in Species(c) {
      forall i, j | 0 <= i < j < |t| ensures t[i] != t[j] {
        if j == |t| - 1 {
          assert t[i] == Species(c)[i];
        }
      }
    }
  }

  /** `Counter(xs)`: each string of `xs` added in order, starting from the empty Counter. */
  function CounterOf(xs: seq<string>): Counter {
    if xs == [] then [] else Add(CounterOf(xs[..|xs| - 1]), xs[|xs| - 1])
  }

  /** Where `k` first occurs in `xs`, or `|xs|` when it does not occur. */
  function FirstIndex(xs: seq<string>, k: string): (n: nat)
    ensures n <= |xs| && (n < |xs| <==> k in xs)
    ensures n < |xs| ==> xs[n] == k && k !in xs[..n]
  {
    if xs == [] then 0 else if xs[0] == k then 0 else 1 + FirstIndex(xs[1..], k)
  }

  lemma {:induction false} FirstIndexExtend(xs: seq<string>, x: string, k: string)
    requires k in xs
    ensures FirstIndex(xs + [x], k) == FirstIndex(xs, k)
  {
    if xs[0] != k {
      assert (xs + [x])[1..] == xs[1..] + [x];
      FirstIndexExtend(xs[1..], x, k);
    }
  }

  /**
   * `Counter(xs)`: the count of every string is its number of occurrences in
   * `xs`, the counts sum to `|xs|`, and the keys are exactly the strings of
   * `xs`, each once.
   */
  lemma {:induction false} CounterOfSpec(xs: seq<string>)
    ensures WellFormed(CounterOf(xs))
    ensures forall k :: Count(CounterOf(xs), k) == multiset(xs)[k]
    ensures Total(CounterOf(xs)) == |xs|
    ensures forall k :: k in Species(CounterOf(xs)) <==> k in xs
  {
    if xs != [] {
      var init := xs[..|xs| - 1];
      var x := xs[|xs| - 1];
      assert xs == init + [x];
      CounterOfSpec(init);
      AddSpec(CounterOf(init), x);
      forall k ensures k in xs <==> k in init || k == x {
      }
    }
  }

  /** Appending `x` to `init` keeps the first-occurrence order of the keys and puts a new `x` last. */
  lemma OrderStep(init: seq<string>, x: string, keys: seq<string>)
    requires forall k :: k in keys <==> k in init
    requires forall i, j :: 0 <= i < j < |keys| ==> FirstIndex(init, keys[i]) < FirstIndex(init, keys[j])
    ensures var next := if x in keys then keys else keys + [x];
      forall i, j :: 0 <= i < j < |next| ==> FirstIndex(init + [x], next[i]) < FirstIndex(init + [x], next[j])
  {
    var next := if x in keys then keys else keys + [x];
    forall i, j | 0 <= i < j < |next|
      ensures FirstIndex(init + [x], next[i]) < FirstIndex(init + [x], next[j])
    {
      assert next[i] == keys[i];
      FirstIndexExtend(init, x, keys[i]);
      if j < |keys| {
        assert next[j] == keys[j];
        FirstIndexExtend(init, x, keys[j]);
      } else {
        assert next[j] == x && x !in init;
        assert (init + [x])[|init|] == x;
      }
    }
  }

  /** The keys of `Counter(xs)` come in the order in which they first occur in `xs`. */
  lemma {:induction false} CounterOfOrder(xs: seq<string>)
    ensures forall i, j :: 0 <= i < j < |Species(CounterOf(xs))| ==>
      FirstIndex(xs, Species(CounterOf(xs))[i]) < FirstIndex(xs, Species(CounterOf(xs))[j])
  {
    if xs != [] {
      var init := xs[..|xs| - 1];
      var x := xs[|xs| - 1];
      assert init + [x] == xs;
      var c := CounterOf(init);
      var keys := Species(c);
      CounterOfOrder(init);
      CounterOfSpec(init);
      AddSpecies(c, x);
      OrderStep(init, x, keys);
      var next := if x in keys then keys else keys + [x];
      assert Species(CounterOf(xs)) == next;
      forall i, j | 0 <= i < j < |next| ensures FirstIndex(xs, next[i]) < FirstIndex(xs, next[j]) {
      }
    }
  }

  /** A sequence without repeats has as many elements as its set. */
  lemma {:induction false} DistinctCardinality(s: seq<string>)
    requires NoDuplicates(s)
    ensures |set x | x in s| == |s|
  {
    if s != [] {
      var rest := s[1..];
      assert NoDuplicates(rest) by {
        forall i, j | 0 <= i < j < |rest| ensures rest[i] != rest[j] {
          assert rest[i] == s[i + 1] && rest[j] == s[j + 1];
        }
      }
      DistinctCardinality(rest);
      assert (set x | x in s) == {s[0]} + (set x | x in rest);
      assert s[0] !in rest;
    }
  }

  /** `len(Counter(xs))` is the number of distinct strings in `xs`. */
  lemma DistinctKeys(xs: seq<string>)
    ensures |CounterOf(xs)| == |set x | x in xs|
  {
    CounterOfSpec(xs);
    var s := Species(CounterOf(xs));
    DistinctCardinality(s);
    assert (set x | x in s) == (set x | x in xs);
  }

  /** Every row's species list, concatenated in row order (`all_species`). */
  function Flatten(rows: seq<seq<string>>): seq<string> {
    if rows == [] then [] else Flatten(rows[..|rows| - 1]) + rows[|rows| - 1]
  }

  /** The number of rows whose list contains `k`. */
  function RowsMentioning(rows: seq<seq<string>>, k: string): nat {
    if rows == [] then 0
    else RowsMentioning(rows[..|rows| - 1], k) + (if k in rows[|rows| - 1] then 1 else 0)
  }

  /** The sum of the list lengths, that is of the `species_count` column. */
  function SumOfCounts(rows: seq<seq<string>>): nat {
    if rows == [] then 0 else SumOfCounts(rows[..|rows| - 1]) + |rows[|rows| - 1]|
  }

  /** The number of rows with at least one species. */
  function RowsWithSpecies(rows: seq<seq<string>>): nat {
    if rows == [] then 0
    else RowsWithSpecies(rows[..|rows| - 1]) + (if rows[|rows| - 1] != [] then 1 else 0)
  }

  lemma {:induction false} OccurrencesWithoutDuplicates(xs: seq<string>, k: string)
    requires NoDuplicates(xs)
    ensures multiset(xs)[k] == if k in xs then 1 else 0
  {
    if xs != [] {
      var init := xs[..|xs| - 1];
      assert xs == init + [xs[|xs| - 1]];
      assert NoDuplicates(init) by {
        forall i, j | 0 <= i < j < |init| ensures init[i] != init[j] {
          assert init[i] == xs[i] && init[j] == xs[j];
        }
      }
      assert xs[|xs| - 1] !in init;
      OccurrencesWithoutDuplicates(init, k);
    }
  }

  /**
   * When every row lists each species at most once, the tally of a species is
   * the number of rows that mention it.
   */
  lemma {:induction false} TallyCountsRows(rows: seq<seq<string>>, k: string)
    requires forall i :: 0 <= i < |rows| ==> NoDuplicates(rows[i])
    ensures Count(CounterOf(Flatten(rows)), k) == RowsMentioning(rows, k)
  {
    CounterOfSpec(Flatten(rows));
    MultisetCountsRows(rows, k);
  }

  lemma {:induction false} MultisetCountsRows(rows: seq<seq<string>>, k: string)
    requires forall i :: 0 <= i < |rows| ==> NoDuplicates(rows[i])
    ensures multiset(Flatten(rows))[k] == RowsMentioning(rows, k)
  {
    if rows != [] {
      var init := rows[..|rows| - 1];
      MultisetCountsRows(init, k);
      OccurrencesWithoutDuplicates(rows[|rows| - 1], k);
    }
  }

  /** The counts of the tally add up to the sum of the `species_count` column. */
  lemma {:induction false} TallyTotal(rows: seq<seq<string>>)
    ensures Total(CounterOf(Flatten(rows))) == SumOfCounts(rows)
  {
    CounterOfSpec(Flatten(rows));
    FlattenLength(rows);
  }

  lemma {:induction false} FlattenLength(rows: seq<seq<string>>)
    ensures |Flatten(rows)| == SumOfCounts(rows)
  {
    if rows != [] {
      FlattenLength(rows[..|rows| - 1]);
    }
  }

  /** At most every row has species. */
  lemma {:induction false} RowsWithSpeciesBound(rows: seq<seq<string>>)
    ensures RowsWithSpecies(rows) <= |rows|
  {
    if rows != [] {
      RowsWithSpeciesBound(rows[..|rows| - 1]);
    }
  }

  /** The tally is empty exactly when no row has a species. */
  lemma {:induction false} TallyEmptyIff(rows: seq<seq<string>>)
    ensures CounterOf(Flatten(rows)) == [] <==> RowsWithSpecies(rows) == 0
  {
    CounterOfSpec(Flatten(rows));
    FlattenEmptyIff(rows);
    if Flatten(rows) != [] {
      assert Flatten(rows)[0] in Species(CounterOf(Flatten(rows)));
    }
  }

  lemma {:induction false} FlattenEmptyIff(rows: seq<seq<string>>)
    ensures Flatten(rows) == [] <==> RowsWithSpecies(rows) == 0
  {
    if rows != [] {
      FlattenEmptyIff(rows[..|rows| - 1]);
    }
  }
}
