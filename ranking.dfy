/**
 * `Counter.most_common()`: the entries of the tally by descending count,
 * equal counts kept in the Counter's insertion order (Python's sort is
 * stable, also with `reverse=True`); `most_common(n)` is the first `n` of
 * that ranking.
 */
module Ranking {
  import opened Strings
  import opened Tally

  /** Puts `x` just before the first entry of `s` whose count is not greater than its own. */
  function Insert(x: Entry, s: seq<Entry>): seq<Entry> {
    if s == [] || s[0].count <= x.count then [x] + s else [s[0]] + Insert(x, s[1..])
  }

  /** How many leading entries of `s` have a count greater than that of `x`. */
  function InsertPoint(x: Entry, s: seq<Entry>): nat {
    if s == [] || s[0].count <= x.count then 0 else 1 + InsertPoint(x, s[1..])
  }

  /** `Insert` places `x` after the entries that outrank it and before all others. */
  lemma {:induction false} InsertSplit(x: Entry, s: seq<Entry>)
    ensures InsertPoint(x, s) <= |s|
    ensures Insert(x, s) == s[..InsertPoint(x, s)] + [x] + s[InsertPoint(x, s)..]
    ensures forall i :: 0 <= i < InsertPoint(x, s) ==> s[i].count > x.count
    ensures InsertPoint(x, s) < |s| ==> s[InsertPoint(x, s)].count <= x.count
  {
    if s != [] && s[0].count > x.count {
      InsertSplit(x, s[1..]);
      var k := InsertPoint(x, s[1..]);
      assert s[..k + 1] == [s[0]] + s[1..][..k];
      assert s[k + 1..] == s[1..][k..];
    }
  }

  /** `c.most_common()`: a stable sort of the entries by descending count. */
  function MostCommon(c: Counter): seq<Entry> {
    if c == [] then [] else Insert(c[0], MostCommon(c[1..]))
  }

  /** `c.most_common(n)`: the first `n` entries of the ranking (all of them when there are fewer). */
  function MostCommonN(c: Counter, n: nat): seq<Entry> {
    var r := MostCommon(c);
    r[..if n < |r| then n else |r|]
  }

  /** Counts never go up along the sequence. */
  predicate NonIncreasing(r: seq<Entry>) {
    forall i, j :: 0 <= i < j < |r| ==> r[i].count >= r[j].count
  }

  lemma {:induction false} InsertPermutation(x: Entry, s: seq<Entry>)
    ensures multiset(Insert(x, s)) == multiset(s) + multiset{x}
  {
    if s != [] && s[0].count > x.count {
      var t := s[1..];
      InsertPermutation(x, t);
      assert s == [s[0]] + t;
      assert Insert(x, s) == [s[0]] + Insert(x, t);
      assert multiset([s[0]] + Insert(x, t)) == multiset{s[0]} + multiset(Insert(x, t));
    }
  }

  /** The entries of `Insert(x, s)` are `x` and those of `s`. */
  lemma {:induction false} InsertMembers(x: Entry, s: seq<Entry>, e: Entry)
    ensures e in Insert(x, s) <==> e == x || e in s
  {
    if s != [] && s[0].count > x.count {
      InsertMembers(x, s[1..], e);
      assert s == [s[0]] + s[1..];
    }
  }

  /** Where `e` sits in `s`. */
  lemma IndexOf(s: seq<Entry>, e: Entry) returns (m: nat)
    requires e in s
    ensures m < |s| && s[m] == e
  {
    m :| 0 <= m < |s| && s[m] == e;
  }

  /** The ranking holds the same entries as the Counter, each as often. */
  lemma {:induction false} MostCommonPermutation(c: Counter)
    ensures multiset(MostCommon(c)) == multiset(c)
  {
    if c != [] {
      MostCommonPermutation(c[1..]);
      InsertPermutation(c[0], MostCommon(c[1..]));
      assert c == [c[0]] + c[1..];
    }
  }

  /** Inserting into a non-increasing sequence keeps it non-increasing. */
  lemma {:induction false} InsertSorted(x: Entry, s: seq<Entry>)
    requires NonIncreasing(s)
    ensures NonIncreasing(Insert(x, s))
  {
    if s == [] || s[0].count <= x.count {
      var r := [x] + s;
      forall i, j | 0 <= i < j < |r| ensures r[i].count >= r[j].count {
        assert r[j] == s[j - 1];
        if i > 0 {
          assert r[i] == s[i - 1];
        }
      }
    } else {
      var t := s[1..];
      InsertSorted(x, t);
      var u := Insert(x, t);
      var r := [s[0]] + u;
      forall i, j | 0 <= i < j < |r| ensures r[i].count >= r[j].count {
        assert r[j] == u[j - 1];
        if i == 0 {
          InsertMembers(x, t, r[j]);
          if r[j] != x {
            var m := IndexOf(t, r[j]);
            assert s[m + 1] == r[j];
          }
        } else {
          assert r[i] == u[i - 1];
        }
      }
    }
  }

  /** The ranking is in non-increasing count order. */
  lemma {:induction false} MostCommonSorted(c: Counter)
    ensures NonIncreasing(MostCommon(c))
  {
    if c != [] {
      MostCommonSorted(c[1..]);
      InsertSorted(c[0], MostCommon(c[1..]));
    }
  }

  /** Along every run of equal counts, `key` of the species increases. */
  ghost predicate TiesOrdered(r: seq<Entry>, key: string -> int) {
    forall i, j :: 0 <= i < j < |r| && r[i].count == r[j].count ==> key(r[i].species) < key(r[j].species)
  }

  lemma {:induction false} InsertTies(x: Entry, s: seq<Entry>, key: string -> int)
    requires TiesOrdered(s, key)
    requires forall e :: e in s ==> key(x.species) < key(e.species)
    ensures TiesOrdered(Insert(x, s), key)
  {
    if s == [] || s[0].count <= x.count {
      var r := [x] + s;
      forall i, j | 0 <= i < j < |r| && r[i].count == r[j].count
        ensures key(r[i].species) < key(r[j].species)
      {
        assert r[j] == s[j - 1];
        if i > 0 {
          assert r[i] == s[i - 1];
        }
      }
    } else {
      var t := s[1..];
      forall e | e in t ensures key(x.species) < key(e.species) {
        assert e in s;
      }
      InsertTies(x, t, key);
      var u := Insert(x, t);
      var r := [s[0]] + u;
      forall i, j | 0 <= i < j < |r| && r[i].count == r[j].count
        ensures key(r[i].species) < key(r[j].species)
      {
        assert r[j] == u[j - 1];
        if i == 0 {
          InsertMembers(x, t, r[j]);
          if r[j] != x {
            var m := IndexOf(t, r[j]);
            assert s[m + 1] == r[j];
          }
        } else {
          assert r[i] == u[i - 1];
        }
      }
    }
  }

  /**
   * Ties keep the Counter's order: if `key` increases along the Counter, it
   * increases along every run of equal counts in the ranking.
   */
  lemma {:induction false} MostCommonTies(c: Counter, key: string -> int)
    requires forall i, j :: 0 <= i < j < |c| ==> key(c[i].species) < key(c[j].species)
    ensures TiesOrdered(MostCommon(c), key)
  {
    if c != [] {
      var rest := c[1..];
      MostCommonTies(rest, key);
      var s := MostCommon(rest);
      MostCommonPermutation(rest);
      forall e | e in s ensures key(c[0].species) < key(e.species) {
        assert e in multiset(rest);
        var m :| 0 <= m < |rest| && rest[m] == e;
        assert c[m + 1] == e;
      }
      InsertTies(c[0], s, key);
    }
  }

  /**
   * For the tally of `xs`: the ranking is non-increasing, and among equal
   * counts the species that occurs first in `xs` comes first.
   */
  lemma RankingOfTally(xs: seq<string>)
    ensures NonIncreasing(MostCommon(CounterOf(xs)))
    ensures TiesOrdered(MostCommon(CounterOf(xs)), k => FirstIndex(xs, k))
  {
    var c := CounterOf(xs);
    CounterOfOrder(xs);
    forall i, j | 0 <= i < j < |c| ensures FirstIndex(xs, c[i].species) < FirstIndex(xs, c[j].species) {
      assert Species(c)[i] == c[i].species && Species(c)[j] == c[j].species;
    }
    MostCommonSorted(c);
    MostCommonTies(c, k => FirstIndex(xs, k));
  }

  /**
   * `most_common(n)` holds at most `n` entries, all of them when there are
   * fewer, is a prefix of the full ranking, and none of the entries it leaves
   * out has a greater count than one it keeps.
   */
  lemma TopEntries(c: Counter, n: nat)
    ensures var r := MostCommon(c); var top := MostCommonN(c, n);
      && |top| == (if n < |c| then n else |c|)
      && top <= r
      && forall i, j :: 0 <= i < |top| <= j < |r| ==> top[i].count >= r[j].count
  {
    MostCommonPermutation(c);
    assert |MostCommon(c)| == |multiset(MostCommon(c))| == |multiset(c)| == |c|;
    MostCommonSorted(c);
  }

  lemma {:induction false} CountOfEntry(c: Counter, i: nat)
    requires WellFormed(c) && i < |c|
    ensures Count(c, c[i].species) == c[i].count
  {
    if i > 0 {
      assert Species(c)[0] != Species(c)[i];
      WellFormedTail(c);
      CountOfEntry(c[1..], i - 1);
    }
  }

  lemma RepeatedEntry(r: seq<Entry>, i: nat, j: nat)
    requires i < j < |r| && r[i] == r[j]
    ensures multiset(r)[r[i]] >= 2
  {
    assert r == r[..j] + [r[j]] + r[j + 1..];
    assert r[i] in r[..j];
  }

  /** Each entry of a permutation of `c` is an entry of `c`. */
  lemma EntryOfPermutation(c: Counter, r: seq<Entry>, i: nat) returns (m: nat)
    requires multiset(r) == multiset(c) && i < |r|
    ensures m < |c| && c[m] == r[i]
  {
    assert r[i] in multiset(c);
    m :| 0 <= m < |c| && c[m] == r[i];
  }

  lemma EntryOnce(c: Counter, p: nat)
    requires WellFormed(c) && p < |c|
    ensures multiset(c)[c[p]] == 1
  {
    assert c == c[..p] + [c[p]] + c[p + 1..];
    assert c[p] !in c[..p] by {
      forall q | 0 <= q < p ensures c[..p][q] != c[p] { assert Species(c)[q] != Species(c)[p]; }
    }
    var after := c[p + 1..];
    assert c[p] !in after by {
      forall q | 0 <= q < |after| ensures after[q] != c[p] {
        assert Species(c)[p] != Species(c)[p + 1 + q];
      }
    }
  }

  /** A permutation of a well-formed Counter still lists no species twice. */
  lemma PermutationDistinct(c: Counter, r: seq<Entry>)
    requires WellFormed(c) && multiset(r) == multiset(c)
    ensures NoDuplicates(Species(r))
  {
    forall i, j | 0 <= i < j < |r| ensures Species(r)[i] != Species(r)[j] {
      var p := EntryOfPermutation(c, r, i);
      var q := EntryOfPermutation(c, r, j);
      if p == q {
        RepeatedEntry(r, i, j);
        EntryOnce(c, p);
      } else {
        assert Species(c)[p] != Species(c)[q];
      }
    }
  }

  /** A permutation of a Counter has the same species. */
  lemma PermutationSpecies(c: Counter, r: seq<Entry>, k: string)
    requires multiset(r) == multiset(c)
    ensures k in Species(r) <==> k in Species(c)
  {
    if k in Species(r) {
      var i :| 0 <= i < |r| && Species(r)[i] == k;
      var p := EntryOfPermutation(c, r, i);
      assert Species(c)[p] == k;
    }
    if k in Species(c) {
      var p :| 0 <= p < |c| && Species(c)[p] == k;
      assert c[p] in multiset(r);
      var i :| 0 <= i < |r| && r[i] == c[p];
      assert Species(r)[i] == k;
    }
  }

  /**
   * The summary table (`most_common()` of a well-formed Counter) has one row
   * per key of the Counter and no other: as many rows as keys, no species
   * twice, the same species, each with its tally count.
   */
  lemma SummaryRows(c: Counter)
    requires WellFormed(c)
    ensures var r := MostCommon(c);
      && |r| == |c|
      && NoDuplicates(Species(r))
      && (forall k :: k in Species(r) <==> k in Species(c))
      && forall i :: 0 <= i < |r| ==> r[i].count == Count(c, r[i].species)
  {
    MostCommonPermutation(c);
    var r := MostCommon(c);
    assert |r| == |multiset(r)| == |multiset(c)| == |c|;
    PermutationDistinct(c, r);
    forall k ensures k in Species(r) <==> k in Species(c) {
      PermutationSpecies(c, r, k);
    }
    forall i | 0 <= i < |r| ensures r[i].count == Count(c, r[i].species) {
      var p := EntryOfPermutation(c, r, i);
      CountOfEntry(c, p);
    }
  }

  lemma ExampleFlatten()
    ensures Flatten([["A", "B"], ["A"], [], ["B", "C"]]) == ["A", "B", "A", "B", "C"]
  {
    var r1: seq<seq<string>> := [["A", "B"]];
    assert r1[..0] == [];
    var r2 := r1 + [["A"]];
    assert r2[..1] == r1;
    var r3 := r2 + [[]];
    assert r3[..2] == r2;
    var rows := r3 + [["B", "C"]];
    assert rows[..3] == r3;
    assert Flatten(r1) == ["A", "B"];
    assert Flatten(r2) == ["A", "B", "A"];
    assert Flatten(r3) == ["A", "B", "A"];
    assert rows == [["A", "B"], ["A"], [], ["B", "C"]];
  }

  lemma ExampleCounter()
    ensures CounterOf(["A", "B", "A", "B", "C"]) == [Entry("A", 2), Entry("B", 2), Entry("C", 1)]
  {
    var all := ["A", "B", "A", "B", "C"];
    assert all[..4] == ["A", "B", "A", "B"];
    assert all[..4][..3] == ["A", "B", "A"];
    assert all[..4][..3][..2] == ["A", "B"];
    assert all[..4][..3][..2][..1] == ["A"];
    var c1 := [Entry("A", 1)];
    assert CounterOf(["A"]) == c1;
    assert c1[1..] == [];
    var c2 := [Entry("A", 1), Entry("B", 1)];
    assert CounterOf(["A", "B"]) == c2;
    var c3 := [Entry("A", 2), Entry("B", 1)];
    assert c2[1..] == [Entry("B", 1)];
    assert CounterOf(["A", "B", "A"]) == c3;
    var c4 := [Entry("A", 2), Entry("B", 2)];
    assert c3[1..] == [Entry("B", 1)] && c3[1..][1..] == [];
    assert CounterOf(["A", "B", "A", "B"]) == c4;
    assert c4[1..] == [Entry("B", 2)] && c4[1..][1..] == [];
  }

  lemma ExampleRanking()
    ensures MostCommonN([Entry("A", 2), Entry("B", 2), Entry("C", 1)], 2) == [Entry("A", 2), Entry("B", 2)]
  {
    var tally := [Entry("A", 2), Entry("B", 2), Entry("C", 1)];
    assert tally[1..] == [Entry("B", 2), Entry("C", 1)];
    var last := [Entry("C", 1)];
    assert tally[1..][1..] == last && last[1..] == [];
    assert MostCommon(last) == Insert(last[0], []) == last;
    assert MostCommon(tally[1..]) == Insert(Entry("B", 2), last) == [Entry("B", 2)] + last;
    assert Insert(tally[0], tally[1..]) == [tally[0]] + tally[1..] == tally;
    assert MostCommon(tally) == tally;
    assert tally[..2] == [Entry("A", 2), Entry("B", 2)];
  }

  /**
   * Rows naming {A, B}, {A}, nothing and {B, C}: A and B are tallied twice
   * and C once, and of the two tied species the one met first leads.
   */
  lemma TallyExample()
    ensures var tally := CounterOf(Flatten([["A", "B"], ["A"], [], ["B", "C"]]));
      && tally == [Entry("A", 2), Entry("B", 2), Entry("C", 1)]
      && MostCommonN(tally, 2) == [Entry("A", 2), Entry("B", 2)]
  {
    ExampleFlatten();
    ExampleCounter();
    ExampleRanking();
  }
}
