/** Grouping the primer3 result into a table (primer_design.py:105-119). The
    result is an ordered sequence of (key, value) pairs, as the dictionary is
    iterated; for every pair index `i`, each key containing `str(i)` has its
    value appended to the list of the tag `key.replace("_" + str(i), "")`. */
module ResultTable {
  import opened Strings

  /** `"PRIMER_PAIR_" + str(i)`: the column name of pair `i`. */
  function PairName(i: nat): string {
    "PRIMER_PAIR_" + NatToString(i)
  }

  /** The `index` list after `n` rounds of the outer loop. */
  function PairNames(n: nat): (names: seq<string>)
    ensures |names| == n
    ensures forall i :: 0 <= i < n ==> names[i] == PairName(i)
  {
    if n == 0 then [] else PairNames(n - 1) + [PairName(n - 1)]
  }

  /** Different pairs get different column names. */
  lemma PairNamesDistinct(n: nat, i: nat, j: nat)
    requires i < n && j < n && i != j
    ensures PairNames(n)[i] != PairNames(n)[j]
  {
    var prefix := "PRIMER_PAIR_";
    if PairName(i) == PairName(j) {
      assert PairName(i)[|prefix|..] == NatToString(i);
      assert PairName(j)[|prefix|..] == NatToString(j);
      NatToStringInjective(i, j);
    }
  }

  /** `key.replace("_" + str(i), "")`: the tag a key is filed under for pair `i`. */
  function Tag(key: string, i: nat): string {
    RemoveAll(key, "_" + NatToString(i))
  }

  /** Key `key` takes part in round `i`: `str(i) in key`. */
  predicate Matches(key: string, i: nat) {
    Contains(key, NatToString(i))
  }

  /** The (tag, value) appends of round `i` over the pairs, in their order. */
  function RoundAppends<V>(pairs: seq<(string, V)>, i: nat): seq<(string, V)> {
    if pairs == [] then []
    else
      var last := pairs[|pairs| - 1];
      RoundAppends(pairs[..|pairs| - 1], i)
        + (if Matches(last.0, i) then [(Tag(last.0, i), last.1)] else [])
  }

  /** The appends of rounds `0` to `n - 1`, one round after the other. */
  function Appends<V>(pairs: seq<(string, V)>, n: nat): seq<(string, V)> {
    if n == 0 then [] else Appends(pairs, n - 1) + RoundAppends(pairs, n - 1)
  }

  /** The table the appends in `log` build, starting from an empty one; a tag's
      list is created by its first append. */
  function Collect<V>(log: seq<(string, V)>): map<string, seq<V>> {
    if log == [] then map[]
    else
      var table := Collect(log[..|log| - 1]);
      var entry := log[|log| - 1];
      table[entry.0 := (if entry.0 in table then table[entry.0] else []) + [entry.1]]
  }

  // ---------------------------------------------------------------------------
  // Reference definitions and what the table holds
  // ---------------------------------------------------------------------------

  /** The values appended under tag `t`, in the order of the appends. */
  function ValuesFor<V>(log: seq<(string, V)>, t: string): seq<V> {
    if log == [] then []
    else (if log[0].0 == t then [log[0].1] else []) + ValuesFor(log[1..], t)
  }

  /** How many keys take part in round `i`. */
  function MatchCount<V>(pairs: seq<(string, V)>, i: nat): nat {
    if pairs == [] then 0 else (if Matches(pairs[0].0, i) then 1 else 0) + MatchCount(pairs[1..], i)
  }

  /** How many keys take part in the rounds `0` to `n - 1` together. */
  function TotalMatches<V>(pairs: seq<(string, V)>, n: nat): nat {
    if n == 0 then 0 else TotalMatches(pairs, n - 1) + MatchCount(pairs, n - 1)
  }

  lemma {:induction false} ValuesForAppend<V>(a: seq<(string, V)>, b: seq<(string, V)>, t: string)
    ensures ValuesFor(a + b, t) == ValuesFor(a, t) + ValuesFor(b, t)
  {
    if a == [] {
      assert a + b == b;
    } else {
      var ab := a + b;
      assert ab[0] == a[0] && ab[1..] == a[1..] + b;
      ValuesForAppend(a[1..], b, t);
      var head: seq<V> := if a[0].0 == t then [a[0].1] else [];
      assert ValuesFor(ab, t) == head + ValuesFor(a[1..] + b, t);
      assert ValuesFor(a, t) == head + ValuesFor(a[1..], t);
    }
  }

  lemma {:induction false} MatchCountAppend<V>(a: seq<(string, V)>, b: seq<(string, V)>, i: nat)
    ensures MatchCount(a + b, i) == MatchCount(a, i) + MatchCount(b, i)
  {
    if a == [] {
      assert a + b == b;
    } else {
      assert (a + b)[1..] == a[1..] + b;
      MatchCountAppend(a[1..], b, i);
    }
  }

  /** One append: the tag's list gains the value at its end (a new tag starts
      with that one value) and every other tag keeps its list. */
  lemma CollectSnoc<V>(log: seq<(string, V)>, t: string, v: V)
    ensures var before := Collect(log);
            var after := Collect(log + [(t, v)]);
            && after.Keys == before.Keys + {t}
            && after[t] == (if t in before then before[t] + [v] else [v])
            && forall u :: u in before && u != t ==> after[u] == before[u]
  {
    assert (log + [(t, v)])[..|log|] == log;
  }

  /** The table holds a tag exactly when some append used it, and its list is
      the values appended under it, in order. */
  lemma {:induction false} CollectIsValuesFor<V>(log: seq<(string, V)>, t: string)
    ensures t in Collect(log) <==> ValuesFor(log, t) != []
    ensures t in Collect(log) ==> Collect(log)[t] == ValuesFor(log, t)
  {
    if log != [] {
      var init := log[..|log| - 1];
      var entry := log[|log| - 1];
      assert log == init + [entry];
      CollectIsValuesFor(init, t);
      ValuesForAppend(init, [entry], t);
      assert ValuesFor([entry], t) == if entry.0 == t then [entry.1] else [];
    }
  }

  /** Later appends never remove a tag, and only add to the end of its list. */
  lemma {:induction false} CollectGrows<V>(a: seq<(string, V)>, b: seq<(string, V)>, t: string)
    requires t in Collect(a)
    ensures t in Collect(a + b)
    ensures Collect(a)[t] <= Collect(a + b)[t]
  {
    CollectIsValuesFor(a, t);
    CollectIsValuesFor(a + b, t);
    ValuesForAppend(a, b, t);
  }

  /** Round `i` makes one append per key that contains `str(i)`. */
  lemma {:induction false} RoundAppendsCount<V>(pairs: seq<(string, V)>, i: nat)
    ensures |RoundAppends(pairs, i)| == MatchCount(pairs, i)
  {
    if pairs != [] {
      var init := pairs[..|pairs| - 1];
      var last := pairs[|pairs| - 1];
      assert pairs == init + [last];
      RoundAppendsCount(init, i);
      MatchCountAppend(init, [last], i);
    }
  }

  /** All rounds together append as many values as there are (round, key)
      matches. */
  lemma {:induction false} AppendsCount<V>(pairs: seq<(string, V)>, n: nat)
    ensures |Appends(pairs, n)| == TotalMatches(pairs, n)
  {
    if n > 0 {
      AppendsCount(pairs, n - 1);
      RoundAppendsCount(pairs, n - 1);
    }
  }

  /** The appends of round `i` are the matching keys' values under their tags. */
  lemma {:induction false} RoundAppendsMember<V>(pairs: seq<(string, V)>, i: nat, j: nat)
    requires j < |pairs| && Matches(pairs[j].0, i)
    ensures (Tag(pairs[j].0, i), pairs[j].1) in RoundAppends(pairs, i)
  {
    var init := pairs[..|pairs| - 1];
    if j < |pairs| - 1 {
      assert init[j] == pairs[j];
      RoundAppendsMember(init, i, j);
    }
  }

  /** A key without digits, such as `PRIMER_PAIR_NUM_RETURNED` itself, takes
      part in no round. */
  lemma KeyWithoutDigitsNeverMatches(key: string, i: nat)
    requires forall k :: 0 <= k < |key| ==> !IsDigit(key[k])
    ensures !Matches(key, i)
  {
    var id := NatToString(i);
    ContainsIsOccurrence(key, id);
    forall j ensures !OccursAt(key, id, j) {
      if 0 <= j <= |key| - |id| {
        assert key[j..j + |id|][0] == key[j];
      }
    }
  }

  // ---------------------------------------------------------------------------
  // The loops
  // ---------------------------------------------------------------------------

  /** One pass of the inner loop: the table after pair `j` of round `i`. */
  lemma RoundStep<V>(log: seq<(string, V)>, pairs: seq<(string, V)>, i: nat, j: nat, primerId: string,
                     table: map<string, seq<V>>, table': map<string, seq<V>>)
    requires j < |pairs| && table == Collect(log + RoundAppends(pairs[..j], i))
    requires primerId == NatToString(i)
    requires var key := pairs[j].0;
             var t := RemoveAll(key, "_" + primerId);
             table' == if Contains(key, primerId)
                       then table[t := (if t in table then table[t] else []) + [pairs[j].1]]
                       else table
    ensures table' == Collect(log + RoundAppends(pairs[..j + 1], i))
  {
    var key := pairs[j].0;
    assert Matches(key, i) == Contains(key, primerId);
    assert Tag(key, i) == RemoveAll(key, "_" + primerId);
    assert pairs[..j + 1][..j] == pairs[..j];
    var done := log + RoundAppends(pairs[..j], i);
    if Matches(key, i) {
      assert log + RoundAppends(pairs[..j + 1], i) == done + [(Tag(key, i), pairs[j].1)];
      CollectSnoc(done, Tag(key, i), pairs[j].1);
    } else {
      assert log + RoundAppends(pairs[..j + 1], i) == done;
    }
  }

  /** Before the inner loop no pair of round `i` has been looked at. */
  lemma RoundStart<V>(log: seq<(string, V)>, pairs: seq<(string, V)>, i: nat, table: map<string, seq<V>>)
    requires table == Collect(log)
    ensures table == Collect(log + RoundAppends(pairs[..0], i))
  {
    assert pairs[..0] == [];
    assert log + RoundAppends(pairs[..0], i) == log;
  }

  /** One pass of the outer loop: round `i` follows the earlier rounds. */
  lemma RoundDone<V>(pairs: seq<(string, V)>, i: nat, table: map<string, seq<V>>,
                     index: seq<string>, index': seq<string>)
    requires table == Collect(Appends(pairs, i) + RoundAppends(pairs[..|pairs|], i))
    requires index == PairNames(i) && index' == index + ["PRIMER_PAIR_" + NatToString(i)]
    ensures table == Collect(Appends(pairs, i + 1))
    ensures index' == PairNames(i + 1)
  {
    assert pairs[..|pairs|] == pairs;
  }

  /** Lines 106-119, once `PRIMER_PAIR_NUM_RETURNED` is known to be nonzero:
      the table and the index built in `numReturned` rounds (none when it is
      negative, as `range` of a negative number is empty). */
  method GroupResults<V>(pairs: seq<(string, V)>, numReturned: int)
    returns (table: map<string, seq<V>>, index: seq<string>)
    ensures var n := if numReturned < 0 then 0 else numReturned;
            && index == PairNames(n)
            && table == Collect(Appends(pairs, n))
  {
    table := map[];
    index := [];
    var n := if numReturned < 0 then 0 else numReturned;
    for i := 0 to n
      invariant index == PairNames(i)
      invariant table == Collect(Appends(pairs, i))
    {
      ghost var index0 := index;
      index := index + ["PRIMER_PAIR_" + NatToString(i)];
      var primerId := NatToString(i);
      ghost var before := Appends(pairs, i);
      RoundStart(before, pairs, i, table);
      for j := 0 to |pairs|
        invariant table == Collect(before + RoundAppends(pairs[..j], i))
      {
        ghost var table0 := table;
        var key := pairs[j].0;
        if Contains(key, primerId) {
          var infoTag := RemoveAll(key, "_" + primerId);
          var list := if infoTag in table then table[infoTag] else [];
          table := table[infoTag := list + [pairs[j].1]];
        }
        RoundStep(before, pairs, i, j, primerId, table0, table);
      }
      RoundDone(pairs, i, table, index0, index);
    }
  }
}
