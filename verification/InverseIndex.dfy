/** A sequence of entries and the map from each entry to its place: the core of the deduplicating
    arena and of the string interner. */
module InverseIndex {

  datatype Table<T(==)> = Table(index: map<T, nat>, entries: seq<T>)

  /** The map and the sequence are inverse to each other. */
  ghost predicate Inverse<T>(t: Table<T>) {
    && (forall i :: 0 <= i < |t.entries| ==> t.entries[i] in t.index && t.index[t.entries[i]] == i)
    && (forall e :: e in t.index ==> t.index[e] < |t.entries| && t.entries[t.index[e]] == e)
  }

  function Empty<T>(): Table<T> { Table(map[], []) }

  /** The place of an entry, which is appended if it is new. */
  function Intern<T>(t: Table<T>, e: T): (nat, Table<T>) {
    if e in t.index then (t.index[e], t)
    else (|t.entries|, Table(t.index[e := |t.entries|], t.entries + [e]))
  }

  /** Interning keeps the inverse, keeps every earlier place, and finds the entry at its place. */
  lemma InternKeeps<T>(t: Table<T>, e: T)
    requires Inverse(t)
    ensures var (i, t') := Intern(t, e);
            && Inverse(t')
            && t.entries <= t'.entries
            && i < |t'.entries| && t'.entries[i] == e
            && t'.entries == (if e in t.entries then t.entries else t.entries + [e])
            && (t' == t <==> e in t.entries)
  {
    var t' := Intern(t, e).1;
    if e !in t.index {
      assert forall i :: 0 <= i < |t.entries| ==> t'.entries[i] == t.entries[i];
      assert |t'.entries| != |t.entries|;
    } else {
      assert t.entries[t.index[e]] == e;
    }
  }

  // ----- runs ----------------------------------------------------------------------------

  datatype Op<T> = Add(entry: T) | Clear

  function Apply<T>(t: Table<T>, op: Op<T>): Table<T> {
    match op
    case Add(e) => Intern(t, e).1
    case Clear => Empty()
  }

  function Run<T>(t: Table<T>, ops: seq<Op<T>>): Table<T> {
    if ops == [] then t else Apply(Run(t, ops[..|ops| - 1]), ops[|ops| - 1])
  }

  /** Over every run from an empty table the map stays the exact inverse of the entries, which
      therefore stay pairwise distinct. */
  lemma {:induction false} RunInverse<T>(t: Table<T>, ops: seq<Op<T>>)
    requires Inverse(t)
    ensures Inverse(Run(t, ops))
    ensures forall i, j :: 0 <= i < j < |Run(t, ops).entries| ==> Run(t, ops).entries[i] != Run(t, ops).entries[j]
  {
    if ops != [] {
      var before, op := Run(t, ops[..|ops| - 1]), ops[|ops| - 1];
      RunInverse(t, ops[..|ops| - 1]);
      if op.Add? {
        InternKeeps(before, op.entry);
      }
    }
  }

  /** Clearing leaves nothing, adding leaves what was there with at most the added entry behind it. */
  lemma RunEndsWith<T>(t: Table<T>, ops: seq<Op<T>>, e: T)
    requires Inverse(t)
    ensures Run(t, ops + [Clear]).entries == [] && Run(t, ops + [Clear]).index == map[]
    ensures Run(t, ops + [Add(e)]).entries
            == if e in Run(t, ops).entries then Run(t, ops).entries else Run(t, ops).entries + [e]
  {
    assert (ops + [Clear])[..|ops|] == ops && (ops + [Add(e)])[..|ops|] == ops;
    RunInverse(t, ops);
    InternKeeps(Run(t, ops), e);
  }

  /** While nothing is cleared, entries keep their places. */
  lemma {:induction false} AddsKeepPlaces<T>(t: Table<T>, ops: seq<Op<T>>)
    requires Inverse(t) && Clear !in ops
    ensures t.entries <= Run(t, ops).entries
  {
    if ops != [] {
      var before, op := Run(t, ops[..|ops| - 1]), ops[|ops| - 1];
      RunInverse(t, ops[..|ops| - 1]);
      AddsKeepPlaces(t, ops[..|ops| - 1]);
      assert op in ops;
      InternKeeps(before, op.entry);
    }
  }

  /** Two entries added during a run without clearing get the same place exactly when they are the
      same entry, however much is added in between; and the first can still be found at its place. */
  lemma SamePlaceIffSameEntry<T>(t: Table<T>, a: T, between: seq<Op<T>>, b: T)
    requires Inverse(t) && Clear !in between
    ensures var (i, t1) := Intern(t, a);
            var (j, t2) := Intern(Run(t1, between), b);
            && (i == j <==> a == b)
            && i < |t2.entries| && t2.entries[i] == a
  {
    var (i, t1) := Intern(t, a);
    InternKeeps(t, a);
    AddsKeepPlaces(t1, between);
    RunInverse(t1, between);
    InternKeeps(Run(t1, between), b);
  }

  // ----- building the map from the entries -----------------------------------------------

  /** Collecting (entry, place) pairs into a map: a later pair replaces an earlier one. */
  function Collect<T>(entries: seq<T>): map<T, nat> {
    if entries == [] then map[]
    else
      var n := |entries| - 1;
      Collect(entries[..n])[entries[n] := n]
  }

  ghost predicate NoDuplicates<T>(s: seq<T>) {
    forall i, j :: 0 <= i < j < |s| ==> s[i] != s[j]
  }

  /** The collected map holds exactly the entries, each with its last place. */
  lemma {:induction false} CollectHoldsLast<T>(s: seq<T>)
    ensures forall e :: e in Collect(s) <==> e in s
    ensures forall e :: e in s ==> Collect(s)[e] < |s| && s[Collect(s)[e]] == e
    ensures forall i :: 0 <= i < |s| ==> i <= Collect(s)[s[i]]
  {
    if s != [] {
      var n := |s| - 1;
      CollectHoldsLast(s[..n]);
      assert s == s[..n] + [s[n]];
      assert forall i :: 0 <= i < n ==> s[i] == s[..n][i];
    }
  }

  /** Collecting, which does not deduplicate, gives the inverse exactly for distinct entries. */
  lemma CollectInverseIffDistinct<T>(s: seq<T>)
    ensures Inverse(Table(Collect(s), s)) <==> NoDuplicates(s)
  {
    CollectHoldsLast(s);
    var m := Collect(s);
    if NoDuplicates(s) {
      forall i | 0 <= i < |s|
        ensures s[i] in m && m[s[i]] == i
      {
        assert s[i] in s;
        assert s[m[s[i]]] == s[i];
      }
    }
  }
}
