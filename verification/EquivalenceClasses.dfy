/** Records grouped by their quasi-identifier tuples. */
module EquivalenceClasses {

  type Row = map<string, string>
  type Key = seq<string>

  /** How many records carry the tuple `key`: its class size. */
  function ClassSize(keys: seq<Key>, key: Key): nat {
    if keys == [] then 0
    else ClassSize(keys[..|keys| - 1], key) + if keys[|keys| - 1] == key then 1 else 0
  }

  predicate IsSafe(keys: seq<Key>, k: nat, i: nat)
    requires i < |keys|
  {
    ClassSize(keys, keys[i]) >= k
  }

  /** Every record shares its tuple with at least k - 1 others. */
  predicate KAnonymous(keys: seq<Key>, k: nat) {
    forall i :: 0 <= i < |keys| ==> IsSafe(keys, k, i)
  }

  /** A class that keeps its members does not shrink. */
  lemma ClassGrows(keys: seq<Key>, keys': seq<Key>, key: Key)
    requires |keys| == |keys'|
    requires forall i :: 0 <= i < |keys| && keys[i] == key ==> keys'[i] == key
    ensures ClassSize(keys, key) <= ClassSize(keys', key)
  {
    if keys != [] {
      ClassGrows(keys[..|keys| - 1], keys'[..|keys| - 1], key);
    }
  }

  lemma ClassSizeConcat(a: seq<Key>, b: seq<Key>, key: Key)
    ensures ClassSize(a + b, key) == ClassSize(a, key) + ClassSize(b, key)
  {
    if b == [] {
      assert a + b == a;
    } else {
      ClassSizeConcat(a, b[..|b| - 1], key);
      assert (a + b)[..|a + b| - 1] == a + b[..|b| - 1];
    }
  }

  lemma ClassSizeSmall(key: Key)
    ensures ClassSize([], key) == 0
    ensures forall k: Key :: ClassSize([k], key) == if k == key then 1 else 0
  {
    forall k: Key ensures ClassSize([k], key) == if k == key then 1 else 0 {
      assert [k][..0] == [];
    }
  }

  predicate HasColumns(rows: seq<Row>, columns: seq<string>) {
    forall i, j :: 0 <= i < |rows| && 0 <= j < |columns| ==> columns[j] in rows[i]
  }

  /** The quasi-identifier tuples of a table, record by record. */
  function Tuples(rows: seq<Row>, columns: seq<string>): (keys: seq<Key>)
    requires HasColumns(rows, columns)
    ensures |keys| == |rows|
  {
    seq(|rows|, i requires 0 <= i < |rows| => seq(|columns|, j requires 0 <= j < |columns| => rows[i][columns[j]]))
  }

  predicate DistinctColumns(columns: seq<string>) {
    forall i, j :: 0 <= i < j < |columns| ==> columns[i] != columns[j]
  }

  // ---------- What k-anonymity means ----------

  /** The records that agree with record `i` on every column. */
  ghost function Sharing(rows: seq<Row>, columns: seq<string>, i: nat): set<nat>
    requires HasColumns(rows, columns) && i < |rows|
  {
    set m: nat | m < |rows| && forall j :: 0 <= j < |columns| ==> rows[m][columns[j]] == rows[i][columns[j]]
  }

  /** Every record shares its quasi-identifiers with `k` records, itself included. */
  ghost predicate AllShared(rows: seq<Row>, columns: seq<string>, k: nat) {
    HasColumns(rows, columns) && forall i :: 0 <= i < |rows| ==> k <= |Sharing(rows, columns, i)|
  }

  ghost function Members(keys: seq<Key>, key: Key): set<nat> {
    set m: nat | m < |keys| && keys[m] == key
  }

  lemma {:induction false} ClassSizeIsCardinality(keys: seq<Key>, key: Key)
    ensures ClassSize(keys, key) == |Members(keys, key)|
  {
    if keys == [] {
      assert Members(keys, key) == {};
    } else {
      var n := |keys| - 1;
      ClassSizeIsCardinality(keys[..n], key);
      var before := Members(keys[..n], key);
      assert n !in before;
      assert Members(keys, key) == if keys[n] == key then before + {n} else before;
    }
  }

  lemma SharingIsClass(rows: seq<Row>, columns: seq<string>, i: nat)
    requires HasColumns(rows, columns) && i < |rows|
    ensures ClassSize(Tuples(rows, columns), Tuples(rows, columns)[i]) == |Sharing(rows, columns, i)|
  {
    var keys := Tuples(rows, columns);
    ClassSizeIsCardinality(keys, keys[i]);
    forall m: nat | m < |rows|
      ensures keys[m] == keys[i] <==> forall j :: 0 <= j < |columns| ==> rows[m][columns[j]] == rows[i][columns[j]]
    {
      assert forall j :: 0 <= j < |columns| ==> keys[m][j] == rows[m][columns[j]] && keys[i][j] == rows[i][columns[j]];
    }
    assert Members(keys, keys[i]) == Sharing(rows, columns, i);
  }

  lemma KAnonymousIffShared(rows: seq<Row>, columns: seq<string>, k: nat)
    requires HasColumns(rows, columns)
    ensures KAnonymous(Tuples(rows, columns), k) <==> AllShared(rows, columns, k)
  {
    forall i | 0 <= i < |rows| ensures IsSafe(Tuples(rows, columns), k, i) <==> k <= |Sharing(rows, columns, i)| {
      SharingIsClass(rows, columns, i);
    }
    hide ClassSize, Tuples;
  }
}
