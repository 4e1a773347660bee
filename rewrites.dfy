/**
 * The variant table builder of `serve-with-cookies.js`: `createRewritesForVariants`
 * takes a dictionary from canonical path to variant config and registers every
 * variant path as one more key of the same dictionary, pointing to the config it
 * came from.
 *
 * A JavaScript object is modelled with its insertion order, because the loop
 * iterates `Object.entries` and `Object.values` in that order and the order
 * decides which write wins when two configs name the same path.
 */
module Rewrites {
  import opened Wrappers

  type Path = string
  type VariantKey = string

  /** No own property appears twice in an object. */
  predicate DistinctKeys(c: seq<(VariantKey, Path)>) {
    forall i, j :: 0 <= i < j < |c| ==> c[i].0 != c[j].0
  }

  /** A variant config such as `{a: "/x/variant-a/", b: "/x/variant-b/"}`: its own properties in insertion order. */
  type Config = c: seq<(VariantKey, Path)> | DistinctKeys(c)

  /** A snapshot of the dictionary, as `Object.entries` returns it. */
  type Entries = seq<(Path, Config)>

  /** `config[key]` on an own property; `None` is `undefined`. */
  function Lookup(c: Config, key: VariantKey): (r: Option<Path>)
    ensures r.None? <==> forall i :: 0 <= i < |c| ==> c[i].0 != key
    ensures forall i :: 0 <= i < |c| && c[i].0 == key ==> r == Some(c[i].1)
  {
    if c == [] then None
    else if c[0].0 == key then Some(c[0].1)
    else Lookup(c[1..], key)
  }

  /** `Object.values(config)`: the variant paths, in insertion order. */
  function Values(c: Config): (vs: seq<Path>)
    ensures |vs| == |c|
  {
    seq(|c|, i requires 0 <= i < |c| => c[i].1)
  }

  /** The i-th of `Object.values(config)` is what `config[key]` reads for the i-th key. */
  lemma ValuesLookup(c: Config)
    ensures forall i :: 0 <= i < |c| ==> Lookup(c, c[i].0) == Some(Values(c)[i])
  {
  }

  /** The table after `dictionary[to] = c` for each `to` of `tos`, in order. */
  function Register(m: map<Path, Config>, tos: seq<Path>, c: Config): map<Path, Config> {
    if tos == [] then m
    else Register(m, tos[..|tos| - 1], c)[tos[|tos| - 1] := c]
  }

  /** The key order after assigning to `k`: a new key goes last, an existing one keeps its place. */
  function AddKey(keys: seq<Path>, k: Path): seq<Path> {
    if k in keys then keys else keys + [k]
  }

  /** The key order after assigning to each of `tos`, in order. */
  function AddKeys(keys: seq<Path>, tos: seq<Path>): seq<Path> {
    if tos == [] then keys
    else AddKey(AddKeys(keys, tos[..|tos| - 1]), tos[|tos| - 1])
  }

  /** The table after the loop body has run for every entry of the snapshot `s`, in order. */
  function Expand(s: Entries, m: map<Path, Config>): map<Path, Config> {
    if s == [] then m
    else
      var c := s[|s| - 1].1;
      Register(Expand(s[..|s| - 1], m), Values(c), c)
  }

  /** The key order after the loop body has run for every entry of the snapshot `s`. */
  function ExpandOrder(s: Entries, keys: seq<Path>): seq<Path> {
    if s == [] then keys
    else AddKeys(ExpandOrder(s[..|s| - 1], keys), Values(s[|s| - 1].1))
  }

  /** The config of the last snapshot entry listing `k` as a variant path: the write to `dictionary[k]` that sticks. */
  function LastOwner(s: Entries, k: Path): Option<Config> {
    if s == [] then None
    else if k in Values(s[|s| - 1].1) then Some(s[|s| - 1].1)
    else LastOwner(s[..|s| - 1], k)
  }

  /** `s` lists entries of `m` with their configs. */
  predicate SnapshotOf(s: Entries, m: map<Path, Config>) {
    forall i :: 0 <= i < |s| ==> s[i].0 in m && m[s[i].0] == s[i].1
  }

  /**
   * The builder's input constraint: no variant path is listed by two entries,
   * and no variant path is a canonical path.
   */
  predicate Disjoint(s: Entries) {
    && (forall i, j, to :: 0 <= i < |s| && 0 <= j < |s| && i != j && to in Values(s[i].1) ==> to !in Values(s[j].1))
    && (forall i, j :: 0 <= i < |s| && 0 <= j < |s| ==> s[i].0 !in Values(s[j].1))
  }

  predicate NoDuplicates(keys: seq<Path>) {
    forall i, j :: 0 <= i < j < |keys| ==> keys[i] != keys[j]
  }

  /** The entries of a table whose key order is `keys`. */
  function EntriesOf(keys: seq<Path>, table: map<Path, Config>): (s: Entries)
    requires forall k :: k in keys ==> k in table
    ensures |s| == |keys| && SnapshotOf(s, table)
    ensures forall i :: 0 <= i < |s| ==> s[i].0 == keys[i]
  {
    seq(|keys|, i requires 0 <= i < |keys| => (keys[i], table[keys[i]]))
  }

  /** Registering writes exactly one key per destination, each to `c`, and leaves every other key alone. */
  lemma {:induction false} RegisterClosedForm(m: map<Path, Config>, tos: seq<Path>, c: Config)
    ensures Register(m, tos, c) == m + map to | to in tos :: c
  {
    if tos != [] {
      var init, last := tos[..|tos| - 1], tos[|tos| - 1];
      RegisterClosedForm(m, init, c);
      assert tos == init + [last];
      var lhs, rhs := Register(m, tos, c), m + map to | to in tos :: c;
      assert lhs.Keys == rhs.Keys;
      forall k | k in lhs ensures lhs[k] == rhs[k] {
        if k != last && k !in init {
          assert k !in tos;
        }
      }
    }
  }

  /**
   * What the expanded table holds at any key `k`: the config of the last entry
   * listing `k` as a variant path if there is one, the original config otherwise.
   */
  lemma {:induction false} ExpandAt(s: Entries, m: map<Path, Config>, k: Path)
    ensures k in Expand(s, m) <==> k in m || LastOwner(s, k).Some?
    ensures k in Expand(s, m) ==>
      Expand(s, m)[k] == if LastOwner(s, k).Some? then LastOwner(s, k).value else m[k]
  {
    if s != [] {
      var c := s[|s| - 1].1;
      ExpandAt(s[..|s| - 1], m, k);
      RegisterClosedForm(Expand(s[..|s| - 1], m), Values(c), c);
    }
  }

  /** `LastOwner` is the config of the latest entry that lists `to`. */
  lemma {:induction false} LastOwnerLatest(s: Entries, i: int, to: Path)
    requires 0 <= i < |s| && to in Values(s[i].1)
    requires forall j :: i < j < |s| ==> to !in Values(s[j].1)
    ensures LastOwner(s, to) == Some(s[i].1)
  {
    if i < |s| - 1 {
      var init := s[..|s| - 1];
      assert init[i] == s[i];
      forall j | i < j < |init| ensures to !in Values(init[j].1) {
        assert init[j] == s[j];
      }
      LastOwnerLatest(init, i, to);
    }
  }

  /** `LastOwner` finds an owner exactly when some entry lists `to`. */
  lemma {:induction false} LastOwnerExists(s: Entries, to: Path)
    ensures LastOwner(s, to).Some? <==> exists i :: 0 <= i < |s| && to in Values(s[i].1)
  {
    if s != [] {
      var init := s[..|s| - 1];
      LastOwnerExists(init, to);
      if exists i :: 0 <= i < |init| && to in Values(init[i].1) {
        var i :| 0 <= i < |init| && to in Values(init[i].1);
        assert s[i] == init[i];
      }
      if exists i :: 0 <= i < |s| && to in Values(s[i].1) {
        var i :| 0 <= i < |s| && to in Values(s[i].1);
        if i < |s| - 1 {
          assert s[i] == init[i];
        }
      }
    }
  }

  /**
   * Expansion never loses a key, makes every variant path of every entry a key,
   * and adds no key that is not a variant path.
   */
  lemma ExpandKeys(s: Entries, m: map<Path, Config>)
    ensures m.Keys <= Expand(s, m).Keys
    ensures forall i, to :: 0 <= i < |s| && to in Values(s[i].1) ==> to in Expand(s, m)
    ensures forall k :: k in Expand(s, m) && k !in m ==> exists i :: 0 <= i < |s| && k in Values(s[i].1)
  {
    forall k ensures k in m ==> k in Expand(s, m) {
      ExpandAt(s, m, k);
    }
    forall i, to | 0 <= i < |s| && to in Values(s[i].1) ensures to in Expand(s, m) {
      LastOwnerExists(s, to);
      ExpandAt(s, m, to);
    }
    forall k | k in Expand(s, m) && k !in m ensures exists i :: 0 <= i < |s| && k in Values(s[i].1) {
      ExpandAt(s, m, k);
      LastOwnerExists(s, k);
    }
  }

  /**
   * Under the builder's input constraint the table is symmetric: a canonical path
   * and each of its variant paths look up the very config of that entry.
   */
  lemma ExpandSymmetric(s: Entries, m: map<Path, Config>)
    requires SnapshotOf(s, m) && Disjoint(s)
    ensures forall i :: 0 <= i < |s| ==> s[i].0 in Expand(s, m) && Expand(s, m)[s[i].0] == s[i].1
    ensures forall i, to :: 0 <= i < |s| && to in Values(s[i].1) ==>
      to in Expand(s, m) && Expand(s, m)[to] == s[i].1
  {
    forall i | 0 <= i < |s| ensures s[i].0 in Expand(s, m) && Expand(s, m)[s[i].0] == s[i].1 {
      ExpandAt(s, m, s[i].0);
      LastOwnerExists(s, s[i].0);
    }
    forall i, to | 0 <= i < |s| && to in Values(s[i].1)
      ensures to in Expand(s, m) && Expand(s, m)[to] == s[i].1
    {
      LastOwnerLatest(s, i, to);
      ExpandAt(s, m, to);
    }
  }

  /** Assigning to keys never moves or drops a key already present, and never repeats one. */
  lemma {:induction false} AddKeysExtends(keys: seq<Path>, tos: seq<Path>)
    requires NoDuplicates(keys)
    ensures NoDuplicates(AddKeys(keys, tos))
    ensures |keys| <= |AddKeys(keys, tos)| && AddKeys(keys, tos)[..|keys|] == keys
    ensures forall k :: k in AddKeys(keys, tos) <==> k in keys || k in tos
  {
    if tos != [] {
      var init := tos[..|tos| - 1];
      AddKeysExtends(keys, init);
      assert tos == init + [tos[|tos| - 1]];
    }
  }

  /** The expanded key order keeps the original keys in front, in their original order. */
  lemma {:induction false} ExpandOrderExtends(s: Entries, keys: seq<Path>)
    requires NoDuplicates(keys)
    ensures NoDuplicates(ExpandOrder(s, keys))
    ensures |keys| <= |ExpandOrder(s, keys)| && ExpandOrder(s, keys)[..|keys|] == keys
  {
    if s != [] {
      var init := s[..|s| - 1];
      ExpandOrderExtends(init, keys);
      AddKeysExtends(ExpandOrder(init, keys), Values(s[|s| - 1].1));
      var inner := ExpandOrder(init, keys);
      assert ExpandOrder(s, keys)[..|inner|][..|keys|] == ExpandOrder(s, keys)[..|keys|];
    }
  }

  /** The dictionary object: its own keys in insertion order and the config each one holds. */
  class Dictionary {
    var keys: seq<Path>
    var table: map<Path, Config>

    ghost predicate Valid()
      reads this
    {
      NoDuplicates(keys) && forall k :: k in table <==> k in keys
    }

    /** The empty object `{}`. */
    constructor ()
      ensures Valid() && keys == [] && table == map[]
    {
      keys := [];
      table := map[];
    }

    /** `Object.entries(dictionary)`. */
    function Snapshot(): (s: Entries)
      reads this
      requires Valid()
      ensures |s| == |keys| && SnapshotOf(s, table)
      ensures forall i :: 0 <= i < |s| ==> s[i].0 == keys[i]
    {
      EntriesOf(keys, table)
    }

    /** `dictionary[k] = c`. */
    method Set(k: Path, c: Config)
      requires Valid()
      modifies this
      ensures Valid()
      ensures table == old(table)[k := c]
      ensures keys == AddKey(old(keys), k)
    {
      if k !in keys {
        keys := keys + [k];
      }
      table := table[k := c];
    }
  }

  /** The inner loop: `dictionary[to] = config` for each `to` of `tos`, in order. */
  method RegisterAll(d: Dictionary, tos: seq<Path>, config: Config)
    requires d.Valid()
    modifies d
    ensures d.Valid()
    ensures d.table == Register(old(d.table), tos, config)
    ensures d.keys == AddKeys(old(d.keys), tos)
  {
    for j := 0 to |tos|
      invariant d.Valid()
      invariant d.table == Register(old(d.table), tos[..j], config)
      invariant d.keys == AddKeys(old(d.keys), tos[..j])
    {
      d.Set(tos[j], config);
      assert tos[..j + 1][..j] == tos[..j];
    }
    assert tos[..|tos|] == tos;
  }

  /**
   * `createRewritesForVariants`: for each entry of the snapshot taken when the
   * loop starts, and each variant path of its config, sets
   * `dictionary[path] = config`; returns the dictionary it was given.
   */
  method CreateRewritesForVariants(d: Dictionary) returns (r: Dictionary)
    requires d.Valid()
    modifies d
    ensures r == d && d.Valid()
    ensures d.table == Expand(old(d.Snapshot()), old(d.table))
    ensures d.keys == ExpandOrder(old(d.Snapshot()), old(d.keys))
  {
    var snapshot := d.Snapshot();
    ghost var table0, keys0 := d.table, d.keys;
    for i := 0 to |snapshot|
      invariant d.Valid()
      invariant d.table == Expand(snapshot[..i], table0)
      invariant d.keys == ExpandOrder(snapshot[..i], keys0)
    {
      RegisterAll(d, Values(snapshot[i].1), snapshot[i].1);
      assert snapshot[..i + 1][..i] == snapshot[..i];
    }
    assert snapshot[..|snapshot|] == snapshot;
    r := d;
  }
}
