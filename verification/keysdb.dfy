/** The two-level key table of kernel/kern/keysdb.c. Values are addresses; 0 is NULL. */
module KeysDb {
  import opened Collections

  const KEYS_PER_REC: nat := 64
  const RECORDS_NR: nat := 1024
  const KEYS_NR: nat := RECORDS_NR * KEYS_PER_REC

  datatype Error = Ok | ENOMEM | EEXIST

  datatype Record = Absent | Record(tbl: seq<nat>)

  /** The bound keys. */
  type Map = map<nat, nat>

  /** `keysdb_index`: record and slot of a key. */
  function RecIndex(key: nat): nat { key / KEYS_PER_REC }

  function KeyIndex(key: nat): nat { key % KEYS_PER_REC }

  predicate Sized(root: seq<Record>)
  {
    |root| == RECORDS_NR && forall i :: 0 <= i < |root| && root[i].Record? ==> |root[i].tbl| == KEYS_PER_REC
  }

  /** What a slot of the table holds. */
  function At(root: seq<Record>, key: nat): nat
    requires Sized(root) && key < KEYS_NR
  {
    var rec := root[RecIndex(key)];
    if rec.Absent? then 0 else rec.tbl[KeyIndex(key)]
  }

  function Value(keys: Map, key: nat): nat
  {
    if key in keys then keys[key] else 0
  }

  /** The table holds exactly the bound keys. */
  ghost predicate Holds(root: seq<Record>, keys: Map)
  {
    && Sized(root)
    && (forall k: nat :: k < KEYS_NR ==> At(root, k) == Value(keys, k))
    && (forall k :: k in keys ==> k < KEYS_NR && keys[k] != 0)
  }

  /** The keys with a range of them, from `start`, bound to the same value. */
  ghost function Ranged(keys: Map, start: nat, nr: nat, value: nat): (r: Map)
    ensures forall k :: k in r <==> k in keys || start <= k < start + nr
    ensures forall k :: k in r ==> r[k] == if start <= k < start + nr then value else keys[k]
  {
    if nr == 0 then keys else Ranged(keys, start, nr - 1, value)[start + nr - 1 := value]
  }

  lemma RangedNone(keys: Map, start: nat, value: nat)
    ensures Ranged(keys, start, 0, value) == keys
  {
  }

  lemma RangedNext(keys: Map, start: nat, nr: nat, value: nat)
    ensures Ranged(keys, start, nr + 1, value) == Ranged(keys, start, nr, value)[start + nr := value]
    ensures start + nr in Ranged(keys, start, nr, value) <==> start + nr in keys
  {
  }

  lemma RangedBack(keys: Map, start: nat, nr: nat, value: nat)
    requires start + nr !in keys
    ensures Ranged(keys, start, nr + 1, value) - {start + nr} == Ranged(keys, start, nr, value)
  {
    RangedNext(keys, start, nr, value);
  }

  /** The other keys. */
  ghost function Outside(keys: Map, start: nat, nr: nat): Map
  {
    map k | k in keys && !(start <= k < start + nr) :: keys[k]
  }

  /** The records that are missing for a range of keys. */
  ghost function Lacking(root: seq<Record>, start: nat, nr: nat): set<nat>
    requires |root| == RECORDS_NR && start + nr <= KEYS_NR
  {
    set i: nat | i < RECORDS_NR && root[i].Absent? && Spans(start, nr, i)
  }

  /** A key of the range is in record i. */
  ghost predicate Spans(start: nat, nr: nat, i: nat)
  {
    exists k: nat :: start <= k < start + nr && RecIndex(k) == i
  }

  lemma SpansNext(start: nat, nr: nat, i: nat)
    ensures Spans(start, nr + 1, i) <==> Spans(start, nr, i) || i == RecIndex(start + nr)
  {
    if i == RecIndex(start + nr) {
      assert start <= start + nr < start + (nr + 1);
    }
    if Spans(start, nr, i) {
      var k: nat :| start <= k < start + nr && RecIndex(k) == i;
      assert start <= k < start + (nr + 1);
    }
  }

  lemma LackingNext(root: seq<Record>, start: nat, nr: nat)
    requires |root| == RECORDS_NR && start + nr < KEYS_NR
    ensures var i := RecIndex(start + nr);
      Lacking(root, start, nr + 1) == Lacking(root, start, nr) + if root[i].Absent? then {i} else {}
  {
    forall i: nat
      ensures Spans(start, nr + 1, i) <==> Spans(start, nr, i) || i == RecIndex(start + nr)
    {
      SpansNext(start, nr, i);
    }
    hide Spans;
  }

  lemma LackingNone(root: seq<Record>, start: nat)
    requires |root| == RECORDS_NR && start <= KEYS_NR
    ensures Lacking(root, start, 0) == {}
  {
  }

  lemma LackingMore(root: seq<Record>, start: nat, nr: nat, n: nat)
    requires |root| == RECORDS_NR && nr <= n && start + n <= KEYS_NR
    ensures |Lacking(root, start, nr)| <= |Lacking(root, start, n)|
  {
    assert Lacking(root, start, nr) <= Lacking(root, start, n) by {
      forall i | i in Lacking(root, start, nr)
        ensures Spans(start, n, i)
      {
        var k: nat :| start <= k < start + nr && RecIndex(k) == i;
        assert start <= k < start + n;
      }
    }
    SubsetSize(Lacking(root, start, nr), Lacking(root, start, n));
  }

  /** Records have been added for the first keys of a range, and nowhere else. */
  ghost predicate Filled(root: seq<Record>, root': seq<Record>, start: nat, nr: nat)
  {
    && |root| == |root'| == RECORDS_NR && start + nr <= KEYS_NR
    && forall i :: 0 <= i < RECORDS_NR ==> (root'[i].Absent? <==> root[i].Absent? && i !in Lacking(root, start, nr))
  }

  /** How many keys of a range come before the first one that is bound. */
  ghost function Clash(keys: Map, start: nat, nr: nat): (n: nat)
    ensures n <= nr && (forall k :: start <= k < start + n ==> k !in keys) && (n < nr ==> start + n in keys)
    decreases nr
  {
    if nr == 0 || start in keys then 0 else Clash(keys, start + 1, nr - 1) + 1
  }

  lemma ClashIs(keys: Map, start: nat, nr: nat, n: nat)
    requires n <= nr && (forall k :: start <= k < start + n ==> k !in keys)
    ensures n <= Clash(keys, start, nr)
    ensures n == nr || start + n in keys ==> n == Clash(keys, start, nr)
  {
  }

  /** Writing one slot of a present record changes the value of that key only. */
  lemma WriteSlot(root: seq<Record>, key: nat, v: nat)
    requires Sized(root) && key < KEYS_NR && root[RecIndex(key)].Record?
    ensures var root' := root[RecIndex(key) := Record(root[RecIndex(key)].tbl[KeyIndex(key) := v])];
      Sized(root') && forall k: nat :: k < KEYS_NR ==> At(root', k) == if k == key then v else At(root, k)
  {
    forall k: nat | k < KEYS_NR && RecIndex(k) == RecIndex(key) && KeyIndex(k) == KeyIndex(key)
      ensures k == key
    {
      assert k == RecIndex(k) * KEYS_PER_REC + KeyIndex(k);
    }
  }

  class Db {
    var root: seq<Record>
    var budget: nat               // how many more allocations will succeed
    ghost var keys: Map

    ghost predicate Valid()
      reads this
    {
      Holds(root, keys)
    }

    constructor (grants: nat)
      ensures Valid() && keys == map[] && budget == grants
    {
      root := seq(RECORDS_NR, _ => Absent);
      budget := grants;
      keys := map[];
    }

    /** `keysdb_lookup`: what the key was bound to last, or NULL if it is not bound. */
    method Lookup(key: nat) returns (v: nat)
      requires Valid() && key < KEYS_NR
      ensures v == Value(keys, key) && (v == 0 <==> key !in keys)
    {
      var rec := root[RecIndex(key)];
      v := if rec.Absent? then 0 else rec.tbl[KeyIndex(key)];
      assert v == At(root, key);
    }

    /** `keysdb_insert`; a missing record is allocated first, and that is the only way to run out of memory. */
    method Insert(key: nat, value: nat) returns (err: Error)
      requires Valid() && key < KEYS_NR
      modifies this
      ensures Valid()
      ensures err == EEXIST <==> key in old(keys)
      ensures err == EEXIST ==> old(root)[RecIndex(key)].Record?
      ensures keys == if err == Ok && value != 0 then old(keys)[key := value] else old(keys)
      ensures err == ENOMEM <==> old(root)[RecIndex(key)].Absent? && old(budget) == 0
      ensures budget == old(budget) - if old(root)[RecIndex(key)].Absent? && err != ENOMEM then 1 else 0
      ensures |root| == RECORDS_NR && forall i :: 0 <= i < RECORDS_NR ==>
        (root[i].Absent? <==> old(root)[i].Absent? && (i != RecIndex(key) || err == ENOMEM))
    {
      if root[RecIndex(key)].Absent? {
        assert At(root, key) == 0;
        if budget == 0 {
          return ENOMEM;
        }
        budget := budget - 1;
        NewRecord(root, keys, RecIndex(key));
        root := root[RecIndex(key) := Record(seq(KEYS_PER_REC, _ => 0))];
      }
      var rec := root[RecIndex(key)];
      assert rec.tbl[KeyIndex(key)] == At(root, key);
      if rec.tbl[KeyIndex(key)] != 0 {
        return EEXIST;
      }
      WriteSlot(root, key, value);
      root := root[RecIndex(key) := Record(rec.tbl[KeyIndex(key) := value])];
      keys := if value != 0 then keys[key := value] else keys;
      return Ok;
    }

    /** `keysdb_remove`: exactly this key is unbound, and its value returned. */
    method Remove(key: nat) returns (v: nat)
      requires Valid() && key < KEYS_NR
      modifies this
      ensures Valid() && keys == old(keys) - {key} && v == Value(old(keys), key) && budget == old(budget)
      ensures forall i :: 0 <= i < RECORDS_NR ==> (root[i].Absent? <==> old(root)[i].Absent?)
    {
      var rec := root[RecIndex(key)];
      if rec.Absent? {
        assert At(root, key) == 0;
        return 0;
      }
      v := rec.tbl[KeyIndex(key)];
      assert v == At(root, key);
      WriteSlot(root, key, 0);
      root := root[RecIndex(key) := Record(rec.tbl[KeyIndex(key) := 0])];
      keys := keys - {key};
    }

    /** The roll-back of `keysdb_bind`. */
    method RollBack(start: nat, nr: nat, ghost was: Map, ghost value: nat)
      requires Valid() && start + nr <= KEYS_NR && keys == Ranged(was, start, nr, value)
      requires forall k :: start <= k < start + nr ==> k !in was
      modifies this
      ensures Valid() && keys == was && budget == old(budget)
    {
      hide Holds, Ranged;
      RangedNone(was, start, value);
      var i: nat := nr;
      while i != 0
        invariant i <= nr && Valid() && keys == Ranged(was, start, i, value) && budget == old(budget)
      {
        i := i - 1;
        RangedBack(was, start, i, value);
        var v := Remove(start + i);
      }
    }

    /** `keysdb_bind`: all the keys or none. It fails exactly when the records missing before the first key that is
        bound are more than can be had, or else when there is such a key. */
    method Bind(start: nat, nr: nat, value: nat) returns (err: Error)
      requires Valid() && start + nr <= KEYS_NR && value != 0
      modifies this
      ensures Valid()
      ensures keys == if err == Ok then Ranged(old(keys), start, nr, value) else old(keys)
      ensures |old(root)| == RECORDS_NR
      ensures var n := Clash(old(keys), start, nr); var cost := |Lacking(old(root), start, n)|;
        && err == (if cost > old(budget) then ENOMEM else if n < nr then EEXIST else Ok)
        && budget == if err == ENOMEM then 0 else old(budget) - cost
    {
      hide Holds, Ranged, Lacking, Clash, Filled;
      RootSize(root, keys);
      RangedNone(keys, start, value);
      FilledNone(root, start);
      err := Ok;
      var i := 0;
      while i < nr
        invariant i <= nr && Valid()
        invariant keys == Ranged(old(keys), start, i, value)
        invariant forall k :: start <= k < start + i ==> k !in old(keys)
        invariant Filled(old(root), root, start, i) && budget == old(budget) - |Lacking(old(root), start, i)|
      {
        RangedNext(old(keys), start, i, value);
        ghost var mid := root;
        err := Insert(start + i, value);
        FilledNext(old(root), mid, root, start, i, err == ENOMEM);
        if err != Ok {
          ClashIs(old(keys), start, nr, if err == ENOMEM then i + 1 else i);
          LackingMore(old(root), start, if err == ENOMEM then i + 1 else i, Clash(old(keys), start, nr));
          RollBack(start, i, old(keys), value);
          return;
        }
        i := i + 1;
      }
      ClashIs(old(keys), start, nr, nr);
      err := Ok;
    }

    /** `keysdb_unbind` */
    method Unbind(start: nat, nr: nat)
      requires Valid() && start + nr <= KEYS_NR
      modifies this
      ensures Valid() && keys == Outside(old(keys), start, nr) && budget == old(budget)
    {
      hide Holds;
      var i := 0;
      while i < nr
        invariant i <= nr && Valid()
        invariant keys == Outside(old(keys), start, i) && budget == old(budget)
      {
        var v := Remove(start + i);
        i := i + 1;
      }
    }
  }

  /** An empty record holds nothing more than no record. */
  lemma NewRecord(root: seq<Record>, keys: Map, i: nat)
    requires Holds(root, keys) && i < RECORDS_NR && root[i].Absent?
    ensures Holds(root[i := Record(seq(KEYS_PER_REC, _ => 0))], keys)
  {
    var root' := root[i := Record(seq(KEYS_PER_REC, _ => 0))];
    assert forall k: nat :: k < KEYS_NR ==> At(root', k) == At(root, k);
  }

  lemma RootSize(root: seq<Record>, keys: Map)
    requires Holds(root, keys)
    ensures |root| == RECORDS_NR
  {
  }

  lemma FilledNone(root: seq<Record>, start: nat)
    requires |root| == RECORDS_NR && start <= KEYS_NR
    ensures Lacking(root, start, 0) == {} && Filled(root, root, start, 0)
  {
    LackingNone(root, start);
  }

  /** One key further: its record is there, or cannot be had. */
  lemma FilledNext(root: seq<Record>, mid: seq<Record>, root': seq<Record>, start: nat, nr: nat, fails: bool)
    requires Filled(root, mid, start, nr) && start + nr < KEYS_NR && |root'| == RECORDS_NR
    requires forall i :: 0 <= i < RECORDS_NR ==>
      (root'[i].Absent? <==> mid[i].Absent? && (i != RecIndex(start + nr) || fails))
    ensures !fails ==> Filled(root, root', start, nr + 1)
    ensures |Lacking(root, start, nr + 1)| ==
      |Lacking(root, start, nr)| + if mid[RecIndex(start + nr)].Absent? then 1 else 0
  {
    LackingNext(root, start, nr);
    var i := RecIndex(start + nr);
    var lacking := Lacking(root, start, nr);
    assert mid[i].Absent? <==> root[i].Absent? && i !in lacking;
    assert Lacking(root, start, nr + 1) == if mid[i].Absent? then lacking + {i} else lacking;
    hide Lacking;
  }
}
