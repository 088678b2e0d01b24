/**
 * The memtable (src/memtable.rs): an ordered map from encoded memtable keys
 * to values. Its order is the raw bytewise order of the encoded keys, the
 * order of the map's own key type.
 */
module Memtable {
  import opened Bytes
  import opened Cmp
  import opened Encoding
  import opened KeyTypes

  /** Every key strictly before the next in bytewise order. */
  ghost predicate StrictlyAscending(keys: seq<seq<byte>>) {
    forall i, j :: 0 <= i < j < |keys| ==> Compare(keys[i], keys[j]) == Less
  }

  /** The arguments of one `put`. */
  datatype PutOp = PutOp(msn: u64, mt: MsgType, key: seq<byte>, value: seq<byte>)

  /** The map after a series of `put`s, the last applied last. */
  function ApplyPuts(m: map<seq<byte>, seq<byte>>, ops: seq<PutOp>): map<seq<byte>, seq<byte>> {
    if ops == [] then m
    else
      var op := ops[|ops| - 1];
      ApplyPuts(m, ops[..|ops| - 1])[EncodeMemtableKey(op.key, op.mt, op.msn) := op.value]
  }

  /** `MemTable`: the map, with the ascending view of its keys the ordered map keeps. */
  class MemTable {
    var records: map<seq<byte>, seq<byte>>
    var keys: seq<seq<byte>>

    ghost predicate Valid()
      reads this
    {
      && StrictlyAscending(keys)
      && |keys| == |records|
      && forall k :: k in records <==> k in keys
    }

    /** `MemTable::new`: an empty table. */
    constructor ()
      ensures Valid()
      ensures records == map[] && keys == []
    {
      records := map[];
      keys := [];
    }

    /** `len`: the number of stored records, every version counted. */
    method Len() returns (n: nat)
      requires Valid()
      ensures n == |records|
    {
      n := |keys|;
    }

    /**
     * `put`: builds the memtable key of `(key, mt, msn)` and maps it to
     * `value`, replacing an earlier value under the same encoded key.
     */
    method Put(msn: u64, mt: MsgType, key: seq<byte>, value: seq<byte>)
      requires Valid()
      modifies this
      ensures Valid()
      ensures records == old(records)[EncodeMemtableKey(key, mt, msn) := value]
      ensures EncodeMemtableKey(key, mt, msn) in old(records) ==> |records| == old(|records|)
      ensures EncodeMemtableKey(key, mt, msn) !in old(records) ==> |records| == old(|records|) + 1
    {
      var encoded := BuildMemtableKey(key, mt, msn);
      Insert(encoded, value);
    }

    /** The map's `insert`: finds the key's place in the ascending view and stores the value. */
    method Insert(k: seq<byte>, v: seq<byte>)
      requires Valid()
      modifies this
      ensures Valid()
      ensures records == old(records)[k := v]
      ensures k in old(records) ==> |records| == old(|records|)
      ensures k !in old(records) ==> |records| == old(|records|) + 1
    {
      var i := 0;
      while i < |keys| && Compare(keys[i], k) == Less
        invariant 0 <= i <= |keys|
        invariant forall j :: 0 <= j < i ==> Compare(keys[j], k) == Less
      {
        i := i + 1;
      }
      if i < |keys| && keys[i] == k {
        records := records[k := v];
      } else {
        AbsentWhenBetween(keys, i, k);
        InsertKeepsAscending(keys, i, k);
        keys := keys[..i] + [k] + keys[i..];
        records := records[k := v];
      }
    }

    /** `get`: a stub that finds nothing for any query. */
    method Get(q: QueryKey) returns (value: Option<seq<byte>>, deleted: bool)
      ensures value == None && !deleted
    {
      value, deleted := None, false;
    }

    /** `iter`: every entry once, in strictly ascending bytewise order of the encoded keys. */
    method Iter() returns (entries: seq<(seq<byte>, seq<byte>)>)
      requires Valid()
      ensures |entries| == |records|
      ensures forall i :: 0 <= i < |entries| ==> entries[i].0 in records && entries[i].1 == records[entries[i].0]
      ensures forall k :: k in records ==> exists i :: 0 <= i < |entries| && entries[i].0 == k
      ensures forall i, j :: 0 <= i < j < |entries| ==> Compare(entries[i].0, entries[j].0) == Less
    {
      entries := [];
      var i := 0;
      while i < |keys|
        invariant 0 <= i <= |keys|
        invariant |entries| == i
        invariant forall j :: 0 <= j < i ==> entries[j] == (keys[j], records[keys[j]])
      {
        entries := entries + [(keys[i], records[keys[i]])];
        i := i + 1;
      }
      forall k | k in records ensures exists i :: 0 <= i < |entries| && entries[i].0 == k {
        var j :| 0 <= j < |keys| && keys[j] == k;
        assert entries[j].0 == k;
      }
    }
  }

  /** A key after every key before `i` and not equal to the one at `i` is nowhere in an ascending sequence. */
  lemma AbsentWhenBetween(keys: seq<seq<byte>>, i: nat, k: seq<byte>)
    requires StrictlyAscending(keys) && i <= |keys|
    requires forall j :: 0 <= j < i ==> Compare(keys[j], k) == Less
    requires i < |keys| ==> Compare(keys[i], k) != Less && keys[i] != k
    ensures k !in keys
    ensures forall j :: i <= j < |keys| ==> Compare(k, keys[j]) == Less
  {
    if i < |keys| {
      CompareReverse(keys[i], k);
      CompareEqualIff(keys[i], k);
    }
    forall j | i < j < |keys| ensures Compare(k, keys[j]) == Less {
      CompareTransitive(k, keys[i], keys[j]);
    }
    forall j | 0 <= j < |keys| ensures keys[j] != k {
      if j < i {
        CompareEqualIff(keys[j], k);
      } else {
        CompareEqualIff(k, keys[j]);
      }
    }
  }

  /** Putting a key between its neighbours keeps the sequence strictly ascending. */
  lemma InsertKeepsAscending(keys: seq<seq<byte>>, i: nat, k: seq<byte>)
    requires StrictlyAscending(keys) && i <= |keys|
    requires forall j :: 0 <= j < i ==> Compare(keys[j], k) == Less
    requires forall j :: i <= j < |keys| ==> Compare(k, keys[j]) == Less
    ensures StrictlyAscending(keys[..i] + [k] + keys[i..])
  {
    var r := keys[..i] + [k] + keys[i..];
    forall p, q | 0 <= p < q < |r| ensures Compare(r[p], r[q]) == Less {
      var x := if p < i then keys[p] else if p == i then k else keys[p - 1];
      var y := if q < i then keys[q] else if q == i then k else keys[q - 1];
      assert r[p] == x && r[q] == y;
      if q > i && p < i {
        CompareTransitive(keys[p], k, keys[q - 1]);
      }
    }
  }

  /**
   * `put`s of pairwise distinct (user key, sequence number) pairs, sequence
   * numbers below 2^56, leave exactly one record each in a new table.
   */
  lemma {:induction false} DistinctPutsCount(ops: seq<PutOp>)
    requires forall i :: 0 <= i < |ops| ==> ops[i].msn < MSN_LIMIT
    requires forall i, j :: 0 <= i < j < |ops| ==> (ops[i].key, ops[i].msn) != (ops[j].key, ops[j].msn)
    ensures |ApplyPuts(map[], ops)| == |ops|
    ensures forall i :: 0 <= i < |ops| ==> EncodeMemtableKey(ops[i].key, ops[i].mt, ops[i].msn) in ApplyPuts(map[], ops)
  {
    if ops != [] {
      var n := |ops| - 1;
      var prefix := ops[..n];
      var op := ops[n];
      assert forall i :: 0 <= i < n ==> prefix[i] == ops[i];
      DistinctPutsCount(prefix);
      var m := ApplyPuts(map[], prefix);
      var k := EncodeMemtableKey(op.key, op.mt, op.msn);
      assert ApplyPuts(map[], ops) == m[k := op.value];
      if k in m {
        EncodedKeyOfSomePut(prefix, k);
        var i :| 0 <= i < n && k == EncodeMemtableKey(prefix[i].key, prefix[i].mt, prefix[i].msn);
        EncodeInjective(op.key, op.mt, op.msn, ops[i].key, ops[i].mt, ops[i].msn);
      }
    }
  }

  /** Every key of the map after `put`s on an empty table is the encoded key of one of them. */
  lemma {:induction false} EncodedKeyOfSomePut(ops: seq<PutOp>, k: seq<byte>)
    requires k in ApplyPuts(map[], ops)
    ensures exists i :: 0 <= i < |ops| && k == EncodeMemtableKey(ops[i].key, ops[i].mt, ops[i].msn)
  {
    var n := |ops| - 1;
    if k != EncodeMemtableKey(ops[n].key, ops[n].mt, ops[n].msn) {
      EncodedKeyOfSomePut(ops[..n], k);
      var i :| 0 <= i < n && k == EncodeMemtableKey(ops[..n][i].key, ops[..n][i].mt, ops[..n][i].msn);
      assert ops[..n][i] == ops[i];
    }
  }

  /**
   * The table's bytewise order is not the memtable-key order: for one user
   * key, a deletion sorts before an insertion whatever their sequence
   * numbers, because the type byte is the first byte of the little-endian tag.
   */
  lemma DeleteSortsBeforeInsert(k: seq<byte>, s1: u64, s2: u64)
    ensures Compare(EncodeMemtableKey(k, CbMsgDel, s1), EncodeMemtableKey(k, CbMsgInsert, s2)) == Less
  {
    var p := Varint(|k| + U64_SIZE) + k;
    var f1, f2 := Fixed64(PackTag(s1, CbMsgDel)), Fixed64(PackTag(s2, CbMsgInsert));
    assert EncodeMemtableKey(k, CbMsgDel, s1) == p + f1;
    assert EncodeMemtableKey(k, CbMsgInsert, s2) == p + f2;
    CompareCommonPrefix(p, f1, f2);
    assert f1[0] == 0 && f2[0] == 1;
  }

  /**
   * Two inserts of user key "a" with sequence numbers 1 and 2: the table
   * iterates the older first, where the memtable-key order puts the newer first.
   */
  lemma OlderIteratesFirst()
    ensures Compare(EncodeMemtableKey([97], CbMsgInsert, 1), EncodeMemtableKey([97], CbMsgInsert, 2)) == Less
    ensures CmpMemtableKey(DefaultCmp, EncodeMemtableKey([97], CbMsgInsert, 1), EncodeMemtableKey([97], CbMsgInsert, 2)) == Greater
  {
    var p := Varint(9) + [97];
    assert PackTag(1, CbMsgInsert) == 0x101 && PackTag(2, CbMsgInsert) == 0x201;
    var f1, f2 := Fixed64(0x101), Fixed64(0x201);
    assert f1 == [1] + LittleEndian(1, 7);
    assert f2 == [1] + LittleEndian(2, 7);
    assert EncodeMemtableKey([97], CbMsgInsert, 1) == p + f1;
    assert EncodeMemtableKey([97], CbMsgInsert, 2) == p + f2;
    CompareCommonPrefix(p, f1, f2);
    assert f1[..1] == f2[..1];
    CompareFirstDifference(f1, f2, 1);
    NewerSortsFirst([97], CbMsgInsert, 1, CbMsgInsert, 2);
  }
}
