/**
 * The key formats of the memtable (src/key_types.rs): the tag that packs a
 * sequence number with a mutation type, the LevelDB-style memtable key
 * `varint(len(key) + 8) ++ key ++ tag`, the query key with its three views,
 * and the ordering of memtable keys.
 */
module KeyTypes {
  import opened Bytes
  import opened Cmp
  import opened Encoding

  /** `MsgType`: `CbMsgDel = 0`, `CbMsgInsert = 1`. */
  datatype MsgType = CbMsgDel | CbMsgInsert

  /** `t as u64`. */
  function TypeByte(t: MsgType): nat {
    match t
    case CbMsgDel => 0
    case CbMsgInsert => 1
  }

  /** 2^56: sequence numbers below it survive the shift into a tag. */
  const MSN_LIMIT: nat := 0x100_0000_0000_0000

  /** `x << 8` on a `u64`: the top eight bits of `x` are shifted out. */
  function ShiftLeft8(x: u64): (r: u64)
    ensures r == (x % MSN_LIMIT) * 0x100
  {
    DivModUnique(x * 0x100, U64_LIMIT, x / MSN_LIMIT, (x % MSN_LIMIT) * 0x100);
    (x * 0x100) % U64_LIMIT
  }

  /**
   * The tag `msn << 8 | t as u64`. The low byte of the shifted value is zero,
   * so the bitwise or adds the type byte.
   */
  function PackTag(msn: u64, t: MsgType): (tag: u64)
    ensures tag % 0x100 == TypeByte(t)
  {
    var tag := ShiftLeft8(msn) + TypeByte(t);
    DivModUnique(tag, 0x100, msn % MSN_LIMIT, TypeByte(t));
    tag
  }

  /** `parse_tag`: the mutation type from the low byte and `tag >> 8` as the sequence number. */
  function ParseTag(tag: u64): (r: (MsgType, u64))
    ensures r.1 < MSN_LIMIT
    ensures r.0 == CbMsgDel <==> tag % 0x100 == 0
  {
    var msn := tag / 0x100;
    var mt := tag % 0x100;
    if mt == 0 then (CbMsgDel, msn)
    else if mt == 1 then (CbMsgInsert, msn)
    else (CbMsgInsert, msn)
  }

  /** Parsing a packed tag gives back the type and the sequence number, less the bits the shift dropped. */
  lemma ParseTagOfPackTag(msn: u64, t: MsgType)
    ensures ParseTag(PackTag(msn, t)) == (t, msn % MSN_LIMIT)
    ensures msn < MSN_LIMIT ==> ParseTag(PackTag(msn, t)) == (t, msn)
  {
    DivModUnique(PackTag(msn, t), 0x100, msn % MSN_LIMIT, TypeByte(t));
  }

  /** Every tag whose low byte is a valid type byte is the packing of what it parses to. */
  lemma PackTagOfParseTag(tag: u64)
    requires tag % 0x100 <= 1
    ensures PackTag(ParseTag(tag).1, ParseTag(tag).0) == tag
  {
    var (t, msn) := ParseTag(tag);
    assert msn % MSN_LIMIT == msn;
    assert tag == msn * 0x100 + TypeByte(t);
  }

  /** A larger sequence number (below 2^56) gives a larger tag, whatever the two types. */
  lemma PackTagMonotonic(m1: u64, t1: MsgType, m2: u64, t2: MsgType)
    requires m1 < m2 < MSN_LIMIT
    ensures PackTag(m1, t1) < PackTag(m2, t2)
  {
  }

  /** The memtable key `build_memtable_key(key, t, msn)` produces. */
  function EncodeMemtableKey(key: seq<byte>, t: MsgType, msn: u64): (r: seq<byte>)
    ensures |r| == VarintLen(|key| + U64_SIZE) + |key| + U64_SIZE
  {
    Varint(|key| + U64_SIZE) + key + Fixed64(PackTag(msn, t))
  }

  /**
   * `write_all` on the cursor `buf[pos..]`: copies `data` and advances the
   * cursor. Every caller proves there is room, so its `expect` cannot fire.
   */
  method WriteAll(buf: array<byte>, pos: nat, data: seq<byte>) returns (next: nat)
    requires pos + |data| <= buf.Length
    modifies buf
    ensures next == pos + |data|
    ensures buf[..] == old(buf[..pos]) + data + old(buf[next..])
  {
    var i := 0;
    while i < |data|
      invariant 0 <= i <= |data|
      invariant forall j :: 0 <= j < buf.Length ==>
        buf[j] == if pos <= j < pos + i then data[j - pos] else old(buf[j])
    {
      buf[pos + i] := data[i];
      i := i + 1;
    }
    next := pos + |data|;
    assert buf[..] == old(buf[..pos]) + data + old(buf[next..]);
  }

  /** `write_varint`: encodes `n` and writes its bytes at the cursor. */
  method WriteVarint(buf: array<byte>, pos: nat, n: nat) returns (next: nat)
    requires pos + VarintLen(n) <= buf.Length
    modifies buf
    ensures next == pos + VarintLen(n)
    ensures buf[..] == old(buf[..pos]) + Varint(n) + old(buf[next..])
  {
    next := WriteAll(buf, pos, Varint(n));
  }

  /** `write_fixedint` of a `u64`: its eight little-endian bytes at the cursor. */
  method WriteFixed64(buf: array<byte>, pos: nat, x: u64) returns (next: nat)
    requires pos + U64_SIZE <= buf.Length
    modifies buf
    ensures next == pos + U64_SIZE
    ensures buf[..] == old(buf[..pos]) + Fixed64(x) + old(buf[next..])
  {
    next := WriteAll(buf, pos, Fixed64(x));
  }

  /**
   * `build_memtable_key`: sizes a zeroed buffer to exactly
   * `keysize + required_space(keysize)` with `keysize = len(key) + 8`,
   * writes the varint, the key and the tag through a cursor, and checks the
   * cursor is used up.
   */
  method BuildMemtableKey(key: seq<byte>, mt: MsgType, msn: u64) returns (r: seq<byte>)
    ensures r == EncodeMemtableKey(key, mt, msn)
    ensures |r| == VarintLen(|key| + U64_SIZE) + |key| + U64_SIZE
  {
    var keysize := |key| + U64_SIZE;
    var buf := new byte[keysize + VarintLen(keysize)](_ => 0);
    var pos := WriteVarint(buf, 0, keysize);
    ghost var afterVarint := buf[..];
    pos := WriteAll(buf, pos, key);
    ghost var afterKey := buf[..];
    assert afterKey[..pos] == Varint(keysize) + key by {
      assert afterKey[..pos] == afterVarint[..VarintLen(keysize)] + key;
    }
    pos := WriteFixed64(buf, pos, PackTag(msn, mt));
    assert pos == buf.Length;
    r := buf[..];
  }

  /**
   * `QueryKey`: an encoded memtable key and the offset at which the user key
   * starts inside it.
   */
  datatype QueryKey = QueryKey(key: seq<byte>, keyOffset: nat) {
    /** `memtable_key()`: the whole encoded key. */
    function MemtableKey(): seq<byte> {
      key
    }

    /** `client_key()`: the bytes between the offset and the eight tag bytes. */
    function ClientKey(): seq<byte>
      requires keyOffset + U64_SIZE <= |key|
    {
      key[keyOffset..|key| - U64_SIZE]
    }

    /** `internal_key()`: everything from the offset on, user key and tag. */
    function InternalKey(): seq<byte>
      requires keyOffset <= |key|
    {
      key[keyOffset..]
    }

    /**
     * `QueryKey::new_raw`: builds the same bytes as `build_memtable_key`
     * in a buffer of `len(k) + required_space(len(k) + 8) + 8` bytes, and
     * records the width of the varint as the offset of the user key.
     */
    static method NewRaw(k: seq<byte>, msn: u64, t: MsgType) returns (q: QueryKey)
      ensures q.MemtableKey() == EncodeMemtableKey(k, t, msn)
      ensures q.keyOffset == VarintLen(|k| + U64_SIZE)
      ensures q.keyOffset + U64_SIZE <= |q.key|
      ensures q.ClientKey() == k
      ensures q.InternalKey() == k + Fixed64(PackTag(msn, t))
    {
      var internalKeylen := |k| + U64_SIZE;
      var key := new byte[|k| + VarintLen(internalKeylen) + U64_SIZE](_ => 0);
      var pos := WriteVarint(key, 0, internalKeylen);
      ghost var afterVarint := key[..];
      pos := WriteAll(key, pos, k);
      ghost var afterKey := key[..];
      assert afterKey[..pos] == Varint(internalKeylen) + k by {
        assert afterKey[..pos] == afterVarint[..VarintLen(internalKeylen)] + k;
      }
      pos := WriteFixed64(key, pos, PackTag(msn, t));
      q := QueryKey(key[..], VarintLen(internalKeylen));
      QueryKeyViews(k, msn, t);
    }

    /** `QueryKey::new`: a query key for an insertion. */
    static method New(k: seq<byte>, msn: u64) returns (q: QueryKey)
      ensures q.MemtableKey() == EncodeMemtableKey(k, CbMsgInsert, msn)
      ensures q.keyOffset + U64_SIZE <= |q.key|
      ensures q.ClientKey() == k
      ensures q.InternalKey() == k + Fixed64(PackTag(msn, CbMsgInsert))
    {
      q := NewRaw(k, msn, CbMsgInsert);
    }
  }

  /** The views of a query key built from `k` slice out exactly `k` and `k` with its tag. */
  lemma QueryKeyViews(k: seq<byte>, msn: u64, t: MsgType)
    ensures
      var q := QueryKey(EncodeMemtableKey(k, t, msn), VarintLen(|k| + U64_SIZE));
      && q.keyOffset + U64_SIZE <= |q.key|
      && q.ClientKey() == k
      && q.InternalKey() == k + Fixed64(PackTag(msn, t))
      && |q.InternalKey()| == |k| + U64_SIZE
  {
    var v := Varint(|k| + U64_SIZE);
    var s := EncodeMemtableKey(k, t, msn);
    assert s == v + (k + Fixed64(PackTag(msn, t)));
    assert s[|v|..] == k + Fixed64(PackTag(msn, t));
    assert s[|v|..|s| - U64_SIZE] == k;
  }

  /**
   * The user key and the tag bytes of a memtable key, sliced as
   * `cmp_memtable_key` slices them: the varint gives the internal-key length
   * `l` and its own width `o`; the user key is `s[o..o + l - 8]` and the tag
   * bytes are `s[o + l - 8..o + l]`. None for a key whose prefix is cut
   * short, is below 8 or overruns the key.
   */
  function DecodeMemtableKey(s: seq<byte>): Option<(seq<byte>, seq<byte>)> {
    match DecodeVarint(s)
    case None => None
    case Some((l, o)) =>
      if l < U64_SIZE || o + l > |s| then None
      else Some((s[o..o + l - U64_SIZE], s[o + l - U64_SIZE..o + l]))
  }

  predicate WellFormed(s: seq<byte>) {
    DecodeMemtableKey(s).Some?
  }

  /** A decoded user key and its eight tag bytes lie inside the key, after a prefix of at least one byte. */
  lemma DecodeMemtableKeyBounds(s: seq<byte>)
    requires WellFormed(s)
    ensures |DecodeMemtableKey(s).value.0| + U64_SIZE < |s|
    ensures |DecodeMemtableKey(s).value.1| == U64_SIZE
    ensures DecodeMemtableKey(s).value.0 + DecodeMemtableKey(s).value.1 <= s[DecodeVarint(s).value.1..]
  {
  }

  /** Slicing a concatenation of three strings gives back each part. */
  lemma ThreeParts(v: seq<byte>, k: seq<byte>, f: seq<byte>)
    ensures v + k + f == v + (k + f)
    ensures (v + k + f)[|v|..|v| + |k|] == k
    ensures (v + k + f)[|v| + |k|..|v| + |k| + |f|] == f
  {
  }

  /**
   * A key made of a prefix that decodes as the varint of `len(k) + 8`, then
   * `k`, then eight tag bytes, decodes to `k` and those bytes.
   */
  lemma DecodeOfParts(s: seq<byte>, v: seq<byte>, k: seq<byte>, f: seq<byte>)
    requires s == v + k + f && |f| == U64_SIZE
    requires DecodeVarint(s) == Some((|k| + U64_SIZE, |v|))
    ensures DecodeMemtableKey(s) == Some((k, f))
  {
    ThreeParts(v, k, f);
    DecodeAfterVarint(s, |k| + U64_SIZE, |v|);
  }

  /** Once the varint of a key is read, the key decodes to the two slices after it. */
  lemma DecodeAfterVarint(s: seq<byte>, l: nat, o: nat)
    requires DecodeVarint(s) == Some((l, o))
    requires U64_SIZE <= l && o + l <= |s|
    ensures DecodeMemtableKey(s) == Some((s[o..o + l - U64_SIZE], s[o + l - U64_SIZE..o + l]))
  {
  }

  /** A varint of `len(k) + 8`, the user key `k` and any eight tag bytes decode back to `k` and those bytes. */
  lemma DecodeWithTail(k: seq<byte>, f: seq<byte>)
    requires |f| == U64_SIZE
    ensures DecodeVarint(Varint(|k| + U64_SIZE) + k + f) == Some((|k| + U64_SIZE, VarintLen(|k| + U64_SIZE)))
    ensures DecodeMemtableKey(Varint(|k| + U64_SIZE) + k + f) == Some((k, f))
  {
    var v := Varint(|k| + U64_SIZE);
    DecodeVarintOfVarint(|k| + U64_SIZE, k + f);
    ThreeParts(v, k, f);
    DecodeOfParts(v + k + f, v, k, f);
  }

  /** Decoding an encoded key gives back the user key and the tag that was packed. */
  lemma DecodeOfEncode(k: seq<byte>, t: MsgType, msn: u64)
    ensures DecodeVarint(EncodeMemtableKey(k, t, msn)) == Some((|k| + U64_SIZE, VarintLen(|k| + U64_SIZE)))
    ensures DecodeMemtableKey(EncodeMemtableKey(k, t, msn)) == Some((k, Fixed64(PackTag(msn, t))))
    ensures DecodeFixed64(DecodeMemtableKey(EncodeMemtableKey(k, t, msn)).value.1) == PackTag(msn, t)
  {
    DecodeWithTail(k, Fixed64(PackTag(msn, t)));
    Fixed64RoundTrip(PackTag(msn, t), Fixed64(PackTag(msn, t)));
  }

  /** A varint cut before its last byte does not decode. */
  lemma {:induction false} DecodeVarintOfTruncated(n: nat, m: nat)
    requires m < VarintLen(n)
    ensures DecodeVarint(Varint(n)[..m]) == None
  {
    if m > 0 {
      assert n >= 0x80;
      assert Varint(n)[..m][1..] == Varint(n / 0x80)[..m - 1];
      DecodeVarintOfTruncated(n / 0x80, m - 1);
    }
  }

  /** Every proper prefix of an encoded key is rejected rather than read out of bounds. */
  lemma DecodeOfTruncated(k: seq<byte>, t: MsgType, msn: u64, m: nat)
    requires m < |EncodeMemtableKey(k, t, msn)|
    ensures DecodeMemtableKey(EncodeMemtableKey(k, t, msn)[..m]) == None
  {
    var s := EncodeMemtableKey(k, t, msn);
    var v := Varint(|k| + U64_SIZE);
    if m < |v| {
      assert s[..m] == v[..m];
      DecodeVarintOfTruncated(|k| + U64_SIZE, m);
    } else {
      assert s[..m] == v + s[|v|..m];
      DecodeVarintOfVarint(|k| + U64_SIZE, s[|v|..m]);
    }
  }

  /**
   * Different user keys, or different sequence numbers below 2^56, or
   * different types never encode to the same memtable key.
   */
  lemma EncodeInjective(k1: seq<byte>, t1: MsgType, m1: u64, k2: seq<byte>, t2: MsgType, m2: u64)
    requires EncodeMemtableKey(k1, t1, m1) == EncodeMemtableKey(k2, t2, m2)
    ensures k1 == k2 && t1 == t2 && m1 % MSN_LIMIT == m2 % MSN_LIMIT
    ensures m1 < MSN_LIMIT && m2 < MSN_LIMIT ==> m1 == m2
  {
    DecodeOfEncode(k1, t1, m1);
    DecodeOfEncode(k2, t2, m2);
    ParseTagOfPackTag(m1, t1);
    ParseTagOfPackTag(m2, t2);
  }

  /**
   * `cmp_memtable_key`, with b's tag read at b's own offset: the user keys
   * under `ucmp`, then the sequence numbers in descending order.
   */
  function CmpMemtableKey(ucmp: Comparator, a: seq<byte>, b: seq<byte>): Ordering
    requires WellFormed(a) && WellFormed(b)
  {
    var (clientKeyA, atag) := DecodeMemtableKey(a).value;
    var (clientKeyB, btag) := DecodeMemtableKey(b).value;
    match ucmp.cmp(clientKeyA, clientKeyB)
    case Less => Less
    case Greater => Greater
    case Equal => CompareNat(ParseTag(DecodeFixed64(btag)).1, ParseTag(DecodeFixed64(atag)).1)
  }

  /**
   * `cmp_memtable_key` as written: b's tag is sliced as
   * `b[ao + bl - 8..bo + bl]`, with a's varint width `ao`. That slice is
   * `8 + bo - ao` bytes long; None stands for the panic or the misread
   * `decode_fixed` makes of it when `ao != bo`.
   */
  function CmpMemtableKeyAsWritten(ucmp: Comparator, a: seq<byte>, b: seq<byte>): Option<Ordering>
    requires WellFormed(a) && WellFormed(b)
  {
    var (al, ao) := DecodeVarint(a).value;
    var (bl, bo) := DecodeVarint(b).value;
    var clientKeyA := a[ao..ao + al - U64_SIZE];
    var clientKeyB := b[bo..bo + bl - U64_SIZE];
    match ucmp.cmp(clientKeyA, clientKeyB)
    case Less => Some(Less)
    case Greater => Some(Greater)
    case Equal =>
      var start, end := ao + bl - U64_SIZE, bo + bl;
      if end < start || end - start != U64_SIZE then None
      else
        var atag := DecodeFixed64(a[ao + al - U64_SIZE..ao + al]);
        var btag := DecodeFixed64(b[start..end]);
        Some(CompareNat(ParseTag(btag).1, ParseTag(atag).1))
  }

  /** On two encoded keys, the order is the user-key order, then newest sequence number first. */
  lemma CmpMemtableKeyOnEncoded(ucmp: Comparator, ka: seq<byte>, ta: MsgType, sa: u64, kb: seq<byte>, tb: MsgType, sb: u64)
    ensures WellFormed(EncodeMemtableKey(ka, ta, sa)) && WellFormed(EncodeMemtableKey(kb, tb, sb))
    ensures CmpMemtableKey(ucmp, EncodeMemtableKey(ka, ta, sa), EncodeMemtableKey(kb, tb, sb))
         == if ucmp.cmp(ka, kb) == Equal then CompareNat(sb % MSN_LIMIT, sa % MSN_LIMIT) else ucmp.cmp(ka, kb)
  {
    DecodeOfEncode(ka, ta, sa);
    DecodeOfEncode(kb, tb, sb);
    ParseTagOfPackTag(sa, ta);
    ParseTagOfPackTag(sb, tb);
  }

  /** Two encoded keys of one user key, which the comparator calls Equal to itself, are ordered by descending sequence number below 2^56. */
  lemma SameUserKeyOrder(ucmp: Comparator, k: seq<byte>, t1: MsgType, s1: u64, t2: MsgType, s2: u64)
    requires ucmp.cmp(k, k) == Equal
    requires s1 < MSN_LIMIT && s2 < MSN_LIMIT
    ensures WellFormed(EncodeMemtableKey(k, t1, s1)) && WellFormed(EncodeMemtableKey(k, t2, s2))
    ensures CmpMemtableKey(ucmp, EncodeMemtableKey(k, t1, s1), EncodeMemtableKey(k, t2, s2)) == CompareNat(s2, s1)
  {
    assert s1 % MSN_LIMIT == s1 && s2 % MSN_LIMIT == s2;
    CmpMemtableKeyOnEncoded(ucmp, k, t1, s1, k, t2, s2);
  }

  /** For one user key, the newer record sorts first and the type is ignored. */
  lemma NewerSortsFirst(k: seq<byte>, t1: MsgType, s1: u64, t2: MsgType, s2: u64)
    requires s1 < MSN_LIMIT && s2 < MSN_LIMIT
    ensures WellFormed(EncodeMemtableKey(k, t1, s1)) && WellFormed(EncodeMemtableKey(k, t2, s2))
    ensures s1 < s2 ==> CmpMemtableKey(DefaultCmp, EncodeMemtableKey(k, t1, s1), EncodeMemtableKey(k, t2, s2)) == Greater
    ensures s1 == s2 ==> CmpMemtableKey(DefaultCmp, EncodeMemtableKey(k, t1, s1), EncodeMemtableKey(k, t2, s2)) == Equal
  {
    DefaultCmpEqualIff(k, k);
    SameUserKeyOrder(DefaultCmp, k, t1, s1, t2, s2);
  }

  /** With the offsets of the two varints equal, the code as written computes the intended order. */
  lemma AsWrittenAgreesOnEqualOffsets(ucmp: Comparator, a: seq<byte>, b: seq<byte>)
    requires WellFormed(a) && WellFormed(b)
    requires DecodeVarint(a).value.1 == DecodeVarint(b).value.1
    ensures CmpMemtableKeyAsWritten(ucmp, a, b) == Some(CmpMemtableKey(ucmp, a, b))
  {
  }

  /** Under DefaultCmp, Equal user keys have equal lengths, so the slip at line 135 is harmless on encoded keys. */
  lemma AsWrittenAgreesUnderDefaultCmp(ka: seq<byte>, ta: MsgType, sa: u64, kb: seq<byte>, tb: MsgType, sb: u64)
    ensures WellFormed(EncodeMemtableKey(ka, ta, sa)) && WellFormed(EncodeMemtableKey(kb, tb, sb))
    ensures CmpMemtableKeyAsWritten(DefaultCmp, EncodeMemtableKey(ka, ta, sa), EncodeMemtableKey(kb, tb, sb))
         == Some(CmpMemtableKey(DefaultCmp, EncodeMemtableKey(ka, ta, sa), EncodeMemtableKey(kb, tb, sb)))
  {
    var a, b := EncodeMemtableKey(ka, ta, sa), EncodeMemtableKey(kb, tb, sb);
    DecodeOfEncode(ka, ta, sa);
    DecodeOfEncode(kb, tb, sb);
    if ka == kb {
      AsWrittenAgreesOnEqualOffsets(DefaultCmp, a, b);
    } else {
      DefaultCmpEqualIff(ka, kb);
      assert DefaultCmp.cmp(ka, kb) != Equal;
    }
  }

  /**
   * When a comparator calls two user keys Equal although their lengths need
   * varints of different widths, the code as written slices b's tag with
   * the wrong length and has no result.
   */
  lemma AsWrittenMisreadsTag(ucmp: Comparator, ka: seq<byte>, ta: MsgType, sa: u64, kb: seq<byte>, tb: MsgType, sb: u64)
    requires ucmp.cmp(ka, kb) == Equal
    requires VarintLen(|ka| + U64_SIZE) != VarintLen(|kb| + U64_SIZE)
    ensures WellFormed(EncodeMemtableKey(ka, ta, sa)) && WellFormed(EncodeMemtableKey(kb, tb, sb))
    ensures CmpMemtableKeyAsWritten(ucmp, EncodeMemtableKey(ka, ta, sa), EncodeMemtableKey(kb, tb, sb)) == None
  {
    DecodeOfEncode(ka, ta, sa);
    DecodeOfEncode(kb, tb, sb);
  }

  /** A custom user-key order: by the first byte alone, as a prefix-bucketing comparator might. */
  function FirstByteOrder(x: seq<byte>, y: seq<byte>): Ordering {
    Compare(x[..if |x| < 1 then |x| else 1], y[..if |y| < 1 then |y| else 1])
  }

  /**
   * A concrete case: under FirstByteOrder, `[1]` and `[1]` followed by 119
   * zero bytes are Equal, and their varints are one and two bytes wide.
   */
  lemma AsWrittenCounterexample()
    ensures
      var ucmp := Comparator(FirstByteOrder, "first-byte");
      var a := EncodeMemtableKey([1], CbMsgInsert, 1);
      var b := EncodeMemtableKey([1] + seq(119, _ => 0), CbMsgInsert, 2);
      && WellFormed(a) && WellFormed(b)
      && CmpMemtableKeyAsWritten(ucmp, a, b) == None
      && CmpMemtableKey(ucmp, a, b) == Greater
  {
    var ucmp := Comparator(FirstByteOrder, "first-byte");
    var ka: seq<byte> := [1];
    var kb: seq<byte> := [1] + seq(119, _ => 0);
    assert kb[..1] == ka;
    CompareEqualIff(ka, ka);
    assert ucmp.cmp(ka, kb) == Compare(ka, ka) == Equal;
    assert VarintLen(|ka| + U64_SIZE) == 1;
    assert VarintLen(|kb| + U64_SIZE) == 2;
    AsWrittenMisreadsTag(ucmp, ka, CbMsgInsert, 1, kb, CbMsgInsert, 2);
    CmpMemtableKeyOnEncoded(ucmp, ka, CbMsgInsert, 1, kb, CbMsgInsert, 2);
  }

  /** Swapping the arguments reverses the order, when the user-key comparator's does. */
  lemma CmpMemtableKeyReverse(ucmp: Comparator, a: seq<byte>, b: seq<byte>)
    requires WellFormed(a) && WellFormed(b)
    requires IsTotalPreorder(ucmp)
    ensures CmpMemtableKey(ucmp, b, a) == CmpMemtableKey(ucmp, a, b).Reverse()
  {
  }

  /** With a total preorder on user keys, Less on memtable keys is transitive. */
  lemma CmpMemtableKeyTransitive(ucmp: Comparator, a: seq<byte>, b: seq<byte>, c: seq<byte>)
    requires WellFormed(a) && WellFormed(b) && WellFormed(c)
    requires IsTotalPreorder(ucmp)
    requires CmpMemtableKey(ucmp, a, b) == Less && CmpMemtableKey(ucmp, b, c) == Less
    ensures CmpMemtableKey(ucmp, a, c) == Less
  {
    var (ua, ta) := DecodeMemtableKey(a).value;
    var (ub, tb) := DecodeMemtableKey(b).value;
    var (uc, tc) := DecodeMemtableKey(c).value;
    assert ucmp.cmp(ua, ub) != Greater && ucmp.cmp(ub, uc) != Greater;
    assert ucmp.cmp(ua, uc) != Greater;
    assert ucmp.cmp(uc, ua) == ucmp.cmp(ua, uc).Reverse();
    if ucmp.cmp(ua, uc) == Equal {
      assert ucmp.cmp(ub, ua) == ucmp.cmp(ua, ub).Reverse();
      assert ucmp.cmp(uc, ub) == ucmp.cmp(ub, uc).Reverse();
      assert ucmp.cmp(ub, uc) != Greater && ucmp.cmp(uc, ua) != Greater;
      assert ucmp.cmp(ua, ub) == Equal && ucmp.cmp(ub, uc) == Equal;
    }
  }
}
