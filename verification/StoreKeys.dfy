/**
 The key layout of `crates/hir/src/lmdb_store.rs`: 13- and 17-byte keys of one
 library side by side in one byte order, and what a range delete therefore hits.
 */
module StoreKeys {
  import opened Bytes

  const U32: nat := 0x1_0000_0000
  const U64: nat := 0x1_0000_0000_0000_0000

  const KIND_META: byte := 1
  const KIND_RECORD: byte := 2
  const KIND_SOURCE_INDEX: byte := 3
  const KIND_PARAMS: byte := 4

  /** The keys the store ever writes: `[id][kind][index]` and `[id][kind][hash]`. */
  datatype Key =
    | Plain(id: nat, kind: byte, idx: nat)
    | Hashed(id: nat, kind: byte, hash: nat)
  {
    predicate Ok() {
      && id < U64
      && (Plain? ==> (kind == KIND_META || kind == KIND_RECORD) && idx < U32 && (kind == KIND_META ==> idx == 0))
      && (Hashed? ==> (kind == KIND_SOURCE_INDEX || kind == KIND_PARAMS) && hash < U64)
    }

    function Tail(): seq<byte> {
      [kind] + if Plain? then BigEndian(idx, 4) else BigEndian(hash, 8)
    }

    function Encode(): seq<byte> {
      BigEndian(id, 8) + Tail()
    }
  }

  function MetaKey(id: nat): Key {
    Plain(id, KIND_META, 0)
  }

  function RecordKey(id: nat, idx: nat): Key {
    Plain(id, KIND_RECORD, idx)
  }

  lemma Widths()
    ensures Pow256(4) == U32 && Pow256(8) == U64
  {
    assert Pow256(4) == 256 * (256 * (256 * (256 * Pow256(0))));
    assert Pow256(8) == 256 * (256 * (256 * (256 * Pow256(4))));
  }

  lemma EncodeInjective(a: Key, b: Key)
    requires a.Ok() && b.Ok() && a.Encode() == b.Encode()
    ensures a == b
  {
    Widths();
    assert a.Encode()[..8] == BigEndian(a.id, 8) && b.Encode()[..8] == BigEndian(b.id, 8);
    BigEndianInjective(a.id, b.id, 8);
    assert a.Encode()[8..] == a.Tail() && b.Encode()[8..] == b.Tail();
    assert a.Tail()[0] == a.kind && b.Tail()[0] == b.kind;
    assert a.Tail()[1..] == b.Tail()[1..];
    if a.Plain? {
      BigEndianInjective(a.idx, b.idx, 4);
    } else {
      BigEndianInjective(a.hash, b.hash, 8);
    }
  }

  /** Included lower bound, excluded upper bound, in byte order. */
  predicate InRange(key: seq<byte>, start: seq<byte>, end: seq<byte>) {
    !LexLess(key, start) && LexLess(key, end)
  }

  // ----- the range of a whole library

  function LibraryStart(id: nat): seq<byte> {
    MetaKey(id).Encode()
  }

  /** The next id wraps at the top of its range. */
  function LibraryEnd(id: nat): seq<byte> {
    MetaKey((id + 1) % U64).Encode()
  }

  lemma OrderedByLibrary(a: Key, b: Key)
    requires a.Ok() && b.Ok() && a.id < b.id
    ensures LexLess(a.Encode(), b.Encode()) && !LexLess(b.Encode(), a.Encode())
  {
    Widths();
    BigEndianOrder(a.id, b.id, 8, a.Tail(), b.Tail());
    LexAsymmetric(a.Encode(), b.Encode());
  }

  /** The meta key comes first among the keys of its library. */
  lemma MetaIsFirst(a: Key)
    requires a.Ok()
    ensures !LexLess(a.Encode(), LibraryStart(a.id))
  {
    var m := MetaKey(a.id);
    LexCommonPrefix(BigEndian(a.id, 8), a.Tail(), m.Tail());
    assert a.Tail()[0] == a.kind && m.Tail()[0] == KIND_META;
    if a.kind == KIND_META {
      LexIrreflexive(m.Tail());
    }
  }

  /** Below the top id the range of a library holds exactly its keys, of either width. */
  lemma LibraryRangeIsLibrary(id: nat, a: Key)
    requires id < U64 - 1 && a.Ok()
    ensures InRange(a.Encode(), LibraryStart(id), LibraryEnd(id)) <==> a.id == id
  {
    assert (id + 1) % U64 == id + 1;
    if a.id < id {
      OrderedByLibrary(a, MetaKey(id));
    } else if a.id == id {
      MetaIsFirst(a);
      OrderedByLibrary(a, MetaKey(id + 1));
    } else if a.id == id + 1 {
      MetaIsFirst(a);
    } else {
      OrderedByLibrary(MetaKey(id + 1), a);
    }
  }

  /** At the top id the upper bound wraps to zero and the range is empty. */
  lemma TopLibraryRangeIsEmpty(a: Key)
    requires a.Ok()
    ensures !InRange(a.Encode(), LibraryStart(U64 - 1), LibraryEnd(U64 - 1))
  {
    assert ((U64 - 1) + 1) % U64 == 0;
    if a.id == 0 {
      MetaIsFirst(a);
    } else {
      OrderedByLibrary(MetaKey(0), a);
    }
  }

  // ----- the range of one hashed kind

  function KindStart(id: nat, kind: byte): seq<byte> {
    Hashed(id, kind, 0).Encode()
  }

  function KindEnd(id: nat, kind: byte): seq<byte>
    requires kind < 255
  {
    BigEndian(id, 8) + ([kind + 1] + BigEndian(0, 8))
  }

  /** The range of a hashed kind holds exactly the keys of that library and kind. */
  lemma KindRangeIsKind(id: nat, kind: byte, a: Key)
    requires id < U64 && (kind == KIND_SOURCE_INDEX || kind == KIND_PARAMS) && a.Ok()
    ensures InRange(a.Encode(), KindStart(id, kind), KindEnd(id, kind)) <==> a.id == id && a.kind == kind
  {
    Widths();
    var start := Hashed(id, kind, 0);
    var endTail := [kind + 1] + BigEndian(0, 8);
    if a.id < id {
      OrderedByLibrary(a, start);
    } else if a.id > id {
      BigEndianOrder(id, a.id, 8, endTail, a.Tail());
      LexAsymmetric(KindEnd(id, kind), a.Encode());
    } else {
      LexCommonPrefix(BigEndian(id, 8), a.Tail(), start.Tail());
      LexCommonPrefix(BigEndian(id, 8), a.Tail(), endTail);
      assert a.Tail()[0] == a.kind && start.Tail()[0] == kind && endTail[0] == kind + 1;
      if a.kind == kind {
        assert a.Tail()[1..] == BigEndian(a.hash, 8) + [] && start.Tail()[1..] == BigEndian(0, 8);
        BigEndianZeroLeast(a.hash, 8, []);
      } else if a.kind == kind + 1 {
        assert a.Tail()[1..] == BigEndian(a.hash, 8) + [] && endTail[1..] == BigEndian(0, 8);
        BigEndianZeroLeast(a.hash, 8, []);
      }
    }
  }

  /** The bytes of a key: eight of the library id, one of the kind, four of an index or eight of a hash, all big-endian. */
  lemma KeyBytes(k: Key)
    ensures |k.Encode()| == (if k.Plain? then 13 else 17)
    ensures k.Encode()[..8] == BigEndian(k.id, 8) && k.Encode()[8] == k.kind
    ensures k.Encode()[9..] == if k.Plain? then BigEndian(k.idx, 4) else BigEndian(k.hash, 8)
    ensures MetaKey(k.id).kind == 1 && MetaKey(k.id).idx == 0
    ensures forall idx :: RecordKey(k.id, idx).Plain? && RecordKey(k.id, idx).kind == 2 && RecordKey(k.id, idx).idx == idx
  {}
}
