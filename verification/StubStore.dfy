/**
 The persistent stub store of `crates/hir/src/lmdb_store.rs`: an ordered byte map
 written through puts and range deletes, against a plain map keyed by what each
 entry is for.
 */
module StubStore {
  import opened Wrappers
  import opened Bytes
  import opened StoreKeys
  import opened NameIndexes
  import Stubs

  const CACHE_FORMAT_VERSION: nat := 1
  const STALE_LIBRARY_TTL: nat := 30 * 24 * 60 * 60

  datatype MetaBlob = MetaBlob(
    formatVersion: nat, strings: seq<string>, entries: seq<ClassEntry<nat>>, modules: seq<ModuleEntry<nat>>,
    lastAccessed: nat)

  type DiskRecord = Stubs.ClassOrModuleStub<nat>

  /** The identity of a library's attached sources. */
  datatype SourcesStamp = SourcesStamp(path: Option<string>, len: nat, mtime: nat, decompiles: bool)

  datatype SourceIndexBlob = SourceIndexBlob(formatVersion: nat, stamp: SourcesStamp, entries: seq<(string, string)>)

  datatype Member = Member(class_: string, name: string, descriptor: string)
  datatype ParamsBlob = ParamsBlob(formatVersion: nat, member: Member, names: Option<seq<string>>)

  /** A stored value; serialising is injective, and foreign bytes decode to nothing. */
  datatype Payload =
    | MetaPayload(meta: MetaBlob)
    | RecordPayload(record: DiskRecord)
    | SourceIndexPayload(sourceIndex: SourceIndexBlob)
    | ParamsPayload(params: ParamsBlob)
    | Garbage

  function DecodeMeta(p: Payload): Option<MetaBlob> {
    if p.MetaPayload? && p.meta.formatVersion == CACHE_FORMAT_VERSION then Some(p.meta) else None
  }

  function DecodeSourceIndex(p: Payload): Option<SourceIndexBlob> {
    if p.SourceIndexPayload? && p.sourceIndex.formatVersion == CACHE_FORMAT_VERSION then Some(p.sourceIndex) else None
  }

  function DecodeParams(p: Payload): Option<ParamsBlob> {
    if p.ParamsPayload? && p.params.formatVersion == CACHE_FORMAT_VERSION then Some(p.params) else None
  }

  newtype u64 = x: int | 0 <= x < 0x1_0000_0000_0000_0000

  /**
   The hash functions, about which nothing is known, and the operation that joins
   two hashes: exclusive or in the source, arbitrary here.
   */
  datatype Hashing = Hashing(stamp: SourcesStamp -> u64, member: Member -> u64, join: (u64, u64) -> u64)

  function SourceIndexKey(h: Hashing, id: nat, stamp: SourcesStamp): (k: Key)
    ensures id < U64 ==> k.Ok()
  {
    Hashed(id, KIND_SOURCE_INDEX, h.stamp(stamp) as nat)
  }

  function ParamsKey(h: Hashing, id: nat, stamp: SourcesStamp, member: Member): (k: Key)
    ensures id < U64 ==> k.Ok()
  {
    Hashed(id, KIND_PARAMS, h.join(h.stamp(stamp), h.member(member)) as nat)
  }

  // ----- specification: what each operation does to the map of entries

  type View = map<Key, Payload>

  /** Everything of one library goes, but for the top id, whose range is empty. */
  ghost function Cleared(view: View, id: nat): View {
    if id == U64 - 1 then view else map k | k in view && k.id != id :: view[k]
  }

  ghost function WithRecords(view: View, id: nat, records: seq<DiskRecord>): View {
    if records == [] then view
    else
      var i := |records| - 1;
      WithRecords(view, id, records[..i])[RecordKey(id, i) := RecordPayload(records[i])]
  }

  ghost function Written(view: View, id: nat, meta: MetaBlob, records: seq<DiskRecord>): View {
    WithRecords(Cleared(view, id)[MetaKey(id) := MetaPayload(meta)], id, records)
  }

  ghost function Touched(view: View, ids: seq<nat>, now: nat): View {
    map k | k in view ::
      if k == MetaKey(k.id) && k.id in ids && DecodeMeta(view[k]).Some?
      then MetaPayload(view[k].meta.(lastAccessed := now))
      else view[k]
  }

  /** Not live, and its meta entry is stale or cannot be decoded. */
  ghost predicate Prunable(view: View, live: set<nat>, cutoff: nat, id: nat) {
    && id !in live
    && MetaKey(id) in view
    && (var meta := DecodeMeta(view[MetaKey(id)]); meta.None? || meta.value.lastAccessed < cutoff)
  }

  function Cutoff(now: nat): nat {
    if now < STALE_LIBRARY_TTL then 0 else now - STALE_LIBRARY_TTL
  }

  ghost function Pruned(view: View, live: set<nat>, cutoff: nat): View {
    map k | k in view && (k.id == U64 - 1 || !Prunable(view, live, cutoff, k.id)) :: view[k]
  }

  ghost function WithSourceIndex(h: Hashing, view: View, id: nat, blob: SourceIndexBlob): View {
    (map k | k in view && !(k.id == id && k.kind == KIND_SOURCE_INDEX) :: view[k])
      [SourceIndexKey(h, id, blob.stamp) := SourceIndexPayload(blob)]
  }

  ghost function WithParams(h: Hashing, view: View, id: nat, stamp: SourcesStamp, blob: ParamsBlob): View {
    view[ParamsKey(h, id, stamp, blob.member) := ParamsPayload(blob)]
  }

  // ----- the byte map stands for the view

  ghost predicate Mirrors(db: map<seq<byte>, Payload>, view: View) {
    && (forall k | k in view :: k.Ok() && k.Encode() in db && db[k.Encode()] == view[k])
    && (forall b | b in db :: exists k :: k in view && k.Encode() == b)
  }

  lemma MirrorsLookup(db: map<seq<byte>, Payload>, view: View, key: Key)
    requires Mirrors(db, view) && key.Ok()
    ensures key in view <==> key.Encode() in db
  {
    if key.Encode() in db {
      var k :| k in view && k.Encode() == key.Encode();
      EncodeInjective(k, key);
    }
  }

  lemma PutMirrors(db: map<seq<byte>, Payload>, view: View, key: Key, p: Payload)
    requires Mirrors(db, view) && key.Ok()
    ensures Mirrors(db[key.Encode() := p], view[key := p])
  {
    var db', view' := db[key.Encode() := p], view[key := p];
    forall k | k in view' ensures k.Ok() && k.Encode() in db' && db'[k.Encode()] == view'[k] {
      if k != key && k.Encode() == key.Encode() {
        EncodeInjective(k, key);
      }
    }
    forall b | b in db' ensures exists k :: k in view' && k.Encode() == b {
      if b == key.Encode() {
        assert key in view';
      } else {
        var k :| k in view && k.Encode() == b;
        assert k in view';
      }
    }
  }

  lemma DeleteMirrors(db: map<seq<byte>, Payload>, view: View, start: seq<byte>, end: seq<byte>, rest: View)
    requires Mirrors(db, view)
    requires rest.Keys <= view.Keys && forall k | k in rest :: rest[k] == view[k]
    requires forall k | k in view :: k in rest <==> !InRange(k.Encode(), start, end)
    ensures Mirrors(map b | b in db && !InRange(b, start, end) :: db[b], rest)
  {
    var db' := map b | b in db && !InRange(b, start, end) :: db[b];
    forall b | b in db' ensures exists k :: k in rest && k.Encode() == b {
      var k :| k in view && k.Encode() == b;
      assert k in rest;
    }
  }

  lemma DeletesSomething(db: map<seq<byte>, Payload>, view: View, start: seq<byte>, end: seq<byte>, rest: View)
    requires Mirrors(db, view)
    requires rest.Keys <= view.Keys && forall k | k in rest :: rest[k] == view[k]
    requires forall k | k in view :: k in rest <==> !InRange(k.Encode(), start, end)
    ensures |set b | b in db && InRange(b, start, end)| > 0 <==> rest != view
  {
    var dropped := set b | b in db && InRange(b, start, end);
    if dropped != {} {
      var b :| b in dropped;
      var k :| k in view && k.Encode() == b;
      assert k !in rest;
    } else {
      forall k | k in view ensures k in rest {
        assert k.Encode() in db && k.Encode() !in dropped;
      }
      assert rest == view;
    }
  }

  class StubStore {
    const hashing: Hashing
    var db: map<seq<byte>, Payload>
    ghost var view: View

    ghost predicate Valid()
      reads this
    {
      Mirrors(db, view)
    }

    constructor (hashing: Hashing)
      ensures Valid() && view == map[] && this.hashing == hashing
    {
      this.hashing := hashing;
      db, view := map[], map[];
    }

    method Put(key: Key, p: Payload)
      requires Valid() && key.Ok()
      modifies this
      ensures Valid() && view == old(view)[key := p]
    {
      PutMirrors(db, view, key, p);
      db := db[key.Encode() := p];
      view := view[key := p];
    }

    method Get(key: Key) returns (r: Option<Payload>)
      requires Valid() && key.Ok()
      ensures r == if key in view then Some(view[key]) else None
    {
      MirrorsLookup(db, view, key);
      r := if key.Encode() in db then Some(db[key.Encode()]) else None;
    }

    /** Drops every key in the byte range; `rest` is what remains of the view. */
    method DeleteRange(start: seq<byte>, end: seq<byte>, ghost rest: View) returns (count: nat)
      requires Valid()
      requires rest.Keys <= view.Keys && forall k | k in rest :: rest[k] == view[k]
      requires forall k | k in view :: k in rest <==> !InRange(k.Encode(), start, end)
      modifies this
      ensures Valid() && view == rest
      ensures count > 0 <==> rest != old(view)
    {
      DeleteMirrors(db, view, start, end, rest);
      DeletesSomething(db, view, start, end, rest);
      count := |set b | b in db && InRange(b, start, end)|;
      db := map b | b in db && !InRange(b, start, end) :: db[b];
      view := rest;
    }

    method DeleteLibraryRange(id: nat) returns (count: nat)
      requires Valid() && id < U64
      modifies this
      ensures Valid() && view == Cleared(old(view), id)
      ensures count > 0 <==> view != old(view)
    {
      forall k | k in view
        ensures k in Cleared(view, id) <==> !InRange(k.Encode(), LibraryStart(id), LibraryEnd(id))
      {
        if id == U64 - 1 {
          TopLibraryRangeIsEmpty(k);
        } else {
          LibraryRangeIsLibrary(id, k);
        }
      }
      count := DeleteRange(LibraryStart(id), LibraryEnd(id), Cleared(view, id));
    }

    method PutRecords(id: nat, records: seq<DiskRecord>)
      requires Valid() && id < U64 && |records| <= U32
      modifies this
      ensures Valid() && view == WithRecords(old(view), id, records)
    {
      for i := 0 to |records|
        invariant Valid() && view == WithRecords(old(view), id, records[..i])
      {
        WithRecordsStep(old(view), id, records, i);
        Put(RecordKey(id, i), RecordPayload(records[i]));
      }
      assert records[..|records|] == records;
    }

    /** Replaces the whole entry of a library: its meta blob and one record per declaration. */
    method WriteLibrary(id: nat, meta: MetaBlob, records: seq<DiskRecord>)
      requires Valid() && id < U64 && |records| <= U32
      modifies this
      ensures Valid() && view == Written(old(view), id, meta, records)
    {
      var _ := DeleteLibraryRange(id);
      Put(MetaKey(id), MetaPayload(meta));
      PutRecords(id, records);
    }

    method ReadMeta(id: nat) returns (r: Option<MetaBlob>)
      requires Valid() && id < U64
      ensures r == if MetaKey(id) in view then DecodeMeta(view[MetaKey(id)]) else None
    {
      var p := Get(MetaKey(id));
      r := if p.Some? then DecodeMeta(p.value) else None;
    }

    method ReadRecord(id: nat, idx: nat) returns (r: Option<DiskRecord>)
      requires Valid() && id < U64 && idx < U32
      ensures r == if RecordKey(id, idx) in view && view[RecordKey(id, idx)].RecordPayload?
                   then Some(view[RecordKey(id, idx)].record) else None
    {
      var p := Get(RecordKey(id, idx));
      r := if p.Some? && p.value.RecordPayload? then Some(p.value.record) else None;
    }

    method TouchLibraries(ids: seq<nat>, now: nat)
      requires Valid() && forall i | 0 <= i < |ids| :: ids[i] < U64
      modifies this
      ensures Valid() && view == Touched(old(view), ids, now)
    {
      assert Touched(view, ids[..0], now) == view;
      for i := 0 to |ids|
        invariant Valid() && view == Touched(old(view), ids[..i], now)
      {
        TouchedStep(old(view), ids, i, now);
        var meta := ReadMeta(ids[i]);
        if meta.Some? {
          Put(MetaKey(ids[i]), MetaPayload(meta.value.(lastAccessed := now)));
        }
      }
      assert ids[..|ids|] == ids;
    }

    method ClearLibrary(id: nat)
      requires Valid() && id < U64
      modifies this
      ensures Valid() && view == Cleared(old(view), id)
    {
      var _ := DeleteLibraryRange(id);
    }

    method ReadSourceIndex(id: nat, stamp: SourcesStamp) returns (r: Option<SourceIndexBlob>)
      requires Valid() && id < U64
      ensures var k := SourceIndexKey(hashing, id, stamp);
              r == if k in view then DecodeSourceIndex(view[k]) else None
    {
      var p := Get(SourceIndexKey(hashing, id, stamp));
      r := if p.Some? then DecodeSourceIndex(p.value) else None;
    }

    /** A library has one layout at a time: the ones under other stamps are dropped. */
    method WriteSourceIndex(id: nat, blob: SourceIndexBlob)
      requires Valid() && id < U64
      modifies this
      ensures Valid() && view == WithSourceIndex(hashing, old(view), id, blob)
    {
      ghost var rest := map k | k in view && !(k.id == id && k.kind == KIND_SOURCE_INDEX) :: view[k];
      forall k | k in view
        ensures k in rest <==> !InRange(k.Encode(), KindStart(id, KIND_SOURCE_INDEX), KindEnd(id, KIND_SOURCE_INDEX))
      {
        KindRangeIsKind(id, KIND_SOURCE_INDEX, k);
      }
      var _ := DeleteRange(KindStart(id, KIND_SOURCE_INDEX), KindEnd(id, KIND_SOURCE_INDEX), rest);
      Put(SourceIndexKey(hashing, id, blob.stamp), SourceIndexPayload(blob));
    }

    method ReadParams(id: nat, stamp: SourcesStamp, member: Member) returns (r: Option<ParamsBlob>)
      requires Valid() && id < U64
      ensures r == AnswersParams(hashing, view, id, stamp, member)
    {
      var p := Get(ParamsKey(hashing, id, stamp, member));
      if p.None? {
        return None;
      }
      var blob := DecodeParams(p.value);
      r := if blob.Some? && blob.value.member == member then blob else None;
    }

    method WriteParams(id: nat, stamp: SourcesStamp, blob: ParamsBlob)
      requires Valid() && id < U64
      modifies this
      ensures Valid() && view == WithParams(hashing, old(view), id, stamp, blob)
    {
      Put(ParamsKey(hashing, id, stamp, blob.member), ParamsPayload(blob));
    }

    /** The libraries a prune will delete, found in one pass over the keys in any order. */
    method CollectStale(live: set<nat>, cutoff: nat) returns (stale: seq<nat>)
      requires Valid()
      ensures forall id :: id in stale <==> Prunable(view, live, cutoff, id)
      ensures forall i, j | 0 <= i < j < |stale| :: stale[i] != stale[j]
    {
      stale := [];
      var remaining := db.Keys;
      ghost var seen: View := map[];
      while remaining != {}
        invariant Unseen(db, view, remaining, seen)
        invariant forall id :: id in stale <==> Prunable(seen, live, cutoff, id)
        invariant forall i, j | 0 <= i < j < |stale| :: stale[i] != stale[j]
      {
        var b :| b in remaining;
        ghost var key := See(db, view, remaining, seen, b);
        MetaKeyBytes(key);
        SeenStale(seen, key, view[key], live, cutoff);
        if |b| == 13 && b[8] == KIND_META {
          var id := ReadId(b, key);
          var meta := DecodeMeta(db[b]);
          if id !in live && (meta.None? || meta.value.lastAccessed < cutoff) {
            stale := stale + [id];
          }
        }
        remaining := remaining - {b};
        seen := seen[key := view[key]];
      }
      assert seen == view;
    }

    /** Reads a big-endian id back from the front of a key. */
    method ReadId(b: seq<byte>, ghost key: Key) returns (id: nat)
      requires key.Ok() && key.Encode() == b
      ensures id == key.id
    {
      Widths();
      assert b[..8] == BigEndian(key.id, 8);
      DigitOf(key.id, 8, 0);
      id := 0;
      for i := 0 to 8
        invariant id == Prefix(key.id, 8, i)
      {
        DigitOf(key.id, 8, i);
        assert b[i] == b[..8][i];
        id := 256 * id + b[i] as nat;
      }
    }

    /** Deletes the libraries that are not live and whose meta is stale or undecodable. */
    method PruneStale(live: set<nat>, now: nat) returns (pruned: nat)
      requires Valid()
      modifies this
      ensures Valid() && view == Pruned(old(view), live, Cutoff(now))
      ensures pruned == |PrunedIds(old(view), live, Cutoff(now))|
    {
      ghost var start := view;
      var stale := CollectStale(live, Cutoff(now));
      pruned := 0;
      assert view == Without(start, Deletable(stale[..0]));
      for i := 0 to |stale|
        invariant Valid() && view == Without(start, Deletable(stale[..i]))
        invariant pruned == |Deletable(stale[..i])|
      {
        assert stale[i] in stale && MetaKey(stale[i]).Ok();
        DeleteStep(start, stale, i);
        var count := DeleteLibraryRange(stale[i]);
        if count > 0 {
          pruned := pruned + 1;
        }
      }
      assert stale[..|stale|] == stale;
      PrunedIsWithout(start, live, Cutoff(now), stale);
    }
  }

  // ----- steps of the loops above

  /** `seen` is the part of the view whose keys are no longer waiting. */
  ghost predicate Unseen(db: map<seq<byte>, Payload>, view: View, remaining: set<seq<byte>>, seen: View) {
    && remaining <= db.Keys
    && (forall k :: k in seen <==> k in view && k.Encode() !in remaining)
    && (forall k | k in seen :: seen[k] == view[k])
  }

  lemma See(db: map<seq<byte>, Payload>, view: View, remaining: set<seq<byte>>, seen: View, b: seq<byte>)
    returns (key: Key)
    requires Mirrors(db, view) && Unseen(db, view, remaining, seen) && b in remaining
    ensures key in view && key !in seen && key.Ok() && key.Encode() == b && db[b] == view[key]
    ensures Unseen(db, view, remaining - {b}, seen[key := view[key]])
  {
    key :| key in view && key.Encode() == b;
    forall k | k in view && k.Encode() == b ensures k == key {
      EncodeInjective(k, key);
    }
  }

  /** One more key seen makes its library prunable, if it is a meta key that says so. */
  lemma SeenStale(seen: View, key: Key, p: Payload, live: set<nat>, cutoff: nat)
    requires key !in seen
    ensures !(key == MetaKey(key.id) && Prunable(seen, live, cutoff, key.id))
    ensures forall id :: Prunable(seen[key := p], live, cutoff, id) <==>
      || Prunable(seen, live, cutoff, id)
      || (key == MetaKey(id) && id !in live
          && (DecodeMeta(p).None? || DecodeMeta(p).value.lastAccessed < cutoff))
  {}

  /** The ids among these whose range is not empty. */
  ghost function Deletable(ids: seq<nat>): set<nat> {
    set id | id in ids && id != U64 - 1
  }

  lemma PrunedIsWithout(start: View, live: set<nat>, cutoff: nat, stale: seq<nat>)
    requires forall id :: id in stale <==> Prunable(start, live, cutoff, id)
    ensures Deletable(stale) == PrunedIds(start, live, cutoff)
    ensures Without(start, Deletable(stale)) == Pruned(start, live, cutoff)
  {
    forall id | id in Deletable(stale) ensures id in PrunedIds(start, live, cutoff) {
      assert MetaKey(id) in start && MetaKey(id).id == id;
    }
  }

  lemma WithRecordsStep(base: View, id: nat, records: seq<DiskRecord>, i: nat)
    requires i < |records|
    ensures WithRecords(base, id, records[..i + 1])
         == WithRecords(base, id, records[..i])[RecordKey(id, i) := RecordPayload(records[i])]
  {
    assert records[..i + 1][..i] == records[..i];
  }

  lemma TouchedStep(view: View, ids: seq<nat>, i: nat, now: nat)
    requires i < |ids|
    ensures var v, k := Touched(view, ids[..i], now), MetaKey(ids[i]);
      Touched(view, ids[..i + 1], now) ==
        if k in v && DecodeMeta(v[k]).Some?
        then v[k := MetaPayload(DecodeMeta(v[k]).value.(lastAccessed := now))] else v
  {
    assert ids[..i + 1] == ids[..i] + [ids[i]];
  }

  ghost function Without(view: View, ids: set<nat>): View {
    map k | k in view && k.id !in ids :: view[k]
  }

  ghost function PrunedIds(view: View, live: set<nat>, cutoff: nat): set<nat> {
    set k | k in view && k.id != U64 - 1 && Prunable(view, live, cutoff, k.id) :: k.id
  }

  lemma DeleteStep(start: View, stale: seq<nat>, i: nat)
    requires i < |stale| && MetaKey(stale[i]) in start
    requires forall j | 0 <= j < i :: stale[j] != stale[i]
    ensures var before, after := Deletable(stale[..i]), Deletable(stale[..i + 1]);
      && Cleared(Without(start, before), stale[i]) == Without(start, after)
      && (Without(start, before) != Without(start, after) <==> stale[i] != U64 - 1)
      && |after| == |before| + if stale[i] == U64 - 1 then 0 else 1
  {
    var id := stale[i];
    var before, after := Deletable(stale[..i]), Deletable(stale[..i + 1]);
    assert stale[..i + 1] == stale[..i] + [id];
    if id == U64 - 1 {
      assert after == before;
    } else {
      assert after == before + {id} && id !in before;
      assert MetaKey(id) in Without(start, before) && MetaKey(id) !in Without(start, after);
    }
  }

  // ----- reading an id back

  /** The number the first `i` of the `n` digits of `v` spell. */
  function Prefix(v: nat, n: nat, i: nat): nat
    requires i <= n
  {
    if i == n then v else Prefix(v / 256, n - 1, i)
  }

  lemma {:induction false} DigitOf(v: nat, n: nat, i: nat)
    requires i < n && v < Pow256(n)
    ensures Prefix(v, n, i + 1) == 256 * Prefix(v, n, i) + BigEndian(v, n)[i] as nat
    ensures Prefix(v, n, 0) == 0
  {
    if i < n - 1 {
      DigitOf(v / 256, n - 1, i);
    } else if n > 1 {
      DigitOf(v / 256, n - 1, 0);
    }
  }

  lemma MetaKeyBytes(key: Key)
    requires key.Ok()
    ensures |key.Encode()| == 13 && key.Encode()[8] == KIND_META <==> key == MetaKey(key.id)
  {
    assert key.Encode()[8] == key.Tail()[0];
  }

  // ----- what a reader of parameter names is told

  ghost function AnswersParams(h: Hashing, view: View, id: nat, stamp: SourcesStamp, member: Member): Option<ParamsBlob> {
    var k := ParamsKey(h, id, stamp, member);
    if k in view && DecodeParams(view[k]).Some? && DecodeParams(view[k]).value.member == member
    then DecodeParams(view[k]) else None
  }
}
