/**
 Whole histories of the stub store: what a reader is told after any sequence of
 writes, clears, touches and prunes, whatever the hash function.
 */
module StoreHistory {
  import opened Wrappers
  import opened StoreKeys
  import opened StubStore

  datatype Op =
    | WriteLibrary(id: nat, meta: MetaBlob, records: seq<DiskRecord>)
    | ClearLibrary(id: nat)
    | Touch(ids: seq<nat>, now: nat)
    | Prune(live: set<nat>, now: nat)
    | WriteSourceIndex(id: nat, blob: SourceIndexBlob)
    | WriteParams(id: nat, stamp: SourcesStamp, params: ParamsBlob)

  ghost function Apply(h: Hashing, view: View, op: Op): View {
    match op
    case WriteLibrary(id, meta, records) => Written(view, id, meta, records)
    case ClearLibrary(id) => Cleared(view, id)
    case Touch(ids, now) => Touched(view, ids, now)
    case Prune(live, now) => Pruned(view, live, Cutoff(now))
    case WriteSourceIndex(id, blob) => WithSourceIndex(h, view, id, blob)
    case WriteParams(id, stamp, params) => WithParams(h, view, id, stamp, params)
  }

  ghost function Run(h: Hashing, ops: seq<Op>): View {
    if ops == [] then map[] else Apply(h, Run(h, ops[..|ops| - 1]), ops[|ops| - 1])
  }

  // ----- one write of a library

  predicate IsRecord(k: Key, id: nat, n: nat) {
    k.Plain? && k == RecordKey(id, k.idx) && k.idx < n
  }

  lemma {:induction false} WithRecordsEntries(view: View, id: nat, records: seq<DiskRecord>, k: Key)
    ensures k in WithRecords(view, id, records)
       <==> k in view || IsRecord(k, id, |records|)
    ensures k in WithRecords(view, id, records) ==>
      WithRecords(view, id, records)[k]
        == if IsRecord(k, id, |records|) then RecordPayload(records[k.idx]) else view[k]
  {
    if records != [] {
      WithRecordsEntries(view, id, records[..|records| - 1], k);
    }
  }

  /** Below the top id a written library holds its meta and its records, nothing older, and no other library moves. */
  lemma WrittenIsExact(view: View, id: nat, meta: MetaBlob, records: seq<DiskRecord>, k: Key)
    requires id < U64 - 1
    ensures var after := Written(view, id, meta, records);
      && (k.id == id ==> (k in after <==> k == MetaKey(id) || IsRecord(k, id, |records|)))
      && (k == MetaKey(id) ==> after[k] == MetaPayload(meta))
      && (IsRecord(k, id, |records|) ==> after[k] == RecordPayload(records[k.idx]))
      && (k.id != id ==> (k in after <==> k in view) && (k in view ==> after[k] == view[k]))
  {
    WithRecordsEntries(Cleared(view, id)[MetaKey(id) := MetaPayload(meta)], id, records, k);
  }

  /** At the top id the range is empty: records of an earlier, longer write survive a rewrite. */
  lemma TopLibraryKeepsStaleRecords(view: View, meta: MetaBlob, records: seq<DiskRecord>, k: Key)
    requires k in view && k.id == U64 - 1
    ensures k in Written(view, U64 - 1, meta, records)
  {
    WithRecordsEntries(view[MetaKey(U64 - 1) := MetaPayload(meta)], U64 - 1, records, k);
  }

  // ----- parameter names

  /** What the log itself says was last written at a parameters key and not deleted since. */
  ghost function LastParams(h: Hashing, ops: seq<Op>, key: Key): Option<ParamsBlob> {
    if ops == [] then None
    else
      var earlier, op := ops[..|ops| - 1], ops[|ops| - 1];
      match op
      case WriteParams(id, stamp, params) =>
        if ParamsKey(h, id, stamp, params.member) == key then Some(params) else LastParams(h, earlier, key)
      case WriteLibrary(id, _, _) =>
        if id == key.id && id != U64 - 1 then None else LastParams(h, earlier, key)
      case ClearLibrary(id) =>
        if id == key.id && id != U64 - 1 then None else LastParams(h, earlier, key)
      case Prune(live, now) =>
        if key.id != U64 - 1 && Prunable(Run(h, earlier), live, Cutoff(now), key.id) then None
        else LastParams(h, earlier, key)
      case _ => LastParams(h, earlier, key)
  }

  lemma {:induction false} StoreHoldsLastParams(h: Hashing, ops: seq<Op>, key: Key)
    requires key.Hashed? && key.kind == KIND_PARAMS
    ensures key in Run(h, ops) <==> LastParams(h, ops, key).Some?
    ensures key in Run(h, ops) ==> Run(h, ops)[key] == ParamsPayload(LastParams(h, ops, key).value)
  {
    if ops != [] {
      var earlier, op := ops[..|ops| - 1], ops[|ops| - 1];
      StoreHoldsLastParams(h, earlier, key);
      match op
      case WriteLibrary(id, meta, records) =>
        WithRecordsEntries(Cleared(Run(h, earlier), id)[MetaKey(id) := MetaPayload(meta)], id, records, key);
      case _ =>
    }
  }

  /**
   After any history a reader gets the latest blob written at its key since the
   last delete, and gets it only for the very member it asked about.
   */
  lemma ReadParamsIsLatest(h: Hashing, ops: seq<Op>, id: nat, stamp: SourcesStamp, member: Member)
    ensures var last := LastParams(h, ops, ParamsKey(h, id, stamp, member));
      AnswersParams(h, Run(h, ops), id, stamp, member)
        == if last.Some? && last.value.formatVersion == CACHE_FORMAT_VERSION && last.value.member == member
           then last else None
  {
    StoreHoldsLastParams(h, ops, ParamsKey(h, id, stamp, member));
  }

  /** A colliding write can only hide the answer: the blob is never handed to the other member. */
  lemma CollisionIsMiss(
      h: Hashing, ops: seq<Op>, id: nat, stamp: SourcesStamp, member: Member, stamp': SourcesStamp, blob: ParamsBlob)
    requires ParamsKey(h, id, stamp', blob.member) == ParamsKey(h, id, stamp, member) && blob.member != member
    ensures AnswersParams(h, Run(h, ops + [WriteParams(id, stamp', blob)]), id, stamp, member) == None
  {
    var all := ops + [WriteParams(id, stamp', blob)];
    assert all[..|all| - 1] == ops;
    ReadParamsIsLatest(h, all, id, stamp, member);
  }

  /** The stamp is only hashed: names written under another stamp of equal hash are answered. */
  lemma StampCollisionAnswers(
      h: Hashing, ops: seq<Op>, id: nat, stamp: SourcesStamp, stamp': SourcesStamp, blob: ParamsBlob)
    requires h.stamp(stamp) == h.stamp(stamp') && blob.formatVersion == CACHE_FORMAT_VERSION
    ensures AnswersParams(h, Run(h, ops + [WriteParams(id, stamp', blob)]), id, stamp, blob.member) == Some(blob)
  {
    var all := ops + [WriteParams(id, stamp', blob)];
    assert all[..|all| - 1] == ops;
    ReadParamsIsLatest(h, all, id, stamp, blob.member);
  }

  ghost predicate Cancellative(join: (u64, u64) -> u64) {
    forall a, b, c :: join(a, c) == join(b, c) ==> a == b
  }

  /**
   With a join that can be undone, as exclusive or is, the hash of the stamp decides: a
   write answers the stamps hashing like its own, and leaves the answers of all others.
   */
  lemma StampDecides(
      h: Hashing, ops: seq<Op>, id: nat, stamp: SourcesStamp, stamp': SourcesStamp, blob: ParamsBlob)
    requires Cancellative(h.join) && blob.formatVersion == CACHE_FORMAT_VERSION
    ensures AnswersParams(h, Run(h, ops + [WriteParams(id, stamp', blob)]), id, stamp, blob.member)
         == if h.stamp(stamp) == h.stamp(stamp') then Some(blob) else AnswersParams(h, Run(h, ops), id, stamp, blob.member)
  {
    var all := ops + [WriteParams(id, stamp', blob)];
    assert all[..|all| - 1] == ops;
    assert Run(h, all) == WithParams(h, Run(h, ops), id, stamp', blob);
    var m := h.member(blob.member);
    if h.stamp(stamp) != h.stamp(stamp') {
      assert h.join(h.stamp(stamp), m) != h.join(h.stamp(stamp'), m);
    }
  }

  /** Undone from the other side too, the join keeps members of different hash apart: each has an entry of its own. */
  lemma MembersApart(h: Hashing, ops: seq<Op>, id: nat, stamp: SourcesStamp, member: Member, blob: ParamsBlob)
    requires (forall a, b, c :: h.join(c, a) == h.join(c, b) ==> a == b) && h.member(member) != h.member(blob.member)
    ensures AnswersParams(h, Run(h, ops + [WriteParams(id, stamp, blob)]), id, stamp, member)
         == AnswersParams(h, Run(h, ops), id, stamp, member)
  {
    var all := ops + [WriteParams(id, stamp, blob)];
    assert all[..|all| - 1] == ops;
    assert Run(h, all) == WithParams(h, Run(h, ops), id, stamp, blob);
    assert h.join(h.stamp(stamp), h.member(member)) != h.join(h.stamp(stamp), h.member(blob.member));
  }

  /** Whatever is answered was written for that member under a stamp of equal hash. */
  lemma AnsweredWasWritten(h: Hashing, ops: seq<Op>, id: nat, stamp: SourcesStamp, member: Member)
    requires Cancellative(h.join) && AnswersParams(h, Run(h, ops), id, stamp, member).Some?
    ensures exists op | op in ops ::
      && op.WriteParams? && op.id == id && h.stamp(op.stamp) == h.stamp(stamp)
      && op.params == AnswersParams(h, Run(h, ops), id, stamp, member).value && op.params.member == member
  {
    var key := ParamsKey(h, id, stamp, member);
    ReadParamsIsLatest(h, ops, id, stamp, member);
    var op := LastParamsWrite(h, ops, key);
    var m := h.member(member);
    assert h.join(h.stamp(op.stamp), m) == h.join(h.stamp(stamp), m);
  }

  lemma {:induction false} LastParamsWrite(h: Hashing, ops: seq<Op>, key: Key) returns (op: Op)
    requires LastParams(h, ops, key).Some?
    ensures op in ops && op.WriteParams? && op.params == LastParams(h, ops, key).value
    ensures ParamsKey(h, op.id, op.stamp, op.params.member) == key
  {
    var n := |ops| - 1;
    op := ops[n];
    if !(op.WriteParams? && ParamsKey(h, op.id, op.stamp, op.params.member) == key) {
      op := LastParamsWrite(h, ops[..n], key);
    }
  }

  // ----- source layouts

  ghost function AnswersSourceIndex(h: Hashing, view: View, id: nat, stamp: SourcesStamp): Option<SourceIndexBlob> {
    var k := SourceIndexKey(h, id, stamp);
    if k in view then DecodeSourceIndex(view[k]) else None
  }

  ghost function LastSourceIndex(h: Hashing, ops: seq<Op>, id: nat): Option<SourceIndexBlob> {
    if ops == [] then None
    else
      var earlier, op := ops[..|ops| - 1], ops[|ops| - 1];
      match op
      case WriteSourceIndex(id', blob) => if id' == id then Some(blob) else LastSourceIndex(h, earlier, id)
      case WriteLibrary(id', _, _) => if id' == id && id != U64 - 1 then None else LastSourceIndex(h, earlier, id)
      case ClearLibrary(id') => if id' == id && id != U64 - 1 then None else LastSourceIndex(h, earlier, id)
      case Prune(live, now) =>
        if id != U64 - 1 && Prunable(Run(h, earlier), live, Cutoff(now), id) then None
        else LastSourceIndex(h, earlier, id)
      case _ => LastSourceIndex(h, earlier, id)
  }

  /** A library never holds more than one layout: the last one written. */
  lemma {:induction false} OneLayoutAtATime(h: Hashing, ops: seq<Op>, key: Key)
    requires key.Hashed? && key.kind == KIND_SOURCE_INDEX
    ensures var last := LastSourceIndex(h, ops, key.id);
      && (key in Run(h, ops) <==> last.Some? && key == SourceIndexKey(h, key.id, last.value.stamp))
      && (key in Run(h, ops) ==> Run(h, ops)[key] == SourceIndexPayload(last.value))
  {
    if ops != [] {
      var earlier, op := ops[..|ops| - 1], ops[|ops| - 1];
      OneLayoutAtATime(h, earlier, key);
      match op
      case WriteLibrary(id, meta, records) =>
        WithRecordsEntries(Cleared(Run(h, earlier), id)[MetaKey(id) := MetaPayload(meta)], id, records, key);
      case _ =>
    }
  }

  /** The key alone decides: a layout is answered exactly when its stamp hashes like the one asked for. */
  lemma ReadSourceIndexIff(h: Hashing, ops: seq<Op>, id: nat, stamp: SourcesStamp)
    ensures var last := LastSourceIndex(h, ops, id);
      AnswersSourceIndex(h, Run(h, ops), id, stamp)
        == if last.Some? && h.stamp(last.value.stamp) == h.stamp(stamp)
              && last.value.formatVersion == CACHE_FORMAT_VERSION
           then last else None
  {
    OneLayoutAtATime(h, ops, SourceIndexKey(h, id, stamp));
  }

  /** So the layout of other sources is answered whenever the two stamps collide. */
  lemma LayoutOfOtherSources(h: Hashing, id: nat, blob: SourceIndexBlob, stamp: SourcesStamp)
    requires blob.formatVersion == CACHE_FORMAT_VERSION
    requires stamp != blob.stamp && h.stamp(stamp) == h.stamp(blob.stamp)
    ensures AnswersSourceIndex(h, Run(h, [WriteSourceIndex(id, blob)]), id, stamp) == Some(blob)
  {
    var ops := [WriteSourceIndex(id, blob)];
    assert LastSourceIndex(h, ops, id) == Some(blob);
    ReadSourceIndexIff(h, ops, id, stamp);
  }

  // ----- what a prune and a touch do to one key

  /** Payloads of the current format decode to what they hold, and nothing else decodes. */
  lemma DecodesIff(p: Payload)
    ensures forall m :: DecodeMeta(p) == Some(m) <==> p == MetaPayload(m) && m.formatVersion == 1
    ensures forall b :: DecodeSourceIndex(p) == Some(b) <==> p == SourceIndexPayload(b) && b.formatVersion == 1
    ensures forall b :: DecodeParams(p) == Some(b) <==> p == ParamsPayload(b) && b.formatVersion == 1
  {}

  /**
   A prune spares a key exactly when its library is live, has no meta entry, or has a
   readable one used within the last thirty days; and always at the top id.
   */
  lemma PruneSpares(view: View, live: set<nat>, now: nat, k: Key)
    requires k in view
    ensures k in Pruned(view, live, Cutoff(now)) <==>
      || k.id == U64 - 1 || k.id in live || MetaKey(k.id) !in view
      || (var p := view[MetaKey(k.id)];
          p.MetaPayload? && p.meta.formatVersion == 1 && now <= p.meta.lastAccessed + 30 * 24 * 3600)
    ensures k in Pruned(view, live, Cutoff(now)) ==> Pruned(view, live, Cutoff(now))[k] == view[k]
  {}

  /** A touch moves the time of last use of the readable meta entries it names, and nothing else. */
  lemma TouchMoves(view: View, ids: seq<nat>, now: nat, k: Key)
    requires k in view
    ensures k in Touched(view, ids, now)
    ensures Touched(view, ids, now)[k] ==
      if k.id in ids && k == MetaKey(k.id) && view[k].MetaPayload? && view[k].meta.formatVersion == 1
      then MetaPayload(view[k].meta.(lastAccessed := now)) else view[k]
  {}
}
