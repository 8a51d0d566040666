/** The second encoder, which turns the engine into bytes for a replica: its own appends to a buffer,
    its own loops and its own count of the strings of a stream. */
module RdbReplica {
  import opened Bytes
  import opened Tables
  import opened Decimal
  import opened StreamId
  import opened RdbFormat
  import opened Rdb
  import opened RdbLayout
  import opened RdbWriter

  class ReplicaEncoder {
    var buffer: bytes

    constructor ()
      ensures buffer == []
    {
      buffer := [];
    }

    method Push(b: byte)
      modifies this
      ensures buffer == old(buffer) + [b]
    {
      buffer := buffer + [b];
    }

    method Extend(s: bytes)
      modifies this
      ensures buffer == old(buffer) + s
    {
      buffer := buffer + s;
    }

    method AppendLength(n: nat)
      modifies this
      ensures buffer == old(buffer) + EncodeLength(n)
    {
      if n <= 63 {
        Push(Byte(n));
      } else if n <= 16383 {
        var high, low := Byte(n / 256 % 64 + 64), Byte(n % 256);
        Push(high);
        Push(low);
      } else {
        Push(0x80);
        Extend(BigEndian32(n % U32));
      }
    }

    method AppendSized(s: bytes)
      modifies this
      ensures buffer == old(buffer) + EncodeString(s)
    {
      hide EncodeLength;
      AppendLength(|s|);
      Extend(s);
    }

    method AppendAux(key: bytes, value: bytes)
      modifies this
      ensures buffer == old(buffer) + ([OP_AUX] + EncodeString(key) + EncodeString(value))
    {
      hide EncodeString;
      Associative(buffer, [OP_AUX] + EncodeString(key), EncodeString(value));
      Associative(buffer, [OP_AUX], EncodeString(key));
      Push(OP_AUX);
      AppendSized(key);
      AppendSized(value);
    }

    /** The items of a list, or the members of a set. */
    method AppendItems(xs: seq<bytes>)
      modifies this
      ensures buffer == old(buffer) + (EncodeLength(|xs|) + EncodeStrings(xs))
    {
      hide EncodeString, EncodeLength;
      Associative(buffer, EncodeLength(|xs|), EncodeStrings(xs));
      AppendLength(|xs|);
      ghost var start := buffer;
      assert xs[0..] == xs;
      for i := 0 to |xs|
        invariant buffer + EncodeStrings(xs[i..]) == start + EncodeStrings(xs)
      {
        StringsCons(xs[i..]);
        assert xs[i..][1..] == xs[i + 1..];
        Associative(buffer, EncodeString(xs[i]), EncodeStrings(xs[i + 1..]));
        AppendSized(xs[i]);
      }
      assert buffer + [] == buffer;
    }

    /** Fields and their values. */
    method AppendFields(ps: seq<Pair>)
      modifies this
      ensures buffer == old(buffer) + EncodePairs(ps)
    {
      hide EncodeString;
      assert ps[0..] == ps;
      for i := 0 to |ps|
        invariant buffer + EncodePairs(ps[i..]) == old(buffer) + EncodePairs(ps)
      {
        PairsCons(ps[i..]);
        assert ps[i..][1..] == ps[i + 1..];
        Associative(buffer, EncodeString(ps[i].key) + EncodeString(ps[i].value), EncodePairs(ps[i + 1..]));
        Associative(buffer, EncodeString(ps[i].key), EncodeString(ps[i].value));
        AppendSized(ps[i].key);
        AppendSized(ps[i].value);
      }
      assert buffer + [] == buffer;
    }

    method AppendHash(ps: seq<Pair>)
      modifies this
      ensures buffer == old(buffer) + (EncodeLength(|ps|) + EncodePairs(ps))
    {
      hide EncodeLength, EncodePairs;
      Associative(buffer, EncodeLength(|ps|), EncodePairs(ps));
      AppendLength(|ps|);
      AppendFields(ps);
    }

    /** Members, each with the eight bytes of its score. */
    method AppendMembers(ms: seq<Scored>)
      modifies this
      ensures buffer == old(buffer) + (EncodeLength(|ms|) + EncodeScored(ms))
    {
      hide EncodeString, EncodeLength;
      Associative(buffer, EncodeLength(|ms|), EncodeScored(ms));
      AppendLength(|ms|);
      ghost var start := buffer;
      assert ms[0..] == ms;
      for i := 0 to |ms|
        invariant buffer + EncodeScored(ms[i..]) == start + EncodeScored(ms)
      {
        ScoredCons(ms[i..]);
        assert ms[i..][1..] == ms[i + 1..];
        Associative(buffer, EncodeString(ms[i].member) + ms[i].score, EncodeScored(ms[i + 1..]));
        Associative(buffer, EncodeString(ms[i].member), ms[i].score);
        AppendSized(ms[i].member);
        Extend(ms[i].score);
      }
      assert buffer + [] == buffer;
    }

    method AppendEntry(e: RawEntry)
      modifies this
      ensures buffer == old(buffer) + EncodeEntry(e)
    {
      hide EncodeString, EncodePairs, Text, Digits;
      Associative(buffer, EncodeString(Text(e.id)) + EncodeString(Digits(|e.fields|)), EncodePairs(e.fields));
      Associative(buffer, EncodeString(Text(e.id)), EncodeString(Digits(|e.fields|)));
      AppendSized(Text(e.id));
      AppendSized(Digits(|e.fields|));
      AppendFields(e.fields);
    }

    /** A stream: one string for the marker, two for each entry and two for each of its fields. */
    method AppendStream(es: seq<RawEntry>)
      modifies this
      ensures buffer == old(buffer) + EncodeLog(es)
    {
      hide EncodeString, EncodeEntry, EncodeLength;
      var total := 1;
      assert es[0..] == es;
      for i := 0 to |es|
        invariant total + ItemCount(es[i..]) == 1 + ItemCount(es) && buffer == old(buffer)
      {
        assert es[i..][1..] == es[i + 1..];
        total := total + 2;
        total := total + |es[i].fields| * 2;
      }
      ghost var head := EncodeLength(total) + EncodeString(MARKER);
      Associative(buffer, EncodeLength(total), EncodeString(MARKER));
      Associative(buffer, head, EncodeEntries(es));
      AppendLength(total);
      AppendSized(MARKER);
      ghost var start := buffer;
      for i := 0 to |es|
        invariant buffer + EncodeEntries(es[i..]) == start + EncodeEntries(es)
      {
        EntriesCons(es[i..]);
        assert es[i..][1..] == es[i + 1..];
        Associative(buffer, EncodeEntry(es[i]), EncodeEntries(es[i + 1..]));
        AppendEntry(es[i]);
      }
      assert buffer + [] == buffer;
    }

    method AppendValue(raw: Raw)
      modifies this
      ensures buffer == old(buffer) + EncodeBody(raw)
    {
      hide EncodeString, EncodeStrings, EncodePairs, EncodeScored, EncodeLength, EncodeLog;
      match raw
      case RawStr(t) => AppendSized(t);
      case RawList(xs) => AppendItems(xs);
      case RawSet(ms) => AppendItems(ms);
      case RawHash(ps) => AppendHash(ps);
      case RawZSet(ms) => AppendMembers(ms);
      case RawLog(es, _, _) => AppendStream(es);
    }

    method PushType(v: Value)
      modifies this
      ensures forall raw :: ToValue(raw) == v ==> buffer == old(buffer) + [TypeOf(raw)]
    {
      match v
      case Str(_) => Push(T_STRING);
      case List(_) => Push(T_LIST);
      case Set(_) => Push(T_SET);
      case Hash(_) => Push(T_HASH);
      case ZSet(_) => Push(T_ZSET);
      case Log(_, _, _) => Push(T_LIST);
    }

    /** One key: expiry, type, key, value. */
    method AppendRecord(key: Key, stored: Stored, now: nat) returns (ghost r: Record)
      requires Alive(stored, now)
      modifies this
      ensures buffer == old(buffer) + EncodeRecord(r)
      ensures r.key == key && ToValue(r.raw) == stored.value && r.expiry == stored.expiry
      ensures FitValue(stored.value) ==> Fit(r.raw)
    {
      hide EncodeString, EncodeBody, LittleEndian, Fit, FitValue, ToValue;
      var raw := LayOut(stored.value);
      r := Record(key, raw, stored.expiry);
      ghost var start := buffer;
      if stored.expiry.Some? {
        var ttl := stored.expiry.value - now;
        Push(OP_EXPIRE_MS);
        Extend(LittleEndian(now + ttl, 8));
      }
      ghost var middle := buffer;
      PushType(stored.value);
      AppendSized(key);
      AppendValue(raw);
      RecordParts(start, middle, r);
    }

    /** The keys of one database, skipping those that have expired. */
    method AppendKeys(e: Engine, db: nat, now: nat, keys: seq<Key>, ghost base: Engine) returns (ghost rs: seq<Record>)
      requires KeysListed(e, db, keys)
      modifies this
      ensures buffer == old(buffer) + EncodeRecords(rs) && Written(e, db, now, keys, |keys|, base, rs)
    {
      hide EncodeRecords, Written, EncodeRecord, ToValue, Fit, FitValue;
      rs := [];
      NoRecords();
      NothingWritten(e, db, now, keys, base);
      assert buffer + [] == buffer;
      for n := 0 to |keys|
        invariant buffer == old(buffer) + EncodeRecords(rs) && Written(e, db, now, keys, n, base, rs)
      {
        var stored := e[Slot(db, keys[n])];
        if Alive(stored, now) {
          ghost var r := AppendRecord(keys[n], stored, now);
          RecordsSnoc(rs, r);
          Associative(old(buffer), EncodeRecords(rs), EncodeRecord(r));
          WrittenMore(e, db, now, keys, n, base, rs, r);
          rs := rs + [r];
        } else {
          WrittenSame(e, db, now, keys, n, base, rs);
        }
      }
    }

    /** A database that has keys is a section without a second size hint. */
    method AppendDatabase(e: Engine, db: nat, now: nat, ghost ss: seq<Section>) returns (ghost ss': seq<Section>)
      requires Describes(e, db, now, ss)
      modifies this
      ensures Describes(e, db + 1, now, ss')
      ensures exists out :: ss' == ss + out && buffer == old(buffer) + EncodeSections(out)
    {
      hide EncodeSection, Describes, EncodeRecords, EncodeLength, Written;
      var keys := WalkSet(KeysOf(e, db));
      if keys == [] {
        DescribesSame(e, db, now, ss);
        assert ss + [] == ss && buffer + [] == buffer;
        ss' := ss;
        return;
      }
      Push(OP_SELECT);
      AppendLength(db);
      Push(OP_RESIZE);
      AppendLength(|keys|);
      AppendLength(0);
      ghost var rs := AppendKeys(e, db, now, keys, Contents(ss));
      ghost var s := Section(db, |keys|, 0, rs);
      SectionParts(old(buffer), s);
      DescribesMore(e, db, now, keys, ss, s);
      OneSection(s);
      ss' := ss + [s];
    }

    method AppendMetadata(version: bytes, seconds: nat, memory: nat)
      modifies this
      ensures buffer == old(buffer) + EncodeAux(ReplicaAux(version, seconds, memory))
    {
      hide EncodeString, Digits;
      var start := buffer;
      AppendAux(REDIS_VER, version);
      AppendAux(REDIS_BITS, [54, 52]);
      AppendAux(CTIME, Digits(seconds));
      AppendAux(USED_MEM, Digits(memory));
      AuxParts(start, version, Digits(seconds), Digits(memory));
    }

    /** The bytes sent to a replica: more auxiliary fields, no second size hint, no checksum. */
    method Generate(e: Engine, dbs: nat, now: nat, version: bytes, seconds: nat, memory: nat) returns (ghost ss: seq<Section>)
      requires buffer == []
      modifies this
      ensures buffer == EncodeSnapshot(ReplicaAux(version, seconds, memory), ss, 0) && Describes(e, dbs, now, ss)
    {
      hide EncodeAux, EncodeSections, LittleEndian, Describes;
      Extend(HEADER[..5]);
      Extend(HEADER[5..]);
      assert buffer == HEADER;
      AppendMetadata(version, seconds, memory);
      ss := [];
      DescribesNothing(e, now);
      NoSections();
      assert buffer + [] == buffer;
      ghost var start := buffer;
      for db := 0 to dbs
        invariant Describes(e, db, now, ss) && buffer == start + EncodeSections(ss)
      {
        ghost var before, ss0 := buffer, ss;
        ss := AppendDatabase(e, db, now, ss);
        ghost var out :| ss == ss0 + out && buffer == before + EncodeSections(out);
        SectionsJoin(ss0, out);
        Associative(start, EncodeSections(ss0), EncodeSections(out));
      }
      Push(OP_EOF);
      Extend(LittleEndian(0, 8));
      SnapshotParts(ReplicaAux(version, seconds, memory), ss, 0);
    }
  }

  function AuxBytes(key: bytes, value: bytes): bytes {
    [OP_AUX] + EncodeString(key) + EncodeString(value)
  }

  lemma AuxCons(ps: seq<Pair>)
    requires ps != []
    ensures EncodeAux(ps) == AuxBytes(ps[0].key, ps[0].value) + EncodeAux(ps[1..])
  {
  }

  lemma AuxParts(start: bytes, version: bytes, seconds: bytes, memory: bytes)
    ensures start + AuxBytes(REDIS_VER, version) + AuxBytes(REDIS_BITS, [54, 52]) + AuxBytes(CTIME, seconds) + AuxBytes(USED_MEM, memory)
      == start + EncodeAux([Pair(REDIS_VER, version), Pair(REDIS_BITS, [54, 52]), Pair(CTIME, seconds), Pair(USED_MEM, memory)])
  {
    hide AuxBytes;
    var a, b := Pair(REDIS_VER, version), Pair(REDIS_BITS, [54, 52]);
    var c, d := Pair(CTIME, seconds), Pair(USED_MEM, memory);
    var ps := [a, b, c, d];
    AuxCons(ps);
    assert ps[1..] == [b, c, d];
    AuxCons([b, c, d]);
    assert [b, c, d][1..] == [c, d];
    AuxCons([c, d]);
    assert [c, d][1..] == [d];
    AuxCons([d]);
    assert [d][1..] == [];
  }

  /** The two encoders write different bytes that load, at any time, as the same engine: the live part
      of what was saved, as far as that is restored. */
  method EncodeBoth(e: Engine, dbs: nat, now: nat, version: bytes, seconds: nat, memory: nat) returns (file: bytes, replica: bytes)
    requires FitEngine(e, dbs, now) && |version| < U32 && seconds <= U64_MAX && memory <= U64_MAX
    ensures forall later :: Load(file, map[], later) == Load(replica, map[], later) == Ok(AfterLoad(Live(e, dbs, now), later), [])
    ensures forall later, slot :: now <= later && Kept(e, dbs, slot, later) ==>
      Load(replica, map[], later).Ok? && slot in Load(replica, map[], later).value && Load(replica, map[], later).value[slot] == e[slot]
    ensures forall later, slot :: slot in e && e[slot].expiry.Some? && e[slot].expiry.value < now ==>
      Load(replica, map[], later).Ok? && slot !in Load(replica, map[], later).value
  {
    hide Load, EncodeSnapshot, FitEngine, Describes, AfterLoad, ShortPairs, Live, LittleEndian, Sum, IntactStored, Kept;
    AuxShort(version, seconds, memory);
    var w := new RdbWriter();
    ghost var ss := w.WriteSnapshot(e, dbs, now, version, seconds);
    ghost var checksum :| w.data == EncodeSnapshot(FileAux(version, seconds), ss, checksum);
    file := w.data;
    var r := new ReplicaEncoder();
    ghost var ss' := r.Generate(e, dbs, now, version, seconds, memory);
    replica := r.buffer;
    forall later ensures Load(file, map[], later) == Load(replica, map[], later) == Ok(AfterLoad(Live(e, dbs, now), later), []) {
      SavedLoadsIff(e, dbs, now, FileAux(version, seconds), ss, checksum, later);
      SavedLoadsIff(e, dbs, now, ReplicaAux(version, seconds, memory), ss', 0, later);
    }
    forall later: nat ensures SlotsRight(e, dbs, now, later, AfterLoad(Live(e, dbs, now), later)) {
      SavedSlots(e, dbs, now, later);
    }
  }
}
