/** Saving as the server does it: a file writer that counts and sums what it writes. */
module RdbWriter {
  import opened Bytes
  import opened Tables
  import opened Decimal
  import opened StreamId
  import opened RdbFormat
  import opened Rdb
  import opened RdbLayout

  // ----- Runs grow at the end -----

  lemma {:induction false} RecordsSnoc(rs: seq<Record>, r: Record)
    ensures EncodeRecords(rs + [r]) == EncodeRecords(rs) + EncodeRecord(r)
  {
    hide EncodeRecord;
    if rs == [] {
      assert [r][1..] == [] && [] + [r] == [r];
      assert EncodeRecord(r) + [] == EncodeRecord(r) && [] + EncodeRecord(r) == EncodeRecord(r);
    } else {
      RecordsSnoc(rs[1..], r);
      assert (rs + [r])[1..] == rs[1..] + [r];
      Associative(EncodeRecord(rs[0]), EncodeRecords(rs[1..]), EncodeRecord(r));
    }
  }

  lemma {:induction false} PutRecordsSnoc(e: Engine, db: nat, rs: seq<Record>, r: Record)
    ensures PutRecords(e, db, rs + [r], None) == PutRecords(e, db, rs, None)[Slot(db, r.key) := Stored(ToValue(r.raw), r.expiry)]
    decreases |rs|
  {
    hide ToValue, Restored;
    if rs == [] {
      assert [r][1..] == [] && [] + [r] == [r];
    } else {
      PutRecordsSnoc(PutRecord(e, db, rs[0], None), db, rs[1..], r);
      assert (rs + [r])[1..] == rs[1..] + [r];
    }
  }

  lemma {:induction false} PutSectionsSnoc(e: Engine, ss: seq<Section>, s: Section)
    ensures PutSections(e, ss + [s], None) == PutRecords(PutSections(e, ss, None), s.db, s.records, None)
    decreases |ss|
  {
    hide PutRecords;
    if ss == [] {
      assert [s][1..] == [] && [] + [s] == [s];
    } else {
      PutSectionsSnoc(PutRecords(e, ss[0].db, ss[0].records, None), ss[1..], s);
      assert (ss + [s])[1..] == ss[1..] + [s];
    }
  }

  // ----- What is saved -----

  /** The live keys of the first databases. */
  ghost function Live(e: Engine, dbs: nat, now: nat): Engine {
    map slot | slot in e && slot.db < dbs && Alive(e[slot], now) :: e[slot]
  }

  function KeysOf(e: Engine, db: nat): set<Key> {
    set slot | slot in e && slot.db == db :: slot.key
  }

  ghost predicate FitStored(slot: Slot, s: Stored) {
    |slot.key| < U32 && FitValue(s.value) && (s.expiry.Some? ==> s.expiry.value < U64)
  }

  /** An engine whose live part survives a save and a load. */
  ghost predicate FitEngine(e: Engine, dbs: nat, now: nat) {
    && dbs <= U32
    && (forall db | 0 <= db < dbs :: |KeysOf(e, db)| < U32)
    && (forall slot | slot in e && slot.db < dbs && Alive(e[slot], now) :: FitStored(slot, e[slot]))
  }

  /** The sections describe the live keys of the first databases, and survive if these do. */
  ghost predicate Describes(e: Engine, dbs: nat, now: nat, ss: seq<Section>) {
    && Contents(ss) == Live(e, dbs, now)
    && (forall i :: 0 <= i < |ss| ==> ss[i].db < dbs)
    && (FitEngine(e, dbs, now) ==> FitSections(ss))
  }

  ghost predicate KeysListed(e: Engine, db: nat, keys: seq<Key>) {
    && (forall i :: 0 <= i < |keys| ==> Slot(db, keys[i]) in e)
    && (forall i, j :: 0 <= i < j < |keys| ==> keys[i] != keys[j])
  }

  ghost function Part(e: Engine, db: nat, now: nat, keys: seq<Key>): Engine {
    map slot | slot in e && slot.db == db && slot.key in keys && Alive(e[slot], now) :: e[slot]
  }

  ghost predicate WrittenRecord(e: Engine, db: nat, now: nat, keys: seq<Key>, r: Record) {
    && r.key in keys && Slot(db, r.key) in e && Alive(e[Slot(db, r.key)], now)
    && (FitStored(Slot(db, r.key), e[Slot(db, r.key)]) ==> FitRecord(r))
  }

  /** The records are those of the live ones among the first keys. */
  ghost predicate Written(e: Engine, db: nat, now: nat, keys: seq<Key>, n: nat, base: Engine, rs: seq<Record>) {
    && n <= |keys|
    && PutRecords(base, db, rs, None) == base + Part(e, db, now, keys[..n])
    && (forall i :: 0 <= i < |rs| ==> WrittenRecord(e, db, now, keys[..n], rs[i]))
    && (forall i, j :: 0 <= i < j < |rs| ==> rs[i].key != rs[j].key)
  }

  lemma NothingWritten(e: Engine, db: nat, now: nat, keys: seq<Key>, base: Engine)
    ensures Written(e, db, now, keys, 0, base, [])
  {
    assert Part(e, db, now, keys[..0]) == map[];
    assert base + map[] == base;
  }

  lemma PartMore(e: Engine, db: nat, now: nat, keys: seq<Key>, n: nat)
    requires n < |keys| && Slot(db, keys[n]) in e
    ensures var slot := Slot(db, keys[n]);
      Part(e, db, now, keys[..n + 1]) ==
        if Alive(e[slot], now) then Part(e, db, now, keys[..n])[slot := e[slot]] else Part(e, db, now, keys[..n])
  {
    assert forall k :: k in keys[..n + 1] <==> k in keys[..n] || k == keys[n];
  }

  lemma WrittenMore(e: Engine, db: nat, now: nat, keys: seq<Key>, n: nat, base: Engine, rs: seq<Record>, r: Record)
    requires Written(e, db, now, keys, n, base, rs) && n < |keys| && KeysListed(e, db, keys)
    requires Alive(e[Slot(db, keys[n])], now)
    requires r.key == keys[n] && Stored(ToValue(r.raw), r.expiry) == e[Slot(db, keys[n])]
    requires FitValue(ToValue(r.raw)) ==> Fit(r.raw)
    ensures Written(e, db, now, keys, n + 1, base, rs + [r])
  {
    hide PutRecords, ToValue, Fit, FitValue, Part;
    PartMore(e, db, now, keys, n);
    PutRecordsSnoc(base, db, rs, r);
    var slot := Slot(db, keys[n]);
    assert base + Part(e, db, now, keys[..n])[slot := e[slot]] == (base + Part(e, db, now, keys[..n]))[slot := e[slot]];
    assert keys[..n + 1][n] == keys[n];
    forall i | 0 <= i < |rs| ensures WrittenRecord(e, db, now, keys[..n + 1], rs[i]) && rs[i].key != r.key {
      assert WrittenRecord(e, db, now, keys[..n], rs[i]);
      assert forall k :: k in keys[..n] ==> k in keys[..n + 1];
    }
  }

  lemma WrittenSame(e: Engine, db: nat, now: nat, keys: seq<Key>, n: nat, base: Engine, rs: seq<Record>)
    requires Written(e, db, now, keys, n, base, rs) && n < |keys| && KeysListed(e, db, keys)
    requires !Alive(e[Slot(db, keys[n])], now)
    ensures Written(e, db, now, keys, n + 1, base, rs)
  {
    hide PutRecords, ToValue, Fit, FitValue, Part;
    PartMore(e, db, now, keys, n);
    forall i | 0 <= i < |rs| ensures WrittenRecord(e, db, now, keys[..n + 1], rs[i]) {
      assert WrittenRecord(e, db, now, keys[..n], rs[i]);
      assert forall k :: k in keys[..n] ==> k in keys[..n + 1];
    }
  }

  lemma DescribesNothing(e: Engine, now: nat)
    ensures Describes(e, 0, now, [])
  {
  }

  lemma LiveMore(e: Engine, db: nat, now: nat, keys: seq<Key>)
    requires (set k | k in keys) == KeysOf(e, db)
    ensures Live(e, db, now) + Part(e, db, now, keys) == Live(e, db + 1, now)
  {
    forall slot | slot in e && slot.db == db ensures slot.key in keys {
      assert slot.key in KeysOf(e, db);
    }
  }

  lemma DescribesMore(e: Engine, db: nat, now: nat, keys: seq<Key>, ss: seq<Section>, s: Section)
    requires Describes(e, db, now, ss) && s.db == db && s.hint1 == |keys| && s.hint2 <= |keys|
    requires (set k | k in keys) == KeysOf(e, db) && |keys| == |KeysOf(e, db)|
    requires Written(e, db, now, keys, |keys|, Contents(ss), s.records)
    ensures Describes(e, db + 1, now, ss + [s])
  {
    hide PutRecords, PutSections, FitRecord, FitStored, Part, Live;
    assert keys[..|keys|] == keys;
    LiveMore(e, db, now, keys);
    PutSectionsSnoc(map[], ss, s);
    if FitEngine(e, db + 1, now) {
      assert FitEngine(e, db, now);
      forall i | 0 <= i < |s.records| ensures FitRecord(s.records[i]) {
        assert WrittenRecord(e, db, now, keys, s.records[i]);
      }
    }
  }

  lemma DescribesSame(e: Engine, db: nat, now: nat, ss: seq<Section>)
    requires Describes(e, db, now, ss) && KeysOf(e, db) == {}
    ensures Describes(e, db + 1, now, ss)
  {
    hide Contents, FitSections, FitStored;
    LiveMore(e, db, now, []);
    assert Part(e, db, now, []) == map[];
    if FitEngine(e, db + 1, now) {
      assert FitEngine(e, db, now);
    }
  }

  // ----- Putting the parts together -----

  lemma SectionParts(start: bytes, s: Section)
    ensures start + [OP_SELECT] + EncodeLength(s.db) + [OP_RESIZE] + EncodeLength(s.hint1) + EncodeLength(s.hint2) + EncodeRecords(s.records)
      == start + EncodeSection(s)
  {
    hide EncodeLength, EncodeRecords;
  }

  lemma OneSection(s: Section)
    ensures EncodeSections([s]) == EncodeSection(s)
  {
    hide EncodeSection;
    assert [s][1..] == [] && EncodeSection(s) + [] == EncodeSection(s);
  }

  lemma NoRecords()
    ensures EncodeRecords([]) == []
  {
  }

  lemma NoSections()
    ensures EncodeSections([]) == []
  {
  }

  lemma {:induction false} SectionsJoin(ss: seq<Section>, out: seq<Section>)
    ensures EncodeSections(ss + out) == EncodeSections(ss) + EncodeSections(out)
  {
    hide EncodeSection;
    if ss == [] {
      assert [] + out == out && [] + EncodeSections(out) == EncodeSections(out);
    } else {
      SectionsJoin(ss[1..], out);
      assert (ss + out)[1..] == ss[1..] + out;
      Associative(EncodeSection(ss[0]), EncodeSections(ss[1..]), EncodeSections(out));
    }
  }

  lemma SnapshotParts(aux: seq<Pair>, ss: seq<Section>, checksum: nat)
    ensures HEADER + EncodeAux(aux) + EncodeSections(ss) + [OP_EOF] + LittleEndian(checksum, 8) == EncodeSnapshot(aux, ss, checksum)
  {
    hide EncodeAux, EncodeSections, LittleEndian;
    var end := LittleEndian(checksum, 8);
    Associative(HEADER + EncodeAux(aux) + EncodeSections(ss), [OP_EOF], end);
    Regroup(HEADER, EncodeAux(aux), EncodeSections(ss), [OP_EOF] + end);
  }

  // ----- Auxiliary fields -----

  const REDIS_VER: bytes := [114, 101, 100, 105, 115, 45, 118, 101, 114]
  const REDIS_BITS: bytes := [114, 101, 100, 105, 115, 45, 98, 105, 116, 115]
  const CTIME: bytes := [99, 116, 105, 109, 101]
  const USED_MEM: bytes := [117, 115, 101, 100, 45, 109, 101, 109]

  function FileAux(version: bytes, seconds: nat): seq<Pair> {
    [Pair(REDIS_VER, version), Pair(CTIME, Digits(seconds))]
  }

  function ReplicaAux(version: bytes, seconds: nat, memory: nat): seq<Pair> {
    [Pair(REDIS_VER, version), Pair(REDIS_BITS, [54, 52]), Pair(CTIME, Digits(seconds)), Pair(USED_MEM, Digits(memory))]
  }

  // ----- The file writer -----

  function Sum(s: bytes): nat {
    if s == [] then 0 else Sum(s[..|s| - 1]) + s[|s| - 1] as nat
  }

  /** The writer counts its bytes and adds them up modulo 2^64. */
  class RdbWriter {
    var data: bytes
    var bytesWritten: nat
    var crc: nat

    ghost predicate Valid()
      reads this
    {
      bytesWritten == |data| && crc == Sum(data) % U64
    }

    constructor ()
      ensures Valid() && data == []
    {
      data, bytesWritten, crc := [], 0, 0;
    }

    method WriteRaw(s: bytes)
      requires Valid()
      modifies this
      ensures Valid() && data == old(data) + s
    {
      ghost var before := data;
      data := data + s;
      bytesWritten := bytesWritten + |s|;
      assert before + s[..0] == before;
      for i := 0 to |s|
        invariant data == before + s && bytesWritten == |data|
        invariant crc == Sum(before + s[..i]) % U64
      {
        assert (before + s[..i + 1])[..|before| + i] == before + s[..i];
        crc := (crc + s[i] as nat) % U64;
      }
      assert s[..|s|] == s;
    }

    method WriteByte(b: byte)
      requires Valid()
      modifies this
      ensures Valid() && data == old(data) + [b]
    {
      WriteRaw([b]);
    }

    method WriteLength(n: nat)
      requires Valid()
      modifies this
      ensures Valid() && data == old(data) + EncodeLength(n)
    {
      if n < 64 {
        WriteByte(Byte(n));
      } else if n < 16384 {
        WriteByte(Byte(n / 256 % 64 + 64));
        WriteByte(Byte(n % 256));
      } else {
        WriteByte(0x80);
        WriteRaw(BigEndian32(n % U32));
      }
    }

    method WriteString(s: bytes)
      requires Valid()
      modifies this
      ensures Valid() && data == old(data) + EncodeString(s)
    {
      hide EncodeLength;
      WriteLength(|s|);
      WriteRaw(s);
    }

    method WriteStrings(xs: seq<bytes>)
      requires Valid()
      modifies this
      ensures Valid() && data == old(data) + EncodeStrings(xs)
    {
      hide EncodeString;
      assert xs[0..] == xs;
      for i := 0 to |xs|
        invariant Valid() && data + EncodeStrings(xs[i..]) == old(data) + EncodeStrings(xs)
      {
        StringsCons(xs[i..]);
        assert xs[i..][1..] == xs[i + 1..];
        Associative(data, EncodeString(xs[i]), EncodeStrings(xs[i + 1..]));
        WriteString(xs[i]);
      }
      assert data + [] == data;
    }

    method WritePairs(ps: seq<Pair>)
      requires Valid()
      modifies this
      ensures Valid() && data == old(data) + EncodePairs(ps)
    {
      hide EncodeString;
      assert ps[0..] == ps;
      for i := 0 to |ps|
        invariant Valid() && data + EncodePairs(ps[i..]) == old(data) + EncodePairs(ps)
      {
        PairsCons(ps[i..]);
        assert ps[i..][1..] == ps[i + 1..];
        Associative(data, EncodeString(ps[i].key) + EncodeString(ps[i].value), EncodePairs(ps[i + 1..]));
        Associative(data, EncodeString(ps[i].key), EncodeString(ps[i].value));
        WriteString(ps[i].key);
        WriteString(ps[i].value);
      }
      assert data + [] == data;
    }

    method WriteScored(ms: seq<Scored>)
      requires Valid()
      modifies this
      ensures Valid() && data == old(data) + EncodeScored(ms)
    {
      hide EncodeString;
      assert ms[0..] == ms;
      for i := 0 to |ms|
        invariant Valid() && data + EncodeScored(ms[i..]) == old(data) + EncodeScored(ms)
      {
        ScoredCons(ms[i..]);
        assert ms[i..][1..] == ms[i + 1..];
        Associative(data, EncodeString(ms[i].member) + ms[i].score, EncodeScored(ms[i + 1..]));
        Associative(data, EncodeString(ms[i].member), ms[i].score);
        WriteString(ms[i].member);
        WriteRaw(ms[i].score);
      }
      assert data + [] == data;
    }

    method WriteEntry(e: RawEntry)
      requires Valid()
      modifies this
      ensures Valid() && data == old(data) + EncodeEntry(e)
    {
      hide EncodeString, EncodePairs, Text, Digits;
      Associative(data, EncodeString(Text(e.id)) + EncodeString(Digits(|e.fields|)), EncodePairs(e.fields));
      Associative(data, EncodeString(Text(e.id)), EncodeString(Digits(|e.fields|)));
      WriteString(Text(e.id));
      WriteString(Digits(|e.fields|));
      WritePairs(e.fields);
    }

    /** A stream: the number of strings it takes, the marker, and entry by entry. */
    method WriteLog(es: seq<RawEntry>)
      requires Valid()
      modifies this
      ensures Valid() && data == old(data) + EncodeLog(es)
    {
      hide EncodeString, EncodeEntry, EncodeLength;
      var total := CountItems(es);
      ghost var head := EncodeLength(1 + total) + EncodeString(MARKER);
      Associative(data, EncodeLength(1 + total), EncodeString(MARKER));
      Associative(data, head, EncodeEntries(es));
      WriteLength(1 + total);
      WriteString(MARKER);
      assert es[0..] == es;
      ghost var before := data;
      for i := 0 to |es|
        invariant Valid() && data + EncodeEntries(es[i..]) == before + EncodeEntries(es)
      {
        EntriesCons(es[i..]);
        assert es[i..][1..] == es[i + 1..];
        Associative(data, EncodeEntry(es[i]), EncodeEntries(es[i + 1..]));
        WriteEntry(es[i]);
      }
      assert data + [] == data;
    }

    method WriteBody(raw: Raw)
      requires Valid()
      modifies this
      ensures Valid() && data == old(data) + EncodeBody(raw)
    {
      hide EncodeString, EncodeStrings, EncodePairs, EncodeScored, EncodeLength, EncodeEntries;
      match raw
      case RawStr(t) => WriteString(t);
      case RawList(xs) =>
        Associative(data, EncodeLength(|xs|), EncodeStrings(xs));
        WriteLength(|xs|);
        WriteStrings(xs);
      case RawSet(ms) =>
        Associative(data, EncodeLength(|ms|), EncodeStrings(ms));
        WriteLength(|ms|);
        WriteStrings(ms);
      case RawHash(ps) =>
        Associative(data, EncodeLength(|ps|), EncodePairs(ps));
        WriteLength(|ps|);
        WritePairs(ps);
      case RawZSet(ms) =>
        Associative(data, EncodeLength(|ms|), EncodeScored(ms));
        WriteLength(|ms|);
        WriteScored(ms);
      case RawLog(es, _, _) => WriteLog(es);
    }

    /** One key with its value.  The expiry time is written as the present time plus what is left. */
    method WriteKeyValue(key: Key, value: Value, ttl: Option<nat>, now: nat) returns (ghost r: Record)
      requires Valid()
      modifies this
      ensures Valid() && data == old(data) + EncodeRecord(r)
      ensures r.key == key && ToValue(r.raw) == value && (FitValue(value) ==> Fit(r.raw))
      ensures r.expiry == if ttl.Some? then Some(now + ttl.value) else None
    {
      hide EncodeString, EncodeBody, LittleEndian, Fit, FitValue, ToValue;
      var raw := LayOut(value);
      var expiry := if ttl.Some? then Some(now + ttl.value) else None;
      r := Record(key, raw, expiry);
      ghost var start := data;
      if ttl.Some? {
        WriteByte(OP_EXPIRE_MS);
        WriteRaw(LittleEndian(expiry.value, 8));
      }
      ghost var middle := data;
      WriteByte(TypeOf(raw));
      WriteString(key);
      WriteBody(raw);
      RecordParts(start, middle, r);
    }

    method WriteAux(aux: seq<Pair>)
      requires Valid()
      modifies this
      ensures Valid() && data == old(data) + EncodeAux(aux)
    {
      hide EncodeString;
      assert aux[0..] == aux;
      for i := 0 to |aux|
        invariant Valid() && data + EncodeAux(aux[i..]) == old(data) + EncodeAux(aux)
      {
        assert aux[i..][1..] == aux[i + 1..];
        ghost var k, v := EncodeString(aux[i].key), EncodeString(aux[i].value);
        Associative(data, [OP_AUX] + k + v, EncodeAux(aux[i + 1..]));
        Associative(data, [OP_AUX] + k, v);
        Associative(data, [OP_AUX], k);
        WriteByte(OP_AUX);
        WriteString(aux[i].key);
        WriteString(aux[i].value);
      }
      assert data + [] == data;
    }

    /** The keys of one database, skipping those that have expired. */
    method WriteKeys(e: Engine, db: nat, now: nat, keys: seq<Key>, ghost base: Engine) returns (ghost rs: seq<Record>)
      requires Valid() && KeysListed(e, db, keys)
      modifies this
      ensures Valid() && data == old(data) + EncodeRecords(rs)
      ensures Written(e, db, now, keys, |keys|, base, rs)
    {
      hide EncodeRecords, Written, EncodeRecord, ToValue, Fit, FitValue;
      rs := [];
      NothingWritten(e, db, now, keys, base);
      NoRecords();
      assert data + [] == data;
      for n := 0 to |keys|
        invariant Valid() && data == old(data) + EncodeRecords(rs)
        invariant Written(e, db, now, keys, n, base, rs)
      {
        var stored := e[Slot(db, keys[n])];
        if Alive(stored, now) {
          var ttl := if stored.expiry.Some? then Some(stored.expiry.value - now) else None;
          ghost var r := WriteKeyValue(keys[n], stored.value, ttl, now);
          RecordsSnoc(rs, r);
          Associative(old(data), EncodeRecords(rs), EncodeRecord(r));
          WrittenMore(e, db, now, keys, n, base, rs, r);
          rs := rs + [r];
        } else {
          WrittenSame(e, db, now, keys, n, base, rs);
        }
      }
    }

    /** A database that has keys, be they expired, is a section; its number of keys is given twice. */
    method WriteDatabase(e: Engine, db: nat, now: nat, ghost ss: seq<Section>) returns (ghost ss': seq<Section>)
      requires Valid() && Describes(e, db, now, ss)
      modifies this
      ensures Valid() && Describes(e, db + 1, now, ss')
      ensures exists out :: ss' == ss + out && data == old(data) + EncodeSections(out)
    {
      hide EncodeSection, Describes, EncodeRecords, EncodeLength, Written;
      var keys := WalkSet(KeysOf(e, db));
      if keys != [] {
        WriteByte(OP_SELECT);
        WriteLength(db);
        WriteByte(OP_RESIZE);
        WriteLength(|keys|);
        WriteLength(|keys|);
        ghost var rs := WriteKeys(e, db, now, keys, Contents(ss));
        ghost var s := Section(db, |keys|, |keys|, rs);
        SectionParts(old(data), s);
        DescribesMore(e, db, now, keys, ss, s);
        OneSection(s);
        ss' := ss + [s];
      } else {
        DescribesSame(e, db, now, ss);
        assert ss + [] == ss && data + [] == data;
        ss' := ss;
      }
    }

    /** A whole snapshot.  The checksum is the sum of all bytes before it. */
    method WriteSnapshot(e: Engine, dbs: nat, now: nat, version: bytes, seconds: nat) returns (ghost ss: seq<Section>)
      requires Valid() && data == []
      modifies this
      ensures Valid() && Describes(e, dbs, now, ss)
      ensures exists checksum :: data == EncodeSnapshot(FileAux(version, seconds), ss, checksum)
      ensures |data| >= 8 && data[|data| - 8..] == LittleEndian(Sum(data[..|data| - 8]) % U64, 8)
    {
      hide EncodeAux, EncodeSections, LittleEndian, Describes, Sum;
      WriteRaw(HEADER[..5]);
      WriteRaw(HEADER[5..]);
      assert data == HEADER;
      var aux := FileAux(version, seconds);
      WriteAux(aux);
      ss := [];
      DescribesNothing(e, now);
      NoSections();
      assert data + [] == data;
      ghost var start := data;
      for db := 0 to dbs
        invariant Valid() && Describes(e, db, now, ss) && data == start + EncodeSections(ss)
      {
        ghost var before, ss0 := data, ss;
        ss := WriteDatabase(e, db, now, ss);
        ghost var out :| ss == ss0 + out && data == before + EncodeSections(out);
        SectionsJoin(ss0, out);
        Associative(start, EncodeSections(ss0), EncodeSections(out));
      }
      WriteByte(OP_EOF);
      ghost var body, checksum := data, crc;
      WriteRaw(LittleEndian(crc, 8));
      SnapshotParts(aux, ss, checksum);
      assert data[..|data| - 8] == body;
    }
  }

  lemma RecordParts(start: bytes, middle: bytes, r: Record)
    requires middle == if r.expiry.Some? then start + [OP_EXPIRE_MS] + LittleEndian(r.expiry.value, 8) else start
    ensures middle + [TypeOf(r.raw)] + EncodeString(r.key) + EncodeBody(r.raw) == start + EncodeRecord(r)
  {
    hide EncodeString, EncodeBody, LittleEndian;
    Regroup(middle, [TypeOf(r.raw)], EncodeString(r.key), EncodeBody(r.raw));
    var rest := [TypeOf(r.raw)] + (EncodeString(r.key) + EncodeBody(r.raw));
    if r.expiry.Some? {
      Associative(start, [OP_EXPIRE_MS], LittleEndian(r.expiry.value, 8));
      Associative(start, [OP_EXPIRE_MS] + LittleEndian(r.expiry.value, 8), rest);
    } else {
      assert [] + rest == rest;
    }
  }

  method CountItems(es: seq<RawEntry>) returns (total: nat)
    ensures total == ItemCount(es)
  {
    total := 0;
    assert es[0..] == es;
    for i := 0 to |es|
      invariant total + ItemCount(es[i..]) == ItemCount(es)
    {
      assert es[i..][1..] == es[i + 1..];
      total := total + 2;
      total := total + |es[i].fields| * 2;
    }
  }

  // ----- Loading what was saved -----

  lemma AuxShort(version: bytes, seconds: nat, memory: nat)
    requires |version| < U32 && seconds <= U64_MAX && memory <= U64_MAX
    ensures ShortPairs(FileAux(version, seconds)) && ShortPairs(ReplicaAux(version, seconds, memory))
  {
    DigitsLength(seconds, 20);
    DigitsLength(memory, 20);
  }

  /** A saved engine loads back as its live part, as far as that is restored; and as exactly its live
      part if and only if every live value is intact and no live key expires in between. */
  lemma SavedLoadsIff(e: Engine, dbs: nat, now: nat, aux: seq<Pair>, ss: seq<Section>, checksum: nat, later: nat)
    requires ShortPairs(aux) && FitEngine(e, dbs, now) && Describes(e, dbs, now, ss)
    ensures var live := Live(e, dbs, now);
      && Load(EncodeSnapshot(aux, ss, checksum), map[], later) == Ok(AfterLoad(live, later), [])
      && (AfterLoad(live, later) == live <==> forall slot :: slot in live ==> IntactStored(live[slot], later))
  {
    hide Load, EncodeSnapshot, Contents, FitSections, FitEngine, Live, AfterLoad, IntactStored;
    SnapshotLoads(aux, ss, checksum, later);
    AfterLoadIff(Live(e, dbs, now), later);
  }

  /** A key of the saved databases whose value is intact and whose expiry time, if any, is later than the
      load. */
  ghost predicate Kept(e: Engine, dbs: nat, slot: Slot, later: nat) {
    && slot in e && slot.db < dbs && Intact(e[slot].value)
    && (e[slot].expiry == None || e[slot].expiry.value > later)
  }

  /** A key that was alive when it was saved and has expired since. */
  ghost predicate ExpiredSince(e: Engine, dbs: nat, slot: Slot, now: nat, later: nat) {
    && slot in e && slot.db < dbs && Intact(e[slot].value)
    && e[slot].expiry.Some? && now <= e[slot].expiry.value <= later
  }

  /** A key that is kept comes back with its value and its expiry time, one that has expired since with
      its value and no expiry time at all; no other databases are saved, and no key
      that had expired before the save. */
  ghost predicate SlotsRight(e: Engine, dbs: nat, now: nat, later: nat, loaded: Engine) {
    && (now <= later ==> forall slot :: Kept(e, dbs, slot, later) ==> slot in loaded && loaded[slot] == e[slot])
    && (forall slot :: ExpiredSince(e, dbs, slot, now, later) ==> slot in loaded && loaded[slot] == Stored(e[slot].value, None))
    && (forall slot :: slot in loaded ==> slot in e && slot.db < dbs)
    && (forall slot :: slot in e && e[slot].expiry.Some? && e[slot].expiry.value < now ==> slot !in loaded)
  }

  lemma SavedSlots(e: Engine, dbs: nat, now: nat, later: nat)
    ensures SlotsRight(e, dbs, now, later, AfterLoad(Live(e, dbs, now), later))
  {
    var live := Live(e, dbs, now);
    var loaded := AfterLoad(live, later);
    forall slot | ExpiredSince(e, dbs, slot, now, later) ensures slot in loaded && loaded[slot] == Stored(e[slot].value, None) {
      assert slot in live;
      IntactIff(Stored(e[slot].value, None), later);
    }
    if now <= later {
      forall slot | Kept(e, dbs, slot, later) ensures slot in loaded && loaded[slot] == e[slot] {
        assert slot in live;
        IntactIff(e[slot], later);
      }
    }
  }

  /** An expired key is one whose expiry time lies before the present; all others are alive, those without
      an expiry time always. */
  lemma AliveIff(v: Value, expiry: nat, now: nat)
    ensures Alive(Stored(v, None), now)
    ensures Alive(Stored(v, Some(expiry)), now) <==> now <= expiry
  {
  }

  /** The checksum is the sum of the bytes. */
  lemma {:induction false} SumAdds(a: bytes, b: bytes)
    ensures Sum(a + b) == Sum(a) + Sum(b) && (|a| == 1 ==> Sum(a) == a[0] as nat)
    decreases |b|
  {
    if b == [] {
      assert a + b == a;
    } else {
      var n := |b| - 1;
      assert (a + b)[..|a| + n] == a + b[..n];
      SumAdds(a, b[..n]);
    }
    if |a| == 1 { assert a[..0] == [] && Sum(a[..0]) == 0; }
  }
}
