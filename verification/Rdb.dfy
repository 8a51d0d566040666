/** Snapshots: what a saved database looks like in bytes, and what loading those bytes does to
    an engine. */
module Rdb {
  import opened Bytes
  import opened Decimal
  import opened StreamId
  import opened Stream
  import opened RdbFormat

  type Key = bytes

  /** The values of the engine; the score of a sorted-set member is its eight bytes.  A stream keeps
      its last id apart from its entries, and the names of its consumer groups. */
  datatype Value =
    | Str(text: bytes)
    | List(items: seq<bytes>)
    | Set(members: set<bytes>)
    | Hash(fields: map<bytes, bytes>)
    | ZSet(scores: map<bytes, bytes>)
    | Log(entries: seq<Entry>, lastId: Id, groups: set<bytes>)

  /** A stored value with its absolute expiry time in milliseconds. */
  datatype Stored = Stored(value: Value, expiry: Option<nat>)

  /** An expiry time has passed once the clock is beyond it. */
  predicate Alive(s: Stored, now: nat) {
    s.expiry.Some? ==> now <= s.expiry.value
  }

  datatype Slot = Slot(db: nat, key: Key)

  type Engine = map<Slot, Stored>

  // ----- Values in the order in which they are written -----

  datatype RawEntry = RawEntry(id: Id, fields: seq<Pair>)

  /** A value with its hash tables laid out in the order in which they happen to be walked.  The last
      id and the groups of a stream are part of it, but not of what is written. */
  datatype Raw =
    | RawStr(text: bytes)
    | RawList(items: seq<bytes>)
    | RawSet(members: seq<bytes>)
    | RawHash(pairs: seq<Pair>)
    | RawZSet(scored: seq<Scored>)
    | RawLog(entries: seq<RawEntry>, lastId: Id, groups: set<bytes>)

  function ToMap(ps: seq<Pair>): map<bytes, bytes> {
    if ps == [] then map[] else ToMap(ps[..|ps| - 1])[ps[|ps| - 1].key := ps[|ps| - 1].value]
  }

  function ToScores(ms: seq<Scored>): map<bytes, bytes> {
    if ms == [] then map[] else ToScores(ms[..|ms| - 1])[ms[|ms| - 1].member := ms[|ms| - 1].score]
  }

  function ToEntry(e: RawEntry): Entry {
    Entry(e.id, ToMap(e.fields))
  }

  function ToEntries(es: seq<RawEntry>): (r: seq<Entry>)
    ensures |r| == |es| && forall i :: 0 <= i < |es| ==> r[i] == ToEntry(es[i])
  {
    seq(|es|, i requires 0 <= i < |es| => ToEntry(es[i]))
  }

  function ToValue(raw: Raw): Value {
    match raw
    case RawStr(t) => Str(t)
    case RawList(xs) => List(xs)
    case RawSet(ms) => Set(set m | m in ms)
    case RawHash(ps) => Hash(ToMap(ps))
    case RawZSet(ms) => ZSet(ToScores(ms))
    case RawLog(es, lastId, groups) => Log(ToEntries(es), lastId, groups)
  }

  // ----- Writing -----

  const MARKER: bytes := [95, 95, 70, 69, 82, 82, 79, 85, 83, 95, 83, 84, 82, 69, 65, 77, 95, 77, 65, 82, 75, 69, 82, 95, 95]

  const OP_EOF: byte := 0xFF
  const OP_SELECT: byte := 0xFE
  const OP_EXPIRE_S: byte := 0xFD
  const OP_EXPIRE_MS: byte := 0xFC
  const OP_RESIZE: byte := 0xFB
  const OP_AUX: byte := 0xFA
  const T_STRING: byte := 0
  const T_LIST: byte := 1
  const T_SET: byte := 2
  const T_ZSET: byte := 3
  const T_HASH: byte := 4
  const T_ZSET2: byte := 5

  /** Streams travel as lists that start with a marker. */
  function TypeOf(raw: Raw): byte {
    match raw
    case RawStr(_) => T_STRING
    case RawList(_) => T_LIST
    case RawSet(_) => T_SET
    case RawHash(_) => T_HASH
    case RawZSet(_) => T_ZSET
    case RawLog(_, _, _) => T_LIST
  }

  /** How many strings the entries take: id, field count, and two for each field. */
  function ItemCount(es: seq<RawEntry>): nat {
    if es == [] then 0 else 2 + 2 * |es[0].fields| + ItemCount(es[1..])
  }

  function EncodeEntry(e: RawEntry): bytes {
    EncodeString(Text(e.id)) + EncodeString(Digits(|e.fields|)) + EncodePairs(e.fields)
  }

  function EncodeEntries(es: seq<RawEntry>): bytes {
    if es == [] then [] else EncodeEntry(es[0]) + EncodeEntries(es[1..])
  }

  function EncodeBody(raw: Raw): bytes {
    match raw
    case RawStr(t) => EncodeString(t)
    case RawList(xs) => EncodeLength(|xs|) + EncodeStrings(xs)
    case RawSet(ms) => EncodeLength(|ms|) + EncodeStrings(ms)
    case RawHash(ps) => EncodeLength(|ps|) + EncodePairs(ps)
    case RawZSet(ms) => EncodeLength(|ms|) + EncodeScored(ms)
    case RawLog(es, _, _) => EncodeLog(es)
  }

  function EncodeLog(es: seq<RawEntry>): bytes {
    EncodeLength(1 + ItemCount(es)) + EncodeString(MARKER) + EncodeEntries(es)
  }

  datatype Record = Record(key: Key, raw: Raw, expiry: Option<nat>)

  function EncodeRecord(r: Record): bytes {
    (if r.expiry.Some? then [OP_EXPIRE_MS] + LittleEndian(r.expiry.value, 8) else [])
    + ([TypeOf(r.raw)] + (EncodeString(r.key) + EncodeBody(r.raw)))
  }

  function EncodeRecords(rs: seq<Record>): bytes {
    if rs == [] then [] else EncodeRecord(rs[0]) + EncodeRecords(rs[1..])
  }

  /** One database: its number, the size hints, its records. */
  datatype Section = Section(db: nat, hint1: nat, hint2: nat, records: seq<Record>)

  function EncodeSection(s: Section): bytes {
    [OP_SELECT] + EncodeLength(s.db) + ([OP_RESIZE] + EncodeLength(s.hint1) + EncodeLength(s.hint2)) + EncodeRecords(s.records)
  }

  function EncodeSections(ss: seq<Section>): bytes {
    if ss == [] then [] else EncodeSection(ss[0]) + EncodeSections(ss[1..])
  }

  function EncodeAux(ps: seq<Pair>): bytes {
    if ps == [] then [] else [OP_AUX] + EncodeString(ps[0].key) + EncodeString(ps[0].value) + EncodeAux(ps[1..])
  }

  /** `REDIS` and the version, `0009`. */
  const HEADER: bytes := [82, 69, 68, 73, 83, 48, 48, 48, 57]

  /** A whole snapshot.  The file writer and the replication encoder differ in the auxiliary
      fields, in the second size hint and in the checksum. */
  function EncodeSnapshot(aux: seq<Pair>, ss: seq<Section>, checksum: nat): bytes {
    HEADER + (EncodeAux(aux) + (EncodeSections(ss) + ([OP_EOF] + LittleEndian(checksum, 8))))
  }

  // ----- The engine operations that loading uses -----

  function Rpush(e: Engine, slot: Slot, x: bytes): Option<Engine> {
    if slot !in e then Some(e[slot := Stored(List([x]), None)])
    else if e[slot].value.List? then Some(e[slot := e[slot].(value := List(e[slot].value.items + [x]))])
    else None
  }

  function RpushAll(e: Engine, slot: Slot, xs: seq<bytes>): Option<Engine>
    decreases |xs|
  {
    if xs == [] then Some(e)
    else match Rpush(e, slot, xs[0])
      case None => None
      case Some(e') => RpushAll(e', slot, xs[1..])
  }

  function Zadd(e: Engine, slot: Slot, m: Scored): Option<Engine> {
    if slot !in e then Some(e[slot := Stored(ZSet(map[m.member := m.score]), None)])
    else if e[slot].value.ZSet? then Some(e[slot := e[slot].(value := ZSet(e[slot].value.scores[m.member := m.score]))])
    else None
  }

  function ZaddAll(e: Engine, slot: Slot, ms: seq<Scored>): Option<Engine>
    decreases |ms|
  {
    if ms == [] then Some(e)
    else match Zadd(e, slot, ms[0])
      case None => None
      case Some(e') => ZaddAll(e', slot, ms[1..])
  }

  function Sadd(e: Engine, slot: Slot, ms: seq<bytes>): Option<Engine> {
    var added := set m | m in ms;
    if slot !in e then Some(e[slot := Stored(Set(added), None)])
    else if e[slot].value.Set? then Some(e[slot := e[slot].(value := Set(e[slot].value.members + added))])
    else None
  }

  function Hset(e: Engine, slot: Slot, ps: seq<Pair>): Option<Engine> {
    if slot !in e then Some(e[slot := Stored(Hash(ToMap(ps)), None)])
    else if e[slot].value.Hash? then Some(e[slot := e[slot].(value := Hash(e[slot].value.fields + ToMap(ps)))])
    else None
  }

  /** Adds a stream entry; an id that is not above the last one or a value of another type is passed
      over. */
  function Xadd(e: Engine, slot: Slot, id: Id, fields: map<bytes, bytes>): Engine {
    if slot !in e then (if id > 0 then e[slot := Stored(Log([Entry(id, fields)], id, {}), None)] else e)
    else if e[slot].value.Log? && id > e[slot].value.lastId then
      var v := e[slot].value;
      e[slot := e[slot].(value := Log(v.entries + [Entry(id, fields)], id, v.groups))]
    else e
  }

  function XaddAll(e: Engine, slot: Slot, es: seq<RawEntry>): Engine
    decreases |es|
  {
    if es == [] then e else XaddAll(Xadd(e, slot, es[0].id, ToMap(es[0].fields)), slot, es[1..])
  }

  function Expire(e: Engine, slot: Slot, expiry: Option<nat>): Engine {
    if expiry.Some? && slot in e then e[slot := e[slot].(expiry := expiry)] else e
  }

  // ----- Loading -----

  /** The entries of a stream that was written as a list, `remaining` strings of it.  An entry
      that cannot be complete ends the loop and leaves its strings unread. */
  function ReadEntries(input: bytes, remaining: nat): (r: Read<seq<RawEntry>>)
    ensures r.Ok? ==> |r.rest| <= |input|
    decreases remaining
  {
    if remaining <= 2 then Ok([], input)
    else
      match ReadString(input)
      case Err => Err
      case Ok(idText, rest) =>
        match ReadString(rest)
        case Err => Err
        case Ok(countText, rest') =>
          var count := if ParseU64(countText).Some? then ParseU64(countText).value else 0;
          if 2 * count > remaining - 2 then Ok([], rest')
          else
            match ReadPairs(rest', count)
            case Err => Err
            case Ok(ps, rest'') =>
              match ReadEntries(rest'', remaining - 2 - 2 * count)
              case Err => Err
              case Ok(es, final) =>
                match FromText(idText)
                case None => Ok(es, final)
                case Some(id) => Ok([RawEntry(id, ps)] + es, final)
  }

  /** A record after its type byte.  `expiry` is what is left of the expiry time once it has been
      compared with the clock. */
  function ReadRecord(input: bytes, e: Engine, db: nat, kind: byte, expiry: Option<nat>): (r: Read<Engine>)
    ensures r.Ok? ==> |r.rest| <= |input|
  {
    match ReadString(input)
    case Err => Err
    case Ok(key, rest) =>
      var slot := Slot(db, key);
      if kind == T_STRING then
        match ReadString(rest)
        case Err => Err
        case Ok(v, final) => Ok(e[slot := Stored(Str(v), expiry)], final)
      else
        match ReadLength(rest)
        case Err => Err
        case Ok(n, rest') => ReadAggregate(rest', e, slot, kind, n, expiry)
  }

  function ReadAggregate(input: bytes, e: Engine, slot: Slot, kind: byte, n: nat, expiry: Option<nat>): (r: Read<Engine>)
    ensures r.Ok? ==> |r.rest| <= |input|
  {
    if kind == T_ZSET || kind == T_ZSET2 then
      match ReadScored(input, n)
      case Err => Err
      case Ok(ms, final) => Finish(ZaddAll(e, slot, ms), slot, expiry, final)
    else if kind == T_LIST then ReadList(input, e, slot, n, expiry)
    else if kind == T_SET then
      match ReadStrings(input, n)
      case Err => Err
      case Ok(ms, final) => Finish(Sadd(e, slot, ms), slot, expiry, final)
    else if kind == T_HASH then
      match ReadPairs(input, n)
      case Err => Err
      case Ok(ps, final) => Finish(Hset(e, slot, ps), slot, expiry, final)
    else Err
  }

  function Finish(e: Option<Engine>, slot: Slot, expiry: Option<nat>, final: bytes): Read<Engine> {
    match e
    case None => Err
    case Some(e') => Ok(Expire(e', slot, expiry), final)
  }

  /** A list, or a stream in disguise. */
  function ReadList(input: bytes, e: Engine, slot: Slot, n: nat, expiry: Option<nat>): (r: Read<Engine>)
    ensures r.Ok? ==> |r.rest| <= |input|
  {
    if n == 0 then Ok(Expire(e, slot, expiry), input)
    else
      match ReadString(input)
      case Err => Err
      case Ok(first, rest) =>
        if first == MARKER then
          match ReadEntries(rest, n - 1)
          case Err => Err
          case Ok(es, final) => Ok(Expire(XaddAll(e, slot, es), slot, expiry), final)
        else
          match ReadStrings(rest, n - 1)
          case Err => Err
          case Ok(xs, final) => Finish(RpushAll(e, slot, [first] + xs), slot, expiry, final)
  }

  /** An expiry time that has passed is forgotten, and the key stays for good. */
  function StillAhead(ms: nat, now: nat): Option<nat> {
    if ms > now then Some(ms) else None
  }

  /** The loop over opcodes. */
  function LoadLoop(input: bytes, e: Engine, db: nat, now: nat): Read<Engine>
    decreases |input|
  {
    match ReadByte(input)
    case Err => Err
    case Ok(op, rest) =>
      if op == OP_EOF then
        match ReadU64(rest)
        case Err => Err
        case Ok(_, final) => Ok(e, final)
      else
        match LoadItem(rest, e, db, op, now)
        case Err => Err
        case Ok((e', db'), rest') => LoadLoop(rest', e', db', now)
  }

  /** One item: a database selector, a hint, an auxiliary field or a record. */
  function LoadItem(rest: bytes, e: Engine, db: nat, op: byte, now: nat): (r: Read<(Engine, nat)>)
    ensures r.Ok? ==> |r.rest| <= |rest|
  {
    if op == OP_SELECT then
      match ReadLength(rest)
      case Err => Err
      case Ok(n, rest') => Ok((e, n), rest')
    else if op == OP_RESIZE then
      match ReadLength(rest)
      case Err => Err
      case Ok(_, rest') =>
        match ReadLength(rest')
        case Err => Err
        case Ok(_, rest'') => Ok((e, db), rest'')
    else if op == OP_AUX then
      match ReadString(rest)
      case Err => Err
      case Ok(_, rest') =>
        match ReadString(rest')
        case Err => Err
        case Ok(_, rest'') => Ok((e, db), rest'')
    else if op == OP_EXPIRE_MS then
      match ReadU64(rest)
      case Err => Err
      case Ok(ms, rest') => LoadExpiring(rest', e, db, ms, now)
    else if op == OP_EXPIRE_S then
      match ReadExact(rest, 4)
      case Err => Err
      case Ok(s, rest') => LoadExpiring(rest', e, db, FromLittleEndian(s) * 1000, now)
    else
      match ReadRecord(rest, e, db, op, None)
      case Err => Err
      case Ok(e', rest') => Ok((e', db), rest')
  }

  function LoadExpiring(input: bytes, e: Engine, db: nat, ms: nat, now: nat): (r: Read<(Engine, nat)>)
    ensures r.Ok? ==> |r.rest| <= |input|
  {
    match ReadByte(input)
    case Err => Err
    case Ok(kind, rest) =>
      match ReadRecord(rest, e, db, kind, StillAhead(ms, now))
      case Err => Err
      case Ok(e', rest') => Ok((e', db), rest')
  }

  /** Loading a snapshot into an engine at a given time.  The version must be a number. */
  function Load(input: bytes, e: Engine, now: nat): Read<Engine> {
    match ReadExact(input, 9)
    case Err => Err
    case Ok(h, rest) =>
      if h[..5] != HEADER[..5] || ParseU64(h[5..]).None? then Err
      else LoadLoop(rest, e, 0, now)
  }

  // ----- What survives -----

  /** Entries that can be written: everything in range. */
  predicate FitEntry(e: RawEntry) {
    0 < e.id <= MAX_ID && |e.fields| <= U64_MAX && ShortPairs(e.fields)
  }

  /** An entry without fields is not read back if it is the last one. */
  predicate LastHasField(es: seq<RawEntry>) {
    es != [] ==> es[|es| - 1].fields != []
  }

  predicate FitEntries(es: seq<RawEntry>) {
    && (forall i :: 0 <= i < |es| ==> FitEntry(es[i]))
    && (forall i, j :: 0 <= i < j < |es| ==> es[i].id < es[j].id)
  }

  /** Values whose bytes are read as they were meant: lengths within 32 bits, no list that looks like
      a stream, no stream whose last entry has no field. */
  predicate Fit(raw: Raw) {
    match raw
    case RawStr(t) => |t| < U32
    case RawList(xs) => (xs != [] ==> xs[0] != MARKER) && |xs| < U32 && Short(xs)
    case RawSet(ms) => |ms| < U32 && Short(ms)
    case RawHash(ps) => |ps| < U32 && ShortPairs(ps)
    case RawZSet(ms) => |ms| < U32 && ShortScored(ms)
    case RawLog(es, _, _) => 1 + ItemCount(es) < U32 && FitEntries(es) && LastHasField(es)
  }

  /** What becomes of a value: an empty list, sorted set or stream is gone, and a stream has the id of
      its newest entry as its last one and no groups. */
  function Restored(v: Value): Option<Value> {
    match v
    case List(xs) => if xs == [] then None else Some(v)
    case ZSet(m) => if m == map[] then None else Some(v)
    case Log(es, _, _) => if es == [] then None else Some(Log(es, es[|es| - 1].id, {}))
    case _ => Some(v)
  }

  function Place(e: Engine, slot: Slot, v: Option<Value>, expiry: Option<nat>): Engine {
    if v.Some? then e[slot := Stored(v.value, expiry)] else e
  }

  lemma {:induction false} RpushAllIs(e: Engine, slot: Slot, done: seq<bytes>, xs: seq<bytes>)
    requires slot in e && e[slot] == Stored(List(done), None)
    ensures RpushAll(e, slot, xs) == Some(e[slot := Stored(List(done + xs), None)])
    decreases |xs|
  {
    if xs == [] {
      assert done + xs == done;
      assert e[slot := Stored(List(done), None)] == e;
    } else {
      var e' := e[slot := Stored(List(done + [xs[0]]), None)];
      RpushAllIs(e', slot, done + [xs[0]], xs[1..]);
      assert done + [xs[0]] + xs[1..] == done + xs;
      assert e'[slot := Stored(List(done + xs), None)] == e[slot := Stored(List(done + xs), None)];
    }
  }

  lemma {:induction false} ZaddAllIs(e: Engine, slot: Slot, done: seq<Scored>, ms: seq<Scored>)
    requires slot in e && e[slot] == Stored(ZSet(ToScores(done)), None)
    ensures ZaddAll(e, slot, ms) == Some(e[slot := Stored(ZSet(ToScores(done + ms)), None)])
    decreases |ms|
  {
    if ms == [] {
      assert done + ms == done;
      assert e[slot := Stored(ZSet(ToScores(done)), None)] == e;
    } else {
      var more := done + [ms[0]];
      assert more[..|done|] == done;
      var e' := e[slot := Stored(ZSet(ToScores(more)), None)];
      ZaddAllIs(e', slot, more, ms[1..]);
      assert more + ms[1..] == done + ms;
      assert e'[slot := Stored(ZSet(ToScores(done + ms)), None)] == e[slot := Stored(ZSet(ToScores(done + ms)), None)];
    }
  }

  /** The stream that loading entries builds. */
  function Rebuilt(es: seq<RawEntry>): Value
    requires es != []
  {
    Log(ToEntries(es), es[|es| - 1].id, {})
  }

  lemma {:induction false} XaddAllIs(e: Engine, slot: Slot, done: seq<RawEntry>, es: seq<RawEntry>)
    requires slot in e && done != [] && FitEntries(done + es) && e[slot] == Stored(Rebuilt(done), None)
    ensures XaddAll(e, slot, es) == e[slot := Stored(Rebuilt(done + es), None)]
    decreases |es|
  {
    if es == [] {
      assert done + es == done;
      assert e[slot := Stored(Rebuilt(done), None)] == e;
    } else {
      var more := done + [es[0]];
      assert more + es[1..] == done + es;
      assert (done + es)[|done| - 1].id < (done + es)[|done|].id;
      assert ToEntries(more) == ToEntries(done) + [ToEntry(es[0])];
      var e' := e[slot := Stored(Rebuilt(more), None)];
      XaddAllIs(e', slot, more, es[1..]);
      assert e'[slot := Stored(Rebuilt(done + es), None)] == e[slot := Stored(Rebuilt(done + es), None)];
    }
  }

  lemma EntriesCons(es: seq<RawEntry>)
    requires es != []
    ensures EncodeEntries(es) == EncodeEntry(es[0]) + EncodeEntries(es[1..])
    ensures ItemCount(es) == 2 + 2 * |es[0].fields| + ItemCount(es[1..])
  {
  }

  lemma ReadEntriesCons(input: bytes, x: RawEntry, mid: bytes, mid': bytes, mid'': bytes, n: nat, es: seq<RawEntry>, rest: bytes)
    requires x.fields != [] || n > 0
    requires ReadString(input) == Ok(Text(x.id), mid) && FromText(Text(x.id)) == Some(x.id)
    requires ReadString(mid) == Ok(Digits(|x.fields|), mid') && ParseU64(Digits(|x.fields|)) == Some(|x.fields|)
    requires ReadPairs(mid', |x.fields|) == Ok(x.fields, mid'') && ReadEntries(mid'', n) == Ok(es, rest)
    ensures ReadEntries(input, 2 + 2 * |x.fields| + n) == Ok([x] + es, rest)
  {
    hide ReadString, Text, FromText, Digits, ParseU64, ReadPairs;
  }

  lemma EntryRoundTrip(x: RawEntry, tail: bytes, n: nat, es: seq<RawEntry>, rest: bytes)
    requires FitEntry(x) && (x.fields != [] || n > 0) && ReadEntries(tail, n) == Ok(es, rest)
    ensures ReadEntries(EncodeEntry(x) + tail, 2 + 2 * |x.fields| + n) == Ok([x] + es, rest)
  {
    hide EncodeString, ReadString, EncodePairs, ReadPairs, Text, FromText, Digits, ParseU64, ReadEntries;
    var id, count, fields := EncodeString(Text(x.id)), EncodeString(Digits(|x.fields|)), EncodePairs(x.fields);
    PairsRoundTrip(x.fields, tail);
    ShortNumbers(x);
    var mid' := fields + tail;
    StringRoundTrip(Digits(|x.fields|), mid');
    var mid := count + mid';
    StringRoundTrip(Text(x.id), mid);
    ParseShownU64(|x.fields|);
    TextRoundTrip(x.id);
    ReadEntriesCons(id + mid, x, mid, mid', tail, n, es, rest);
    Regroup(id, count, fields, tail);
  }

  lemma Regroup(a: bytes, b: bytes, c: bytes, d: bytes)
    ensures a + b + c + d == a + (b + (c + d))
  {
    Associative(a + b, c, d);
    Associative(a, b, c + d);
  }

  lemma NoEntries(rest: bytes)
    ensures ReadEntries(EncodeEntries([]) + rest, ItemCount([])) == Ok([], rest)
  {
    assert [] + rest == rest;
  }

  lemma ItemsOfSome(es: seq<RawEntry>)
    requires es != []
    ensures ItemCount(es) > 0
  {
  }

  /** How much of the entries is read, and what is left: all of them if the last one has a field,
      otherwise all but the last one, whose strings stay in the input. */
  function Readable(es: seq<RawEntry>): seq<RawEntry> {
    if LastHasField(es) then es else es[..|es| - 1]
  }

  function Unreadable(es: seq<RawEntry>): bytes {
    if LastHasField(es) then [] else EncodeEntry(es[|es| - 1])
  }

  lemma FieldlessAlone(x: RawEntry, rest: bytes)
    requires x.fields == []
    ensures ReadEntries(EncodeEntries([x]) + rest, ItemCount([x])) == Ok([], EncodeEntry(x) + rest)
  {
    hide EncodeString;
    EntriesCons([x]);
    assert [x][1..] == [] && EncodeEntry(x) + [] == EncodeEntry(x);
  }

  lemma ReadableCons(es: seq<RawEntry>)
    requires |es| > 1
    ensures Readable(es) == [es[0]] + Readable(es[1..]) && Unreadable(es) == Unreadable(es[1..])
  {
    hide EncodeEntry;
    assert es[1..][|es| - 2] == es[|es| - 1];
    assert es == [es[0]] + es[1..];
    assert es[..|es| - 1] == [es[0]] + es[1..][..|es| - 2];
  }

  /** What is read of a stream that was written, for every stream whose ids and lengths are in range. */
  lemma {:induction false} EntriesRead(es: seq<RawEntry>, rest: bytes)
    requires forall i :: 0 <= i < |es| ==> FitEntry(es[i])
    ensures ReadEntries(EncodeEntries(es) + rest, ItemCount(es)) == Ok(Readable(es), Unreadable(es) + rest)
    decreases |es|
  {
    hide EncodeEntry, EncodeEntries, ReadEntries, ItemCount, FitEntry;
    if es == [] {
      NoEntries(rest);
      assert [] + rest == rest;
    } else if |es| == 1 && es[0].fields == [] {
      assert es == [es[0]] && es[..0] == [];
      FieldlessAlone(es[0], rest);
    } else {
      var tail := EncodeEntries(es[1..]) + rest;
      EntriesRead(es[1..], rest);
      if |es| > 1 {
        ItemsOfSome(es[1..]);
        ReadableCons(es);
      } else {
        assert es == [es[0]] && es[1..] == [] && [es[0]] + [] == es;
      }
      EntryRoundTrip(es[0], tail, ItemCount(es[1..]), Readable(es[1..]), Unreadable(es[1..]) + rest);
      EntriesCons(es);
      Associative(EncodeEntry(es[0]), EncodeEntries(es[1..]), rest);
    }
  }

  /** The entries of a stream are read back, and nothing is left over, if and only if the stream is
      empty or its last entry has a field. */
  lemma EntriesRoundTripIff(es: seq<RawEntry>, rest: bytes)
    requires forall i :: 0 <= i < |es| ==> FitEntry(es[i])
    ensures ReadEntries(EncodeEntries(es) + rest, ItemCount(es)) == Ok(es, rest) <==> LastHasField(es)
  {
    hide EncodeEntries, ReadEntries, ItemCount, FitEntry, EncodeEntry;
    EntriesRead(es, rest);
    assert [] + rest == rest;
  }

  lemma ShortNumbers(x: RawEntry)
    requires FitEntry(x)
    ensures |Text(x.id)| < U32 && |Digits(|x.fields|)| < U32
  {
    Repack(x.id);
    DigitsLength(Millis(x.id), 20);
    DigitsLength(Seq(x.id), 20);
    DigitsLength(|x.fields|, 20);
  }

  function Pow10(k: nat): nat {
    if k == 0 then 1 else 10 * Pow10(k - 1)
  }

  lemma {:induction false} DigitsShort(n: nat, k: nat)
    requires k > 0 && n < Pow10(k)
    ensures |Digits(n)| <= k
  {
    if n >= 10 {
      DigitsShort(n / 10, k - 1);
    }
  }

  /** Twenty digits are enough for 64 bits. */
  lemma DigitsLength(n: nat, k: nat)
    requires n <= U64_MAX && k == 20
    ensures |Digits(n)| <= k
  {
    assert Pow10(5) == 100000;
    assert Pow10(10) == 10000000000;
    assert Pow10(15) == 1000000000000000;
    assert Pow10(20) == 100000000000000000000;
    DigitsShort(n, 20);
  }

  /** A value is read back into a slot that was free, as far as it is restored. */
  lemma BodyLoads(raw: Raw, e: Engine, slot: Slot, expiry: Option<nat>, rest: bytes)
    requires Fit(raw) && !raw.RawStr? && slot !in e
    ensures match ReadLength(EncodeBody(raw) + rest)
      case Err => false
      case Ok(n, tail) =>
        ReadAggregate(tail, e, slot, TypeOf(raw), n, expiry) == Ok(Place(e, slot, Restored(ToValue(raw)), expiry), rest)
  {
    hide EncodeLength, ReadLength, EncodeStrings, ReadStrings, EncodePairs, ReadPairs, EncodeScored, ReadScored;
    match raw
    case RawList(xs) => ListLoads(xs, e, slot, expiry, rest);
    case RawLog(es, _, _) => LogLoads(raw, e, slot, expiry, rest);
    case RawSet(ms) =>
      LengthRoundTrip(|ms|, EncodeStrings(ms) + rest);
      assert EncodeBody(raw) + rest == EncodeLength(|ms|) + (EncodeStrings(ms) + rest);
      StringsRoundTrip(ms, rest);
      SettleExpiry(e, slot, ToValue(raw), expiry);
    case RawHash(ps) =>
      LengthRoundTrip(|ps|, EncodePairs(ps) + rest);
      assert EncodeBody(raw) + rest == EncodeLength(|ps|) + (EncodePairs(ps) + rest);
      PairsRoundTrip(ps, rest);
      SettleExpiry(e, slot, ToValue(raw), expiry);
    case RawZSet(ms) =>
      LengthRoundTrip(|ms|, EncodeScored(ms) + rest);
      assert EncodeBody(raw) + rest == EncodeLength(|ms|) + (EncodeScored(ms) + rest);
      ScoredRoundTrip(ms, rest);
      ScoresNone(ms);
      if ms != [] {
        ZaddFresh(e, slot, ms);
        SettleExpiry(e, slot, ToValue(raw), expiry);
      } else {
        NothingToExpire(e, slot, expiry);
      }
  }

  lemma ScoresNone(ms: seq<Scored>)
    ensures ToScores(ms) == map[] <==> ms == []
  {
    if ms != [] { assert ms[|ms| - 1].member in ToScores(ms); }
  }

  lemma NothingToExpire(e: Engine, slot: Slot, expiry: Option<nat>)
    requires slot !in e
    ensures Expire(e, slot, expiry) == e
  {
  }

  lemma SettleExpiry(e: Engine, slot: Slot, v: Value, expiry: Option<nat>)
    ensures Expire(e[slot := Stored(v, None)], slot, expiry) == e[slot := Stored(v, expiry)]
  {
  }

  lemma ZaddFresh(e: Engine, slot: Slot, ms: seq<Scored>)
    requires slot !in e && ms != []
    ensures ZaddAll(e, slot, ms) == Some(e[slot := Stored(ZSet(ToScores(ms)), None)])
  {
    var one := [ms[0]];
    assert one[..0] == [] && ToScores(one) == map[ms[0].member := ms[0].score];
    var e' := e[slot := Stored(ZSet(ToScores(one)), None)];
    ZaddAllIs(e', slot, one, ms[1..]);
    assert one + ms[1..] == ms;
    assert e'[slot := Stored(ZSet(ToScores(ms)), None)] == e[slot := Stored(ZSet(ToScores(ms)), None)];
  }

  lemma ListLoads(xs: seq<bytes>, e: Engine, slot: Slot, expiry: Option<nat>, rest: bytes)
    requires Fit(RawList(xs)) && slot !in e
    ensures var tail := EncodeStrings(xs) + rest;
      && ReadLength(EncodeBody(RawList(xs)) + rest) == Ok(|xs|, tail)
      && ReadList(tail, e, slot, |xs|, expiry) == Ok(Place(e, slot, Restored(List(xs)), expiry), rest)
  {
    hide EncodeLength, ReadLength, EncodeStrings, ReadList;
    LengthRoundTrip(|xs|, EncodeStrings(xs) + rest);
    Associative(EncodeLength(|xs|), EncodeStrings(xs), rest);
    if xs == [] {
      EmptyListLoads(e, slot, expiry, rest);
    } else {
      ItemsLoad(xs, e, slot, expiry, rest);
    }
  }

  lemma EmptyListLoads(e: Engine, slot: Slot, expiry: Option<nat>, rest: bytes)
    requires slot !in e
    ensures ReadList(EncodeStrings([]) + rest, e, slot, 0, expiry) == Ok(e, rest)
  {
    assert [] + rest == rest;
  }

  lemma ItemsRead(xs: seq<bytes>, rest: bytes)
    requires xs != [] && Short(xs)
    ensures var more := EncodeStrings(xs[1..]) + rest;
      ReadString(EncodeStrings(xs) + rest) == Ok(xs[0], more) && ReadStrings(more, |xs| - 1) == Ok(xs[1..], rest)
  {
    hide EncodeString, ReadString, EncodeStrings, ReadStrings;
    StringsCons(xs);
    Associative(EncodeString(xs[0]), EncodeStrings(xs[1..]), rest);
    StringRoundTrip(xs[0], EncodeStrings(xs[1..]) + rest);
    StringsRoundTrip(xs[1..], rest);
  }

  lemma ItemsLoad(xs: seq<bytes>, e: Engine, slot: Slot, expiry: Option<nat>, rest: bytes)
    requires Fit(RawList(xs)) && xs != [] && slot !in e
    ensures ReadList(EncodeStrings(xs) + rest, e, slot, |xs|, expiry) == Ok(e[slot := Stored(List(xs), expiry)], rest)
  {
    ItemsRead(xs, rest);
    HeadAndTail(xs);
    hide EncodeStrings, ReadString, ReadStrings, RpushAll, ReadList, Expire;
    PlainList(EncodeStrings(xs) + rest, e, slot, |xs|, expiry, EncodeStrings(xs[1..]) + rest);
    RpushFresh(e, slot, xs);
    SettleExpiry(e, slot, List(xs), expiry);
  }

  lemma PlainList(input: bytes, e: Engine, slot: Slot, n: nat, expiry: Option<nat>, more: bytes)
    requires n > 0 && ReadString(input).Ok? && ReadString(input).value != MARKER && more == ReadString(input).rest
    requires ReadStrings(more, n - 1).Ok?
    ensures ReadList(input, e, slot, n, expiry) ==
      Finish(RpushAll(e, slot, [ReadString(input).value] + ReadStrings(more, n - 1).value), slot, expiry, ReadStrings(more, n - 1).rest)
  {
    hide ReadString, ReadStrings, RpushAll, Expire;
  }

  lemma RpushFresh(e: Engine, slot: Slot, xs: seq<bytes>)
    requires slot !in e && xs != []
    ensures RpushAll(e, slot, xs) == Some(e[slot := Stored(List(xs), None)])
  {
    var e' := e[slot := Stored(List([xs[0]]), None)];
    RpushAllIs(e', slot, [xs[0]], xs[1..]);
    assert [xs[0]] + xs[1..] == xs;
    assert e'[slot := Stored(List(xs), None)] == e[slot := Stored(List(xs), None)];
  }

  lemma LogLoads(raw: Raw, e: Engine, slot: Slot, expiry: Option<nat>, rest: bytes)
    requires raw.RawLog? && Fit(raw) && slot !in e
    ensures var es := raw.entries;
      var tail := EncodeString(MARKER) + (EncodeEntries(es) + rest);
      && ReadLength(EncodeBody(raw) + rest) == Ok(1 + ItemCount(es), tail)
      && ReadList(tail, e, slot, 1 + ItemCount(es), expiry) == Ok(Place(e, slot, Restored(ToValue(raw)), expiry), rest)
  {
    hide EncodeLength, ReadLength, EncodeString, ReadString, EncodeEntries, ReadEntries, ItemCount, ReadStrings;
    var es := raw.entries;
    var tail := EncodeString(MARKER) + (EncodeEntries(es) + rest);
    LengthRoundTrip(1 + ItemCount(es), tail);
    assert EncodeBody(raw) + rest == EncodeLength(1 + ItemCount(es)) + tail;
    StringRoundTrip(MARKER, EncodeEntries(es) + rest);
    EntriesRoundTripIff(es, rest);
    if es == [] {
      NothingToExpire(e, slot, expiry);
    } else {
      XaddFresh(e, slot, es);
      SettleExpiry(e, slot, Rebuilt(es), expiry);
    }
  }

  lemma XaddFresh(e: Engine, slot: Slot, es: seq<RawEntry>)
    requires slot !in e && es != [] && FitEntries(es)
    ensures XaddAll(e, slot, es) == e[slot := Stored(Rebuilt(es), None)]
  {
    var one := [es[0]];
    assert one + es[1..] == es && ToEntries(one) == [ToEntry(es[0])];
    var e' := e[slot := Stored(Rebuilt(one), None)];
    XaddAllIs(e', slot, one, es[1..]);
    assert e'[slot := Stored(Rebuilt(es), None)] == e[slot := Stored(Rebuilt(es), None)];
  }

  predicate FitRecord(r: Record) {
    |r.key| < U32 && Fit(r.raw) && (r.expiry.Some? ==> r.expiry.value < U64)
  }

  /** What a record becomes when it is loaded at a given time. */
  function Aged(expiry: Option<nat>, now: nat): Option<nat> {
    if expiry.Some? then StillAhead(expiry.value, now) else None
  }

  lemma ReadRecordLoads(r: Record, e: Engine, db: nat, expiry: Option<nat>, rest: bytes)
    requires |r.key| < U32 && Fit(r.raw) && Slot(db, r.key) !in e
    ensures ReadRecord(EncodeString(r.key) + EncodeBody(r.raw) + rest, e, db, TypeOf(r.raw), expiry)
      == Ok(Place(e, Slot(db, r.key), Restored(ToValue(r.raw)), expiry), rest)
  {
    hide EncodeString, ReadString, EncodeBody, ReadLength, ReadAggregate;
    var body := EncodeBody(r.raw);
    StringRoundTrip(r.key, body + rest);
    assert EncodeString(r.key) + body + rest == EncodeString(r.key) + (body + rest);
    if r.raw.RawStr? {
      StringBody(r.raw.text);
      StringRoundTrip(r.raw.text, rest);
    } else {
      BodyLoads(r.raw, e, Slot(db, r.key), expiry, rest);
    }
  }

  lemma StringBody(t: bytes)
    ensures EncodeBody(RawStr(t)) == EncodeString(t)
  {
  }

  /** One record, in the loop. */
  lemma RecordLoads(r: Record, e: Engine, db: nat, rest: bytes, now: nat)
    requires FitRecord(r) && Slot(db, r.key) !in e
    ensures LoadLoop(EncodeRecord(r) + rest, e, db, now)
      == LoadLoop(rest, PutRecord(e, db, r, Some(now)), db, now)
  {
    hide EncodeString, EncodeBody, ReadRecord, ReadU64, LittleEndian, ReadLength, ReadString, Fit;
    var body := EncodeString(r.key) + EncodeBody(r.raw);
    var kind := [TypeOf(r.raw)];
    var input := EncodeRecord(r) + rest;
    ReadRecordLoads(r, e, db, Aged(r.expiry, now), rest);
    if r.expiry.None? {
      assert input == kind + (body + rest);
      assert input[1..] == body + rest;
    } else {
      var ms := LittleEndian(r.expiry.value, 8);
      ReadU64RoundTrip(r.expiry.value, kind + (body + rest));
      assert input == [OP_EXPIRE_MS] + (ms + (kind + (body + rest)));
      assert input[1..] == ms + (kind + (body + rest));
      assert (kind + (body + rest))[1..] == body + rest;
    }
  }

  /** A record put into an engine: as it is, or as it is restored when it is loaded at some time. */
  function PutRecord(e: Engine, db: nat, r: Record, now: Option<nat>): Engine {
    var slot := Slot(db, r.key);
    if now.None? then e[slot := Stored(ToValue(r.raw), r.expiry)]
    else Place(e, slot, Restored(ToValue(r.raw)), Aged(r.expiry, now.value))
  }

  /** Records put into an engine one after the other. */
  function PutRecords(e: Engine, db: nat, rs: seq<Record>, now: Option<nat>): Engine
    decreases |rs|
  {
    if rs == [] then e else PutRecords(PutRecord(e, db, rs[0], now), db, rs[1..], now)
  }

  predicate FreshRecords(e: Engine, db: nat, rs: seq<Record>) {
    && (forall i :: 0 <= i < |rs| ==> FitRecord(rs[i]) && Slot(db, rs[i].key) !in e)
    && (forall i, j :: 0 <= i < j < |rs| ==> rs[i].key != rs[j].key)
  }

  lemma {:induction false} RecordsLoad(rs: seq<Record>, e: Engine, db: nat, rest: bytes, now: nat)
    requires FreshRecords(e, db, rs)
    ensures LoadLoop(EncodeRecords(rs) + rest, e, db, now) == LoadLoop(rest, PutRecords(e, db, rs, Some(now)), db, now)
    decreases |rs|
  {
    hide LoadLoop, EncodeRecord, FitRecord, Aged, ToValue, Restored;
    if rs == [] {
      assert [] + rest == rest;
    } else {
      var r := rs[0];
      var tail := EncodeRecords(rs[1..]) + rest;
      RecordLoads(r, e, db, tail, now);
      assert EncodeRecords(rs) + rest == EncodeRecord(r) + tail;
      RecordsLoad(rs[1..], PutRecord(e, db, r, Some(now)), db, rest, now);
    }
  }

  // ----- Sections and snapshots -----

  function PutSections(e: Engine, ss: seq<Section>, now: Option<nat>): Engine
    decreases |ss|
  {
    if ss == [] then e else PutSections(PutRecords(e, ss[0].db, ss[0].records, now), ss[1..], now)
  }

  /** The engine a snapshot describes. */
  function Contents(ss: seq<Section>): Engine {
    PutSections(map[], ss, None)
  }

  predicate FitSection(s: Section) {
    && s.db < U32 && s.hint1 < U32 && s.hint2 < U32
    && (forall i :: 0 <= i < |s.records| ==> FitRecord(s.records[i]))
    && (forall i, j :: 0 <= i < j < |s.records| ==> s.records[i].key != s.records[j].key)
  }

  predicate FitSections(ss: seq<Section>) {
    && (forall i :: 0 <= i < |ss| ==> FitSection(ss[i]))
    && (forall i, j :: 0 <= i < j < |ss| ==> ss[i].db != ss[j].db)
  }

  lemma {:induction false} PutRecordsSlots(e: Engine, db: nat, rs: seq<Record>, now: Option<nat>, slot: Slot)
    requires slot in PutRecords(e, db, rs, now)
    ensures slot in e || slot.db == db
    decreases |rs|
  {
    hide ToValue, Restored;
    if rs != [] {
      PutRecordsSlots(PutRecord(e, db, rs[0], now), db, rs[1..], now, slot);
    }
  }

  /** The header of a section. */
  lemma SectionHeader(s: Section, e: Engine, db: nat, rest: bytes, now: nat)
    requires FitSection(s)
    ensures LoadLoop(EncodeSection(s) + rest, e, db, now) == LoadLoop(EncodeRecords(s.records) + rest, e, s.db, now)
  {
    hide EncodeLength, ReadLength, EncodeRecords, ReadRecord, FitRecord, ReadU64, ReadString;
    var records := EncodeRecords(s.records) + rest;
    var hints := EncodeLength(s.hint1) + (EncodeLength(s.hint2) + records);
    var input := EncodeSection(s) + rest;
    LengthRoundTrip(s.db, [OP_RESIZE] + hints);
    LengthRoundTrip(s.hint1, EncodeLength(s.hint2) + records);
    LengthRoundTrip(s.hint2, records);
    assert input == [OP_SELECT] + (EncodeLength(s.db) + ([OP_RESIZE] + hints));
    assert input[1..] == EncodeLength(s.db) + ([OP_RESIZE] + hints);
    assert ([OP_RESIZE] + hints)[1..] == hints;
    assert LoadLoop(input, e, db, now) == LoadLoop([OP_RESIZE] + hints, e, s.db, now);
  }

  lemma {:induction false} SectionsLoad(ss: seq<Section>, e: Engine, db: nat, rest: bytes, now: nat) returns (last: nat)
    requires FitSections(ss)
    requires forall slot :: slot in e ==> forall i :: 0 <= i < |ss| ==> ss[i].db != slot.db
    ensures LoadLoop(EncodeSections(ss) + rest, e, db, now) == LoadLoop(rest, PutSections(e, ss, Some(now)), last, now)
    decreases |ss|
  {
    hide LoadLoop, EncodeSection, PutRecords, FitRecord;
    if ss == [] {
      last := db;
      assert [] + rest == rest;
    } else {
      var s, tail := ss[0], EncodeSections(ss[1..]) + rest;
      assert EncodeSections(ss) + rest == EncodeSection(s) + tail;
      SectionHeader(s, e, db, tail, now);
      RecordsLoad(s.records, e, s.db, tail, now);
      var e' := PutRecords(e, s.db, s.records, Some(now));
      forall slot | slot in e' ensures forall i :: 0 <= i < |ss[1..]| ==> ss[1..][i].db != slot.db {
        PutRecordsSlots(e, s.db, s.records, Some(now), slot);
      }
      last := SectionsLoad(ss[1..], e', s.db, rest, now);
    }
  }

  lemma {:induction false} AuxLoad(aux: seq<Pair>, e: Engine, rest: bytes, now: nat)
    requires ShortPairs(aux)
    ensures LoadLoop(EncodeAux(aux) + rest, e, 0, now) == LoadLoop(rest, e, 0, now)
    decreases |aux|
  {
    hide EncodeString, ReadString, ReadRecord, ReadU64, ReadLength;
    if aux == [] {
      assert [] + rest == rest;
    } else {
      var tail := EncodeAux(aux[1..]) + rest;
      var input := EncodeAux(aux) + rest;
      StringRoundTrip(aux[0].value, tail);
      StringRoundTrip(aux[0].key, EncodeString(aux[0].value) + tail);
      assert input == [OP_AUX] + (EncodeString(aux[0].key) + (EncodeString(aux[0].value) + tail));
      assert input[1..] == EncodeString(aux[0].key) + (EncodeString(aux[0].value) + tail);
      AuxLoad(aux[1..], e, rest, now);
    }
  }

  /** What saving and loading makes of an engine: what is not restored is gone, and expiry times that
      have passed are dropped, but not their keys. */
  function AfterLoad(e: Engine, now: nat): Engine {
    map slot | slot in e && Restored(e[slot].value).Some? :: Stored(Restored(e[slot].value).value, Aged(e[slot].expiry, now))
  }

  lemma PutRecordLoaded(e: Engine, db: nat, r: Record, now: nat)
    requires Slot(db, r.key) !in e
    ensures PutRecord(AfterLoad(e, now), db, r, Some(now)) == AfterLoad(PutRecord(e, db, r, None), now)
  {
    hide ToValue, Restored, Aged;
  }

  lemma {:induction false} PutRecordsLoaded(e: Engine, db: nat, rs: seq<Record>, now: nat)
    requires forall i :: 0 <= i < |rs| ==> Slot(db, rs[i].key) !in e
    requires forall i, j :: 0 <= i < j < |rs| ==> rs[i].key != rs[j].key
    ensures PutRecords(AfterLoad(e, now), db, rs, Some(now)) == AfterLoad(PutRecords(e, db, rs, None), now)
    decreases |rs|
  {
    hide AfterLoad, ToValue, Restored;
    if rs != [] {
      PutRecordLoaded(e, db, rs[0], now);
      PutRecordsLoaded(PutRecord(e, db, rs[0], None), db, rs[1..], now);
    }
  }

  lemma {:induction false} PutSectionsLoaded(e: Engine, ss: seq<Section>, now: nat)
    requires FitSections(ss)
    requires forall slot :: slot in e ==> forall i :: 0 <= i < |ss| ==> ss[i].db != slot.db
    ensures PutSections(AfterLoad(e, now), ss, Some(now)) == AfterLoad(PutSections(e, ss, None), now)
    decreases |ss|
  {
    hide AfterLoad, PutRecords, FitRecord;
    if ss != [] {
      var s := ss[0];
      PutRecordsLoaded(e, s.db, s.records, now);
      var e' := PutRecords(e, s.db, s.records, None);
      forall slot | slot in e' ensures forall i :: 0 <= i < |ss[1..]| ==> ss[1..][i].db != slot.db {
        PutRecordsSlots(e, s.db, s.records, None, slot);
      }
      PutSectionsLoaded(e', ss[1..], now);
    }
  }

  /** Loading a snapshot into an empty engine gives the engine it describes, as far as that is restored
      at that time; the auxiliary fields, hints and checksum do not matter. */
  lemma SnapshotLoads(aux: seq<Pair>, ss: seq<Section>, checksum: nat, now: nat)
    requires ShortPairs(aux) && FitSections(ss)
    ensures Load(EncodeSnapshot(aux, ss, checksum), map[], now) == Ok(AfterLoad(Contents(ss), now), [])
  {
    hide EncodeAux, EncodeSections, LittleEndian, PutSections, LoadItem, ParseU64, FitSections;
    var end := [OP_EOF] + LittleEndian(checksum, 8);
    var body := EncodeAux(aux) + (EncodeSections(ss) + end);
    var input := EncodeSnapshot(aux, ss, checksum);
    assert input == HEADER + body;
    assert input[..9] == HEADER && input[9..] == body;
    VersionIsNumber();
    AuxLoad(aux, map[], EncodeSections(ss) + end, now);
    var last := SectionsLoad(ss, map[], 0, end, now);
    assert AfterLoad(map[], now) == map[];
    PutSectionsLoaded(map[], ss, now);
    var e := PutSections(map[], ss, Some(now));
    assert end[1..] == LittleEndian(checksum, 8);
    assert LittleEndian(checksum, 8)[8..] == [];
    assert LoadLoop(end, e, last, now) == Ok(e, []);
  }

  lemma VersionIsNumber()
    ensures ParseU64(HEADER[5..]).Some?
  {
    var v := HEADER[5..];
    assert v == [48, 48, 48, 57];
    assert v[..3] == [48, 48, 48] && v[..3][..2] == [48, 48] && v[..3][..2][..1] == [48];
    assert ValueOf([48]) == Some(0);
    assert ValueOf([48, 48]).Some?;
    assert ValueOf([48, 48, 48]).Some?;
  }

  /** Values that come back as they were: lists, sorted sets and streams that are not empty, streams
      without groups whose last id is that of their newest entry. */
  predicate Intact(v: Value) {
    match v
    case List(xs) => xs != []
    case ZSet(m) => m != map[]
    case Log(es, lastId, groups) => es != [] && lastId == es[|es| - 1].id && groups == {}
    case _ => true
  }

  predicate IntactStored(s: Stored, now: nat) {
    Intact(s.value) && (s.expiry.Some? ==> s.expiry.value > now)
  }

  lemma IntactIff(s: Stored, now: nat)
    ensures IntactStored(s, now) <==> Restored(s.value).Some? && Stored(Restored(s.value).value, Aged(s.expiry, now)) == s
  {
  }

  /** An engine comes back exactly if and only if every value of it is intact and every expiry time is
      still ahead. */
  lemma AfterLoadIff(e: Engine, now: nat)
    ensures AfterLoad(e, now) == e <==> forall slot :: slot in e ==> IntactStored(e[slot], now)
  {
    hide IntactStored, Restored, Aged;
    var a := AfterLoad(e, now);
    forall slot | slot in e ensures IntactStored(e[slot], now) <==> slot in a && a[slot] == e[slot] {
      IntactIff(e[slot], now);
    }
  }

  lemma SnapshotRoundTripIff(aux: seq<Pair>, ss: seq<Section>, checksum: nat, now: nat)
    requires ShortPairs(aux) && FitSections(ss)
    ensures Load(EncodeSnapshot(aux, ss, checksum), map[], now) == Ok(Contents(ss), [])
      <==> forall slot :: slot in Contents(ss) ==> IntactStored(Contents(ss)[slot], now)
  {
    SnapshotLoads(aux, ss, checksum, now);
    hide Load, EncodeSnapshot, Contents, AfterLoad;
    AfterLoadIff(Contents(ss), now);
  }

  // ----- The guards are needed -----

  lemma {:induction false} XaddAllKeepsKind(e: Engine, slot: Slot, es: seq<RawEntry>)
    requires slot in e ==> e[slot].value.Log?
    ensures slot in XaddAll(e, slot, es) ==> XaddAll(e, slot, es)[slot].value.Log?
    decreases |es|
  {
    if es != [] {
      XaddAllKeepsKind(Xadd(e, slot, es[0].id, ToMap(es[0].fields)), slot, es[1..]);
    }
  }

  /** A list is read back exactly when it is not empty and does not start with the marker of
      streams. */
  lemma ListSurvivesIff(xs: seq<bytes>, e: Engine, slot: Slot, rest: bytes)
    requires |xs| < U32 && Short(xs) && slot !in e
    ensures ReadList(EncodeStrings(xs) + rest, e, slot, |xs|, None) == Ok(e[slot := Stored(List(xs), None)], rest)
      <==> xs != [] && xs[0] != MARKER
  {
    var good := e[slot := Stored(List(xs), None)];
    assert slot in good && good[slot].value.List?;
    hide EncodeString, ReadString, EncodeStrings, ReadStrings, RpushAll, ReadEntries, XaddAll, Expire;
    if xs != [] && xs[0] != MARKER {
      ItemsLoad(xs, e, slot, None, rest);
    } else if xs != [] {
      StringsCons(xs);
      var more := EncodeStrings(xs[1..]) + rest;
      Associative(EncodeString(xs[0]), EncodeStrings(xs[1..]), rest);
      StringRoundTrip(xs[0], more);
      if ReadEntries(more, |xs| - 1).Ok? {
        XaddAllKeepsKind(e, slot, ReadEntries(more, |xs| - 1).value);
        NoExpiry(XaddAll(e, slot, ReadEntries(more, |xs| - 1).value), slot);
      }
    } else {
      NoExpiry(e, slot);
    }
  }

  lemma NoExpiry(e: Engine, slot: Slot)
    ensures Expire(e, slot, None) == e
  {
  }

  // ----- The format, byte by byte -----

  /** A snapshot begins with `REDIS0009` and ends with 255 and eight bytes of checksum. */
  lemma SnapshotBytes(aux: seq<Pair>, ss: seq<Section>, checksum: nat)
    ensures |HEADER| == 9 && forall i :: 0 <= i < 9 ==> HEADER[i] as int == "REDIS0009"[i] as int
    ensures EncodeSnapshot(aux, ss, checksum) == HEADER + (EncodeAux(aux) + (EncodeSections(ss) + ([255] + LittleEndian(checksum, 8))))
  {
  }

  /** Auxiliary fields, database selectors and size hints begin with 250, 254 and 251. */
  lemma OpcodeBytes(key: bytes, value: bytes, s: Section)
    ensures EncodeAux([Pair(key, value)]) == [250] + EncodeString(key) + EncodeString(value)
    ensures EncodeSection(s) == [254] + EncodeLength(s.db) + ([251] + EncodeLength(s.hint1) + EncodeLength(s.hint2)) + EncodeRecords(s.records)
  {
    assert [Pair(key, value)][1..] == [];
    var text := [OP_AUX] + EncodeString(key) + EncodeString(value);
    assert text + [] == text;
  }

  /** A record: 252 and the expiry time if there is one, the number of its kind, key and value. */
  lemma RecordBytes(r: Record)
    ensures var kind := match r.raw
      case RawStr(_) => 0
      case RawList(_) => 1
      case RawSet(_) => 2
      case RawZSet(_) => 3
      case RawHash(_) => 4
      case RawLog(_, _, _) => 1;
      && TypeOf(r.raw) == kind
      && EncodeRecord(r) == (if r.expiry.Some? then [252] + LittleEndian(r.expiry.value, 8) else []) + ([kind] + (EncodeString(r.key) + EncodeBody(r.raw)))
  {
  }

  /** A stream is a list that begins with this marker. */
  lemma MarkerText()
    ensures |MARKER| == 25 && forall i :: 0 <= i < 25 ==> MARKER[i] as int == "__FERROUS_STREAM_MARKER__"[i] as int
  {
  }

  /** What becomes of a value that is saved and loaded. */
  lemma RestoredIs(xs: seq<bytes>, m: map<bytes, bytes>, es: seq<Entry>, last: Id, groups: set<bytes>)
    ensures Restored(List([])) == None && Restored(ZSet(map[])) == None && Restored(Log([], last, groups)) == None
    ensures xs != [] ==> Restored(List(xs)) == Some(List(xs))
    ensures m != map[] ==> Restored(ZSet(m)) == Some(ZSet(m))
    ensures es != [] ==> Restored(Log(es, last, groups)) == Some(Log(es, es[|es| - 1].id, {}))
  {
  }
}
