/** Loading as the server does it: a reader that consumes a stream in a loop over opcodes and
    puts what it reads into the engine element by element. */
module RdbReader {
  import opened Bytes
  import opened Decimal
  import opened StreamId
  import opened RdbFormat
  import opened Rdb
  import opened RdbWriter
  import opened RdbReplica

  // ----- Reading everything first and storing it afterwards is the same as storing it on the way -----

  ghost function ThenZadd(input: bytes, e: Engine, slot: Slot, n: nat): Read<Engine> {
    match ReadScored(input, n)
    case Err => Err
    case Ok(ms, rest) => Finish(ZaddAll(e, slot, ms), slot, None, rest)
  }

  lemma ZaddStep(input: bytes, e: Engine, slot: Slot, n: nat)
    requires n > 0
    ensures ThenZadd(input, e, slot, n) ==
      match ReadString(input)
      case Err => Err
      case Ok(m, rest) =>
        match ReadExact(rest, 8)
        case Err => Err
        case Ok(s, rest') =>
          match Zadd(e, slot, Scored(m, s))
          case None => Err
          case Some(e') => ThenZadd(rest', e', slot, n - 1)
  {
    hide ReadString, ReadExact, Zadd;
    if ReadString(input).Ok? && ReadExact(ReadString(input).rest, 8).Ok? {
      var rest := ReadExact(ReadString(input).rest, 8).rest;
      if ReadScored(rest, n - 1).Ok? {
        var m := Scored(ReadString(input).value, ReadExact(ReadString(input).rest, 8).value);
        assert ([m] + ReadScored(rest, n - 1).value)[1..] == ReadScored(rest, n - 1).value;
      }
    }
  }

  ghost function ThenRpush(input: bytes, e: Engine, slot: Slot, n: nat): Read<Engine> {
    match ReadStrings(input, n)
    case Err => Err
    case Ok(xs, rest) => Finish(RpushAll(e, slot, xs), slot, None, rest)
  }

  lemma RpushStep(input: bytes, e: Engine, slot: Slot, n: nat)
    requires n > 0
    ensures ThenRpush(input, e, slot, n) ==
      match ReadString(input)
      case Err => Err
      case Ok(x, rest) =>
        match Rpush(e, slot, x)
        case None => Err
        case Some(e') => ThenRpush(rest, e', slot, n - 1)
  {
    hide ReadString, Rpush;
    if ReadString(input).Ok? {
      var rest := ReadString(input).rest;
      if ReadStrings(rest, n - 1).Ok? {
        assert ([ReadString(input).value] + ReadStrings(rest, n - 1).value)[1..] == ReadStrings(rest, n - 1).value;
      }
    }
  }

  ghost function ThenXadd(input: bytes, e: Engine, slot: Slot, remaining: nat): Read<Engine> {
    match ReadEntries(input, remaining)
    case Err => Err
    case Ok(es, rest) => Ok(XaddAll(e, slot, es), rest)
  }

  function CountOf(text: bytes): nat {
    if ParseU64(text).Some? then ParseU64(text).value else 0
  }

  function XaddParsed(e: Engine, slot: Slot, idText: bytes, fields: map<bytes, bytes>): Engine {
    if FromText(idText).Some? then Xadd(e, slot, FromText(idText).value, fields) else e
  }

  lemma XaddStep(input: bytes, e: Engine, slot: Slot, remaining: nat)
    requires remaining > 2
    ensures ThenXadd(input, e, slot, remaining) ==
      match ReadString(input)
      case Err => Err
      case Ok(idText, rest) =>
        match ReadString(rest)
        case Err => Err
        case Ok(countText, rest') =>
          var count := CountOf(countText);
          if 2 * count > remaining - 2 then Ok(e, rest')
          else
            match ReadPairs(rest', count)
            case Err => Err
            case Ok(ps, rest'') => ThenXadd(rest'', XaddParsed(e, slot, idText, ToMap(ps)), slot, remaining - 2 - 2 * count)
  {
    hide ReadString, Xadd, ParseU64, FromText, ReadPairs, ToMap;
    if ReadString(input).Ok? && ReadString(ReadString(input).rest).Ok? {
      var idText := ReadString(input).value;
      var rest' := ReadString(ReadString(input).rest).rest;
      var count := CountOf(ReadString(ReadString(input).rest).value);
      if 2 * count <= remaining - 2 && ReadPairs(rest', count).Ok? && FromText(idText).Some? {
        var ps, rest'' := ReadPairs(rest', count).value, ReadPairs(rest', count).rest;
        if ReadEntries(rest'', remaining - 2 - 2 * count).Ok? {
          var es := ReadEntries(rest'', remaining - 2 - 2 * count).value;
          assert ([RawEntry(FromText(idText).value, ps)] + es)[1..] == es;
        }
      }
    }
  }

  lemma NoMoreEntries(input: bytes, e: Engine, slot: Slot, remaining: nat)
    requires remaining <= 2
    ensures ThenXadd(input, e, slot, remaining) == Ok(e, input)
  {
  }

  /** What the outcome of a function that reads means for a method that reads. */
  ghost predicate Done<T>(r: Read<T>, ok: bool, value: T, input: bytes) {
    ok == r.Ok? && (ok ==> value == r.value && input == r.rest)
  }

  class RdbReader {
    var input: bytes
    var engine: Engine

    constructor (data: bytes, storage: Engine)
      ensures input == data && engine == storage
    {
      input, engine := data, storage;
    }

    method NextExact(n: nat) returns (ok: bool, s: bytes)
      modifies this`input
      ensures Done(ReadExact(old(input), n), ok, s, input)
    {
      if |input| < n {
        return false, [];
      }
      ok, s, input := true, input[..n], input[n..];
    }

    method NextByte() returns (ok: bool, b: byte)
      modifies this`input
      ensures Done(ReadByte(old(input)), ok, b, input)
    {
      var s;
      ok, s := NextExact(1);
      b := if ok then s[0] else 0;
    }

    method NextU64() returns (ok: bool, n: nat)
      modifies this`input
      ensures Done(ReadU64(old(input)), ok, n, input)
    {
      var s;
      ok, s := NextExact(8);
      n := FromLittleEndian(s);
    }

    method NextLength() returns (ok: bool, n: nat)
      modifies this`input
      ensures Done(ReadLength(old(input)), ok, n, input)
    {
      hide FromBigEndian32;
      n := 0;
      var first;
      ok, first := NextByte();
      if !ok { return; }
      var kind := first as nat / 64;
      if kind == 0 {
        n := first as nat;
      } else if kind == 1 {
        var second;
        ok, second := NextByte();
        n := first as nat % 64 * 256 + second as nat;
      } else if kind == 2 {
        var s;
        ok, s := NextExact(4);
        n := if ok then FromBigEndian32(s) else 0;
      } else {
        ok := false;
      }
    }

    method NextString() returns (ok: bool, s: bytes)
      modifies this`input
      ensures Done(ReadString(old(input)), ok, s, input)
    {
      hide ReadLength;
      s := [];
      var n;
      ok, n := NextLength();
      if !ok { return; }
      ok, s := NextExact(n);
    }

    /** Strings that are collected in a vector. */
    method NextStrings(n: nat) returns (ok: bool, xs: seq<bytes>)
      modifies this`input
      ensures Done(ReadStrings(old(input), n), ok, xs, input)
    {
      hide ReadString;
      xs := [];
      assert forall more: seq<bytes> :: xs + more == more;
      for i := 0 to n
        invariant match ReadStrings(input, n - i)
          case Err => ReadStrings(old(input), n).Err?
          case Ok(more, rest) => ReadStrings(old(input), n) == Ok(xs + more, rest)
      {
        var x;
        ok, x := NextString();
        if !ok { return false, []; }
        if ReadStrings(input, n - i - 1).Ok? {
          Associative(xs, [x], ReadStrings(input, n - i - 1).value);
        }
        xs := xs + [x];
      }
      assert xs + [] == xs;
      ok := true;
    }

    method NextPairs(n: nat) returns (ok: bool, ps: seq<Pair>)
      modifies this`input
      ensures Done(ReadPairs(old(input), n), ok, ps, input)
    {
      hide ReadString;
      ps := [];
      assert forall more: seq<Pair> :: ps + more == more;
      for i := 0 to n
        invariant match ReadPairs(input, n - i)
          case Err => ReadPairs(old(input), n).Err?
          case Ok(more, rest) => ReadPairs(old(input), n) == Ok(ps + more, rest)
      {
        var k, v;
        ok, k := NextString();
        if !ok { return false, []; }
        ok, v := NextString();
        if !ok { return false, []; }
        if ReadPairs(input, n - i - 1).Ok? {
          Associative(ps, [Pair(k, v)], ReadPairs(input, n - i - 1).value);
        }
        ps := ps + [Pair(k, v)];
      }
      assert ps + [] == ps;
      ok := true;
    }

    /** Field by field into a hash table. */
    method NextFields(n: nat) returns (ok: bool, fields: map<bytes, bytes>)
      modifies this`input
      ensures var r := ReadPairs(old(input), n);
        ok == r.Ok? && (ok ==> fields == ToMap(r.value) && input == r.rest)
    {
      hide ReadString;
      fields := map[];
      ghost var ps: seq<Pair> := [];
      assert forall more: seq<Pair> :: ps + more == more;
      for i := 0 to n
        invariant match ReadPairs(input, n - i)
          case Err => ReadPairs(old(input), n).Err?
          case Ok(more, rest) => ReadPairs(old(input), n) == Ok(ps + more, rest)
        invariant fields == ToMap(ps)
      {
        var k, v;
        ok, k := NextString();
        if !ok { return false, map[]; }
        ok, v := NextString();
        if !ok { return false, map[]; }
        if ReadPairs(input, n - i - 1).Ok? {
          Associative(ps, [Pair(k, v)], ReadPairs(input, n - i - 1).value);
        }
        assert (ps + [Pair(k, v)])[..|ps|] == ps;
        ps := ps + [Pair(k, v)];
        fields := fields[k := v];
      }
      assert ps + [] == ps;
      ok := true;
    }

    method LoadScores(slot: Slot, n: nat) returns (ok: bool)
      modifies this
      ensures Done(ThenZadd(old(input), old(engine), slot, n), ok, engine, input)
    {
      hide ReadString, ReadExact, ThenZadd, Zadd;
      for i := 0 to n
        invariant ThenZadd(input, engine, slot, n - i) == ThenZadd(old(input), old(engine), slot, n)
      {
        ZaddStep(input, engine, slot, n - i);
        var m, s;
        ok, m := NextString();
        if !ok { return; }
        ok, s := NextExact(8);
        if !ok { return; }
        var e := Zadd(engine, slot, Scored(m, s));
        if e.None? { return false; }
        engine := e.value;
      }
      ZaddDone(input, engine, slot);
      ok := true;
    }

    method LoadItems(slot: Slot, first: bytes, n: nat) returns (ok: bool)
      modifies this
      ensures match Rpush(old(engine), slot, first)
        case None => !ok
        case Some(e) => Done(ThenRpush(old(input), e, slot, n), ok, engine, input)
    {
      hide ReadString, ThenRpush, Rpush;
      var e := Rpush(engine, slot, first);
      if e.None? { return false; }
      engine := e.value;
      for i := 0 to n
        invariant ThenRpush(input, engine, slot, n - i) == ThenRpush(old(input), e.value, slot, n)
      {
        RpushStep(input, engine, slot, n - i);
        var x;
        ok, x := NextString();
        if !ok { return; }
        var e := Rpush(engine, slot, x);
        if e.None? { return false; }
        engine := e.value;
      }
      RpushDone(input, engine, slot);
      ok := true;
    }

    method LoadEntries(slot: Slot, n: nat) returns (ok: bool)
      modifies this
      ensures Done(ThenXadd(old(input), old(engine), slot, n), ok, engine, input)
    {
      hide ReadString, ThenXadd, Xadd, ReadPairs, ToMap, ParseU64, FromText;
      var index := 0;
      while index < n
        invariant index <= n
        invariant ThenXadd(input, engine, slot, n - index) == ThenXadd(old(input), old(engine), slot, n)
      {
        if index + 2 >= n { break; }
        XaddStep(input, engine, slot, n - index);
        var idText, countText, fields;
        ok, idText := NextString();
        if !ok { return; }
        ok, countText := NextString();
        if !ok { return; }
        var count := CountOf(countText);
        if index + 2 + count * 2 > n {
          return true;
        }
        ok, fields := NextFields(count);
        if !ok { return; }
        engine := XaddParsed(engine, slot, idText, fields);
        index := index + 2 + 2 * count;
      }
      NoMoreEntries(input, engine, slot, n - index);
      ok := true;
    }

    /** A list, or a stream in disguise. */
    method LoadList(slot: Slot, n: nat, expiry: Option<nat>) returns (ok: bool)
      modifies this
      ensures Done(ReadList(old(input), old(engine), slot, n, expiry), ok, engine, input)
    {
      hide ReadString, ReadStrings, ReadEntries, RpushAll, XaddAll, ThenXadd, Rpush, ThenRpush, Expire, ReadList;
      ListCases(input, engine, slot, n, expiry);
      if n >= 1 {
        var first;
        ok, first := NextString();
        if !ok { return; }
        if first == MARKER {
          ok := LoadEntries(slot, n - 1);
        } else {
          ok := LoadItems(slot, first, n - 1);
        }
        if !ok { return; }
      }
      engine := Expire(engine, slot, expiry);
      ok := true;
    }

    /** A record after its type byte. */
    method LoadRecord(db: nat, kind: byte, expiry: Option<nat>) returns (ok: bool)
      modifies this
      ensures Done(ReadRecord(old(input), old(engine), db, kind, expiry), ok, engine, input)
    {
      hide ReadString, ReadLength, ReadAggregate;
      var key;
      ok, key := NextString();
      if !ok { return; }
      if kind == T_STRING {
        var v;
        ok, v := NextString();
        if !ok { return; }
        engine := engine[Slot(db, key) := Stored(Str(v), expiry)];
      } else {
        var n;
        ok, n := NextLength();
        if !ok { return; }
        ok := LoadAggregate(Slot(db, key), kind, n, expiry);
      }
    }

    method LoadAggregate(slot: Slot, kind: byte, n: nat, expiry: Option<nat>) returns (ok: bool)
      modifies this
      ensures Done(ReadAggregate(old(input), old(engine), slot, kind, n, expiry), ok, engine, input)
    {
      hide ReadString, ReadStrings, ReadPairs, ReadScored, ReadList, ZaddAll, Sadd, Hset, Expire, ThenZadd;
      if kind == T_ZSET || kind == T_ZSET2 {
        ScoresCases(input, engine, slot, n, expiry);
        ok := LoadScores(slot, n);
        if !ok { return; }
        engine := Expire(engine, slot, expiry);
      } else if kind == T_LIST {
        ok := LoadList(slot, n, expiry);
      } else if kind == T_SET {
        var ms;
        ok, ms := NextStrings(n);
        if !ok { return; }
        var e := Sadd(engine, slot, ms);
        if e.None? { return false; }
        engine := Expire(e.value, slot, expiry);
      } else if kind == T_HASH {
        var ps;
        ok, ps := NextPairs(n);
        if !ok { return; }
        var e := Hset(engine, slot, ps);
        if e.None? { return false; }
        engine := Expire(e.value, slot, expiry);
      } else {
        ok := false;
      }
    }

    method LoadWithExpiry(db: nat, ms: nat, now: nat) returns (ok: bool)
      modifies this
      ensures Done(LoadExpiring(old(input), old(engine), db, ms, now), ok, (engine, db), input)
    {
      hide ReadRecord;
      var kind;
      ok, kind := NextByte();
      if !ok { return; }
      ok := LoadRecord(db, kind, StillAhead(ms, now));
    }

    /** One item of the loop: a selector, a hint, an auxiliary field or a record. */
    method LoadNext(db: nat, op: byte, now: nat) returns (ok: bool, db': nat)
      modifies this
      ensures Done(LoadItem(old(input), old(engine), db, op, now), ok, (engine, db'), input)
    {
      hide ReadString, ReadLength, ReadU64, ReadRecord, LoadExpiring, FromLittleEndian;
      db' := db;
      if op == OP_SELECT {
        ok, db' := NextLength();
      } else if op == OP_RESIZE {
        var size;
        ok, size := NextLength();
        if !ok { return; }
        ok, size := NextLength();
      } else if op == OP_AUX {
        var text;
        ok, text := NextString();
        if !ok { return; }
        ok, text := NextString();
      } else if op == OP_EXPIRE_MS {
        var ms;
        ok, ms := NextU64();
        if !ok { return; }
        ok := LoadWithExpiry(db, ms, now);
      } else if op == OP_EXPIRE_S {
        var s;
        ok, s := NextExact(4);
        if !ok { return; }
        ok := LoadWithExpiry(db, FromLittleEndian(s) * 1000, now);
      } else {
        ok := LoadRecord(db, op, None);
      }
    }

    /** Loading a snapshot: the header, then item by item until the end. */
    method LoadInto(now: nat) returns (ok: bool)
      modifies this
      ensures Done(Load(old(input), old(engine), now), ok, engine, input)
    {
      hide LoadItem, ReadU64, ParseU64, LoadLoop;
      var magic, version;
      HeaderCases(input, engine, now);
      ok, magic := NextExact(5);
      if !ok || magic != HEADER[..5] { return false; }
      ok, version := NextExact(4);
      if !ok || ParseU64(version).None? { return false; }
      var db := 0;
      while true
        invariant LoadLoop(input, engine, db, now) == Load(old(input), old(engine), now)
        decreases |input|
      {
        LoopCases(input, engine, db, now);
        var op;
        ok, op := NextByte();
        if !ok { return; }
        if op == OP_EOF {
          var checksum;
          ok, checksum := NextU64();
          return;
        }
        ok, db := LoadNext(db, op, now);
        if !ok { return; }
      }
    }
  }

  lemma ZaddDone(input: bytes, e: Engine, slot: Slot)
    ensures ThenZadd(input, e, slot, 0) == Ok(e, input)
  {
  }

  lemma RpushDone(input: bytes, e: Engine, slot: Slot)
    ensures ThenRpush(input, e, slot, 0) == Ok(e, input)
  {
  }

  lemma ListCases(input: bytes, e: Engine, slot: Slot, n: nat, expiry: Option<nat>)
    ensures ReadList(input, e, slot, n, expiry) ==
      if n == 0 then Ok(Expire(e, slot, expiry), input)
      else
        match ReadString(input)
        case Err => Err
        case Ok(first, rest) =>
          if first == MARKER then Expired(ThenXadd(rest, e, slot, n - 1), slot, expiry)
          else
            match Rpush(e, slot, first)
            case None => Err
            case Some(e') => Expired(ThenRpush(rest, e', slot, n - 1), slot, expiry)
  {
    hide ReadString, ReadStrings, ReadEntries, Rpush, XaddAll;
    if n > 0 && ReadString(input).Ok? {
      var first, rest := ReadString(input).value, ReadString(input).rest;
      if ReadStrings(rest, n - 1).Ok? {
        var xs := ReadStrings(rest, n - 1).value;
        assert ([first] + xs)[1..] == xs;
      }
    }
  }

  ghost function Expired(r: Read<Engine>, slot: Slot, expiry: Option<nat>): Read<Engine> {
    if r.Ok? then Ok(Expire(r.value, slot, expiry), r.rest) else Err
  }

  lemma ScoresCases(input: bytes, e: Engine, slot: Slot, n: nat, expiry: Option<nat>)
    ensures ReadAggregate(input, e, slot, T_ZSET, n, expiry) == Expired(ThenZadd(input, e, slot, n), slot, expiry)
    ensures ReadAggregate(input, e, slot, T_ZSET2, n, expiry) == Expired(ThenZadd(input, e, slot, n), slot, expiry)
  {
    hide ReadScored, ZaddAll;
  }

  /** The header in its two parts. */
  ghost function LoadByParts(input: bytes, e: Engine, now: nat): Read<Engine> {
    match ReadExact(input, 5)
    case Err => Err
    case Ok(magic, rest) =>
      if magic != HEADER[..5] then Err
      else
        match ReadExact(rest, 4)
        case Err => Err
        case Ok(version, rest') => if ParseU64(version).None? then Err else LoadLoop(rest', e, 0, now)
  }

  lemma HeaderCases(input: bytes, e: Engine, now: nat)
    ensures Load(input, e, now) == LoadByParts(input, e, now)
  {
    hide LoadLoop, ParseU64;
    if |input| >= 9 {
      assert input[..9][..5] == input[..5] && input[..9][5..] == input[5..][..4] && input[5..][4..] == input[9..];
    }
  }

  lemma LoopCases(input: bytes, e: Engine, db: nat, now: nat)
    ensures LoadLoop(input, e, db, now) ==
      match ReadByte(input)
      case Err => Err
      case Ok(op, rest) =>
        if op == OP_EOF then
          match ReadU64(rest)
          case Err => Err
          case Ok(_, final) => Ok(e, final)
        else
          match LoadItem(rest, e, db, op, now)
          case Err => Err
          case Ok(next, rest') => LoadLoop(rest', next.0, next.1, now)
  {
    hide LoadItem, ReadU64;
  }

  /** Saving with the file writer or with the replication encoder and loading the result into an
      empty engine gives the live part of the engine as far as that is restored; and exactly the live
      part, key by key and expiry by expiry, if and only if all its values are intact (lists, sorted
      sets and streams not empty, streams without groups whose last id is that of the newest entry)
      and no expiry time passes in between. */
  method SaveAndLoad(e: Engine, dbs: nat, now: nat, version: bytes, seconds: nat, memory: nat, later: nat)
    returns (fromFile: Engine, fromReplica: Engine)
    requires FitEngine(e, dbs, now) && |version| < U32 && seconds <= U64_MAX && memory <= U64_MAX
    ensures fromFile == fromReplica == AfterLoad(Live(e, dbs, now), later)
    ensures fromFile == Live(e, dbs, now) <==> forall slot :: slot in Live(e, dbs, now) ==> IntactStored(e[slot], later)
    ensures now <= later ==> forall slot :: Kept(e, dbs, slot, later) ==> slot in fromFile && fromFile[slot] == e[slot]
    ensures forall slot :: ExpiredSince(e, dbs, slot, now, later) ==> slot in fromFile && fromFile[slot] == Stored(e[slot].value, None)
    ensures forall slot :: slot in fromFile ==> slot in e && slot.db < dbs
    ensures forall slot :: slot in e && e[slot].expiry.Some? && e[slot].expiry.value < now ==> slot !in fromFile
  {
    hide Load, FitEngine, AfterLoad, Live, IntactStored, Kept, ExpiredSince;
    var file, replica := EncodeBoth(e, dbs, now, version, seconds, memory);
    assert Load(file, map[], later) == Load(replica, map[], later);
    var r := new RdbReader(file, map[]);
    var ok := r.LoadInto(later);
    fromFile := r.engine;
    r := new RdbReader(replica, map[]);
    ok := r.LoadInto(later);
    fromReplica := r.engine;
    LivePart(e, dbs, now);
    AfterLoadIff(Live(e, dbs, now), later);
    SavedSlots(e, dbs, now, later);
  }

  lemma LivePart(e: Engine, dbs: nat, now: nat)
    ensures forall slot :: slot in Live(e, dbs, now) ==> slot in e && Live(e, dbs, now)[slot] == e[slot]
  {
  }
}
