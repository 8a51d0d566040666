/** A stream: entries in increasing id order, the last id ever given out, and counters that are
    kept beside the entries so that they can be read without a lock. */
module Stream {
  import opened Bytes
  import opened StreamId

  type Fields = map<bytes, bytes>

  datatype Entry = Entry(id: Id, fields: Fields)

  const ENTRY_BYTES: nat := 64
  const DATA_BYTES: nat := 48
  const STREAM_BYTES: nat := 256

  // ----- Sizes -----

  function FieldSize(k: bytes, v: bytes): nat {
    |k| + |v| + 48
  }

  ghost function FieldsSize(m: Fields): nat
    decreases |m|
  {
    if m == map[] then 0
    else
      var k :| k in m;
      FieldSize(k, m[k]) + FieldsSize(m - {k})
  }

  /** The fields may be added up in any order. */
  lemma {:induction false} FieldsSizeAny(m: Fields, k: bytes)
    requires k in m
    ensures FieldsSize(m) == FieldSize(k, m[k]) + FieldsSize(m - {k})
    decreases |m|
  {
    var j :| j in m && FieldsSize(m) == FieldSize(j, m[j]) + FieldsSize(m - {j});
    if j != k {
      FieldsSizeAny(m - {j}, k);
      FieldsSizeAny(m - {k}, j);
      assert m - {j} - {k} == m - {k} - {j};
    }
  }

  ghost function EntrySize(e: Entry): nat {
    16 + ENTRY_BYTES + FieldsSize(e.fields)
  }

  ghost function Total(es: seq<Entry>): nat {
    if es == [] then 0 else EntrySize(es[0]) + Total(es[1..])
  }

  lemma {:induction false} TotalConcat(a: seq<Entry>, b: seq<Entry>)
    ensures Total(a + b) == Total(a) + Total(b)
  {
    if a == [] {
      assert a + b == b;
    } else {
      assert (a + b)[1..] == a[1..] + b;
      TotalConcat(a[1..], b);
    }
  }

  lemma TotalSplit(es: seq<Entry>, n: nat)
    requires n <= |es|
    ensures Total(es) == Total(es[..n]) + Total(es[n..])
  {
    assert es == es[..n] + es[n..];
    TotalConcat(es[..n], es[n..]);
  }

  method CalculateEntrySize(e: Entry) returns (size: nat)
    ensures size == EntrySize(e)
  {
    size := 16 + ENTRY_BYTES;
    var rest := e.fields;
    while rest != map[]
      invariant size + FieldsSize(rest) == EntrySize(e)
      decreases |rest|
    {
      var k :| k in rest;
      FieldsSizeAny(rest, k);
      size := size + FieldSize(k, rest[k]);
      rest := rest - {k};
    }
  }

  method SumSizes(es: seq<Entry>) returns (sum: nat)
    ensures sum == Total(es)
  {
    sum := 0;
    for i := 0 to |es|
      invariant sum == Total(es[..i])
    {
      var size := CalculateEntrySize(es[i]);
      assert es[..i + 1] == es[..i] + [es[i]];
      TotalConcat(es[..i], [es[i]]);
      sum := sum + size;
    }
    assert es[..|es|] == es;
  }

  // ----- What the queries mean -----

  ghost predicate Increasing(es: seq<Entry>) {
    forall i, j :: 0 <= i < j < |es| ==> es[i].id < es[j].id
  }

  /** The entries with ids between the bounds, both inclusive. */
  function Between(es: seq<Entry>, lo: int, hi: int): seq<Entry> {
    if es == [] then []
    else if lo <= es[0].id <= hi then [es[0]] + Between(es[1..], lo, hi)
    else Between(es[1..], lo, hi)
  }

  /** The entries whose ids are not in the set. */
  function Without(es: seq<Entry>, ids: set<Id>): seq<Entry> {
    if es == [] then []
    else if es[0].id in ids then Without(es[1..], ids)
    else [es[0]] + Without(es[1..], ids)
  }

  function Least(a: nat, b: nat): nat {
    if a < b then a else b
  }

  function Take(es: seq<Entry>, count: Option<nat>): seq<Entry> {
    match count
    case None => es
    case Some(n) => es[..Least(n, |es|)]
  }

  function Reverse(es: seq<Entry>): (r: seq<Entry>)
    ensures |r| == |es| && forall i :: 0 <= i < |es| ==> r[i] == es[|es| - 1 - i]
  {
    if es == [] then [] else Reverse(es[1..]) + [es[0]]
  }

  lemma {:induction false} BetweenIsSlice(es: seq<Entry>, lo: int, hi: int, a: nat, b: nat)
    requires a <= b <= |es|
    requires forall i :: 0 <= i < |es| ==> (lo <= es[i].id <= hi <==> a <= i < b)
    ensures Between(es, lo, hi) == es[a..b]
  {
    if es != [] {
      var t := es[1..];
      var a', b' := if a == 0 then 0 else a - 1, if b == 0 then 0 else b - 1;
      forall i | 0 <= i < |t| ensures lo <= t[i].id <= hi <==> a' <= i < b' {
        assert t[i] == es[i + 1];
      }
      BetweenIsSlice(t, lo, hi, a', b');
      if a > 0 {
        assert t[a - 1..b - 1] == es[a..b];
      } else if b > 0 {
        assert [es[0]] + t[0..b - 1] == es[0..b];
      }
    }
  }

  lemma {:induction false} WithoutIds(es: seq<Entry>, ids: set<Id>, e: Entry)
    ensures e in Without(es, ids) <==> e in es && e.id !in ids
  {
    if es != [] {
      WithoutIds(es[1..], ids, e);
      assert es == [es[0]] + es[1..];
    }
  }

  lemma {:induction false} WithoutIncreasing(es: seq<Entry>, ids: set<Id>)
    requires Increasing(es)
    ensures Increasing(Without(es, ids))
  {
    if es != [] {
      WithoutIncreasing(es[1..], ids);
      var t := Without(es[1..], ids);
      forall i | 0 <= i < |t| ensures es[0].id < t[i].id {
        WithoutIds(es[1..], ids, t[i]);
      }
    }
  }

  /** Taking out one more id. */
  lemma {:induction false} WithoutOneMore(es: seq<Entry>, ids: set<Id>, id: Id)
    ensures Without(Without(es, ids), {id}) == Without(es, ids + {id})
  {
    if es != [] {
      WithoutOneMore(es[1..], ids, id);
      var t := Without(es[1..], ids);
      if es[0].id !in ids {
        assert ([es[0]] + t)[1..] == t;
      }
    }
  }

  lemma {:induction false} WithoutAbsent(es: seq<Entry>, id: Id)
    requires forall i :: 0 <= i < |es| ==> es[i].id != id
    ensures Without(es, {id}) == es
  {
    if es != [] {
      WithoutAbsent(es[1..], id);
      assert es == [es[0]] + es[1..];
    }
  }

  lemma {:induction false} WithoutAt(es: seq<Entry>, k: nat)
    requires Increasing(es) && k < |es|
    ensures Without(es, {es[k].id}) == es[..k] + es[k + 1..]
  {
    var t := es[1..];
    if k == 0 {
      WithoutAbsent(t, es[0].id);
      assert es[..0] + es[1..] == t;
    } else {
      WithoutAt(t, k - 1);
      assert t[k - 1] == es[k];
      assert es[..k] + es[k + 1..] == [es[0]] + (t[..k - 1] + t[k..]);
    }
  }

  lemma {:induction false} WithoutNone(es: seq<Entry>)
    ensures Without(es, {}) == es
  {
    if es != [] {
      WithoutNone(es[1..]);
      assert es == [es[0]] + es[1..];
    }
  }

  // ----- Id generation -----

  datatype Generated = Generated(id: Id, millis: nat, seq_: nat)

  /** The next id.  The clock may run backwards; the weak compare-exchange may fail, even twice,
      for no reason, and then the sequence number is raised instead. */
  function Generate(millis: nat, seq_: nat, now: nat, first: bool, second: bool): Generated
    requires millis < WORD && seq_ < WORD && now < WORD
  {
    if now > millis && (first || second) then Generated(New(now, 0), now, 0)
    else
      var q := (seq_ + 1) % WORD;
      Generated(New(millis, q), millis, q)
  }

  /** An entry is counted as 80 bytes, and each field as its key, its value and 48 more. */
  lemma EntrySizes(id: Id, fields: Fields, k: bytes, v: bytes)
    ensures EntrySize(Entry(id, map[])) == 80
    ensures k !in fields ==> EntrySize(Entry(id, fields[k := v])) == EntrySize(Entry(id, fields)) + |k| + |v| + 48
  {
    if k !in fields {
      FieldsSizeAny(fields[k := v], k);
      assert fields[k := v] - {k} == fields;
    }
  }

  /** COUNT n gives the first n, or all if there are fewer; without COUNT all. */
  lemma CountLimits(es: seq<Entry>, n: nat)
    ensures Take(es, None) == es
    ensures n <= |es| ==> Take(es, Some(n)) == es[..n]
    ensures n > |es| ==> Take(es, Some(n)) == es
  {
  }

  /** The clock has advanced and a swap succeeded, or the sequence number can grow. */
  predicate CanGrow(millis: nat, seq_: nat, now: nat, first: bool, second: bool) {
    (now > millis && (first || second)) || seq_ + 1 < WORD
  }

  /** A generated id is larger than the one before exactly when the sequence number does not
      have to be raised beyond 64 bits. */
  lemma GeneratedIsLarger(millis: nat, seq_: nat, now: nat, first: bool, second: bool)
    requires millis < WORD && seq_ < WORD && now < WORD
    ensures var g := Generate(millis, seq_, now, first, second);
      && g.id == New(g.millis, g.seq_) && g.millis < WORD && g.seq_ < WORD
      && (g.id > New(millis, seq_) <==> CanGrow(millis, seq_, now, first, second))
  {
    if now > millis {
      assert (millis + 1) * WORD <= now * WORD;
    }
  }

  /** The new id bears the time of the clock and starts at sequence 0 if the clock has advanced and a swap
      succeeded; otherwise it bears the old time and the next sequence number. */
  lemma GeneratedFromClock(millis: nat, seq_: nat, now: nat, first: bool, second: bool)
    requires millis < WORD && seq_ < WORD && now < WORD
    ensures var id := Generate(millis, seq_, now, first, second).id;
      && (now > millis && (first || second) ==> Millis(id) == now && Seq(id) == 0)
      && (now <= millis || !(first || second) ==> Millis(id) == millis && Seq(id) == if seq_ == WORD - 1 then 0 else seq_ + 1)
  {
    Unpack(now, 0);
    Unpack(millis, (seq_ + 1) % WORD);
  }

  /** The id of the newest entry that is stored. */
  function Newest(es: seq<Entry>): Id {
    if es == [] then 0 else es[|es| - 1].id
  }

  ghost predicate Bounded(es: seq<Entry>, last: Id) {
    forall i :: 0 <= i < |es| ==> 0 < es[i].id <= last
  }

  lemma AppendIncreasing(es: seq<Entry>, e: Entry)
    requires Increasing(es) && forall i :: 0 <= i < |es| ==> 0 < es[i].id
    ensures Increasing(es + [e]) && Bounded(es + [e], e.id) <==> e.id > Newest(es)
  {
    var es' := es + [e];
    if Increasing(es') && Bounded(es', e.id) {
      assert 0 < es'[|es|].id;
      if es != [] { assert es'[|es| - 1].id < es'[|es|].id; }
    }
  }

  datatype AddResult = Added | TooSmall | Exists

  class Stream {
    var entries: seq<Entry>
    var lastId: Id
    var dataMemory: nat
    var lastMillis: nat
    var lastSeq: nat
    var length: nat
    var memoryUsage: nat

    ghost predicate Valid()
      reads this
    {
      && Increasing(entries)
      && Bounded(entries, lastId)
      && lastMillis < WORD && lastSeq < WORD && lastId == New(lastMillis, lastSeq)
      && length == |entries|
      && dataMemory == DATA_BYTES + Total(entries)
      && memoryUsage == STREAM_BYTES + Total(entries)
    }

    constructor ()
      ensures Valid() && entries == [] && lastId == 0
    {
      entries, lastId, dataMemory := [], 0, DATA_BYTES;
      lastMillis, lastSeq, length, memoryUsage := 0, 0, 0, STREAM_BYTES;
    }

    /** XADD with a generated id. */
    method AddAuto(fields: Fields, now: nat, first: bool, second: bool) returns (id: Id)
      requires Valid() && now < WORD
      modifies this
      ensures entries == old(entries) + [Entry(id, fields)] && lastId == id
      ensures id == Generate(old(lastMillis), old(lastSeq), now, first, second).id
      ensures id > old(lastId) <==> CanGrow(old(lastMillis), old(lastSeq), now, first, second)
      ensures now > old(lastMillis) && (first || second) ==> Millis(id) == now && Seq(id) == 0
      ensures now <= old(lastMillis) || !(first || second) ==>
        Millis(id) == old(lastMillis) && Seq(id) == if old(lastSeq) == WORD - 1 then 0 else old(lastSeq) + 1
      ensures Valid() <==> id > Newest(old(entries))
      ensures id > old(lastId) ==> Valid()
    {
      GeneratedIsLarger(lastMillis, lastSeq, now, first, second);
      GeneratedFromClock(lastMillis, lastSeq, now, first, second);
      var g := Generate(lastMillis, lastSeq, now, first, second);
      id, lastMillis, lastSeq := g.id, g.millis, g.seq_;
      Push(Entry(id, fields));
      AppendIncreasing(old(entries), Entry(id, fields));
    }

    /** The bookkeeping of an added entry. */
    method Push(e: Entry)
      modifies this`entries, this`lastId, this`dataMemory, this`length, this`memoryUsage
      ensures entries == old(entries) + [e] && lastId == e.id && length == old(length) + 1
      ensures dataMemory == old(dataMemory) + EntrySize(e) && memoryUsage == old(memoryUsage) + EntrySize(e)
      ensures Total(entries) == old(Total(entries)) + EntrySize(e)
    {
      var size := CalculateEntrySize(e);
      TotalConcat(entries, [e]);
      entries, lastId, dataMemory := entries + [e], e.id, dataMemory + size;
      length, memoryUsage := length + 1, memoryUsage + size;
    }

    /** XADD with a given id: only ids above every earlier one are accepted. */
    method AddWithId(id: Id, fields: Fields) returns (result: AddResult)
      requires Valid() && id <= MAX_ID
      modifies this
      ensures Valid()
      ensures result == if id <= old(lastId) then TooSmall else Added
      ensures result == Added ==> entries == old(entries) + [Entry(id, fields)] && lastId == id
      ensures result != Added ==> entries == old(entries) && lastId == old(lastId)
    {
      if id <= lastId {
        return TooSmall;
      }
      var found, idx := BinarySearch(id);
      if found {
        return Exists;
      }
      Repack(id);
      Push(Entry(id, fields));
      lastMillis, lastSeq := Millis(id), Seq(id);
      result := Added;
    }

    /** The position of an id, or where it would have to be put in. */
    method BinarySearch(id: int) returns (found: bool, idx: nat)
      requires Increasing(entries)
      ensures idx <= |entries| && (found <==> exists i :: 0 <= i < |entries| && entries[i].id == id)
      ensures found ==> idx < |entries| && entries[idx].id == id
      ensures forall i :: 0 <= i < idx ==> entries[i].id < id
      ensures forall i :: idx <= i < |entries| ==> id <= entries[i].id
    {
      var lo, hi := 0, |entries|;
      while lo < hi
        invariant 0 <= lo <= hi <= |entries|
        invariant forall i :: 0 <= i < lo ==> entries[i].id < id
        invariant forall i :: hi <= i < |entries| ==> id < entries[i].id
      {
        var mid := lo + (hi - lo) / 2;
        if entries[mid].id < id {
          lo := mid + 1;
        } else if entries[mid].id > id {
          hi := mid;
        } else {
          return true, mid;
        }
      }
      found, idx := false, lo;
    }

    /** The entries after an id, at most `count` of them. */
    method RangeAfter(after: Id, count: Option<nat>) returns (result: seq<Entry>)
      requires Valid()
      ensures result == Take(Between(entries, after + 1, lastId), count)
    {
      var found, idx := BinarySearch(after);
      var start := if found then idx + 1 else idx;
      BetweenIsSlice(entries, after + 1, lastId, start, |entries|);
      hide Between, Increasing, Bounded;
      result := CollectFrom(start, if count.Some? then count.value else |entries|);
      assert entries[start..|entries|] == entries[start..];
    }

    /** The loop of a query: from a position on, at most so many. */
    method CollectFrom(start: nat, max: nat) returns (result: seq<Entry>)
      requires start <= |entries|
      ensures result == Take(entries[start..], Some(max))
    {
      result := [];
      var i := start;
      while i < |entries| && |result| < max
        invariant start <= i <= |entries| && |result| == i - start <= max
        invariant result == entries[start..i]
      {
        result := result + [entries[i]];
        i := i + 1;
      }
      assert entries[start..][..i - start] == entries[start..i];
    }

    /** XRANGE and XREVRANGE.  The answer is the naive one exactly unless the whole range lies
        below the first entry, in which case that entry is returned all the same. */
    method Range(start: Id, end: Id, count: Option<nat>, reverse: bool) returns (result: seq<Entry>)
      requires Valid()
      ensures var naive := Between(entries, start, end);
        var misses := entries != [] && start <= entries[0].id && end < entries[0].id;
        && (!misses ==> result == Take(if reverse then Reverse(naive) else naive, count))
        && (misses ==> naive == [] && result == Take([entries[0]], count))
    {
      var f, from := BinarySearch(start);
      var found, idx := BinarySearch(end);
      var to := if found then idx else if idx > 0 then idx - 1 else 0;
      result := [];
      if entries == [] {
        return;
      }
      var misses := start <= entries[0].id && end < entries[0].id;
      ghost var upper := if from <= to then to + 1 else from;
      if misses {
        BetweenIsSlice(entries, start, end, 0, 0);
      } else {
        RangeIsSlice(start, end, from, found, idx, to);
        BetweenIsSlice(entries, start, end, from, upper);
      }
      ghost var naive := entries[from..upper];
      if reverse {
        result := CollectDown(from, to, count);
      } else {
        result := CollectUp(from, to, count);
      }
      if misses {
        assert naive == [entries[0]] && Reverse(naive) == naive;
      }
    }

    lemma RangeIsSlice(start: Id, end: Id, from: nat, found: bool, idx: nat, to: nat)
      requires Increasing(entries) && entries != [] && from <= |entries| && idx <= |entries|
      requires !(start <= entries[0].id && end < entries[0].id)
      requires forall i :: 0 <= i < from ==> entries[i].id < start
      requires forall i :: from <= i < |entries| ==> start <= entries[i].id
      requires found ==> idx < |entries| && entries[idx].id == end
      requires !found ==> forall i :: 0 <= i < |entries| ==> entries[i].id != end
      requires forall i :: 0 <= i < idx ==> entries[i].id < end
      requires forall i :: idx <= i < |entries| ==> end <= entries[i].id
      requires to == if found then idx else if idx > 0 then idx - 1 else 0
      ensures var upper := if from <= to then to + 1 else from;
        upper <= |entries| && forall i :: 0 <= i < |entries| ==> (start <= entries[i].id <= end <==> from <= i < upper)
    {
    }

    /** Forward collection over positions `from` to `to`, both inclusive. */
    method CollectUp(from: nat, to: nat, count: Option<nat>) returns (result: seq<Entry>)
      requires from <= |entries| && to < |entries|
      ensures result == Take(entries[from..if from <= to then to + 1 else from], count)
    {
      result := [];
      var i := from;
      while i <= to && (count.None? || |result| < count.value)
        invariant from <= i <= (if from <= to then to + 1 else from)
        invariant result == entries[from..i] && (count.Some? ==> |result| <= count.value)
      {
        result := result + [entries[i]];
        i := i + 1;
      }
    }

    /** Backward collection over the same positions. */
    method CollectDown(from: nat, to: nat, count: Option<nat>) returns (result: seq<Entry>)
      requires from <= |entries| && to < |entries|
      ensures result == Take(Reverse(entries[from..if from <= to then to + 1 else from]), count)
    {
      result := [];
      ghost var upper := if from <= to then to + 1 else from;
      ghost var slice := entries[from..upper];
      var i := to + 1;
      while i > from && (count.None? || |result| < count.value)
        invariant |result| <= |slice| && (from <= to ==> from <= i <= to + 1 && |result| == to + 1 - i)
        invariant from > to ==> result == [] && i == to + 1
        invariant forall j :: 0 <= j < |result| ==> result[j] == slice[|slice| - 1 - j]
        invariant count.Some? ==> |result| <= count.value
      {
        i := i - 1;
        assert entries[i] == slice[i - from];
        result := result + [entries[i]];
      }
      assert result == Take(Reverse(slice), count);
    }

    /** Drops the first `n` entries. */
    method DropFirst(n: nat)
      requires Valid() && n <= |entries|
      modifies this
      ensures Valid() && entries == old(entries)[n..] && lastId == old(lastId)
    {
      var freed := SumSizes(entries[..n]);
      TotalSplit(entries, n);
      entries := entries[n..];
      dataMemory := dataMemory - freed;
      length, memoryUsage := length - n, memoryUsage - freed;
    }

    /** Keeps the newest `max` entries. */
    method TrimByCount(max: nat) returns (removed: nat)
      requires Valid()
      modifies this
      ensures Valid() && lastId == old(lastId)
      ensures removed == if |old(entries)| <= max then 0 else |old(entries)| - max
      ensures entries == old(entries)[removed..]
    {
      if |entries| <= max {
        return 0;
      }
      removed := |entries| - max;
      DropFirst(removed);
    }

    /** Drops every entry below an id. */
    method TrimByMinId(min: Id) returns (removed: nat)
      requires Valid()
      modifies this
      ensures Valid() && lastId == old(lastId)
      ensures entries == Between(old(entries), min, lastId)
      ensures removed == |old(entries)| - |entries|
    {
      var found, idx := BinarySearch(min);
      BetweenIsSlice(entries, min, lastId, idx, |entries|);
      assert entries[idx..|entries|] == entries[idx..] && entries[0..] == entries;
      if idx == 0 {
        return 0;
      }
      removed := idx;
      DropFirst(idx);
    }

    /** Removes one entry by id, if it is there. */
    method RemoveOne(id: Id) returns (size: Option<nat>)
      requires Increasing(entries)
      modifies this`entries
      ensures entries == Without(old(entries), {id}) && Increasing(entries)
      ensures |old(entries)| == |entries| + (if size.Some? then 1 else 0)
      ensures Total(old(entries)) == Total(entries) + (if size.Some? then size.value else 0)
    {
      WithoutIncreasing(entries, {id});
      var found, idx := BinarySearch(id);
      if !found {
        WithoutAbsent(entries, id);
        return None;
      }
      var removed := entries[idx];
      var n := CalculateEntrySize(removed);
      WithoutAt(entries, idx);
      TotalSplit(entries, idx);
      assert entries[idx..][1..] == entries[idx + 1..];
      TotalConcat(entries[..idx], entries[idx + 1..]);
      entries := entries[..idx] + entries[idx + 1..];
      size := Some(n);
    }

    /** The deletion loop: from the largest id down.  Counters are left to the caller. */
    method DeleteEach(sorted: seq<Id>) returns (deleted: nat, freed: nat)
      requires Increasing(entries)
      modifies this`entries
      ensures entries == Without(old(entries), IdSet(sorted)) && Increasing(entries)
      ensures deleted == |old(entries)| - |entries| && Total(old(entries)) == Total(entries) + freed
      ensures deleted == 0 ==> freed == 0
    {
      deleted, freed := 0, 0;
      var i := |sorted|;
      ghost var gone: set<Id> := {};
      WithoutNone(entries);
      while i > 0
        invariant 0 <= i <= |sorted| && gone == IdSet(sorted[i..])
        invariant entries == Without(old(entries), gone) && Increasing(entries)
        invariant deleted == |old(entries)| - |entries| && Total(old(entries)) == Total(entries) + freed
        invariant deleted == 0 ==> freed == 0
      {
        i := i - 1;
        WithoutOneMore(old(entries), gone, sorted[i]);
        var size := RemoveOne(sorted[i]);
        assert sorted[i..] == [sorted[i]] + sorted[i + 1..];
        gone := gone + {sorted[i]};
        if size.Some? {
          freed := freed + size.value;
          deleted := deleted + 1;
        }
      }
      assert sorted[0..] == sorted;
    }

    /** XDEL: the ids are sorted, duplicates dropped, and removed from the back. */
    method Delete(ids: seq<Id>) returns (deleted: nat)
      requires Valid()
      modifies this
      ensures Valid() && lastId == old(lastId)
      ensures entries == Without(old(entries), IdSet(ids))
      ensures deleted == |old(entries)| - |entries|
    {
      var sorted := SortDedup(ids);
      assert IdSet(sorted) == IdSet(ids);
      var freed;
      deleted, freed := DeleteEach(sorted);
      forall k | 0 <= k < |entries| ensures 0 < entries[k].id <= lastId {
        WithoutIds(old(entries), IdSet(ids), entries[k]);
      }
      if deleted > 0 {
        dataMemory := dataMemory - freed;
        length, memoryUsage := length - deleted, memoryUsage - freed;
      }
    }
  }

  /** The ids in increasing order, each once. */
  method SortDedup(ids: seq<Id>) returns (sorted: seq<Id>)
    ensures forall i, j :: 0 <= i < j < |sorted| ==> sorted[i] < sorted[j]
    ensures forall id :: id in sorted <==> id in ids
  {
    sorted := [];
    for n := 0 to |ids|
      invariant forall i, j :: 0 <= i < j < |sorted| ==> sorted[i] < sorted[j]
      invariant forall id :: id in sorted <==> id in ids[..n]
    {
      var k := 0;
      while k < |sorted| && sorted[k] < ids[n]
        invariant 0 <= k <= |sorted|
        invariant forall i :: 0 <= i < k ==> sorted[i] < ids[n]
      {
        k := k + 1;
      }
      if k == |sorted| || sorted[k] != ids[n] {
        ghost var before := sorted;
        sorted := sorted[..k] + [ids[n]] + sorted[k..];
        forall id ensures id in sorted <==> id in before || id == ids[n] {
          assert before == before[..k] + before[k..];
        }
      }
      assert ids[..n + 1] == ids[..n] + [ids[n]];
    }
    assert ids[..|ids|] == ids;
  }
}
