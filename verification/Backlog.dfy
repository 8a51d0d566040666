/** The replication backlog: the most recent bytes of the stream of commands sent to replicas. */
module Backlog {
  import opened Bytes
  import opened Resp
  import opened RespIo
  import opened RespStream

  function Min(a: nat, b: nat): nat {
    if a <= b then a else b
  }

  class ReplicationBacklog {
    const maxSize: nat
    var buffer: bytes
    var startOffset: nat
    var currentSize: nat
    /** Everything that was ever appended, how much of it there was at the last clearing, and how
        many bytes clearing has dropped. */
    ghost var log: bytes
    ghost var cleared: nat
    ghost var lost: nat

    /** The last bytes of the log, as many as fit.  A backlog of size 0 holds on to a byte that it
        does not count. */
    ghost predicate Valid()
      reads this
    {
      && cleared <= |log|
      && if maxSize == 0 then currentSize == 0 && |buffer| <= 1
         else
           && currentSize == |buffer| == Min(|log| - cleared, maxSize)
           && buffer == log[|log| - |buffer|..]
           && startOffset + lost + |buffer| == |log|
    }

    constructor (max: nat)
      ensures Valid() && maxSize == max && log == [] && lost == 0 && cleared == 0
    {
      maxSize := max;
      buffer, startOffset, currentSize := [], 0, 0;
      log, cleared, lost := [], 0, 0;
    }

    method AppendByte(b: byte)
      requires Valid()
      modifies this
      ensures Valid() && log == old(log) + [b] && lost == old(lost) && cleared == old(cleared)
    {
      if currentSize >= maxSize {
        if buffer != [] {
          buffer := buffer[1..];
          startOffset := startOffset + 1;
        }
      } else {
        currentSize := currentSize + 1;
      }
      buffer := buffer + [b];
      log := log + [b];
    }

    method Append(s: bytes)
      requires Valid()
      modifies this
      ensures Valid() && log == old(log) + s && lost == old(lost) && cleared == old(cleared)
    {
      for i := 0 to |s|
        invariant Valid() && log == old(log) + s[..i] && lost == old(lost) && cleared == old(cleared)
      {
        AppendByte(s[i]);
        assert s[..i + 1] == s[..i] + [s[i]];
      }
      assert s[..|s|] == s;
    }

    /** A command that cannot be printed leaves the backlog alone. */
    method AppendCommand(ft: FloatText, f: Frame) returns (ok: bool)
      requires Valid()
      modifies this
      ensures Valid() && lost == old(lost) && cleared == old(cleared) && ok == Writable(f)
      ensures log == if ok then old(log) + Encode(ft, f) else old(log)
    {
      var w := new Writer();
      ok := SerializeFrame(ft, f, w);
      if ok {
        assert [] + Encode(ft, f) == Encode(ft, f);
        Append(w.data);
      }
    }

    /** A read succeeds exactly at the offsets it retains, and then returns the rest of the log; the
        offset is that in the log if and only if no clearing has ever dropped anything. */
    method DataFrom(offset: nat) returns (r: Option<bytes>)
      requires Valid()
      ensures r.Some? <==> |log| - Min(|log| - cleared, maxSize) <= offset + lost < |log| && maxSize > 0
      ensures r.Some? ==> r.value == log[offset + lost..]
      ensures r.Some? ==> (r.value == log[offset..] <==> lost == 0)
    {
      var end := startOffset + currentSize;
      if offset < startOffset || offset >= end {
        return None;
      }
      var pos := offset - startOffset;
      assert log[|log| - |buffer|..][pos..] == log[offset + lost..];
      r := Some(buffer[pos..]);
      assert |log[offset..]| == |log| - offset;
    }

    /** Clearing forgets the bytes but not the offset of the first of them. */
    method Clear()
      requires Valid()
      modifies this
      ensures Valid() && log == old(log) && cleared == |log|
      ensures lost == old(lost) + Min(|log| - old(cleared), maxSize)
      ensures startOffset == old(startOffset)
    {
      lost, cleared := lost + Min(|log| - cleared, maxSize), |log|;
      buffer, currentSize := [], 0;
    }
  }

  // ----- Catching up from the backlog -----

  lemma {:induction false} AllCarried(ft: FloatText, fs: seq<Frame>)
    requires AllTransmissible(ft, fs)
    ensures Carries(ft, EncodeAll(ft, fs), AsItems(fs))
  {
    hide Encode, Transmissible;
    if fs != [] {
      var s, tail := Encode(ft, fs[0]), EncodeAll(ft, fs[1..]);
      TypeByte(ft, fs[0]);
      assert Skip(IsSpace, s + tail) == s + tail;
      assert (s + tail)[|s|..] == tail;
      assert AsItems(fs)[1..] == AsItems(fs[1..]);
      AllCarried(ft, fs[1..]);
    }
  }

  lemma {:induction false} EncodeAllJoin(ft: FloatText, a: seq<Frame>, b: seq<Frame>)
    ensures EncodeAll(ft, a + b) == EncodeAll(ft, a) + EncodeAll(ft, b)
  {
    hide Encode;
    if a == [] {
      assert a + b == b && [] + EncodeAll(ft, b) == EncodeAll(ft, b);
    } else {
      EncodeAllJoin(ft, a[1..], b);
      assert (a + b)[1..] == a[1..] + b;
      Associative(Encode(ft, a[0]), EncodeAll(ft, a[1..]), EncodeAll(ft, b));
    }
  }

  lemma EncodeOne(ft: FloatText, f: Frame)
    ensures EncodeAll(ft, [f]) == Encode(ft, f)
  {
    hide Encode;
    assert [f][1..] == [] && Encode(ft, f) + [] == Encode(ft, f);
  }

  lemma LogMore(ft: FloatText, fs: seq<Frame>, n: nat)
    requires n < |fs|
    ensures EncodeAll(ft, fs[..n + 1]) == EncodeAll(ft, fs[..n]) + Encode(ft, fs[n])
  {
    assert fs[..n + 1] == fs[..n] + [fs[n]];
    EncodeAllJoin(ft, fs[..n], [fs[n]]);
    EncodeOne(ft, fs[n]);
  }

  lemma LogRest(ft: FloatText, fs: seq<Frame>, n: nat)
    requires n <= |fs|
    ensures EncodeAll(ft, fs) == EncodeAll(ft, fs[..n]) + EncodeAll(ft, fs[n..])
  {
    assert fs == fs[..n] + fs[n..];
    EncodeAllJoin(ft, fs[..n], fs[n..]);
  }

  /** A backlog to which commands were appended, and the offset at which the first of them end. */
  method Fill(ft: FloatText, fs: seq<Frame>, seen: nat, max: nat) returns (backlog: ReplicationBacklog, offset: nat)
    requires seen <= |fs| && AllTransmissible(ft, fs)
    ensures backlog.Valid() && backlog.maxSize == max && backlog.lost == 0 && backlog.cleared == 0
    ensures backlog.log == EncodeAll(ft, fs) && offset == |EncodeAll(ft, fs[..seen])|
  {
    hide Encode, EncodeAll, Transmissible, Writable, ReplicationBacklog.Valid;
    backlog := new ReplicationBacklog(max);
    offset := 0;
    NoFrames(ft);
    assert fs[..0] == [];
    for n := 0 to |fs|
      invariant fresh(backlog) && backlog.Valid() && backlog.maxSize == max && backlog.lost == 0 && backlog.cleared == 0
      invariant backlog.log == EncodeAll(ft, fs[..n])
      invariant offset == |EncodeAll(ft, fs[..Min(n, seen)])|
    {
      LogMore(ft, fs, n);
      TransmissibleIsWritable(ft, fs[n]);
      var ok := backlog.AppendCommand(ft, fs[n]);
      if n < seen {
        offset := offset + |Encode(ft, fs[n])|;
      }
    }
    assert fs[..|fs|] == fs;
  }

  /** A replica that has seen the first commands and asks for the rest by its offset is given, and
      parses, exactly the commands it has not seen, provided that they still fit. */
  method CatchUp(ft: FloatText, fs: seq<Frame>, seen: nat, max: nat) returns (r: Option<seq<Frame>>)
    requires seen <= |fs| && AllTransmissible(ft, fs)
    ensures r.Some? <==> 0 < |EncodeAll(ft, fs[seen..])| <= max
    ensures r.Some? ==> r.value == fs[seen..]
  {
    hide Encode, EncodeAll, Carries, Transmissible, Writable, ReplicationBacklog.Valid, InsidePing;
    var backlog, offset := Fill(ft, fs, seen, max);
    LogRest(ft, fs, seen);
    var data := backlog.DataFrom(offset);
    if data.None? {
      return None;
    }
    assert data.value == EncodeAll(ft, fs[seen..]);
    AllCarried(ft, fs[seen..]);
    OneChunk(data.value);
    FramesOnly(ft, data.value, fs[seen..]);
    var frames, failed := ServeLink(ft, [data.value], AsItems(fs[seen..]));
    r := Some(frames);
  }

  /** Printed frames alone cannot be cut in a harmful place. */
  lemma FramesOnly(ft: FloatText, s: bytes, fs: seq<Frame>)
    ensures FramesOf(AsItems(fs)) == fs && forall n: int :: !InsidePing(ft, s, AsItems(fs), n)
  {
    forall n: int ensures !InsidePing(ft, s, AsItems(fs), n) {
      NoPingInside(ft, s, AsItems(fs), n);
    }
  }

  lemma OneChunk(s: bytes)
    ensures Concat([s]) == s
  {
    assert [s][1..] == [] && s + [] == s;
  }

  lemma {:induction false} TransmissibleIsWritable(ft: FloatText, f: Frame)
    requires Transmissible(ft, f)
    ensures Writable(f)
  {
    match f
    case Array(items) =>
      forall i | 0 <= i < |items| ensures Writable(items[i]) { TransmissibleIsWritable(ft, items[i]); }
    case Set(elements) =>
      forall i | 0 <= i < |elements| ensures Writable(elements[i]) { TransmissibleIsWritable(ft, elements[i]); }
    case Map(pairs) =>
      forall i | 0 <= i < |pairs| ensures Writable(pairs[i].key) && Writable(pairs[i].value) {
        TransmissibleIsWritable(ft, pairs[i].key);
        TransmissibleIsWritable(ft, pairs[i].value);
      }
    case _ =>
  }

  lemma NoFrames(ft: FloatText)
    ensures EncodeAll(ft, []) == []
  {
  }
}
