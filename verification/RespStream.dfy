/** The incremental parser of a connection: bytes arrive in arbitrary pieces, frames come out.  A
    client's connection goes on after a parse error; a replica's link to its master ends. */
module RespStream {
  import opened Bytes
  import opened Resp
  import opened RespIo

  const PING: bytes := [80, 73, 78, 71]
  const PING_FRAME: Frame := Array([BulkString(PING)])

  predicate IsSpace(b: byte) {
    b == 32 || b == 13 || b == 10 || b == 9
  }

  predicate IsLineBreak(b: byte) {
    b == 13 || b == 10
  }

  predicate IsPingTrailer(b: byte) {
    b == 32 || b == 13 || b == 10
  }

  /** What is left after the leading bytes that satisfy `p`. */
  function Skip(p: byte -> bool, u: bytes): (r: bytes)
    ensures |r| <= |u|
    ensures r != [] ==> !p(r[0])
  {
    if u != [] && p(u[0]) then Skip(p, u[1..]) else u
  }

  lemma NothingToSkip()
    ensures Skip(IsSpace, []) == []
  {
  }

  /** The outcome of one call of the parser, with the bytes that are then unread. */
  datatype Step = Got(frame: Frame, unread: bytes) | Waiting(unread: bytes) | Failed(reason: Reason, unread: bytes)

  function ParseStep(ft: FloatText, u: bytes): (r: Step)
    ensures r.Got? ==> |r.unread| < |u|
  {
    var v := Skip(IsSpace, u);
    if v == [] then Waiting([])
    else if PING <= v then Got(PING_FRAME, Skip(IsPingTrailer, v[4..]))
    else
      match ParseFrame(ft, v)
      case Done(f, n) => Got(f, Skip(IsLineBreak, v[n..]))
      case More => Waiting(v)
      case Bad(e) => Failed(e, v)
  }

  /** The parser of one connection. */
  class RespParser {
    var buffer: bytes
    var position: nat

    ghost predicate Valid()
      reads this
    {
      position <= |buffer|
    }

    ghost function Unread(): bytes
      reads this
      requires Valid()
    {
      buffer[position..]
    }

    constructor ()
      ensures Valid() && Unread() == []
    {
      buffer, position := [], 0;
    }

    method Feed(data: bytes)
      requires Valid()
      modifies this`buffer
      ensures Valid() && Unread() == old(Unread()) + data
    {
      buffer := buffer + data;
    }

    /** Advances over bytes that satisfy `p`. */
    method SkipWhile(p: byte -> bool)
      requires Valid()
      modifies this`position
      ensures Valid() && Unread() == Skip(p, old(Unread()))
    {
      while position < |buffer| && p(buffer[position])
        invariant Valid() && Skip(p, Unread()) == Skip(p, old(Unread()))
      {
        assert Unread()[1..] == buffer[position + 1..];
        position := position + 1;
      }
    }

    /** One attempt at a frame.  Compaction drops what has been read and nothing else. */
    method Parse(ft: FloatText) returns (r: Step)
      requires Valid()
      modifies this
      ensures Valid() && r == ParseStep(ft, old(Unread())) && Unread() == r.unread
    {
      hide Skip, ParseFrame;
      if position >= |buffer| {
        NothingToSkip();
        return Waiting([]);
      }
      SkipWhile(IsSpace);
      if position >= |buffer| {
        return Waiting([]);
      }
      if position + 4 <= |buffer| && buffer[position..position + 4] == PING {
        assert Unread()[..4] == buffer[position..position + 4];
        ghost var v := Unread();
        position := position + 4;
        assert Unread() == v[4..];
        SkipWhile(IsPingTrailer);
        return Got(PING_FRAME, buffer[position..]);
      }
      assert position + 4 <= |buffer| ==> Unread()[..4] == buffer[position..position + 4];
      ghost var v := Unread();
      var parsed := ParseFrameM(ft, buffer[position..]);
      match parsed
      case Done(f, n) =>
        position := position + n;
        assert Unread() == v[n..];
        SkipWhile(IsLineBreak);
        if position > |buffer| / 2 {
          buffer := buffer[position..];
          position := 0;
        }
        return Got(f, buffer[position..]);
      case More =>
        return Waiting(buffer[position..]);
      case Bad(e) =>
        return Failed(e, buffer[position..]);
    }

    method Clear()
      modifies this
      ensures Valid() && Unread() == []
    {
      buffer, position := [], 0;
    }
  }

  /** Parsing until nothing more comes out: the frames, the bytes left, and whether it ended
      with an error. */
  datatype Drained = Drained(frames: seq<Frame>, unread: bytes, failed: bool)

  function Drain(ft: FloatText, u: bytes): Drained
    decreases |u|
  {
    match ParseStep(ft, u)
    case Waiting(v) => Drained([], v, false)
    case Failed(_, v) => Drained([], v, true)
    case Got(f, v) =>
      var d := Drain(ft, v);
      Drained([f] + d.frames, d.unread, d.failed)
  }

  /** A client's connection: the frames, the bytes left, and for each piece whether an error was
      reported after it. */
  datatype Lasting = Lasting(frames: seq<Frame>, unread: bytes, warned: seq<bool>)

  /** Each arriving piece is fed and then parsed until nothing more comes out; after an error the bytes
      that are still unread wait for the next piece. */
  function Connection(ft: FloatText, u: bytes, chunks: seq<bytes>): Lasting
    decreases |chunks|
  {
    if chunks == [] then Lasting([], u, [])
    else
      var d := Drain(ft, u + chunks[0]);
      var e := Connection(ft, d.unread, chunks[1..]);
      Lasting(d.frames + e.frames, e.unread, [d.failed] + e.warned)
  }

  /** A replica's link: the same, but the first error ends it. */
  function Session(ft: FloatText, u: bytes, chunks: seq<bytes>): Drained
    decreases |chunks|
  {
    if chunks == [] then Drained([], u, false)
    else
      var d := Drain(ft, u + chunks[0]);
      if d.failed then d
      else
        var e := Session(ft, d.unread, chunks[1..]);
        Drained(d.frames + e.frames, e.unread, e.failed)
  }

  function Concat(chunks: seq<bytes>): bytes {
    if chunks == [] then [] else chunks[0] + Concat(chunks[1..])
  }

  /** What may be sent: a printed frame, or the four letters `PING` by themselves. */
  datatype Item = Printed(frame: Frame) | RawPing

  function ItemBytes(ft: FloatText, x: Item): bytes {
    if x.RawPing? then PING else Encode(ft, x.frame)
  }

  function FrameOf(x: Item): Frame {
    if x.RawPing? then PING_FRAME else x.frame
  }

  function FramesOf(xs: seq<Item>): (fs: seq<Frame>)
    ensures |fs| == |xs| && forall i :: 0 <= i < |xs| ==> fs[i] == FrameOf(xs[i])
  {
    seq(|xs|, i requires 0 <= i < |xs| => FrameOf(xs[i]))
  }

  function AsItems(fs: seq<Frame>): (xs: seq<Item>)
    ensures |xs| == |fs| && forall i :: 0 <= i < |fs| ==> xs[i] == Printed(fs[i])
  {
    seq(|fs|, i requires 0 <= i < |fs| => Printed(fs[i]))
  }

  /** `u` is a sequence of items with any amount of white space before, between and after them. */
  ghost predicate Carries(ft: FloatText, u: bytes, xs: seq<Item>)
    decreases |xs|
  {
    var v := Skip(IsSpace, u);
    if xs == [] then v == []
    else ItemBytes(ft, xs[0]) <= v && Carries(ft, v[|ItemBytes(ft, xs[0])|..], xs[1..])
  }

  /** The position `n` of the stream lies strictly inside a raw `PING`. */
  ghost predicate InsidePing(ft: FloatText, u: bytes, xs: seq<Item>, n: int)
    decreases |xs|, 1
  {
    var v := Skip(IsSpace, u);
    InsideItem(ft, v, xs, n - |u| + |v|)
  }

  /** The same for a stream that starts with the first item. */
  ghost predicate InsideItem(ft: FloatText, v: bytes, xs: seq<Item>, n: int)
    decreases |xs|, 0
  {
    && xs != [] && |ItemBytes(ft, xs[0])| <= |v|
    && if n < |ItemBytes(ft, xs[0])| then xs[0].RawPing? && n > 0
       else InsidePing(ft, v[|ItemBytes(ft, xs[0])|..], xs[1..], n - |ItemBytes(ft, xs[0])|)
  }

  ghost predicate AllTransmissible(ft: FloatText, fs: seq<Frame>) {
    forall i :: 0 <= i < |fs| ==> Transmissible(ft, fs[i])
  }

  ghost predicate Sendable(ft: FloatText, xs: seq<Item>) {
    forall i :: 0 <= i < |xs| && xs[i].Printed? ==> Transmissible(ft, xs[i].frame)
  }

  lemma {:induction false} SkipAppend(p: byte -> bool, u: bytes, more: bytes)
    ensures Skip(p, u + more) == if Skip(p, u) == [] then Skip(p, more) else Skip(p, u) + more
  {
    if u == [] {
      assert u + more == more;
    } else if p(u[0]) {
      assert (u + more)[1..] == u[1..] + more;
      SkipAppend(p, u[1..], more);
    }
  }

  /** Skipping some white space first makes no difference to skipping all of it. */
  lemma {:induction false} SkipTwice(p: byte -> bool, u: bytes)
    requires forall b :: p(b) ==> IsSpace(b)
    ensures Skip(IsSpace, Skip(p, u)) == Skip(IsSpace, u)
  {
    if u != [] && p(u[0]) {
      SkipTwice(p, u[1..]);
    }
  }

  lemma {:induction false} SkipIdempotent(u: bytes)
    ensures Skip(IsSpace, Skip(IsSpace, u)) == Skip(IsSpace, u)
  {
    if u != [] && IsSpace(u[0]) {
      SkipIdempotent(u[1..]);
    }
  }

  /** Positions from `a` on in one stream are those from `b` on in another. */
  ghost predicate Moved(ft: FloatText, u: bytes, xs: seq<Item>, a: nat, w: bytes, ys: seq<Item>, b: nat) {
    forall n: int :: n >= a ==> (InsidePing(ft, u, xs, n) <==> InsidePing(ft, w, ys, n - a + b))
  }

  /** What a stream carries, and where, depends only on what follows its leading white space. */
  lemma CarriesSkipped(ft: FloatText, u: bytes, w: bytes, xs: seq<Item>, a: nat, b: nat)
    requires Skip(IsSpace, u) == Skip(IsSpace, w) && a - b == |u| - |w|
    ensures Carries(ft, u, xs) <==> Carries(ft, w, xs)
    ensures Moved(ft, u, xs, a, w, xs, b)
  {
    forall n: int | n >= a ensures InsidePing(ft, u, xs, n) <==> InsidePing(ft, w, xs, n - a + b) {
      InsideSkipped(ft, u, w, xs, n);
    }
  }

  lemma CarriesFirst(ft: FloatText, u: bytes, v: bytes, xs: seq<Item>)
    requires v == Skip(IsSpace, u) && xs != [] && Carries(ft, u, xs)
    ensures ItemBytes(ft, xs[0]) <= v && Carries(ft, v[|ItemBytes(ft, xs[0])|..], xs[1..])
  {
    hide Skip, ItemBytes;
  }

  lemma InsideSkipped(ft: FloatText, u: bytes, w: bytes, xs: seq<Item>, n: int)
    requires Skip(IsSpace, u) == Skip(IsSpace, w)
    ensures InsidePing(ft, u, xs, n) <==> InsidePing(ft, w, xs, n - |u| + |w|)
  {
    hide InsideItem, Skip;
  }

  lemma InsideFirst(ft: FloatText, u: bytes, v: bytes, xs: seq<Item>, n: int)
    requires v == Skip(IsSpace, u) && xs != [] && |ItemBytes(ft, xs[0])| <= |v|
    ensures var s := ItemBytes(ft, xs[0]);
      var at := n - |u| + |v|;
      InsidePing(ft, u, xs, n) <==> if at < |s| then xs[0].RawPing? && at > 0 else InsidePing(ft, v[|s|..], xs[1..], at - |s|)
  {
    hide Skip, ItemBytes;
  }

  lemma MovedOn(ft: FloatText, u: bytes, xs: seq<Item>, a: nat, w: bytes, ys: seq<Item>, b: nat, y: bytes, zs: seq<Item>, c: nat)
    requires Moved(ft, u, xs, a, w, ys, b) && Moved(ft, w, ys, b, y, zs, c)
    ensures Moved(ft, u, xs, a, y, zs, c)
  {
    hide InsidePing;
    forall n: int | n >= a ensures InsidePing(ft, u, xs, n) <==> InsidePing(ft, y, zs, n - a + c) {
      assert InsidePing(ft, w, ys, n - a + b) <==> InsidePing(ft, y, zs, n - a + b - b + c);
    }
  }

  lemma SkipThenMore(p: byte -> bool, u: bytes, more: bytes)
    requires forall b :: p(b) ==> IsSpace(b)
    ensures Skip(IsSpace, Skip(p, u) + more) == Skip(IsSpace, u + more)
  {
    hide Skip;
    SkipAppend(IsSpace, u, more);
    SkipAppend(IsSpace, Skip(p, u), more);
    SkipTwice(p, u);
  }

  /** A printed frame starts with its type byte, which is neither white space nor a `P`. */
  lemma TypeByte(ft: FloatText, f: Frame)
    requires Transmissible(ft, f)
    ensures Encode(ft, f) != [] && !IsSpace(Encode(ft, f)[0]) && Encode(ft, f)[0] != PING[0]
  {
  }

  lemma FirstByte(ft: FloatText, x: Item)
    requires x.Printed? ==> Transmissible(ft, x.frame)
    ensures ItemBytes(ft, x) != [] && !IsSpace(ItemBytes(ft, x)[0]) && (ItemBytes(ft, x)[0] == PING[0] <==> x.RawPing?)
  {
    if x.Printed? { TypeByte(ft, x.frame); }
  }

  /** A first item that is there as a whole comes out; the rest of it is skipped with some of the white
      space that follows. */
  lemma FirstItemParsed(ft: FloatText, v: bytes, x: Item)
    requires (x.Printed? ==> Transmissible(ft, x.frame)) && Skip(IsSpace, v) == v && ItemBytes(ft, x) <= v
    ensures var after := v[|ItemBytes(ft, x)|..];
      ParseStep(ft, v) == Got(FrameOf(x), if x.RawPing? then Skip(IsPingTrailer, after) else Skip(IsLineBreak, after))
  {
    hide ParseFrame, Encode, Transmissible, Skip;
    var s := ItemBytes(ft, x);
    FirstByte(ft, x);
    assert v[0] == s[0];
    if x.Printed? {
      assert v == s + v[|s|..];
      RoundTrip(ft, x.frame, v[|s|..]);
    }
  }

  /** A first item of which only a beginning is there: a frame is waited for, a raw `PING` is an error. */
  lemma FirstItemCut(ft: FloatText, v: bytes, x: Item)
    requires (x.Printed? ==> Transmissible(ft, x.frame)) && v != [] && Skip(IsSpace, v) == v
    requires v <= ItemBytes(ft, x) && |v| < |ItemBytes(ft, x)|
    ensures if x.RawPing? then ParseStep(ft, v).Failed? && ParseStep(ft, v).unread == v else ParseStep(ft, v) == Waiting(v)
  {
    hide Encode, Transmissible, Skip;
    FirstByte(ft, x);
    assert v[0] == ItemBytes(ft, x)[0];
    if x.Printed? {
      PrefixNeedsMore(ft, x.frame, |v|);
      assert v == Encode(ft, x.frame)[..|v|];
    }
  }

  lemma StepSkips(ft: FloatText, u: bytes)
    ensures ParseStep(ft, Skip(IsSpace, u)) == ParseStep(ft, u) && Skip(IsSpace, Skip(IsSpace, u)) == Skip(IsSpace, u)
  {
    hide ParseFrame;
    SkipIdempotent(u);
  }

  /** One step of the parser on a stream of which only a first part `u` has arrived. */
  ghost predicate StepFits(ft: FloatText, u: bytes, future: bytes, xs: seq<Item>, r: Step) {
    match r
    case Failed(_, w) =>
      && InsidePing(ft, u + future, xs, |u|) && future != []
      && Carries(ft, w + future, xs) && Moved(ft, u + future, xs, |u|, w + future, xs, |w|)
    case Waiting(w) =>
      && !InsidePing(ft, u + future, xs, |u|) && (future == [] ==> xs == [])
      && Carries(ft, w + future, xs) && Moved(ft, u + future, xs, |u|, w + future, xs, |w|)
    case Got(f, w) =>
      && xs != [] && f == FrameOf(xs[0])
      && Carries(ft, w + future, xs[1..]) && Moved(ft, u + future, xs, |u|, w + future, xs[1..], |w|)
  }

  lemma StepOnCarried(ft: FloatText, u: bytes, future: bytes, xs: seq<Item>)
    requires Sendable(ft, xs) && Carries(ft, u + future, xs)
    ensures StepFits(ft, u, future, xs, ParseStep(ft, u))
  {
    var v := Skip(IsSpace, u);
    if v == [] {
      NothingArrived(ft, u, future, xs);
    } else {
      SkipAppend(IsSpace, u, future);
      SomethingCarried(ft, u + future, xs);
      CarriesFirst(ft, u + future, v + future, xs);
      if |ItemBytes(ft, xs[0])| <= |v| {
        FirstItemHere(ft, u, v, future, xs);
      } else {
        FirstItemPartly(ft, u, v, future, xs);
      }
    }
  }

  lemma SomethingCarried(ft: FloatText, u: bytes, xs: seq<Item>)
    requires Carries(ft, u, xs) && Skip(IsSpace, u) != []
    ensures xs != []
  {
  }

  lemma NothingArrived(ft: FloatText, u: bytes, future: bytes, xs: seq<Item>)
    requires Sendable(ft, xs) && Carries(ft, u + future, xs) && Skip(IsSpace, u) == []
    ensures StepFits(ft, u, future, xs, ParseStep(ft, u))
  {
    SkipAppend(IsSpace, u, future);
    assert [] + future == future;
    CarriesSkipped(ft, u + future, future, xs, |u|, 0);
    assert ParseStep(ft, u) == Waiting([]);
    hide ParseStep, ItemBytes, Skip, InsidePing;
    if xs == [] {
      NoPingInside(ft, u + future, xs, |u|);
    } else {
      var v := Skip(IsSpace, u + future);
      FirstByte(ft, xs[0]);
      CarriesFirst(ft, u + future, v, xs);
      InsideFirst(ft, u + future, v, xs, |u|);
    }
  }

  lemma FirstItemPartly(ft: FloatText, u: bytes, v: bytes, future: bytes, xs: seq<Item>)
    requires Sendable(ft, xs) && Carries(ft, u + future, xs) && xs != [] && v != []
    requires v == Skip(IsSpace, u) && Skip(IsSpace, u + future) == v + future
    requires ItemBytes(ft, xs[0]) <= v + future && |v| < |ItemBytes(ft, xs[0])|
    ensures StepFits(ft, u, future, xs, ParseStep(ft, u))
  {
    StepSkips(ft, u);
    SkipThenMore(IsSpace, u, future);
    CarriesSkipped(ft, u + future, v + future, xs, |u|, |v|);
    InsideFirst(ft, u + future, v + future, xs, |u|);
    hide ParseStep, Transmissible, Skip, InsidePing, Carries, ItemBytes;
    var s := ItemBytes(ft, xs[0]);
    assert v == s[..|v|];
    FirstItemCut(ft, v, xs[0]);
    assert future == [] ==> v + future == v;
  }

  lemma FirstItemHere(ft: FloatText, u: bytes, v: bytes, future: bytes, xs: seq<Item>)
    requires Sendable(ft, xs) && Carries(ft, u + future, xs) && xs != [] && v != []
    requires v == Skip(IsSpace, u) && Skip(IsSpace, u + future) == v + future
    requires ItemBytes(ft, xs[0]) <= v + future && |ItemBytes(ft, xs[0])| <= |v|
    ensures StepFits(ft, u, future, xs, ParseStep(ft, u))
  {
    var k := |ItemBytes(ft, xs[0])|;
    var after, w := v[k..], ParseStep(ft, u).unread;
    PastFirst(ft, u, v, future, xs);
    StepOver(ft, u, v, future, xs[0]);
    hide ParseStep, Transmissible, Skip, InsidePing, Carries, ItemBytes, Moved, Sendable;
    CarriesSkipped(ft, after + future, w + future, xs[1..], |after|, |w|);
    MovedOn(ft, u + future, xs, |u|, after + future, xs[1..], |after|, w + future, xs[1..], |w|);
  }

  lemma PastFirst(ft: FloatText, u: bytes, v: bytes, future: bytes, xs: seq<Item>)
    requires xs != [] && Carries(ft, u + future, xs) && |v| <= |u|
    requires Skip(IsSpace, u + future) == v + future && |ItemBytes(ft, xs[0])| <= |v|
    ensures var after := v[|ItemBytes(ft, xs[0])|..];
      Carries(ft, after + future, xs[1..]) && Moved(ft, u + future, xs, |u|, after + future, xs[1..], |after|)
  {
    CarriesFirst(ft, u + future, v + future, xs);
    hide Skip, InsidePing, Carries, ItemBytes;
    var k := |ItemBytes(ft, xs[0])|;
    var after := v[k..];
    assert (v + future)[k..] == after + future;
    forall n: int | n >= |u| ensures InsidePing(ft, u + future, xs, n) <==> InsidePing(ft, after + future, xs[1..], n - |u| + |after|) {
      InsideFirst(ft, u + future, v + future, xs, n);
    }
  }

  lemma StepOver(ft: FloatText, u: bytes, v: bytes, future: bytes, x: Item)
    requires (x.Printed? ==> Transmissible(ft, x.frame)) && v == Skip(IsSpace, u)
    requires ItemBytes(ft, x) <= v + future && |ItemBytes(ft, x)| <= |v|
    ensures var r := ParseStep(ft, u);
      && r.Got? && r.frame == FrameOf(x)
      && Skip(IsSpace, r.unread + future) == Skip(IsSpace, v[|ItemBytes(ft, x)|..] + future)
  {
    StepSkips(ft, u);
    hide ParseStep, Transmissible, Skip, ItemBytes;
    var s := ItemBytes(ft, x);
    assert s == (v + future)[..|s|] == v[..|s|];
    FirstItemParsed(ft, v, x);
    SkipThenMore(IsLineBreak, v[|s|..], future);
    SkipThenMore(IsPingTrailer, v[|s|..], future);
  }

  /** Draining fails exactly if what has arrived ends inside a raw `PING`.  In any case it delivers an
      initial part of the items, the rest is still to come, and once everything is here it delivers all. */
  lemma {:induction false} DrainCarried(ft: FloatText, u: bytes, future: bytes, xs: seq<Item>)
    requires Sendable(ft, xs) && Carries(ft, u + future, xs)
    ensures var d := Drain(ft, u);
      && d.frames <= FramesOf(xs)
      && (d.failed <==> InsidePing(ft, u + future, xs, |u|))
      && Carries(ft, d.unread + future, xs[|d.frames|..])
      && Moved(ft, u + future, xs, |u|, d.unread + future, xs[|d.frames|..], |d.unread|)
      && (future == [] ==> |d.frames| == |xs|)
    decreases |u|
  {
    StepOnCarried(ft, u, future, xs);
    hide ParseStep, Carries, InsidePing, FramesOf;
    var r := ParseStep(ft, u);
    if r.Got? {
      assert |r.unread| < |u| by { StepShrinks(ft, u); }
      var ys := xs[1..];
      DrainCarried(ft, r.unread, future, ys);
      var d := Drain(ft, r.unread);
      assert InsidePing(ft, u + future, xs, |u|) <==> InsidePing(ft, r.unread + future, ys, |u| - |u| + |r.unread|);
      FramesTail(xs, d.frames);
      assert Drain(ft, u).frames == [FrameOf(xs[0])] + d.frames;
      assert xs[|d.frames| + 1..] == ys[|d.frames|..];
      MovedOn(ft, u + future, xs, |u|, r.unread + future, ys, |r.unread|, d.unread + future, ys[|d.frames|..], |d.unread|);
    } else {
      assert xs[0..] == xs;
    }
  }

  lemma FramesTail(xs: seq<Item>, fs: seq<Frame>)
    requires xs != [] && fs <= FramesOf(xs[1..])
    ensures [FrameOf(xs[0])] + fs <= FramesOf(xs)
  {
    hide FrameOf;
    assert FramesOf(xs) == [FrameOf(xs[0])] + FramesOf(xs[1..]);
  }

  lemma StepShrinks(ft: FloatText, u: bytes)
    ensures ParseStep(ft, u).Got? ==> |ParseStep(ft, u).unread| < |u|
  {
  }

  lemma NothingCarried(ft: FloatText, xs: seq<Item>)
    requires Sendable(ft, xs) && Carries(ft, [], xs)
    ensures xs == []
  {
    NothingToSkip();
    if xs != [] {
      FirstByte(ft, xs[0]);
    }
  }

  /** For each piece, counted from the position `at` of the stream `w`: does it end strictly inside a
      raw `PING`? */
  ghost function Insides(ft: FloatText, w: bytes, at: nat, chunks: seq<bytes>, xs: seq<Item>): (r: seq<bool>)
    ensures |r| == |chunks|
    decreases |chunks|
  {
    if chunks == [] then []
    else
      var next := at + |chunks[0]|;
      [InsidePing(ft, w, xs, next)] + Insides(ft, w, next, chunks[1..], xs)
  }

  lemma {:induction false} InsidesMoved(ft: FloatText, u: bytes, xs: seq<Item>, a: nat, w: bytes, ys: seq<Item>, b: nat, chunks: seq<bytes>)
    requires Moved(ft, u, xs, a, w, ys, b)
    ensures Insides(ft, u, a, chunks, xs) == Insides(ft, w, b, chunks, ys)
    decreases |chunks|
  {
    hide InsidePing;
    if chunks != [] {
      var n := |chunks[0]|;
      assert InsidePing(ft, u, xs, a + n) <==> InsidePing(ft, w, ys, a + n - a + b);
      forall m: int | m >= a + n ensures InsidePing(ft, u, xs, m) <==> InsidePing(ft, w, ys, m - (a + n) + (b + n)) {
        assert InsidePing(ft, u, xs, m) <==> InsidePing(ft, w, ys, m - a + b);
      }
      InsidesMoved(ft, u, xs, a + n, w, ys, b + n, chunks[1..]);
    }
  }

  lemma {:induction false} InsidesAt(ft: FloatText, w: bytes, at: nat, chunks: seq<bytes>, xs: seq<Item>, i: nat)
    requires i < |chunks|
    ensures Insides(ft, w, at, chunks, xs)[i] <==> InsidePing(ft, w, xs, at + |Concat(chunks[..i + 1])|)
    decreases |chunks|
  {
    hide InsidePing;
    assert chunks[..i + 1][0] == chunks[0] && chunks[..i + 1][1..] == chunks[1..][..i];
    if i == 0 {
      assert Concat(chunks[1..][..0]) == [];
    } else {
      InsidesAt(ft, w, at + |chunks[0]|, chunks[1..], xs, i - 1);
    }
  }

  /** A client's connection on which `u` is still unread delivers all items. */
  lemma {:induction false} ConnectionCarried(ft: FloatText, u: bytes, chunks: seq<bytes>, xs: seq<Item>)
    requires Sendable(ft, xs) && Carries(ft, u + Concat(chunks), xs)
    requires chunks == [] ==> xs == []
    ensures var c := Connection(ft, u, chunks);
      c.frames == FramesOf(xs) && c.warned == Insides(ft, u + Concat(chunks), |u|, chunks, xs)
    decreases |chunks|
  {
    hide Drain, Carries, InsidePing, FramesOf;
    if chunks != [] {
      var future := Concat(chunks[1..]);
      var got := u + chunks[0];
      assert u + Concat(chunks) == got + future;
      DrainCarried(ft, got, future, xs);
      var d := Drain(ft, got);
      var ys := xs[|d.frames|..];
      InsidesMoved(ft, got + future, xs, |got|, d.unread + future, ys, |d.unread|, chunks[1..]);
      ConnectionCarried(ft, d.unread, chunks[1..], ys);
      FramesSplit(xs, d.frames);
    }
  }

  lemma FramesSplit(xs: seq<Item>, fs: seq<Frame>)
    requires fs <= FramesOf(xs)
    ensures FramesOf(xs) == fs + FramesOf(xs[|fs|..])
  {
    hide FrameOf;
  }

  /** The piece `i` ends strictly inside a raw `PING`. */
  ghost predicate EndsInside(ft: FloatText, chunks: seq<bytes>, xs: seq<Item>, i: nat)
    requires i < |chunks|
  {
    InsidePing(ft, Concat(chunks), xs, |Concat(chunks[..i + 1])|)
  }

  /** The pieces do not matter to a client: however a stream of printed frames and raw `PING`s is cut
      up, exactly these items come out, in order.  An error is reported after a piece if and only if it
      ends strictly inside a raw `PING`. */
  lemma ChunkingIndependence(ft: FloatText, chunks: seq<bytes>, xs: seq<Item>)
    requires Sendable(ft, xs) && Carries(ft, Concat(chunks), xs)
    ensures var c := Connection(ft, [], chunks);
      && c.frames == FramesOf(xs) && |c.warned| == |chunks|
      && forall i :: 0 <= i < |chunks| ==> (c.warned[i] <==> EndsInside(ft, chunks, xs, i))
  {
    if chunks == [] {
      NothingCarried(ft, xs);
    }
    hide Carries, Connection, FramesOf, Insides, EndsInside, Concat;
    assert [] + Concat(chunks) == Concat(chunks);
    ConnectionCarried(ft, [], chunks, xs);
    forall i | 0 <= i < |chunks| ensures Insides(ft, Concat(chunks), 0, chunks, xs)[i] <==> EndsInside(ft, chunks, xs, i) {
      InsidesFromStart(ft, chunks, xs, i);
    }
  }

  lemma InsidesFromStart(ft: FloatText, chunks: seq<bytes>, xs: seq<Item>, i: nat)
    requires i < |chunks|
    ensures Insides(ft, Concat(chunks), 0, chunks, xs)[i] <==> EndsInside(ft, chunks, xs, i)
  {
    hide Insides, InsidePing, Concat;
    InsidesAt(ft, Concat(chunks), 0, chunks, xs, i);
  }

  /** Whatever arrives: a link ends if and only if a connection would report an error, and until then it
      delivers the same. */
  lemma {:induction false} LinkStopsAtError(ft: FloatText, u: bytes, chunks: seq<bytes>)
    ensures var d, c := Session(ft, u, chunks), Connection(ft, u, chunks);
      && (d.failed <==> true in c.warned)
      && d.frames <= c.frames && (!d.failed ==> d.frames == c.frames && d.unread == c.unread)
    decreases |chunks|
  {
    hide Drain;
    if chunks != [] {
      var d := Drain(ft, u + chunks[0]);
      LinkStopsAtError(ft, d.unread, chunks[1..]);
      PrefixJoin(d.frames, Session(ft, d.unread, chunks[1..]).frames, Connection(ft, d.unread, chunks[1..]).frames);
    }
  }

  lemma PrefixJoin(a: seq<Frame>, b: seq<Frame>, c: seq<Frame>)
    requires b <= c
    ensures a + b <= a + c && a <= a + c
  {
  }

  /** Some piece ends strictly inside a raw `PING`. */
  ghost predicate SomePieceEndsInside(ft: FloatText, chunks: seq<bytes>, xs: seq<Item>) {
    exists i :: 0 <= i < |chunks| && EndsInside(ft, chunks, xs, i)
  }

  /** A link on such a stream ends with an error if and only if a piece ends strictly inside a raw
      `PING`, and otherwise exactly these items come out, in order. */
  lemma SessionFailsIff(ft: FloatText, chunks: seq<bytes>, xs: seq<Item>)
    requires Sendable(ft, xs) && Carries(ft, Concat(chunks), xs)
    ensures var d := Session(ft, [], chunks);
      && (d.failed <==> SomePieceEndsInside(ft, chunks, xs))
      && d.frames <= FramesOf(xs) && (!d.failed ==> d.frames == FramesOf(xs))
  {
    hide Session, Connection, FramesOf, EndsInside, Carries;
    ChunkingIndependence(ft, chunks, xs);
    LinkStopsAtError(ft, [], chunks);
    var c := Connection(ft, [], chunks);
    if i :| 0 <= i < |chunks| && EndsInside(ft, chunks, xs, i) {
      assert c.warned[i];
    }
  }

  lemma InsideNone(ft: FloatText, u: bytes, xs: seq<Item>, n: int)
    requires xs == [] || |ItemBytes(ft, xs[0])| > |Skip(IsSpace, u)|
    ensures !InsidePing(ft, u, xs, n)
  {
    hide ItemBytes, Skip;
  }

  lemma {:induction false} NoPingInside(ft: FloatText, u: bytes, xs: seq<Item>, n: int)
    requires forall i :: 0 <= i < |xs| ==> xs[i].Printed?
    ensures !InsidePing(ft, u, xs, n)
    decreases |xs|
  {
    hide ItemBytes, Skip;
    var v := Skip(IsSpace, u);
    if xs != [] && |ItemBytes(ft, xs[0])| <= |v| {
      var k := |ItemBytes(ft, xs[0])|;
      InsideFirst(ft, u, v, xs, n);
      NoPingInside(ft, v[k..], xs[1..], n - |u| + |v| - k);
    } else {
      InsideNone(ft, u, xs, n);
    }
  }

  /** Printed frames alone never fail, however they are cut up: on a client's connection and on a link
      exactly those frames come out, in order, without an error. */
  lemma FramesNeverFail(ft: FloatText, chunks: seq<bytes>, fs: seq<Frame>)
    requires AllTransmissible(ft, fs) && Carries(ft, Concat(chunks), AsItems(fs))
    ensures var c := Connection(ft, [], chunks); c.frames == fs && true !in c.warned
    ensures var d := Session(ft, [], chunks); d.frames == fs && !d.failed
  {
    hide Session, Connection, Carries, InsidePing;
    var xs := AsItems(fs);
    ChunkingIndependence(ft, chunks, xs);
    LinkStopsAtError(ft, [], chunks);
    forall n: int ensures !InsidePing(ft, Concat(chunks), xs, n) {
      NoPingInside(ft, Concat(chunks), xs, n);
    }
    assert FramesOf(xs) == fs;
  }

  /** Items separated by white space: the plain way to make such a stream. */
  function Padded(ft: FloatText, pads: seq<bytes>, xs: seq<Item>): bytes
    requires |pads| == |xs| + 1
  {
    if xs == [] then pads[0] else pads[0] + ItemBytes(ft, xs[0]) + Padded(ft, pads[1..], xs[1..])
  }

  /** Between frames spaces, tabs and line ends are skipped; a raw command is the four letters `PING`. */
  lemma SpacesAndPing(b: byte)
    ensures IsSpace(b) <==> b in {32, 9, 13, 10}
    ensures |PING| == 4 && forall i :: 0 <= i < 4 ==> PING[i] as int == "PING"[i] as int
    ensures PING_FRAME == Array([BulkString(PING)])
  {
  }

  lemma {:induction false} PaddedCarries(ft: FloatText, pads: seq<bytes>, xs: seq<Item>)
    requires |pads| == |xs| + 1 && Sendable(ft, xs)
    requires forall i, j :: 0 <= i < |pads| && 0 <= j < |pads[i]| ==> pads[i][j] in {32, 9, 13, 10}
    ensures Carries(ft, Padded(ft, pads, xs), xs)
  {
    hide ItemBytes, Transmissible;
    AllSpace(pads[0]);
    if xs != [] {
      var s, tail := ItemBytes(ft, xs[0]), Padded(ft, pads[1..], xs[1..]);
      FirstByte(ft, xs[0]);
      assert Padded(ft, pads, xs) == pads[0] + (s + tail);
      SkipAppend(IsSpace, pads[0], s + tail);
      assert Skip(IsSpace, s + tail) == s + tail;
      assert (s + tail)[|s|..] == tail;
      PaddedCarries(ft, pads[1..], xs[1..]);
    }
  }

  lemma {:induction false} AllSpace(u: bytes)
    requires forall j :: 0 <= j < |u| ==> IsSpace(u[j])
    ensures Skip(IsSpace, u) == []
  {
    if u != [] {
      AllSpace(u[1..]);
    }
  }

  /** The loop a connection runs after each arrival. */
  method DrainParser(ft: FloatText, p: RespParser) returns (frames: seq<Frame>, failed: bool)
    requires p.Valid()
    modifies p
    ensures p.Valid() && Drained(frames, p.Unread(), failed) == Drain(ft, old(p.Unread()))
  {
    hide ParseStep;
    frames, failed := [], false;
    while true
      invariant p.Valid() && !failed
      invariant var d := Drain(ft, p.Unread());
        Drain(ft, old(p.Unread())) == Drained(frames + d.frames, d.unread, d.failed)
      decreases |p.Unread()|
    {
      StepShrinks(ft, p.Unread());
      var step := p.Parse(ft);
      match step
      case Got(f, _) => frames := frames + [f];
      case Waiting(_) => return;
      case Failed(_, _) => failed := true; return;
    }
  }

  lemma ConnectionCons(ft: FloatText, u: bytes, chunks: seq<bytes>, n: nat)
    requires n < |chunks|
    ensures var d := Drain(ft, u + chunks[n]);
      var e := Connection(ft, d.unread, chunks[n + 1..]);
      Connection(ft, u, chunks[n..]) == Lasting(d.frames + e.frames, e.unread, [d.failed] + e.warned)
  {
    hide Drain;
    assert chunks[n..][1..] == chunks[n + 1..];
  }

  lemma SessionCons(ft: FloatText, u: bytes, chunks: seq<bytes>, n: nat)
    requires n < |chunks|
    ensures var d, s := Drain(ft, u + chunks[n]), Session(ft, u, chunks[n..]);
      if d.failed then s == d
      else var e := Session(ft, d.unread, chunks[n + 1..]); s == Drained(d.frames + e.frames, e.unread, e.failed)
  {
    hide Drain;
    assert chunks[n..][1..] == chunks[n + 1..];
  }

  lemma NoMorePieces(ft: FloatText, u: bytes, chunks: seq<bytes>)
    ensures Connection(ft, u, chunks[|chunks|..]) == Lasting([], u, []) && Session(ft, u, chunks[|chunks|..]) == Drained([], u, false)
  {
  }

  /** A client's whole connection: an error is noted, and the loop goes on. */
  method ServeClient(ft: FloatText, chunks: seq<bytes>, ghost xs: seq<Item>) returns (frames: seq<Frame>, warned: seq<bool>)
    requires Sendable(ft, xs) && Carries(ft, Concat(chunks), xs)
    ensures frames == FramesOf(xs) && |warned| == |chunks|
    ensures forall i :: 0 <= i < |chunks| ==> (warned[i] <==> EndsInside(ft, chunks, xs, i))
  {
    hide Drain, Carries, Connection, Sendable, Concat, EndsInside, FramesOf;
    var p := new RespParser();
    frames, warned := [], [];
    ChunkingIndependence(ft, chunks, xs);
    assert chunks[0..] == chunks;
    ghost var whole := Connection(ft, [], chunks);
    for n := 0 to |chunks|
      invariant p.Valid()
      invariant var c := Connection(ft, p.Unread(), chunks[n..]);
        whole.frames == frames + c.frames && whole.warned == warned + c.warned
    {
      ConnectionCons(ft, p.Unread(), chunks, n);
      p.Feed(chunks[n]);
      var got, failed := DrainParser(ft, p);
      ghost var c := Connection(ft, p.Unread(), chunks[n + 1..]);
      Associative(frames, got, c.frames);
      Associative(warned, [failed], c.warned);
      frames, warned := frames + got, warned + [failed];
    }
    NoMorePieces(ft, p.Unread(), chunks);
    assert whole.warned == warned && whole.frames == frames;
  }

  /** A replica's whole link to its master, from the first byte to the last or to an error. */
  method ServeLink(ft: FloatText, chunks: seq<bytes>, ghost xs: seq<Item>) returns (frames: seq<Frame>, failed: bool)
    requires Sendable(ft, xs) && Carries(ft, Concat(chunks), xs)
    ensures failed <==> SomePieceEndsInside(ft, chunks, xs)
    ensures frames <= FramesOf(xs) && (!failed ==> frames == FramesOf(xs))
  {
    hide Drain, Carries, Session, Sendable, Concat, SomePieceEndsInside, FramesOf;
    var p := new RespParser();
    frames := [];
    SessionFailsIff(ft, chunks, xs);
    assert chunks[0..] == chunks;
    ghost var whole := Session(ft, [], chunks);
    for n := 0 to |chunks|
      invariant p.Valid()
      invariant var d := Session(ft, p.Unread(), chunks[n..]);
        whole.failed == d.failed && whole.frames == frames + d.frames
    {
      SessionCons(ft, p.Unread(), chunks, n);
      p.Feed(chunks[n]);
      var got;
      got, failed := DrainParser(ft, p);
      frames := frames + got;
      if failed {
        return;
      }
    }
    NoMorePieces(ft, p.Unread(), chunks);
    failed := false;
  }

  /** For instance: a raw `PING` cut in two ends a link; on a client's connection it is reported as an
      error after the first half, and comes out all the same. */
  lemma PingInTwoPieces(ft: FloatText)
    ensures var chunks := [PING[..2], PING[2..]];
      && Session(ft, [], chunks).failed
      && Connection(ft, [], chunks).frames == [PING_FRAME] && Connection(ft, [], chunks).warned == [true, false]
  {
    var a, b := PING[..2], PING[2..];
    assert ParseStep(ft, PING) == Got(PING_FRAME, []) by {
      assert Skip(IsSpace, PING) == PING && PING[4..] == [];
    }
    assert ParseStep(ft, []) == Waiting([]);
    assert ParseStep(ft, a) == Failed(InvalidType(80), a);
    hide ParseStep;
    assert Drain(ft, []) == Drained([], [], false);
    assert Drain(ft, a) == Drained([], a, true);
    assert Drain(ft, PING) == Drained([PING_FRAME], [], false);
    hide Drain;
    assert [] + a == a && a + b == PING;
    assert [a, b][1..] == [b] && [b][1..] == [];
    assert Connection(ft, a, [b]) == Lasting([PING_FRAME], [], [false]);
    assert Connection(ft, [], [a, b]).frames == [] + [PING_FRAME] == [PING_FRAME];
  }
}
