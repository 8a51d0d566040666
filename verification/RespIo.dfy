/** The imperative side of the protocol: the serializer that appends to a writer, the parser's
    loops, and the incremental parser that a connection feeds with whatever arrives. */
module RespIo {
  import opened Bytes
  import opened Decimal
  import opened Resp

  class Writer {
    var data: bytes

    constructor ()
      ensures data == []
    {
      data := [];
    }

    method WriteAll(s: bytes)
      modifies this
      ensures data == old(data) + s
    {
      data := data + s;
    }

    /** A type byte, a text and a line end. */
    method WriteLine(b: byte, text: bytes)
      modifies this
      ensures data == old(data) + ([b] + text + CRLF)
    {
      WriteAll([b]);
      WriteAll(text);
      WriteAll(CRLF);
    }
  }

  /** Appends a frame to a writer.  It fails exactly when the frame holds the marker that is
      never sent; what was written up to there stays written. */
  method SerializeFrame(ft: FloatText, f: Frame, w: Writer) returns (ok: bool)
    modifies w
    ensures ok <==> Writable(f)
    ensures ok ==> w.data == old(w.data) + Encode(ft, f)
    ensures old(w.data) <= w.data
    decreases f
  {
    hide EncodeAll, EncodePairs, Digits, Show;
    ok := true;
    match f
    case SimpleString(t) => w.WriteLine(TYPE_SIMPLE, t);
    case Error(t) => w.WriteLine(TYPE_ERROR, t);
    case Integer(n) => w.WriteLine(TYPE_INTEGER, Show(n));
    case BulkString(c) =>
      w.WriteLine(TYPE_BULK, Digits(|c|));
      w.WriteAll(c);
      w.WriteAll(CRLF);
      assert w.data == old(w.data) + Encode(ft, f);
    case NullBulkString => w.WriteAll([TYPE_BULK, 45, 49] + CRLF);
    case Array(items) => ok := SerializeList(ft, f, TYPE_ARRAY, items, w);
    case NullArray => w.WriteAll([TYPE_ARRAY, 45, 49] + CRLF);
    case NoResponse => ok := false;
    case Null => w.WriteAll([TYPE_NULL] + CRLF);
    case Boolean(b) => w.WriteAll([TYPE_BOOLEAN, if b then 116 else 102] + CRLF);
    case Double(d) => w.WriteLine(TYPE_DOUBLE, ft.show(d));
    case Map(pairs) => ok := SerializePairs(ft, f, pairs, w);
    case Set(elements) => ok := SerializeList(ft, f, TYPE_SET, elements, w);
  }

  lemma {:induction false} EncodeAllSnoc(ft: FloatText, fs: seq<Frame>, n: nat)
    requires n < |fs|
    ensures EncodeAll(ft, fs[..n + 1]) == EncodeAll(ft, fs[..n]) + Encode(ft, fs[n])
  {
    hide Encode;
    var s, t := fs[..n + 1], fs[..n];
    if n == 0 {
      assert s[1..] == [] && t == [];
    } else {
      EncodeAllSnoc(ft, fs[1..], n - 1);
      assert s[1..] == fs[1..][..n] && t[1..] == fs[1..][..n - 1];
    }
  }

  lemma {:induction false} EncodePairsSnoc(ft: FloatText, ps: seq<Pair>, n: nat)
    requires n < |ps|
    ensures EncodePairs(ft, ps[..n + 1]) == EncodePairs(ft, ps[..n]) + EncodePair(ft, ps[n])
  {
    hide EncodePair;
    var s, t := ps[..n + 1], ps[..n];
    if n == 0 {
      assert s[1..] == [] && t == [];
    } else {
      EncodePairsSnoc(ft, ps[1..], n - 1);
      assert s[1..] == ps[1..][..n] && t[1..] == ps[1..][..n - 1];
    }
  }

  /** The loop over the elements of an array or a set. */
  method SerializeList(ft: FloatText, ghost whole: Frame, b: byte, items: seq<Frame>, w: Writer) returns (ok: bool)
    requires forall i :: 0 <= i < |items| ==> items[i] < whole
    modifies w
    ensures ok <==> forall i :: 0 <= i < |items| ==> Writable(items[i])
    ensures ok ==> w.data == old(w.data) + ([b] + Digits(|items|) + CRLF + EncodeAll(ft, items))
    ensures old(w.data) <= w.data
    decreases whole, 0
  {
    hide Encode, Writable;
    w.WriteLine(b, Digits(|items|));
    ghost var header := [b] + Digits(|items|) + CRLF;
    assert w.data == old(w.data) + header;
    for n := 0 to |items|
      invariant forall i :: 0 <= i < n ==> Writable(items[i])
      invariant w.data == old(w.data) + (header + EncodeAll(ft, items[..n]))
    {
      EncodeAllSnoc(ft, items, n);
      var done := SerializeFrame(ft, items[n], w);
      if !done {
        return false;
      }
    }
    assert items[..|items|] == items;
    ok := true;
  }

  /** The loop over the pairs of a map. */
  method SerializePairs(ft: FloatText, ghost whole: Frame, pairs: seq<Pair>, w: Writer) returns (ok: bool)
    requires forall i :: 0 <= i < |pairs| ==> pairs[i].key < whole && pairs[i].value < whole
    modifies w
    ensures ok <==> forall i :: 0 <= i < |pairs| ==> Writable(pairs[i].key) && Writable(pairs[i].value)
    ensures ok ==> w.data == old(w.data) + ([TYPE_MAP] + Digits(|pairs|) + CRLF + EncodePairs(ft, pairs))
    ensures old(w.data) <= w.data
    decreases whole, 0
  {
    hide Encode, Writable;
    w.WriteLine(TYPE_MAP, Digits(|pairs|));
    ghost var header := [TYPE_MAP] + Digits(|pairs|) + CRLF;
    assert w.data == old(w.data) + header;
    for n := 0 to |pairs|
      invariant forall i :: 0 <= i < n ==> Writable(pairs[i].key) && Writable(pairs[i].value)
      invariant w.data == old(w.data) + (header + EncodePairs(ft, pairs[..n]))
    {
      EncodePairsSnoc(ft, pairs, n);
      var done := SerializeFrame(ft, pairs[n].key, w);
      if !done {
        return false;
      }
      done := SerializeFrame(ft, pairs[n].value, w);
      if !done {
        return false;
      }
    }
    assert pairs[..|pairs|] == pairs;
    ok := true;
  }

  // ----- The parser's loops -----

  /** The search for the line end. */
  method ScanLine(data: bytes) returns (r: Line)
    ensures r == ParseLine(data)
  {
    if |data| < 3 {
      return NoLine;
    }
    var i := 1;
    while i < |data| - 1
      invariant 1 <= i <= |data| - 1
      invariant FindCrlf(data, 1) == FindCrlf(data, i)
    {
      if data[i] == CR && data[i + 1] == LF {
        return Line(data[1..i], i + 2);
      }
      i := i + 1;
    }
    r := NoLine;
  }

  lemma {:induction false} ParseManySnoc(ft: FloatText, data: bytes, n: nat)
    requires ParseMany(ft, data, n).Many?
    ensures var r := ParseMany(ft, data, n);
      ParseMany(ft, data, n + 1) ==
        match ParseFrame(ft, data[r.consumed..])
        case More => MoreFrames
        case Bad(e) => BadFrame(e)
        case Done(f, m) => Many(r.frames + [f], r.consumed + m)
    decreases n
  {
    hide ParseFrame;
    if n == 0 {
      assert data[0..] == data;
      if ParseFrame(ft, data).Done? {
        assert ParseMany(ft, data[ParseFrame(ft, data).consumed..], 0) == Many([], 0);
      }
    } else {
      var k := ParseFrame(ft, data).consumed;
      ParseManySnoc(ft, data[k..], n - 1);
      var r := ParseMany(ft, data[k..], n - 1);
      assert data[k..][r.consumed..] == data[k + r.consumed..];
      var next := ParseFrame(ft, data[k + r.consumed..]);
      if next.Done? {
        assert [ParseFrame(ft, data).frame] + (r.frames + [next.frame])
            == [ParseFrame(ft, data).frame] + r.frames + [next.frame];
      }
    }
  }

  /** More frames cannot repair what fewer could not do. */
  lemma {:induction false} ParseManyStuck(ft: FloatText, data: bytes, n: nat, count: nat)
    requires n <= count && !ParseMany(ft, data, n).Many?
    ensures ParseMany(ft, data, count) == ParseMany(ft, data, n)
    decreases n
  {
    hide ParseFrame;
    if n > 0 && ParseFrame(ft, data).Done? {
      ParseManyStuck(ft, data[ParseFrame(ft, data).consumed..], n - 1, count - 1);
    }
  }

  /** The frames that hold no others. */
  method ParseScalarM(ft: FloatText, data: bytes) returns (r: Parsed)
    requires data != [] && data[0] != TYPE_ARRAY && data[0] != TYPE_MAP && data[0] != TYPE_SET
    ensures r == ParseFrame(ft, data)
  {
    hide ParseLine, ParseI64, ParseArray, ParseMap, ParseSet;
    if data[0] == TYPE_NULL {
      return if |data| < 3 then More else if CrlfAt(data, 1) then Done(Null, 3) else Bad(InvalidNull);
    }
    if data[0] == TYPE_BOOLEAN {
      if |data| < 4 {
        return More;
      }
      var isTrue, isFalse := data[1] == 116, data[1] == 102;
      return if CrlfAt(data, 2) && (isTrue || isFalse) then Done(Boolean(isTrue), 4) else Bad(InvalidBoolean);
    }
    if data[0] !in {TYPE_SIMPLE, TYPE_ERROR, TYPE_INTEGER, TYPE_BULK, TYPE_DOUBLE} {
      return Bad(InvalidType(data[0]));
    }
    var line := ScanLine(data);
    if line.NoLine? {
      return More;
    }
    var text, n := line.text, line.consumed;
    if data[0] == TYPE_SIMPLE {
      r := Done(SimpleString(text), n);
    } else if data[0] == TYPE_ERROR {
      r := Done(Error(text), n);
    } else if data[0] == TYPE_INTEGER {
      var v := ParseI64(text);
      r := if v.None? then Bad(InvalidInteger) else Done(Integer(v.value), n);
    } else if data[0] == TYPE_DOUBLE {
      var v := ft.read(text);
      r := if v.None? then Bad(InvalidDouble) else Done(Double(v.value), n);
    } else {
      r := BulkAfter(data, ParseI64(text), n);
    }
  }

  /** A bulk string after the line with its length. */
  method BulkAfter(data: bytes, length: Option<int>, n: nat) returns (r: Parsed)
    requires n <= |data|
    ensures r == match length
      case None => Bad(InvalidBulkLength)
      case Some(v) =>
        if v == -1 then Done(NullBulkString, n)
        else if v < 0 then Bad(NegativeBulkLength)
        else if |data| < n + v + 2 then More
        else if !CrlfAt(data, n + v) then Bad(MissingCrlf)
        else Done(BulkString(data[n..n + v]), n + v + 2)
  {
    if length.None? {
      return Bad(InvalidBulkLength);
    }
    var v := length.value;
    if v == -1 {
      return Done(NullBulkString, n);
    }
    if v < 0 {
      return Bad(NegativeBulkLength);
    }
    var end := n + v;
    if |data| < end + 2 {
      return More;
    }
    if data[end] != CRLF[0] || data[end + 1] != CRLF[1] {
      return Bad(MissingCrlf);
    }
    r := Done(BulkString(data[n..end]), end + 2);
  }

  /** The recursive descent, with the loops of the aggregates. */
  method ParseFrameM(ft: FloatText, data: bytes) returns (r: Parsed)
    ensures r == ParseFrame(ft, data)
    decreases |data|, 1
  {
    if data == [] {
      return More;
    }
    if data[0] == TYPE_ARRAY {
      r := ParseArrayM(ft, data);
    } else if data[0] == TYPE_MAP {
      r := ParseMapM(ft, data);
    } else if data[0] == TYPE_SET {
      r := ParseSetM(ft, data);
    } else {
      r := ParseScalarM(ft, data);
    }
  }

  method ParseArrayM(ft: FloatText, data: bytes) returns (r: Parsed)
    ensures r == ParseArray(ft, data)
    decreases |data|, 0
  {
    hide ParseLine, ParseI64, ParseMany;
    var line := ScanLine(data);
    if line.NoLine? {
      return More;
    }
    var len := ParseI64(line.text);
    if len.None? {
      return Bad(InvalidArrayLength);
    }
    if len.value == -1 {
      return Done(NullArray, line.consumed);
    }
    if len.value < 0 {
      return Bad(NegativeArrayLength);
    }
    var many := ParseElements(ft, data, line.consumed, len.value);
    match many
    case MoreFrames => return More;
    case BadFrame(e) => return Bad(e);
    case Many(fs, m) => return Done(Array(fs), line.consumed + m);
  }

  method ParseSetM(ft: FloatText, data: bytes) returns (r: Parsed)
    ensures r == ParseSet(ft, data)
    decreases |data|, 0
  {
    hide ParseLine, ParseU64, ParseMany;
    var line := ScanLine(data);
    if line.NoLine? {
      return More;
    }
    var len := ParseU64(line.text);
    if len.None? {
      return Bad(InvalidSetLength);
    }
    var many := ParseElements(ft, data, line.consumed, len.value);
    match many
    case MoreFrames => return More;
    case BadFrame(e) => return Bad(e);
    case Many(fs, m) => return Done(Set(fs), line.consumed + m);
  }

  /** The loop over the elements after a header of `start` bytes. */
  method ParseElements(ft: FloatText, data: bytes, start: nat, len: nat) returns (r: ParsedMany)
    requires 3 <= start <= |data|
    ensures r == ParseMany(ft, data[start..], len)
    decreases |data|, -1
  {
    hide ParseFrame, ParseMany;
    ParseNone(ft, data[start..]);
    var elements: seq<Frame>, total := [], start;
    for n := 0 to len
      invariant start <= total <= |data|
      invariant ParseMany(ft, data[start..], n) == Many(elements, total - start)
    {
      ParseManySnoc(ft, data[start..], n);
      assert data[start..][total - start..] == data[total..];
      var one := ParseFrameM(ft, data[total..]);
      match one
      case Done(f, m) => elements, total := elements + [f], total + m;
      case More =>
        ParseManyStuck(ft, data[start..], n + 1, len);
        return MoreFrames;
      case Bad(e) =>
        ParseManyStuck(ft, data[start..], n + 1, len);
        return BadFrame(e);
    }
    r := Many(elements, total - start);
  }

  lemma {:induction false} PairUpSnoc(fs: seq<Frame>, k: Frame, v: Frame)
    requires |fs| % 2 == 0
    ensures PairUp(fs + [k] + [v]) == PairUp(fs) + [Pair(k, v)]
  {
    var gs := fs + [k] + [v];
    if |fs| == 0 {
      assert gs[2..] == [];
    } else {
      assert gs[2..] == fs[2..] + [k] + [v];
      PairUpSnoc(fs[2..], k, v);
    }
  }

  /** A map is read key by key and value by value. */
  method ParseMapM(ft: FloatText, data: bytes) returns (r: Parsed)
    ensures r == ParseMap(ft, data)
    decreases |data|, 0
  {
    hide ParseLine, ParseU64, ParseMany, ParseFrame, PairUp;
    var line := ScanLine(data);
    if line.NoLine? {
      return More;
    }
    var len := ParseU64(line.text);
    if len.None? {
      return Bad(InvalidMapLength);
    }
    var start := line.consumed;
    ghost var rest, frames := data[start..], [];
    ParseNone(ft, rest);
    NoPairs();
    var pairs, total := [], start;
    for n := 0 to len.value
      invariant start <= total <= |data|
      invariant ParseMany(ft, rest, 2 * n) == Many(frames, total - start)
      invariant pairs == PairUp(frames)
    {
      ParseManySnoc(ft, rest, 2 * n);
      assert rest[total - start..] == data[total..];
      var key := ParseFrameM(ft, data[total..]);
      if !key.Done? {
        ParseManyStuck(ft, rest, 2 * n + 1, 2 * len.value);
        return key;
      }
      total := total + key.consumed;
      ParseManySnoc(ft, rest, 2 * n + 1);
      assert rest[total - start..] == data[total..];
      var value := ParseFrameM(ft, data[total..]);
      if !value.Done? {
        ParseManyStuck(ft, rest, 2 * n + 2, 2 * len.value);
        return value;
      }
      total := total + value.consumed;
      PairUpSnoc(frames, key.frame, value.frame);
      frames := frames + [key.frame] + [value.frame];
      pairs := pairs + [Pair(key.frame, value.frame)];
    }
    r := Done(Map(pairs), total);
  }

  lemma NoPairs()
    ensures PairUp([]) == []
  {
  }
}
