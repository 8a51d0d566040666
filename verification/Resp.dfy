/** The Redis serialization protocol: frames, their bytes, and the parser. */
module Resp {
  import opened Bytes
  import opened Decimal

  /** Frames.  The null bulk string and the null array are frames of their own here; the bits
      of a double are opaque. */
  datatype Frame =
    | SimpleString(text: bytes)
    | Error(text: bytes)
    | Integer(n: int)
    | BulkString(content: bytes)
    | NullBulkString
    | Array(items: seq<Frame>)
    | NullArray
    | NoResponse
    | Null
    | Boolean(value: bool)
    | Double(bits: nat)
    | Map(pairs: seq<Pair>)
    | Set(elements: seq<Frame>)

  datatype Pair = Pair(key: Frame, value: Frame)

  /** Reading and printing floating-point text is the business of the standard library. */
  datatype FloatText = FloatText(read: bytes -> Option<nat>, show: nat -> bytes)

  const CR: byte := 13
  const LF: byte := 10
  const CRLF: bytes := [13, 10]

  const TYPE_SIMPLE: byte := 43   // '+'
  const TYPE_ERROR: byte := 45    // '-'
  const TYPE_INTEGER: byte := 58  // ':'
  const TYPE_BULK: byte := 36     // '$'
  const TYPE_ARRAY: byte := 42    // '*'
  const TYPE_NULL: byte := 95     // '_'
  const TYPE_BOOLEAN: byte := 35  // '#'
  const TYPE_DOUBLE: byte := 44   // ','
  const TYPE_MAP: byte := 37      // '%'
  const TYPE_SET: byte := 126     // '~'

  /** The reply marker that is never sent may not occur anywhere in a frame. */
  predicate Writable(f: Frame) {
    match f
    case NoResponse => false
    case Array(items) => forall i :: 0 <= i < |items| ==> Writable(items[i])
    case Set(elements) => forall i :: 0 <= i < |elements| ==> Writable(elements[i])
    case Map(pairs) => forall i :: 0 <= i < |pairs| ==> Writable(pairs[i].key) && Writable(pairs[i].value)
    case _ => true
  }

  /** The bytes of a frame. */
  function Encode(ft: FloatText, f: Frame): (s: bytes)
    decreases f, 0
  {
    match f
    case SimpleString(t) => [TYPE_SIMPLE] + t + CRLF
    case Error(t) => [TYPE_ERROR] + t + CRLF
    case Integer(n) => [TYPE_INTEGER] + Show(n) + CRLF
    case BulkString(c) => [TYPE_BULK] + Digits(|c|) + CRLF + c + CRLF
    case NullBulkString => [TYPE_BULK, 45, 49] + CRLF
    case Array(items) => [TYPE_ARRAY] + Digits(|items|) + CRLF + EncodeAll(ft, items)
    case NullArray => [TYPE_ARRAY, 45, 49] + CRLF
    case NoResponse => []
    case Null => [TYPE_NULL] + CRLF
    case Boolean(b) => [TYPE_BOOLEAN, if b then 116 else 102] + CRLF
    case Double(d) => [TYPE_DOUBLE] + ft.show(d) + CRLF
    case Map(pairs) => [TYPE_MAP] + Digits(|pairs|) + CRLF + EncodePairs(ft, pairs)
    case Set(elements) => [TYPE_SET] + Digits(|elements|) + CRLF + EncodeAll(ft, elements)
  }

  function EncodeAll(ft: FloatText, fs: seq<Frame>): bytes
    decreases fs, 1
  {
    if fs == [] then [] else Encode(ft, fs[0]) + EncodeAll(ft, fs[1..])
  }

  function EncodePairs(ft: FloatText, ps: seq<Pair>): bytes
    decreases ps, 1
  {
    if ps == [] then [] else EncodePair(ft, ps[0]) + EncodePairs(ft, ps[1..])
  }

  function EncodePair(ft: FloatText, p: Pair): bytes
    decreases p, 1
  {
    Encode(ft, p.key) + Encode(ft, p.value)
  }

  datatype Reason =
    | InvalidType(b: byte) | InvalidInteger | InvalidDouble | InvalidNull | InvalidBoolean
    | InvalidBulkLength | NegativeBulkLength | MissingCrlf
    | InvalidArrayLength | NegativeArrayLength | InvalidMapLength | InvalidSetLength

  /** The outcome of parsing: a frame and the bytes it took, more data needed, or an error. */
  datatype Parsed = Done(frame: Frame, consumed: nat) | More | Bad(reason: Reason)

  datatype ParsedMany = Many(frames: seq<Frame>, consumed: nat) | MoreFrames | BadFrame(reason: Reason)

  predicate CrlfAt(data: bytes, i: int) {
    0 <= i && i + 1 < |data| && data[i] == CR && data[i + 1] == LF
  }

  /** The first line end from `i` on; the length of the data if there is none. */
  function FindCrlf(data: bytes, i: nat): (r: nat)
    ensures r <= |data| || r == i
    ensures i <= r
    ensures r < |data| ==> CrlfAt(data, r)
    ensures i <= |data| ==> r <= |data|
    decreases |data| - i
  {
    if i >= |data| then i
    else if CrlfAt(data, i) then i
    else FindCrlf(data, i + 1)
  }

  datatype Line = Line(text: bytes, consumed: nat) | NoLine

  /** The line after the type byte, without its line end. */
  function ParseLine(data: bytes): (r: Line)
    ensures r.Line? ==> 3 <= r.consumed <= |data|
  {
    if |data| < 3 then NoLine
    else
      var e := FindCrlf(data, 1);
      if e < |data| then Line(data[1..e], e + 2) else NoLine
  }

  function ParseFrame(ft: FloatText, data: bytes): (r: Parsed)
    ensures r.Done? ==> 3 <= r.consumed <= |data|
    decreases |data|, 0, 1
  {
    if data == [] then More
    else if data[0] == TYPE_SIMPLE then ParseSimpleString(data)
    else if data[0] == TYPE_ERROR then ParseError(data)
    else if data[0] == TYPE_INTEGER then ParseInteger(data)
    else if data[0] == TYPE_BULK then ParseBulkString(data)
    else if data[0] == TYPE_ARRAY then ParseArray(ft, data)
    else if data[0] == TYPE_NULL then ParseNull(data)
    else if data[0] == TYPE_BOOLEAN then ParseBoolean(data)
    else if data[0] == TYPE_DOUBLE then ParseDouble(ft, data)
    else if data[0] == TYPE_MAP then ParseMap(ft, data)
    else if data[0] == TYPE_SET then ParseSet(ft, data)
    else Bad(InvalidType(data[0]))
  }

  function ParseSimpleString(data: bytes): (r: Parsed) {
    match ParseLine(data)
    case NoLine => More
    case Line(t, n) => Done(SimpleString(t), n)
  }

  function ParseError(data: bytes): (r: Parsed) {
    match ParseLine(data)
    case NoLine => More
    case Line(t, n) => Done(Error(t), n)
  }

  function ParseInteger(data: bytes): (r: Parsed) {
    match ParseLine(data)
    case NoLine => More
    case Line(t, n) =>
      match ParseI64(t)
      case None => Bad(InvalidInteger)
      case Some(v) => Done(Integer(v), n)
  }

  function ParseBulkString(data: bytes): (r: Parsed)
    ensures r.Done? ==> 3 <= r.consumed <= |data|
  {
    match ParseLine(data)
    case NoLine => More
    case Line(t, n) =>
      match ParseI64(t)
      case None => Bad(InvalidBulkLength)
      case Some(v) =>
        if v == -1 then Done(NullBulkString, n)
        else if v < 0 then Bad(NegativeBulkLength)
        else if |data| < n + v + 2 then More
        else if !CrlfAt(data, n + v) then Bad(MissingCrlf)
        else Done(BulkString(data[n..n + v]), n + v + 2)
  }

  function ParseArray(ft: FloatText, data: bytes): (r: Parsed)
    ensures r.Done? ==> 3 <= r.consumed <= |data|
    decreases |data|, 0, 0
  {
    match ParseLine(data)
    case NoLine => More
    case Line(t, n) =>
      match ParseI64(t)
      case None => Bad(InvalidArrayLength)
      case Some(v) =>
        if v == -1 then Done(NullArray, n)
        else if v < 0 then Bad(NegativeArrayLength)
        else match ParseMany(ft, data[n..], v)
          case MoreFrames => More
          case BadFrame(e) => Bad(e)
          case Many(fs, m) => Done(Array(fs), n + m)
  }

  function ParseNull(data: bytes): (r: Parsed) {
    if |data| < 3 then More
    else if CrlfAt(data, 1) then Done(Null, 3)
    else Bad(InvalidNull)
  }

  function ParseBoolean(data: bytes): (r: Parsed) {
    if |data| < 4 then More
    else if data[1] == 116 && CrlfAt(data, 2) then Done(Boolean(true), 4)
    else if data[1] == 102 && CrlfAt(data, 2) then Done(Boolean(false), 4)
    else Bad(InvalidBoolean)
  }

  function ParseDouble(ft: FloatText, data: bytes): (r: Parsed) {
    match ParseLine(data)
    case NoLine => More
    case Line(t, n) =>
      match ft.read(t)
      case None => Bad(InvalidDouble)
      case Some(d) => Done(Double(d), n)
  }

  function ParseMap(ft: FloatText, data: bytes): (r: Parsed)
    ensures r.Done? ==> 3 <= r.consumed <= |data|
    decreases |data|, 0, 0
  {
    match ParseLine(data)
    case NoLine => More
    case Line(t, n) =>
      match ParseU64(t)
      case None => Bad(InvalidMapLength)
      case Some(v) =>
        match ParseMany(ft, data[n..], 2 * v)
        case MoreFrames => More
        case BadFrame(e) => Bad(e)
        case Many(fs, m) => Done(Map(PairUp(fs)), n + m)
  }

  function ParseSet(ft: FloatText, data: bytes): (r: Parsed)
    ensures r.Done? ==> 3 <= r.consumed <= |data|
    decreases |data|, 0, 0
  {
    match ParseLine(data)
    case NoLine => More
    case Line(t, n) =>
      match ParseU64(t)
      case None => Bad(InvalidSetLength)
      case Some(v) =>
        match ParseMany(ft, data[n..], v)
        case MoreFrames => More
        case BadFrame(e) => Bad(e)
        case Many(fs, m) => Done(Set(fs), n + m)
  }

  /** A given number of frames, one after the other. */
  function ParseMany(ft: FloatText, data: bytes, count: nat): (r: ParsedMany)
    ensures r.Many? ==> r.consumed <= |data| && |r.frames| == count
    decreases |data|, 1, count
  {
    if count == 0 then Many([], 0)
    else
      match ParseFrame(ft, data)
      case More => MoreFrames
      case Bad(e) => BadFrame(e)
      case Done(f, n) =>
        match ParseMany(ft, data[n..], count - 1)
        case MoreFrames => MoreFrames
        case BadFrame(e) => BadFrame(e)
        case Many(fs, m) => Many([f] + fs, n + m)
  }

  function PairUp(fs: seq<Frame>): seq<Pair> {
    if |fs| < 2 then [] else [Pair(fs[0], fs[1])] + PairUp(fs[2..])
  }

  function Flatten(ps: seq<Pair>): seq<Frame> {
    if ps == [] then [] else [ps[0].key, ps[0].value] + Flatten(ps[1..])
  }

  // ----- Parsing does not depend on what comes later -----

  lemma {:induction false} FindCrlfExtends(data: bytes, i: nat, more: bytes)
    requires i <= |data| && FindCrlf(data, i) < |data|
    ensures FindCrlf(data + more, i) == FindCrlf(data, i)
    decreases |data| - i
  {
    if !CrlfAt(data, i) {
      FindCrlfExtends(data, i + 1, more);
    }
  }

  lemma ParseLineExtends(data: bytes, more: bytes)
    requires ParseLine(data).Line?
    ensures ParseLine(data + more) == ParseLine(data)
  {
    FindCrlfExtends(data, 1, more);
    var e := FindCrlf(data, 1);
    assert (data + more)[1..e] == data[1..e];
  }

  /** A frame or an error found in some bytes is found in any longer input. */
  lemma {:induction false} ParseExtends(ft: FloatText, data: bytes, more: bytes)
    requires ParseFrame(ft, data) != More
    ensures ParseFrame(ft, data + more) == ParseFrame(ft, data)
    decreases |data|, 0, 1
  {
    hide ParseLine, ParseI64, ParseU64;
    assert (data + more)[0] == data[0];
    if data[0] == TYPE_ARRAY || data[0] == TYPE_MAP || data[0] == TYPE_SET {
      AggregateExtends(ft, data, more);
    } else if data[0] == TYPE_BULK {
      BulkExtends(data, more);
    } else if data[0] != TYPE_NULL && data[0] != TYPE_BOOLEAN && ParseLine(data).Line? {
      ParseLineExtends(data, more);
    }
  }

  lemma BulkExtends(data: bytes, more: bytes)
    requires ParseBulkString(data) != More
    ensures ParseBulkString(data + more) == ParseBulkString(data)
  {
    hide ParseLine, ParseI64;
    ParseLineExtends(data, more);
    var n, v := ParseLine(data).consumed, ParseI64(ParseLine(data).text);
    if v.Some? && v.value >= 0 {
      assert (data + more)[n..n + v.value] == data[n..n + v.value];
    }
  }

  lemma AggregateExtends(ft: FloatText, data: bytes, more: bytes)
    ensures ParseArray(ft, data) != More ==> ParseArray(ft, data + more) == ParseArray(ft, data)
    ensures ParseMap(ft, data) != More ==> ParseMap(ft, data + more) == ParseMap(ft, data)
    ensures ParseSet(ft, data) != More ==> ParseSet(ft, data + more) == ParseSet(ft, data)
    decreases |data|, 0, 0
  {
    hide ParseLine, ParseI64, ParseU64, ParseMany;
    if ParseLine(data).Line? {
      ParseLineExtends(data, more);
      var Line(t, n) := ParseLine(data);
      assert (data + more)[n..] == data[n..] + more;
      if ParseI64(t).Some? && ParseI64(t).value >= 0 {
        ParseManyExtends(ft, data[n..], ParseI64(t).value, more);
      }
      if ParseU64(t).Some? {
        ParseManyExtends(ft, data[n..], 2 * ParseU64(t).value, more);
        ParseManyExtends(ft, data[n..], ParseU64(t).value, more);
      }
    }
  }

  lemma {:induction false} ParseManyExtends(ft: FloatText, data: bytes, count: nat, more: bytes)
    ensures ParseMany(ft, data, count) != MoreFrames ==> ParseMany(ft, data + more, count) == ParseMany(ft, data, count)
    decreases |data|, 1, count
  {
    hide ParseFrame;
    if count > 0 && ParseFrame(ft, data) != More {
      ParseExtends(ft, data, more);
      if ParseFrame(ft, data).Done? {
        var n := ParseFrame(ft, data).consumed;
        assert (data + more)[n..] == data[n..] + more;
        ParseManyExtends(ft, data[n..], count - 1, more);
      }
    }
  }

  // ----- Printing and parsing undo each other -----

  predicate NoCrlf(s: bytes) {
    forall i :: 0 <= i < |s| - 1 ==> !(s[i] == CR && s[i + 1] == LF)
  }

  /** Frames that survive the wire: no line end inside a line, integers and lengths within 64
      bits, floating-point text that reads back. */
  predicate Transmissible(ft: FloatText, f: Frame) {
    match f
    case SimpleString(t) => NoCrlf(t)
    case Error(t) => NoCrlf(t)
    case Integer(n) => I64_MIN <= n <= I64_MAX
    case BulkString(c) => |c| <= I64_MAX
    case Array(items) => |items| <= I64_MAX && forall i :: 0 <= i < |items| ==> Transmissible(ft, items[i])
    case NoResponse => false
    case Double(d) => NoCrlf(ft.show(d)) && ft.read(ft.show(d)) == Some(d)
    case Map(pairs) => |pairs| <= I64_MAX
      && forall i :: 0 <= i < |pairs| ==> Transmissible(ft, pairs[i].key) && Transmissible(ft, pairs[i].value)
    case Set(elements) => |elements| <= I64_MAX
      && forall i :: 0 <= i < |elements| ==> Transmissible(ft, elements[i])
    case _ => true
  }

  lemma {:induction false} FindCrlfAt(data: bytes, i: nat, e: nat)
    requires i <= e && CrlfAt(data, e)
    requires forall k :: i <= k < e ==> !CrlfAt(data, k)
    ensures FindCrlf(data, i) == e
    decreases e - i
  {
    if i < e {
      FindCrlfAt(data, i + 1, e);
    }
  }

  /** A type byte, a line without line ends, a line end and anything else. */
  lemma LineOf(b: byte, t: bytes, rest: bytes)
    requires NoCrlf(t)
    ensures var data := [b] + t + CRLF + rest;
      ParseLine(data) == Line(t, |t| + 3) && data[|t| + 3..] == rest && data[0] == b
  {
    var data := [b] + t + CRLF + rest;
    var e := |t| + 1;
    assert data[1..e] == t;
    assert data[e] == CR && data[e + 1] == LF;
    forall k | 1 <= k < e ensures !CrlfAt(data, k) {
      assert data[k] == t[k - 1];
      if k + 1 < e { assert data[k + 1] == t[k]; }
    }
    FindCrlfAt(data, 1, e);
  }

  lemma DigitsNoCrlf(s: bytes)
    requires forall i :: 0 <= i < |s| ==> IsDigit(s[i]) || s[i] == MINUS
    ensures NoCrlf(s)
  {
  }

  /** The header of an aggregate: type byte, length, line end. */
  lemma HeaderOf(b: byte, n: nat, rest: bytes)
    requires n <= I64_MAX
    ensures var data := [b] + Digits(n) + CRLF + rest;
      && ParseLine(data) == Line(Digits(n), |Digits(n)| + 3)
      && data[|Digits(n)| + 3..] == rest && data[0] == b
      && ParseI64(Digits(n)) == Some(n) && ParseU64(Digits(n)) == Some(n)
  {
    DigitsNoCrlf(Digits(n));
    LineOf(b, Digits(n), rest);
    ParseShownI64(n);
    ParseShownU64(n);
  }

  lemma BulkRoundTrip(c: bytes, rest: bytes)
    requires |c| <= I64_MAX
    ensures var s := [TYPE_BULK] + Digits(|c|) + CRLF + c + CRLF;
      (s + rest)[0] == TYPE_BULK && ParseBulkString(s + rest) == Done(BulkString(c), |s|)
  {
    hide ParseLine, ParseI64, ParseU64, Digits;
    var s := [TYPE_BULK] + Digits(|c|) + CRLF + c + CRLF;
    var tail := c + CRLF + rest;
    HeaderOf(TYPE_BULK, |c|, tail);
    var n := |Digits(|c|)| + 3;
    var data := s + rest;
    assert data == [TYPE_BULK] + Digits(|c|) + CRLF + tail;
    assert data[n..] == tail;
    assert data[n..n + |c|] == tail[..|c|] == c;
    assert data[n + |c|] == tail[|c|] == CR && data[n + |c| + 1] == tail[|c| + 1] == LF;
  }

  /** An aggregate whose elements parse back from `body` parses back as a whole. */
  lemma AggregateRoundTrip(ft: FloatText, b: byte, n: nat, body: bytes, rest: bytes)
    requires n <= I64_MAX
    ensures var s := [b] + Digits(n) + CRLF + body;
      && (s + rest)[0] == b
      && (ParseMany(ft, body + rest, n).Many? && ParseMany(ft, body + rest, n).consumed == |body| ==>
            && ParseArray(ft, s + rest) == Done(Array(ParseMany(ft, body + rest, n).frames), |s|)
            && ParseSet(ft, s + rest) == Done(Set(ParseMany(ft, body + rest, n).frames), |s|))
      && (ParseMany(ft, body + rest, 2 * n).Many? && ParseMany(ft, body + rest, 2 * n).consumed == |body| ==>
            ParseMap(ft, s + rest) == Done(Map(PairUp(ParseMany(ft, body + rest, 2 * n).frames)), |s|))
  {
    hide ParseLine, ParseI64, ParseU64, Digits, ParseMany, PairUp;
    var s := [b] + Digits(n) + CRLF + body;
    HeaderOf(b, n, body + rest);
    assert s + rest == [b] + Digits(n) + CRLF + (body + rest);
  }

  /** The frames that are a type byte and one line. */
  lemma LineRoundTrip(ft: FloatText, f: Frame, rest: bytes)
    requires f.SimpleString? || f.Error? || f.Integer? || f.Double?
    requires Transmissible(ft, f)
    ensures ParseFrame(ft, Encode(ft, f) + rest) == Done(f, |Encode(ft, f)|)
  {
    hide ParseLine, Digits, Show, ParseI64;
    match f
    case SimpleString(t) => LineOf(TYPE_SIMPLE, t, rest);
    case Error(t) => LineOf(TYPE_ERROR, t, rest);
    case Integer(n) =>
      DigitsNoCrlf(Show(n));
      LineOf(TYPE_INTEGER, Show(n), rest);
      ParseShownI64(n);
    case Double(d) => LineOf(TYPE_DOUBLE, ft.show(d), rest);
  }

  /** The frames of fixed text. */
  lemma FixedRoundTrip(ft: FloatText, f: Frame, rest: bytes)
    requires f.NullBulkString? || f.NullArray? || f.Null? || f.Boolean?
    ensures ParseFrame(ft, Encode(ft, f) + rest) == Done(f, |Encode(ft, f)|)
  {
    hide ParseLine, Digits, ParseI64;
    var s := Encode(ft, f);
    match f
    case NullBulkString => MinusOne(TYPE_BULK, rest);
    case NullArray => MinusOne(TYPE_ARRAY, rest);
    case Null =>
      assert (s + rest)[1] == CR && (s + rest)[2] == LF;
    case Boolean(b) =>
      assert (s + rest)[2] == CR && (s + rest)[3] == LF;
  }

  /** Parsing takes back exactly the frame that was printed, and leaves what follows it. */
  lemma {:induction false} RoundTrip(ft: FloatText, f: Frame, rest: bytes)
    requires Transmissible(ft, f)
    ensures ParseFrame(ft, Encode(ft, f) + rest) == Done(f, |Encode(ft, f)|)
    decreases f, 0
  {
    hide ParseMany, ParseArray, ParseMap, ParseSet, ParseLine, ParseBulkString, PairUp, Digits;
    match f
    case BulkString(c) => BulkRoundTrip(c, rest);
    case Array(items) =>
      RoundTripAll(ft, items, rest);
      AggregateRoundTrip(ft, TYPE_ARRAY, |items|, EncodeAll(ft, items), rest);
    case Map(pairs) =>
      RoundTripPairs(ft, pairs, rest);
      AggregateRoundTrip(ft, TYPE_MAP, |pairs|, EncodePairs(ft, pairs), rest);
    case Set(elements) =>
      RoundTripAll(ft, elements, rest);
      AggregateRoundTrip(ft, TYPE_SET, |elements|, EncodeAll(ft, elements), rest);
    case _ =>
      if f.SimpleString? || f.Error? || f.Integer? || f.Double? {
        LineRoundTrip(ft, f, rest);
      } else {
        FixedRoundTrip(ft, f, rest);
      }
  }

  lemma MinusOne(b: byte, rest: bytes)
    ensures var data := [b, 45, 49] + CRLF + rest;
      ParseLine(data) == Line([45, 49], 5) && data[0] == b && ParseI64([45, 49]) == Some(-1)
  {
    var t: bytes := [45, 49];
    LineOf(b, t, rest);
    assert [b] + t + CRLF + rest == [b, 45, 49] + CRLF + rest;
    assert t[1..] == [49];
    assert ValueOf([49]) == Some(1);
  }

  /** One more frame in front. */
  lemma ParseManyCons(ft: FloatText, f: Frame, tail: bytes, count: nat)
    requires ParseFrame(ft, Encode(ft, f) + tail) == Done(f, |Encode(ft, f)|)
    requires ParseMany(ft, tail, count).Many?
    ensures var r := ParseMany(ft, tail, count);
      ParseMany(ft, Encode(ft, f) + tail, count + 1) == Many([f] + r.frames, |Encode(ft, f)| + r.consumed)
  {
    hide ParseFrame, Encode;
    assert (Encode(ft, f) + tail)[|Encode(ft, f)|..] == tail;
  }

  lemma {:induction false} RoundTripAll(ft: FloatText, fs: seq<Frame>, rest: bytes)
    requires forall i :: 0 <= i < |fs| ==> Transmissible(ft, fs[i])
    ensures ParseMany(ft, EncodeAll(ft, fs) + rest, |fs|) == Many(fs, |EncodeAll(ft, fs)|)
    decreases fs, 1
  {
    hide ParseFrame, Encode, Transmissible;
    if fs != [] {
      var tail := EncodeAll(ft, fs[1..]) + rest;
      RoundTrip(ft, fs[0], tail);
      RoundTripAll(ft, fs[1..], rest);
      ParseManyCons(ft, fs[0], tail, |fs| - 1);
      assert EncodeAll(ft, fs) + rest == Encode(ft, fs[0]) + tail;
      assert fs == [fs[0]] + fs[1..];
    }
  }

  lemma {:induction false} RoundTripPairs(ft: FloatText, ps: seq<Pair>, rest: bytes)
    requires forall i :: 0 <= i < |ps| ==> Transmissible(ft, ps[i].key) && Transmissible(ft, ps[i].value)
    ensures var r := ParseMany(ft, EncodePairs(ft, ps) + rest, 2 * |ps|);
      r.Many? && PairUp(r.frames) == ps && r.consumed == |EncodePairs(ft, ps)|
    decreases ps, 1
  {
    hide ParseFrame, Encode, Transmissible, ParseMany;
    if ps == [] {
      ParseNone(ft, rest);
      assert EncodePairs(ft, ps) + rest == rest;
    } else {
      var tail := EncodePairs(ft, ps[1..]) + rest;
      RoundTripPairs(ft, ps[1..], rest);
      RoundTripPair(ft, ps[0], tail, 2 * |ps| - 2);
      var fs := ParseMany(ft, tail, 2 * |ps| - 2).frames;
      assert ([ps[0].key, ps[0].value] + fs)[2..] == fs;
      assert EncodePairs(ft, ps) + rest == EncodePair(ft, ps[0]) + tail;
      assert ps == [ps[0]] + ps[1..];
    }
  }

  lemma ParseNone(ft: FloatText, data: bytes)
    ensures ParseMany(ft, data, 0) == Many([], 0)
  {
  }

  lemma RoundTripPair(ft: FloatText, p: Pair, tail: bytes, count: nat)
    requires Transmissible(ft, p.key) && Transmissible(ft, p.value)
    requires ParseMany(ft, tail, count).Many?
    ensures var r := ParseMany(ft, tail, count);
      ParseMany(ft, EncodePair(ft, p) + tail, count + 2) == Many([p.key, p.value] + r.frames, |EncodePair(ft, p)| + r.consumed)
    decreases p, 1
  {
    hide ParseFrame, Encode, Transmissible, ParseMany;
    var k, v := Encode(ft, p.key), Encode(ft, p.value);
    RoundTrip(ft, p.value, tail);
    ParseManyCons(ft, p.value, tail, count);
    RoundTrip(ft, p.key, v + tail);
    ParseManyCons(ft, p.key, v + tail, count + 1);
    assert k + v + tail == k + (v + tail);
    var fs := ParseMany(ft, tail, count).frames;
    assert [p.key] + ([p.value] + fs) == [p.key, p.value] + fs;
  }

  /** Every strict prefix of a printed frame asks for more data; it is never an error. */
  lemma PrefixNeedsMore(ft: FloatText, f: Frame, n: nat)
    requires Transmissible(ft, f) && n < |Encode(ft, f)|
    ensures ParseFrame(ft, Encode(ft, f)[..n]) == More
  {
    var s := Encode(ft, f);
    RoundTrip(ft, f, []);
    assert s + [] == s && s[..n] + s[n..] == s;
    if ParseFrame(ft, s[..n]) != More {
      ParseExtends(ft, s[..n], s[n..]);
    }
  }

  /** Printed frames can be told apart without knowing where they end. */
  lemma PrefixFree(ft: FloatText, f: Frame, g: Frame, x: bytes, y: bytes)
    requires Transmissible(ft, f) && Transmissible(ft, g)
    requires Encode(ft, f) + x == Encode(ft, g) + y
    ensures f == g && x == y
  {
    RoundTrip(ft, f, x);
    RoundTrip(ft, g, y);
    var n := |Encode(ft, f)|;
    assert (Encode(ft, f) + x)[n..] == x && (Encode(ft, g) + y)[n..] == y;
  }

  /** A simple string survives the wire exactly when it holds no line end. */
  lemma SimpleStringRoundTripIff(ft: FloatText, t: bytes)
    ensures ParseFrame(ft, Encode(ft, SimpleString(t))) == Done(SimpleString(t), |t| + 3) <==> NoCrlf(t)
  {
    var s := Encode(ft, SimpleString(t));
    assert s + [] == s;
    if NoCrlf(t) {
      RoundTrip(ft, SimpleString(t), []);
    } else {
      var i :| 0 <= i < |t| - 1 && t[i] == CR && t[i + 1] == LF;
      assert s[i + 1] == t[i] && s[i + 2] == t[i + 1];
      FindCrlfBy(s, 1, i + 1);
    }
  }

  lemma {:induction false} FindCrlfBy(data: bytes, i: nat, e: nat)
    requires i <= e && CrlfAt(data, e)
    ensures FindCrlf(data, i) <= e
    decreases e - i
  {
    if i < e && !CrlfAt(data, i) {
      FindCrlfBy(data, i + 1, e);
    }
  }

  // ----- The wire format, byte by byte -----

  /** The bytes of every kind of frame. */
  lemma WireFormat(ft: FloatText, f: Frame)
    ensures match f
      case SimpleString(t) => Encode(ft, f) == [43] + t + [13, 10]
      case Error(t) => Encode(ft, f) == [45] + t + [13, 10]
      case Integer(n) => Encode(ft, f) == [58] + Show(n) + [13, 10]
      case BulkString(c) => Encode(ft, f) == [36] + Digits(|c|) + [13, 10] + c + [13, 10]
      case NullBulkString => Encode(ft, f) == [36, 45, 49, 13, 10]
      case Array(fs) => Encode(ft, f) == [42] + Digits(|fs|) + [13, 10] + EncodeAll(ft, fs)
      case NullArray => Encode(ft, f) == [42, 45, 49, 13, 10]
      case NoResponse => Encode(ft, f) == []
      case Null => Encode(ft, f) == [95, 13, 10]
      case Boolean(b) => Encode(ft, f) == [35, if b then 116 else 102, 13, 10]
      case Double(d) => Encode(ft, f) == [44] + ft.show(d) + [13, 10]
      case Map(ps) => Encode(ft, f) == [37] + Digits(|ps|) + [13, 10] + EncodePairs(ft, ps)
      case Set(fs) => Encode(ft, f) == [126] + Digits(|fs|) + [13, 10] + EncodeAll(ft, fs)
  {
  }

  /** Any other first byte is an error at once. */
  lemma UnknownType(ft: FloatText, data: bytes)
    requires data != [] && data[0] !in {43, 45, 58, 36, 42, 95, 35, 44, 37, 126}
    ensures ParseFrame(ft, data) == Bad(InvalidType(data[0]))
  {
  }
}
