/** The grammar of frames, written down without the parser, and the proof that the parser accepts
    exactly the bytes that spell a frame. */
module RespGrammar {
  import opened Bytes
  import opened Decimal
  import opened Resp

  /** A type byte, a text that holds no line end, a line end, and a body. */
  ghost predicate Framed(s: bytes, b: byte, t: bytes, body: bytes) {
    NoCrlf(t) && s == [b] + t + [13, 10] + body
  }

  ghost predicate I64Framed(s: bytes, b: byte, n: int, body: bytes) {
    exists t :: Framed(s, b, t, body) && ParseI64(t) == Some(n)
  }

  ghost predicate U64Framed(s: bytes, b: byte, n: nat, body: bytes) {
    exists t :: Framed(s, b, t, body) && ParseU64(t) == Some(n)
  }

  /** The bytes spell the frame.  Numbers may have a sign and leading zeros. */
  ghost predicate Spells(ft: FloatText, f: Frame, s: bytes)
    decreases f, 0
  {
    match f
    case SimpleString(t) => Framed(s, 43, t, [])
    case Error(t) => Framed(s, 45, t, [])
    case Integer(n) => I64Framed(s, 58, n, [])
    case BulkString(c) => I64Framed(s, 36, |c|, c + [13, 10])
    case NullBulkString => I64Framed(s, 36, -1, [])
    case Array(items) => exists body :: I64Framed(s, 42, |items|, body) && SpellAll(ft, items, body)
    case NullArray => I64Framed(s, 42, -1, [])
    case NoResponse => false
    case Null => s == [95, 13, 10]
    case Boolean(b) => s == [35, if b then 116 else 102, 13, 10]
    case Double(d) => exists t :: Framed(s, 44, t, []) && ft.read(t) == Some(d)
    case Map(pairs) => exists body :: U64Framed(s, 37, |pairs|, body) && SpellPairs(ft, pairs, body)
    case Set(elements) => exists body :: U64Framed(s, 126, |elements|, body) && SpellAll(ft, elements, body)
  }

  /** The bytes spell the frames one after the other. */
  ghost predicate SpellAll(ft: FloatText, fs: seq<Frame>, s: bytes)
    decreases fs, 1
  {
    if fs == [] then s == []
    else exists head, rest :: s == head + rest && Spells(ft, fs[0], head) && SpellAll(ft, fs[1..], rest)
  }

  ghost predicate SpellPairs(ft: FloatText, ps: seq<Pair>, s: bytes)
    decreases ps, 1
  {
    if ps == [] then s == []
    else exists k, v, rest :: s == k + v + rest && SpellPair(ft, ps[0], k, v) && SpellPairs(ft, ps[1..], rest)
  }

  ghost predicate SpellPair(ft: FloatText, p: Pair, k: bytes, v: bytes)
    decreases p, 1
  {
    Spells(ft, p.key, k) && Spells(ft, p.value, v)
  }

  // ----- What the parser accepts spells a frame -----

  lemma {:induction false} FindCrlfFirst(data: bytes, i: nat, k: nat)
    requires i <= k < FindCrlf(data, i)
    ensures !CrlfAt(data, k)
    decreases |data| - i
  {
    if i < |data| && i < k && !CrlfAt(data, i) {
      FindCrlfFirst(data, i + 1, k);
    }
  }

  lemma LineIsFramed(data: bytes)
    requires ParseLine(data).Line?
    ensures var Line(t, n) := ParseLine(data);
      Framed(data[..n], data[0], t, []) && data == [data[0]] + t + [13, 10] + data[n..]
  {
    var Line(t, n) := ParseLine(data);
    var e := FindCrlf(data, 1);
    forall i | 0 <= i < |t| - 1 ensures !(t[i] == CR && t[i + 1] == LF) {
      FindCrlfFirst(data, 1, i + 1);
    }
    assert data == [data[0]] + data[1..e] + [data[e], data[e + 1]] + data[e + 2..];
    assert data[..n] == [data[0]] + t + [13, 10] + [];
  }

  /** A line and part of what follows it. */
  lemma FramedWith(data: bytes, m: nat)
    requires ParseLine(data).Line? && m <= |data[ParseLine(data).consumed..]|
    ensures var Line(t, n) := ParseLine(data); Framed(data[..n + m], data[0], t, data[n..][..m])
  {
    LineIsFramed(data);
    var Line(t, n) := ParseLine(data);
    assert data[..n + m] == data[..n] + data[n..][..m];
    assert data[..n] == [data[0]] + t + [13, 10];
  }

  lemma {:induction false} ParsedSpells(ft: FloatText, data: bytes)
    requires ParseFrame(ft, data).Done?
    ensures Spells(ft, ParseFrame(ft, data).frame, data[..ParseFrame(ft, data).consumed])
    decreases |data|, 0
  {
    hide ParseLine, ParseI64, ParseU64, Framed;
    if data[0] == TYPE_NULL || data[0] == TYPE_BOOLEAN {
      assert data[..3] == [data[0], data[1], data[2]];
      if data[0] == TYPE_BOOLEAN { assert data[..4] == [data[0], data[1], data[2], data[3]]; }
    } else {
      LineIsFramed(data);
      if data[0] == TYPE_BULK {
        ParsedBulkSpells(ft, data);
      } else if data[0] == TYPE_ARRAY || data[0] == TYPE_MAP || data[0] == TYPE_SET {
        ParsedAggregateSpells(ft, data);
      }
    }
  }

  lemma ParsedBulkSpells(ft: FloatText, data: bytes)
    requires data != [] && data[0] == TYPE_BULK && ParseBulkString(data).Done?
    ensures Spells(ft, ParseBulkString(data).frame, data[..ParseBulkString(data).consumed])
  {
    hide ParseLine, ParseI64, Framed;
    LineIsFramed(data);
    var Line(t, n) := ParseLine(data);
    var v := ParseI64(t).value;
    if v >= 0 {
      FramedWith(data, v + 2);
      assert data[n..][..v + 2] == data[n..n + v] + [13, 10];
    }
  }

  lemma ParsedAggregateSpells(ft: FloatText, data: bytes)
    requires data != [] && data[0] in {TYPE_ARRAY, TYPE_MAP, TYPE_SET} && ParseFrame(ft, data).Done?
    ensures Spells(ft, ParseFrame(ft, data).frame, data[..ParseFrame(ft, data).consumed])
    decreases |data|, 0, 0
  {
    hide ParseLine, ParseI64, ParseU64, Framed, ParseMany, SpellAll, SpellPairs;
    LineIsFramed(data);
    var Line(t, n) := ParseLine(data);
    if ParseFrame(ft, data).frame != NullArray {
      var count := if data[0] == TYPE_ARRAY then ParseI64(t).value else if data[0] == TYPE_MAP then 2 * ParseU64(t).value else ParseU64(t).value;
      var Many(fs, m) := ParseMany(ft, data[n..], count);
      ParsedManySpell(ft, data[n..], count);
      FramedWith(data, m);
      if data[0] == TYPE_MAP {
        PairedSpell(ft, fs, data[n..][..m], count / 2);
      }
    }
  }

  lemma {:induction false} ParsedManySpell(ft: FloatText, data: bytes, count: nat)
    requires ParseMany(ft, data, count).Many?
    ensures var Many(fs, m) := ParseMany(ft, data, count); SpellAll(ft, fs, data[..m])
    decreases |data|, 1, count
  {
    hide ParseFrame, Spells;
    if count > 0 {
      ParsedSpells(ft, data);
      var n := ParseFrame(ft, data).consumed;
      ParsedManySpell(ft, data[n..], count - 1);
      var Many(fs, m) := ParseMany(ft, data, count);
      assert data[..m] == data[..n] + data[n..][..m - n];
      assert fs[0] == ParseFrame(ft, data).frame && fs[1..] == ParseMany(ft, data[n..], count - 1).frames;
    }
  }

  lemma {:induction false} PairedSpell(ft: FloatText, fs: seq<Frame>, s: bytes, count: nat)
    requires SpellAll(ft, fs, s) && |fs| == 2 * count
    ensures SpellPairs(ft, PairUp(fs), s) && |PairUp(fs)| == count
  {
    hide Spells;
    if fs != [] {
      var k, t :| s == k + t && Spells(ft, fs[0], k) && SpellAll(ft, fs[1..], t);
      var gs := fs[1..];
      var v, u :| t == v + u && Spells(ft, gs[0], v) && SpellAll(ft, gs[1..], u);
      assert gs[1..] == fs[2..];
      PairedSpell(ft, fs[2..], u, count - 1);
      hide SpellAll;
      Associative(k, v, u);
      assert SpellPair(ft, Pair(fs[0], fs[1]), k, v);
      assert PairUp(fs)[0] == Pair(fs[0], fs[1]) && PairUp(fs)[1..] == PairUp(fs[2..]);
    }
  }

  // ----- What spells a frame is accepted -----

  lemma FramedLine(s: bytes, b: byte, t: bytes, body: bytes, rest: bytes)
    requires Framed(s, b, t, body)
    ensures (s + rest)[0] == b && ParseLine(s + rest) == Line(t, |t| + 3)
    ensures (s + rest)[|t| + 3..] == body + rest && |s| == |t| + 3 + |body|
  {
    LineOf(b, t, body + rest);
    assert s + rest == [b] + t + CRLF + (body + rest);
  }

  lemma {:induction false} SpelledParses(ft: FloatText, f: Frame, s: bytes, rest: bytes)
    requires Spells(ft, f, s)
    ensures ParseFrame(ft, s + rest) == Done(f, |s|)
    decreases f, 0
  {
    hide ParseLine, ParseI64, ParseU64, Framed, ParseMany, SpellAll, SpellPairs, PairUp;
    match f
    case SimpleString(t) => FramedLine(s, 43, t, [], rest);
    case Error(t) => FramedLine(s, 45, t, [], rest);
    case Integer(n) =>
      var t :| Framed(s, 58, t, []) && ParseI64(t) == Some(n);
      FramedLine(s, 58, t, [], rest);
    case BulkString(c) => SpelledBulk(c, s, rest);
    case NullBulkString =>
      var t :| Framed(s, 36, t, []) && ParseI64(t) == Some(-1);
      FramedLine(s, 36, t, [], rest);
    case Array(items) =>
      var body :| I64Framed(s, 42, |items|, body) && SpellAll(ft, items, body);
      var t :| Framed(s, 42, t, body) && ParseI64(t) == Some(|items|);
      FramedLine(s, 42, t, body, rest);
      SpelledAll(ft, items, body, rest);
    case NullArray =>
      var t :| Framed(s, 42, t, []) && ParseI64(t) == Some(-1);
      FramedLine(s, 42, t, [], rest);
    case Null =>
      assert (s + rest)[1] == CR && (s + rest)[2] == LF;
    case Boolean(b) =>
      assert (s + rest)[2] == CR && (s + rest)[3] == LF;
    case Double(d) =>
      var t :| Framed(s, 44, t, []) && ft.read(t) == Some(d);
      FramedLine(s, 44, t, [], rest);
    case Map(pairs) =>
      var body :| U64Framed(s, 37, |pairs|, body) && SpellPairs(ft, pairs, body);
      var t :| Framed(s, 37, t, body) && ParseU64(t) == Some(|pairs|);
      FramedLine(s, 37, t, body, rest);
      SpelledPairs(ft, pairs, body, rest);
    case Set(elements) =>
      var body :| U64Framed(s, 126, |elements|, body) && SpellAll(ft, elements, body);
      var t :| Framed(s, 126, t, body) && ParseU64(t) == Some(|elements|);
      FramedLine(s, 126, t, body, rest);
      SpelledAll(ft, elements, body, rest);
  }

  lemma SpelledBulk(c: bytes, s: bytes, rest: bytes)
    requires I64Framed(s, 36, |c|, c + [13, 10])
    ensures (s + rest)[0] == 36 && ParseBulkString(s + rest) == Done(BulkString(c), |s|)
  {
    hide ParseLine, ParseI64, Framed;
    var t :| Framed(s, 36, t, c + [13, 10]) && ParseI64(t) == Some(|c|);
    FramedLine(s, 36, t, c + [13, 10], rest);
    var data, n := s + rest, |t| + 3;
    var tail := c + [13, 10] + rest;
    assert data[n..] == tail;
    assert data[n..n + |c|] == tail[..|c|] == c;
    assert data[n + |c|] == tail[|c|] && data[n + |c| + 1] == tail[|c| + 1];
  }

  /** One more frame in front. */
  lemma ManyCons(ft: FloatText, f: Frame, s: bytes, tail: bytes, count: nat)
    requires ParseFrame(ft, s + tail) == Done(f, |s|) && ParseMany(ft, tail, count).Many?
    ensures var r := ParseMany(ft, tail, count);
      ParseMany(ft, s + tail, count + 1) == Many([f] + r.frames, |s| + r.consumed)
  {
    hide ParseFrame;
    assert (s + tail)[|s|..] == tail;
  }

  lemma {:induction false} SpelledAll(ft: FloatText, fs: seq<Frame>, s: bytes, rest: bytes)
    requires SpellAll(ft, fs, s)
    ensures ParseMany(ft, s + rest, |fs|) == Many(fs, |s|)
    decreases fs, 1
  {
    hide ParseFrame, Spells, ParseMany;
    if fs == [] {
      ParseNone(ft, s + rest);
    } else {
      var head, u :| s == head + u && Spells(ft, fs[0], head) && SpellAll(ft, fs[1..], u);
      hide SpellAll;
      SpelledParses(ft, fs[0], head, u + rest);
      SpelledAll(ft, fs[1..], u, rest);
      ManyCons(ft, fs[0], head, u + rest, |fs| - 1);
      Associative(head, u, rest);
      HeadAndTail(fs);
    }
  }

  lemma {:induction false} SpelledPairs(ft: FloatText, ps: seq<Pair>, s: bytes, rest: bytes)
    requires SpellPairs(ft, ps, s)
    ensures var r := ParseMany(ft, s + rest, 2 * |ps|);
      r.Many? && PairUp(r.frames) == ps && r.consumed == |s|
    decreases ps, 1
  {
    hide ParseFrame, Spells, ParseMany, SpellPair;
    if ps == [] {
      ParseNone(ft, s + rest);
    } else {
      var k, v, u :| s == k + v + u && SpellPair(ft, ps[0], k, v) && SpellPairs(ft, ps[1..], u);
      hide SpellPairs;
      var tail := u + rest;
      SpelledPairs(ft, ps[1..], u, rest);
      SpelledPair(ft, ps[0], k, v, tail, 2 * |ps| - 2);
      var fs := ParseMany(ft, tail, 2 * |ps| - 2).frames;
      PairUpCons(ps[0], fs);
      Associative(k + v, u, rest);
      HeadAndTail(ps);
    }
  }

  lemma PairUpCons(p: Pair, fs: seq<Frame>)
    ensures PairUp([p.key, p.value] + fs) == [p] + PairUp(fs)
  {
    assert ([p.key, p.value] + fs)[2..] == fs;
  }

  lemma SpelledPair(ft: FloatText, p: Pair, k: bytes, v: bytes, tail: bytes, count: nat)
    requires SpellPair(ft, p, k, v) && ParseMany(ft, tail, count).Many?
    ensures var r := ParseMany(ft, tail, count);
      ParseMany(ft, k + v + tail, count + 2) == Many([p.key, p.value] + r.frames, |k| + |v| + r.consumed)
    decreases p, 1
  {
    hide ParseFrame, Spells, ParseMany;
    SpelledParses(ft, p.value, v, tail);
    ManyCons(ft, p.value, v, tail, count);
    SpelledParses(ft, p.key, k, v + tail);
    ManyCons(ft, p.key, k, v + tail, count + 1);
    assert k + v + tail == k + (v + tail);
    var fs := ParseMany(ft, tail, count).frames;
    assert [p.key] + ([p.value] + fs) == [p.key, p.value] + fs;
  }

  // ----- The parser accepts exactly the grammar -----

  /** A frame is found, with so many bytes, if and only if these bytes spell it. */
  lemma AcceptsExactly(ft: FloatText, data: bytes, f: Frame, n: nat)
    ensures ParseFrame(ft, data) == Done(f, n) <==> n <= |data| && Spells(ft, f, data[..n])
  {
    hide ParseFrame, Spells;
    if n <= |data| && Spells(ft, f, data[..n]) {
      SpelledParses(ft, f, data[..n], data[n..]);
      assert data[..n] + data[n..] == data;
    }
    if ParseFrame(ft, data).Done? {
      ParsedSpells(ft, data);
    }
  }

  /** After an error no continuation has a frame in front. */
  lemma ErrorsAreFinal(ft: FloatText, data: bytes, more: bytes, f: Frame, n: nat)
    requires ParseFrame(ft, data).Bad? && n <= |data + more|
    ensures !Spells(ft, f, (data + more)[..n])
  {
    hide ParseFrame, Spells;
    ParseExtends(ft, data, more);
    AcceptsExactly(ft, data + more, f, n);
  }

  /** Which error: after a whole line, a text that is not the number the type asks for. */
  lemma BadNumber(ft: FloatText, b: byte, t: bytes, rest: bytes)
    requires NoCrlf(t)
    ensures var r := ParseFrame(ft, [b] + t + [13, 10] + rest);
      && (ParseI64(t) == None && b == 58 ==> r == Bad(InvalidInteger))
      && (ParseI64(t) == None && b == 36 ==> r == Bad(InvalidBulkLength))
      && (ParseI64(t) == None && b == 42 ==> r == Bad(InvalidArrayLength))
      && (ParseU64(t) == None && b == 37 ==> r == Bad(InvalidMapLength))
      && (ParseU64(t) == None && b == 126 ==> r == Bad(InvalidSetLength))
      && (ft.read(t) == None && b == 44 ==> r == Bad(InvalidDouble))
  {
    hide ParseLine, ParseI64, ParseU64, ParseMany;
    LineOf(b, t, rest);
  }

  /** A negative length other than -1; a bulk string that is not complete, or lacks its line end. */
  lemma BadLength(ft: FloatText, t: bytes, rest: bytes)
    requires NoCrlf(t) && ParseI64(t).Some? && ParseI64(t).value != -1
    ensures var n, bulk, list := ParseI64(t).value, ParseFrame(ft, [36] + t + [13, 10] + rest), ParseFrame(ft, [42] + t + [13, 10] + rest);
      && (n < 0 ==> bulk == Bad(NegativeBulkLength) && list == Bad(NegativeArrayLength))
      && (0 <= n && |rest| < n + 2 ==> bulk == More)
      && (0 <= n && |rest| >= n + 2 && rest[n..n + 2] != [13, 10] ==> bulk == Bad(MissingCrlf))
  {
    hide ParseLine, ParseI64, ParseMany;
    LineOf(42, t, rest);
    LineOf(36, t, rest);
    if ParseI64(t).value >= 0 {
      BulkAfterLine(t, rest);
    }
  }

  lemma BulkAfterLine(t: bytes, rest: bytes)
    requires NoCrlf(t) && ParseI64(t).Some? && 0 <= ParseI64(t).value
    ensures var n, bulk := ParseI64(t).value, ParseBulkString([36] + t + [13, 10] + rest);
      && (|rest| < n + 2 ==> bulk == More)
      && (|rest| >= n + 2 && rest[n..n + 2] != [13, 10] ==> bulk == Bad(MissingCrlf))
  {
    hide ParseLine, ParseI64;
    LineOf(36, t, rest);
    var data, k, n := [36] + t + [13, 10] + rest, |t| + 3, ParseI64(t).value;
    assert data[k..] == rest && |data| == k + |rest|;
    if |rest| >= n + 2 {
      assert data[k + n] == rest[n] && data[k + n + 1] == rest[n + 1];
      assert rest[n..n + 2] == [rest[n], rest[n + 1]];
    }
  }

  lemma BadNullOrBoolean(ft: FloatText, a: byte, b: byte, c: byte, rest: bytes)
    ensures [a, b] != [13, 10] ==> ParseFrame(ft, [95, a, b] + rest) == Bad(InvalidNull)
    ensures a !in {116, 102} || [b, c] != [13, 10] ==> ParseFrame(ft, [35, a, b, c] + rest) == Bad(InvalidBoolean)
  {
    var n, d := [95, a, b] + rest, [35, a, b, c] + rest;
    assert n[1] == a && n[2] == b && d[1] == a && d[2] == b && d[3] == c;
  }
}
