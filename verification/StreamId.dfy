/** Stream ids: milliseconds and a sequence number packed into one 128-bit word.  An id is its
    packed value, so ids compare as numbers. */
module StreamId {
  import opened Bytes
  import opened Decimal

  const WORD: nat := 0x1_0000_0000_0000_0000

  type Id = nat

  /** The ids in a list. */
  ghost function IdSet(ids: seq<Id>): set<Id> {
    set id | id in ids
  }

  function New(millis: nat, seq_: nat): Id
    requires millis < WORD && seq_ < WORD
  {
    millis * WORD + seq_
  }

  function Millis(id: Id): nat {
    id / WORD
  }

  function Seq(id: Id): nat {
    id % WORD
  }

  const MAX_ID: Id := WORD * WORD - 1

  lemma Unpack(millis: nat, seq_: nat)
    requires millis < WORD && seq_ < WORD
    ensures Millis(New(millis, seq_)) == millis && Seq(New(millis, seq_)) == seq_
    ensures New(millis, seq_) <= MAX_ID
  {
  }

  lemma Repack(id: Id)
    requires id <= MAX_ID
    ensures Millis(id) < WORD && Seq(id) < WORD && New(Millis(id), Seq(id)) == id
  {
  }

  /** The packed order is the lexicographic order of milliseconds and sequence number. */
  lemma PackedOrder(a: Id, b: Id)
    ensures a < b <==> Millis(a) < Millis(b) || (Millis(a) == Millis(b) && Seq(a) < Seq(b))
  {
    assert a == Millis(a) * WORD + Seq(a) && b == Millis(b) * WORD + Seq(b);
    if Millis(a) < Millis(b) {
      assert (Millis(a) + 1) * WORD <= Millis(b) * WORD;
    } else if Millis(b) < Millis(a) {
      assert (Millis(b) + 1) * WORD <= Millis(a) * WORD;
    }
  }

  const DASH: byte := 45

  /** The text `millis-seq`. */
  function Text(id: Id): bytes {
    Digits(Millis(id)) + [DASH] + Digits(Seq(id))
  }

  /** The number parser of ids: digits only, wrapping silently; the empty text is 0. */
  function ParseFast(s: bytes): Option<nat> {
    if s == [] then Some(0)
    else
      var last := s[|s| - 1];
      match ParseFast(s[..|s| - 1])
      case None => None
      case Some(v) => if IsDigit(last) then Some((v * 10 + (last as nat - 48)) % WORD) else None
  }

  function FindDash(s: bytes): (n: nat)
    ensures n <= |s| && (n < |s| ==> s[n] == DASH)
    ensures forall i :: 0 <= i < n ==> s[i] != DASH
  {
    if s == [] || s[0] == DASH then 0 else 1 + FindDash(s[1..])
  }

  /** Reads `millis-seq`; `None` if there is no dash or a part is not a number. */
  function FromText(s: bytes): Option<Id> {
    var n := FindDash(s);
    if n == |s| then None
    else
      match (ParseFast(s[..n]), ParseFast(s[n + 1..]))
      case (Some(m), Some(q)) => if m < WORD && q < WORD then Some(New(m, q)) else None
      case _ => None
  }

  lemma {:induction false} ParseFastDigits(n: nat)
    requires n < WORD
    ensures ParseFast(Digits(n)) == Some(n)
    decreases n
  {
    var s := Digits(n);
    if n < 10 {
      assert s[..0] == [];
    } else {
      ParseFastDigits(n / 10);
      assert s[..|s| - 1] == Digits(n / 10);
    }
  }

  /** An id survives being written out as text. */
  lemma TextRoundTrip(id: Id)
    requires id <= MAX_ID
    ensures FromText(Text(id)) == Some(id)
  {
    Repack(id);
    var m, q := Digits(Millis(id)), Digits(Seq(id));
    var s := Text(id);
    var n := FindDash(s);
    assert forall i :: 0 <= i < |m| ==> s[i] == m[i] && s[i] != DASH;
    assert s[|m|] == DASH;
    assert n == |m|;
    assert s[..n] == m && s[n + 1..] == q;
    ParseFastDigits(Millis(id));
    ParseFastDigits(Seq(id));
  }

  /** The text of an id: milliseconds, a dash, sequence number; the id itself is a 128-bit number. */
  lemma IdIs(millis: nat, seq_: nat)
    requires millis < 18446744073709551616 && seq_ < 18446744073709551616
    ensures New(millis, seq_) == millis * 18446744073709551616 + seq_
    ensures Text(New(millis, seq_)) == Digits(millis) + [45] + Digits(seq_)
  {
    Unpack(millis, seq_);
  }
}
