/** The wire format shared by the link-state and the distance-vector messages, and
  * the methods that write and read it through a buffer iterator.
  */
module Codec {
  import opened Basics

  type Bytes = seq<Uint8>

  /** The payload of a ping or a hello. */
  datatype Text = Text(destination: Uint32, text: Bytes)

  type Cost = (Uint32, Uint32)

  datatype Payload =
    | PingReq(pingReq: Text)
    | PingRsp(pingRsp: Text)
    | HelloReq(helloReq: Text)
    | TableMsg(neighborCosts: seq<Cost>)

  /** What a message transmits. */
  datatype Wire = Wire(sequenceNumber: Uint32, ttl: Uint8, originator: Uint32, payload: Payload)

  // ---------- the bytes of a message ----------

  function U32Bytes(x: Uint32): Bytes {
    [x / 0x100_0000, x / 0x1_0000 % 0x100, x / 0x100 % 0x100, x % 0x100]
  }

  /** A length is converted to sixteen bits, low byte first. */
  function U16Bytes(length: nat): Bytes {
    [length % 0x100, length / 0x100 % 0x100]
  }

  function TextBytes(t: Text): (b: Bytes)
    ensures |b| == 6 + |t.text|
  {
    U32Bytes(t.destination) + (U16Bytes(|t.text|) + t.text)
  }

  function CostBytes(c: Cost): Bytes {
    U32Bytes(c.0) + U32Bytes(c.1)
  }

  function CostsBytes(costs: seq<Cost>): (b: Bytes)
    ensures |b| == 8 * |costs|
  {
    if costs == [] then []
    else CostsBytes(costs[..|costs| - 1]) + CostBytes(costs[|costs| - 1])
  }

  function PayloadBytes(p: Payload): Bytes {
    match p
    case PingReq(t) => TextBytes(t)
    case PingRsp(t) => TextBytes(t)
    case HelloReq(t) => TextBytes(t)
    case TableMsg(costs) => U16Bytes(|costs|) + CostsBytes(costs)
  }

  function Kind(p: Payload): Uint8 {
    match p
    case PingReq(_) => 1
    case PingRsp(_) => 2
    case HelloReq(_) => 3
    case TableMsg(_) => 4
  }

  function HeaderBytes(w: Wire): Bytes {
    [Kind(w.payload)] + (U32Bytes(w.sequenceNumber) + ([w.ttl] + U32Bytes(w.originator)))
  }

  function WireBytes(w: Wire): Bytes {
    HeaderBytes(w) + PayloadBytes(w.payload)
  }

  // ---------- the message at a position ----------

  function BigEndian(w: int, x: int, y: int, z: int): int {
    ((w * 0x100 + x) * 0x100 + y) * 0x100 + z
  }

  function U32At(b: Bytes, p: nat): Uint32
    requires p + 4 <= |b|
  {
    BigEndian(b[p], b[p + 1], b[p + 2], b[p + 3])
  }

  function LittleEndian(low: int, high: int): int {
    low + high * 0x100
  }

  function U16At(b: Bytes, p: nat): (x: nat)
    requires p + 2 <= |b|
    ensures x < TWO_TO_16
  {
    LittleEndian(b[p], b[p + 1])
  }

  /** None when the bytes end too early. */
  function TextAt(b: Bytes, p: nat): Option<Text> {
    if p + 6 > |b| || p + 6 + U16At(b, p + 4) > |b| then None
    else Some(Text(U32At(b, p), b[p + 6..p + 6 + U16At(b, p + 4)]))
  }

  function CostsAt(b: Bytes, p: nat, n: nat): seq<Cost>
    requires p + 8 * n <= |b|
  {
    seq(n, i requires 0 <= i < n => (U32At(b, p + 8 * i), U32At(b, p + 8 * i + 4)))
  }

  function TableAt(b: Bytes, p: nat): Option<seq<Cost>> {
    if p + 2 > |b| || p + 2 + 8 * U16At(b, p) > |b| then None
    else Some(CostsAt(b, p + 2, U16At(b, p)))
  }

  function PayloadAt(b: Bytes, p: nat, kind: Uint8): Option<Payload> {
    if kind == 4 then
      var costs := TableAt(b, p);
      if costs.None? then None else Some(TableMsg(costs.value))
    else
      var t := TextAt(b, p);
      if t.None? then None
      else if kind == 1 then Some(PingReq(t.value))
      else if kind == 2 then Some(PingRsp(t.value))
      else if kind == 3 then Some(HelloReq(t.value))
      else None
  }

  /** None when the bytes end too early or the type is unknown. */
  function WireAt(b: Bytes, p: nat): Option<Wire> {
    if p + 10 > |b| then None
    else
      var payload := PayloadAt(b, p + 10, b[p]);
      if payload.None? then None
      else Some(Wire(U32At(b, p + 1), b[p + 5], U32At(b, p + 6), payload.value))
  }

  // ---------- occurrences ----------

  predicate Occurs(b: Bytes, p: nat, part: Bytes) {
    p + |part| <= |b| && b[p..p + |part|] == part
  }

  lemma {:induction false} OccursInTurn(b: Bytes, p: nat, x: Bytes, y: Bytes)
    ensures Occurs(b, p, x + y) <==> Occurs(b, p, x) && Occurs(b, p + |x|, y)
  {
    if p + |x| + |y| <= |b| {
      var part := b[p..p + |x| + |y|];
      assert part[..|x|] == b[p..p + |x|];
      assert part[|x|..] == b[p + |x|..p + |x| + |y|];
      assert part == part[..|x|] + part[|x|..];
      if Occurs(b, p, x + y) {
        assert part[..|x|] == x && part[|x|..] == y;
      }
    }
  }

  /** The four digits of a number in base 256 are determined. */
  lemma {:induction false} Digits(v: Uint32, w: Uint8, x: Uint8, y: Uint8, z: Uint8)
    ensures U32Bytes(v) == [w, x, y, z] <==> v == BigEndian(w, x, y, z)
  {
    if v == BigEndian(w, x, y, z) {
      var high := BigEndian(0, w, x, y);
      assert v / 0x100 == high;
      assert v / 0x1_0000 == high / 0x100 == BigEndian(0, 0, w, x);
      assert v / 0x100_0000 == w;
    }
    var a, b, c := v / 0x100_0000, v / 0x1_0000, v / 0x100;
    assert b == a * 0x100 + b % 0x100 && c == b * 0x100 + c % 0x100;
  }

  lemma {:induction false} U32Occurs(b: Bytes, p: nat, x: Uint32)
    requires p + 4 <= |b|
    ensures Occurs(b, p, U32Bytes(x)) <==> U32At(b, p) == x
  {
    Digits(x, b[p], b[p + 1], b[p + 2], b[p + 3]);
    assert b[p..p + 4] == [b[p], b[p + 1], b[p + 2], b[p + 3]];
  }

  lemma {:induction false} U16Occurs(b: Bytes, p: nat, x: nat)
    requires p + 2 <= |b|
    ensures Occurs(b, p, U16Bytes(x)) <==> U16At(b, p) == SixteenBits(x)
  {
    assert b[p..p + 2] == [b[p], b[p + 1]];
    assert SixteenBits(x) == x % 0x100 + x / 0x100 % 0x100 * 0x100;
  }

  lemma {:induction false} U8Occurs(b: Bytes, p: nat, x: Uint8)
    requires p < |b|
    ensures Occurs(b, p, [x]) <==> b[p] == x
  {
    assert b[p..p + 1] == [b[p]];
  }

  lemma {:induction false} CostOccurs(b: Bytes, p: nat, c: Cost)
    requires p + 8 <= |b|
    ensures Occurs(b, p, CostBytes(c)) <==> (U32At(b, p), U32At(b, p + 4)) == c
  {
    OccursInTurn(b, p, U32Bytes(c.0), U32Bytes(c.1));
    U32Occurs(b, p, c.0);
    U32Occurs(b, p + 4, c.1);
  }

  lemma {:induction false} CostsOccur(b: Bytes, p: nat, costs: seq<Cost>)
    requires p + 8 * |costs| <= |b|
    ensures Occurs(b, p, CostsBytes(costs)) <==> CostsAt(b, p, |costs|) == costs
  {
    if costs != [] {
      var n := |costs| - 1;
      var front, last := costs[..n], costs[n];
      var q := p + 8 * n;
      CostsOccur(b, p, front);
      OccursInTurn(b, p, CostsBytes(front), CostBytes(last));
      CostOccurs(b, q, last);
      assert CostsAt(b, p, n + 1) == CostsAt(b, p, n) + [(U32At(b, q), U32At(b, q + 4))];
      assert costs == front + [last];
    }
  }

  // ---------- what survives ----------

  predicate Fits(p: Payload) {
    match p
    case PingReq(t) => |t.text| < TWO_TO_16
    case PingRsp(t) => |t.text| < TWO_TO_16
    case HelloReq(t) => |t.text| < TWO_TO_16
    case TableMsg(costs) => |costs| < TWO_TO_16
  }

  /** A length as sixteen bits hold it. */
  function SixteenBits(length: nat): (n: nat)
    ensures n <= length && n < TWO_TO_16 && (n == length <==> length < TWO_TO_16)
  {
    length % TWO_TO_16
  }

  function CutText(t: Text): Text {
    Text(t.destination, t.text[..SixteenBits(|t.text|)])
  }

  /** What is left when the length field keeps sixteen bits only. */
  function Cut(p: Payload): Payload {
    match p
    case PingReq(t) => PingReq(CutText(t))
    case PingRsp(t) => PingRsp(CutText(t))
    case HelloReq(t) => HelloReq(CutText(t))
    case TableMsg(costs) => TableMsg(costs[..SixteenBits(|costs|)])
  }

  lemma {:induction false} CutIsSame(p: Payload)
    ensures Cut(p) == p <==> Fits(p)
  {
    match p {
      case PingReq(t) => CutTextIsSame(t);
      case PingRsp(t) => CutTextIsSame(t);
      case HelloReq(t) => CutTextIsSame(t);
      case TableMsg(costs) =>
        var n := SixteenBits(|costs|);
        assert |costs[..n]| == n;
    }
  }

  lemma {:induction false} CutTextIsSame(t: Text)
    ensures CutText(t) == t <==> |t.text| < TWO_TO_16
  {
    var n := SixteenBits(|t.text|);
    assert |t.text[..n]| == n;
  }

  lemma {:induction false} TextSurvives(b: Bytes, p: nat, t: Text)
    requires Occurs(b, p, TextBytes(t))
    ensures TextAt(b, p) == Some(CutText(t))
  {
    TextParts(b, p, t);
    TextReads(b, p, t, SixteenBits(|t.text|));
  }

  lemma {:induction false} TextReads(b: Bytes, p: nat, t: Text, n: nat)
    requires n <= |t.text| && p + 6 + |t.text| <= |b|
    requires U32At(b, p) == t.destination && U16At(b, p + 4) == n && Occurs(b, p + 6, t.text)
    ensures TextAt(b, p) == Some(Text(t.destination, t.text[..n]))
  {
    assert b[p + 6..p + 6 + n] == b[p + 6..p + 6 + |t.text|][..n];
  }

  lemma {:induction false} TextParts(b: Bytes, p: nat, t: Text)
    requires p + 6 + |t.text| <= |b|
    ensures Occurs(b, p, TextBytes(t)) <==>
            U32At(b, p) == t.destination && U16At(b, p + 4) == SixteenBits(|t.text|) && Occurs(b, p + 6, t.text)
  {
    OccursInTurn(b, p, U32Bytes(t.destination), U16Bytes(|t.text|) + t.text);
    OccursInTurn(b, p + 4, U16Bytes(|t.text|), t.text);
    U32Occurs(b, p, t.destination);
    U16Occurs(b, p + 4, |t.text|);
  }

  lemma {:induction false} TableSurvives(b: Bytes, p: nat, costs: seq<Cost>)
    requires Occurs(b, p, U16Bytes(|costs|) + CostsBytes(costs))
    ensures TableAt(b, p) == Some(costs[..SixteenBits(|costs|)])
  {
    TableParts(b, p, costs);
    TableReads(b, p, costs, SixteenBits(|costs|));
  }

  lemma {:induction false} TableReads(b: Bytes, p: nat, costs: seq<Cost>, n: nat)
    requires n <= |costs| && p + 2 + 8 * |costs| <= |b|
    requires U16At(b, p) == n && CostsAt(b, p + 2, |costs|) == costs
    ensures TableAt(b, p) == Some(costs[..n])
  {
    assert CostsAt(b, p + 2, n) == CostsAt(b, p + 2, |costs|)[..n];
  }

  lemma {:induction false} TableParts(b: Bytes, p: nat, costs: seq<Cost>)
    requires p + 2 + 8 * |costs| <= |b|
    ensures Occurs(b, p, U16Bytes(|costs|) + CostsBytes(costs)) <==>
            U16At(b, p) == SixteenBits(|costs|) && CostsAt(b, p + 2, |costs|) == costs
  {
    OccursInTurn(b, p, U16Bytes(|costs|), CostsBytes(costs));
    U16Occurs(b, p, |costs|);
    CostsOccur(b, p + 2, costs);
  }

  lemma {:induction false} PayloadSurvives(b: Bytes, q: nat, p: Payload)
    requires Occurs(b, q, PayloadBytes(p))
    ensures PayloadAt(b, q, Kind(p)) == Some(Cut(p))
  {
    match p {
      case PingReq(t) => TextSurvives(b, q, t);
      case PingRsp(t) => TextSurvives(b, q, t);
      case HelloReq(t) => TextSurvives(b, q, t);
      case TableMsg(costs) => TableSurvives(b, q, costs);
    }
  }

  /** Reading back the bytes of a message, whatever surrounds them, gives the message
    * with its length reduced modulo 2^16: the same message exactly when it fits. */
  lemma {:induction false} RoundTrip(b: Bytes, p: nat, w: Wire)
    requires Occurs(b, p, WireBytes(w))
    ensures WireAt(b, p) == Some(w.(payload := Cut(w.payload)))
    ensures WireAt(b, p) == Some(w) <==> Fits(w.payload)
  {
    HeaderOccurs(b, p, w);
    CutIsSame(w.payload);
    PayloadSurvives(b, p + 10, w.payload);
  }

  lemma {:induction false} HeaderOccurs(b: Bytes, p: nat, w: Wire)
    requires p + 10 <= |b|
    ensures Occurs(b, p, WireBytes(w)) <==>
            b[p] == Kind(w.payload) && U32At(b, p + 1) == w.sequenceNumber && b[p + 5] == w.ttl &&
            U32At(b, p + 6) == w.originator && Occurs(b, p + 10, PayloadBytes(w.payload))
  {
    var kind, number, ttl, originator := [Kind(w.payload)], U32Bytes(w.sequenceNumber), [w.ttl], U32Bytes(w.originator);
    OccursInTurn(b, p, HeaderBytes(w), PayloadBytes(w.payload));
    OccursInTurn(b, p, kind, number + (ttl + originator));
    OccursInTurn(b, p + 1, number, ttl + originator);
    OccursInTurn(b, p + 5, ttl, originator);
    U8Occurs(b, p, Kind(w.payload));
    U32Occurs(b, p + 1, w.sequenceNumber);
    U8Occurs(b, p + 5, w.ttl);
    U32Occurs(b, p + 6, w.originator);
  }

  lemma {:induction false} TextHasOneForm(b: Bytes, p: nat, t: Text)
    requires TextAt(b, p) == Some(t)
    ensures Occurs(b, p, TextBytes(t)) && |t.text| < TWO_TO_16
  {
    TextParts(b, p, t);
  }

  lemma {:induction false} TableHasOneForm(b: Bytes, p: nat, costs: seq<Cost>)
    requires TableAt(b, p) == Some(costs)
    ensures Occurs(b, p, U16Bytes(|costs|) + CostsBytes(costs)) && |costs| < TWO_TO_16
  {
    TableParts(b, p, costs);
  }

  /** Whatever is read successfully is made of the very bytes the writer produces. */
  lemma {:induction false} OneFormOnly(b: Bytes, p: nat, w: Wire)
    requires WireAt(b, p) == Some(w)
    ensures Occurs(b, p, WireBytes(w)) && Fits(w.payload)
  {
    HeaderOccurs(b, p, w);
    var q := p + 10;
    match w.payload {
      case PingReq(t) => TextHasOneForm(b, q, t);
      case PingRsp(t) => TextHasOneForm(b, q, t);
      case HelloReq(t) => TextHasOneForm(b, q, t);
      case TableMsg(costs) => TableHasOneForm(b, q, costs);
    }
  }

  // ---------- the format in numbers ----------

  /** Four bytes at p, the highest first. */
  predicate HighFirst(b: Bytes, p: nat, x: int) {
    p + 4 <= |b| && x == (b[p] as int) * 0x100_0000 + (b[p + 1] as int) * 0x1_0000 + (b[p + 2] as int) * 0x100 + b[p + 3]
  }

  lemma {:induction false} U32IsHighFirst(b: Bytes, p: nat, x: Uint32)
    requires p + 4 <= |b| && U32At(b, p) == x
    ensures HighFirst(b, p, x)
  {
  }

  /** The header: type, number, TTL and originator, ten bytes in all. */
  lemma {:induction false} HeaderLayout(w: Wire)
    ensures
      var b := WireBytes(w);
      |b| >= 10 && HighFirst(b, 1, w.sequenceNumber) && b[5] == w.ttl && HighFirst(b, 6, w.originator) &&
      b[0] == if w.payload.PingReq? then 1 else if w.payload.PingRsp? then 2 else if w.payload.HelloReq? then 3 else 4
  {
    var b := WireBytes(w);
    HeaderOccurs(b, 0, w);
  }

  /** A ping or a hello: destination, length with its low byte first, text. */
  lemma {:induction false} TextLayout(b: Bytes, p: nat, t: Text)
    requires Occurs(b, p, TextBytes(t))
    ensures p + 6 + |t.text| <= |b| && HighFirst(b, p, t.destination) && b[p + 6..p + 6 + |t.text|] == t.text
    ensures b[p + 4] + (b[p + 5] as int) * 0x100 == |t.text| % 0x1_0000
  {
    TextParts(b, p, t);
  }

  /** A table: the number of pairs with its low byte first, then address and cost of each. */
  lemma {:induction false} TableLayout(b: Bytes, p: nat, costs: seq<Cost>, i: nat)
    requires Occurs(b, p, U16Bytes(|costs|) + CostsBytes(costs))
    ensures p + 2 + 8 * |costs| <= |b| && b[p] + (b[p + 1] as int) * 0x100 == |costs| % 0x1_0000
    ensures i < |costs| ==>
      HighFirst(b, p + 2 + 8 * i, costs[i].0) && HighFirst(b, p + 2 + 8 * i + 4, costs[i].1)
  {
    TableParts(b, p, costs);
    if i < |costs| {
      assert CostsAt(b, p + 2, |costs|)[i] == costs[i];
    }
  }

  /** Where the payload is, and which of the two forms it has. */
  lemma {:induction false} PayloadLayout(w: Wire)
    ensures
      var b := WireBytes(w);
      |b| >= 10 &&
      match w.payload
      case PingReq(t) => Occurs(b, 10, TextBytes(t))
      case PingRsp(t) => Occurs(b, 10, TextBytes(t))
      case HelloReq(t) => Occurs(b, 10, TextBytes(t))
      case TableMsg(costs) => Occurs(b, 10, U16Bytes(|costs|) + CostsBytes(costs))
  {
    HeaderOccurs(WireBytes(w), 0, w);
  }

  // ---------- the buffer iterator ----------

  /** b with part written over it from position p on. */
  function Patched(b: Bytes, p: nat, part: Bytes): Bytes
    requires p + |part| <= |b|
  {
    b[..p] + part + b[p + |part|..]
  }

  /** Consecutive writes amount to one write of the concatenation. */
  lemma {:induction false} PatchedTwice(b: Bytes, p: nat, x: Bytes, y: Bytes)
    requires p + |x| + |y| <= |b|
    ensures Patched(Patched(b, p, x), p + |x|, y) == Patched(b, p, x + y)
  {
    var once := Patched(b, p, x);
    assert once[..p + |x|] == b[..p] + x;
    assert once[p + |x| + |y|..] == b[p + |x| + |y|..];
  }

  lemma {:induction false} PatchedFour(b: Bytes, p: nat, w: Bytes, x: Bytes, y: Bytes, z: Bytes)
    requires p + |w| + |x| + |y| + |z| <= |b|
    ensures
      var one := Patched(b, p, w);
      var two := Patched(one, p + |w|, x);
      var three := Patched(two, p + |w| + |x|, y);
      Patched(three, p + |w| + |x| + |y|, z) == Patched(b, p, w + (x + (y + z)))
  {
    PatchedTwice(b, p, w, x);
    PatchedTwice(b, p, w + x, y);
    PatchedTwice(b, p, w + x + y, z);
    assert w + x + y + z == w + (x + (y + z));
  }

  lemma {:induction false} PatchedOccurs(b: Bytes, p: nat, part: Bytes)
    requires p + |part| <= |b|
    ensures Occurs(Patched(b, p, part), p, part)
  {
    assert Patched(b, p, part)[p..p + |part|] == part;
  }

  lemma {:induction false} PatchedOnce(b: Bytes, p: nat, count: Bytes, costs: seq<Cost>, k: nat)
    requires k < |costs| && |count| == 2 && p + 2 + 8 * (k + 1) <= |b|
    ensures Patched(Patched(b, p, count + CostsBytes(costs[..k])), p + 2 + 8 * k, CostBytes(costs[k]))
         == Patched(b, p, count + CostsBytes(costs[..k + 1]))
  {
    PatchedTwice(b, p, count + CostsBytes(costs[..k]), CostBytes(costs[k]));
    assert costs[..k + 1][..k] == costs[..k];
    assert count + CostsBytes(costs[..k]) + CostBytes(costs[k]) == count + CostsBytes(costs[..k + 1]);
  }

  /** Reading a buffer where a message was written restores the message, exactly when
    * its length fits. */
  lemma {:induction false} WrittenIsRead(b: Bytes, p: nat, w: Wire)
    requires p + |WireBytes(w)| <= |b|
    ensures WireAt(Patched(b, p, WireBytes(w)), p) == Some(w.(payload := Cut(w.payload)))
    ensures WireAt(Patched(b, p, WireBytes(w)), p) == Some(w) <==> Fits(w.payload)
  {
    PatchedOccurs(b, p, WireBytes(w));
    RoundTrip(Patched(b, p, WireBytes(w)), p, w);
  }

  class Iterator {
    const data: array<Uint8>
    var pos: nat

    ghost predicate Valid()
      reads this
    {
      pos <= data.Length
    }

    constructor (data: array<Uint8>, start: nat)
      requires start <= data.Length
      ensures Valid() && this.data == data && pos == start
    {
      this.data := data;
      pos := start;
    }

    method WriteU8(x: Uint8)
      requires pos < data.Length
      modifies this`pos, data
      ensures Valid() && pos == old(pos) + 1 && data[..] == Patched(old(data[..]), old(pos), [x])
    {
      data[pos] := x;
      pos := pos + 1;
    }

    method WriteU16(x: nat)
      requires pos + 2 <= data.Length
      modifies this`pos, data
      ensures Valid() && pos == old(pos) + 2 && data[..] == Patched(old(data[..]), old(pos), U16Bytes(x))
    {
      var low, high: Uint8 := x % 0x100, x / 0x100 % 0x100;
      ghost var before, p := data[..], pos;
      WriteU8(low);
      WriteU8(high);
      PatchedTwice(before, p, [low], [high]);
      assert U16Bytes(x) == [low] + [high];
    }

    method WriteHtonU32(x: Uint32)
      requires pos + 4 <= data.Length
      modifies this`pos, data
      ensures Valid() && pos == old(pos) + 4 && data[..] == Patched(old(data[..]), old(pos), U32Bytes(x))
    {
      data[pos] := x / 0x100_0000;
      data[pos + 1] := x / 0x1_0000 % 0x100;
      data[pos + 2] := x / 0x100 % 0x100;
      data[pos + 3] := x % 0x100;
      pos := pos + 4;
    }

    method Write(bytes: Bytes)
      requires pos + |bytes| <= data.Length
      modifies this`pos, data
      ensures Valid() && pos == old(pos) + |bytes| && data[..] == Patched(old(data[..]), old(pos), bytes)
    {
      forall i | 0 <= i < |bytes| {
        data[pos + i] := bytes[i];
      }
      pos := pos + |bytes|;
    }

    method ReadU8() returns (r: Option<Uint8>)
      requires Valid()
      modifies this`pos
      ensures Valid()
      ensures r.None? <==> old(pos) + 1 > data.Length
      ensures r.Some? ==> r.value == data[old(pos)] && pos == old(pos) + 1
    {
      if pos == data.Length {
        return None;
      }
      r := Some(data[pos]);
      pos := pos + 1;
    }

    method ReadU16() returns (r: Option<nat>)
      requires Valid()
      modifies this`pos
      ensures Valid()
      ensures r.None? <==> old(pos) + 2 > data.Length
      ensures r.Some? ==> r.value == U16At(data[..], old(pos)) && pos == old(pos) + 2
    {
      var low := ReadU8();
      if low.None? {
        return None;
      }
      var high := ReadU8();
      if high.None? {
        return None;
      }
      r := Some(LittleEndian(low.value, high.value));
    }

    method ReadNtohU32() returns (r: Option<Uint32>)
      requires Valid()
      modifies this`pos
      ensures Valid()
      ensures r.None? <==> old(pos) + 4 > data.Length
      ensures r.Some? ==> r.value == U32At(data[..], old(pos)) && pos == old(pos) + 4
    {
      if pos + 4 > data.Length {
        return None;
      }
      r := Some(BigEndian(data[pos], data[pos + 1], data[pos + 2], data[pos + 3]));
      pos := pos + 4;
    }

    method Read(length: nat) returns (r: Option<Bytes>)
      requires Valid()
      modifies this`pos
      ensures Valid()
      ensures r.None? <==> old(pos) + length > data.Length
      ensures r.Some? ==> r.value == data[old(pos)..old(pos) + length] && pos == old(pos) + length
    {
      var bytes: Bytes := [];
      for i := 0 to length
        invariant Valid() && pos == old(pos) + i && bytes == data[old(pos)..pos]
      {
        var x := ReadU8();
        if x.None? {
          return None;
        }
        bytes := bytes + [x.value];
      }
      r := Some(bytes);
    }
  }

  // ---------- messages ----------

  class Message {
    var messageType: Uint8
    var sequenceNumber: Uint32
    var ttl: Uint8
    var originatorAddress: Uint32
    var pingReq: Text
    var pingRsp: Text
    var helloReq: Text
    var neighborCosts: seq<Cost>

    constructor (messageType: Uint8, sequenceNumber: Uint32, ttl: Uint8, originatorAddress: Uint32, blank: Uint32)
      ensures this.messageType == messageType && this.sequenceNumber == sequenceNumber
      ensures this.ttl == ttl && this.originatorAddress == originatorAddress
      ensures pingReq == pingRsp == helloReq == Text(blank, []) && neighborCosts == []
    {
      this.messageType, this.sequenceNumber := messageType, sequenceNumber;
      this.ttl, this.originatorAddress := ttl, originatorAddress;
      pingReq, pingRsp, helloReq := Text(blank, []), Text(blank, []), Text(blank, []);
      neighborCosts := [];
    }

    ghost predicate Typed()
      reads this
    {
      1 <= messageType <= 4
    }

    ghost function Transmitted(): Wire
      requires Typed()
      reads this
    {
      Wire(sequenceNumber, ttl, originatorAddress,
           if messageType == 1 then PingReq(pingReq)
           else if messageType == 2 then PingRsp(pingRsp)
           else if messageType == 3 then HelloReq(helloReq)
           else TableMsg(neighborCosts))
    }

    method GetSerializedSize() returns (size: nat)
      requires Typed()
      ensures size == |WireBytes(Transmitted())|
    {
      size := 1 + 4 + 4 + 1;
      match messageType {
        case 1 => size := size + 4 + 2 + |pingReq.text|;
        case 2 => size := size + 4 + 2 + |pingRsp.text|;
        case 3 => size := size + 4 + 2 + |helloReq.text|;
        case _ => size := size + 2 + (4 + 4) * |neighborCosts|;
      }
    }

    /** Writes exactly the serialized size and nothing else. */
    method Serialize(data: array<Uint8>, start: nat)
      requires Typed() && start + |WireBytes(Transmitted())| <= data.Length
      modifies data
      ensures data[..] == Patched(old(data[..]), start, WireBytes(Transmitted()))
    {
      var i := new Iterator(data, start);
      SerializeHeader(i);
      ghost var w := Transmitted();
      ghost var before := old(data[..]);
      match messageType {
        case 1 => SerializeText(pingReq, i);
        case 2 => SerializeText(pingRsp, i);
        case 3 => SerializeText(helloReq, i);
        case _ => SerializeCosts(i);
      }
      PatchedTwice(before, start, HeaderBytes(w), PayloadBytes(w.payload));
    }

    method SerializeHeader(i: Iterator)
      requires Typed() && i.pos + 10 <= i.data.Length
      modifies i`pos, i.data
      ensures i.pos == old(i.pos) + 10
      ensures i.data[..] == Patched(old(i.data[..]), old(i.pos), HeaderBytes(Transmitted()))
    {
      ghost var p, before := i.pos, i.data[..];
      i.WriteU8(messageType);
      i.WriteHtonU32(sequenceNumber);
      i.WriteU8(ttl);
      i.WriteHtonU32(originatorAddress);
      PatchedFour(before, p, [messageType], U32Bytes(sequenceNumber), [ttl], U32Bytes(originatorAddress));
      HeaderIs(messageType, Transmitted());
    }

    static lemma {:induction false} HeaderIs(messageType: Uint8, w: Wire)
      requires messageType == Kind(w.payload)
      ensures HeaderBytes(w) == [messageType] + (U32Bytes(w.sequenceNumber) + ([w.ttl] + U32Bytes(w.originator)))
    {
    }

    method SerializeText(t: Text, i: Iterator)
      requires i.pos + 6 + |t.text| <= i.data.Length
      modifies i`pos, i.data
      ensures i.pos == old(i.pos) + 6 + |t.text|
      ensures i.data[..] == Patched(old(i.data[..]), old(i.pos), TextBytes(t))
    {
      ghost var p, before := i.pos, i.data[..];
      i.WriteHtonU32(t.destination);
      i.WriteU16(|t.text|);
      i.Write(t.text);
      var to, length := U32Bytes(t.destination), U16Bytes(|t.text|);
      PatchedTwice(before, p, to, length);
      PatchedTwice(before, p, to + length, t.text);
      assert to + length + t.text == TextBytes(t);
    }

    method SerializeCosts(i: Iterator)
      requires i.pos + 2 + 8 * |neighborCosts| <= i.data.Length
      modifies i`pos, i.data
      ensures i.pos == old(i.pos) + 2 + 8 * |neighborCosts|
      ensures i.data[..] == Patched(old(i.data[..]), old(i.pos), U16Bytes(|neighborCosts|) + CostsBytes(neighborCosts))
    {
      ghost var p, before, count := i.pos, i.data[..], U16Bytes(|neighborCosts|);
      i.WriteU16(|neighborCosts|);
      for k := 0 to |neighborCosts|
        invariant i.pos == p + 2 + 8 * k
        invariant i.data[..] == Patched(before, p, count + CostsBytes(neighborCosts[..k]))
      {
        SerializeCost(neighborCosts[k], i);
        PatchedOnce(before, p, count, neighborCosts, k);
      }
      assert neighborCosts[..|neighborCosts|] == neighborCosts;
    }

    method SerializeCost(c: Cost, i: Iterator)
      requires i.pos + 8 <= i.data.Length
      modifies i`pos, i.data
      ensures i.pos == old(i.pos) + 8
      ensures i.data[..] == Patched(old(i.data[..]), old(i.pos), CostBytes(c))
    {
      ghost var p, before := i.pos, i.data[..];
      i.WriteHtonU32(c.0);
      i.WriteHtonU32(c.1);
      PatchedTwice(before, p, U32Bytes(c.0), U32Bytes(c.1));
    }

    /** Reads one message. The fields of the other message types stay; a table is
      * appended to the one already there, and its bytes are missing from the result. */
    method Deserialize(data: array<Uint8>, start: nat) returns (size: Option<nat>)
      requires start <= data.Length
      modifies this
      ensures size.None? <==> WireAt(data[..], start).None?
      ensures size.Some? ==>
        var w := WireAt(data[..], start).value;
        messageType == Kind(w.payload) && sequenceNumber == w.sequenceNumber &&
        ttl == w.ttl && originatorAddress == w.originator &&
        pingReq == (if w.payload.PingReq? then w.payload.pingReq else old(pingReq)) &&
        pingRsp == (if w.payload.PingRsp? then w.payload.pingRsp else old(pingRsp)) &&
        helloReq == (if w.payload.HelloReq? then w.payload.helloReq else old(helloReq)) &&
        neighborCosts == old(neighborCosts) + (if w.payload.TableMsg? then w.payload.neighborCosts else []) &&
        size.value == if w.payload.TableMsg? then 10 else |WireBytes(w)|
      ensures size.Some? && old(neighborCosts) == [] ==>
        Typed() && Transmitted() == WireAt(data[..], start).value
    {
      var i := new Iterator(data, start);
      var header := DeserializeHeader(i);
      if !header {
        return None;
      }
      match messageType {
        case 1 =>
          var t := DeserializeText(i);
          if t.None? {
            return None;
          }
          pingReq := t.value;
          size := Some(10 + 6 + |pingReq.text|);
        case 2 =>
          var t := DeserializeText(i);
          if t.None? {
            return None;
          }
          pingRsp := t.value;
          size := Some(10 + 6 + |pingRsp.text|);
        case 3 =>
          var t := DeserializeText(i);
          if t.None? {
            return None;
          }
          helloReq := t.value;
          size := Some(10 + 6 + |helloReq.text|);
        case 4 =>
          var ok := DeserializeCosts(i);
          if !ok {
            return None;
          }
          size := Some(10);
        case _ =>
          return None;
      }
    }

    method DeserializeHeader(i: Iterator) returns (ok: bool)
      requires i.Valid()
      modifies this`messageType, this`sequenceNumber, this`ttl, this`originatorAddress, i`pos
      ensures i.Valid()
      ensures ok <==> old(i.pos) + 10 <= i.data.Length
      ensures ok ==>
        i.pos == old(i.pos) + 10 && messageType == i.data[old(i.pos)] &&
        sequenceNumber == U32At(i.data[..], old(i.pos) + 1) && ttl == i.data[old(i.pos) + 5] &&
        originatorAddress == U32At(i.data[..], old(i.pos) + 6)
    {
      var kind := i.ReadU8();
      if kind.None? {
        return false;
      }
      messageType := kind.value;
      var number := i.ReadNtohU32();
      if number.None? {
        return false;
      }
      sequenceNumber := number.value;
      var hops := i.ReadU8();
      if hops.None? {
        return false;
      }
      ttl := hops.value;
      var originator := i.ReadNtohU32();
      if originator.None? {
        return false;
      }
      originatorAddress := originator.value;
      ok := true;
    }

    method DeserializeText(i: Iterator) returns (t: Option<Text>)
      requires i.Valid()
      modifies i`pos
      ensures i.Valid() && t == TextAt(i.data[..], old(i.pos))
      ensures t.Some? ==> i.pos == old(i.pos) + 6 + |t.value.text|
    {
      var to := i.ReadNtohU32();
      if to.None? {
        return None;
      }
      var length := i.ReadU16();
      if length.None? {
        return None;
      }
      var text := i.Read(length.value);
      if text.None? {
        return None;
      }
      t := Some(Text(to.value, text.value));
    }

    method DeserializeCosts(i: Iterator) returns (ok: bool)
      requires i.Valid()
      modifies this`neighborCosts, i`pos
      ensures i.Valid() && (ok <==> TableAt(i.data[..], old(i.pos)).Some?)
      ensures ok ==> neighborCosts == old(neighborCosts) + TableAt(i.data[..], old(i.pos)).value
      ensures ok ==> i.pos == old(i.pos) + 2 + 8 * |TableAt(i.data[..], old(i.pos)).value|
    {
      ghost var p, b := i.pos, i.data[..];
      var n := i.ReadU16();
      if n.None? {
        return false;
      }
      for k := 0 to n.value
        invariant i.Valid() && i.pos == p + 2 + 8 * k
        invariant neighborCosts == old(neighborCosts) + CostsAt(b, p + 2, k)
      {
        var addr := i.ReadNtohU32();
        if addr.None? {
          return false;
        }
        var cost := i.ReadNtohU32();
        if cost.None? {
          return false;
        }
        neighborCosts := neighborCosts + [(addr.value, cost.value)];
      }
      ok := true;
    }
  }
}
