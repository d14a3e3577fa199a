/** The strict CBOR reader of `cogno-dbsync/src/calidus.rs`: definite lengths and minimal arguments only
    (sections 3 and 4.2.1 of RFC 8949). The grammar is given by a printer over an abstract syntax tree;
    the recursive parser and the mutable-cursor `Reader` are both proved against it. */
module Cbor {
  import opened Prelude

  datatype Error =
    | Truncated
    | NonCanonical
    | TrailingBytes
    | BadRegistration
    | BadVersion
    | BadPayload
    | UnsupportedValidationMethod
    | WitnessInvalid

  // ---------- big-endian integers ----------

  function Pow256(w: nat): (p: nat)
    ensures p >= 1
  {
    if w == 0 then 1 else 256 * Pow256(w - 1)
  }

  function BigEndian(v: nat, w: nat): (b: Bytes)
    ensures |b| == w
  {
    if w == 0 then [] else BigEndian(v / 256, w - 1) + [v % 256]
  }

  function FromBigEndian(b: Bytes): nat {
    if b == [] then 0 else 256 * FromBigEndian(b[..|b| - 1]) + b[|b| - 1]
  }

  lemma {:induction false} BigEndianRoundTrip(v: nat, w: nat)
    requires v < Pow256(w)
    ensures FromBigEndian(BigEndian(v, w)) == v
  {
    if w > 0 {
      BigEndianRoundTrip(v / 256, w - 1);
      var b := BigEndian(v, w);
      assert b[..|b| - 1] == BigEndian(v / 256, w - 1);
    }
  }

  lemma {:induction false} FromBigEndianRoundTrip(b: Bytes)
    ensures BigEndian(FromBigEndian(b), |b|) == b
    ensures FromBigEndian(b) < Pow256(|b|)
  {
    if b != [] {
      FromBigEndianRoundTrip(b[..|b| - 1]);
      assert b == b[..|b| - 1] + [b[|b| - 1]];
    }
  }

  lemma Pow256Values()
    ensures Pow256(1) == 0x100 && Pow256(2) == 0x1_0000
    ensures Pow256(4) == 0x1_0000_0000 && Pow256(8) == U64_LIMIT
  {
    assert Pow256(2) == 256 * Pow256(1);
    assert Pow256(3) == 256 * Pow256(2);
    assert Pow256(4) == 256 * Pow256(3);
    assert Pow256(5) == 256 * Pow256(4);
    assert Pow256(6) == 256 * Pow256(5);
    assert Pow256(7) == 256 * Pow256(6);
  }

  // ---------- item heads ----------

  /** The width in bytes of the argument that additional information 24..27 announces. */
  function Width(ai: nat): nat
    requires 24 <= ai <= 27
  {
    if ai == 24 then 1 else if ai == 25 then 2 else if ai == 26 then 4 else 8
  }

  /** The least argument for which a width is the minimal one. */
  function LeastArg(ai: nat): nat
    requires 24 <= ai <= 27
  {
    if ai == 24 then 24 else if ai == 25 then 0x100 else if ai == 26 then 0x1_0000 else 0x1_0000_0000
  }

  /** The additional information of the shortest head for `arg`. */
  function Shortest(arg: u64): (ai: nat)
    ensures ai <= 27
  {
    if arg <= 23 then arg else if arg <= 0xff then 24 else if arg <= 0xffff then 25
    else if arg <= 0xffff_ffff then 26 else 27
  }

  /** The minimal head of an item of major type `mt`. */
  function Head(mt: nat, arg: u64): (b: Bytes)
    requires mt < 8
    ensures |b| >= 1
  {
    var ai := Shortest(arg);
    [32 * mt + ai] + if ai <= 23 then [] else BigEndian(arg, Width(ai))
  }

  /** `Reader::head` as a function of buffer and position: major type, argument, next position. */
  function ReadHead(buf: Bytes, pos: nat): (r: Result<(nat, u64, nat), Error>)
    ensures r.Ok? ==> r.value.0 < 8 && pos < r.value.2 <= |buf|
  {
    if pos >= |buf| then Err(Truncated) else
    var mt, ai := buf[pos] / 32, buf[pos] % 32;
    if ai <= 23 then Ok((mt, ai, pos + 1))
    else if ai > 27 then Err(NonCanonical)
    else if pos + 1 + Width(ai) > |buf| then Err(Truncated)
    else
      var v := ReadArg(buf[pos + 1..pos + 1 + Width(ai)]);
      if v < LeastArg(ai) then Err(NonCanonical) else Ok((mt, v, pos + 1 + Width(ai)))
  }

  function ReadArg(b: Bytes): (v: u64)
    requires |b| in {1, 2, 4, 8}
  {
    FromBigEndianRoundTrip(b);
    Pow256Values();
    FromBigEndian(b)
  }

  lemma ReadHeadComplete(buf: Bytes, pos: nat, mt: nat, arg: u64)
    requires mt < 8 && At(buf, pos, Head(mt, arg))
    ensures ReadHead(buf, pos) == Ok((mt, arg, pos + |Head(mt, arg)|))
  {
    hide BigEndian, FromBigEndian, Pow256;
    var ai := Shortest(arg);
    var h := Head(mt, arg);
    assert buf[pos] == buf[pos..pos + |h|][0] == 32 * mt + ai;
    if ai > 23 {
      assert buf[pos + 1..pos + 1 + Width(ai)] == buf[pos..pos + |h|][1..] == BigEndian(arg, Width(ai));
      Pow256Values();
      BigEndianRoundTrip(arg, Width(ai));
    }
  }

  lemma ReadHeadSound(buf: Bytes, pos: nat)
    requires ReadHead(buf, pos).Ok?
    ensures var (mt, arg, end) := ReadHead(buf, pos).value; buf[pos..end] == Head(mt, arg)
  {
    hide BigEndian, FromBigEndian, Pow256;
    var (mt, arg, end) := ReadHead(buf, pos).value;
    var ai := buf[pos] % 32;
    if ai > 23 {
      FromBigEndianRoundTrip(buf[pos + 1..end]);
      Pow256Values();
      assert Shortest(arg) == ai;
      assert buf[pos..end] == [buf[pos]] + buf[pos + 1..end];
    }
  }

  // ---------- the item grammar ----------

  /** One CBOR data item. A map keeps its keys and values alternating; `Simple` is major type 7. */
  datatype Item =
    | UInt(n: u64)
    | NInt(n: u64)
    | BStr(b: Bytes)
    | Text(b: Bytes)
    | Arr(items: seq<Item>)
    | Map(flat: seq<Item>)
    | Tag(n: u64, item: Item)
    | Simple(n: u64)

  /** Every length fits the 64-bit argument and every map pairs its keys with values. */
  predicate Valid(it: Item) {
    match it
    case BStr(b) => |b| < U64_LIMIT
    case Text(b) => |b| < U64_LIMIT
    case Arr(items) => |items| < U64_LIMIT && ValidAll(items)
    case Map(flat) => |flat| % 2 == 0 && |flat| / 2 < U64_LIMIT && ValidAll(flat)
    case Tag(_, item) => Valid(item)
    case _ => true
  }

  predicate ValidAll(items: seq<Item>) {
    forall i :: 0 <= i < |items| ==> Valid(items[i])
  }

  function MajorType(it: Item): (mt: nat)
    ensures mt < 8
  {
    match it
    case UInt(_) => 0
    case NInt(_) => 1
    case BStr(_) => 2
    case Text(_) => 3
    case Arr(_) => 4
    case Map(_) => 5
    case Tag(_, _) => 6
    case Simple(_) => 7
  }

  function Argument(it: Item): u64
    requires Valid(it)
  {
    match it
    case UInt(n) => n
    case NInt(n) => n
    case BStr(b) => |b|
    case Text(b) => |b|
    case Arr(items) => |items|
    case Map(flat) => |flat| / 2
    case Tag(n, _) => n
    case Simple(n) => n
  }

  /** The printed form of an item. */
  function Enc(it: Item): (b: Bytes)
    requires Valid(it)
    ensures |b| >= 1
    decreases it, 1
  {
    Head(MajorType(it), Argument(it)) + Content(it)
  }

  function Content(it: Item): Bytes
    requires Valid(it)
    decreases it, 0
  {
    match it
    case BStr(b) => b
    case Text(b) => b
    case Arr(items) => EncAll(items)
    case Map(flat) => EncAll(flat)
    case Tag(_, item) => Enc(item)
    case _ => []
  }

  function EncAll(items: seq<Item>): Bytes
    requires ValidAll(items)
    decreases items
  {
    if items == [] then [] else Enc(items[0]) + EncAll(items[1..])
  }

  /** Section 3 of RFC 8949: the first byte holds the major type and the argument, or the width of the argument that
      follows. */
  lemma HeadBytes(mt: nat, arg: u64)
    requires mt < 8
    ensures Head(mt, arg) ==
            if arg < 24 then [32 * mt + arg]
            else if arg < 0x100 then [32 * mt + 24] + BigEndian(arg, 1)
            else if arg < 0x1_0000 then [32 * mt + 25] + BigEndian(arg, 2)
            else if arg < 0x1_0000_0000 then [32 * mt + 26] + BigEndian(arg, 4)
            else [32 * mt + 27] + BigEndian(arg, 8)
  {
    hide BigEndian;
  }

  /** ... most significant byte first. */
  lemma BigEndianBytes(a: byte, b: byte, c: byte, d: byte)
    ensures BigEndian(a, 1) == [a]
    ensures BigEndian(0x100 * a + b, 2) == [a, b]
    ensures BigEndian(0x100_0000 * a + 0x1_0000 * b + 0x100 * c + d, 4) == [a, b, c, d]
  {
    hide BigEndian;
    assert [a, b, c, d][..3] == [a, b, c] && [a, b, c][..2] == [a, b] && [a, b][..1] == [a] && [a][..0] == [];
    assert FromBigEndian([a]) == a;
    assert FromBigEndian([a, b]) == 0x100 * a + b;
    assert FromBigEndian([a, b, c]) == 0x1_0000 * a + 0x100 * b + c;
    FromBigEndianRoundTrip([a]);
    FromBigEndianRoundTrip([a, b]);
    FromBigEndianRoundTrip([a, b, c, d]);
  }

  /** The eight major types, and what each item's argument counts. */
  lemma ItemHeads(it: Item)
    requires Valid(it)
    ensures match it
            case UInt(n) => Enc(it) == Head(0, n)
            case NInt(n) => Enc(it) == Head(1, n)
            case BStr(b) => Enc(it) == Head(2, |b|) + b
            case Text(b) => Enc(it) == Head(3, |b|) + b
            case Arr(items) => Enc(it) == Head(4, |items|) + EncAll(items)
            case Map(flat) => Enc(it) == Head(5, |flat| / 2) + EncAll(flat)
            case Tag(n, item) => Enc(it) == Head(6, n) + Enc(item)
            case Simple(n) => Enc(it) == Head(7, n)
  {
    hide Head;
  }

  // ---------- the recursive parser ----------

  /** What `Reader::skip_item` walks over, with the item it walked over and the position after it. */
  function ParseItem(buf: Bytes, pos: nat): (r: Result<(Item, nat), Error>)
    ensures r.Ok? ==> pos < r.value.1 <= |buf|
    decreases |buf| - pos, 1, 0
  {
    var (mt, arg, p) :- ReadHead(buf, pos);
    ParseContent(buf, p, mt, arg)
  }

  /** The content that follows a head of major type `mt` and argument `arg`. */
  function ParseContent(buf: Bytes, p: nat, mt: nat, arg: u64): (r: Result<(Item, nat), Error>)
    requires p <= |buf|
    ensures r.Ok? ==> p <= r.value.1 <= |buf|
    decreases |buf| - p, 3, 0
  {
    if mt == 0 then Ok((UInt(arg), p))
    else if mt == 1 then Ok((NInt(arg), p))
    else if mt <= 3 then
      if p + arg > |buf| then Err(Truncated)
      else Ok((if mt == 2 then BStr(buf[p..p + arg]) else Text(buf[p..p + arg]), p + arg))
    else if mt == 4 then
      var (items, end) :- ParseItems(buf, p, arg);
      Ok((Arr(items), end))
    else if mt == 5 then
      var (items, end) :- ParseItems(buf, p, 2 * arg);
      Ok((Map(items), end))
    else if mt == 6 then
      var (item, end) :- ParseItem(buf, p);
      Ok((Tag(arg, item), end))
    else Ok((Simple(arg), p))
  }

  /** `count` items in a row. Each one consumes a byte at least, whatever `count` promises. */
  function ParseItems(buf: Bytes, pos: nat, count: nat): (r: Result<(seq<Item>, nat), Error>)
    ensures r.Ok? ==> |r.value.0| == count && pos + count <= r.value.1
    ensures r.Ok? && pos <= |buf| ==> r.value.1 <= |buf|
    decreases |buf| - pos, 2, count
  {
    if count == 0 then Ok(([], pos)) else
    var (item, p) :- ParseItem(buf, pos);
    var (items, end) :- ParseItems(buf, p, count - 1);
    Ok(([item] + items, end))
  }

  /** Completeness: a printed item is read back whole wherever it stands. */
  lemma {:induction false} ParseComplete(it: Item, buf: Bytes, pos: nat)
    requires Valid(it) && At(buf, pos, Enc(it))
    ensures ParseItem(buf, pos) == Ok((it, pos + |Enc(it)|))
    decreases it, 2
  {
    hide Head, Content, ReadHead, ParseContent;
    var h := Head(MajorType(it), Argument(it));
    AtSplit(buf, pos, h, Content(it));
    ReadHeadComplete(buf, pos, MajorType(it), Argument(it));
    ParseContentComplete(it, buf, pos + |h|);
  }

  lemma {:induction false} ParseContentComplete(it: Item, buf: Bytes, p: nat)
    requires Valid(it) && At(buf, p, Content(it))
    ensures ParseContent(buf, p, MajorType(it), Argument(it)) == Ok((it, p + |Content(it)|))
    decreases it, 1
  {
    hide Enc, EncAll, ParseItem, ParseItems;
    match it
    case Arr(items) => ParseAllComplete(items, buf, p);
    case Map(flat) => ParseAllComplete(flat, buf, p);
    case Tag(_, item) => ParseComplete(item, buf, p);
    case _ =>
  }

  lemma {:induction false} ParseAllComplete(items: seq<Item>, buf: Bytes, pos: nat)
    requires ValidAll(items) && At(buf, pos, EncAll(items))
    ensures ParseItems(buf, pos, |items|) == Ok((items, pos + |EncAll(items)|))
    decreases items, 0
  {
    hide Enc, Valid, ParseItem;
    if items != [] {
      AtSplit(buf, pos, Enc(items[0]), EncAll(items[1..]));
      ParseComplete(items[0], buf, pos);
      ParseAllComplete(items[1..], buf, pos + |Enc(items[0])|);
      assert items == [items[0]] + items[1..];
    }
  }

  /** Soundness: whatever is accepted is the printed form of the item returned. */
  lemma {:induction false} ParseSound(buf: Bytes, pos: nat)
    requires ParseItem(buf, pos).Ok?
    ensures var (it, end) := ParseItem(buf, pos).value; Valid(it) && buf[pos..end] == Enc(it)
    decreases |buf| - pos, 1, 0
  {
    hide Head, Content, ReadHead, ParseContent;
    var (mt, arg, p) := ReadHead(buf, pos).value;
    var (it, end) := ParseItem(buf, pos).value;
    ReadHeadSound(buf, pos);
    ParseContentSound(buf, p, mt, arg);
    assert buf[pos..end] == buf[pos..p] + buf[p..end];
  }

  lemma {:induction false} ParseContentSound(buf: Bytes, p: nat, mt: nat, arg: u64)
    requires p <= |buf| && mt < 8 && ParseContent(buf, p, mt, arg).Ok?
    ensures var (it, end) := ParseContent(buf, p, mt, arg).value;
            Valid(it) && MajorType(it) == mt && Argument(it) == arg && buf[p..end] == Content(it)
    decreases |buf| - p, 3, 0
  {
    hide Enc, EncAll, ParseItem, ParseItems;
    if mt == 4 {
      ParseAllSound(buf, p, arg);
    } else if mt == 5 {
      ParseAllSound(buf, p, 2 * arg);
    } else if mt == 6 {
      ParseSound(buf, p);
    }
  }

  lemma {:induction false} ParseAllSound(buf: Bytes, pos: nat, count: nat)
    requires pos <= |buf| && ParseItems(buf, pos, count).Ok?
    ensures var (items, end) := ParseItems(buf, pos, count).value;
            ValidAll(items) && buf[pos..end] == EncAll(items)
    decreases |buf| - pos, 2, count
  {
    hide Enc, Valid, ParseItem;
    if count > 0 {
      var p := ParseItem(buf, pos).value.1;
      var (items, end) := ParseItems(buf, pos, count).value;
      ParseSound(buf, pos);
      ParseAllSound(buf, p, count - 1);
      assert items[1..] == ParseItems(buf, p, count - 1).value.0;
      assert buf[pos..end] == buf[pos..p] + buf[p..end];
    }
  }

  /** `skip_item` succeeds from `pos` to `end` exactly on the printed items. */
  lemma SkipIsGrammar(buf: Bytes, pos: nat, end: nat)
    requires pos <= end <= |buf|
    ensures (ParseItem(buf, pos).Ok? && ParseItem(buf, pos).value.1 == end)
       <==> exists it :: Valid(it) && Enc(it) == buf[pos..end]
  {
    if ParseItem(buf, pos).Ok? {
      ParseSound(buf, pos);
    }
    forall it | Valid(it) && Enc(it) == buf[pos..end]
      ensures ParseItem(buf, pos) == Ok((it, end))
    {
      ParseComplete(it, buf, pos);
    }
  }

  /** Prefix-freeness and unique decoding: two items that start the same bytes are the same item. */
  lemma PrefixFree(a: Item, b: Item, restA: Bytes, restB: Bytes)
    requires Valid(a) && Valid(b) && Enc(a) + restA == Enc(b) + restB
    ensures a == b && restA == restB
  {
    var buf := Enc(a) + restA;
    ParseComplete(a, buf, 0);
    ParseComplete(b, buf, 0);
    assert restA == buf[|Enc(a)|..] && restB == buf[|Enc(b)|..];
  }

  // ---------- the mutable-cursor reader ----------

  /** `typed_head(want)`. */
  function ReadTyped(buf: Bytes, pos: nat, want: nat): (r: Result<(u64, nat), Error>)
    ensures r.Ok? ==> pos < r.value.1 <= |buf|
  {
    var (mt, arg, p) :- ReadHead(buf, pos);
    if mt != want then Err(NonCanonical) else Ok((arg, p))
  }

  /** `bytes(max)`. */
  function ReadBytes(buf: Bytes, pos: nat, max: nat): (r: Result<(Bytes, nat), Error>)
    ensures r.Ok? ==> pos < r.value.1 <= |buf| && |r.value.0| <= max
  {
    var (len, p) :- ReadTyped(buf, pos, 2);
    if len > max || p + len > |buf| then Err(Truncated) else Ok((buf[p..p + len], p + len))
  }

  /** The position after one item. */
  function SkipItem(buf: Bytes, pos: nat): (r: Result<nat, Error>)
    ensures r.Ok? ==> pos < r.value <= |buf|
  {
    var (_, end) :- ParseItem(buf, pos);
    Ok(end)
  }

  class Reader {
    const buf: Bytes
    var pos: nat

    ghost predicate Ready()
      reads this
    {
      pos <= |buf|
    }

    constructor (buf: Bytes)
      ensures Ready() && this.buf == buf && pos == 0
    {
      this.buf := buf;
      this.pos := 0;
    }

    function Remaining(): nat
      requires Ready()
      reads this
    {
      |buf| - pos
    }

    method Take(n: nat) returns (r: Result<Bytes, Error>)
      requires Ready()
      modifies this
      ensures Ready()
      ensures r == if old(pos) + n <= |buf| then Ok(buf[old(pos)..old(pos) + n]) else Err(Truncated)
      ensures pos == if r.Ok? then old(pos) + n else old(pos)
    {
      if pos + n > |buf| {
        return Err(Truncated);
      }
      r := Ok(buf[pos..pos + n]);
      pos := pos + n;
    }

    method ReadByte() returns (r: Result<byte, Error>)
      requires Ready()
      modifies this
      ensures Ready()
      ensures r == if old(pos) < |buf| then Ok(buf[old(pos)]) else Err(Truncated)
      ensures pos == if r.Ok? then old(pos) + 1 else old(pos)
    {
      var b :- Take(1);
      r := Ok(b[0]);
    }

    method NextHead() returns (r: Result<(nat, u64), Error>)
      requires Ready()
      modifies this
      ensures Ready()
      ensures match ReadHead(buf, old(pos))
              case Ok((mt, arg, end)) => r == Ok((mt, arg)) && pos == end
              case Err(e) => r == Err(e)
    {
      var ib :- ReadByte();
      var mt, ai := ib / 32, ib % 32;
      if ai <= 23 {
        return Ok((mt, ai));
      }
      if ai > 27 {
        return Err(NonCanonical);
      }
      var b :- Take(Width(ai));
      var v := ReadArg(b);
      if v < LeastArg(ai) {
        return Err(NonCanonical);
      }
      r := Ok((mt, v));
    }

    method TypedHead(want: nat) returns (r: Result<u64, Error>)
      requires Ready()
      modifies this
      ensures Ready()
      ensures match ReadTyped(buf, old(pos), want)
              case Ok((arg, end)) => r == Ok(arg) && pos == end
              case Err(e) => r == Err(e)
    {
      var h :- NextHead();
      if h.0 != want {
        return Err(NonCanonical);
      }
      r := Ok(h.1);
    }

    method NextBytes(max: nat) returns (r: Result<Bytes, Error>)
      requires Ready()
      modifies this
      ensures Ready()
      ensures match ReadBytes(buf, old(pos), max)
              case Ok((b, end)) => r == Ok(b) && pos == end
              case Err(e) => r == Err(e)
    {
      var len :- TypedHead(2);
      if len > max {
        return Err(Truncated);
      }
      r := Take(len);
    }

    /** A byte string together with its exact on-chain encoding, head included. */
    method BytesRaw(max: nat) returns (r: Result<(Bytes, Bytes), Error>)
      requires Ready()
      modifies this
      ensures Ready()
      ensures match ReadBytes(buf, old(pos), max)
              case Ok((b, end)) => r == Ok((buf[old(pos)..end], b)) && pos == end
              case Err(e) => r == Err(e)
    {
      var start := pos;
      var content :- NextBytes(max);
      r := Ok((buf[start..pos], content));
    }

    /** Advance past one item, recursively. */
    method Skip() returns (r: Result<(), Error>)
      requires Ready()
      modifies this
      ensures Ready()
      ensures match SkipItem(buf, old(pos))
              case Ok(end) => r == Ok(()) && pos == end
              case Err(e) => r == Err(e)
      decreases |buf| - pos, 0
    {
      var h :- NextHead();
      var (mt, arg) := h;
      assert ParseItem(buf, old(pos)) == ParseContent(buf, pos, mt, arg);
      match mt {
        case 0 => r := Ok(());
        case 1 => r := Ok(());
        case 2 =>
          var _ :- Take(arg);
          r := Ok(());
        case 3 =>
          var _ :- Take(arg);
          r := Ok(());
        case 4 => r := SkipMany(arg);
        case 5 => r := SkipMany(2 * arg);
        case 6 => r := Skip();
        case _ => r := Ok(());
      }
    }

    /** The counted loop of an array (`count` items) or a map (`count` keys and values). */
    method SkipMany(count: nat) returns (r: Result<(), Error>)
      requires Ready()
      modifies this
      ensures Ready()
      ensures match ParseItems(buf, old(pos), count)
              case Ok((_, end)) => r == Ok(()) && pos == end
              case Err(e) => r == Err(e)
      decreases |buf| - pos, 1
    {
      var start := pos;
      for i := 0 to count
        invariant Ready() && start + i <= pos
        invariant match ParseItems(buf, pos, count - i)
                  case Ok((_, end)) =>
                    var w := ParseItems(buf, start, count);
                    w.Ok? && w.value.1 == end
                  case Err(e) => ParseItems(buf, start, count) == Err(e)
      {
        var _ :- Skip();
      }
      r := Ok(());
    }
  }
}
