/** Counted map loops. Every parser of `calidus.rs` reads a map head and then loops over its entries, filling
    optional fields so that a later entry overwrites an earlier one. `Table` and `AllOk` say what such a loop
    means over items: every entry is acceptable, and the last value of a key counts. */
module CborTable {
  import opened Prelude
  import opened Cbor

  /** The last value of every key of a map's alternating keys and values. */
  function Table(flat: seq<Item>): map<Item, Item>
    requires |flat| % 2 == 0
  {
    if flat == [] then map[] else map[flat[0] := flat[1]] + Table(flat[2..])
  }

  predicate AllOk(ok: (Item, Item) -> bool, flat: seq<Item>)
    requires |flat| % 2 == 0
  {
    flat == [] || (ok(flat[0], flat[1]) && AllOk(ok, flat[2..]))
  }

  predicate OkTable(ok: (Item, Item) -> bool, t: map<Item, Item>) {
    forall k :: k in t ==> Valid(t[k]) && ok(k, t[k])
  }

  lemma {:induction false} TableOk(ok: (Item, Item) -> bool, flat: seq<Item>)
    requires |flat| % 2 == 0 && ValidAll(flat) && AllOk(ok, flat)
    ensures OkTable(ok, Table(flat))
    decreases |flat|
  {
    if flat != [] {
      TableOk(ok, flat[2..]);
    }
  }

  lemma TableCons(t: map<Item, Item>, flat: seq<Item>)
    requires |flat| % 2 == 0 && |flat| >= 2
    ensures t[flat[0] := flat[1]] + Table(flat[2..]) == t + Table(flat)
  {
  }

  lemma PairAt(flat: seq<Item>, buf: Bytes, pos: nat)
    requires |flat| >= 2 && ValidAll(flat) && At(buf, pos, EncAll(flat))
    ensures ValidAll(flat[2..]) && |EncAll(flat)| == |Enc(flat[0])| + |Enc(flat[1])| + |EncAll(flat[2..])|
    ensures At(buf, pos, Enc(flat[0])) && At(buf, pos + |Enc(flat[0])|, Enc(flat[1]))
    ensures At(buf, pos + |Enc(flat[0])| + |Enc(flat[1])|, EncAll(flat[2..]))
  {
    hide Enc, Valid, At;
    var rest := flat[1..];
    assert EncAll(flat) == Enc(flat[0]) + EncAll(rest);
    assert EncAll(rest) == Enc(rest[0]) + EncAll(rest[1..]);
    assert rest[1..] == flat[2..];
    AtSplit(buf, pos, Enc(flat[0]), EncAll(rest));
    AtSplit(buf, pos + |Enc(flat[0])|, Enc(rest[0]), EncAll(rest[1..]));
  }

  // ---------- reading one printed item ----------

  function HeadLength(it: Item): nat
    requires Valid(it)
  {
    |Head(MajorType(it), Argument(it))|
  }

  lemma TypedOnItem(it: Item, buf: Bytes, pos: nat, want: nat)
    requires Valid(it) && At(buf, pos, Enc(it))
    ensures ReadTyped(buf, pos, want)
         == if MajorType(it) == want then Ok((Argument(it), pos + HeadLength(it))) else Err(NonCanonical)
    ensures |Enc(it)| == HeadLength(it) + |Content(it)| && At(buf, pos + HeadLength(it), Content(it))
  {
    hide Head, At, Content;
    AtSplit(buf, pos, Head(MajorType(it), Argument(it)), Content(it));
    ReadHeadComplete(buf, pos, MajorType(it), Argument(it));
  }

  lemma UIntOnItem(it: Item, buf: Bytes, pos: nat)
    requires Valid(it) && At(buf, pos, Enc(it))
    ensures ReadTyped(buf, pos, 0) == if it.UInt? then Ok((it.n, pos + |Enc(it)|)) else Err(NonCanonical)
  {
    hide Enc, At, ReadTyped, HeadLength;
    TypedOnItem(it, buf, pos, 0);
  }

  lemma BytesOnItem(it: Item, buf: Bytes, pos: nat, max: nat)
    requires Valid(it) && At(buf, pos, Enc(it))
    ensures if it.BStr? && |it.b| <= max then ReadBytes(buf, pos, max) == Ok((it.b, pos + |Enc(it)|))
            else ReadBytes(buf, pos, max).Err?
  {
    hide Enc, ReadTyped, HeadLength;
    TypedOnItem(it, buf, pos, 2);
  }

  lemma SkipOnItem(it: Item, buf: Bytes, pos: nat)
    requires Valid(it) && At(buf, pos, Enc(it))
    ensures SkipItem(buf, pos) == Ok(pos + |Enc(it)|)
  {
    ParseComplete(it, buf, pos);
  }

  lemma WholeIsAt(b: Bytes)
    ensures At(b, 0, b)
  {
    assert b[0..|b|] == b;
  }

  /** A map's entries stand behind its head. */
  lemma MapAt(it: Item, buf: Bytes, pos: nat)
    requires Valid(it) && At(buf, pos, Enc(it))
    ensures it.Map? <==> ReadTyped(buf, pos, 5).Ok?
    ensures it.Map? ==> ValidAll(it.flat) && |it.flat| % 2 == 0
                        && |Enc(it)| == HeadLength(it) + |EncAll(it.flat)|
                        && At(buf, pos + HeadLength(it), EncAll(it.flat))
                        && ReadTyped(buf, pos, 5) == Ok((|it.flat| / 2, pos + HeadLength(it)))
  {
    hide Enc, EncAll, At, HeadLength, ReadTyped;
    TypedOnItem(it, buf, pos, 5);
  }

  /** An array's items stand behind its head. */
  lemma ArrayAt(it: Item, buf: Bytes, pos: nat)
    requires Valid(it) && At(buf, pos, Enc(it))
    ensures it.Arr? <==> ReadTyped(buf, pos, 4).Ok?
    ensures it.Arr? ==> ValidAll(it.items)
                        && |Enc(it)| == HeadLength(it) + |EncAll(it.items)|
                        && At(buf, pos + HeadLength(it), EncAll(it.items))
                        && ReadTyped(buf, pos, 4) == Ok((|it.items|, pos + HeadLength(it)))
  {
    hide Enc, EncAll, At, HeadLength, ReadTyped;
    TypedOnItem(it, buf, pos, 4);
  }

  lemma FirstAt(items: seq<Item>, buf: Bytes, pos: nat)
    requires ValidAll(items) && items != [] && At(buf, pos, EncAll(items))
    ensures ValidAll(items[1..])
    ensures At(buf, pos, Enc(items[0])) && At(buf, pos + |Enc(items[0])|, EncAll(items[1..]))
    ensures |EncAll(items)| == |Enc(items[0])| + |EncAll(items[1..])|
  {
    hide Enc, Valid, At;
    AtSplit(buf, pos, Enc(items[0]), EncAll(items[1..]));
  }
}
