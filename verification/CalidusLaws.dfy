/** Laws of the registration format: the label wrapper, the printed form, and the signed message. */
module CalidusLaws {
  import opened Prelude
  import opened Cbor
  import opened CborTable
  import opened Calidus
  import opened CalidusMeaning

  // ---------- the `{867: value}` wrapper ----------

  /** The bytes of a one-entry map whose key is 867 and whose value is spelled `v`. */
  function Wrap(v: Bytes): Bytes {
    Head(5, 1) + Enc(UInt(867)) + v
  }

  ghost predicate IsWrapped(bytes: Bytes) {
    exists it :: Valid(it) && bytes == Wrap(Enc(it))
  }

  function WrapItem(it: Item): Item {
    Map([UInt(867), it])
  }

  lemma WrapIsItem(it: Item)
    requires Valid(it)
    ensures Valid(WrapItem(it)) && Enc(WrapItem(it)) == Wrap(Enc(it))
  {
    hide Head;
    var flat := [UInt(867), it];
    assert flat[1..] == [it] && [it][1..] == [];
    assert Valid(flat[0]) && Valid(flat[1]);
    assert ValidAll(flat) && |flat| == 2;
    assert EncAll([it]) == Enc(it) + EncAll([]);
    assert EncAll(flat) == Enc(UInt(867)) + EncAll([it]);
  }

  /** The reads `strip_label_wrapper` does before it looks at the value. */
  lemma WrapHeads(v: Bytes)
    ensures ReadTyped(Wrap(v), 0, 5) == Ok((1, 1))
    ensures ReadTyped(Wrap(v), 1, 0) == Ok((867, 4))
    ensures |Wrap(v)| == 4 + |v| && Wrap(v)[4..] == v
  {
    var w := Wrap(v);
    assert |Head(0, 867)| == 3;
    assert Enc(UInt(867)) == Head(0, 867);
    assert At(w, 0, Head(5, 1));
    ReadHeadComplete(w, 0, 5, 1);
    assert At(w, 1, Head(0, 867));
    ReadHeadComplete(w, 1, 0, 867);
  }

  /** Stripping takes off exactly one wrapper, around one well-formed value. */
  lemma UnwrapsItem(it: Item)
    requires Valid(it)
    ensures Unwrapped(Wrap(Enc(it))) == Enc(it)
  {
    hide Enc, Valid, ReadTyped, SkipItem, Wrap;
    var w := Wrap(Enc(it));
    WrapHeads(Enc(it));
    assert At(w, 4, Enc(it));
    SkipOnItem(it, w, 4);
  }

  lemma UIntEnc(n: u64)
    ensures Enc(UInt(n)) == Head(0, n)
  {
  }

  lemma UnwrapsOnlyItems(bytes: Bytes)
    ensures Unwrapped(bytes) == bytes || exists it :: Valid(it) && bytes == Wrap(Enc(it)) && Unwrapped(bytes) == Enc(it)
  {
    hide ReadHead, Head, Enc, ParseItem;
    if Unwrapped(bytes) != bytes {
      assert Enc(UInt(867)) == Head(0, 867) by {
        UIntEnc(867);
      }
      var n := ReadTyped(bytes, 0, 5).value;
      var key := ReadTyped(bytes, n.1, 0).value;
      ReadHeadSound(bytes, 0);
      ReadHeadSound(bytes, n.1);
      ParseSound(bytes, key.1);
      var it := ParseItem(bytes, key.1).value.0;
      assert bytes == bytes[0..n.1] + bytes[n.1..key.1] + bytes[key.1..|bytes|];
      assert bytes[key.1..|bytes|] == bytes[key.1..];
      assert Valid(it) && bytes == Wrap(Enc(it)) && Unwrapped(bytes) == Enc(it);
    }
  }

  lemma UnwrappedFixed(bytes: Bytes)
    requires !IsWrapped(bytes)
    ensures Unwrapped(bytes) == bytes
  {
    hide Unwrapped, Enc, Valid, Wrap;
    UnwrapsOnlyItems(bytes);
  }

  /** An item printed as `Wrap(v)` is a wrapper around the item printed as `v`. */
  lemma WrapIsItemOnly(v: Bytes, it: Item) returns (value: Item)
    requires Valid(it) && Enc(it) == Wrap(v)
    ensures Valid(value) && Enc(value) == v
  {
    var w := Wrap(v);
    WholeIsAt(w);
    ParseComplete(it, w, 0);
    WrapHeads(v);
    assert ParseContent(w, 1, 5, 1).Ok?;
    assert ParseItem(w, 1) == Ok((UInt(867), 4));
    assert ParseItems(w, 1, 2).Ok? && ParseItems(w, 1, 2).value.1 == |w|;
    assert ParseItems(w, 4, 1).Ok? && ParseItems(w, 4, 1).value.1 == |w|;
    value := ParseItem(w, 4).value.0;
    assert ParseItems(w, ParseItem(w, 4).value.1, 0).value.1 == |w|;
    ParseSound(w, 4);
    assert w[4..|w|] == v;
  }

  lemma WrappedValue(v: Bytes, it: Item) returns (value: Item)
    requires Valid(it) && Enc(it) == Unwrapped(Wrap(v))
    ensures Valid(value) && Enc(value) == v
  {
    hide Unwrapped, Enc, Valid, Wrap;
    UnwrapsOnlyItems(Wrap(v));
    if Unwrapped(Wrap(v)) == Wrap(v) {
      value := WrapIsItemOnly(v, it);
    } else {
      value :| Valid(value) && Wrap(v) == Wrap(Enc(value)) && Unwrapped(Wrap(v)) == Enc(value);
      WrapHeads(v);
      WrapHeads(Enc(value));
    }
  }

  lemma ParseAllThrough(a: Bytes, b: Bytes)
    requires Unwrapped(a) == Unwrapped(b)
    ensures ParseAllSpec(a) == ParseAllSpec(b)
  {
    hide Unwrapped, ReadTyped, RegLoop, PayloadSpec;
  }

  /** A value that is not itself a wrapper parses wrapped exactly as it parses bare. */
  lemma WrapperTransparent(v: Bytes)
    requires !IsWrapped(v)
    ensures ParseAllSpec(Wrap(v)).Ok? <==> ParseAllSpec(v).Ok?
    ensures ParseAllSpec(v).Ok? ==> ParseAllSpec(Wrap(v)) == ParseAllSpec(v)
  {
    hide Unwrapped, Enc, Valid, Wrap, ParseAllSpec;
    UnwrappedFixed(v);
    if ParseAllSpec(v).Ok? {
      var it := ParseAllIsItem(v);
      UnwrapsItem(it);
      ParseAllThrough(Wrap(v), v);
    }
    if ParseAllSpec(Wrap(v)).Ok? {
      var it := ParseAllIsItem(Wrap(v));
      var inner := WrappedValue(v, it);
      UnwrapsItem(inner);
      ParseAllThrough(Wrap(v), v);
    }
  }

  lemma WrapItemNotReg(it: Item)
    requires Valid(it) && Valid(WrapItem(it))
    ensures RegOf(WrapItem(it)).None?
  {
    var flat := [UInt(867), it];
    assert flat[2..] == [];
    assert Table(flat) == map[UInt(867) := it];
  }

  /** Only one wrapper is stripped: a wrapper around a wrapper never parses. */
  lemma DoubleWrapperFails(v: Bytes)
    requires IsWrapped(v)
    ensures ParseAllSpec(Wrap(v)).Err?
  {
    hide Unwrapped, Enc, Valid, Wrap, ParseAllSpec;
    var it :| Valid(it) && v == Wrap(Enc(it));
    WrapIsItem(it);
    UnwrapsItem(WrapItem(it));
    ParseAllOnItem(WrapItem(it), Wrap(v));
    WrapItemNotReg(it);
  }

  ghost predicate WrapsRegistration(v: Bytes) {
    exists it :: Valid(it) && v == Wrap(Enc(it)) && RegOf(it).Some?
  }

  /** So the wrapper changes success exactly when the value is itself a wrapped registration. */
  lemma WrapperExact(v: Bytes)
    ensures (ParseAllSpec(Wrap(v)).Ok? <==> ParseAllSpec(v).Ok?) <==> !WrapsRegistration(v)
  {
    hide Wrap, ParseAllSpec, Unwrapped, RegOf, Enc, Valid;
    if IsWrapped(v) {
      DoubleWrapperFails(v);
      forall it | Valid(it) && v == Wrap(Enc(it))
        ensures ParseAllSpec(v).Ok? <==> RegOf(it).Some?
      {
        UnwrapsItem(it);
        ParseAllOnItem(it, v);
      }
    } else {
      WrapperTransparent(v);
    }
  }

  // ---------- the printed form ----------

  /** Alternating keys and values none of which `used` consumes; keys are unsigned integers. */
  predicate Extra(flat: seq<Item>, used: set<Item>) {
    |flat| % 2 == 0 && ValidAll(flat)
    && forall i :: 0 <= i < |flat| / 2 ==> flat[2 * i].UInt? && flat[2 * i] !in used
  }

  lemma {:induction false} ExtraTail(flat: seq<Item>, used: set<Item>)
    requires Extra(flat, used) && flat != []
    ensures |flat| >= 2 && |flat| % 2 == 0
    ensures Extra(flat[2..], used) && flat[0].UInt? && flat[0] !in used
  {
    var tail := flat[2..];
    assert flat[2 * 0] == flat[0];
    forall i | 0 <= i < |tail| / 2
      ensures tail[2 * i].UInt? && tail[2 * i] !in used
    {
      assert tail[2 * i] == flat[2 * (i + 1)];
    }
  }

  /** One entry in front of others. */
  function Entry(k: Item, v: Item, rest: seq<Item>): (flat: seq<Item>)
    ensures |flat| == |rest| + 2
  {
    [k, v] + rest
  }

  lemma TableOfEntry(k: Item, v: Item, rest: seq<Item>)
    requires |rest| % 2 == 0
    ensures Table(Entry(k, v, rest)) == map[k := v] + Table(rest)
  {
    assert Entry(k, v, rest)[2..] == rest;
  }

  lemma OkEntry(ok: (Item, Item) -> bool, k: Item, v: Item, rest: seq<Item>)
    requires |rest| % 2 == 0
    ensures AllOk(ok, Entry(k, v, rest)) <==> ok(k, v) && AllOk(ok, rest)
  {
    assert Entry(k, v, rest)[2..] == rest;
  }

  lemma EmptyTable(ok: (Item, Item) -> bool)
    ensures Table([]) == map[] && AllOk(ok, [])
  {
  }

  lemma MapAssociates(a: map<Item, Item>, b: map<Item, Item>, c: map<Item, Item>)
    ensures (a + b) + c == a + (b + c)
  {
  }

  lemma {:induction false} TableAppend(a: seq<Item>, b: seq<Item>)
    requires |a| % 2 == 0 && |b| % 2 == 0
    ensures Table(a + b) == Table(a) + Table(b)
    decreases |a|
  {
    if a == [] {
      assert a + b == b;
      assert map[] + Table(b) == Table(b);
    } else {
      var rest := a[2..];
      TableAppend(rest, b);
      assert a == Entry(a[0], a[1], rest) && a + b == Entry(a[0], a[1], rest + b);
      TableOfEntry(a[0], a[1], rest);
      TableOfEntry(a[0], a[1], rest + b);
      hide Table, Entry;
      MapAssociates(map[a[0] := a[1]], Table(rest), Table(b));
    }
  }

  lemma {:induction false} AllOkAppend(ok: (Item, Item) -> bool, a: seq<Item>, b: seq<Item>)
    requires |a| % 2 == 0 && |b| % 2 == 0
    ensures AllOk(ok, a + b) <==> AllOk(ok, a) && AllOk(ok, b)
    decreases |a|
  {
    if a == [] {
      assert a + b == b;
    } else {
      AllOkAppend(ok, a[2..], b);
      assert (a + b)[2..] == a[2..] + b;
    }
  }

  lemma {:induction false} ExtraTable(flat: seq<Item>, used: set<Item>)
    requires Extra(flat, used)
    ensures forall k :: k in used ==> k !in Table(flat)
    decreases |flat|
  {
    hide Extra;
    if flat != [] {
      ExtraTail(flat, used);
      ExtraTable(flat[2..], used);
    }
  }

  const PAYLOAD_KEYS := {UInt(1), UInt(3), UInt(4), UInt(7)}
  const REG_KEYS := {UInt(0), UInt(1), UInt(2)}

  lemma {:induction false} ExtraOk(flat: seq<Item>)
    ensures Extra(flat, PAYLOAD_KEYS) ==> AllOk(PayloadOk, flat)
    ensures Extra(flat, REG_KEYS) ==> AllOk(RegOk, flat)
    decreases |flat|
  {
    if flat != [] && |flat| % 2 == 0 {
      ExtraOk(flat[2..]);
      if Extra(flat, PAYLOAD_KEYS) {
        ExtraTail(flat, PAYLOAD_KEYS);
      }
      if Extra(flat, REG_KEYS) {
        ExtraTail(flat, REG_KEYS);
      }
    }
  }

  /** The four fields a registration payload carries, `more` being further validation methods. */
  function PayloadFields(p: Payload, more: seq<Item>): seq<Item>
    requires p.scheme in {0, 2}
  {
    Entry(UInt(1), Arr([UInt(1), BStr(p.poolId)]),
    Entry(UInt(3), Arr([UInt(p.scheme)] + more),
    Entry(UInt(4), UInt(p.nonce),
    Entry(UInt(7), BStr(p.calidusKey), []))))
  }

  function PayloadItem(p: Payload, more: seq<Item>, before: seq<Item>, after: seq<Item>): Item
    requires p.scheme in {0, 2}
  {
    Map(before + PayloadFields(p, more) + after)
  }

  lemma PayloadFieldsTable(p: Payload, more: seq<Item>)
    requires p.scheme in {0, 2}
    ensures AllOk(PayloadOk, PayloadFields(p, more))
    ensures Table(PayloadFields(p, more)) ==
            map[UInt(1) := Arr([UInt(1), BStr(p.poolId)]), UInt(3) := Arr([UInt(p.scheme)] + more),
                UInt(4) := UInt(p.nonce), UInt(7) := BStr(p.calidusKey)]
  {
    hide Table, AllOk, Entry, PayloadOk;
    var scope, methods := Arr([UInt(1), BStr(p.poolId)]), Arr([UInt(p.scheme)] + more);
    var f3 := Entry(UInt(7), BStr(p.calidusKey), []);
    var f2 := Entry(UInt(4), UInt(p.nonce), f3);
    EmptyTable(PayloadOk);
    TwoEntries(UInt(4), UInt(p.nonce), UInt(7), BStr(p.calidusKey), []);
    TwoEntries(UInt(1), scope, UInt(3), methods, f2);
    PayloadEntriesOk(p, more);
    OkEntry(PayloadOk, UInt(7), BStr(p.calidusKey), []);
    OkEntry(PayloadOk, UInt(4), UInt(p.nonce), f3);
    OkEntry(PayloadOk, UInt(3), methods, f2);
    OkEntry(PayloadOk, UInt(1), scope, Entry(UInt(3), methods, f2));
  }

  lemma PayloadEntriesOk(p: Payload, more: seq<Item>)
    requires p.scheme in {0, 2}
    ensures PayloadOk(UInt(1), Arr([UInt(1), BStr(p.poolId)])) && PayloadOk(UInt(3), Arr([UInt(p.scheme)] + more))
    ensures PayloadOk(UInt(4), UInt(p.nonce)) && PayloadOk(UInt(7), BStr(p.calidusKey))
  {
  }

  lemma TwoThenRest<K, V>(k: K, v: V, k': K, v': V, t: map<K, V>)
    requires k != k'
    ensures map[k := v] + (map[k' := v'] + t) == map[k := v, k' := v'] + t
  {
  }

  lemma TwoEntries(k: Item, v: Item, k': Item, v': Item, rest: seq<Item>)
    requires |rest| % 2 == 0 && k != k'
    ensures Table(Entry(k, v, Entry(k', v', rest))) == map[k := v, k' := v'] + Table(rest)
  {
    hide Table, Entry;
    TableOfEntry(k', v', rest);
    TableOfEntry(k, v, Entry(k', v', rest));
    TwoThenRest(k, v, k', v', Table(rest));
  }

  /** Printing and parsing a payload, with any unknown fields around it, returns the payload. */
  lemma PayloadRoundTrip(p: Payload, more: seq<Item>, before: seq<Item>, after: seq<Item>)
    requires p.scheme in {0, 2} && Valid(PayloadItem(p, more, before, after))
    requires Extra(before, PAYLOAD_KEYS) && Extra(after, PAYLOAD_KEYS)
    ensures PayloadSpec(Enc(PayloadItem(p, more, before, after))) == Ok(p)
  {
    hide Extra, PayloadItem, Valid, Enc, PayloadSpec, PayloadOf;
    PayloadItemMeaning(p, more, before, after);
    PayloadMeaning(PayloadItem(p, more, before, after));
  }

  lemma PayloadItemMeaning(p: Payload, more: seq<Item>, before: seq<Item>, after: seq<Item>)
    requires p.scheme in {0, 2} && Valid(PayloadItem(p, more, before, after))
    requires Extra(before, PAYLOAD_KEYS) && Extra(after, PAYLOAD_KEYS)
    ensures PayloadOf(PayloadItem(p, more, before, after)) == Some(p)
  {
    hide Extra, PayloadFields, Valid, Table, AllOk;
    var f := PayloadFields(p, more);
    ExtraOk(before);
    ExtraOk(after);
    ExtraTable(before, PAYLOAD_KEYS);
    ExtraTable(after, PAYLOAD_KEYS);
    PayloadFieldsTable(p, more);
    FieldsEven(p, more, before, after);
    AllOkAppend(PayloadOk, before, f);
    AllOkAppend(PayloadOk, before + f, after);
    TableAppend(before, f);
    TableAppend(before + f, after);
  }

  lemma FieldsEven(p: Payload, more: seq<Item>, before: seq<Item>, after: seq<Item>)
    requires p.scheme in {0, 2}
    requires Extra(before, PAYLOAD_KEYS) && Extra(after, PAYLOAD_KEYS)
    ensures |before| % 2 == 0 && |after| % 2 == 0 && |PayloadFields(p, more)| == 8
  {
  }

  function RegFields(payload: Item, ws: Item): seq<Item> {
    Entry(UInt(0), UInt(2), Entry(UInt(1), payload, Entry(UInt(2), ws, [])))
  }

  function RegistrationItem(payload: Item, ws: Item, before: seq<Item>, after: seq<Item>): Item {
    Map(before + RegFields(payload, ws) + after)
  }

  lemma RegFieldsTable(payload: Item, ws: Item)
    ensures |RegFields(payload, ws)| == 6 && AllOk(RegOk, RegFields(payload, ws))
    ensures Table(RegFields(payload, ws)) == map[UInt(0) := UInt(2), UInt(1) := payload, UInt(2) := ws]
  {
    var f2 := Entry(UInt(2), ws, []);
    var f1 := Entry(UInt(1), payload, f2);
    TableOfEntry(UInt(2), ws, []);
    OkEntry(RegOk, UInt(2), ws, []);
    TableOfEntry(UInt(1), payload, f2);
    OkEntry(RegOk, UInt(1), payload, f2);
    TableOfEntry(UInt(0), UInt(2), f1);
    OkEntry(RegOk, UInt(0), UInt(2), f1);
  }

  lemma RegistrationItemMeaning(payload: Item, ws: Item, before: seq<Item>, after: seq<Item>)
    requires Valid(payload) && Valid(ws) && Valid(RegistrationItem(payload, ws, before, after))
    requires Extra(before, REG_KEYS) && Extra(after, REG_KEYS) && PayloadOf(payload).Some?
    ensures RegOf(RegistrationItem(payload, ws, before, after)) == Some((PayloadOf(payload).value, payload, ws))
  {
    hide Extra, Valid, PayloadOf, RegFields, Table, AllOk;
    var f := RegFields(payload, ws);
    ExtraOk(before);
    ExtraOk(after);
    ExtraTable(before, REG_KEYS);
    ExtraTable(after, REG_KEYS);
    ExtraEven(before);
    ExtraEven(after);
    RegFieldsTable(payload, ws);
    AllOkAppend(RegOk, before, f);
    AllOkAppend(RegOk, before + f, after);
    TableAppend(before, f);
    TableAppend(before + f, after);
  }

  lemma ExtraEven(flat: seq<Item>)
    requires Extra(flat, REG_KEYS)
    ensures |flat| % 2 == 0
  {
  }

  /** A registration has a version entry, so it is never mistaken for a label wrapper. */
  lemma RegistrationNotWrapped(it: Item)
    requires Valid(it) && RegOf(it).Some?
    ensures !IsWrapped(Enc(it))
  {
    hide Enc, Valid, Wrap;
    if IsWrapped(Enc(it)) {
      var inner :| Valid(inner) && Enc(it) == Wrap(Enc(inner));
      WrapIsItem(inner);
      WrapItemNotReg(inner);
      assert Enc(it) + [] == Enc(WrapItem(inner)) + [];
      PrefixFree(it, WrapItem(inner), [], []);
    }
  }

  /** Printing and parsing a registration, bare or wrapped, returns the fields and the exact payload bytes. */
  lemma RegistrationRoundTrip(p: Payload, more: seq<Item>, before: seq<Item>, after: seq<Item>,
                              ws: Item, outerBefore: seq<Item>, outerAfter: seq<Item>)
    requires p.scheme in {0, 2}
    requires Extra(before, PAYLOAD_KEYS) && Extra(after, PAYLOAD_KEYS)
    requires Extra(outerBefore, REG_KEYS) && Extra(outerAfter, REG_KEYS)
    requires var payload := PayloadItem(p, more, before, after);
             Valid(payload) && Valid(ws) && Valid(RegistrationItem(payload, ws, outerBefore, outerAfter))
    ensures var payload := PayloadItem(p, more, before, after);
            var printed := Enc(RegistrationItem(payload, ws, outerBefore, outerAfter));
            ParseAllSpec(printed) == ParseAllSpec(Wrap(printed)) == Ok((p, Enc(payload), Enc(ws)))
  {
    hide Extra, Valid, Enc, PayloadItem, RegistrationItem, ParseAllSpec, Wrap;
    var payload := PayloadItem(p, more, before, after);
    var it := RegistrationItem(payload, ws, outerBefore, outerAfter);
    PayloadItemMeaning(p, more, before, after);
    RegistrationItemMeaning(payload, ws, outerBefore, outerAfter);
    RegistrationNotWrapped(it);
    UnwrappedFixed(Enc(it));
    ParseAllOnItem(it, Enc(it));
    WrapperTransparent(Enc(it));
  }

  // ---------- the signed message ----------

  /** The `Sig_structure` of section 4.4 of RFC 9052: context, protected header, empty external data, payload. */
  function SigItem(prot: Bytes, payload: Bytes): Item {
    Arr([Text(SIGNATURE1), BStr(prot), BStr([]), BStr(payload)])
  }

  lemma {:induction false} EncFour(a: Item, b: Item, c: Item, d: Item)
    requires Valid(a) && Valid(b) && Valid(c) && Valid(d)
    ensures Valid(Arr([a, b, c, d])) && Enc(Arr([a, b, c, d])) == Head(4, 4) + (Enc(a) + (Enc(b) + (Enc(c) + Enc(d))))
  {
    hide Head;
    var items := [a, b, c, d];
    assert Valid(items[0]) && Valid(items[1]) && Valid(items[2]) && Valid(items[3]);
    assert ValidAll(items) && |items| == 4;
    assert items[1..] == [b, c, d] && [b, c, d][1..] == [c, d] && [c, d][1..] == [d] && [d][1..] == [];
    assert EncAll([d]) == Enc(d) + EncAll([]);
    assert EncAll([c, d]) == Enc(c) + EncAll([d]);
    assert EncAll([b, c, d]) == Enc(b) + EncAll([c, d]);
    assert EncAll(items) == Enc(a) + EncAll([b, c, d]);
  }

  /** The pushed buffer is the printed structure. */
  lemma SigStructureIsItem(prot: Bytes, payload: Bytes)
    requires |prot| < U64_LIMIT && |payload| < U64_LIMIT
    ensures Valid(SigItem(prot, payload))
    ensures SigStructure(Enc(BStr(prot)), Enc(BStr(payload))) == Enc(SigItem(prot, payload))
    ensures |SIGNATURE1| == |"Signature1"|
    ensures forall i :: 0 <= i < |SIGNATURE1| ==> SIGNATURE1[i] == "Signature1"[i] as int
  {
    hide Enc, Head, SigStructure;
    SigConstants();
    EncFour(Text(SIGNATURE1), BStr(prot), BStr([]), BStr(payload));
    SigPieces(Enc(BStr(prot)), Enc(BStr(payload)));
  }

  lemma SigConstants()
    ensures Head(4, 4) == [0x84] && Enc(Text(SIGNATURE1)) == [0x6a] + SIGNATURE1 && Enc(BStr([])) == [0x40]
  {
    assert |SIGNATURE1| == 10;
    assert Enc(Text(SIGNATURE1)) == Head(3, 10) + SIGNATURE1;
    assert Head(3, 10) == [0x6a];
  }

  lemma SigPieces(a: Bytes, b: Bytes)
    ensures SigStructure(a, b) == [0x84] + (([0x6a] + SIGNATURE1) + (a + ([0x40] + b)))
  {
    assert [0x84, 0x6a] == [0x84] + [0x6a];
  }

  /** `cose_sig_structure` is injective on byte-string encodings. */
  lemma SigStructureInjective(prot: Bytes, payload: Bytes, prot': Bytes, payload': Bytes)
    requires |prot| < U64_LIMIT && |payload| < U64_LIMIT && |prot'| < U64_LIMIT && |payload'| < U64_LIMIT
    requires SigStructure(Enc(BStr(prot)), Enc(BStr(payload))) == SigStructure(Enc(BStr(prot')), Enc(BStr(payload')))
    ensures prot == prot' && payload == payload'
  {
    hide Enc;
    var a, b := Enc(BStr(prot)), Enc(BStr(payload));
    var a', b' := Enc(BStr(prot')), Enc(BStr(payload'));
    assert SigStructure(a, b)[12..] == a + ([0x40] + b);
    assert SigStructure(a', b')[12..] == a' + ([0x40] + b');
    PrefixFree(BStr(prot), BStr(prot'), [0x40] + b, [0x40] + b');
    assert b == ([0x40] + b)[1..] && b' == ([0x40] + b')[1..];
    assert b + [] == b' + [];
    PrefixFree(BStr(payload), BStr(payload'), [], []);
  }

  /** An authorizing COSE witness signs the message fixed by its protected header and the preimage. */
  lemma CoseMessageFixed(ck: Check, it: Item)
    requires ck.scheme == 2 && Valid(it) && WitnessVerdict(ck, it) == Some(true)
    ensures exists key: Hash32, prot: Bytes, sig: Bytes ::
              |prot| <= 256 && ck.crypto.blake224(key) == ck.poolId
              && ck.crypto.verifies(key, SigStructure(Enc(BStr(prot)), Enc(BStr(ck.preimage))), sig)
  {
    hide Enc, SigStructure, CoseKeyOf;
    TableOk(CoseOk, it.flat);
    var t := Table(it.flat);
    var v := t[UInt(2)];
    var s := Sign1Of(v).value;
    var prot := v.items[0].b;
    assert v.items[0] == BStr(prot) && v.items[2] == BStr(ck.preimage);
    var key := CoseKeyOf(t[UInt(1)]).value;
    assert ck.crypto.blake224(key) == ck.poolId
           && ck.crypto.verifies(key, SigStructure(Enc(BStr(prot)), Enc(BStr(ck.preimage))), s.sig);
  }

  // ---------- what verification accepts ----------

  /** A method-0 witness: a key that hashes to the pool and verifies the signature over the payload's hash. */
  ghost predicate Ed25519Signed(c: Crypto, poolId: Hash28, preimage: Hash32, w: Item)
    requires Valid(w)
  {
    exists key: Hash32, sig: Bytes ::
      WitnessOf(w) == Some((key, sig)) && c.blake224(key) == poolId && c.decodes(key)
      && c.verifies(key, preimage, sig)
  }

  /**
    * A method-2 witness: its `COSE_Key` hashes to the pool, its `COSE_Sign1` carries the payload's hash, and the
    * key verifies the signature over the `Sig_structure` of the two.
    */
  ghost predicate CoseSigned(c: Crypto, poolId: Hash28, preimage: Hash32, w: Item)
    requires Valid(w)
  {
    if !CoseShaped(w) then false else
    TableOk(CoseOk, w.flat);
    var t := Table(w.flat);
    UInt(1) in t && UInt(2) in t && CoseSigns(c, poolId, preimage, t[UInt(1)], t[UInt(2)])
  }

  ghost predicate CoseSigns(c: Crypto, poolId: Hash28, preimage: Hash32, coseKey: Item, sign1: Item)
    requires Valid(coseKey)
  {
    exists key: Hash32, prot: Bytes, unprotected: Item, sig: Bytes ::
      CoseKeyOf(coseKey) == Some(key) && sign1 == Arr([BStr(prot), unprotected, BStr(preimage), BStr(sig)])
      && c.blake224(key) == poolId && c.decodes(key)
      && |prot| < U64_LIMIT && (SigStructureIsItem(prot, preimage); c.verifies(key, Enc(SigItem(prot, preimage)), sig))
  }

  predicate CoseShaped(w: Item)
    requires Valid(w)
  {
    w.Map? && AllOk(CoseOk, w.flat)
  }

  /** Some method-0 witness signs and every witness before it is well formed. */
  ghost predicate Ed25519Endorsed(c: Crypto, poolId: Hash28, preimage: Hash32, ws: seq<Item>)
    requires ValidAll(ws)
  {
    exists i :: 0 <= i < |ws| && Ed25519Signed(c, poolId, preimage, ws[i])
                && forall j :: 0 <= j < i ==> WitnessOf(ws[j]).Some?
  }

  /** The same for method 2. */
  ghost predicate CoseEndorsed(c: Crypto, poolId: Hash28, preimage: Hash32, ws: seq<Item>)
    requires ValidAll(ws)
  {
    exists i :: 0 <= i < |ws| && CoseSigned(c, poolId, preimage, ws[i])
                && forall j :: 0 <= j < i ==> CoseShaped(ws[j])
  }

  lemma Ed25519Verdict(ck: Check, w: Item)
    requires ck.scheme == 0 && Valid(w)
    ensures WitnessVerdict(ck, w).Some? <==> WitnessOf(w).Some?
    ensures WitnessVerdict(ck, w) == Some(true) <==> Ed25519Signed(ck.crypto, ck.poolId, ck.preimage, w)
  {
    hide WitnessOf;
    if WitnessVerdict(ck, w) == Some(true) {
      var (key, sig) := WitnessOf(w).value;
      assert ck.crypto.verifies(key, ck.preimage, sig);
    }
  }

  lemma CoseVerdictShape(ck: Check, w: Item)
    requires ck.scheme == 2 && Valid(w)
    ensures WitnessVerdict(ck, w).Some? <==> CoseShaped(w)
    ensures WitnessVerdict(ck, w) == Some(true) <==> CoseSigned(ck.crypto, ck.poolId, ck.preimage, w)
  {
    hide Enc, SigStructure, CoseKeyOf, SigItem;
    if CoseShaped(w) {
      TableOk(CoseOk, w.flat);
      var t := Table(w.flat);
      if UInt(1) in t && UInt(2) in t {
        CoseEntrySigned(ck, w);
      }
    }
  }

  lemma CoseEntrySigned(ck: Check, w: Item)
    requires ck.scheme == 2 && Valid(w) && CoseShaped(w) && UInt(1) in Table(w.flat) && UInt(2) in Table(w.flat)
    ensures WitnessVerdict(ck, w) == Some(true) <==> CoseSigned(ck.crypto, ck.poolId, ck.preimage, w)
  {
    hide Enc, SigStructure, CoseKeyOf, SigItem;
    TableOk(CoseOk, w.flat);
    var t := Table(w.flat);
    var v := t[UInt(2)];
    var key, s := CoseKeyOf(t[UInt(1)]).value, Sign1Of(v).value;
    var prot := v.items[0].b;
    SigStructureIsItem(prot, ck.preimage);
    assert v.items[0] == BStr(prot);
    if WitnessVerdict(ck, w) == Some(true) {
      assert v.items == [BStr(prot), v.items[1], BStr(ck.preimage), BStr(s.sig)];
      assert ck.crypto.verifies(key, Enc(SigItem(prot, ck.preimage)), s.sig);
    }
  }

  lemma AnyEd25519(ck: Check, ws: seq<Item>)
    requires ck.scheme == 0 && ValidAll(ws)
    ensures Authorized(ck, ws) <==> Ed25519Endorsed(ck.crypto, ck.poolId, ck.preimage, ws)
  {
    hide Valid, WitnessVerdict, WitnessOf, Ed25519Signed;
    forall i | 0 <= i < |ws|
      ensures WitnessVerdict(ck, ws[i]).Some? <==> WitnessOf(ws[i]).Some?
      ensures WitnessVerdict(ck, ws[i]) == Some(true) <==> Ed25519Signed(ck.crypto, ck.poolId, ck.preimage, ws[i])
    {
      Ed25519Verdict(ck, ws[i]);
    }
  }

  /** `witness_authorizes_ed25519` says yes exactly when the pool's own key signed. */
  lemma Ed25519Exact(ck: Check, ws: Item)
    requires ck.scheme == 0 && Valid(ws)
    ensures AuthorizesSpec(ck, Enc(ws)) == Ok(true) <==>
            ws.Arr? && Ed25519Endorsed(ck.crypto, ck.poolId, ck.preimage, ws.items)
  {
    hide Enc, AuthorizesSpec, Authorized, Ed25519Endorsed;
    AuthorizesMeaning(ck, ws);
    if ws.Arr? {
      AnyEd25519(ck, ws.items);
    }
  }

  lemma AnyCose(ck: Check, ws: seq<Item>)
    requires ck.scheme == 2 && ValidAll(ws)
    ensures Authorized(ck, ws) <==> CoseEndorsed(ck.crypto, ck.poolId, ck.preimage, ws)
  {
    hide Valid, WitnessVerdict, CoseShaped, CoseSigned;
    forall i | 0 <= i < |ws|
      ensures WitnessVerdict(ck, ws[i]).Some? <==> CoseShaped(ws[i])
      ensures WitnessVerdict(ck, ws[i]) == Some(true) <==> CoseSigned(ck.crypto, ck.poolId, ck.preimage, ws[i])
    {
      CoseVerdictShape(ck, ws[i]);
    }
  }

  /** `witness_authorizes_cose` says yes exactly when the pool's own key signed the `Sig_structure`. */
  lemma CoseExact(ck: Check, ws: Item)
    requires ck.scheme == 2 && Valid(ws)
    ensures AuthorizesSpec(ck, Enc(ws)) == Ok(true) <==>
            ws.Arr? && CoseEndorsed(ck.crypto, ck.poolId, ck.preimage, ws.items)
  {
    hide Enc, AuthorizesSpec, Authorized, CoseEndorsed;
    AuthorizesMeaning(ck, ws);
    if ws.Arr? {
      AnyCose(ck, ws.items);
    }
  }

  /** The item is a registration of `r`: its payload's pool, the hash of its hot key, its nonce. */
  ghost predicate Names(c: Crypto, it: Item, r: Registration)
    requires Valid(it)
  {
    RegOf(it).Some? && var p := RegOf(it).value.0;
    r.poolId == p.poolId && r.keyHash == c.blake224(p.calidusKey) && r.nonce == p.nonce
  }

  /** ... and a witness of its validation method signs the hash of its payload. */
  ghost predicate Registers(c: Crypto, it: Item, r: Registration)
    requires Valid(it)
  {
    Names(c, it, r) && var (p, payload, ws) := RegOf(it).value;
    ws.Arr? &&
    if p.scheme == 0 then Ed25519Endorsed(c, p.poolId, c.blake256(Enc(payload)), ws.items)
    else p.scheme == 2 && CoseEndorsed(c, p.poolId, c.blake256(Enc(payload)), ws.items)
  }

  /** `parse_registration` returns `r` exactly when the bytes denote a registration of `r`. */
  lemma ParseExact(c: Crypto, bytes: Bytes, r: Registration)
    ensures ParseRegistration(c, bytes) == Ok(r) <==> exists it :: Denotes(bytes, it) && Names(c, it, r)
  {
    hide ParseAllSpec, Unwrapped, Enc, Valid, RegOf;
    if ParseRegistration(c, bytes) == Ok(r) {
      var it := ParseAllIsItem(bytes);
      ParseAllOnItem(it, bytes);
      assert Denotes(bytes, it) && Names(c, it, r);
    }
    forall it | Denotes(bytes, it) && Names(c, it, r)
      ensures ParseRegistration(c, bytes) == Ok(r)
    {
      ParseAllOnItem(it, bytes);
    }
  }

  lemma VerifyExactOnItem(c: Crypto, it: Item, bytes: Bytes, r: Registration)
    requires Denotes(bytes, it)
    ensures VerifyRegistration(c, bytes) == Ok(r) <==> Registers(c, it, r)
  {
    hide Enc, Valid, ParseAllSpec, AuthorizesSpec, PayloadOf, Unwrapped, Table, AllOk, Ed25519Endorsed, CoseEndorsed;
    ParseAllOnItem(it, bytes);
    match RegOf(it)
    case None =>
    case Some((p, payload, ws)) =>
      SchemeIsZeroOrTwo(payload);
      var ck := Check(c, p.poolId, c.blake256(Enc(payload)), p.scheme);
      if p.scheme == 0 {
        Ed25519Exact(ck, ws);
      } else {
        CoseExact(ck, ws);
      }
  }

  /** `verify_registration` returns `r` exactly when the bytes denote a signed registration of `r`. */
  lemma VerifyExact(c: Crypto, bytes: Bytes, r: Registration)
    ensures VerifyRegistration(c, bytes) == Ok(r) <==> exists it :: Denotes(bytes, it) && Registers(c, it, r)
  {
    hide VerifyRegistration, ParseAllSpec, Registers, Unwrapped, Enc, Valid;
    if VerifyRegistration(c, bytes) == Ok(r) {
      VerifyParses(c, bytes);
      var it := ParseAllIsItem(bytes);
      VerifyExactOnItem(c, it, bytes, r);
      assert Denotes(bytes, it) && Registers(c, it, r);
    }
    forall it | Denotes(bytes, it) && Registers(c, it, r)
      ensures VerifyRegistration(c, bytes) == Ok(r)
    {
      VerifyExactOnItem(c, it, bytes, r);
    }
  }
}
