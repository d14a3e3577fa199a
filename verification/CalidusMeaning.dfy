/** What the byte-level parsers of `calidus.rs` mean over CBOR items, for every input. */
module CalidusMeaning {
  import opened Prelude
  import opened Cbor
  import opened CborTable
  import opened Calidus

  // ---------- the payload ----------

  function PayloadStateOf(t: map<Item, Item>): PayloadState {
    PayloadState(
      if UInt(1) in t && IsScope(t[UInt(1)]) then Some(t[UInt(1)].items[1].b) else None,
      if UInt(7) in t && IsBytes(t[UInt(7)], 32) then Some(t[UInt(7)].b) else None,
      if UInt(4) in t && t[UInt(4)].UInt? then Some(t[UInt(4)].n) else None,
      if UInt(3) in t && IsMethod(t[UInt(3)]) then Some(t[UInt(3)].items[0].n) else None)
  }

  lemma ScopeOnItem(v: Item, buf: Bytes, pos: nat)
    requires Valid(v) && At(buf, pos, Enc(v))
    ensures if IsScope(v) then ScopeAt(buf, pos) == Ok((v.items[1].b, pos + |Enc(v)|)) else ScopeAt(buf, pos).Err?
  {
    hide ReadTyped, ReadBytes, Enc, Valid, At, HeadLength;
    ArrayAt(v, buf, pos);
    if v.Arr? && |v.items| == 2 {
      var p := pos + HeadLength(v);
      FirstAt(v.items, buf, p);
      UIntOnItem(v.items[0], buf, p);
      FirstAt(v.items[1..], buf, p + |Enc(v.items[0])|);
      BytesOnItem(v.items[1], buf, p + |Enc(v.items[0])|, 28);
      assert v.items[1..][1..] == [];
    }
  }

  lemma MethodOnItem(v: Item, buf: Bytes, pos: nat)
    requires Valid(v) && At(buf, pos, Enc(v))
    ensures if IsMethod(v) then MethodAt(buf, pos) == Ok((v.items[0].n, pos + |Enc(v)|)) else MethodAt(buf, pos).Err?
  {
    hide ReadTyped, Enc, EncAll, Valid, At, ParseItems, HeadLength;
    ArrayAt(v, buf, pos);
    if v.Arr? && |v.items| > 0 {
      var p := pos + HeadLength(v);
      FirstAt(v.items, buf, p);
      UIntOnItem(v.items[0], buf, p);
      ParseAllComplete(v.items[1..], buf, p + |Enc(v.items[0])|);
    }
  }

  lemma PayloadEntry(buf: Bytes, pos: nat, k: Item, v: Item, t: map<Item, Item>)
    requires Valid(k) && Valid(v) && At(buf, pos, Enc(k)) && At(buf, pos + |Enc(k)|, Enc(v))
    ensures if PayloadOk(k, v)
            then PayloadStep(buf, pos, PayloadStateOf(t)) == Ok((PayloadStateOf(t[k := v]), pos + |Enc(k)| + |Enc(v)|))
            else PayloadStep(buf, pos, PayloadStateOf(t)).Err?
  {
    hide Enc, Valid, At, ReadTyped, ReadBytes, SkipItem, ScopeAt, MethodAt, IsScope, IsMethod;
    var p := pos + |Enc(k)|;
    UIntOnItem(k, buf, pos);
    if k == UInt(1) {
      ScopeOnItem(v, buf, p);
    } else if k == UInt(3) {
      MethodOnItem(v, buf, p);
    } else if k == UInt(4) {
      UIntOnItem(v, buf, p);
    } else if k == UInt(7) {
      BytesOnItem(v, buf, p, 32);
    } else {
      SkipOnItem(v, buf, p);
    }
  }

  lemma {:induction false} PayloadLoopMeaning(flat: seq<Item>, buf: Bytes, pos: nat, t: map<Item, Item>)
    requires |flat| % 2 == 0 && ValidAll(flat) && At(buf, pos, EncAll(flat))
    ensures if AllOk(PayloadOk, flat)
            then PayloadLoop(buf, pos, |flat| / 2, PayloadStateOf(t))
              == Ok((PayloadStateOf(t + Table(flat)), pos + |EncAll(flat)|))
            else PayloadLoop(buf, pos, |flat| / 2, PayloadStateOf(t)).Err?
    decreases |flat|
  {
    hide Enc, Valid, At, PayloadStep, PayloadOk, PayloadStateOf;
    if flat == [] {
      assert t + Table(flat) == t;
    } else {
      PairAt(flat, buf, pos);
      PayloadEntry(buf, pos, flat[0], flat[1], t);
      if PayloadOk(flat[0], flat[1]) {
        PayloadLoopMeaning(flat[2..], buf, pos + |Enc(flat[0])| + |Enc(flat[1])|, t[flat[0] := flat[1]]);
        TableCons(t, flat);
      }
    }
  }

  /** `parse_payload` accepts exactly the payload items and returns their fields. */
  lemma PayloadMeaning(it: Item)
    requires Valid(it)
    ensures match PayloadOf(it)
            case Some(p) => PayloadSpec(Enc(it)) == Ok(p)
            case None => PayloadSpec(Enc(it)).Err?
  {
    hide Enc, Valid, At, EncAll, ReadTyped, PayloadLoop, AllOk, Table, HeadLength;
    WholeIsAt(Enc(it));
    MapAt(it, Enc(it), 0);
    if it.Map? {
      PayloadLoopMeaning(it.flat, Enc(it), HeadLength(it), map[]);
      assert map[] + Table(it.flat) == Table(it.flat);
      if AllOk(PayloadOk, it.flat) {
        TableOk(PayloadOk, it.flat);
      }
    }
  }

  // ---------- the registration ----------

  function RegStateOf(t: map<Item, Item>): RegState {
    RegState(
      if UInt(0) in t && t[UInt(0)].UInt? then Some(t[UInt(0)].n) else None,
      if UInt(1) in t && Valid(t[UInt(1)]) then Some(Enc(t[UInt(1)])) else None,
      if UInt(2) in t && Valid(t[UInt(2)]) then Some(Enc(t[UInt(2)])) else None)
  }

  lemma RegEntry(buf: Bytes, pos: nat, k: Item, v: Item, t: map<Item, Item>)
    requires Valid(k) && Valid(v) && At(buf, pos, Enc(k)) && At(buf, pos + |Enc(k)|, Enc(v))
    ensures if RegOk(k, v)
            then RegStep(buf, pos, RegStateOf(t)) == Ok((RegStateOf(t[k := v]), pos + |Enc(k)| + |Enc(v)|))
            else RegStep(buf, pos, RegStateOf(t)).Err?
  {
    hide Enc, Valid, ReadTyped, SkipItem;
    var p := pos + |Enc(k)|;
    UIntOnItem(k, buf, pos);
    if k == UInt(0) {
      UIntOnItem(v, buf, p);
    } else {
      SkipOnItem(v, buf, p);
    }
  }

  lemma {:induction false} RegLoopMeaning(flat: seq<Item>, buf: Bytes, pos: nat, t: map<Item, Item>)
    requires |flat| % 2 == 0 && ValidAll(flat) && At(buf, pos, EncAll(flat))
    ensures if AllOk(RegOk, flat)
            then RegLoop(buf, pos, |flat| / 2, RegStateOf(t)) == Ok((RegStateOf(t + Table(flat)), pos + |EncAll(flat)|))
            else RegLoop(buf, pos, |flat| / 2, RegStateOf(t)).Err?
    decreases |flat|
  {
    hide Enc, Valid, At, RegStep, RegOk, RegStateOf;
    if flat == [] {
      assert t + Table(flat) == t;
    } else {
      PairAt(flat, buf, pos);
      RegEntry(buf, pos, flat[0], flat[1], t);
      if RegOk(flat[0], flat[1]) {
        RegLoopMeaning(flat[2..], buf, pos + |Enc(flat[0])| + |Enc(flat[1])|, t[flat[0] := flat[1]]);
        TableCons(t, flat);
      }
    }
  }

  /** `parse_all` on a printed item: exactly the registration items, with the exact spans. */
  lemma ParseAllOnItem(it: Item, bytes: Bytes)
    requires Valid(it) && Enc(it) == Unwrapped(bytes)
    ensures match RegOf(it)
            case Some((p, payload, ws)) => ParseAllSpec(bytes) == Ok((p, Enc(payload), Enc(ws)))
            case None => ParseAllSpec(bytes).Err?
  {
    hide Enc, Valid, At, EncAll, ReadTyped, RegLoop, AllOk, Table, HeadLength, Unwrapped, PayloadOf, PayloadSpec;
    WholeIsAt(Enc(it));
    MapAt(it, Enc(it), 0);
    if it.Map? {
      RegLoopMeaning(it.flat, Enc(it), HeadLength(it), map[]);
      assert map[] + Table(it.flat) == Table(it.flat);
      if AllOk(RegOk, it.flat) {
        TableOk(RegOk, it.flat);
        if UInt(1) in Table(it.flat) {
          PayloadMeaning(Table(it.flat)[UInt(1)]);
        }
      }
    }
  }

  lemma UIntSound(buf: Bytes, pos: nat)
    requires ReadTyped(buf, pos, 0).Ok?
    ensures var (n, p) := ReadTyped(buf, pos, 0).value; buf[pos..p] == Enc(UInt(n))
  {
    ReadHeadSound(buf, pos);
  }

  lemma RegStepSound(buf: Bytes, pos: nat, st: RegState) returns (k: Item, v: Item)
    requires RegStep(buf, pos, st).Ok?
    ensures var end := RegStep(buf, pos, st).value.1;
            Valid(k) && Valid(v) && pos < end <= |buf| && buf[pos..end] == Enc(k) + Enc(v)
  {
    hide Enc;
    var end := RegStep(buf, pos, st).value.1;
    var (key, p) := ReadTyped(buf, pos, 0).value;
    UIntSound(buf, pos);
    k := UInt(key);
    if key == 0 {
      UIntSound(buf, p);
      v := UInt(ReadTyped(buf, p, 0).value.0);
    } else {
      ParseSound(buf, p);
      v := ParseItem(buf, p).value.0;
    }
    assert buf[pos..end] == buf[pos..p] + buf[p..end];
  }

  lemma {:induction false} RegLoopSound(buf: Bytes, pos: nat, n: nat, st: RegState) returns (flat: seq<Item>)
    requires pos <= |buf| && RegLoop(buf, pos, n, st).Ok?
    ensures var end := RegLoop(buf, pos, n, st).value.1;
            ValidAll(flat) && |flat| == 2 * n && pos <= end <= |buf| && buf[pos..end] == EncAll(flat)
    decreases n
  {
    hide Enc, Valid, RegStep;
    if n == 0 {
      flat := [];
    } else {
      var (next, p) := RegStep(buf, pos, st).value;
      var k, v := RegStepSound(buf, pos, st);
      var rest := RegLoopSound(buf, p, n - 1, next);
      flat := [k, v] + rest;
      var end := RegLoop(buf, pos, n, st).value.1;
      assert buf[pos..end] == buf[pos..p] + buf[p..end];
      assert flat[1..] == [v] + rest && flat[1..][1..] == rest;
      assert EncAll(flat) == Enc(k) + EncAll(flat[1..]);
      assert EncAll(flat[1..]) == Enc(v) + EncAll(rest);
    }
  }

  /** Whatever `parse_all` accepts is one printed item, wrapper aside. */
  lemma ParseAllIsItem(bytes: Bytes) returns (it: Item)
    requires ParseAllSpec(bytes).Ok?
    ensures Valid(it) && Enc(it) == Unwrapped(bytes)
  {
    hide ReadHead, Head, RegLoop, PayloadSpec, Unwrapped, EncAll;
    var v := Unwrapped(bytes);
    var (n, p) := ReadTyped(v, 0, 5).value;
    ReadHeadSound(v, 0);
    var flat := RegLoopSound(v, p, n, NO_REG);
    it := Map(flat);
    assert v == v[0..p] + v[p..|v|];
  }

  ghost predicate Denotes(bytes: Bytes, it: Item) {
    Valid(it) && Enc(it) == Unwrapped(bytes)
  }

  /** `parse_all` succeeds exactly on the registration items, wrapped or bare. */
  lemma ParseAllMeaning(bytes: Bytes)
    ensures ParseAllSpec(bytes).Ok? <==> exists it :: Denotes(bytes, it) && RegOf(it).Some?
  {
    hide RegOf, ParseAllSpec, Unwrapped, Enc, Valid;
    if ParseAllSpec(bytes).Ok? {
      var it := ParseAllIsItem(bytes);
      ParseAllOnItem(it, bytes);
      assert Denotes(bytes, it) && RegOf(it).Some?;
    }
    forall it | Denotes(bytes, it) && RegOf(it).Some?
      ensures ParseAllSpec(bytes).Ok?
    {
      ParseAllOnItem(it, bytes);
    }
  }

  // ---------- method-0 witnesses ----------

  function WitnessStateOf(t: map<Item, Item>): WitnessState {
    WitnessState(
      if UInt(1) in t && IsBytes(t[UInt(1)], 32) then Some(t[UInt(1)].b) else None,
      if UInt(2) in t && IsBytes(t[UInt(2)], 64) then Some(t[UInt(2)].b) else None)
  }

  lemma WitnessEntry(buf: Bytes, pos: nat, k: Item, v: Item, t: map<Item, Item>)
    requires Valid(k) && Valid(v) && At(buf, pos, Enc(k)) && At(buf, pos + |Enc(k)|, Enc(v))
    ensures if WitnessOk(k, v)
            then WitnessStep(buf, pos, WitnessStateOf(t)) == Ok((WitnessStateOf(t[k := v]), pos + |Enc(k)| + |Enc(v)|))
            else WitnessStep(buf, pos, WitnessStateOf(t)).Err?
  {
    hide Enc, Valid, At, ReadTyped, ReadBytes, SkipItem;
    var p := pos + |Enc(k)|;
    UIntOnItem(k, buf, pos);
    if k == UInt(1) {
      BytesOnItem(v, buf, p, 32);
    } else if k == UInt(2) {
      BytesOnItem(v, buf, p, 64);
    } else {
      SkipOnItem(v, buf, p);
    }
  }

  lemma {:induction false} WitnessLoopMeaning(flat: seq<Item>, buf: Bytes, pos: nat, t: map<Item, Item>)
    requires |flat| % 2 == 0 && ValidAll(flat) && At(buf, pos, EncAll(flat))
    ensures if AllOk(WitnessOk, flat)
            then WitnessLoop(buf, pos, |flat| / 2, WitnessStateOf(t)) ==
              Ok((WitnessStateOf(t + Table(flat)), pos + |EncAll(flat)|))
            else WitnessLoop(buf, pos, |flat| / 2, WitnessStateOf(t)).Err?
    decreases |flat|
  {
    hide Enc, Valid, At, WitnessStep, WitnessOk, WitnessStateOf;
    if flat == [] {
      assert t + Table(flat) == t;
    } else {
      PairAt(flat, buf, pos);
      WitnessEntry(buf, pos, flat[0], flat[1], t);
      if WitnessOk(flat[0], flat[1]) {
        WitnessLoopMeaning(flat[2..], buf, pos + |Enc(flat[0])| + |Enc(flat[1])|, t[flat[0] := flat[1]]);
        TableCons(t, flat);
      }
    }
  }

  lemma WitnessMeaning(it: Item, buf: Bytes, pos: nat)
    requires Valid(it) && At(buf, pos, Enc(it))
    ensures match WitnessOf(it)
            case Some(w) => WitnessSpec(buf, pos) == Ok((w, pos + |Enc(it)|))
            case None => WitnessSpec(buf, pos).Err?
  {
    hide Enc, Valid, At, EncAll, ReadTyped, WitnessLoop, AllOk, Table, HeadLength;
    MapAt(it, buf, pos);
    if it.Map? {
      WitnessLoopMeaning(it.flat, buf, pos + HeadLength(it), map[]);
      assert map[] + Table(it.flat) == Table(it.flat);
      if AllOk(WitnessOk, it.flat) {
        TableOk(WitnessOk, it.flat);
      }
    }
  }

  // ---------- method-2 (COSE) witnesses ----------

  function CoseKeyStateOf(t: map<Item, Item>): Option<Hash32> {
    if OKP_X in t && IsBytes(t[OKP_X], 32) then Some(t[OKP_X].b) else None
  }

  lemma LabelOnItem(k: Item, buf: Bytes, pos: nat)
    requires Valid(k) && At(buf, pos, Enc(k))
    ensures ReadHead(buf, pos).Ok? && ReadHead(buf, pos).value.0 == MajorType(k)
    ensures k.UInt? || k.NInt? ==> ReadHead(buf, pos) == Ok((MajorType(k), k.n, pos + |Enc(k)|))
  {
    hide At, Head, ReadHead;
    AtSplit(buf, pos, Head(MajorType(k), Argument(k)), Content(k));
    ReadHeadComplete(buf, pos, MajorType(k), Argument(k));
  }

  lemma CoseKeyEntry(buf: Bytes, pos: nat, k: Item, v: Item, t: map<Item, Item>)
    requires Valid(k) && Valid(v) && At(buf, pos, Enc(k)) && At(buf, pos + |Enc(k)|, Enc(v))
    ensures if CoseKeyOk(k, v)
            then CoseKeyStep(buf, pos, CoseKeyStateOf(t)) == Ok((CoseKeyStateOf(t[k := v]), pos + |Enc(k)| + |Enc(v)|))
            else CoseKeyStep(buf, pos, CoseKeyStateOf(t)).Err?
  {
    hide Enc, Valid, At, ReadHead, ReadBytes, SkipItem;
    var p := pos + |Enc(k)|;
    LabelOnItem(k, buf, pos);
    if k == OKP_X {
      BytesOnItem(v, buf, p, 32);
    } else {
      SkipOnItem(v, buf, p);
    }
  }

  lemma {:induction false} CoseKeyLoopMeaning(flat: seq<Item>, buf: Bytes, pos: nat, t: map<Item, Item>)
    requires |flat| % 2 == 0 && ValidAll(flat) && At(buf, pos, EncAll(flat))
    ensures if AllOk(CoseKeyOk, flat)
            then CoseKeyLoop(buf, pos, |flat| / 2, CoseKeyStateOf(t)) ==
              Ok((CoseKeyStateOf(t + Table(flat)), pos + |EncAll(flat)|))
            else CoseKeyLoop(buf, pos, |flat| / 2, CoseKeyStateOf(t)).Err?
    decreases |flat|
  {
    hide Enc, Valid, At, CoseKeyStep, CoseKeyOk, CoseKeyStateOf;
    if flat == [] {
      assert t + Table(flat) == t;
    } else {
      PairAt(flat, buf, pos);
      CoseKeyEntry(buf, pos, flat[0], flat[1], t);
      if CoseKeyOk(flat[0], flat[1]) {
        CoseKeyLoopMeaning(flat[2..], buf, pos + |Enc(flat[0])| + |Enc(flat[1])|, t[flat[0] := flat[1]]);
        TableCons(t, flat);
      }
    }
  }

  lemma CoseKeyMeaning(it: Item, buf: Bytes, pos: nat)
    requires Valid(it) && At(buf, pos, Enc(it))
    ensures match CoseKeyOf(it)
            case Some(key) => CoseKeySpec(buf, pos) == Ok((key, pos + |Enc(it)|))
            case None => CoseKeySpec(buf, pos).Err?
  {
    hide Enc, Valid, At, EncAll, ReadTyped, CoseKeyLoop, AllOk, Table, HeadLength;
    MapAt(it, buf, pos);
    if it.Map? {
      CoseKeyLoopMeaning(it.flat, buf, pos + HeadLength(it), map[]);
      assert map[] + Table(it.flat) == Table(it.flat);
      if AllOk(CoseKeyOk, it.flat) {
        TableOk(CoseKeyOk, it.flat);
      }
    }
  }

  lemma AtSlice(buf: Bytes, pos: nat, part: Bytes)
    requires At(buf, pos, part)
    ensures pos + |part| <= |buf| && buf[pos..pos + |part|] == part
  {
  }

  lemma Sign1Meaning(it: Item, buf: Bytes, pos: nat)
    requires Valid(it) && At(buf, pos, Enc(it))
    ensures match Sign1Of(it)
            case Some(s) => Sign1Spec(buf, pos) == Ok((s, pos + |Enc(it)|))
            case None => Sign1Spec(buf, pos).Err?
  {
    hide ReadTyped, ReadBytes, SkipItem, Enc, Valid, At, HeadLength;
    ArrayAt(it, buf, pos);
    if it.Arr? && |it.items| == 4 {
      var i0, i1, i2, i3 := it.items[0], it.items[1], it.items[2], it.items[3];
      var a := pos + HeadLength(it);
      FirstAt(it.items, buf, a);
      BytesOnItem(i0, buf, a, 256);
      AtSlice(buf, a, Enc(i0));
      var b, tail := a + |Enc(i0)|, it.items[1..];
      FirstAt(tail, buf, b);
      SkipOnItem(i1, buf, b);
      var c, tail' := b + |Enc(i1)|, tail[1..];
      assert tail'[0] == i2;
      FirstAt(tail', buf, c);
      BytesOnItem(i2, buf, c, 64);
      AtSlice(buf, c, Enc(i2));
      var d, tail'' := c + |Enc(i2)|, tail'[1..];
      assert tail'' == [i3];
      FirstAt(tail'', buf, d);
      BytesOnItem(i3, buf, d, 64);
      assert EncAll(tail''[1..]) == [];
    }
  }

  function CoseStateOf(pre: Hash32, t: map<Item, Item>): CoseState {
    var st := NoCose(pre).(key := if UInt(1) in t && Valid(t[UInt(1)]) then CoseKeyOf(t[UInt(1)]) else None);
    if UInt(2) in t && Valid(t[UInt(2)]) && Sign1Of(t[UInt(2)]).Some?
    then RecordSign1(st, Sign1Of(t[UInt(2)]).value) else st
  }

  lemma CoseEntry(pre: Hash32, buf: Bytes, pos: nat, k: Item, v: Item, t: map<Item, Item>)
    requires Valid(k) && Valid(v) && At(buf, pos, Enc(k)) && At(buf, pos + |Enc(k)|, Enc(v))
    ensures if CoseOk(k, v)
            then CoseStep(buf, pos, CoseStateOf(pre, t)) == Ok((CoseStateOf(pre, t[k := v]), pos + |Enc(k)| + |Enc(v)|))
            else CoseStep(buf, pos, CoseStateOf(pre, t)).Err?
  {
    hide Enc, Valid, At, ReadTyped, SkipItem, CoseKeySpec, Sign1Spec, CoseKeyOf, Sign1Of, SigStructure;
    var p := pos + |Enc(k)|;
    UIntOnItem(k, buf, pos);
    if k == UInt(1) {
      CoseKeyMeaning(v, buf, p);
    } else if k == UInt(2) {
      Sign1Meaning(v, buf, p);
    } else {
      SkipOnItem(v, buf, p);
    }
  }

  lemma {:induction false} CoseLoopMeaning(pre: Hash32, flat: seq<Item>, buf: Bytes, pos: nat, t: map<Item, Item>)
    requires |flat| % 2 == 0 && ValidAll(flat) && At(buf, pos, EncAll(flat))
    ensures if AllOk(CoseOk, flat)
            then CoseLoop(buf, pos, |flat| / 2, CoseStateOf(pre, t)) ==
              Ok((CoseStateOf(pre, t + Table(flat)), pos + |EncAll(flat)|))
            else CoseLoop(buf, pos, |flat| / 2, CoseStateOf(pre, t)).Err?
    decreases |flat|
  {
    hide Enc, Valid, At, CoseStep, CoseOk, CoseStateOf;
    if flat == [] {
      assert t + Table(flat) == t;
    } else {
      PairAt(flat, buf, pos);
      CoseEntry(pre, buf, pos, flat[0], flat[1], t);
      if CoseOk(flat[0], flat[1]) {
        CoseLoopMeaning(pre, flat[2..], buf, pos + |Enc(flat[0])| + |Enc(flat[1])|, t[flat[0] := flat[1]]);
        TableCons(t, flat);
      }
    }
  }

  lemma CoseMeaning(ck: Check, it: Item, buf: Bytes, pos: nat)
    requires ck.scheme != 0 && Valid(it) && At(buf, pos, Enc(it))
    ensures match WitnessVerdict(ck, it)
            case Some(yes) => CoseSpec(ck, buf, pos) == Ok((yes, pos + |Enc(it)|))
            case None => CoseSpec(ck, buf, pos).Err?
  {
    hide Enc, Valid, At, EncAll, ReadTyped, CoseLoop, AllOk, Table, HeadLength, Sign1Of, CoseKeyOf, SigStructure;
    MapAt(it, buf, pos);
    if it.Map? {
      assert CoseStateOf(ck.preimage, map[]) == NoCose(ck.preimage);
      CoseLoopMeaning(ck.preimage, it.flat, buf, pos + HeadLength(it), map[]);
      assert map[] + Table(it.flat) == Table(it.flat);
      if AllOk(CoseOk, it.flat) {
        TableOk(CoseOk, it.flat);
      }
    }
  }

  // ---------- verification ----------

  lemma OneWitnessMeaning(ck: Check, it: Item, buf: Bytes, pos: nat)
    requires Valid(it) && At(buf, pos, Enc(it))
    ensures match WitnessVerdict(ck, it)
            case Some(yes) => OneWitness(ck, buf, pos) == Ok((yes, pos + |Enc(it)|))
            case None => OneWitness(ck, buf, pos).Err?
  {
    hide Enc, Valid, At, WitnessOf, WitnessSpec, CoseSpec;
    if ck.scheme == 0 {
      WitnessMeaning(it, buf, pos);
    } else {
      CoseMeaning(ck, it, buf, pos);
    }
  }

  lemma {:induction false} AnyWitnessMeaning(ck: Check, ws: seq<Item>, buf: Bytes, pos: nat)
    requires ValidAll(ws) && At(buf, pos, EncAll(ws))
    ensures AnyWitness(ck, buf, pos, |ws|) == Ok(true) <==> Authorized(ck, ws)
    decreases |ws|
  {
    hide Enc, Valid, At, OneWitness, WitnessVerdict;
    if ws != [] {
      FirstAt(ws, buf, pos);
      OneWitnessMeaning(ck, ws[0], buf, pos);
      AnyWitnessMeaning(ck, ws[1..], buf, pos + |Enc(ws[0])|);
      AuthorizedCons(ck, ws);
    }
  }

  lemma AuthorizedCons(ck: Check, ws: seq<Item>)
    requires ValidAll(ws) && ws != []
    ensures Authorized(ck, ws) <==>
            WitnessVerdict(ck, ws[0]) == Some(true) || (WitnessVerdict(ck, ws[0]).Some? && Authorized(ck, ws[1..]))
  {
    hide WitnessVerdict, Valid;
    if Authorized(ck, ws[1..]) && WitnessVerdict(ck, ws[0]).Some? {
      var i :| 0 <= i < |ws[1..]| && WitnessVerdict(ck, ws[1..][i]) == Some(true)
               && forall j :: 0 <= j < i ==> WitnessVerdict(ck, ws[1..][j]).Some?;
      assert WitnessVerdict(ck, ws[i + 1]) == Some(true);
      assert forall j :: 0 <= j < i + 1 ==> WitnessVerdict(ck, ws[j]).Some? by {
        forall j | 0 <= j < i + 1
          ensures WitnessVerdict(ck, ws[j]).Some?
        {
          if j > 0 {
            assert ws[j] == ws[1..][j - 1];
          }
        }
      }
    }
    if Authorized(ck, ws) && WitnessVerdict(ck, ws[0]) != Some(true) {
      var i :| 0 <= i < |ws| && WitnessVerdict(ck, ws[i]) == Some(true)
               && forall j :: 0 <= j < i ==> WitnessVerdict(ck, ws[j]).Some?;
      assert ws[i] == ws[1..][i - 1];
      assert forall j :: 0 <= j < i - 1 ==> ws[1..][j] == ws[j + 1];
    }
  }

  /** The registration an item denotes carries an authorizing witness, preceded only by well-formed ones. */
  ghost predicate Verified(c: Crypto, it: Item)
    requires Valid(it)
  {
    match RegOf(it)
    case None => false
    case Some((p, payload, ws)) =>
      ws.Arr? && Authorized(Check(c, p.poolId, c.blake256(Enc(payload)), p.scheme), ws.items)
  }

  lemma AuthorizesMeaning(ck: Check, ws: Item)
    requires Valid(ws)
    ensures AuthorizesSpec(ck, Enc(ws)) == Ok(true) <==> ws.Arr? && Authorized(ck, ws.items)
  {
    hide Enc, Valid, At, EncAll, ReadTyped, AnyWitness, HeadLength, Authorized;
    WholeIsAt(Enc(ws));
    ArrayAt(ws, Enc(ws), 0);
    if ws.Arr? {
      AnyWitnessMeaning(ck, ws.items, Enc(ws), HeadLength(ws));
    }
  }

  lemma SchemeIsZeroOrTwo(it: Item)
    requires Valid(it) && PayloadOf(it).Some?
    ensures PayloadOf(it).value.scheme in {0, 2}
  {
    TableOk(PayloadOk, it.flat);
  }

  lemma VerifyOnItem(c: Crypto, it: Item, bytes: Bytes)
    requires Denotes(bytes, it)
    ensures VerifyRegistration(c, bytes).Ok? <==> Verified(c, it)
  {
    hide Enc, Valid, ParseAllSpec, AuthorizesSpec, Authorized, PayloadOf, Unwrapped, Table, AllOk;
    ParseAllOnItem(it, bytes);
    match RegOf(it)
    case None =>
    case Some((p, payload, ws)) =>
      SchemeIsZeroOrTwo(payload);
      AuthorizesMeaning(Check(c, p.poolId, c.blake256(Enc(payload)), p.scheme), ws);
  }

  /** `verify_registration` succeeds exactly on the verified registrations. */
  lemma VerifyMeaning(c: Crypto, bytes: Bytes)
    ensures VerifyRegistration(c, bytes).Ok? <==> exists it :: Denotes(bytes, it) && Verified(c, it)
  {
    hide VerifyRegistration, ParseAllSpec, Verified, Unwrapped, Enc, Valid;
    if VerifyRegistration(c, bytes).Ok? {
      VerifyParses(c, bytes);
      var it := ParseAllIsItem(bytes);
      VerifyOnItem(c, it, bytes);
      assert Denotes(bytes, it) && Verified(c, it);
    }
    forall it | Denotes(bytes, it) && Verified(c, it)
      ensures VerifyRegistration(c, bytes).Ok?
    {
      VerifyOnItem(c, it, bytes);
    }
  }

  lemma VerifyParses(c: Crypto, bytes: Bytes)
    requires VerifyRegistration(c, bytes).Ok?
    ensures ParseAllSpec(bytes).Ok?
  {
    hide ParseAllSpec, AuthorizesSpec;
  }
}
