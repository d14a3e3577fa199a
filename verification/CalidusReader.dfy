/** The imperative parsers of `calidus.rs`, each driving one `Reader` and proved to compute its specification. */
module CalidusReader {
  import opened Prelude
  import opened Cbor
  import opened Calidus
  import opened CalidusLaws

  method StripLabelWrapper(bytes: Bytes) returns (v: Bytes)
    ensures v == Unwrapped(bytes)
  {
    var r := new Reader(bytes);
    var n := r.TypedHead(5);
    if n != Ok(1) {
      return bytes;
    }
    var key := r.TypedHead(0);
    if key != Ok(867) {
      return bytes;
    }
    var start := r.pos;
    var skipped := r.Skip();
    if skipped.Err? || r.Remaining() != 0 {
      return bytes;
    }
    v := bytes[start..r.pos];
  }

  method ParsePayload(bytes: Bytes) returns (res: Result<Payload, Error>)
    ensures res == PayloadSpec(bytes)
  {
    hide ReadTyped, ReadBytes, SkipItem, ParseItems;
    var r := new Reader(bytes);
    var head := r.TypedHead(5);
    var n :- head.MapErr(BadPayload);
    var pool: Option<Hash28>, calidus: Option<Hash32>, nonce: Option<u64>, scheme: Option<nat> :=
        None, None, None, None;
    var start := r.pos;
    for i := 0 to n
      invariant r.Ready() && r.buf == bytes
      invariant PayloadLoop(bytes, start, n, NO_PAYLOAD)
             == PayloadLoop(bytes, r.pos, n - i, PayloadState(pool, calidus, nonce, scheme))
    {
      var k := r.TypedHead(0);
      var key :- k.MapErr(BadPayload);
      match key {
        case 1 =>
          var id :- Scope(r);
          pool := Some(id);
        case 3 =>
          var m :- Method(r);
          scheme := Some(m);
        case 4 =>
          var x := r.TypedHead(0);
          var v :- x.MapErr(BadPayload);
          nonce := Some(v);
        case 7 =>
          var x := r.NextBytes(32);
          var b :- x.MapErr(BadPayload);
          if |b| != 32 {
            return Err(BadPayload);
          }
          calidus := Some(b);
        case _ =>
          var _ :- r.Skip();
      }
    }
    if r.Remaining() != 0 || pool.None? || calidus.None? || nonce.None? || scheme.None? {
      return Err(BadPayload);
    }
    res := Ok(Payload(pool.value, calidus.value, nonce.value, scheme.value));
  }

  /** The scope field of the payload loop. */
  method Scope(r: Reader) returns (res: Result<Hash28, Error>)
    requires r.Ready()
    modifies r
    ensures r.Ready()
    ensures match ScopeAt(r.buf, old(r.pos))
            case Ok((pool, end)) => res == Ok(pool) && r.pos == end
            case Err(e) => res == Err(e)
  {
    var a := r.TypedHead(4);
    var len :- a.MapErr(BadPayload);
    if len != 2 {
      return Err(BadPayload);
    }
    var k := r.TypedHead(0);
    var kind :- k.MapErr(BadPayload);
    if kind != 1 {
      return Err(BadPayload);
    }
    var x := r.NextBytes(28);
    var b :- x.MapErr(BadPayload);
    if |b| != 28 {
      return Err(BadPayload);
    }
    res := Ok(b);
  }

  /** The validation-method field of the payload loop. */
  method Method(r: Reader) returns (res: Result<nat, Error>)
    requires r.Ready()
    modifies r
    ensures r.Ready()
    ensures match MethodAt(r.buf, old(r.pos))
            case Ok((m, end)) => res == Ok(m) && r.pos == end
            case Err(e) => res == Err(e)
  {
    var a := r.TypedHead(4);
    var len :- a.MapErr(BadPayload);
    if len == 0 {
      return Err(BadPayload);
    }
    var x := r.TypedHead(0);
    var m :- x.MapErr(BadPayload);
    var _ :- r.SkipMany(len - 1);
    if m != 0 && m != 2 {
      return Err(UnsupportedValidationMethod);
    }
    res := Ok(m);
  }

  method ParseAll(bytes: Bytes) returns (res: Result<(Payload, Bytes, Bytes), Error>)
    ensures res == ParseAllSpec(bytes)
  {
    hide ReadTyped, SkipItem, Unwrapped, PayloadSpec;
    var v := StripLabelWrapper(bytes);
    var r := new Reader(v);
    var n :- r.TypedHead(5);
    var version: Option<u64>, payload: Option<(nat, nat)>, ws: Option<(nat, nat)> := None, None, None;
    var first := r.pos;
    for i := 0 to n
      invariant r.Ready() && r.buf == v
      invariant Span(v, payload) && Span(v, ws)
      invariant RegLoop(v, first, n, NO_REG)
             == RegLoop(v, r.pos, n - i, RegState(version, SpanBytes(v, payload), SpanBytes(v, ws)))
    {
      var k := r.TypedHead(0);
      var key :- k.MapErr(BadRegistration);
      match key {
        case 0 =>
          var x := r.TypedHead(0);
          var num :- x.MapErr(BadRegistration);
          version := Some(num);
        case 1 =>
          var start := r.pos;
          var _ :- r.Skip();
          payload := Some((start, r.pos));
        case 2 =>
          var start := r.pos;
          var _ :- r.Skip();
          ws := Some((start, r.pos));
        case _ =>
          var _ :- r.Skip();
      }
    }
    if r.Remaining() != 0 {
      return Err(TrailingBytes);
    }
    if version != Some(2) {
      return Err(BadVersion);
    }
    if payload.None? || ws.None? {
      return Err(BadRegistration);
    }
    var payloadBytes := v[payload.value.0..payload.value.1];
    var fields :- ParsePayload(payloadBytes);
    res := Ok((fields, payloadBytes, v[ws.value.0..ws.value.1]));
  }

  /** A captured span lies inside the buffer. */
  predicate Span(buf: Bytes, span: Option<(nat, nat)>) {
    span.Some? ==> span.value.0 <= span.value.1 <= |buf|
  }

  function SpanBytes(buf: Bytes, span: Option<(nat, nat)>): Option<Bytes>
    requires Span(buf, span)
  {
    if span.Some? then Some(buf[span.value.0..span.value.1]) else None
  }

  method ParseWitness(r: Reader) returns (res: Result<(Hash32, Bytes), Error>)
    requires r.Ready()
    modifies r
    ensures r.Ready()
    ensures match WitnessSpec(r.buf, old(r.pos))
            case Ok((w, end)) => res == Ok(w) && r.pos == end
            case Err(e) => res == Err(e)
  {
    hide ReadTyped, ReadBytes, SkipItem;
    var head := r.TypedHead(5);
    var n :- head.MapErr(BadRegistration);
    var key: Option<Hash32>, sig: Option<Bytes> := None, None;
    var start := r.pos;
    for i := 0 to n
      invariant r.Ready()
      invariant WitnessLoop(r.buf, start, n, NO_WITNESS) == WitnessLoop(r.buf, r.pos, n - i, WitnessState(key, sig))
    {
      var k := r.TypedHead(0);
      var name :- k.MapErr(BadRegistration);
      match name {
        case 1 =>
          var x := r.NextBytes(32);
          var b :- x.MapErr(BadRegistration);
          if |b| != 32 {
            return Err(BadRegistration);
          }
          key := Some(b);
        case 2 =>
          var x := r.NextBytes(64);
          var b :- x.MapErr(BadRegistration);
          if |b| != 64 {
            return Err(BadRegistration);
          }
          sig := Some(b);
        case _ =>
          var _ :- r.Skip();
      }
    }
    if key.None? || sig.None? {
      return Err(BadRegistration);
    }
    res := Ok((key.value, sig.value));
  }

  method ParseCoseKeyPubkey(r: Reader) returns (res: Result<Hash32, Error>)
    requires r.Ready()
    modifies r
    ensures r.Ready()
    ensures match CoseKeySpec(r.buf, old(r.pos))
            case Ok((key, end)) => res == Ok(key) && r.pos == end
            case Err(e) => res == Err(e)
  {
    hide ReadTyped, ReadHead, ReadBytes, SkipItem;
    var head := r.TypedHead(5);
    var n :- head.MapErr(BadRegistration);
    var key: Option<Hash32> := None;
    var start := r.pos;
    for i := 0 to n
      invariant r.Ready()
      invariant CoseKeyLoop(r.buf, start, n, None) == CoseKeyLoop(r.buf, r.pos, n - i, key)
    {
      var x := r.NextHead();
      var name :- x.MapErr(BadRegistration);
      if name.0 == 1 && name.1 == 1 {
        var y := r.NextBytes(32);
        var b :- y.MapErr(BadRegistration);
        if |b| != 32 {
          return Err(BadRegistration);
        }
        key := Some(b);
      } else if name.0 == 0 || name.0 == 1 {
        var _ :- r.Skip();
      } else {
        return Err(BadRegistration);
      }
    }
    if key.None? {
      return Err(BadRegistration);
    }
    res := Ok(key.value);
  }

  method ParseCoseSign1(r: Reader) returns (res: Result<Sign1, Error>)
    requires r.Ready()
    modifies r
    ensures r.Ready()
    ensures match Sign1Spec(r.buf, old(r.pos))
            case Ok((s, end)) => res == Ok(s) && r.pos == end
            case Err(e) => res == Err(e)
  {
    hide ReadTyped, ReadBytes, SkipItem;
    var a := r.TypedHead(4);
    var len :- a.MapErr(BadRegistration);
    if len != 4 {
      return Err(BadRegistration);
    }
    var b := r.BytesRaw(256);
    var prot :- b.MapErr(BadRegistration);
    var _ :- r.Skip();
    var c := r.BytesRaw(64);
    var payload :- c.MapErr(BadRegistration);
    var d := r.NextBytes(64);
    var sig :- d.MapErr(BadRegistration);
    if |sig| != 64 {
      return Err(BadRegistration);
    }
    res := Ok(Sign1(prot.0, payload.0, payload.1, sig));
  }

  /** `cose_sig_structure`: pushed piece by piece. */
  method CoseSigStructure(protectedRaw: Bytes, payloadRaw: Bytes) returns (out: Bytes)
    ensures out == SigStructure(protectedRaw, payloadRaw)
  {
    out := [0x84];
    out := out + [0x6a];
    out := out + SIGNATURE1;
    out := out + protectedRaw;
    out := out + [0x40];
    out := out + payloadRaw;
  }

  method CoseWitnessAuthorizesOne(r: Reader, ck: Check) returns (res: Result<bool, Error>)
    requires r.Ready()
    modifies r
    ensures r.Ready()
    ensures match CoseSpec(ck, r.buf, old(r.pos))
            case Ok((yes, end)) => res == Ok(yes) && r.pos == end
            case Err(e) => res == Err(e)
  {
    hide ReadTyped, SkipItem, CoseKeySpec, Sign1Spec, SigStructure;
    var head := r.TypedHead(5);
    var n :- head.MapErr(BadRegistration);
    var key: Option<Hash32>, structure: Option<Bytes>, sig: Option<Bytes>, matches := None, None, None, false;
    var start := r.pos;
    for i := 0 to n
      invariant r.Ready()
      invariant CoseLoop(r.buf, start, n, NoCose(ck.preimage))
             == CoseLoop(r.buf, r.pos, n - i, CoseState(ck.preimage, key, structure, sig, matches))
    {
      var k := r.TypedHead(0);
      var name :- k.MapErr(BadRegistration);
      match name {
        case 1 =>
          var pk :- ParseCoseKeyPubkey(r);
          key := Some(pk);
        case 2 =>
          var s :- ParseCoseSign1(r);
          matches := s.payload == ck.preimage;
          var out := CoseSigStructure(s.protectedRaw, s.payloadRaw);
          structure := Some(out);
          sig := Some(s.sig);
        case _ =>
          var _ :- r.Skip();
      }
    }
    if key.None? || structure.None? || sig.None? {
      return Ok(false);
    }
    if !matches {
      return Ok(false);
    }
    if ck.crypto.blake224(key.value) != ck.poolId {
      return Ok(false);
    }
    if !ck.crypto.decodes(key.value) {
      return Ok(false);
    }
    res := Ok(ck.crypto.verifies(key.value, structure.value, sig.value));
  }

  lemma Ed25519OnBytes(ck: Check, bytes: Bytes)
    requires ck.scheme == 0
    ensures forall ws :: Valid(ws) && Enc(ws) == bytes ==>
                           (AuthorizesSpec(ck, bytes) == Ok(true) <==>
                            ws.Arr? && Ed25519Endorsed(ck.crypto, ck.poolId, ck.preimage, ws.items))
  {
    hide Enc, AuthorizesSpec, Ed25519Endorsed;
    forall ws | Valid(ws) && Enc(ws) == bytes
      ensures AuthorizesSpec(ck, bytes) == Ok(true) <==>
              ws.Arr? && Ed25519Endorsed(ck.crypto, ck.poolId, ck.preimage, ws.items)
    {
      Ed25519Exact(ck, ws);
    }
  }

  method WitnessAuthorizesEd25519(bytes: Bytes, ck: Check) returns (res: Result<bool, Error>)
    requires ck.scheme == 0
    ensures res == AuthorizesSpec(ck, bytes)
    ensures forall ws :: Valid(ws) && Enc(ws) == bytes ==>
                           (res == Ok(true) <==>
                            ws.Arr? && Ed25519Endorsed(ck.crypto, ck.poolId, ck.preimage, ws.items))
  {
    hide ReadTyped, WitnessSpec, Enc, Ed25519Endorsed;
    Ed25519OnBytes(ck, bytes);
    var r := new Reader(bytes);
    var head := r.TypedHead(4);
    var count :- head.MapErr(BadRegistration);
    var start := r.pos;
    for i := 0 to count
      invariant r.Ready() && r.buf == bytes
      invariant AnyWitness(ck, bytes, start, count) == AnyWitness(ck, bytes, r.pos, count - i)
    {
      var w :- ParseWitness(r);
      if ck.crypto.blake224(w.0) != ck.poolId {
        continue;
      }
      if !ck.crypto.decodes(w.0) {
        continue;
      }
      if ck.crypto.verifies(w.0, ck.preimage, w.1) {
        return Ok(true);
      }
    }
    res := Ok(false);
  }

  lemma CoseOnBytes(ck: Check, bytes: Bytes)
    requires ck.scheme == 2
    ensures forall ws :: Valid(ws) && Enc(ws) == bytes ==>
                           (AuthorizesSpec(ck, bytes) == Ok(true) <==>
                            ws.Arr? && CoseEndorsed(ck.crypto, ck.poolId, ck.preimage, ws.items))
  {
    hide Enc, AuthorizesSpec, CoseEndorsed;
    forall ws | Valid(ws) && Enc(ws) == bytes
      ensures AuthorizesSpec(ck, bytes) == Ok(true) <==>
              ws.Arr? && CoseEndorsed(ck.crypto, ck.poolId, ck.preimage, ws.items)
    {
      CoseExact(ck, ws);
    }
  }

  method WitnessAuthorizesCose(bytes: Bytes, ck: Check) returns (res: Result<bool, Error>)
    requires ck.scheme == 2
    ensures res == AuthorizesSpec(ck, bytes)
    ensures forall ws :: Valid(ws) && Enc(ws) == bytes ==>
                           (res == Ok(true) <==>
                            ws.Arr? && CoseEndorsed(ck.crypto, ck.poolId, ck.preimage, ws.items))
  {
    hide ReadTyped, CoseSpec, Enc, CoseEndorsed;
    CoseOnBytes(ck, bytes);
    var r := new Reader(bytes);
    var head := r.TypedHead(4);
    var count :- head.MapErr(BadRegistration);
    var start := r.pos;
    for i := 0 to count
      invariant r.Ready() && r.buf == bytes
      invariant AnyWitness(ck, bytes, start, count) == AnyWitness(ck, bytes, r.pos, count - i)
    {
      var yes :- CoseWitnessAuthorizesOne(r, ck);
      if yes {
        return Ok(true);
      }
    }
    res := Ok(false);
  }

  method Parse(c: Crypto, bytes: Bytes) returns (res: Result<Registration, Error>)
    ensures res == ParseRegistration(c, bytes)
  {
    hide ParseAllSpec;
    var all :- ParseAll(bytes);
    res := Ok(Registration(all.0.poolId, c.blake224(all.0.calidusKey), all.0.nonce));
  }

  method Verify(c: Crypto, bytes: Bytes) returns (res: Result<Registration, Error>)
    ensures res == VerifyRegistration(c, bytes)
  {
    hide ParseAllSpec, AuthorizesSpec;
    var all :- ParseAll(bytes);
    var (p, payload, ws) := all;
    var ck := Check(c, p.poolId, c.blake256(payload), p.scheme);
    var authorized;
    if p.scheme == 0 {
      authorized :- WitnessAuthorizesEd25519(ws, ck);
    } else if p.scheme == 2 {
      authorized :- WitnessAuthorizesCose(ws, ck);
    } else {
      return Err(UnsupportedValidationMethod);
    }
    if !authorized {
      return Err(WitnessInvalid);
    }
    res := Ok(Registration(p.poolId, c.blake224(p.calidusKey), p.nonce));
  }
}
