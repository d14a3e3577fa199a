/** Calidus pool-key registrations (`cogno-dbsync/src/calidus.rs`): what the byte-level parsers and witness
    checks compute. Hashes and signatures are parameters (`Crypto`), so every statement holds for all of them. */
module Calidus {
  import opened Prelude
  import opened Cbor
  import opened CborTable

  /** blake2b-224, blake2b-256, `VerifyingKey::from_bytes(..).is_ok()` and `verify_strict(..).is_ok()`. */
  datatype Crypto = Crypto(
    blake224: Bytes -> Hash28,
    blake256: Bytes -> Hash32,
    decodes: Bytes -> bool,
    verifies: (Bytes, Bytes, Bytes) -> bool)

  datatype Payload = Payload(poolId: Hash28, calidusKey: Hash32, nonce: u64, scheme: nat)

  /** The identity fields of a registration, verified (`CalidusRegistration`) or not (`CalidusParsed`). */
  datatype Registration = Registration(poolId: Hash28, keyHash: Hash28, nonce: u64)

  // ---------- the payload map ----------

  datatype PayloadState = PayloadState(pool: Option<Hash28>, key: Option<Hash32>, nonce: Option<u64>,
      scheme: Option<nat>)

  const NO_PAYLOAD := PayloadState(None, None, None, None)

  function PayloadStep(buf: Bytes, pos: nat, st: PayloadState): Result<(PayloadState, nat), Error> {
    var (key, p) :- ReadTyped(buf, pos, 0).MapErr(BadPayload);
    if key == 1 then
      var (pool, end) :- ScopeAt(buf, p);
      Ok((st.(pool := Some(pool)), end))
    else if key == 3 then
      var (m, end) :- MethodAt(buf, p);
      Ok((st.(scheme := Some(m)), end))
    else if key == 4 then
      var (n, end) :- ReadTyped(buf, p, 0).MapErr(BadPayload);
      Ok((st.(nonce := Some(n)), end))
    else if key == 7 then
      var (b, end) :- ReadBytes(buf, p, 32).MapErr(BadPayload);
      if |b| != 32 then Err(BadPayload) else Ok((st.(key := Some(b)), end))
    else
      var end :- SkipItem(buf, p);
      Ok((st, end))
  }

  function PayloadLoop(buf: Bytes, pos: nat, n: nat, st: PayloadState): Result<(PayloadState, nat), Error>
    decreases n
  {
    if n == 0 then Ok((st, pos)) else
    var (next, p) :- PayloadStep(buf, pos, st);
    PayloadLoop(buf, p, n - 1, next)
  }

  /** `[1, pool id]`. */
  function ScopeAt(buf: Bytes, pos: nat): Result<(Hash28, nat), Error> {
    var (len, p) :- ReadTyped(buf, pos, 4).MapErr(BadPayload);
    if len != 2 then Err(BadPayload) else
    var (kind, q) :- ReadTyped(buf, p, 0).MapErr(BadPayload);
    if kind != 1 then Err(BadPayload) else
    var (b, end) :- ReadBytes(buf, q, 28).MapErr(BadPayload);
    if |b| != 28 then Err(BadPayload) else Ok((b, end))
  }

  /** `[method, ..]` with method 0 or 2. */
  function MethodAt(buf: Bytes, pos: nat): Result<(nat, nat), Error> {
    var (len, p) :- ReadTyped(buf, pos, 4).MapErr(BadPayload);
    if len == 0 then Err(BadPayload) else
    var (m, q) :- ReadTyped(buf, p, 0).MapErr(BadPayload);
    var (_, end) :- ParseItems(buf, q, len - 1);
    if m == 0 || m == 2 then Ok((m, end)) else Err(UnsupportedValidationMethod)
  }

  /** `parse_payload`. */
  function PayloadSpec(bytes: Bytes): Result<Payload, Error> {
    var (n, p) :- ReadTyped(bytes, 0, 5).MapErr(BadPayload);
    var (st, end) :- PayloadLoop(bytes, p, n, NO_PAYLOAD);
    if end != |bytes| || st.pool.None? || st.key.None? || st.nonce.None? || st.scheme.None? then Err(BadPayload)
    else Ok(Payload(st.pool.value, st.key.value, st.nonce.value, st.scheme.value))
  }

  predicate IsScope(v: Item) {
    v.Arr? && |v.items| == 2 && v.items[0] == UInt(1) && v.items[1].BStr? && |v.items[1].b| == 28
  }

  predicate IsMethod(v: Item) {
    v.Arr? && |v.items| > 0 && v.items[0] in {UInt(0), UInt(2)}
  }

  predicate IsBytes(v: Item, len: nat) {
    v.BStr? && |v.b| == len
  }

  /** The entries a payload may hold: integer keys, and the four consumed fields in their shapes. */
  predicate PayloadOk(k: Item, v: Item) {
    k.UInt?
    && (k.n == 1 ==> IsScope(v))
    && (k.n == 3 ==> IsMethod(v))
    && (k.n == 4 ==> v.UInt?)
    && (k.n == 7 ==> IsBytes(v, 32))
  }

  /** The payload an item denotes, if it denotes one. */
  function PayloadOf(it: Item): Option<Payload>
    requires Valid(it)
  {
    if !it.Map? || !AllOk(PayloadOk, it.flat) then None else
    TableOk(PayloadOk, it.flat);
    var t := Table(it.flat);
    if UInt(1) in t && UInt(3) in t && UInt(4) in t && UInt(7) in t then
      Some(Payload(t[UInt(1)].items[1].b, t[UInt(7)].b, t[UInt(4)].n, t[UInt(3)].items[0].n))
    else None
  }

  // ---------- the registration map ----------

  datatype RegState = RegState(version: Option<u64>, payload: Option<Bytes>, witnesses: Option<Bytes>)

  const NO_REG := RegState(None, None, None)

  function RegStep(buf: Bytes, pos: nat, st: RegState): Result<(RegState, nat), Error> {
    var (key, p) :- ReadTyped(buf, pos, 0).MapErr(BadRegistration);
    if key == 0 then
      var (v, end) :- ReadTyped(buf, p, 0).MapErr(BadRegistration);
      Ok((st.(version := Some(v)), end))
    else
      var end :- SkipItem(buf, p);
      Ok((if key == 1 then st.(payload := Some(buf[p..end]))
          else if key == 2 then st.(witnesses := Some(buf[p..end])) else st, end))
  }

  function RegLoop(buf: Bytes, pos: nat, n: nat, st: RegState): Result<(RegState, nat), Error>
    decreases n
  {
    if n == 0 then Ok((st, pos)) else
    var (next, p) :- RegStep(buf, pos, st);
    RegLoop(buf, p, n - 1, next)
  }

  /** `strip_label_wrapper`. */
  function Unwrapped(bytes: Bytes): Bytes {
    var n := ReadTyped(bytes, 0, 5);
    if n.Err? || n.value.0 != 1 then bytes else
    var key := ReadTyped(bytes, n.value.1, 0);
    if key.Err? || key.value.0 != 867 then bytes else
    var end := SkipItem(bytes, key.value.1);
    if end.Err? || end.value != |bytes| then bytes else bytes[key.value.1..]
  }

  /** `parse_all`: the payload fields, the payload bytes, the witness bytes. */
  function ParseAllSpec(bytes: Bytes): Result<(Payload, Bytes, Bytes), Error> {
    var v := Unwrapped(bytes);
    var (n, p) :- ReadTyped(v, 0, 5);
    var (st, end) :- RegLoop(v, p, n, NO_REG);
    if end != |v| then Err(TrailingBytes)
    else if st.version != Some(2) then Err(BadVersion)
    else if st.payload.None? || st.witnesses.None? then Err(BadRegistration)
    else
      var payload :- PayloadSpec(st.payload.value);
      Ok((payload, st.payload.value, st.witnesses.value))
  }

  predicate RegOk(k: Item, v: Item) {
    k.UInt? && (k.n == 0 ==> v.UInt?)
  }

  /** The payload, payload item and witness item a registration item denotes. */
  function RegOf(it: Item): (r: Option<(Payload, Item, Item)>)
    requires Valid(it)
    ensures r.Some? ==> Valid(r.value.1) && Valid(r.value.2)
  {
    if !it.Map? || !AllOk(RegOk, it.flat) then None else
    TableOk(RegOk, it.flat);
    var t := Table(it.flat);
    if UInt(0) !in t || t[UInt(0)] != UInt(2) || UInt(1) !in t || UInt(2) !in t then None else
    match PayloadOf(t[UInt(1)])
    case None => None
    case Some(p) => Some((p, t[UInt(1)], t[UInt(2)]))
  }

  // ---------- witnesses ----------

  /** What one witness has to authorize: which pool, over which preimage, by which validation method. */
  datatype Check = Check(crypto: Crypto, poolId: Hash28, preimage: Hash32, scheme: nat)

  datatype WitnessState = WitnessState(key: Option<Hash32>, sig: Option<Bytes>)

  const NO_WITNESS := WitnessState(None, None)

  function WitnessStep(buf: Bytes, pos: nat, st: WitnessState): Result<(WitnessState, nat), Error> {
    var (key, p) :- ReadTyped(buf, pos, 0).MapErr(BadRegistration);
    if key == 1 then
      var (b, end) :- ReadBytes(buf, p, 32).MapErr(BadRegistration);
      if |b| != 32 then Err(BadRegistration) else Ok((st.(key := Some(b)), end))
    else if key == 2 then
      var (b, end) :- ReadBytes(buf, p, 64).MapErr(BadRegistration);
      if |b| != 64 then Err(BadRegistration) else Ok((st.(sig := Some(b)), end))
    else
      var end :- SkipItem(buf, p);
      Ok((st, end))
  }

  function WitnessLoop(buf: Bytes, pos: nat, n: nat, st: WitnessState): Result<(WitnessState, nat), Error>
    decreases n
  {
    if n == 0 then Ok((st, pos)) else
    var (next, p) :- WitnessStep(buf, pos, st);
    WitnessLoop(buf, p, n - 1, next)
  }

  /** `parse_witness`: the public key and signature of a method-0 witness. */
  function WitnessSpec(buf: Bytes, pos: nat): Result<((Hash32, Bytes), nat), Error> {
    var (n, p) :- ReadTyped(buf, pos, 5).MapErr(BadRegistration);
    var (st, end) :- WitnessLoop(buf, p, n, NO_WITNESS);
    if st.key.None? || st.sig.None? then Err(BadRegistration) else Ok(((st.key.value, st.sig.value), end))
  }

  predicate WitnessOk(k: Item, v: Item) {
    k.UInt? && (k.n == 1 ==> IsBytes(v, 32)) && (k.n == 2 ==> IsBytes(v, 64))
  }

  function WitnessOf(it: Item): Option<(Hash32, Bytes)>
    requires Valid(it)
  {
    if !it.Map? || !AllOk(WitnessOk, it.flat) then None else
    TableOk(WitnessOk, it.flat);
    var t := Table(it.flat);
    if UInt(1) in t && UInt(2) in t then Some((t[UInt(1)].b, t[UInt(2)].b)) else None
  }

  function CoseKeyStep(buf: Bytes, pos: nat, st: Option<Hash32>): Result<(Option<Hash32>, nat), Error> {
    var (mt, arg, p) :- ReadHead(buf, pos).MapErr(BadRegistration);
    if mt == 1 && arg == 1 then
      var (b, end) :- ReadBytes(buf, p, 32).MapErr(BadRegistration);
      if |b| != 32 then Err(BadRegistration) else Ok((Some(b), end))
    else if mt == 0 || mt == 1 then
      var end :- SkipItem(buf, p);
      Ok((st, end))
    else Err(BadRegistration)
  }

  function CoseKeyLoop(buf: Bytes, pos: nat, n: nat, st: Option<Hash32>): Result<(Option<Hash32>, nat), Error>
    decreases n
  {
    if n == 0 then Ok((st, pos)) else
    var (next, p) :- CoseKeyStep(buf, pos, st);
    CoseKeyLoop(buf, p, n - 1, next)
  }

  /** `parse_cose_key_pubkey`. */
  function CoseKeySpec(buf: Bytes, pos: nat): Result<(Hash32, nat), Error> {
    var (n, p) :- ReadTyped(buf, pos, 5).MapErr(BadRegistration);
    var (key, end) :- CoseKeyLoop(buf, p, n, None);
    if key.None? then Err(BadRegistration) else Ok((key.value, end))
  }

  /** The OKP public key label of section 7.2 of RFC 9053: the integer -2. */
  const OKP_X := NInt(1)

  predicate CoseKeyOk(k: Item, v: Item) {
    (k.UInt? || k.NInt?) && (k == OKP_X ==> IsBytes(v, 32))
  }

  function CoseKeyOf(it: Item): Option<Hash32>
    requires Valid(it)
  {
    if !it.Map? || !AllOk(CoseKeyOk, it.flat) then None else
    TableOk(CoseKeyOk, it.flat);
    var t := Table(it.flat);
    if OKP_X in t then Some(t[OKP_X].b) else None
  }

  /** Raw protected header, raw payload, payload content, signature. */
  datatype Sign1 = Sign1(protectedRaw: Bytes, payloadRaw: Bytes, payload: Bytes, sig: Bytes)

  /** `parse_cose_sign1`. */
  function Sign1Spec(buf: Bytes, pos: nat): Result<(Sign1, nat), Error> {
    var (len, a) :- ReadTyped(buf, pos, 4).MapErr(BadRegistration);
    if len != 4 then Err(BadRegistration) else
    var (_, b) :- ReadBytes(buf, a, 256).MapErr(BadRegistration);
    var c :- SkipItem(buf, b);
    var (payload, d) :- ReadBytes(buf, c, 64).MapErr(BadRegistration);
    var (sig, end) :- ReadBytes(buf, d, 64).MapErr(BadRegistration);
    if |sig| != 64 then Err(BadRegistration) else Ok((Sign1(buf[a..b], buf[c..d], payload, sig), end))
  }

  function Sign1Of(it: Item): Option<Sign1>
    requires Valid(it)
  {
    if it.Arr? && |it.items| == 4
       && it.items[0].BStr? && |it.items[0].b| <= 256
       && it.items[2].BStr? && |it.items[2].b| <= 64
       && IsBytes(it.items[3], 64)
    then Some(Sign1(Enc(it.items[0]), Enc(it.items[2]), it.items[2].b, it.items[3].b))
    else None
  }

  /** The context string of section 4.4 of RFC 9052, as bytes. */
  const SIGNATURE1: Bytes := [83, 105, 103, 110, 97, 116, 117, 114, 101, 49]

  /** `cose_sig_structure`. */
  function SigStructure(protectedRaw: Bytes, payloadRaw: Bytes): Bytes {
    [0x84, 0x6a] + SIGNATURE1 + protectedRaw + [0x40] + payloadRaw
  }

  datatype CoseState = CoseState(preimage: Hash32, key: Option<Hash32>, sigStructure: Option<Bytes>,
                                 sig: Option<Bytes>, matches: bool)

  function NoCose(preimage: Hash32): CoseState {
    CoseState(preimage, None, None, None, false)
  }

  function CoseStep(buf: Bytes, pos: nat, st: CoseState): Result<(CoseState, nat), Error> {
    var (key, p) :- ReadTyped(buf, pos, 0).MapErr(BadRegistration);
    if key == 1 then
      var (k, end) :- CoseKeySpec(buf, p);
      Ok((st.(key := Some(k)), end))
    else if key == 2 then
      var (s, end) :- Sign1Spec(buf, p);
      Ok((RecordSign1(st, s), end))
    else
      var end :- SkipItem(buf, p);
      Ok((st, end))
  }

  function CoseLoop(buf: Bytes, pos: nat, n: nat, st: CoseState): Result<(CoseState, nat), Error>
    decreases n
  {
    if n == 0 then Ok((st, pos)) else
    var (next, p) :- CoseStep(buf, pos, st);
    CoseLoop(buf, p, n - 1, next)
  }

  function RecordSign1(st: CoseState, s: Sign1): CoseState {
    st.(matches := s.payload == st.preimage, sigStructure := Some(SigStructure(s.protectedRaw, s.payloadRaw)),
        sig := Some(s.sig))
  }

  /** `cose_witness_authorizes_one`. */
  function CoseSpec(ck: Check, buf: Bytes, pos: nat): Result<(bool, nat), Error> {
    var (n, p) :- ReadTyped(buf, pos, 5).MapErr(BadRegistration);
    var (st, end) :- CoseLoop(buf, p, n, NoCose(ck.preimage));
    Ok((CoseVerdict(ck, st), end))
  }

  predicate CoseVerdict(ck: Check, st: CoseState) {
    st.key.Some? && st.sigStructure.Some? && st.sig.Some? && st.matches
    && ck.crypto.blake224(st.key.value) == ck.poolId
    && ck.crypto.decodes(st.key.value)
    && ck.crypto.verifies(st.key.value, st.sigStructure.value, st.sig.value)
  }

  predicate CoseOk(k: Item, v: Item) {
    k.UInt? && Valid(v) && (k.n == 1 ==> CoseKeyOf(v).Some?) && (k.n == 2 ==> Sign1Of(v).Some?)
  }

  /** The signature check both methods share: the pool's cold key over the method's message. */
  predicate Signs(ck: Check, key: Hash32, message: Bytes, sig: Bytes) {
    ck.crypto.blake224(key) == ck.poolId && ck.crypto.decodes(key) && ck.crypto.verifies(key, message, sig)
  }

  /** `None` for a malformed witness, otherwise whether it authorizes. */
  function WitnessVerdict(ck: Check, it: Item): Option<bool>
    requires Valid(it)
  {
    if ck.scheme == 0 then
      match WitnessOf(it)
      case None => None
      case Some((key, sig)) => Some(Signs(ck, key, ck.preimage, sig))
    else if !it.Map? || !AllOk(CoseOk, it.flat) then None
    else
      TableOk(CoseOk, it.flat);
      var t := Table(it.flat);
      if UInt(1) !in t || UInt(2) !in t then Some(false) else
      var s := Sign1Of(t[UInt(2)]).value;
      Some(s.payload == ck.preimage
           && Signs(ck, CoseKeyOf(t[UInt(1)]).value, SigStructure(s.protectedRaw, s.payloadRaw), s.sig))
  }

  /** One witness at `pos`: whether it authorizes, and the position after it. */
  function OneWitness(ck: Check, buf: Bytes, pos: nat): Result<(bool, nat), Error> {
    if ck.scheme == 0 then
      var ((key, sig), end) :- WitnessSpec(buf, pos);
      Ok((Signs(ck, key, ck.preimage, sig), end))
    else CoseSpec(ck, buf, pos)
  }

  /** The witness loops: stop at the first authorizing witness, fail at the first malformed one. */
  function AnyWitness(ck: Check, buf: Bytes, pos: nat, count: nat): Result<bool, Error>
    decreases count
  {
    if count == 0 then Ok(false) else
    var (yes, p) :- OneWitness(ck, buf, pos);
    if yes then Ok(true) else AnyWitness(ck, buf, p, count - 1)
  }

  /** `witness_authorizes_ed25519` (method 0) and `witness_authorizes_cose` (method 2). */
  function AuthorizesSpec(ck: Check, ws: Bytes): Result<bool, Error> {
    var (count, p) :- ReadTyped(ws, 0, 4).MapErr(BadRegistration);
    AnyWitness(ck, ws, p, count)
  }

  ghost predicate Authorized(ck: Check, ws: seq<Item>)
    requires ValidAll(ws)
  {
    exists i :: 0 <= i < |ws| && WitnessVerdict(ck, ws[i]) == Some(true)
                && forall j :: 0 <= j < i ==> WitnessVerdict(ck, ws[j]).Some?
  }

  // ---------- the two public entry points ----------

  /** `parse_registration`: the identity fields, no witness check. */
  function ParseRegistration(c: Crypto, bytes: Bytes): Result<Registration, Error> {
    var (p, _, _) :- ParseAllSpec(bytes);
    Ok(Registration(p.poolId, c.blake224(p.calidusKey), p.nonce))
  }

  /** `verify_registration`. */
  function VerifyRegistration(c: Crypto, bytes: Bytes): Result<Registration, Error> {
    var (p, payload, ws) :- ParseAllSpec(bytes);
    if p.scheme != 0 && p.scheme != 2 then Err(UnsupportedValidationMethod) else
    var authorized :- AuthorizesSpec(Check(c, p.poolId, c.blake256(payload), p.scheme), ws);
    if !authorized then Err(WitnessInvalid)
    else Ok(Registration(p.poolId, c.blake224(p.calidusKey), p.nonce))
  }

  lemma VerifiedIsParsed(c: Crypto, bytes: Bytes)
    requires VerifyRegistration(c, bytes).Ok?
    ensures ParseRegistration(c, bytes) == VerifyRegistration(c, bytes)
  {
  }
}
