/** A SCALE decoder of the commitment pre-image, written from the format, and proved to invert the encoder. */
module Scale {
  import opened Prelude
  import opened Vault
  import opened Commitment

  // ---------- little-endian integers ----------

  /** The least significant byte comes first. */
  function FromLittleEndian(b: Bytes): nat {
    if b == [] then 0 else b[0] + 256 * FromLittleEndian(b[1..])
  }

  lemma {:induction false} FromLittleEndianBound(b: Bytes)
    ensures FromLittleEndian(b) < Scale256(|b|)
  {
    if b != [] {
      FromLittleEndianBound(b[1..]);
    }
  }

  lemma {:induction false} LittleEndianReads(v: nat, w: nat)
    requires v < Scale256(w)
    ensures FromLittleEndian(LittleEndian(v, w)) == v
  {
    if w > 0 {
      LittleEndianReads(v / 256, w - 1);
      assert LittleEndian(v, w)[1..] == LittleEndian(v / 256, w - 1);
    }
  }

  lemma {:induction false} LittleEndianWrites(b: Bytes)
    ensures LittleEndian(FromLittleEndian(b), |b|) == b
  {
    if b != [] {
      LittleEndianWrites(b[1..]);
      var v, rest := FromLittleEndian(b), FromLittleEndian(b[1..]);
      assert v % 256 == b[0] && v / 256 == rest;
      assert b == [b[0]] + b[1..];
    }
  }

  /** A little-endian integer of `w` bytes and what follows it. */
  function DecodeInt(b: Bytes, w: nat): (r: Option<(nat, Bytes)>)
    ensures r.Some? ==> r.value.0 < Scale256(w)
  {
    if |b| < w then None else
    FromLittleEndianBound(b[..w]);
    Some((FromLittleEndian(b[..w]), b[w..]))
  }

  lemma DecodesInt(b: Bytes, w: nat, v: nat, rest: Bytes)
    ensures DecodeInt(b, w) == Some((v, rest)) <==> v < Scale256(w) && b == LittleEndian(v, w) + rest
  {
    hide Scale256;
    if DecodeInt(b, w) == Some((v, rest)) {
      LittleEndianWrites(b[..w]);
      FromLittleEndianBound(b[..w]);
      assert b == b[..w] + b[w..];
    }
    if v < Scale256(w) && b == LittleEndian(v, w) + rest {
      LittleEndianReads(v, w);
      assert b[..w] == LittleEndian(v, w) && b[w..] == rest;
    }
  }

  // ---------- the compact length ----------

  /** The low two bits of the first byte say how long it is; a longer form than needed is refused. */
  function DecodeCompact(b: Bytes): (r: Option<(nat, Bytes)>)
    ensures r.Some? ==> r.value.0 < U32_LIMIT
  {
    if b == [] then None
    else if b[0] % 4 == 0 then Some((b[0] / 4, b[1..]))
    else if b[0] % 4 == 1 then
      var r := DecodeInt(b, 2);
      if r.None? || r.value.0 / 4 < 0x40 then None else ScaleWidths(); Some((r.value.0 / 4, r.value.1))
    else if b[0] % 4 == 2 then
      var r := DecodeInt(b, 4);
      if r.None? || r.value.0 / 4 < 0x4000 then None else ScaleWidths(); Some((r.value.0 / 4, r.value.1))
    else if b[0] != 3 then None
    else
      var r := DecodeInt(b[1..], 4);
      if r.None? || r.value.0 < 0x4000_0000 then None else ScaleWidths(); r
  }

  lemma CompactDecodes(n: nat, rest: Bytes)
    requires n < U32_LIMIT
    ensures DecodeCompact(Compact(n) + rest) == Some((n, rest))
  {
    hide LittleEndian, Scale256, DecodeInt;
    var b := Compact(n) + rest;
    CompactForm(n);
    ScaleWidths();
    assert b[0] == Compact(n)[0];
    if n < 0x40 {
      assert b[1..] == rest;
    } else if n < 0x4000 {
      DecodesInt(b, 2, 4 * n + 1, rest);
    } else if n < 0x4000_0000 {
      DecodesInt(b, 4, 4 * n + 2, rest);
    } else {
      assert b[1..] == LittleEndian(n, 4) + rest;
      DecodesInt(b[1..], 4, n, rest);
    }
  }

  lemma CompactSound(b: Bytes)
    requires DecodeCompact(b).Some?
    ensures var (n, rest) := DecodeCompact(b).value; b == Compact(n) + rest
  {
    hide LittleEndian, Scale256, DecodeInt;
    ScaleWidths();
    if b[0] % 4 == 0 {
      assert b == [b[0]] + b[1..];
    } else if b[0] % 4 == 3 {
      var (v, rest) := DecodeInt(b[1..], 4).value;
      DecodesInt(b[1..], 4, v, rest);
      assert b == [3] + b[1..];
    } else {
      TaggedSound(b, if b[0] % 4 == 1 then 2 else 4);
    }
  }

  lemma TaggedSound(b: Bytes, w: nat)
    requires b != [] && w > 0 && DecodeInt(b, w).Some?
    ensures var (v, rest) := DecodeInt(b, w).value;
            v == 4 * (v / 4) + b[0] % 4 && v < Scale256(w) && b == LittleEndian(v, w) + rest
  {
    hide LittleEndian, Scale256, DecodeInt;
    var (v, rest) := DecodeInt(b, w).value;
    DecodesInt(b, w, v, rest);
    LittleEndianFirst(v, w);
    LowBits(v / 4, v % 4);
  }

  // ---------- one candidate ----------

  /** `0x00` for none, `0x01` and eight bytes for some. */
  function DecodeSpent(b: Bytes): Option<(Option<u64>, Bytes)> {
    if b == [] then None
    else if b[0] == 0 then Some((None, b[1..]))
    else if b[0] != 1 then None
    else
      var r := DecodeInt(b[1..], 8);
      if r.None? then None else ScaleWidths(); Some((Some(r.value.0), r.value.1))
  }

  lemma DecodesSpent(b: Bytes, s: Option<u64>, rest: Bytes)
    ensures DecodeSpent(b) == Some((s, rest)) <==> b == EncodeSpent(s) + rest
  {
    hide LittleEndian, Scale256, DecodeInt;
    ScaleWidths();
    if b == EncodeSpent(s) + rest {
      assert b[0] == EncodeSpent(s)[0];
      if s.Some? {
        assert b[1..] == LittleEndian(s.value, 8) + rest;
        DecodesInt(b[1..], 8, s.value, rest);
      } else {
        assert b[1..] == rest;
      }
    }
    if DecodeSpent(b) == Some((s, rest)) {
      assert b == [b[0]] + b[1..];
      if s.Some? {
        DecodesInt(b[1..], 8, s.value, rest);
        assert b == [1] + LittleEndian(s.value, 8) + rest;
      }
    }
  }

  /** 32 beacon bytes, 8 of creation slot, the optional spend, 16 of coins. */
  function DecodeCandidate(b: Bytes): (r: Option<(Candidate, Bytes)>)
    ensures r.Some? ==> |r.value.1| < |b|
  {
    if |b| < 32 then None else
    var created := DecodeInt(b[32..], 8);
    if created.None? then None else
    var spent := DecodeSpent(created.value.1);
    if spent.None? then None else
    var coins := DecodeInt(spent.value.1, 16);
    if coins.None? then None else
    ScaleWidths();
    Some((Candidate(b[..32], created.value.0, spent.value.0, coins.value.0), coins.value.1))
  }

  lemma DecodesCandidate(b: Bytes, c: Candidate, rest: Bytes)
    ensures DecodeCandidate(b) == Some((c, rest)) <==> c.coins < U128_LIMIT && b == EncodeCandidate(c) + rest
  {
    hide LittleEndian, Scale256, DecodeInt, DecodeSpent, EncodeSpent;
    ScaleWidths();
    var coins := LittleEndian(c.coins, 16) + rest;
    var spent := EncodeSpent(c.spent) + coins;
    var created := LittleEndian(c.created, 8) + spent;
    assert EncodeCandidate(c) + rest == c.beacon + created;
    if |b| >= 32 {
      assert b == b[..32] + b[32..];
      if b == c.beacon + created {
        assert b[..32] == c.beacon && b[32..] == created;
        DecodesInt(created, 8, c.created, spent);
        DecodesSpent(spent, c.spent, coins);
        DecodesInt(coins, 16, c.coins, rest);
      }
      if DecodeCandidate(b) == Some((c, rest)) {
        var after := DecodeInt(b[32..], 8).value.1;
        var last := DecodeSpent(after).value.1;
        DecodesInt(b[32..], 8, c.created, after);
        DecodesSpent(after, c.spent, last);
        DecodesInt(last, 16, c.coins, rest);
      }
    }
  }

  // ---------- the whole list ----------

  function DecodeMany(b: Bytes, n: nat): Option<(seq<Candidate>, Bytes)> {
    if n == 0 then Some(([], b)) else
    var first := DecodeCandidate(b);
    if first.None? then None else
    var more := DecodeMany(first.value.1, n - 1);
    if more.None? then None else Some(([first.value.0] + more.value.0, more.value.1))
  }

  /** The compact length, that many candidates, and nothing after. */
  function Decode(b: Bytes): Option<seq<Candidate>> {
    var n := DecodeCompact(b);
    if n.None? then None else
    var all := DecodeMany(n.value.1, n.value.0);
    if all.Some? && all.value.1 == [] then Some(all.value.0) else None
  }

  predicate Fits(cs: seq<Candidate>) {
    forall i :: 0 <= i < |cs| ==> cs[i].coins < U128_LIMIT
  }

  lemma {:induction false} ManyDecode(cs: seq<Candidate>, rest: Bytes)
    requires Fits(cs)
    ensures DecodeMany(EncodeAll(cs) + rest, |cs|) == Some((cs, rest))
  {
    hide DecodeCandidate, EncodeCandidate;
    var b := EncodeAll(cs) + rest;
    if cs == [] {
      assert b == rest;
    } else {
      var tail := EncodeAll(cs[1..]) + rest;
      assert b == EncodeCandidate(cs[0]) + tail;
      DecodesCandidate(b, cs[0], tail);
      ManyDecode(cs[1..], rest);
      assert cs == [cs[0]] + cs[1..];
    }
  }

  lemma {:induction false} ManySound(b: Bytes, n: nat)
    requires DecodeMany(b, n).Some?
    ensures var (cs, rest) := DecodeMany(b, n).value; |cs| == n && Fits(cs) && b == EncodeAll(cs) + rest
    decreases n
  {
    hide DecodeCandidate, EncodeCandidate;
    var (cs, rest) := DecodeMany(b, n).value;
    if n == 0 {
      assert b == [] + rest;
    } else {
      var (c, tail) := DecodeCandidate(b).value;
      DecodesCandidate(b, c, tail);
      ManySound(tail, n - 1);
      assert cs[1..] == DecodeMany(tail, n - 1).value.0;
      assert EncodeCandidate(c) + (EncodeAll(cs[1..]) + rest) == EncodeCandidate(c) + EncodeAll(cs[1..]) + rest;
    }
  }

  /** The decoder accepts exactly the pre-images, and returns the tuples each was made of. */
  lemma DecodeInverts(b: Bytes, cs: seq<Candidate>)
    ensures Decode(b) == Some(cs) <==> Encodable(cs) && b == CandidateBytes(cs)
  {
    hide DecodeCompact, DecodeMany, Compact, EncodeAll;
    if Decode(b) == Some(cs) {
      CompactSound(b);
      var (n, after) := DecodeCompact(b).value;
      ManySound(after, n);
      assert EncodeAll(cs) + [] == EncodeAll(cs);
    }
    if Encodable(cs) && b == CandidateBytes(cs) {
      CompactDecodes(|cs|, EncodeAll(cs));
      ManyDecode(cs, []);
      assert EncodeAll(cs) + [] == EncodeAll(cs);
    }
  }
}
