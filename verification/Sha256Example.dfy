/**
 The one-block example of FIPS 180-2, appendix B.1: the three characters `abc`. The definition,
 worked through word by word and round by round, gives the digest printed there.
 */
module Sha256Example {
  import Byte8
  import opened Sha256

  /** The text `abc`, the byte 0x80, zeros, and a length of twenty-four bits. */
  predicate IsMessage(m: Block) {
    m[0] == 0x61626380 && m[15] == 24 && forall i :: 1 <= i < 15 ==> m[i] == 0
  }

  // ----------------------------------------------------------- the schedule

  predicate Says(m: Block, t: nat, w: Word) {
    t < 64 && W(m, t) == w
  }

  lemma Next(m: Block, t: nat, w2: Word, w7: Word, w15: Word, w16: Word, w: Word)
    requires 16 <= t < 64 && Extended(w2, w7, w15, w16) == w
    requires Says(m, t - 2, w2) && Says(m, t - 7, w7) && Says(m, t - 15, w15) && Says(m, t - 16, w16)
    ensures Says(m, t, w)
  {
  }

  /** Words `t` to `t + 7` of the message schedule. */
  function WordsFrom(m: Block, t: nat): Vars
    requires t <= 56
  {
    Vars(W(m, t), W(m, t + 1), W(m, t + 2), W(m, t + 3), W(m, t + 4), W(m, t + 5), W(m, t + 6), W(m, t + 7))
  }

  lemma Schedule(m: Block)
    requires IsMessage(m)
    ensures WordsFrom(m, 0) == Vars(0x61626380, 0x00000000, 0x00000000, 0x00000000, 0x00000000, 0x00000000, 0x00000000, 0x00000000)
    ensures WordsFrom(m, 8) == Vars(0x00000000, 0x00000000, 0x00000000, 0x00000000, 0x00000000, 0x00000000, 0x00000000, 0x00000018)
    ensures WordsFrom(m, 16) == Vars(0x61626380, 0x000f0000, 0x7da86405, 0x600003c6, 0x3e9d7b78, 0x0183fc00, 0x12dcbfdb, 0xe2e2c38e)
    ensures WordsFrom(m, 24) == Vars(0xc8215c1a, 0xb73679a2, 0xe5bc3909, 0x32663c5b, 0x9d209d67, 0xec8726cb, 0x702138a4, 0xd3b7973b)
    ensures WordsFrom(m, 32) == Vars(0x93f5997f, 0x3b68ba73, 0xaff4ffc1, 0xf10a5c62, 0x0a8b3996, 0x72af830a, 0x9409e33e, 0x24641522)
  {
    Next(m, 16, 0x00000000, 0x00000000, 0x00000000, 0x61626380, 0x61626380);
    Next(m, 17, 0x00000018, 0x00000000, 0x00000000, 0x00000000, 0x000f0000);
    Next(m, 18, 0x61626380, 0x00000000, 0x00000000, 0x00000000, 0x7da86405);
    Next(m, 19, 0x000f0000, 0x00000000, 0x00000000, 0x00000000, 0x600003c6);
    Next(m, 20, 0x7da86405, 0x00000000, 0x00000000, 0x00000000, 0x3e9d7b78);
    Next(m, 21, 0x600003c6, 0x00000000, 0x00000000, 0x00000000, 0x0183fc00);
    Next(m, 22, 0x3e9d7b78, 0x00000018, 0x00000000, 0x00000000, 0x12dcbfdb);
    Next(m, 23, 0x0183fc00, 0x61626380, 0x00000000, 0x00000000, 0xe2e2c38e);
    Next(m, 24, 0x12dcbfdb, 0x000f0000, 0x00000000, 0x00000000, 0xc8215c1a);
    Next(m, 25, 0xe2e2c38e, 0x7da86405, 0x00000000, 0x00000000, 0xb73679a2);
    Next(m, 26, 0xc8215c1a, 0x600003c6, 0x00000000, 0x00000000, 0xe5bc3909);
    Next(m, 27, 0xb73679a2, 0x3e9d7b78, 0x00000000, 0x00000000, 0x32663c5b);
    Next(m, 28, 0xe5bc3909, 0x0183fc00, 0x00000000, 0x00000000, 0x9d209d67);
    Next(m, 29, 0x32663c5b, 0x12dcbfdb, 0x00000000, 0x00000000, 0xec8726cb);
    Next(m, 30, 0x9d209d67, 0xe2e2c38e, 0x00000018, 0x00000000, 0x702138a4);
    Next(m, 31, 0xec8726cb, 0xc8215c1a, 0x61626380, 0x00000018, 0xd3b7973b);
    Next(m, 32, 0x702138a4, 0xb73679a2, 0x000f0000, 0x61626380, 0x93f5997f);
    Next(m, 33, 0xd3b7973b, 0xe5bc3909, 0x7da86405, 0x000f0000, 0x3b68ba73);
    Next(m, 34, 0x93f5997f, 0x32663c5b, 0x600003c6, 0x7da86405, 0xaff4ffc1);
    Next(m, 35, 0x3b68ba73, 0x9d209d67, 0x3e9d7b78, 0x600003c6, 0xf10a5c62);
    Next(m, 36, 0xaff4ffc1, 0xec8726cb, 0x0183fc00, 0x3e9d7b78, 0x0a8b3996);
    Next(m, 37, 0xf10a5c62, 0x702138a4, 0x12dcbfdb, 0x0183fc00, 0x72af830a);
    Next(m, 38, 0x0a8b3996, 0xd3b7973b, 0xe2e2c38e, 0x12dcbfdb, 0x9409e33e);
    Next(m, 39, 0x72af830a, 0x93f5997f, 0xc8215c1a, 0xe2e2c38e, 0x24641522);
  }

  lemma ScheduleEnd(m: Block)
    requires IsMessage(m)
    ensures WordsFrom(m, 40) == Vars(0x9f47bf94, 0xf0a64f5a, 0x3e246a79, 0x27333ba3, 0x0c4763f2, 0x840abf27, 0x7a290d5d, 0x065c43da)
    ensures WordsFrom(m, 48) == Vars(0xfb3e89cb, 0xcc7617db, 0xb9e66c34, 0xa9993667, 0x84badedd, 0xc21462bc, 0x1487472c, 0xb20f7a99)
    ensures WordsFrom(m, 56) == Vars(0xef57b9cd, 0xebe6b238, 0x9fe3095e, 0x78bc8d4b, 0xa43fcf15, 0x668b2ff8, 0xeeaba2cc, 0x12b1edeb)
  {
    Schedule(m);
    Next(m, 40, 0x9409e33e, 0x3b68ba73, 0xb73679a2, 0xc8215c1a, 0x9f47bf94);
    Next(m, 41, 0x24641522, 0xaff4ffc1, 0xe5bc3909, 0xb73679a2, 0xf0a64f5a);
    Next(m, 42, 0x9f47bf94, 0xf10a5c62, 0x32663c5b, 0xe5bc3909, 0x3e246a79);
    Next(m, 43, 0xf0a64f5a, 0x0a8b3996, 0x9d209d67, 0x32663c5b, 0x27333ba3);
    Next(m, 44, 0x3e246a79, 0x72af830a, 0xec8726cb, 0x9d209d67, 0x0c4763f2);
    Next(m, 45, 0x27333ba3, 0x9409e33e, 0x702138a4, 0xec8726cb, 0x840abf27);
    Next(m, 46, 0x0c4763f2, 0x24641522, 0xd3b7973b, 0x702138a4, 0x7a290d5d);
    Next(m, 47, 0x840abf27, 0x9f47bf94, 0x93f5997f, 0xd3b7973b, 0x065c43da);
    Next(m, 48, 0x7a290d5d, 0xf0a64f5a, 0x3b68ba73, 0x93f5997f, 0xfb3e89cb);
    Next(m, 49, 0x065c43da, 0x3e246a79, 0xaff4ffc1, 0x3b68ba73, 0xcc7617db);
    Next(m, 50, 0xfb3e89cb, 0x27333ba3, 0xf10a5c62, 0xaff4ffc1, 0xb9e66c34);
    Next(m, 51, 0xcc7617db, 0x0c4763f2, 0x0a8b3996, 0xf10a5c62, 0xa9993667);
    Next(m, 52, 0xb9e66c34, 0x840abf27, 0x72af830a, 0x0a8b3996, 0x84badedd);
    Next(m, 53, 0xa9993667, 0x7a290d5d, 0x9409e33e, 0x72af830a, 0xc21462bc);
    Next(m, 54, 0x84badedd, 0x065c43da, 0x24641522, 0x9409e33e, 0x1487472c);
    Next(m, 55, 0xc21462bc, 0xfb3e89cb, 0x9f47bf94, 0x24641522, 0xb20f7a99);
    Next(m, 56, 0x1487472c, 0xcc7617db, 0xf0a64f5a, 0x9f47bf94, 0xef57b9cd);
    Next(m, 57, 0xb20f7a99, 0xb9e66c34, 0x3e246a79, 0xf0a64f5a, 0xebe6b238);
    Next(m, 58, 0xef57b9cd, 0xa9993667, 0x27333ba3, 0x3e246a79, 0x9fe3095e);
    Next(m, 59, 0xebe6b238, 0x84badedd, 0x0c4763f2, 0x27333ba3, 0x78bc8d4b);
    Next(m, 60, 0x9fe3095e, 0xc21462bc, 0x840abf27, 0x0c4763f2, 0xa43fcf15);
    Next(m, 61, 0x78bc8d4b, 0x1487472c, 0x7a290d5d, 0x840abf27, 0x668b2ff8);
    Next(m, 62, 0xa43fcf15, 0xb20f7a99, 0x065c43da, 0x7a290d5d, 0xeeaba2cc);
    Next(m, 63, 0x668b2ff8, 0xef57b9cd, 0xfb3e89cb, 0x065c43da, 0x12b1edeb);
  }

  // ------------------------------------------------------------- the rounds

  predicate Keyed(key: Key, t: nat, k: Word) {
    t < 64 && key[t] == k
  }

  /** The eight variables after `t` rounds. */
  predicate Reaches(key: Key, m: Block, t: nat, v: Vars) {
    t <= 64 && Rounds(key[..t], Words(m)[..t], Start(InitialHash())) == v
  }

  function Shifted(v: Vars, a: Word, e: Word): Vars {
    Vars(a, v.a, v.b, v.c, e, v.e, v.f, v.g)
  }

  predicate IsKey(key: Key) {
    key == Constants()
  }

  predicate Bits(bits: seq<nat>, t: nat, k: Word) {
    t < |bits| && k as nat == bits[t]
  }

  lemma Back(k: Word, n: nat)
    requires k as nat == n
    ensures n < 0x1_0000_0000 && n as Word == k
  {
  }

  /** A constant of the list `bits`, which `before` comes ahead of. */
  lemma KeyIs(key: Key, before: seq<nat>, bits: seq<nat>, after: seq<nat>, t: nat, k: Word)
    requires IsKey(key) && before + bits + after == K_0 + K_16 + K_32 + K_48 && Bits(bits, t, k)
    ensures Keyed(key, |before| + t, k)
  {
    ConstantsFit();
    assert (before + bits + after)[|before| + t] == bits[t];
    Back(k, bits[t]);
  }

  ghost predicate Part(key: Key, from: nat, bits: seq<nat>) {
    forall t: nat, k: Word :: Bits(bits, t, k) ==> Keyed(key, from + t, k)
  }

  lemma Turn(key: Key, m: Block, t: nat, v: Vars, k: Word, w: Word, a: Word, e: Word) returns (next: Vars)
    requires Reaches(key, m, t, v) && Keyed(key, t, k) && Says(m, t, w)
    requires Round(v, k, w) == Shifted(v, a, e)
    ensures next == Shifted(v, a, e) && Reaches(key, m, t + 1, next)
  {
    next := Shifted(v, a, e);
    assert key[..t + 1][..t] == key[..t] && Words(m)[..t + 1][..t] == Words(m)[..t];
  }

  function KeysFrom(key: Key, t: nat): Vars
    requires t <= 56
  {
    Vars(key[t], key[t + 1], key[t + 2], key[t + 3], key[t + 4], key[t + 5], key[t + 6], key[t + 7])
  }

  lemma Parts(key: Key)
    requires IsKey(key)
    ensures Part(key, 0, K_0) && Part(key, 16, K_16) && Part(key, 32, K_32) && Part(key, 48, K_48)
  {
    assert |K_0| == 16 && |K_0 + K_16| == 32 && |K_0 + K_16 + K_32| == 48;
    PartIs(key, [], K_0, K_16 + K_32 + K_48);
    PartIs(key, K_0, K_16, K_32 + K_48);
    PartIs(key, K_0 + K_16, K_32, K_48);
    PartIs(key, K_0 + K_16 + K_32, K_48, []);
  }

  lemma PartIs(key: Key, before: seq<nat>, bits: seq<nat>, after: seq<nat>)
    requires IsKey(key) && before + bits + after == K_0 + K_16 + K_32 + K_48
    ensures Part(key, |before|, bits)
  {
    forall t: nat, k: Word | Bits(bits, t, k)
      ensures Keyed(key, |before| + t, k)
    {
      KeyIs(key, before, bits, after, t, k);
    }
  }

  lemma Keys0(key: Key, bits: seq<nat>)
    requires Part(key, 0, bits) && bits == K_0
    ensures KeysFrom(key, 0) == Vars(0x428a2f98, 0x71374491, 0xb5c0fbcf, 0xe9b5dba5, 0x3956c25b, 0x59f111f1, 0x923f82a4, 0xab1c5ed5)
    ensures KeysFrom(key, 8) == Vars(0xd807aa98, 0x12835b01, 0x243185be, 0x550c7dc3, 0x72be5d74, 0x80deb1fe, 0x9bdc06a7, 0xc19bf174)
  {
    assert Bits(bits, 0, 0x428a2f98) && Bits(bits, 1, 0x71374491) && Bits(bits, 2, 0xb5c0fbcf) && Bits(bits, 3, 0xe9b5dba5);
    assert Bits(bits, 4, 0x3956c25b) && Bits(bits, 5, 0x59f111f1) && Bits(bits, 6, 0x923f82a4) && Bits(bits, 7, 0xab1c5ed5);
    assert Bits(bits, 8, 0xd807aa98) && Bits(bits, 9, 0x12835b01) && Bits(bits, 10, 0x243185be) && Bits(bits, 11, 0x550c7dc3);
    assert Bits(bits, 12, 0x72be5d74) && Bits(bits, 13, 0x80deb1fe) && Bits(bits, 14, 0x9bdc06a7) && Bits(bits, 15, 0xc19bf174);
  }

  lemma Keys16(key: Key, bits: seq<nat>)
    requires Part(key, 16, bits) && bits == K_16
    ensures KeysFrom(key, 16) == Vars(0xe49b69c1, 0xefbe4786, 0x0fc19dc6, 0x240ca1cc, 0x2de92c6f, 0x4a7484aa, 0x5cb0a9dc, 0x76f988da)
    ensures KeysFrom(key, 24) == Vars(0x983e5152, 0xa831c66d, 0xb00327c8, 0xbf597fc7, 0xc6e00bf3, 0xd5a79147, 0x06ca6351, 0x14292967)
  {
    assert Bits(bits, 0, 0xe49b69c1) && Bits(bits, 1, 0xefbe4786) && Bits(bits, 2, 0x0fc19dc6) && Bits(bits, 3, 0x240ca1cc);
    assert Bits(bits, 4, 0x2de92c6f) && Bits(bits, 5, 0x4a7484aa) && Bits(bits, 6, 0x5cb0a9dc) && Bits(bits, 7, 0x76f988da);
    assert Bits(bits, 8, 0x983e5152) && Bits(bits, 9, 0xa831c66d) && Bits(bits, 10, 0xb00327c8) && Bits(bits, 11, 0xbf597fc7);
    assert Bits(bits, 12, 0xc6e00bf3) && Bits(bits, 13, 0xd5a79147) && Bits(bits, 14, 0x06ca6351) && Bits(bits, 15, 0x14292967);
  }

  lemma Keys32(key: Key, bits: seq<nat>)
    requires Part(key, 32, bits) && bits == K_32
    ensures KeysFrom(key, 32) == Vars(0x27b70a85, 0x2e1b2138, 0x4d2c6dfc, 0x53380d13, 0x650a7354, 0x766a0abb, 0x81c2c92e, 0x92722c85)
    ensures KeysFrom(key, 40) == Vars(0xa2bfe8a1, 0xa81a664b, 0xc24b8b70, 0xc76c51a3, 0xd192e819, 0xd6990624, 0xf40e3585, 0x106aa070)
  {
    assert Bits(bits, 0, 0x27b70a85) && Bits(bits, 1, 0x2e1b2138) && Bits(bits, 2, 0x4d2c6dfc) && Bits(bits, 3, 0x53380d13);
    assert Bits(bits, 4, 0x650a7354) && Bits(bits, 5, 0x766a0abb) && Bits(bits, 6, 0x81c2c92e) && Bits(bits, 7, 0x92722c85);
    assert Bits(bits, 8, 0xa2bfe8a1) && Bits(bits, 9, 0xa81a664b) && Bits(bits, 10, 0xc24b8b70) && Bits(bits, 11, 0xc76c51a3);
    assert Bits(bits, 12, 0xd192e819) && Bits(bits, 13, 0xd6990624) && Bits(bits, 14, 0xf40e3585) && Bits(bits, 15, 0x106aa070);
  }

  lemma Keys48(key: Key, bits: seq<nat>)
    requires Part(key, 48, bits) && bits == K_48
    ensures KeysFrom(key, 48) == Vars(0x19a4c116, 0x1e376c08, 0x2748774c, 0x34b0bcb5, 0x391c0cb3, 0x4ed8aa4a, 0x5b9cca4f, 0x682e6ff3)
    ensures KeysFrom(key, 56) == Vars(0x748f82ee, 0x78a5636f, 0x84c87814, 0x8cc70208, 0x90befffa, 0xa4506ceb, 0xbef9a3f7, 0xc67178f2)
  {
    assert Bits(bits, 0, 0x19a4c116) && Bits(bits, 1, 0x1e376c08) && Bits(bits, 2, 0x2748774c) && Bits(bits, 3, 0x34b0bcb5);
    assert Bits(bits, 4, 0x391c0cb3) && Bits(bits, 5, 0x4ed8aa4a) && Bits(bits, 6, 0x5b9cca4f) && Bits(bits, 7, 0x682e6ff3);
    assert Bits(bits, 8, 0x748f82ee) && Bits(bits, 9, 0x78a5636f) && Bits(bits, 10, 0x84c87814) && Bits(bits, 11, 0x8cc70208);
    assert Bits(bits, 12, 0x90befffa) && Bits(bits, 13, 0xa4506ceb) && Bits(bits, 14, 0xbef9a3f7) && Bits(bits, 15, 0xc67178f2);
  }

  lemma Rounds0(key: Key, m: Block)
    ensures Reaches(key, m, 0, Vars(0x6a09e667, 0xbb67ae85, 0x3c6ef372, 0xa54ff53a, 0x510e527f, 0x9b05688c, 0x1f83d9ab, 0x5be0cd19))
  {
    H0Words();
  }

  lemma H0Words()
    ensures InitialHash() == [0x6a09e667, 0xbb67ae85, 0x3c6ef372, 0xa54ff53a, 0x510e527f, 0x9b05688c, 0x1f83d9ab, 0x5be0cd19]
  {
    ConstantsFit();
    Back(0x6a09e667, 0x6a09e667);
    Back(0xbb67ae85, 0xbb67ae85);
    Back(0x3c6ef372, 0x3c6ef372);
    Back(0xa54ff53a, 0xa54ff53a);
    Back(0x510e527f, 0x510e527f);
    Back(0x9b05688c, 0x9b05688c);
    Back(0x1f83d9ab, 0x1f83d9ab);
    Back(0x5be0cd19, 0x5be0cd19);
  }

  lemma Rounds8(key: Key, m: Block)
    requires IsKey(key) && IsMessage(m)
    ensures Reaches(key, m, 8, Vars(0x85a07b5f, 0xe5030380, 0x2b4209f5, 0x04409a6a, 0x0c657a79, 0x9b27a401, 0x714260ad, 0x43ada245))
  {
    Rounds0(key, m);
    Parts(key);
    Keys0(key, K_0);
    Schedule(m);
    var v := Vars(0x6a09e667, 0xbb67ae85, 0x3c6ef372, 0xa54ff53a, 0x510e527f, 0x9b05688c, 0x1f83d9ab, 0x5be0cd19);
    v := Turn(key, m, 0, v, 0x428a2f98, 0x61626380, 0x5d6aebcd, 0xfa2a4622);
    v := Turn(key, m, 1, v, 0x71374491, 0x00000000, 0x5a6ad9ad, 0x78ce7989);
    v := Turn(key, m, 2, v, 0xb5c0fbcf, 0x00000000, 0xc8c347a7, 0xf92939eb);
    v := Turn(key, m, 3, v, 0xe9b5dba5, 0x00000000, 0xd550f666, 0x24e00850);
    v := Turn(key, m, 4, v, 0x3956c25b, 0x00000000, 0x04409a6a, 0x43ada245);
    v := Turn(key, m, 5, v, 0x59f111f1, 0x00000000, 0x2b4209f5, 0x714260ad);
    v := Turn(key, m, 6, v, 0x923f82a4, 0x00000000, 0xe5030380, 0x9b27a401);
    v := Turn(key, m, 7, v, 0xab1c5ed5, 0x00000000, 0x85a07b5f, 0x0c657a79);
  }

  lemma Rounds16(key: Key, m: Block)
    requires IsKey(key) && IsMessage(m)
    ensures Reaches(key, m, 16, Vars(0xb0fa238e, 0xc0645fde, 0xd932eb16, 0x87912990, 0x07590dcd, 0x0b92f20c, 0x745a48de, 0x1e578218))
  {
    Rounds8(key, m);
    Parts(key);
    Keys0(key, K_0);
    Schedule(m);
    var v := Vars(0x85a07b5f, 0xe5030380, 0x2b4209f5, 0x04409a6a, 0x0c657a79, 0x9b27a401, 0x714260ad, 0x43ada245);
    v := Turn(key, m, 8, v, 0xd807aa98, 0x00000000, 0x8e04ecb9, 0x32ca2d8c);
    v := Turn(key, m, 9, v, 0x12835b01, 0x00000000, 0x8c87346b, 0x1cc92596);
    v := Turn(key, m, 10, v, 0x243185be, 0x00000000, 0x4798a3f4, 0x436b23e8);
    v := Turn(key, m, 11, v, 0x550c7dc3, 0x00000000, 0xf71fc5a9, 0x816fd6e9);
    v := Turn(key, m, 12, v, 0x72be5d74, 0x00000000, 0x87912990, 0x1e578218);
    v := Turn(key, m, 13, v, 0x80deb1fe, 0x00000000, 0xd932eb16, 0x745a48de);
    v := Turn(key, m, 14, v, 0x9bdc06a7, 0x00000000, 0xc0645fde, 0x0b92f20c);
    v := Turn(key, m, 15, v, 0xc19bf174, 0x00000018, 0xb0fa238e, 0x07590dcd);
  }

  lemma Rounds24(key: Key, m: Block)
    requires IsKey(key) && IsMessage(m)
    ensures Reaches(key, m, 24, Vars(0xc5d53d8d, 0xa7a3623f, 0xc2606d6d, 0x9dc68b63, 0xaa47c347, 0x49f5114a, 0xe1257970, 0x8ada8930))
  {
    Rounds16(key, m);
    Parts(key);
    Keys16(key, K_16);
    Schedule(m);
    var v := Vars(0xb0fa238e, 0xc0645fde, 0xd932eb16, 0x87912990, 0x07590dcd, 0x0b92f20c, 0x745a48de, 0x1e578218);
    v := Turn(key, m, 16, v, 0xe49b69c1, 0x61626380, 0x21da9a9b, 0x8034229c);
    v := Turn(key, m, 17, v, 0xefbe4786, 0x000f0000, 0xc2fbd9d1, 0x846ee454);
    v := Turn(key, m, 18, v, 0x0fc19dc6, 0x7da86405, 0xfe777bbf, 0xcc899961);
    v := Turn(key, m, 19, v, 0x240ca1cc, 0x600003c6, 0xe1f20c33, 0xb0638179);
    v := Turn(key, m, 20, v, 0x2de92c6f, 0x3e9d7b78, 0x9dc68b63, 0x8ada8930);
    v := Turn(key, m, 21, v, 0x4a7484aa, 0x0183fc00, 0xc2606d6d, 0xe1257970);
    v := Turn(key, m, 22, v, 0x5cb0a9dc, 0x12dcbfdb, 0xa7a3623f, 0x49f5114a);
    v := Turn(key, m, 23, v, 0x76f988da, 0xe2e2c38e, 0xc5d53d8d, 0xaa47c347);
  }

  lemma Rounds32(key: Key, m: Block)
    requires IsKey(key) && IsMessage(m)
    ensures Reaches(key, m, 32, Vars(0x73b33bf5, 0xea992a22, 0xa0060b30, 0x363482c9, 0xba591112, 0x0109ab3a, 0xade79437, 0x6112a3b7))
  {
    Rounds24(key, m);
    Parts(key);
    Keys16(key, K_16);
    Schedule(m);
    var v := Vars(0xc5d53d8d, 0xa7a3623f, 0xc2606d6d, 0x9dc68b63, 0xaa47c347, 0x49f5114a, 0xe1257970, 0x8ada8930);
    v := Turn(key, m, 24, v, 0x983e5152, 0xc8215c1a, 0x1c2c2838, 0x2823ef91);
    v := Turn(key, m, 25, v, 0xa831c66d, 0xb73679a2, 0xcde8037d, 0x14383d8e);
    v := Turn(key, m, 26, v, 0xb00327c8, 0xe5bc3909, 0xb62ec4bc, 0xc74c6516);
    v := Turn(key, m, 27, v, 0xbf597fc7, 0x32663c5b, 0x77d37528, 0xedffbff8);
    v := Turn(key, m, 28, v, 0xc6e00bf3, 0x9d209d67, 0x363482c9, 0x6112a3b7);
    v := Turn(key, m, 29, v, 0xd5a79147, 0xec8726cb, 0xa0060b30, 0xade79437);
    v := Turn(key, m, 30, v, 0x06ca6351, 0x702138a4, 0xea992a22, 0x0109ab3a);
    v := Turn(key, m, 31, v, 0x14292967, 0xd3b7973b, 0x73b33bf5, 0xba591112);
  }

  lemma Rounds40(key: Key, m: Block)
    requires IsKey(key) && IsMessage(m)
    ensures Reaches(key, m, 40, Vars(0x79ea687a, 0x6dc57a8a, 0x34df1604, 0x41a65cb1, 0x1efbc0a0, 0xf0781bc8, 0xa507a53d, 0x0772a26b))
  {
    Rounds32(key, m);
    Parts(key);
    Keys32(key, K_32);
    Schedule(m);
    var v := Vars(0x73b33bf5, 0xea992a22, 0xa0060b30, 0x363482c9, 0xba591112, 0x0109ab3a, 0xade79437, 0x6112a3b7);
    v := Turn(key, m, 32, v, 0x27b70a85, 0x93f5997f, 0x98e12507, 0x9cd9f5f6);
    v := Turn(key, m, 33, v, 0x2e1b2138, 0x3b68ba73, 0xfe604df5, 0x59249dd3);
    v := Turn(key, m, 34, v, 0x4d2c6dfc, 0xaff4ffc1, 0xa9a7738c, 0x085f3833);
    v := Turn(key, m, 35, v, 0x53380d13, 0xf10a5c62, 0x65a0cfe4, 0xf4b002d6);
    v := Turn(key, m, 36, v, 0x650a7354, 0x0a8b3996, 0x41a65cb1, 0x0772a26b);
    v := Turn(key, m, 37, v, 0x766a0abb, 0x72af830a, 0x34df1604, 0xa507a53d);
    v := Turn(key, m, 38, v, 0x81c2c92e, 0x9409e33e, 0x6dc57a8a, 0xf0781bc8);
    v := Turn(key, m, 39, v, 0x92722c85, 0x24641522, 0x79ea687a, 0x1efbc0a0);
  }

  lemma Rounds48(key: Key, m: Block)
    requires IsKey(key) && IsMessage(m)
    ensures Reaches(key, m, 48, Vars(0x4172328d, 0xa14c14b0, 0x72ab4b91, 0x26628815, 0xfecf0bc6, 0xd57b94a9, 0xb7755da1, 0xa80f11f0))
  {
    Rounds40(key, m);
    Parts(key);
    Keys32(key, K_32);
    ScheduleEnd(m);
    var v := Vars(0x79ea687a, 0x6dc57a8a, 0x34df1604, 0x41a65cb1, 0x1efbc0a0, 0xf0781bc8, 0xa507a53d, 0x0772a26b);
    v := Turn(key, m, 40, v, 0xa2bfe8a1, 0x9f47bf94, 0xd6670766, 0x26352d63);
    v := Turn(key, m, 41, v, 0xa81a664b, 0xf0a64f5a, 0xdf46652f, 0x838b2711);
    v := Turn(key, m, 42, v, 0xc24b8b70, 0x3e246a79, 0x17aa0dfe, 0xdecd4715);
    v := Turn(key, m, 43, v, 0xc76c51a3, 0x27333ba3, 0x9d4baf93, 0xfda24c2e);
    v := Turn(key, m, 44, v, 0xd192e819, 0x0c4763f2, 0x26628815, 0xa80f11f0);
    v := Turn(key, m, 45, v, 0xd6990624, 0x840abf27, 0x72ab4b91, 0xb7755da1);
    v := Turn(key, m, 46, v, 0xf40e3585, 0x7a290d5d, 0xa14c14b0, 0xd57b94a9);
    v := Turn(key, m, 47, v, 0x106aa070, 0x065c43da, 0x4172328d, 0xfecf0bc6);
  }

  lemma Rounds56(key: Key, m: Block)
    requires IsKey(key) && IsMessage(m)
    ensures Reaches(key, m, 56, Vars(0x38cc9913, 0x3ec45cdb, 0xf5702fdb, 0x101fd28f, 0x54cb266b, 0xe50e1b4f, 0x9f4787c3, 0x529e7d00))
  {
    Rounds48(key, m);
    Parts(key);
    Keys48(key, K_48);
    ScheduleEnd(m);
    var v := Vars(0x4172328d, 0xa14c14b0, 0x72ab4b91, 0x26628815, 0xfecf0bc6, 0xd57b94a9, 0xb7755da1, 0xa80f11f0);
    v := Turn(key, m, 48, v, 0x19a4c116, 0xfb3e89cb, 0x05757ceb, 0xbd714038);
    v := Turn(key, m, 49, v, 0x1e376c08, 0xcc7617db, 0xf11bfaa8, 0x6e5c390c);
    v := Turn(key, m, 50, v, 0x2748774c, 0xb9e66c34, 0x7a0508a1, 0x52f1ccf7);
    v := Turn(key, m, 51, v, 0x34b0bcb5, 0xa9993667, 0x886e7a22, 0x49231c1e);
    v := Turn(key, m, 52, v, 0x391c0cb3, 0x84badedd, 0x101fd28f, 0x529e7d00);
    v := Turn(key, m, 53, v, 0x4ed8aa4a, 0xc21462bc, 0xf5702fdb, 0x9f4787c3);
    v := Turn(key, m, 54, v, 0x5b9cca4f, 0x1487472c, 0x3ec45cdb, 0xe50e1b4f);
    v := Turn(key, m, 55, v, 0x682e6ff3, 0xb20f7a99, 0x38cc9913, 0x54cb266b);
  }

  lemma Rounds64(key: Key, m: Block)
    requires IsKey(key) && IsMessage(m)
    ensures Reaches(key, m, 64, Vars(0x506e3058, 0xd39a2165, 0x04d24d6c, 0xb85e2ce9, 0x5ef50f24, 0xfb121210, 0x948d25b6, 0x961f4894))
  {
    Rounds56(key, m);
    Parts(key);
    Keys48(key, K_48);
    ScheduleEnd(m);
    var v := Vars(0x38cc9913, 0x3ec45cdb, 0xf5702fdb, 0x101fd28f, 0x54cb266b, 0xe50e1b4f, 0x9f4787c3, 0x529e7d00);
    v := Turn(key, m, 56, v, 0x748f82ee, 0xef57b9cd, 0xfcd1887b, 0x9b5e906c);
    v := Turn(key, m, 57, v, 0x78a5636f, 0xebe6b238, 0xc062d46f, 0x7e44008e);
    v := Turn(key, m, 58, v, 0x84c87814, 0x9fe3095e, 0xffb70472, 0x6d83bfc6);
    v := Turn(key, m, 59, v, 0x8cc70208, 0x78bc8d4b, 0xb6ae8fff, 0xb21bad3d);
    v := Turn(key, m, 60, v, 0x90befffa, 0xa43fcf15, 0xb85e2ce9, 0x961f4894);
    v := Turn(key, m, 61, v, 0xa4506ceb, 0x668b2ff8, 0x04d24d6c, 0x948d25b6);
    v := Turn(key, m, 62, v, 0xbef9a3f7, 0xeeaba2cc, 0xd39a2165, 0xfb121210);
    v := Turn(key, m, 63, v, 0xc67178f2, 0x12b1edeb, 0x506e3058, 0x5ef50f24);
  }

  // ------------------------------------------------------------- the digest

  lemma {:induction false} NoDigits(k: nat)
    ensures BigEndian(0, k) == Zeros(k)
  {
    if k > 0 {
      NoDigits(k - 1);
      Byte8.ByteBack(0);
    }
  }

  lemma LengthOf24()
    ensures LengthField(3) == Zeros(7) + [24]
  {
    NoDigits(7);
    assert 24 as Byte == 24 by {
      Byte8.ByteBack(24);
    }
  }

  lemma WordsOfText()
    ensures WordOf(0x61, 0x62, 0x63, 0x80) == 0x61626380 && WordOf(0, 0, 0, 0) == 0 && WordOf(0, 0, 0, 24) == 24
  {
  }

  predicate Padded(padded: seq<Byte>) {
    && |padded| == 64 && padded[..4] == [0x61, 0x62, 0x63, 0x80]
    && padded[63] == 24 && forall i :: 4 <= i < 63 ==> padded[i] == 0
  }

  predicate IsText(text: seq<Byte>) {
    text == [0x61, 0x62, 0x63]
  }

  lemma PadsTo(text: seq<Byte>, gap: seq<Byte>, none: seq<Byte>, field: seq<Byte>)
    requires IsText(text) && gap == Zeros(52) && none == Zeros(7) && field == none + [24]
    ensures Padded(text + [0x80] + gap + field)
  {
    var head := text + [0x80];
    assert |head| == 4 && (head + gap + field)[..4] == head;
  }

  lemma TextPads(text: seq<Byte>)
    requires IsText(text)
    ensures Padded(Pad(text))
  {
    var n := |text|;
    assert n == 3 && Fill(n) == 52;
    LengthOf24();
    PadsTo(text, Zeros(Fill(n)), Zeros(7), LengthField(n));
  }

  lemma PaddedIsMessage(padded: seq<Byte>)
    requires Padded(padded)
    ensures IsMessage(BlockAt(padded, 0))
  {
    WordsOfText();
  }

  /** Word `i` stands at bytes `4 * i` to `4 * i + 3`, the most significant first. */
  lemma {:induction false} FlatAt(h: seq<Word>, i: nat)
    requires i < |h|
    ensures var bytes := Flat(h); WordOf(bytes[4 * i], bytes[4 * i + 1], bytes[4 * i + 2], bytes[4 * i + 3]) == h[i]
  {
    var n := |h| - 1;
    if i < n {
      FlatAt(h[..n], i);
    } else {
      BytesMakeWord(h[n]);
    }
  }

  lemma TextCompresses(key: Key, m: Block)
    requires IsKey(key) && IsMessage(m)
    ensures Compress(key, InitialHash(), m) == [
      0xba7816bf, 0x8f01cfea, 0x414140de, 0x5dae2223,
      0xb00361a3, 0x96177a9c, 0xb410ff61, 0xf20015ad]
  {
    Rounds64(key, m);
    assert key[..64] == key && Words(m)[..64] == Words(m);
    H0Words();
  }

  /** What the appendix prints for `abc`. */
  lemma Published(text: seq<Byte>)
    requires IsText(text)
    ensures Sum256(text) == Flat([
      0xba7816bf, 0x8f01cfea, 0x414140de, 0x5dae2223,
      0xb00361a3, 0x96177a9c, 0xb410ff61, 0xf20015ad])
  {
    var key, h0 := Constants(), InitialHash();
    var padded := Pad(text);
    TextPads(text);
    PaddedIsMessage(padded);
    var m := BlockAt(padded, 0);
    TextCompresses(key, m);
    assert Blocks(key, h0, padded, 1) == Compress(key, Blocks(key, h0, padded, 0), m);
  }
}
