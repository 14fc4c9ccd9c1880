/** Memory as a sequence of bytes, with 64-bit little-endian word accesses at any offset. */
module ByteStore {
  import opened Common
  import opened Words

  function Pow256(n: nat): (p: nat)
    ensures p > 0
  {
    if n == 0 then 1 else 256 * Pow256(n - 1)
  }

  function Encode(v: nat, n: nat): (bs: seq<byte>)
    ensures |bs| == n
    decreases v, n
  {
    if n == 0 then [] else [v % 256] + Encode(v / 256, n - 1)
  }

  function Decode(bs: seq<byte>): nat {
    if bs == [] then 0 else bs[0] + 256 * Decode(bs[1..])
  }

  lemma {:induction false} DecodeEncode(v: nat, n: nat)
    requires v < Pow256(n)
    ensures Decode(Encode(v, n)) == v
    decreases n
  {
    if n > 0 {
      DecodeEncode(v / 256, n - 1);
      assert Encode(v, n)[1..] == Encode(v / 256, n - 1);
    }
  }

  lemma {:induction false} EncodeDecode(bs: seq<byte>)
    ensures Decode(bs) < Pow256(|bs|)
    ensures Encode(Decode(bs), |bs|) == bs
    decreases |bs|
  {
    if bs != [] {
      EncodeDecode(bs[1..]);
      assert Decode(bs) % 256 == bs[0] && Decode(bs) / 256 == Decode(bs[1..]);
      assert bs == [bs[0]] + bs[1..];
    }
  }

  lemma WordIsEightBytes()
    ensures Pow256(8) == WORD
  {
  }

  function Load(m: seq<byte>, a: nat): nat
    requires a + 8 <= |m|
  {
    Decode(m[a..a + 8])
  }

  /** `m` with the bytes from `a` on replaced by `data`. */
  function Splice(m: seq<byte>, a: nat, data: seq<byte>): (m': seq<byte>)
    requires a + |data| <= |m|
    ensures |m'| == |m|
  {
    m[..a] + data + m[a + |data|..]
  }

  function Store(m: seq<byte>, a: nat, v: nat): (m': seq<byte>)
    requires a + 8 <= |m|
    ensures |m'| == |m|
  {
    Splice(m, a, Encode(v, 8))
  }

  predicate Apart(a: int, alen: nat, b: int, blen: nat) {
    a + alen <= b || b + blen <= a
  }

  lemma LoadBound(m: seq<byte>, a: nat)
    requires a + 8 <= |m|
    ensures Load(m, a) < WORD
  {
    WordIsEightBytes();
    EncodeDecode(m[a..a + 8]);
  }

  lemma SpliceSlice(m: seq<byte>, a: nat, data: seq<byte>, b: nat, n: nat)
    requires a + |data| <= |m| && b + n <= |m| && Apart(a, |data|, b, n)
    ensures Splice(m, a, data)[b..b + n] == m[b..b + n]
  {
    var after := Splice(m, a, data);
    assert forall k | b <= k < b + n :: after[k] == m[k];
    assert after[b..b + n] == m[b..b + n];
  }

  lemma SpliceSame(m: seq<byte>, a: nat, data: seq<byte>)
    requires a + |data| <= |m|
    ensures Splice(m, a, data)[a..a + |data|] == data
  {
  }

  lemma LoadStore(m: seq<byte>, a: nat, v: nat)
    requires a + 8 <= |m| && v < WORD
    ensures Load(Store(m, a, v), a) == v
  {
    hide Splice, Encode, Decode;
    WordIsEightBytes();
    SpliceSame(m, a, Encode(v, 8));
    DecodeEncode(v, 8);
  }

  /** Replacing bytes leaves every word and every slice elsewhere alone. */
  lemma SpliceFrame(m: seq<byte>, a: nat, data: seq<byte>)
    requires a + |data| <= |m|
    ensures forall b: nat {:trigger Load(Splice(m, a, data), b)} ::
              b + 8 <= |m| && Apart(a, |data|, b, 8) ==> Load(Splice(m, a, data), b) == Load(m, b)
    ensures forall b: nat, c: nat {:trigger Splice(m, a, data)[b..c]} ::
              b <= c <= |m| && Apart(a, |data|, b, c - b) ==> Splice(m, a, data)[b..c] == m[b..c]
  {
    forall b: nat, c: nat | b <= c <= |m| && Apart(a, |data|, b, c - b)
      ensures Splice(m, a, data)[b..c] == m[b..c]
    {
      SpliceSlice(m, a, data, b, c - b);
    }
  }

  /** Storing a word makes it readable and leaves every word and every slice elsewhere alone. */
  lemma StoreFrame(m: seq<byte>, a: nat, v: nat)
    requires a + 8 <= |m| && v < WORD
    ensures Load(Store(m, a, v), a) == v
    ensures forall b: nat {:trigger Load(Store(m, a, v), b)} ::
              b + 8 <= |m| && Apart(a, 8, b, 8) ==> Load(Store(m, a, v), b) == Load(m, b)
    ensures forall b: nat, c: nat {:trigger Store(m, a, v)[b..c]} ::
              b <= c <= |m| && Apart(a, 8, b, c - b) ==> Store(m, a, v)[b..c] == m[b..c]
  {
    hide Splice, Encode, Decode, Load;
    LoadStore(m, a, v);
    SpliceFrame(m, a, Encode(v, 8));
  }

  /** Storing back what a word already holds changes nothing. */
  lemma StoreLoaded(m: seq<byte>, a: nat)
    requires a + 8 <= |m|
    ensures Store(m, a, Load(m, a)) == m
  {
    hide Encode, Decode;
    EncodeDecode(m[a..a + 8]);
    assert m == m[..a] + m[a..a + 8] + m[a + 8..];
  }

  lemma StoreTwice(m: seq<byte>, a: nat, v: nat, w: nat)
    requires a + 8 <= |m|
    ensures Store(Store(m, a, v), a, w) == Store(m, a, w)
  {
    hide Encode;
  }

  lemma StoresCommute(m: seq<byte>, a: nat, v: nat, b: nat, w: nat)
    requires a + 8 <= |m| && b + 8 <= |m| && Apart(a, 8, b, 8)
    ensures Store(Store(m, a, v), b, w) == Store(Store(m, b, w), a, v)
  {
    hide Encode;
  }

  /** `*(size_t*)(mem + a) = v`. */
  method StoreWord(mem: array<byte>, a: nat, v: nat)
    requires a + 8 <= mem.Length
    modifies mem
    ensures mem[..] == Store(old(mem[..]), a, v)
  {
    var bytes := Encode(v, 8);
    forall i | 0 <= i < 8 {
      mem[a + i] := bytes[i];
    }
  }

  /** `*(size_t*)(mem + a)`. */
  method LoadWord(mem: array<byte>, a: nat) returns (v: nat)
    requires a + 8 <= mem.Length
    ensures v == Load(mem[..], a)
  {
    v := Decode(mem[a..a + 8]);
    assert mem[..][a..a + 8] == mem[a..a + 8];
  }
}
