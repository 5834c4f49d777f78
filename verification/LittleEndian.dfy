/** Little-endian integers of a fixed width. */
module LittleEndian {
  import opened Base

  function Pow256(w: nat): (p: nat)
    ensures p > 0
  {
    if w == 0 then 1 else 256 * Pow256(w - 1)
  }

  function Put(v: nat, w: nat): (b: Bytes)
    ensures |b| == w
  {
    if w == 0 then [] else [(v % 256) as byte] + Put(v / 256, w - 1)
  }

  function Get(b: Bytes): (v: nat)
    ensures v < Pow256(|b|)
  {
    if b == [] then 0 else b[0] as nat + 256 * Get(b[1..])
  }

  lemma {:induction false} GetPut(v: nat, w: nat)
    requires v < Pow256(w)
    ensures Get(Put(v, w)) == v
  {
    if w > 0 {
      GetPut(v / 256, w - 1);
      assert Put(v, w)[1..] == Put(v / 256, w - 1);
    }
  }

  lemma {:induction false} PutGet(b: Bytes)
    ensures Put(Get(b), |b|) == b
  {
    if b != [] {
      PutGet(b[1..]);
    }
  }

  lemma Widths()
    ensures Pow256(1) == 0x100 && Pow256(2) == 0x1_0000 && Pow256(4) == 0x1_0000_0000
  {
    assert Pow256(2) == 256 * Pow256(1) && Pow256(3) == 256 * Pow256(2) && Pow256(4) == 256 * Pow256(3);
  }
}
