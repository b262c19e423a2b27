/**
  Little-endian machine words.  Both the boot image (`u64::to_le_bytes`) and
  the in-memory structures of the kernel (page-table entries, free-list nodes)
  are sequences of 8-byte little-endian words.
 */
module Words {
  datatype Option<+T> = None | Some(value: T)

  type Byte = b: nat | b < 256

  const TWO64: nat := 0x1_0000_0000_0000_0000

  function Pow256(k: nat): (r: nat)
    ensures r > 0
  {
    if k == 0 then 1 else 256 * Pow256(k - 1)
  }

  /** The `k` least significant bytes of `w`, least significant first. */
  function ToLe(w: nat, k: nat): (s: seq<Byte>)
    ensures |s| == k
  {
    if k == 0 then [] else [w % 256] + ToLe(w / 256, k - 1)
  }

  function FromLe(s: seq<Byte>): (w: nat)
    ensures w < Pow256(|s|)
  {
    if s == [] then 0 else s[0] + 256 * FromLe(s[1..])
  }

  lemma {:induction false} FromTo(w: nat, k: nat)
    requires w < Pow256(k)
    ensures FromLe(ToLe(w, k)) == w
  {
    if k > 0 {
      FromTo(w / 256, k - 1);
      assert ToLe(w, k)[1..] == ToLe(w / 256, k - 1);
    }
  }

  lemma Carry(x: nat, h: nat, f: nat, b: nat, p: nat)
    requires x == h + 256 * (f + b * p)
    ensures x == (h + 256 * f) + b * (256 * p)
  {
  }

  /** The byte at position `i` has weight 256^i: little-endian. */
  lemma {:induction false} Weights(s: seq<Byte>, b: Byte)
    ensures FromLe(s + [b]) == FromLe(s) + b * Pow256(|s|)
  {
    if s == [] {
      assert [] + [b] == [b] && [b][1..] == [];
      assert FromLe([b]) == b + 256 * FromLe([b][1..]);
    } else {
      var rest := s[1..];
      assert (s + [b])[1..] == rest + [b] && (s + [b])[0] == s[0];
      var x, p := FromLe(s + [b]), Pow256(|rest|);
      assert x == s[0] + 256 * FromLe(rest + [b]);
      assert FromLe(s) == s[0] + 256 * FromLe(rest) && Pow256(|s|) == 256 * p;
      hide FromLe, Pow256;
      Weights(rest, b);
      Carry(x, s[0], FromLe(rest), b, p);
    }
  }

  lemma {:induction false} Pow256Of8()
    ensures Pow256(8) == TWO64
  {
    assert Pow256(4) == 0x1_0000_0000;
    assert Pow256(5) == 256 * Pow256(4);
    assert Pow256(6) == 256 * Pow256(5);
    assert Pow256(7) == 256 * Pow256(6);
  }

  /** A `u64` survives being written to memory and read back. */
  lemma WordRoundTrip(w: nat)
    requires w < TWO64
    ensures FromLe(ToLe(w, 8)) == w
  {
    Pow256Of8();
    FromTo(w, 8);
  }
}
