/**
 * The fill colour of a frame (ebpf/src/main.rs, inside `draw_flame_node`):
 * a 32-bit wrapping polynomial hash of the name's bytes, split into three
 * 8-bit channels, and the "bright" variant of each channel.
 */
module Colour {
  import opened Numeric

  datatype Rgb = Rgb(r: u8, g: u8, b: u8)

  function WrappingMul(a: u32, b: u32): u32
  {
    (a * b) % U32_LIMIT
  }

  function WrappingAdd(a: u32, b: u32): (r: u32)
    ensures a + b < U32_LIMIT ==> r == a + b
    ensures U32_LIMIT <= a + b ==> r == a + b - U32_LIMIT
  {
    (a + b) % U32_LIMIT
  }

  /**
   * The hash of a frame name: the left fold h := h * 31 + b over its bytes,
   * starting from 0 and wrapping at 2^32. The hash of a sequence is that step
   * applied to the hash of all but its last byte.
   */
  function NameHash(bytes: seq<byte>): (h: u32)
    ensures h == Poly(bytes) % U32_LIMIT
    decreases |bytes|
  {
    if bytes == [] then 0
    else
      var p, b := bytes[..|bytes| - 1], bytes[|bytes| - 1];
      assert bytes == p + [b];
      PolySnoc(p, b);
      ModStep(Poly(p), b, U32_LIMIT);
      WrappingAdd(WrappingMul(NameHash(p), 31), b)
  }

  function Pow31(k: nat): (p: nat)
    ensures p >= 1
  {
    if k == 0 then 1 else 31 * Pow31(k - 1)
  }

  /** Reference definition: the polynomial sum of bytes[i] * 31^(n-1-i), unreduced. */
  function Poly(bytes: seq<byte>): nat
    decreases |bytes|
  {
    if bytes == [] then 0 else bytes[0] * Pow31(|bytes| - 1) + Poly(bytes[1..])
  }

  /** `(hash >> 16) & 0xFF`, `(hash >> 8) & 0xFF`, `hash & 0xFF`. */
  function Channels(h: u32): (c: Rgb)
    ensures c.r * 0x10000 + c.g * 0x100 + c.b == h % 0x100_0000
  {
    ChannelsRecompose(h);
    Rgb((h / 0x10000) % 0x100, (h / 0x100) % 0x100, h % 0x100)
  }

  lemma ChannelsRecompose(h: nat)
    ensures ((h / 0x10000) % 0x100) * 0x10000 + ((h / 0x100) % 0x100) * 0x100 + h % 0x100 == h % 0x100_0000
  {
    var b, q1 := h % 0x100, h / 0x100;
    var g, q2 := q1 % 0x100, q1 / 0x100;
    assert h == q2 * 0x10000 + (g * 0x100 + b);
    DivModUnique(h, q2, g * 0x100 + b, 0x10000);
    var r, q3 := q2 % 0x100, q2 / 0x100;
    assert h == q3 * 0x100_0000 + (r * 0x10000 + g * 0x100 + b);
    DivModUnique(h, q3, r * 0x10000 + g * 0x100 + b, 0x100_0000);
  }

  /** The fill colour of a frame named `name`: the low 24 bits of the polynomial hash, as r, g, b. */
  function NameColour(name: seq<byte>): (c: Rgb)
    ensures c.r * 0x10000 + c.g * 0x100 + c.b == Poly(name) % 0x100_0000
  {
    ModMod(Poly(name), 0x100_0000, 0x100);
    Channels(NameHash(name))
  }

  /** `c / 2 + 128`: never overflows a byte and is always in the upper half. */
  function Bright(c: u8): (r: u8)
    ensures 128 <= r <= 255
    ensures 2 * (r - 128) <= c <= 2 * (r - 128) + 1
  {
    c / 2 + 128
  }

  /** The bright colour derived from `rgb` (computed, though never drawn, by the source). */
  function BrightColour(rgb: Rgb): (r: Rgb)
    ensures 128 <= r.r && 128 <= r.g && 128 <= r.b
  {
    Rgb(Bright(rgb.r), Bright(rgb.g), Bright(rgb.b))
  }

  // ---------------------------------------------------------------------
  // Modular arithmetic behind the fold

  lemma ModAddMultiple(x: int, k: int, m: int)
    requires m > 0
    ensures (x + k * m) % m == x % m
  {
    var q, r := x / m, x % m;
    assert x + k * m == (q + k) * m + r;
    DivModUnique(x + k * m, q + k, r, m);
  }

  lemma ModStep(a: int, b: int, m: int)
    requires m > 0
    ensures (((a % m) * 31) % m + b) % m == (a * 31 + b) % m
  {
    var y := (a % m) * 31;
    ModAddMultiple(y % m + b, y / m, m);
    assert y % m + b + (y / m) * m == y + b;
    ModAddMultiple(y + b, 31 * (a / m), m);
    assert y + b + 31 * (a / m) * m == a * 31 + b;
  }

  lemma {:induction false} PolySnoc(bytes: seq<byte>, b: byte)
    ensures Poly(bytes + [b]) == Poly(bytes) * 31 + b
    decreases |bytes|
  {
    if bytes == [] {
      assert Poly([b]) == b * Pow31(0) + Poly([]);
    } else {
      var s := bytes + [b];
      assert s[1..] == bytes[1..] + [b];
      PolySnoc(bytes[1..], b);
      calc {
        Poly(s);
        bytes[0] * Pow31(|bytes|) + Poly(bytes[1..] + [b]);
        bytes[0] * (31 * Pow31(|bytes| - 1)) + Poly(bytes[1..]) * 31 + b;
        { assert bytes[0] * (31 * Pow31(|bytes| - 1)) == (bytes[0] * Pow31(|bytes| - 1)) * 31; }
        (bytes[0] * Pow31(|bytes| - 1) + Poly(bytes[1..])) * 31 + b;
      }
    }
  }
}
