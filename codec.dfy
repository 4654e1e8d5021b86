/**
 * The numeric codec of both tools: two's complement at a field width, and
 * the little-endian 4-byte serialisation of a 32-bit word.
 */
module Codec {
  import opened Base
  import opened Arith

  type byte = x: int | 0 <= x < 256

  /**
   * assembler.py's convert_twos_compliment(string, n). The operand text has
   * already been read by int(text, 0): `parsed` is None when that raised,
   * in which case the source returns False (which its callers turn into 0).
   * Otherwise the result is the value reduced modulo 2^n.
   */
  function ToTwos(parsed: Option<int>, n: nat): (r: Option<nat>)
    ensures r.None? <==> parsed.None?
    ensures r.Some? ==> r.value < Pow2(n) && (parsed.value - r.value) % Pow2(n) == 0
  {
    match parsed
    case None => None
    case Some(v) =>
      var m := v % Pow2(n);
      assert v == (v / Pow2(n)) * Pow2(n) + m;
      assert v - m == (v / Pow2(n)) * Pow2(n);
      SplitLow(v / Pow2(n), 0, Pow2(n));
      Some(m)
  }

  /**
   * disassembler.py's convert_twos_compliment(bits): an n-bit field read as a
   * signed number (the top bit has weight -2^(n-1)).
   */
  function FromTwos(v: nat, n: nat): (r: int)
    requires n >= 1 && v < Pow2(n)
    ensures -(Pow2(n - 1) as int) <= r < Pow2(n - 1)
    ensures r >= 0 <==> v < Pow2(n - 1)
    ensures v - r == 0 || v - r == Pow2(n)
  {
    if v < Pow2(n - 1) then v else v - Pow2(n)
  }

  /** Two's complement at width n is undone by the signed reading, for every n-bit signed value. */
  lemma FromTwosOfToTwos(x: int, n: nat)
    requires n >= 1 && -(Pow2(n - 1) as int) <= x < Pow2(n - 1)
    ensures ToTwos(Some(x), n).Some?
    ensures FromTwos(ToTwos(Some(x), n).value, n) == x
  {
    var p := Pow2(n);
    if x >= 0 {
      SplitLow(0, x, p);
    } else {
      SplitLow(-1, x + p, p);
    }
  }

  /** ...and the signed reading of a field, wrapped again, gives back the field. */
  lemma ToTwosOfFromTwos(v: nat, n: nat)
    requires n >= 1 && v < Pow2(n)
    ensures ToTwos(Some(FromTwos(v, n)), n) == Some(v)
  {
    var p := Pow2(n);
    if v < Pow2(n - 1) {
      SplitLow(0, v, p);
    } else {
      SplitLow(-1, v, p);
    }
  }

  /** int.from_bytes(b, 'little'). */
  function FromBytes(b: seq<byte>): (v: nat)
    ensures v < Pow2(8 * |b|)
  {
    if |b| == 0 then 0
    else
      var rest := FromBytes(b[1..]);
      assert Pow2(8 * |b|) == 256 * Pow2(8 * (|b| - 1)) by {
        Pow2Add(8, 8 * (|b| - 1));
        Pow2Values();
      }
      b[0] + 256 * rest
  }

  /**
   * assembler.py's convert_to_bin: int(bits, 2).to_bytes(4, 'little'); a value
   * that needs more than 32 bits raises OverflowError.
   */
  function ToBytes(v: nat): (r: Result<seq<byte>>)
    ensures r.Ok? <==> v < Pow2(32)
    ensures r.Ok? ==> |r.value| == 4 && FromBytes(r.value) == v
    ensures r.Err? ==> r.error == OverflowError
  {
    Pow2Values();
    if v < 0x1_0000_0000 then
      var b := [v % 256, v / 0x100 % 256, v / 0x1_0000 % 256, v / 0x100_0000];
      assert FromBytes(b) == v by {
        assert FromBytes(b[3..]) == v / 0x100_0000;
        DivDiv(v, 0x100, 0x100);
        DivDiv(v, 0x1_0000, 0x100);
        assert FromBytes(b[2..]) == v / 0x1_0000;
        assert FromBytes(b[1..]) == v / 0x100;
      }
      Ok(b)
    else
      Err(OverflowError)
  }

  /** Four bytes read little-endian and serialised again are the same four bytes. */
  lemma ToBytesOfFromBytes(b: seq<byte>)
    requires |b| == 4
    ensures ToBytes(FromBytes(b)) == Ok(b)
  {
    Pow2Values();
    var v := FromBytes(b);
    var r := ToBytes(v);
    assert r.Ok?;
    var c := r.value;
    assert FromBytes(c) == v;
    BytesInjective(b, c);
  }

  lemma {:induction false} BytesInjective(b: seq<byte>, c: seq<byte>)
    requires |b| == |c| && FromBytes(b) == FromBytes(c)
    ensures b == c
  {
    if |b| > 0 {
      SplitLow(FromBytes(b[1..]), b[0], 256);
      SplitLow(FromBytes(c[1..]), c[0], 256);
      BytesInjective(b[1..], c[1..]);
    }
  }
}
