/** Input normalisation: the trie accepts a Python `int` or `bytes` and turns
    it into a value of the universe [0, 2^w) before any trie logic runs. */
module Input {
  import opened Bits

  type Byte = b: int | 0 <= b < 256

  /** The two argument types the trie accepts (any other type is a TypeError). */
  datatype Value = Int(i: int) | Bytes(bs: seq<Byte>)

  /** The exceptions the trie raises. */
  datatype Error = ValueError | KeyError | AttributeError

  datatype Result<+T> = Ok(value: T) | Err(error: Error)

  /** Python's `int.bit_length()` for a non-negative integer. */
  function BitLength(n: nat): nat
  {
    if n == 0 then 0 else 1 + BitLength(n / 2)
  }

  /** The bit-length test is exactly the range test `n < 2^w`. */
  lemma {:induction false} BitLengthBound(n: nat, w: nat)
    ensures BitLength(n) <= w <==> n < Pow2(w)
  {
    if n == 0 {
    } else if w == 0 {
    } else {
      BitLengthBound(n / 2, w - 1);
      assert n / 2 < Pow2(w - 1) <==> n < 2 * Pow2(w - 1);
    }
  }

  /** Big-endian reading of a byte string. */
  function BigEndian(bs: seq<Byte>): nat
  {
    if bs == [] then 0 else BigEndian(bs[..|bs| - 1]) * 256 + bs[|bs| - 1]
  }

  /** The `len` low-order bytes of `n`, most significant first: the inverse of BigEndian. */
  function ToBytes(n: nat, len: nat): (r: seq<Byte>)
    ensures |r| == len
  {
    if len == 0 then [] else ToBytes(n / 256, len - 1) + [n % 256]
  }

  lemma {:induction false} BigEndianBound(bs: seq<Byte>)
    ensures BigEndian(bs) < Pow2(8 * |bs|)
  {
    if bs != [] {
      var init := bs[..|bs| - 1];
      BigEndianBound(init);
      assert Pow2(8 * |bs|) == 256 * Pow2(8 * |init|) by {
        Pow2Add(8 * |init|, 8);
      }
      assert BigEndian(bs) <= (Pow2(8 * |init|) - 1) * 256 + 255;
    }
  }

  lemma {:induction false} Pow2Add(a: nat, b: nat)
    ensures Pow2(a + b) == Pow2(a) * Pow2(b)
  {
    if b > 0 {
      Pow2Add(a, b - 1);
    }
  }

  /** Encoding then decoding gives the value back when it fits in `len` bytes. */
  lemma {:induction false} BigEndianToBytes(n: nat, len: nat)
    requires n < Pow2(8 * len)
    ensures BigEndian(ToBytes(n, len)) == n
  {
    if len > 0 {
      assert Pow2(8 * len) == Pow2(8 * (len - 1)) * 256 by { Pow2Add(8 * (len - 1), 8); }
      assert n / 256 < Pow2(8 * (len - 1));
      BigEndianToBytes(n / 256, len - 1);
      var r := ToBytes(n, len);
      assert r[..|r| - 1] == ToBytes(n / 256, len - 1);
    }
  }

  /** Decoding then encoding at the same length gives the bytes back. */
  lemma {:induction false} ToBytesBigEndian(bs: seq<Byte>)
    ensures ToBytes(BigEndian(bs), |bs|) == bs
  {
    if bs != [] {
      var init := bs[..|bs| - 1];
      ToBytesBigEndian(init);
      var n := BigEndian(bs);
      assert n / 256 == BigEndian(init) && n % 256 == bs[|bs| - 1];
      assert bs == init + [bs[|bs| - 1]];
    }
  }

  /** The value `_to_int` produces, or the error it raises. */
  function Normalize(x: Value, w: nat): Result<int>
  {
    match x
    case Int(i) =>
      if i < 0 || BitLength(i) > w then Err(ValueError) else Ok(i)
    case Bytes(bs) =>
      if |bs| * 8 > w then Err(ValueError) else Ok(BigEndian(bs))
  }

  /** What `_to_int` accepts and returns, stated without reference to its code. */
  lemma NormalizeMeaning(x: Value, w: nat)
    ensures x.Int? ==> (Normalize(x, w).Ok? <==> 0 <= x.i < Pow2(w))
    ensures x.Int? && Normalize(x, w).Ok? ==> Normalize(x, w).value == x.i
    ensures x.Bytes? ==> (Normalize(x, w).Ok? <==> 8 * |x.bs| <= w)
    ensures x.Bytes? && Normalize(x, w).Ok? ==> Normalize(x, w).value == BigEndian(x.bs)
    ensures Normalize(x, w).Err? ==> Normalize(x, w).error == ValueError
    ensures Normalize(x, w).Ok? ==> 0 <= Normalize(x, w).value < Pow2(w)
  {
    match x
    case Int(i) =>
      if i >= 0 {
        BitLengthBound(i, w);
      }
    case Bytes(bs) =>
      BigEndianBound(bs);
      if 8 * |bs| <= w {
        Pow2Monotone(8 * |bs|, w);
      }
  }

  /** `_to_int`: validates an int, or folds a byte string big-endian. */
  method ToInt(x: Value, w: nat) returns (r: Result<int>)
    ensures r == Normalize(x, w)
    ensures r.Ok? ==> 0 <= r.value < Pow2(w)
  {
    NormalizeMeaning(x, w);
    match x {
      case Int(i) =>
        if i < 0 || BitLength(i) > w {
          return Err(ValueError);
        }
        return Ok(i);
      case Bytes(bs) =>
        if |bs| * 8 > w {
          return Err(ValueError);
        }
        var result: int := 0;
        var k := 0;
        while k < |bs|
          invariant 0 <= k <= |bs|
          invariant result == BigEndian(bs[..k])
        {
          assert bs[..k + 1][..k] == bs[..k];
          // `(result << 8) | b` is `result * 256 + b` because 0 <= b < 256
          result := result * 256 + bs[k];
          k := k + 1;
        }
        assert bs[..k] == bs;
        return Ok(result);
    }
  }
}
