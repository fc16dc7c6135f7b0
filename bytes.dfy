/**
 Bytes and the two byte orders of Go's encoding/binary package, as the
 parser uses them: `binary.LittleEndian.UintN(buf)` and
 `binary.BigEndian.UintN(buf)` read the first N bytes of `buf` as an unsigned
 number, least significant byte first or most significant byte first.
 */
module Bytes {

  type Byte = b: int | 0 <= b < 256

  /** 256^n: the number of distinct values an n-byte unsigned integer has. */
  function Pow256(n: nat): (r: nat)
    ensures r >= 1
  {
    if n == 0 then 1 else 256 * Pow256(n - 1)
  }

  /** Unsigned value of `s`, the first byte being the least significant. */
  function LittleEndian(s: seq<Byte>): (r: nat)
    ensures r < Pow256(|s|)
  {
    if s == [] then 0
    else
      var rest := LittleEndian(s[1..]);
      assert 256 * rest <= 256 * (Pow256(|s| - 1) - 1);
      s[0] + 256 * rest
  }

  /** Unsigned value of `s`, the first byte being the most significant. */
  function BigEndian(s: seq<Byte>): (r: nat)
    ensures r < Pow256(|s|)
  {
    if s == [] then 0
    else
      var front := BigEndian(s[..|s| - 1]);
      assert 256 * front <= 256 * (Pow256(|s| - 1) - 1);
      256 * front + s[|s| - 1]
  }

  /** The n-byte little-endian representation of v (v is reduced modulo 256^n). */
  function ToLittleEndian(v: nat, n: nat): (s: seq<Byte>)
    ensures |s| == n
  {
    if n == 0 then [] else [v % 256] + ToLittleEndian(v / 256, n - 1)
  }

  /** The n-byte big-endian representation of v (v is reduced modulo 256^n). */
  function ToBigEndian(v: nat, n: nat): (s: seq<Byte>)
    ensures |s| == n
  {
    if n == 0 then [] else ToBigEndian(v / 256, n - 1) + [v % 256]
  }

  function Reversed(s: seq<Byte>): (r: seq<Byte>)
    ensures |r| == |s|
  {
    if s == [] then [] else Reversed(s[1..]) + [s[0]]
  }

  /** A byte below a multiple of 256 is its remainder, the multiple its quotient. */
  lemma ByteShift(b: Byte, r: nat)
    ensures (b + 256 * r) % 256 == b
    ensures (b + 256 * r) / 256 == r
  {
  }

  /** 256 (a p + b) + c, regrouped around a's weight 256 p. */
  lemma Regroup(a: int, p: int, b: int, c: int)
    ensures 256 * (a * p + b) + c == a * (256 * p) + (256 * b + c)
  {
  }

  /** v is its quotient by 256, shifted, plus its last byte. */
  lemma DivMod(v: nat)
    ensures 256 * (v / 256) + v % 256 == v
  {
  }

  /** Appending a byte to a big-endian number shifts it one byte up. */
  lemma BigEndianAppend(s: seq<Byte>, b: Byte)
    ensures BigEndian(s + [b]) == 256 * BigEndian(s) + b
  {
    assert (s + [b])[..|s|] == s;
  }

  lemma DivBound(v: nat, n: nat)
    requires n > 0 && v < Pow256(n)
    ensures v / 256 < Pow256(n - 1)
  {
  }

  /** Writing v little-endian into n bytes and reading it back gives v. */
  lemma {:induction false} LittleEndianRoundTrip(v: nat, n: nat)
    requires v < Pow256(n)
    ensures LittleEndian(ToLittleEndian(v, n)) == v
  {
    if n > 0 {
      DivBound(v, n);
      LittleEndianRoundTrip(v / 256, n - 1);
      assert ToLittleEndian(v, n)[1..] == ToLittleEndian(v / 256, n - 1);
    }
  }

  /** Writing v big-endian into n bytes and reading it back gives v. */
  lemma {:induction false} BigEndianRoundTrip(v: nat, n: nat)
    requires v < Pow256(n)
    ensures BigEndian(ToBigEndian(v, n)) == v
  {
    if n > 0 {
      DivBound(v, n);
      BigEndianRoundTrip(v / 256, n - 1);
      BigEndianAppend(ToBigEndian(v / 256, n - 1), v % 256);
      DivMod(v);
    }
  }

  /** Every byte run is the little-endian representation of its value. */
  lemma {:induction false} LittleEndianOfBytes(s: seq<Byte>)
    ensures ToLittleEndian(LittleEndian(s), |s|) == s
  {
    if s != [] {
      ByteShift(s[0], LittleEndian(s[1..]));
      LittleEndianOfBytes(s[1..]);
    }
  }

  /** Every byte run is the big-endian representation of its value. */
  lemma {:induction false} BigEndianOfBytes(s: seq<Byte>)
    ensures ToBigEndian(BigEndian(s), |s|) == s
  {
    if s != [] {
      ByteShift(s[|s| - 1], BigEndian(s[..|s| - 1]));
      BigEndianOfBytes(s[..|s| - 1]);
    }
  }

  /** In little-endian order the first byte is the least significant one. */
  lemma LittleEndianFirstByteLeast(s: seq<Byte>)
    requires |s| > 0
    ensures LittleEndian(s) % 256 == s[0]
    ensures LittleEndian(s) / 256 == LittleEndian(s[1..])
  {
    ByteShift(s[0], LittleEndian(s[1..]));
  }

  /** In big-endian order the first byte is the most significant one: it is
      worth 256^(n-1), and the remaining bytes are read the same way. */
  lemma {:induction false} BigEndianFirstByteMost(s: seq<Byte>)
    requires |s| > 0
    ensures BigEndian(s) == s[0] * Pow256(|s| - 1) + BigEndian(s[1..])
  {
    if |s| > 1 {
      var front := s[..|s| - 1];
      BigEndianFirstByteMost(front);
      assert front[1..] == s[1..][..|s[1..]| - 1];
      assert front[0] == s[0];
      calc {
        BigEndian(s);
        256 * BigEndian(front) + s[|s| - 1];
        256 * (s[0] * Pow256(|s| - 2) + BigEndian(front[1..])) + s[|s| - 1];
        { Regroup(s[0], Pow256(|s| - 2), BigEndian(front[1..]), s[|s| - 1]); }
        s[0] * (256 * Pow256(|s| - 2)) + (256 * BigEndian(front[1..]) + s[|s| - 1]);
        s[0] * Pow256(|s| - 1) + BigEndian(s[1..]);
      }
    } else {
      assert s[1..] == [];
      assert s[..0] == [];
    }
  }

  /** Reading big-endian is reading the reversed bytes little-endian. */
  lemma {:induction false} BigEndianIsReversedLittleEndian(s: seq<Byte>)
    ensures BigEndian(s) == LittleEndian(Reversed(s))
  {
    if s != [] {
      var front := s[..|s| - 1];
      var r := Reversed(s);
      ReversedLast(s);
      assert r[0] == s[|s| - 1] && r[1..] == Reversed(front);
      BigEndianIsReversedLittleEndian(front);
    }
  }

  lemma {:induction false} ReversedLast(s: seq<Byte>)
    requires |s| > 0
    ensures Reversed(s) == [s[|s| - 1]] + Reversed(s[..|s| - 1])
  {
    if |s| > 1 {
      ReversedLast(s[1..]);
      assert s[1..][..|s[1..]| - 1] == s[..|s| - 1][1..];
      assert s[1..][|s[1..]| - 1] == s[|s| - 1];
      assert s[..|s| - 1][0] == s[0];
    } else {
      assert s[1..] == [];
      assert s[..0] == [];
    }
  }
}
