/** Little-endian word access to byte strings, as in ff.h. */
module Bytes {
  import opened Common

  type dword = d: int | 0 <= d < 0x1_0000_0000

  function LdWord(s: seq<byte>, i: nat): (r: nat)
    requires i + 2 <= |s|
    ensures r < 0x1_0000
  {
    s[i] as int + 0x100 * s[i + 1] as int
  }

  function LdDword(s: seq<byte>, i: nat): (r: nat)
    requires i + 4 <= |s|
    ensures r < 0x1_0000_0000
  {
    s[i] as int + 0x100 * s[i + 1] as int + 0x1_0000 * s[i + 2] as int + 0x100_0000 * s[i + 3] as int
  }

  /** v modulo m * 0x100, from its residue modulo m and the next base-256 digit. */
  lemma Digits(v: nat)
    ensures v % 0x100 + 0x100 * (v / 0x100 % 0x100) == v % 0x1_0000
    ensures v % 0x1_0000_0000 ==
            v % 0x100 + 0x100 * (v / 0x100 % 0x100) + 0x1_0000 * (v / 0x1_0000 % 0x100) + 0x100_0000 * (v / 0x100_0000 % 0x100)
  {
    var q1 := v / 0x100;
    var q2, q3, q4 := q1 / 0x100, q1 / 0x1_0000, q1 / 0x100_0000;
    assert q2 == v / 0x1_0000 && q3 == v / 0x100_0000 && q4 == v / 0x1_0000_0000;
    assert v == 0x100 * q1 + v % 0x100;
    assert q1 == 0x100 * q2 + q1 % 0x100;
    assert q2 == 0x100 * q3 + q2 % 0x100;
    assert q3 == 0x100 * q4 + q3 % 0x100;
  }

  /** ST_WORD truncates its value to 16 bits. */
  function StWord(s: seq<byte>, i: nat, v: nat): (r: seq<byte>)
    requires i + 2 <= |s|
    ensures |r| == |s|
    ensures forall k :: 0 <= k < |s| && !(i <= k < i + 2) ==> r[k] == s[k]
    ensures LdWord(r, i) == v % 0x1_0000
  {
    s[i := v % 0x100][i + 1 := v / 0x100 % 0x100]
  }

  /** ST_DWORD truncates its value to 32 bits. */
  function StDword(s: seq<byte>, i: nat, v: nat): (r: seq<byte>)
    requires i + 4 <= |s|
    ensures |r| == |s|
    ensures forall k :: 0 <= k < |s| && !(i <= k < i + 4) ==> r[k] == s[k]
    ensures LdDword(r, i) == v % 0x1_0000_0000
  {
    Digits(v);
    s[i := v % 0x100][i + 1 := v / 0x100 % 0x100][i + 2 := v / 0x1_0000 % 0x100][i + 3 := v / 0x100_0000 % 0x100]
  }

  /** Words of a slice are words of the whole. */
  lemma LdSlice(s: seq<byte>, a: nat, b: nat, i: nat)
    requires a <= b <= |s|
    ensures a + i + 2 <= b ==> LdWord(s[a..b], i) == LdWord(s, a + i)
    ensures a + i + 4 <= b ==> LdDword(s[a..b], i) == LdDword(s, a + i)
  {
  }

  /** A store leaves the words it does not touch. */
  lemma StElsewhere(s: seq<byte>, i: nat, v: nat, j: nat)
    requires i + 4 <= |s| && (j + 4 <= i || i + 4 <= j)
    ensures j + 4 <= |s| ==> LdDword(StDword(s, i, v), j) == LdDword(s, j)
    ensures j + 2 <= |s| ==> LdWord(StDword(s, i, v), j) == LdWord(s, j)
  {
  }
}
