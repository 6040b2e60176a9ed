/** The pieces of C the program relies on: plain `char` (signed 8-bit, as on
    x86-64), NUL-terminated strings, `strcmp`, `strlen` and the truncating `%`. */
module CLib {

  /** A plain C `char`, read as a signed 8-bit value. */
  type CChar = c: int | -128 <= c < 128

  /** The characters of a C string in front of its NUL terminator. */
  type CStr = s: seq<CChar> | forall i | 0 <= i < |s| :: s[i] != 0

  const Space: CChar := 32

  /** The code-point-by-code-point image of an ASCII literal. */
  function FromAscii(lit: string): seq<CChar>
    requires forall i | 0 <= i < |lit| :: 0 < lit[i] as int < 128
  {
    seq(|lit|, i requires 0 <= i < |lit| => lit[i] as int)
  }

  /** A `char` read as `unsigned char`, which is how `strcmp` compares. */
  function Unsigned(c: CChar): (u: int)
    ensures 0 <= u < 256
    ensures (u - c) % 256 == 0
  {
    if c < 0 then c + 256 else c
  }

  /** The byte `strcmp` reads at the start of `s`: its first character, or the terminator. */
  function Lead(s: CStr): int
  {
    if s == [] then 0 else Unsigned(s[0])
  }

  /** `strcmp` as the C library computes it: the difference of the first pair of
      bytes (read as `unsigned char`) that differ, or 0 when none do. */
  function StrCmp(a: CStr, b: CStr): int
  {
    if a == [] || b == [] || a[0] != b[0] then Lead(a) - Lead(b)
    else StrCmp(a[1..], b[1..])
  }

  /** `strcmp` reports 0 exactly on equal strings. */
  lemma {:induction false} StrCmpZeroIff(a: CStr, b: CStr)
    ensures StrCmp(a, b) == 0 <==> a == b
  {
    if a == [] || b == [] || a[0] != b[0] {
      if a != [] && b != [] {
        assert Unsigned(a[0]) != Unsigned(b[0]);
      }
    } else {
      StrCmpZeroIff(a[1..], b[1..]);
      assert a == [a[0]] + a[1..];
      assert b == [b[0]] + b[1..];
    }
  }

  /** C's `x % 100` on `int`: the quotient is truncated toward zero, so the
      remainder takes the sign of the dividend. (Dafny's `%` is Euclidean.) */
  function CRem100(a: int): (r: int)
    ensures 0 <= a ==> 0 <= r < 100
    ensures a < 0 ==> -100 < r <= 0
    ensures (a - r) % 100 == 0
  {
    if a >= 0 then a % 100 else -((-a) % 100)
  }

  /** There is a NUL at or after position `from` of the buffer `s`. */
  predicate NulAtOrAfter(s: seq<CChar>, from: nat)
  {
    exists k | from <= k < |s| :: s[k] == 0
  }

  /** `strlen` started at `from`, as an absolute index: the first NUL at or after `from`. */
  function NulIndex(s: seq<CChar>, from: nat): (k: nat)
    requires NulAtOrAfter(s, from)
    ensures from <= k < |s| && s[k] == 0
    ensures forall j | from <= j < k :: s[j] != 0
    decreases |s| - from
  {
    if s[from] == 0 then from else NulIndex(s, from + 1)
  }

  /** The C string a NUL-terminated buffer holds. */
  function Content(s: seq<CChar>): CStr
    requires NulAtOrAfter(s, 0)
  {
    s[..NulIndex(s, 0)]
  }

  /** Writing a terminator at or before the old one cuts the string there. */
  lemma ContentAfterTerminator(s: seq<CChar>, j: nat)
    requires NulAtOrAfter(s, 0) && j <= NulIndex(s, 0)
    ensures NulAtOrAfter(s[j := 0], 0)
    ensures Content(s[j := 0]) == s[..j]
  {
    assert s[j := 0][j] == 0;
  }
}
