/**
 * Small integer and C-string helpers shared by the game core, the server
 * and the client (common/util.c), plus the C integer conventions the rest
 * of the model needs: truncating division and the NUL-terminated string.
 */
module Util {

  /** Distance between two integers, used to say that a clamp picks the nearest value. */
  function Dist(a: int, b: int): nat
  {
    if a < b then b - a else a - b
  }

  /** util_min: the smaller of the two arguments. */
  function Min(a: int, b: int): (r: int)
    ensures r <= a && r <= b
    ensures r == a || r == b
  {
    if a < b then a else b
  }

  /** util_max: the larger of the two arguments. */
  function Max(a: int, b: int): (r: int)
    ensures r >= a && r >= b
    ensures r == a || r == b
  {
    if a > b then a else b
  }

  /**
   * util_clamp: the lower bound is tested first, so with an empty range
   * (lo > hi) a value below lo still gives lo.  With a proper range the
   * result is the point of [lo, hi] nearest to the value.
   */
  function Clamp(value: int, lo: int, hi: int): (r: int)
    ensures value < lo ==> r == lo
    ensures lo <= value <= hi ==> r == value
    ensures lo <= hi ==> lo <= r <= hi
    ensures lo <= hi ==> forall x :: lo <= x <= hi ==> Dist(r, value) <= Dist(x, value)
  {
    if value < lo then lo
    else if value > hi then hi
    else value
  }

  /** Clamping twice is the same as clamping once. */
  lemma {:induction false} ClampIdempotent(value: int, lo: int, hi: int)
    requires lo <= hi
    ensures Clamp(Clamp(value, lo, hi), lo, hi) == Clamp(value, lo, hi)
  {
  }

  /** C's `/` on int: the quotient truncated toward zero. */
  function CDiv(a: int, b: int): (q: int)
    requires b != 0
    ensures a >= 0 && b > 0 ==> q == a / b
    ensures a < 0 && b > 0 ==> q == -((-a) / b)
  {
    if (a >= 0) == (b > 0) then Abs(a) / Abs(b) else -(Abs(a) / Abs(b))
  }

  /**
   * C's `%` on int: the remainder takes the sign of the dividend, is
   * smaller than the divisor in size, and completes C's identity
   * (a / b) * b + a % b == a.
   */
  function CMod(a: int, b: int): (r: int)
    requires b != 0
    ensures a >= 0 && b > 0 ==> r == a % b
    ensures a < 0 ==> r <= 0
    ensures a >= 0 ==> r >= 0
    ensures Abs(r) < Abs(b)
    ensures CDiv(a, b) * b + r == a
  {
    a - CDiv(a, b) * b
  }

  function Abs(a: int): nat
  {
    if a < 0 then -a else a
  }

  /** The characters of a C string: everything before the first NUL. */
  function CStr(s: seq<char>): (r: seq<char>)
    ensures |r| <= |s| && r == s[..|r|]
    ensures '\0' !in r
    ensures |r| < |s| ==> s[|r|] == '\0'
  {
    if s == [] || s[0] == '\0' then [] else [s[0]] + CStr(s[1..])
  }

  /**
   * util_strncpy: copies at most n - 1 characters of the C string src into
   * dest, pads the rest of the first n cells with NULs (as strncpy does) and
   * always terminates dest[n - 1]; n == 0 leaves dest alone.  dest then
   * holds the longest prefix of src that fits.
   */
  method StrNCopy(dest: array<char>, src: seq<char>, n: nat)
    requires n <= dest.Length
    modifies dest
    ensures n == 0 ==> dest[..] == old(dest[..])
    ensures n > 0 ==> CStr(dest[..]) == CStr(src)[..Min(|CStr(src)|, n - 1)]
    ensures n > 0 ==> forall i :: Min(|CStr(src)|, n - 1) <= i < n ==> dest[i] == '\0'
    ensures forall i :: n <= i < dest.Length ==> dest[i] == old(dest[i])
  {
    if n == 0 {
      return;
    }
    ghost var text := CStr(src);
    var k := Min(|text|, n - 1);
    // strncpy: copy characters until src's NUL, then pad with NULs.
    var i := 0;
    var ended := false;
    while i < n - 1
      invariant 0 <= i <= n - 1
      invariant ended <==> i > |text|
      invariant forall j :: 0 <= j < i && j < |text| ==> dest[j] == text[j]
      invariant forall j :: 0 <= j < i && j >= |text| ==> dest[j] == '\0'
      invariant forall j :: n <= j < dest.Length ==> dest[j] == old(dest[j])
    {
      if !ended && i < |src| && src[i] != '\0' {
        dest[i] := src[i];
      } else {
        dest[i] := '\0';
        ended := true;
      }
      i := i + 1;
    }
    dest[n - 1] := '\0';
    CStrOfPrefix(dest[..], text, k);
  }

  /** A sequence that starts with k NUL-free characters followed by a NUL has those as its C string. */
  lemma {:induction false} CStrOfPrefix(s: seq<char>, text: seq<char>, k: nat)
    requires k <= |text| && k < |s|
    requires s[..k] == text[..k] && s[k] == '\0'
    requires '\0' !in text
    ensures CStr(s) == text[..k]
  {
    if k > 0 {
      assert s[0] == text[0];
      assert s[1..][..k - 1] == text[1..][..k - 1];
      CStrOfPrefix(s[1..], text[1..], k - 1);
      assert text[..k] == [text[0]] + text[1..][..k - 1];
    }
  }
}
