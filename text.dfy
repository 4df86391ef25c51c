/** Character-level behaviour of the C library calls the ticket store relies
    on: `tolower` (in the "C" locale), `strstr`, `strcmp`, the `strncpy` into
    a fixed buffer followed by an explicit terminator, and cutting a line
    at its first newline. C strings are modelled as `string` values that
    hold exactly the characters before the terminator; each `char` stands
    for one byte of the C string. */
module Text {

  /** `tolower` in the "C" locale: only the ASCII capitals change. */
  function Lower(c: char): char
  {
    if 'A' <= c <= 'Z' then (c as int + 32) as char else c
  }

  /** The lowercased copy of a string: `tolower` applied to every
      character up to the terminator. No upper-case letter is left, and
      each character is either kept or is the upper-case form of its
      replacement. */
  function LowerText(s: string): (r: string)
    ensures |r| == |s|
    ensures forall i :: 0 <= i < |s| ==> r[i] == Lower(s[i])
    ensures forall i :: 0 <= i < |r| ==> !('A' <= r[i] <= 'Z')
    ensures forall i :: 0 <= i < |r| ==> r[i] == s[i] || ('A' <= s[i] <= 'Z' && r[i] as int == s[i] as int + 32)
  {
    seq(|s|, i requires 0 <= i < |s| => Lower(s[i]))
  }

  /** `strstr(hay, needle) != NULL`: the needle starts at the front of the
      haystack or somewhere further on. The empty needle occurs everywhere,
      and a needle longer than the haystack nowhere. */
  predicate Contains(hay: string, needle: string): (r: bool)
    ensures needle == [] ==> r
    ensures r ==> |needle| <= |hay|
    decreases |hay|
  {
    needle <= hay || (|hay| > 0 && Contains(hay[1..], needle))
  }

  /** `Contains` agrees with the positional reading of `strstr`: some suffix
      of the haystack starts with the needle. */
  lemma {:induction false} ContainsIffOccurs(hay: string, needle: string)
    ensures Contains(hay, needle) <==> exists i :: 0 <= i <= |hay| && needle <= hay[i..]
    decreases |hay|
  {
    if needle <= hay {
      assert hay[0..] == hay;
    } else if |hay| == 0 {
      forall i | 0 <= i <= |hay| ensures !(needle <= hay[i..]) {
        assert hay[i..] == hay;
      }
    } else {
      ContainsIffOccurs(hay[1..], needle);
      if Contains(hay[1..], needle) {
        var i :| 0 <= i <= |hay[1..]| && needle <= hay[1..][i..];
        assert hay[1..][i..] == hay[i + 1..];
      } else {
        forall i | 0 <= i <= |hay| ensures !(needle <= hay[i..]) {
          if i == 0 {
            assert hay[0..] == hay;
          } else {
            assert hay[1..][i - 1..] == hay[i..];
          }
        }
      }
    }
  }

  /** The sign of `strcmp(a, b)` for strings without an embedded terminator:
      characters are compared by code, and a proper prefix sorts first. */
  function StrCmp(a: string, b: string): (r: int)
    ensures -1 <= r <= 1
    ensures a == b ==> r == 0
    ensures a < b ==> r == -1
    ensures b < a ==> r == 1
    decreases |a|
  {
    if |a| == 0 && |b| == 0 then 0
    else if |a| == 0 then -1
    else if |b| == 0 then 1
    else if a[0] < b[0] then -1
    else if a[0] > b[0] then 1
    else StrCmp(a[1..], b[1..])
  }

  /** Swapping the operands of `strcmp` flips the sign of its result. */
  lemma {:induction false} StrCmpAntisymmetric(a: string, b: string)
    ensures StrCmp(a, b) == -StrCmp(b, a)
    decreases |a|
  {
    if |a| > 0 && |b| > 0 && a[0] == b[0] {
      StrCmpAntisymmetric(a[1..], b[1..]);
    }
  }

  /** `strcmp` reports equality exactly for equal strings. */
  lemma {:induction false} StrCmpZeroIffEqual(a: string, b: string)
    ensures StrCmp(a, b) == 0 <==> a == b
    decreases |a|
  {
    if |a| > 0 && |b| > 0 && a[0] == b[0] {
      StrCmpZeroIffEqual(a[1..], b[1..]);
      assert a == [a[0]] + a[1..] && b == [b[0]] + b[1..];
    }
  }

  /** The order `strcmp(a, b) <= 0` is transitive. */
  lemma {:induction false} StrCmpTransitive(a: string, b: string, c: string)
    requires StrCmp(a, b) <= 0 && StrCmp(b, c) <= 0
    ensures StrCmp(a, c) <= 0
    decreases |a|
  {
    if |a| > 0 && |b| > 0 && |c| > 0 && a[0] == b[0] == c[0] {
      StrCmpTransitive(a[1..], b[1..], c[1..]);
    }
  }

  /** A copy with `strncpy` into a buffer of n + 1 bytes whose last byte is
      then set to the terminator: the first n characters. */
  function Truncate(s: string, n: nat): (r: string)
    ensures |r| <= n && r <= s
    ensures |s| <= n ==> r == s
    ensures |s| > n ==> |r| == n
  {
    if |s| <= n then s else s[..n]
  }

  /** A line cut at its first newline: everything before it, which is the
      whole line when it has no newline. */
  function UntilNewline(s: string): (r: string)
    ensures r <= s && '\n' !in r
    ensures |r| < |s| ==> s[|r|] == '\n'
    ensures '\n' !in s ==> r == s
  {
    if |s| == 0 || s[0] == '\n' then [] else [s[0]] + UntilNewline(s[1..])
  }
}
