/**
 Types and sequence operations shared by the other modules.
 */
module Basics {
  datatype Option<+T> = None | Some(value: T)

  type byte = x: int | 0 <= x < 0x100

  type word = x: int | 0 <= x < 0x1_0000

  /** The word with the given high and low byte. */
  function MakeWord(high: byte, low: byte): (w: word)
    ensures w == 256 * high as int + low as int
    ensures High(w) == high && Low(w) == low
  {
    var h: int := high;
    0x100 * h + low
  }

  function High(w: word): byte { w / 0x100 }

  function Low(w: word): byte { w % 0x100 }

  /** n zero bytes. */
  function Zeros(n: nat): (z: seq<byte>)
    ensures |z| == n && forall i :: 0 <= i < n ==> z[i] == 0
  {
    seq(n, _ => 0)
  }

  /** A sequence without its element at i. */
  function Without<T>(s: seq<T>, i: nat): seq<T>
    requires i < |s|
  {
    s[..i] + s[i + 1..]
  }

  /** The first position of a character (`strchr`), or the length when there is none. */
  function IndexOf(s: string, c: char): (i: nat)
    ensures i <= |s| && c !in s[..i] && (i < |s| ==> s[i] == c)
  {
    if s == "" || s[0] == c then 0 else 1 + IndexOf(s[1..], c)
  }

  lemma IndexOfIs(s: string, c: char, n: nat)
    requires n <= |s| && c !in s[..n] && (n < |s| ==> s[n] == c)
    ensures IndexOf(s, c) == n
  {
    var m := IndexOf(s, c);
    assert forall i :: 0 <= i < n ==> s[..n][i] == s[i];
    assert forall i :: 0 <= i < m ==> s[..m][i] == s[i];
  }

  /** The C string at the front of a buffer: what stands before the first NUL. */
  function CStr(s: string): (t: string)
    ensures |t| <= |s| && t == s[..|t|] && '\0' !in t
    ensures |t| < |s| ==> s[|t|] == '\0'
  {
    if s == "" || s[0] == '\0' then ""
    else
      assert [s[0]] + s[1..] == s;
      [s[0]] + CStr(s[1..])
  }

  lemma CStrIs(s: string, k: nat)
    requires k < |s| && s[k] == '\0' && '\0' !in s[..k]
    ensures CStr(s) == s[..k]
  {
    var t := CStr(s);
    assert forall i :: 0 <= i < k ==> s[..k][i] == s[i];
    assert forall i :: 0 <= i < |t| ==> t[i] == s[i];
  }
}
