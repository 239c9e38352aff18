/**
 IPv6 addresses and the texts that stand for them: sections 2.2 and 2.5.5 of RFC 4291, widened by
 what the parser also lets through: a colon in front of the first group, a "::" that stands for no
 group at all, characters between "ffff" and its colon, and all that `sscanf` takes for a group,
 which may start with white space, a sign and "0X".
 */
module Ipv6Text {
  import opened Basics
  import opened Numerals
  import Ipv4Text

  /** The eight 16-bit words of an address, each after conversion to host order. */
  type Words = w: seq<word> | |w| == 8 witness [0, 0, 0, 0, 0, 0, 0, 0]

  /** The sixteen bytes of an address, in network order. */
  type Bytes = b: seq<byte> | |b| == 16 witness [0, 0, 0, 0, 0, 0, 0, 0, 0, 0, 0, 0, 0, 0, 0, 0]

  function Short(b: Bytes, i: nat): word
    requires i < 8
  {
    MakeWord(b[2 * i], b[2 * i + 1])
  }

  function ToBytes(w: Words): (b: Bytes)
    ensures forall i :: 0 <= i < 8 ==> b[2 * i] == High(w[i]) && b[2 * i + 1] == Low(w[i])
  {
    [High(w[0]), Low(w[0]), High(w[1]), Low(w[1]), High(w[2]), Low(w[2]), High(w[3]), Low(w[3]),
     High(w[4]), Low(w[4]), High(w[5]), Low(w[5]), High(w[6]), Low(w[6]), High(w[7]), Low(w[7])]
  }

  function ToWords(b: Bytes): (w: Words)
    ensures forall i :: 0 <= i < 8 ==> w[i] == Short(b, i)
  {
    [Short(b, 0), Short(b, 1), Short(b, 2), Short(b, 3), Short(b, 4), Short(b, 5), Short(b, 6), Short(b, 7)]
  }

  /** Bytes and words determine each other. */
  lemma BytesAndWords(b: Bytes, w: Words)
    ensures ToBytes(ToWords(b)) == b
    ensures ToWords(ToBytes(w)) == w
  {
    forall i | 0 <= i < 8
      ensures ToWords(ToBytes(w))[i] == w[i]
    {
      assert MakeWord(High(w[i]), Low(w[i])) == w[i];
    }
    forall k | 0 <= k < 16
      ensures ToBytes(ToWords(b))[k] == b[k]
    {
      var i := k / 2;
      assert ToWords(b)[i] == MakeWord(b[2 * i], b[2 * i + 1]);
      assert High(ToWords(b)[i]) == b[2 * i] && Low(ToWords(b)[i]) == b[2 * i + 1];
      assert k == 2 * i || k == 2 * i + 1;
    }
  }

  // ---------------------------------------------------------------- groups

  /**
   What `sscanf` reads as one "%hx" of a field width: white space, which the width does not count,
   and a number within the width.
   */
  predicate IsScanned(g: string, width: nat) {
    |g| - Blanks(g) <= width && IsSigned(g[Blanks(g)..], 16)
  }

  predicate IsGroup(g: string) {
    IsScanned(g, 4)
  }

  lemma ScannedWhole(g: string, width: nat)
    requires IsScanned(g, width)
    ensures IsScanned(g, |g|) && Blanks(g) < |g|
  {}

  predicate AllGroups(gs: seq<string>) {
    forall i :: 0 <= i < |gs| ==> IsGroup(gs[i])
  }

  /** The number as an `unsigned short`: a negative one wraps around. */
  function GroupValue(g: string): word
    requires IsGroup(g)
  {
    SignedValue(g[Blanks(g)..], 16) % 0x1_0000
  }

  /** One to four hexadecimal digits are a group with their own value. */
  lemma DigitGroup(g: string)
    requires 1 <= |g| <= 4 && AllDigits(g, 16)
    ensures IsGroup(g) && GroupValue(g) == Value(g, 16)
  {
    hide Value, Blanks, PrefixLength, IsDigit;
    NoPrefix(g, 16);
    assert g[0..] == g;
    ValueBound(g, 16);
    assert Power(16, 1) == 16 && Power(16, 2) == 256 && Power(16, 3) == 4096 && Power(16, 4) == 65536;
  }

  /** What the printer writes for a word is a group that stands for it. */
  lemma WordGroup(v: word)
    ensures IsGroup(Text(v, 16)) && GroupValue(Text(v, 16)) == v
  {
    hide Value, Text, IsGroup, GroupValue;
    WordText(v);
    DigitGroup(Text(v, 16));
  }

  /** The characters a group can hold. */
  predicate GroupChar(c: char) {
    IsDigit(c, 16) || IsBlank(c) || c == '+' || c == '-' || c == 'X'
  }

  lemma GroupChars(g: string)
    requires IsGroup(g)
    ensures g != "" && forall i :: 0 <= i < |g| ==> GroupChar(g[i])
  {
    BlanksAre(g);
    var k := Blanks(g);
    var p := k + PrefixLength(g[k..], 16);
    forall i | 0 <= i < |g|
      ensures GroupChar(g[i])
    {
      if i >= p {
        assert g[i] == g[k..][PrefixLength(g[k..], 16)..][i - p];
      } else if i >= k {
        assert g[i] == g[k..][i - k];
      }
    }
  }

  function Values(gs: seq<string>): (ws: seq<word>)
    requires AllGroups(gs)
    ensures |ws| == |gs|
    ensures forall i :: 0 <= i < |gs| ==> ws[i] == GroupValue(gs[i])
  {
    if gs == [] then [] else [GroupValue(gs[0])] + Values(gs[1..])
  }

  /** Groups separated by single colons. */
  function Join(gs: seq<string>): string {
    if gs == [] then ""
    else if |gs| == 1 then gs[0]
    else gs[0] + (":" + Join(gs[1..]))
  }

  // ---------------------------------------------------------------- texts

  /** What may stand between the "::" and a dotted tail. */
  datatype Mapping = Compatible | Mapped(ffff: string, junk: string)

  datatype Form =
    | Full(colon: bool, groups: seq<string>)
    | Compressed(colon: bool, left: seq<string>, right: seq<string>)
    | Tail(mapping: Mapping, v4: string)

  predicate ValidMapping(m: Mapping) {
    m.Mapped? ==>
      && |m.ffff| == 4 && IsGroup(m.ffff) && GroupValue(m.ffff) == 0xFFFF
      && ':' !in m.junk && 'x' !in m.junk
      && (m.junk == "" || !IsDigit(m.junk[0], 16))
  }

  predicate ValidForm(f: Form) {
    match f
    case Full(_, gs) => |gs| == 8 && AllGroups(gs)
    case Compressed(colon, l, r) =>
      && |l| + |r| <= 8 && |l| <= 7
      && AllGroups(l) && AllGroups(r) && (colon ==> l != [])
    case Tail(m, v4) => ValidMapping(m) && Ipv4Text.ParseV4(v4).Some?
  }

  function Lead(colon: bool): string {
    if colon then ":" else ""
  }

  function MappingText(m: Mapping): string {
    if m.Mapped? then m.ffff + m.junk + ":" else ""
  }

  function FormText(f: Form): string {
    match f
    case Full(colon, gs) => Lead(colon) + Join(gs)
    case Compressed(colon, l, r) => Lead(colon) + (Join(l) + ("::" + Join(r)))
    case Tail(m, v4) => "::" + (MappingText(m) + v4)
  }

  function TailWords(mapped: bool, a: Ipv4Text.Ipv4): Words {
    [0, 0, 0, 0, 0, if mapped then 0xFFFF else 0, MakeWord(a[0], a[1]), MakeWord(a[2], a[3])]
  }

  /** The address a text stands for: "::" stands for as many zero words as are missing. */
  function FormWords(f: Form): Words
    requires ValidForm(f)
  {
    match f
    case Full(_, gs) => Values(gs)
    case Compressed(_, l, r) => Values(l) + Zeros(8 - |l| - |r|) + Values(r)
    case Tail(m, v4) => TailWords(m.Mapped?, Ipv4Text.ParseV4(v4).value)
  }
}
