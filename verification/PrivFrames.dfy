/**
 The frames of the private channel: single command and result bytes, four-byte integers, socket
 handles, and strings behind their length; and the PORT argument on its way through them.
 */
module PrivFrames {
  import opened Basics
  import opened Numerals
  import Ipv4Text

  const PRIV_SOCK_GET_DATA_SOCK: byte := 1
  const PRIV_SOCK_PASV_ACTIVE: byte := 2
  const PRIV_SOCK_PASV_LISTEN: byte := 3
  const PRIV_SOCK_PASV_ACCEPT: byte := 4

  const PRIV_SOCK_RESULT_OK: byte := 1
  const PRIV_SOCK_RESULT_BAD: byte := 2

  /** `sizeof(int)` and `sizeof(SOCKET)`. */
  const INT_SIZE := 4
  const SOCKET_SIZE := 8

  /** The buffer that receives the address text on the nobody side. */
  const IP_BUFFER := 16

  type Frame = seq<byte>

  /** The bytes of a nonnegative number in memory order (little endian), n of them. */
  function Encode(v: nat, n: nat): (f: Frame)
    ensures |f| == n
  {
    if n == 0 then [] else [v % 0x100] + Encode(v / 0x100, n - 1)
  }

  function Decode(f: Frame): nat {
    if f == [] then 0
    else
      var low: nat := f[0];
      low + 0x100 * Decode(f[1..])
  }

  function Pow256(n: nat): nat {
    if n == 0 then 1 else 0x100 * Pow256(n - 1)
  }

  /** A number that fits is read back from its bytes. */
  lemma {:induction false} DecodeEncode(v: nat, n: nat)
    requires v < Pow256(n)
    ensures Decode(Encode(v, n)) == v
    decreases n
  {
    if n > 0 {
      DecodeEncode(v / 0x100, n - 1);
      assert Encode(v, n)[1..] == Encode(v / 0x100, n - 1);
    }
  }

  lemma IntFits(v: nat)
    requires v < 0x1_0000_0000
    ensures Decode(Encode(v, INT_SIZE)) == v
  {
    assert Pow256(4) == 0x1_0000_0000;
    DecodeEncode(v, INT_SIZE);
  }

  lemma HandleFits(v: nat)
    requires v < 0x1_0000_0000_0000_0000
    ensures Decode(Encode(v, SOCKET_SIZE)) == v
  {
    assert Pow256(8) == 0x1_0000_0000_0000_0000;
    DecodeEncode(v, SOCKET_SIZE);
  }

  // ---------------------------------------------------------------- text in a buffer

  function CharBytes(s: string): (f: Frame)
    ensures |f| == |s| && forall i :: 0 <= i < |s| ==> f[i] == s[i] as int % 0x100
  {
    seq(|s|, i requires 0 <= i < |s| => s[i] as int % 0x100)
  }

  /** The characters whose codes the bytes are. */
  function Chars(f: Frame): (s: string)
    ensures |s| == |f| && forall i :: 0 <= i < |f| ==> s[i] as int == f[i]
  {
    seq(|f|, i requires 0 <= i < |f| => f[i] as char)
  }

  /** A zeroed buffer with received bytes at its front. */
  function InBuffer(f: Frame): Frame
    requires |f| <= IP_BUFFER
  {
    f + Zeros(IP_BUFFER - |f|)
  }

  lemma CStringOf(s: string, rest: Frame)
    requires forall i :: 0 <= i < |s| ==> 0 < s[i] as int < 0x100
    requires rest != [] && rest[0] == 0
    ensures CStr(Chars(CharBytes(s) + rest)) == s
  {
    var t := Chars(CharBytes(s) + rest);
    assert t[..|s|] == s;
    CStrIs(t, |s|);
  }

  // ---------------------------------------------------------------- the PORT argument

  /** `struct sockaddr_in` as `do_port` fills it: an address and a port in host order. */
  datatype Addr = Addr(ip: Ipv4Text.Ipv4, port: word)

  /** `sscanf` of "%u,%u,...": the numbers that could be converted, at most count of them. */
  function ScanList(s: string, count: nat): (vs: seq<int>)
    ensures |vs| <= count
    decreases count
  {
    if count == 0 then []
    else
      match ScanNumber(s)
      case None => []
      case Some((v, rest)) =>
        if count > 1 && rest != "" && rest[0] == ',' then [v] + ScanList(rest[1..], count - 1) else [v]
  }

  /** The low byte of each number, also of one that is negative and has wrapped around. */
  function LowBytes(vs: seq<int>): (bs: seq<byte>)
    ensures |bs| == |vs| && forall i :: 0 <= i < |vs| ==> bs[i] == vs[i] % 0x100
  {
    seq(|vs|, i requires 0 <= i < |vs| => vs[i] % 0x100)
  }

  /** `do_port`: six converted numbers make an address; each is cut to a byte. */
  function DoPort(args: string): Option<Addr> {
    var v := LowBytes(ScanList(args, 6));
    if |v| == 6 then Some(Addr(v[..4], MakeWord(v[4], v[5]))) else None
  }

  /** A list of numbers as clients write it. */
  function CommaText(vs: seq<nat>): string {
    if vs == [] then ""
    else if |vs| == 1 then Text(vs[0], 10)
    else Text(vs[0], 10) + ("," + CommaText(vs[1..]))
  }

  /** A number and a comma in front of a list. */
  lemma ScanCons(v: nat, text: string, count: nat)
    requires count > 1
    ensures ScanList(Text(v, 10) + ("," + text), count) == [v] + ScanList(text, count - 1)
  {
    hide Text, ScanNumber;
    ScanText(v, "," + text);
    assert ("," + text)[1..] == text;
  }

  lemma ScanLast(v: nat, count: nat)
    requires count > 0
    ensures ScanList(Text(v, 10), count) == [v]
  {
    hide Text, ScanNumber;
    ScanText(v, "");
    assert Text(v, 10) + "" == Text(v, 10);
  }

  lemma {:induction false} ScanListPrinted(vs: seq<nat>, count: nat)
    requires vs != [] && |vs| <= count
    ensures ScanList(CommaText(vs), count) == vs
    decreases |vs|
  {
    hide Text, ScanList;
    if |vs| == 1 {
      ScanLast(vs[0], count);
    } else {
      ScanCons(vs[0], CommaText(vs[1..]), count);
      ScanListPrinted(vs[1..], count - 1);
    }
  }

  function AsNats(v: seq<byte>): (r: seq<nat>)
    ensures |r| == |v| && forall i :: 0 <= i < |v| ==> r[i] == v[i]
  {
    seq(|v|, i requires 0 <= i < |v| => v[i])
  }

  /** Six numbers up to 255 become the address h1.h2.h3.h4 and the port p1 * 256 + p2. */
  lemma PortArgument(v: seq<byte>)
    requires |v| == 6
    ensures DoPort(CommaText(AsNats(v))) == Some(Addr(v[..4], MakeWord(v[4], v[5])))
  {
    hide ScanList, CommaText, MakeWord;
    ScanListPrinted(AsNats(v), 6);
    assert LowBytes(AsNats(v)) == v;
  }

  /** Fewer than six numbers are no PORT argument. */
  lemma TooFewNumbers(vs: seq<nat>)
    requires 0 < |vs| < 6
    ensures DoPort(CommaText(vs)) == None
  {
    hide ScanList, CommaText;
    ScanListPrinted(vs, 6);
  }

  lemma {:induction false} CommaCons(v: nat, vs: seq<nat>)
    requires vs != []
    ensures CommaText([v] + vs) == Text(v, 10) + ("," + CommaText(vs))
  {
    hide Text;
    assert ([v] + vs)[1..] == vs;
  }

  lemma ExampleStrings()
    ensures "1" + ("," + ("200" + ("," + "174"))) == "1,200,174"
    ensures "192" + ("," + ("168" + ("," + ("44" + ("," + "1,200,174"))))) == "192,168,44,1,200,174"
  {}

  lemma ExampleText()
    ensures CommaText([192, 168, 44, 1, 200, 174]) == "192,168,44,1,200,174"
  {
    hide Text, CommaText;
    DecimalExamples();
    LastNumber(174);
    CommaCons(200, [174]);
    CommaCons(1, [200, 174]);
    CommaCons(44, [1, 200, 174]);
    CommaCons(168, [44, 1, 200, 174]);
    CommaCons(192, [168, 44, 1, 200, 174]);
    ExampleLists();
    ExampleStrings();
  }

  lemma LastNumber(v: nat)
    ensures CommaText([v]) == Text(v, 10)
  {}

  lemma ExampleLists()
    ensures [200] + [174] == [200, 174] && [1] + [200, 174] == [1, 200, 174]
    ensures [44] + [1, 200, 174] == [44, 1, 200, 174] && [168] + [44, 1, 200, 174] == [168, 44, 1, 200, 174]
    ensures [192] + [168, 44, 1, 200, 174] == [192, 168, 44, 1, 200, 174]
  {}

  /** The argument in the comment of `do_port`: the address 192.168.44.1 and the port 200 * 256 + 174. */
  lemma PortExample()
    ensures DoPort("192,168,44,1,200,174") == Some(Addr([192, 168, 44, 1], 51374))
  {
    hide DoPort, CommaText;
    ExampleText();
    var v: seq<byte> := [192, 168, 44, 1, 200, 174];
    assert AsNats(v) == [192, 168, 44, 1, 200, 174];
    PortArgument(v);
    assert v[..4] == [192, 168, 44, 1] && MakeWord(v[4], v[5]) == 51374;
  }

  /** Numbers on the channel, lowest byte first. */
  lemma EncodeExample()
    ensures Encode(0x01020304, 4) == [4, 3, 2, 1] && Decode([4, 3, 2, 1]) == 0x01020304
  {
    assert Encode(0x010203, 3) == [3, 2, 1];
    assert [4, 3, 2, 1][1..] == [3, 2, 1] && [3, 2, 1][1..] == [2, 1] && [2, 1][1..] == [1] && [1][1..] == [];
    assert Decode([2, 1]) == 0x0102 && Decode([3, 2, 1]) == 0x010203;
  }

  /** `inet_addr` on dotted decimal text. */
  function InetAddr(text: string): Option<Ipv4Text.Ipv4> {
    Ipv4Text.ParseV4(text)
  }

  /** What the nobody side makes of the bytes of the address text it received. */
  function TargetIp(f: Frame): Option<Ipv4Text.Ipv4>
    requires |f| <= IP_BUFFER
  {
    InetAddr(CStr(Chars(InBuffer(f))))
  }

  /** The dotted text fits the buffer with its NUL and is read back as the same address. */
  lemma DottedThroughBuffer(ip: Ipv4Text.Ipv4)
    ensures var f := CharBytes(Ipv4Text.Dotted(ip));
            7 <= |f| <= 15 && TargetIp(f) == Some(ip)
  {
    hide Ipv4Text.Dotted, Ipv4Text.ParseV4;
    var s := Ipv4Text.Dotted(ip);
    Ipv4Text.DottedLength(ip);
    forall i | 0 <= i < |s|
      ensures 0 < s[i] as int < 0x100
    {
      assert s[i] == '.' || IsDigit(s[i], 10);
    }
    CStringOf(s, Zeros(IP_BUFFER - |s|));
    Ipv4Text.ParseDotted(ip);
  }
}
