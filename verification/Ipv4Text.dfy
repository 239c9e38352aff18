/**
 Dotted IPv4 text: the printer `inet_ntop_v4` and the hand-written parser `inet_pton_v4`.
 C strings are sequences of characters without their terminating NUL; a character buffer that is
 written in place is an array.
 */
module Ipv4Text {
  import opened Basics
  import opened Numerals

  const INET_ADDRSTRLEN := 22

  /** The four bytes of an IPv4 address, in network order. */
  type Ipv4 = b: seq<byte> | |b| == 4 witness [0, 0, 0, 0]

  function Dotted(a: Ipv4): string {
    Text(a[0], 10) + "." + (Text(a[1], 10) + "." + (Text(a[2], 10) + "." + Text(a[3], 10)))
  }

  // ---------------------------------------------------------------- what the parser accepts

  /** The fields of a text in which every field but perhaps the last is ended by a dot. */
  function Fields(s: string): seq<string>
    decreases |s|
  {
    if s == "" then []
    else
      var n := IndexOf(s, '.');
      if n == |s| then [s] else [s[..n]] + Fields(s[n + 1..])
  }

  predicate IsByteField(f: string) {
    f != "" && AllDigits(f, 10) && Value(f, 10) <= 255
  }

  function FieldByte(f: string): byte {
    if IsByteField(f) then Value(f, 10) else 0
  }

  /** Four fields, each a decimal number up to 255; leading zeros and one final dot are allowed. */
  function ParseV4(s: string): (r: Option<Ipv4>) {
    var f := Fields(s);
    if |f| == 4 && forall i :: 0 <= i < 4 ==> IsByteField(f[i]) then
      Some([FieldByte(f[0]), FieldByte(f[1]), FieldByte(f[2]), FieldByte(f[3])])
    else None
  }

  /** The first field ends at the first dot. */
  lemma FieldEnd(f: string, rest: string)
    requires '.' !in f
    requires rest == "" || rest[0] == '.'
    ensures IndexOf(f + rest, '.') == |f|
  {
    assert (f + rest)[..|f|] == f;
    IndexOfIs(f + rest, '.', |f|);
  }

  /** A dot-ended field in front of a text becomes the first field. */
  lemma FieldsCons(f: string, rest: string)
    requires '.' !in f
    ensures Fields(f + "." + rest) == [f] + Fields(rest)
    ensures f != "" ==> Fields(f) == [f]
  {
    assert f + "." + rest == f + ("." + rest);
    FieldEnd(f, "." + rest);
    assert (f + "." + rest)[..|f|] == f && (f + "." + rest)[|f| + 1..] == rest;
    assert f + "" == f;
    FieldEnd(f, "");
  }

  lemma DigitsHaveNoDot(f: string)
    requires AllDigits(f, 10)
    ensures '.' !in f
  {}

  lemma PrintedField(v: byte)
    ensures IsByteField(Text(v, 10)) && FieldByte(Text(v, 10)) == v
    ensures '.' !in Text(v, 10)
  {
    ByteText(v);
    DigitsHaveNoDot(Text(v, 10));
  }

  lemma FourFields(t0: string, t1: string, t2: string, t3: string)
    requires '.' !in t0 && '.' !in t1 && '.' !in t2 && '.' !in t3 && t3 != ""
    ensures Fields(t0 + "." + (t1 + "." + (t2 + "." + t3))) == [t0, t1, t2, t3]
  {
    hide Fields;
    FieldsCons(t3, "");
    FieldsCons(t2, t3);
    FieldsCons(t1, t2 + "." + t3);
    FieldsCons(t0, t1 + "." + (t2 + "." + t3));
  }

  /** Parsing a printed address returns it. */
  lemma ParseDotted(a: Ipv4)
    ensures ParseV4(Dotted(a)) == Some(a)
  {
    hide Fields, Text, IsByteField, FieldByte;
    PrintedField(a[0]);
    PrintedField(a[1]);
    PrintedField(a[2]);
    PrintedField(a[3]);
    FourFields(Text(a[0], 10), Text(a[1], 10), Text(a[2], 10), Text(a[3], 10));
    assert a == [a[0], a[1], a[2], a[3]];
  }

  /** A printed address is 7 to 15 characters: digits and dots. */
  lemma DottedLength(a: Ipv4)
    ensures 7 <= |Dotted(a)| <= 15
    ensures '.' in Dotted(a)
    ensures forall i :: 0 <= i < |Dotted(a)| ==> Dotted(a)[i] == '.' || IsDigit(Dotted(a)[i], 10)
    ensures Dotted(a)[|Dotted(a)| - 1] != ':'
  {
    ByteText(a[0]);
    ByteText(a[1]);
    ByteText(a[2]);
    ByteText(a[3]);
    assert Dotted(a)[|Text(a[0], 10)|] == '.';
  }

  predicate DottedChars(s: string) {
    forall i :: 0 <= i < |s| ==> s[i] == '.' || IsDigit(s[i], 10)
  }

  lemma {:induction false} FieldsOf(s: string)
    requires s != ""
    ensures var n := IndexOf(s, '.'); Fields(s) == if n == |s| then [s] else [s[..n]] + Fields(s[n + 1..])
  {
    hide IndexOf;
  }

  lemma {:induction false} FieldChars(s: string)
    requires forall j :: 0 <= j < |Fields(s)| ==> AllDigits(Fields(s)[j], 10)
    ensures DottedChars(s)
    decreases |s|
  {
    hide Fields, IndexOf, IsDigit;
    if s != "" {
      FieldsOf(s);
      var n := IndexOf(s, '.');
      if n == |s| {
        assert Fields(s)[0] == s;
      } else {
        var f, rest := s[..n], s[n + 1..];
        assert Fields(s)[0] == f;
        assert forall j :: 0 <= j < |Fields(rest)| ==> Fields(rest)[j] == Fields(s)[j + 1];
        FieldChars(rest);
        assert forall i :: 0 <= i < n ==> s[i] == f[i];
        assert forall i :: n < i < |s| ==> s[i] == rest[i - n - 1];
      }
    }
  }


  lemma {:induction false} FieldsLength(s: string)
    ensures |Fields(s)| <= |s|
    decreases |s|
  {
    if s != "" && IndexOf(s, '.') < |s| {
      FieldsLength(s[IndexOf(s, '.') + 1..]);
    }
  }

  /** An accepted text is made of digits and dots, with at least one dot. */
  lemma AcceptedChars(s: string)
    requires ParseV4(s).Some?
    ensures DottedChars(s) && |s| >= 4 && '.' in s
  {
    FieldChars(s);
    FieldsLength(s);
    assert IndexOf(s, '.') < |s|;
  }

  // ---------------------------------------------------------------- exactly what is accepted

  /** Four decimal fields up to 255 with any leading zeros, separated by dots, and perhaps a last dot. */
  predicate IsFourFields(s: string, f: seq<string>, dot: bool) {
    && |f| == 4
    && (forall i :: 0 <= i < 4 ==> f[i] != "" && AllDigits(f[i], 10) && Value(f[i], 10) <= 255)
    && s == f[0] + "." + (f[1] + "." + (f[2] + "." + (f[3] + if dot then "." else "")))
  }

  function FieldValues(f: seq<string>): seq<nat>
    requires |f| == 4 && forall i :: 0 <= i < 4 ==> AllDigits(f[i], 10)
  {
    [Value(f[0], 10), Value(f[1], 10), Value(f[2], 10), Value(f[3], 10)]
  }

  /** What stands behind the first field, and how the text is made of the two. */
  lemma FirstOfFields(s: string) returns (rest: string, dot: bool)
    requires s != ""
    ensures Fields(s) == [Fields(s)[0]] + Fields(rest)
    ensures s == Fields(s)[0] + (if dot then "." else "") + rest && (rest != "" ==> dot)
  {
    hide IndexOf;
    FieldsOf(s);
    var n := IndexOf(s, '.');
    if n == |s| {
      rest, dot := "", false;
    } else {
      rest, dot := s[n + 1..], true;
      assert s == s[..n] + "." + s[n + 1..];
    }
  }

  lemma NoFields(s: string)
    requires Fields(s) == []
    ensures s == ""
  {}

  lemma NothingHasNoFields()
    ensures Fields("") == []
  {}

  lemma FieldsMake(s: string) returns (dot: bool)
    requires |Fields(s)| == 4
    ensures var f := Fields(s);
            s == f[0] + "." + (f[1] + "." + (f[2] + "." + (f[3] + if dot then "." else "")))
  {
    hide Fields;
    var f := Fields(s);
    assert s != "" by { FieldsLength(s); }
    var r0, d0 := FirstOfFields(s);
    assert Fields(r0) == f[1..];
    assert r0 != "" by { FieldsLength(r0); }
    var r1, d1 := FirstOfFields(r0);
    assert Fields(r1) == f[2..];
    assert r1 != "" by { FieldsLength(r1); }
    var r2, d2 := FirstOfFields(r1);
    assert Fields(r2) == f[3..];
    assert r2 != "" by { FieldsLength(r2); }
    var r3, d3 := FirstOfFields(r2);
    assert Fields(r3) == [];
    NoFields(r3);
    dot := d3;
  }

  lemma FieldsOfFour(s: string, f: seq<string>, dot: bool)
    requires IsFourFields(s, f, dot)
    ensures Fields(s) == f
  {
    hide Fields, Value, IsDigit;
    DigitsHaveNoDot(f[0]);
    DigitsHaveNoDot(f[1]);
    DigitsHaveNoDot(f[2]);
    DigitsHaveNoDot(f[3]);
    var last := f[3] + if dot then "." else "";
    FieldsCons(f[3], "");
    assert f[3] + "." + "" == f[3] + "." && f[3] + "" == f[3];
    NothingHasNoFields();
    assert Fields(last) == [f[3]];
    FieldsCons(f[2], last);
    FieldsCons(f[1], f[2] + "." + last);
    FieldsCons(f[0], f[1] + "." + (f[2] + "." + last));
  }

  /** The parser accepts a text as an address exactly when it is four such fields with these values. */
  lemma AcceptsExactly(s: string, a: Ipv4)
    ensures ParseV4(s) == Some(a) <==> exists f, dot :: IsFourFields(s, f, dot) && FieldValues(f) == a
  {
    hide Fields, Value, IsDigit;
    if ParseV4(s) == Some(a) {
      var dot := FieldsMake(s);
      assert IsFourFields(s, Fields(s), dot) && FieldValues(Fields(s)) == a;
    }
    forall f, dot | IsFourFields(s, f, dot) && FieldValues(f) == a
      ensures ParseV4(s) == Some(a)
    {
      FieldsOfFour(s, f, dot);
    }
  }

  /** An address as it is commonly written. */
  lemma DottedExample()
    ensures Dotted([192, 168, 44, 1]) == "192.168.44.1" && ParseV4("192.168.44.1") == Some([192, 168, 44, 1])
  {
    hide Text, ParseV4;
    DecimalExamples();
    assert "192" + "." + ("168" + "." + ("44" + "." + "1")) == "192.168.44.1";
    ParseDotted([192, 168, 44, 1]);
  }

  /** Leading zeros and one last dot are let through. */
  lemma LooseExample()
    ensures ParseV4("010.0.0.01.") == Some([10, 0, 0, 1])
  {
    hide ParseV4;
    OneDigit('0', 10);
    ValueStep("0", '1', 10);
    ValueStep("01", '0', 10);
    assert "0" + "1" == "01" && "01" + "0" == "010";
    var f := ["010", "0", "0", "01"];
    assert f[0] + "." + (f[1] + "." + (f[2] + "." + (f[3] + "."))) == "010.0.0.01.";
    assert IsFourFields("010.0.0.01.", f, true) && FieldValues(f) == [10, 0, 0, 1];
    AcceptsExactly("010.0.0.01.", [10, 0, 0, 1]);
  }

  // ---------------------------------------------------------------- the two procedures

  /** `_snprintf` of an already formatted text that fits into `size` bytes with its NUL. */
  method Snprintf(dst: array<char>, at: nat, size: int, s: string) returns (n: nat)
    requires |s| < size && at + size <= dst.Length
    modifies dst
    ensures n == |s|
    ensures dst[..] == old(dst[..at]) + s + "\0" + old(dst[at + |s| + 1..])
  {
    forall i | 0 <= i < |s| {
      dst[at + i] := s[i];
    }
    dst[at + |s|] := '\0';
    n := |s|;
  }

  /** `inet_ntop_v4`: a null result (false) leaves the buffer alone. */
  method InetNtopV4(src: Ipv4, dst: array<char>, at: nat, size: int) returns (ok: bool)
    requires 0 <= size && at + size <= dst.Length
    modifies dst
    ensures ok == (size >= INET_ADDRSTRLEN)
    ensures !ok ==> dst[..] == old(dst[..])
    ensures ok ==> at + |Dotted(src)| < dst.Length
    ensures ok ==> dst[..] == old(dst[..at]) + Dotted(src) + "\0" + old(dst[at + |Dotted(src)| + 1..])
  {
    if size < INET_ADDRSTRLEN {
      return false;
    }
    DottedLength(src);
    var _ := Snprintf(dst, at, size, Dotted(src));
    return true;
  }

  lemma FirstField(left: string)
    requires left != ""
    ensures Fields(left) != [] && Fields(left)[0] == left[..IndexOf(left, '.')]
  {}

  lemma BadFirst(left: string)
    requires left != ""
    requires var n := DigitRun(left, 10); n == 0 || (n < |left| && left[n] != '.')
    ensures !IsByteField(left[..IndexOf(left, '.')])
  {
    hide DigitRun, IndexOf, IsDigit, Value;
    var n, m := DigitRun(left, 10), IndexOf(left, '.');
    var f := left[..m];
    DotIsNoDigit();
    assert forall i :: 0 <= i < n ==> left[i] == left[..n][i];
    assert m == 0 || n < m;
    assert n < m ==> f[n] == left[n];
  }

  lemma DotIsNoDigit()
    ensures !IsDigit('.', 10)
  {}

  /** A text that starts with no digit, or whose first digits run into another character, is refused. */
  lemma BadField(src: string, done: seq<string>, left: string)
    requires left != "" && Fields(src) == done + Fields(left)
    requires var n := DigitRun(left, 10); n == 0 || (n < |left| && left[n] != '.')
    ensures ParseV4(src) == None
  {
    hide Fields, IndexOf, DigitRun, IsByteField, FieldByte;
    BadFirst(left);
    FirstField(left);
    assert Fields(src)[|done|] == left[..IndexOf(left, '.')];
  }

  /** Digits up to a dot or to the end are the first field. */
  lemma GoodField(left: string)
    requires left != ""
    requires var n := DigitRun(left, 10); n > 0 && (n == |left| || left[n] == '.')
    ensures IndexOf(left, '.') == DigitRun(left, 10)
  {
    hide IndexOf, DigitRun;
    var n, m := DigitRun(left, 10), IndexOf(left, '.');
    assert forall i :: 0 <= i < m ==> left[..m][i] == left[i];
    assert forall i :: 0 <= i < n ==> left[..n][i] == left[i];
  }

  /** More than four fields are refused, and so is a field with a value above 255. */
  lemma RefusedField(src: string, done: seq<string>, left: string)
    requires left != "" && Fields(src) == done + Fields(left)
    requires var n := DigitRun(left, 10); n > 0 && (n == |left| || left[n] == '.')
    requires |done| >= 4 || Value(left[..DigitRun(left, 10)], 10) > 255
    ensures ParseV4(src) == None
  {
    hide Fields, IndexOf, DigitRun, Value, FieldByte;
    GoodField(left);
    FirstField(left);
    assert Fields(src)[|done|] == left[..DigitRun(left, 10)];
  }

  /** What is left after an accepted field, and after the dot that follows it. */
  function AfterField(left: string): string
    requires left != ""
  {
    var n := DigitRun(left, 10);
    left[if n < |left| then n + 1 else n..]
  }

  lemma AcceptedField(src: string, done: seq<string>, left: string)
    requires left != "" && Fields(src) == done + Fields(left)
    requires var n := DigitRun(left, 10); n > 0 && (n == |left| || left[n] == '.')
    ensures Fields(src) == done + [left[..DigitRun(left, 10)]] + Fields(AfterField(left))
  {
    hide DigitRun;
    GoodField(left);
    var n := DigitRun(left, 10);
    assert n == |left| ==> left[..n] == left && left[n..] == "";
    assert Fields(left) == [left[..n]] + Fields(AfterField(left));
  }

  /** The bytes stored so far are the values of the fields read so far. */
  predicate Stored(done: seq<string>, bytes: seq<byte>) {
    |done| == |bytes| && forall i :: 0 <= i < |done| ==> IsByteField(done[i]) && bytes[i] == FieldByte(done[i])
  }

  lemma StoredNext(done: seq<string>, bytes: seq<byte>, f: string, v: byte)
    requires Stored(done, bytes) && IsByteField(f) && v == FieldByte(f)
    ensures Stored(done + [f], bytes + [v])
  {}

  lemma StoredAll(src: string, done: seq<string>, bytes: seq<byte>)
    requires Fields(src) == done && Stored(done, bytes)
    ensures ParseV4(src) == if |bytes| == 4 then Some(bytes) else None
  {
    assert |bytes| == 4 ==> bytes == [bytes[0], bytes[1], bytes[2], bytes[3]];
  }

  lemma AtStart(src: string)
    ensures src[0..] == src && Fields(src) == [] + Fields(src[0..]) && Fields("") == [] && Stored([], [])
  {
    assert src[0..] == src;
  }

  /** `inet_pton_v4`: accepts exactly the texts that ParseV4 does and stores the four bytes. */
  method InetPtonV4(src: string, dst: array<byte>) returns (ok: bool)
    requires dst.Length == 4
    modifies dst
    ensures ok == ParseV4(src).Some?
    ensures dst[..] == if ok then ParseV4(src).value else old(dst[..])
  {
    hide Fields, IndexOf, DigitRun, Value, ParseV4, Stored;
    var srcPos, found := 0, 0;
    AtStart(src);
    var result := new byte[4](_ => 0);
    ghost var done: seq<string> := [];
    while srcPos < |src|
      invariant 0 <= srcPos <= |src| && 0 <= found <= 4
      invariant |done| == found && Fields(src) == done + Fields(src[srcPos..])
      invariant Stored(done, result[..found])
      modifies result
      decreases |src| - srcPos
    {
      ghost var left := src[srcPos..];
      assert left[0] == src[srcPos];
      if !IsDigit(src[srcPos], 10) {
        BadField(src, done, left);
        return false;
      }
      var endPos := srcPos + DigitRun(src[srcPos..], 10);
      var value := Value(src[srcPos..][..endPos - srcPos], 10);
      if endPos < |src| && src[endPos] != '.' {
        BadField(src, done, left);
      } else if value > 255 || found == 4 {
        RefusedField(src, done, left);
      } else {
        AcceptedField(src, done, left);
        assert IsByteField(left[..endPos - srcPos]) && value == FieldByte(left[..endPos - srcPos]);
        StoredNext(done, result[..found], left[..endPos - srcPos], value);
      }
      if value > 255 {
        return false;
      }
      found := found + 1;
      if found > 4 {
        return false;
      }
      ghost var before := result[..found - 1];
      result[found - 1] := value;
      assert result[..found] == before + [value];
      srcPos := endPos;
      if srcPos < |src| {
        if src[srcPos] == '.' {
          srcPos := srcPos + 1;
        } else {
          return false;
        }
      }
      done := done + [left[..DigitRun(left, 10)]];
      assert src[srcPos..] == AfterField(left);
    }
    assert src[srcPos..] == "";
    StoredAll(src, done, result[..found]);
    if found != 4 {
      return false;
    }
    forall i | 0 <= i < 4 {
      dst[i] := result[i];
    }
    ok := true;
  }
}
