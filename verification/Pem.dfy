/** The browser's PEM printer and reader. Base64 is section 4 of RFC 4648; the block layout is section 2 of RFC 7468. */
module Pem {
  import opened Common

  type Byte = b: int | 0 <= b < 256

  // ---------------------------------------------------------------- base64

  predicate IsSymbol(c: char) {
    'A' <= c <= 'Z' || 'a' <= c <= 'z' || '0' <= c <= '9' || c == '+' || c == '/'
  }

  function Symbol(n: nat): (c: char)
    requires n < 64
    ensures IsSymbol(c) && SymbolValue(c) == n
  {
    if n < 26 then 'A' + n as char
    else if n < 52 then 'a' + (n - 26) as char
    else if n < 62 then '0' + (n - 52) as char
    else if n == 62 then '+' else '/'
  }

  function SymbolValue(c: char): (n: nat)
    requires IsSymbol(c)
    ensures n < 64
  {
    if 'A' <= c <= 'Z' then c as int - 'A' as int
    else if 'a' <= c <= 'z' then c as int - 'a' as int + 26
    else if '0' <= c <= '9' then c as int - '0' as int + 52
    else if c == '+' then 62 else 63
  }

  /** Three bytes are four symbols. */
  function Quad(x: Byte, y: Byte, z: Byte): string {
    [Symbol(x / 4), Symbol(x % 4 * 16 + y / 16), Symbol(y % 16 * 4 + z / 64), Symbol(z % 64)]
  }

  /** `btoa` on the bytes of a binary string. */
  function Btoa(bytes: seq<Byte>): string {
    if bytes == [] then ""
    else if |bytes| == 1 then [Symbol(bytes[0] / 4), Symbol(bytes[0] % 4 * 16), '=', '=']
    else if |bytes| == 2 then
      [Symbol(bytes[0] / 4), Symbol(bytes[0] % 4 * 16 + bytes[1] / 16), Symbol(bytes[1] % 16 * 4), '=']
    else
      Quad(bytes[0], bytes[1], bytes[2]) + Btoa(bytes[3..])
  }

  /** The bytes of unpadded symbols; bits that do not fill a byte are dropped. */
  function Groups(s: string): Option<seq<Byte>> {
    if s == "" then Some([])
    else if |s| == 1 || !IsSymbol(s[0]) || !IsSymbol(s[1]) then None
    else
      var a, b := SymbolValue(s[0]), SymbolValue(s[1]);
      if |s| == 2 then Some([a * 4 + b / 16])
      else if !IsSymbol(s[2]) then None
      else
        var c := SymbolValue(s[2]);
        if |s| == 3 then Some([a * 4 + b / 16, b % 16 * 16 + c / 4])
        else if !IsSymbol(s[3]) then None
        else
          var rest := Groups(s[4..]);
          if rest.None? then None
          else Some([a * 4 + b / 16, b % 16 * 16 + c / 4, c % 4 * 64 + SymbolValue(s[3])] + rest.value)
  }

  /** At most two trailing `=` go, and only from a text of whole groups. */
  function Unpadded(s: string): string {
    if |s| % 4 != 0 || s == "" || s[|s| - 1] != '=' then s
    else if s[|s| - 2] == '=' then s[..|s| - 2] else s[..|s| - 1]
  }

  /** `atob`; None where it throws. */
  function Atob(s: string): Option<seq<Byte>> { Groups(Unpadded(s)) }

  /** White space and line ends, as `\s` and `trimEnd` take them. */
  predicate IsSpace(c: char) {
    || '\t' <= c <= '\r' || c == ' ' || c == '\U{a0}' || c == '\U{1680}' || '\U{2000}' <= c <= '\U{200a}'
    || c == '\U{2028}' || c == '\U{2029}' || c == '\U{202f}' || c == '\U{205f}' || c == '\U{3000}' || c == '\U{feff}'
  }

  function WithoutSpace(s: string): string {
    if s == "" then "" else (if IsSpace(s[0]) then "" else [s[0]]) + WithoutSpace(s[1..])
  }

  function DecodeText(s: string): Option<seq<Byte>> { Atob(WithoutSpace(s)) }

  function Binary(bytes: seq<Byte>): (s: string)
    ensures |s| == |bytes| && forall i :: 0 <= i < |s| ==> s[i] == bytes[i] as char
  {
    if bytes == [] then "" else [bytes[0] as char] + Binary(bytes[1..])
  }

  /** `btoa` proper, on a binary string. */
  function BtoaText(binary: string): string
    requires forall i :: 0 <= i < |binary| ==> binary[i] as int < 256
  {
    Btoa(seq(|binary|, i requires 0 <= i < |binary| => binary[i] as Byte))
  }

  method Base64(bytes: seq<Byte>) returns (text: string)
    ensures text == Btoa(bytes)
  {
    var binary := "";
    for i := 0 to |bytes|
      invariant |binary| == i && forall k :: 0 <= k < i ==> binary[k] == bytes[k] as char
    {
      binary := binary + [bytes[i] as char];
    }
    text := BtoaText(binary);
    assert seq(|binary|, i requires 0 <= i < |binary| => binary[i] as Byte) == bytes;
  }

  method DecodeBase64(value: string) returns (bytes: Option<seq<Byte>>)
    ensures bytes == DecodeText(value)
  {
    var decoded := Atob(WithoutSpace(value));
    if decoded.None? {
      return None;
    }
    var binary := Binary(decoded.value);
    var buffer := new Byte[|binary|];
    var index := 0;
    while index < |binary|
      invariant index <= |binary|
      invariant buffer[..index] == decoded.value[..index]
    {
      buffer[index] := binary[index] as Byte;
      index := index + 1;
    }
    assert buffer[..] == buffer[..index] == decoded.value;
    return Some(buffer[..]);
  }

  ghost predicate Symbols(s: string) {
    forall i :: 0 <= i < |s| ==> IsSymbol(s[i]) || s[i] == '='
  }

  lemma ShapeAfter(a: string, b: string)
    requires |a| == 4 && |b| % 4 == 0 && Symbols(b)
    requires forall i :: 0 <= i < 4 ==> IsSymbol(a[i])
    requires b != "" ==> forall i :: 0 <= i < |b| - 2 ==> IsSymbol(b[i])
    ensures Symbols(a + b) && |a + b| % 4 == 0 && forall i :: 0 <= i < |a + b| - 2 ==> IsSymbol((a + b)[i])
  {
  }

  lemma {:induction false} BtoaShape(bytes: seq<Byte>)
    ensures var s := Btoa(bytes);
            && Symbols(s) && |s| % 4 == 0 && (s == "" <==> bytes == [])
            && (s != "" ==> forall i :: 0 <= i < |s| - 2 ==> IsSymbol(s[i]))
  {
    if |bytes| > 2 {
      BtoaShape(bytes[3..]);
      ShapeAfter(Quad(bytes[0], bytes[1], bytes[2]), Btoa(bytes[3..]));
    }
  }

  /** `atob` undoes `btoa`. */
  lemma {:induction false} AtobBtoa(bytes: seq<Byte>)
    ensures Atob(Btoa(bytes)) == Some(bytes)
  {
    if |bytes| > 2 {
      var rest := bytes[3..];
      AtobBtoa(rest);
      AtobStep(bytes[0], bytes[1], bytes[2], rest);
      assert bytes == [bytes[0], bytes[1], bytes[2]] + rest;
    } else if |bytes| == 2 {
      assert bytes == [bytes[0], bytes[1]];
      LastTwo(bytes[0], bytes[1]);
    } else if |bytes| == 1 {
      assert bytes == [bytes[0]];
      LastOne(bytes[0]);
    } else {
      LastNone();
    }
  }

  lemma LastNone()
    ensures Atob(Btoa([])) == Some([])
  {
  }

  /** How symbols of known values decode. */
  lemma Decode(s: string, a: nat, b: nat, c: nat, d: nat)
    requires |s| >= 4 && IsSymbol(s[0]) && IsSymbol(s[1]) && IsSymbol(s[2]) && IsSymbol(s[3])
    requires SymbolValue(s[0]) == a && SymbolValue(s[1]) == b && SymbolValue(s[2]) == c && SymbolValue(s[3]) == d
    requires Groups(s[4..]).Some?
    ensures Groups(s) == Some([a * 4 + b / 16, b % 16 * 16 + c / 4, c % 4 * 64 + d] + Groups(s[4..]).value)
  {
  }

  lemma NextGroup(x: Byte, y: Byte, z: Byte, rest: string)
    requires Groups(rest).Some?
    ensures Groups(Quad(x, y, z) + rest) == Some([x, y, z] + Groups(rest).value)
  {
    var s := Quad(x, y, z) + rest;
    assert s[4..] == rest;
    Decode(s, x / 4, x % 4 * 16 + y / 16, y % 16 * 4 + z / 64, z % 64);
    FullGroup(x, y, z);
  }

  lemma DecodeThree(s: string, a: nat, b: nat, c: nat)
    requires |s| == 4 && IsSymbol(s[0]) && IsSymbol(s[1]) && IsSymbol(s[2]) && s[3] == '='
    requires SymbolValue(s[0]) == a && SymbolValue(s[1]) == b && SymbolValue(s[2]) == c
    ensures Atob(s) == Some([a * 4 + b / 16, b % 16 * 16 + c / 4])
  {
    assert Unpadded(s) == s[..3];
  }

  lemma DecodeTwo(s: string, a: nat, b: nat)
    requires |s| == 4 && IsSymbol(s[0]) && IsSymbol(s[1]) && s[2] == '=' && s[3] == '='
    requires SymbolValue(s[0]) == a && SymbolValue(s[1]) == b
    ensures Atob(s) == Some([a * 4 + b / 16])
  {
    assert Unpadded(s) == s[..2];
  }

  lemma AtobGroup(x: Byte, y: Byte, z: Byte, tail: string)
    requires |tail| % 4 == 0 && Atob(tail).Some?
    ensures Atob(Quad(x, y, z) + tail) == Some([x, y, z] + Atob(tail).value)
  {
    UnpaddedTail(Quad(x, y, z), tail);
    NextGroup(x, y, z, Unpadded(tail));
  }

  lemma AtobStep(x: Byte, y: Byte, z: Byte, rest: seq<Byte>)
    requires Atob(Btoa(rest)) == Some(rest)
    ensures Atob(Btoa([x, y, z] + rest)) == Some([x, y, z] + rest)
  {
    BtoaShape(rest);
    AtobGroup(x, y, z, Btoa(rest));
    assert ([x, y, z] + rest)[3..] == rest;
  }

  lemma LastTwo(x: Byte, y: Byte)
    ensures Atob(Btoa([x, y])) == Some([x, y])
  {
    var s := Btoa([x, y]);
    assert s == [Symbol(x / 4), Symbol(x % 4 * 16 + y / 16), Symbol(y % 16 * 4), '='];
    DecodeThree(s, x / 4, x % 4 * 16 + y / 16, y % 16 * 4);
    FullGroup(x, y, 0);
  }

  lemma LastOne(x: Byte)
    ensures Atob(Btoa([x])) == Some([x])
  {
    var s := Btoa([x]);
    assert s == [Symbol(x / 4), Symbol(x % 4 * 16), '=', '='];
    DecodeTwo(s, x / 4, x % 4 * 16);
    FullGroup(x, 0, 0);
  }

  lemma UnpaddedTail(head: string, tail: string)
    requires |head| == 4 && |tail| % 4 == 0 && IsSymbol(head[3])
    ensures Unpadded(head + tail) == head + Unpadded(tail)
  {
    if tail == "" {
      assert head + tail == head;
    } else {
      assert (head + tail)[|head + tail| - 1] == tail[|tail| - 1];
      assert (head + tail)[|head + tail| - 2] == tail[|tail| - 2];
    }
  }

  lemma FullGroup(x: Byte, y: Byte, z: Byte)
    ensures x / 4 * 4 + (x % 4 * 16 + y / 16) / 16 == x
    ensures (x % 4 * 16 + y / 16) % 16 * 16 + (y % 16 * 4 + z / 64) / 4 == y
    ensures (y % 16 * 4 + z / 64) % 4 * 64 + z % 64 == z
  {
  }

  /** Different byte strings have different base64 texts. */
  lemma BtoaInjective(a: seq<Byte>, b: seq<Byte>)
    requires Btoa(a) == Btoa(b)
    ensures a == b
  {
    AtobBtoa(a);
    AtobBtoa(b);
  }

  /** The alphabet of base64: capitals, small letters, digits, plus and slash. */
  lemma SymbolLooks(n: nat)
    requires n < 63
    ensures Symbol(0) == 'A' && Symbol(26) == 'a' && Symbol(52) == '0' && Symbol(62) == '+' && Symbol(63) == '/'
    ensures n !in {25, 51, 61, 62} ==> Symbol(n + 1) == Symbol(n) + 1 as char
  {
  }

  /** The number a run of symbols stands for, six bits each. */
  function Bits(s: string): nat
    requires forall i :: 0 <= i < |s| ==> IsSymbol(s[i])
  {
    if s == "" then 0 else Bits(s[..|s| - 1]) * 64 + SymbolValue(s[|s| - 1])
  }

  lemma BitsOf(s: string, values: seq<nat>)
    requires 2 <= |s| <= 4 && |values| == |s|
    requires forall i :: 0 <= i < |s| ==> IsSymbol(s[i]) && SymbolValue(s[i]) == values[i]
    ensures Bits(s) == (if |s| == 2 then values[0] * 64 + values[1]
                        else if |s| == 3 then (values[0] * 64 + values[1]) * 64 + values[2]
                        else ((values[0] * 64 + values[1]) * 64 + values[2]) * 64 + values[3])
  {
    assert Bits(s[..0]) == 0;
    assert s[..1][..0] == s[..0] && Bits(s[..1]) == values[0];
    assert s[..2][..1] == s[..1] && Bits(s[..2]) == values[0] * 64 + values[1];
    if |s| == 2 { assert s[..2] == s; } else {
      assert s[..3][..2] == s[..2] && Bits(s[..3]) == Bits(s[..2]) * 64 + values[2];
      if |s| == 3 { assert s[..3] == s; }
    }
  }

  /** Encoding group by group: 24 bits are four symbols. */
  lemma FullGroupOf(x: Byte, y: Byte, z: Byte, rest: seq<Byte>)
    ensures |Btoa([x, y, z] + rest)| >= 4 && Btoa([x, y, z] + rest)[4..] == Btoa(rest)
    ensures var s := Btoa([x, y, z] + rest)[..4];
            (forall i :: 0 <= i < 4 ==> IsSymbol(s[i])) && Bits(s) == x * 65536 + y * 256 + z
  {
    assert ([x, y, z] + rest)[3..] == rest;
    var q := Quad(x, y, z);
    assert Btoa([x, y, z] + rest) == q + Btoa(rest);
    assert (q + Btoa(rest))[..4] == q;
    BitsOf(q, [x / 4, x % 4 * 16 + y / 16, y % 16 * 4 + z / 64, z % 64]);
  }

  /** At the end 16 bits are three symbols and a padding sign, the two bits left over being zero. */
  lemma TwoBytesOf(x: Byte, y: Byte)
    ensures var s := Btoa([x, y]);
            |s| == 4 && s[3] == '=' && (forall i :: 0 <= i < 3 ==> IsSymbol(s[i])) && Bits(s[..3]) == (x * 256 + y) * 4
  {
    BitsOf(Btoa([x, y])[..3], [x / 4, x % 4 * 16 + y / 16, y % 16 * 4]);
  }

  /** And 8 bits are two symbols and two padding signs, four bits left over being zero. */
  lemma OneByteOf(x: Byte)
    ensures var s := Btoa([x]);
            |s| == 4 && s[2] == s[3] == '=' && IsSymbol(s[0]) && IsSymbol(s[1]) && Bits(s[..2]) == x * 16
  {
    BitsOf(Btoa([x])[..2], [x / 4, x % 4 * 16]);
  }

  /** Decoding takes symbols only, in any number but one more than whole groups. */
  lemma {:induction false} GroupsAccept(s: string)
    ensures Groups(s).Some? <==> |s| % 4 != 1 && forall i :: 0 <= i < |s| ==> IsSymbol(s[i])
  {
    if |s| >= 4 {
      GroupsAccept(s[4..]);
      assert forall i :: 4 <= i < |s| ==> s[i] == s[4..][i - 4];
    }
  }

  /** White space of any kind inside an encoded text makes no difference. */
  lemma SpaceIgnored(a: string, c: char, b: string)
    requires c in {' ', '\t', '\n', '\U{b}', '\U{c}', '\r', '\U{a0}', '\U{feff}'}
    ensures DecodeText(a + [c] + b) == DecodeText(a + b)
  {
    WithoutSpaceConcat(a + [c], b);
    WithoutSpaceConcat(a, [c]);
    WithoutSpaceConcat(a, b);
    assert [c][1..] == "" && WithoutSpace([c]) == "";
    assert WithoutSpace(a) + "" == WithoutSpace(a);
  }

  // ---------------------------------------------------------------- printing a block

  const BEGIN := "-----BEGIN CERTIFICATE-----"
  const END := "-----END CERTIFICATE-----"
  const WIDTH: nat := 64

  /** Every run of 64 characters gets a line break after it. */
  function Broken(s: string): string {
    if |s| < WIDTH then s else s[..WIDTH] + "\n" + Broken(s[WIDTH..])
  }

  function TrimEnd(s: string): string {
    if s != "" && IsSpace(s[|s| - 1]) then TrimEnd(s[..|s| - 1]) else s
  }

  function Body(der: seq<Byte>): string { TrimEnd(Broken(Btoa(der))) }

  function ToPem(der: seq<Byte>): string { BEGIN + ("\n" + Body(der) + "\n") + END + "\n" }

  /** The lines of a body. */
  function Lines(s: string): (r: seq<string>)
    ensures r != []
  {
    if |s| <= WIDTH then [s] else [s[..WIDTH]] + Lines(s[WIDTH..])
  }

  function JoinLines(lines: seq<string>): string
    requires lines != []
  {
    if |lines| == 1 then lines[0] else lines[0] + "\n" + JoinLines(lines[1..])
  }

  lemma {:induction false} TrimEndAfter(a: string, b: string)
    requires b != "" && !IsSpace(b[|b| - 1])
    ensures TrimEnd(a + b) == a + b
  {
    assert (a + b)[|a + b| - 1] == b[|b| - 1];
  }

  lemma {:induction false} TrimEndKeeps(a: string, b: string)
    requires TrimEnd(b) != ""
    ensures TrimEnd(a + b) == a + TrimEnd(b)
    decreases |b|
  {
    assert (a + b)[|a + b| - 1] == b[|b| - 1];
    if IsSpace(b[|b| - 1]) {
      assert (a + b)[..|a + b| - 1] == a + b[..|b| - 1];
      TrimEndKeeps(a, b[..|b| - 1]);
    }
  }

  /** The body is the base64 text in lines of 64, only the last of which may be shorter. */
  lemma {:induction false} BodyLines(s: string)
    requires Symbols(s)
    ensures TrimEnd(Broken(s)) == JoinLines(Lines(s))
    ensures forall i :: 0 <= i < |Lines(s)| - 1 ==> |Lines(s)[i]| == 64
    ensures |Lines(s)[|Lines(s)| - 1]| <= 64 && (Lines(s)[|Lines(s)| - 1] == "" <==> s == "")
  {
    if |s| < WIDTH {
      if s != "" { TrimEndAfter("", s); assert "" + s == s; }
    } else if |s| == WIDTH {
      assert s[..WIDTH] == s && s[WIDTH..] == "";
      assert Broken(s) == s + "\n";
      assert (s + "\n")[..|s|] == s;
      TrimEndAfter("", s);
      assert "" + s == s;
    } else {
      var rest := s[WIDTH..];
      BodyLines(rest);
      JoinedNonEmpty(rest);
      assert Broken(s) == (s[..WIDTH] + "\n") + Broken(rest);
      TrimEndKeeps(s[..WIDTH] + "\n", Broken(rest));
      assert Lines(s) == [s[..WIDTH]] + Lines(rest);
      assert Lines(s)[1..] == Lines(rest);
      assert forall i :: 0 < i < |Lines(s)| ==> Lines(s)[i] == Lines(rest)[i - 1];
    }
  }

  lemma MarkersLook()
    ensures BEGIN == "-----BEGIN CERTIFICATE-----" && END == "-----END CERTIFICATE-----"
  {
  }

  /** A printed block is its body between its two markers, each on a line of its own. */
  lemma BlockLooks(der: seq<Byte>)
    ensures ToPem(der) == BEGIN + "\n" + JoinLines(Lines(Btoa(der))) + "\n" + END + "\n"
  {
    BtoaShape(der);
    BodyLines(Btoa(der));
    Bracketed(BEGIN, Body(der), END);
  }

  lemma Bracketed(a: string, b: string, c: string)
    ensures a + ("\n" + b + "\n") + c + "\n" == a + "\n" + b + "\n" + c + "\n"
  {
  }

  lemma JoinedNonEmpty(s: string)
    requires s != ""
    ensures JoinLines(Lines(s)) != ""
  {
  }

  lemma {:induction false} SpaceGone(s: string)
    requires Symbols(s)
    ensures WithoutSpace(s) == s
  {
    if s != "" { SpaceGone(s[1..]); }
  }

  lemma {:induction false} WithoutSpaceConcat(a: string, b: string)
    ensures WithoutSpace(a + b) == WithoutSpace(a) + WithoutSpace(b)
  {
    if a == "" { assert a + b == b; }
    else {
      assert (a + b)[1..] == a[1..] + b;
      WithoutSpaceConcat(a[1..], b);
    }
  }

  lemma BreakIsSpace()
    ensures WithoutSpace("\n") == ""
  {
    assert "\n"[1..] == "";
  }

  lemma BreakGone(a: string, b: string)
    ensures WithoutSpace(a + "\n" + b) == WithoutSpace(a) + WithoutSpace(b)
  {
    WithoutSpaceConcat(a + "\n", b);
    WithoutSpaceConcat(a, "\n");
    BreakIsSpace();
  }

  ghost predicate NoDash(s: string) { forall i :: 0 <= i < |s| ==> s[i] != '-' }

  lemma JoinFirst(s: string)
    requires |s| > WIDTH
    ensures JoinLines(Lines(s)) == s[..WIDTH] + "\n" + JoinLines(Lines(s[WIDTH..]))
  {
    assert Lines(s)[1..] == Lines(s[WIDTH..]);
  }

  lemma SymbolsNoDash(s: string)
    requires Symbols(s)
    ensures NoDash(s)
  {
  }

  /** Taking the white space out of a body gives the base64 text back, and there is no dash in it. */
  lemma {:induction false} LinesRestore(s: string)
    requires Symbols(s)
    ensures WithoutSpace(JoinLines(Lines(s))) == s && NoDash(JoinLines(Lines(s)))
  {
    SymbolsNoDash(s);
    if |s| <= WIDTH {
      SpaceGone(s);
    } else {
      var first, rest := s[..WIDTH], s[WIDTH..];
      LinesRestore(rest);
      SpaceGone(first);
      JoinFirst(s);
      BreakGone(first, JoinLines(Lines(rest)));
      assert s == first + rest;
    }
  }

  // ---------------------------------------------------------------- finding blocks

  predicate StartsWith(s: string, p: string)
    ensures StartsWith(s, p) && p != "" ==> s != "" && s[0] == p[0]
  {
    p <= s
  }

  function IndexOf(s: string, p: string): (r: Option<nat>)
    ensures r.Some? ==> r.value + |p| <= |s|
  {
    if StartsWith(s, p) then Some(0)
    else if s == "" then None
    else
      var rest := IndexOf(s[1..], p);
      if rest.None? then None else Some(rest.value + 1)
  }

  /** All non-greedy matches: from a BEGIN marker to the first END marker after it, then on from there. */
  function Blocks(text: string): seq<string>
    decreases |text|, 1
  {
    var start := IndexOf(text, BEGIN);
    if start.None? then [] else BlocksAt(text[start.value..])
  }

  function BlocksAt(text: string): seq<string>
    requires |BEGIN| <= |text|
    decreases |text|, 0
  {
    var stop := IndexOf(text[|BEGIN|..], END);
    if stop.None? then []
    else
      var past := |BEGIN| + stop.value + |END|;
      [text[..past]] + Blocks(text[past..])
  }

  /** Every BEGIN or END marker is taken out. */
  function WithoutMarkers(s: string): string
    decreases |s|
  {
    if s == "" then ""
    else if StartsWith(s, BEGIN) then WithoutMarkers(s[|BEGIN|..])
    else if StartsWith(s, END) then WithoutMarkers(s[|END|..])
    else [s[0]] + WithoutMarkers(s[1..])
  }

  function DecodeAll(blocks: seq<string>): seq<Option<seq<Byte>>> {
    if blocks == [] then [] else [DecodeText(WithoutMarkers(blocks[0]))] + DecodeAll(blocks[1..])
  }

  function ParsePem(text: string): seq<Option<seq<Byte>>> { DecodeAll(Blocks(text)) }

  lemma {:induction false} SkipTo(prefix: string, rest: string, p: string)
    requires NoDash(prefix) && p != "" && p[0] == '-'
    ensures IndexOf(prefix + rest, p)
        == if IndexOf(rest, p).None? then None else Some(|prefix| + IndexOf(rest, p).value)
  {
    if prefix == "" {
      assert prefix + rest == rest;
    } else {
      var s := prefix + rest;
      assert s[0] == prefix[0];
      assert s[1..] == prefix[1..] + rest;
      SkipTo(prefix[1..], rest, p);
    }
  }

  lemma {:induction false} MarkersAround(s: string, rest: string)
    requires NoDash(s)
    ensures WithoutMarkers(s + rest) == s + WithoutMarkers(rest)
  {
    if s == "" {
      assert s + rest == rest;
    } else {
      var t := s + rest;
      assert t[0] == s[0];
      assert BEGIN[0] == '-' && END[0] == '-';
      assert t[1..] == s[1..] + rest;
      MarkersAround(s[1..], rest);
    }
  }

  /** A printed block is found as such, and the search goes on right after it. */
  lemma FirstBlock(inner: string, rest: string)
    requires NoDash(inner)
    ensures Blocks(BEGIN + inner + END + rest) == [BEGIN + inner + END] + Blocks(rest)
    ensures WithoutMarkers(BEGIN + inner + END) == inner
  {
    var text := BEGIN + inner + END + rest;
    assert text[..|BEGIN|] == BEGIN;
    assert text[|BEGIN|..] == inner + (END + rest);
    SkipTo(inner, END + rest, END);
    assert (END + rest)[..|END|] == END;
    var past := |BEGIN| + |inner| + |END|;
    assert text[..past] == BEGIN + inner + END && text[past..] == rest && text[0..] == text;
    assert (BEGIN + inner + END)[|BEGIN|..] == inner + END;
    MarkersAround(inner, END);
    assert END[..|END|] == END && END[|END|..] == "";
    assert !StartsWith(END, BEGIN);
    assert WithoutMarkers(END) == "";
    assert StartsWith(BEGIN + inner + END, BEGIN);
  }

  /** Text without a dash before the next block makes no difference. */
  lemma SkipText(prefix: string, rest: string)
    requires NoDash(prefix)
    ensures Blocks(prefix + rest) == Blocks(rest)
  {
    SkipTo(prefix, rest, BEGIN);
    var start := IndexOf(rest, BEGIN);
    if start.Some? { assert (prefix + rest)[|prefix| + start.value..] == rest[start.value..]; }
  }

  function PrintAll(ders: seq<seq<Byte>>): string {
    if ders == [] then "" else ToPem(ders[0]) + PrintAll(ders[1..])
  }

  function AllRead(ders: seq<seq<Byte>>): seq<Option<seq<Byte>>> {
    if ders == [] then [] else [Some(ders[0])] + AllRead(ders[1..])
  }

  lemma BodyRestores(der: seq<Byte>)
    ensures WithoutSpace(Body(der)) == Btoa(der) && NoDash(Body(der))
  {
    BtoaShape(der);
    BodyLines(Btoa(der));
    LinesRestore(Btoa(der));
  }

  lemma OneBlock(der: seq<Byte>)
    ensures NoDash("\n" + Body(der) + "\n")
    ensures DecodeText("\n" + Body(der) + "\n") == Some(der)
  {
    BodyRestores(der);
    LineBreaksGone(Body(der));
    AtobBtoa(der);
  }

  lemma LineBreaksGone(body: string)
    ensures WithoutSpace("\n" + body + "\n") == WithoutSpace(body)
  {
    WithoutSpaceConcat("\n" + body, "\n");
    WithoutSpaceConcat("\n", body);
    assert WithoutSpace("\n") == "" by { assert "\n"[1..] == ""; }
  }

  lemma Appended(inner: string, rest: string)
    ensures BEGIN + inner + END + "\n" + rest == BEGIN + inner + END + ("\n" + rest)
  {
  }

  lemma FirstPrinted(der: seq<Byte>, rest: string)
    ensures var block := BEGIN + ("\n" + Body(der) + "\n") + END;
            Blocks(ToPem(der) + rest) == [block] + Blocks(rest) && DecodeText(WithoutMarkers(block)) == Some(der)
  {
    var inner := "\n" + Body(der) + "\n";
    OneBlock(der);
    FirstBlock(inner, "\n" + rest);
    SkipText("\n", rest);
    Appended(inner, rest);
  }

  /** Printing any list of byte strings one after another and reading the text gives the list back. */
  lemma {:induction false} PemRoundTrip(ders: seq<seq<Byte>>)
    ensures ParsePem(PrintAll(ders)) == AllRead(ders)
  {
    if ders == [] {
      assert Blocks("") == [];
    } else {
      PemRoundTrip(ders[1..]);
      FirstPrinted(ders[0], PrintAll(ders[1..]));
      var block := BEGIN + ("\n" + Body(ders[0]) + "\n") + END;
      assert ([block] + Blocks(PrintAll(ders[1..])))[1..] == Blocks(PrintAll(ders[1..]));
    }
  }
}
